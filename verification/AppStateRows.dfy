/**
 The stored mutation MACs as the database keeps them: one row per version and index
 (whatsmeow/store/sqlstore/store.go and its schema), and the batched update of a patch
 (patchOutput in whatsmeow/appstate/decode.go).
 */
module AppStateRows {
  import opened Basics
  import opened AppStateMap

  /** whatsmeow_app_state_mutation_macs for one collection: the primary key is (version, index MAC). */
  type Rows = map<(nat, Bytes), Bytes>

  datatype Entry = Entry(indexMAC: Bytes, valueMAC: Bytes)

  lemma {:induction false} MaxExists(s: set<nat>)
    requires s != {}
    ensures exists m :: m in s && forall x :: x in s ==> x <= m
    decreases |s|
  {
    var x :| x in s;
    if s - {x} == {} {
      assert s == {x};
    } else {
      MaxExists(s - {x});
      var m :| m in s - {x} && forall y :: y in s - {x} ==> y <= m;
      var top := if x > m then x else m;
      assert forall y :: y in s ==> y == x || y in s - {x};
      assert top in s && forall y :: y in s ==> y <= top;
    }
  }

  function Versions(rows: Rows, index: Bytes): set<nat> {
    set k | k in rows && k.1 == index :: k.0
  }

  function NewestVersion(rows: Rows, index: Bytes): (v: nat)
    requires Versions(rows, index) != {}
    ensures (v, index) in rows && forall w :: (w, index) in rows ==> w <= v
  {
    var s := Versions(rows, index);
    MaxExists(s);
    assert forall w :: (w, index) in rows ==> w in s;
    var m :| m in s && forall x :: x in s ==> x <= m;
    m
  }

  /** GetAppStateMutationMAC: ORDER BY version DESC LIMIT 1. */
  function Newest(rows: Rows, index: Bytes): Option<Bytes> {
    if Versions(rows, index) == {} then None else Some(rows[(NewestVersion(rows, index), index)])
  }

  /** The rows seen through that query. */
  function Current(rows: Rows): MacMap {
    var indexes := set k | k in rows :: k.1;
    map index | index in indexes && Newest(rows, index).Some? :: Newest(rows, index).value
  }

  /** DeleteAppStateMutationMACs: every version of the given indexes. */
  function DeleteMACs(rows: Rows, indexes: seq<Bytes>): Rows {
    map k | k in rows && k.1 !in indexes :: rows[k]
  }

  /** PutAppStateMutationMACs: plain inserts in one transaction, so one conflict or bad length undoes them all. */
  function PutMACs(rows: Rows, version: nat, entries: seq<Entry>): Option<Rows> {
    if entries == [] then Some(rows)
    else
      var last := entries[|entries| - 1];
      match PutMACs(rows, version, entries[..|entries| - 1])
      case None => None
      case Some(r) =>
        if (version, last.indexMAC) in r || |last.indexMAC| != 32 then None
        else Some(r[(version, last.indexMAC) := last.valueMAC])
  }

  // ---- The output of a patch

  /** slices.DeleteFunc on the index MAC */
  function DropIndex(entries: seq<Entry>, index: Bytes): seq<Entry> {
    if entries == [] then []
    else
      var front, last := DropIndex(entries[..|entries| - 1], index), entries[|entries| - 1];
      if last.indexMAC == index then front else front + [last]
  }

  function RemovedMACs(muts: seq<Mutation>): seq<Bytes> {
    if muts == [] then []
    else
      var last := muts[|muts| - 1];
      RemovedMACs(muts[..|muts| - 1]) + (if last.op == REMOVE then [last.indexMAC] else [])
  }

  function AddedMACs(muts: seq<Mutation>): seq<Entry> {
    if muts == [] then []
    else
      var front, last := AddedMACs(muts[..|muts| - 1]), muts[|muts| - 1];
      match last.op
      case SET => front + [Entry(last.indexMAC, last.ValueMAC())]
      case REMOVE => DropIndex(front, last.indexMAC)
  }

  // ---- The batched update is the sequential one

  function PutAll(m: MacMap, entries: seq<Entry>): MacMap {
    if entries == [] then m
    else
      var last := entries[|entries| - 1];
      PutAll(m, entries[..|entries| - 1])[last.indexMAC := last.valueMAC]
  }

  function Without(m: MacMap, indexes: seq<Bytes>): MacMap {
    map k | k in m && k !in indexes :: m[k]
  }

  lemma RemoveUpdated(m: MacMap, k: Bytes, v: Bytes, index: Bytes)
    ensures m[k := v] - {index} == if k == index then m - {index} else (m - {index})[k := v]
  {
  }

  lemma {:induction false} PutAllDropIndex(m: MacMap, entries: seq<Entry>, index: Bytes)
    ensures PutAll(m - {index}, DropIndex(entries, index)) == PutAll(m, entries) - {index}
  {
    if entries != [] {
      var front, last := entries[..|entries| - 1], entries[|entries| - 1];
      PutAllDropIndex(m, front, index);
      RemoveUpdated(PutAll(m, front), last.indexMAC, last.valueMAC, index);
      if last.indexMAC != index {
        var dropped := DropIndex(front, index);
        assert (dropped + [last])[..|dropped|] == dropped;
      }
    }
  }

  /** Deleting all removed indexes and then putting all added ones is applying the operations one at a time. */
  lemma {:induction false} BatchIsSequential(m: MacMap, muts: seq<Mutation>)
    ensures PutAll(Without(m, RemovedMACs(muts)), AddedMACs(muts)) == ApplyAll(m, muts)
  {
    if muts == [] {
      assert Without(m, []) == m;
    } else {
      var front, last := muts[..|muts| - 1], muts[|muts| - 1];
      var removed, added := RemovedMACs(front), AddedMACs(front);
      BatchIsSequential(m, front);
      if last.op == SET {
        assert removed + [] == removed;
        var entry := Entry(last.indexMAC, last.ValueMAC());
        assert (added + [entry])[..|added|] == added;
      } else {
        assert Without(m, removed + [last.indexMAC]) == Without(m, removed) - {last.indexMAC};
        PutAllDropIndex(Without(m, removed), added, last.indexMAC);
      }
    }
  }

  // ---- When a batch is accepted

  /** How many times an index has been set since it was last removed. */
  function OpenSets(muts: seq<Mutation>, index: Bytes): nat {
    if muts == [] then 0
    else
      var before, last := OpenSets(muts[..|muts| - 1], index), muts[|muts| - 1];
      if last.indexMAC != index then before
      else if last.op == SET then before + 1 else 0
  }

  /** No index has more than one SET after its last REMOVE. */
  predicate SetsEachOnce(muts: seq<Mutation>) {
    forall i :: 0 <= i < |muts| ==> OpenSets(muts, muts[i].indexMAC) <= 1
  }

  function CountIndex(entries: seq<Entry>, index: Bytes): nat {
    if entries == [] then 0
    else CountIndex(entries[..|entries| - 1], index) + (if entries[|entries| - 1].indexMAC == index then 1 else 0)
  }

  lemma {:induction false} CountAfterDrop(entries: seq<Entry>, drop: Bytes, index: Bytes)
    ensures CountIndex(DropIndex(entries, drop), index) == if drop == index then 0 else CountIndex(entries, index)
  {
    if entries != [] {
      var front, last := entries[..|entries| - 1], entries[|entries| - 1];
      CountAfterDrop(front, drop, index);
      var dropped := DropIndex(front, drop);
      assert (dropped + [last])[..|dropped|] == dropped;
    }
  }

  lemma {:induction false} AddedCountIsOpenSets(muts: seq<Mutation>, index: Bytes)
    ensures CountIndex(AddedMACs(muts), index) == OpenSets(muts, index)
  {
    if muts != [] {
      var front, last := muts[..|muts| - 1], muts[|muts| - 1];
      AddedCountIsOpenSets(front, index);
      if last.op == SET {
        var entry := Entry(last.indexMAC, last.ValueMAC());
        assert (AddedMACs(front) + [entry])[..|AddedMACs(front)|] == AddedMACs(front);
      } else {
        CountAfterDrop(AddedMACs(front), last.indexMAC, index);
      }
    }
  }

  lemma {:induction false} OpenSetsOfAbsent(muts: seq<Mutation>, index: Bytes)
    requires forall i :: 0 <= i < |muts| ==> muts[i].indexMAC != index
    ensures OpenSets(muts, index) == 0
  {
    if muts != [] {
      OpenSetsOfAbsent(muts[..|muts| - 1], index);
    }
  }

  lemma SetsEachOnceEverywhere(muts: seq<Mutation>, index: Bytes)
    requires SetsEachOnce(muts)
    ensures OpenSets(muts, index) <= 1
  {
    if forall i :: 0 <= i < |muts| ==> muts[i].indexMAC != index {
      OpenSetsOfAbsent(muts, index);
    }
  }

  ghost predicate VersionsBelow(rows: Rows, version: nat) {
    forall k :: k in rows ==> k.0 < version
  }

  ghost predicate VersionsUpTo(rows: Rows, version: nat) {
    forall k :: k in rows ==> k.0 <= version
  }

  lemma {:induction false} CountIndexPositive(entries: seq<Entry>, i: nat)
    requires i < |entries|
    ensures CountIndex(entries, entries[i].indexMAC) >= 1
  {
    if i < |entries| - 1 {
      CountIndexPositive(entries[..|entries| - 1], i);
    }
  }

  /** The rows at its version that an accepted batch leaves: those there were, and those it has written. */
  lemma {:induction false} PutKeys(rows: Rows, version: nat, entries: seq<Entry>, index: Bytes)
    requires PutMACs(rows, version, entries).Some?
    ensures var r := PutMACs(rows, version, entries).value;
      && (VersionsUpTo(rows, version) ==> VersionsUpTo(r, version))
      && ((version, index) in r <==> (version, index) in rows || CountIndex(entries, index) > 0)
  {
    if entries != [] {
      PutKeys(rows, version, entries[..|entries| - 1], index);
    }
  }

  /** The entry finds no row with its key, no other entry with its index, and has a 32-byte index. */
  predicate Insertable(rows: Rows, version: nat, entries: seq<Entry>, i: nat)
    requires i < |entries|
  {
    var index := entries[i].indexMAC;
    (version, index) !in rows && CountIndex(entries, index) == 1 && |index| == 32
  }

  /** At whatever version, a batch is accepted exactly when each of its entries can be inserted. */
  lemma {:induction false} PutAccepted(rows: Rows, version: nat, entries: seq<Entry>)
    ensures PutMACs(rows, version, entries).Some? <==> forall i :: 0 <= i < |entries| ==> Insertable(rows, version, entries, i)
  {
    if entries != [] {
      var front, last := entries[..|entries| - 1], entries[|entries| - 1];
      PutAccepted(rows, version, front);
      if PutMACs(rows, version, front).Some? {
        PutKeys(rows, version, front, last.indexMAC);
        LastInsertable(rows, version, entries);
      } else {
        var i :| 0 <= i < |front| && !Insertable(rows, version, front, i);
        CountIndexPositive(front, i);
        assert entries[i] == front[i];
        assert !Insertable(rows, version, entries, i);
      }
    }
  }

  /** Given an insertable front, one more entry makes no trouble exactly when it finds neither row nor entry. */
  lemma LastInsertable(rows: Rows, version: nat, entries: seq<Entry>)
    requires entries != []
    requires var front := entries[..|entries| - 1]; forall i :: 0 <= i < |front| ==> Insertable(rows, version, front, i)
    ensures var front, last := entries[..|entries| - 1], entries[|entries| - 1];
      (forall i :: 0 <= i < |entries| ==> Insertable(rows, version, entries, i)) <==>
        (version, last.indexMAC) !in rows && CountIndex(front, last.indexMAC) == 0 && |last.indexMAC| == 32
  {
    var n := |entries| - 1;
    var front, last := entries[..n], entries[n];
    if CountIndex(front, last.indexMAC) == 0 {
      forall i | 0 <= i < n ensures Insertable(rows, version, entries, i) {
        CountIndexPositive(front, i);
        assert Insertable(rows, version, front, i) && entries[i] == front[i];
      }
      assert CountIndex(entries, last.indexMAC) == 1;
      assert Insertable(rows, version, entries, n) <==> (version, last.indexMAC) !in rows && |last.indexMAC| == 32;
      if Insertable(rows, version, entries, n) {
        forall i | 0 <= i < |entries| ensures Insertable(rows, version, entries, i) {
        }
      }
    } else {
      assert CountIndex(entries, last.indexMAC) > 1;
      assert !Insertable(rows, version, entries, n);
    }
  }

  // ---- What the rows show afterwards

  lemma NewestIs(rows: Rows, index: Bytes, v: nat)
    requires (v, index) in rows && forall w :: (w, index) in rows ==> w <= v
    ensures Newest(rows, index) == Some(rows[(v, index)])
  {
    assert v in Versions(rows, index);
  }

  lemma NewestNone(rows: Rows, index: Bytes)
    requires forall w :: (w, index) !in rows
    ensures Newest(rows, index) == None
  {
    assert Versions(rows, index) == {};
  }

  lemma CurrentLookup(rows: Rows, index: Bytes)
    ensures Lookup(Current(rows), index) == Newest(rows, index)
  {
    if Newest(rows, index).Some? {
      assert (NewestVersion(rows, index), index) in rows;
      assert index in set k | k in rows :: k.1;
    }
  }

  /** The newest row of an index depends only on the rows of that index. */
  lemma NewestLocal(a: Rows, b: Rows, index: Bytes)
    requires forall w :: ((w, index) in a <==> (w, index) in b) && ((w, index) in a ==> a[(w, index)] == b[(w, index)])
    ensures Newest(a, index) == Newest(b, index)
  {
    if w: nat :| (w, index) in a {
      assert w in Versions(a, index);
      var v := NewestVersion(a, index);
      NewestIs(a, index, v);
      NewestIs(b, index, v);
    } else {
      NewestNone(a, index);
      NewestNone(b, index);
    }
  }

  lemma MapsEqual(a: MacMap, b: MacMap)
    requires forall k :: Lookup(a, k) == Lookup(b, k)
    ensures a == b
  {
    forall k
      ensures k in a <==> k in b
      ensures k in a ==> a[k] == b[k]
    {
      assert Lookup(a, k) == Lookup(b, k);
    }
  }

  lemma CurrentAfterDelete(rows: Rows, indexes: seq<Bytes>)
    ensures Current(DeleteMACs(rows, indexes)) == Without(Current(rows), indexes)
  {
    hide Current, Newest;
    var after := DeleteMACs(rows, indexes);
    forall k
      ensures Lookup(Current(after), k) == Lookup(Without(Current(rows), indexes), k)
    {
      CurrentLookup(after, k);
      CurrentLookup(rows, k);
      if k in indexes {
        NewestNone(after, k);
      } else {
        NewestLocal(after, rows, k);
      }
    }
    MapsEqual(Current(after), Without(Current(rows), indexes));
  }

  lemma CurrentAfterInsert(rows: Rows, version: nat, entry: Entry)
    requires VersionsUpTo(rows, version)
    ensures Current(rows[(version, entry.indexMAC) := entry.valueMAC]) == Current(rows)[entry.indexMAC := entry.valueMAC]
  {
    hide Current, Newest;
    var after := rows[(version, entry.indexMAC) := entry.valueMAC];
    forall k
      ensures Lookup(Current(after), k) == Lookup(Current(rows)[entry.indexMAC := entry.valueMAC], k)
    {
      CurrentLookup(after, k);
      CurrentLookup(rows, k);
      if k == entry.indexMAC {
        NewestIs(after, k, version);
      } else {
        NewestLocal(after, rows, k);
      }
    }
    MapsEqual(Current(after), Current(rows)[entry.indexMAC := entry.valueMAC]);
  }

  lemma {:induction false} CurrentAfterPut(rows: Rows, version: nat, entries: seq<Entry>)
    requires VersionsBelow(rows, version) && PutMACs(rows, version, entries).Some?
    ensures var r := PutMACs(rows, version, entries).value;
      VersionsUpTo(r, version) && Current(r) == PutAll(Current(rows), entries)
  {
    hide Current;
    if entries != [] {
      var front, last := entries[..|entries| - 1], entries[|entries| - 1];
      CurrentAfterPut(rows, version, front);
      CurrentAfterInsert(PutMACs(rows, version, front).value, version, last);
    }
  }

  /** A row with a higher version than the patch hides what the patch writes. */
  lemma HigherVersionHides(rows: Rows, version: nat, entry: Entry, w: nat)
    requires (w, entry.indexMAC) in rows && w > version
    ensures Newest(rows[(version, entry.indexMAC) := entry.valueMAC], entry.indexMAC) == Newest(rows, entry.indexMAC)
  {
    hide Newest;
    var after := rows[(version, entry.indexMAC) := entry.valueMAC];
    assert w in Versions(rows, entry.indexMAC);
    var v := NewestVersion(rows, entry.indexMAC);
    NewestIs(rows, entry.indexMAC, v);
    NewestIs(after, entry.indexMAC, v);
  }

  // ---- At any version

  predicate HasNewer(rows: Rows, version: nat, index: Bytes) {
    exists k :: k in rows && k.1 == index && k.0 > version
  }

  /** Some added index keeps a row of a higher version, and the newest of them has another value. */
  predicate HiddenByNewer(rows: Rows, version: nat, entries: seq<Entry>) {
    exists i :: 0 <= i < |entries|
      && HasNewer(rows, version, entries[i].indexMAC) && Newest(rows, entries[i].indexMAC) != Some(entries[i].valueMAC)
  }

  lemma {:induction false} PutRows(rows: Rows, version: nat, entries: seq<Entry>, k: (nat, Bytes))
    requires PutMACs(rows, version, entries).Some?
    ensures var r := PutMACs(rows, version, entries).value;
      && (k in rows ==> k in r)
      && (k in r ==> k in rows || k.0 == version)
      && (forall i :: 0 <= i < |entries| ==> (version, entries[i].indexMAC) in r)
  {
    if entries != [] {
      PutRows(rows, version, entries[..|entries| - 1], k);
    }
  }

  /** What a lookup finds after an accepted batch: the row of a higher version, if there is one. */
  lemma {:induction false} NewestAfterPut(rows: Rows, version: nat, entries: seq<Entry>, index: Bytes)
    requires PutMACs(rows, version, entries).Some?
    ensures Newest(PutMACs(rows, version, entries).value, index) ==
      if HasNewer(rows, version, index) then Newest(rows, index) else Lookup(PutAll(Current(rows), entries), index)
  {
    hide Newest, Current;
    if entries == [] {
      CurrentLookup(rows, index);
    } else {
      var front, last := entries[..|entries| - 1], entries[|entries| - 1];
      var before, after := PutMACs(rows, version, front).value, PutMACs(rows, version, entries).value;
      NewestAfterPut(rows, version, front, index);
      if index != last.indexMAC {
        NewestLocal(after, before, index);
      } else if HasNewer(rows, version, index) {
        var k :| k in rows && k.1 == index && k.0 > version;
        PutRows(rows, version, front, k);
        HigherVersionHides(before, version, last, k.0);
      } else {
        forall w | (w, index) in after ensures w <= version {
          PutRows(rows, version, entries, (w, index));
        }
        NewestIs(after, index, version);
      }
    }
  }

  /** In an accepted batch every index has one value. */
  lemma {:induction false} PutAllAt(m: MacMap, rows: Rows, version: nat, entries: seq<Entry>, i: nat)
    requires PutMACs(rows, version, entries).Some? && i < |entries|
    ensures Lookup(PutAll(m, entries), entries[i].indexMAC) == Some(entries[i].valueMAC)
  {
    var n := |entries| - 1;
    if i < n {
      PutAllAt(m, rows, version, entries[..n], i);
      PutRows(rows, version, entries[..n], (version, entries[n].indexMAC));
      assert entries[..n][i] == entries[i];
    }
  }

  lemma {:induction false} PutAllElsewhere(m: MacMap, entries: seq<Entry>, index: Bytes)
    requires forall i :: 0 <= i < |entries| ==> entries[i].indexMAC != index
    ensures Lookup(PutAll(m, entries), index) == Lookup(m, index)
  {
    if entries != [] {
      PutAllElsewhere(m, entries[..|entries| - 1], index);
    }
  }

  /** An accepted batch, at whatever version, is last-wins exactly when no row of a higher version hides its values. */
  lemma PutIsLastWins(rows: Rows, version: nat, entries: seq<Entry>)
    requires PutMACs(rows, version, entries).Some?
    ensures Current(PutMACs(rows, version, entries).value) == PutAll(Current(rows), entries)
      <==> !HiddenByNewer(rows, version, entries)
  {
    hide Newest, Current, PutMACs, HasNewer, PutAll;
    var r, all := PutMACs(rows, version, entries).value, PutAll(Current(rows), entries);
    if HiddenByNewer(rows, version, entries) {
      var i :| 0 <= i < |entries| && HasNewer(rows, version, entries[i].indexMAC)
        && Newest(rows, entries[i].indexMAC) != Some(entries[i].valueMAC);
      NewestAfterPut(rows, version, entries, entries[i].indexMAC);
      PutAllAt(Current(rows), rows, version, entries, i);
      CurrentLookup(r, entries[i].indexMAC);
    } else {
      forall k ensures Lookup(Current(r), k) == Lookup(all, k) {
        CurrentLookup(r, k);
        NewestAfterPut(rows, version, entries, k);
        if i :| 0 <= i < |entries| && entries[i].indexMAC == k {
          PutAllAt(Current(rows), rows, version, entries, i);
        } else {
          PutAllElsewhere(Current(rows), entries, k);
          CurrentLookup(rows, k);
        }
      }
      MapsEqual(Current(r), all);
    }
  }
}

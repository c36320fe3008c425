/** What holds over every run of the app-state processor. */
module AppStateTheorems {
  import opened Basics
  import opened LtHash
  import opened AppStateMap
  import opened AppStateRows
  import opened AppStateSync

  /**
   The saved version and hash are the state in hand, no row is newer than it,
   and its hash is the one recomputed from the whole stored map.
   */
  ghost predicate Agrees(cr: Crypto, store: StoreState, state: HashValue) {
    && store.saved == Some(state)
    && VersionsUpTo(store.rows, state.version)
    && Lanes(state.hash) == MapSum(cr.expand, Current(store.rows))
  }

  /** Before the first sync, or after DeleteAppStateVersion, which cascades to the rows. */
  ghost predicate Fresh(store: StoreState, state: HashValue) {
    store.saved == None && store.rows == map[] && state == EmptyHash()
  }

  lemma EmptyMapSum(cr: Crypto)
    ensures Current(map[]) == map[] && Lanes(EmptyHash().hash) == MapSum(cr.expand, map[])
  {
  }

  ghost predicate Ready(cr: Crypto, store: StoreState, state: HashValue) {
    Agrees(cr, store, state) || Fresh(store, state)
  }

  /** What a sender must keep to: each patch is newer than what it applies to. */
  ghost predicate VersionsIncrease(from: Uint64, patches: seq<Patch>)
    decreases patches
  {
    patches == [] || (from < patches[0].version && VersionsIncrease(patches[0].version, patches[1..]))
  }

  /** With validated MACs every index MAC is 32 bytes long. */
  lemma {:induction false} DecodedIndexMACs(cr: Crypto, muts: seq<Mutation>, patchVersion: Uint64)
    requires DecodeMutations(cr, muts, true, patchVersion).Ok?
    ensures forall i :: 0 <= i < |muts| ==> |muts[i].indexMAC| == 32
  {
    if muts != [] {
      DecodedIndexMACs(cr, muts[..|muts| - 1], patchVersion);
    }
  }

  lemma {:induction false} DropIndexKeeps(entries: seq<Entry>, drop: Bytes, indexes: set<Bytes>)
    requires forall i :: 0 <= i < |entries| ==> entries[i].indexMAC in indexes
    ensures forall i :: 0 <= i < |DropIndex(entries, drop)| ==> DropIndex(entries, drop)[i].indexMAC in indexes
  {
    if entries != [] {
      DropIndexKeeps(entries[..|entries| - 1], drop, indexes);
    }
  }

  lemma {:induction false} AddedIndexes(muts: seq<Mutation>, indexes: set<Bytes>)
    requires forall i :: 0 <= i < |muts| ==> muts[i].indexMAC in indexes
    ensures forall i :: 0 <= i < |AddedMACs(muts)| ==> AddedMACs(muts)[i].indexMAC in indexes
  {
    if muts != [] {
      AddedIndexes(muts[..|muts| - 1], indexes);
      DropIndexKeeps(AddedMACs(muts[..|muts| - 1]), muts[|muts| - 1].indexMAC, indexes);
    }
  }

  /** A row is already stored at the version for one of the indexes. */
  predicate HasRowAt(rows: Rows, version: nat, entries: seq<Entry>) {
    exists i :: 0 <= i < |entries| && (version, entries[i].indexMAC) in rows
  }

  /**
   At whatever version, the additions of a patch with 32-byte index MACs are accepted exactly when no index has more than
   one SET after its last REMOVE and no added index has a row at that version.
   */
  lemma BatchAccepted(rows: Rows, version: nat, muts: seq<Mutation>)
    requires forall i :: 0 <= i < |muts| ==> |muts[i].indexMAC| == 32
    ensures PutMACs(rows, version, AddedMACs(muts)).Some?
      <==> SetsEachOnce(muts) && !HasRowAt(rows, version, AddedMACs(muts))
  {
    hide PutMACs, AddedMACs, SetsEachOnce, OpenSets, CountIndex;
    var added := AddedMACs(muts);
    PutAccepted(rows, version, added);
    forall i | 0 <= i < |added|
      ensures |added[i].indexMAC| == 32 && CountIndex(added, added[i].indexMAC) == OpenSets(muts, added[i].indexMAC) >= 1
    {
      AddedEntry(muts, i);
    }
    if SetsEachOnce(muts) {
      forall i | 0 <= i < |added| ensures OpenSets(muts, added[i].indexMAC) <= 1 {
        SetsEachOnceEverywhere(muts, added[i].indexMAC);
      }
      forall i | 0 <= i < |added|
        ensures Insertable(rows, version, added, i) <==> (version, added[i].indexMAC) !in rows
      {
      }
    } else {
      var i := RepeatedSet(muts);
      assert !Insertable(rows, version, added, i);
    }
  }

  lemma AddedEntry(muts: seq<Mutation>, i: nat)
    requires i < |AddedMACs(muts)| && forall j :: 0 <= j < |muts| ==> |muts[j].indexMAC| == 32
    ensures var added := AddedMACs(muts);
      |added[i].indexMAC| == 32 && CountIndex(added, added[i].indexMAC) == OpenSets(muts, added[i].indexMAC) >= 1
  {
    hide AddedMACs, OpenSets, CountIndex;
    AddedIndexes(muts, set j | 0 <= j < |muts| :: muts[j].indexMAC);
    AddedCountIsOpenSets(muts, AddedMACs(muts)[i].indexMAC);
    CountIndexPositive(AddedMACs(muts), i);
  }

  lemma RepeatedSet(muts: seq<Mutation>) returns (i: nat)
    requires !SetsEachOnce(muts)
    ensures i < |AddedMACs(muts)| && CountIndex(AddedMACs(muts), AddedMACs(muts)[i].indexMAC) > 1
  {
    hide AddedMACs, OpenSets, CountIndex;
    var j :| 0 <= j < |muts| && OpenSets(muts, muts[j].indexMAC) > 1;
    AddedCountIsOpenSets(muts, muts[j].indexMAC);
    CountedIsPresent(AddedMACs(muts), muts[j].indexMAC);
    i :| 0 <= i < |AddedMACs(muts)| && AddedMACs(muts)[i].indexMAC == muts[j].indexMAC;
  }

  lemma NoRowAbove(rows: Rows, version: nat, entries: seq<Entry>)
    requires VersionsBelow(rows, version)
    ensures !HasRowAt(rows, version, entries) && !HiddenByNewer(rows, version, entries)
  {
  }

  lemma {:induction false} CountedIsPresent(entries: seq<Entry>, index: Bytes)
    requires CountIndex(entries, index) > 0
    ensures exists i :: 0 <= i < |entries| && entries[i].indexMAC == index
  {
    var n := |entries| - 1;
    if entries[n].indexMAC != index {
      CountedIsPresent(entries[..n], index);
      var i :| 0 <= i < n && entries[..n][i].indexMAC == index;
      assert entries[i].indexMAC == index;
    }
  }

  /**
   At whatever version, an accepted batch leaves what the operations one at a time would have left, if and only if no
   remaining row of an added index has a higher version whose newest value differs.
   */
  lemma BatchAtAnyVersion(rows: Rows, version: nat, muts: seq<Mutation>)
    requires PutMACs(DeleteMACs(rows, RemovedMACs(muts)), version, AddedMACs(muts)).Some?
    ensures Current(PutMACs(DeleteMACs(rows, RemovedMACs(muts)), version, AddedMACs(muts)).value)
         == ApplyAll(Current(rows), muts)
      <==> !HiddenByNewer(DeleteMACs(rows, RemovedMACs(muts)), version, AddedMACs(muts))
  {
    hide PutMACs, AddedMACs, RemovedMACs, Current, DeleteMACs, ApplyAll, PutAll, HiddenByNewer;
    PutIsLastWins(DeleteMACs(rows, RemovedMACs(muts)), version, AddedMACs(muts));
    CurrentAfterDelete(rows, RemovedMACs(muts));
    BatchIsSequential(Current(rows), muts);
  }

  lemma DeleteKeepsBelow(rows: Rows, indexes: seq<Bytes>, version: nat)
    requires VersionsBelow(rows, version)
    ensures VersionsBelow(DeleteMACs(rows, indexes), version)
  {
  }

  // ---- One patch, of whatever version

  /** The state's hash is the one recomputed from the whole stored map. */
  ghost predicate HashesAgree(cr: Crypto, store: StoreState, state: HashValue) {
    Lanes(state.hash) == MapSum(cr.expand, Current(store.rows))
  }

  /** The rows that the removals of a patch leave. */
  function KeptRows(store: StoreState, patch: Patch): Rows {
    DeleteMACs(store.rows, RemovedMACs(patch.mutations))
  }

  /** The insertion will be refused: an index has two SETs after its last REMOVE, or a row at this very version. */
  predicate Collides(store: StoreState, patch: Patch) {
    !SetsEachOnce(patch.mutations) || HasRowAt(KeptRows(store, patch), patch.version, AddedMACs(patch.mutations))
  }

  /** What the patch writes will not be seen: a row of a higher version stays in front of it. */
  predicate Hides(store: StoreState, patch: Patch) {
    HiddenByNewer(KeptRows(store, patch), patch.version, AddedMACs(patch.mutations))
  }

  /** A patch that passes every check is stored with the parts that the code computes, or conflicts. */
  lemma AcceptedPatchParts(cr: Crypto, name: Bytes, store: StoreState, state: HashValue, done: seq<Decoded>, patch: Patch)
    ensures var r := RunPatch(cr, name, store, state, done, patch, true);
      var put := PutMACs(KeptRows(store, patch), patch.version, AddedMACs(patch.mutations));
      var next := HashValue(patch.version, PatchedHash(cr, store.rows, state, patch.mutations));
      match r.error
      case Some(Rejected(_)) => r == Run(store, state, done, r.error)
      case Some(StoreConflict) => put.None? && r.state == state && r.store == StoreState(Some(next), KeptRows(store, patch))
      case None => put.Some? && r.state == next && r.store == StoreState(Some(next), put.value)
  {
    hide PatchedHash, PutMACs, AddedMACs, RemovedMACs, DeleteMACs, DecodeMutations, PatchMAC, SnapshotMAC;
  }

  lemma AcceptedPatchIndexes(cr: Crypto, name: Bytes, store: StoreState, state: HashValue, done: seq<Decoded>, patch: Patch)
    requires var e := RunPatch(cr, name, store, state, done, patch, true).error; e == None || e == Some(StoreConflict)
    ensures forall i :: 0 <= i < |patch.mutations| ==> |patch.mutations[i].indexMAC| == 32
  {
    hide PatchedHash, StoreMACs, PatchMAC, SnapshotMAC;
    DecodedIndexMACs(cr, patch.mutations, patch.version);
  }

  /**
   One patch with valid MACs, of whatever version, from a hash that agrees with the stored map. It is rejected and
   changes nothing; or it conflicts, exactly when it collides; or it is stored with the hash of the map that the
   operations make one at a time, and that map is the one stored exactly when no higher version hides a value.
   */
  lemma PatchOutcome(cr: Crypto, name: Bytes, store: StoreState, state: HashValue, done: seq<Decoded>, patch: Patch)
    requires HashesAgree(cr, store, state)
    ensures var r := RunPatch(cr, name, store, state, done, patch, true);
      match r.error
      case None =>
        && !Collides(store, patch)
        && r.store.saved == Some(r.state) && r.state.version == patch.version
        && Lanes(r.state.hash) == MapSum(cr.expand, ApplyAll(Current(store.rows), patch.mutations))
        && (Current(r.store.rows) == ApplyAll(Current(store.rows), patch.mutations) <==> !Hides(store, patch))
      case Some(StoreConflict) => Collides(store, patch)
      case Some(Rejected(_)) => r == Run(store, state, done, r.error)
  {
    hide RunPatch, MapSum, Lanes, UpdateHash, PutMACs, AddedMACs, RemovedMACs, DeleteMACs, Current, ApplyAll, HiddenByNewer,
      SetsEachOnce, HasRowAt;
    var r := RunPatch(cr, name, store, state, done, patch, true);
    AcceptedPatchParts(cr, name, store, state, done, patch);
    if r.error == None || r.error == Some(StoreConflict) {
      AcceptedPatchIndexes(cr, name, store, state, done, patch);
      BatchAccepted(KeptRows(store, patch), patch.version, patch.mutations);
      if r.error == None {
        BatchAtAnyVersion(store.rows, patch.version, patch.mutations);
        IncrementalHashIsWholeHash(cr.expand, state.hash, patch.mutations, Current(store.rows));
      }
    }
  }

  // ---- Whole runs, of whatever versions

  function AllMutations(patches: seq<Patch>): seq<Mutation> {
    if patches == [] then [] else patches[0].mutations + AllMutations(patches[1..])
  }

  lemma {:induction false} ApplyAllAppend(m: MacMap, a: seq<Mutation>, b: seq<Mutation>)
    ensures ApplyAll(m, a + b) == ApplyAll(ApplyAll(m, a), b)
  {
    if b == [] {
      assert a + b == a;
    } else {
      ApplyAllAppend(m, a, b[..|b| - 1]);
      assert (a + b)[..|a + b| - 1] == a + b[..|b| - 1];
    }
  }

  /** No patch that the run gets to, and does not reject, collides or is hidden. */
  predicate Smooth(cr: Crypto, name: Bytes, store: StoreState, state: HashValue, done: seq<Decoded>, patches: seq<Patch>)
    decreases patches
  {
    patches == [] ||
    var r := RunPatch(cr, name, store, state, done, patches[0], true);
    || (r.error.Some? && r.error.value.Rejected?)
    || (!Collides(store, patches[0]) && !Hides(store, patches[0])
        && Smooth(cr, name, r.store, r.state, r.mutations, patches[1..]))
  }

  /** These patches do not conflict, and unless one is rejected they leave the sequential map. */
  predicate LeavesSequentialMap(cr: Crypto, name: Bytes, store: StoreState, state: HashValue, done: seq<Decoded>,
                                patches: seq<Patch>)
  {
    var r := RunPatches(cr, name, store, state, done, patches, true);
    && r.error != Some(StoreConflict)
    && (r.error == None ==> Current(r.store.rows) == ApplyAll(Current(store.rows), AllMutations(patches)))
  }

  /** After each patch of the run, up to the first that is rejected, the stored map is the sequential one. */
  ghost predicate AlwaysSequential(cr: Crypto, name: Bytes, store: StoreState, state: HashValue, done: seq<Decoded>,
                                   patches: seq<Patch>)
  {
    forall n :: 0 <= n <= |patches| ==> LeavesSequentialMap(cr, name, store, state, done, patches[..n])
  }

  lemma OnePatch(cr: Crypto, name: Bytes, store: StoreState, state: HashValue, done: seq<Decoded>, patches: seq<Patch>, n: nat)
    requires 0 < n <= |patches|
    ensures var r := RunPatch(cr, name, store, state, done, patches[0], true);
      && RunPatches(cr, name, store, state, done, patches[..n], true) ==
           (if r.error.Some? then r else RunPatches(cr, name, r.store, r.state, r.mutations, patches[1..][..n - 1], true))
      && AllMutations(patches[..n]) == patches[0].mutations + AllMutations(patches[1..][..n - 1])
  {
    hide RunPatch;
    assert patches[..n][1..] == patches[1..][..n - 1];
  }

  lemma NoPatches(cr: Crypto, name: Bytes, store: StoreState, state: HashValue, done: seq<Decoded>, patches: seq<Patch>)
    ensures LeavesSequentialMap(cr, name, store, state, done, patches[..0])
  {
    hide Current;
  }

  /** From the second patch on, the run is one from the state after the first. */
  lemma SequentialAfterFirst(cr: Crypto, name: Bytes, store: StoreState, state: HashValue, done: seq<Decoded>,
                             patches: seq<Patch>, n: nat)
    requires 0 < n <= |patches|
    requires var r := RunPatch(cr, name, store, state, done, patches[0], true);
      r.error == None && Current(r.store.rows) == ApplyAll(Current(store.rows), patches[0].mutations)
    ensures var r := RunPatch(cr, name, store, state, done, patches[0], true);
      LeavesSequentialMap(cr, name, store, state, done, patches[..n]) <==>
        LeavesSequentialMap(cr, name, r.store, r.state, r.mutations, patches[1..][..n - 1])
  {
    hide RunPatch, RunPatches, Current, ApplyAll, AllMutations;
    OnePatch(cr, name, store, state, done, patches, n);
    ApplyAllAppend(Current(store.rows), patches[0].mutations, AllMutations(patches[1..][..n - 1]));
  }

  /** A first patch that is rejected ends the run with nothing changed. */
  lemma RejectedFirst(cr: Crypto, name: Bytes, store: StoreState, state: HashValue, done: seq<Decoded>, patches: seq<Patch>)
    requires patches != []
    requires var e := RunPatch(cr, name, store, state, done, patches[0], true).error; e.Some? && e.value.Rejected?
    ensures AlwaysSequential(cr, name, store, state, done, patches)
  {
    hide RunPatch, RunPatches, Current, ApplyAll, AllMutations;
    NoPatches(cr, name, store, state, done, patches);
    forall n | 0 < n <= |patches| ensures LeavesSequentialMap(cr, name, store, state, done, patches[..n]) {
      OnePatch(cr, name, store, state, done, patches, n);
    }
  }

  /** A first patch that collides or is hidden shows at once. */
  lemma AmissFirst(cr: Crypto, name: Bytes, store: StoreState, state: HashValue, done: seq<Decoded>, patches: seq<Patch>)
    requires HashesAgree(cr, store, state) && patches != []
    requires var e := RunPatch(cr, name, store, state, done, patches[0], true).error; !(e.Some? && e.value.Rejected?)
    requires Collides(store, patches[0]) || Hides(store, patches[0])
    ensures !LeavesSequentialMap(cr, name, store, state, done, patches[..1])
  {
    hide RunPatch, Current, ApplyAll, HashesAgree, Collides, Hides, MapSum, Lanes;
    PatchOutcome(cr, name, store, state, done, patches[0]);
    OnePatch(cr, name, store, state, done, patches, 1);
    assert patches[1..][..0] == [];
    assert AllMutations([]) == [] && patches[0].mutations + [] == patches[0].mutations;
  }

  /**
   On every run of patches, of whatever versions, the stored map is the sequential one after each patch, without a
   conflict, if and only if no patch that is not rejected collides or is hidden by a higher version.
   */
  lemma {:induction false} RunIsSequentialExactly(cr: Crypto, name: Bytes, store: StoreState, state: HashValue,
                                                  done: seq<Decoded>, patches: seq<Patch>)
    requires HashesAgree(cr, store, state)
    ensures AlwaysSequential(cr, name, store, state, done, patches) <==> Smooth(cr, name, store, state, done, patches)
    decreases |patches|
  {
    hide RunPatch, Current, ApplyAll, MapSum, Lanes, Collides, Hides, LeavesSequentialMap;
    NoPatches(cr, name, store, state, done, patches);
    if patches != [] {
      var r := RunPatch(cr, name, store, state, done, patches[0], true);
      PatchOutcome(cr, name, store, state, done, patches[0]);
      if r.error.Some? && r.error.value.Rejected? {
        RejectedFirst(cr, name, store, state, done, patches);
      } else if Collides(store, patches[0]) || Hides(store, patches[0]) {
        AmissFirst(cr, name, store, state, done, patches);
      } else {
        RunIsSequentialExactly(cr, name, r.store, r.state, r.mutations, patches[1..]);
        forall n | 0 < n <= |patches|
          ensures LeavesSequentialMap(cr, name, store, state, done, patches[..n])
            <==> LeavesSequentialMap(cr, name, r.store, r.state, r.mutations, patches[1..][..n - 1])
        {
          SequentialAfterFirst(cr, name, store, state, done, patches, n);
        }
        ShiftedRuns(cr, name, store, state, done, patches);
      }
    }
  }

  lemma ShiftedRuns(cr: Crypto, name: Bytes, store: StoreState, state: HashValue, done: seq<Decoded>, patches: seq<Patch>)
    requires patches != []
    requires LeavesSequentialMap(cr, name, store, state, done, patches[..0])
    requires var r := RunPatch(cr, name, store, state, done, patches[0], true);
      forall n :: 0 < n <= |patches| ==>
        (LeavesSequentialMap(cr, name, store, state, done, patches[..n])
         <==> LeavesSequentialMap(cr, name, r.store, r.state, r.mutations, patches[1..][..n - 1]))
    ensures var r := RunPatch(cr, name, store, state, done, patches[0], true);
      AlwaysSequential(cr, name, store, state, done, patches) <==>
        AlwaysSequential(cr, name, r.store, r.state, r.mutations, patches[1..])
  {
    hide RunPatch, LeavesSequentialMap;
    var r := RunPatch(cr, name, store, state, done, patches[0], true);
    if AlwaysSequential(cr, name, store, state, done, patches) {
      forall n | 0 <= n <= |patches[1..]|
        ensures LeavesSequentialMap(cr, name, r.store, r.state, r.mutations, patches[1..][..n])
      {
        assert LeavesSequentialMap(cr, name, store, state, done, patches[..n + 1]);
      }
    }
    if AlwaysSequential(cr, name, r.store, r.state, r.mutations, patches[1..]) {
      forall n | 0 <= n <= |patches| ensures LeavesSequentialMap(cr, name, store, state, done, patches[..n]) {
        assert n > 0 ==> LeavesSequentialMap(cr, name, r.store, r.state, r.mutations, patches[1..][..n - 1]);
      }
    }
  }

  /**
   Such a run ends, completed or rejected, with a hash that agrees with the stored map; the map is that of its first n
   patches, and what is saved is the state in hand unless nothing was stored at all.
   */
  lemma {:induction false} SmoothRunsAgree(cr: Crypto, name: Bytes, store: StoreState, state: HashValue,
                                           done: seq<Decoded>, patches: seq<Patch>) returns (n: nat)
    requires HashesAgree(cr, store, state) && Smooth(cr, name, store, state, done, patches)
    ensures var r := RunPatches(cr, name, store, state, done, patches, true);
      && n <= |patches| && HashesAgree(cr, r.store, r.state)
      && Current(r.store.rows) == ApplyAll(Current(store.rows), AllMutations(patches[..n]))
      && (if n == 0 then r.store == store && r.state == state
          else r.store.saved == Some(r.state) && r.state.version == patches[n - 1].version)
      && (r.error == None <==> n == |patches|) && r.error != Some(StoreConflict)
    decreases |patches|
  {
    hide RunPatch, Current, ApplyAll, MapSum, Lanes, Collides, Hides;
    n := 0;
    assert patches[..0] == [];
    assert AllMutations([]) == [];
    assert ApplyAll(Current(store.rows), []) == Current(store.rows) by {
      NothingApplied(Current(store.rows));
    }
    if patches != [] {
      var r := RunPatch(cr, name, store, state, done, patches[0], true);
      PatchOutcome(cr, name, store, state, done, patches[0]);
      if r.error == None {
        var k := SmoothRunsAgree(cr, name, r.store, r.state, r.mutations, patches[1..]);
        n := k + 1;
        assert patches[..n] == [patches[0]] + patches[1..][..k];
        assert patches[..n][1..] == patches[1..][..k];
        ApplyAllAppend(Current(store.rows), patches[0].mutations, AllMutations(patches[1..][..k]));
      }
    }
  }

  lemma NothingApplied(m: MacMap)
    ensures ApplyAll(m, []) == m
  {
  }

  // ---- Patches that are each newer than what they apply to

  lemma ReadyAgrees(cr: Crypto, store: StoreState, state: HashValue)
    requires Ready(cr, store, state)
    ensures HashesAgree(cr, store, state) && VersionsUpTo(store.rows, state.version)
  {
    hide MapSum, Lanes, Current;
    EmptyMapSum(cr);
  }

  /** Among older rows only a repeated SET is in the way. */
  lemma NewerMeetsNoRow(cr: Crypto, store: StoreState, state: HashValue, patch: Patch)
    requires Ready(cr, store, state) && state.version < patch.version
    ensures !Hides(store, patch) && (Collides(store, patch) <==> !SetsEachOnce(patch.mutations))
  {
    hide Ready, HasRowAt, HiddenByNewer, DeleteMACs, RemovedMACs, AddedMACs, SetsEachOnce;
    ReadyAgrees(cr, store, state);
    DeleteKeepsBelow(store.rows, RemovedMACs(patch.mutations), patch.version);
    NoRowAbove(KeptRows(store, patch), patch.version, AddedMACs(patch.mutations));
  }

  /** A patch newer than a state in agreement: stored in agreement, exactly when it sets each index once, or rejected. */
  lemma NewerPatchOutcome(cr: Crypto, name: Bytes, store: StoreState, state: HashValue, done: seq<Decoded>, patch: Patch)
    requires Ready(cr, store, state) && state.version < patch.version
    ensures var r := RunPatch(cr, name, store, state, done, patch, true);
      match r.error
      case None =>
        && SetsEachOnce(patch.mutations) && Agrees(cr, r.store, r.state) && r.state.version == patch.version
        && Current(r.store.rows) == ApplyAll(Current(store.rows), patch.mutations)
      case Some(StoreConflict) => !SetsEachOnce(patch.mutations)
      case Some(Rejected(_)) => r == Run(store, state, done, r.error)
  {
    hide Ready, RunPatch, Collides, Hides, SetsEachOnce, Current, ApplyAll, MapSum, Lanes, PutMACs, AddedMACs, RemovedMACs,
      DeleteMACs, PatchedHash;
    ReadyAgrees(cr, store, state);
    NewerMeetsNoRow(cr, store, state, patch);
    PatchOutcome(cr, name, store, state, done, patch);
    AcceptedPatchParts(cr, name, store, state, done, patch);
    if RunPatch(cr, name, store, state, done, patch, true).error == None {
      DeleteKeepsBelow(store.rows, RemovedMACs(patch.mutations), patch.version);
      PutKeys(KeptRows(store, patch), patch.version, AddedMACs(patch.mutations), []);
    }
  }

  /** Where each patch is newer than the one before and sets each index once, nothing collides and nothing is hidden. */
  lemma {:induction false} NewerRunsAreSmooth(cr: Crypto, name: Bytes, store: StoreState, state: HashValue,
                                              done: seq<Decoded>, patches: seq<Patch>)
    requires Ready(cr, store, state) && VersionsIncrease(state.version, patches)
    requires forall i :: 0 <= i < |patches| ==> SetsEachOnce(patches[i].mutations)
    ensures Smooth(cr, name, store, state, done, patches)
    ensures var r := RunPatches(cr, name, store, state, done, patches, true);
      Ready(cr, r.store, r.state) && (Agrees(cr, store, state) ==> Agrees(cr, r.store, r.state))
    decreases |patches|
  {
    hide RunPatch, Collides, Hides, SetsEachOnce, Agrees, Fresh, Current, ApplyAll;
    if patches != [] {
      var r := RunPatch(cr, name, store, state, done, patches[0], true);
      NewerMeetsNoRow(cr, store, state, patches[0]);
      NewerPatchOutcome(cr, name, store, state, done, patches[0]);
      if r.error == None {
        NewerRunsAreSmooth(cr, name, r.store, r.state, r.mutations, patches[1..]);
      }
    }
  }

  /**
   So store and state agree after every run of such patches, completed or rejected: the stored map is that of the first n
   patches, one operation at a time.
   */
  lemma RunKeepsAgreement(cr: Crypto, name: Bytes, store: StoreState, state: HashValue, done: seq<Decoded>, patches: seq<Patch>)
      returns (n: nat)
    requires Ready(cr, store, state) && VersionsIncrease(state.version, patches)
    requires forall i :: 0 <= i < |patches| ==> SetsEachOnce(patches[i].mutations)
    ensures var r := RunPatches(cr, name, store, state, done, patches, true);
      && n <= |patches| && Ready(cr, r.store, r.state)
      && Current(r.store.rows) == ApplyAll(Current(store.rows), AllMutations(patches[..n]))
      && r.state.version == (if n == 0 then state.version else patches[n - 1].version)
      && (r.error == None <==> n == |patches|) && r.error != Some(StoreConflict)
  {
    hide RunPatches, Ready, Smooth, Current, ApplyAll, AllMutations, SetsEachOnce, HashesAgree;
    ReadyAgrees(cr, store, state);
    NewerRunsAreSmooth(cr, name, store, state, done, patches);
    n := SmoothRunsAgree(cr, name, store, state, done, patches);
  }

  // ---- What a conflict leaves behind

  /**
   A patch that conflicts has passed every check and is then half stored: the version and hash are those of the whole
   patch, the removals are done, and none of the additions is there.
   */
  lemma ConflictLeavesHashAhead(cr: Crypto, name: Bytes, store: StoreState, state: HashValue, done: seq<Decoded>, patch: Patch)
    requires HashesAgree(cr, store, state)
    requires RunPatch(cr, name, store, state, done, patch, true).error == Some(StoreConflict)
    ensures var s := RunPatch(cr, name, store, state, done, patch, true).store;
      && s.saved.Some? && s.saved.value.version == patch.version
      && Lanes(s.saved.value.hash) == MapSum(cr.expand, ApplyAll(Current(store.rows), patch.mutations))
      && Current(s.rows) == Without(Current(store.rows), RemovedMACs(patch.mutations))
  {
    hide RunPatch, MapSum, Lanes, UpdateHash, PutMACs, AddedMACs, RemovedMACs, DeleteMACs, Current, ApplyAll, Without;
    AcceptedPatchParts(cr, name, store, state, done, patch);
    IncrementalHashIsWholeHash(cr.expand, state.hash, patch.mutations, Current(store.rows));
    CurrentAfterDelete(store.rows, RemovedMACs(patch.mutations));
  }

  // ---- Snapshots

  predicate DistinctIndexes(muts: seq<Mutation>) {
    forall i, j :: 0 <= i < j < |muts| ==> muts[i].indexMAC != muts[j].indexMAC
  }

  predicate AllSet(muts: seq<Mutation>) {
    forall i :: 0 <= i < |muts| ==> muts[i].op == SET
  }

  lemma {:induction false} OpenSetsPositive(muts: seq<Mutation>, i: nat)
    requires AllSet(muts) && i < |muts|
    ensures OpenSets(muts, muts[i].indexMAC) >= 1
  {
    var n := |muts| - 1;
    if i < n {
      OpenSetsPositive(muts[..n], i);
    }
  }

  lemma {:induction false} RepeatedIndexIsOpenTwice(muts: seq<Mutation>, i: nat, j: nat)
    requires AllSet(muts) && i < j < |muts| && muts[i].indexMAC == muts[j].indexMAC
    ensures OpenSets(muts, muts[i].indexMAC) >= 2
  {
    var n := |muts| - 1;
    if j < n {
      RepeatedIndexIsOpenTwice(muts[..n], i, j);
    } else {
      OpenSetsPositive(muts[..n], i);
    }
  }

  lemma {:induction false} DistinctIndexOpenOnce(muts: seq<Mutation>, index: Bytes)
    requires AllSet(muts) && DistinctIndexes(muts)
    ensures OpenSets(muts, index) <= 1
  {
    if muts != [] {
      var n := |muts| - 1;
      DistinctIndexOpenOnce(muts[..n], index);
      if muts[n].indexMAC == index {
        OpenSetsOfAbsent(muts[..n], index);
      }
    }
  }

  /** For a list of SETs alone, setting each index once is having distinct indexes. */
  lemma SetsEachOnceIsDistinct(muts: seq<Mutation>)
    requires AllSet(muts)
    ensures SetsEachOnce(muts) <==> DistinctIndexes(muts)
  {
    if !DistinctIndexes(muts) {
      var i, j :| 0 <= i < j < |muts| && muts[i].indexMAC == muts[j].indexMAC;
      RepeatedIndexIsOpenTwice(muts, i, j);
    } else {
      forall i | 0 <= i < |muts|
        ensures OpenSets(muts, muts[i].indexMAC) <= 1
      {
        DistinctIndexOpenOnce(muts, muts[i].indexMAC);
      }
    }
  }

  /** A lookup in the patch falls through to the database when no earlier mutation has the index. */
  lemma {:induction false} FallsThrough(muts: seq<Mutation>, db: MacMap, index: Bytes, i: nat)
    requires i <= |muts| && forall j :: 0 <= j < i ==> muts[j].indexMAC != index
    ensures PreviousValue(muts, db, index, i) == Lookup(db, index)
  {
    if i > 0 {
      FallsThrough(muts, db, index, i - 1);
    }
  }

  /** With distinct indexes, looking only in the database removes the same values. */
  lemma {:induction false} DistinctRemovals(muts: seq<Mutation>, db: MacMap, i: nat)
    requires DistinctIndexes(muts) && i <= |muts|
    ensures RemovedValues(muts[..i], PatchLookup(muts, db)) == RemovedValues(muts[..i], StoreLookup(db))
  {
    if i > 0 {
      assert muts[..i][..i - 1] == muts[..i - 1];
      DistinctRemovals(muts, db, i - 1);
      FallsThrough(muts, db, muts[i - 1].indexMAC, i - 1);
    } else {
      assert muts[..0] == [];
    }
  }

  lemma DistinctHashes(expand: Bytes -> Block, hash: Block, muts: seq<Mutation>, db: MacMap)
    requires DistinctIndexes(muts)
    ensures UpdateHash(expand, hash, muts, PatchLookup(muts, db)) == UpdateHash(expand, hash, muts, StoreLookup(db))
  {
    assert muts[..|muts|] == muts;
    DistinctRemovals(muts, db, |muts|);
  }

  lemma {:induction false} NothingToRemove(muts: seq<Mutation>)
    ensures RemovedValues(muts, NoLookup()) == RemovedValues(muts, StoreLookup(map[]))
  {
    if muts != [] {
      NothingToRemove(muts[..|muts| - 1]);
    }
  }

  /** A snapshot with valid MACs on an empty store: stored in agreement exactly when its index MACs are distinct. */
  lemma SnapshotOutcome(cr: Crypto, name: Bytes, store: StoreState, ss: Snapshot)
    requires Fresh(store, EmptyHash())
    ensures var r := RunSnapshot(cr, name, store, EmptyHash(), ss, true);
      var muts := AsMutations(ss.records);
      match r.error
      case None =>
        && DistinctIndexes(muts)
        && Agrees(cr, r.store, r.state)
        && r.state.version == ss.version
        && Current(r.store.rows) == ApplyAll(map[], muts)
      case Some(StoreConflict) => !DistinctIndexes(muts)
      case Some(Rejected(_)) => r.store == store
  {
    hide MapSum, Lanes, UpdateHash, PutMACs, AddedMACs, RemovedMACs, DeleteMACs, Current, ApplyAll, SnapshotMAC;
    EmptyMapSum(cr);
    var r := RunSnapshot(cr, name, store, EmptyHash(), ss, true);
    var muts := AsMutations(ss.records);
    if r.error == None || r.error == Some(StoreConflict) {
      var kept := DeleteMACs(store.rows, RemovedMACs(muts));
      DecodedIndexMACs(cr, muts, ss.version);
      DeleteKeepsBelow(store.rows, RemovedMACs(muts), ss.version);
      NoRowAbove(kept, ss.version, AddedMACs(muts));
      BatchAccepted(kept, ss.version, muts);
      SetsEachOnceIsDistinct(muts);
      if r.error == None {
        PutKeys(kept, ss.version, AddedMACs(muts), []);
        BatchAtAnyVersion(store.rows, ss.version, muts);
        SnapshotHash(cr, muts);
      }
    }
  }

  lemma SnapshotHash(cr: Crypto, muts: seq<Mutation>)
    requires DistinctIndexes(muts)
    ensures Lanes(UpdateHash(cr.expand, EmptyHash().hash, muts, NoLookup())) == MapSum(cr.expand, ApplyAll(map[], muts))
  {
    hide MapSum, Lanes, ApplyAll;
    EmptyMapSum(cr);
    NothingToRemove(muts);
    DistinctHashes(cr.expand, EmptyHash().hash, muts, map[]);
    IncrementalHashIsWholeHash(cr.expand, EmptyHash().hash, muts, map[]);
  }

  /**
   A full sync from an empty store, whatever the versions and operations of its patches. A snapshot with a repeated index
   MAC conflicts; from any other the run is sequential at every patch exactly when it is smooth, and then store and state
   agree in the end.
   */
  lemma FullSyncExactly(cr: Crypto, name: Bytes, store: StoreState, list: PatchList)
    requires Fresh(store, EmptyHash()) && list.snapshot.Some?
    ensures var muts := AsMutations(list.snapshot.value.records);
      var s := RunSnapshot(cr, name, store, EmptyHash(), list.snapshot.value, true);
      var r := DecodePatches(cr, name, store, EmptyHash(), list, true);
      match s.error
      case Some(Rejected(_)) => r == s && r.store == store
      case Some(StoreConflict) => r == s && !DistinctIndexes(muts)
      case None =>
        && DistinctIndexes(muts) && Current(s.store.rows) == ApplyAll(map[], muts)
        && (AlwaysSequential(cr, name, s.store, s.state, s.mutations, list.patches)
            <==> Smooth(cr, name, s.store, s.state, s.mutations, list.patches))
        && (Smooth(cr, name, s.store, s.state, s.mutations, list.patches) ==>
              && r.store.saved == Some(r.state) && HashesAgree(cr, r.store, r.state) && r.error != Some(StoreConflict)
              && (r.error == None ==>
                    Current(r.store.rows) == ApplyAll(ApplyAll(map[], muts), AllMutations(list.patches))))
  {
    hide RunSnapshot, RunPatches, Current, ApplyAll, AllMutations, Smooth, MapSum, Lanes, AlwaysSequential, VersionsUpTo;
    SnapshotOutcome(cr, name, store, list.snapshot.value);
    var s := RunSnapshot(cr, name, store, EmptyHash(), list.snapshot.value, true);
    if s.error == None {
      RunIsSequentialExactly(cr, name, s.store, s.state, s.mutations, list.patches);
      if Smooth(cr, name, s.store, s.state, s.mutations, list.patches) {
        var n := SmoothRunsAgree(cr, name, s.store, s.state, s.mutations, list.patches);
        assert list.patches[..|list.patches|] == list.patches;
      }
    }
  }

  /**
   In particular after a snapshot with distinct index MACs and patches that are each newer than the one before and set
   each index once: completed or rejected on the way, store and state agree on what was stored.
   */
  lemma FullSyncKeepsAgreement(cr: Crypto, name: Bytes, store: StoreState, list: PatchList)
    requires Fresh(store, EmptyHash()) && list.snapshot.Some?
    requires DistinctIndexes(AsMutations(list.snapshot.value.records))
    requires VersionsIncrease(list.snapshot.value.version, list.patches)
    requires forall i :: 0 <= i < |list.patches| ==> SetsEachOnce(list.patches[i].mutations)
    ensures var r := DecodePatches(cr, name, store, EmptyHash(), list, true);
      && (Agrees(cr, r.store, r.state) || (r.error.Some? && r.store == store))
      && r.error != Some(StoreConflict)
      && (r.error == None ==>
            Current(r.store.rows) == ApplyAll(ApplyAll(map[], AsMutations(list.snapshot.value.records)), AllMutations(list.patches)))
  {
    hide RunSnapshot, RunPatches, Current, ApplyAll, AllMutations, SetsEachOnce, Smooth, AlwaysSequential, HashesAgree, Agrees;
    SnapshotOutcome(cr, name, store, list.snapshot.value);
    FullSyncExactly(cr, name, store, list);
    var s := RunSnapshot(cr, name, store, EmptyHash(), list.snapshot.value, true);
    if s.error == None {
      NewerRunsAreSmooth(cr, name, s.store, s.state, s.mutations, list.patches);
    }
  }

  // ---- Patches of our own

  /** The contents of an encoded blob can be taken apart again. */
  lemma EncodedMutationDecodes(cr: Crypto, keyID: Bytes, info: MutationInfo, iv: IV, patchVersion: Uint64)
    requires cr.Lawful() && keyID in cr.keys
    ensures var m := EncodeMutation(cr, cr.keys[keyID], keyID, info, iv);
      DecodeMutation(cr, m, true, patchVersion)
        == Ok(Decoded(keyID, SET, info.value, info.version, info.index, m.indexMAC, m.ValueMAC(), patchVersion))
  {
    var keys := cr.keys[keyID];
    var indexBytes := cr.marshalIndex(info.index);
    var action := Action(indexBytes, info.value, info.version);
    var ct := cr.encrypt(keys.valueEncryption, iv, cr.marshalAction(action));
    var mac := ContentMAC(cr, SET, iv + ct, keyID, keys.valueMAC);
    var m := EncodeMutation(cr, keys, keyID, info, iv);
    assert m.value[..|m.value| - 32] == iv + ct && m.ValueMAC() == mac;
    assert (iv + ct)[..16] == iv && (iv + ct)[16..] == ct;
    assert cr.decrypt(keys.valueEncryption, iv, ct) == Some(cr.marshalAction(action));
    assert cr.unmarshalAction(cr.marshalAction(action)) == Some(action);
    assert cr.unmarshalIndex(indexBytes) == Some(info.index);
  }

  lemma {:induction false} EncodedMutationsDecode(cr: Crypto, keyID: Bytes, infos: seq<MutationInfo>, ivs: seq<IV>, patchVersion: Uint64, n: nat)
    requires cr.Lawful() && keyID in cr.keys && |ivs| == |infos| && n <= |infos|
    ensures var muts := EncodeMutations(cr, cr.keys[keyID], keyID, infos, ivs);
      var r := DecodeMutations(cr, muts[..n], true, patchVersion);
      && r.Ok?
      && forall i :: 0 <= i < n ==>
           r.value[i] == Decoded(keyID, SET, infos[i].value, infos[i].version, infos[i].index, muts[i].indexMAC, muts[i].ValueMAC(), patchVersion)
  {
    hide DecodeMutation, EncodeMutation;
    var muts := EncodeMutations(cr, cr.keys[keyID], keyID, infos, ivs);
    if n == 0 {
      assert muts[..0] == [];
    } else {
      assert muts[..n][..n - 1] == muts[..n - 1];
      EncodedMutationsDecode(cr, keyID, infos, ivs, patchVersion, n - 1);
      EncodedMutationDecodes(cr, keyID, infos[n - 1], ivs[n - 1], patchVersion);
    }
  }

  /** With distinct index MACs both sides compute the same hash, so both MACs match. */
  lemma EncodedPatchValidates(cr: Crypto, name: Bytes, rows: Rows, state: HashValue, infos: seq<MutationInfo>, ivs: seq<IV>, keyID: Bytes)
    requires keyID in cr.keys && |ivs| == |infos| && state.version + 1 < 0x1_0000_0000_0000_0000
    requires DistinctIndexes(EncodeMutations(cr, cr.keys[keyID], keyID, infos, ivs))
    ensures var patch := EncodePatch(cr, name, rows, state, infos, ivs, keyID).value;
      ValidatePatch(cr, name, rows, state, patch, true) == Ok(HashValue(patch.version, PatchedHash(cr, rows, state, patch.mutations)))
  {
    hide UpdateHash, Current, PatchMAC, SnapshotMAC, EncodeMutations;
    DistinctHashes(cr.expand, state.hash, EncodeMutations(cr, cr.keys[keyID], keyID, infos, ivs), Current(rows));
  }

  /**
   A patch built by EncodePatch on a state that agrees with the store, sent back by the server as the next version,
   is accepted and stored exactly when its index MACs are pairwise distinct.
   */
  lemma EncodedPatchAccepted(cr: Crypto, name: Bytes, store: StoreState, state: HashValue,
                             infos: seq<MutationInfo>, ivs: seq<IV>, keyID: Bytes)
    requires cr.Lawful() && keyID in cr.keys && |ivs| == |infos| && state.version + 1 < 0x1_0000_0000_0000_0000
    requires Ready(cr, store, state)
    ensures var patch := EncodePatch(cr, name, store.rows, state, infos, ivs, keyID).value;
      var r := RunPatch(cr, name, store, state, [], patch, true);
      && (r.error == None <==> DistinctIndexes(patch.mutations))
      && (r.error == None ==>
            && Agrees(cr, r.store, r.state) && r.state.version == state.version + 1
            && |r.mutations| == |infos|
            && forall i :: 0 <= i < |infos| ==>
                 && r.mutations[i].op == SET && r.mutations[i].index == infos[i].index
                 && r.mutations[i].value == infos[i].value && r.mutations[i].version == infos[i].version)
  {
    hide EncodePatch, RunPatch, EncodeMutation, SetsEachOnce, Agrees, Fresh, Current, ApplyAll;
    var muts := EncodeMutations(cr, cr.keys[keyID], keyID, infos, ivs);
    EncodedShape(cr, name, store.rows, state, infos, ivs, keyID);
    var patch := EncodePatch(cr, name, store.rows, state, infos, ivs, keyID).value;
    NewerPatchOutcome(cr, name, store, state, [], patch);
    SetsEachOnceIsDistinct(muts);
    if DistinctIndexes(muts) {
      EncodedPatchRuns(cr, name, store, state, infos, ivs, keyID);
    }
  }

  lemma EncodedShape(cr: Crypto, name: Bytes, rows: Rows, state: HashValue,
                     infos: seq<MutationInfo>, ivs: seq<IV>, keyID: Bytes)
    requires keyID in cr.keys && |ivs| == |infos| && state.version + 1 < 0x1_0000_0000_0000_0000
    ensures var r := EncodePatch(cr, name, rows, state, infos, ivs, keyID);
      && r.Ok? && r.value.version == state.version + 1
      && r.value.mutations == EncodeMutations(cr, cr.keys[keyID], keyID, infos, ivs)
  {
    hide UpdateHash, Current, PatchMAC, SnapshotMAC, EncodeMutations;
  }

  /** With distinct index MACs nothing is rejected, and what is decoded is what was encoded. */
  lemma EncodedPatchRuns(cr: Crypto, name: Bytes, store: StoreState, state: HashValue,
                         infos: seq<MutationInfo>, ivs: seq<IV>, keyID: Bytes)
    requires cr.Lawful() && keyID in cr.keys && |ivs| == |infos| && state.version + 1 < 0x1_0000_0000_0000_0000
    requires DistinctIndexes(EncodeMutations(cr, cr.keys[keyID], keyID, infos, ivs))
    ensures var patch := EncodePatch(cr, name, store.rows, state, infos, ivs, keyID).value;
      var r := RunPatch(cr, name, store, state, [], patch, true);
      && (r.error.None? || r.error.value.StoreConflict?)
      && (r.error == None ==>
           && |r.mutations| == |infos|
           && forall i :: 0 <= i < |infos| ==>
                && r.mutations[i].op == SET && r.mutations[i].index == infos[i].index
                && r.mutations[i].value == infos[i].value && r.mutations[i].version == infos[i].version)
  {
    hide EncodePatch, EncodeMutation, ValidatePatch, PatchedHash, DecodeMutations, StoreMACs, RemovedMACs, AddedMACs;
    var muts := EncodeMutations(cr, cr.keys[keyID], keyID, infos, ivs);
    EncodedShape(cr, name, store.rows, state, infos, ivs, keyID);
    EncodedPatchValidates(cr, name, store.rows, state, infos, ivs, keyID);
    EncodedMutationsDecode(cr, keyID, infos, ivs, state.version + 1, |infos|);
    assert muts[..|infos|] == muts;
  }

  /** The failing input for EncodePatch: two mutations of one index. */
  lemma EncodedRepeatIsNotAccepted(cr: Crypto, name: Bytes, store: StoreState, state: HashValue,
                                   first: MutationInfo, second: MutationInfo, ivs: seq<IV>, keyID: Bytes)
    requires cr.Lawful() && keyID in cr.keys && |ivs| == 2 && state.version + 1 < 0x1_0000_0000_0000_0000
    requires Ready(cr, store, state) && first.index == second.index
    ensures var patch := EncodePatch(cr, name, store.rows, state, [first, second], ivs, keyID).value;
      RunPatch(cr, name, store, state, [], patch, true).error != None
  {
    hide RunPatch, UpdateHash, PatchMAC, SnapshotMAC, Ready, Current;
    var infos := [first, second];
    var muts := EncodeMutations(cr, cr.keys[keyID], keyID, infos, ivs);
    EncodedPatchAccepted(cr, name, store, state, infos, ivs, keyID);
    assert muts[0].indexMAC == muts[1].indexMAC;
  }

  /** A patch with given mutations whose two MACs are right: what an honest sender on the same state would send. */
  function SealedPatch(cr: Crypto, name: Bytes, rows: Rows, state: HashValue, muts: seq<Mutation>, version: Uint64, keyID: Bytes): Patch
    requires keyID in cr.keys
  {
    var keys := cr.keys[keyID];
    var mac := SnapshotMAC(cr, HashValue(version, PatchedHash(cr, rows, state, muts)), name, keys.snapshotMAC);
    Patch(version, muts, mac, PatchMAC(cr, mac, muts, name, keys.patchMAC, version), keyID)
  }

  /** Such a patch is not rejected when its mutations have been encoded. */
  lemma SealedPatchPasses(cr: Crypto, name: Bytes, store: StoreState, state: HashValue, done: seq<Decoded>,
                          infos: seq<MutationInfo>, ivs: seq<IV>, version: Uint64, keyID: Bytes)
    requires cr.Lawful() && keyID in cr.keys && |ivs| == |infos|
    ensures var muts := EncodeMutations(cr, cr.keys[keyID], keyID, infos, ivs);
      var patch := SealedPatch(cr, name, store.rows, state, muts, version, keyID);
      var e := RunPatch(cr, name, store, state, done, patch, true).error;
      e == None || e == Some(StoreConflict)
  {
    hide EncodeMutation, PatchedHash, PatchMAC, SnapshotMAC, DecodeMutations, StoreMACs, RemovedMACs, AddedMACs;
    var muts := EncodeMutations(cr, cr.keys[keyID], keyID, infos, ivs);
    EncodedMutationsDecode(cr, keyID, infos, ivs, version, |infos|);
    assert muts[..|infos|] == muts;
  }

  /**
   The failing input: on an empty store, two correctly encoded SETs of one index in one correctly sealed patch.
   It is not rejected, it conflicts; the saved hash is that of the second value while no row is stored.
   */
  lemma DoubleSetConflicts(cr: Crypto, name: Bytes, store: StoreState, keyID: Bytes, first: MutationInfo, second: MutationInfo, iv: IV)
    requires cr.Lawful() && keyID in cr.keys && Fresh(store, EmptyHash()) && first.index == second.index
    ensures var muts := EncodeMutations(cr, cr.keys[keyID], keyID, [first, second], [iv, iv]);
      var r := RunPatch(cr, name, store, EmptyHash(), [], SealedPatch(cr, name, store.rows, EmptyHash(), muts, 1, keyID), true);
      && r.error == Some(StoreConflict)
      && r.store.saved.Some? && Lanes(r.store.saved.value.hash) == Lanes(cr.expand(muts[1].ValueMAC()))
      && Current(r.store.rows) == map[]
  {
    hide RunPatch, PatchedHash, PatchMAC, SnapshotMAC, MapSum, Lanes, AddedMACs, RemovedMACs, Current, ApplyAll, SetsEachOnce, UpdateHash;
    var infos, ivs := [first, second], [iv, iv];
    var muts := EncodeMutations(cr, cr.keys[keyID], keyID, infos, ivs);
    var patch := SealedPatch(cr, name, store.rows, EmptyHash(), muts, 1, keyID);
    SealedPatchPasses(cr, name, store, EmptyHash(), [], infos, ivs, 1, keyID);
    assert muts[0].indexMAC == muts[1].indexMAC;
    SetsEachOnceIsDistinct(muts);
    NewerPatchOutcome(cr, name, store, EmptyHash(), [], patch);
    EmptyMapSum(cr);
    ConflictLeavesHashAhead(cr, name, store, EmptyHash(), [], patch);
    TwoSetsSum(cr, muts);
  }

  lemma TwoSetsSum(cr: Crypto, muts: seq<Mutation>)
    requires |muts| == 2 && AllSet(muts) && muts[0].indexMAC == muts[1].indexMAC
    ensures MapSum(cr.expand, ApplyAll(map[], muts)) == Lanes(cr.expand(muts[1].ValueMAC()))
    ensures Without(map[], RemovedMACs(muts)) == map[]
  {
    hide Lanes, Plus;
    var k, v := muts[0].indexMAC, muts[1].ValueMAC();
    assert muts[..1][..0] == [] && muts[..1][0] == muts[0];
    assert ApplyAll(map[], muts[..1]) == map[k := muts[0].ValueMAC()];
    assert ApplyAll(map[], muts) == map[k := v];
    SingleSum(cr, k, v);
  }

  lemma SingleSum(cr: Crypto, k: Bytes, v: Bytes)
    ensures MapSum(cr.expand, map[k := v]) == Lanes(cr.expand(v))
  {
    hide Lanes, Plus;
    MapSumWithout(cr.expand, map[k := v], k);
    assert map[k := v] - {k} == map[];
    PlusZero(Lanes(cr.expand(v)));
  }

  // ---- A patch that is not newer

  lemma OneSetRows(rows: Rows, version: nat, m: Mutation)
    requires m.op == SET && |m.indexMAC| == 32 && (version, m.indexMAC) !in rows
    ensures AddedMACs([m]) == [Entry(m.indexMAC, m.ValueMAC())] && DeleteMACs(rows, RemovedMACs([m])) == rows
    ensures PutMACs(rows, version, AddedMACs([m])) == Some(rows[(version, m.indexMAC) := m.ValueMAC()])
  {
    assert [m][..0] == [];
    var entry := Entry(m.indexMAC, m.ValueMAC());
    assert [entry][..0] == [];
    assert PutMACs(rows, version, []) == Some(rows);
  }

  /** One SET of one index, correctly encoded and sealed at a version at which the index has no row, is stored. */
  lemma OneSetStored(cr: Crypto, name: Bytes, store: StoreState, state: HashValue, done: seq<Decoded>,
                     info: MutationInfo, iv: IV, version: Uint64, keyID: Bytes)
    requires cr.Lawful() && keyID in cr.keys
    requires (version, EncodeMutation(cr, cr.keys[keyID], keyID, info, iv).indexMAC) !in store.rows
    ensures var m := EncodeMutation(cr, cr.keys[keyID], keyID, info, iv);
      var r := RunPatch(cr, name, store, state, done, SealedPatch(cr, name, store.rows, state, [m], version, keyID), true);
      var next := HashValue(version, PatchedHash(cr, store.rows, state, [m]));
      && r.error == None && r.state == next
      && r.store == StoreState(Some(next), store.rows[(version, m.indexMAC) := m.ValueMAC()])
  {
    hide RunPatch, PatchedHash, PatchMAC, SnapshotMAC, PutMACs, DeleteMACs, AddedMACs, RemovedMACs;
    var m := EncodeMutation(cr, cr.keys[keyID], keyID, info, iv);
    assert EncodeMutations(cr, cr.keys[keyID], keyID, [info], [iv]) == [m];
    SealedPatchPasses(cr, name, store, state, done, [info], [iv], version, keyID);
    AcceptedPatchParts(cr, name, store, state, done, SealedPatch(cr, name, store.rows, state, [m], version, keyID));
    OneSetRows(store.rows, version, m);
  }

  lemma TwoVersionsShow(index: Bytes, newer: Bytes, older: Bytes)
    ensures Current(map[(2, index) := newer]) == map[index := newer]
    ensures Current(map[(2, index) := newer, (1, index) := older]) == map[index := newer]
  {
    hide Current, Newest;
    var rows: Rows := map[(2, index) := newer];
    var both := rows[(1, index) := older];
    assert both == map[(2, index) := newer, (1, index) := older];
    forall k
      ensures Lookup(Current(rows), k) == Lookup(map[index := newer], k) == Lookup(Current(both), k)
    {
      CurrentLookup(rows, k);
      CurrentLookup(both, k);
      if k == index {
        NewestIs(rows, k, 2);
        NewestIs(both, k, 2);
      } else {
        NewestNone(rows, k);
        NewestNone(both, k);
      }
    }
    MapsEqual(Current(rows), map[index := newer]);
    MapsEqual(Current(both), map[index := newer]);
  }

  /**
   The failing input: from an empty store, a patch of version 2 that sets an index and then one of version 1 that sets it
   again, both correctly encoded and sealed. Both are accepted; lookups keep finding the value of the first, and the
   saved hash is that of the second.
   */
  lemma OlderPatchIsHidden(cr: Crypto, name: Bytes, store: StoreState, keyID: Bytes, first: MutationInfo, second: MutationInfo, iv: IV)
    requires cr.Lawful() && keyID in cr.keys && Fresh(store, EmptyHash()) && first.index == second.index
    ensures var m1 := EncodeMutation(cr, cr.keys[keyID], keyID, first, iv);
      var m2 := EncodeMutation(cr, cr.keys[keyID], keyID, second, iv);
      var r1 := RunPatch(cr, name, store, EmptyHash(), [], SealedPatch(cr, name, store.rows, EmptyHash(), [m1], 2, keyID), true);
      var p2 := SealedPatch(cr, name, r1.store.rows, r1.state, [m2], 1, keyID);
      var r2 := RunPatch(cr, name, r1.store, r1.state, r1.mutations, p2, true);
      && r1.error == None && r2.error == None && r2.store.saved == Some(r2.state)
      && Current(r2.store.rows) == map[m1.indexMAC := m1.ValueMAC()]
      && Lanes(r2.state.hash) == Lanes(cr.expand(m2.ValueMAC()))
      && (HashesAgree(cr, r2.store, r2.state) <==> Lanes(cr.expand(m1.ValueMAC())) == Lanes(cr.expand(m2.ValueMAC())))
  {
    hide RunPatch, PatchedHash, SealedPatch, MapSum, Lanes, Current, ApplyAll, UpdateHash;
    var m1 := EncodeMutation(cr, cr.keys[keyID], keyID, first, iv);
    var m2 := EncodeMutation(cr, cr.keys[keyID], keyID, second, iv);
    var r1 := RunPatch(cr, name, store, EmptyHash(), [], SealedPatch(cr, name, store.rows, EmptyHash(), [m1], 2, keyID), true);
    OneSetStored(cr, name, store, EmptyHash(), [], first, iv, 2, keyID);
    assert r1.store.rows == map[(2, m1.indexMAC) := m1.ValueMAC()];
    OneSetStored(cr, name, r1.store, r1.state, r1.mutations, second, iv, 1, keyID);
    TwoVersionsShow(m1.indexMAC, m1.ValueMAC(), m2.ValueMAC());
    TwoPatchHashes(cr, r1.store.rows, 2, m1, m2);
    SingleSum(cr, m1.indexMAC, m1.ValueMAC());
  }

  /** The hash after a SET and then another SET of its index is that of the second value. */
  lemma TwoPatchHashes(cr: Crypto, rows: Rows, version: Uint64, m1: Mutation, m2: Mutation)
    requires m1.op == SET && m2.op == SET && m1.indexMAC == m2.indexMAC && Current(rows) == map[m1.indexMAC := m1.ValueMAC()]
    ensures var state := HashValue(version, PatchedHash(cr, map[], EmptyHash(), [m1]));
      Lanes(PatchedHash(cr, rows, state, [m2])) == Lanes(cr.expand(m2.ValueMAC()))
  {
    hide MapSum, Lanes, Current, ApplyAll, UpdateHash;
    var hash := PatchedHash(cr, map[], EmptyHash(), [m1]);
    EmptyMapSum(cr);
    IncrementalHashIsWholeHash(cr.expand, EmptyHash().hash, [m1], map[]);
    assert ApplyAll(map[], [m1]) == Current(rows) by {
      OneSetApplied(map[], m1);
    }
    IncrementalHashIsWholeHash(cr.expand, hash, [m2], Current(rows));
    ApplyAllAppend(map[], [m1], [m2]);
    assert [m1] + [m2] == [m1, m2];
    TwoSetsSum(cr, [m1, m2]);
  }

  lemma OneSetApplied(m: MacMap, set1: Mutation)
    requires set1.op == SET
    ensures ApplyAll(m, [set1]) == m[set1.indexMAC := set1.ValueMAC()]
  {
    assert [set1][..0] == [];
  }
}

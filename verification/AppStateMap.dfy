/**
 What a list of mutations means, and why the incremental hash keeps up with it
 (whatsmeow/appstate/hash.go and the patch arithmetic of whatsmeow/appstate/decode.go).
 */
module AppStateMap {
  import opened Basics
  import opened LtHash

  type Mac = b: Bytes | |b| == 32 witness seq(32, _ => 0)

  /** An encrypted value: the content and 32 bytes of MAC. The source panics on anything shorter. */
  type Blob = b: Bytes | |b| >= 32 witness seq(32, _ => 0)

  datatype Operation = SET | REMOVE

  datatype Mutation = Mutation(op: Operation, indexMAC: Bytes, value: Blob, keyID: Bytes) {
    function ValueMAC(): Mac {
      value[|value| - 32..]
    }
  }

  type MacMap = map<Bytes, Bytes>

  function Lookup(m: MacMap, index: Bytes): Option<Bytes> {
    if index in m then Some(m[index]) else None
  }

  // ---- The simple form: one operation at a time on a map, and a hash over the whole map

  function ApplyOne(m: MacMap, mut: Mutation): MacMap {
    match mut.op
    case SET => m[mut.indexMAC := mut.ValueMAC()]
    case REMOVE => m - {mut.indexMAC}
  }

  function ApplyAll(m: MacMap, muts: seq<Mutation>): MacMap {
    if muts == [] then m else ApplyOne(ApplyAll(m, muts[..|muts| - 1]), muts[|muts| - 1])
  }

  /** The hash recomputed from nothing: the sum over every stored value MAC. */
  ghost function MapSum(expand: Bytes -> Block, m: MacMap): Vec
    decreases |m|
  {
    if m == map[] then Zero
    else
      var k :| k in m;
      Plus(MapSum(expand, m - {k}), Lanes(expand(m[k])))
  }

  // ---- The fast form: value MACs to add and to remove

  /** The value MACs that a list of mutations adds. */
  function AddedValues(muts: seq<Mutation>): seq<Bytes> {
    if muts == [] then []
    else
      var last := muts[|muts| - 1];
      AddedValues(muts[..|muts| - 1]) + (if last.op == SET then [last.ValueMAC()] else [])
  }

  /** The previous value MACs that it removes, as told by a lookup of index and position. */
  function RemovedValues(muts: seq<Mutation>, prev: (Bytes, nat) -> Option<Bytes>): seq<Bytes> {
    if muts == [] then []
    else
      var last := muts[|muts| - 1];
      RemovedValues(muts[..|muts| - 1], prev)
      + (match prev(last.indexMAC, |muts| - 1) case Some(mac) => [mac] case None => [])
  }

  /** HashState.updateHash */
  function UpdateHash(expand: Bytes -> Block, hash: Block, muts: seq<Mutation>, prev: (Bytes, nat) -> Option<Bytes>): Block {
    SubtractThenAdd(expand, hash, RemovedValues(muts, prev), AddedValues(muts))
  }

  /** validatePatch's lookup: back through the patch from a position, and the database when nothing is found. */
  function PreviousValue(muts: seq<Mutation>, db: MacMap, index: Bytes, i: nat): Option<Bytes>
    requires i <= |muts|
  {
    if i == 0 then Lookup(db, index)
    else if muts[i - 1].indexMAC == index then
      if muts[i - 1].op == SET then Some(muts[i - 1].ValueMAC()) else None
    else PreviousValue(muts, db, index, i - 1)
  }

  /** The same lookup as a total function, to hand to UpdateHash. */
  function PatchLookup(muts: seq<Mutation>, db: MacMap): (Bytes, nat) -> Option<Bytes> {
    (index: Bytes, i: nat) => if i <= |muts| then PreviousValue(muts, db, index, i) else None
  }

  // ---- Sums over maps

  lemma {:induction false} MapSumWithout(expand: Bytes -> Block, m: MacMap, k: Bytes)
    requires k in m
    ensures MapSum(expand, m) == Plus(MapSum(expand, m - {k}), Lanes(expand(m[k])))
    decreases |m|
  {
    hide Plus, Lanes;
    var j :| j in m && MapSum(expand, m) == Plus(MapSum(expand, m - {j}), Lanes(expand(m[j])));
    if j != k {
      var rest := m - {j} - {k};
      assert rest == m - {k} - {j};
      MapSumWithout(expand, m - {j}, k);
      MapSumWithout(expand, m - {k}, j);
      var s, ej, ek := MapSum(expand, rest), Lanes(expand(m[j])), Lanes(expand(m[k]));
      PlusAssociates(s, ek, ej);
      PlusAssociates(s, ej, ek);
      PlusCommutes(ej, ek);
    }
  }

  /** The contribution of an entry, or of its absence. */
  ghost function Weight(expand: Bytes -> Block, entry: Option<Bytes>): Vec {
    match entry
    case Some(mac) => Lanes(expand(mac))
    case None => Zero
  }

  lemma MapSumRemove(expand: Bytes -> Block, m: MacMap, k: Bytes)
    ensures MapSum(expand, m - {k}) == Minus(MapSum(expand, m), Weight(expand, Lookup(m, k)))
  {
    hide Plus, Minus, Lanes;
    if k in m {
      MapSumWithout(expand, m, k);
      MinusUndoesPlus(MapSum(expand, m - {k}), Lanes(expand(m[k])));
    } else {
      assert m - {k} == m;
      PlusZero(MapSum(expand, m));
    }
  }

  lemma MapSumSet(expand: Bytes -> Block, m: MacMap, k: Bytes, v: Bytes)
    ensures MapSum(expand, m[k := v])
         == Plus(Minus(MapSum(expand, m), Weight(expand, Lookup(m, k))), Lanes(expand(v)))
  {
    hide Plus, Minus, Lanes;
    MapSumWithout(expand, m[k := v], k);
    assert m[k := v] - {k} == m - {k};
    MapSumRemove(expand, m, k);
  }

  // ---- The backward search finds what the sequential map holds

  lemma {:induction false} PreviousValueIsCurrent(muts: seq<Mutation>, db: MacMap, index: Bytes, i: nat)
    requires i <= |muts|
    ensures PreviousValue(muts, db, index, i) == Lookup(ApplyAll(db, muts[..i]), index)
  {
    if i > 0 {
      PreviousValueIsCurrent(muts, db, index, i - 1);
      assert muts[..i][..i - 1] == muts[..i - 1];
    } else {
      assert muts[..0] == [];
    }
  }

  // ---- The fast form refines the simple one

  lemma SumSnoc(expand: Bytes -> Block, items: seq<Bytes>, entry: Option<Bytes>)
    ensures Sum(expand, items + (match entry case Some(mac) => [mac] case None => []))
         == Plus(Sum(expand, items), Weight(expand, entry))
  {
    match entry
    case Some(mac) =>
      assert (items + [mac])[..|items|] == items;
    case None =>
      assert items + [] == items;
      PlusZero(Sum(expand, items));
  }

  /** One more mutation: what it removes and adds is what happens to the map. */
  lemma StepKeepsUp(expand: Bytes -> Block, base: Vec, r: Vec, a: Vec, m: MacMap, mut: Mutation)
    requires Plus(Minus(base, r), a) == MapSum(expand, m)
    ensures Plus(Minus(base, Plus(r, Weight(expand, Lookup(m, mut.indexMAC)))),
                 Plus(a, Weight(expand, if mut.op == SET then Some(mut.ValueMAC()) else None)))
         == MapSum(expand, ApplyOne(m, mut))
  {
    hide Plus, Minus, Lanes, MapSum;
    var p := Weight(expand, Lookup(m, mut.indexMAC));
    var d := Minus(base, r);
    MinusOfMinus(base, r, p);
    MinusOfPlus(d, a, p);
    if mut.op == SET {
      MapSumSet(expand, m, mut.indexMAC, mut.ValueMAC());
      PlusAssociates(Minus(d, p), a, Lanes(expand(mut.ValueMAC())));
    } else {
      MapSumRemove(expand, m, mut.indexMAC);
      PlusZero(a);
    }
  }

  lemma {:induction false} PrefixKeepsUp(expand: Bytes -> Block, base: Vec, muts: seq<Mutation>, db: MacMap, i: nat)
    requires i <= |muts| && base == MapSum(expand, db)
    ensures Plus(Minus(base, Sum(expand, RemovedValues(muts[..i], PatchLookup(muts, db)))), Sum(expand, AddedValues(muts[..i])))
         == MapSum(expand, ApplyAll(db, muts[..i]))
  {
    hide Plus, Minus, Lanes, MapSum, Weight;
    var prev := PatchLookup(muts, db);
    if i == 0 {
      PlusZero(base);
      assert muts[..0] == [];
    } else {
      PrefixKeepsUp(expand, base, muts, db, i - 1);
      var front, last := muts[..i - 1], muts[i - 1];
      assert muts[..i][..i - 1] == front;
      PreviousValueIsCurrent(muts, db, last.indexMAC, i - 1);
      SumSnoc(expand, RemovedValues(front, prev), prev(last.indexMAC, i - 1));
      SumSnoc(expand, AddedValues(front), if last.op == SET then Some(last.ValueMAC()) else None);
      StepKeepsUp(expand, base, Sum(expand, RemovedValues(front, prev)), Sum(expand, AddedValues(front)),
                  ApplyAll(db, front), last);
    }
  }

  /**
   The incremental hash of a patch is the hash of the whole map after the patch,
   however often one index is set, removed and set again inside it.
   */
  lemma IncrementalHashIsWholeHash(expand: Bytes -> Block, hash: Block, muts: seq<Mutation>, db: MacMap)
    requires Lanes(hash) == MapSum(expand, db)
    ensures Lanes(UpdateHash(expand, hash, muts, PatchLookup(muts, db))) == MapSum(expand, ApplyAll(db, muts))
  {
    hide Plus, Minus, Lanes, MapSum, ToBytes;
    assert muts[..|muts|] == muts;
    PrefixKeepsUp(expand, Lanes(hash), muts, db, |muts|);
    LanesOfToBytes(Plus(Minus(Lanes(hash), Sum(expand, RemovedValues(muts, PatchLookup(muts, db)))),
                        Sum(expand, AddedValues(muts))));
  }
}

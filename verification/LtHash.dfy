/** The summation hash of app-state sync (whatsmeow/appstate/lthash/lthash.go). */
module LtHash {
  import opened Basics

  const HASH_SIZE := 128
  const LANES := 64

  type Block = b: Bytes | |b| == HASH_SIZE witness seq(HASH_SIZE, _ => 0)

  /** A hash seen as 64 numbers of 16 bits. */
  type Vec = v: seq<Uint16> | |v| == LANES witness seq(LANES, _ => 0)

  /** binary.LittleEndian.Uint16 on each pair of bytes. */
  function Lanes(b: Block): Vec {
    seq(LANES, k requires 0 <= k < LANES => b[2 * k] as int + 256 * b[2 * k + 1] as int)
  }

  /** The two bytes of a lane, low byte first. */
  function LaneByte(x: Uint16, i: nat): Byte {
    if i % 2 == 0 then x % 256 else x / 256
  }

  /** binary.LittleEndian.PutUint16 into each pair of bytes. */
  function ToBytes(v: Vec): Block {
    seq(HASH_SIZE, i requires 0 <= i < HASH_SIZE => LaneByte(v[i / 2], i))
  }

  lemma LaneBytesJoin(x: Uint16, k: nat)
    ensures LaneByte(x, 2 * k) as int + 256 * LaneByte(x, 2 * k + 1) as int == x
  {
  }

  lemma LanesOfToBytes(v: Vec)
    ensures Lanes(ToBytes(v)) == v
  {
    hide LaneByte;
    forall k | 0 <= k < LANES
      ensures Lanes(ToBytes(v))[k] == v[k]
    {
      assert ToBytes(v)[2 * k] == LaneByte(v[k], 2 * k);
      assert ToBytes(v)[2 * k + 1] == LaneByte(v[k], 2 * k + 1);
      LaneBytesJoin(v[k], k);
    }
  }

  lemma LanesInjective(a: Block, b: Block)
    requires Lanes(a) == Lanes(b)
    ensures a == b
  {
    forall i | 0 <= i < HASH_SIZE
      ensures a[i] == b[i]
    {
      var k := i / 2;
      assert Lanes(a)[k] == Lanes(b)[k];
      assert i == 2 * k || i == 2 * k + 1;
    }
  }

  const Zero: Vec := seq(LANES, _ => 0)

  /** Addition and subtraction of uint16 values, which wrap around. */
  function CombineLane(x: Uint16, y: Uint16, subtract: bool): Uint16 {
    if subtract then (x as int - y as int) % 0x1_0000 else (x as int + y as int) % 0x1_0000
  }

  function Plus(a: Vec, b: Vec): Vec {
    seq(LANES, k requires 0 <= k < LANES => CombineLane(a[k], b[k], false))
  }

  function Minus(a: Vec, b: Vec): Vec {
    seq(LANES, k requires 0 <= k < LANES => CombineLane(a[k], b[k], true))
  }

  lemma PlusCommutes(a: Vec, b: Vec)
    ensures Plus(a, b) == Plus(b, a)
  {
  }

  /** One wrap at most. */
  lemma CombinedLane(x: Uint16, y: Uint16)
    ensures CombineLane(x, y, false) == if x + y < 0x1_0000 then x + y else x + y - 0x1_0000
    ensures CombineLane(x, y, true) == if x >= y then x - y else x - y + 0x1_0000
  {
  }

  /** Lane by lane, the order and the grouping of additions and subtractions do not matter. */
  lemma LanesCombine(x: Uint16, y: Uint16, z: Uint16)
    ensures CombineLane(CombineLane(x, y, false), z, false) == CombineLane(x, CombineLane(y, z, false), false)
    ensures CombineLane(CombineLane(x, y, false), z, true) == CombineLane(CombineLane(x, z, true), y, false)
    ensures CombineLane(CombineLane(x, y, true), z, true) == CombineLane(x, CombineLane(y, z, false), true)
  {
    hide CombineLane;
    CombinedLane(x, y);
    CombinedLane(y, z);
    CombinedLane(x, z);
    CombinedLane(CombineLane(x, y, false), z);
    CombinedLane(x, CombineLane(y, z, false));
    CombinedLane(CombineLane(x, z, true), y);
    CombinedLane(CombineLane(x, y, true), z);
  }

  lemma PlusAssociates(a: Vec, b: Vec, c: Vec)
    ensures Plus(Plus(a, b), c) == Plus(a, Plus(b, c))
  {
    hide CombineLane;
    forall k | 0 <= k < LANES ensures Plus(Plus(a, b), c)[k] == Plus(a, Plus(b, c))[k] {
      LanesCombine(a[k], b[k], c[k]);
    }
  }

  lemma PlusZero(a: Vec)
    ensures Plus(a, Zero) == a && Plus(Zero, a) == a && Minus(a, Zero) == a
  {
  }

  lemma MinusUndoesPlus(a: Vec, b: Vec)
    ensures Minus(Plus(a, b), b) == a && Plus(Minus(a, b), b) == a
  {
  }

  /** Subtraction moves past addition. */
  lemma MinusOfPlus(a: Vec, b: Vec, c: Vec)
    ensures Minus(Plus(a, b), c) == Plus(Minus(a, c), b)
  {
    hide CombineLane;
    forall k | 0 <= k < LANES ensures Minus(Plus(a, b), c)[k] == Plus(Minus(a, c), b)[k] {
      LanesCombine(a[k], b[k], c[k]);
    }
  }

  lemma MinusOfMinus(a: Vec, b: Vec, c: Vec)
    ensures Minus(Minus(a, b), c) == Minus(a, Plus(b, c))
  {
    hide CombineLane;
    forall k | 0 <= k < LANES ensures Minus(Minus(a, b), c)[k] == Minus(a, Plus(b, c))[k] {
      LanesCombine(a[k], b[k], c[k]);
    }
  }

  /** The sum of the expanded items, in list order. */
  function Sum(expand: Bytes -> Block, items: seq<Bytes>): Vec {
    if items == [] then Zero
    else Plus(Sum(expand, items[..|items| - 1]), Lanes(expand(items[|items| - 1])))
  }

  /** Subtract one list, add another: the specification of the in-place method. */
  function SubtractThenAdd(expand: Bytes -> Block, base: Block, subtract: seq<Bytes>, add: seq<Bytes>): Block {
    ToBytes(Plus(Minus(Lanes(base), Sum(expand, subtract)), Sum(expand, add)))
  }

  // ---- The algebra

  lemma {:induction false} SumAppend(expand: Bytes -> Block, a: seq<Bytes>, b: seq<Bytes>)
    ensures Sum(expand, a + b) == Plus(Sum(expand, a), Sum(expand, b))
  {
    if b == [] {
      assert a + b == a;
      PlusZero(Sum(expand, a));
    } else {
      var front, last := b[..|b| - 1], Lanes(expand(b[|b| - 1]));
      assert (a + b)[..|a + b| - 1] == a + front;
      SumAppend(expand, a, front);
      PlusAssociates(Sum(expand, a), Sum(expand, front), last);
    }
  }

  lemma SumOne(expand: Bytes -> Block, x: Bytes)
    ensures Sum(expand, [x]) == Lanes(expand(x))
  {
    PlusZero(Lanes(expand(x)));
  }

  lemma SumWithout(expand: Bytes -> Block, s: seq<Bytes>, i: nat)
    requires i < |s|
    ensures Sum(expand, s) == Plus(Sum(expand, s[..i] + s[i + 1..]), Lanes(expand(s[i])))
  {
    hide Plus, Sum;
    var a, x, b := s[..i], [s[i]], s[i + 1..];
    assert s == a + x + b;
    SumAppend(expand, a + x, b);
    SumAppend(expand, a, x);
    SumAppend(expand, a, b);
    SumOne(expand, s[i]);
    PlusAssociates(Sum(expand, a), Sum(expand, x), Sum(expand, b));
    PlusAssociates(Sum(expand, a), Sum(expand, b), Sum(expand, x));
    PlusCommutes(Sum(expand, x), Sum(expand, b));
  }

  /** The order of a list does not matter to its sum. */
  lemma {:induction false} SumPermutes(expand: Bytes -> Block, a: seq<Bytes>, b: seq<Bytes>)
    requires multiset(a) == multiset(b)
    ensures Sum(expand, a) == Sum(expand, b)
  {
    hide Plus;
    if a == [] {
      assert |multiset(b)| == 0;
    } else {
      var n := |a| - 1;
      assert a[n] in multiset(b);
      var i :| 0 <= i < |b| && b[i] == a[n];
      MultisetWithout(a, n);
      MultisetWithout(b, i);
      assert a[..n] + a[n + 1..] == a[..n];
      SumPermutes(expand, a[..n], b[..i] + b[i + 1..]);
      SumWithout(expand, b, i);
    }
  }

  /** The result depends only on which items are subtracted and added, and how often. */
  lemma ResultDependsOnMultisets(expand: Bytes -> Block, base: Block,
                                 sub1: seq<Bytes>, add1: seq<Bytes>, sub2: seq<Bytes>, add2: seq<Bytes>)
    requires multiset(sub1) == multiset(sub2) && multiset(add1) == multiset(add2)
    ensures SubtractThenAdd(expand, base, sub1, add1) == SubtractThenAdd(expand, base, sub2, add2)
  {
    SumPermutes(expand, sub1, sub2);
    SumPermutes(expand, add1, add2);
  }

  /** Subtracting exactly what was added, in any order, restores the base byte for byte. */
  lemma SubtractUndoesAdd(expand: Bytes -> Block, base: Block, items: seq<Bytes>, again: seq<Bytes>)
    requires multiset(items) == multiset(again)
    ensures SubtractThenAdd(expand, SubtractThenAdd(expand, base, [], items), again, []) == base
  {
    hide Plus, Minus, Lanes, ToBytes;
    SumPermutes(expand, items, again);
    var s := Sum(expand, items);
    PlusZero(Lanes(base));
    LanesOfToBytes(Plus(Lanes(base), s));
    MinusUndoesPlus(Lanes(base), s);
    LanesOfToBytes(Lanes(base));
    LanesInjective(SubtractThenAdd(expand, SubtractThenAdd(expand, base, [], items), again, []), base);
  }

  /** Two batches in turn are one combined batch. */
  lemma BatchesCombine(expand: Bytes -> Block, base: Block,
                       sub1: seq<Bytes>, add1: seq<Bytes>, sub2: seq<Bytes>, add2: seq<Bytes>)
    ensures SubtractThenAdd(expand, SubtractThenAdd(expand, base, sub1, add1), sub2, add2)
         == SubtractThenAdd(expand, base, sub1 + sub2, add1 + add2)
  {
    hide Plus, Minus, Lanes, Sum, ToBytes;
    var b := Lanes(base);
    var s1, a1, s2, a2 := Sum(expand, sub1), Sum(expand, add1), Sum(expand, sub2), Sum(expand, add2);
    SumAppend(expand, sub1, sub2);
    SumAppend(expand, add1, add2);
    LanesOfToBytes(Plus(Minus(b, s1), a1));
    MinusOfPlus(Minus(b, s1), a1, s2);
    MinusOfMinus(b, s1, s2);
    PlusAssociates(Minus(b, Plus(s1, s2)), a1, a2);
  }

  // ---- The bytes in place

  function Combined(base: Block, input: Block, subtract: bool): Vec {
    if subtract then Minus(Lanes(base), Lanes(input)) else Plus(Lanes(base), Lanes(input))
  }

  lemma LaneAt(base: Block, input: Block, subtract: bool, k: nat, x: Uint16, y: Uint16)
    requires k < LANES
    requires x == base[2 * k] as int + 256 * base[2 * k + 1] as int
    requires y == input[2 * k] as int + 256 * input[2 * k + 1] as int
    ensures Combined(base, input, subtract)[k] == CombineLane(x, y, subtract)
  {
    hide CombineLane;
    assert Lanes(base)[k] == x && Lanes(input)[k] == y;
  }

  method PerformPointwiseWithOverflow(base: array<Byte>, input: Block, subtract: bool)
    requires base.Length == HASH_SIZE
    modifies base
    ensures base[..] == ToBytes(Combined(old(base[..]), input, subtract))
  {
    hide Combined, CombineLane, LaneByte;
    ghost var before := base[..];
    ghost var after := Combined(before, input, subtract);
    var i := 0;
    while i < base.Length
      invariant 0 <= i <= base.Length && i % 2 == 0
      invariant forall j :: 0 <= j < i ==> base[j] == ToBytes(after)[j]
      invariant forall j :: i <= j < base.Length ==> base[j] == before[j]
    {
      var x := base[i] as int + 256 * base[i + 1] as int;
      var y := input[i] as int + 256 * input[i + 1] as int;
      var result := CombineLane(x, y, subtract);
      LaneAt(before, input, subtract, i / 2, x, y);
      assert (i + 1) / 2 == i / 2;
      base[i], base[i + 1] := LaneByte(result, i), LaneByte(result, i + 1);
      i := i + 2;
    }
    assert base[..] == ToBytes(after);
  }

  method MultipleOp(expand: Bytes -> Block, base: array<Byte>, input: seq<Bytes>, subtract: bool)
    requires base.Length == HASH_SIZE
    modifies base
    ensures base[..] == ToBytes(if subtract then Minus(old(Lanes(base[..])), Sum(expand, input))
                                else Plus(old(Lanes(base[..])), Sum(expand, input)))
  {
    hide Plus, Minus, Lanes, ToBytes;
    ghost var before := Lanes(base[..]);
    PlusZero(before);
    LanesOfToBytes(before);
    LanesInjective(base[..], ToBytes(before));
    for i := 0 to |input|
      invariant base[..] == ToBytes(if subtract then Minus(before, Sum(expand, input[..i]))
                                    else Plus(before, Sum(expand, input[..i])))
    {
      LanesOfToBytes(Lanes(base[..]));
      ghost var here := if subtract then Minus(before, Sum(expand, input[..i])) else Plus(before, Sum(expand, input[..i]));
      LanesOfToBytes(here);
      PerformPointwiseWithOverflow(base, expand(input[i]), subtract);
      assert input[..i + 1][..i] == input[..i];
      MinusOfMinus(before, Sum(expand, input[..i]), Lanes(expand(input[i])));
      PlusAssociates(before, Sum(expand, input[..i]), Lanes(expand(input[i])));
    }
    assert input[..|input|] == input;
  }

  method SubtractThenAddInPlace(expand: Bytes -> Block, base: array<Byte>, subtract: seq<Bytes>, add: seq<Bytes>)
    requires base.Length == HASH_SIZE
    modifies base
    ensures base[..] == SubtractThenAdd(expand, old(base[..]), subtract, add)
  {
    LanesOfToBytes(Minus(Lanes(base[..]), Sum(expand, subtract)));
    MultipleOp(expand, base, subtract, true);
    MultipleOp(expand, base, add, false);
  }
}

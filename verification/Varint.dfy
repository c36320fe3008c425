/** Base 128 varints as Go's encoding/binary reads and writes them. */
module Varints {
  import opened Basics

  const MAX_VARINT_LENGTH := 10

  /** Short: the bytes end first (size 0). TooLong: more than 64 bits (a negative size). */
  datatype Varint = Got(value: nat, size: nat) | Short | TooLong

  /** Uvarint from its i-th byte on. */
  function UvarintFrom(b: Bytes, i: nat): (r: Varint)
    requires i <= MAX_VARINT_LENGTH
    ensures r.Got? ==> 0 < r.size <= |b| && i < MAX_VARINT_LENGTH && r.value < Limit(i)
    decreases b
  {
    if b == [] then Short
    else if i == MAX_VARINT_LENGTH then TooLong
    else if b[0] < 128 then if i == MAX_VARINT_LENGTH - 1 && b[0] > 1 then TooLong else Got(b[0], 1)
    else match UvarintFrom(b[1..], i + 1)
      case Got(x, n) => Got(b[0] - 128 + 128 * x, n + 1)
      case other => other
  }

  function Uvarint(b: Bytes): Varint {
    UvarintFrom(b, 0)
  }

  /** What still fits in 64 bits after i bytes. */
  function Limit(i: nat): (r: nat)
    requires i < MAX_VARINT_LENGTH
    ensures r >= if i == MAX_VARINT_LENGTH - 1 then 2 else 256
    decreases MAX_VARINT_LENGTH - i
  {
    if i == MAX_VARINT_LENGTH - 1 then 2 else 128 * Limit(i + 1)
  }

  lemma LimitZero()
    ensures Limit(0) == 0x1_0000_0000_0000_0000
  {
    assert Limit(8) == 256;
    assert Limit(6) == 256 * 0x4000;
    assert Limit(4) == 256 * 0x1000_0000;
    assert Limit(2) == 256 * 0x400_0000_0000;
  }

  function PutUvarint(x: nat): (b: Bytes)
    ensures b != []
  {
    if x < 128 then [x] else [x % 128 + 128] + PutUvarint(x / 128)
  }

  lemma {:induction false} PutThenGet(x: nat, i: nat, rest: Bytes)
    requires i < MAX_VARINT_LENGTH && x < Limit(i)
    ensures UvarintFrom(PutUvarint(x) + rest, i) == Got(x, |PutUvarint(x)|)
    decreases x
  {
    var b := PutUvarint(x) + rest;
    if x >= 128 {
      assert b[1..] == PutUvarint(x / 128) + rest;
      PutThenGet(x / 128, i + 1, rest);
    }
  }

  /** Reading does not look past the varint. */
  lemma {:induction false} UvarintAppend(b: Bytes, i: nat, rest: Bytes)
    requires i <= MAX_VARINT_LENGTH && UvarintFrom(b, i).Got?
    ensures UvarintFrom(b + rest, i) == UvarintFrom(b, i)
    decreases b
  {
    if b[0] >= 128 {
      assert (b + rest)[1..] == b[1..] + rest;
      UvarintAppend(b[1..], i + 1, rest);
    }
  }

  lemma {:induction false} UvarintPrefix(b: Bytes, i: nat)
    requires i <= MAX_VARINT_LENGTH && UvarintFrom(b, i).Got?
    ensures UvarintFrom(b[..UvarintFrom(b, i).size], i) == UvarintFrom(b, i)
    decreases b
  {
    if b[0] >= 128 {
      var n := UvarintFrom(b, i).size;
      assert b[..n][1..] == b[1..][..n - 1];
      UvarintPrefix(b[1..], i + 1);
    }
  }

  /** What PutUvarint writes is as short as any encoding of the number. */
  lemma {:induction false} PutIsShortest(b: Bytes, i: nat)
    requires i <= MAX_VARINT_LENGTH && UvarintFrom(b, i).Got?
    ensures |PutUvarint(UvarintFrom(b, i).value)| <= UvarintFrom(b, i).size
    decreases b
  {
    if b[0] >= 128 {
      PutIsShortest(b[1..], i + 1);
      var x := UvarintFrom(b[1..], i + 1).value;
      assert (b[0] - 128 + 128 * x) / 128 == x;
    }
  }

  lemma {:induction false} PutMonotone(x: nat, y: nat)
    requires x <= y
    ensures |PutUvarint(x)| <= |PutUvarint(y)|
    decreases y
  {
    if x >= 128 {
      PutMonotone(x / 128, y / 128);
    }
  }
}

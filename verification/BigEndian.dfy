/** Fixed-width numbers, most significant byte first. */
module BigEndian {
  import opened Basics

  /** (v >> 8k) & 0xFF */
  function ByteAt(v: nat, k: nat): Byte {
    if k == 0 then v % 256 else ByteAt(v / 256, k - 1)
  }

  /** v << 8k */
  function ShiftLeft(v: nat, k: nat): nat {
    if k == 0 then v else 256 * ShiftLeft(v, k - 1)
  }

  /** The low n bytes of v, most significant first. */
  function IntBytes(v: nat, n: nat): (b: Bytes)
    ensures |b| == n
  {
    if n == 0 then [] else IntBytes(v / 256, n - 1) + [v % 256]
  }

  function IntOf(b: Bytes): nat {
    if b == [] then 0 else 256 * IntOf(b[..|b| - 1]) + b[|b| - 1]
  }

  /** Reading n bytes back gives the number modulo 2^(8n): exactly the number when it fits. */
  lemma {:induction false} IntRoundTrip(v: nat, n: nat)
    requires v < ShiftLeft(1, n)
    ensures IntOf(IntBytes(v, n)) == v
  {
    if n > 0 {
      IntRoundTrip(v / 256, n - 1);
      assert IntBytes(v, n)[..n - 1] == IntBytes(v / 256, n - 1);
    }
  }

  lemma ShiftLeftOne()
    ensures ShiftLeft(1, 1) == 0x100 && ShiftLeft(1, 2) == 0x1_0000 && ShiftLeft(1, 3) == 0x100_0000
    ensures ShiftLeft(1, 4) == 0x1_0000_0000
  {
    assert ShiftLeft(1, 3) == 0x100_0000;
  }
}

/** The token dictionaries and tag bytes of the binary XML format (whatsmeow/binary/token/token.go). */
module Tokens {
  import opened Basics

  const LIST_EMPTY: Byte := 0
  const DICTIONARY_0: Byte := 236
  const DICTIONARY_3: Byte := 239
  const INTEROP_JID: Byte := 245
  const FB_JID: Byte := 246
  const AD_JID: Byte := 247
  const LIST_8: Byte := 248
  const LIST_16: Byte := 249
  const JID_PAIR: Byte := 250
  const HEX_8: Byte := 251
  const BINARY_8: Byte := 252
  const BINARY_20: Byte := 253
  const BINARY_32: Byte := 254
  const NIBBLE_8: Byte := 255

  const PACKED_MAX := 127

  /** The position of the last entry equal to s: filling a Go map in index order leaves the last one. */
  function LastIndex(xs: seq<Bytes>, s: Bytes): (r: Option<nat>)
    ensures r.Some? ==> r.value < |xs| && xs[r.value] == s
    ensures r.None? <==> s !in xs
  {
    if xs == [] then None
    else if xs[|xs| - 1] == s then Some(|xs| - 1)
    else LastIndex(xs[..|xs| - 1], s)
  }

  /** The dictionaries are parameters; only the sizes of the source's tables are fixed. */
  datatype Dictionary = Dictionary(single: seq<Bytes>, double: seq<seq<Bytes>>) {

    ghost predicate Valid() {
      && |single| == 236 && single[0] == []
      && |double| == 4
      && forall d :: 0 <= d < 4 ==> |double[d]| == 256
    }

    /** IndexOfSingleToken: the empty string is never a token. */
    function SingleIndex(s: Bytes): (r: Option<Byte>)
      requires Valid()
      ensures r.Some? ==> 1 <= r.value < 236 && single[r.value] == s
      ensures r.None? <==> s == [] || s !in single
    {
      if s == [] then None
      else match LastIndex(single, s)
        case None => None
        case Some(i) => Some(i)
    }

    function DoubleIndexBelow(s: Bytes, dicts: nat): (r: Option<(Byte, Byte)>)
      requires Valid() && dicts <= 4
      ensures r.Some? ==> r.value.0 < dicts && double[r.value.0][r.value.1] == s
      ensures r.None? <==> forall d :: 0 <= d < dicts ==> s !in double[d]
    {
      if dicts == 0 then None
      else match LastIndex(double[dicts - 1], s)
        case Some(i) => Some((dicts - 1, i))
        case None => DoubleIndexBelow(s, dicts - 1)
    }

    /** IndexOfDoubleByteToken: the dictionary and the position in it. */
    function DoubleIndex(s: Bytes): (r: Option<(Byte, Byte)>)
      requires Valid()
      ensures r.Some? ==> r.value.0 < 4 && double[r.value.0][r.value.1] == s
      ensures r.None? <==> forall d :: 0 <= d < 4 ==> s !in double[d]
    {
      DoubleIndexBelow(s, 4)
    }
  }
}

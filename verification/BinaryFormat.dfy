/** The bytes that stand for each value: the function that the encoder computes (whatsmeow/binary/encoder.go). */
module BinaryFormat {
  import opened Basics
  import opened BigEndian
  import opened Decimal
  import opened Jid
  import opened Tokens
  import opened BinaryNode

  function Int20Bytes(v: nat): (b: Bytes)
    ensures |b| == 3
  {
    [ByteAt(v, 2) % 16, ByteAt(v, 1), ByteAt(v, 0)]
  }

  function LengthBytes(n: nat): Bytes {
    if n < 256 then [BINARY_8, n]
    else if n < 0x10_0000 then [BINARY_20] + Int20Bytes(n)
    else if n < MAX_LENGTH then [BINARY_32] + IntBytes(n, 4)
    else []  // the encoder panics here: see StringFits
  }

  function PackingTag(p: Packing): Byte {
    match p
    case Nibble => NIBBLE_8
    case Hex => HEX_8
  }

  /** packNibble and packHex; the zero byte pads an odd length. */
  function Pack(p: Packing, c: Byte): (v: Byte)
    requires Packable(p, c) || c == 0
    ensures v < 16
  {
    if c == 0 then 15
    else match p
      case Nibble => if c == DASH then 10 else if c == DOT then 11 else c - 48
      case Hex => if c <= 57 then c - 48 else 10 + c - 65
  }

  function PackPair(p: Packing, c1: Byte, c2: Byte): Byte
    requires Packable(p, c1) && (Packable(p, c2) || c2 == 0)
  {
    16 * Pack(p, c1) + Pack(p, c2)
  }

  function PackBytes(p: Packing, s: Bytes): (b: Bytes)
    requires forall i :: 0 <= i < |s| ==> Packable(p, s[i])
    ensures |b| == (|s| + 1) / 2
  {
    if |s| == 0 then []
    else if |s| == 1 then [PackPair(p, s[0], 0)]
    else [PackPair(p, s[0], s[1])] + PackBytes(p, s[2..])
  }

  /** The half length, rounded up, with the top bit set when the length is odd. */
  function RoundedLength(n: nat): Byte
    requires n <= PACKED_MAX
  {
    (n + 1) / 2 + (if n % 2 != 0 then 128 else 0)
  }

  function PackedBytes(p: Packing, s: Bytes): Bytes
    requires AllPackable(p, s)
  {
    [PackingTag(p), RoundedLength(|s|)] + PackBytes(p, s)
  }

  function RawBytes(b: Bytes): Bytes {
    LengthBytes(|b|) + b
  }

  lemma FormIsPackable(dict: Dictionary, s: Bytes)
    requires dict.Valid()
    ensures FormOf(dict, s).Packed? ==> AllPackable(FormOf(dict, s).p, s)
  {
  }

  function StringBytes(dict: Dictionary, s: Bytes): Bytes
    requires dict.Valid()
  {
    FormIsPackable(dict, s);
    match FormOf(dict, s)
    case Single(i) => [i]
    case Double(d, k) => [DICTIONARY_0 + d, k]
    case Packed(p) => PackedBytes(p, s)
    case Plain => RawBytes(s)
  }

  /** A list start; above 65535 only the low 16 bits of the size are written. */
  function ListStart(n: nat): Bytes {
    if n == 0 then [LIST_EMPTY]
    else if n < 256 then [LIST_8, n]
    else [LIST_16] + IntBytes(n, 2)
  }

  function JIDBytes(dict: Dictionary, j: JID): Bytes
    requires dict.Valid()
  {
    if UsesADForm(j) then [AD_JID, j.ActualAgent(), j.device % 256] + StringBytes(dict, j.user)
    else if j.server == MessengerServer then
      [FB_JID] + StringBytes(dict, j.user) + IntBytes(j.device, 2) + StringBytes(dict, j.server)
    else if j.server == InteropServer then
      [INTEROP_JID] + StringBytes(dict, j.user) + IntBytes(j.device, 2) + IntBytes(j.integrator, 2)
      + StringBytes(dict, j.server)
    else
      [JID_PAIR] + (if |j.user| == 0 then [LIST_EMPTY] else StringBytes(dict, j.user)) + StringBytes(dict, j.server)
  }

  function ValueBytes(dict: Dictionary, v: Value): Bytes
    requires dict.Valid()
    decreases v
  {
    match v
    case Nil => [LIST_EMPTY]
    case Str(s) => StringBytes(dict, s)
    case Raw(b) => RawBytes(b)
    case Address(j) => JIDBytes(dict, j)
    case Int(i) => StringBytes(dict, FormatInt(i))
    case Bool(b) => StringBytes(dict, if b then TEXT_TRUE else TEXT_FALSE)
    case Nodes(ns) => ListStart(|ns|) + NodesBytes(dict, ns)
  }

  function AttrsBytes(dict: Dictionary, attrs: seq<Attr>): Bytes
    requires dict.Valid()
    decreases attrs
  {
    if attrs == [] then []
    else if Written(attrs[0].val) then
      StringBytes(dict, attrs[0].key) + ValueBytes(dict, attrs[0].val) + AttrsBytes(dict, attrs[1..])
    else AttrsBytes(dict, attrs[1..])
  }

  function NodeBytes(dict: Dictionary, n: Node): Bytes
    requires dict.Valid()
    decreases n
  {
    if n.tag == TAG_ZERO then [LIST_8, LIST_EMPTY]
    else
      ListStart(ListSize(n)) + StringBytes(dict, n.tag) + AttrsBytes(dict, n.attrs)
      + (if n.content == Nil then [] else ValueBytes(dict, n.content))
  }

  function NodesBytes(dict: Dictionary, ns: seq<Node>): Bytes
    requires dict.Valid()
    decreases ns
  {
    if ns == [] then [] else NodeBytes(dict, ns[0]) + NodesBytes(dict, ns[1..])
  }

  /** Marshal: a leading zero byte (not compressed), then the node. */
  function Marshal(dict: Dictionary, n: Node): Bytes
    requires dict.Valid()
  {
    [0] + NodeBytes(dict, n)
  }
}

/** The value that a byte string stands for: the function that the decoder computes (whatsmeow/binary/decoder.go). */
module BinaryParser {
  import opened Basics
  import opened BigEndian
  import opened Jid
  import opened Tokens
  import opened BinaryNode

  /** TypeAssertion stands for a failed Go type assertion or slice bound, which panics in the source. */
  datatype DecodeError =
    | EOF | InvalidNode | InvalidToken | InvalidJIDType | NonStringKey | InvalidListTag | InvalidPacking
    | TypeAssertion | Leftover

  datatype Parsed<+T> = Done(value: T, rest: Bytes) | Fail(error: DecodeError) {

    predicate IsFailure() {
      Fail?
    }

    function PropagateFailure<U>(): Parsed<U>
      requires Fail?
    {
      Fail(error)
    }

    function Extract(): (T, Bytes)
      requires Done?
    {
      (value, rest)
    }
  }

  function ReadByte(b: Bytes): Parsed<Byte> {
    if b == [] then Fail(EOF) else Done(b[0], b[1..])
  }

  function ReadIntN(b: Bytes, n: nat): Parsed<nat> {
    if |b| < n then Fail(EOF) else Done(IntOf(b[..n]), b[n..])
  }

  function ReadInt20(b: Bytes): Parsed<nat> {
    if |b| < 3 then Fail(EOF) else Done(b[0] as int % 16 * 0x1_0000 + b[1] as int * 256 + b[2] as int, b[3..])
  }

  function ReadRaw(b: Bytes, n: nat, asString: bool): Parsed<Value> {
    if |b| < n then Fail(EOF) else Done(if asString then Str(b[..n]) else Raw(b[..n]), b[n..])
  }

  /** unpackNibble and unpackHex */
  function Unpack(p: Packing, v: Byte): Option<Byte> {
    match p
    case Nibble =>
      if v < 10 then Some(48 + v) else if v == 10 then Some(DASH) else if v == 11 then Some(DOT)
      else if v == 15 then Some(0) else None
    case Hex =>
      if v < 10 then Some(48 + v) else if v < 16 then Some(65 + v - 10) else None
  }

  function UnpackBytes(p: Packing, b: Bytes, n: nat): Parsed<Bytes>
    decreases n
  {
    if n == 0 then Done([], b)
    else if b == [] then Fail(EOF)
    else match (Unpack(p, b[0] / 16), Unpack(p, b[0] % 16))
      case (Some(lower), Some(upper)) =>
        var (s, rest) :- UnpackBytes(p, b[1..], n - 1);
        Done([lower, upper] + s, rest)
      case _ => Fail(InvalidPacking)
  }

  function ReadPacked(p: Packing, b: Bytes): Parsed<Value> {
    var (start, b1) :- ReadByte(b);
    var (s, rest) :- UnpackBytes(p, b1, start % 128);
    if start / 128 == 0 then Done(Str(s), rest)
    else if s == [] then Fail(TypeAssertion)
    else Done(Str(s[..|s| - 1]), rest)
  }

  function ReadBinary(tag: Byte, b: Bytes, asString: bool): Parsed<Value> {
    var (size, b1) :- if tag == BINARY_8 then ReadIntN(b, 1) else if tag == BINARY_20 then ReadInt20(b) else ReadIntN(b, 4);
    ReadRaw(b1, size, asString)
  }

  function ReadDouble(dict: Dictionary, tag: Byte, b: Bytes): Parsed<Value>
    requires dict.Valid() && DICTIONARY_0 <= tag <= DICTIONARY_3
  {
    var (i, rest) :- ReadIntN(b, 1);
    if i >= |dict.double[tag - DICTIONARY_0]| then Fail(InvalidToken)
    else Done(Str(dict.double[tag - DICTIONARY_0][i]), rest)
  }

  function ReadListSize(tag: Byte, b: Bytes): Parsed<nat> {
    if tag == LIST_EMPTY then Done(0, b)
    else if tag == LIST_8 then ReadIntN(b, 1)
    else if tag == LIST_16 then ReadIntN(b, 2)
    else Fail(InvalidListTag)
  }

  /** Every successful read leaves a suffix of what it was given; strictly shorter when it must consume. */
  ghost predicate Shrinks<T>(b: Bytes, r: Parsed<T>, strict: bool) {
    r.Done? ==> |r.rest| <= |b| && (strict ==> |r.rest| < |b|)
  }

  lemma UnpackBytesShrinks(p: Packing, b: Bytes, n: nat)
    ensures Shrinks(b, UnpackBytes(p, b, n), false)
  {
  }

  function ReadValue(dict: Dictionary, b: Bytes, asString: bool): (r: Parsed<Value>)
    requires dict.Valid()
    ensures Shrinks(b, r, true)
    decreases |b|, 0
  {
    if b == [] then Fail(EOF)
    else
      var tag, rest := b[0], b[1..];
      if tag == LIST_EMPTY then Done(Nil, rest)
      else if tag == LIST_8 || tag == LIST_16 then ReadList(dict, tag, rest)
      else if tag == BINARY_8 || tag == BINARY_20 || tag == BINARY_32 then ReadBinary(tag, rest, asString)
      else if DICTIONARY_0 <= tag <= DICTIONARY_3 then ReadDouble(dict, tag, rest)
      else if tag == FB_JID then ReadFBJID(dict, rest)
      else if tag == INTEROP_JID then ReadInteropJID(dict, rest)
      else if tag == JID_PAIR then ReadJIDPair(dict, rest)
      else if tag == AD_JID then ReadADJID(dict, rest)
      else if tag == NIBBLE_8 || tag == HEX_8 then
        var p := if tag == NIBBLE_8 then Nibble else Hex;
        UnpackBytesShrinks(p, rest[if rest == [] then 0 else 1..], if rest == [] then 0 else rest[0] % 128);
        ReadPacked(p, rest)
      else if 1 <= tag < |dict.single| then Done(Str(dict.single[tag]), rest)
      else Fail(InvalidToken)
  }

  function ReadJIDPair(dict: Dictionary, b: Bytes): (r: Parsed<Value>)
    requires dict.Valid()
    ensures Shrinks(b, r, true)
    decreases |b|, 1
  {
    var (user, b1) :- ReadValue(dict, b, true);
    var (server, b2) :- ReadValue(dict, b1, true);
    if server == Nil then Fail(InvalidJIDType)
    else if !server.Str? || !(user.Str? || user.Nil?) then Fail(TypeAssertion)
    else Done(Address(NewJID(if user.Nil? then [] else user.s, server.s)), b2)
  }

  function ReadFBJID(dict: Dictionary, b: Bytes): (r: Parsed<Value>)
    requires dict.Valid()
    ensures Shrinks(b, r, true)
    decreases |b|, 1
  {
    var (user, b1) :- ReadValue(dict, b, true);
    var (device, b2) :- ReadIntN(b1, 2);
    var (server, b3) :- ReadValue(dict, b2, true);
    if server != Str(MessengerServer) then Fail(InvalidJIDType)
    else if !user.Str? then Fail(TypeAssertion)
    else Done(Address(JID(user.s, 0, device % 0x1_0000, 0, server.s)), b3)
  }

  function ReadInteropJID(dict: Dictionary, b: Bytes): (r: Parsed<Value>)
    requires dict.Valid()
    ensures Shrinks(b, r, true)
    decreases |b|, 1
  {
    var (user, b1) :- ReadValue(dict, b, true);
    var (device, b2) :- ReadIntN(b1, 2);
    var (integrator, b3) :- ReadIntN(b2, 2);
    var (server, b4) :- ReadValue(dict, b3, true);
    if server != Str(InteropServer) then Fail(InvalidJIDType)
    else if !user.Str? then Fail(TypeAssertion)
    else Done(Address(JID(user.s, 0, device % 0x1_0000, integrator % 0x1_0000, InteropServer)), b4)
  }

  function ReadADJID(dict: Dictionary, b: Bytes): (r: Parsed<Value>)
    requires dict.Valid()
    ensures Shrinks(b, r, true)
    decreases |b|, 1
  {
    var (agent, b1) :- ReadByte(b);
    var (device, b2) :- ReadByte(b1);
    var (user, b3) :- ReadValue(dict, b2, true);
    if !user.Str? then Fail(TypeAssertion)
    else Done(Address(NewADJID(user.s, agent, device)), b3)
  }

  /** Assignment to a Go map, kept as a list: an existing key keeps its place. */
  function PutAttr(attrs: seq<Attr>, key: Bytes, val: Value): seq<Attr> {
    if attrs == [] then [Attr(key, val)]
    else if attrs[0].key == key then [Attr(key, val)] + attrs[1..]
    else [attrs[0]] + PutAttr(attrs[1..], key, val)
  }

  function ReadAttributes(dict: Dictionary, b: Bytes, n: nat, acc: seq<Attr>): (r: Parsed<seq<Attr>>)
    requires dict.Valid()
    ensures Shrinks(b, r, false)
    decreases |b|, 2
  {
    if n == 0 then Done(acc, b)
    else
      var (key, b1) :- ReadValue(dict, b, true);
      if !key.Str? then Fail(NonStringKey)
      else
        var (val, b2) :- ReadValue(dict, b1, true);
        ReadAttributes(dict, b2, n - 1, PutAttr(acc, key.s, val))
  }

  function ReadList(dict: Dictionary, tag: Byte, b: Bytes): (r: Parsed<Value>)
    requires dict.Valid()
    ensures Shrinks(b, r, false)
    decreases |b|, 3
  {
    var (size, b1) :- ReadListSize(tag, b);
    var (ns, rest) :- ReadNodes(dict, b1, size);
    Done(Nodes(ns), rest)
  }

  function ReadNodes(dict: Dictionary, b: Bytes, n: nat): (r: Parsed<seq<Node>>)
    requires dict.Valid()
    ensures Shrinks(b, r, false)
    ensures r.Done? ==> |r.value| == n
    decreases |b|, 2
  {
    if n == 0 then Done([], b)
    else
      var (node, b1) :- ReadNode(dict, b);
      var (ns, rest) :- ReadNodes(dict, b1, n - 1);
      Done([node] + ns, rest)
  }

  function ReadNode(dict: Dictionary, b: Bytes): (r: Parsed<Node>)
    requires dict.Valid()
    ensures Shrinks(b, r, true)
    decreases |b|, 1
  {
    var (tag, b1) :- ReadByte(b);
    var (listSize, b2) :- ReadListSize(tag, b1);
    var (desc, b3) :- ReadValue(dict, b2, true);
    if !desc.Str? then Fail(TypeAssertion)
    else if listSize == 0 || desc.s == [] then Fail(InvalidNode)
    else
      var (attrs, b4) :- ReadAttributes(dict, b3, (listSize - 1) / 2, []);
      if listSize % 2 == 1 then Done(Node(desc.s, attrs, Nil), b4)
      else
        var (content, rest) :- ReadValue(dict, b4, false);
        Done(Node(desc.s, attrs, content), rest)
  }

  datatype UnmarshalResult = Decoded(node: Node) | Rejected(error: DecodeError)

  /** Unmarshal: one node and nothing after it. */
  function Unmarshal(dict: Dictionary, b: Bytes): UnmarshalResult
    requires dict.Valid()
  {
    match ReadNode(dict, b)
    case Fail(e) => Rejected(e)
    case Done(n, rest) => if rest == [] then Decoded(n) else Rejected(Leftover)
  }
}

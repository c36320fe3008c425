/** Decoding undoes encoding: every form the encoder chooses is read back to the normal form of what was written. */
module BinaryRoundTrip {
  import opened Basics
  import opened BigEndian
  import opened Decimal
  import opened Jid
  import opened Tokens
  import opened BinaryNode
  import opened BinaryFormat
  import opened BinaryParser

  // ---- Numbers, lengths and list starts

  lemma ReadIntNOf(v: nat, n: nat, rest: Bytes)
    requires v < ShiftLeft(1, n)
    ensures ReadIntN(IntBytes(v, n) + rest, n) == Done(v, rest)
  {
    IntRoundTrip(v, n);
    DropAppend(IntBytes(v, n), rest);
  }

  lemma ReadInt20Of(v: nat, rest: Bytes)
    requires v < 0x10_0000
    ensures ReadInt20(Int20Bytes(v) + rest) == Done(v, rest)
  {
    var b := Int20Bytes(v);
    DropAppend(b, rest);
    assert ByteAt(v, 1) == ByteAt(v / 256, 0);
    assert ByteAt(v, 2) == ByteAt(v / 256, 1) == ByteAt(v / 256 / 256, 0) == v / 256 / 256;
    assert b + rest == [b[0], b[1], b[2]] + rest;
  }

  lemma ReadIntOneByte(v: Byte, rest: Bytes)
    ensures ReadIntN([v] + rest, 1) == Done(v, rest)
  {
    assert ([v] + rest)[..1] == [v];
    assert [v][..0] == [];
    assert IntOf([v]) == v;
  }

  lemma ReadListStart(n: nat, rest: Bytes)
    requires n < 0x1_0000
    ensures var b := ListStart(n) + rest;
      b != [] && ReadListSize(b[0], b[1..]) == Done(n, rest)
  {
    var b := ListStart(n) + rest;
    if n == 0 {
    } else if n < 256 {
      assert b[1..] == [n] + rest;
      ReadIntOneByte(n, rest);
    } else {
      ShiftLeftOne();
      assert b[1..] == IntBytes(n, 2) + rest;
      ReadIntNOf(n, 2, rest);
    }
  }

  // ---- Strings and byte slices

  /** A length written in one of the three classes, and then the bytes themselves. */
  lemma ReadBinaryOf(s: Bytes, asString: bool, rest: Bytes)
    requires |s| < MAX_LENGTH
    ensures var b := LengthBytes(|s|) + (s + rest);
      && b != [] && b[0] in {BINARY_8, BINARY_20, BINARY_32}
      && ReadBinary(b[0], b[1..], asString) == Done(if asString then Str(s) else Raw(s), rest)
  {
    hide ReadIntN, ReadInt20, IntBytes, Int20Bytes;
    var tail := s + rest;
    DropAppend(s, rest);
    if |s| < 256 {
      assert (LengthBytes(|s|) + tail)[1..] == [|s|] + tail;
      ReadIntOneByte(|s|, tail);
    } else if |s| < 0x10_0000 {
      assert (LengthBytes(|s|) + tail)[1..] == Int20Bytes(|s|) + tail;
      ReadInt20Of(|s|, tail);
    } else {
      ShiftLeftOne();
      assert (LengthBytes(|s|) + tail)[1..] == IntBytes(|s|, 4) + tail;
      ReadIntNOf(|s|, 4, tail);
    }
  }

  lemma ReadRawBytes(dict: Dictionary, s: Bytes, asString: bool, rest: Bytes)
    requires dict.Valid() && |s| < MAX_LENGTH
    ensures ReadValue(dict, RawBytes(s) + rest, asString) == Done(if asString then Str(s) else Raw(s), rest)
  {
    hide ReadBinary, LengthBytes;
    AppendAssoc(LengthBytes(|s|), s, rest);
    ReadBinaryOf(s, asString, rest);
  }

  /** What the zero padding of an odd length decodes to: the reader cuts it off again. */
  function Pad(p: Packing): Byte {
    match p
    case Nibble => 0
    case Hex => 70
  }

  lemma UnpackPackPair(p: Packing, c1: Byte, c2: Byte)
    requires Packable(p, c1) && (Packable(p, c2) || c2 == 0)
    ensures Unpack(p, PackPair(p, c1, c2) / 16) == Some(c1)
    ensures Unpack(p, PackPair(p, c1, c2) % 16) == Some(if c2 == 0 then Pad(p) else c2)
  {
  }

  function Padded(p: Packing, s: Bytes): Bytes {
    if |s| % 2 == 0 then s else s + [Pad(p)]
  }

  lemma UnpackBytesStep(p: Packing, x: Byte, c1: Byte, c2: Byte, tail: Bytes, n: nat, s: Bytes, rest: Bytes)
    requires Unpack(p, x / 16) == Some(c1) && Unpack(p, x % 16) == Some(c2)
    requires UnpackBytes(p, tail, n) == Done(s, rest)
    ensures UnpackBytes(p, [x] + tail, n + 1) == Done([c1, c2] + s, rest)
  {
    assert ([x] + tail)[1..] == tail;
  }

  lemma {:induction false} UnpackBytesOfPackBytes(p: Packing, s: Bytes, rest: Bytes)
    requires forall i :: 0 <= i < |s| ==> Packable(p, s[i])
    ensures UnpackBytes(p, PackBytes(p, s) + rest, (|s| + 1) / 2) == Done(Padded(p, s), rest)
    decreases |s|
  {
    if |s| == 0 {
      assert PackBytes(p, s) + rest == rest;
    } else if |s| == 1 {
      assert PackBytes(p, s) + rest == [PackPair(p, s[0], 0)] + rest;
      UnpackPackPair(p, s[0], 0);
      UnpackBytesStep(p, PackPair(p, s[0], 0), s[0], Pad(p), rest, 0, [], rest);
      assert [s[0], Pad(p)] + [] == Padded(p, s);
    } else {
      UnpackBytesOfPackBytes(p, s[2..], rest);
      UnpackBytesPair(p, s, rest);
    }
  }

  lemma UnpackBytesPair(p: Packing, s: Bytes, rest: Bytes)
    requires |s| >= 2 && forall i :: 0 <= i < |s| ==> Packable(p, s[i])
    requires UnpackBytes(p, PackBytes(p, s[2..]) + rest, (|s| - 1) / 2) == Done(Padded(p, s[2..]), rest)
    ensures UnpackBytes(p, PackBytes(p, s) + rest, (|s| + 1) / 2) == Done(Padded(p, s), rest)
  {
    hide PackPair, Unpack, UnpackBytes;
    var x, tail := PackPair(p, s[0], s[1]), PackBytes(p, s[2..]);
    UnpackPackPair(p, s[0], s[1]);
    UnpackBytesStep(p, x, s[0], s[1], tail + rest, (|s| - 1) / 2, Padded(p, s[2..]), rest);
    AppendAssoc([x], tail, rest);
    PaddedPair(p, s);
  }

  lemma PaddedPair(p: Packing, s: Bytes)
    requires |s| >= 2
    ensures [s[0], s[1]] + Padded(p, s[2..]) == Padded(p, s)
  {
  }

  lemma ReadPackedOf(p: Packing, s: Bytes, rest: Bytes)
    requires AllPackable(p, s)
    ensures ReadPacked(p, [RoundedLength(|s|)] + (PackBytes(p, s) + rest)) == Done(Str(s), rest)
  {
    hide UnpackBytes, PackBytes;
    var b := [RoundedLength(|s|)] + (PackBytes(p, s) + rest);
    assert b[1..] == PackBytes(p, s) + rest;
    UnpackBytesOfPackBytes(p, s, rest);
    if |s| % 2 != 0 {
      assert Padded(p, s)[..|s|] == s;
    }
  }

  lemma ReadPackedBytes(dict: Dictionary, p: Packing, s: Bytes, asString: bool, rest: Bytes)
    requires dict.Valid() && AllPackable(p, s)
    ensures ReadValue(dict, PackedBytes(p, s) + rest, asString) == Done(Str(s), rest)
  {
    var b := PackedBytes(p, s) + rest;
    assert b[1..] == [RoundedLength(|s|)] + (PackBytes(p, s) + rest);
    ReadPackedOf(p, s, rest);
  }

  lemma ReadStringBytes(dict: Dictionary, s: Bytes, asString: bool, rest: Bytes)
    requires dict.Valid() && StringFits(dict, s)
    ensures ReadValue(dict, StringBytes(dict, s) + rest, asString) == Done(NormalString(dict, s, asString), rest)
  {
    FormIsPackable(dict, s);
    var b := StringBytes(dict, s) + rest;
    match FormOf(dict, s)
    case Single(i) =>
      assert b[1..] == rest;
    case Double(d, k) =>
      assert b[1..] == [k] + rest;
      ReadIntOneByte(k, rest);
    case Packed(p) =>
      ReadPackedBytes(dict, p, s, asString, rest);
    case Plain =>
      ReadRawBytes(dict, s, asString, rest);
  }

  // ---- Addresses

  lemma ReadADJIDOf(dict: Dictionary, j: JID, rest: Bytes)
    requires dict.Valid() && StringFits(dict, j.user) && UsesADForm(j)
    ensures ReadADJID(dict, [j.ActualAgent(), j.device % 256] + (StringBytes(dict, j.user) + rest))
         == Done(Address(NormalJID(j)), rest)
  {
    ReadStringBytes(dict, j.user, true, rest);
    var b := [j.ActualAgent(), j.device % 256] + (StringBytes(dict, j.user) + rest);
    assert b[1..][1..] == StringBytes(dict, j.user) + rest;
    ServersDiffer();
  }

  lemma ReadFBJIDOf(dict: Dictionary, j: JID, rest: Bytes)
    requires dict.Valid() && JIDFits(dict, j) && j.server == MessengerServer
    ensures ReadFBJID(dict, StringBytes(dict, j.user) + (IntBytes(j.device, 2) + (StringBytes(dict, j.server) + rest)))
         == Done(Address(JID(j.user, 0, j.device, 0, j.server)), rest)
  {
    hide ReadValue, StringBytes, ReadIntN, IntBytes;
    ShiftLeftOne();
    ReadStringBytes(dict, j.server, true, rest);
    var b2 := StringBytes(dict, j.server) + rest;
    ReadIntNOf(j.device, 2, b2);
    ReadStringBytes(dict, j.user, true, IntBytes(j.device, 2) + b2);
  }

  lemma ReadInteropJIDOf(dict: Dictionary, j: JID, rest: Bytes)
    requires dict.Valid() && JIDFits(dict, j) && j.server == InteropServer
    ensures ReadInteropJID(dict, StringBytes(dict, j.user) + (IntBytes(j.device, 2)
              + (IntBytes(j.integrator, 2) + (StringBytes(dict, j.server) + rest))))
         == Done(Address(JID(j.user, 0, j.device, j.integrator, j.server)), rest)
  {
    hide ReadValue, StringBytes, ReadIntN, IntBytes;
    ShiftLeftOne();
    ReadStringBytes(dict, j.server, true, rest);
    var b3 := StringBytes(dict, j.server) + rest;
    ReadIntNOf(j.integrator, 2, b3);
    var b2 := IntBytes(j.integrator, 2) + b3;
    ReadIntNOf(j.device, 2, b2);
    ReadStringBytes(dict, j.user, true, IntBytes(j.device, 2) + b2);
  }

  lemma ReadJIDPairOf(dict: Dictionary, j: JID, rest: Bytes)
    requires dict.Valid() && JIDFits(dict, j)
    ensures ReadJIDPair(dict, (if |j.user| == 0 then [LIST_EMPTY] else StringBytes(dict, j.user))
              + (StringBytes(dict, j.server) + rest))
         == Done(Address(NewJID(j.user, j.server)), rest)
  {
    ReadStringBytes(dict, j.server, true, rest);
    var b1 := StringBytes(dict, j.server) + rest;
    if |j.user| == 0 {
      assert ([LIST_EMPTY] + b1)[1..] == b1;
    } else {
      ReadStringBytes(dict, j.user, true, b1);
    }
  }

  /** The bytes of an address with the tail grouped to the right, as the reader meets it. */
  lemma JIDBytesGrouped(dict: Dictionary, j: JID, rest: Bytes)
    requires dict.Valid()
    ensures JIDBytes(dict, j) + rest ==
      if UsesADForm(j) then [AD_JID] + ([j.ActualAgent(), j.device % 256] + (StringBytes(dict, j.user) + rest))
      else if j.server == MessengerServer then
        [FB_JID] + (StringBytes(dict, j.user) + (IntBytes(j.device, 2) + (StringBytes(dict, j.server) + rest)))
      else if j.server == InteropServer then
        [INTEROP_JID] + (StringBytes(dict, j.user) + (IntBytes(j.device, 2)
          + (IntBytes(j.integrator, 2) + (StringBytes(dict, j.server) + rest))))
      else
        [JID_PAIR] + ((if |j.user| == 0 then [LIST_EMPTY] else StringBytes(dict, j.user))
          + (StringBytes(dict, j.server) + rest))
  {
    hide StringBytes, IntBytes, UsesADForm;
    var user, device, integrator, server :=
      StringBytes(dict, j.user), IntBytes(j.device, 2), IntBytes(j.integrator, 2), StringBytes(dict, j.server);
    if UsesADForm(j) {
      AppendAssoc([AD_JID, j.ActualAgent(), j.device % 256], user, rest);
      AppendAssoc([AD_JID], [j.ActualAgent(), j.device % 256], user + rest);
    } else if j.server == MessengerServer {
      Grouped4([FB_JID], user, device, server, rest);
    } else if j.server == InteropServer {
      Grouped4([INTEROP_JID], user, device, integrator, server + rest);
      AppendAssoc([INTEROP_JID] + user + device + integrator, server, rest);
    } else {
      var first := if |j.user| == 0 then [LIST_EMPTY] else user;
      AppendAssoc([JID_PAIR] + first, server, rest);
      AppendAssoc([JID_PAIR], first, server + rest);
    }
  }

  lemma Grouped4(a: Bytes, b: Bytes, c: Bytes, d: Bytes, e: Bytes)
    ensures a + b + c + d + e == a + (b + (c + (d + e)))
  {
    AppendAssoc(a + b + c, d, e);
    AppendAssoc(a + b, c, d + e);
    AppendAssoc(a, b, c + (d + e));
  }

  lemma ReadJIDTag(dict: Dictionary, tag: Byte, b: Bytes, asString: bool)
    requires dict.Valid()
    ensures tag == AD_JID ==> ReadValue(dict, [tag] + b, asString) == ReadADJID(dict, b)
    ensures tag == FB_JID ==> ReadValue(dict, [tag] + b, asString) == ReadFBJID(dict, b)
    ensures tag == INTEROP_JID ==> ReadValue(dict, [tag] + b, asString) == ReadInteropJID(dict, b)
    ensures tag == JID_PAIR ==> ReadValue(dict, [tag] + b, asString) == ReadJIDPair(dict, b)
  {
    hide ReadADJID, ReadFBJID, ReadInteropJID, ReadJIDPair;
    assert ([tag] + b)[1..] == b;
  }

  lemma ReadJIDBytes(dict: Dictionary, j: JID, asString: bool, rest: Bytes)
    requires dict.Valid() && JIDFits(dict, j)
    ensures ReadValue(dict, JIDBytes(dict, j) + rest, asString) == Done(Address(NormalJID(j)), rest)
  {
    hide ReadValue, ReadADJID, ReadFBJID, ReadInteropJID, ReadJIDPair, JIDBytes, StringBytes, IntBytes;
    JIDBytesGrouped(dict, j, rest);
    var tag := (JIDBytes(dict, j) + rest)[0];
    ReadJIDTag(dict, tag, (JIDBytes(dict, j) + rest)[1..], asString);
    if UsesADForm(j) {
      ReadADJIDOf(dict, j, rest);
    } else if j.server == MessengerServer {
      ReadFBJIDOf(dict, j, rest);
    } else if j.server == InteropServer {
      ReadInteropJIDOf(dict, j, rest);
    } else {
      ReadJIDPairOf(dict, j, rest);
    }
  }

  // ---- Scalars in text form

  lemma IntegersArePacked(dict: Dictionary, i: GoInt)
    requires dict.Valid()
    ensures StringFits(dict, FormatInt(i))
    ensures forall asString :: NormalString(dict, FormatInt(i), asString) == Str(FormatInt(i))
  {
    FormatNat64(if i < 0 then 0 - i else i);
    assert AllPackable(Nibble, FormatInt(i));
  }

  // ---- Trees

  lemma {:induction false} PutFreshAttr(attrs: seq<Attr>, key: Bytes, val: Value)
    requires forall i :: 0 <= i < |attrs| ==> attrs[i].key != key
    ensures PutAttr(attrs, key, val) == attrs + [Attr(key, val)]
  {
    if attrs != [] {
      PutFreshAttr(attrs[1..], key, val);
      assert [attrs[0]] + (attrs[1..] + [Attr(key, val)]) == attrs + [Attr(key, val)];
    }
  }

  ghost predicate KeysApart(acc: seq<Attr>, attrs: seq<Attr>) {
    forall i, j :: 0 <= i < |acc| && 0 <= j < |attrs| ==> acc[i].key != attrs[j].key
  }

  lemma {:induction false} ReadValueBytes(dict: Dictionary, v: Value, asString: bool, rest: Bytes)
    requires dict.Valid() && ValueFits(dict, v) && ValueIsGo(v) && ValueIsSound(v)
    ensures ReadValue(dict, ValueBytes(dict, v) + rest, asString) == Done(NormalValue(dict, v, asString), rest)
    decreases v
  {
    match v
    case Nil =>
      assert ([LIST_EMPTY] + rest)[1..] == rest;
    case Str(s) => ReadStringBytes(dict, s, asString, rest);
    case Raw(b) => ReadRawBytes(dict, b, asString, rest);
    case Address(j) => ReadJIDBytes(dict, j, asString, rest);
    case Int(i) =>
      IntegersArePacked(dict, i);
      ReadStringBytes(dict, FormatInt(i), asString, rest);
    case Bool(b) => ReadStringBytes(dict, if b then TEXT_TRUE else TEXT_FALSE, asString, rest);
    case Nodes(ns) =>
      ReadNodesBytes(dict, ns, rest);
      ReadListBytes(dict, ns, asString, rest);
  }

  lemma ReadListBytes(dict: Dictionary, ns: seq<Node>, asString: bool, rest: Bytes)
    requires dict.Valid() && |ns| < 0x1_0000
    requires ReadNodes(dict, NodesBytes(dict, ns) + rest, |ns|) == Done(NormalNodes(dict, ns), rest)
    ensures ReadValue(dict, ValueBytes(dict, Nodes(ns)) + rest, asString)
         == Done(NormalValue(dict, Nodes(ns), asString), rest)
  {
    hide ReadNodes, NormalNodes;
    var body := NodesBytes(dict, ns) + rest;
    assert ValueBytes(dict, Nodes(ns)) + rest == ListStart(|ns|) + body by {
      AppendAssoc(ListStart(|ns|), NodesBytes(dict, ns), rest);
    }
    ReadListStart(|ns|, body);
    if ns == [] {
      assert body == rest;
      assert (ListStart(0) + body)[1..] == rest;
    }
  }

  lemma {:induction false} ReadNodesBytes(dict: Dictionary, ns: seq<Node>, rest: Bytes)
    requires dict.Valid() && NodesFit(dict, ns) && NodesAreGo(ns) && NodesAreSound(ns)
    ensures ReadNodes(dict, NodesBytes(dict, ns) + rest, |ns|) == Done(NormalNodes(dict, ns), rest)
    decreases ns
  {
    if ns == [] {
      assert NodesBytes(dict, ns) + rest == rest;
    } else {
      var tail := NodesBytes(dict, ns[1..]) + rest;
      ReadNodeBytes(dict, ns[0], tail);
      ReadNodesBytes(dict, ns[1..], rest);
      assert NodesBytes(dict, ns) + rest == NodeBytes(dict, ns[0]) + tail by {
        AppendAssoc(NodeBytes(dict, ns[0]), NodesBytes(dict, ns[1..]), rest);
      }
    }
  }

  lemma {:induction false} ReadAttrsBytes(dict: Dictionary, attrs: seq<Attr>, acc: seq<Attr>, rest: Bytes)
    requires dict.Valid() && AttrsFit(dict, attrs) && AttrsAreGo(attrs) && AttrsAreSound(attrs)
    requires DistinctKeys(attrs) && KeysApart(acc, attrs)
    ensures ReadAttributes(dict, AttrsBytes(dict, attrs) + rest, CountAttributes(attrs), acc)
         == Done(acc + NormalAttrs(dict, attrs), rest)
    decreases attrs
  {
    hide ReadValue, ValueBytes, StringBytes, NormalValue;
    if attrs == [] {
      assert AttrsBytes(dict, attrs) + rest == rest;
      assert acc + [] == acc;
    } else if !Written(attrs[0].val) {
      ReadAttrsBytes(dict, attrs[1..], acc, rest);
    } else {
      var key, val := attrs[0].key, attrs[0].val;
      var normal := NormalValue(dict, val, true);
      var tail := AttrsBytes(dict, attrs[1..]) + rest;
      ReadStringBytes(dict, key, true, ValueBytes(dict, val) + tail);
      ReadValueBytes(dict, val, true, tail);
      ReadAttrsBytes(dict, attrs[1..], acc + [Attr(key, normal)], rest);
      AttrsBytesGrouped(dict, attrs, rest);
      ReadAttributesStep(dict, AttrsBytes(dict, attrs) + rest, CountAttributes(attrs), acc, key, normal,
                         ValueBytes(dict, val) + tail, tail);
      AppendAssoc(acc, [Attr(key, normal)], NormalAttrs(dict, attrs[1..]));
    }
  }

  lemma AttrsBytesGrouped(dict: Dictionary, attrs: seq<Attr>, rest: Bytes)
    requires dict.Valid() && attrs != [] && Written(attrs[0].val)
    ensures AttrsBytes(dict, attrs) + rest == StringBytes(dict, attrs[0].key)
              + (ValueBytes(dict, attrs[0].val) + (AttrsBytes(dict, attrs[1..]) + rest))
  {
  }

  lemma ReadAttributesStep(dict: Dictionary, b: Bytes, n: nat, acc: seq<Attr>, key: Bytes, val: Value,
                           b1: Bytes, b2: Bytes)
    requires dict.Valid() && n > 0
    requires ReadValue(dict, b, true) == Done(Str(key), b1) && ReadValue(dict, b1, true) == Done(val, b2)
    requires forall i :: 0 <= i < |acc| ==> acc[i].key != key
    ensures ReadAttributes(dict, b, n, acc) == ReadAttributes(dict, b2, n - 1, acc + [Attr(key, val)])
  {
    PutFreshAttr(acc, key, val);
  }

  /** The bytes of a node with the tail grouped to the right. */
  lemma NodeBytesGrouped(dict: Dictionary, n: Node, rest: Bytes)
    requires dict.Valid() && n.tag != TAG_ZERO
    ensures NodeBytes(dict, n) + rest == ListStart(ListSize(n)) + (StringBytes(dict, n.tag)
      + (AttrsBytes(dict, n.attrs) + (ContentBytes(dict, n) + rest)))
  {
  }

  /** The reader's steps put together. */
  lemma ReadNodeSteps(dict: Dictionary, b: Bytes, size: nat, tag: Bytes, attrs: seq<Attr>, content: Value,
                      b2: Bytes, b3: Bytes, b4: Bytes, rest: Bytes)
    requires dict.Valid() && b != [] && size > 0 && tag != []
    requires ReadListSize(b[0], b[1..]) == Done(size, b2)
    requires ReadValue(dict, b2, true) == Done(Str(tag), b3)
    requires ReadAttributes(dict, b3, (size - 1) / 2, []) == Done(attrs, b4)
    requires if size % 2 == 1 then content == Nil && rest == b4 else ReadValue(dict, b4, false) == Done(content, rest)
    ensures ReadNode(dict, b) == Done(Node(tag, attrs, content), rest)
  {
  }

  function ContentBytes(dict: Dictionary, n: Node): Bytes
    requires dict.Valid()
  {
    if n.content == Nil then [] else ValueBytes(dict, n.content)
  }

  /** The main round trip: a sound node followed by anything is read back, and nothing after it is touched. */
  lemma {:induction false} ReadNodeBytes(dict: Dictionary, n: Node, rest: Bytes)
    requires dict.Valid() && NodeFits(dict, n) && NodeIsGo(n) && NodeIsSound(n)
    ensures ReadNode(dict, NodeBytes(dict, n) + rest) == Done(NormalNode(dict, n), rest)
    decreases n
  {
    hide ReadValue, ReadAttributes, ReadNode;
    var b4 := ContentBytes(dict, n) + rest;
    if n.content != Nil {
      ReadValueBytes(dict, n.content, false, rest);
    }
    ReadAttrsBytes(dict, n.attrs, [], b4);
    assert [] + NormalAttrs(dict, n.attrs) == NormalAttrs(dict, n.attrs);
    AssembleNode(dict, n, rest);
  }

  lemma AssembleNode(dict: Dictionary, n: Node, rest: Bytes)
    requires dict.Valid() && n.tag != [] && n.tag != TAG_ZERO && StringFits(dict, n.tag) && ListSize(n) < 0x1_0000
    requires n.content != Nil ==>
      ReadValue(dict, ContentBytes(dict, n) + rest, false) == Done(NormalValue(dict, n.content, false), rest)
    requires ReadAttributes(dict, AttrsBytes(dict, n.attrs) + (ContentBytes(dict, n) + rest), CountAttributes(n.attrs), [])
          == Done(NormalAttrs(dict, n.attrs), ContentBytes(dict, n) + rest)
    ensures ReadNode(dict, NodeBytes(dict, n) + rest) == Done(NormalNode(dict, n), rest)
  {
    hide ReadValue, ReadAttributes, ReadNode, ReadListSize, NormalAttrs, AttrsBytes, StringBytes, ListStart;
    var b4 := ContentBytes(dict, n) + rest;
    var b3 := AttrsBytes(dict, n.attrs) + b4;
    if n.content == Nil {
      assert b4 == rest;
    }
    ReadTagBytes(dict, n, b3);
    NodeBytesGrouped(dict, n, rest);
    ReadNodeSteps(dict, NodeBytes(dict, n) + rest, ListSize(n), n.tag, NormalAttrs(dict, n.attrs),
                  NormalValue(dict, n.content, false), StringBytes(dict, n.tag) + b3, b3, b4, rest);
  }

  lemma ReadTagBytes(dict: Dictionary, n: Node, rest: Bytes)
    requires dict.Valid() && StringFits(dict, n.tag) && ListSize(n) < 0x1_0000
    ensures var b := ListStart(ListSize(n)) + (StringBytes(dict, n.tag) + rest);
      b != [] && ReadListSize(b[0], b[1..]) == Done(ListSize(n), StringBytes(dict, n.tag) + rest)
    ensures ReadValue(dict, StringBytes(dict, n.tag) + rest, true) == Done(Str(n.tag), rest)
  {
    ReadListStart(ListSize(n), StringBytes(dict, n.tag) + rest);
    ReadStringBytes(dict, n.tag, true, rest);
  }
}

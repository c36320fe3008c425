/** XML elements and their normal form (whatsmeow/binary/node.go). */
module BinaryNode {
  import opened Basics
  import opened Decimal
  import opened Jid
  import opened Tokens

  /** Every Go integer kind the encoder takes fits in this range. */
  type GoInt = x: int | -0x8000_0000_0000_0000 <= x < 0x1_0000_0000_0000_0000

  /** The dynamic types that the encoder accepts and the decoder produces. */
  datatype Value =
    | Nil
    | Str(s: Bytes)
    | Raw(b: Bytes)
    | Address(jid: JID)
    | Int(i: GoInt)
    | Bool(flag: bool)
    | Nodes(nodes: seq<Node>)

  datatype Attr = Attr(key: Bytes, val: Value)

  /** attrs lists a Go map in the order in which the runtime iterates over it, so a key occurs once. */
  datatype Node = Node(tag: Bytes, attrs: seq<Attr>, content: Value)

  const TEXT_TRUE: Bytes := Ascii("true")
  const TEXT_FALSE: Bytes := Ascii("false")
  const TAG_ZERO: Bytes := [48]

  datatype Packing = Nibble | Hex

  const DASH: Byte := 45

  predicate Packable(p: Packing, c: Byte) {
    match p
    case Nibble => 48 <= c <= 57 || c == DASH || c == DOT
    case Hex => 48 <= c <= 57 || 65 <= c <= 70
  }

  /** validateNibble and validateHex: short enough, and every byte (so every rune) in the small alphabet. */
  predicate AllPackable(p: Packing, s: Bytes) {
    |s| <= PACKED_MAX && forall i :: 0 <= i < |s| ==> Packable(p, s[i])
  }

  /** The four ways a string can be written, in the order in which the encoder tries them. */
  datatype StringForm = Single(i: Byte) | Double(d: Byte, k: Byte) | Packed(p: Packing) | Plain

  function FormOf(dict: Dictionary, s: Bytes): StringForm
    requires dict.Valid()
  {
    match dict.SingleIndex(s)
    case Some(i) => Single(i)
    case None =>
      match dict.DoubleIndex(s)
      case Some(dk) => Double(dk.0, dk.1)
      case None =>
        if AllPackable(Nibble, s) then Packed(Nibble)
        else if AllPackable(Hex, s) then Packed(Hex)
        else Plain
  }

  /** The attributes that are written at all. */
  predicate Written(v: Value) {
    v != Nil && v != Str([])
  }

  function CountAttributes(attrs: seq<Attr>): nat {
    if attrs == [] then 0
    else (if Written(attrs[0].val) then 1 else 0) + CountAttributes(attrs[1..])
  }

  function ListSize(n: Node): nat {
    2 * CountAttributes(n.attrs) + 1 + (if n.content == Nil then 0 else 1)
  }

  predicate UsesADForm(j: JID) {
    || ((j.server == DefaultUserServer || j.server == HiddenUserServer) && j.device > 0)
    || j.server == HostedServer
    || j.server == HostedLIDServer
  }

  /** What survives of an address: each of the four forms carries only some of the parts. */
  function NormalJID(j: JID): JID {
    if UsesADForm(j) then JID(j.user, 0, j.device % 256, 0, j.server)
    else if j.server == MessengerServer then JID(j.user, 0, j.device, 0, j.server)
    else if j.server == InteropServer then JID(j.user, 0, j.device, j.integrator, j.server)
    else JID(j.user, 0, 0, 0, j.server)
  }

  /** In content position a string that is written out in full comes back as bytes. */
  function NormalString(dict: Dictionary, s: Bytes, asString: bool): Value
    requires dict.Valid()
  {
    if FormOf(dict, s) == Plain && !asString then Raw(s) else Str(s)
  }

  function NormalValue(dict: Dictionary, v: Value, asString: bool): Value
    requires dict.Valid()
    decreases v
  {
    match v
    case Nil => Nil
    case Str(s) => NormalString(dict, s, asString)
    case Raw(b) => if asString then Str(b) else Raw(b)
    case Address(j) => Address(NormalJID(j))
    case Int(i) => NormalString(dict, FormatInt(i), asString)
    case Bool(b) => NormalString(dict, if b then TEXT_TRUE else TEXT_FALSE, asString)
    case Nodes(ns) => if ns == [] then Nil else Nodes(NormalNodes(dict, ns))
  }

  function NormalAttrs(dict: Dictionary, attrs: seq<Attr>): seq<Attr>
    requires dict.Valid()
    decreases attrs
  {
    if attrs == [] then []
    else if Written(attrs[0].val) then
      [Attr(attrs[0].key, NormalValue(dict, attrs[0].val, true))] + NormalAttrs(dict, attrs[1..])
    else NormalAttrs(dict, attrs[1..])
  }

  function NormalNode(dict: Dictionary, n: Node): Node
    requires dict.Valid()
    decreases n
  {
    Node(n.tag, NormalAttrs(dict, n.attrs), NormalValue(dict, n.content, false))
  }

  function NormalNodes(dict: Dictionary, ns: seq<Node>): (r: seq<Node>)
    requires dict.Valid()
    ensures |r| == |ns|
    decreases ns
  {
    if ns == [] then [] else [NormalNode(dict, ns[0])] + NormalNodes(dict, ns[1..])
  }

  const MAX_LENGTH := 0x7FFF_FFFF

  /** A string or byte slice that the encoder can write without panicking. */
  predicate StringFits(dict: Dictionary, s: Bytes)
    requires dict.Valid()
  {
    FormOf(dict, s) == Plain ==> |s| < MAX_LENGTH
  }

  predicate JIDFits(dict: Dictionary, j: JID)
    requires dict.Valid()
  {
    StringFits(dict, j.user) && StringFits(dict, j.server)
  }

  /** No length in the tree makes the encoder panic. */
  predicate ValueFits(dict: Dictionary, v: Value)
    requires dict.Valid()
    decreases v
  {
    match v
    case Nil => true
    case Str(s) => StringFits(dict, s)
    case Raw(b) => |b| < MAX_LENGTH
    case Address(j) => JIDFits(dict, j)
    case Int(i) => true
    case Bool(b) => true
    case Nodes(ns) => NodesFit(dict, ns)
  }

  predicate AttrsFit(dict: Dictionary, attrs: seq<Attr>)
    requires dict.Valid()
    decreases attrs
  {
    attrs == [] ||
    (&& (Written(attrs[0].val) ==> StringFits(dict, attrs[0].key) && ValueFits(dict, attrs[0].val))
     && AttrsFit(dict, attrs[1..]))
  }

  predicate NodeFits(dict: Dictionary, n: Node)
    requires dict.Valid()
    decreases n
  {
    n.tag == TAG_ZERO ||
    (StringFits(dict, n.tag) && AttrsFit(dict, n.attrs) && ValueFits(dict, n.content))
  }

  predicate NodesFit(dict: Dictionary, ns: seq<Node>)
    requires dict.Valid()
    decreases ns
  {
    ns == [] || (NodeFits(dict, ns[0]) && NodesFit(dict, ns[1..]))
  }

  /** A Go map holds each key once. */
  predicate DistinctKeys(attrs: seq<Attr>) {
    forall i, j :: 0 <= i < j < |attrs| ==> attrs[i].key != attrs[j].key
  }

  predicate ValueIsGo(v: Value)
    decreases v
  {
    v.Nodes? ==> NodesAreGo(v.nodes)
  }

  predicate AttrsAreGo(attrs: seq<Attr>)
    decreases attrs
  {
    attrs == [] || (ValueIsGo(attrs[0].val) && AttrsAreGo(attrs[1..]))
  }

  /** Every attribute list in the tree really is a map. */
  predicate NodeIsGo(n: Node)
    decreases n
  {
    DistinctKeys(n.attrs) && AttrsAreGo(n.attrs) && ValueIsGo(n.content)
  }

  predicate NodesAreGo(ns: seq<Node>)
    decreases ns
  {
    ns == [] || (NodeIsGo(ns[0]) && NodesAreGo(ns[1..]))
  }

  predicate ValueIsSound(v: Value)
    decreases v
  {
    v.Nodes? ==> |v.nodes| < 0x1_0000 && NodesAreSound(v.nodes)
  }

  predicate AttrsAreSound(attrs: seq<Attr>)
    decreases attrs
  {
    attrs == [] || (ValueIsSound(attrs[0].val) && AttrsAreSound(attrs[1..]))
  }

  /** What a caller must see to before marshalling: no empty tag, no tag "0", and list sizes that fit in 16 bits. */
  predicate NodeIsSound(n: Node)
    decreases n
  {
    && n.tag != [] && n.tag != TAG_ZERO
    && ListSize(n) < 0x1_0000
    && AttrsAreSound(n.attrs)
    && ValueIsSound(n.content)
  }

  predicate NodesAreSound(ns: seq<Node>)
    decreases ns
  {
    ns == [] || (NodeIsSound(ns[0]) && NodesAreSound(ns[1..]))
  }
}

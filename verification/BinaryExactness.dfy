/** Exactly which trees survive a round trip, and what that says about the encoding. */
module BinaryExactness {
  import opened Basics
  import opened BigEndian
  import opened Jid
  import opened Tokens
  import opened BinaryNode
  import opened BinaryFormat
  import opened BinaryParser
  import opened BinaryRoundTrip

  // ---- What the decoder can produce at all

  ghost predicate ShapeOfValue(v: Value)
    decreases v
  {
    v.Nodes? ==> |v.nodes| < 0x1_0000 && ShapeOfNodes(v.nodes)
  }

  ghost predicate ShapeOfAttrs(attrs: seq<Attr>)
    decreases attrs
  {
    forall i :: 0 <= i < |attrs| ==> ShapeOfValue(attrs[i].val)
  }

  /** A decoded node has a tag, and its list size was a 16-bit number. */
  ghost predicate ShapeOfNode(n: Node)
    decreases n
  {
    && n.tag != []
    && 2 * |n.attrs| + 1 + (if n.content == Nil then 0 else 1) < 0x1_0000
    && ShapeOfAttrs(n.attrs)
    && ShapeOfValue(n.content)
  }

  ghost predicate ShapeOfNodes(ns: seq<Node>)
    decreases ns
  {
    forall i :: 0 <= i < |ns| ==> ShapeOfNode(ns[i])
  }

  lemma ListSizeIs16Bit(tag: Byte, b: Bytes)
    ensures var r := ReadListSize(tag, b); r.Done? ==> r.value < 0x1_0000
  {
    if |b| >= 1 {
      assert b[..1][..0] == [];
      assert IntOf(b[..1]) == b[0];
      if |b| >= 2 {
        assert b[..2][..1] == b[..1];
        assert IntOf(b[..2]) == 256 * IntOf(b[..1]) + b[1];
      }
    }
  }

  lemma {:induction false} PutAttrShape(attrs: seq<Attr>, key: Bytes, val: Value)
    requires ShapeOfAttrs(attrs) && ShapeOfValue(val)
    ensures var r := PutAttr(attrs, key, val); ShapeOfAttrs(r) && |r| <= |attrs| + 1
  {
    if attrs != [] {
      PutAttrShape(attrs[1..], key, val);
    }
  }

  lemma {:induction false} ReadValueShape(dict: Dictionary, b: Bytes, asString: bool)
    requires dict.Valid()
    ensures var r := ReadValue(dict, b, asString); r.Done? ==> ShapeOfValue(r.value)
    decreases |b|, 0
  {
    if b != [] && (b[0] == LIST_8 || b[0] == LIST_16) {
      ReadListShape(dict, b[0], b[1..]);
    }
  }

  lemma {:induction false} ReadListShape(dict: Dictionary, tag: Byte, b: Bytes)
    requires dict.Valid()
    ensures var r := ReadList(dict, tag, b); r.Done? ==> ShapeOfValue(r.value)
    decreases |b|, 3
  {
    ListSizeIs16Bit(tag, b);
    var size := ReadListSize(tag, b);
    if size.Done? {
      ReadNodesShape(dict, size.rest, size.value);
    }
  }

  lemma {:induction false} ReadNodesShape(dict: Dictionary, b: Bytes, n: nat)
    requires dict.Valid()
    ensures var r := ReadNodes(dict, b, n); r.Done? ==> ShapeOfNodes(r.value)
    decreases |b|, 2
  {
    if n > 0 {
      ReadNodeShape(dict, b);
      var first := ReadNode(dict, b);
      if first.Done? {
        ReadNodesShape(dict, first.rest, n - 1);
      }
    }
  }

  lemma {:induction false} ReadAttributesShape(dict: Dictionary, b: Bytes, n: nat, acc: seq<Attr>)
    requires dict.Valid() && ShapeOfAttrs(acc)
    ensures var r := ReadAttributes(dict, b, n, acc); r.Done? ==> ShapeOfAttrs(r.value) && |r.value| <= |acc| + n
    decreases |b|, 2
  {
    if n > 0 {
      var key := ReadValue(dict, b, true);
      if key.Done? && key.value.Str? {
        var val := ReadValue(dict, key.rest, true);
        if val.Done? {
          ReadValueShape(dict, key.rest, true);
          PutAttrShape(acc, key.value.s, val.value);
          ReadAttributesShape(dict, val.rest, n - 1, PutAttr(acc, key.value.s, val.value));
        }
      }
    }
  }

  lemma {:induction false} ReadNodeShape(dict: Dictionary, b: Bytes)
    requires dict.Valid()
    ensures var r := ReadNode(dict, b); r.Done? ==> ShapeOfNode(r.value)
    decreases |b|, 1
  {
    hide ReadValue, ReadAttributes;
    if ReadNode(dict, b).Done? {
      ListSizeIs16Bit(b[0], b[1..]);
      var size := ReadListSize(b[0], b[1..]);
      var desc := ReadValue(dict, size.rest, true);
      ReadAttributesShape(dict, desc.rest, (size.value - 1) / 2, []);
      var attrs := ReadAttributes(dict, desc.rest, (size.value - 1) / 2, []);
      ReadValueShape(dict, attrs.rest, false);
    }
  }

  /** An AD address on the wire decodes to one with a server exactly when its agent byte is one of the four domains. */
  lemma ReadADJIDServer(dict: Dictionary, b: Bytes)
    requires dict.Valid() && ReadADJID(dict, b).Done?
    ensures ReadADJID(dict, b).value.Address?
    ensures ReadADJID(dict, b).value.jid.server != []
      <==> b[0] in {WhatsAppDomain, LIDDomain, HostedDomain, HostedLIDDomain}
  {
    hide ReadValue, NewADJID;
    ServerOfADJID(ReadValue(dict, b[2..], true).value.s, b[0], b[1]);
    assert b[1..][1..] == b[2..];
  }

  /** Agent 2 is none of them: this address comes back with its user and no server. */
  lemma UnknownAgentLosesServer(dict: Dictionary)
    requires dict.Valid()
    ensures ReadValue(dict, [AD_JID, 2, 0, BINARY_8, 1, 97], false) == Done(Address(JID([97], 2, 0, 0, [])), [])
  {
    hide ReadValue, ReadADJID, RawBytes, IntBytes;
    var text: Bytes := [BINARY_8, 1, 97];
    OneLetter();
    assert RawBytes([97]) + [] == text;
    ReadRawBytes(dict, [97], true, []);
    AgentOf(dict, [2, 0] + text, text);
    ReadJIDTag(dict, AD_JID, [2, 0] + text, false);
    assert [AD_JID] + ([2, 0] + text) == [AD_JID, 2, 0, BINARY_8, 1, 97];
  }

  lemma OneLetter()
    ensures RawBytes([97]) == [BINARY_8, 1, 97]
  {
    assert [BINARY_8, 1] + [97] == [BINARY_8, 1, 97];
  }

  lemma AgentOf(dict: Dictionary, b: Bytes, text: Bytes)
    requires dict.Valid() && b == [2, 0] + text && ReadValue(dict, text, true) == Done(Str([97]), [])
    ensures ReadADJID(dict, b) == Done(Address(JID([97], 2, 0, 0, [])), [])
  {
    hide ReadValue;
    assert b[1..][1..] == text;
  }

  // ---- A tree that is not sound but could have been decoded stops the decoder

  lemma {:induction false} NormalAttrsCount(dict: Dictionary, attrs: seq<Attr>)
    requires dict.Valid()
    ensures |NormalAttrs(dict, attrs)| == CountAttributes(attrs)
  {
    if attrs != [] {
      NormalAttrsCount(dict, attrs[1..]);
    }
  }

  lemma {:induction false} BlockedValue(dict: Dictionary, v: Value, asString: bool, rest: Bytes)
    requires dict.Valid() && ValueFits(dict, v) && ValueIsGo(v) && !ValueIsSound(v)
    requires ShapeOfValue(NormalValue(dict, v, asString))
    ensures ReadValue(dict, ValueBytes(dict, v) + rest, asString).Fail?
    decreases v
  {
    var ns := v.nodes;
    assert ns != [];
    BlockedNodes(dict, ns, rest);
    var body := NodesBytes(dict, ns) + rest;
    assert ValueBytes(dict, v) + rest == ListStart(|ns|) + body by {
      AppendAssoc(ListStart(|ns|), NodesBytes(dict, ns), rest);
    }
    ReadListStart(|ns|, body);
  }

  lemma {:induction false} BlockedNodes(dict: Dictionary, ns: seq<Node>, rest: Bytes)
    requires dict.Valid() && NodesFit(dict, ns) && NodesAreGo(ns) && !NodesAreSound(ns)
    requires ShapeOfNodes(NormalNodes(dict, ns))
    ensures ReadNodes(dict, NodesBytes(dict, ns) + rest, |ns|).Fail?
    decreases ns
  {
    var tail := NodesBytes(dict, ns[1..]) + rest;
    assert NodesBytes(dict, ns) + rest == NodeBytes(dict, ns[0]) + tail by {
      AppendAssoc(NodeBytes(dict, ns[0]), NodesBytes(dict, ns[1..]), rest);
    }
    var normal := NormalNodes(dict, ns);
    assert normal[0] == NormalNode(dict, ns[0]);
    if NodeIsSound(ns[0]) {
      ReadNodeBytes(dict, ns[0], tail);
      assert normal[1..] == NormalNodes(dict, ns[1..]);
      BlockedNodes(dict, ns[1..], rest);
    } else {
      BlockedNode(dict, ns[0], tail);
    }
  }

  lemma {:induction false} BlockedAttrs(dict: Dictionary, attrs: seq<Attr>, acc: seq<Attr>, rest: Bytes)
    requires dict.Valid() && AttrsFit(dict, attrs) && AttrsAreGo(attrs) && !AttrsAreSound(attrs)
    requires DistinctKeys(attrs) && KeysApart(acc, attrs)
    requires ShapeOfAttrs(NormalAttrs(dict, attrs))
    ensures ReadAttributes(dict, AttrsBytes(dict, attrs) + rest, CountAttributes(attrs), acc).Fail?
    decreases attrs
  {
    hide ReadValue, ValueBytes, StringBytes, NormalValue;
    if !Written(attrs[0].val) {
      BlockedAttrs(dict, attrs[1..], acc, rest);
    } else {
      var key, val := attrs[0].key, attrs[0].val;
      var normal := NormalValue(dict, val, true);
      var tail := AttrsBytes(dict, attrs[1..]) + rest;
      AttrsBytesGrouped(dict, attrs, rest);
      ReadStringBytes(dict, key, true, ValueBytes(dict, val) + tail);
      var all := NormalAttrs(dict, attrs);
      assert all[0].val == normal;
      if ValueIsSound(val) {
        ReadValueBytes(dict, val, true, tail);
        assert all[1..] == NormalAttrs(dict, attrs[1..]);
        BlockedAttrs(dict, attrs[1..], acc + [Attr(key, normal)], rest);
        ReadAttributesStep(dict, AttrsBytes(dict, attrs) + rest, CountAttributes(attrs), acc, key, normal,
                           ValueBytes(dict, val) + tail, tail);
      } else {
        BlockedValue(dict, val, true, tail);
      }
    }
  }

  /** A list size of zero is an error whatever follows: tag "0", and a size whose low 16 bits are zero, end up here. */
  lemma ZeroListSizeFails(dict: Dictionary, b: Bytes)
    requires dict.Valid() && b != []
    requires var r := ReadListSize(b[0], b[1..]); r.Done? && r.value == 0
    ensures ReadNode(dict, b).Fail?
  {
    hide ReadValue, ReadAttributes;
  }

  lemma {:induction false} BlockedNode(dict: Dictionary, n: Node, rest: Bytes)
    requires dict.Valid() && NodeFits(dict, n) && NodeIsGo(n) && !NodeIsSound(n)
    requires ShapeOfNode(NormalNode(dict, n))
    ensures ReadNode(dict, NodeBytes(dict, n) + rest).Fail?
    decreases n
  {
    hide ReadValue, ReadAttributes, StringBytes, ReadNode, ListStart, ReadListSize;
    NormalAttrsCount(dict, n.attrs);
    if n.tag == TAG_ZERO {
      TagZeroFails(dict, n, rest);
    } else if ListSize(n) >= 0x1_0000 {
      WrappedSizeFails(dict, n, rest);
    } else if !AttrsAreSound(n.attrs) {
      BlockedAttrs(dict, n.attrs, [], ContentBytes(dict, n) + rest);
      BlockedAfterTag(dict, n, rest);
    } else {
      ReadAttrsBytes(dict, n.attrs, [], ContentBytes(dict, n) + rest);
      BlockedValue(dict, n.content, false, rest);
      BlockedAfterTag(dict, n, rest);
    }
  }

  lemma TagZeroFails(dict: Dictionary, n: Node, rest: Bytes)
    requires dict.Valid() && n.tag == TAG_ZERO
    ensures ReadNode(dict, NodeBytes(dict, n) + rest).Fail?
  {
    hide ReadNode;
    var b := NodeBytes(dict, n) + rest;
    assert b[1..] == [LIST_EMPTY] + rest;
    ReadIntOneByte(0, rest);
    ZeroListSizeFails(dict, b);
  }

  lemma WrappedSizeFails(dict: Dictionary, n: Node, rest: Bytes)
    requires dict.Valid() && n.tag != TAG_ZERO && ListSize(n) == 0x1_0000
    ensures ReadNode(dict, NodeBytes(dict, n) + rest).Fail?
  {
    hide ReadNode, StringBytes, AttrsBytes, IntBytes, IntOf;
    var tail := StringBytes(dict, n.tag) + (AttrsBytes(dict, n.attrs) + (ContentBytes(dict, n) + rest));
    NodeBytesGrouped(dict, n, rest);
    WrappedSize();
    assert ListStart(0x1_0000) == [LIST_16] + [0, 0];
    ZeroHeader(tail);
    ZeroListSizeFails(dict, NodeBytes(dict, n) + rest);
  }

  lemma WrappedSize()
    ensures IntBytes(0x1_0000, 2) == [0, 0]
  {
    assert IntBytes(0x1_0000 / 256, 1) == [0];
  }

  lemma ZeroHeader(tail: Bytes)
    ensures var b := [LIST_16] + [0, 0] + tail; ReadListSize(b[0], b[1..]) == Done(0, tail)
  {
    var b: Bytes := [LIST_16] + [0, 0] + tail;
    assert b[1..][..2] == [0, 0] && b[1..][2..] == tail;
    assert [0, 0][..1] == [0] && [0][..0] == [];
    assert IntOf([0]) == 0;
  }

  lemma NodeFailsAfterTag(dict: Dictionary, b: Bytes, size: nat, tag: Bytes, b2: Bytes, b3: Bytes)
    requires dict.Valid() && b != [] && size > 0
    requires ReadListSize(b[0], b[1..]) == Done(size, b2)
    requires ReadValue(dict, b2, true) == Done(Str(tag), b3)
    requires var r := ReadAttributes(dict, b3, (size - 1) / 2, []);
      r.Fail? || (size % 2 == 0 && ReadValue(dict, r.rest, false).Fail?)
    ensures ReadNode(dict, b).Fail?
  {
    hide ReadValue, ReadAttributes, ReadListSize;
  }

  /** With a good tag and size, a failure in the attributes or the content is a failure of the node. */
  lemma BlockedAfterTag(dict: Dictionary, n: Node, rest: Bytes)
    requires dict.Valid() && n.tag != TAG_ZERO && StringFits(dict, n.tag) && ListSize(n) < 0x1_0000
    requires var r := ReadAttributes(dict, AttrsBytes(dict, n.attrs) + (ContentBytes(dict, n) + rest), CountAttributes(n.attrs), []);
      r.Fail? || (n.content != Nil && ReadValue(dict, r.rest, false).Fail?)
    ensures ReadNode(dict, NodeBytes(dict, n) + rest).Fail?
  {
    hide ReadValue, ReadAttributes, StringBytes, ListStart, ReadListSize, AttrsBytes, ReadNode, ContentBytes, NodeBytes;
    var b3 := AttrsBytes(dict, n.attrs) + (ContentBytes(dict, n) + rest);
    NodeBytesGrouped(dict, n, rest);
    ReadTagBytes(dict, n, b3);
    NodeFailsAfterTag(dict, NodeBytes(dict, n) + rest, ListSize(n), n.tag, StringBytes(dict, n.tag) + b3, b3);
  }

  // ---- The exact condition

  /** Unmarshalling what was marshalled gives the normal form back exactly when the tree is sound. */
  lemma RoundTripExactly(dict: Dictionary, n: Node)
    requires dict.Valid() && NodeFits(dict, n) && NodeIsGo(n)
    ensures Unmarshal(dict, NodeBytes(dict, n)) == Decoded(NormalNode(dict, n)) <==> NodeIsSound(n)
  {
    assert NodeBytes(dict, n) + [] == NodeBytes(dict, n);
    if NodeIsSound(n) {
      ReadNodeBytes(dict, n, []);
    } else if Unmarshal(dict, NodeBytes(dict, n)) == Decoded(NormalNode(dict, n)) {
      ReadNodeShape(dict, NodeBytes(dict, n));
      BlockedNode(dict, n, []);
    }
  }

  function Copies(n: Node, count: nat): (ns: seq<Node>)
    ensures |ns| == count
  {
    seq(count, _ => n)
  }

  lemma {:induction false} CopiesFit(dict: Dictionary, n: Node, count: nat)
    requires dict.Valid() && NodeFits(dict, n) && NodeIsGo(n)
    ensures NodesFit(dict, Copies(n, count)) && NodesAreGo(Copies(n, count))
  {
    hide NodeFits, NodeIsGo;
    if count > 0 {
      CopiesFit(dict, n, count - 1);
      assert Copies(n, count)[1..] == Copies(n, count - 1);
    }
  }

  predicate ComesBack(dict: Dictionary, n: Node)
    requires dict.Valid()
  {
    Unmarshal(dict, NodeBytes(dict, n)) == Decoded(NormalNode(dict, n))
  }

  /** Three trees that are encoded without an error and do not come back: tag "0", no tag, and 65536 children. */
  lemma UnsoundExamples(dict: Dictionary)
    requires dict.Valid()
    ensures !ComesBack(dict, Node(TAG_ZERO, [], Nil)) && !ComesBack(dict, Node([], [], Nil))
    ensures !ComesBack(dict, Node([97], [], Nodes(Copies(Node([98], [], Nil), 0x1_0000))))
  {
    hide NodeBytes, NormalNode, Unmarshal, FormOf, Copies;
    var child := Node([98], [], Nil);
    CopiesFit(dict, child, 0x1_0000);
    RoundTripExactly(dict, Node(TAG_ZERO, [], Nil));
    RoundTripExactly(dict, Node([], [], Nil));
    RoundTripExactly(dict, Node([97], [], Nodes(Copies(child, 0x1_0000))));
  }

  /** Encodings are self-delimiting: equal bytes with anything after them hold equal trees and equal tails. */
  lemma EncodingsAreSelfDelimiting(dict: Dictionary, n: Node, m: Node, tail1: Bytes, tail2: Bytes)
    requires dict.Valid()
    requires NodeFits(dict, n) && NodeIsGo(n) && NodeIsSound(n)
    requires NodeFits(dict, m) && NodeIsGo(m) && NodeIsSound(m)
    requires NodeBytes(dict, n) + tail1 == NodeBytes(dict, m) + tail2
    ensures NormalNode(dict, n) == NormalNode(dict, m) && tail1 == tail2
  {
    ReadNodeBytes(dict, n, tail1);
    ReadNodeBytes(dict, m, tail2);
  }

  // ---- The order in which a map is iterated does not matter

  lemma {:induction false} NormalAttrsAppend(dict: Dictionary, a: seq<Attr>, b: seq<Attr>)
    requires dict.Valid()
    ensures NormalAttrs(dict, a + b) == NormalAttrs(dict, a) + NormalAttrs(dict, b)
  {
    if a == [] {
      assert a + b == b;
    } else {
      NormalAttrsAppend(dict, a[1..], b);
      assert (a + b)[1..] == a[1..] + b;
    }
  }

  lemma NormalAttrsWithout(dict: Dictionary, b: seq<Attr>, i: nat)
    requires dict.Valid() && i < |b|
    ensures multiset(NormalAttrs(dict, b))
         == multiset(NormalAttrs(dict, [b[i]])) + multiset(NormalAttrs(dict, b[..i] + b[i + 1..]))
  {
    hide NormalAttrs;
    assert b == b[..i] + ([b[i]] + b[i + 1..]);
    NormalAttrsAppend(dict, b[..i], [b[i]] + b[i + 1..]);
    NormalAttrsAppend(dict, [b[i]], b[i + 1..]);
    NormalAttrsAppend(dict, b[..i], b[i + 1..]);
  }

  lemma {:induction false} PermutedNormalAttrs(dict: Dictionary, a: seq<Attr>, b: seq<Attr>)
    requires dict.Valid() && multiset(a) == multiset(b)
    ensures multiset(NormalAttrs(dict, a)) == multiset(NormalAttrs(dict, b))
  {
    hide NormalAttrs;
    if a == [] {
      assert |multiset(b)| == 0;
    } else {
      assert a[0] in multiset(b);
      var i :| 0 <= i < |b| && b[i] == a[0];
      var restA, restB := a[..0] + a[1..], b[..i] + b[i + 1..];
      assert multiset(restA) == multiset(restB) by {
        MultisetWithout(a, 0);
        MultisetWithout(b, i);
      }
      PermutedNormalAttrs(dict, restA, restB);
      NormalAttrsWithout(dict, a, 0);
      NormalAttrsWithout(dict, b, i);
    }
  }

  /** Two iteration orders of one attribute map are written with the same list size and decode to the same attributes. */
  lemma AttributeOrderDoesNotMatter(dict: Dictionary, a: seq<Attr>, b: seq<Attr>)
    requires dict.Valid() && multiset(a) == multiset(b)
    ensures multiset(NormalAttrs(dict, a)) == multiset(NormalAttrs(dict, b))
    ensures CountAttributes(a) == CountAttributes(b)
  {
    hide NormalAttrs, CountAttributes;
    PermutedNormalAttrs(dict, a, b);
    NormalAttrsCount(dict, a);
    NormalAttrsCount(dict, b);
    assert |multiset(NormalAttrs(dict, a))| == |multiset(NormalAttrs(dict, b))|;
  }
}

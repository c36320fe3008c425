/** Every tree that the decoder produces can be encoded again, and what comes of it (whatsmeow/binary). */
module BinaryDecoded {
  import opened Basics
  import opened BigEndian
  import opened Jid
  import opened Tokens
  import opened BinaryNode
  import opened BinaryFormat
  import opened BinaryParser
  import opened BinaryExactness

  // ---- The one thing that keeps a decoded tree from being encoded faithfully

  predicate ValueHasNoZero(v: Value)
    decreases v
  {
    v.Nodes? ==> NodesHaveNoZero(v.nodes)
  }

  predicate AttrsHaveNoZero(attrs: seq<Attr>)
    decreases attrs
  {
    attrs == [] || (ValueHasNoZero(attrs[0].val) && AttrsHaveNoZero(attrs[1..]))
  }

  /** No node of the tree has the tag "0". */
  predicate NoTagZero(n: Node)
    decreases n
  {
    n.tag != TAG_ZERO && AttrsHaveNoZero(n.attrs) && ValueHasNoZero(n.content)
  }

  predicate NodesHaveNoZero(ns: seq<Node>)
    decreases ns
  {
    ns == [] || (NoTagZero(ns[0]) && NodesHaveNoZero(ns[1..]))
  }

  lemma {:induction false} ShapedValueIsSound(v: Value)
    requires ShapeOfValue(v)
    ensures ValueIsSound(v) <==> ValueHasNoZero(v)
    decreases v
  {
    if v.Nodes? {
      ShapedNodesAreSound(v.nodes);
    }
  }

  lemma {:induction false} ShapedAttrsAreSound(attrs: seq<Attr>)
    requires ShapeOfAttrs(attrs)
    ensures AttrsAreSound(attrs) <==> AttrsHaveNoZero(attrs)
    ensures CountAttributes(attrs) <= |attrs|
    decreases attrs
  {
    if attrs != [] {
      ShapedValueIsSound(attrs[0].val);
      ShapedAttrsAreSound(attrs[1..]);
    }
  }

  lemma {:induction false} ShapedNodeIsSound(n: Node)
    requires ShapeOfNode(n)
    ensures NodeIsSound(n) <==> NoTagZero(n)
    decreases n
  {
    ShapedAttrsAreSound(n.attrs);
    ShapedValueIsSound(n.content);
  }

  lemma {:induction false} ShapedNodesAreSound(ns: seq<Node>)
    requires ShapeOfNodes(ns)
    ensures NodesAreSound(ns) <==> NodesHaveNoZero(ns)
    decreases ns
  {
    if ns != [] {
      ShapedNodeIsSound(ns[0]);
      ShapedNodesAreSound(ns[1..]);
    }
  }

  // ---- Decoded trees are maps at every level, and no length in them is too large

  ghost predicate GoodValue(dict: Dictionary, v: Value)
    requires dict.Valid()
  {
    ValueFits(dict, v) && ValueIsGo(v)
  }

  ghost predicate GoodAttrs(dict: Dictionary, attrs: seq<Attr>)
    requires dict.Valid()
  {
    AttrsFit(dict, attrs) && AttrsAreGo(attrs) && DistinctKeys(attrs)
  }

  ghost predicate GoodNode(dict: Dictionary, n: Node)
    requires dict.Valid()
  {
    NodeFits(dict, n) && NodeIsGo(n)
  }

  lemma TokensFit(dict: Dictionary, s: Bytes)
    requires dict.Valid()
    requires s in dict.single || exists d :: 0 <= d < 4 && s in dict.double[d]
    ensures StringFits(dict, s)
  {
  }

  /** PutAttr replaces the value of a key it finds, and appends one it does not. */
  lemma {:induction false} PutAttrKeys(attrs: seq<Attr>, key: Bytes, val: Value)
    requires DistinctKeys(attrs)
    ensures var r := PutAttr(attrs, key, val);
      && DistinctKeys(r)
      && forall i :: 0 <= i < |r| ==> r[i].key == key || exists j :: 0 <= j < |attrs| && attrs[j].key == r[i].key
  {
    if attrs != [] && attrs[0].key != key {
      var rest := PutAttr(attrs[1..], key, val);
      PutAttrKeys(attrs[1..], key, val);
      forall i | 0 <= i < |rest| ensures rest[i].key != attrs[0].key {
        if rest[i].key != key {
          var j :| 0 <= j < |attrs[1..]| && attrs[1..][j].key == rest[i].key;
          assert attrs[j + 1].key == rest[i].key;
        }
      }
    }
  }

  lemma {:induction false} PutAttrGood(dict: Dictionary, attrs: seq<Attr>, key: Bytes, val: Value)
    requires dict.Valid() && AttrsFit(dict, attrs) && AttrsAreGo(attrs)
    requires StringFits(dict, key) && GoodValue(dict, val)
    ensures var r := PutAttr(attrs, key, val); AttrsFit(dict, r) && AttrsAreGo(r)
  {
    hide StringFits, ValueFits, ValueIsGo;
    if attrs == [] {
      assert [Attr(key, val)][1..] == [];
    } else if attrs[0].key == key {
      assert ([Attr(key, val)] + attrs[1..])[1..] == attrs[1..];
    } else {
      PutAttrGood(dict, attrs[1..], key, val);
    }
  }

  lemma {:induction false} UnpackedLength(p: Packing, b: Bytes, n: nat)
    ensures var r := UnpackBytes(p, b, n); r.Done? ==> |r.value| == 2 * n
    decreases n
  {
    if n > 0 && b != [] {
      UnpackedLength(p, b[1..], n - 1);
    }
  }

  lemma PackedIsShort(p: Packing, b: Bytes)
    ensures var r := ReadPacked(p, b); r.Done? ==> r.value.Str? && |r.value.s| <= 254
  {
    if b != [] {
      UnpackedLength(p, b[1..], b[0] % 128);
    }
  }

  lemma RawIsInside(tag: Byte, b: Bytes, asString: bool)
    ensures var r := ReadBinary(tag, b, asString);
      r.Done? ==> (r.value.Str? && |r.value.s| <= |b|) || (r.value.Raw? && |r.value.b| <= |b|)
  {
    hide IntOf;
  }

  lemma DoubleFits(dict: Dictionary, tag: Byte, b: Bytes)
    requires dict.Valid() && DICTIONARY_0 <= tag <= DICTIONARY_3
    ensures var r := ReadDouble(dict, tag, b); r.Done? ==> r.value.Str? && StringFits(dict, r.value.s)
  {
    hide IntOf, StringFits;
    var r := ReadDouble(dict, tag, b);
    if r.Done? {
      assert r.value.s in dict.double[tag - DICTIONARY_0];
      TokensFit(dict, r.value.s);
    }
  }

  lemma ShortFits(dict: Dictionary, s: Bytes)
    requires dict.Valid() && |s| < MAX_LENGTH
    ensures StringFits(dict, s)
  {
  }

  lemma {:induction false} ReadValueGood(dict: Dictionary, b: Bytes, asString: bool)
    requires dict.Valid() && |b| < MAX_LENGTH
    ensures var r := ReadValue(dict, b, asString); r.Done? ==> GoodValue(dict, r.value)
    decreases |b|, 0
  {
    hide StringFits, NodesFit, NodesAreGo, ReadPacked, ReadBinary, ReadDouble;
    var r := ReadValue(dict, b, asString);
    if r.Done? {
      var tag, rest := b[0], b[1..];
      if tag == LIST_8 || tag == LIST_16 {
        ReadListGood(dict, tag, rest);
      } else if tag == BINARY_8 || tag == BINARY_20 || tag == BINARY_32 {
        RawIsInside(tag, rest, asString);
        if r.value.Str? {
          ShortFits(dict, r.value.s);
        }
      } else if DICTIONARY_0 <= tag <= DICTIONARY_3 {
        DoubleFits(dict, tag, rest);
      } else if tag == FB_JID || tag == INTEROP_JID || tag == JID_PAIR || tag == AD_JID {
        ReadJIDGood(dict, tag, rest);
      } else if tag == NIBBLE_8 || tag == HEX_8 {
        PackedIsShort(if tag == NIBBLE_8 then Nibble else Hex, rest);
        ShortFits(dict, r.value.s);
      } else if tag != LIST_EMPTY {
        TokensFit(dict, dict.single[tag]);
      }
    }
  }

  lemma {:induction false} ReadJIDGood(dict: Dictionary, tag: Byte, b: Bytes)
    requires dict.Valid() && |b| < MAX_LENGTH
    requires tag == FB_JID || tag == INTEROP_JID || tag == JID_PAIR || tag == AD_JID
    ensures var r := if tag == FB_JID then ReadFBJID(dict, b) else if tag == INTEROP_JID then ReadInteropJID(dict, b)
                     else if tag == JID_PAIR then ReadJIDPair(dict, b) else ReadADJID(dict, b);
      r.Done? ==> r.value.Address? && JIDFits(dict, r.value.jid)
    decreases |b|, 1
  {
    hide ReadValue, StringFits, IntOf;
    KnownServersFit(dict);
    if tag == AD_JID {
      if |b| >= 2 {
        ReadValueGood(dict, b[1..][1..], true);
      }
    } else {
      ReadValueGood(dict, b, true);
      var user := ReadValue(dict, b, true);
      if user.Done? && tag == JID_PAIR {
        ReadValueGood(dict, user.rest, true);
      }
    }
  }

  lemma KnownServersFit(dict: Dictionary)
    requires dict.Valid()
    ensures StringFits(dict, DefaultUserServer) && StringFits(dict, HiddenUserServer) && StringFits(dict, HostedServer)
    ensures StringFits(dict, HostedLIDServer) && StringFits(dict, MessengerServer) && StringFits(dict, InteropServer)
    ensures StringFits(dict, [])
  {
    assert |DefaultUserServer| == 14 && |HiddenUserServer| == 3 && |MessengerServer| == 4;
    assert |InteropServer| == 7 && |HostedServer| == 6 && |HostedLIDServer| == 10;
    hide FormOf;
  }

  lemma {:induction false} ReadListGood(dict: Dictionary, tag: Byte, b: Bytes)
    requires dict.Valid() && |b| < MAX_LENGTH
    ensures var r := ReadList(dict, tag, b); r.Done? ==> r.value.Nodes? && GoodValue(dict, r.value)
    decreases |b|, 3
  {
    hide ReadNodes, NodesFit, NodesAreGo, IntOf;
    var size := ReadListSize(tag, b);
    if size.Done? {
      ReadNodesGood(dict, size.rest, size.value);
    }
  }

  lemma {:induction false} ReadNodesGood(dict: Dictionary, b: Bytes, n: nat)
    requires dict.Valid() && |b| < MAX_LENGTH
    ensures var r := ReadNodes(dict, b, n); r.Done? ==> NodesFit(dict, r.value) && NodesAreGo(r.value)
    decreases |b|, 2
  {
    hide ReadNode, NodeFits, NodeIsGo;
    if n > 0 {
      ReadNodeGood(dict, b);
      var first := ReadNode(dict, b);
      if first.Done? {
        ReadNodesGood(dict, first.rest, n - 1);
        var rest := ReadNodes(dict, first.rest, n - 1);
        assert rest.Done? ==> ([first.value] + rest.value)[1..] == rest.value;
      }
    }
  }

  lemma {:induction false} ReadAttributesGood(dict: Dictionary, b: Bytes, n: nat, acc: seq<Attr>)
    requires dict.Valid() && |b| < MAX_LENGTH && GoodAttrs(dict, acc)
    ensures var r := ReadAttributes(dict, b, n, acc); r.Done? ==> GoodAttrs(dict, r.value)
    decreases |b|, 2
  {
    hide ReadValue, StringFits, AttrsFit, AttrsAreGo, DistinctKeys;
    if n > 0 {
      var key := ReadValue(dict, b, true);
      if key.Done? && key.value.Str? {
        ReadValueGood(dict, b, true);
        var val := ReadValue(dict, key.rest, true);
        if val.Done? {
          ReadValueGood(dict, key.rest, true);
          PutAttrKeys(acc, key.value.s, val.value);
          PutAttrGood(dict, acc, key.value.s, val.value);
          ReadAttributesGood(dict, val.rest, n - 1, PutAttr(acc, key.value.s, val.value));
        }
      }
    }
  }

  lemma {:induction false} ReadNodeGood(dict: Dictionary, b: Bytes)
    requires dict.Valid() && |b| < MAX_LENGTH
    ensures var r := ReadNode(dict, b); r.Done? ==> GoodNode(dict, r.value)
    decreases |b|, 1
  {
    hide ReadValue, ReadAttributes, GoodAttrs, GoodValue, GoodNode, IntOf;
    if ReadNode(dict, b).Done? {
      var size := ReadListSize(b[0], b[1..]);
      ReadValueGood(dict, size.rest, true);
      var desc := ReadValue(dict, size.rest, true);
      NoAttrsGood(dict);
      ReadAttributesGood(dict, desc.rest, (size.value - 1) / 2, []);
      var attrs := ReadAttributes(dict, desc.rest, (size.value - 1) / 2, []);
      ReadValueGood(dict, attrs.rest, false);
      GoodParts(dict, desc.value.s, attrs.value, ReadNode(dict, b).value.content);
    }
  }

  lemma GoodParts(dict: Dictionary, tag: Bytes, attrs: seq<Attr>, content: Value)
    requires dict.Valid()
    requires GoodValue(dict, Str(tag)) && GoodAttrs(dict, attrs) && (content == Nil || GoodValue(dict, content))
    ensures GoodNode(dict, Node(tag, attrs, content))
  {
    var n := Node(tag, attrs, content);
    assert StringFits(dict, n.tag);
    assert AttrsFit(dict, n.attrs);
    assert ValueFits(dict, n.content);
    assert AttrsAreGo(n.attrs);
    assert ValueIsGo(n.content);
  }

  lemma NoAttrsGood(dict: Dictionary)
    requires dict.Valid()
    ensures GoodAttrs(dict, [])
  {
  }

  // ---- Main results

  /**
   Whatever bytes a tree is decoded from, its attribute keys are distinct at every level, it can be encoded without a
   panic, and it is sound exactly when no tag in it is "0".
   */
  lemma DecodedTreesAreEncodable(dict: Dictionary, b: Bytes)
    requires dict.Valid() && |b| < MAX_LENGTH && ReadNode(dict, b).Done?
    ensures var n := ReadNode(dict, b).value;
      NodeFits(dict, n) && NodeIsGo(n) && ShapeOfNode(n) && (NodeIsSound(n) <==> NoTagZero(n))
  {
    hide ReadNode, NodeFits, NodeIsGo, ShapeOfNode, NodeIsSound, NoTagZero;
    ReadNodeGood(dict, b);
    ReadNodeShape(dict, b);
    ShapedNodeIsSound(ReadNode(dict, b).value);
  }

  /** A decoded tree, encoded and decoded again, gives its normal form exactly when no tag in it is "0". */
  lemma DecodedTreesRoundTrip(dict: Dictionary, b: Bytes)
    requires dict.Valid() && |b| < MAX_LENGTH && Unmarshal(dict, b).Decoded?
    ensures var n := Unmarshal(dict, b).node;
      Unmarshal(dict, NodeBytes(dict, n)) == Decoded(NormalNode(dict, n)) <==> NoTagZero(n)
  {
    hide ReadNode, NodeFits, NodeIsGo, NodeIsSound, NoTagZero;
    DecodedTreesAreEncodable(dict, b);
    RoundTripExactly(dict, ReadNode(dict, b).value);
  }
}

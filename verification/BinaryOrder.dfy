/** Go iterates over a map in any order: at every level of a tree the order of the attributes makes no difference. */
module BinaryOrder {
  import opened Basics
  import opened Tokens
  import opened BinaryNode
  import opened BinaryFormat
  import opened BinaryParser
  import opened BinaryRoundTrip
  import opened BinaryExactness

  /** One tree, with the attributes of each of its nodes in two orders. */
  ghost predicate SameNode(n: Node, m: Node)
    decreases n
  {
    n.tag == m.tag && SameAttrs(n.attrs, m.attrs) && SameValue(n.content, m.content)
  }

  ghost predicate SameValue(v: Value, w: Value)
    decreases v
  {
    if v.Nodes? && w.Nodes? then SameNodes(v.nodes, w.nodes) else v == w
  }

  ghost predicate SameNodes(ns: seq<Node>, ms: seq<Node>)
    decreases ns
  {
    |ns| == |ms| && forall i :: 0 <= i < |ns| ==> SameNode(ns[i], ms[i])
  }

  /** Each attribute on the left has its counterpart on the right, and each on the right has one on the left. */
  ghost predicate SameAttrs(a: seq<Attr>, b: seq<Attr>)
    decreases a, 1
  {
    && |a| == |b|
    && (forall i :: 0 <= i < |a| ==> HasCounterpart(a, i, b))
    && (forall j :: 0 <= j < |b| ==> IsCounterpart(a, b, j))
  }

  ghost predicate HasCounterpart(a: seq<Attr>, i: nat, b: seq<Attr>)
    requires i < |a|
    decreases a, 0
  {
    exists j :: 0 <= j < |b| && b[j].key == a[i].key && SameValue(a[i].val, b[j].val)
  }

  ghost predicate IsCounterpart(a: seq<Attr>, b: seq<Attr>, j: nat)
    requires j < |b|
    decreases a, 0
  {
    exists i :: 0 <= i < |a| && b[j].key == a[i].key && SameValue(a[i].val, b[j].val)
  }

  lemma {:induction false} SameValueSymmetric(v: Value, w: Value)
    requires SameValue(v, w)
    ensures SameValue(w, v)
    decreases v
  {
    if v.Nodes? && w.Nodes? {
      forall i | 0 <= i < |w.nodes| ensures SameNode(w.nodes[i], v.nodes[i]) {
        SameNodeSymmetric(v.nodes[i], w.nodes[i]);
      }
    }
  }

  lemma {:induction false} SameAttrsSymmetric(a: seq<Attr>, b: seq<Attr>)
    requires SameAttrs(a, b)
    ensures SameAttrs(b, a)
    decreases a, 1
  {
    hide SameValue;
    forall i | 0 <= i < |b| ensures HasCounterpart(b, i, a) {
      assert IsCounterpart(a, b, i);
      var j :| 0 <= j < |a| && b[i].key == a[j].key && SameValue(a[j].val, b[i].val);
      SameValueSymmetric(a[j].val, b[i].val);
    }
    forall j | 0 <= j < |a| ensures IsCounterpart(b, a, j) {
      assert HasCounterpart(a, j, b);
      var i :| 0 <= i < |b| && b[i].key == a[j].key && SameValue(a[j].val, b[i].val);
      SameValueSymmetric(a[j].val, b[i].val);
    }
  }

  lemma {:induction false} SameNodeSymmetric(n: Node, m: Node)
    requires SameNode(n, m)
    ensures SameNode(m, n)
    decreases n
  {
    hide SameAttrs;
    SameAttrsSymmetric(n.attrs, m.attrs);
    SameValueSymmetric(n.content, m.content);
  }

  lemma SameIsWritten(v: Value, w: Value)
    requires SameValue(v, w)
    ensures Written(v) <==> Written(w)
  {
  }

  // ---- The attributes that are written, by position

  lemma {:induction false} NormalAttrFrom(dict: Dictionary, attrs: seq<Attr>, i: nat) returns (k: nat)
    requires dict.Valid() && i < |NormalAttrs(dict, attrs)|
    ensures k < |attrs| && Written(attrs[k].val)
    ensures NormalAttrs(dict, attrs)[i] == Attr(attrs[k].key, NormalValue(dict, attrs[k].val, true))
  {
    hide NormalValue;
    if Written(attrs[0].val) && i == 0 {
      k := 0;
    } else {
      k := NormalAttrFrom(dict, attrs[1..], if Written(attrs[0].val) then i - 1 else i);
      k := k + 1;
    }
  }

  lemma {:induction false} NormalAttrTo(dict: Dictionary, attrs: seq<Attr>, k: nat) returns (i: nat)
    requires dict.Valid() && k < |attrs| && Written(attrs[k].val)
    ensures i < |NormalAttrs(dict, attrs)|
    ensures NormalAttrs(dict, attrs)[i] == Attr(attrs[k].key, NormalValue(dict, attrs[k].val, true))
  {
    hide NormalValue;
    if k == 0 {
      i := 0;
    } else {
      i := NormalAttrTo(dict, attrs[1..], k - 1);
      if Written(attrs[0].val) {
        i := i + 1;
      }
    }
  }

  function WrittenKeys(attrs: seq<Attr>): set<Bytes> {
    if attrs == [] then {}
    else (if Written(attrs[0].val) then {attrs[0].key} else {}) + WrittenKeys(attrs[1..])
  }

  lemma {:induction false} KeyIsWritten(attrs: seq<Attr>, key: Bytes)
    ensures key in WrittenKeys(attrs) <==> exists i :: 0 <= i < |attrs| && Written(attrs[i].val) && attrs[i].key == key
  {
    hide Written;
    if attrs != [] {
      var rest := attrs[1..];
      KeyIsWritten(rest, key);
      if i :| 0 <= i < |rest| && Written(rest[i].val) && rest[i].key == key {
        assert attrs[i + 1] == rest[i];
      }
      if i :| 0 < i < |attrs| && Written(attrs[i].val) && attrs[i].key == key {
        assert rest[i - 1] == attrs[i];
      }
    }
  }

  lemma {:induction false} CountIsKeys(attrs: seq<Attr>)
    requires DistinctKeys(attrs)
    ensures CountAttributes(attrs) == |WrittenKeys(attrs)|
  {
    hide Written;
    if attrs != [] {
      CountIsKeys(attrs[1..]);
      KeyIsWritten(attrs[1..], attrs[0].key);
    }
  }

  lemma KeysInto(a: seq<Attr>, b: seq<Attr>)
    requires SameAttrs(a, b)
    ensures WrittenKeys(a) <= WrittenKeys(b)
  {
    hide SameValue, Written, WrittenKeys;
    forall key | key in WrittenKeys(a) ensures key in WrittenKeys(b) {
      KeyIsWritten(a, key);
      var i :| 0 <= i < |a| && Written(a[i].val) && a[i].key == key;
      assert HasCounterpart(a, i, b);
      var j :| 0 <= j < |b| && b[j].key == a[i].key && SameValue(a[i].val, b[j].val);
      SameIsWritten(a[i].val, b[j].val);
      KeyIsWritten(b, key);
    }
  }

  lemma KeysFrom(a: seq<Attr>, b: seq<Attr>)
    requires SameAttrs(a, b)
    ensures WrittenKeys(b) <= WrittenKeys(a)
  {
    hide SameValue, Written, WrittenKeys;
    forall key | key in WrittenKeys(b) ensures key in WrittenKeys(a) {
      KeyIsWritten(b, key);
      var j :| 0 <= j < |b| && Written(b[j].val) && b[j].key == key;
      assert IsCounterpart(a, b, j);
      var i :| 0 <= i < |a| && b[j].key == a[i].key && SameValue(a[i].val, b[j].val);
      SameIsWritten(a[i].val, b[j].val);
      KeyIsWritten(a, key);
    }
  }

  lemma SameCount(a: seq<Attr>, b: seq<Attr>)
    requires SameAttrs(a, b) && DistinctKeys(a) && DistinctKeys(b)
    ensures CountAttributes(a) == CountAttributes(b)
  {
    hide SameAttrs, WrittenKeys, DistinctKeys;
    CountIsKeys(a);
    CountIsKeys(b);
    KeysInto(a, b);
    KeysFrom(a, b);
    assert WrittenKeys(a) == WrittenKeys(b);
  }

  // ---- Normal forms and soundness do not depend on the order

  lemma {:induction false} SameNormalValue(dict: Dictionary, v: Value, w: Value, asString: bool)
    requires dict.Valid() && SameValue(v, w) && ValueIsGo(v) && ValueIsGo(w)
    ensures SameValue(NormalValue(dict, v, asString), NormalValue(dict, w, asString))
    decreases v
  {
    if v.Nodes? && w.Nodes? {
      SameNormalNodes(dict, v.nodes, w.nodes);
    } else {
      SameItself(NormalValue(dict, v, asString));
    }
  }

  lemma {:induction false} SameItself(v: Value)
    ensures SameValue(v, v)
    decreases v
  {
    if v.Nodes? {
      forall i | 0 <= i < |v.nodes| ensures SameNode(v.nodes[i], v.nodes[i]) {
        SameNodeItself(v.nodes[i]);
      }
    }
  }

  lemma {:induction false} SameNodeItself(n: Node)
    ensures SameNode(n, n)
    decreases n
  {
    SameItself(n.content);
    forall i | 0 <= i < |n.attrs| ensures HasCounterpart(n.attrs, i, n.attrs) && IsCounterpart(n.attrs, n.attrs, i) {
      SameItself(n.attrs[i].val);
    }
  }

  lemma {:induction false} NormalNodesAt(dict: Dictionary, ns: seq<Node>, i: nat)
    requires dict.Valid() && i < |ns|
    ensures NormalNodes(dict, ns)[i] == NormalNode(dict, ns[i])
    ensures NodesAreGo(ns) ==> NodeIsGo(ns[i])
    decreases ns
  {
    hide NormalNode, NodeIsGo;
    if i > 0 {
      NormalNodesAt(dict, ns[1..], i - 1);
    }
  }

  lemma {:induction false} SameNormalNodes(dict: Dictionary, ns: seq<Node>, ms: seq<Node>)
    requires dict.Valid() && SameNodes(ns, ms) && NodesAreGo(ns) && NodesAreGo(ms)
    ensures SameNodes(NormalNodes(dict, ns), NormalNodes(dict, ms))
    decreases ns
  {
    hide NormalNodes, NodesAreGo, SameNode;
    forall i | 0 <= i < |ns| ensures SameNode(NormalNodes(dict, ns)[i], NormalNodes(dict, ms)[i]) {
      NormalNodesAt(dict, ns, i);
      NormalNodesAt(dict, ms, i);
      SameNormalNode(dict, ns[i], ms[i]);
    }
  }

  lemma {:induction false} AttrIsGo(attrs: seq<Attr>, i: nat)
    requires AttrsAreGo(attrs) && i < |attrs|
    ensures ValueIsGo(attrs[i].val)
  {
    if i > 0 {
      AttrIsGo(attrs[1..], i - 1);
    }
  }

  lemma {:induction false} SameNormalAttrs(dict: Dictionary, a: seq<Attr>, b: seq<Attr>)
    requires dict.Valid() && SameAttrs(a, b) && DistinctKeys(a) && DistinctKeys(b) && AttrsAreGo(a) && AttrsAreGo(b)
    ensures SameAttrs(NormalAttrs(dict, a), NormalAttrs(dict, b))
    decreases a, 1
  {
    var na, nb := NormalAttrs(dict, a), NormalAttrs(dict, b);
    SameCount(a, b);
    NormalAttrsCount(dict, a);
    NormalAttrsCount(dict, b);
    hide NormalAttrs, DistinctKeys, AttrsAreGo, SameValue, Written, NormalValue;
    forall i | 0 <= i < |na| ensures HasCounterpart(na, i, nb) {
      var k := NormalAttrFrom(dict, a, i);
      assert HasCounterpart(a, k, b);
      var j :| 0 <= j < |b| && b[j].key == a[k].key && SameValue(a[k].val, b[j].val);
      SameIsWritten(a[k].val, b[j].val);
      var r := NormalAttrTo(dict, b, j);
      AttrIsGo(a, k);
      AttrIsGo(b, j);
      SameNormalValue(dict, a[k].val, b[j].val, true);
      assert nb[r].key == na[i].key && SameValue(na[i].val, nb[r].val);
    }
    forall j | 0 <= j < |nb| ensures IsCounterpart(na, nb, j) {
      var k := NormalAttrFrom(dict, b, j);
      assert IsCounterpart(a, b, k);
      var i :| 0 <= i < |a| && b[k].key == a[i].key && SameValue(a[i].val, b[k].val);
      SameIsWritten(a[i].val, b[k].val);
      var r := NormalAttrTo(dict, a, i);
      AttrIsGo(a, i);
      AttrIsGo(b, k);
      SameNormalValue(dict, a[i].val, b[k].val, true);
      assert nb[j].key == na[r].key && SameValue(na[r].val, nb[j].val);
    }
  }

  lemma {:induction false} SameNormalNode(dict: Dictionary, n: Node, m: Node)
    requires dict.Valid() && SameNode(n, m) && NodeIsGo(n) && NodeIsGo(m)
    ensures SameNode(NormalNode(dict, n), NormalNode(dict, m))
    decreases n
  {
    hide SameAttrs, DistinctKeys, AttrsAreGo, SameValue, ValueIsGo, NormalAttrs, NormalValue;
    SameNormalAttrs(dict, n.attrs, m.attrs);
    SameNormalValue(dict, n.content, m.content, false);
  }

  // ---- Neither does whether the tree can be encoded faithfully

  lemma {:induction false} AttrEncodable(dict: Dictionary, attrs: seq<Attr>, i: nat)
    requires dict.Valid() && AttrsFit(dict, attrs) && AttrsAreSound(attrs) && i < |attrs|
    ensures Written(attrs[i].val) ==> StringFits(dict, attrs[i].key) && ValueFits(dict, attrs[i].val)
    ensures ValueIsSound(attrs[i].val)
  {
    hide StringFits, ValueFits, ValueIsSound;
    if i > 0 {
      AttrEncodable(dict, attrs[1..], i - 1);
    }
  }

  ghost predicate EachEncodable(dict: Dictionary, attrs: seq<Attr>)
    requires dict.Valid()
  {
    forall i :: 0 <= i < |attrs| ==>
      && (Written(attrs[i].val) ==> StringFits(dict, attrs[i].key) && ValueFits(dict, attrs[i].val))
      && ValueIsSound(attrs[i].val)
  }

  lemma {:induction false} EachMakesAll(dict: Dictionary, attrs: seq<Attr>)
    requires dict.Valid() && EachEncodable(dict, attrs)
    ensures AttrsFit(dict, attrs) && AttrsAreSound(attrs)
  {
    hide StringFits, ValueFits, ValueIsSound, Written;
    if attrs != [] {
      forall i | 0 <= i < |attrs[1..]| ensures attrs[1..][i] == attrs[i + 1] {
      }
      EachMakesAll(dict, attrs[1..]);
    }
  }

  lemma {:induction false} NodeAtEncodable(dict: Dictionary, ns: seq<Node>, i: nat)
    requires dict.Valid() && NodesFit(dict, ns) && NodesAreSound(ns) && i < |ns|
    ensures NodeFits(dict, ns[i]) && NodeIsSound(ns[i])
  {
    hide NodeFits, NodeIsSound;
    if i > 0 {
      NodeAtEncodable(dict, ns[1..], i - 1);
    }
  }

  lemma {:induction false} NodesEncodable(dict: Dictionary, ns: seq<Node>)
    requires dict.Valid() && forall i :: 0 <= i < |ns| ==> NodeFits(dict, ns[i]) && NodeIsSound(ns[i])
    ensures NodesFit(dict, ns) && NodesAreSound(ns)
  {
    hide NodeFits, NodeIsSound;
    if ns != [] {
      forall i | 0 <= i < |ns[1..]| ensures ns[1..][i] == ns[i + 1] {
      }
      NodesEncodable(dict, ns[1..]);
    }
  }

  lemma {:induction false} ValueStaysEncodable(dict: Dictionary, v: Value, w: Value)
    requires dict.Valid() && SameValue(v, w) && ValueIsGo(v) && ValueIsGo(w) && ValueFits(dict, v) && ValueIsSound(v)
    ensures ValueFits(dict, w) && ValueIsSound(w)
    decreases v
  {
    if v.Nodes? && w.Nodes? {
      forall i | 0 <= i < |w.nodes| ensures NodeFits(dict, w.nodes[i]) && NodeIsSound(w.nodes[i]) {
        NodeAtEncodable(dict, v.nodes, i);
        NormalNodesAt(dict, v.nodes, i);
        NormalNodesAt(dict, w.nodes, i);
        NodeStaysEncodable(dict, v.nodes[i], w.nodes[i]);
      }
      NodesEncodable(dict, w.nodes);
    }
  }

  lemma {:induction false} AttrsStayEncodable(dict: Dictionary, a: seq<Attr>, b: seq<Attr>)
    requires dict.Valid() && SameAttrs(a, b) && AttrsAreGo(a) && AttrsAreGo(b) && AttrsFit(dict, a) && AttrsAreSound(a)
    ensures AttrsFit(dict, b) && AttrsAreSound(b)
    decreases a, 1
  {
    hide AttrsAreGo, AttrsFit, AttrsAreSound, SameValue, ValueFits, ValueIsSound, StringFits, Written;
    forall j | 0 <= j < |b|
      ensures Written(b[j].val) ==> StringFits(dict, b[j].key) && ValueFits(dict, b[j].val)
      ensures ValueIsSound(b[j].val)
    {
      assert IsCounterpart(a, b, j);
      var i :| 0 <= i < |a| && b[j].key == a[i].key && SameValue(a[i].val, b[j].val);
      AttrEncodable(dict, a, i);
      AttrIsGo(a, i);
      AttrIsGo(b, j);
      SameIsWritten(a[i].val, b[j].val);
      if Written(a[i].val) {
        ValueStaysEncodable(dict, a[i].val, b[j].val);
      } else {
        UnwrittenIsSound(b[j].val);
      }
    }
    EachMakesAll(dict, b);
  }

  lemma UnwrittenIsSound(v: Value)
    requires !Written(v)
    ensures ValueIsSound(v)
  {
  }

  lemma {:induction false} NodeStaysEncodable(dict: Dictionary, n: Node, m: Node)
    requires dict.Valid() && SameNode(n, m) && NodeIsGo(n) && NodeIsGo(m) && NodeFits(dict, n) && NodeIsSound(n)
    ensures NodeFits(dict, m) && NodeIsSound(m)
    decreases n
  {
    SameCount(n.attrs, m.attrs);
    AttrsStayEncodable(dict, n.attrs, m.attrs);
    ValueStaysEncodable(dict, n.content, m.content);
    assert n.content == Nil <==> m.content == Nil;
    hide SameAttrs, DistinctKeys;
  }

  /** So the iteration orders do not matter to whether a tree can be encoded and is sound. */
  lemma SameNodeEncodable(dict: Dictionary, n: Node, m: Node)
    requires dict.Valid() && SameNode(n, m) && NodeIsGo(n) && NodeIsGo(m)
    ensures NodeFits(dict, n) && NodeIsSound(n) <==> NodeFits(dict, m) && NodeIsSound(m)
  {
    hide SameNode, NodeIsGo, NodeFits, NodeIsSound;
    SameNodeSymmetric(n, m);
    if NodeFits(dict, n) && NodeIsSound(n) {
      NodeStaysEncodable(dict, n, m);
    }
    if NodeFits(dict, m) && NodeIsSound(m) {
      NodeStaysEncodable(dict, m, n);
    }
  }

  /**
   However the runtime iterates over the attribute maps of a sound tree, at any level, what is decoded from the encoding
   is the same tree of maps.
   */
  lemma IterationOrderDoesNotMatter(dict: Dictionary, n: Node, m: Node, rest: Bytes)
    requires dict.Valid() && SameNode(n, m)
    requires NodeFits(dict, n) && NodeIsSound(n) && NodeIsGo(n) && NodeIsGo(m)
    ensures var r, s := ReadNode(dict, NodeBytes(dict, n) + rest), ReadNode(dict, NodeBytes(dict, m) + rest);
      r.Done? && s.Done? && SameNode(r.value, s.value) && r.rest == s.rest == rest
  {
    hide ReadNode, NodeBytes, NormalNode, SameNode, NodeFits, NodeIsGo, NodeIsSound;
    SameNodeEncodable(dict, n, m);
    ReadNodeBytes(dict, n, rest);
    ReadNodeBytes(dict, m, rest);
    SameNormalNode(dict, n, m);
  }
}

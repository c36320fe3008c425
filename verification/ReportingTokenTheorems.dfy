/** What the extraction keeps of well-formed wire data: a field tree, read independently of the loop. */
module ReportingTokenTheorems {
  import opened Basics
  import opened Varints
  import opened ReportingToken

  // ---- Well-formed data, by the rules of the Protocol Buffers encoding ("Message Structure")

  datatype Item = Item(tag: nat, start: nat, end: nat)

  /** The first field of the data: its tag, and where its value and the field itself end. */
  function ItemOf(b: Bytes): (r: Option<Item>)
    ensures r.Some? ==> 0 < r.value.start <= r.value.end <= |b|
  {
    match Uvarint(b)
    case Got(tag, head) =>
      var rest := b[head..];
      if tag % 8 == WIRE_VARINT then
        match Uvarint(rest)
        case Got(_, n) => Some(Item(tag, head, head + n))
        case _ => None
      else if tag % 8 == WIRE_64BIT then if |rest| >= 8 then Some(Item(tag, head, head + 8)) else None
      else if tag % 8 == WIRE_BYTES then
        match Uvarint(rest)
        case Got(l, n) => if |rest| >= n + l then Some(Item(tag, head + n, head + n + l)) else None
        case _ => None
      else if tag % 8 == WIRE_32BIT then if |rest| >= 4 then Some(Item(tag, head, head + 4)) else None
      else None
    case _ => None
  }

  predicate Selected(config: seq<ReportingField>, tag: nat) {
    ConfigFor(config, tag / 8).Some?
  }

  /** The configuration of a field that is filtered as a message of its own. */
  function SubConfig(config: seq<ReportingField>, tag: nat): Option<seq<ReportingField>> {
    match ConfigFor(config, tag / 8)
    case Some(cfg) => if tag % 8 == WIRE_BYTES && TreatedAsMessage(cfg) then Some(cfg.subfields) else None
    case None => None
  }

  /** Fields from end to end, also inside the values that are read as messages. */
  predicate WellFormed(b: Bytes, config: seq<ReportingField>)
    decreases |b|
  {
    b == [] ||
    match ItemOf(b)
    case None => false
    case Some(it) =>
      && (SubConfig(config, it.tag).Some? ==> WellFormed(b[it.start..it.end], SubConfig(config, it.tag).value))
      && WellFormed(b[it.end..], config)
  }

  // ---- The fields that are kept

  datatype Tree = Kept(tag: nat, text: Bytes) | Sub(tag: nat, children: seq<Tree>)

  /** The selected fields in the order of the data; a message that keeps nothing is dropped. */
  function Select(b: Bytes, config: seq<ReportingField>): seq<Tree>
    requires WellFormed(b, config)
    decreases |b|
  {
    if b == [] then []
    else
      var it := ItemOf(b).value;
      var rest := Select(b[it.end..], config);
      if !Selected(config, it.tag) then rest
      else match SubConfig(config, it.tag)
        case None => [Kept(it.tag, b[..it.end])] + rest
        case Some(sub) =>
          var children := Select(b[it.start..it.end], sub);
          if children == [] then rest else [Sub(it.tag, children)] + rest
  }

  function TreeBytes(t: Tree): Bytes
    decreases t
  {
    match t
    case Kept(_, text) => text
    case Sub(tag, children) => SubField(tag, TreesBytes(children))
  }

  function TreesBytes(ts: seq<Tree>): Bytes
    decreases ts
  {
    if ts == [] then [] else TreeBytes(ts[0]) + TreesBytes(ts[1..])
  }

  function FieldsOf(ts: seq<Tree>): (r: seq<Field>)
    ensures |r| == |ts|
  {
    seq(|ts|, i requires 0 <= i < |ts| => Field(ts[i].tag / 8, TreeBytes(ts[i])))
  }

  function SortTrees(order: Order, ts: seq<Tree>): (r: seq<Tree>)
    requires Sorts(order)
    ensures |r| == |ts|
  {
    hide Sorts, Nums, FieldsOf;
    OrderFits(order, Nums(FieldsOf(ts)));
    Permute(ts, order(Nums(FieldsOf(ts))))
  }

  /** Every level sorted by field number, innermost first. */
  function Arrange(order: Order, ts: seq<Tree>): (r: seq<Tree>)
    requires Sorts(order)
    ensures |r| == |ts|
    decreases ts, 1
  {
    SortTrees(order, ArrangeEach(order, ts))
  }

  function ArrangeEach(order: Order, ts: seq<Tree>): (r: seq<Tree>)
    requires Sorts(order)
    ensures |r| == |ts|
    decreases ts, 0
  {
    if ts == [] then [] else [ArrangeOne(order, ts[0])] + ArrangeEach(order, ts[1..])
  }

  function ArrangeOne(order: Order, t: Tree): (r: Tree)
    requires Sorts(order)
    ensures r.tag == t.tag
    decreases t, 0
  {
    match t
    case Kept(_, _) => t
    case Sub(tag, children) => Sub(tag, Arrange(order, children))
  }

  // ---- The loop computes exactly that tree

  lemma ItemExtent(b: Bytes, at: nat)
    requires ItemOf(b).Some? && at + |b| < INT_LIMIT
    ensures Uvarint(b).Got? && ItemOf(b).value.tag == Uvarint(b).value
    ensures ExtentOf(b, at, Uvarint(b).value, Uvarint(b).size) == Ends(ItemOf(b).value.start, ItemOf(b).value.end)
  {
    hide UvarintFrom;
  }

  lemma {:induction false} ConcatFields(ts: seq<Tree>)
    ensures Concat(FieldsOf(ts)) == TreesBytes(ts)
  {
    if ts != [] {
      assert FieldsOf(ts)[1..] == FieldsOf(ts[1..]);
      ConcatFields(ts[1..]);
    }
  }

  lemma PermutedFields(ts: seq<Tree>, p: seq<nat>)
    requires forall i :: 0 <= i < |p| ==> p[i] < |ts|
    ensures Permute(FieldsOf(ts), p) == FieldsOf(Permute(ts, p))
  {
    hide TreeBytes;
  }

  lemma SortedFields(order: Order, ts: seq<Tree>)
    requires Sorts(order)
    ensures SortFields(order, FieldsOf(ts)) == FieldsOf(SortTrees(order, ts))
  {
    var p := order(Nums(FieldsOf(ts)));
    assert IsPermutation(p, |ts|);
    hide FieldsOf, Sorts, Nums, IsPermutation, Permute;
    PermutedFields(ts, p);
  }

  /** The tree fits the configuration, and each kept field is one whole field. */
  predicate Conforms(t: Tree, config: seq<ReportingField>)
    decreases t
  {
    match t
    case Kept(tag, text) =>
      Selected(config, tag) && SubConfig(config, tag) == None
      && ItemOf(text).Some? && ItemOf(text).value.tag == tag && ItemOf(text).value.end == |text|
    case Sub(tag, children) =>
      tag < Limit(0) && SubConfig(config, tag).Some? && children != []
      && forall c :: c in children ==> Conforms(c, SubConfig(config, tag).value)
  }

  predicate AllConform(ts: seq<Tree>, config: seq<ReportingField>) {
    forall t :: t in ts ==> Conforms(t, config)
  }

  lemma ConformingBytes(t: Tree, config: seq<ReportingField>)
    requires Conforms(t, config)
    ensures TreeBytes(t) != []
  {
  }

  /** A field reads the same whatever follows it, and on its own. */
  lemma ItemAppend(b: Bytes, rest: Bytes)
    requires ItemOf(b).Some?
    ensures ItemOf(b + rest) == ItemOf(b)
  {
    hide UvarintFrom;
    var head := Uvarint(b).size;
    UvarintAppend(b, 0, rest);
    assert (b + rest)[head..] == b[head..] + rest;
    if Uvarint(b[head..]).Got? {
      UvarintAppend(b[head..], 0, rest);
    }
  }

  lemma ItemAlone(b: Bytes)
    requires ItemOf(b).Some?
    ensures ItemOf(b[..ItemOf(b).value.end]) == ItemOf(b)
  {
    hide UvarintFrom;
    var head, n := Uvarint(b).size, ItemOf(b).value.end;
    var text := b[..n];
    VarintWithin(b, n);
    assert text[head..] == b[head..n];
    if Uvarint(b[head..]).Got? {
      assert b[head..][..n - head] == b[head..n];
      if Uvarint(b[head..]).size <= n - head {
        VarintWithin(b[head..], n - head);
      }
    }
  }

  lemma VarintWithin(b: Bytes, n: nat)
    requires Uvarint(b).Got? && Uvarint(b).size <= n <= |b|
    ensures Uvarint(b[..n]) == Uvarint(b)
  {
    var k := Uvarint(b).size;
    UvarintPrefix(b, 0);
    UvarintAppend(b[..k], 0, b[k..n]);
    assert b[..k] + b[k..n] == b[..n];
  }

  lemma {:induction false} SelectConforms(b: Bytes, config: seq<ReportingField>)
    requires WellFormed(b, config)
    ensures AllConform(Select(b, config), config)
    decreases |b|
  {
    hide ItemOf, ConfigFor;
    if b != [] {
      var it := ItemOf(b).value;
      SelectConforms(b[it.end..], config);
      if Selected(config, it.tag) {
        match SubConfig(config, it.tag)
        case None =>
          ItemAlone(b);
        case Some(sub) =>
          SelectConforms(b[it.start..it.end], sub);
          TagFits(b);
      }
    }
  }

  lemma TagFits(b: Bytes)
    requires ItemOf(b).Some?
    ensures ItemOf(b).value.tag < Limit(0)
  {
  }

  lemma {:induction false} ArrangeConforms(order: Order, ts: seq<Tree>, config: seq<ReportingField>)
    requires Sorts(order) && AllConform(ts, config)
    ensures AllConform(ArrangeEach(order, ts), config) && AllConform(Arrange(order, ts), config)
    decreases ts, 1
  {
    hide Sorts, SortTrees, Conforms;
    if ts != [] {
      ArrangeOneConforms(order, ts[0], config);
      ArrangeConforms(order, ts[1..], config);
    }
    SortKeeps(order, ArrangeEach(order, ts));
  }

  lemma {:induction false} ArrangeOneConforms(order: Order, t: Tree, config: seq<ReportingField>)
    requires Sorts(order) && Conforms(t, config)
    ensures Conforms(ArrangeOne(order, t), config)
    decreases t, 0
  {
    hide Sorts, ConfigFor, Arrange;
    if t.Sub? {
      ArrangeConforms(order, t.children, SubConfig(config, t.tag).value);
    }
  }

  lemma SortKeeps(order: Order, ts: seq<Tree>)
    requires Sorts(order)
    ensures forall t :: t in SortTrees(order, ts) ==> t in ts
  {
  }

  lemma ArrangedEmpty(order: Order, ts: seq<Tree>, config: seq<ReportingField>)
    requires Sorts(order) && AllConform(ts, config)
    ensures TreesBytes(Arrange(order, ts)) == [] <==> ts == []
  {
    hide Sorts, Arrange, Conforms, ArrangeEach, SubField;
    ArrangeConforms(order, ts, config);
    var r := Arrange(order, ts);
    if ts != [] {
      assert r[0] in r;
      ConformingBytes(r[0], config);
    }
  }

  /** The field of the first tree, ahead of those of the others. */
  lemma FirstField(order: Order, t: Tree, rest: seq<Tree>, acc: seq<Field>)
    requires Sorts(order)
    ensures acc + [Field(t.tag / 8, TreeBytes(ArrangeOne(order, t)))] + FieldsOf(ArrangeEach(order, rest))
         == acc + FieldsOf(ArrangeEach(order, [t] + rest))
    ensures match t
      case Kept(_, text) => TreeBytes(ArrangeOne(order, t)) == text
      case Sub(tag, children) => TreeBytes(ArrangeOne(order, t)) == SubField(tag, TreesBytes(Arrange(order, children)))
  {
    hide Sorts, Arrange, TreesBytes, SubField, FieldsOf;
    ArrangeCons(order, t, rest);
    ArrangeCons(order, ArrangeOne(order, t), []);
    FieldsCons(ArrangeOne(order, t), ArrangeEach(order, rest), acc);
  }

  lemma NoField(order: Order, at: nat, config: seq<ReportingField>, acc: seq<Field>)
    requires Sorts(order)
    ensures Scan(order, [], at, config, acc) == Fields(acc + FieldsOf(ArrangeEach(order, [])))
  {
  }

  /** One turn of the loop, on a field that is all there. */
  lemma ScanTurn(order: Order, b: Bytes, at: nat, config: seq<ReportingField>, acc: seq<Field>)
    requires Sorts(order) && b != [] && ItemOf(b).Some? && at + |b| < INT_LIMIT
    ensures var it := ItemOf(b).value;
      var rest := b[it.end..];
      Scan(order, b, at, config, acc) ==
        if !Selected(config, it.tag) then Scan(order, rest, at + it.end, config, acc)
        else match SubConfig(config, it.tag)
          case None => Scan(order, rest, at + it.end, config, acc + [Field(it.tag / 8, b[..it.end])])
          case Some(sub) =>
            match Extract(order, b[it.start..it.end], sub)
            case Broken(why) => why
            case Extracted(out) =>
              Scan(order, rest, at + it.end, config, if out == [] then acc else acc + [Field(it.tag / 8, SubField(it.tag, out))])
  {
    hide Sorts, UvarintFrom, ItemOf, ExtentOf, Extract, SubField, ConfigFor, TreatedAsMessage;
    ItemExtent(b, at);
  }

  /** The loop collects the fields of the selected trees, in the order of the data. */
  lemma {:induction false} ScanCollects(order: Order, b: Bytes, at: nat, config: seq<ReportingField>, acc: seq<Field>)
    requires Sorts(order) && WellFormed(b, config) && at + |b| < INT_LIMIT
    ensures Scan(order, b, at, config, acc) == Fields(acc + FieldsOf(ArrangeEach(order, Select(b, config))))
    decreases |b|, 0
  {
    hide Sorts, Scan, ItemOf, TreeBytes, Arrange, Extract, FieldsOf, ArrangeEach, ArrangeOne, TreesBytes, SubField;
    if b == [] {
      NoField(order, at, config, acc);
    } else {
      ScanTurn(order, b, at, config, acc);
      var it := ItemOf(b).value;
      var rest := Select(b[it.end..], config);
      if !Selected(config, it.tag) {
        ScanCollects(order, b[it.end..], at + it.end, config, acc);
      } else if SubConfig(config, it.tag).Some? {
        var sub := SubConfig(config, it.tag).value;
        var children := Select(b[it.start..it.end], sub);
        ExtractIs(order, b[it.start..it.end], sub);
        SelectConforms(b[it.start..it.end], sub);
        ArrangedEmpty(order, children, sub);
        if children == [] {
          ScanCollects(order, b[it.end..], at + it.end, config, acc);
        } else {
          var t := Sub(it.tag, children);
          FirstField(order, t, rest, acc);
          ScanCollects(order, b[it.end..], at + it.end, config, acc + [Field(it.tag / 8, TreeBytes(ArrangeOne(order, t)))]);
        }
      } else {
        var t := Kept(it.tag, b[..it.end]);
        FirstField(order, t, rest, acc);
        ScanCollects(order, b[it.end..], at + it.end, config, acc + [Field(it.tag / 8, TreeBytes(ArrangeOne(order, t)))]);
      }
    }
  }

  lemma ArrangeCons(order: Order, t: Tree, rest: seq<Tree>)
    requires Sorts(order)
    ensures ArrangeEach(order, [t] + rest) == [ArrangeOne(order, t)] + ArrangeEach(order, rest)
    ensures match t
      case Kept(_, text) => ArrangeOne(order, t) == t && TreeBytes(t) == text
      case Sub(tag, children) =>
        ArrangeOne(order, t) == Sub(tag, Arrange(order, children)) && TreeBytes(t) == SubField(tag, TreesBytes(children))
  {
    hide Sorts, Arrange;
    assert ([t] + rest)[1..] == rest;
  }

  lemma FieldsCons(t: Tree, ts: seq<Tree>, acc: seq<Field>)
    ensures acc + [Field(t.tag / 8, TreeBytes(t))] + FieldsOf(ts) == acc + FieldsOf([t] + ts)
  {
    hide TreeBytes;
  }

  /** On well-formed data the extraction yields exactly the bytes of the selected tree, sorted at every level. */
  lemma {:induction false} ExtractIs(order: Order, data: Bytes, config: seq<ReportingField>)
    requires Sorts(order) && WellFormed(data, config) && |data| < INT_LIMIT
    ensures Extract(order, data, config) == Extracted(TreesBytes(Arrange(order, Select(data, config))))
    decreases |data|, 1
  {
    hide Sorts, TreeBytes, FieldsOf, SortFields, SortTrees, Scan, ArrangeEach, Concat;
    ScanCollects(order, data, 0, config, []);
    var each := ArrangeEach(order, Select(data, config));
    assert [] + FieldsOf(each) == FieldsOf(each);
    SortedFields(order, each);
    ConcatFields(SortTrees(order, each));
  }

  // ---- Printing a tree and reading it again

  /** A length-delimited field whose tag and length are known. */
  lemma BytesItem(b: Bytes, tag: nat, head: nat, length: nat, n: nat)
    requires Uvarint(b) == Got(tag, head) && tag % 8 == WIRE_BYTES && Uvarint(b[head..]) == Got(length, n)
    requires head + n + length <= |b|
    ensures ItemOf(b) == Some(Item(tag, head + n, head + n + length))
  {
    hide UvarintFrom;
  }

  /** Its two numbers read back. */
  lemma SubVarints(tag: nat, length: nat, tail: Bytes)
    requires tag < Limit(0) && length < Limit(0)
    ensures var head, middle := PutUvarint(tag), PutUvarint(length);
      && Uvarint(head + (middle + tail)) == Got(tag, |head|) && Uvarint(middle + tail) == Got(length, |middle|)
  {
    hide PutUvarint, UvarintFrom, Limit;
    PutThenGet(tag, 0, PutUvarint(length) + tail);
    PutThenGet(length, 0, tail);
  }

  lemma SubItem(tag: nat, sub: Bytes, rest: Bytes)
    requires tag < Limit(0) && tag % 8 == WIRE_BYTES && |sub| < INT_LIMIT
    ensures var b := SubField(tag, sub) + rest;
      var start := |PutUvarint(tag)| + |PutUvarint(|sub|)|;
      && ItemOf(b) == Some(Item(tag, start, start + |sub|))
      && b[start..start + |sub|] == sub && b[start + |sub|..] == rest && b != []
  {
    LimitZero();
    hide PutUvarint, Limit, ItemOf, Uvarint;
    var head, length := PutUvarint(tag), PutUvarint(|sub|);
    var b := SubField(tag, sub) + rest;
    SubGrouped(head, length, sub, rest);
    SubVarints(tag, |sub|, sub + rest);
    BytesItem(b, tag, |head|, |sub|, |length|);
  }

  lemma SubFieldHolds(tag: nat, sub: Bytes)
    ensures |sub| < |SubField(tag, sub)|
  {
  }

  lemma SubGrouped(head: Bytes, length: Bytes, sub: Bytes, rest: Bytes)
    ensures var b := head + (length + sub) + rest;
      var start := |head| + |length|;
      && b == head + (length + (sub + rest)) && b[|head|..] == length + (sub + rest)
      && b[start..start + |sub|] == sub && b[start + |sub|..] == rest
  {
    AppendAssoc(head, length + sub, rest);
    AppendAssoc(length, sub, rest);
  }

  /** The bytes of a tree that fits the configuration are well formed, and hold that tree and nothing else. */
  lemma {:induction false} SelectOfBytes(ts: seq<Tree>, config: seq<ReportingField>)
    requires AllConform(ts, config) && |TreesBytes(ts)| < INT_LIMIT
    ensures WellFormed(TreesBytes(ts), config) && Select(TreesBytes(ts), config) == ts
    decreases ts
  {
    hide ConfigFor, ItemOf, PutUvarint, Limit, SubField;
    if ts != [] {
      var t, rest := ts[0], TreesBytes(ts[1..]);
      var b := TreesBytes(ts);
      assert t in ts && forall u :: u in ts[1..] ==> u in ts;
      SelectOfBytes(ts[1..], config);
      assert ts == [t] + ts[1..];
      match t
      case Kept(tag, text) =>
        ItemAppend(text, rest);
        DropAppend(text, rest);
      case Sub(tag, children) =>
        var sub := TreesBytes(children);
        SubFieldHolds(tag, sub);
        SubItem(tag, sub, rest);
        SelectOfBytes(children, SubConfig(config, tag).value);
    }
  }

  // ---- Sizes and permutations

  predicate Fits(p: seq<nat>, n: nat) {
    forall i :: 0 <= i < |p| ==> p[i] < n
  }

  /** Taking out one index takes out one element. */
  lemma PermuteWithout<T>(xs: seq<T>, p: seq<nat>, i: nat)
    requires i < |p| && Fits(p, |xs|)
    ensures Fits(p[..i] + p[i + 1..], |xs|)
    ensures multiset(Permute(xs, p)) == multiset(Permute(xs, p[..i] + p[i + 1..])) + multiset{xs[p[i]]}
  {
    var before, after := Permute(xs, p[..i]), Permute(xs, p[i + 1..]);
    assert Permute(xs, p) == before + ([xs[p[i]]] + after);
    assert Permute(xs, p[..i] + p[i + 1..]) == before + after;
    hide Permute;
  }

  lemma {:induction false} PermuteMultiset<T>(xs: seq<T>, p: seq<nat>, q: seq<nat>)
    requires Fits(p, |xs|) && Fits(q, |xs|) && multiset(p) == multiset(q)
    ensures multiset(Permute(xs, p)) == multiset(Permute(xs, q))
    decreases |p|
  {
    SameElements(p, q);
    if p != [] {
      hide Permute, Fits;
      assert p[0] in q;
      var i :| 0 <= i < |q| && q[i] == p[0];
      MultisetTail(p, q, i);
      PermuteWithout(xs, p, 0);
      PermuteWithout(xs, q, i);
      assert p[..0] + p[1..] == p[1..];
      PermuteMultiset(xs, p[1..], q[..i] + q[i + 1..]);
    }
  }

  lemma PermutedNums(ts: seq<Tree>, p: seq<nat>)
    requires forall i :: 0 <= i < |p| ==> p[i] < |ts|
    ensures Nums(FieldsOf(Permute(ts, p))) == Permute(Nums(FieldsOf(ts)), p)
  {
    hide TreeBytes;
  }

  lemma PermuteIndices<T>(xs: seq<T>, p: seq<nat>)
    requires IsPermutation(p, |xs|)
    ensures multiset(Permute(xs, p)) == multiset(xs)
  {
    assert Permute(xs, Indices(|xs|)) == xs;
    PermuteMultiset(xs, p, Indices(|xs|));
  }

  /** Sorting loses and adds nothing. */
  lemma SortPermutes(order: Order, ts: seq<Tree>)
    requires Sorts(order)
    ensures multiset(SortTrees(order, ts)) == multiset(ts)
    ensures Ascending(Nums(FieldsOf(SortTrees(order, ts))))
  {
    var keys := Nums(FieldsOf(ts));
    var p := order(keys);
    assert IsPermutation(p, |ts|) && Ascending(Permute(keys, p));
    hide Sorts, FieldsOf, Nums, IsPermutation, Permute, Ascending;
    PermuteIndices(ts, p);
    PermutedNums(ts, p);
  }

  lemma {:induction false} TreesBytesAppend(a: seq<Tree>, b: seq<Tree>)
    ensures |TreesBytes(a + b)| == |TreesBytes(a)| + |TreesBytes(b)|
    decreases a
  {
    hide TreeBytes;
    if a == [] {
      assert a + b == b;
    } else {
      assert (a + b)[1..] == a[1..] + b;
      TreesBytesAppend(a[1..], b);
    }
  }

  lemma {:induction false} SizeIgnoresOrder(a: seq<Tree>, b: seq<Tree>)
    requires multiset(a) == multiset(b)
    ensures |TreesBytes(a)| == |TreesBytes(b)|
    decreases |a|
  {
    hide TreesBytes;
    if a == [] {
      assert |multiset(b)| == 0;
    } else {
      assert a[0] in multiset(b);
      var i :| 0 <= i < |b| && b[i] == a[0];
      assert a == [a[0]] + a[1..] && b == b[..i] + ([a[0]] + b[i + 1..]);
      MultisetTail(a, b, i);
      SizeIgnoresOrder(a[1..], b[..i] + b[i + 1..]);
      TreesBytesAppend([a[0]], a[1..]);
      TreesBytesAppend(b[..i], b[i + 1..]);
      TreesBytesAppend([a[0]], b[i + 1..]);
      TreesBytesAppend(b[..i], [a[0]] + b[i + 1..]);
    }
  }

  lemma {:induction false} ArrangeSize(order: Order, ts: seq<Tree>)
    requires Sorts(order)
    ensures |TreesBytes(ArrangeEach(order, ts))| == |TreesBytes(ts)| == |TreesBytes(Arrange(order, ts))|
    decreases ts
  {
    hide Sorts, SortTrees, SubField;
    if ts != [] {
      ArrangeSize(order, ts[1..]);
      assert ts == [ts[0]] + ts[1..];
      ArrangeCons(order, ts[0], ts[1..]);
      ArrangeCons(order, ArrangeOne(order, ts[0]), []);
      if ts[0].Sub? {
        ArrangeSize(order, ts[0].children);
        SubFieldSize(ts[0].tag, TreesBytes(ts[0].children), TreesBytes(Arrange(order, ts[0].children)));
      }
    }
    SortPermutes(order, ArrangeEach(order, ts));
    SizeIgnoresOrder(SortTrees(order, ArrangeEach(order, ts)), ArrangeEach(order, ts));
  }

  lemma SubFieldSize(tag: nat, a: Bytes, b: Bytes)
    requires |a| == |b|
    ensures |SubField(tag, a)| == |SubField(tag, b)|
  {
  }

  /** Re-encoding a filtered message never takes more room than the message it came from. */
  lemma {:induction false} SelectShrinks(b: Bytes, config: seq<ReportingField>)
    requires WellFormed(b, config)
    ensures |TreesBytes(Select(b, config))| <= |b|
    decreases |b|
  {
    hide ConfigFor, ItemOf, SubField;
    if b != [] {
      var it := ItemOf(b).value;
      var rest := Select(b[it.end..], config);
      SelectShrinks(b[it.end..], config);
      if Selected(config, it.tag) {
        match SubConfig(config, it.tag)
        case None =>
          assert Select(b, config) == [Kept(it.tag, b[..it.end])] + rest;
          TreesBytesAppend([Kept(it.tag, b[..it.end])], rest);
        case Some(sub) =>
          var children := Select(b[it.start..it.end], sub);
          SelectShrinks(b[it.start..it.end], sub);
          TreesBytesAppend([Sub(it.tag, children)], rest);
          SubFieldShrinks(b, TreesBytes(children));
      }
    }
  }

  lemma SubFieldShrinks(b: Bytes, sub: Bytes)
    requires ItemOf(b).Some? && ItemOf(b).value.tag % 8 == WIRE_BYTES
    requires |sub| <= ItemOf(b).value.end - ItemOf(b).value.start
    ensures |SubField(ItemOf(b).value.tag, sub)| <= ItemOf(b).value.end
  {
    PutIsShortest(b, 0);
    var rest := b[Uvarint(b).size..];
    PutIsShortest(rest, 0);
    PutMonotone(|sub|, Uvarint(rest).value);
    hide PutUvarint, UvarintFrom;
  }

  // ---- Main results

  /** Sorted by field number at every level. */
  predicate SortedTree(t: Tree)
    decreases t
  {
    t.Sub? ==> SortedTrees(t.children)
  }

  predicate SortedTrees(ts: seq<Tree>)
    decreases ts
  {
    && (forall i, j :: 0 <= i < j < |ts| ==> ts[i].tag / 8 <= ts[j].tag / 8)
    && forall t :: t in ts ==> SortedTree(t)
  }

  lemma {:induction false} ArrangeSorts(order: Order, ts: seq<Tree>)
    requires Sorts(order)
    ensures SortedTrees(Arrange(order, ts))
    decreases ts, 1
  {
    hide Sorts, SortTrees;
    var each := ArrangeEach(order, ts);
    ArrangeEachSorts(order, ts);
    SortPermutes(order, each);
    SortKeeps(order, each);
    AscendingTags(SortTrees(order, each));
  }

  lemma {:induction false} ArrangeEachSorts(order: Order, ts: seq<Tree>)
    requires Sorts(order)
    ensures forall t :: t in ArrangeEach(order, ts) ==> SortedTree(t)
    decreases ts, 0
  {
    hide Sorts, Arrange, SortedTrees;
    if ts != [] {
      if ts[0].Sub? {
        ArrangeSorts(order, ts[0].children);
      }
      ArrangeEachSorts(order, ts[1..]);
      assert SortedTree(ArrangeOne(order, ts[0]));
    }
  }

  lemma AscendingTags(ts: seq<Tree>)
    requires Ascending(Nums(FieldsOf(ts)))
    ensures forall i, j :: 0 <= i < j < |ts| ==> ts[i].tag / 8 <= ts[j].tag / 8
  {
    hide TreeBytes;
    forall i, j | 0 <= i < j < |ts| ensures ts[i].tag / 8 <= ts[j].tag / 8 {
      assert Nums(FieldsOf(ts))[i] <= Nums(FieldsOf(ts))[j];
    }
  }

  /**
   On well-formed data the extraction ends without error; its output is no longer than the data, is well formed, sorted
   at every level, and holds the selected fields of the data, and nothing else.
   */
  lemma OutputIsTheSelection(order: Order, data: Bytes, config: seq<ReportingField>)
    requires Sorts(order) && WellFormed(data, config) && |data| < INT_LIMIT
    ensures Extract(order, data, config).Extracted?
    ensures var out, kept := Extract(order, data, config).out, Arrange(order, Select(data, config));
      && |out| <= |data| && WellFormed(out, config)
      && Select(out, config) == kept && out == TreesBytes(kept) && SortedTrees(kept)
      && multiset(kept) == multiset(ArrangeEach(order, Select(data, config)))
  {
    hide Extract, WellFormed, Select, Sorts, SortedTrees, SortTrees, ArrangeEach, TreesBytes, Conforms;
    var chosen := Select(data, config);
    ExtractIs(order, data, config);
    SelectShrinks(data, config);
    SelectConforms(data, config);
    ArrangeConforms(order, chosen, config);
    ArrangeSize(order, chosen);
    SelectOfBytes(Arrange(order, chosen), config);
    ArrangeSorts(order, chosen);
    SortPermutes(order, ArrangeEach(order, chosen));
  }

  /** Sorting leaves a sorted list in place, as a stable sort does. */
  ghost predicate KeepsSorted(order: Order) {
    forall keys :: Ascending(keys) ==> order(keys) == Indices(|keys|)
  }

  lemma {:induction false} ArrangeAgain(order: Order, ts: seq<Tree>)
    requires Sorts(order) && KeepsSorted(order) && SortedTrees(ts)
    ensures Arrange(order, ts) == ts
    decreases ts
  {
    hide Sorts, KeepsSorted, SortTrees;
    ArrangeEachAgain(order, ts);
    SortAgain(order, ts);
  }

  lemma {:induction false} ArrangeEachAgain(order: Order, ts: seq<Tree>)
    requires Sorts(order) && KeepsSorted(order) && forall t :: t in ts ==> SortedTree(t)
    ensures ArrangeEach(order, ts) == ts
    decreases ts, 0
  {
    hide Sorts, KeepsSorted, Arrange, SortedTrees;
    if ts != [] {
      assert ts[0] in ts && forall t :: t in ts[1..] ==> t in ts;
      if ts[0].Sub? {
        assert SortedTrees(ts[0].children);
        ArrangeAgain(order, ts[0].children);
      }
      ArrangeEachAgain(order, ts[1..]);
    }
  }

  lemma SortedNums(ts: seq<Tree>)
    requires SortedTrees(ts)
    ensures Ascending(Nums(FieldsOf(ts)))
  {
    hide TreeBytes, SortedTree;
  }

  lemma SortAgain(order: Order, ts: seq<Tree>)
    requires Sorts(order) && KeepsSorted(order) && SortedTrees(ts)
    ensures SortTrees(order, ts) == ts
  {
    var keys := Nums(FieldsOf(ts));
    SortedNums(ts);
    assert order(keys) == Indices(|keys|);
    hide Sorts, KeepsSorted, FieldsOf, Nums, SortedTrees, Ascending;
    assert Permute(ts, Indices(|ts|)) == ts;
  }

  /**
   Extracting from the output again finds the same fields, and with a sort that keeps sorted lists it gives the output
   back byte for byte.
   */
  lemma ExtractingAgain(order: Order, data: Bytes, config: seq<ReportingField>)
    requires Sorts(order) && WellFormed(data, config) && |data| < INT_LIMIT
    ensures Extract(order, data, config).Extracted?
    ensures var out, kept := Extract(order, data, config).out, Arrange(order, Select(data, config));
      && Extract(order, out, config) == Extracted(TreesBytes(Arrange(order, kept)))
      && (KeepsSorted(order) ==> Extract(order, out, config) == Extracted(out))
  {
    hide Extract, WellFormed, Select, Sorts, KeepsSorted, SortedTrees, Arrange, ArrangeEach, TreesBytes;
    OutputIsTheSelection(order, data, config);
    var out, kept := Extract(order, data, config).out, Arrange(order, Select(data, config));
    ExtractIs(order, out, config);
    if KeepsSorted(order) {
      ArrangeAgain(order, kept);
    }
  }

  // ---- A consequence for the embedded configuration

  lemma {:induction false} NothingSelected(b: Bytes)
    requires WellFormed(b, [])
    ensures Select(b, []) == []
    decreases |b|
  {
    hide ItemOf;
    if b != [] {
      NothingSelected(b[ItemOf(b).value.end..]);
    }
  }

  /** A field configured as a message without subfields ("m" alone) is never part of a token when it is a message. */
  lemma {:induction false} BareMessagesAreDropped(data: Bytes, config: seq<ReportingField>, t: Tree)
    requires WellFormed(data, config) && t in Select(data, config)
    ensures ConfigFor(config, t.tag / 8).Some?
    ensures t.tag % 8 == WIRE_BYTES && ConfigFor(config, t.tag / 8).value.subfields == []
      ==> !ConfigFor(config, t.tag / 8).value.isMessage
    decreases |data|
  {
    hide ItemOf, ConfigFor;
    var it := ItemOf(data).value;
    if t in Select(data[it.end..], config) {
      BareMessagesAreDropped(data[it.end..], config, t);
    } else if SubConfig(config, it.tag) == Some([]) {
      NothingSelected(data[it.start..it.end]);
    }
  }

  /** A tag is a 64-bit number whose low three bits are the wire type. */
  const FIELD_LIMIT := 0x2000_0000_0000_0000

  /** Some entry has a number that a tag can carry. */
  predicate HasField(config: seq<ReportingField>) {
    exists i :: 0 <= i < |config| && 0 <= config[i].number < FIELD_LIMIT
  }

  /** Whether any message can make a length-delimited field with this entry part of a token. */
  predicate Selectable(cfg: ReportingField) {
    TreatedAsMessage(cfg) ==> HasField(cfg.subfields)
  }

  lemma {:induction false} ConfigIsListed(config: seq<ReportingField>, number: int)
    requires ConfigFor(config, number).Some?
    ensures exists i :: 0 <= i < |config| && config[i].number == number
  {
    if config[0].number != number {
      ConfigIsListed(config[1..], number);
      var i :| 0 <= i < |config[1..]| && config[1..][i].number == number;
      assert config[i + 1].number == number;
    }
  }

  lemma {:induction false} ListedIsFound(config: seq<ReportingField>, i: nat)
    requires i < |config|
    ensures ConfigFor(config, config[i].number).Some?
  {
    if i > 0 {
      ListedIsFound(config[1..], i - 1);
    }
  }

  lemma ConformingTag(t: Tree, config: seq<ReportingField>)
    requires Conforms(t, config)
    ensures t.tag < 8 * FIELD_LIMIT
  {
    LimitZero();
    if t.Kept? {
      TagFits(t.text);
    }
  }

  /** A field in a selection is selectable. */
  lemma SelectedIsSelectable(data: Bytes, config: seq<ReportingField>, t: Tree)
    requires WellFormed(data, config) && t in Select(data, config) && t.tag % 8 == WIRE_BYTES
    ensures ConfigFor(config, t.tag / 8).Some? && Selectable(ConfigFor(config, t.tag / 8).value)
  {
    hide Select, WellFormed, ConfigFor, ItemOf;
    SelectConforms(data, config);
    assert Conforms(t, config);
    if t.Sub? {
      var sub := SubConfig(config, t.tag).value;
      var c := t.children[0];
      assert Conforms(c, sub);
      ConformingTag(c, sub);
      ConfigIsListed(sub, c.tag / 8);
    }
  }

  /** A one-byte number under a selectable tag. */
  lemma ScalarTree(number: nat, config: seq<ReportingField>) returns (t: Tree)
    requires number < FIELD_LIMIT && ConfigFor(config, number).Some?
    ensures Conforms(t, config) && t.tag == 8 * number && |TreeBytes(t)| <= 11
  {
    var tag, head := 8 * number, PutUvarint(8 * number);
    var text := head + [0];
    LimitZero();
    PutThenGet(tag, 0, [0]);
    PutLength(tag);
    assert text[|head|..] == [0];
    t := Kept(tag, text);
    hide PutUvarint, UvarintFrom;
    assert Uvarint([0]) == Got(0, 1);
  }

  lemma PutLength(x: nat)
    requires x < Limit(0)
    ensures |PutUvarint(x)| <= 10
  {
    PutThenGet(x, 0, []);
    assert PutUvarint(x) + [] == PutUvarint(x);
    UvarintSize(PutUvarint(x), 0);
  }

  lemma {:induction false} UvarintSize(b: Bytes, i: nat)
    requires i <= MAX_VARINT_LENGTH && UvarintFrom(b, i).Got?
    ensures UvarintFrom(b, i).size <= MAX_VARINT_LENGTH - i
    decreases b
  {
    if b[0] >= 128 {
      UvarintSize(b[1..], i + 1);
    }
  }

  /** For every selectable entry there is a tree that a message can hold. */
  lemma SelectableTree(number: nat, config: seq<ReportingField>) returns (t: Tree)
    requires number < FIELD_LIMIT && ConfigFor(config, number).Some? && Selectable(ConfigFor(config, number).value)
    ensures Conforms(t, config) && t.tag == 8 * number + WIRE_BYTES && |TreesBytes([t])| < INT_LIMIT
  {
    var cfg, tag := ConfigFor(config, number).value, 8 * number + WIRE_BYTES;
    LimitZero();
    PutLength(tag);
    assert tag / 8 == number && tag % 8 == WIRE_BYTES;
    if TreatedAsMessage(cfg) {
      var i :| 0 <= i < |cfg.subfields| && 0 <= cfg.subfields[i].number < FIELD_LIMIT;
      ListedIsFound(cfg.subfields, i);
      var child := ScalarTree(cfg.subfields[i].number, cfg.subfields);
      t := Sub(tag, [child]);
      OneTree(child);
      SubSize(tag, TreesBytes([child]));
    } else {
      t := Kept(tag, SubField(tag, []));
      SubItem(tag, [], []);
      assert SubField(tag, []) + [] == SubField(tag, []);
      SubSize(tag, []);
    }
    OneTree(t);
  }

  lemma OneTree(t: Tree)
    ensures TreesBytes([t]) == TreeBytes(t)
  {
    assert [t][1..] == [];
  }

  lemma SubSize(tag: nat, sub: Bytes)
    requires tag < Limit(0) && |sub| < 128
    ensures |SubField(tag, sub)| <= 139
  {
    PutLength(tag);
    assert PutUvarint(|sub|) == [|sub|];
  }

  /**
   A configured field that comes length-delimited is part of some well-formed message's selection exactly when its entry
   is selectable: not treated as a message, or with a subfield to keep. When all configured subfield numbers are proper
   ones, the only entries left out are those that say "message" and list no subfields.
   */
  lemma SelectableExactly(config: seq<ReportingField>, number: nat)
    requires number < FIELD_LIMIT && ConfigFor(config, number).Some?
    ensures var cfg := ConfigFor(config, number).value;
      && ((exists data :: SelectsMessage(data, config, number)) <==> Selectable(cfg))
      && ((forall i :: 0 <= i < |cfg.subfields| ==> 0 <= cfg.subfields[i].number < FIELD_LIMIT) ==>
           (Selectable(cfg) <==> !(cfg.isMessage && cfg.subfields == [])))
  {
    var cfg, tag := ConfigFor(config, number).value, 8 * number + WIRE_BYTES;
    assert tag / 8 == number && tag % 8 == WIRE_BYTES;
    if Selectable(cfg) {
      var t := SelectableTree(number, config);
      SelectOfBytes([t], config);
      assert t in Select(TreesBytes([t]), config);
      assert SelectsMessage(TreesBytes([t]), config, number);
    }
    if data :| SelectsMessage(data, config, number) {
      var t :| t in Select(data, config) && t.tag == tag;
      SelectedIsSelectable(data, config, t);
    }
    if cfg.subfields != [] && forall i :: 0 <= i < |cfg.subfields| ==> 0 <= cfg.subfields[i].number < FIELD_LIMIT {
      assert 0 <= cfg.subfields[0].number < FIELD_LIMIT;
    }
  }

  /** The data is well formed, and a length-delimited field with the number is part of its selection. */
  ghost predicate SelectsMessage(data: Bytes, config: seq<ReportingField>, number: nat) {
    WellFormed(data, config) && exists t :: t in Select(data, config) && t.tag == 8 * number + WIRE_BYTES
  }

  /** A message that is one field which keeps nothing. */
  lemma OneEmptyField(b: Bytes, config: seq<ReportingField>)
    requires ItemOf(b).Some? && ItemOf(b).value.end == |b|
    requires SubConfig(config, ItemOf(b).value.tag).Some? || !Selected(config, ItemOf(b).value.tag)
    requires SubConfig(config, ItemOf(b).value.tag).Some? ==>
      var sub := SubConfig(config, ItemOf(b).value.tag).value;
      WellFormed(b[ItemOf(b).value.start..|b|], sub) && Select(b[ItemOf(b).value.start..|b|], sub) == []
    ensures WellFormed(b, config) && Select(b, config) == []
  {
    hide ItemOf, ConfigFor;
    assert b[|b|..] == [];
  }

  /** Field 53 as it is configured, and one that holds a sub-message in its field 1. */
  function ConfigOf53(): seq<ReportingField> {
    [ReportingField(53, false, [ReportingField(1, true, [])])]
  }

  function MessageWith53(): Bytes {
    [170, 3, 4, 10, 2, 8, 5]
  }

  /** One field around the part that its configuration filters, which keeps nothing. */
  lemma EmptyAround(b: Bytes, config: seq<ReportingField>, it: Item, inner: Bytes, sub: seq<ReportingField>)
    requires ItemOf(b) == Some(it) && it.end == |b| && b[it.start..it.end] == inner
    requires SubConfig(config, it.tag) == Some(sub) && WellFormed(inner, sub) && Select(inner, sub) == []
    ensures WellFormed(b, config) && Select(b, config) == []
  {
    hide ItemOf, SubConfig, WellFormed, Select, Selected;
    OneEmptyField(b, config);
  }

  lemma NothingOf53()
    ensures WellFormed(MessageWith53(), ConfigOf53()) && Select(MessageWith53(), ConfigOf53()) == []
  {
    hide WellFormed, Select, ItemOf;
    InnermostItem();
    InnerItem();
    OuterItem();
    var bare := [ReportingField(1, true, [])];
    assert SubConfig(bare, 10) == Some([]) && SubConfig(ConfigOf53(), 426) == Some(bare);
    OneEmptyField([8, 5], []);
    EmptyAround([10, 2, 8, 5], bare, Item(10, 2, 4), [8, 5], []);
    EmptyAround(MessageWith53(), ConfigOf53(), Item(426, 3, 7), [10, 2, 8, 5], bare);
  }

  /** Nothing of that message is part of the token. */
  lemma BareMessageExample(order: Order)
    requires Sorts(order)
    ensures WellFormed(MessageWith53(), ConfigOf53())
    ensures Extract(order, MessageWith53(), ConfigOf53()) == Extracted([])
  {
    hide WellFormed, Select, Extract, Sorts;
    NothingOf53();
    ExtractIs(order, MessageWith53(), ConfigOf53());
  }

  lemma InnermostItem()
    ensures ItemOf([8, 5]) == Some(Item(8, 1, 2))
  {
    var b: Bytes := [8, 5];
    assert Uvarint(b) == Got(8, 1) && b[1..] == [5] && Uvarint([5]) == Got(5, 1);
  }

  lemma InnerItem()
    ensures ItemOf([10, 2, 8, 5]) == Some(Item(10, 2, 4)) && [10, 2, 8, 5][2..4] == [8, 5]
  {
    hide ItemOf;
    var b: Bytes := [10, 2, 8, 5];
    assert Uvarint(b) == Got(10, 1) && b[1..] == [2, 8, 5] && Uvarint([2, 8, 5]) == Got(2, 1);
    BytesItem(b, 10, 1, 2, 1);
  }

  lemma OuterItem()
    ensures ItemOf([170, 3, 4, 10, 2, 8, 5]) == Some(Item(426, 3, 7)) && [170, 3, 4, 10, 2, 8, 5][3..7] == [10, 2, 8, 5]
  {
    hide ItemOf;
    var b, rest: Bytes := [170, 3, 4, 10, 2, 8, 5], [3, 4, 10, 2, 8, 5];
    assert b[1..] == rest && UvarintFrom(rest, 1) == Got(3, 1);
    assert Uvarint(b) == Got(426, 2) && b[2..] == [4, 10, 2, 8, 5] && Uvarint([4, 10, 2, 8, 5]) == Got(4, 1);
    BytesItem(b, 426, 2, 4, 1);
  }
}

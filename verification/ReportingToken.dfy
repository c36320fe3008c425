/** The part of a protobuf message that its reporting token covers (whatsmeow/reportingtoken.go). */
module ReportingToken {
  import opened Basics
  import opened Varints

  datatype ReportingField = ReportingField(number: int, isMessage: bool, subfields: seq<ReportingField>)

  const WIRE_VARINT := 0
  const WIRE_64BIT := 1
  const WIRE_BYTES := 2
  const WIRE_32BIT := 5

  /** Go's int: 64 bits. */
  const INT_LIMIT := 0x8000_0000_0000_0000

  /** getConfigForField: the first entry with the number. */
  function ConfigFor(config: seq<ReportingField>, number: int): Option<ReportingField> {
    if config == [] then None
    else if config[0].number == number then Some(config[0])
    else ConfigFor(config[1..], number)
  }

  predicate TreatedAsMessage(cfg: ReportingField) {
    cfg.isMessage || cfg.subfields != []
  }

  datatype Field = Field(num: nat, bytes: Bytes)

  /**
   NoOutput is the nil of an unknown wire type. PastEnd: a value is cut off, and slicing it panics or reads on into the
   surrounding buffer. BadIndex: an overlong varint or length makes the index go backwards or overflow.
   */
  datatype Scanned = Fields(fields: seq<Field>) | NoOutput | PastEnd | BadIndex

  datatype Extraction = Extracted(out: Bytes) | Broken(why: Scanned)

  // ---- Sorting: sort.Slice looks at the field numbers only, and promises no more than some sorted order

  function Indices(n: nat): seq<nat> {
    seq(n, i => i)
  }

  predicate IsPermutation(p: seq<nat>, n: nat)
    ensures IsPermutation(p, n) ==> |p| == n && forall i :: 0 <= i < n ==> p[i] < n
  {
    SameElements(p, Indices(n));
    multiset(p) == multiset(Indices(n))
  }

  lemma SameElements(p: seq<nat>, q: seq<nat>)
    ensures multiset(p) == multiset(q) ==> |p| == |q| && forall i :: 0 <= i < |p| ==> p[i] in q
  {
    if multiset(p) == multiset(q) {
      assert |multiset(p)| == |p| && |multiset(q)| == |q|;
      forall i | 0 <= i < |p| ensures p[i] in q {
        assert p[i] in multiset(p);
      }
    }
  }

  function Permute<T>(xs: seq<T>, p: seq<nat>): (r: seq<T>)
    requires forall i :: 0 <= i < |p| ==> p[i] < |xs|
    ensures |r| == |p|
  {
    seq(|p|, i requires 0 <= i < |p| => xs[p[i]])
  }

  predicate Ascending(keys: seq<nat>) {
    forall i, j :: 0 <= i < j < |keys| ==> keys[i] <= keys[j]
  }

  type Order = seq<nat> -> seq<nat>

  ghost predicate Sorts(order: Order) {
    forall keys :: IsPermutation(order(keys), |keys|) && Ascending(Permute(keys, order(keys)))
  }

  lemma OrderFits(order: Order, keys: seq<nat>)
    requires Sorts(order)
    ensures |order(keys)| == |keys| && forall i :: 0 <= i < |keys| ==> order(keys)[i] < |keys|
  {
    assert IsPermutation(order(keys), |keys|);
  }

  function Nums(fields: seq<Field>): (r: seq<nat>)
    ensures |r| == |fields|
  {
    seq(|fields|, i requires 0 <= i < |fields| => fields[i].num)
  }

  function SortFields(order: Order, fields: seq<Field>): (r: seq<Field>)
    requires Sorts(order)
    ensures |r| == |fields|
  {
    hide Sorts, Nums;
    OrderFits(order, Nums(fields));
    Permute(fields, order(Nums(fields)))
  }

  function Concat(fields: seq<Field>): Bytes {
    if fields == [] then [] else fields[0].bytes + Concat(fields[1..])
  }

  // ---- The extraction

  function Drop(b: Bytes, n: nat): (r: Bytes)
    ensures |r| == if n <= |b| then |b| - n else 0
  {
    if n <= |b| then b[n..] else []
  }

  /** Where the value of a field lies, counted from its tag. The end may be past the end of the data. */
  datatype Extent = Ends(start: nat, end: nat) | UnknownWire | BadExtent

  /** A number cut off in the middle has size 0, and a length cut off reads as 0. */
  function ExtentOf(b: Bytes, at: nat, tag: nat, head: nat): (e: Extent)
    requires 0 < head <= |b|
    ensures e.Ends? ==> 0 < e.start <= e.end && e.start <= |b|
  {
    var rest := b[head..];
    if tag % 8 == WIRE_VARINT then
      match Uvarint(rest)
      case Got(_, n) => Ends(head, head + n)
      case Short => Ends(head, head)
      case TooLong => BadExtent
    else if tag % 8 == WIRE_64BIT then Ends(head, head + 8)
    else if tag % 8 == WIRE_BYTES then
      match Uvarint(rest)
      case Got(l, n) => if at + head + n + l >= INT_LIMIT then BadExtent else Ends(head + n, head + n + l)
      case Short => Ends(head, head)
      case TooLong => BadExtent
    else if tag % 8 == WIRE_32BIT then Ends(head, head + 4)
    else UnknownWire
  }

  function SubField(tag: nat, sub: Bytes): Bytes {
    PutUvarint(tag) + (PutUvarint(|sub|) + sub)
  }

  /** The loop, from index `at` on, with the fields found so far; b is the data from there. */
  function Scan(order: Order, b: Bytes, at: nat, config: seq<ReportingField>, acc: seq<Field>): Scanned
    requires Sorts(order)
    decreases |b|, 0
  {
    hide Sorts, ExtentOf, ConfigFor, PutUvarint;
    if b == [] || !Uvarint(b).Got? then Fields(acc)
    else
      var Got(tag, head) := Uvarint(b);
      var cfg := ConfigFor(config, tag / 8);
      match ExtentOf(b, at, tag, head)
      case UnknownWire => NoOutput
      case BadExtent => BadIndex
      case Ends(start, end) =>
        if cfg == None then Scan(order, Drop(b, end), at + end, config, acc)
        else if end > |b| then PastEnd
        else if tag % 8 == WIRE_BYTES && TreatedAsMessage(cfg.value) then
          match Extract(order, b[start..end], cfg.value.subfields)
          case Broken(why) => why
          case Extracted(sub) =>
            Scan(order, b[end..], at + end, config,
                 if sub == [] then acc else acc + [Field(tag / 8, SubField(tag, sub))])
        else Scan(order, b[end..], at + end, config, acc + [Field(tag / 8, b[..end])])
  }

  /** extractReportingTokenContent */
  function Extract(order: Order, data: Bytes, config: seq<ReportingField>): Extraction
    requires Sorts(order)
    decreases |data|, 1
  {
    match Scan(order, data, 0, config, [])
    case Fields(fields) => Extracted(Concat(SortFields(order, fields)))
    case NoOutput => Extracted([])
    case why => Broken(why)
  }
}

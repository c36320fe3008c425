/** The extraction loop (whatsmeow/reportingtoken.go), against the functions of ReportingToken. */
module ReportingTokenExtractor {
  import opened Basics
  import opened Varints
  import opened ReportingToken

  lemma DropMore(data: Bytes, i: nat, n: nat)
    requires i <= |data|
    ensures Drop(data[i..], n) == Drop(data, i + n)
    ensures n <= |data| - i ==> data[i..][n..] == Drop(data, i + n)
  {
  }

  /** extractReportingTokenContent: sub-messages by recursion, then the sort and the concatenation. */
  method ExtractReportingTokenContent(order: Order, data: Bytes, config: seq<ReportingField>) returns (r: Extraction)
    requires Sorts(order)
    ensures r == Extract(order, data, config)
    decreases |data|
  {
    hide Sorts, UvarintFrom, ConfigFor, ExtentOf, Extract, SortFields, Concat, SubField;
    var fields: seq<Field> := [];
    var i: nat := 0;
    while i < |data|
      invariant Scan(order, Drop(data, i), i, config, fields) == Scan(order, data, 0, config, [])
      decreases |data| - i
    {
      var b := data[i..];
      assert b == Drop(data, i);
      if !Uvarint(b).Got? {
        break;
      }
      var tag, tagLen := Uvarint(b).value, Uvarint(b).size;
      var fieldCfg := ConfigFor(config, tag / 8);
      match ExtentOf(b, i, tag, tagLen) {
        case UnknownWire =>
          ExtractOf(order, data, config);
          return Extracted([]);
        case BadExtent =>
          ExtractOf(order, data, config);
          return Broken(BadIndex);
        case Ends(start, end) =>
          DropMore(data, i, end);
          if fieldCfg.None? {
            i := i + end;
            continue;
          }
          if end > |b| {
            ExtractOf(order, data, config);
            return Broken(PastEnd);
          }
          if tag % 8 == WIRE_BYTES && TreatedAsMessage(fieldCfg.value) {
            var sub := ExtractReportingTokenContent(order, b[start..end], fieldCfg.value.subfields);
            if sub.Broken? {
              ExtractOf(order, data, config);
              BrokenWhy(order, b[start..end], fieldCfg.value.subfields);
              return sub;
            }
            if sub.out != [] {
              fields := fields + [Field(tag / 8, SubField(tag, sub.out))];
            }
          } else {
            fields := fields + [Field(tag / 8, b[..end])];
          }
          i := i + end;
      }
    }
    assert Scan(order, Drop(data, i), i, config, fields) == Fields(fields);
    ExtractOf(order, data, config);
    r := Extracted(Concat(SortFields(order, fields)));
  }

  lemma ExtractOf(order: Order, data: Bytes, config: seq<ReportingField>)
    requires Sorts(order)
    ensures Extract(order, data, config) ==
      match Scan(order, data, 0, config, [])
      case Fields(fields) => Extracted(Concat(SortFields(order, fields)))
      case NoOutput => Extracted([])
      case why => Broken(why)
  {
  }

  lemma BrokenWhy(order: Order, data: Bytes, config: seq<ReportingField>)
    requires Sorts(order) && Extract(order, data, config).Broken?
    ensures Extract(order, data, config).why.PastEnd? || Extract(order, data, config).why.BadIndex?
  {
  }
}

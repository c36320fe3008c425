/** The encoder itself: methods that append to a buffer (whatsmeow/binary/encoder.go). */
module BinaryEncoding {
  import opened Basics
  import opened BigEndian
  import opened Decimal
  import opened Jid
  import opened Tokens
  import opened BinaryNode
  import opened BinaryFormat
  import opened BinaryRoundTrip

  lemma {:induction false} IntBytesAt(v: nat, n: nat, i: nat)
    requires i < n
    ensures IntBytes(v, n)[i] == ByteAt(v, n - 1 - i)
  {
    if i < n - 1 {
      IntBytesAt(v / 256, n - 1, i);
    }
  }

  lemma {:induction false} PackBytesAppend(p: Packing, a: Bytes, b: Bytes)
    requires |a| % 2 == 0
    requires (forall i :: 0 <= i < |a| ==> Packable(p, a[i])) && (forall i :: 0 <= i < |b| ==> Packable(p, b[i]))
    ensures forall i :: 0 <= i < |a + b| ==> Packable(p, (a + b)[i])
    ensures PackBytes(p, a + b) == PackBytes(p, a) + PackBytes(p, b)
    decreases |a|
  {
    if a == [] {
      assert a + b == b;
    } else {
      PackBytesAppend(p, a[2..], b);
      assert (a + b)[2..] == a[2..] + b;
      AppendAssoc([PackPair(p, a[0], a[1])], PackBytes(p, a[2..]), PackBytes(p, b));
    }
  }

  lemma PackBytesNextPair(p: Packing, value: Bytes, i: nat)
    requires forall j :: 0 <= j < |value| ==> Packable(p, value[j])
    requires 2 * i + 1 < |value|
    ensures PackBytes(p, value[..2 * (i + 1)])
         == PackBytes(p, value[..2 * i]) + [PackPair(p, value[2 * i], value[2 * i + 1])]
  {
    var pair := [value[2 * i], value[2 * i + 1]];
    assert value[..2 * (i + 1)] == value[..2 * i] + pair;
    PackBytesAppend(p, value[..2 * i], pair);
    assert PackBytes(p, pair) == [PackPair(p, pair[0], pair[1])] + PackBytes(p, []);
  }

  lemma PackBytesLast(p: Packing, value: Bytes)
    requires forall j :: 0 <= j < |value| ==> Packable(p, value[j])
    requires |value| % 2 != 0
    ensures PackBytes(p, value) == PackBytes(p, value[..|value| - 1]) + [PackPair(p, value[|value| - 1], 0)]
  {
    var last := [value[|value| - 1]];
    assert value == value[..|value| - 1] + last;
    PackBytesAppend(p, value[..|value| - 1], last);
  }

  lemma ShortServerFits(dict: Dictionary, j: JID)
    requires dict.Valid() && UsesADForm(j)
    ensures StringFits(dict, j.server)
  {
    assert |DefaultUserServer| == 14 && |HiddenUserServer| == 3 && |HostedServer| == 6 && |HostedLIDServer| == 10;
  }

  lemma EmptyFits(dict: Dictionary, s: Bytes)
    requires dict.Valid() && |s| == 0
    ensures StringFits(dict, s)
  {
  }

  /** validateNibble and validateHex: scan until a byte outside the alphabet. */
  method Validate(p: Packing, value: Bytes) returns (valid: bool)
    ensures valid <==> AllPackable(p, value)
  {
    if |value| > PACKED_MAX {
      return false;
    }
    for i := 0 to |value|
      invariant forall j :: 0 <= j < i ==> Packable(p, value[j])
    {
      if !Packable(p, value[i]) {
        return false;
      }
    }
    return true;
  }

  /**
   A write method returns false where the source panics: a string or byte slice of 2^31 - 1 bytes or more.
   */
  class BinaryEncoder {
    const dict: Dictionary
    var data: Bytes

    ghost predicate Valid() {
      dict.Valid()
    }

    constructor (dict: Dictionary)
      requires dict.Valid()
      ensures this.dict == dict && Valid() && data == [0]
    {
      this.dict := dict;
      data := [0];
    }

    method PushByte(b: Byte)
      modifies this
      ensures data == old(data) + [b]
    {
      data := data + [b];
    }

    method PushBytes(bytes: Bytes)
      modifies this
      ensures data == old(data) + bytes
    {
      data := data + bytes;
    }

    method PushIntN(value: nat, n: nat)
      modifies this
      ensures data == old(data) + IntBytes(value, n)
    {
      for i := 0 to n
        invariant data == old(data) + IntBytes(value, n)[..i]
      {
        IntBytesAt(value, n, i);
        PushByte(ByteAt(value, n - i - 1));
      }
    }

    method PushInt20(value: nat)
      modifies this
      ensures data == old(data) + Int20Bytes(value)
    {
      PushBytes([ByteAt(value, 2) % 16, ByteAt(value, 1), ByteAt(value, 0)]);
    }

    method WriteByteLength(length: nat) returns (ok: bool)
      modifies this
      ensures ok <==> length < MAX_LENGTH
      ensures ok ==> data == old(data) + LengthBytes(length)
    {
      if length < 256 {
        PushByte(BINARY_8);
        PushIntN(length, 1);
        assert IntBytes(length, 1) == [length];
      } else if length < 0x10_0000 {
        PushByte(BINARY_20);
        PushInt20(length);
      } else if length < MAX_LENGTH {
        PushByte(BINARY_32);
        PushIntN(length, 4);
      } else {
        return false;
      }
      return true;
    }

    method WriteBytes(value: Bytes) returns (ok: bool)
      modifies this
      ensures ok <==> |value| < MAX_LENGTH
      ensures ok ==> data == old(data) + RawBytes(value)
    {
      ok := WriteByteLength(|value|);
      if ok {
        PushBytes(value);
      }
    }

    method WritePackedBytes(value: Bytes, p: Packing)
      requires AllPackable(p, value)
      modifies this
      ensures data == old(data) + PackedBytes(p, value)
    {
      hide PackPair, PackBytes, PackedBytes, PackingTag, RoundedLength;
      PushByte(PackingTag(p));
      PushByte(RoundedLength(|value|));
      ghost var header := data;
      for i := 0 to |value| / 2
        invariant data == header + PackBytes(p, value[..2 * i])
      {
        PackBytesNextPair(p, value, i);
        AppendAssoc(header, PackBytes(p, value[..2 * i]), [PackPair(p, value[2 * i], value[2 * i + 1])]);
        PushByte(PackPair(p, value[2 * i], value[2 * i + 1]));
      }
      if |value| % 2 != 0 {
        PackBytesLast(p, value);
        PushByte(PackPair(p, value[|value| - 1], 0));
      } else {
        assert value[..|value|] == value;
      }
      PackedBytesWritten(p, value, old(data));
    }

    method WriteString(s: Bytes) returns (ok: bool)
      requires Valid()
      modifies this
      ensures ok <==> StringFits(dict, s)
      ensures ok ==> data == old(data) + StringBytes(dict, s)
    {
      ok := true;
      var single := dict.SingleIndex(s);
      if single.Some? {
        PushByte(single.value);
        return;
      }
      var double := dict.DoubleIndex(s);
      if double.Some? {
        PushByte(DICTIONARY_0 + double.value.0);
        PushByte(double.value.1);
        return;
      }
      var nibble := Validate(Nibble, s);
      if nibble {
        WritePackedBytes(s, Nibble);
        return;
      }
      var hex := Validate(Hex, s);
      if hex {
        WritePackedBytes(s, Hex);
      } else {
        ok := WriteBytes(s);
      }
    }

    method WriteListStart(listSize: nat)
      modifies this
      ensures data == old(data) + ListStart(listSize)
    {
      if listSize == 0 {
        PushByte(LIST_EMPTY);
      } else if listSize < 256 {
        PushByte(LIST_8);
        PushIntN(listSize, 1);
        assert IntBytes(listSize, 1) == [listSize];
      } else {
        PushByte(LIST_16);
        PushIntN(listSize, 2);
      }
    }

    method WriteJID(j: JID) returns (ok: bool)
      requires Valid()
      modifies this
      ensures ok <==> JIDFits(dict, j)
      ensures ok ==> data == old(data) + JIDBytes(dict, j)
    {
      hide StringBytes, IntBytes, StringFits, JIDBytes;
      if UsesADForm(j) {
        ShortServerFits(dict, j);
        PushByte(AD_JID);
        PushByte(j.ActualAgent());
        PushByte(j.device % 256);
        ok := WriteString(j.user);
        ADJIDWritten(dict, j, old(data));
      } else if j.server == MessengerServer {
        PushByte(FB_JID);
        ok := WriteString(j.user);
        if ok {
          PushIntN(j.device, 2);
          ok := WriteString(j.server);
          FBJIDWritten(dict, j, old(data));
        }
      } else if j.server == InteropServer {
        PushByte(INTEROP_JID);
        ok := WriteString(j.user);
        if ok {
          PushIntN(j.device, 2);
          PushIntN(j.integrator, 2);
          ok := WriteString(j.server);
          InteropJIDWritten(dict, j, old(data));
        }
      } else {
        PushByte(JID_PAIR);
        ok := true;
        if |j.user| == 0 {
          PushByte(LIST_EMPTY);
          EmptyFits(dict, j.user);
        } else {
          ok := WriteString(j.user);
        }
        if ok {
          ok := WriteString(j.server);
          JIDPairWritten(dict, j, old(data));
        }
      }
    }

    method CountAttributes(attrs: seq<Attr>) returns (count: nat)
      ensures count == BinaryNode.CountAttributes(attrs)
    {
      count := 0;
      for i := 0 to |attrs|
        invariant count + BinaryNode.CountAttributes(attrs[i..]) == BinaryNode.CountAttributes(attrs)
      {
        if Written(attrs[i].val) {
          count := count + 1;
        }
      }
    }

    method WriteAttributes(attrs: seq<Attr>) returns (ok: bool)
      requires Valid()
      modifies this
      ensures ok <==> AttrsFit(dict, attrs)
      ensures ok ==> data == old(data) + AttrsBytes(dict, attrs)
      decreases attrs
    {
      for i := 0 to |attrs|
        invariant AttrsFit(dict, attrs) == AttrsFit(dict, attrs[i..])
        invariant data + AttrsBytes(dict, attrs[i..]) == old(data) + AttrsBytes(dict, attrs)
      {
        hide StringBytes, ValueBytes, StringFits, ValueFits;
        ghost var before := data;
        var attr := attrs[i];
        if Written(attr.val) {
          ok := WriteString(attr.key);
          if !ok {
            return;
          }
          ok := Write(attr.val);
          if !ok {
            return;
          }
          AttrWritten(dict, attrs[i..], before);
        }
        assert attrs[i..][1..] == attrs[i + 1..];
      }
      ok := true;
    }

    method Write(v: Value) returns (ok: bool)
      requires Valid()
      modifies this
      ensures ok <==> ValueFits(dict, v)
      ensures ok ==> data == old(data) + ValueBytes(dict, v)
      decreases v
    {
      hide StringBytes, NodesBytes, JIDBytes, RawBytes, ListStart;
      match v
      case Nil =>
        PushByte(LIST_EMPTY);
        ok := true;
      case Str(s) =>
        ok := WriteString(s);
      case Raw(b) =>
        ok := WriteBytes(b);
      case Address(j) =>
        ok := WriteJID(j);
      case Int(i) =>
        IntegersArePacked(dict, i);
        ok := WriteString(FormatInt(i));
      case Bool(b) =>
        ok := WriteString(if b then TEXT_TRUE else TEXT_FALSE);
      case Nodes(ns) =>
        WriteListStart(|ns|);
        ghost var header := data;
        for i := 0 to |ns|
          invariant NodesFit(dict, ns) == NodesFit(dict, ns[i..])
          invariant data + NodesBytes(dict, ns[i..]) == header + NodesBytes(dict, ns)
        {
          ghost var before := data;
          ok := WriteNode(ns[i]);
          if !ok {
            return;
          }
          NodeWritten(dict, ns[i..], before);
          assert ns[i..][1..] == ns[i + 1..];
        }
        AllNodesWritten(dict, ns, data, header);
        ok := true;
    }

    method WriteNode(n: Node) returns (ok: bool)
      requires Valid()
      modifies this
      ensures ok <==> NodeFits(dict, n)
      ensures ok ==> data == old(data) + NodeBytes(dict, n)
      decreases n
    {
      hide StringBytes, ValueBytes, AttrsBytes, StringFits, ValueFits, AttrsFit, ListStart;
      if n.tag == TAG_ZERO {
        PushByte(LIST_8);
        PushByte(LIST_EMPTY);
        return true;
      }
      var hasContent := if n.content != Nil then 1 else 0;
      var count := CountAttributes(n.attrs);
      WriteListStart(2 * count + 1 + hasContent);
      ok := WriteString(n.tag);
      if !ok {
        return;
      }
      ok := WriteAttributes(n.attrs);
      if !ok {
        return;
      }
      if n.content != Nil {
        ok := Write(n.content);
      } else {
        NilFits(dict);
      }
    }
  }

  lemma PackedBytesWritten(p: Packing, s: Bytes, before: Bytes)
    requires AllPackable(p, s)
    ensures before + [PackingTag(p)] + [RoundedLength(|s|)] + PackBytes(p, s) == before + PackedBytes(p, s)
  {
    hide PackBytes, PackingTag, RoundedLength;
  }

  lemma ADJIDWritten(dict: Dictionary, j: JID, before: Bytes)
    requires dict.Valid() && UsesADForm(j)
    ensures before + [AD_JID] + [j.ActualAgent()] + [j.device % 256] + StringBytes(dict, j.user) == before + JIDBytes(dict, j)
  {
    hide StringBytes;
  }

  lemma FBJIDWritten(dict: Dictionary, j: JID, before: Bytes)
    requires dict.Valid() && !UsesADForm(j) && j.server == MessengerServer
    ensures before + [FB_JID] + StringBytes(dict, j.user) + IntBytes(j.device, 2) + StringBytes(dict, j.server)
         == before + JIDBytes(dict, j)
  {
    hide StringBytes, IntBytes, UsesADForm;
  }

  lemma InteropJIDWritten(dict: Dictionary, j: JID, before: Bytes)
    requires dict.Valid() && !UsesADForm(j) && j.server != MessengerServer && j.server == InteropServer
    ensures before + [INTEROP_JID] + StringBytes(dict, j.user) + IntBytes(j.device, 2) + IntBytes(j.integrator, 2)
              + StringBytes(dict, j.server)
         == before + JIDBytes(dict, j)
  {
    hide StringBytes, IntBytes, UsesADForm;
  }

  lemma JIDPairWritten(dict: Dictionary, j: JID, before: Bytes)
    requires dict.Valid() && !UsesADForm(j) && j.server != MessengerServer && j.server != InteropServer
    ensures before + [JID_PAIR] + (if |j.user| == 0 then [LIST_EMPTY] else StringBytes(dict, j.user))
              + StringBytes(dict, j.server)
         == before + JIDBytes(dict, j)
  {
    hide StringBytes, UsesADForm;
  }

  lemma NilFits(dict: Dictionary)
    requires dict.Valid()
    ensures ValueFits(dict, Nil)
  {
  }

  lemma AttrWritten(dict: Dictionary, attrs: seq<Attr>, before: Bytes)
    requires dict.Valid() && attrs != [] && Written(attrs[0].val)
    ensures before + StringBytes(dict, attrs[0].key) + ValueBytes(dict, attrs[0].val) + AttrsBytes(dict, attrs[1..])
         == before + AttrsBytes(dict, attrs)
  {
    hide StringBytes, ValueBytes;
  }

  lemma NodeWritten(dict: Dictionary, ns: seq<Node>, before: Bytes)
    requires dict.Valid() && ns != []
    ensures before + NodeBytes(dict, ns[0]) + NodesBytes(dict, ns[1..]) == before + NodesBytes(dict, ns)
  {
    hide NodeBytes;
    AppendAssoc(before, NodeBytes(dict, ns[0]), NodesBytes(dict, ns[1..]));
  }

  lemma AllNodesWritten(dict: Dictionary, ns: seq<Node>, data: Bytes, header: Bytes)
    requires dict.Valid()
    requires data + NodesBytes(dict, ns[|ns|..]) == header + NodesBytes(dict, ns)
    ensures NodesFit(dict, ns[|ns|..])
    ensures data == header + NodesBytes(dict, ns)
  {
    assert ns[|ns|..] == [];
    assert data + [] == data;
  }

  /** Marshal: None where the source panics. */
  method Marshal(dict: Dictionary, n: Node) returns (r: Option<Bytes>)
    requires dict.Valid()
    ensures r.Some? <==> NodeFits(dict, n)
    ensures r.Some? ==> r.value == BinaryFormat.Marshal(dict, n)
  {
    var w := new BinaryEncoder(dict);
    var ok := w.WriteNode(n);
    r := if ok then Some(w.data) else None;
  }
}

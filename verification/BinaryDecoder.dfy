/** The decoder itself: methods that move an index over a byte slice (whatsmeow/binary/decoder.go). */
module BinaryDecoding {
  import opened Basics
  import opened BigEndian
  import opened Jid
  import opened Tokens
  import opened BinaryNode
  import P = BinaryParser
  import opened BinaryParser

  datatype Outcome<+T> = Ok(value: T) | Err(error: DecodeError)

  /** A method's outcome, and what it left unread, are those of the parsing function. */
  ghost predicate Agrees<T>(p: Parsed<T>, r: Outcome<T>, unread: Bytes) {
    match p
    case Done(v, rest) => r == Ok(v) && unread == rest
    case Fail(e) => r == Err(e)
  }

  /** The value so far put in front of what is still to be read. */
  ghost function Prepend<T>(done: seq<T>, r: Parsed<seq<T>>): Parsed<seq<T>> {
    match r
    case Done(v, rest) => Done(done + v, rest)
    case Fail(e) => Fail(e)
  }

  lemma PrependNone<T>(r: Parsed<seq<T>>)
    ensures Prepend([], r) == r
  {
    if r.Done? {
      assert [] + r.value == r.value;
    }
  }

  lemma PrependStep<T>(done: seq<T>, x: T, r: Parsed<seq<T>>)
    ensures Prepend(done, Prepend([x], r)) == Prepend(done + [x], r)
  {
    if r.Done? {
      AppendAssoc(done, [x], r.value);
    }
  }

  class BinaryDecoder {
    const dict: Dictionary
    const data: Bytes
    var index: nat

    ghost predicate Valid()
      reads this
    {
      dict.Valid() && index <= |data|
    }

    function Unread(): Bytes
      requires Valid()
      reads this
    {
      data[index..]
    }

    constructor (dict: Dictionary, data: Bytes)
      requires dict.Valid()
      ensures Valid() && this.dict == dict && this.data == data && index == 0 && Unread() == data
    {
      this.dict := dict;
      this.data := data;
      index := 0;
    }

    method ReadByte() returns (r: Outcome<Byte>)
      requires Valid()
      modifies this
      ensures Valid() && index >= old(index) && Agrees(P.ReadByte(old(Unread())), r, Unread())
    {
      if index + 1 > |data| {
        return Err(EOF);
      }
      r := Ok(data[index]);
      index := index + 1;
    }

    method ReadIntN(n: nat) returns (r: Outcome<nat>)
      requires Valid()
      modifies this
      ensures Valid() && index >= old(index) && Agrees(P.ReadIntN(old(Unread()), n), r, Unread())
    {
      if index + n > |data| {
        return Err(EOF);
      }
      ghost var bytes := data[index..index + n];
      var ret := 0;
      ShiftLeftZero(n);
      for i := 0 to n
        invariant index == old(index)
        invariant ret == ShiftLeft(IntOf(bytes[..i]), n - i)
      {
        ret := ret + ShiftLeft(data[index + i], n - i - 1);
        assert bytes[..i + 1][..i] == bytes[..i];
        ShiftLeftAdds(256 * IntOf(bytes[..i]), bytes[i], n - i - 1);
        ShiftLeftMoves(IntOf(bytes[..i]), n - i - 1);
      }
      assert bytes[..n] == bytes;
      assert old(Unread())[..n] == bytes && old(Unread())[n..] == data[index + n..];
      index := index + n;
      r := Ok(ret);
    }

    method ReadInt20() returns (r: Outcome<nat>)
      requires Valid()
      modifies this
      ensures Valid() && index >= old(index) && Agrees(P.ReadInt20(old(Unread())), r, Unread())
    {
      if index + 3 > |data| {
        return Err(EOF);
      }
      var ret := data[index] as int % 16 * 0x1_0000 + data[index + 1] as int * 256 + data[index + 2] as int;
      index := index + 3;
      r := Ok(ret);
    }

    method ReadBytesOrString(length: nat, asString: bool) returns (r: Outcome<Value>)
      requires Valid()
      modifies this
      ensures Valid() && index >= old(index) && Agrees(P.ReadRaw(old(Unread()), length, asString), r, Unread())
    {
      if index + length > |data| {
        return Err(EOF);
      }
      var raw := data[index..index + length];
      assert raw == Unread()[..length];
      index := index + length;
      r := Ok(if asString then Str(raw) else Raw(raw));
    }

    method ReadPacked8(p: Packing) returns (r: Outcome<Value>)
      requires Valid()
      modifies this
      ensures Valid() && index >= old(index) && Agrees(P.ReadPacked(p, old(Unread())), r, Unread())
    {
      hide P.UnpackBytes, P.Unpack;
      var start := ReadByte();
      if start.Err? {
        return Err(start.error);
      }
      var size := start.value % 128;
      ghost var from := Unread();
      var build: Bytes := [];
      PrependNone(P.UnpackBytes(p, from, size));
      for i := 0 to size
        invariant Valid() && index >= old(index)
        invariant P.UnpackBytes(p, from, size) == Prepend(build, P.UnpackBytes(p, Unread(), size - i))
      {
        UnpackOnePair(p, Unread(), size - i);
        var curr := ReadByte();
        if curr.Err? {
          return Err(curr.error);
        }
        var lower, upper := P.Unpack(p, curr.value / 16), P.Unpack(p, curr.value % 16);
        if lower.None? || upper.None? {
          return Err(InvalidPacking);
        }
        PrependPair(build, lower.value, upper.value, P.UnpackBytes(p, Unread(), size - i - 1));
        build := build + [lower.value, upper.value];
      }
      UnpackNothing(p, Unread());
      assert build + [] == build;
      if start.value / 128 != 0 {
        if |build| == 0 {
          return Err(TypeAssertion);
        }
        build := build[..|build| - 1];
      }
      r := Ok(Str(build));
    }

    method ReadListSize(tag: Byte) returns (r: Outcome<nat>)
      requires Valid()
      modifies this
      ensures Valid() && index >= old(index) && Agrees(P.ReadListSize(tag, old(Unread())), r, Unread())
    {
      if tag == LIST_EMPTY {
        return Ok(0);
      } else if tag == LIST_8 {
        r := ReadIntN(1);
      } else if tag == LIST_16 {
        r := ReadIntN(2);
      } else {
        r := Err(InvalidListTag);
      }
    }

    method ReadBinary(tag: Byte, asString: bool) returns (r: Outcome<Value>)
      requires Valid()
      modifies this
      ensures Valid() && index >= old(index) && Agrees(P.ReadBinary(tag, old(Unread()), asString), r, Unread())
    {
      var size: Outcome<nat>;
      if tag == BINARY_8 {
        size := ReadIntN(1);
      } else if tag == BINARY_20 {
        size := ReadInt20();
      } else {
        size := ReadIntN(4);
      }
      if size.Err? {
        return Err(size.error);
      }
      r := ReadBytesOrString(size.value, asString);
    }

    method ReadDouble(tag: Byte) returns (r: Outcome<Value>)
      requires Valid() && DICTIONARY_0 <= tag <= DICTIONARY_3
      modifies this
      ensures Valid() && index >= old(index) && Agrees(P.ReadDouble(dict, tag, old(Unread())), r, Unread())
    {
      var i := ReadIntN(1);
      if i.Err? {
        return Err(i.error);
      }
      if i.value >= |dict.double[tag - DICTIONARY_0]| {
        return Err(InvalidToken);
      }
      r := Ok(Str(dict.double[tag - DICTIONARY_0][i.value]));
    }

    method Read(asString: bool) returns (r: Outcome<Value>)
      requires Valid()
      modifies this
      ensures Valid() && index >= old(index) && Agrees(P.ReadValue(dict, old(Unread()), asString), r, Unread())
      decreases |data| - index, 0
    {
      hide P.ReadBinary, P.ReadDouble, P.ReadPacked;
      hide P.ReadList, P.ReadFBJID, P.ReadInteropJID, P.ReadJIDPair, P.ReadADJID;
      var t := ReadByte();
      if t.Err? {
        return Err(t.error);
      }
      var tag := t.value;
      if tag == LIST_EMPTY {
        r := Ok(Nil);
      } else if tag == LIST_8 || tag == LIST_16 {
        r := ReadList(tag);
      } else if tag == BINARY_8 || tag == BINARY_20 || tag == BINARY_32 {
        r := ReadBinary(tag, asString);
      } else if DICTIONARY_0 <= tag <= DICTIONARY_3 {
        r := ReadDouble(tag);
      } else if tag == FB_JID {
        r := ReadFBJID();
      } else if tag == INTEROP_JID {
        r := ReadInteropJID();
      } else if tag == JID_PAIR {
        r := ReadJIDPair();
      } else if tag == AD_JID {
        r := ReadADJID();
      } else if tag == NIBBLE_8 {
        r := ReadPacked8(Nibble);
      } else if tag == HEX_8 {
        r := ReadPacked8(Hex);
      } else if 1 <= tag < |dict.single| {
        r := Ok(Str(dict.single[tag]));
      } else {
        r := Err(InvalidToken);
      }
    }

    method ReadJIDPair() returns (r: Outcome<Value>)
      requires Valid()
      modifies this
      ensures Valid() && index >= old(index) && Agrees(P.ReadJIDPair(dict, old(Unread())), r, Unread())
      decreases |data| - index, 1
    {
      hide P.ReadValue;
      var user := Read(true);
      if user.Err? {
        return Err(user.error);
      }
      var server := Read(true);
      if server.Err? {
        return Err(server.error);
      } else if server.value == Nil {
        return Err(InvalidJIDType);
      } else if !server.value.Str? || !(user.value.Str? || user.value.Nil?) {
        return Err(TypeAssertion);
      }
      r := Ok(Address(NewJID(if user.value.Nil? then [] else user.value.s, server.value.s)));
    }

    method ReadFBJID() returns (r: Outcome<Value>)
      requires Valid()
      modifies this
      ensures Valid() && index >= old(index) && Agrees(P.ReadFBJID(dict, old(Unread())), r, Unread())
      decreases |data| - index, 1
    {
      hide P.ReadValue, P.ReadIntN;
      var user := Read(true);
      if user.Err? {
        return Err(user.error);
      }
      var device := ReadIntN(2);
      if device.Err? {
        return Err(device.error);
      }
      var server := Read(true);
      if server.Err? {
        return Err(server.error);
      } else if server.value != Str(MessengerServer) {
        return Err(InvalidJIDType);
      } else if !user.value.Str? {
        return Err(TypeAssertion);
      }
      r := Ok(Address(JID(user.value.s, 0, device.value % 0x1_0000, 0, server.value.s)));
    }

    method ReadInteropJID() returns (r: Outcome<Value>)
      requires Valid()
      modifies this
      ensures Valid() && index >= old(index) && Agrees(P.ReadInteropJID(dict, old(Unread())), r, Unread())
      decreases |data| - index, 1
    {
      hide P.ReadValue, P.ReadIntN;
      var user := Read(true);
      if user.Err? {
        return Err(user.error);
      }
      var device := ReadIntN(2);
      if device.Err? {
        return Err(device.error);
      }
      var integrator := ReadIntN(2);
      if integrator.Err? {
        return Err(integrator.error);
      }
      var server := Read(true);
      if server.Err? {
        return Err(server.error);
      } else if server.value != Str(InteropServer) {
        return Err(InvalidJIDType);
      } else if !user.value.Str? {
        return Err(TypeAssertion);
      }
      r := Ok(Address(JID(user.value.s, 0, device.value % 0x1_0000, integrator.value % 0x1_0000, InteropServer)));
    }

    method ReadADJID() returns (r: Outcome<Value>)
      requires Valid()
      modifies this
      ensures Valid() && index >= old(index) && Agrees(P.ReadADJID(dict, old(Unread())), r, Unread())
      decreases |data| - index, 1
    {
      hide P.ReadValue;
      var agent := ReadByte();
      if agent.Err? {
        return Err(agent.error);
      }
      var device := ReadByte();
      if device.Err? {
        return Err(device.error);
      }
      var user := Read(true);
      if user.Err? {
        return Err(user.error);
      } else if !user.value.Str? {
        return Err(TypeAssertion);
      }
      r := Ok(Address(NewADJID(user.value.s, agent.value, device.value)));
    }

    method ReadAttributes(n: nat) returns (r: Outcome<seq<Attr>>)
      requires Valid()
      modifies this
      ensures Valid() && index >= old(index) && Agrees(P.ReadAttributes(dict, old(Unread()), n, []), r, Unread())
      decreases |data| - index, 2
    {
      hide P.ReadValue;
      var ret: seq<Attr> := [];
      for i := 0 to n
        invariant Valid() && index >= old(index)
        invariant P.ReadAttributes(dict, old(Unread()), n, []) == P.ReadAttributes(dict, Unread(), n - i, ret)
      {
        var key := Read(true);
        if key.Err? {
          return Err(key.error);
        } else if !key.value.Str? {
          return Err(NonStringKey);
        }
        var val := Read(true);
        if val.Err? {
          return Err(val.error);
        }
        ret := PutAttr(ret, key.value.s, val.value);
      }
      r := Ok(ret);
    }

    method ReadList(tag: Byte) returns (r: Outcome<Value>)
      requires Valid()
      modifies this
      ensures Valid() && index >= old(index) && Agrees(P.ReadList(dict, tag, old(Unread())), r, Unread())
      decreases |data| - index, 3
    {
      hide P.ReadNode, P.ReadListSize;
      var size := ReadListSize(tag);
      if size.Err? {
        return Err(size.error);
      }
      ghost var from := Unread();
      var ret: seq<Node> := [];
      PrependNone(P.ReadNodes(dict, from, size.value));
      for i := 0 to size.value
        invariant Valid() && index >= old(index)
        invariant P.ReadNodes(dict, from, size.value) == Prepend(ret, P.ReadNodes(dict, Unread(), size.value - i))
      {
        ghost var here := Unread();
        var n := ReadNode();
        if n.Err? {
          return Err(n.error);
        }
        ghost var rest := P.ReadNodes(dict, Unread(), size.value - i - 1);
        assert P.ReadNodes(dict, here, size.value - i) == Prepend([n.value], rest);
        PrependStep(ret, n.value, rest);
        ret := ret + [n.value];
      }
      assert ret + [] == ret;
      r := Ok(Nodes(ret));
    }

    method ReadNode() returns (r: Outcome<Node>)
      requires Valid()
      modifies this
      ensures Valid() && index >= old(index) && Agrees(P.ReadNode(dict, old(Unread())), r, Unread())
      decreases |data| - index, 1
    {
      hide P.ReadValue, P.ReadAttributes, P.ReadListSize;
      var tag := ReadByte();
      if tag.Err? {
        return Err(tag.error);
      }
      var listSize := ReadListSize(tag.value);
      if listSize.Err? {
        return Err(listSize.error);
      }
      var desc := Read(true);
      if desc.Err? {
        return Err(desc.error);
      } else if !desc.value.Str? {
        return Err(TypeAssertion);
      } else if listSize.value == 0 || desc.value.s == [] {
        return Err(InvalidNode);
      }
      var attrs := ReadAttributes((listSize.value - 1) / 2);
      if attrs.Err? {
        return Err(attrs.error);
      }
      if listSize.value % 2 == 1 {
        return Ok(Node(desc.value.s, attrs.value, Nil));
      }
      var content := Read(false);
      if content.Err? {
        return Err(content.error);
      }
      r := Ok(Node(desc.value.s, attrs.value, content.value));
    }
  }

  lemma UnpackNothing(p: Packing, b: Bytes)
    ensures P.UnpackBytes(p, b, 0) == Done([], b)
  {
  }

  /** One turn of the unpacking loop. */
  lemma UnpackOnePair(p: Packing, b: Bytes, n: nat)
    requires n > 0
    ensures P.UnpackBytes(p, b, n) ==
      if b == [] then Fail(EOF)
      else
        var lower, upper := P.Unpack(p, b[0] / 16), P.Unpack(p, b[0] % 16);
        if lower.None? || upper.None? then Fail(InvalidPacking)
        else Prepend([lower.value, upper.value], P.UnpackBytes(p, b[1..], n - 1))
  {
  }

  lemma PrependPair<T>(done: seq<T>, x: T, y: T, r: Parsed<seq<T>>)
    ensures Prepend(done, Prepend([x, y], r)) == Prepend(done + [x, y], r)
  {
    if r.Done? {
      AppendAssoc(done, [x, y], r.value);
    }
  }

  lemma {:induction false} ShiftLeftZero(k: nat)
    ensures ShiftLeft(0, k) == 0
  {
    if k > 0 {
      ShiftLeftZero(k - 1);
    }
  }

  lemma {:induction false} ShiftLeftAdds(a: nat, b: nat, k: nat)
    ensures ShiftLeft(a + b, k) == ShiftLeft(a, k) + ShiftLeft(b, k)
  {
    if k > 0 {
      ShiftLeftAdds(a, b, k - 1);
    }
  }

  lemma {:induction false} ShiftLeftMoves(a: nat, k: nat)
    ensures ShiftLeft(256 * a, k) == ShiftLeft(a, k + 1)
  {
    if k > 0 {
      ShiftLeftMoves(a, k - 1);
    }
  }

  /** Unmarshal: one node, and an error when bytes are left over. */
  method Unmarshal(dict: Dictionary, data: Bytes) returns (r: UnmarshalResult)
    requires dict.Valid()
    ensures r == P.Unmarshal(dict, data)
  {
    var d := new BinaryDecoder(dict, data);
    var n := d.ReadNode();
    match n
    case Err(e) => r := Rejected(e);
    case Ok(node) => r := if d.index != |d.data| then Rejected(Leftover) else Decoded(node);
  }
}

/**
 Nodes over an established connection: marshalled, sealed and framed on one side; reassembled, opened, unpacked and
 unmarshalled on the other (whatsmeow/socket/noisesocket.go, whatsmeow/binary/unpack.go, whatsmeow/client.go).
 */
module Transport {
  import opened Basics
  import opened Tokens
  import opened BinaryNode
  import opened BinaryFormat
  import opened BinaryParser
  import opened BinaryRoundTrip
  import opened FrameReassembly
  import opened Noise
  import opened NoiseHandshakes

  function SealedMessage(p: Primitives, key: Bytes, count: Uint32, plaintext: Bytes): Bytes {
    p.aeadSeal(key, IV(count), plaintext, [])
  }

  function OpenedMessage(p: Primitives, key: Bytes, count: Uint32, ciphertext: Bytes): Option<Bytes> {
    p.aeadOpen(key, IV(count), ciphertext, [])
  }

  /** The frame socket refuses a sealed message of 2^24 bytes or more; the caller only knows the plaintext. */
  predicate Sendable(plaintext: Bytes) {
    |plaintext| + TAG_LENGTH < FRAME_MAX_SIZE
  }

  /** The frames that SendFrame puts on the wire. A refused message has used its counter value all the same. */
  function SentFrames(p: Primitives, key: Bytes, count: Uint32, messages: seq<Bytes>): (frames: seq<Bytes>)
    requires p.Valid()
    ensures AllSendable(frames) && |frames| <= |messages|
    decreases messages
  {
    if messages == [] then []
    else
      var rest := SentFrames(p, key, Increment(count), messages[1..]);
      if Sendable(messages[0]) then [SealedMessage(p, key, count, messages[0])] + rest else rest
  }

  /** What receiveEncryptedFrame hands on: a frame that does not open is dropped and uses up a counter value. */
  function Received(p: Primitives, key: Bytes, count: Uint32, frames: seq<Bytes>): (messages: seq<Bytes>)
    ensures |messages| <= |frames|
    decreases frames
  {
    if frames == [] then []
    else
      var rest := Received(p, key, Increment(count), frames[1..]);
      match OpenedMessage(p, key, count, frames[0])
      case Some(m) => [m] + rest
      case None => rest
  }

  predicate AllMessagesSendable(messages: seq<Bytes>) {
    forall i :: 0 <= i < |messages| ==> Sendable(messages[i])
  }

  lemma {:induction false} RefusedMessagesAreMissing(p: Primitives, key: Bytes, count: Uint32, messages: seq<Bytes>)
    requires p.Valid()
    ensures |SentFrames(p, key, count, messages)| == |messages| <==> AllMessagesSendable(messages)
    decreases messages
  {
    hide Sendable, Increment;
    if messages != [] {
      RefusedMessagesAreMissing(p, key, Increment(count), messages[1..]);
    }
  }

  lemma {:induction false} SentFramesOpen(p: Primitives, key: Bytes, count: Uint32, messages: seq<Bytes>)
    requires p.Valid() && AllMessagesSendable(messages)
    ensures Received(p, key, count, SentFrames(p, key, count, messages)) == messages
    decreases messages
  {
    hide Increment, IV;
    if messages != [] {
      SentFramesOpen(p, key, Increment(count), messages[1..]);
      var rest := SentFrames(p, key, Increment(count), messages[1..]);
      var first := SealedMessage(p, key, count, messages[0]);
      assert ([first] + rest)[1..] == rest;
      assert OpenedMessage(p, key, count, first) == Some(messages[0]);
    }
  }

  /** A peer in step receives exactly the messages sent, in order, if and only if none of them was refused. */
  lemma DeliveredExactly(p: Primitives, key: Bytes, count: Uint32, messages: seq<Bytes>)
    requires p.Valid()
    ensures Received(p, key, count, SentFrames(p, key, count, messages)) == messages
      <==> AllMessagesSendable(messages)
  {
    RefusedMessagesAreMissing(p, key, count, messages);
    if AllMessagesSendable(messages) {
      SentFramesOpen(p, key, count, messages);
    }
  }

  // ---- A refused message puts the two counters out of step for good

  /** An AEAD that never opens a message sealed under another 12-byte nonce. */
  ghost predicate BindsNonce(p: Primitives) {
    forall k, m, n, o :: |n| == |o| == 12 && n != o ==> p.aeadOpen(k, o, p.aeadSeal(k, n, m, []), []) == None
  }

  function Ahead(count: Uint32, drift: nat): Uint32 {
    (count + drift) % 0x1_0000_0000
  }

  lemma WrapLater(a: nat, b: nat)
    ensures (a % 0x1_0000_0000 + b) % 0x1_0000_0000 == (a + b) % 0x1_0000_0000
  {
  }

  lemma AheadIncrement(count: Uint32, drift: nat)
    ensures Increment(Ahead(count, drift)) == Ahead(count, drift + 1)
    ensures Ahead(Increment(count), drift) == Ahead(count, drift + 1)
    ensures 0 < drift < 0x1_0000_0000 ==> Ahead(count, drift) != count
  {
    WrapLater(count + drift, 1);
    WrapLater(count + 1, drift);
    assert count + drift < 0x1_0000_0000 || Ahead(count, drift) == (count + drift - 0x1_0000_0000) % 0x1_0000_0000;
  }

  /** While the sender is ahead, nothing it sends can be opened. */
  lemma {:induction false} NothingOpens(p: Primitives, key: Bytes, count: Uint32, drift: nat, messages: seq<Bytes>)
    requires p.Valid() && BindsNonce(p) && 0 < drift && drift + |messages| <= 0x1_0000_0000
    ensures Received(p, key, count, SentFrames(p, key, Ahead(count, drift), messages)) == []
    decreases messages
  {
    hide Increment, Ahead, IV;
    if messages != [] {
      AheadIncrement(count, drift);
      var rest := SentFrames(p, key, Ahead(count, drift + 1), messages[1..]);
      if Sendable(messages[0]) {
        var first := SealedMessage(p, key, Ahead(count, drift), messages[0]);
        assert ([first] + rest)[1..] == rest;
        IVsDiffer(Ahead(count, drift), count);
        assert OpenedMessage(p, key, count, first) == None;
        NothingOpens(p, key, Increment(count), drift, messages[1..]);
      } else {
        NothingOpens(p, key, count, drift + 1, messages[1..]);
      }
    }
  }

  /** How many messages go out before the first one that is refused. */
  function BeforeRefusal(messages: seq<Bytes>): (n: nat)
    ensures n <= |messages|
  {
    if messages == [] || !Sendable(messages[0]) then 0 else 1 + BeforeRefusal(messages[1..])
  }

  /** Below 2^32 messages, the peer receives those before the first refused one, and never another. */
  lemma {:induction false} RefusalSilences(p: Primitives, key: Bytes, count: Uint32, messages: seq<Bytes>)
    requires p.Valid() && BindsNonce(p) && |messages| <= 0x1_0000_0000
    ensures Received(p, key, count, SentFrames(p, key, count, messages))
         == messages[..BeforeRefusal(messages)]
    decreases messages
  {
    hide IV;
    if messages != [] {
      var tail := messages[1..];
      var rest := SentFrames(p, key, Increment(count), tail);
      if Sendable(messages[0]) {
        var first := SealedMessage(p, key, count, messages[0]);
        assert ([first] + rest)[1..] == rest;
        assert OpenedMessage(p, key, count, first) == Some(messages[0]);
        RefusalSilences(p, key, Increment(count), tail);
        var n := BeforeRefusal(tail);
        assert messages[..n + 1] == [messages[0]] + tail[..n];
      } else {
        NothingOpens(p, key, count, 1, tail);
      }
    }
  }

  /** The smallest message that is refused: after it, nothing arrives. */
  lemma RefusedMessageExample(p: Primitives, key: Bytes, count: Uint32, message: Bytes)
    requires p.Valid() && BindsNonce(p)
    ensures var big := Zeros(FRAME_MAX_SIZE - TAG_LENGTH);
      !Sendable(big) && Sendable(big[1..]) && Received(p, key, count, SentFrames(p, key, count, [big, message])) == []
  {
    hide IV, SentFrames, Received;
    RefusalSilences(p, key, count, [Zeros(FRAME_MAX_SIZE - TAG_LENGTH), message]);
  }

  /** All the laws can be met together: constant hashes and keys, and an AEAD that writes its nonce before the message. */
  lemma NonceBindingExists()
    ensures exists q: Primitives :: q.Valid() && BindsNonce(q)
  {
    var zeros := Zeros(KEY_LENGTH);
    var q := Primitives((d: Bytes) => zeros, (s: Bytes, d: Bytes) => (zeros, zeros), NonceFirst(), NonceChecked(),
                        (a: Bytes, b: Bytes) => None, (a: Bytes) => zeros);
    assert q.Valid() by {
      forall k: Bytes, n: Bytes, m: Bytes, a: Bytes
        ensures q.aeadOpen(k, n, q.aeadSeal(k, n, m, a), a) == Some(m) && |q.aeadSeal(k, n, m, a)| == |m| + TAG_LENGTH
      {
        NonceFirstOpens(n, m);
      }
    }
    forall k: Bytes, m: Bytes, n: Bytes, o: Bytes | |n| == |o| == 12 && n != o
      ensures q.aeadOpen(k, o, q.aeadSeal(k, n, m, []), []) == None
    {
      NonceFirstOpens(n, m);
    }
  }

  function Front(n: Bytes): (f: Bytes)
    ensures |f| == TAG_LENGTH
  {
    if |n| == 12 then n + Zeros(4) else Zeros(TAG_LENGTH)
  }

  function NonceFirst(): (Bytes, Bytes, Bytes, Bytes) -> Bytes {
    (k: Bytes, n: Bytes, m: Bytes, a: Bytes) => Front(n) + m
  }

  function NonceChecked(): (Bytes, Bytes, Bytes, Bytes) -> Option<Bytes> {
    (k: Bytes, n: Bytes, c: Bytes, a: Bytes) =>
      if |c| >= TAG_LENGTH && c[..TAG_LENGTH] == Front(n) then Some(c[TAG_LENGTH..]) else None
  }

  lemma NonceFirstOpens(n: Bytes, m: Bytes)
    ensures (Front(n) + m)[..TAG_LENGTH] == Front(n) && (Front(n) + m)[TAG_LENGTH..] == m
    ensures |n| == 12 ==> Front(n)[..12] == n
  {
  }

  // ---- Nodes

  datatype Handled = Dispatched(node: Node) | Dropped | Panicked

  /** Unpack: bit 2 of the first byte says whether the rest is compressed. Empty data has no first byte to index. */
  function Unpack(inflate: Bytes -> Option<Bytes>, data: Bytes): Option<Bytes>
    requires data != []
  {
    if data[0] / 2 % 2 == 1 then inflate(data[1..]) else Some(data[1..])
  }

  /** handleFrame up to the dispatch of the node. */
  function HandleFrame(inflate: Bytes -> Option<Bytes>, dict: Dictionary, data: Bytes): Handled
    requires dict.Valid()
  {
    if data == [] then Panicked
    else match Unpack(inflate, data)
      case None => Dropped
      case Some(unpacked) =>
        match Unmarshal(dict, unpacked)
        case Decoded(n) => Dispatched(n)
        case Rejected(e) => if e == TypeAssertion then Panicked else Dropped
  }

  predicate WellFormed(dict: Dictionary, n: Node)
    requires dict.Valid()
  {
    NodeFits(dict, n) && NodeIsGo(n) && NodeIsSound(n)
  }

  lemma HandleMarshalled(inflate: Bytes -> Option<Bytes>, dict: Dictionary, n: Node)
    requires dict.Valid() && WellFormed(dict, n)
    ensures HandleFrame(inflate, dict, Marshal(dict, n)) == Dispatched(NormalNode(dict, n))
  {
    hide ReadNode, NodeBytes, NormalNode;
    assert Marshal(dict, n)[1..] == NodeBytes(dict, n);
    assert NodeBytes(dict, n) + [] == NodeBytes(dict, n);
    ReadNodeBytes(dict, n, []);
  }

  function MarshalAll(dict: Dictionary, ns: seq<Node>): (r: seq<Bytes>)
    requires dict.Valid()
    ensures |r| == |ns|
  {
    seq(|ns|, i requires 0 <= i < |ns| => Marshal(dict, ns[i]))
  }

  function HandleAll(inflate: Bytes -> Option<Bytes>, dict: Dictionary, messages: seq<Bytes>): (r: seq<Handled>)
    requires dict.Valid()
    ensures |r| == |messages|
  {
    seq(|messages|, i requires 0 <= i < |messages| => HandleFrame(inflate, dict, messages[i]))
  }

  datatype Arrival = Arrived(handled: seq<Handled>) | SocketCrashed

  /** Everything the receiving side makes of the chunks that arrive. */
  function Arrive(p: Primitives, inflate: Bytes -> Option<Bytes>, dict: Dictionary, key: Bytes, chunks: seq<Bytes>): Arrival
    requires dict.Valid()
  {
    match ProcessAll(FRAME_LENGTH_SIZE, Idle([]), chunks)
    case Crashed => SocketCrashed
    case Fed(s) => Arrived(HandleAll(inflate, dict, Received(p, key, 0, s.frames)))
  }

  /**
   Well-formed nodes, none too large, arrive as their normal forms, in order, however the stream is cut into chunks none
   of which ends after the prefix of a frame and before its end.
   */
  lemma ConversationArrives(p: Primitives, inflate: Bytes -> Option<Bytes>, dict: Dictionary, key: Bytes,
                            ns: seq<Node>, chunks: seq<Bytes>)
    requires p.Valid() && dict.Valid()
    requires forall i :: 0 <= i < |ns| ==> WellFormed(dict, ns[i])
    requires AllMessagesSendable(MarshalAll(dict, ns))
    requires Flatten(chunks) == Stream(SentFrames(p, key, 0, MarshalAll(dict, ns))) && NoPayloadPending(chunks)
    ensures var r := Arrive(p, inflate, dict, key, chunks);
      && r.Arrived? && |r.handled| == |ns|
      && forall i :: 0 <= i < |ns| ==> r.handled[i] == Dispatched(NormalNode(dict, ns[i]))
  {
    hide NormalNode, ProcessAll, SentFrames, Received, AllMessagesSendable, NoPayloadPending, WellFormed, HandleFrame, Marshal;
    var messages := MarshalAll(dict, ns);
    DeliversExactly(SentFrames(p, key, 0, messages), chunks);
    SentFramesOpen(p, key, 0, messages);
    forall i | 0 <= i < |ns| ensures HandleAll(inflate, dict, messages)[i] == Dispatched(NormalNode(dict, ns[i])) {
      HandleMarshalled(inflate, dict, ns[i]);
    }
  }

  /**
   From the handshake to the nodes: once the client completes against a server that follows the pattern, the nodes it
   sends arrive at that server, which reads with its own copy of the key.
   */
  lemma SessionCarriesNodes(p: Primitives, c: Client, v: Server, header: Bytes, inflate: Bytes -> Option<Bytes>,
                            dict: Dictionary, ns: seq<Node>, chunks: seq<Bytes>)
    requires p.Valid() && dict.Valid()
    requires Answer(p, v, header, p.publicKey(c.ephemeral)).Some?
    requires OnServerHello(p, c, header, Some(Answer(p, v, header, p.publicKey(c.ephemeral)).value.1)).Completed?
    requires forall i :: 0 <= i < |ns| ==> WellFormed(dict, ns[i])
    requires var (s, hello) := Answer(p, v, header, p.publicKey(c.ephemeral)).value;
      var key := OnServerHello(p, c, header, Some(hello)).write;
      && AllMessagesSendable(MarshalAll(dict, ns))
      && Flatten(chunks) == Stream(SentFrames(p, key, 0, MarshalAll(dict, ns))) && NoPayloadPending(chunks)
    ensures var (s, hello) := Answer(p, v, header, p.publicKey(c.ephemeral)).value;
      var session := Accept(p, v, s, OnServerHello(p, c, header, Some(hello)).finish);
      && session.Some? && session.value.payload == c.payload
      && var r := Arrive(p, inflate, dict, session.value.read, chunks);
         && r.Arrived? && |r.handled| == |ns|
         && forall i :: 0 <= i < |ns| ==> r.handled[i] == Dispatched(NormalNode(dict, ns[i]))
  {
    hide Answer, OnServerHello, Accept, Arrive, AllMessagesSendable, SentFrames, NoPayloadPending, WellFormed, Marshal;
    HandshakeAgrees(p, c, v, header);
    var hello := Answer(p, v, header, p.publicKey(c.ephemeral)).value.1;
    ConversationArrives(p, inflate, dict, OnServerHello(p, c, header, Some(hello)).write, ns, chunks);
  }
}

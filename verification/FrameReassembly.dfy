/** Length-prefixed frames over a stream of chunks (whatsmeow/socket/framesocket.go). */
module FrameReassembly {
  import opened Basics
  import opened BigEndian

  const FRAME_MAX_SIZE := 0x100_0000
  const FRAME_LENGTH_SIZE := 3

  /** The reassembly state, and the frames delivered so far. */
  datatype Reassembly = Reassembly(
    partialHeader: Option<Bytes>,
    incoming: Option<Bytes>,
    incomingLength: nat,
    receivedLength: nat,
    frames: seq<Bytes>)

  /** Nothing pending: the state in which the socket starts and after each frame. */
  function Idle(frames: seq<Bytes>): Reassembly {
    Reassembly(None, None, 0, 0, frames)
  }

  /** Crashed is the slice bound panic of the source. */
  datatype Outcome = Fed(state: Reassembly) | Crashed

  function Zeros(n: nat): (z: Bytes)
    ensures |z| == n
  {
    seq(n, _ => 0)
  }

  /** Go's copy(dst[at..], src): as much of src as fits. */
  function CopyInto(dst: Bytes, at: nat, src: Bytes): (r: Bytes)
    requires at <= |dst|
    ensures |r| == |dst|
  {
    var n := if |src| <= |dst| - at then |src| else |dst| - at;
    dst[..at] + src[..n] + dst[at + n..]
  }

  function HeldBack(s: Reassembly): Bytes {
    match s.partialHeader
    case Some(p) => p
    case None => []
  }

  /**
   processData on one chunk. The first parameter is how many of the length prefix's bytes receivedLength counts:
   FRAME_LENGTH_SIZE in the source.
   */
  function ProcessData(counted: nat, s: Reassembly, msg: Bytes): Outcome
    decreases |msg| + |HeldBack(s)|, if s.incoming.Some? then 1 else 0
  {
    if msg == [] then Fed(s)
    else
      var m := HeldBack(s) + msg;
      match s.incoming
      case None =>
        if |m| < FRAME_LENGTH_SIZE then Fed(s.(partialHeader := Some(m)))
        else
          var length, body := IntOf(m[..FRAME_LENGTH_SIZE]), m[FRAME_LENGTH_SIZE..];
          if |body| >= length then ProcessData(counted, Idle(s.frames + [body[..length]]), body[length..])
          else Fed(Reassembly(None, Some(body + Zeros(length - |body|)), length, counted + |body|, s.frames))
      case Some(incoming) =>
        if s.receivedLength + |m| >= s.incomingLength then
          if s.receivedLength > s.incomingLength || s.receivedLength > |incoming| then Crashed
          else
            var missing := s.incomingLength - s.receivedLength;
            ProcessData(counted, Idle(s.frames + [CopyInto(incoming, s.receivedLength, m[..missing])]), m[missing..])
        else if s.receivedLength > |incoming| then Crashed
        else
          Fed(Reassembly(None, Some(CopyInto(incoming, s.receivedLength, m)),
                         s.incomingLength, s.receivedLength + |m|, s.frames))
  }

  function ProcessAll(counted: nat, s: Reassembly, chunks: seq<Bytes>): Outcome
    decreases chunks
  {
    if chunks == [] then Fed(s)
    else match ProcessData(counted, s, chunks[0])
      case Crashed => Crashed
      case Fed(t) => ProcessAll(counted, t, chunks[1..])
  }

  // ---- What was sent

  /** The bytes of one frame, as SendFrame writes them after the connection header. */
  function FrameBytes(data: Bytes): Bytes
    requires |data| < FRAME_MAX_SIZE
  {
    IntBytes(|data|, 3) + data
  }

  predicate AllSendable(frames: seq<Bytes>) {
    forall i :: 0 <= i < |frames| ==> |frames[i]| < FRAME_MAX_SIZE
  }

  function Stream(frames: seq<Bytes>): Bytes
    requires AllSendable(frames)
  {
    if frames == [] then [] else FrameBytes(frames[0]) + Stream(frames[1..])
  }

  function Flatten(chunks: seq<Bytes>): Bytes {
    if chunks == [] then [] else chunks[0] + Flatten(chunks[1..])
  }

  // ---- The meaning of a byte stream, whatever its chunks: its complete frames and the unfinished rest

  function HasFrame(b: Bytes): bool {
    |b| >= FRAME_LENGTH_SIZE && |b| - FRAME_LENGTH_SIZE >= IntOf(b[..FRAME_LENGTH_SIZE])
  }

  function FrameEnd(b: Bytes): (n: nat)
    requires HasFrame(b)
    ensures FRAME_LENGTH_SIZE <= n <= |b|
  {
    FRAME_LENGTH_SIZE + IntOf(b[..FRAME_LENGTH_SIZE])
  }

  function Complete(b: Bytes): seq<Bytes>
    decreases |b|
  {
    if HasFrame(b) then [b[FRAME_LENGTH_SIZE..FrameEnd(b)]] + Complete(b[FrameEnd(b)..]) else []
  }

  function Rest(b: Bytes): (r: Bytes)
    ensures !HasFrame(r)
    decreases |b|
  {
    if HasFrame(b) then Rest(b[FrameEnd(b)..]) else b
  }

  /** The state that holds an unfinished rest after some frames. */
  function Pending(counted: nat, frames: seq<Bytes>, r: Bytes): Reassembly
    requires !HasFrame(r)
  {
    if r == [] then Idle(frames)
    else if |r| < FRAME_LENGTH_SIZE then Idle(frames).(partialHeader := Some(r))
    else
      var length, body := IntOf(r[..FRAME_LENGTH_SIZE]), r[FRAME_LENGTH_SIZE..];
      Reassembly(None, Some(body + Zeros(length - |body|)), length, counted + |body|, frames)
  }

  lemma HasFrameAppend(a: Bytes, b: Bytes)
    requires HasFrame(a)
    ensures HasFrame(a + b) && FrameEnd(a + b) == FrameEnd(a)
    ensures (a + b)[..FrameEnd(a)] == a[..FrameEnd(a)] && (a + b)[FrameEnd(a)..] == a[FrameEnd(a)..] + b
    ensures (a + b)[FRAME_LENGTH_SIZE..FrameEnd(a)] == a[FRAME_LENGTH_SIZE..FrameEnd(a)]
  {
    assert (a + b)[..FRAME_LENGTH_SIZE] == a[..FRAME_LENGTH_SIZE];
  }

  /** Reading more bytes continues from the unfinished rest. */
  lemma {:induction false} RestContinues(a: Bytes, b: Bytes)
    ensures Complete(a + b) == Complete(a) + Complete(Rest(a) + b)
    ensures Rest(a + b) == Rest(Rest(a) + b)
    decreases |a|
  {
    if HasFrame(a) {
      HasFrameAppend(a, b);
      RestContinues(a[FrameEnd(a)..], b);
    }
  }

  /** From an idle state a chunk leaves its complete frames delivered and its rest pending. */
  lemma {:induction false} IdleFeed(counted: nat, frames: seq<Bytes>, m: Bytes)
    ensures ProcessData(counted, Idle(frames), m) == Fed(Pending(counted, frames + Complete(m), Rest(m)))
    decreases |m|
  {
    assert [] + m == m;
    if HasFrame(m) {
      var frame, tail := m[FRAME_LENGTH_SIZE..FrameEnd(m)], m[FrameEnd(m)..];
      var body := m[FRAME_LENGTH_SIZE..];
      var length := IntOf(m[..FRAME_LENGTH_SIZE]);
      assert body[..length] == frame && body[length..] == tail;
      IdleFeed(counted, frames + [frame], tail);
      AppendAssoc(frames, [frame], Complete(tail));
    } else {
      assert frames + [] == frames;
    }
  }

  /** Bytes held back as a partial header are as good as bytes not yet read. */
  lemma HeaderFeed(counted: nat, frames: seq<Bytes>, r: Bytes, c: Bytes)
    requires |r| < FRAME_LENGTH_SIZE && c != []
    ensures ProcessData(counted, Pending(counted, frames, r), c) == ProcessData(counted, Idle(frames), r + c)
  {
    assert [] + (r + c) == r + c;
    if r == [] {
      assert r + c == c;
    }
  }

  lemma PayloadJoined(body: Bytes, c: Bytes, length: nat)
    requires |body| < length
    ensures var incoming := body + Zeros(length - |body|);
      && (|body| + |c| >= length ==>
           && CopyInto(incoming, |body|, c[..length - |body|]) == (body + c)[..length]
           && c[length - |body|..] == (body + c)[length..])
      && (|body| + |c| < length ==> CopyInto(incoming, |body|, c) == body + c + Zeros(length - |body + c|))
  {
  }

  /** One turn of the loop while no payload is pending. */
  lemma TurnAtHeader(counted: nat, s: Reassembly, msg: Bytes)
    requires msg != [] && s.incoming.None?
    ensures var m := HeldBack(s) + msg;
      ProcessData(counted, s, msg) ==
        if |m| < FRAME_LENGTH_SIZE then Fed(s.(partialHeader := Some(m)))
        else
          var length, body := IntOf(m[..FRAME_LENGTH_SIZE]), m[FRAME_LENGTH_SIZE..];
          if |body| >= length then ProcessData(counted, Idle(s.frames + [body[..length]]), body[length..])
          else Fed(Reassembly(None, Some(CopyInto(Zeros(length), 0, body)), length, counted + |body|, s.frames))
  {
    var m := HeldBack(s) + msg;
    if |m| >= FRAME_LENGTH_SIZE {
      var length, body := IntOf(m[..FRAME_LENGTH_SIZE]), m[FRAME_LENGTH_SIZE..];
      if |body| < length {
        CopyIntoZeros(length, body);
      }
    }
  }

  /** One turn of the loop on a pending payload. */
  lemma TurnAtPayload(counted: nat, s: Reassembly, msg: Bytes)
    requires msg != [] && s.incoming.Some?
    ensures var m, received, incoming := HeldBack(s) + msg, s.receivedLength, s.incoming.value;
      ProcessData(counted, s, msg) ==
        if received + |m| >= s.incomingLength then
          if received > s.incomingLength || received > |incoming| then Crashed
          else
            var missing := s.incomingLength - received;
            ProcessData(counted, Idle(s.frames + [CopyInto(incoming, received, m[..missing])]), m[missing..])
        else if received > |incoming| then Crashed
        else Fed(Reassembly(None, Some(CopyInto(incoming, received, m)), s.incomingLength, received + |m|, s.frames))
  {
  }

  lemma HeldBackJoins(counted: nat, s: Reassembly, msg: Bytes)
    requires msg != []
    ensures ProcessData(counted, s.(partialHeader := None), HeldBack(s) + msg) == ProcessData(counted, s, msg)
  {
    hide ProcessData;
    var m := HeldBack(s) + msg;
    assert [] + m == m;
    if s.incoming.None? {
      TurnAtHeader(counted, s, msg);
      TurnAtHeader(counted, s.(partialHeader := None), m);
    } else {
      TurnAtPayload(counted, s, msg);
      TurnAtPayload(counted, s.(partialHeader := None), m);
    }
  }

  lemma NoMoreTurns(counted: nat, s: Reassembly)
    ensures ProcessData(counted, s, []) == Fed(s)
  {
  }

  /** With a receivedLength that leaves out the prefix, an unfinished payload continues where it stopped. */
  lemma PayloadFeed(frames: seq<Bytes>, r: Bytes, c: Bytes)
    requires |r| >= FRAME_LENGTH_SIZE && !HasFrame(r) && c != []
    ensures ProcessData(0, Pending(0, frames, r), c) == ProcessData(0, Idle(frames), r + c)
  {
    hide ProcessData, Zeros, CopyInto, IntOf;
    var length, body := IntOf(r[..FRAME_LENGTH_SIZE]), r[FRAME_LENGTH_SIZE..];
    var s, m := Pending(0, frames, r), r + c;
    assert [] + c == c && [] + m == m;
    assert m[..FRAME_LENGTH_SIZE] == r[..FRAME_LENGTH_SIZE];
    assert m[FRAME_LENGTH_SIZE..] == body + c;
    TurnAtPayload(0, s, c);
    TurnAtHeader(0, Idle(frames), m);
    PayloadJoined(body, c, length);
    if |body + c| < length {
      CopyIntoZeros(length, body + c);
    }
  }

  lemma CopyIntoZeros(length: nat, body: Bytes)
    requires |body| <= length
    ensures CopyInto(Zeros(length), 0, body) == body + Zeros(length - |body|)
  {
  }

  /** One chunk, from the state of any stream read so far; unless a payload is unfinished and the prefix was counted. */
  lemma FeedFrom(counted: nat, p: Bytes, c: Bytes)
    requires counted == 0 || |Rest(p)| < FRAME_LENGTH_SIZE
    ensures ProcessData(counted, Pending(counted, Complete(p), Rest(p)), c)
         == Fed(Pending(counted, Complete(p + c), Rest(p + c)))
  {
    if c == [] {
      assert p + c == p;
    } else {
      RestContinues(p, c);
      IdleFeed(counted, Complete(p), Rest(p) + c);
      if |Rest(p)| < FRAME_LENGTH_SIZE {
        HeaderFeed(counted, Complete(p), Rest(p), c);
      } else {
        PayloadFeed(Complete(p), Rest(p), c);
      }
    }
  }

  // ---- Whole streams, in any chunks

  lemma {:induction false} ProcessAllFrom(counted: nat, p: Bytes, chunks: seq<Bytes>)
    requires counted == 0 || forall k :: 0 <= k < |chunks| ==> |Rest(p + Flatten(chunks[..k]))| < FRAME_LENGTH_SIZE
    ensures ProcessAll(counted, Pending(counted, Complete(p), Rest(p)), chunks)
         == Fed(Pending(counted, Complete(p + Flatten(chunks)), Rest(p + Flatten(chunks))))
    decreases chunks
  {
    if chunks == [] {
      assert p + [] == p;
    } else {
      assert chunks[..0] == [] && p + [] == p;
      FeedFrom(counted, p, chunks[0]);
      forall k | 0 <= k < |chunks[1..]|
        ensures p + chunks[0] + Flatten(chunks[1..][..k]) == p + Flatten(chunks[..k + 1])
      {
        assert chunks[..k + 1][1..] == chunks[1..][..k];
        AppendAssoc(p, chunks[0], Flatten(chunks[1..][..k]));
      }
      AppendAssoc(p, chunks[0], Flatten(chunks[1..]));
      ProcessAllFrom(counted, p + chunks[0], chunks[1..]);
    }
  }

  /** A stream of frames parses back into exactly those frames, with nothing left over. */
  lemma {:induction false} StreamParses(frames: seq<Bytes>)
    requires AllSendable(frames)
    ensures Complete(Stream(frames)) == frames && Rest(Stream(frames)) == []
  {
    if frames != [] {
      var f, b := frames[0], FrameBytes(frames[0]);
      ShiftLeftOne();
      IntRoundTrip(|f|, 3);
      assert b[..FRAME_LENGTH_SIZE] == IntBytes(|f|, 3) && b[FRAME_LENGTH_SIZE..] == f;
      assert HasFrame(b) && FrameEnd(b) == |b| && b[|b|..] == [];
      HasFrameAppend(b, Stream(frames[1..]));
      assert b[FRAME_LENGTH_SIZE..FrameEnd(b)] == f;
      DropAppend(b, Stream(frames[1..]));
      StreamParses(frames[1..]);
    }
  }

  /** If receivedLength left out the prefix, every chunking of a stream would deliver exactly its frames. */
  lemma CorrectedCountDelivers(frames: seq<Bytes>, chunks: seq<Bytes>)
    requires AllSendable(frames) && Flatten(chunks) == Stream(frames)
    ensures ProcessAll(0, Idle([]), chunks) == Fed(Idle(frames))
  {
    StreamParses(frames);
    ProcessAllFrom(0, [], chunks);
    assert [] + Flatten(chunks) == Flatten(chunks);
  }

  /**
   No chunk ends after the prefix of a non-empty frame and before its end: each ends between two frames or inside a
   three-byte prefix.
   */
  predicate NoPayloadPending(chunks: seq<Bytes>) {
    forall k :: 0 <= k < |chunks| ==> NonePending(chunks[..k])
  }

  predicate NonePending(chunks: seq<Bytes>) {
    |Rest(Flatten(chunks))| < FRAME_LENGTH_SIZE
  }

  function FrameWeight(frames: seq<Bytes>): nat {
    if frames == [] then 0 else FrameWeight(frames[..|frames| - 1]) + FRAME_LENGTH_SIZE + |frames[|frames| - 1]|
  }

  /** How many bytes the state claims to have taken in. */
  function Weight(s: Reassembly): nat {
    FrameWeight(s.frames) + |HeldBack(s)| + if s.incoming.Some? then s.receivedLength else 0
  }

  predicate WellSized(s: Reassembly) {
    s.incoming.Some? ==> |s.incoming.value| == s.incomingLength
  }

  function Surplus(s: Reassembly, t: Reassembly): nat {
    if s.incoming.Some? && t.incoming.None? then FRAME_LENGTH_SIZE else 0
  }

  lemma FrameWeightLast(frames: seq<Bytes>, f: Bytes)
    ensures FrameWeight(frames + [f]) == FrameWeight(frames) + FRAME_LENGTH_SIZE + |f|
  {
    assert (frames + [f])[..|frames|] == frames;
  }

  /** Counting the prefix, each payload finished in a later chunk claims three bytes that were never received. */
  lemma {:induction false} ProcessDataWeight(s: Reassembly, msg: Bytes)
    requires WellSized(s) && ProcessData(FRAME_LENGTH_SIZE, s, msg).Fed?
    ensures var t := ProcessData(FRAME_LENGTH_SIZE, s, msg).state;
      WellSized(t) && Weight(t) >= Weight(s) + |msg| + Surplus(s, t)
    decreases |msg| + |HeldBack(s)|, if s.incoming.Some? then 1 else 0
  {
    if msg != [] {
      var m := HeldBack(s) + msg;
      if s.incoming.None? {
        if |m| >= FRAME_LENGTH_SIZE {
          var length, body := IntOf(m[..FRAME_LENGTH_SIZE]), m[FRAME_LENGTH_SIZE..];
          if |body| >= length {
            FrameWeightLast(s.frames, body[..length]);
            ProcessDataWeight(Idle(s.frames + [body[..length]]), body[length..]);
          }
        }
      } else if s.receivedLength + |m| >= s.incomingLength {
        var missing := s.incomingLength - s.receivedLength;
        var frame := CopyInto(s.incoming.value, s.receivedLength, m[..missing]);
        FrameWeightLast(s.frames, frame);
        ProcessDataWeight(Idle(s.frames + [frame]), m[missing..]);
      }
    }
  }

  lemma {:induction false} ProcessAllWeight(s: Reassembly, chunks: seq<Bytes>)
    requires WellSized(s) && ProcessAll(FRAME_LENGTH_SIZE, s, chunks).Fed?
    ensures var t := ProcessAll(FRAME_LENGTH_SIZE, s, chunks).state;
      WellSized(t) && Weight(t) >= Weight(s) + |Flatten(chunks)| + Surplus(s, t)
    decreases chunks
  {
    hide ProcessData, Weight;
    if chunks != [] {
      ProcessDataWeight(s, chunks[0]);
      ProcessAllWeight(ProcessData(FRAME_LENGTH_SIZE, s, chunks[0]).state, chunks[1..]);
    }
  }

  lemma {:induction false} StreamWeight(frames: seq<Bytes>)
    requires AllSendable(frames)
    ensures FrameWeight(frames) == |Stream(frames)|
  {
    if frames != [] {
      var last := |frames| - 1;
      StreamWeight(frames[..last]);
      StreamLast(frames[..last], frames[last]);
      assert frames == frames[..last] + [frames[last]];
    }
  }

  lemma {:induction false} StreamLast(frames: seq<Bytes>, f: Bytes)
    requires AllSendable(frames) && |f| < FRAME_MAX_SIZE
    ensures AllSendable(frames + [f]) && Stream(frames + [f]) == Stream(frames) + FrameBytes(f)
  {
    if frames == [] {
      assert [] + [f] == [f];
    } else {
      assert (frames + [f])[1..] == frames[1..] + [f];
      StreamLast(frames[1..], f);
      AppendAssoc(FrameBytes(frames[0]), Stream(frames[1..]), FrameBytes(f));
    }
  }

  lemma {:induction false} RestOfBytes(p: Bytes)
    ensures FrameWeight(Complete(p)) + |Rest(p)| == |p|
    decreases |p|
  {
    if HasFrame(p) {
      var f, tail := p[FRAME_LENGTH_SIZE..FrameEnd(p)], p[FrameEnd(p)..];
      RestOfBytes(tail);
      FrameWeightFirst(f, Complete(tail));
    }
  }

  lemma {:induction false} FrameWeightFirst(f: Bytes, frames: seq<Bytes>)
    ensures FrameWeight([f] + frames) == FRAME_LENGTH_SIZE + |f| + FrameWeight(frames)
  {
    if frames == [] {
      assert [f] + frames == [f] && [f][..0] == [];
    } else {
      var last := |frames| - 1;
      FrameWeightFirst(f, frames[..last]);
      assert ([f] + frames)[..|frames|] == [f] + frames[..last];
    }
  }

  lemma {:induction false} ProcessAllSplit(counted: nat, s: Reassembly, a: seq<Bytes>, b: seq<Bytes>)
    requires ProcessAll(counted, s, a).Fed?
    ensures ProcessAll(counted, s, a + b) == ProcessAll(counted, ProcessAll(counted, s, a).state, b)
    decreases a
  {
    hide ProcessData;
    if a == [] {
      assert a + b == b;
    } else {
      assert (a + b)[0] == a[0] && (a + b)[1..] == a[1..] + b;
      ProcessAllSplit(counted, ProcessData(counted, s, a[0]).state, a[1..], b);
    }
  }

  lemma {:induction false} FlattenSplit(a: seq<Bytes>, b: seq<Bytes>)
    ensures Flatten(a + b) == Flatten(a) + Flatten(b)
  {
    if a == [] {
      assert a + b == b;
    } else {
      assert (a + b)[1..] == a[1..] + b;
      FlattenSplit(a[1..], b);
      AppendAssoc(a[0], Flatten(a[1..]), Flatten(b));
    }
  }

  /** A payload pending at the end of a chunk is never repaired: the run panics or claims bytes it never got. */
  lemma SplitPayloadOverclaims(chunks: seq<Bytes>, k: nat)
    requires k <= |chunks| && NoPayloadPending(chunks[..k])
    requires |Rest(Flatten(chunks[..k]))| >= FRAME_LENGTH_SIZE
    ensures match ProcessAll(FRAME_LENGTH_SIZE, Idle([]), chunks)
      case Crashed => true
      case Fed(t) => t.incoming.Some? || Weight(t) > |Flatten(chunks)|
  {
    hide ProcessData;
    var a, b := chunks[..k], chunks[k..];
    var p := Flatten(a);
    assert a + b == chunks && [] + p == p;
    forall i | 0 <= i < |a| ensures |Rest([] + Flatten(a[..i]))| < FRAME_LENGTH_SIZE {
      assert [] + Flatten(a[..i]) == Flatten(a[..i]);
    }
    ProcessAllFrom(FRAME_LENGTH_SIZE, [], a);
    var s := Pending(FRAME_LENGTH_SIZE, Complete(p), Rest(p));
    assert ProcessAll(FRAME_LENGTH_SIZE, Idle([]), a) == Fed(s);
    ProcessAllSplit(FRAME_LENGTH_SIZE, Idle([]), a, b);
    RestOfBytes(p);
    assert Weight(s) == |p|;
    FlattenSplit(a, b);
    if ProcessAll(FRAME_LENGTH_SIZE, s, b).Fed? {
      ProcessAllWeight(s, b);
    }
  }

  lemma {:induction false} FirstSplit(chunks: seq<Bytes>, n: nat) returns (k: nat)
    requires n < |chunks| && !NonePending(chunks[..n])
    ensures k < |chunks| && NoPayloadPending(chunks[..k]) && !NonePending(chunks[..k])
    decreases n
  {
    hide NonePending;
    if i :| 0 <= i < n && !NonePending(chunks[..i]) {
      k := FirstSplit(chunks, i);
    } else {
      k := n;
      forall i | 0 <= i < n ensures NonePending(chunks[..n][..i]) {
        assert chunks[..n][..i] == chunks[..i];
      }
    }
  }

  /**
   As written, the chunks of a stream deliver exactly its frames, in order and with nothing pending, if and only if
   no chunk ends after the prefix of a non-empty frame and before its end.
   */
  lemma DeliversExactly(frames: seq<Bytes>, chunks: seq<Bytes>)
    requires AllSendable(frames) && Flatten(chunks) == Stream(frames)
    ensures ProcessAll(FRAME_LENGTH_SIZE, Idle([]), chunks) == Fed(Idle(frames)) <==> NoPayloadPending(chunks)
  {
    hide ProcessData, ProcessAll;
    assert [] + Flatten(chunks) == Flatten(chunks);
    if NoPayloadPending(chunks) {
      forall i | 0 <= i < |chunks| ensures |Rest([] + Flatten(chunks[..i]))| < FRAME_LENGTH_SIZE {
        assert NonePending(chunks[..i]);
        assert [] + Flatten(chunks[..i]) == Flatten(chunks[..i]);
      }
      StreamParses(frames);
      ProcessAllFrom(FRAME_LENGTH_SIZE, [], chunks);
    } else {
      var n :| 0 <= n < |chunks| && !NonePending(chunks[..n]);
      var k := FirstSplit(chunks, n);
      SplitPayloadOverclaims(chunks, k);
      StreamWeight(frames);
    }
  }

  lemma SplitPayloadCorrupts()
    ensures var r := ProcessAll(FRAME_LENGTH_SIZE, Idle([]), [[0, 0, 4, 1], [2, 3, 4]]);
      r.Fed? && r.state.frames == [[1, 0, 0, 0]]
  {
    hide ProcessData;
    SplitOpens();
    SplitOverwrites();
    var c, d: Bytes := [0, 0, 4, 1], [2, 3, 4];
    assert [c, d][1..] == [d] && [d][1..] == [];
  }

  /** The first chunk: a payload of four bytes is begun, and all four bytes of the chunk are counted. */
  lemma SplitOpens()
    ensures ProcessData(FRAME_LENGTH_SIZE, Idle([]), [0, 0, 4, 1]) == Fed(Reassembly(None, Some([1, 0, 0, 0]), 4, 4, []))
  {
    hide ProcessData;
    var c: Bytes, body: Bytes := [0, 0, 4, 1], [1];
    TurnAtHeader(FRAME_LENGTH_SIZE, Idle([]), c);
    NumberOf(0, 0, 4);
    assert [] + c == c && c[..3] == [0, 0, 4] && c[3..] == body;
    assert body + Zeros(3) == [1, 0, 0, 0];
    CopyIntoZeros(4, body);
  }

  /** The second chunk: nothing seems to be missing, so the payload is handed over and the chunk read as a prefix. */
  lemma SplitOverwrites()
    ensures var r := ProcessData(FRAME_LENGTH_SIZE, Reassembly(None, Some([1, 0, 0, 0]), 4, 4, []), [2, 3, 4]);
      r.Fed? && r.state.frames == [[1, 0, 0, 0]]
  {
    hide ProcessData;
    var d: Bytes, payload: Bytes := [2, 3, 4], [1, 0, 0, 0];
    TurnAtPayload(FRAME_LENGTH_SIZE, Reassembly(None, Some(payload), 4, 4, []), d);
    assert [] + d == d && d[0..] == d && d[..0] == [] && d[..3] == d && d[3..] == [];
    assert CopyInto(payload, 4, []) == payload;
    assert [] + [payload] == [payload];
    TurnAtHeader(FRAME_LENGTH_SIZE, Idle([payload]), d);
    NumberOf(2, 3, 4);
  }

  lemma SplitPayloadPanics()
    ensures ProcessAll(FRAME_LENGTH_SIZE, Idle([]), [[0, 0, 2, 1], [2]]) == Crashed
  {
    NumberOf(0, 0, 2);
    var c, d: Bytes := [0, 0, 2, 1], [2];
    assert [] + c == c && c[..3] == [0, 0, 2] && c[3..] == [1];
    assert [c, d][1..] == [d];
    assert [] + d == d;
  }

  /** One payload of four bytes, split after its first byte, arrives as other bytes; one of two bytes panics. */
  lemma SplitPayloadExamples()
    ensures Stream([[1, 2, 3, 4]]) == [0, 0, 4, 1, 2, 3, 4] && Stream([[1, 2]]) == [0, 0, 2, 1, 2]
    ensures var r := ProcessAll(FRAME_LENGTH_SIZE, Idle([]), [[0, 0, 4, 1], [2, 3, 4]]);
      r.Fed? && r.state.frames == [[1, 0, 0, 0]]
    ensures ProcessAll(FRAME_LENGTH_SIZE, Idle([]), [[0, 0, 2, 1], [2]]) == Crashed
  {
    SplitPayloadCorrupts();
    SplitPayloadPanics();
    hide ProcessAll;
    assert IntBytes(4, 3) == [0, 0, 4] && IntBytes(2, 3) == [0, 0, 2];
  }

  /** The three prefix bytes, as the socket adds them up. */
  lemma NumberOf(a: Byte, b: Byte, c: Byte)
    ensures IntOf([a, b, c]) == a * 0x1_0000 + b * 0x100 + c
  {
    assert [a, b, c][..2] == [a, b] && [a, b][..1] == [a] && [a][..0] == [];
    assert IntOf([a]) == a;
    assert IntOf([a, b]) == 256 * IntOf([a]) + b;
  }
}

/** The frame socket object (whatsmeow/socket/framesocket.go), against the functions of FrameReassembly. */
module FrameSockets {
  import opened Basics
  import opened BigEndian
  import R = FrameReassembly
  import opened FrameReassembly

  lemma LengthBytes(n: nat)
    ensures IntBytes(n, 3) == [n / 0x1_0000 % 256, n / 0x100 % 256, n % 256]
  {
    assert n / 256 / 256 == n / 0x1_0000;
    assert IntBytes(n / 0x1_0000, 1) == [n / 0x1_0000 % 256];
    assert IntBytes(n / 256, 2) == IntBytes(n / 256 / 256, 1) + [n / 256 % 256];
  }

  /** The three length bytes shifted and added. */
  method ReadLength(msg: Bytes) returns (length: nat)
    requires |msg| >= FRAME_LENGTH_SIZE
    ensures length == IntOf(msg[..FRAME_LENGTH_SIZE])
  {
    NumberOf(msg[0], msg[1], msg[2]);
    assert [msg[0], msg[1], msg[2]] == msg[..FRAME_LENGTH_SIZE];
    length := msg[0] as int * 0x1_0000 + msg[1] as int * 0x100 + msg[2] as int;
  }

  datatype SendResult = Sent | FrameTooLarge(got: nat) | SocketClosed

  class FrameSocket {
    var header: Option<Bytes>
    var incomingLength: nat
    var receivedLength: nat
    var incoming: Option<Bytes>
    var partialHeader: Option<Bytes>
    /** The frames handed to the Frames channel and the messages written to the websocket, oldest first. */
    var frames: seq<Bytes>
    var written: seq<Bytes>
    var connected: bool

    function State(): Reassembly
      reads this
    {
      Reassembly(partialHeader, incoming, incomingLength, receivedLength, frames)
    }

    constructor (connectionHeader: Bytes)
      ensures State() == Idle([]) && header == Some(connectionHeader) && written == [] && !connected
    {
      header := Some(connectionHeader);
      incomingLength, receivedLength, incoming, partialHeader := 0, 0, None, None;
      frames, written, connected := [], [], false;
    }

    method FrameComplete()
      requires incoming.Some?
      modifies this`incoming, this`partialHeader, this`incomingLength, this`receivedLength, this`frames
      ensures State() == Idle(old(frames) + [old(incoming).value])
    {
      var data := incoming.value;
      incoming, partialHeader, incomingLength, receivedLength := None, None, 0, 0;
      frames := frames + [data];
    }

    /** The branch of the loop that reads a length prefix. */
    method ReadHeader(chunk: Bytes) returns (rest: Bytes)
      requires chunk != [] && incoming.None? && partialHeader.None?
      modifies this`incoming, this`partialHeader, this`incomingLength, this`receivedLength, this`frames
      ensures R.ProcessData(FRAME_LENGTH_SIZE, State(), rest) == R.ProcessData(FRAME_LENGTH_SIZE, old(State()), chunk)
      ensures rest == [] || (|rest| < |chunk| && partialHeader.None?)
    {
      hide Zeros, IntOf, CopyInto, R.ProcessData;
      TurnAtHeader(FRAME_LENGTH_SIZE, State(), chunk);
      assert [] + chunk == chunk;
      if |chunk| < FRAME_LENGTH_SIZE {
        partialHeader := Some(chunk);
        rest := [];
      } else {
        var length := ReadLength(chunk);
        incomingLength, receivedLength := length, |chunk|;
        rest := chunk[FRAME_LENGTH_SIZE..];
        if |rest| >= length {
          incoming := Some(rest[..length]);
          rest := rest[length..];
          FrameComplete();
        } else {
          incoming := Some(CopyInto(Zeros(length), 0, rest));
          rest := [];
        }
      }
      NoMoreTurns(FRAME_LENGTH_SIZE, State());
    }

    /** The branch of the loop that fills a pending payload; ok is false where a slice expression panics. */
    method FillPayload(chunk: Bytes) returns (ok: bool, rest: Bytes)
      requires chunk != [] && incoming.Some? && partialHeader.None?
      modifies this`incoming, this`partialHeader, this`incomingLength, this`receivedLength, this`frames
      ensures !ok ==> R.ProcessData(FRAME_LENGTH_SIZE, old(State()), chunk) == Crashed
      ensures ok ==>
        R.ProcessData(FRAME_LENGTH_SIZE, State(), rest) == R.ProcessData(FRAME_LENGTH_SIZE, old(State()), chunk)
      ensures ok ==> rest == [] || (|rest| <= |chunk| && partialHeader.None? && incoming.None?)
    {
      hide Zeros, CopyInto, R.ProcessData;
      TurnAtPayload(FRAME_LENGTH_SIZE, State(), chunk);
      assert [] + chunk == chunk;
      ok, rest := true, [];
      if receivedLength + |chunk| >= incomingLength {
        if receivedLength > incomingLength || receivedLength > |incoming.value| {
          return false, chunk;
        }
        var missing := incomingLength - receivedLength;
        incoming := Some(CopyInto(incoming.value, receivedLength, chunk[..missing]));
        rest := chunk[missing..];
        FrameComplete();
      } else {
        if receivedLength > |incoming.value| {
          return false, chunk;
        }
        incoming := Some(CopyInto(incoming.value, receivedLength, chunk));
        receivedLength := receivedLength + |chunk|;
      }
      NoMoreTurns(FRAME_LENGTH_SIZE, State());
    }

    /** ok is false where the source's slice expressions panic. */
    method ProcessData(chunk: Bytes) returns (ok: bool)
      modifies this`incoming, this`partialHeader, this`incomingLength, this`receivedLength, this`frames
      ensures match R.ProcessData(FRAME_LENGTH_SIZE, old(State()), chunk)
        case Crashed => !ok
        case Fed(s) => ok && State() == s
    {
      hide R.ProcessData;
      var msg := chunk;
      while |msg| > 0
        invariant R.ProcessData(FRAME_LENGTH_SIZE, State(), msg) == R.ProcessData(FRAME_LENGTH_SIZE, old(State()), chunk)
        decreases if msg == [] then 0 else |msg| + |HeldBack(State())|, if incoming.Some? then 1 else 0
      {
        HeldBackJoins(FRAME_LENGTH_SIZE, State(), msg);
        if partialHeader.Some? {
          msg := partialHeader.value + msg;
          partialHeader := None;
        }
        if incoming.None? {
          msg := ReadHeader(msg);
        } else {
          ok, msg := FillPayload(msg);
          if !ok {
            return;
          }
        }
      }
      NoMoreTurns(FRAME_LENGTH_SIZE, State());
      ok := true;
    }

    /** The connection header goes out once, before the first frame; a closed socket and a large frame are refused. */
    method SendFrame(data: Bytes) returns (r: SendResult)
      modifies this`header, this`written
      ensures r == if !connected then SocketClosed else if |data| < FRAME_MAX_SIZE then Sent else FrameTooLarge(|data|)
      ensures r.Sent? ==> header == None && written == old(written) + [old(Prefix()) + FrameBytes(data)]
      ensures !r.Sent? ==> header == old(header) && written == old(written)
    {
      if !connected {
        return SocketClosed;
      }
      if |data| >= FRAME_MAX_SIZE {
        return FrameTooLarge(|data|);
      }
      var prefix := Prefix();
      header := None;
      var length: Bytes := [|data| / 0x1_0000 % 256, |data| / 0x100 % 256, |data| % 256];
      LengthBytes(|data|);
      assert length + data == FrameBytes(data);
      written := written + [prefix + (length + data)];
      r := Sent;
    }

    function Prefix(): Bytes
      reads this
    {
      match header
      case Some(h) => h
      case None => []
    }
  }
}

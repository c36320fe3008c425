/** The transport object (whatsmeow/socket/noisesocket.go), against the functions of Transport. */
module NoiseSockets {
  import opened Basics
  import opened Noise
  import opened FrameReassembly
  import opened FrameSockets
  import opened Transport

  /** When the caller's context ends, seen from the call. */
  datatype ContextEnd = StaysOpen | EndsBefore | EndsDuring

  datatype SocketResult = ContextDone | Handed(result: SendResult)

  class NoiseSocket {
    const p: Primitives
    const fs: FrameSocket
    const writeKey: Bytes
    const readKey: Bytes
    var writeCounter: Uint32
    var readCounter: Uint32
    /** The plaintexts passed to onFrame, oldest first. */
    var delivered: seq<Bytes>

    constructor (p: Primitives, fs: FrameSocket, writeKey: Bytes, readKey: Bytes)
      ensures this.p == p && this.fs == fs && this.writeKey == writeKey && this.readKey == readKey
      ensures writeCounter == 0 && readCounter == 0 && delivered == []
    {
      this.p, this.fs, this.writeKey, this.readKey := p, fs, writeKey, readKey;
      writeCounter, readCounter, delivered := 0, 0, [];
    }

    /**
     The frame socket's answer; the counter moves on even when the frame is refused. A context that ends during the call
     hides the answer, but the frame is written all the same.
     */
    method SendFrame(context: ContextEnd, plaintext: Bytes) returns (r: SocketResult)
      modifies this`writeCounter, fs`header, fs`written
      ensures context == EndsBefore ==> r == ContextDone && unchanged(this) && unchanged(fs)
      ensures context != EndsBefore ==>
        var frame := SealedMessage(p, writeKey, old(writeCounter), plaintext);
        var answer := if !fs.connected then SocketClosed
                      else if |frame| < FRAME_MAX_SIZE then Sent else FrameTooLarge(|frame|);
        && writeCounter == Increment(old(writeCounter))
        && r == (if context == EndsDuring then ContextDone else Handed(answer))
        && (answer == Sent ==>
             fs.header == None && fs.written == old(fs.written) + [old(fs.Prefix()) + FrameBytes(frame)])
        && (answer != Sent ==> unchanged(fs))
    {
      if context == EndsBefore {
        return ContextDone;
      }
      var ciphertext := p.aeadSeal(writeKey, IV(writeCounter), plaintext, []);
      writeCounter := Increment(writeCounter);
      var sent := fs.SendFrame(ciphertext);
      r := if context == EndsDuring then ContextDone else Handed(sent);
    }

    method ReceiveEncryptedFrame(ciphertext: Bytes)
      modifies this`readCounter, this`delivered
      ensures readCounter == Increment(old(readCounter))
      ensures delivered == match OpenedMessage(p, readKey, old(readCounter), ciphertext)
        case Some(m) => old(delivered) + [m]
        case None => old(delivered)
    {
      var plaintext := p.aeadOpen(readKey, IV(readCounter), ciphertext, []);
      readCounter := Increment(readCounter);
      if plaintext.Some? {
        delivered := delivered + [plaintext.value];
      }
    }

    /** consumeFrames, over the frames that the channel yields before the socket stops. */
    method ConsumeFrames(frames: seq<Bytes>)
      modifies this`readCounter, this`delivered
      ensures delivered == old(delivered) + Received(p, readKey, old(readCounter), frames)
    {
      hide OpenedMessage, Increment, Received;
      var i := 0;
      while i < |frames|
        invariant 0 <= i <= |frames|
        invariant delivered + Received(p, readKey, readCounter, frames[i..])
               == old(delivered) + Received(p, readKey, old(readCounter), frames)
      {
        OneFrame(p, readKey, readCounter, frames[i..], delivered);
        assert frames[i..][1..] == frames[i + 1..];
        ReceiveEncryptedFrame(frames[i]);
        i := i + 1;
      }
      NoFrames(p, readKey, readCounter, frames, delivered);
    }
  }

  /** What one turn of the loop takes from the frames that are left. */
  lemma OneFrame(p: Primitives, key: Bytes, count: Uint32, frames: seq<Bytes>, before: seq<Bytes>)
    requires frames != []
    ensures before + Received(p, key, count, frames) ==
      (match OpenedMessage(p, key, count, frames[0]) case Some(m) => before + [m] case None => before)
        + Received(p, key, Increment(count), frames[1..])
  {
    hide OpenedMessage, Increment;
    var plain, rest := OpenedMessage(p, key, count, frames[0]), Received(p, key, Increment(count), frames[1..]);
    if plain.Some? {
      assert before + [plain.value] + rest == before + ([plain.value] + rest);
    }
  }

  lemma NoFrames(p: Primitives, key: Bytes, count: Uint32, frames: seq<Bytes>, before: seq<Bytes>)
    ensures before + Received(p, key, count, frames[|frames|..]) == before
  {
  }
}

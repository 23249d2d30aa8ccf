/**
 * The part of the SSH session the handler touches: outgoing channel data
 * frames. A russh `Session` is moved into each handler callback and handed
 * back in its result, so it is a value here; `Session::data` queues one
 * frame, which is all the model records of it.
 */
module Transport {
  import opened Bytes

  /** SSH channel numbers are `uint32` (section 5.1 of RFC 4254). */
  newtype ChannelId = x: int | 0 <= x < 0x1_0000_0000

  datatype Frame = Frame(channel: ChannelId, data: seq<u8>)

  datatype Session = Session(frames: seq<Frame>) {

    /** `Session::data`: queue `data` as one data frame on `channel`. */
    function Data(channel: ChannelId, data: seq<u8>): Session {
      Session(frames + [Frame(channel, data)])
    }
  }

  /** One frame per byte, in order: what a relay that sends each byte on its own writes. */
  function ByteFrames(channel: ChannelId, bytes: seq<u8>): seq<Frame> {
    seq(|bytes|, i requires 0 <= i < |bytes| => Frame(channel, [bytes[i]]))
  }

  /** The byte stream a client reads from a sequence of frames. */
  function Payload(frames: seq<Frame>): seq<u8>
    decreases |frames|
  {
    if frames == [] then [] else Payload(frames[..|frames| - 1]) + frames[|frames| - 1].data
  }

  /** Each byte frame has length 1, is on `channel`, and the frames read back as exactly `bytes`. */
  lemma {:induction false} ByteFramesPayload(channel: ChannelId, bytes: seq<u8>)
    ensures |ByteFrames(channel, bytes)| == |bytes|
    ensures forall i :: 0 <= i < |bytes| ==>
      ByteFrames(channel, bytes)[i].channel == channel && |ByteFrames(channel, bytes)[i].data| == 1
    ensures Payload(ByteFrames(channel, bytes)) == bytes
    decreases |bytes|
  {
    if bytes != [] {
      var n := |bytes| - 1;
      ByteFramesPayload(channel, bytes[..n]);
      assert ByteFrames(channel, bytes)[..n] == ByteFrames(channel, bytes[..n]);
      assert bytes[..n] + [bytes[n]] == bytes;
    }
  }
}

/** Frames as the collect channel receives them from the worker's socket.
    The length-prefixed wire format is below this level: a frame is what one
    call of the frame reader hands back, either a byte payload or the null it
    returns once the stream is closed. */
module Framing {

  newtype byte = x: int | 0 <= x < 256

  type Bytes = seq<byte>

  datatype Option<+T> = None | Some(value: T)

  /** One read of the frame reader: `None` stands for the null reference. */
  type Frame = Option<Bytes>

  /** The two sentinels that end collection: no frame at all, or a frame of length 0. */
  predicate IsTerminator(f: Frame) {
    f.None? || |f.value| == 0
  }

  predicate Live(f: Frame) {
    !IsTerminator(f)
  }

  /** The frame the reader returns on its `i`-th read (counting from 0): past the
      last frame the stream is closed and every read returns null. */
  function FrameAt(fs: seq<Frame>, i: nat): Frame {
    if i < |fs| then fs[i] else None
  }

  /** The bytes a frame carries; a null frame carries none. */
  function Payload(f: Frame): Bytes {
    if f.Some? then f.value else []
  }

  /** The stream a collect session reads from, with its read cursor.
      `consumed` counts the reads performed so far, each of which takes
      the next frame; `closeCount` counts how often the stream was disposed. */
  class FrameSource {
    const frames: seq<Frame>
    var consumed: nat
    var closeCount: nat

    constructor (frames: seq<Frame>)
      ensures this.frames == frames
      ensures consumed == 0 && closeCount == 0
    {
      this.frames := frames;
      consumed := 0;
      closeCount := 0;
    }

    /** Reads the next frame: the frame under the cursor, or null once the stream has ended. */
    method ReadBytes() returns (f: Frame)
      requires closeCount == 0
      modifies this
      ensures f == FrameAt(frames, old(consumed))
      ensures consumed == old(consumed) + 1 && closeCount == old(closeCount)
    {
      f := FrameAt(frames, consumed);
      consumed := consumed + 1;
    }

    /** Disposes of the stream; no read may follow. */
    method Close()
      modifies this
      ensures closeCount == old(closeCount) + 1 && consumed == old(consumed)
    {
      closeCount := closeCount + 1;
    }
  }
}

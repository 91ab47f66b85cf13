/** What the collect loop guarantees, stated mode by mode against the frames it
    is given and proved about the specification `Collection`, which the
    imperative `Collect` is proved to compute. */
module CollectorProperties {
  import opened Framing
  import opened RDDCollector

  /** The rows a single Row-mode frame contributes: those of its batch, up to
      the first item that does not convert; none for a terminator or a frame
      that does not unpickle. */
  function BatchRows<O, I, W>(f: Frame, codec: Codec<O, I, W>): seq<Value<O, W>> {
    if Live(f) && codec.unpickle(f.value).Some? then RowsOf<O, I, W>(codec.unpickle(f.value).value, codec.getRow).rows
    else []
  }

  /** Reference definition of Row mode: the rows of the first `n` frames, concatenated in frame order. */
  function RowsThrough<O, I, W>(fs: seq<Frame>, n: nat, codec: Codec<O, I, W>): seq<Value<O, W>> {
    if n == 0 then [] else RowsThrough(fs, n - 1, codec) + BatchRows(FrameAt(fs, n - 1), codec)
  }

  /** A session that ends normally ends on a terminator: its last read returned
      null or an empty frame, in every mode. */
  lemma {:induction false} ExhaustedEndsAtTerminator<O, I, W>(fs: seq<Frame>, mode: Mode, codec: Codec<O, I, W>)
    ensures var r := Collection(fs, mode, codec);
      r.outcome == Exhausted ==> IsTerminator(FrameAt(fs, r.framesRead - 1))
    decreases |fs|
  {
    var r := Collection(fs, mode, codec);
    if fs != [] && Live(fs[0]) && r.outcome == Exhausted {
      if mode.Pair? {
        ExhaustedEndsAtTerminator(fs[2..], mode, codec);
      } else {
        ExhaustedEndsAtTerminator(fs[1..], mode, codec);
      }
    }
  }

  /** One pass of the loop depends only on the frames it reads. */
  lemma IterationReadsOnlyItsWidth<O, I, W>(fs: seq<Frame>, gs: seq<Frame>, mode: Mode, codec: Codec<O, I, W>)
    requires FrameAt(fs, 0) == FrameAt(gs, 0)
    requires Iteration(fs, mode, codec).width == 2 ==> FrameAt(fs, 1) == FrameAt(gs, 1)
    ensures Iteration(fs, mode, codec) == Iteration(gs, mode, codec)
  {
  }

  /** No frame after the last one read influences the session: replacing
      everything beyond the frames read leaves the result unchanged. */
  lemma {:induction false} ReadsNothingBeyond<O, I, W>(fs: seq<Frame>, more: seq<Frame>, mode: Mode, codec: Codec<O, I, W>)
    requires Collection(fs, mode, codec).framesRead <= |fs|
    ensures var n := Collection(fs, mode, codec).framesRead;
      Collection(fs[..n] + more, mode, codec) == Collection(fs, mode, codec)
    decreases |fs|
  {
    var r := Collection(fs, mode, codec);
    var n := r.framesRead;
    var gs := fs[..n] + more;
    var s := Iteration(fs, mode, codec);
    assert FrameAt(gs, 0) == FrameAt(fs, 0);
    if s.width == 2 {
      assert FrameAt(gs, 1) == FrameAt(fs, 1);
    }
    IterationReadsOnlyItsWidth(fs, gs, mode, codec);
    if s.stop.None? {
      var k := s.width;
      ReadsNothingBeyond(fs[k..], more, mode, codec);
      assert gs[k..] == fs[k..][..n - k] + more;
    }
  }

  /** Byte mode: one deserialized object per frame before the terminator, in
      frame order; a frame that does not deserialize ends the session with a
      failure after the objects before it. */
  lemma {:induction false} ByteMode<O, I, W>(fs: seq<Frame>, codec: Codec<O, I, W>)
    ensures var r := Collection(fs, Byte, codec);
      && r.framesRead == |r.items| + 1
      && (forall i :: 0 <= i < |r.items| ==>
            Live(FrameAt(fs, i)) && codec.deserialize(Payload(FrameAt(fs, i))).Some?
            && r.items[i] == Deserialized(codec.deserialize(Payload(FrameAt(fs, i))).value))
      && (r.outcome == Exhausted <==> IsTerminator(FrameAt(fs, |r.items|)))
      && (r.outcome.Failed? ==>
            r.outcome == Failed(DeserializeFailed) && codec.deserialize(Payload(FrameAt(fs, |r.items|))).None?)
    decreases |fs|
  {
    if fs != [] && Live(fs[0]) && codec.deserialize(fs[0].value).Some? {
      ByteMode(fs[1..], codec);
      var r, t := Collection(fs, Byte, codec), Collection(fs[1..], Byte, codec);
      forall i | 1 <= i < |r.items|
        ensures r.items[i] == t.items[i - 1] && FrameAt(fs, i) == FrameAt(fs[1..], i - 1)
      {
      }
    }
  }

  /** String mode: one decoded string per frame before the terminator, in frame
      order; decoding cannot fail, so the session always ends on the terminator. */
  lemma {:induction false} StringMode<O, I, W>(fs: seq<Frame>, codec: Codec<O, I, W>)
    ensures var r := Collection(fs, String, codec);
      && r.outcome == Exhausted
      && r.framesRead == |r.items| + 1
      && IsTerminator(FrameAt(fs, |r.items|))
      && (forall i :: 0 <= i < |r.items| ==>
            Live(FrameAt(fs, i)) && r.items[i] == Text(codec.utf8Decode(Payload(FrameAt(fs, i)))))
    decreases |fs|
  {
    if fs != [] && Live(fs[0]) {
      StringMode(fs[1..], codec);
      var r, t := Collection(fs, String, codec), Collection(fs[1..], String, codec);
      forall i | 1 <= i < |r.items|
        ensures r.items[i] == t.items[i - 1] && FrameAt(fs, i) == FrameAt(fs[1..], i - 1)
      {
      }
    }
  }

  /** Reference definition of one Pair-mode iteration: the record built from a
      key frame and its partner, the key's object first and the value's second;
      `None` when the iteration does not yield one. */
  function PairRecord<O, I, W>(key: Frame, partner: Frame, codec: Codec<O, I, W>): Option<O> {
    if Live(key) && partner.Some? && codec.pairConstructor.Some? then
      match (codec.deserialize(key.value), codec.deserialize(partner.value))
      case (Some(k), Some(v)) => codec.pairConstructor.value(k, v)
      case _ => None
    else None
  }

  /** Pair mode: each record consumes a key frame and a partner frame and is
      built by the record type's constructor from the key first and the value
      second; a session reads two frames per record, plus the terminator or the
      two frames of the failing pass. */
  lemma {:induction false} PairMode<O, I, W>(fs: seq<Frame>, codec: Codec<O, I, W>)
    ensures var r := Collection(fs, Pair, codec);
      var n := |r.items|;
      && (forall i :: 0 <= i < n ==>
            r.items[i].Constructed? && PairRecord(FrameAt(fs, 2 * i), FrameAt(fs, 2 * i + 1), codec) == Some(r.items[i].record))
      && r.framesRead == (if r.outcome == Exhausted then 2 * n + 1 else 2 * n + 2)
    decreases |fs|
  {
    var r := Collection(fs, Pair, codec);
    var s := Iteration(fs, Pair, codec);
    PairIteration(fs, codec);
    if s.stop.None? {
      var t := Collection(fs[2..], Pair, codec);
      assert r == Emit(s.yielded, 2, t);
      PairMode(fs[2..], codec);
      forall i | 1 <= i < |r.items|
        ensures r.items[i] == t.items[i - 1]
        ensures FrameAt(fs, 2 * i) == FrameAt(fs[2..], 2 * (i - 1))
        ensures FrameAt(fs, 2 * i + 1) == FrameAt(fs[2..], 2 * (i - 1) + 1)
      {
      }
    }
  }

  /** How a Pair-mode session ends: only the key frame is tested for a
      terminator, so an empty partner is data; the session ends normally exactly
      at a terminator in key position; a failed pass yields no record, and a
      null partner is a `MissingPartner` failure rather than a silently dropped key. */
  lemma {:induction false} PairEnding<O, I, W>(fs: seq<Frame>, codec: Codec<O, I, W>)
    ensures var r := Collection(fs, Pair, codec);
      var n := |r.items|;
      && (r.outcome == Exhausted <==> IsTerminator(FrameAt(fs, 2 * n)))
      && (r.outcome.Failed? ==> PairRecord(FrameAt(fs, 2 * n), FrameAt(fs, 2 * n + 1), codec).None?)
      && (r.outcome == Failed(MissingPartner) <==> Live(FrameAt(fs, 2 * n)) && FrameAt(fs, 2 * n + 1).None?)
    decreases |fs|
  {
    var r := Collection(fs, Pair, codec);
    var s := Iteration(fs, Pair, codec);
    PairIteration(fs, codec);
    if s.stop.None? {
      var t := Collection(fs[2..], Pair, codec);
      assert r == Emit(s.yielded, 2, t);
      PairEnding(fs[2..], codec);
      assert FrameAt(fs, 2 * |r.items|) == FrameAt(fs[2..], 2 * |t.items|);
      assert FrameAt(fs, 2 * |r.items| + 1) == FrameAt(fs[2..], 2 * |t.items| + 1);
    }
  }

  /** One Pair-mode pass yields the record `PairRecord` describes, or nothing
      and a failure; it fails with `MissingPartner` exactly when the partner is null. */
  lemma PairIteration<O, I, W>(fs: seq<Frame>, codec: Codec<O, I, W>)
    ensures var s := Iteration(fs, Pair, codec);
      var record := PairRecord(FrameAt(fs, 0), FrameAt(fs, 1), codec);
      && (s.stop.None? <==> record.Some?)
      && s.yielded == (if record.Some? then [Constructed(record.value)] else [])
      && (s.stop == Some(Failed(MissingPartner)) <==> Live(FrameAt(fs, 0)) && FrameAt(fs, 1).None?)
  {
  }

  lemma {:induction false} RowsThroughShift<O, I, W>(fs: seq<Frame>, n: nat, codec: Codec<O, I, W>)
    requires fs != []
    ensures RowsThrough(fs, n + 1, codec) == BatchRows(fs[0], codec) + RowsThrough(fs[1..], n, codec)
    decreases n
  {
    if n > 0 {
      RowsThroughShift(fs, n - 1, codec);
      assert FrameAt(fs, n) == FrameAt(fs[1..], n - 1);
    }
  }

  /** Row mode: the output is the concatenation, in frame order, of the rows of
      every frame read; every frame before the last one read unpickles to a
      batch whose items all convert, possibly an empty batch, which yields
      nothing and does not end the session. */
  lemma {:induction false} RowMode<O, I, W>(fs: seq<Frame>, codec: Codec<O, I, W>)
    ensures var r := Collection(fs, Row, codec);
      && r.items == RowsThrough(fs, r.framesRead, codec)
      && (forall i :: 0 <= i < r.framesRead - 1 ==>
            Live(FrameAt(fs, i)) && codec.unpickle(Payload(FrameAt(fs, i))).Some?
            && RowsOf<O, I, W>(codec.unpickle(Payload(FrameAt(fs, i))).value, codec.getRow).complete)
      && (r.outcome == Exhausted <==> IsTerminator(FrameAt(fs, r.framesRead - 1)))
      && (r.outcome == Failed(UnpickleFailed) <==>
            Live(FrameAt(fs, r.framesRead - 1)) && codec.unpickle(Payload(FrameAt(fs, r.framesRead - 1))).None?)
      && (r.outcome.Failed? ==> r.outcome == Failed(UnpickleFailed) || r.outcome == Failed(NotARow))
    decreases |fs|
  {
    var r := Collection(fs, Row, codec);
    if fs != [] && Live(fs[0]) && codec.unpickle(fs[0].value).Some?
      && RowsOf<O, I, W>(codec.unpickle(fs[0].value).value, codec.getRow).complete
    {
      RowMode(fs[1..], codec);
      var t := Collection(fs[1..], Row, codec);
      RowsThroughShift(fs, t.framesRead, codec);
      forall i | 1 <= i < r.framesRead - 1
        ensures FrameAt(fs, i) == FrameAt(fs[1..], i - 1)
      {
      }
      assert FrameAt(fs, r.framesRead - 1) == FrameAt(fs[1..], t.framesRead - 1);
    } else {
      assert RowsThrough(fs, 1, codec) == BatchRows(FrameAt(fs, 0), codec);
    }
  }

  /** How a Row-mode session fails at a batch: with `NotARow` exactly when the
      last frame read is live and unpickles to a batch some item of which does
      not convert. So a frame whose batch converts completely never ends the
      session; collection goes on with the next frame. */
  lemma {:induction false} RowEnding<O, I, W>(fs: seq<Frame>, codec: Codec<O, I, W>)
    ensures var r := Collection(fs, Row, codec);
      var last := FrameAt(fs, r.framesRead - 1);
      r.outcome == Failed(NotARow) <==>
        Live(last) && codec.unpickle(Payload(last)).Some?
        && !RowsOf<O, I, W>(codec.unpickle(Payload(last)).value, codec.getRow).complete
    decreases |fs|
  {
    var r := Collection(fs, Row, codec);
    if fs != [] && Live(fs[0]) && codec.unpickle(fs[0].value).Some?
      && RowsOf<O, I, W>(codec.unpickle(fs[0].value).value, codec.getRow).complete
    {
      RowEnding(fs[1..], codec);
      var t := Collection(fs[1..], Row, codec);
      assert FrameAt(fs, r.framesRead - 1) == FrameAt(fs[1..], t.framesRead - 1);
    }
  }

  /** Row mode flattens every batch up to the first terminator: when each frame
      before it unpickles to a batch whose items all convert, the session reads
      up to the terminator, yields the rows of all those frames in order and
      ends normally. */
  lemma RowReachesTerminator<O, I, W>(fs: seq<Frame>, k: nat, codec: Codec<O, I, W>)
    requires IsTerminator(FrameAt(fs, k))
    requires forall i :: 0 <= i < k ==>
      Live(FrameAt(fs, i)) && codec.unpickle(Payload(FrameAt(fs, i))).Some?
      && RowsOf<O, I, W>(codec.unpickle(Payload(FrameAt(fs, i))).value, codec.getRow).complete
    ensures Collection(fs, Row, codec) == Collected(RowsThrough(fs, k, codec), Exhausted, k + 1)
  {
    var r := Collection(fs, Row, codec);
    RowMode(fs, codec);
    RowEnding(fs, codec);
    StopsAtFirstTerminator(fs, k, Row, codec);
    TerminatorYieldsNothing(fs, k, Row, codec);
  }

  /** An empty batch yields nothing and collection goes on with the next frame. */
  lemma EmptyBatchContinues<O, I, W>(fs: seq<Frame>, codec: Codec<O, I, W>)
    requires fs != [] && Live(fs[0]) && codec.unpickle(fs[0].value) == Some([])
    ensures var r, t := Collection(fs, Row, codec), Collection(fs[1..], Row, codec);
      r.items == t.items && r.outcome == t.outcome && r.framesRead == t.framesRead + 1
  {
  }

  /** A mode with no branch in the dispatch consumes every frame up to the
      terminator and yields nothing. */
  lemma {:induction false} UnlistedMode<O, I, W>(fs: seq<Frame>, code: int, codec: Codec<O, I, W>)
    ensures var r := Collection(fs, Unlisted(code), codec);
      && r.items == [] && r.outcome == Exhausted
      && IsTerminator(FrameAt(fs, r.framesRead - 1))
      && (forall i :: 0 <= i < r.framesRead - 1 ==> Live(FrameAt(fs, i)))
    decreases |fs|
  {
    if fs != [] && Live(fs[0]) {
      UnlistedMode(fs[1..], code, codec);
      var r := Collection(fs, Unlisted(code), codec);
      forall i | 1 <= i < r.framesRead - 1
        ensures FrameAt(fs, i) == FrameAt(fs[1..], i - 1)
      {
      }
    }
  }

  /** In every mode that reads one frame per iteration, each frame before the
      last one read is a live frame, and the session ends normally exactly when
      the last one read is a terminator. */
  lemma SingleFrameModes<O, I, W>(fs: seq<Frame>, mode: Mode, codec: Codec<O, I, W>)
    requires !mode.Pair?
    ensures var r := Collection(fs, mode, codec);
      && (forall i :: 0 <= i < r.framesRead - 1 ==> Live(FrameAt(fs, i)))
      && (r.outcome == Exhausted <==> IsTerminator(FrameAt(fs, r.framesRead - 1)))
  {
    match mode
    case Byte => ByteMode(fs, codec);
    case String => StringMode(fs, codec);
    case Row => RowMode(fs, codec);
    case Unlisted(code) => UnlistedMode(fs, code, codec);
  }

  /** In every mode that reads one frame per iteration, collection stops at the
      first terminator: no frame after it is read, and the session ends there
      normally unless a decoding failure ended it earlier. */
  lemma StopsAtFirstTerminator<O, I, W>(fs: seq<Frame>, k: nat, mode: Mode, codec: Codec<O, I, W>)
    requires !mode.Pair?
    requires IsTerminator(FrameAt(fs, k))
    requires forall i :: 0 <= i < k ==> Live(FrameAt(fs, i))
    ensures var r := Collection(fs, mode, codec);
      r.framesRead <= k + 1 && (r.outcome == Exhausted <==> r.framesRead == k + 1)
  {
    SingleFrameModes(fs, mode, codec);
  }

  /** The terminator yields nothing: in Byte and String mode one record per
      frame before it, in Row mode the rows of the frames before it. */
  lemma TerminatorYieldsNothing<O, I, W>(fs: seq<Frame>, k: nat, mode: Mode, codec: Codec<O, I, W>)
    requires mode.Byte? || mode.String? || mode.Row?
    requires IsTerminator(FrameAt(fs, k))
    requires forall i :: 0 <= i < k ==> Live(FrameAt(fs, i))
    requires Collection(fs, mode, codec).outcome == Exhausted
    ensures var r := Collection(fs, mode, codec);
      && (mode.Byte? || mode.String? ==> |r.items| == k)
      && (mode.Row? ==> r.items == RowsThrough(fs, k, codec))
  {
    StopsAtFirstTerminator(fs, k, mode, codec);
    if mode.Byte? {
      ByteMode(fs, codec);
    } else if mode.String? {
      StringMode(fs, codec);
    } else {
      RowMode(fs, codec);
      assert BatchRows(FrameAt(fs, k), codec) == [];
    }
  }
}

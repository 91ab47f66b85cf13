/** The frame-consumption loop of the collect operation: it pulls frames from
    the worker's stream until a terminator, and turns them into records
    according to the session's serialization mode. */
module RDDCollector {
  import opened Framing

  /** The session's serialization mode. `Unlisted` is any other value of the
      enumeration, for which the dispatch has no branch. */
  datatype Mode = Byte | String | Pair | Row | Unlisted(code: int)

  /** The foreign library calls the loop relies on, as functions of their input.
      A call that throws gives `None`; decoding UTF-8 substitutes invalid input
      and never throws. `pairConstructor` is the first constructor of the
      record type, absent when the type has none. */
  datatype Codec<!O, !I, W> = Codec(
    deserialize: Bytes -> Option<O>,
    utf8Decode: Bytes -> string,
    unpickle: Bytes -> Option<seq<I>>,
    getRow: I -> Option<W>,
    pairConstructor: Option<(O, O) -> Option<O>>)

  /** One yielded record. */
  datatype Value<O, W> =
    | Deserialized(obj: O)
    | Text(text: string)
    | Constructed(record: O)
    | RowValue(row: W)

  /** Why an iteration threw. `MissingPartner` is the null second frame of a pair,
      `NoConstructor` a record type without a constructor, `NotARow` an unpickled
      item that is not a row constructor. */
  datatype Failure =
    | MissingPartner
    | NoConstructor
    | DeserializeFailed
    | ConstructFailed
    | UnpickleFailed
    | NotARow

  datatype Outcome = Exhausted | Failed(failure: Failure)

  /** What a caller sees of one session: the records yielded in order, how the
      sequence ended, and how many reads of the stream were made. */
  datatype Collected<O, W> = Collected(items: seq<Value<O, W>>, outcome: Outcome, framesRead: nat)

  /** The rows of one unpickled batch; `complete` is false when an item failed to convert. */
  datatype RowBatch<O, W> = RowBatch(rows: seq<Value<O, W>>, complete: bool)

  /** `items` yielded after reading `n` frames, followed by the rest of the session. */
  function Emit<O, W>(items: seq<Value<O, W>>, n: nat, rest: Collected<O, W>): Collected<O, W> {
    Collected(items + rest.items, rest.outcome, n + rest.framesRead)
  }

  /** Yielding in two steps is yielding the concatenation. */
  lemma EmitEmit<O, W>(items: seq<Value<O, W>>, n: nat, yielded: seq<Value<O, W>>, m: nat, rest: Collected<O, W>)
    ensures Emit(items, n, Emit(yielded, m, rest)) == Emit(items + yielded, n + m, rest)
  {
  }

  /** `rows` converted ahead of the rest of a batch. */
  function Prepend<O, W>(rows: seq<Value<O, W>>, rest: RowBatch<O, W>): RowBatch<O, W> {
    RowBatch(rows + rest.rows, rest.complete)
  }

  /** Converts the items of a batch to rows in order, stopping at the first that does not convert. */
  function RowsOf<O, I, W>(batch: seq<I>, getRow: I -> Option<W>): RowBatch<O, W>
    decreases |batch|
  {
    if batch == [] then RowBatch([], true)
    else match getRow(batch[0])
      case None => RowBatch([], false)
      case Some(w) => Prepend([RowValue(w)], RowsOf<O, I, W>(batch[1..], getRow))
  }

  /** The rows of a batch are its items converted one by one, in order, up to the
      first item that does not convert; the batch is complete exactly when every
      item converts. */
  lemma {:induction false} RowsOfConverts<O, I, W>(batch: seq<I>, getRow: I -> Option<W>)
    ensures var b := RowsOf<O, I, W>(batch, getRow);
      && |b.rows| <= |batch|
      && (forall k :: 0 <= k < |b.rows| ==>
            getRow(batch[k]).Some? && b.rows[k] == RowValue(getRow(batch[k]).value))
      && (b.complete <==> |b.rows| == |batch|)
      && (!b.complete ==> getRow(batch[|b.rows|]).None?)
    decreases |batch|
  {
    if batch != [] && getRow(batch[0]).Some? {
      RowsOfConverts<O, I, W>(batch[1..], getRow);
      var b, t := RowsOf<O, I, W>(batch, getRow), RowsOf<O, I, W>(batch[1..], getRow);
      forall k | 1 <= k < |b.rows|
        ensures b.rows[k] == t.rows[k - 1] && batch[k] == batch[1..][k - 1]
      {
      }
    }
  }

  /** What one pass of the loop does: the records it yields, how many frames it
      reads, and, when the session ends there, how. */
  datatype Step<O, W> = Step(yielded: seq<Value<O, W>>, width: nat, stop: Option<Outcome>)

  /** One pass of the loop over the frames `fs` still to be read. */
  function Iteration<O, I, W>(fs: seq<Frame>, mode: Mode, codec: Codec<O, I, W>): (s: Step<O, W>)
    ensures s.stop == Some(Exhausted) <==> IsTerminator(FrameAt(fs, 0))
    ensures s.width == (if mode.Pair? && Live(FrameAt(fs, 0)) then 2 else 1)
    ensures s.stop.None? ==> s.width <= |fs|
  {
    if fs == [] || IsTerminator(fs[0]) then Step([], 1, Some(Exhausted))
    else
      var buffer := fs[0].value;
      match mode
      case Byte =>
        (match codec.deserialize(buffer)
         case None => Step([], 1, Some(Failed(DeserializeFailed)))
         case Some(obj) => Step([Deserialized(obj)], 1, None))
      case String =>
        Step([Text(codec.utf8Decode(buffer))], 1, None)
      case Pair =>
        if |fs| < 2 || fs[1].None? then Step([], 2, Some(Failed(MissingPartner)))
        else
          (match codec.pairConstructor
           case None => Step([], 2, Some(Failed(NoConstructor)))
           case Some(ctor) =>
             (match codec.deserialize(buffer)
              case None => Step([], 2, Some(Failed(DeserializeFailed)))
              case Some(key) =>
                (match codec.deserialize(fs[1].value)
                 case None => Step([], 2, Some(Failed(DeserializeFailed)))
                 case Some(value) =>
                   (match ctor(key, value)
                    case None => Step([], 2, Some(Failed(ConstructFailed)))
                    case Some(record) => Step([Constructed(record)], 2, None)))))
      case Row =>
        (match codec.unpickle(buffer)
         case None => Step([], 1, Some(Failed(UnpickleFailed)))
         case Some(batch) =>
           var b := RowsOf<O, I, W>(batch, codec.getRow);
           Step(b.rows, 1, if b.complete then None else Some(Failed(NotARow))))
      case Unlisted(_) =>
        Step([], 1, None)
  }

  /** The session the loop produces from the frames `fs`, read from the front. */
  function Collection<O, I, W>(fs: seq<Frame>, mode: Mode, codec: Codec<O, I, W>): (r: Collected<O, W>)
    ensures 1 <= r.framesRead <= |fs| + 1
    decreases |fs|
  {
    var s := Iteration(fs, mode, codec);
    if s.stop.Some? then Collected(s.yielded, s.stop.value, s.width)
    else Emit(s.yielded, s.width, Collection(fs[s.width..], mode, codec))
  }

  /** The `foreach` over one unpickled batch: converts each item to a row in
      order, stopping at the first item that is not a row constructor. */
  method ConvertBatch<O, I, W>(batch: seq<I>, getRow: I -> Option<W>) returns (b: RowBatch<O, W>)
    ensures b == RowsOf<O, I, W>(batch, getRow)
  {
    var rows: seq<Value<O, W>> := [];
    var j := 0;
    while j < |batch|
      invariant 0 <= j <= |batch|
      invariant RowsOf<O, I, W>(batch, getRow) == Prepend(rows, RowsOf<O, I, W>(batch[j..], getRow))
    {
      assert batch[j..][1..] == batch[j + 1..];
      var row := getRow(batch[j]);
      if row.None? {
        return RowBatch(rows, false);
      }
      rows := rows + [RowValue(row.value)];
      j := j + 1;
    }
    assert batch[j..] == [];
    b := RowBatch(rows, true);
  }

  /** One iteration of the collect loop on an open stream: reads a frame and,
      unless it is a terminator, dispatches on the mode. `yielded` is what the
      iteration yields; `stop` is how the session ends when it ends here. */
  method Iterate<O, I, W>(src: FrameSource, mode: Mode, codec: Codec<O, I, W>)
    returns (yielded: seq<Value<O, W>>, stop: Option<Outcome>)
    requires src.closeCount == 0 && src.consumed <= |src.frames|
    modifies src
    ensures src.closeCount == 0 && old(src.consumed) < src.consumed
    ensures Step(yielded, src.consumed - old(src.consumed), stop)
      == Iteration(src.frames[old(src.consumed)..], mode, codec)
  {
    ghost var rest := src.frames[src.consumed..];
    var buffer := src.ReadBytes();
    if buffer.None? || |buffer.value| == 0 {
      return [], Some(Exhausted);
    }
    assert rest[0] == buffer;
    yielded, stop := [], None;
    if mode.Byte? {
      var obj := codec.deserialize(buffer.value);
      if obj.None? {
        return [], Some(Failed(DeserializeFailed));
      }
      yielded := [Deserialized(obj.value)];
    } else if mode.String? {
      yielded := [Text(codec.utf8Decode(buffer.value))];
    } else if mode.Pair? {
      var partner := src.ReadBytes();
      if partner.None? {
        return [], Some(Failed(MissingPartner));
      }
      assert rest[1] == partner;
      if codec.pairConstructor.None? {
        return [], Some(Failed(NoConstructor));
      }
      var key := codec.deserialize(buffer.value);
      if key.None? {
        return [], Some(Failed(DeserializeFailed));
      }
      var value := codec.deserialize(partner.value);
      if value.None? {
        return [], Some(Failed(DeserializeFailed));
      }
      var record := codec.pairConstructor.value(key.value, value.value);
      if record.None? {
        return [], Some(Failed(ConstructFailed));
      }
      yielded := [Constructed(record.value)];
    } else if mode.Row? {
      var unpickled := codec.unpickle(buffer.value);
      if unpickled.None? {
        return [], Some(Failed(UnpickleFailed));
      }
      var b := ConvertBatch<O, I, W>(unpickled.value, codec.getRow);
      yielded := b.rows;
      if !b.complete {
        stop := Some(Failed(NotARow));
      }
    }
  }

  /** The collect loop over a fresh stream of `frames`: iterates until a
      terminator or a failure, accumulating the yielded records, then disposes
      of the stream. */
  method Collect<O, I, W>(frames: seq<Frame>, mode: Mode, codec: Codec<O, I, W>)
    returns (r: Collected<O, W>, src: FrameSource)
    ensures r == Collection(frames, mode, codec)
    ensures src.frames == frames && src.consumed == r.framesRead && src.closeCount == 1
  {
    src := new FrameSource(frames);
    var items: seq<Value<O, W>> := [];
    while true
      invariant src.frames == frames && src.closeCount == 0
      invariant src.consumed <= |frames|
      invariant Collection(frames, mode, codec)
        == Emit(items, src.consumed, Collection(frames[src.consumed..], mode, codec))
      decreases |frames| - src.consumed
    {
      ghost var before := src.consumed;
      var yielded, stop := Iterate(src, mode, codec);
      ghost var s := Iteration(frames[before..], mode, codec);
      if stop.Some? {
        r := Collected(items + yielded, stop.value, src.consumed);
        break;
      }
      assert frames[before..][s.width..] == frames[src.consumed..];
      EmitEmit(items, before, yielded, s.width, Collection(frames[src.consumed..], mode, codec));
      items := items + yielded;
    }
    src.Close();
  }
}

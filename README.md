# Collect channel of the Mobius RDD collector

This project models the loop at the heart of `RDDCollector.Collect` in Mobius, the C# binding for Spark. A collect operation receives the results of an RDD from a worker over a loopback socket, as a stream of length-prefixed frames. The loop reads frames until the reader returns null or a frame of length 0. For each frame it dispatches on the session's `SerializedMode`:

- `Byte`: one deserialized object per frame.
- `String`: one UTF-8 string per frame.
- `Pair`: the frame is a key. The loop reads one more frame, the value, and builds a record from the two with the first constructor of the record type.
- `Row`: the frame is unpickled into a batch, and the loop yields one row per item of the batch.

The model has three modules:

- `Framing`: frames, the two terminators, and `FrameSource`, a class with a read cursor (`consumed`) and a count of disposals (`closeCount`). It stands for the network stream.
- `RDDCollector`: the specification function `Collection` and the imperative `Collect`. `Collect` walks a fresh `FrameSource` with a `while` loop, one `Iterate` per pass. The Row batch's `foreach` is a nested loop in `ConvertBatch`. `Collect` is proved to return exactly `Collection(frames, mode, codec)`. It is also proved to dispose of the stream exactly once and to have made exactly `framesRead` reads.
- `CollectorProperties`: what `Collection` guarantees, mode by mode. Each mode is stated against reference definitions (`FrameAt`, `PairRecord`, `RowsThrough`) that are independent of the loop's recursion.

The foreign calls are fields of a `Codec` value, so the model treats them as arbitrary functions:

- `BinaryFormatter.Deserialize` is `deserialize`.
- `Encoding.UTF8.GetString` is `utf8Decode`, which never fails because invalid input is replaced, not rejected.
- `PythonSerDe.GetUnpickledObjects` is `unpickle`.
- `(item as RowConstructor).GetRow()` is `getRow`.
- `type.GetConstructors()[0].Invoke` is `pairConstructor`. It is `None` when the type has no constructor, and the constructor itself returns `None` when it throws.

A call that throws gives `None`. The iteration then ends the session with a `Failed` outcome, after the records already yielded. A `SerializedMode` value other than the four named ones is `Unlisted(code)`.

A stream that has ended is read as an endless run of nulls: `FrameAt(fs, i)` is `None` for `i >= |fs|`. So `framesRead` counts every read, including a read that met the closed stream. It can therefore be `|fs| + 1`.

Three behaviours of the code that the model keeps as written:

- A key frame without a partner ends the session with `MissingPartner`. In the code this failure is the exception thrown by `new MemoryStream(null)`, not a dedicated protocol error.
- An empty partner frame is not a terminator. It is passed to the deserializer as data.
- In String mode a frame of length 0 always ends the session, so every yielded string is decoded from a non-empty frame (`StringMode`). That an empty string is then never yielded is a property of `Encoding.UTF8.GetString`, which the model leaves arbitrary, and is not proved here.

## Model

| member | source | states |
|---|---|---|
| Framing.FrameSource.constructor | csharp/Adapter/Microsoft.Spark.CSharp/Core/RDDCollector.cs:49 | the stream starts open, with no frame read |
| Framing.FrameSource.ReadBytes | csharp/Adapter/Microsoft.Spark.CSharp/Core/RDDCollector.cs:52 | a read on an open stream returns the frame under the cursor, or null past the last frame, and advances the cursor by one |
| Framing.FrameSource.Close | csharp/Adapter/Microsoft.Spark.CSharp/Core/RDDCollector.cs:49 | disposal counts once and moves no cursor |
| RDDCollector.RowsOfConverts | csharp/Adapter/Microsoft.Spark.CSharp/Core/RDDCollector.cs:73-77 | about `RowsOf`, the functional model of the `foreach`: the rows of a batch are its items converted one by one, in order, up to the first item that is not a row constructor; the batch completes exactly when every item converts |
| RDDCollector.ConvertBatch | csharp/Adapter/Microsoft.Spark.CSharp/Core/RDDCollector.cs:74-77 | the `foreach` loop yields exactly the rows `RowsOf` describes |
| RDDCollector.Iteration | csharp/Adapter/Microsoft.Spark.CSharp/Core/RDDCollector.cs:52-78 | one pass of the loop stops normally exactly when its first read is a terminator; it reads two frames in Pair mode after a live key and one frame otherwise; a pass that does not stop has read only frames that exist |
| RDDCollector.Collection | csharp/Adapter/Microsoft.Spark.CSharp/Core/RDDCollector.cs:51-79 | every session makes at least one read and never more than one read beyond the last frame |
| RDDCollector.Iterate | csharp/Adapter/Microsoft.Spark.CSharp/Core/RDDCollector.cs:52-78 | one pass of the loop over the open stream reads the frames and yields the records that `Iteration` describes for the frames under the cursor, and advances the cursor by its width |
| RDDCollector.Collect | csharp/Adapter/Microsoft.Spark.CSharp/Core/RDDCollector.cs:49-80 | the loop yields exactly the records, outcome and read count of `Collection`; the stream is read `framesRead` times and disposed of exactly once |
| CollectorProperties.ExhaustedEndsAtTerminator | csharp/Adapter/Microsoft.Spark.CSharp/Core/RDDCollector.cs:52 | in every mode, a session that ends normally ends on a read that returned null or an empty frame |
| CollectorProperties.IterationReadsOnlyItsWidth | csharp/Adapter/Microsoft.Spark.CSharp/Core/RDDCollector.cs:52-78 | one pass of the loop gives the same result on any two streams that agree on the frames it reads |
| CollectorProperties.ReadsNothingBeyond | csharp/Adapter/Microsoft.Spark.CSharp/Core/RDDCollector.cs:52 | the session depends only on the frames it read: any frames after them can be replaced without changing the result |
| CollectorProperties.ByteMode | csharp/Adapter/Microsoft.Spark.CSharp/Core/RDDCollector.cs:54-58 | one record per live frame, in frame order, each the frame's deserialized object; normal end exactly at the terminator; otherwise a deserialization failure at the frame after the last record |
| CollectorProperties.StringMode | csharp/Adapter/Microsoft.Spark.CSharp/Core/RDDCollector.cs:59-62 | one UTF-8 decoded string per live frame, in order; the session always ends normally, at the first terminator, with one read per record plus the terminator |
| CollectorProperties.PairIteration | csharp/Adapter/Microsoft.Spark.CSharp/Core/RDDCollector.cs:63-70 | one Pair-mode pass yields exactly the record built by the constructor from the deserialized key and value, or nothing and a failure; it fails with `MissingPartner` exactly when the partner frame is null |
| CollectorProperties.PairMode | csharp/Adapter/Microsoft.Spark.CSharp/Core/RDDCollector.cs:63-70 | record i is built from frames 2i and 2i+1, key first and value second; reads are 2 per record plus the terminator, or plus the two frames of the failing pass |
| CollectorProperties.PairEnding | csharp/Adapter/Microsoft.Spark.CSharp/Core/RDDCollector.cs:52-70 | only the key frame is tested for a terminator, so an empty partner is data; the session ends normally exactly at a terminator in key position; a failed pass yields no record; a null partner is a `MissingPartner` failure, and only a null partner is |
| CollectorProperties.RowMode | csharp/Adapter/Microsoft.Spark.CSharp/Core/RDDCollector.cs:71-78 | the output is the in-order concatenation of the rows of the frames read; every frame before the last one read unpickles to a batch whose items all convert; a failed session fails at an unpickling or row-conversion error |
| CollectorProperties.RowEnding | csharp/Adapter/Microsoft.Spark.CSharp/Core/RDDCollector.cs:73-77 | a Row-mode session fails with `NotARow` exactly when the last frame read unpickles to a batch with an item that does not convert, so a fully converted batch never ends the session |
| CollectorProperties.RowReachesTerminator | csharp/Adapter/Microsoft.Spark.CSharp/Core/RDDCollector.cs:52-78 | when every frame before the first terminator unpickles to a batch whose items all convert, Row mode reads up to that terminator, yields the rows of all those frames in frame order and ends normally |
| CollectorProperties.EmptyBatchContinues | csharp/Adapter/Microsoft.Spark.CSharp/Core/RDDCollector.cs:73-77 | a frame whose batch is empty yields nothing, and collection goes on with the next frame |
| CollectorProperties.UnlistedMode | csharp/Adapter/Microsoft.Spark.CSharp/Core/RDDCollector.cs:54-78 | a mode outside the four branches reads every frame up to the first terminator, yields nothing and ends normally |
| CollectorProperties.SingleFrameModes | csharp/Adapter/Microsoft.Spark.CSharp/Core/RDDCollector.cs:52-78 | outside Pair mode every frame before the last one read is live, and the session ends normally exactly when the last read is a terminator |
| CollectorProperties.StopsAtFirstTerminator | csharp/Adapter/Microsoft.Spark.CSharp/Core/RDDCollector.cs:52 | outside Pair mode no frame after the first terminator is read, and the session ends normally exactly when it reads that terminator |
| CollectorProperties.TerminatorYieldsNothing | csharp/Adapter/Microsoft.Spark.CSharp/Core/RDDCollector.cs:52 | a session ended by its first terminator yields one record per frame before it in Byte and String mode, and the rows of the frames before it in Row mode |

## Left out

- Socket creation, the Windows loopback fast-path `IOControl` call and its swallowed exception, the platform test and `Connect` (lines 25-47): platform I/O set-up with no effect on the records.
- The length-prefix framing inside `SerDe.ReadBytes`, including a stream that closes mid-frame: that code is not part of this model. A frame is what one read returns. A read after the stream has ended is taken to return null.
- The decoders and reflection: BinaryFormatter, UTF-8 decoding, the pickle decoder, `RowConstructor.GetRow` and constructor invocation are foreign library code. The model treats them as arbitrary functions in `Codec`.
- The laziness of `yield return`: the model accumulates the whole session. It does not capture a caller that abandons the enumeration early or pulls again after the end. The disposal on those paths is not modelled beyond the single `Close` at loop exit.
- Exception types: every throw is one `Failure` value, and exceptions are not distinguished further.

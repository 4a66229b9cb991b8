# splitter: line chunks, the dispatch loop and the indexed file writer

splitter cuts a text stream into chunks of at most N lines and hands each
chunk to a processor. The `save` command uses a processor that writes each
chunk to a file of its own. This project models three sequential pieces of
that system and proves properties about them:

- `types.dfy` (module `Types`): the shared values. These are bytes, Go's
  `uint32`, chunks, read outcomes (a chunk with a nil error, the final chunk
  with `io.EOF`, or an error) and the context.
- `reader.dfy` (module `LineReading`): `LineReader` and `appendLine`.
  - `bufio.Reader.ReadLine` is a cursor (`BufReader`) over a finite
    sequence of `(line, isPrefix, err)` results. Past the end it keeps
    returning `io.EOF`.
  - `LineReader.Read` is a counted loop over that cursor. It is proved
    against a declarative specification, `ReadSpec`: the index of the first
    result that is not a complete line decides the outcome. The chunk is
    `Frame` of the lines kept, that is, every non-blank line followed by
    `'\n'`.
  - `ReadAll` is the sequence of outcomes that successive `Read` calls
    return; `Pipeline.ReadEveryChunk` proves this of the `Read` method.
    The lemmas about it cover reassembly of the whole input and the shape of
    the final EOF chunk.
  - bufio's documented guarantees are the predicate `BufioContract`: an
    error result carries no bytes, and a line holds no `'\n'`. The lemmas
    that need these guarantees take the predicate as a hypothesis, because
    `Read` itself does not demand them.
- `process.dfy` (module `Dispatch`): the 4-argument sequential `Process`
  loop, with `ProcessorFunc.ProcessChunk`.
  - The reader is a `ChunkSource` whose `Read` calls return a fixed script of
    outcomes.
  - The processor is a function from context and chunk to a status.
  - A ghost trace records the chunks handed to the processor.
  - `Process` is proved against the specification function `Outcome`, and
    the ordering, EOF and fail-fast properties are lemmas about `Outcome`.
- `save.dfy` (module `IndexedWriter`): `indexedChunksWriter`.
  - `filepath.Ext`, `filepath.Base` and `strings.TrimSuffix` are modelled
    with `'/'` as the only separator.
  - The file name has the form `<base>-<index>.<ext>`.
  - A class holds the `uint32` index. Its `ProcessChunk` method advances the
    index only after the create and the write both succeed.
  - The file system is an oracle that says whether each create or write
    fails.
  - A ghost `Written` records the files written, and so gives the sequence
    of successful calls.
- `pipeline.dfy` (module `Pipeline`): a `LineReader` run by `Process`.
  `ReadEveryChunk` calls `Read` on a `LineReader` until EOF or an error and
  proves that the outcomes are `ReadAll`; the lemmas then run `Process` over
  that script. It always stops for N ≥ 1. For an input of complete lines,
  with no over-long line and no read error, and a processor that accepts
  every chunk, it hands over every non-blank line of the input in order.

Where the behaviour differs from what one might expect, the model follows
the code:

- Chunk count: an input of L complete lines gives L div N + 1 chunks, not
  ceil(L/N). When N divides L, the last `Read` returns an empty chunk with
  `io.EOF` (`LineReading.EmptyLastChunk`), and `Process` still hands that
  empty chunk to the processor (`Dispatch.EofChunkProcessedLast`).
- No concurrency: `Process` is sequential and fail-fast. `chunkTimeout` and
  `concurrency` are accepted and never used, and there is no queue or worker
  pool.
- Double dot in file names: `ext` keeps its leading dot, and the name format
  adds another. The first file for `data.txt` is therefore `data-0..txt`
  (`IndexedWriter.DataTxtExt`, `IndexedWriter.FirstFileNames`).
- Lines in progress are discarded: a long line or a read error returns a nil
  chunk. Any lines already gathered in that call are lost.
- Duplicate reader: `chunks/chunks.go:36-67` is an identical copy of
  `chunks/reader.go:39-70`. It is modelled once, and the rows below cite
  `chunks/reader.go`.

## Model

| member | source | states |
|---|---|---|
| LineReading.AppendLine | chunks/reader.go:63-70 | a blank line leaves the chunk unchanged; a non-blank line is appended followed by '\n' |
| LineReading.AppendLineFrames | chunks/reader.go:57-70 | appending a line to the framed chunk of some lines gives the framed chunk of those lines plus that one, so the accumulated chunk is always Frame of the lines read |
| LineReading.BlankLinesVanish | chunks/reader.go:65 | a blank line anywhere among the lines contributes nothing to the chunk |
| LineReading.FrameShape | chunks/reader.go:64-67 | for lines without '\n', the chunk is empty or ends in '\n', holds no empty line, and has at most one line per line read |
| LineReading.TerminateLineCount | chunks/reader.go:64-67 | terminating k lines without '\n' gives exactly k line terminators |
| LineReading.TerminateWellFormed | chunks/reader.go:64-67 | terminating non-empty lines without '\n' gives a chunk that ends in '\n' and holds no empty line |
| LineReading.FirstStop | chunks/reader.go:42-55 | the index of the first result that is not a complete error-free line, capped at n; every earlier result is such a line |
| LineReading.BufReader.ReadLine | chunks/reader.go:43 | ReadLine yields the next result and advances the cursor; once the cursor is at the end it yields EOF and stays there |
| LineReading.LineReader.constructor | chunks/reader.go:29-36 | the reader keeps n and a fresh buffered cursor over the stream |
| LineReading.LineReader.Read | chunks/reader.go:39-61 | Read returns exactly ReadSpec's outcome for the remaining results and leaves the cursor exactly past the results it consumed |
| LineReading.ReadConsumesAtMostN | chunks/reader.go:42-60 | one Read consumes at most n results; with n = 0 it consumes nothing and returns an empty chunk with a nil error |
| LineReading.ReadFullChunk | chunks/reader.go:42-60 | Read returns a nil error iff the first n results are complete lines, and then the chunk is those n lines framed and exactly n results are consumed |
| LineReading.ReadAtEof | chunks/reader.go:45-49 | at EOF after j complete lines, Read returns the lines gathered in this call (possibly none) with io.EOF |
| LineReading.ReadRejectsLongLine | chunks/reader.go:53-55 | a line flagged isPrefix with a nil error makes Read return the line-too-long error, discarding the lines gathered |
| LineReading.ReadReportsLineError | chunks/reader.go:50-52 | any other ReadLine error makes Read fail with that error wrapped |
| LineReading.ReadChunkShape | chunks/reader.go:42-67 | under bufio's contract, every chunk Read returns ends in '\n' (unless empty), holds no empty line and at most n lines |
| LineReading.ReadAll | chunks/reader.go:39-61 | the outcomes of successive Read calls with n ≥ 1: all but the last carry a nil error, and the last carries EOF or an error |
| LineReading.ReadAllShort | chunks/reader.go:45-49 | fewer than n complete lines followed by EOF are returned in one chunk, with io.EOF |
| LineReading.ReadAllLong | chunks/reader.go:42-60 | with at least n complete lines, the first Read returns the first n of them with a nil error, and reading resumes after them |
| LineReading.ReadAllReassembles | chunks/reader.go:39-70 | for an input of complete lines, concatenating all the chunks returned gives every non-blank line, in order, each followed by '\n' |
| LineReading.ReadAllLastChunk | chunks/reader.go:45-49 | for complete lines, the final Read is call number floor(L/n)+1 and returns the last L mod n lines with io.EOF |
| LineReading.EmptyLastChunk | chunks/reader.go:45-49 | when the number of lines is m·n, there are m+1 chunks and the final one is empty, returned with io.EOF |
| Dispatch.ProcessChunk | chunks/chunks.go:78-80 | the adapter returns exactly what the function itself returns |
| Dispatch.TerminalStops | chunks/chunks.go:84-104 | a reader that reports EOF or an error at some point makes Process return |
| Dispatch.StopIndex | chunks/chunks.go:84-104 | the read at which Process returns: every earlier chunk was read without error and accepted |
| Dispatch.ChunkSource.Read | chunks/chunks.go:87 | each Read returns the next scripted outcome and consumes it |
| Dispatch.Process | chunks/chunks.go:83-105 | Process returns exactly the error of Outcome, hands the processor exactly Outcome's trace, and consumes exactly Outcome's number of reads; the result depends on neither chunkTimeout nor concurrency |
| Dispatch.ProcessedInReadOrder | chunks/chunks.go:87-100 | the i-th chunk processed is the i-th chunk read; each read is processed at most once, and every read except a failed one is processed |
| Dispatch.EofChunkProcessedLast | chunks/chunks.go:89-95 | the EOF chunk is the last one processed, exactly once, and no Read follows; the error is nil iff the processor accepts it |
| Dispatch.ReadErrorAborts | chunks/chunks.go:96-98 | a read error ends Process with that error, without calling the processor for it |
| Dispatch.FirstProcessingErrorAborts | chunks/chunks.go:90-102 | the first rejected chunk ends Process with its error, and no later chunk is read or processed |
| Dispatch.ProcessSucceedsIff | chunks/chunks.go:84-104 | Process returns nil iff its last Read reported EOF and the processor accepted every chunk it was given, the EOF chunk included |
| IndexedWriter.InputName | cmd/save.go:71-73 | input name "-" is treated as "chunk.txt"; any other name is kept |
| IndexedWriter.Ext | cmd/save.go:75 | the extension is empty or starts with '.' |
| IndexedWriter.ExtOfFinalElement | cmd/save.go:75 | the extension is the suffix of the final path element from its last '.', including the dot, and is empty exactly when that element has no '.' |
| IndexedWriter.StripTrailingSlashes | cmd/save.go:76 | the longest prefix not ending in '/', with only slashes after it |
| IndexedWriter.AfterLastSlash | cmd/save.go:75-76 | the final path element: the longest suffix that holds no '/' |
| IndexedWriter.Base | cmd/save.go:76 | the empty path gives "."; a path of slashes only gives "/"; otherwise trailing slashes are stripped and the result is the last slash-free part of what remains |
| IndexedWriter.TrimSuffix | cmd/save.go:76 | removing a suffix that is present leaves what precedes it; otherwise the string is unchanged |
| IndexedWriter.BaseNameAndExt | cmd/save.go:75-76 | ext is a suffix of the final path element, and baseName followed by ext is that element |
| IndexedWriter.ExtAfterLastDot | cmd/save.go:75 | a name ending in "." + t, with no dot or slash in t, has extension "." + t |
| IndexedWriter.Decimal | cmd/save.go:106 | %d gives one or more decimal digits, with no leading zero |
| IndexedWriter.DecimalRoundTrip | cmd/save.go:106 | reading back the decimal digits of n gives n |
| IndexedWriter.FileNameRoundTrip | cmd/save.go:106 | the index can be recovered from "<base>-<index>.<ext>" |
| IndexedWriter.FileNamesDistinct | cmd/save.go:106 | different indices give different file names |
| IndexedWriter.Next | cmd/save.go:100 | w.index++ on a uint32 is the index plus one, modulo 2^32 |
| IndexedWriter.IndexedChunksWriter.constructor | cmd/save.go:70-83 | the writer keeps the output directory, ext is Ext of the input name, baseName is Base with ext trimmed, and index starts at 0 |
| IndexedWriter.IndexedChunksWriter.OutputPath | cmd/save.go:105-107 | the path lies in the output directory and its name is "<base>-<index>.<ext>" for the current index, from which the index can be read back |
| IndexedWriter.IndexedChunksWriter.ProcessChunk | cmd/save.go:85-103 | a failed create returns the create error, a failed write returns the write error, and either leaves index and Written unchanged; otherwise the index advances by one with uint32 wrap-around, and the file for the old index is recorded as written; dir, baseName and ext never change |
| IndexedWriter.WrittenFilesDistinct | cmd/save.go:100-106 | up to 2^32 successful calls write pairwise distinct files |
| IndexedWriter.WrittenWrapsAround | cmd/save.go:100-106 | after 2^32 successful calls the index has wrapped, and the next file written is the first one again |
| IndexedWriter.PlainNameBase | cmd/save.go:76 | a slash-free name b.t, with no '.' in t, has base name b once its extension ".t" is trimmed |
| IndexedWriter.DataTxtExt | cmd/save.go:75 | input "data.txt" has extension ".txt" |
| IndexedWriter.StdinExt | cmd/save.go:71-75 | input "-" is named "chunk.txt" and has extension ".txt" |
| IndexedWriter.FirstFileNames | cmd/save.go:106 | the first files for base "data" and for base "chunk", with extension ".txt", are "data-0..txt" and "chunk-0..txt" |
| Pipeline.ReadEveryChunk | chunks/chunks.go:84-98 | the outcomes of calling Read on a LineReader with n ≥ 1 until it returns EOF or an error are exactly ReadAll of the results it had not yet consumed |
| Pipeline.LineReaderStops | chunks/chunks.go:84-104 | Process over a LineReader with n ≥ 1 always returns, whatever the processor does |
| Pipeline.SavesEveryLine | chunks/chunks.go:84-104 | with an input of complete lines and a processor that accepts everything, Process returns nil after processing every chunk in order; together those chunks hold every non-blank line, each followed by '\n' |
| Pipeline.RejectedChunkStopsSave | chunks/chunks.go:100-102 | the first chunk the processor rejects ends the save with its error, and no later chunk is read |

## Left out

- `ReadToChannel` (chunks/reader.go:73-85) and chunks/helpers.go: goroutines, channels and timers. Only the sequential logic is modelled.
- HTTP sending (chunks/http.go, chunks/processor.go, cmd/send.go), cobra command setup, `getInputFile`, `os.MkdirAll` and the log-and-exit paths: command-line wiring and I/O.
- Internals of bufio (buffer size, `\r\n` stripping, how `isPrefix` arises): `ReadLine` is a sequence of results. Its documented guarantees are the hypothesis `BufioContract`, not a requirement of `Read`.
- `os.Create` and `Write`: a `FileSystem` value says whether each fails and gives the cause. The deferred `Close`, and the error it may return, is not modelled, because the code ignores that error.
- IndexedWriter.IndexedChunksWriter.ProcessChunk: the file system is a stateless oracle, so the model does not capture the file that a successful `os.Create` leaves on disk (created, or truncated if it existed) when the write then fails; only index and Written are promised unchanged.
- `filepath.Join`: kept as the pair of its arguments (`JoinedPath`). Path cleaning is not computed.
- File and path names: Go strings are byte strings, but names are modelled as character sequences (`string`). The separators `'/'`, `'.'` and `'-'` are ASCII, so `Ext`, `Base` and `TrimSuffix` agree with Go on valid UTF-8; a name that is not valid UTF-8 cannot be represented.
- `filepath.Ext` and `filepath.Base`: modelled with `'/'` as the only separator, with no volume names.
- Dispatch.Process: requires that the reader eventually reports EOF or an error, or that the processor rejects a chunk. This is how the model deals with a `LineReader` with n = 0, which always returns an empty chunk with a nil error, so Go's loop never ends unless the processor rejects that empty chunk. `Pipeline.LineReaderStops` proves the requirement holds for every n ≥ 1.
- Dispatch.Process: the processor is a pure function of context and chunk. So a stateful processor such as `indexedChunksWriter` is not run inside `Process` by this model. Its effect is given call by call by `IndexedChunksWriter.ProcessChunk`.
- Context: `context.Background()` is a single value. The processor receives it, but it carries no deadline or cancellation.
- Error messages: the two errors that wrap a chunk or a cause are kept as data (`ProcessError`, `ReadError`, `WriteError`), not as formatted text.
- The signature mismatches between files from different versions are not reconciled: cmd/save.go:39 calls `Process` with two arguments, and cmd/save.go:85 has no context parameter. The model follows each file as written.

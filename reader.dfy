/** The line-bounded chunk reader: LineReader.Read pulls up to n lines from a
    buffered cursor and joins the non-blank ones, each followed by '\n'. */
module LineReading {
  import opened Types

  /** The error part of one bufio.Reader.ReadLine result. */
  datatype ReadLineErr = NoError | EOF | IoError(cause: string)

  /** One result of bufio.Reader.ReadLine: the line without its terminator,
      whether the line was longer than the buffer, and the error. */
  datatype ReadLineResult = ReadLineResult(line: seq<byte>, isPrefix: bool, err: ReadLineErr)

  /** What ReadLine reports once the underlying stream is exhausted. */
  const EofResult: ReadLineResult := ReadLineResult([], false, EOF)

  /** The k-th result a cursor over rs yields: rs[k], then EOF for ever. */
  function Stream(rs: seq<ReadLineResult>, k: nat): ReadLineResult
  {
    if k < |rs| then rs[k] else EofResult
  }

  /** A complete line read without error: Read keeps it and goes on. */
  predicate IsPlain(r: ReadLineResult)
  {
    r.err == NoError && !r.isPrefix
  }

  /** What bufio documents for ReadLine: a result carries either bytes or an
      error, never both, and the line terminator is never part of the line. */
  predicate BufioContract(rs: seq<ReadLineResult>)
  {
    forall i :: 0 <= i < |rs| ==> (rs[i].err != NoError ==> rs[i].line == []) && NewLine !in rs[i].line
  }

  /** appendLine: the line's bytes, then '\n' unless the line is blank. */
  function AppendLine(chunk: Chunk, line: seq<byte>): (r: Chunk)
    ensures line == [] ==> r == chunk
    ensures line != [] ==> r == chunk + line + [NewLine]
  {
    var grown := chunk + line;
    if |line| != 0 then grown + [NewLine] else grown
  }

  function LinesOf(rs: seq<ReadLineResult>): seq<seq<byte>>
  {
    seq(|rs|, i requires 0 <= i < |rs| => rs[i].line)
  }

  /** The lines that are not blank, in order. */
  function NonBlank(ls: seq<seq<byte>>): seq<seq<byte>>
  {
    if ls == [] then [] else (if ls[0] == [] then [] else [ls[0]]) + NonBlank(ls[1..])
  }

  /** Every line followed by '\n'. */
  function Terminate(ls: seq<seq<byte>>): Chunk
  {
    if ls == [] then [] else ls[0] + [NewLine] + Terminate(ls[1..])
  }

  /** The chunk that a sequence of lines is turned into. */
  function Frame(ls: seq<seq<byte>>): Chunk
  {
    Terminate(NonBlank(ls))
  }

  /** Number of line terminators in a chunk, i.e. the number of lines it holds. */
  function LineCount(c: Chunk): nat
  {
    if c == [] then 0 else (if c[0] == NewLine then 1 else 0) + LineCount(c[1..])
  }

  /** A chunk that ends in '\n' (unless empty) and holds no empty line. */
  predicate WellFormedChunk(c: Chunk)
  {
    && (c == [] || c[|c| - 1] == NewLine)
    && forall i :: 0 <= i < |c| && c[i] == NewLine ==> 0 < i && c[i - 1] != NewLine
  }

  lemma {:induction false} NonBlankAppend(a: seq<seq<byte>>, b: seq<seq<byte>>)
    ensures NonBlank(a + b) == NonBlank(a) + NonBlank(b)
  {
    if a == [] {
      assert a + b == b;
    } else {
      assert (a + b)[1..] == a[1..] + b;
      NonBlankAppend(a[1..], b);
    }
  }

  lemma {:induction false} TerminateAppend(a: seq<seq<byte>>, b: seq<seq<byte>>)
    ensures Terminate(a + b) == Terminate(a) + Terminate(b)
  {
    if a == [] {
      assert a + b == b;
    } else {
      assert (a + b)[1..] == a[1..] + b;
      TerminateAppend(a[1..], b);
    }
  }

  /** Framing distributes over concatenation of line sequences. */
  lemma FrameAppend(a: seq<seq<byte>>, b: seq<seq<byte>>)
    ensures Frame(a + b) == Frame(a) + Frame(b)
  {
    NonBlankAppend(a, b);
    TerminateAppend(NonBlank(a), NonBlank(b));
  }

  lemma LinesOfAppend(a: seq<ReadLineResult>, b: seq<ReadLineResult>)
    ensures LinesOf(a + b) == LinesOf(a) + LinesOf(b)
  {
  }

  /** Appending one line to a chunk is framing one more line. */
  lemma AppendLineFrames(ls: seq<seq<byte>>, l: seq<byte>)
    ensures AppendLine(Frame(ls), l) == Frame(ls + [l])
  {
    FrameAppend(ls, [l]);
    assert NonBlank([l]) == (if l == [] then [] else [l]) by {
      assert [l][1..] == [];
    }
    if l != [] {
      assert Terminate([l]) == l + [NewLine] by {
        assert [l][1..] == [];
      }
    }
  }

  /** Blank lines vanish: a blank line anywhere contributes nothing to the chunk. */
  lemma BlankLinesVanish(a: seq<seq<byte>>, b: seq<seq<byte>>)
    ensures Frame(a + [[]] + b) == Frame(a + b)
  {
    FrameAppend(a + [[]], b);
    FrameAppend(a, [[]]);
    FrameAppend(a, b);
    var blank: seq<seq<byte>> := [[]];
    assert NonBlank(blank) == [] by {
      assert blank[1..] == [];
    }
  }

  lemma {:induction false} NonBlankShrinks(ls: seq<seq<byte>>)
    ensures |NonBlank(ls)| <= |ls|
    ensures forall k :: 0 <= k < |NonBlank(ls)| ==> NonBlank(ls)[k] != [] && NonBlank(ls)[k] in ls
  {
    if ls != [] {
      NonBlankShrinks(ls[1..]);
    }
  }

  lemma {:induction false} LineCountAppend(a: Chunk, b: Chunk)
    ensures LineCount(a + b) == LineCount(a) + LineCount(b)
  {
    if a == [] {
      assert a + b == b;
    } else {
      assert (a + b)[1..] == a[1..] + b;
      LineCountAppend(a[1..], b);
    }
  }

  lemma {:induction false} LineCountOfLine(l: seq<byte>)
    requires NewLine !in l
    ensures LineCount(l) == 0
  {
    if l != [] {
      LineCountOfLine(l[1..]);
    }
  }

  /** Terminating lines that hold no '\n' gives one '\n' per line. */
  lemma {:induction false} TerminateLineCount(ls: seq<seq<byte>>)
    requires forall k :: 0 <= k < |ls| ==> NewLine !in ls[k]
    ensures LineCount(Terminate(ls)) == |ls|
  {
    if ls != [] {
      LineCountAppend(ls[0] + [NewLine], Terminate(ls[1..]));
      LineCountAppend(ls[0], [NewLine]);
      LineCountOfLine(ls[0]);
      assert LineCount([NewLine]) == 1 by {
        assert [NewLine][1..] == [];
      }
      TerminateLineCount(ls[1..]);
    }
  }

  /** Terminating non-empty lines that hold no '\n' gives a well-formed chunk. */
  lemma {:induction false} TerminateWellFormed(ls: seq<seq<byte>>)
    requires forall k :: 0 <= k < |ls| ==> ls[k] != [] && NewLine !in ls[k]
    ensures WellFormedChunk(Terminate(ls))
  {
    if ls != [] {
      var head := ls[0] + [NewLine];
      var tail := Terminate(ls[1..]);
      TerminateWellFormed(ls[1..]);
      assert tail != [] ==> tail[0] == ls[1][0] by {
        if tail != [] {
          assert ls[1..] != [];
          assert tail == ls[1..][0] + [NewLine] + Terminate(ls[1..][1..]);
        }
      }
      var c := head + tail;
      assert c == Terminate(ls);
      forall i | 0 <= i < |c|
        ensures c[i] == NewLine ==> 0 < i && c[i - 1] != NewLine
      {
        if i < |ls[0]| {
          assert c[i] == ls[0][i];
        } else if i == |ls[0]| {
          assert c[i - 1] == ls[0][i - 1];
        } else if i == |head| {
          assert c[i] == tail[0] == ls[1][0];
        } else {
          assert c[i] == tail[i - |head|];
          assert c[i - 1] == tail[i - 1 - |head|];
        }
      }
    }
  }

  /** The framed chunk of lines without '\n' is well formed and holds at most
      as many lines as were given. */
  lemma FrameShape(ls: seq<seq<byte>>)
    requires forall k :: 0 <= k < |ls| ==> NewLine !in ls[k]
    ensures WellFormedChunk(Frame(ls))
    ensures LineCount(Frame(ls)) <= |ls|
  {
    NonBlankShrinks(ls);
    TerminateWellFormed(NonBlank(ls));
    TerminateLineCount(NonBlank(ls));
  }

  /** The number of leading results that Read keeps: the index of the first
      result among the first n that is not a plain line, or n. */
  function FirstStop(rs: seq<ReadLineResult>, n: nat): (j: nat)
    ensures j <= n && j <= |rs|
    ensures forall i :: 0 <= i < j ==> IsPlain(rs[i])
    ensures j < n ==> !IsPlain(Stream(rs, j))
  {
    if n == 0 || rs == [] || !IsPlain(rs[0]) then 0 else 1 + FirstStop(rs[1..], n - 1)
  }

  /** FirstStop is the only index with its defining properties. */
  lemma FirstStopIs(rs: seq<ReadLineResult>, n: nat, j: nat)
    requires j <= n
    requires forall i :: 0 <= i < j ==> IsPlain(Stream(rs, i))
    requires j < n ==> !IsPlain(Stream(rs, j))
    ensures FirstStop(rs, n) == j
  {
  }

  /** The outcome of one Read and the results left for the next call. */
  datatype ReadStep = ReadStep(outcome: ReadOutcome, rest: seq<ReadLineResult>)

  /** What one Read with chunk size n does to the results rs still ahead of
      the cursor: keep the plain lines before the first non-plain result;
      return them if n of them were read, with EOF if EOF came first, and
      fail on any other error or on an over-long line. */
  function ReadSpec(rs: seq<ReadLineResult>, n: nat): ReadStep
  {
    StepAt(rs, n, FirstStop(rs, n))
  }

  /** The outcome of a Read that stops after the first j results. */
  function StepAt(rs: seq<ReadLineResult>, n: nat, j: nat): ReadStep
    requires j <= n && j <= |rs|
  {
    var gathered := Frame(LinesOf(rs[..j]));
    if j == n then ReadStep(Ok(gathered), rs[n..])
    else
      var r := Stream(rs, j);
      var rest := if j < |rs| then rs[j + 1..] else [];
      match r.err
      case EOF => ReadStep(Eof(AppendLine(gathered, r.line)), rest)
      case IoError(cause) => ReadStep(Fail(ReadLineFailed(cause)), rest)
      case NoError => ReadStep(Fail(LineTooLong), rest)
  }

  /** A Read whose first j results are plain lines, and whose (j+1)-th is not
      or j = n, behaves as StepAt(rs, n, j). */
  lemma ReadSpecAt(rs: seq<ReadLineResult>, n: nat, j: nat)
    requires j <= n
    requires forall i :: 0 <= i < j ==> IsPlain(Stream(rs, i))
    requires j < n ==> !IsPlain(Stream(rs, j))
    ensures j <= |rs| && ReadSpec(rs, n) == StepAt(rs, n, j)
  {
    FirstStopIs(rs, n, j);
  }

  /** bufio.Reader as a cursor over the results its ReadLine will produce. */
  class BufReader {
    const results: seq<ReadLineResult>
    var pos: nat

    ghost predicate Valid()
      reads this
    {
      pos <= |results|
    }

    /** The results ReadLine has not produced yet. */
    ghost function Remaining(): seq<ReadLineResult>
      reads this
      requires Valid()
    {
      results[pos..]
    }

    constructor (results: seq<ReadLineResult>)
      ensures Valid() && Remaining() == results
    {
      this.results := results;
      pos := 0;
    }

    /** bufio.Reader.ReadLine: the next result; EOF once the stream is exhausted. */
    method ReadLine() returns (r: ReadLineResult)
      requires Valid()
      modifies this`pos
      ensures Valid()
      ensures r == Stream(old(Remaining()), 0)
      ensures Remaining() == if old(Remaining()) == [] then [] else old(Remaining())[1..]
    {
      if pos < |results| {
        r := results[pos];
        pos := pos + 1;
      } else {
        r := EofResult;
      }
    }
  }

  /** A reader that splits its buffered input into chunks of at most n lines. */
  class LineReader {
    const n: uint32
    const buf: BufReader

    /** NewLineReader: wraps the stream in a fresh buffered cursor. */
    constructor (stream: seq<ReadLineResult>, linesInChunk: uint32)
      ensures n == linesInChunk && fresh(buf)
      ensures buf.Valid() && buf.Remaining() == stream
    {
      n := linesInChunk;
      buf := new BufReader(stream);
    }

    /** Read: one chunk of at most n lines. The context is not used. */
    method Read(ctx: Context) returns (out: ReadOutcome)
      requires buf.Valid()
      modifies buf
      ensures buf.Valid()
      ensures out == ReadSpec(old(buf.Remaining()), n as nat).outcome
      ensures buf.Remaining() == ReadSpec(old(buf.Remaining()), n as nat).rest
    {
      ghost var start := buf.Remaining();
      var chunk: Chunk := [];
      var i: uint32 := 0;
      while i < n
        invariant i <= n && i as int <= |start|
        invariant buf.Valid() && buf.Remaining() == start[i..]
        invariant forall k :: 0 <= k < i as int ==> IsPlain(start[k])
        invariant chunk == Frame(LinesOf(start[..i]))
      {
        var r := buf.ReadLine();
        if r.err == EOF {
          chunk := AppendLine(chunk, r.line);
          ReadSpecAt(start, n as nat, i as nat);
          return Eof(chunk);
        }
        if r.err != NoError {
          ReadSpecAt(start, n as nat, i as nat);
          return Fail(ReadLineFailed(r.err.cause));
        }
        if r.isPrefix {
          ReadSpecAt(start, n as nat, i as nat);
          return Fail(LineTooLong);
        }
        assert r == start[i];
        assert start[..i + 1] == start[..i] + [start[i]];
        LinesOfAppend(start[..i], [start[i]]);
        assert LinesOf([start[i]]) == [r.line];
        AppendLineFrames(LinesOf(start[..i]), r.line);
        chunk := AppendLine(chunk, r.line);
        i := i + 1;
      }
      ReadSpecAt(start, n as nat, n as nat);
      return Ok(chunk);
    }
  }

  /** One Read consumes at most n results and leaves a suffix of them; with
      n = 0 it consumes nothing and returns an empty chunk with no error. */
  lemma ReadConsumesAtMostN(rs: seq<ReadLineResult>, n: nat)
    ensures |rs| - n <= |ReadSpec(rs, n).rest| <= |rs|
    ensures ReadSpec(rs, n).rest == rs[|rs| - |ReadSpec(rs, n).rest|..]
    ensures n == 0 ==> ReadSpec(rs, n) == ReadStep(Ok([]), rs)
  {
    var j := FirstStop(rs, n);
    var rest := ReadSpec(rs, n).rest;
    var consumed := if j == n then n else if j < |rs| then j + 1 else j;
    assert rest == rs[consumed..];
    assert rs[consumed..] == rs[|rs| - |rs[consumed..]|..];
    if n == 0 {
      assert LinesOf(rs[..0]) == [];
    }
  }

  /** Read returns a chunk with a nil error exactly when the next n results are
      all plain lines, and that chunk is those lines, framed. */
  lemma ReadFullChunk(rs: seq<ReadLineResult>, n: nat)
    ensures ReadSpec(rs, n).outcome.Ok? <==> forall i :: 0 <= i < n ==> IsPlain(Stream(rs, i))
    ensures ReadSpec(rs, n).outcome.Ok? ==>
      ReadSpec(rs, n) == ReadStep(Ok(Frame(LinesOf(rs[..n]))), rs[n..])
  {
    if forall i :: 0 <= i < n ==> IsPlain(Stream(rs, i)) {
      FirstStopIs(rs, n, n);
    }
  }

  /** EOF after j plain lines (j < n, possibly none): Read returns those lines,
      framed, together with EOF. */
  lemma ReadAtEof(rs: seq<ReadLineResult>, n: nat, j: nat)
    requires BufioContract(rs)
    requires j < n
    requires forall i :: 0 <= i < j ==> IsPlain(Stream(rs, i))
    requires Stream(rs, j).err == EOF
    ensures j <= |rs|
    ensures ReadSpec(rs, n) == ReadStep(Eof(Frame(LinesOf(rs[..j]))), if j < |rs| then rs[j + 1..] else [])
  {
    assert !IsPlain(Stream(rs, |rs|));
    ReadSpecAt(rs, n, j);
  }

  /** An over-long line (isPrefix, no error) after j plain lines: Read fails
      with "line too long" and drops the lines gathered so far. */
  lemma ReadRejectsLongLine(rs: seq<ReadLineResult>, n: nat, j: nat)
    requires j < n
    requires forall i :: 0 <= i < j ==> IsPlain(Stream(rs, i))
    requires Stream(rs, j).err == NoError && Stream(rs, j).isPrefix
    ensures j < |rs|
    ensures ReadSpec(rs, n) == ReadStep(Fail(LineTooLong), rs[j + 1..])
  {
    assert !IsPlain(Stream(rs, |rs|));
    ReadSpecAt(rs, n, j);
  }

  /** Any other ReadLine error after j plain lines: Read fails with that error
      wrapped and drops the lines gathered so far. */
  lemma ReadReportsLineError(rs: seq<ReadLineResult>, n: nat, j: nat)
    requires j < n
    requires forall i :: 0 <= i < j ==> IsPlain(Stream(rs, i))
    requires Stream(rs, j).err.IoError?
    ensures j < |rs|
    ensures ReadSpec(rs, n) == ReadStep(Fail(ReadLineFailed(rs[j].err.cause)), rs[j + 1..])
  {
    assert !IsPlain(Stream(rs, |rs|));
    ReadSpecAt(rs, n, j);
  }

  /** Every chunk Read returns holds at most n lines, ends in '\n' unless it
      is empty, and holds no empty line. */
  lemma ReadChunkShape(rs: seq<ReadLineResult>, n: nat)
    requires BufioContract(rs)
    ensures var c := ChunkOf(ReadSpec(rs, n).outcome);
      WellFormedChunk(c) && LineCount(c) <= n
  {
    var j := FirstStop(rs, n);
    var ls := LinesOf(rs[..j]);
    FrameShape(ls);
    var s := ReadSpec(rs, n);
    if s.outcome.Eof? && j < |rs| {
      assert rs[j].line == [];
    }
  }

  /** The outcomes of calling Read again and again over rs with chunk size
      n >= 1, up to and including the first Eof or Fail. */
  function ReadAll(rs: seq<ReadLineResult>, n: nat): (outs: seq<ReadOutcome>)
    requires 1 <= n
    ensures |outs| >= 1 && !outs[|outs| - 1].Ok?
    ensures forall i :: 0 <= i < |outs| - 1 ==> outs[i].Ok?
    decreases |rs|
  {
    var s := ReadSpec(rs, n);
    if s.outcome.Ok? then [s.outcome] + ReadAll(s.rest, n) else [s.outcome]
  }

  /** Fewer than n complete lines: a single chunk, with EOF. */
  lemma ReadAllShort(rs: seq<ReadLineResult>, n: nat)
    requires |rs| < n
    requires forall i :: 0 <= i < |rs| ==> IsPlain(rs[i])
    ensures ReadAll(rs, n) == [Eof(Frame(LinesOf(rs)))]
  {
    ReadSpecAt(rs, n, |rs|);
    assert rs[..|rs|] == rs;
  }

  /** At least n complete lines: a full chunk of the first n, then the rest. */
  lemma ReadAllLong(rs: seq<ReadLineResult>, n: nat)
    requires 1 <= n <= |rs|
    requires forall i :: 0 <= i < |rs| ==> IsPlain(rs[i])
    ensures ReadAll(rs, n) == [Ok(Frame(LinesOf(rs[..n])))] + ReadAll(rs[n..], n)
  {
    ReadSpecAt(rs, n, n);
  }

  /** Over a stream of complete lines, the chunks Read produces concatenate to
      the non-blank lines, each followed by '\n'. */
  lemma {:induction false} ReadAllReassembles(rs: seq<ReadLineResult>, n: nat)
    requires 1 <= n
    requires forall i :: 0 <= i < |rs| ==> IsPlain(rs[i])
    ensures Flatten(Chunks(ReadAll(rs, n))) == Frame(LinesOf(rs))
    decreases |rs|
  {
    if |rs| < n {
      ReassembleShort(rs, n);
    } else {
      PlainSuffix(rs, n);
      ReadAllReassembles(rs[n..], n);
      ReassembleLong(rs, n);
    }
  }

  lemma ReassembleShort(rs: seq<ReadLineResult>, n: nat)
    requires |rs| < n
    requires forall i :: 0 <= i < |rs| ==> IsPlain(rs[i])
    ensures Flatten(Chunks(ReadAll(rs, n))) == Frame(LinesOf(rs))
  {
    ReadAllShort(rs, n);
    var whole := Frame(LinesOf(rs));
    var cs := Chunks(ReadAll(rs, n));
    assert cs == [whole];
    assert cs[1..] == [];
  }

  lemma ReassembleLong(rs: seq<ReadLineResult>, n: nat)
    requires 1 <= n <= |rs|
    requires forall i :: 0 <= i < |rs| ==> IsPlain(rs[i])
    requires Flatten(Chunks(ReadAll(rs[n..], n))) == Frame(LinesOf(rs[n..]))
    ensures Flatten(Chunks(ReadAll(rs, n))) == Frame(LinesOf(rs))
  {
    ReadAllLong(rs, n);
    var tail := rs[n..];
    FlattenChunksCons(Ok(Frame(LinesOf(rs[..n]))), ReadAll(tail, n));
    SplitLines(rs, n);
  }

  lemma SplitLines(rs: seq<ReadLineResult>, n: nat)
    requires n <= |rs|
    ensures Frame(LinesOf(rs)) == Frame(LinesOf(rs[..n])) + Frame(LinesOf(rs[n..]))
  {
    assert rs == rs[..n] + rs[n..];
    LinesOfAppend(rs[..n], rs[n..]);
    FrameAppend(LinesOf(rs[..n]), LinesOf(rs[n..]));
  }

  lemma FlattenChunksCons(o: ReadOutcome, outs: seq<ReadOutcome>)
    ensures Flatten(Chunks([o] + outs)) == ChunkOf(o) + Flatten(Chunks(outs))
  {
    assert Chunks([o] + outs)[1..] == Chunks(outs);
  }

  lemma PlainSuffix(rs: seq<ReadLineResult>, k: nat)
    requires k <= |rs|
    requires forall i :: 0 <= i < |rs| ==> IsPlain(rs[i])
    ensures forall i :: 0 <= i < |rs[k..]| ==> IsPlain(rs[k..][i])
  {
  }

  /** Over a stream of complete lines, the last chunk comes with EOF and
      holds the lines from q * n on, where q is its index, so that
      q * n <= |rs| < q * n + n. */
  lemma {:induction false} ReadAllLastChunk(rs: seq<ReadLineResult>, n: nat)
    requires 1 <= n
    requires forall i :: 0 <= i < |rs| ==> IsPlain(rs[i])
    ensures LastChunkAt(rs, n, |ReadAll(rs, n)| - 1)
    decreases |rs|
  {
    if |rs| < n {
      ReadAllShort(rs, n);
      assert rs[0 * n..] == rs;
    } else {
      PlainSuffix(rs, n);
      ReadAllLastChunk(rs[n..], n);
      LastChunkStep(rs, n, |ReadAll(rs[n..], n)| - 1);
    }
  }

  /** The last of the outcomes over rs is the EOF chunk of the lines from
      q * n on, and q * n <= |rs| < q * n + n. */
  predicate LastChunkAt(rs: seq<ReadLineResult>, n: nat, q: int)
    requires 1 <= n
  {
    && 0 <= q == |ReadAll(rs, n)| - 1
    && q * n <= |rs| < q * n + n
    && ReadAll(rs, n)[q] == Eof(Frame(LinesOf(rs[q * n..])))
  }

  lemma LastChunkStep(rs: seq<ReadLineResult>, n: nat, q: int)
    requires 1 <= n <= |rs|
    requires forall i :: 0 <= i < |rs| ==> IsPlain(rs[i])
    requires LastChunkAt(rs[n..], n, q)
    ensures LastChunkAt(rs, n, q + 1)
  {
    var tail := rs[n..];
    var a := q * n;
    assert a <= |tail| < a + n;
    DropDrop(rs, n, a);
    MulSucc(q, n);
    ReadAllLongIndex(rs, n, q);
  }

  /** When the line count is a multiple m * n of the chunk size, Read yields m
      full chunks and then an empty chunk with EOF. */
  lemma EmptyLastChunk(rs: seq<ReadLineResult>, n: nat, m: nat)
    requires 1 <= n && |rs| == m * n
    requires forall i :: 0 <= i < |rs| ==> IsPlain(rs[i])
    ensures |ReadAll(rs, n)| == m + 1
    ensures ReadAll(rs, n)[m] == Eof([])
  {
    ReadAllLastChunk(rs, n);
    var q := |ReadAll(rs, n)| - 1;
    assert LastChunkAt(rs, n, q);
    MultipleIndex(q, m, n);
    assert rs[m * n..] == [];
    assert LinesOf([]) == [];
  }

  /** The outcomes after a full first chunk are those over the rest. */
  lemma ReadAllLongIndex(rs: seq<ReadLineResult>, n: nat, q: nat)
    requires 1 <= n <= |rs|
    requires forall i :: 0 <= i < |rs| ==> IsPlain(rs[i])
    requires q < |ReadAll(rs[n..], n)|
    ensures |ReadAll(rs, n)| == |ReadAll(rs[n..], n)| + 1
    ensures ReadAll(rs, n)[q + 1] == ReadAll(rs[n..], n)[q]
  {
    ReadAllLong(rs, n);
  }

  lemma DropDrop(rs: seq<ReadLineResult>, n: nat, a: nat)
    requires n + a <= |rs|
    ensures rs[n..][a..] == rs[n + a..]
  {
  }

  lemma MulSucc(q: nat, n: nat)
    ensures (q + 1) * n == q * n + n
  {
  }

  lemma MulMonotone(a: nat, b: nat, n: nat)
    ensures a <= b ==> a * n <= b * n
  {
    if a <= b {
      assert b * n == a * n + (b - a) * n;
    }
  }

  lemma MultipleIndex(q: nat, m: nat, n: nat)
    requires 1 <= n && q * n <= m * n < q * n + n
    ensures q == m
  {
    MulMonotone(q + 1, m, n);
    MulMonotone(m + 1, q, n);
    MulSucc(q, n);
    MulSucc(m, n);
  }
}

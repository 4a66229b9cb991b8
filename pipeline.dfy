/** The save command end to end: a LineReader over the input, run by Process.
    The reads a LineReader returns, one Read call after the other, are
    ReadAll(rs, n) (ReadEveryChunk); Process sees them as its reader's script. */
module Pipeline {
  import opened Types
  import opened LineReading
  import opened Dispatch

  /** Read called on a LineReader again and again, as Process calls it, until
      a call returns EOF or an error: the outcomes are ReadAll of the results
      the reader had not yet consumed. */
  method ReadEveryChunk(lr: LineReader) returns (outs: seq<ReadOutcome>)
    requires 1 <= lr.n as nat && lr.buf.Valid()
    modifies lr.buf
    ensures outs == ReadAll(old(lr.buf.Remaining()), lr.n as nat)
  {
    var n := lr.n as nat;
    ghost var whole := ReadAll(lr.buf.Remaining(), n);
    outs := [];
    while true
      invariant lr.buf.Valid() && outs + ReadAll(lr.buf.Remaining(), n) == whole
      decreases |lr.buf.Remaining()|
    {
      ghost var rs := lr.buf.Remaining();
      var out := lr.Read(Background);
      ReadAllAdvance(whole, outs, rs, n, out, lr.buf.Remaining());
      outs := outs + [out];
      if !out.Ok? {
        return;
      }
    }
  }

  /** One more Read call: if the outcomes so far, followed by ReadAll of the
      results left, are ReadAll of the whole stream, then so are the outcomes
      with this call's added, followed by ReadAll of what it leaves; after an
      EOF or an error nothing follows. A full chunk leaves fewer results. */
  lemma ReadAllAdvance(whole: seq<ReadOutcome>, outs: seq<ReadOutcome>, rs: seq<ReadLineResult>, n: nat,
                       out: ReadOutcome, rest: seq<ReadLineResult>)
    requires 1 <= n && outs + ReadAll(rs, n) == whole
    requires ReadSpec(rs, n) == ReadStep(out, rest)
    ensures out.Ok? ==> |rest| < |rs| && (outs + [out]) + ReadAll(rest, n) == whole
    ensures !out.Ok? ==> outs + [out] == whole
  {
    ReadAllStep(rs, n, out, rest);
    if out.Ok? {
      ConcatStep(outs, out, ReadAll(rest, n), ReadAll(rs, n), whole);
    } else {
      ConcatStep(outs, out, [], ReadAll(rs, n), whole);
    }
  }

  /** One Read call: its outcome heads ReadAll; a full chunk leaves fewer
      results, with ReadAll of them to follow, and an EOF or error ends it. */
  lemma ReadAllStep(rs: seq<ReadLineResult>, n: nat, out: ReadOutcome, rest: seq<ReadLineResult>)
    requires 1 <= n && ReadSpec(rs, n) == ReadStep(out, rest)
    ensures out.Ok? ==> |rest| < |rs| && ReadAll(rs, n) == [out] + ReadAll(rest, n)
    ensures !out.Ok? ==> ReadAll(rs, n) == [out]
  {
    var j := FirstStop(rs, n);
    assert ReadSpec(rs, n) == StepAt(rs, n, j);
  }

  lemma ConcatStep(outs: seq<ReadOutcome>, o: ReadOutcome, next: seq<ReadOutcome>, left: seq<ReadOutcome>, whole: seq<ReadOutcome>)
    requires outs + left == whole && left == [o] + next
    ensures (outs + [o]) + next == whole
  {
    assert (outs + [o]) + next == outs + ([o] + next);
  }

  /** A LineReader with n >= 1 always comes to its EOF or an error chunk, so
      Process over it returns, whatever the processor does. */
  lemma LineReaderStops(rs: seq<ReadLineResult>, n: nat, p: ProcessorFunc)
    requires 1 <= n
    ensures Stops(ReadAll(rs, n), p)
  {
    var outs := ReadAll(rs, n);
    assert !outs[|outs| - 1].Ok?;
    TerminalStops(outs, p);
  }

  /** On an input of complete lines that no read fails on, and a processor
      that accepts every chunk, Process returns nil after handing the
      processor every chunk the reader produced, in order, EOF chunk
      included; together they hold every non-blank line of the input, each
      terminated by '\n'. */
  lemma {:induction false} SavesEveryLine(rs: seq<ReadLineResult>, n: nat, p: ProcessorFunc)
    requires 1 <= n
    requires forall i :: 0 <= i < |rs| ==> IsPlain(rs[i])
    requires forall c :: p(Background, c).Success?
    ensures Stops(ReadAll(rs, n), p)
    ensures var run := Outcome(ReadAll(rs, n), p);
      && run.err == None
      && run.trace == Chunks(ReadAll(rs, n))
      && Flatten(run.trace) == Frame(LinesOf(rs))
  {
    var outs := ReadAll(rs, n);
    var m := |outs| - 1;
    ReadAllLastChunk(rs, n);
    assert outs[m].Eof?;
    forall i | 0 <= i < m
      ensures Continues(outs[i], p)
    {
    }
    EofChunkProcessedLast(outs, p, m);
    assert outs[..m + 1] == outs;
    ReadAllReassembles(rs, n);
  }

  /** The first chunk of the reader that the processor rejects stops the
      save with that chunk's error; the chunks after it are never read. */
  lemma RejectedChunkStopsSave(rs: seq<ReadLineResult>, n: nat, p: ProcessorFunc, k: nat)
    requires 1 <= n
    requires k < |ReadAll(rs, n)| && !ReadAll(rs, n)[k].Fail?
    requires p(Background, ChunkOf(ReadAll(rs, n)[k])).Failure?
    requires forall i :: 0 <= i < k ==> p(Background, ChunkOf(ReadAll(rs, n)[i])).Success?
    ensures Stops(ReadAll(rs, n), p)
    ensures var outs := ReadAll(rs, n);
      var c := ChunkOf(outs[k]);
      Outcome(outs, p) == Run(Some(ProcessChunkFailed(c, p(Background, c).reason)), Chunks(outs[..k + 1]), k + 1)
  {
    FirstProcessingErrorAborts(ReadAll(rs, n), p, k);
  }
}

/** The sequential dispatch loop: Process reads a chunk, hands it to the
    processor, and repeats until the reader reports EOF or anything fails. */
module Dispatch {
  import opened Types

  /** What a processor reports for one chunk: a nil error or an error. */
  datatype Status = Success | Failure(reason: string)

  /** A processor, seen only through the outcome it reports for a chunk. */
  type ProcessorFunc = (Context, Chunk) -> Status

  /** ProcessorFunc.ProcessChunk: the adapter calls the function itself. */
  function ProcessChunk(f: ProcessorFunc, ctx: Context, chunk: Chunk): (r: Status)
    ensures r == f(ctx, chunk)
  {
    f(ctx, chunk)
  }

  /** Why Process gave up. */
  datatype ProcessError =
    | ReadChunkFailed(cause: ReadError)               // "failed to read chunk: %w"
    | ProcessChunkFailed(chunk: Chunk, reason: string) // "failed to process chunk %s: %w"

  /** A read after which Process goes round its loop again: a chunk with a nil
      error that the processor accepted. */
  predicate Continues(o: ReadOutcome, p: ProcessorFunc)
  {
    o.Ok? && p(Background, o.chunk).Success?
  }

  /** The reader eventually reports EOF or an error. */
  predicate HasTerminal(outs: seq<ReadOutcome>)
  {
    exists i :: 0 <= i < |outs| && !outs[i].Ok?
  }

  /** Process returns at some read of outs: one that reports EOF or an error,
      or whose chunk the processor rejects. */
  predicate Stops(outs: seq<ReadOutcome>, p: ProcessorFunc)
  {
    exists i :: 0 <= i < |outs| && !Continues(outs[i], p)
  }

  lemma TerminalStops(outs: seq<ReadOutcome>, p: ProcessorFunc)
    requires HasTerminal(outs)
    ensures Stops(outs, p)
  {
    var i :| 0 <= i < |outs| && !outs[i].Ok?;
    assert !Continues(outs[i], p);
  }

  /** The index of the read at which Process returns. */
  function StopIndex(outs: seq<ReadOutcome>, p: ProcessorFunc): (k: nat)
    requires Stops(outs, p)
    ensures k < |outs| && !Continues(outs[k], p)
    ensures forall i :: 0 <= i < k ==> Continues(outs[i], p)
    decreases |outs|
  {
    if !Continues(outs[0], p) then 0
    else
      assert Stops(outs[1..], p) by {
        var t :| 0 <= t < |outs| && !Continues(outs[t], p);
        assert outs[1..][t - 1] == outs[t];
      }
      1 + StopIndex(outs[1..], p)
  }

  /** StopIndex is the only index with its defining properties. */
  lemma StopIndexIs(outs: seq<ReadOutcome>, p: ProcessorFunc, k: nat)
    requires k < |outs| && !Continues(outs[k], p)
    requires forall i :: 0 <= i < k ==> Continues(outs[i], p)
    ensures Stops(outs, p) && StopIndex(outs, p) == k
  {
  }

  /** A run of Process: the error it returns (None for nil), the chunks it
      handed to the processor, in order, and the number of Read calls. */
  datatype Run = Run(err: Option<ProcessError>, trace: seq<Chunk>, consumed: nat)

  /** What Process does with a reader that will return outs: it processes
      chunks until the first read error, the first processing error or the
      EOF chunk, whichever comes first. */
  function Outcome(outs: seq<ReadOutcome>, p: ProcessorFunc): Run
    requires Stops(outs, p)
  {
    RunAt(outs, p, StopIndex(outs, p))
  }

  /** The run of Process that returns at read k. */
  function RunAt(outs: seq<ReadOutcome>, p: ProcessorFunc, k: nat): Run
    requires k < |outs| && !Continues(outs[k], p)
  {
    var before := Chunks(outs[..k]);
    match outs[k]
    case Fail(e) => Run(Some(ReadChunkFailed(e)), before, k + 1)
    case Eof(c) =>
      var st := p(Background, c);
      Run(if st.Success? then None else Some(ProcessChunkFailed(c, st.reason)), before + [c], k + 1)
    case Ok(c) => Run(Some(ProcessChunkFailed(c, p(Background, c).reason)), before + [c], k + 1)
  }

  /** A Process that gets through the first k reads and stops at read k runs
      as RunAt(outs, p, k). */
  lemma OutcomeAt(outs: seq<ReadOutcome>, p: ProcessorFunc, k: nat)
    requires k < |outs| && !Continues(outs[k], p)
    requires forall i :: 0 <= i < k ==> Continues(outs[i], p)
    ensures Stops(outs, p) && Outcome(outs, p) == RunAt(outs, p, k)
  {
    StopIndexIs(outs, p, k);
  }

  /** A Reader as the sequence of outcomes its Read calls will return. */
  class ChunkSource {
    const script: seq<ReadOutcome>
    var pos: nat

    ghost predicate Valid()
      reads this
    {
      pos <= |script|
    }

    /** The outcomes the Read calls still to come will return. */
    ghost function Remaining(): seq<ReadOutcome>
      reads this
      requires Valid()
    {
      script[pos..]
    }

    constructor (script: seq<ReadOutcome>)
      ensures Valid() && Remaining() == script
    {
      this.script := script;
      pos := 0;
    }

    method Read(ctx: Context) returns (o: ReadOutcome)
      requires Valid() && Remaining() != []
      modifies this`pos
      ensures Valid()
      ensures o == old(Remaining())[0] && Remaining() == old(Remaining())[1..]
    {
      o := script[pos];
      pos := pos + 1;
    }
  }

  /** Process: the loop must come to an end: the reader must report EOF or an
      error, or the processor reject a chunk, within the reads it has (a
      LineReader with n = 0 never does, and the loop would never end). chunkTimeout and
      concurrency are accepted and ignored, so the outcome does not depend on
      them. The ghost trace records the chunks handed to the processor. */
  method Process(r: ChunkSource, processor: ProcessorFunc, chunkTimeout: int, concurrency: uint32)
    returns (err: Option<ProcessError>, ghost trace: seq<Chunk>)
    requires r.Valid() && Stops(r.Remaining(), processor)
    modifies r
    ensures r.Valid()
    ensures var run := Outcome(old(r.Remaining()), processor);
      && err == run.err && trace == run.trace
      && run.consumed <= |old(r.Remaining())|
      && r.Remaining() == old(r.Remaining())[run.consumed..]
  {
    ghost var start := r.Remaining();
    ghost var k := StopIndex(start, processor);
    ghost var i: nat := 0;
    trace := [];
    while true
      invariant r.Valid() && i <= k && r.Remaining() == start[i..]
      invariant trace == Chunks(start[..i])
      decreases |start| - i
    {
      var ctx := Background;
      var out := r.Read(ctx);
      assert out == start[i];
      if out.Eof? {
        var st := ProcessChunk(processor, ctx, out.chunk);
        trace := trace + [out.chunk];
        if st.Failure? {
          err := Some(ProcessChunkFailed(out.chunk, st.reason));
        } else {
          err := None;
        }
        assert Outcome(start, processor) == Run(err, trace, i + 1) by {
          OutcomeAt(start, processor, i);
        }
        return;
      }
      if out.Fail? {
        err := Some(ReadChunkFailed(out.error));
        assert Outcome(start, processor) == Run(err, trace, i + 1) by {
          OutcomeAt(start, processor, i);
        }
        return;
      }
      var st := ProcessChunk(processor, ctx, out.chunk);
      trace := trace + [out.chunk];
      if st.Failure? {
        err := Some(ProcessChunkFailed(out.chunk, st.reason));
        assert Outcome(start, processor) == Run(err, trace, i + 1) by {
          OutcomeAt(start, processor, i);
        }
        return;
      }
      assert Continues(start[i], processor);
      ChunksSnoc(start, i);
      i := i + 1;
    }
  }

  lemma ChunksSnoc(outs: seq<ReadOutcome>, k: nat)
    requires k < |outs|
    ensures Chunks(outs[..k + 1]) == Chunks(outs[..k]) + [ChunkOf(outs[k])]
  {
    assert outs[..k + 1] == outs[..k] + [outs[k]];
  }

  /** Chunks reach the processor in the order Read returned them, each at most
      once; every read but a failed one is processed, and nothing after the
      read at which Process returns is read. */
  lemma ProcessedInReadOrder(outs: seq<ReadOutcome>, p: ProcessorFunc)
    requires Stops(outs, p)
    ensures var run := Outcome(outs, p);
      && 1 <= run.consumed <= |outs|
      && |run.trace| == (if outs[run.consumed - 1].Fail? then run.consumed - 1 else run.consumed)
      && forall i :: 0 <= i < |run.trace| ==> run.trace[i] == ChunkOf(outs[i])
  {
    var k := StopIndex(outs, p);
    assert forall i :: 0 <= i < k ==> Chunks(outs[..k])[i] == ChunkOf(outs[i]);
  }

  /** The EOF chunk (reached with every earlier chunk accepted) is processed
      exactly once, as the last one, and no Read follows it; Process returns
      nil exactly when the processor accepts it. */
  lemma EofChunkProcessedLast(outs: seq<ReadOutcome>, p: ProcessorFunc, k: nat)
    requires k < |outs| && outs[k].Eof?
    requires forall i :: 0 <= i < k ==> Continues(outs[i], p)
    ensures Stops(outs, p)
    ensures var run := Outcome(outs, p);
      && run.consumed == k + 1
      && run.trace == Chunks(outs[..k + 1])
      && (run.err == None <==> p(Background, outs[k].chunk).Success?)
  {
    OutcomeAt(outs, p, k);
    assert outs[..k + 1] == outs[..k] + [outs[k]];
  }

  /** A read error (after every earlier chunk was accepted) ends Process with
      that error, without calling the processor for it. */
  lemma ReadErrorAborts(outs: seq<ReadOutcome>, p: ProcessorFunc, k: nat)
    requires k < |outs| && outs[k].Fail?
    requires forall i :: 0 <= i < k ==> Continues(outs[i], p)
    ensures Stops(outs, p)
    ensures Outcome(outs, p) == Run(Some(ReadChunkFailed(outs[k].error)), Chunks(outs[..k]), k + 1)
  {
    OutcomeAt(outs, p, k);
  }

  /** The first chunk the processor rejects ends Process with that error; it is
      the last chunk processed and nothing after it is read. */
  lemma FirstProcessingErrorAborts(outs: seq<ReadOutcome>, p: ProcessorFunc, k: nat)
    requires k < |outs| && !outs[k].Fail? && p(Background, ChunkOf(outs[k])).Failure?
    requires forall i :: 0 <= i < k ==> Continues(outs[i], p)
    ensures Stops(outs, p)
    ensures var c := ChunkOf(outs[k]);
      Outcome(outs, p) == Run(Some(ProcessChunkFailed(c, p(Background, c).reason)), Chunks(outs[..k + 1]), k + 1)
  {
    OutcomeAt(outs, p, k);
    assert outs[..k + 1] == outs[..k] + [outs[k]];
  }

  /** Process returns nil exactly when its last Read reported EOF and the
      processor accepted every chunk it was given, the EOF chunk included. */
  lemma ProcessSucceedsIff(outs: seq<ReadOutcome>, p: ProcessorFunc)
    requires Stops(outs, p)
    ensures var run := Outcome(outs, p);
      1 <= run.consumed <= |outs| &&
      (run.err == None <==>
        outs[run.consumed - 1].Eof? && forall i :: 0 <= i < |run.trace| ==> p(Background, run.trace[i]).Success?)
  {
    var k := StopIndex(outs, p);
    var run := Outcome(outs, p);
    ProcessedInReadOrder(outs, p);
    if outs[k].Eof? && p(Background, outs[k].chunk).Success? {
      forall i | 0 <= i < |run.trace| ensures p(Background, run.trace[i]).Success? {
        assert run.trace[i] == ChunkOf(outs[i]);
        if i < k {
          assert Continues(outs[i], p);
        }
      }
    } else if !outs[k].Fail? {
      assert run.trace[k] == ChunkOf(outs[k]);
    }
  }
}

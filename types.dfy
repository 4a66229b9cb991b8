/** Values shared by the chunk reader, the dispatch loop and the file writer. */
module Types {

  /** One byte of the input stream. */
  newtype byte = x: int | 0 <= x < 256

  /** Go's uint32, used for the chunk size and the file index. */
  newtype uint32 = x: int | 0 <= x < 0x1_0000_0000

  const Uint32Modulus: int := 0x1_0000_0000

  /** The byte '\n' that terminates every line of a chunk. */
  const NewLine: byte := 10

  /** A chunk is the bytes handed to a processor. */
  type Chunk = seq<byte>

  datatype Option<T> = None | Some(value: T)

  /** Stands for context.Background(), the only context the dispatch loop creates. */
  datatype Context = Background

  /** Why a chunk read failed. */
  datatype ReadError =
    | LineTooLong                    // "failed to read full line: line too long"
    | ReadLineFailed(cause: string)  // "failed to read line: %w"

  /** What one call of a chunk reader's Read returns: a chunk with a nil error,
      the final chunk together with io.EOF, or a nil chunk with an error. */
  datatype ReadOutcome =
    | Ok(chunk: Chunk)
    | Eof(chunk: Chunk)
    | Fail(error: ReadError)

  /** The chunk carried by an outcome; a failed read carries the nil chunk. */
  function ChunkOf(o: ReadOutcome): Chunk
  {
    match o
    case Ok(c) => c
    case Eof(c) => c
    case Fail(_) => []
  }

  /** The chunks carried by a sequence of outcomes, in order. */
  function Chunks(outs: seq<ReadOutcome>): (cs: seq<Chunk>)
    ensures |cs| == |outs|
    ensures forall i :: 0 <= i < |outs| ==> cs[i] == ChunkOf(outs[i])
  {
    seq(|outs|, i requires 0 <= i < |outs| => ChunkOf(outs[i]))
  }

  /** The bytes of a sequence of chunks, one after the other. */
  function Flatten(cs: seq<Chunk>): Chunk
  {
    if cs == [] then [] else cs[0] + Flatten(cs[1..])
  }
}

/**
 * The bytes of a retrieved file: held in memory, or a stream of chunk reads
 * that `into_vec` drains into one buffer.
 */
module FileDataModel {
  import opened Results
  import opened Functions

  /** An I/O failure reported while reading a stream; its cause is opaque here. */
  datatype IoError = IoError(code: int)

  /** One item of a chunk stream: a payload, or the failure that ends the read. */
  datatype ChunkRead = Chunk(payload: seq<byte>) | ChunkFailed(error: IoError)

  datatype FileData = Buffer(bytes: seq<byte>) | Stream(chunks: seq<ChunkRead>)

  predicate NoFailure(chunks: seq<ChunkRead>) {
    forall i :: 0 <= i < |chunks| ==> chunks[i].Chunk?
  }

  /** The payloads of a stream, a failed read contributing nothing. */
  function Payloads(chunks: seq<ChunkRead>): (ps: seq<seq<byte>>)
    ensures |ps| == |chunks|
  {
    seq(|chunks|, i requires 0 <= i < |chunks| => if chunks[i].Chunk? then chunks[i].payload else [])
  }

  /** Sum of the payload lengths. */
  function TotalLength(chunks: seq<ChunkRead>): nat {
    if chunks == [] then 0
    else (if chunks[0].Chunk? then |chunks[0].payload| else 0) + TotalLength(chunks[1..])
  }

  /** `Ok(payload)` prefixed with `prefix`; a failure passes through. */
  function Prepended(prefix: seq<byte>, r: Result<seq<byte>, IoError>): Result<seq<byte>, IoError> {
    match r
    case Ok(rest) => Ok(prefix + rest)
    case Err(e) => Err(e)
  }

  /** What draining a stream yields: the payloads in stream order, or the first failure. */
  function StreamBytes(chunks: seq<ChunkRead>): Result<seq<byte>, IoError> {
    if chunks == [] then Ok([])
    else match chunks[0]
      case ChunkFailed(e) => Err(e)
      case Chunk(p) => Prepended(p, StreamBytes(chunks[1..]))
  }

  /**
   * A stream drains successfully exactly when no read fails; the result is
   * then the concatenation of the payloads and its length their sum.
   */
  lemma {:induction false} StreamBytesOk(chunks: seq<ChunkRead>)
    ensures StreamBytes(chunks).Ok? <==> NoFailure(chunks)
    ensures NoFailure(chunks) ==>
              StreamBytes(chunks).value == Concat(Payloads(chunks))
              && |StreamBytes(chunks).value| == TotalLength(chunks)
  {
    if chunks != [] {
      var rest := chunks[1..];
      StreamBytesOk(rest);
      assert NoFailure(chunks) <==> chunks[0].Chunk? && NoFailure(rest) by {
        if chunks[0].Chunk? && NoFailure(rest) {
          forall i | 0 <= i < |chunks| ensures chunks[i].Chunk? {
            if i > 0 { assert chunks[i] == rest[i - 1]; }
          }
        }
      }
      if NoFailure(chunks) {
        assert Payloads(chunks) == [chunks[0].payload] + Payloads(rest);
        ConcatAppend([chunks[0].payload], Payloads(rest));
        assert Concat([chunks[0].payload]) == chunks[0].payload by {
          assert [chunks[0].payload][..0] == [];
        }
      }
    }
  }

  /** A stream whose first failure is at `k` drains to that failure. */
  lemma {:induction false} DrainsToFirstFailure(chunks: seq<ChunkRead>, k: nat)
    requires k < |chunks| && chunks[k].ChunkFailed?
    requires NoFailure(chunks[..k])
    ensures StreamBytes(chunks) == Err(chunks[k].error)
    decreases k
  {
    if k > 0 {
      assert chunks[0] == chunks[..k][0];
      assert chunks[1..][..k - 1] == chunks[..k][1..];
      DrainsToFirstFailure(chunks[1..], k - 1);
    }
  }

  /**
   * The first failed read decides the result, and nothing after it is
   * consumed: the chunks past it do not matter.
   */
  lemma FirstFailureWins(chunks: seq<ChunkRead>, k: nat)
    requires k < |chunks| && chunks[k].ChunkFailed?
    requires NoFailure(chunks[..k])
    ensures StreamBytes(chunks) == Err(chunks[k].error)
    ensures StreamBytes(chunks) == StreamBytes(chunks[..k + 1])
  {
    DrainsToFirstFailure(chunks, k);
    assert chunks[..k + 1][..k] == chunks[..k];
    DrainsToFirstFailure(chunks[..k + 1], k);
  }

  /** Turns file data into one buffer, draining a stream chunk by chunk. */
  method IntoVec(data: FileData) returns (r: Result<seq<byte>, IoError>)
    ensures data.Buffer? ==> r == Ok(data.bytes)
    ensures data.Stream? ==> r == StreamBytes(data.chunks)
  {
    match data
    case Buffer(v) =>
      r := Ok(v);
    case Stream(chunks) =>
      var buffer: seq<byte> := [];
      var i := 0;
      assert Prepended(buffer, StreamBytes(chunks[i..])) == StreamBytes(chunks) by {
        assert chunks[i..] == chunks;
        match StreamBytes(chunks)
        case Ok(v) => assert [] + v == v;
        case Err(_) =>
      }
      while i < |chunks|
        invariant 0 <= i <= |chunks|
        invariant StreamBytes(chunks) == Prepended(buffer, StreamBytes(chunks[i..]))
      {
        assert chunks[i..][0] == chunks[i] && chunks[i..][1..] == chunks[i + 1..];
        match chunks[i] {
          case ChunkFailed(e) =>
            return Err(e);
          case Chunk(p) =>
            if StreamBytes(chunks[i + 1..]).Ok? {
              var v := StreamBytes(chunks[i + 1..]).value;
              assert (buffer + p) + v == buffer + (p + v);
            }
            buffer := buffer + p;
        }
        i := i + 1;
      }
      assert chunks[i..] == [] && buffer + [] == buffer;
      r := Ok(buffer);
  }

  /**
   * A stored byte sequence cut into stream chunks of at most `size` bytes,
   * every chunk non-empty; an empty file has no chunk.
   */
  function ChunksOf(bytes: seq<byte>, size: nat): (chunks: seq<ChunkRead>)
    requires size > 0
    ensures NoFailure(chunks)
    ensures forall i :: 0 <= i < |chunks| ==> 0 < |chunks[i].payload| <= size
    decreases |bytes|
  {
    if bytes == [] then []
    else if |bytes| <= size then [Chunk(bytes)]
    else [Chunk(bytes[..size])] + ChunksOf(bytes[size..], size)
  }

  /** Draining the chunks of a stored file gives back exactly its bytes. */
  lemma {:induction false} ChunksOfRoundTrip(bytes: seq<byte>, size: nat)
    requires size > 0
    ensures StreamBytes(ChunksOf(bytes, size)) == Ok(bytes)
    decreases |bytes|
  {
    if bytes != [] && |bytes| > size {
      var chunks := ChunksOf(bytes, size);
      assert chunks[1..] == ChunksOf(bytes[size..], size);
      ChunksOfRoundTrip(bytes[size..], size);
      assert bytes[..size] + bytes[size..] == bytes;
    } else if bytes != [] {
      assert [Chunk(bytes)][1..] == [];
      assert bytes + [] == bytes;
    }
  }
}

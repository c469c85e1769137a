/**
 * `read_full_response` from `ccredis_cli.py`: pull chunks from the socket,
 * append each to the buffer, and stop as soon as the whole buffer decodes.
 *
 * The socket is a sequence of already-decoded chunks. An empty chunk is what
 * `recv` returns once the peer has closed the connection; past the end of the
 * sequence the stream counts as closed as well.
 */
module Reader {
  import opened Text
  import opened Resp
  import opened RespProofs

  /**
   * How the loop ends: it returns the buffer, or `deserialize` raises an
   * error that is not a `RESPError` and so escapes the loop. `used` is the
   * number of chunks appended to the buffer.
   */
  datatype ReadOutcome =
    | Returned(data: string, used: nat)
    | Raised(error: ErrorKind, data: string, used: nat)

  /** The number of chunks before end-of-stream: the first empty chunk, or all of them. */
  function StreamEnd(chunks: seq<string>): (e: nat)
    ensures e <= |chunks|
    ensures forall k :: 0 <= k < e ==> chunks[k] != ""
    ensures e < |chunks| ==> chunks[e] == ""
  {
    if |chunks| == 0 || chunks[0] == "" then 0 else 1 + StreamEnd(chunks[1..])
  }

  /** Every buffer the loop decoded before chunk `k` raised a `RESPError`. */
  ghost predicate KeptReading(chunks: seq<string>, k: nat)
    requires k <= |chunks|
  {
    forall m :: 0 < m <= k ==> Deserialize(Concat(chunks[..m])) == Failure(RespErr)
  }

  /**
   * The loop from the point where chunks `[0, k)` have been appended to `acc`
   * and each buffer so far raised `RESPError`.
   */
  function ReadFrom(chunks: seq<string>, k: nat, acc: string): (r: ReadOutcome)
    requires k <= StreamEnd(chunks)
    requires acc == Concat(chunks[..k])
    requires KeptReading(chunks, k)
    ensures k <= r.used <= StreamEnd(chunks)
    ensures r.data == Concat(chunks[..r.used])
    ensures forall m :: 0 < m < r.used ==> Deserialize(Concat(chunks[..m])) == Failure(RespErr)
    ensures r.Returned? && r.used < StreamEnd(chunks) ==> r.used > 0 && Deserialize(r.data).Success?
    ensures r.Returned? && r.used > 0 ==>
              Deserialize(r.data).Success? || (r.used == StreamEnd(chunks) && Deserialize(r.data) == Failure(RespErr))
    ensures r.Raised? ==> r.used > 0 && r.error != RespErr && Deserialize(r.data) == Failure(r.error)
    decreases |chunks| - k
  {
    if k == |chunks| || chunks[k] == "" then Returned(acc, k)
    else
      var data := acc + chunks[k];
      AppendChunk(chunks, k);
      var decoded := Deserialize(data);
      if decoded.Success? then Returned(data, k + 1)
      else if decoded.error == RespErr then
        KeepReading(chunks, k);
        ReadFrom(chunks, k + 1, data)
      else Raised(decoded.error, data, k + 1)
  }

  /** Appending chunk `k` to the buffer of chunks `[0, k)` gives the buffer of chunks `[0, k]`. */
  lemma AppendChunk(chunks: seq<string>, k: nat)
    requires k < |chunks|
    ensures Concat(chunks[..k + 1]) == Concat(chunks[..k]) + chunks[k]
  {
    ConcatAppend(chunks[..k], chunks[k]);
    assert chunks[..k + 1] == chunks[..k] + [chunks[k]];
  }

  /** One more `RESPError` extends the run of buffers that kept the loop reading. */
  lemma KeepReading(chunks: seq<string>, k: nat)
    requires k < |chunks|
    requires KeptReading(chunks, k)
    requires Deserialize(Concat(chunks[..k + 1])) == Failure(RespErr)
    ensures KeptReading(chunks, k + 1)
  {
  }

  /** `read_full_response(sock)` over the chunks the socket delivers. */
  function ReadFullResponse(chunks: seq<string>): (r: ReadOutcome)
    ensures r.used <= StreamEnd(chunks)
    ensures r.data == Concat(chunks[..r.used])
    ensures forall m :: 0 < m < r.used ==> Deserialize(Concat(chunks[..m])) == Failure(RespErr)
    ensures r.Returned? && r.used < StreamEnd(chunks) ==> r.used > 0 && Deserialize(r.data).Success?
    ensures r.Returned? && r.used > 0 ==>
              Deserialize(r.data).Success? || (r.used == StreamEnd(chunks) && Deserialize(r.data) == Failure(RespErr))
    ensures r.Raised? ==> r.used > 0 && r.error != RespErr && Deserialize(r.data) == Failure(r.error)
  {
    ReadFrom(chunks, 0, "")
  }

  // ------------------------------------------------------------ properties

  /** The stream does not end within a run of non-empty chunks. */
  lemma StreamEndAtLeast(chunks: seq<string>, n: nat)
    requires n <= |chunks|
    requires forall k :: 0 <= k < n ==> chunks[k] != ""
    ensures n <= StreamEnd(chunks)
  {
  }

  /**
   * When every buffer up to end-of-stream raises `RESPError`, the loop reads
   * every chunk up to end-of-stream and returns them all.
   */
  lemma ReadsToEndOfStream(chunks: seq<string>)
    requires forall m :: 0 < m <= StreamEnd(chunks) ==> Deserialize(Concat(chunks[..m])) == Failure(RespErr)
    ensures ReadFullResponse(chunks) == Returned(Concat(chunks[..StreamEnd(chunks)]), StreamEnd(chunks))
  {
  }

  /** The first character of a buffer is the first character of its first chunk. */
  lemma BufferStart(chunks: seq<string>, m: nat)
    requires 0 < m <= |chunks| && chunks[0] != ""
    ensures |Concat(chunks[..m])| > 0 && Concat(chunks[..m])[0] == chunks[0][0]
  {
    ConcatSplit(chunks[..m], 1);
    assert chunks[..m][..1] == [chunks[0]];
    assert Concat([chunks[0]]) == Concat([]) + chunks[0];
  }

  /**
   * An invalid type tag raises `RESPError`, which the loop treats like any
   * other: it keeps reading, up to end-of-stream, though more data cannot help.
   */
  lemma UnknownTagReadsToEnd(chunks: seq<string>)
    requires StreamEnd(chunks) > 0 && !IsTag(chunks[0][0])
    ensures ReadFullResponse(chunks) == Returned(Concat(chunks[..StreamEnd(chunks)]), StreamEnd(chunks))
  {
    forall m | 0 < m <= StreamEnd(chunks)
      ensures Deserialize(Concat(chunks[..m])) == Failure(RespErr)
    {
      BufferStart(chunks, m);
      UnknownTagRejected(Concat(chunks[..m]));
    }
    ReadsToEndOfStream(chunks);
  }

  /** The loop, started after chunk `k` of an encoding split into `n` chunks, returns the encoding. */
  lemma {:induction false} ReadFromEncoding(v: Value, enc: string, chunks: seq<string>, n: nat, k: nat)
    requires Serialize(v) == Success(enc)
    requires k < n <= |chunks|
    requires forall j :: 0 <= j < n ==> chunks[j] != ""
    requires Concat(chunks[..n]) == enc
    requires KeptReading(chunks, k)
    ensures StreamEnd(chunks) >= n
    ensures ReadFrom(chunks, k, Concat(chunks[..k])) == Returned(enc, n)
    decreases n - k
  {
    StreamEndAtLeast(chunks, n);
    AppendChunk(chunks, k);
    var data := Concat(chunks[..k + 1]);
    if k + 1 == n {
      TrailingDataIgnored(v, enc, "");
      assert enc + "" == enc;
    } else {
      var whole := chunks[..n];
      ConcatSplit(whole, k + 1);
      assert whole[..k + 1] == chunks[..k + 1];
      ConcatLength(whole[k + 1..]);
      assert enc == data + Concat(whole[k + 1..]);
      assert enc[..|data|] == data;
      PrefixRejected(v, enc, |data|);
      KeepReading(chunks, k);
      ReadFromEncoding(v, enc, chunks, n, k + 1);
    }
  }

  /**
   * However an encoding is split into non-empty chunks, the loop returns
   * exactly the encoding, having pulled exactly those chunks and no more.
   */
  lemma ReadSplitEncoding(v: Value, parts: seq<string>, rest: seq<string>)
    requires forall j :: 0 <= j < |parts| ==> parts[j] != ""
    requires Serialize(v) == Success(Concat(parts))
    ensures ReadFullResponse(parts + rest) == Returned(Concat(parts), |parts|)
  {
    var chunks := parts + rest;
    assert chunks[..|parts|] == parts;
    assert chunks[..0] == [];
    ReadFromEncoding(v, Concat(parts), chunks, |parts|, 0);
  }
}

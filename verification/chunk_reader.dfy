/**
  `ChunkReader` (src/chunk_reader.rs): a cursor over a fixed byte buffer whose `read`
  hands out at most `num_bytes_per_read` bytes per call. It is the byte source that
  drives `request_from_reader` in the tests, fragmenting a request at every boundary.
*/
module ChunkReading {
  import opened Text

  datatype ChunkReader = ChunkReader(data: seq<byte>, bytesPerRead: nat, pos: nat)

  /** The cursor never runs past the end of the data. */
  predicate Valid(r: ChunkReader) {
    r.pos <= |r.data|
  }

  function Min(a: int, b: int): int {
    if a < b then a else b
  }

  /** `ChunkReader::new`: a fresh cursor at the start of a copy of `data`. */
  function NewChunkReader(data: seq<byte>, bytesPerRead: nat): (r: ChunkReader)
    ensures Valid(r) && r.pos == 0
    ensures r.data == data && r.bytesPerRead == bytesPerRead
  {
    ChunkReader(data, bytesPerRead, 0)
  }

  /** A zero-filled buffer of `n` bytes, as a caller allocates before reading. */
  function Zeros(n: nat): (z: seq<byte>)
    ensures |z| == n
  {
    if n == 0 then [] else [0] + Zeros(n - 1)
  }

  /** What one `read` call returns: the advanced reader, the count, and the caller's buffer after the copy. */
  datatype ReadOutcome = ReadOutcome(reader: ChunkReader, n: nat, buf: seq<byte>)

  /** `<ChunkReader as Read>::read`. */
  function Read(r: ChunkReader, buf: seq<byte>): (o: ReadOutcome)
    ensures o.n <= r.bytesPerRead && o.n <= |buf|
    ensures r.pos >= |r.data| ==> o == ReadOutcome(r, 0, buf)
    ensures r.pos < |r.data| ==> r.pos + o.n <= |r.data|
    ensures r.pos < |r.data| ==> o.n == Min(Min(r.bytesPerRead, |r.data| - r.pos), |buf|)
    ensures o.reader == r.(pos := r.pos + o.n)
    ensures |o.buf| == |buf| && o.buf[o.n..] == buf[o.n..]
    ensures r.pos < |r.data| ==> o.buf[..o.n] == r.data[r.pos..r.pos + o.n]
    ensures o.n == 0 <==> r.pos >= |r.data| || r.bytesPerRead == 0 || |buf| == 0
    ensures Valid(r) ==> Valid(o.reader)
  {
    if r.pos >= |r.data| then ReadOutcome(r, 0, buf)
    else
      var end := Min(r.pos + r.bytesPerRead, |r.data|);
      var chunk := r.data[r.pos..end];
      var n := Min(|chunk|, |buf|);
      var filled := chunk[..n] + buf[n..];
      assert filled[..n] == chunk[..n] && filled[n..] == buf[n..];
      assert chunk[..n] == r.data[r.pos..r.pos + n];
      ReadOutcome(r.(pos := r.pos + n), n, filled)
  }

  /**
    The successive non-empty chunks a caller reading into a `bufLen`-byte buffer
    receives, up to the first read that returns 0.
  */
  function Trace(r: ChunkReader, bufLen: nat): (chunks: seq<seq<byte>>)
    requires Valid(r)
    ensures forall i :: 0 <= i < |chunks| ==> 0 < |chunks[i]| <= r.bytesPerRead && |chunks[i]| <= bufLen
    decreases |r.data| - r.pos
  {
    var o := Read(r, Zeros(bufLen));
    if o.n == 0 then []
    else
      var chunk := o.buf[..o.n];
      var rest := Trace(o.reader, bufLen);
      assert forall i :: 0 <= i < |rest| ==> ([chunk] + rest)[i + 1] == rest[i];
      [chunk] + rest
  }

  /** When each read can make progress, the chunks are exactly the unread data, in order. */
  lemma {:induction false} TraceDeliversAll(r: ChunkReader, bufLen: nat)
    requires Valid(r) && r.bytesPerRead > 0 && bufLen > 0
    ensures Flatten(Trace(r, bufLen)) == r.data[r.pos..]
    decreases |r.data| - r.pos
  {
    var o := Read(r, Zeros(bufLen));
    if o.n != 0 {
      var chunk := o.buf[..o.n];
      assert chunk == r.data[r.pos..r.pos + o.n];
      assert r.data[r.pos..] == chunk + r.data[r.pos + o.n..] by {
        SplitAt(r.data[r.pos..], o.n);
      }
      assert o.reader == r.(pos := r.pos + o.n);
      var rest := Trace(o.reader, bufLen);
      assert Trace(r, bufLen) == [chunk] + rest;
      TraceDeliversAll(o.reader, bufLen);
      FlattenCons(chunk, rest);
    }
  }

  lemma FlattenCons(c: seq<byte>, rest: seq<seq<byte>>)
    ensures Flatten([c] + rest) == c + Flatten(rest)
  {
    assert ([c] + rest)[1..] == rest;
  }

  lemma SliceJoin(s: seq<byte>, i: nat, j: nat, k: nat)
    requires i <= j <= k <= |s|
    ensures s[i..j] + s[j..k] == s[i..k]
  {
  }

  /**
    Reading until a read returns 0: the reads terminate, and when each read can make
    progress they deliver exactly the unread data, in order.
  */
  method ReadToEnd(r: ChunkReader, bufLen: nat) returns (out: seq<byte>, last: ChunkReader)
    requires Valid(r)
    ensures Valid(last) && last.data == r.data && last.bytesPerRead == r.bytesPerRead
    ensures r.pos <= last.pos && out == r.data[r.pos..last.pos]
    ensures r.bytesPerRead > 0 && bufLen > 0 ==> last.pos == |r.data| && out == r.data[r.pos..]
  {
    var buf: seq<byte> := Zeros(bufLen);
    out := [];
    last := r;
    while true
      invariant Valid(last) && last.data == r.data && last.bytesPerRead == r.bytesPerRead
      invariant r.pos <= last.pos && out == r.data[r.pos..last.pos]
      invariant |buf| == bufLen
      decreases |last.data| - last.pos
    {
      var o := Read(last, buf);
      if o.n == 0 {
        return;
      }
      SliceJoin(r.data, r.pos, last.pos, last.pos + o.n);
      out := out + o.buf[..o.n];
      last := o.reader;
      buf := o.buf;
    }
  }
}

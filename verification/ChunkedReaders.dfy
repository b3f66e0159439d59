/**
 Random access to a remote file through a cache of fixed-size chunks
 (audio/chunked_reader.go).  A chunk is one range request: sections 14.2 and 15.3.7 of
 RFC 9110.
 */
module ChunkedReaders {
  import opened Common
  import opened Positional

  const CHUNK_SIZE := 512 * 1024

  /** What other goroutines did to a chunk since the reader last looked at it; see ChunkFetching.OthersMeddle. */
  datatype Meddling = Nothing | Becomes(stored: bool, err: bool)

  /**
   The far side: the file, which download attempts fail, and what prefetching
   goroutines do to chunk `i` before the t-th fetch.  A download that answers delivers
   the whole range.
   */
  datatype Remote = Remote(body: seq<byte>, fails: nat -> bool, meddles: (nat, nat) -> Meddling)

  /** The answer to `Range: bytes=first-last` for a range that begins inside the file. */
  function RangeBody(body: seq<byte>, first: nat, last: nat): seq<byte>
    requires first < |body| && first <= last
  {
    body[first..Min(last + 1, |body|)]
  }

  function ChunkCount(len: nat): nat {
    if len % CHUNK_SIZE == 0 then len / CHUNK_SIZE else len / CHUNK_SIZE + 1
  }

  /** Every chunk index addresses a place inside the file, and only those do. */
  lemma ChunkCountExact(len: nat, i: nat)
    ensures i < ChunkCount(len) <==> i * CHUNK_SIZE < len
  {
  }

  function ChunkData(body: seq<byte>, i: nat): (d: seq<byte>)
    requires i < ChunkCount(|body|)
    ensures |d| == Min(CHUNK_SIZE, |body| - i * CHUNK_SIZE) > 0
    ensures forall k :: 0 <= k < |d| ==> d[k] == body[i * CHUNK_SIZE + k]
  {
    ChunkCountExact(|body|, i);
    RangeBody(body, i * CHUNK_SIZE, (i + 1) * CHUNK_SIZE - 1)
  }

  /** The chunks laid end to end. */
  function Tiled(body: seq<byte>, n: nat): seq<byte>
    requires n <= ChunkCount(|body|)
  {
    if n == 0 then [] else Tiled(body, n - 1) + ChunkData(body, n - 1)
  }

  lemma {:induction false} TiledPrefix(body: seq<byte>, n: nat)
    requires n <= ChunkCount(|body|)
    ensures Tiled(body, n) == body[..Min(n * CHUNK_SIZE, |body|)]
  {
    if n > 0 {
      TiledPrefix(body, n - 1);
      ChunkCountExact(|body|, n - 1);
    }
  }

  /** The chunks tile the file: laid end to end they are the file. */
  lemma ChunksTileFile(body: seq<byte>)
    ensures Tiled(body, ChunkCount(|body|)) == body
  {
    TiledPrefix(body, ChunkCount(|body|));
    ChunkCountExact(|body|, ChunkCount(|body|));
  }

  /** The first `n` bytes of the buffer are the file from `pos` on; the others are as before. */
  ghost predicate Delivered(body: seq<byte>, before: seq<byte>, buf: seq<byte>, pos: nat, n: nat) {
    && |buf| == |before| && n <= |buf|
    && (n > 0 ==> pos + n <= |body|)
    && (forall k :: 0 <= k < n ==> buf[k] == body[pos + k])
    && (forall k :: n <= k < |buf| ==> buf[k] == before[k])
  }

  lemma NothingDelivered(body: seq<byte>, buf: seq<byte>, pos: nat)
    ensures Delivered(body, buf, buf, pos, 0)
  {
  }

  lemma DeliveredMore(body: seq<byte>, before: seq<byte>, buf: seq<byte>, pos: nat, n: nat, c: seq<byte>)
    requires Delivered(body, before, buf, pos, n) && n + |c| <= |buf|
    requires c != [] ==> pos + n + |c| <= |body|
    requires forall k :: 0 <= k < |c| ==> c[k] == body[pos + n + k]
    ensures Delivered(body, before, buf[..n] + c + buf[n + |c|..], pos, n + |c|)
  {
    var buf' := buf[..n] + c + buf[n + |c|..];
    forall k | 0 <= k < n + |c|
      ensures buf'[k] == body[pos + k]
    {
      if k >= n {
        assert buf'[k] == c[k - n];
      }
    }
  }

  datatype Chunk = Chunk(data: Option<seq<byte>>, err: bool)

  /** A chunk may have been stored, and its error set or cleared; what was stored before stays. */
  function Meddled(c: Chunk, m: Meddling, data: seq<byte>): Chunk {
    match m
    case Nothing => c
    case Becomes(stored, err) => Chunk(if stored && c.data.None? then Some(data) else c.data, err)
  }

  /**
   A fetch undisturbed by others: the chunk afterwards and what is returned.  `fails` is
   whether a download would fail; see ChunkFetching.SoloFetch.
   */
  function Attempt(c: Chunk, fails: bool, data: seq<byte>): (Chunk, Option<seq<byte>>) {
    if c.data.Some? then (c, c.data)
    else if fails then (c.(err := true), None)
    else if c.err then (c.(err := false), None)
    else (c.(data := Some(data)), Some(data))
  }

  /** After a failure the next download that succeeds is thrown away; the one after it is kept. */
  lemma FailureCostsADownload(c: Chunk, data: seq<byte>)
    requires c.data.None?
    ensures var failed := Attempt(c, true, data);
            var again := Attempt(failed.0, false, data);
            && failed.1 == None && again.1 == None && again.0.data == None
            && Attempt(again.0, false, data) == (Chunk(Some(data), false), Some(data))
  {
  }

  /** A read at `pos` of a file of `len` bytes has delivered `n` and goes on at byte `off` of chunk `i`. */
  ghost predicate Stands(len: nat, pos: nat, n: nat, i: nat, off: nat) {
    && i <= ChunkCount(len) && off < CHUNK_SIZE && (n > 0 ==> pos + n <= len)
    && (i < ChunkCount(len) ==> i * CHUNK_SIZE + off == pos + n)
    && (i == ChunkCount(len) ==> pos + n == len || (pos >= len && n == 0))
    && if n == 0 && i < ChunkCount(len) then i == pos / CHUNK_SIZE else off == 0
  }

  lemma StandsFirst(len: nat, pos: nat)
    requires pos / CHUNK_SIZE < ChunkCount(len)
    ensures Stands(len, pos, 0, pos / CHUNK_SIZE, pos % CHUNK_SIZE)
  {
  }

  lemma StandsMeans(len: nat, pos: nat, n: nat, i: nat, off: nat)
    requires Stands(len, pos, n, i, off)
    ensures i <= ChunkCount(len) && (n > 0 ==> pos + n <= len)
    ensures i == ChunkCount(len) ==> n == if pos < len then len - pos else 0
    ensures i < ChunkCount(len) ==> pos / CHUNK_SIZE <= i && i * CHUNK_SIZE <= pos + n
  {
  }

  /** The rest of the chunk is the file from `pos + n` on, and after it the read goes on with the next chunk. */
  lemma StandsNext(len: nat, pos: nat, n: nat, i: nat, off: nat)
    requires Stands(len, pos, n, i, off) && i < ChunkCount(len)
    ensures i * CHUNK_SIZE + off == pos + n
    ensures var size := Min(CHUNK_SIZE, len - i * CHUNK_SIZE);
            var c := size - Min(off, size);
            && (c > 0 ==> off < size && pos + n + c <= len)
            && Stands(len, pos, n + c, i + 1, 0)
  {
    ChunkCountExact(len, i);
    ChunkCountExact(len, i + 1);
  }

  datatype ReadError = NoError | EndOfFile | ChunkFailed

  datatype Whence = SeekStart | SeekCurrent | SeekEnd

  class HttpChunkedReader {
    const remote: Remote
    const len: nat
    var chunks: seq<Chunk>
    var pos: nat
    var clock: nat

    ghost predicate Valid()
      reads this
    {
      && len == |remote.body| > 0
      && |chunks| == ChunkCount(len)
      && forall i :: 0 <= i < |chunks| ==> Agrees(chunks[i], i)
    }

    /** A chunk that is in the cache is that part of the file. */
    ghost predicate Agrees(c: Chunk, i: nat) {
      i < ChunkCount(|remote.body|) && (c.data.Some? ==> c.data.value == ChunkData(remote.body, i))
    }

    /** No download fails from now on and no earlier failure is still remembered. */
    ghost predicate Healthy()
      reads this
    {
      && (forall t: nat :: !remote.fails(t))
      && (forall t: nat, i: nat :: !(remote.meddles(t, i).Becomes? && remote.meddles(t, i).err))
      && forall i :: 0 <= i < |chunks| ==> !chunks[i].err
    }

    constructor (remote: Remote)
      requires |remote.body| > 0
      ensures Valid() && this.remote == remote && pos == 0
      ensures forall i :: 0 <= i < |chunks| ==> chunks[i].data.Some? == (i == 0) && !chunks[i].err
    {
      this.remote, this.len := remote, |remote.body|;
      var total := ChunkCount(|remote.body|);
      ChunkCountExact(|remote.body|, 0);
      var empty := seq(total, _ => Chunk(None, false));
      chunks := empty[0 := Chunk(Some(ChunkData(remote.body, 0)), false)];
      pos, clock := 0, 0;
    }

    /** Let the other goroutines have their turn on chunk `idx`. */
    method Meddle(idx: nat)
      requires Valid() && idx < |chunks|
      modifies this`chunks
      ensures Valid() && Kept(old(chunks), chunks)
      ensures chunks == old(chunks)[idx := Meddled(old(chunks)[idx], remote.meddles(clock, idx), ChunkData(remote.body, idx))]
      ensures old(Healthy()) ==> Healthy()
    {
      chunks := chunks[idx := Meddled(chunks[idx], remote.meddles(clock, idx), ChunkData(remote.body, idx))];
    }

    /** What is in the cache stays in the cache, unchanged. */
    static ghost predicate Kept(before: seq<Chunk>, after: seq<Chunk>) {
      && |before| == |after|
      && forall i :: 0 <= i < |before| && before[i].data.Some? ==> after[i].data == before[i].data
    }

    method FetchChunk(idx: nat) returns (r: Option<seq<byte>>)
      requires Valid() && idx < |chunks|
      modifies this`chunks, this`clock
      ensures Valid() && Kept(old(chunks), chunks)
      ensures var c := Meddled(old(chunks)[idx], remote.meddles(old(clock), idx), ChunkData(remote.body, idx));
              var (c', r') := Attempt(c, remote.fails(old(clock)), ChunkData(remote.body, idx));
              && r == r' && chunks == old(chunks)[idx := c']
              && clock == old(clock) + if c.data.Some? then 0 else 1
      ensures r.Some? ==> r.value == ChunkData(remote.body, idx)
      ensures chunks[idx].data == r
      ensures old(chunks)[idx].data.Some? ==> r.Some?
      ensures old(Healthy()) ==> Healthy() && r.Some?
    {
      Meddle(idx);
      var chunk := chunks[idx];
      if chunk.data.Some? {
        return chunk.data;
      }

      var failed := remote.fails(clock);
      clock := clock + 1;
      if failed {
        chunks := chunks[idx := chunk.(err := true)];
        return None;
      }
      var data := ChunkData(remote.body, idx);

      // the error of an earlier attempt is tested here, and the data thrown away
      if chunk.err {
        chunks := chunks[idx := chunk.(err := false)];
        return None;
      }
      chunks := chunks[idx := chunk.(data := Some(data))];
      return Some(data);
    }

    /** What a read takes from one chunk: its bytes from `off` on. */
    method FetchPart(idx: nat, off: nat) returns (r: Option<seq<byte>>)
      requires Valid() && idx < |chunks|
      modifies this`chunks, this`clock
      ensures Valid() && Kept(old(chunks), chunks)
      ensures r.Some? ==> var d := ChunkData(remote.body, idx); r.value == d[Min(off, |d|)..]
      ensures r.None? <==> chunks[idx].data.None?
      ensures old(chunks)[idx].data.Some? ==> r.Some? && clock == old(clock)
      ensures old(Healthy()) ==> Healthy() && r.Some?
    {
      var chunk := FetchChunk(idx);
      if chunk.None? {
        return None;
      }
      return Some(chunk.value[Min(off, |chunk.value|)..]);
    }

    /** Chunk `i` is not in the cache, and a read at `pos` comes to it after `n` bytes. */
    static ghost predicate MissingAt(chunks: seq<Chunk>, i: nat, pos: nat, n: nat) {
      i < |chunks| && chunks[i].data.None? && (if n == 0 then i == pos / CHUNK_SIZE else i * CHUNK_SIZE == pos + n)
    }

    static lemma MissingHere(chunks: seq<Chunk>, len: nat, pos: nat, n: nat, i: nat, off: nat)
      requires Stands(len, pos, n, i, off) && i < |chunks| == ChunkCount(len) && chunks[i].data.None?
      ensures MissingAt(chunks, i, pos, n)
    {
    }

    /** Every chunk that a read of `n` bytes at `pos` touches is in the cache. */
    ghost predicate AllCached(pos: nat, n: nat)
      reads this
    {
      forall i :: pos / CHUNK_SIZE <= i < |chunks| && i * CHUNK_SIZE < pos + n ==> chunks[i].data.Some?
    }

    /**
     The first `n` bytes of the buffer become that part of the file, and no other byte
     changes.  Without an error the read is as long as buffer and file allow; the end
     of file is reported exactly when the position lies behind the last chunk.  A read
     fails only at a chunk that is not in the cache, and one of cached chunks downloads nothing.
     */
    method ReadAt(p: array<byte>, pos: nat) returns (n: nat, e: ReadError)
      requires Valid()
      modifies p, this`chunks, this`clock
      ensures Valid() && Kept(old(chunks), chunks)
      ensures Delivered(remote.body, old(p[..]), p[..], pos, n)
      ensures e == EndOfFile <==> pos / CHUNK_SIZE >= ChunkCount(len)
      ensures e == NoError ==> n == if pos < len then Min(p.Length, len - pos) else 0
      ensures e == EndOfFile ==> n == 0
      ensures e == ChunkFailed ==> exists i :: MissingAt(chunks, i, pos, n)
      ensures old(AllCached(pos, p.Length)) ==> e != ChunkFailed && clock == old(clock)
      ensures old(Healthy()) ==> Healthy() && e != ChunkFailed
    {
      hide Healthy, Agrees, Delivered, Stands, ChunkCount, MissingAt;
      NothingDelivered(remote.body, p[..], pos);
      var chunkIdx: nat, off: nat := pos / CHUNK_SIZE, pos % CHUNK_SIZE;
      if chunkIdx >= |chunks| {
        return 0, EndOfFile;
      }

      n := 0;
      StandsFirst(len, pos);
      ghost var before := p[..];
      while p.Length - n > 0
        invariant Valid() && Kept(old(chunks), chunks) && (old(Healthy()) ==> Healthy())
        invariant Delivered(remote.body, before, p[..], pos, n)
        invariant n <= p.Length && Stands(len, pos, n, chunkIdx, off)
        invariant old(AllCached(pos, p.Length)) ==> clock == old(clock)
        decreases ChunkCount(len) - chunkIdx
      {
        StandsMeans(len, pos, n, chunkIdx, off);
        if chunkIdx >= |chunks| {
          return n, NoError;
        }
        var part := FetchPart(chunkIdx, off);
        if part.None? {
          MissingHere(chunks, len, pos, n, chunkIdx, off);
          return n, ChunkFailed;
        }
        var c := part.value;
        StandsNext(len, pos, n, chunkIdx, off);
        if |c| > p.Length - n {
          n := CopyMore(p, n, c[..p.Length - n], pos, before);
          return n, NoError;
        }
        n := CopyMore(p, n, c, pos, before);

        chunkIdx := chunkIdx + 1;
        off := 0;
      }
      StandsMeans(len, pos, n, chunkIdx, off);
      return n, NoError;
    }

    /** n += copy(p, c), where `c` is the file from `pos + n` on. */
    method CopyMore(p: array<byte>, n: nat, c: seq<byte>, ghost pos: nat, ghost before: seq<byte>) returns (n': nat)
      requires Delivered(remote.body, before, p[..], pos, n) && n + |c| <= p.Length
      requires c != [] ==> pos + n + |c| <= |remote.body|
      requires forall k :: 0 <= k < |c| ==> c[k] == remote.body[pos + n + k]
      modifies p
      ensures n' == n + |c| && Delivered(remote.body, before, p[..], pos, n')
    {
      DeliveredMore(remote.body, before, p[..], pos, n, c);
      Copy(p, n, c);
      n' := n + |c|;
    }

    /** copy(p[n:], c) for a source that fits. */
    static method Copy(p: array<byte>, n: nat, c: seq<byte>)
      requires n + |c| <= p.Length
      modifies p
      ensures p[..] == old(p[..])[..n] + c + old(p[..])[n + |c|..]
    {
      forall k | 0 <= k < |c| {
        p[n + k] := c[k];
      }
      assert p[n..n + |c|] == c;
      assert p[..] == p[..n] + p[n..n + |c|] + p[n + |c|..];
    }

    /** Read on from the reader's own position. */
    method Read(p: array<byte>) returns (n: nat, e: ReadError)
      requires Valid()
      modifies p, this`chunks, this`clock, this`pos
      ensures Valid() && Kept(old(chunks), chunks)
      ensures pos == old(pos) + n
      ensures Delivered(remote.body, old(p[..]), p[..], old(pos), n)
      ensures e == NoError && old(pos) < len ==> n == Min(p.Length, len - old(pos))
    {
      n, e := ReadAt(p, pos);
      pos := pos + n;
    }

    /** A seek lands inside the file or changes nothing. */
    method Seek(offset: int, whence: Whence) returns (r: Option<nat>)
      requires Valid()
      modifies this`pos
      ensures var target := offset + match whence case SeekStart => 0 case SeekCurrent => old(pos) case SeekEnd => len;
              if 0 <= target < len then r == Some(target) && pos == target
              else r == None && pos == old(pos)
    {
      match whence {
        case SeekCurrent =>
          if pos + offset < 0 || pos + offset >= len {
            return None;
          }
          pos := pos + offset;
        case SeekStart =>
          if offset < 0 || offset >= len {
            return None;
          }
          pos := offset;
        case SeekEnd =>
          if len + offset < 0 || len + offset >= len {
            return None;
          }
          pos := len + offset;
      }
      return Some(pos);
    }
  }
}

/** `BufferWriter` of kwui-cli/src/packager.rs: the cursor `unpack` drains
    file contents through.  It fetches chunks from the archive one at a
    time, each with a single `read` of its compressed length, decodes it,
    and hands out its bytes across chunk boundaries.  LZF decompression is
    a parameter. */
module Drain {
  import opened Wrappers
  import opened Format
  import opened Codec
  import opened Files

  /** `lzf::decompress(data, out_len)`: the decompressed bytes, or `None`
      when the data is not valid LZF. */
  type Decompress = (seq<u8>, nat) -> Option<seq<u8>>

  /** The decoded bytes of a run of chunks, up to the first chunk that
      fails, and that chunk's error. */
  datatype Decoded = Decoded(bytes: seq<u8>, err: Option<Error>)

  function Prepend(b: seq<u8>, d: Decoded): Decoded {
    Decoded(b + d.bytes, d.err)
  }

  /** `fetch_chunk` on the bytes one `read` put into the zeroed buffer of
      `compressed_length` bytes.  A `Store` chunk is copied as is, which
      panics unless the two lengths agree; an `Lzf` chunk is decompressed. */
  function DecodeChunk(compressed: seq<u8>, c: Chunk, lzf: Decompress): (r: Result<seq<u8>>)
    ensures c.algorithm.Store? ==> (r.Ok? <==> |compressed| == c.length) && (r.Ok? ==> r.value == compressed)
    ensures c.algorithm.Lzf? ==> (r.Ok? <==> lzf(compressed, c.length).Some?)
  {
    match c.algorithm
    case Store =>
      if |compressed| == c.length then Ok(compressed) else Err(Abort("chunk length mismatch"))
    case Lzf =>
      match lzf(compressed, c.length)
      case Some(b) => Ok(b)
      case None => Err(Io("lzf_decompress error"))
  }

  /** The stream of decoded chunk bytes: the chunks' compressed bytes lie
      one after another from `p`; each chunk is read and decoded in turn. */
  function Decode(data: seq<u8>, p: nat, chunks: seq<Chunk>, lzf: Decompress): Decoded
    requires p <= |data|
    decreases |chunks|
  {
    if chunks == [] then Decoded([], None)
    else
      var c := chunks[0];
      match DecodeChunk(Window(data, p, c.compressedLength), c, lzf)
      case Err(e) => Decoded([], Some(e))
      case Ok(b) => Prepend(b, Decode(data, p + |Avail(data, p, c.compressedLength)|, chunks[1..], lzf))
  }

  /** A stored chunk whose bytes are all in the file is its own bytes. */
  lemma DecodeStore(data: seq<u8>, p: nat, c: Chunk, chunks: seq<Chunk>, lzf: Decompress)
    requires c.algorithm == Store && c.compressedLength == c.length && p + c.length <= |data|
    ensures Decode(data, p, [c] + chunks, lzf) == Prepend(data[p..p + c.length], Decode(data, p + c.length, chunks, lzf))
  {
    assert ([c] + chunks)[1..] == chunks;
  }

  class BufferWriter {
    const reader: InFile
    const chunkSize: nat
    const chunks: seq<Chunk>
    const lzf: Decompress
    var currIndex: nat
    var currOffset: nat
    var currBuf: seq<u8>
    var fetched: bool

    ghost predicate Valid()
      reads this, reader
    {
      && reader.pos <= |reader.data|
      && currOffset <= |currBuf|
      && (!fetched ==> currIndex == 0 && currOffset == 0 && currBuf == [])
    }

    /** The bytes still to come: before the first fetch, the whole stream
        from the reader's position; after it, the rest of the current
        chunk and then the chunks after it. */
    ghost function Rest(): Decoded
      reads this, reader
      requires Valid()
    {
      if !fetched then Decode(reader.data, reader.pos, chunks, lzf)
      else
        Prepend(currBuf[currOffset..],
                if currIndex < |chunks| then Decode(reader.data, reader.pos, chunks[currIndex + 1..], lzf)
                else Decoded([], None))
    }

    /** `BufferWriter::new`: nothing fetched yet. */
    constructor (reader: InFile, chunkSize: nat, chunks: seq<Chunk>, lzf: Decompress)
      requires reader.pos <= |reader.data|
      ensures this.reader == reader && this.chunks == chunks && this.lzf == lzf && this.chunkSize == chunkSize
      ensures Valid() && Rest() == Decode(reader.data, reader.pos, chunks, lzf)
    {
      this.reader := reader;
      this.chunkSize := chunkSize;
      this.chunks := chunks;
      this.lzf := lzf;
      currIndex := 0;
      currOffset := 0;
      currBuf := [];
      fetched := false;
    }

    /** `fetch_chunk`: one `read` of the compressed bytes, then decoding. */
    method FetchChunk(c: Chunk) returns (r: Result<()>)
      requires reader.pos <= |reader.data|
      modifies this`currBuf, reader`pos
      ensures reader.pos == old(reader.pos) + |Avail(reader.data, old(reader.pos), c.compressedLength)|
      ensures var d := DecodeChunk(Window(reader.data, old(reader.pos), c.compressedLength), c, lzf);
        && (r.Ok? <==> d.Ok?)
        && (r.Ok? ==> currBuf == d.value)
        && (r.Err? ==> r.error == d.error)
    {
      currBuf := seq(c.length, _ => 0);
      var got := reader.Read(c.compressedLength);
      var compressed := got + seq(c.compressedLength - |got|, _ => 0);
      assert compressed == Window(reader.data, old(reader.pos), c.compressedLength);
      match c.algorithm
      case Store =>
        if |compressed| != |currBuf| {
          return Err(Abort("chunk length mismatch"));
        }
        currBuf := compressed;
        return Ok(());
      case Lzf =>
        var out := lzf(compressed, |currBuf|);
        if out.None? {
          return Err(Io("lzf_decompress error"));
        }
        currBuf := out.value;
        return Ok(());
    }

    /** `fetch`: the first call fetches the first chunk; then exhausted
        chunks are skipped until one has bytes left or the chunks run out.
        The bytes still to come stay the same, and it fails only when they
        are used up and the next chunk fails to decode. */
    method Fetch() returns (r: Result<()>)
      requires Valid()
      modifies this, reader`pos
      ensures r.Ok? ==> Valid() && fetched && Rest() == old(Rest())
      ensures r.Ok? ==> currOffset < |currBuf| || Rest() == Decoded([], None)
      ensures r.Err? ==> old(Rest()) == Decoded([], Some(r.error))
    {
      if !fetched {
        r := FetchFirst();
        if r.Err? {
          return;
        }
      }
      while currOffset >= |currBuf|
        invariant Valid() && fetched && Rest() == old(Rest())
        decreases |chunks| + 1 - currIndex
      {
        if currIndex + 1 >= |chunks| {
          currIndex := currIndex + 1;
          currOffset := 0;
          currBuf := [];
          break;
        }
        r := FetchNext();
        if r.Err? {
          return;
        }
      }
      return Ok(());
    }

    /** The first call of `fetch`: the first chunk, if any, is fetched. */
    method FetchFirst() returns (r: Result<()>)
      requires Valid() && !fetched
      modifies this, reader`pos
      ensures r.Ok? ==> Valid() && fetched && Rest() == old(Rest())
      ensures r.Err? ==> old(Rest()) == Decoded([], Some(r.error))
    {
      fetched := true;
      if |chunks| > 0 {
        DecodeAt(reader.data, reader.pos, chunks, 0, lzf);
        r := FetchChunk(chunks[0]);
        if r.Err? {
          return;
        }
      }
      return Ok(());
    }

    /** One turn of the skipping loop of `fetch` when a next chunk exists:
        the exhausted buffer is dropped and the next chunk fetched. */
    method FetchNext() returns (r: Result<()>)
      requires Valid() && fetched && currOffset >= |currBuf| && currIndex + 1 < |chunks|
      modifies this, reader`pos
      ensures r.Ok? ==> Valid() && fetched && Rest() == old(Rest()) && currIndex == old(currIndex) + 1
      ensures r.Err? ==> old(Rest()) == Decoded([], Some(r.error))
    {
      ghost var data, p := reader.data, reader.pos;
      assert currBuf[currOffset..] == [];
      assert Rest() == Prepend([], Decode(data, p, chunks[currIndex + 1..], lzf));
      currIndex := currIndex + 1;
      currOffset := 0;
      currBuf := [];
      r := FetchChunk(chunks[currIndex]);
      FetchedRest(data, p, chunks, currIndex, lzf, r, currBuf, reader.pos);
      if r.Ok? {
        assert currBuf[currOffset..] == currBuf;
      }
    }

    /** `write(writer, length)`: exactly the next `length` bytes of the
        decoded stream, which are then used up; when the stream holds
        fewer, what it holds is written and the call fails with the error
        of the chunk that could not be decoded, or `InvalidData` when the
        chunks ran out. */
    method Write(length: nat) returns (r: Result<nat>, out: seq<u8>)
      requires Valid()
      modifies this, reader`pos
      ensures var rest := old(Rest());
        if length <= |rest.bytes| then
          r == Ok(length) && out == rest.bytes[..length] && Valid() && Rest() == Decoded(rest.bytes[length..], rest.err)
        else
          r.Err? && out == rest.bytes && r.error == (if rest.err.Some? then rest.err.value else InvalidData)
    {
      ghost var rest := Rest();
      out := [];
      var remain: nat := length;
      while remain > 0
        invariant Valid() && remain <= length && |out| + remain == length
        invariant out + Rest().bytes == rest.bytes && Rest().err == rest.err
      {
        var piece := Pass(remain);
        if piece.Err? {
          return Err(piece.error), out;
        }
        out := out + piece.value;
        remain := remain - |piece.value|;
      }
      SplitAt(out, Rest().bytes, rest.bytes);
      return Ok(length), out;
    }

    /** One turn of the loop of `write`: after a fetch, as many bytes of
        the current chunk as are left and wanted; none left ends the write
        with `InvalidData`. */
    method Pass(remain: nat) returns (r: Result<seq<u8>>)
      requires Valid() && remain > 0
      modifies this, reader`pos
      ensures r.Ok? ==> Valid() && 0 < |r.value| <= remain
      ensures r.Ok? ==> r.value + Rest().bytes == old(Rest()).bytes && Rest().err == old(Rest()).err
      ensures r.Err? ==> old(Rest()).bytes == []
      ensures r.Err? ==> r.error == if old(Rest()).err.Some? then old(Rest()).err.value else InvalidData
    {
      var f := Fetch();
      if f.Err? {
        return Err(f.error);
      }
      var n := if remain < |currBuf| - currOffset then remain else |currBuf| - currOffset;
      if n == 0 {
        return Err(InvalidData);
      }
      var piece := Advance(n);
      return Ok(piece);
    }

    /** Hands out the next `n` bytes of the current chunk. */
    method Advance(n: nat) returns (piece: seq<u8>)
      requires Valid() && fetched && currOffset + n <= |currBuf|
      modifies this`currOffset
      ensures Valid() && |piece| == n
      ensures piece + Rest().bytes == old(Rest()).bytes && Rest().err == old(Rest()).err
    {
      ghost var tail := if currIndex < |chunks| then Decode(reader.data, reader.pos, chunks[currIndex + 1..], lzf)
                        else Decoded([], None);
      piece := currBuf[currOffset..currOffset + n];
      assert currBuf[currOffset..] == piece + currBuf[currOffset + n..];
      currOffset := currOffset + n;
      assert Rest() == Prepend(currBuf[currOffset..], tail);
    }
  }

  /** What one `fetch_chunk` of chunk `i` read says about the stream from
      chunk `i` on. */
  lemma FetchedRest(data: seq<u8>, p: nat, chunks: seq<Chunk>, i: nat, lzf: Decompress,
                    r: Result<()>, buf: seq<u8>, q: nat)
    requires p <= |data| && i < |chunks|
    requires q == p + |Avail(data, p, chunks[i].compressedLength)|
    requires var d := DecodeChunk(Window(data, p, chunks[i].compressedLength), chunks[i], lzf);
      && (r.Ok? <==> d.Ok?) && (r.Ok? ==> buf == d.value) && (r.Err? ==> r.error == d.error)
    ensures r.Ok? ==> Decode(data, p, chunks[i..], lzf) == Prepend(buf, Decode(data, q, chunks[i + 1..], lzf))
    ensures r.Err? ==> Decode(data, p, chunks[i..], lzf) == Decoded([], Some(r.error))
  {
    DecodeAt(data, p, chunks, i, lzf);
  }

  lemma SplitAt(a: seq<u8>, b: seq<u8>, c: seq<u8>)
    requires a + b == c
    ensures |a| <= |c| && a == c[..|a|] && b == c[|a|..]
  {
  }

  /** The stream from chunk `i` on: chunk `i`, then the chunks after it. */
  lemma DecodeAt(data: seq<u8>, p: nat, chunks: seq<Chunk>, i: nat, lzf: Decompress)
    requires p <= |data| && i < |chunks|
    ensures var c := chunks[i];
      Decode(data, p, chunks[i..], lzf)
      == match DecodeChunk(Window(data, p, c.compressedLength), c, lzf)
         case Err(e) => Decoded([], Some(e))
         case Ok(b) => Prepend(b, Decode(data, p + |Avail(data, p, c.compressedLength)|, chunks[i + 1..], lzf))
  {
    assert chunks[i..][0] == chunks[i];
    assert chunks[i..][1..] == chunks[i + 1..];
  }
}

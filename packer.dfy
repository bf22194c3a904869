/** `pack` of kwui-cli/src/packager.rs: the header with a reserved chunk
    table, then one chunk per file item (LZF-compressed when that pays,
    stored otherwise), then the chunk table written over the reserved
    one.  The output file is returned as its bytes; LZF compression is a
    parameter. */
module Packer {
  import opened Wrappers
  import opened Format
  import opened Text
  import opened Codec
  import opened Files
  import opened Items
  import opened HeaderWrite
  import opened Fill
  import opened Drain

  /** `lzf::compress`: the compressed bytes, or `None` when it reports an
      error (as it does when the data does not shrink). */
  type Compress = seq<u8> -> Option<seq<u8>>

  /** What LZF promises: decompressing what it compressed, to the original
      length, gives the original bytes back. */
  ghost predicate Inverts(compress: Compress, lzf: Decompress) {
    forall b | Compressed(compress, b).Some? :: lzf(Compressed(compress, b).value, |b|) == Some(b)
  }

  /** `compress` applied to `b`, named so that the promise above is used
      only where a proof asks for it. */
  function Compressed(compress: Compress, b: seq<u8>): Option<seq<u8>> {
    compress(b)
  }

  const ImageSuffixes: seq<string> := [".png", ".gif", ".jpg", ".jpeg"]

  /** `need_compress`: false for PNG, GIF and JPEG images, judged by the
      lower-cased file name. */
  function NeedCompress(fname: string): bool {
    var lower := Lower(fname);
    !(EndsWith(lower, ".png") || EndsWith(lower, ".gif") || EndsWith(lower, ".jpg") || EndsWith(lower, ".jpeg"))
  }

  /** Lower-casing keeps a suffix a suffix. */
  lemma LowerSuffix(stem: string, ext: string)
    ensures EndsWith(Lower(stem + ext), Lower(ext))
  {
    LowerConcat(stem, ext);
    var lower := Lower(stem + ext);
    assert lower[|lower| - |ext|..] == Lower(ext);
  }

  /** A name ending in an image suffix, in any letter case, is not
      compressed. */
  lemma ImageNotCompressed(stem: string, ext: string)
    requires Lower(ext) in ImageSuffixes
    ensures !NeedCompress(stem + ext)
  {
    LowerSuffix(stem, ext);
    var lower, e := Lower(stem + ext), Lower(ext);
    if e == ".png" {
      assert EndsWith(lower, ".png");
    } else if e == ".gif" {
      assert EndsWith(lower, ".gif");
    } else if e == ".jpg" {
      assert EndsWith(lower, ".jpg");
    } else {
      assert EndsWith(lower, ".jpeg");
    }
  }

  /** Whether compressed bytes of length `packed` are worth storing for
      `n` bytes: `packed < n * 4 / 5` in integer division, written without
      the division. */
  predicate Shrinks(packed: nat, n: nat) {
    5 * (packed + 1) <= 4 * n
  }

  /** `Shrinks` is the test `pack` makes, under four fifths of the length
      rounded down. */
  lemma ShrinksIsFourFifths(packed: nat, n: nat)
    ensures Shrinks(packed, n) <==> packed < n * 4 / 5
  {
  }

  /** The chunk record and the payload bytes `pack` writes for a file item
      whose bytes are `b`: LZF when the name asks for compression and the
      compressed bytes are under four fifths of `b` (integer division),
      the bytes themselves otherwise. */
  function EncodeChunk(fname: string, b: seq<u8>, compress: Compress): (r: (Chunk, seq<u8>))
    ensures r.0.length == |b| && r.0.compressedLength == |r.1| && r.0.flags == 0
    ensures r.0.algorithm.Store? ==> r.1 == b
    ensures r.0.algorithm.Lzf? ==> NeedCompress(fname) && Shrinks(|r.1|, |b|)
  {
    var cb := compress(b);
    if NeedCompress(fname) && cb.Some? && Shrinks(|cb.value|, |b|) then (Chunk(Lzf, 0, |b|, |cb.value|), cb.value)
    else (Chunk(Store, 0, |b|, |b|), b)
  }

  /** Decoding what `pack` wrote for a file gives the file's bytes back,
      compressed or not. */
  lemma EncodeDecode(fname: string, b: seq<u8>, compress: Compress, lzf: Decompress)
    requires Inverts(compress, lzf)
    ensures var e := EncodeChunk(fname, b, compress);
      DecodeChunk(e.1, e.0, lzf) == Ok(b)
  {
    var e := EncodeChunk(fname, b, compress);
    if e.0.algorithm.Lzf? {
      assert Compressed(compress, b).Some? && e.1 == Compressed(compress, b).value;
    }
  }

  /** Sum of the chunks' lengths: the `fold` that checks the total size. */
  function TotalLength(chunks: seq<Chunk>): nat {
    if chunks == [] then 0 else TotalLength(chunks[..|chunks| - 1]) + chunks[|chunks| - 1].length
  }

  /** Sum of the chunks' compressed lengths: the bytes they take in the
      archive. */
  function CompressedTotal(chunks: seq<Chunk>): nat {
    if chunks == [] then 0 else CompressedTotal(chunks[..|chunks| - 1]) + chunks[|chunks| - 1].compressedLength
  }

  /** The chunk table and the payload of an item table: each file item
      encoded in turn, directory items skipped. */
  function Payload(items: seq<Item>, fs: FileSystem, compress: Compress): (seq<Chunk>, seq<u8>) {
    if items == [] then ([], [])
    else
      var prev := Payload(items[..|items| - 1], fs, compress);
      var it := items[|items| - 1];
      if HasFlag(it.flags, DirFlag) then prev
      else
        var e := EncodeChunk(it.fname, Content(it, fs), compress);
        (prev.0 + [e.0], prev.1 + e.1)
  }

  /** The archive `pack` writes: the header with the real chunk table,
      then the payload. */
  function Archive(nodes: seq<Node>, items: seq<Item>, dirCount: nat, fileCount: nat,
                   fs: FileSystem, compress: Compress): seq<u8>
  {
    var p := Payload(items, fs, compress);
    HeaderBytes(0, 0, dirCount, fileCount, nodes, items, p.0) + p.1
  }

  /** The item table's layout as `build_entry_and_item` makes it: only
      the first item is a directory, and it holds no bytes. */
  predicate DirFirst(items: seq<Item>) {
    && |items| >= 1
    && HasFlag(items[0].flags, DirFlag) && items[0].length == 0
    && forall j | 1 <= j < |items| :: !HasFlag(items[j].flags, DirFlag)
  }

  lemma ItemsDirFirst(items: seq<Item>, fs: FileSystem, sha1: Sha1, dirCount: nat)
    requires ItemsOk(items, fs, sha1, dirCount)
    ensures DirFirst(items) && AllReadable(items, fs)
  {
    assert HasFlag(DirFlag, DirFlag) by {
      assert (1 as bv16) & (1 as bv16) == 1;
    }
    assert forall j | 1 <= j < |items| :: items[j].flags == 0;
    assert !HasFlag(0, DirFlag) by {
      assert (0 as bv16) & (1 as bv16) == 0;
    }
    forall j | 0 <= j < |items|
      ensures Readable(items[j], fs)
    {
      if j > 0 {
        assert Backed(items[j], fs, sha1);
      }
    }
  }

  /** One more item: a directory adds nothing, a file adds its chunk and
      its bytes. */
  lemma PayloadStep(items: seq<Item>, fs: FileSystem, compress: Compress, i: nat)
    requires i < |items|
    ensures var prev, it := Payload(items[..i], fs, compress), items[i];
      Payload(items[..i + 1], fs, compress)
      == if HasFlag(it.flags, DirFlag) then prev
         else var e := EncodeChunk(it.fname, Content(it, fs), compress); (prev.0 + [e.0], prev.1 + e.1)
  {
    var pre := items[..i + 1];
    assert pre[..|pre| - 1] == items[..i];
  }

  /** The payload is as long as its chunks' compressed lengths add up to,
      and they cover the items' bytes in one chunk per file item. */
  lemma {:induction false} PayloadTotals(items: seq<Item>, fs: FileSystem, compress: Compress)
    requires DirFirst(items)
    ensures var p := Payload(items, fs, compress);
      && |p.1| == CompressedTotal(p.0)
      && TotalLength(p.0) == SumLength(items)
      && |p.0| == |items| - 1
    decreases |items|
  {
    var p := Payload(items, fs, compress);
    var init, it := items[..|items| - 1], items[|items| - 1];
    if |items| == 1 {
      assert init == [] && HasFlag(it.flags, DirFlag);
      assert p == Payload(init, fs, compress);
    } else {
      assert DirFirst(init) && !HasFlag(it.flags, DirFlag);
      PayloadTotals(init, fs, compress);
      var prev := Payload(init, fs, compress);
      var e := EncodeChunk(it.fname, Content(it, fs), compress);
      assert p == (prev.0 + [e.0], prev.1 + e.1);
      ChunkTotalsSnoc(prev.0, e.0);
      assert items == init + [it];
      SumLengthSnoc(init, it);
    }
  }

  lemma ChunkTotalsSnoc(chunks: seq<Chunk>, c: Chunk)
    ensures TotalLength(chunks + [c]) == TotalLength(chunks) + c.length
    ensures CompressedTotal(chunks + [c]) == CompressedTotal(chunks) + c.compressedLength
  {
    assert (chunks + [c])[..|chunks|] == chunks;
  }

  lemma AppendAssoc(a: seq<u8>, b: seq<u8>, c: seq<u8>)
    ensures a + (b + c) == (a + b) + c
  {
  }

  /** `uncompressed_buffer` filled for one file item: the filler hands
      out the item's bytes in full, so the `fill error` check never
      fires. */
  method ReadItem(filler: BufferFiller, length: nat) returns (data: seq<u8>)
    requires filler.Valid() && filler.Position() + length <= |Stream(filler.items, filler.fs)|
    modifies filler
    ensures filler.Valid() && filler.Position() == old(filler.Position()) + length
    ensures data == Stream(filler.items, filler.fs)[old(filler.Position())..old(filler.Position()) + length]
  {
    var buf := new u8[length];
    var n := filler.Fill(buf);
    assert n == buf.Length;
    data := buf[..n];
  }

  /** The chunk record of one file item and its payload, appended to the
      archive: compressed when `need_compress` allows it and LZF shrinks
      the bytes under four fifths, stored otherwise. */
  method WriteChunk(f: OutFile, fname: string, data: seq<u8>, compress: Compress) returns (c: Chunk)
    requires f.pos == |f.data|
    modifies f
    ensures var e := EncodeChunk(fname, data, compress);
      c == e.0 && f.data == old(f.data) + e.1 && f.pos == |f.data|
  {
    var n := |data|;
    if NeedCompress(fname) {
      var cb := compress(data);
      if cb.Some? {
        ShrinksIsFourFifths(|cb.value|, n);
      }
      if cb.Some? && |cb.value| < n * 4 / 5 {
        c := Chunk(Lzf, 0, n, |cb.value|);
        f.Write(cb.value);
        return;
      }
    }
    c := Chunk(Store, 0, n, n);
    f.Write(data);
  }

  /** The item loop of `pack`: each file item's chunk and payload in
      turn, directory items skipped. */
  method PackItems(f: OutFile, filler: BufferFiller, items: seq<Item>, fs: FileSystem, compress: Compress)
    returns (chunks: seq<Chunk>)
    requires f.pos == |f.data| && filler.Valid() && filler.items == items && filler.fs == fs
    requires filler.Position() == 0 && DirFirst(items)
    modifies f, filler
    ensures var p := Payload(items, fs, compress);
      chunks == p.0 && f.data == old(f.data) + p.1 && f.pos == |f.data|
  {
    ghost var base := f.data;
    chunks := [];
    var i := 0;
    assert items[..i] == [];
    while i < |items|
      invariant i <= |items| && filler.Valid() && filler.items == items && filler.fs == fs
      invariant filler.Position() == |Stream(items[..i], fs)|
      invariant f.pos == |f.data| && f.data == base + Payload(items[..i], fs, compress).1
      invariant chunks == Payload(items[..i], fs, compress).0
    {
      chunks := PackItem(f, filler, items, fs, compress, i, chunks, base);
      i := i + 1;
    }
    assert items[..i] == items;
  }

  /** One turn of the item loop: item `i` read from the filler and, unless
      it is the directory item, encoded and appended. */
  method PackItem(f: OutFile, filler: BufferFiller, items: seq<Item>, fs: FileSystem, compress: Compress,
                  i: nat, chunks: seq<Chunk>, ghost base: seq<u8>)
    returns (chunks': seq<Chunk>)
    requires i < |items| && DirFirst(items)
    requires filler.Valid() && filler.items == items && filler.fs == fs
    requires filler.Position() == |Stream(items[..i], fs)|
    requires f.pos == |f.data| && f.data == base + Payload(items[..i], fs, compress).1
    requires chunks == Payload(items[..i], fs, compress).0
    modifies f, filler
    ensures filler.Valid() && filler.Position() == |Stream(items[..i + 1], fs)|
    ensures f.pos == |f.data| && f.data == base + Payload(items[..i + 1], fs, compress).1
    ensures chunks' == Payload(items[..i + 1], fs, compress).0
  {
    ghost var prev := Payload(items[..i], fs, compress);
    var it := items[i];
    if HasFlag(it.flags, DirFlag) {
      PayloadStep(items, fs, compress, i);
      StreamStep(items, fs, i);
      assert i == 0 && Payload(items[..i + 1], fs, compress) == prev;
      return chunks;
    }
    StreamItem(items, fs, i);
    var data := ReadItem(filler, it.length);
    PayloadStep(items, fs, compress, i);
    StreamStep(items, fs, i);
    ghost var e := EncodeChunk(it.fname, data, compress);
    var c := WriteChunk(f, it.fname, data, compress);
    AppendAssoc(base, prev.1, e.1);
    chunks' := chunks + [c];
  }

  /** `pack`: the archive of the source files `files` and directories
      `dirs`.  It fails only as `write_header_data` does (a missing source
      file, a path the index cannot hold); the size and chunk-count
      checks never fire.  On success the output is the header, with the
      chunk table of the payload, followed by the payload. */
  method Pack(fs: FileSystem, sha1: Sha1, fileName: string -> Option<string>, compress: Compress,
              files: seq<PackItem>, dirs: seq<string>)
    returns (r: Result<()>, out: seq<u8>, ghost t: Tables, ghost nodes: seq<Node>)
    ensures r.Ok? <==> HeaderOf(fs, sha1, fileName, files, dirs).Ok?
    ensures r.Err? ==> r.error == HeaderOf(fs, sha1, fileName, files, dirs).error
    ensures r.Ok? ==> HeaderOf(fs, sha1, fileName, files, dirs).value == (t, nodes)
    ensures r.Err? ==> out == Preamble(0, 0, |dirs|, |files|)
    ensures r.Err? ==> r.error.Io? || r.error.InvalidSourceName? || r.error.Abort?
    ensures (r.Err? && r.error.Io?) <==> exists p | p in files :: p.src !in fs
    ensures r.Ok? ==>
      && BuiltFrom(t, fs, sha1, fileName, files, dirs)
      && Indexes(nodes, FirstValues(t.entries))
      && out == Archive(nodes, t.items, |dirs|, |files|, fs, compress)
  {
    var f := new OutFile();
    var written;
    written, t, nodes := WriteHeaderData(f, false, fs, sha1, fileName, files, dirs);
    if written.Err? {
      return Err(written.error), f.data, t, nodes;
    }
    var h := written.value;
    ItemsDirFirst(h.items, fs, sha1, |dirs|);
    ghost var front := Preamble(0, 0, |dirs|, |files|) + Table(nodes, NodeBytes) + Table(t.items, ItemBytes);
    r := WritePayload(f, h, front, fs, compress);
    out := f.data;
  }

  /** The part of `pack` after the header: the chunk loop, the checks
      that the chunks cover `total_size` in `total_chunks` records, and
      the chunk table written over the reserved one.  Both checks pass. */
  method WritePayload(f: OutFile, h: HeaderData, ghost front: seq<u8>, fs: FileSystem, compress: Compress)
    returns (r: Result<()>)
    requires DirFirst(h.items) && AllReadable(h.items, fs)
    requires h.totalSize == SumLength(h.items) && h.totalChunks == |h.items| - 1
    requires h.chunksOffset == |front|
    requires f.data == front + Table(Placeholders(h.totalChunks), ChunkBytes) && f.pos == |f.data|
    modifies f
    ensures r == Ok(())
    ensures var p := Payload(h.items, fs, compress);
      f.data == front + Table(p.0, ChunkBytes) + p.1
  {
    var filler := new BufferFiller(h.items, fs);
    var chunks := PackItems(f, filler, h.items, fs, compress);
    ghost var payload := Payload(h.items, fs, compress).1;
    PayloadTotals(h.items, fs, compress);
    var newTotalSize, totalCompressed := TotalLength(chunks), CompressedTotal(chunks);
    if h.totalSize != newTotalSize {
      assert false;
      return Err(TotalSizeMismatch(h.totalSize, newTotalSize));
    }
    if h.totalChunks != |chunks| {
      assert false;
      return Err(TotalChunksMismatch(h.totalChunks, |chunks|));
    }
    UpdateHeaderData(f, h, chunks);
    PatchChunkTable(front, Placeholders(h.totalChunks), chunks, payload);
    return Ok(());
  }
}

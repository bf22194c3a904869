/** Packing then unpacking (kwui-cli/src/packager.rs `pack`, then
    `unpack`): the archive `pack` writes parses back to its own header,
    its chunks decode to the items' bytes one after another, and
    extracting it gives every stored path its item's bytes. */
module RoundTrip {
  import opened Wrappers
  import opened Format
  import opened Codec
  import opened Items
  import opened Fill
  import opened Drain
  import opened HeaderWrite
  import opened Packer
  import opened Extract
  import opened ExtractFacts
  import Trie

  /** An item table as `build_entry_and_item` lays it out, small enough
      that its lengths and offsets survive the archive's 32-bit fields and
      its indices the index's 16-bit values. */
  predicate Packable(items: seq<Item>) {
    && DirFirst(items) && items[0].offset == 0 && Contiguous(items)
    && SumLength(items) < U32Modulus && |items| <= 0x1_0000
  }

  // ------------------------------------------------------------ the payload

  /** One item more at the end of the table: a directory adds nothing, a
      file its chunk and its bytes. */
  function Push(prev: (seq<Chunk>, seq<u8>), it: Item, fs: FileSystem, compress: Compress): (seq<Chunk>, seq<u8>) {
    if HasFlag(it.flags, DirFlag) then prev
    else var e := EncodeChunk(it.fname, Content(it, fs), compress); (prev.0 + [e.0], prev.1 + e.1)
  }

  lemma PayloadLast(its: seq<Item>, fs: FileSystem, compress: Compress)
    requires its != []
    ensures Payload(its, fs, compress) == Push(Payload(its[..|its| - 1], fs, compress), its[|its| - 1], fs, compress)
  {
  }

  /** A directory in front of the table adds nothing to the payload. */
  lemma {:induction false} PayloadConsDir(x: Item, its: seq<Item>, fs: FileSystem, compress: Compress)
    requires HasFlag(x.flags, DirFlag)
    ensures Payload([x] + its, fs, compress) == Payload(its, fs, compress)
    decreases |its|
  {
    var s := [x] + its;
    if its == [] {
      assert s[..0] == [];
      PayloadLast(s, fs, compress);
    } else {
      var init, last := its[..|its| - 1], its[|its| - 1];
      PayloadConsDir(x, init, fs, compress);
      assert s[..|s| - 1] == [x] + init && s[|s| - 1] == last;
      PayloadLast(s, fs, compress);
      PayloadLast(its, fs, compress);
    }
  }

  /** A file in front of the table puts its chunk and its bytes first. */
  lemma {:induction false} PayloadConsFile(x: Item, its: seq<Item>, fs: FileSystem, compress: Compress)
    requires !HasFlag(x.flags, DirFlag)
    ensures var e, p := EncodeChunk(x.fname, Content(x, fs), compress), Payload(its, fs, compress);
      Payload([x] + its, fs, compress) == ([e.0] + p.0, e.1 + p.1)
    decreases |its|
  {
    var s := [x] + its;
    var e := EncodeChunk(x.fname, Content(x, fs), compress);
    if its == [] {
      assert s[..0] == [];
      PayloadLast(s, fs, compress);
      var none: (seq<Chunk>, seq<u8>) := ([], []);
      assert Payload([], fs, compress) == none;
      assert none.0 + [e.0] == [e.0] + none.0 && none.1 + e.1 == e.1 + none.1;
    } else {
      var init, last := its[..|its| - 1], its[|its| - 1];
      PayloadConsFile(x, init, fs, compress);
      assert s[..|s| - 1] == [x] + init && s[|s| - 1] == last;
      PayloadLast(s, fs, compress);
      PayloadLast(its, fs, compress);
      PushFront(e.0, e.1, Payload(init, fs, compress), last, fs, compress);
    }
  }

  lemma PushFront(c: Chunk, b: seq<u8>, p: (seq<Chunk>, seq<u8>), it: Item, fs: FileSystem, compress: Compress)
    ensures var q := Push(p, it, fs, compress);
      Push(([c] + p.0, b + p.1), it, fs, compress) == ([c] + q.0, b + q.1)
  {
    if !HasFlag(it.flags, DirFlag) {
      var l := EncodeChunk(it.fname, Content(it, fs), compress);
      assert [c] + p.0 + [l.0] == [c] + (p.0 + [l.0]);
      assert b + p.1 + l.1 == b + (p.1 + l.1);
    }
  }

  /** The stream of a table with one more item in front. */
  lemma {:induction false} StreamCons(x: Item, its: seq<Item>, fs: FileSystem)
    ensures Stream([x] + its, fs) == Content(x, fs) + Stream(its, fs)
    decreases |its|
  {
    if its == [] {
      assert ([x] + its)[..0] == [];
    } else {
      var init, last := its[..|its| - 1], its[|its| - 1];
      StreamCons(x, init, fs);
      assert ([x] + its)[..|its|] == [x] + init && ([x] + its)[|its|] == last;
      assert Content(x, fs) + Stream(init, fs) + Content(last, fs) == Content(x, fs) + (Stream(init, fs) + Content(last, fs));
    }
  }

  /** A chunk whose lengths fit in 32 bits reads back unchanged. */
  lemma StoredChunksSame(chunks: seq<Chunk>)
    requires forall i | 0 <= i < |chunks| :: chunks[i].length < U32Modulus && chunks[i].compressedLength < U32Modulus
    ensures StoredChunks(chunks) == chunks
  {
  }

  /** File items whose lengths fit in 32 bits. */
  predicate FileItems(its: seq<Item>) {
    forall j | 0 <= j < |its| :: !HasFlag(its[j].flags, DirFlag) && its[j].length < U32Modulus
  }

  /** The payload and the stream of a run of file items, split after the
      first item. */
  lemma SplitFirst(its: seq<Item>, fs: FileSystem, compress: Compress)
    requires its != [] && FileItems(its)
    ensures FileItems(its[1..]) && its[0].length < U32Modulus
    ensures var e, pr := EncodeChunk(its[0].fname, Content(its[0], fs), compress), Payload(its[1..], fs, compress);
      Payload(its, fs, compress) == ([e.0] + pr.0, e.1 + pr.1)
    ensures Stream(its, fs) == Content(its[0], fs) + Stream(its[1..], fs)
  {
    assert its == [its[0]] + its[1..];
    PayloadConsFile(its[0], its[1..], fs, compress);
    StreamCons(its[0], its[1..], fs);
  }

  /** One chunk of a run: its record, the bytes it takes in the archive,
      and the bytes it stands for. */
  datatype Piece = Piece(chunk: Chunk, bytes: seq<u8>, out: seq<u8>)

  function Chunks(ps: seq<Piece>): seq<Chunk> {
    if ps == [] then [] else [ps[0].chunk] + Chunks(ps[1..])
  }

  function Bytes(ps: seq<Piece>): seq<u8> {
    if ps == [] then [] else ps[0].bytes + Bytes(ps[1..])
  }

  function Outs(ps: seq<Piece>): seq<u8> {
    if ps == [] then [] else ps[0].out + Outs(ps[1..])
  }

  /** Every piece's bytes, read on their own, decode to what it stands
      for. */
  predicate Decodes(ps: seq<Piece>, lzf: Decompress) {
    forall j | 0 <= j < |ps| ::
      ps[j].chunk.compressedLength == |ps[j].bytes| && DecodeChunk(ps[j].bytes, ps[j].chunk, lzf) == Ok(ps[j].out)
  }

  /** A run of chunks whose bytes lie one after another from `p`, each
      decoding on its own, decodes to their outputs one after another. */
  lemma {:induction false} DecodeRun(data: seq<u8>, p: nat, ps: seq<Piece>, lzf: Decompress)
    requires Decodes(ps, lzf) && IsAt(data, p, Bytes(ps))
    ensures Decode(data, p, Chunks(ps), lzf) == Decoded(Outs(ps), None)
    decreases |ps|
  {
    if ps != [] {
      var x, rest := ps[0], ps[1..];
      DecodesSplit(ps, lzf);
      SliceParts(data, p, Bytes(ps), x.bytes, Bytes(rest));
      DecodeRun(data, p + |x.bytes|, rest, lzf);
      DecodeFirst(data, p, x.chunk, Chunks(rest), x.bytes, x.out, lzf);
    }
  }

  /** The first piece of a run that decodes, and the rest of the run. */
  lemma DecodesSplit(ps: seq<Piece>, lzf: Decompress)
    requires ps != [] && Decodes(ps, lzf)
    ensures ps[0].chunk.compressedLength == |ps[0].bytes| && DecodeChunk(ps[0].bytes, ps[0].chunk, lzf) == Ok(ps[0].out)
    ensures Decodes(ps[1..], lzf)
  {
    var rest := ps[1..];
    forall j | 0 <= j < |rest|
      ensures rest[j].chunk.compressedLength == |rest[j].bytes| && DecodeChunk(rest[j].bytes, rest[j].chunk, lzf) == Ok(rest[j].out)
    {
      assert rest[j] == ps[j + 1];
    }
  }

  /** The piece `pack` writes for one file item. */
  function PieceOf(it: Item, fs: FileSystem, compress: Compress): Piece {
    var e := EncodeChunk(it.fname, Content(it, fs), compress);
    Piece(e.0, e.1, Content(it, fs))
  }

  function Pieces(its: seq<Item>, fs: FileSystem, compress: Compress): seq<Piece> {
    seq(|its|, j requires 0 <= j < |its| => PieceOf(its[j], fs, compress))
  }

  /** The payload and the stream of a run of file items are the pieces'
      records, bytes and outputs. */
  lemma {:induction false} PiecesMatch(its: seq<Item>, fs: FileSystem, compress: Compress)
    requires FileItems(its)
    ensures var ps := Pieces(its, fs, compress);
      && Payload(its, fs, compress) == (Chunks(ps), Bytes(ps))
      && Stream(its, fs) == Outs(ps)
    decreases |its|
  {
    var ps := Pieces(its, fs, compress);
    if its == [] {
      assert Payload(its, fs, compress) == ([], []);
    } else {
      SplitFirst(its, fs, compress);
      PiecesMatch(its[1..], fs, compress);
      PiecesTail(its, fs, compress);
    }
  }

  lemma PiecesTail(its: seq<Item>, fs: FileSystem, compress: Compress)
    requires its != []
    ensures Pieces(its, fs, compress)[1..] == Pieces(its[1..], fs, compress)
    ensures Pieces(its, fs, compress)[0] == PieceOf(its[0], fs, compress)
  {
  }

  /** Every piece of a run of file items decodes on its own when the
      decompressor undoes the compressor. */
  lemma PiecesDecode(its: seq<Item>, fs: FileSystem, compress: Compress, lzf: Decompress)
    requires Inverts(compress, lzf)
    ensures Decodes(Pieces(its, fs, compress), lzf)
  {
    var ps := Pieces(its, fs, compress);
    forall j | 0 <= j < |ps|
      ensures ps[j].chunk.compressedLength == |ps[j].bytes| && DecodeChunk(ps[j].bytes, ps[j].chunk, lzf) == Ok(ps[j].out)
    {
      EncodeDecode(its[j].fname, Content(its[j], fs), compress, lzf);
    }
  }

  /** The chunks `pack` writes for a run of file items, read back from
      where their bytes start, decode to the items' bytes. */
  lemma DecodeFiles(data: seq<u8>, p: nat, its: seq<Item>, fs: FileSystem,
                    compress: Compress, lzf: Decompress)
    requires Inverts(compress, lzf) && FileItems(its)
    requires IsAt(data, p, Payload(its, fs, compress).1)
    ensures Decode(data, p, Payload(its, fs, compress).0, lzf) == Decoded(Stream(its, fs), None)
  {
    PiecesMatch(its, fs, compress);
    PiecesDecode(its, fs, compress, lzf);
    DecodeRun(data, p, Pieces(its, fs, compress), lzf);
  }

  /** The bytes `b` lie in `data` from `p` on. */
  predicate IsAt(data: seq<u8>, p: nat, b: seq<u8>) {
    p + |b| <= |data| && data[p..p + |b|] == b
  }

  lemma AtEnd(a: seq<u8>, b: seq<u8>)
    ensures IsAt(a + b, |a|, b)
  {
    assert (a + b)[|a|..|a| + |b|] == b;
  }

  lemma SliceParts(data: seq<u8>, p: nat, w: seq<u8>, a: seq<u8>, b: seq<u8>)
    requires IsAt(data, p, w) && w == a + b
    ensures IsAt(data, p, a) && IsAt(data, p + |a|, b)
  {
    assert data[p..p + |a|] == data[p..p + |w|][..|a|];
    assert data[p + |a|..p + |a| + |b|] == data[p..p + |w|][|a|..];
  }

  /** The first chunk of a run, its bytes in place, decodes to what its
      own bytes decode to, and the rest of the run follows it. */
  lemma DecodeFirst(data: seq<u8>, p: nat, c: Chunk, cs: seq<Chunk>, b: seq<u8>, v: seq<u8>, lzf: Decompress)
    requires IsAt(data, p, b) && c.compressedLength == |b|
    requires DecodeChunk(b, c, lzf) == Ok(v)
    ensures Decode(data, p, [c] + cs, lzf) == Prepend(v, Decode(data, p + |b|, cs, lzf))
  {
    var run := [c] + cs;
    assert run[0..] == run && run[0] == c && run[1..] == cs;
    WindowAt(data, p, b);
    DecodeAt(data, p, run, 0, lzf);
  }

  /** A single read of bytes that lie in the file gets exactly them. */
  lemma WindowAt(data: seq<u8>, p: nat, b: seq<u8>)
    requires IsAt(data, p, b)
    ensures Window(data, p, |b|) == b && |Avail(data, p, |b|)| == |b|
  {
  }

  /** The whole payload decodes to the stream of all items: the directory
      item holds no bytes and has no chunk. */
  lemma PayloadDecodes(data: seq<u8>, p: nat, items: seq<Item>, fs: FileSystem, compress: Compress, lzf: Decompress)
    requires Inverts(compress, lzf) && Packable(items)
    requires IsAt(data, p, Payload(items, fs, compress).1)
    ensures Decode(data, p, StoredChunks(Payload(items, fs, compress).0), lzf) == Decoded(Stream(items, fs), None)
  {
    var files := items[1..];
    PackableFiles(items);
    assert items == [items[0]] + files;
    PayloadConsDir(items[0], files, fs, compress);
    StreamCons(items[0], files, fs);
    DecodeFiles(data, p, files, fs, compress, lzf);
    PayloadChunksFit(files, fs, compress);
  }

  /** After the directory item, a packable table holds file items only,
      each shorter than 4 GiB. */
  lemma PackableFiles(items: seq<Item>)
    requires Packable(items)
    ensures FileItems(items[1..])
  {
    var files := items[1..];
    forall j | 0 <= j < |files|
      ensures !HasFlag(files[j].flags, DirFlag) && files[j].length < U32Modulus
    {
      assert files[j] == items[j + 1];
      LengthWithin(items, j + 1);
    }
  }

  /** One item's length is at most the items' total length. */
  lemma {:induction false} LengthWithin(items: seq<Item>, j: nat)
    requires j < |items|
    ensures items[j].length <= SumLength(items)
    decreases |items|
  {
    if j < |items| - 1 {
      LengthWithin(items[..|items| - 1], j);
    }
  }

  /** The chunks of a run of file items whose lengths fit in 32 bits fit
      the chunk table's 32-bit fields. */
  lemma {:induction false} PayloadChunksFit(its: seq<Item>, fs: FileSystem, compress: Compress)
    requires forall j | 0 <= j < |its| :: its[j].length < U32Modulus
    ensures var cs := Payload(its, fs, compress).0;
      forall i | 0 <= i < |cs| :: cs[i].length < U32Modulus && cs[i].compressedLength < U32Modulus
    ensures StoredChunks(Payload(its, fs, compress).0) == Payload(its, fs, compress).0
    decreases |its|
  {
    if its != [] {
      var init := its[..|its| - 1];
      PayloadChunksFit(init, fs, compress);
    }
    var cs := Payload(its, fs, compress).0;
    StoredChunksSame(cs);
  }

  /** The chunks of a packable table: one per file item, each with lengths
      that fit the chunk table's 32-bit fields. */
  lemma PackableChunks(items: seq<Item>, fs: FileSystem, compress: Compress)
    requires Packable(items)
    ensures var cs := Payload(items, fs, compress).0;
      |cs| == |items| - 1 && StoredChunks(cs) == cs
  {
    var files := items[1..];
    PayloadTotals(items, fs, compress);
    PackableFiles(items);
    assert items == [items[0]] + files;
    PayloadConsDir(items[0], files, fs, compress);
    PayloadChunksFit(files, fs, compress);
  }

  // ------------------------------------------------------------ the archive

  /** The header of the archive `pack` writes reads back as written: no
      flags, chunk size 0, the counts, the nodes, the items without digest
      and name, and the chunk table of the payload. */
  lemma ArchiveParses(nodes: seq<Node>, items: seq<Item>, dirCount: nat, fileCount: nat,
                      fs: FileSystem, compress: Compress)
    requires Packable(items) && |nodes| < U32Modulus
    ensures var cs := Payload(items, fs, compress).0;
      ParseHeader(Archive(nodes, items, dirCount, fileCount, fs, compress))
      == Ok((Header(FileMagic, FileVersion, 0, 0, dirCount % U32Modulus, fileCount % U32Modulus,
                    nodes, StoredItems(items), cs),
             |HeaderBytes(0, 0, dirCount, fileCount, nodes, items, cs)|))
  {
    var p := Payload(items, fs, compress);
    PackableChunks(items, fs, compress);
    HeaderRoundTrip(0, 0, dirCount, fileCount, nodes, items, p.0, p.1);
  }

  /** The chunk stream of the archive `pack` writes, read from the end of
      its header with the chunk table read there, decodes to the bytes of
      all items one after another. */
  lemma ArchiveDecodes(nodes: seq<Node>, items: seq<Item>, dirCount: nat, fileCount: nat,
                       fs: FileSystem, compress: Compress, lzf: Decompress)
    requires Inverts(compress, lzf) && Packable(items) && |nodes| < U32Modulus
    ensures var archive := Archive(nodes, items, dirCount, fileCount, fs, compress);
      var h := ParseHeader(archive);
      h.Ok? && Decode(archive, h.value.1, h.value.0.chunks, lzf) == Decoded(Stream(items, fs), None)
  {
    var archive := Archive(nodes, items, dirCount, fileCount, fs, compress);
    var p := Payload(items, fs, compress);
    var head := HeaderBytes(0, 0, dirCount, fileCount, nodes, items, p.0);
    var h := ParseHeader(archive);
    assert h.Ok? && h.value.1 == |head| && h.value.0.chunks == p.0 by {
      ArchiveParses(nodes, items, dirCount, fileCount, fs, compress);
    }
    assert IsAt(archive, |head|, p.1) by {
      assert archive == head + p.1;
      AtEnd(head, p.1);
    }
    assert StoredChunks(p.0) == p.0 by {
      PackableChunks(items, fs, compress);
    }
    PayloadDecodes(archive, |head|, items, fs, compress, lzf);
  }

  /** A run of items is never longer in total than the whole table. */
  lemma {:induction false} SumPrefix(items: seq<Item>, j: nat)
    requires j <= |items|
    ensures SumLength(items[..j]) <= SumLength(items)
    decreases |items|
  {
    if j < |items| {
      var init := items[..|items| - 1];
      assert items[..j] == init[..j];
      SumPrefix(init, j);
    } else {
      assert items[..j] == items;
    }
  }

  /** The items read back from a packable table keep their lengths, and
      each one's offset is where its bytes start in the stream. */
  lemma StoredAtOffsets(items: seq<Item>, fs: FileSystem)
    requires Packable(items)
    ensures AtOffsets(StoredItems(items), items, fs)
  {
    var st := StoredItems(items);
    forall j | 0 <= j < |items|
      ensures st[j].length == items[j].length && st[j].offset == |Stream(items[..j], fs)|
    {
      StoredAt(items, fs, j);
    }
  }

  /** One item of a packable table, read back. */
  lemma StoredAt(items: seq<Item>, fs: FileSystem, j: nat)
    requires Packable(items) && j < |items|
    ensures Stored(items[j]).length == items[j].length && Stored(items[j]).offset == |Stream(items[..j], fs)|
  {
    var it, before := items[j], items[..j];
    assert it.offset == SumLength(before) by {
      if j == 0 {
        assert before == [];
      }
    }
    LengthWithin(items, j);
    SumPrefix(items, j);
    StreamLength(before, fs);
    StoredSmall(it);
  }

  /** An item whose offset and length fit in 32 bits reads back with
      both unchanged. */
  lemma StoredSmall(it: Item)
    requires it.offset < U32Modulus && it.length < U32Modulus
    ensures Stored(it).offset == it.offset && Stored(it).length == it.length
  {
  }

  /** Every pair of the work list is extracted: a directory is created, a
      file holds the bytes of its item. */
  ghost predicate Extracted(ops: seq<Op>, work: seq<WorkItem>, items: seq<Item>, fs: FileSystem)
    requires Rooted(work) && IdsBelow(work, |items|)
  {
    forall i | 0 <= i < |work| ::
      if work[i].1 == 0 then CreateDirAll(work[i].0[1..]) in ops
      else work[i].0[1..] in FilesOf(ops) && FilesOf(ops)[work[i].0[1..]] == Content(items[work[i].1], fs)
  }

  /** The index as the archive stores it: its pairs are rooted paths, one
      item each, naming items of the table. */
  predicate IndexFits(nodes: seq<Node>, items: seq<Item>) {
    Trie.Ordered(nodes) && Rooted(WorkItems(nodes)) && OneItemPerPath(WorkItems(nodes))
    && IdsBelow(WorkItems(nodes), |items|)
  }

  /** Round trip of `pack` and `unpack` as written: when every file item
      is named by some path of the index, unpacking the archive ends
      without error and gives each path its item's bytes. */
  lemma PackUnpack(nodes: seq<Node>, items: seq<Item>, dirCount: nat, fileCount: nat,
                   fs: FileSystem, compress: Compress, lzf: Decompress)
    requires Inverts(compress, lzf) && Packable(items) && |nodes| < U32Modulus
    requires IndexFits(nodes, items) && Mentions(WorkItems(nodes), |items|)
    ensures var u := UnpackOf(Archive(nodes, items, dirCount, fileCount, fs, compress), lzf);
      u.1 == Ok(()) && Extracted(u.0, WorkItems(nodes), items, fs)
  {
    var archive := Archive(nodes, items, dirCount, fileCount, fs, compress);
    var work := WorkItems(nodes);
    var st := StoredItems(items);
    ArchiveParses(nodes, items, dirCount, fileCount, fs, compress);
    ArchiveDecodes(nodes, items, dirCount, fileCount, fs, compress, lzf);
    StoredAtOffsets(items, fs);
    NoGapsOfMentions(work, |items|);
    assert Extractable(work, st, items);
    ExtractExact(work, st, items, fs);
  }

  /** Round trip of `pack` and the corrected `unpack` that reads each item
      at its offset: no path of the index needs to name every item. */
  lemma PackUnpackAt(nodes: seq<Node>, items: seq<Item>, dirCount: nat, fileCount: nat,
                     fs: FileSystem, compress: Compress, lzf: Decompress)
    requires Inverts(compress, lzf) && Packable(items) && |nodes| < U32Modulus
    requires IndexFits(nodes, items)
    ensures var u := UnpackAtOf(Archive(nodes, items, dirCount, fileCount, fs, compress), lzf);
      u.1 == Ok(()) && Extracted(u.0, WorkItems(nodes), items, fs)
  {
    var archive := Archive(nodes, items, dirCount, fileCount, fs, compress);
    var work := WorkItems(nodes);
    var h := ParseHeader(archive);
    ArchiveParses(nodes, items, dirCount, fileCount, fs, compress);
    ArchiveDecodes(nodes, items, dirCount, fileCount, fs, compress, lzf);
    StoredAtOffsets(items, fs);
    ExtractAtExact(work, StoredItems(items), items, fs, Decode(archive, h.value.1, h.value.0.chunks, lzf));
  }

  // ------------------------------------------------- what `pack` builds

  /** Every destination path of the entries begins with `/`. */
  predicate RootedDsts(entries: seq<Entry>) {
    forall k | 0 <= k < |entries| :: |entries[k].dst| > 0 && entries[k].dst[0] == '/'
  }

  /** Each path of the first-value map is the path of an entry, and its
      value the u16 item index of one. */
  lemma {:induction false} FirstValuesFrom(entries: seq<Entry>, n: nat)
    requires n <= 0x1_0000 && RootedDsts(entries)
    requires forall k | 0 <= k < |entries| :: entries[k].itemIndex < n
    ensures forall s | s in FirstValues(entries) :: |s| > 0 && s[0] == '/' && FirstValues(entries)[s] as int < n
  {
    if entries != [] {
      var init, e := entries[..|entries| - 1], entries[|entries| - 1];
      assert forall k | 0 <= k < |init| :: init[k] == entries[k];
      FirstValuesFrom(init, n);
      assert e.itemIndex % 0x1_0000 == e.itemIndex;
    }
  }

  /** A successful `pack` (its tables and index as `Packer.Pack` states
      them) meets the round trip's hypotheses, as long as the bytes and
      the items fit the archive's fields and every destination path is
      rooted. */
  lemma BuiltFits(t: Tables, nodes: seq<Node>, fs: FileSystem, sha1: Sha1, fileName: string -> Option<string>,
                  files: seq<PackItem>, dirs: seq<string>)
    requires HeaderOf(fs, sha1, fileName, files, dirs) == Ok((t, nodes))
    requires BuiltFrom(t, fs, sha1, fileName, files, dirs) && Indexes(nodes, FirstValues(t.entries))
    requires RootedDsts(t.entries) && SumLength(t.items) < U32Modulus && |t.items| <= 0x1_0000
    ensures Packable(t.items) && IndexFits(nodes, t.items) && |nodes| < U32Modulus
  {
    ItemsDirFirst(t.items, fs, sha1, |dirs|);
    HeaderIndexFits(fs, sha1, fileName, files, dirs);
    BuiltIds(t.entries, dirs, SolidSorted(files, fileName), t.items, fs, sha1);
    IndexedFits(nodes, t.entries, |t.items|);
  }

  /** The index of a successful header fits the 16-bit links. */
  lemma HeaderIndexFits(fs: FileSystem, sha1: Sha1, fileName: string -> Option<string>,
                        files: seq<PackItem>, dirs: seq<string>)
    requires HeaderOf(fs, sha1, fileName, files, dirs).Ok?
    ensures |HeaderOf(fs, sha1, fileName, files, dirs).value.1| <= Trie.NoChild as int
  {
  }

  /** Every entry `build_entry_and_item` makes points at an item of its
      table: a directory's at the sentinel, a file's at its content. */
  lemma BuiltIds(entries: seq<Entry>, dirs: seq<string>, sorted: seq<PackItem>, items: seq<Item>,
                 fs: FileSystem, sha1: Sha1)
    requires |items| >= 1 && |entries| == |dirs| + |sorted| && entries[..|dirs|] == DirEntries(dirs)
    requires FileEntriesOk(entries[|dirs|..], sorted, items, fs, sha1)
    ensures forall k | 0 <= k < |entries| :: entries[k].itemIndex < |items|
  {
    forall k | 0 <= k < |entries|
      ensures entries[k].itemIndex < |items|
    {
      if k < |dirs| {
        assert entries[k] == entries[..|dirs|][k] == DirEntries(dirs)[k];
      } else {
        assert entries[k] == entries[|dirs|..][k - |dirs|];
        assert FileEntryOk(entries[|dirs|..][k - |dirs|], sorted[k - |dirs|], items, fs, sha1);
      }
    }
  }

  /** An index listing the first values of entries with rooted paths and
      item indices below `n` pairs each rooted path with one item below `n`. */
  lemma IndexedFits(nodes: seq<Node>, entries: seq<Entry>, n: nat)
    requires Indexes(nodes, FirstValues(entries)) && RootedDsts(entries) && n <= 0x1_0000
    requires forall k | 0 <= k < |entries| :: entries[k].itemIndex < n
    ensures Trie.Ordered(nodes) && Rooted(WorkItems(nodes)) && OneItemPerPath(WorkItems(nodes))
    ensures IdsBelow(WorkItems(nodes), n)
  {
    FirstValuesFrom(entries, n);
    WorkItemsListed(nodes, FirstValues(entries));
  }

  /** The sorted pairs of an index are pairs of the map it lists. */
  lemma WorkItemsListed(nodes: seq<Node>, m: map<string, u16>)
    requires Indexes(nodes, m)
    ensures forall i | 0 <= i < |WorkItems(nodes)| :: WorkItems(nodes)[i].0 in m && WorkItems(nodes)[i].1 == m[WorkItems(nodes)[i].0]
  {
    var work := WorkItems(nodes);
    forall i | 0 <= i < |work|
      ensures work[i] in Trie.Iter(nodes)
    {
      assert work[i] in multiset(work);
    }
  }

  /** Round trip from `pack`'s own result: the archive a successful `pack`
      writes unpacks, reading at offsets, to every path of its index. */
  lemma PackedUnpacksAt(t: Tables, nodes: seq<Node>, fs: FileSystem, sha1: Sha1, fileName: string -> Option<string>,
                        files: seq<PackItem>, dirs: seq<string>, compress: Compress, lzf: Decompress)
    requires HeaderOf(fs, sha1, fileName, files, dirs) == Ok((t, nodes))
    requires BuiltFrom(t, fs, sha1, fileName, files, dirs) && Indexes(nodes, FirstValues(t.entries))
    requires RootedDsts(t.entries) && SumLength(t.items) < U32Modulus && |t.items| <= 0x1_0000
    requires Inverts(compress, lzf)
    ensures IndexFits(nodes, t.items)
    ensures var u := UnpackAtOf(Archive(nodes, t.items, |dirs|, |files|, fs, compress), lzf);
      u.1 == Ok(()) && Extracted(u.0, WorkItems(nodes), t.items, fs)
  {
    BuiltFits(t, nodes, fs, sha1, fileName, files, dirs);
    PackUnpackAt(nodes, t.items, |dirs|, |files|, fs, compress, lzf);
  }

  // ------------------------------------------- the skipped item, unpacked

  /** The item table of the counterexample fits the archive's fields. */
  lemma SkipPackable()
    ensures Packable(SkipItems)
  {
    var it := SkipItems;
    var i1, i2, i3 := it[..1], it[..2], it[..3];
    assert i1[..0] == [] && i2[..1] == i1 && i3[..2] == i2 && it[..3] == i3;
    assert SumLength(i1) == 0 && SumLength(i2) == 1 && SumLength(i3) == 2;
    assert SumLength(it) == 3;
  }

  /** The stored items keep the lengths, all below 2^32. */
  lemma SkipStoredLengths()
    ensures |StoredItems(SkipItems)| == |SkipItems|
    ensures forall i | 0 <= i < |SkipItems| :: StoredItems(SkipItems)[i].length == SkipItems[i].length
  {
    forall i | 0 <= i < |SkipItems|
      ensures StoredItems(SkipItems)[i].length == SkipItems[i].length
    {
      assert SkipItems[i].length <= 1;
    }
  }

  /** The archive of the counterexample parses, and the loop starts on the
      bytes of all items one after another. */
  lemma SkipArchiveStart(nodes: seq<Node>, compress: Compress, lzf: Decompress)
    requires Inverts(compress, lzf) && |nodes| < U32Modulus
    ensures var archive := Archive(nodes, SkipItems, |SkipDirs|, |SkipFiles|, SkipFs, compress);
      && ParseHeader(archive).Ok?
      && ParseHeader(archive).value.0.nodes == nodes
      && ParseHeader(archive).value.0.items == StoredItems(SkipItems)
      && Start(archive, ParseHeader(archive).value.1, ParseHeader(archive).value.0.chunks, lzf)
         == Run([], None, Decoded(Stream(SkipItems, SkipFs), None), None)
  {
    SkipPackable();
    ArchiveParses(nodes, SkipItems, |SkipDirs|, |SkipFiles|, SkipFs, compress);
    ArchiveDecodes(nodes, SkipItems, |SkipDirs|, |SkipFiles|, SkipFs, compress, lzf);
  }

  /** The counterexample from end to end: for the header `pack` builds for
      the three files (which it does build, `ExtractFacts.SkipPackSucceeds`)
      and the archive it then writes, `unpack` as written gives `y` the
      byte 66 of `b/x` instead of its own 67. */
  lemma SkippedItemUnpacked(nodes: seq<Node>, compress: Compress, lzf: Decompress)
    requires Inverts(compress, lzf)
    requires HeaderOf(SkipFs, SkipSha1, SkipFileName, SkipFiles, SkipDirs) == Ok((Tables(SkipEntries, SkipItems, 3), nodes))
    requires Indexes(nodes, FirstValues(SkipEntries))
    ensures var u := UnpackOf(Archive(nodes, SkipItems, |SkipDirs|, |SkipFiles|, SkipFs, compress), lzf);
      && u.0 == [CreateDirAll(""), WriteFile("x", [65]), WriteFile("y", [66])]
      && u.1 == Ok(())
      && Content(SkipItems[3], SkipFs) == [67]
  {
    HeaderIndexFits(SkipFs, SkipSha1, SkipFileName, SkipFiles, SkipDirs);
    SkipArchiveStart(nodes, compress, lzf);
    SkipWorkOf(nodes);
    var archive := Archive(nodes, SkipItems, |SkipDirs|, |SkipFiles|, SkipFs, compress);
    var h := ParseHeader(archive).value;
    var start := Start(archive, h.1, h.0.chunks, lzf);
    SkipStoredLengths();
    ExtractLengths(SkipWork, StoredItems(SkipItems), SkipItems, start);
    SkippedItemShiftsLaterFiles();
  }
}

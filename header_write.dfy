/** `write_header_data` and `update_header_data` of
    kwui-cli/src/packager.rs: the header is written once with a reserved
    chunk table of placeholder records, and after the payload is known the
    real chunk table is written over the reserved one. */
module HeaderWrite {
  import opened Wrappers
  import opened Format
  import opened Codec
  import opened Files
  import opened Items
  import opened Trie
  import Lookup
  import Utf16

  /** `SOLID_CHUNK_SIZE`: 256 MiB. */
  const SolidChunkSize: nat := 0x1000_0000

  /** What `write_header_data` hands back to `pack`: the totals the payload
      must reach, the item table, and where each part of the header lies. */
  datatype HeaderData = HeaderData(
    totalSize: nat,
    totalChunks: nat,
    items: seq<Item>,
    nodesOffset: nat,
    itemsOffset: nat,
    chunksOffset: nat,
    dataOffset: nat)

  /** The record the chunk table is reserved with. */
  const Placeholder: Chunk := Chunk(Store, 0, 0, 0)

  function Placeholders(n: nat): (r: seq<Chunk>)
    ensures |r| == n && forall i | 0 <= i < n :: r[i] == Placeholder
  {
    seq(n, _ => Placeholder)
  }

  /** The paths of the index and the value stored for each: the item index
      (as u16) of the first entry with that path; a later entry with the
      same path leaves the stored value alone. */
  function FirstValues(entries: seq<Entry>): map<string, u16> {
    if entries == [] then map[]
    else
      var m := FirstValues(entries[..|entries| - 1]);
      var e := entries[|entries| - 1];
      if e.dst in m then m else m[e.dst := e.itemIndex % 0x1_0000]
  }

  /** One entry more: a path met before keeps its value. */
  lemma FirstValuesStep(entries: seq<Entry>, i: nat)
    requires i < |entries|
    ensures var m, e := FirstValues(entries[..i]), entries[i];
      FirstValues(entries[..i + 1]) == if e.dst in m then m else m[e.dst := e.itemIndex % 0x1_0000]
  {
    assert entries[..i + 1][..i] == entries[..i];
  }

  /** The node vector the `tbl.insert` loop builds, entry by entry, or the
      error the model stops with: a path holding U+0000, or an insert whose
      new nodes would take the vector past the 16-bit link space.  A path
      stored before adds no node. */
  function IndexOf(entries: seq<Entry>): (r: Result<seq<Node>>)
    ensures r.Ok? ==> Ordered(r.value) && |r.value| <= NoChild as int
  {
    if entries == [] then Ok([])
    else
      match IndexOf(entries[..|entries| - 1])
      case Err(e) => Err(e)
      case Ok(nodes) =>
        var e := entries[|entries| - 1];
        if '\0' in e.dst then Err(InvalidSourceName(e.dst))
        else
          var key := Utf16.Encode(e.dst) + [0];
          if |nodes| + Added(nodes, key) > NoChild as int then Err(Abort("path index full"))
          else
            InsertNodesGrowth(nodes, key, e.itemIndex % 0x1_0000);
            Ok(InsertNodes(nodes, key, e.itemIndex % 0x1_0000).0)
  }

  lemma IndexOfStep(entries: seq<Entry>, i: nat)
    requires i < |entries|
    ensures IndexOf(entries[..i + 1]) ==
      match IndexOf(entries[..i])
      case Err(e) => Err(e)
      case Ok(nodes) =>
        var e := entries[i];
        if '\0' in e.dst then Err(InvalidSourceName(e.dst))
        else
          var key := Utf16.Encode(e.dst) + [0];
          if |nodes| + Added(nodes, key) > NoChild as int then Err(Abort("path index full"))
          else Ok(InsertNodes(nodes, key, e.itemIndex % 0x1_0000).0)
  {
    assert entries[..i + 1][..i] == entries[..i];
  }

  /** Once a prefix of the entries is refused, so are all the entries, with
      the same error. */
  lemma {:induction false} IndexOfStops(entries: seq<Entry>, k: nat)
    requires k <= |entries| && IndexOf(entries[..k]).Err?
    ensures IndexOf(entries) == IndexOf(entries[..k])
    decreases |entries| - k
  {
    if k < |entries| {
      IndexOfStep(entries, k);
      IndexOfStops(entries, k + 1);
    } else {
      assert entries[..k] == entries;
    }
  }

  /** The units all paths of the entries take in the index, terminators
      included: a bound on the nodes the index can need. */
  function KeyUnits(entries: seq<Entry>): nat {
    if entries == [] then 0
    else KeyUnits(entries[..|entries| - 1]) + |Utf16.Encode(entries[|entries| - 1].dst)| + 1
  }

  /** A path with U+0000 is refused, and reported with the path. */
  lemma {:induction false} IndexOfNul(entries: seq<Entry>)
    ensures IndexOf(entries).Ok? ==> forall i | 0 <= i < |entries| :: '\0' !in entries[i].dst
    ensures IndexOf(entries).Err? && IndexOf(entries).error.InvalidSourceName? ==>
      exists i | 0 <= i < |entries| :: entries[i].dst == IndexOf(entries).error.path && '\0' in entries[i].dst
  {
    if entries != [] {
      var init := entries[..|entries| - 1];
      IndexOfNul(init);
      assert forall i | 0 <= i < |init| :: init[i] == entries[i];
    }
  }

  /** The index is full only when the paths take more units than the
      16-bit links can address; it has at most one node per unit. */
  lemma {:induction false} IndexOfFull(entries: seq<Entry>)
    ensures IndexOf(entries).Ok? ==> |IndexOf(entries).value| <= KeyUnits(entries)
    ensures IndexOf(entries).Err? && !IndexOf(entries).error.InvalidSourceName? ==>
      IndexOf(entries).error == Abort("path index full") && KeyUnits(entries) > NoChild as int
  {
    if entries != [] {
      var init, e := entries[..|entries| - 1], entries[|entries| - 1];
      IndexOfFull(init);
      if IndexOf(init).Ok? && '\0' !in e.dst {
        var nodes, key := IndexOf(init).value, Utf16.Encode(e.dst) + [0];
        if |nodes| + Added(nodes, key) <= NoChild as int {
          InsertNodesGrowth(nodes, key, e.itemIndex % 0x1_0000);
        }
      }
    }
  }

  /** Paths without U+0000 that take no more units than the 16-bit links
      can address always give an index. */
  lemma IndexOfFits(entries: seq<Entry>)
    requires forall i | 0 <= i < |entries| :: '\0' !in entries[i].dst
    requires KeyUnits(entries) <= NoChild as int
    ensures IndexOf(entries).Ok?
  {
    IndexOfNul(entries);
    IndexOfFull(entries);
  }

  /** What `write_header_data` builds from its inputs after the preamble:
      the tables of `build_entry_and_item` and the index of their entries,
      or the first error met. */
  function HeaderOf(fs: FileSystem, sha1: Sha1, fileName: string -> Option<string>,
                    files: seq<PackItem>, dirs: seq<string>): Result<(Tables, seq<Node>)>
  {
    match TablesOf(fs, sha1, fileName, files, dirs)
    case Err(e) => Err(e)
    case Ok(t) =>
      match IndexOf(t.entries)
      case Err(e) => Err(e)
      case Ok(nodes) => Ok((t, nodes))
  }

  /** When `write_header_data` gets past its tables and its index: the
      tables build exactly when every source is readable; the header then
      builds exactly when the index of their entries does, which needs
      every path free of U+0000 and is certain once the paths' units also
      fit the 16-bit links. */
  lemma HeaderOfSucceeds(fs: FileSystem, sha1: Sha1, fileName: string -> Option<string>,
                         files: seq<PackItem>, dirs: seq<string>)
    ensures TablesOf(fs, sha1, fileName, files, dirs).Ok? <==> forall f | f in files :: f.src in fs
    ensures HeaderOf(fs, sha1, fileName, files, dirs).Ok? <==>
      TablesOf(fs, sha1, fileName, files, dirs).Ok? && IndexOf(TablesOf(fs, sha1, fileName, files, dirs).value.entries).Ok?
    ensures TablesOf(fs, sha1, fileName, files, dirs).Ok? ==>
      var es := TablesOf(fs, sha1, fileName, files, dirs).value.entries;
      && (HeaderOf(fs, sha1, fileName, files, dirs).Ok? ==> forall i | 0 <= i < |es| :: '\0' !in es[i].dst)
      && ((forall i | 0 <= i < |es| :: '\0' !in es[i].dst) && KeyUnits(es) <= NoChild as int ==>
            HeaderOf(fs, sha1, fileName, files, dirs).Ok?)
  {
    var sorted := SolidSorted(files, fileName);
    assert forall f :: f in sorted <==> f in files by {
      assert forall f :: f in sorted <==> f in multiset(sorted);
    }
    DedupOfFails(sorted, fs, sha1, |dirs|);
    if TablesOf(fs, sha1, fileName, files, dirs).Ok? {
      var es := TablesOf(fs, sha1, fileName, files, dirs).value.entries;
      IndexOfNul(es);
      IndexOfFull(es);
    }
  }

  /** A listing of a map: every pair once, and nothing else. */
  predicate Lists(items: seq<(string, u16)>, m: map<string, u16>) {
    && (forall i | 0 <= i < |items| :: items[i].0 in m && items[i].1 == m[items[i].0])
    && (forall s | s in m :: (s, m[s]) in items)
    && (forall a, b | 0 <= a < b < |items| :: items[a].0 != items[b].0)
  }

  /** A node vector whose walk lists exactly the map. */
  predicate Indexes(nodes: seq<Node>, m: map<string, u16>) {
    Ordered(nodes) && Lists(Trie.Iter(nodes), m)
  }

  /** Writes a table: its count as a u32, then each record.  The source
      writes a record field by field, which puts the same bytes in the file. */
  method WriteTable<T>(f: OutFile, xs: seq<T>, enc: T -> seq<u8>)
    modifies f
    ensures f.data == Overwrite(old(f.data), old(f.pos), Table(xs, enc))
    ensures f.pos == old(f.pos) + |Table(xs, enc)|
    ensures old(f.pos) == |old(f.data)| ==> f.data == old(f.data) + Table(xs, enc) && f.pos == |f.data|
  {
    ghost var d0, p0 := f.data, f.pos;
    f.Write(U32Le(|xs|));
    assert Written(xs, 0, enc) == U32Le(|xs|);
    for i := 0 to |xs|
      invariant f.data == Overwrite(d0, p0, Written(xs, i, enc))
      invariant f.pos == p0 + |Written(xs, i, enc)|
    {
      f.Write(enc(xs[i]));
      WrittenStep(d0, p0, xs, i, enc);
    }
    assert xs[..|xs|] == xs;
    if p0 == |d0| {
      OverwriteAppend(d0, Table(xs, enc));
    }
  }

  /** The count and the first `i` records of a table. */
  function Written<T>(xs: seq<T>, i: nat, enc: T -> seq<u8>): seq<u8>
    requires i <= |xs|
  {
    U32Le(|xs|) + Records(xs[..i], enc)
  }

  lemma WrittenStep<T>(d0: seq<u8>, p0: nat, xs: seq<T>, i: nat, enc: T -> seq<u8>)
    requires i < |xs|
    ensures Overwrite(Overwrite(d0, p0, Written(xs, i, enc)), p0 + |Written(xs, i, enc)|, enc(xs[i]))
            == Overwrite(d0, p0, Written(xs, i + 1, enc))
    ensures p0 + |Written(xs, i, enc)| + |enc(xs[i])| == p0 + |Written(xs, i + 1, enc)|
  {
    var w, r := Written(xs, i, enc), enc(xs[i]);
    assert Written(xs, i + 1, enc) == w + r by {
      assert xs[..i + 1] == xs[..i] + [xs[i]];
      RecordsSnoc(xs[..i], xs[i], enc);
    }
    OverwriteThen(d0, p0, w, r);
  }

  /** The fixed fields: magic, version, flags, chunk size, directory and
      file counts, appended in that order. */
  method WritePreamble(f: OutFile, flags: u16, chunkSize: nat, dirCount: nat, fileCount: nat)
    requires f.pos == |f.data|
    modifies f
    ensures f.data == old(f.data) + Preamble(flags, chunkSize, dirCount, fileCount) && f.pos == |f.data|
  {
    f.Write(FileMagic);
    f.Write(U16Le(FileVersion));
    f.Write(U16Le(flags));
    f.Write(U32Le(chunkSize));
    f.Write(U32Le(dirCount));
    f.Write(U32Le(fileCount));
  }

  /** `write_header_data`: the preamble, then (once the tables are built
      and every path is in the index) the node table, the item table and a
      chunk table of `total_chunks` placeholders.  `total_size` is the sum
      of the item lengths; `total_chunks` is the number of file items, or in
      solid mode the number of 256 MiB chunks that cover `total_size`.
      Every part is appended where the file's write position stands. */
  method WriteHeaderData(f: OutFile, solid: bool, fs: FileSystem, sha1: Sha1, fileName: string -> Option<string>,
                         files: seq<PackItem>, dirs: seq<string>)
    returns (r: Result<HeaderData>, ghost t: Tables, ghost nodes: seq<Node>)
    requires f.pos == |f.data|
    modifies f
    ensures f.pos == |f.data|
    ensures r.Ok? <==> HeaderOf(fs, sha1, fileName, files, dirs).Ok?
    ensures r.Err? ==> r.error == HeaderOf(fs, sha1, fileName, files, dirs).error
    ensures r.Ok? ==> HeaderOf(fs, sha1, fileName, files, dirs).value == (t, nodes)
    ensures r.Err? ==> f.data == old(f.data) + Preamble(if solid then SolidFlag else 0,
                                                         if solid then SolidChunkSize else 0, |dirs|, |files|)
    ensures r.Err? ==> r.error.Io? || r.error.InvalidSourceName? || r.error.Abort?
    ensures (r.Err? && r.error.Io?) <==> exists p | p in files :: p.src !in fs
    ensures r.Ok? ==>
      var flags, chunkSize := if solid then SolidFlag else 0, if solid then SolidChunkSize else 0;
      var h := r.value;
      && BuiltFrom(t, fs, sha1, fileName, files, dirs)
      && Indexes(nodes, FirstValues(t.entries))
      && h.items == t.items
      && h.totalSize == SumLength(t.items)
      && h.totalChunks == (if solid then (h.totalSize + SolidChunkSize - 1) / SolidChunkSize else t.fileItemCount)
      && f.data == old(f.data) + HeaderBytes(flags, chunkSize, |dirs|, |files|, nodes, t.items, Placeholders(h.totalChunks))
      && h.nodesOffset == |old(f.data)| + 20
      && h.itemsOffset == h.nodesOffset + |Table(nodes, NodeBytes)|
      && h.chunksOffset == h.itemsOffset + |Table(t.items, ItemBytes)|
      && h.dataOffset == |f.data|
  {
    var flags: u16 := if solid then SolidFlag else 0;
    var chunkSize := if solid then SolidChunkSize else 0;
    WritePreamble(f, flags, chunkSize, |dirs|, |files|);
    ghost var front := f.data;

    var built := BuildHeader(fs, sha1, fileName, files, dirs);
    t, nodes := Tables([], [], 0), [];
    if built.Err? {
      return Err(built.error), t, nodes;
    }
    var (tables, index) := built.value;
    t, nodes := tables, index;
    var totalSize := SumLength(tables.items);
    var totalChunks := if solid then (totalSize + SolidChunkSize - 1) / SolidChunkSize else tables.fileItemCount;
    var nodesOffset, itemsOffset, chunksOffset := WriteTables(f, index, tables.items, Placeholders(totalChunks));
    ghost var pre := Preamble(flags, chunkSize, |dirs|, |files|);
    ghost var tn, ti, tc := Table(nodes, NodeBytes), Table(tables.items, ItemBytes), Table(Placeholders(totalChunks), ChunkBytes);
    Regroup(old(f.data), pre, tn, ti, tc);
    r := Ok(HeaderData(totalSize, totalChunks, tables.items, nodesOffset, itemsOffset, chunksOffset, f.pos));
  }

  /** The tables and the index `write_header_data` builds. */
  method BuildHeader(fs: FileSystem, sha1: Sha1, fileName: string -> Option<string>,
                     files: seq<PackItem>, dirs: seq<string>)
    returns (r: Result<(Tables, seq<Node>)>)
    ensures r == HeaderOf(fs, sha1, fileName, files, dirs)
    ensures r.Err? ==> r.error.Io? || r.error.InvalidSourceName? || r.error.Abort?
    ensures (r.Err? && r.error.Io?) <==> exists p | p in files :: p.src !in fs
    ensures r.Ok? ==>
      && BuiltFrom(r.value.0, fs, sha1, fileName, files, dirs)
      && Indexes(r.value.1, FirstValues(r.value.0.entries))
  {
    var built := BuildEntryAndItem(fs, sha1, fileName, files, dirs);
    if built.Err? {
      return Err(built.error);
    }
    var t := built.value;
    var index := BuildIndex(t.entries);
    if index.Err? {
      return Err(index.error);
    }
    return Ok((t, index.value));
  }

  /** The `tbl.insert` loop of `write_header_data`: every entry's path is
      stored with its item index; a path met again keeps its first value.
      Paths with U+0000 and inserts that would outgrow the 16-bit links are
      refused. */
  method BuildIndex(entries: seq<Entry>) returns (r: Result<seq<Node>>)
    ensures r == IndexOf(entries)
    ensures r.Ok? ==> Indexes(r.value, FirstValues(entries))
    ensures r.Err? ==> r.error.InvalidSourceName? || r.error.Abort?
  {
    var tbl := new Lookup.LookupTable();
    for i := 0 to |entries|
      invariant fresh(tbl) && tbl.Valid()
      invariant tbl.contents == FirstValues(entries[..i])
      invariant IndexOf(entries[..i]) == Ok(tbl.nodes)
    {
      var e := entries[i];
      IndexOfStep(entries, i);
      if '\0' in e.dst {
        IndexOfStops(entries, i + 1);
        return Err(InvalidSourceName(e.dst));
      }
      var key := Utf16.Encode(e.dst) + [0];
      if |tbl.nodes| + Added(tbl.nodes, key) > NoChild as int {
        IndexOfStops(entries, i + 1);
        return Err(Abort("path index full"));
      }
      var _ := tbl.Insert(e.dst, e.itemIndex % 0x1_0000);
      FirstValuesStep(entries, i);
    }
    assert entries[..|entries|] == entries;
    IndexOfTable(tbl);
    return Ok(tbl.nodes);
  }

  /** The three tables, appended one after the other; returns where each
      starts. */
  method WriteTables(f: OutFile, nodes: seq<Node>, items: seq<Item>, chunks: seq<Chunk>)
    returns (nodesOffset: nat, itemsOffset: nat, chunksOffset: nat)
    requires f.pos == |f.data|
    modifies f
    ensures f.data == old(f.data) + Table(nodes, NodeBytes) + Table(items, ItemBytes) + Table(chunks, ChunkBytes)
    ensures f.pos == |f.data|
    ensures nodesOffset == |old(f.data)|
    ensures itemsOffset == nodesOffset + |Table(nodes, NodeBytes)|
    ensures chunksOffset == itemsOffset + |Table(items, ItemBytes)|
  {
    nodesOffset := f.pos;
    WriteTable(f, nodes, NodeBytes);
    itemsOffset := f.pos;
    WriteTable(f, items, ItemBytes);
    chunksOffset := f.pos;
    WriteTable(f, chunks, ChunkBytes);
  }

  lemma Regroup(a: seq<u8>, b: seq<u8>, c: seq<u8>, d: seq<u8>, e: seq<u8>)
    ensures a + b + c + d + e == a + (b + c + d + e)
  {
  }

  /** A table built by inserts indexes its stored paths. */
  lemma IndexOfTable(tbl: Lookup.LookupTable)
    requires tbl.Valid()
    ensures Indexes(tbl.nodes, tbl.contents)
  {
    Lookup.IterContents(tbl.nodes, tbl.pre, tbl.par, tbl.units, tbl.termOf, tbl.contents, Trie.Iter(tbl.nodes));
  }

  /** `update_header_data`: the chunk table written at the offset reserved
      for it. */
  method UpdateHeaderData(f: OutFile, header: HeaderData, chunks: seq<Chunk>)
    modifies f
    ensures f.data == Overwrite(old(f.data), header.chunksOffset, Table(chunks, ChunkBytes))
    ensures f.pos == header.chunksOffset + |Table(chunks, ChunkBytes)|
  {
    f.Seek(header.chunksOffset);
    WriteTable(f, chunks, ChunkBytes);
  }

  /** A chunk table with as many records as the reserved one covers exactly
      the reserved span and nothing else. */
  lemma PatchChunkTable(front: seq<u8>, reserved: seq<Chunk>, chunks: seq<Chunk>, rest: seq<u8>)
    requires |reserved| == |chunks|
    ensures Overwrite(front + Table(reserved, ChunkBytes) + rest, |front|, Table(chunks, ChunkBytes))
            == front + Table(chunks, ChunkBytes) + rest
  {
    ChunkCodec();
    RecordsLength(reserved, ChunkBytes, 12);
    RecordsLength(chunks, ChunkBytes, 12);
    OverwriteSpan(front, Table(reserved, ChunkBytes), rest, Table(chunks, ChunkBytes));
  }
}

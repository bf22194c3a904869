/** The item table of kwui-cli/src/packager.rs: `build_entry_and_item`,
    `find_item`, `scan_file` and `solid_sort_key`.  Item 0 stands for all
    directories; every other item is one distinct file content, found by
    its (length, SHA-1 digest) pair.  Source files are a map from path to
    bytes and SHA-1 is a parameter. */
module Items {
  import opened Wrappers
  import opened Format
  import opened Text
  import opened Sorting

  /** `PackItem`: a source file and the path it gets inside the archive. */
  datatype PackItem = PackItem(src: string, dst: string)

  /** `Entry`: an archive path and the item that holds its bytes. */
  datatype Entry = Entry(src: string, dst: string, itemIndex: nat) {
    predicate IsDir() {
      itemIndex == 0
    }
  }

  /** The source files that can be read, by path. */
  type FileSystem = map<string, seq<u8>>

  /** SHA-1 (FIPS 180-4), an external library here. */
  type Sha1 = seq<u8> -> Digest

  /** `scan_file`: the file's length and digest, or the error of opening it. */
  function ScanFile(fs: FileSystem, sha1: Sha1, path: string): (r: Result<(nat, Digest)>)
    ensures r.Ok? <==> path in fs
    ensures r.Ok? ==> r.value == (|fs[path]|, sha1(fs[path]))
  {
    if path in fs then Ok((|fs[path]|, sha1(fs[path]))) else Err(Io(path))
  }

  predicate SameContent(item: Item, length: nat, digest: Digest) {
    item.length == length && item.digest == digest
  }

  /** `find_item`: the first item after the directory sentinel with the
      given length and digest. */
  function FindItem(items: seq<Item>, length: nat, digest: Digest): (r: Option<nat>)
    ensures r.Some? ==> 0 < r.value < |items| && SameContent(items[r.value], length, digest)
    ensures r.Some? ==> forall j | 0 < j < r.value :: !SameContent(items[j], length, digest)
    ensures r.None? ==> forall j | 0 < j < |items| :: !SameContent(items[j], length, digest)
  {
    FindFrom(items, length, digest, 1)
  }

  function FindFrom(items: seq<Item>, length: nat, digest: Digest, idx: nat): (r: Option<nat>)
    requires idx >= 1
    ensures r.Some? ==> idx <= r.value < |items| && SameContent(items[r.value], length, digest)
    ensures r.Some? ==> forall j | idx <= j < r.value :: !SameContent(items[j], length, digest)
    ensures r.None? ==> forall j | idx <= j < |items| :: !SameContent(items[j], length, digest)
    decreases |items| - idx
  {
    if idx >= |items| then None
    else if SameContent(items[idx], length, digest) then Some(idx)
    else FindFrom(items, length, digest, idx + 1)
  }

  /** The key of `solid_sort_key`: executables first, then by suffix, file
      name and lower-cased source path. */
  datatype SortKey = SortKey(prio: int, suffix: string, fileName: string, src: string)

  /** The suffixes that `solid_sort_key` puts first. */
  predicate Executable(suffix: string) {
    suffix == "exe" || suffix == "dll" || suffix == "ocx" || suffix == "sys"
  }

  /** `solid_sort_key`; `fileName` stands for `Path::file_name`. */
  function SolidSortKey(p: PackItem, fileName: string -> Option<string>): (k: SortKey)
    ensures k.src == Lower(p.src)
    ensures '.' in k.src ==> '.' !in k.suffix && EndsWith(k.src, "." + k.suffix)
    ensures '.' !in k.src ==> k.suffix == "zzz"
    ensures k.prio == -1 <==> '.' in k.src && Executable(k.suffix)
    ensures k.prio == 0 || k.prio == -1
  {
    var src := Lower(p.src);
    var name := match fileName(src) case Some(n) => n case None => "";
    match RFind(src, '.')
    case Some(idx) =>
      var suffix := src[idx + 1..];
      assert src[idx..] == "." + suffix;
      SortKey(if Executable(suffix) then -1 else 0, suffix, name, src)
    case None =>
      SortKey(0, "zzz", name, src)
  }

  predicate StrLt(a: string, b: string) {
    StrLe(a, b) && a != b
  }

  /** The derived order of the key tuple `(i32, String, String, String)`. */
  predicate KeyLe(a: SortKey, b: SortKey) {
    || a.prio < b.prio
    || (a.prio == b.prio && StrLt(a.suffix, b.suffix))
    || (a.prio == b.prio && a.suffix == b.suffix && StrLt(a.fileName, b.fileName))
    || (a.prio == b.prio && a.suffix == b.suffix && a.fileName == b.fileName && StrLe(a.src, b.src))
  }

  lemma StrLtTrans(a: string, b: string, c: string)
    ensures StrLt(a, b) && StrLe(b, c) ==> StrLt(a, c)
    ensures StrLe(a, b) && StrLt(b, c) ==> StrLt(a, c)
    ensures StrLe(a, b) && StrLe(b, c) ==> StrLe(a, c)
  {
    if StrLe(a, b) && StrLe(b, c) {
      StrLeTrans(a, b, c);
      if a == c {
        StrLeAntisym(a, b);
      }
    }
  }

  lemma KeyLeTotal(a: SortKey, b: SortKey)
    ensures KeyLe(a, b) || KeyLe(b, a)
  {
    StrLeTotal(a.suffix, b.suffix);
    StrLeTotal(a.fileName, b.fileName);
    StrLeTotal(a.src, b.src);
  }

  lemma KeyLeTrans(a: SortKey, b: SortKey, c: SortKey)
    requires KeyLe(a, b) && KeyLe(b, c)
    ensures KeyLe(a, c)
  {
    StrLtTrans(a.suffix, b.suffix, c.suffix);
    StrLtTrans(a.fileName, b.fileName, c.fileName);
    StrLtTrans(a.src, b.src, c.src);
  }

  /** The order `file_items.sort_by_key(solid_sort_key)` sorts by. */
  function SolidLe(fileName: string -> Option<string>): (PackItem, PackItem) -> bool {
    (p: PackItem, q: PackItem) => KeyLe(SolidSortKey(p, fileName), SolidSortKey(q, fileName))
  }

  lemma SolidLeTotalPreorder(fileName: string -> Option<string>)
    ensures TotalPreorder(SolidLe(fileName))
  {
    var le := SolidLe(fileName);
    forall a, b
      ensures le(a, b) || le(b, a)
    {
      KeyLeTotal(SolidSortKey(a, fileName), SolidSortKey(b, fileName));
    }
    forall a, b, c | le(a, b) && le(b, c)
      ensures le(a, c)
    {
      KeyLeTrans(SolidSortKey(a, fileName), SolidSortKey(b, fileName), SolidSortKey(c, fileName));
    }
  }

  /** The result of `build_entry_and_item`: entries, items and the number of
      unique file items. */
  datatype Tables = Tables(entries: seq<Entry>, items: seq<Item>, fileItemCount: nat)

  /** Item 0: stands for every directory; its reference count is the number
      of directories, truncated to u16 by `dir_items.len() as _`. */
  function DirSentinel(sha1: Sha1, dirCount: nat): Item {
    Item(sha1([]), "", dirCount % 0x1_0000, DirFlag, 0, 0)
  }

  /** Sum of the lengths of a run of items. */
  function SumLength(items: seq<Item>): nat {
    if items == [] then 0 else SumLength(items[..|items| - 1]) + items[|items| - 1].length
  }

  lemma SumLengthSnoc(items: seq<Item>, x: Item)
    ensures SumLength(items + [x]) == SumLength(items) + x.length
  {
    assert (items + [x])[..|items|] == items;
  }

  lemma {:induction false} SumLengthSame(a: seq<Item>, b: seq<Item>)
    requires |a| == |b| && forall i | 0 <= i < |a| :: a[i].length == b[i].length
    ensures SumLength(a) == SumLength(b)
  {
    if a != [] {
      SumLengthSame(a[..|a| - 1], b[..|b| - 1]);
    }
  }

  /** The directory entries: each directory maps to item 0. */
  function DirEntries(dirs: seq<string>): (r: seq<Entry>)
    ensures |r| == |dirs|
    ensures forall i | 0 <= i < |dirs| :: r[i] == Entry(dirs[i], dirs[i], 0)
  {
    seq(|dirs|, i requires 0 <= i < |dirs| => Entry(dirs[i], dirs[i], 0))
  }

  /** The item indices of a run of entries. */
  function Indices(entries: seq<Entry>): (r: seq<nat>)
    ensures |r| == |entries|
    ensures forall i | 0 <= i < |entries| :: r[i] == entries[i].itemIndex
  {
    seq(|entries|, i requires 0 <= i < |entries| => entries[i].itemIndex)
  }

  /** An item that holds the bytes of a readable source file. */
  predicate Backed(item: Item, fs: FileSystem, sha1: Sha1) {
    item.fname in fs && SameContent(item, |fs[item.fname]|, sha1(fs[item.fname]))
  }

  /** Every file item holds the bytes of a readable source file. */
  predicate AllBacked(items: seq<Item>, fs: FileSystem, sha1: Sha1) {
    forall j | 1 <= j < |items| :: Backed(items[j], fs, sha1) && items[j].flags == 0
  }

  /** Each file item starts where the items before it end. */
  predicate Contiguous(items: seq<Item>) {
    forall j | 1 <= j < |items| :: items[j].offset == SumLength(items[..j])
  }

  /** No two file items have the same length and digest. */
  predicate DistinctContents(items: seq<Item>) {
    forall a, b | 1 <= a < b < |items| :: !SameContent(items[a], items[b].length, items[b].digest)
  }

  /** The item table: the sentinel first, then distinct contents of source
      files, each placed right after the ones before it. */
  predicate ItemsOk(items: seq<Item>, fs: FileSystem, sha1: Sha1, dirCount: nat) {
    && |items| >= 1
    && items[0] == DirSentinel(sha1, dirCount)
    && AllBacked(items, fs, sha1)
    && Contiguous(items)
    && DistinctContents(items)
  }

  /** A file's entry: its paths, and a file item with the file's content. */
  predicate FileEntryOk(e: Entry, f: PackItem, items: seq<Item>, fs: FileSystem, sha1: Sha1) {
    && e.src == f.src && e.dst == f.dst
    && 0 < e.itemIndex < |items|
    && f.src in fs
    && SameContent(items[e.itemIndex], |fs[f.src]|, sha1(fs[f.src]))
  }

  predicate FileEntriesOk(entries: seq<Entry>, files: seq<PackItem>, items: seq<Item>, fs: FileSystem, sha1: Sha1)
    requires |entries| == |files|
  {
    forall k | 0 <= k < |files| :: FileEntryOk(entries[k], files[k], items, fs, sha1)
  }

  /** Each file item is used by at least one entry and counts its entries,
      with the u16 wrap-around of `reference += 1`. */
  predicate RefCounts(items: seq<Item>, fileIndices: seq<nat>) {
    forall j | 1 <= j < |items| :: j in fileIndices && items[j].reference == multiset(fileIndices)[j] % 0x1_0000
  }

  /** The files in the order `file_items.sort_by_key(solid_sort_key)`
      leaves them. */
  function SolidSorted(files: seq<PackItem>, fileName: string -> Option<string>): (r: seq<PackItem>)
    ensures multiset(r) == multiset(files) && Sorted(r, SolidLe(fileName))
  {
    SolidLeTotalPreorder(fileName);
    SortBy(files, SolidLe(fileName))
  }

  /** The tables of `build_entry_and_item` as a function of its inputs: the
      directory entries, then the dedup fold over the sorted files. */
  function TablesOf(fs: FileSystem, sha1: Sha1, fileName: string -> Option<string>,
                    files: seq<PackItem>, dirs: seq<string>): Result<Tables>
  {
    match DedupOf(SolidSorted(files, fileName), fs, sha1, |dirs|)
    case Err(e) => Err(e)
    case Ok(t) => Ok(t.(entries := DirEntries(dirs) + t.entries))
  }

  /** The tables `build_entry_and_item` makes: one entry per directory,
      then one per file in solid-sort order; files with equal length and
      digest share one item, which counts them. */
  ghost predicate BuiltFrom(t: Tables, fs: FileSystem, sha1: Sha1, fileName: string -> Option<string>,
                            files: seq<PackItem>, dirs: seq<string>)
  {
    var sorted := SolidSorted(files, fileName);
    && TablesOf(fs, sha1, fileName, files, dirs) == Ok(t)
    && ItemsOk(t.items, fs, sha1, |dirs|)
    && t.fileItemCount == |t.items| - 1
    && |t.entries| == |dirs| + |files|
    && t.entries[..|dirs|] == DirEntries(dirs)
    && FileEntriesOk(t.entries[|dirs|..], sorted, t.items, fs, sha1)
    && RefCounts(t.items, Indices(t.entries[|dirs|..]))
    && NamedByFirstUse(t.items, t.entries[|dirs|..], sorted)
  }

  /** `build_entry_and_item`: fails exactly when a source file cannot be
      read, and otherwise builds the tables above. */
  method BuildEntryAndItem(fs: FileSystem, sha1: Sha1, fileName: string -> Option<string>,
                           files: seq<PackItem>, dirs: seq<string>)
    returns (r: Result<Tables>)
    ensures r == TablesOf(fs, sha1, fileName, files, dirs)
    ensures r.Ok? <==> forall f | f in files :: f.src in fs
    ensures r.Err? ==> r.error.Io? && r.error.what !in fs
    ensures r.Ok? ==> BuiltFrom(r.value, fs, sha1, fileName, files, dirs)
  {
    var entries := [];
    for i := 0 to |dirs|
      invariant entries == DirEntries(dirs[..i])
    {
      entries := entries + [Entry(dirs[i], dirs[i], 0)];
    }
    assert dirs[..|dirs|] == dirs;

    var sorted := SolidSorted(files, fileName);
    assert forall f :: f in sorted <==> f in files by {
      assert forall f :: f in sorted <==> f in multiset(sorted);
    }
    var files' := DedupFiles(fs, sha1, sorted, |dirs|);
    if files'.Err? {
      return Err(files'.error);
    }
    var t := files'.value;
    DedupOfTables(sorted, fs, sha1, |dirs|);
    assert (entries + t.entries)[..|dirs|] == entries;
    assert (entries + t.entries)[|dirs|..] == t.entries;
    return Ok(t.(entries := entries + t.entries));
  }

  /** One turn of the dedup loop for a readable file with the given length
      and digest: the entry points at the first item with that content,
      whose count goes up, or at a new item named after the file and placed
      right after the items before it. */
  function AddFileTo(t: Tables, f: PackItem, length: nat, digest: Digest): Tables {
    match FindItem(t.items, length, digest)
    case Some(idx) =>
      Tables(t.entries + [Entry(f.src, f.dst, idx)],
             t.items[idx := t.items[idx].(reference := (t.items[idx].reference + 1) % 0x1_0000)],
             t.fileItemCount)
    case None =>
      Tables(t.entries + [Entry(f.src, f.dst, |t.items|)],
             t.items + [Item(digest, f.src, 1, 0, SumLength(t.items), length)],
             t.fileItemCount + 1)
  }

  /** The dedup loop as a fold over the sorted files, from the table that
      holds only the directory sentinel; the first unreadable file stops it. */
  function DedupOf(sorted: seq<PackItem>, fs: FileSystem, sha1: Sha1, dirCount: nat): Result<Tables> {
    if sorted == [] then Ok(Tables([], [DirSentinel(sha1, dirCount)], 0))
    else
      match DedupOf(sorted[..|sorted| - 1], fs, sha1, dirCount)
      case Err(e) => Err(e)
      case Ok(t) =>
        var f := sorted[|sorted| - 1];
        match ScanFile(fs, sha1, f.src)
        case Err(e) => Err(e)
        case Ok(scan) => Ok(AddFileTo(t, f, scan.0, scan.1))
  }

  lemma DedupOfStep(sorted: seq<PackItem>, fs: FileSystem, sha1: Sha1, dirCount: nat, i: nat)
    requires i < |sorted|
    ensures DedupOf(sorted[..i + 1], fs, sha1, dirCount) ==
      match DedupOf(sorted[..i], fs, sha1, dirCount)
      case Err(e) => Err(e)
      case Ok(t) =>
        match ScanFile(fs, sha1, sorted[i].src)
        case Err(e) => Err(e)
        case Ok(scan) => Ok(AddFileTo(t, sorted[i], scan.0, scan.1))
  {
    assert sorted[..i + 1][..i] == sorted[..i];
  }

  /** A readable file whose content no item holds yet appends a new item
      at the running offset, and an entry pointing at it. */
  lemma DedupOfAppends(sorted: seq<PackItem>, fs: FileSystem, sha1: Sha1, dirCount: nat, k: nat, t: Tables)
    requires k < |sorted| && DedupOf(sorted[..k], fs, sha1, dirCount) == Ok(t) && sorted[k].src in fs
    requires forall j | 0 < j < |t.items| :: !SameContent(t.items[j], |fs[sorted[k].src]|, sha1(fs[sorted[k].src]))
    ensures var f := sorted[k];
      DedupOf(sorted[..k + 1], fs, sha1, dirCount) ==
        Ok(Tables(t.entries + [Entry(f.src, f.dst, |t.items|)],
                  t.items + [Item(sha1(fs[f.src]), f.src, 1, 0, SumLength(t.items), |fs[f.src]|)],
                  t.fileItemCount + 1))
  {
    DedupOfStep(sorted, fs, sha1, dirCount, k);
    assert FindItem(t.items, |fs[sorted[k].src]|, sha1(fs[sorted[k].src])) == None;
  }

  /** Once the fold stops on a prefix, it stops with the same error. */
  lemma {:induction false} DedupOfStops(sorted: seq<PackItem>, fs: FileSystem, sha1: Sha1, dirCount: nat, k: nat)
    requires k <= |sorted| && DedupOf(sorted[..k], fs, sha1, dirCount).Err?
    ensures DedupOf(sorted, fs, sha1, dirCount) == DedupOf(sorted[..k], fs, sha1, dirCount)
    decreases |sorted| - k
  {
    if k < |sorted| {
      DedupOfStep(sorted, fs, sha1, dirCount, k);
      DedupOfStops(sorted, fs, sha1, dirCount, k + 1);
    } else {
      assert sorted[..k] == sorted;
    }
  }

  /** The fold fails exactly when a file cannot be read, and then with the
      error of opening the first such file in sorted order. */
  lemma {:induction false} DedupOfFails(sorted: seq<PackItem>, fs: FileSystem, sha1: Sha1, dirCount: nat)
    ensures DedupOf(sorted, fs, sha1, dirCount).Ok? <==> forall k | 0 <= k < |sorted| :: sorted[k].src in fs
    ensures DedupOf(sorted, fs, sha1, dirCount).Err? ==>
      exists k | 0 <= k < |sorted| ::
        && sorted[k].src !in fs
        && (forall j | 0 <= j < k :: sorted[j].src in fs)
        && DedupOf(sorted, fs, sha1, dirCount).error == Io(sorted[k].src)
  {
    if sorted != [] {
      var init, f := sorted[..|sorted| - 1], sorted[|sorted| - 1];
      DedupOfFails(init, fs, sha1, dirCount);
      assert forall k | 0 <= k < |init| :: init[k] == sorted[k];
      var d := DedupOf(init, fs, sha1, dirCount);
      if d.Err? {
        var k :| 0 <= k < |init| && init[k].src !in fs && (forall j | 0 <= j < k :: init[j].src in fs) && d.error == Io(init[k].src);
        assert DedupOf(sorted, fs, sha1, dirCount) == d;
        assert sorted[k] == init[k];
      } else if f.src !in fs {
        assert DedupOf(sorted, fs, sha1, dirCount) == Err(Io(f.src));
        assert sorted[|init|] == f;
      } else {
        assert DedupOf(sorted, fs, sha1, dirCount).Ok?;
      }
    }
  }

  /** The `k`-th file is the first to use item `j`, which is named after
      it, and every file before it uses an earlier item. */
  predicate FirstUse(items: seq<Item>, entries: seq<Entry>, files: seq<PackItem>, j: nat, k: nat)
    requires |entries| == |files| && j < |items|
  {
    && k < |entries|
    && entries[k].itemIndex == j
    && items[j].fname == files[k].src
    && (forall k' | 0 <= k' < k :: entries[k'].itemIndex < j)
  }

  /** Each file item is named after the first file that uses it, and the
      items come in the order their first files do. */
  predicate NamedByFirstUse(items: seq<Item>, entries: seq<Entry>, files: seq<PackItem>)
    requires |entries| == |files|
  {
    forall j | 1 <= j < |items| :: HasFirstUse(items, entries, files, j)
  }

  predicate HasFirstUse(items: seq<Item>, entries: seq<Entry>, files: seq<PackItem>, j: nat)
    requires |entries| == |files| && j < |items|
  {
    exists k | 0 <= k < |entries| :: FirstUse(items, entries, files, j, k)
  }

  /** A table of file entries for the files: a well-formed item table, one
      entry per file pointing at an item with the file's content, exact
      reference counts, and items named and ordered by first use. */
  predicate FileTablesOk(t: Tables, files: seq<PackItem>, fs: FileSystem, sha1: Sha1, dirCount: nat) {
    && ItemsOk(t.items, fs, sha1, dirCount)
    && t.fileItemCount == |t.items| - 1
    && |t.entries| == |files|
    && FileEntriesOk(t.entries, files, t.items, fs, sha1)
    && RefCounts(t.items, Indices(t.entries))
    && NamedByFirstUse(t.items, t.entries, files)
  }

  /** The tables the fold builds are well formed for the sorted files. */
  lemma {:induction false} DedupOfTables(sorted: seq<PackItem>, fs: FileSystem, sha1: Sha1, dirCount: nat)
    ensures DedupOf(sorted, fs, sha1, dirCount).Ok? ==> FileTablesOk(DedupOf(sorted, fs, sha1, dirCount).value, sorted, fs, sha1, dirCount)
  {
    if sorted != [] {
      var init, f := sorted[..|sorted| - 1], sorted[|sorted| - 1];
      assert sorted == init + [f];
      DedupOfTables(init, fs, sha1, dirCount);
      if DedupOf(init, fs, sha1, dirCount).Ok? && f.src in fs {
        AddFileToOk(DedupOf(init, fs, sha1, dirCount).value, init, f, fs, sha1, dirCount);
      }
    }
  }

  /** One turn of the fold keeps the tables well formed. */
  lemma AddFileToOk(t: Tables, files: seq<PackItem>, f: PackItem, fs: FileSystem, sha1: Sha1, dirCount: nat)
    requires FileTablesOk(t, files, fs, sha1, dirCount) && f.src in fs
    ensures FileTablesOk(AddFileTo(t, f, |fs[f.src]|, sha1(fs[f.src])), files + [f], fs, sha1, dirCount)
  {
    var length, digest := |fs[f.src]|, sha1(fs[f.src]);
    match FindItem(t.items, length, digest)
    case Some(idx) =>
      ReuseOk(t, files, f, fs, sha1, dirCount, idx);
    case None =>
      AppendOk(t, files, f, fs, sha1, dirCount);
  }

  lemma ReuseOk(t: Tables, files: seq<PackItem>, f: PackItem, fs: FileSystem, sha1: Sha1, dirCount: nat, idx: nat)
    requires FileTablesOk(t, files, fs, sha1, dirCount) && f.src in fs
    requires FindItem(t.items, |fs[f.src]|, sha1(fs[f.src])) == Some(idx)
    ensures FileTablesOk(AddFileTo(t, f, |fs[f.src]|, sha1(fs[f.src])), files + [f], fs, sha1, dirCount)
  {
    var items' := t.items[idx := t.items[idx].(reference := (t.items[idx].reference + 1) % 0x1_0000)];
    var t' := Tables(t.entries + [Entry(f.src, f.dst, idx)], items', t.fileItemCount);
    AddFileToFound(t, f, |fs[f.src]|, sha1(fs[f.src]), idx);
    NamedAfterReuse(t.items, items', t.entries, files, Entry(f.src, f.dst, idx), f, idx);
    ReuseStep(t.items, items', t.entries, files, Entry(f.src, f.dst, idx), f, fs, sha1, dirCount, idx);
    FileTablesOkIntro(t', files + [f], fs, sha1, dirCount);
  }

  /** The six parts of `FileTablesOk`, assembled. */
  lemma FileTablesOkIntro(t: Tables, files: seq<PackItem>, fs: FileSystem, sha1: Sha1, dirCount: nat)
    requires ItemsOk(t.items, fs, sha1, dirCount) && t.fileItemCount == |t.items| - 1 && |t.entries| == |files|
    requires FileEntriesOk(t.entries, files, t.items, fs, sha1) && RefCounts(t.items, Indices(t.entries))
    requires NamedByFirstUse(t.items, t.entries, files)
    ensures FileTablesOk(t, files, fs, sha1, dirCount)
  {
  }

  /** Adding a file whose content an item already holds shares that item. */
  lemma AddFileToFound(t: Tables, f: PackItem, length: nat, digest: Digest, idx: nat)
    requires FindItem(t.items, length, digest) == Some(idx)
    ensures AddFileTo(t, f, length, digest) ==
      Tables(t.entries + [Entry(f.src, f.dst, idx)],
             t.items[idx := t.items[idx].(reference := (t.items[idx].reference + 1) % 0x1_0000)],
             t.fileItemCount)
  {
  }

  lemma AppendOk(t: Tables, files: seq<PackItem>, f: PackItem, fs: FileSystem, sha1: Sha1, dirCount: nat)
    requires FileTablesOk(t, files, fs, sha1, dirCount) && f.src in fs
    requires FindItem(t.items, |fs[f.src]|, sha1(fs[f.src])) == None
    ensures FileTablesOk(AddFileTo(t, f, |fs[f.src]|, sha1(fs[f.src])), files + [f], fs, sha1, dirCount)
  {
    var item := Item(sha1(fs[f.src]), f.src, 1, 0, SumLength(t.items), |fs[f.src]|);
    assert AddFileTo(t, f, |fs[f.src]|, sha1(fs[f.src])) ==
      Tables(t.entries + [Entry(f.src, f.dst, |t.items|)], t.items + [item], t.fileItemCount + 1);
    AppendTables(t, files, f, fs, sha1, dirCount);
  }

  lemma AppendTables(t: Tables, files: seq<PackItem>, f: PackItem, fs: FileSystem, sha1: Sha1, dirCount: nat)
    requires FileTablesOk(t, files, fs, sha1, dirCount) && f.src in fs
    requires forall j | 0 < j < |t.items| :: !SameContent(t.items[j], |fs[f.src]|, sha1(fs[f.src]))
    ensures var item := Item(sha1(fs[f.src]), f.src, 1, 0, SumLength(t.items), |fs[f.src]|);
      FileTablesOk(Tables(t.entries + [Entry(f.src, f.dst, |t.items|)], t.items + [item], t.fileItemCount + 1),
                   files + [f], fs, sha1, dirCount)
  {
    var item := Item(sha1(fs[f.src]), f.src, 1, 0, SumLength(t.items), |fs[f.src]|);
    var e := Entry(f.src, f.dst, |t.items|);
    AppendStep(t.items, item, t.entries, files, e, f, fs, sha1, dirCount);
    NamedAfterAppend(t.items, item, t.entries, files, e, f, fs, sha1);
  }

  lemma NamedAfterReuse(items: seq<Item>, items': seq<Item>, entries: seq<Entry>, files: seq<PackItem>,
                        e: Entry, f: PackItem, idx: nat)
    requires |entries| == |files| && NamedByFirstUse(items, entries, files)
    requires 0 < idx < |items| && e.itemIndex == idx
    requires items' == items[idx := items[idx].(reference := (items[idx].reference + 1) % 0x1_0000)]
    ensures NamedByFirstUse(items', entries + [e], files + [f])
  {
    var entries', files' := entries + [e], files + [f];
    forall j | 1 <= j < |items'|
      ensures HasFirstUse(items', entries', files', j)
    {
      assert HasFirstUse(items, entries, files, j);
      var k :| 0 <= k < |entries| && FirstUse(items, entries, files, j, k);
      assert FirstUse(items', entries', files', j, k) by {
        assert entries'[k] == entries[k] && files'[k] == files[k];
        assert forall k' | 0 <= k' < k :: entries'[k'] == entries[k'];
      }
    }
  }

  lemma NamedAfterAppend(items: seq<Item>, item: Item, entries: seq<Entry>, files: seq<PackItem>,
                         e: Entry, f: PackItem, fs: FileSystem, sha1: Sha1)
    requires |entries| == |files| && NamedByFirstUse(items, entries, files)
    requires FileEntriesOk(entries, files, items, fs, sha1)
    requires item.fname == f.src && e.itemIndex == |items|
    ensures NamedByFirstUse(items + [item], entries + [e], files + [f])
  {
    var items', entries', files' := items + [item], entries + [e], files + [f];
    forall j | 1 <= j < |items'|
      ensures HasFirstUse(items', entries', files', j)
    {
      if j < |items| {
        assert HasFirstUse(items, entries, files, j);
      var k :| 0 <= k < |entries| && FirstUse(items, entries, files, j, k);
        assert FirstUse(items', entries', files', j, k) by {
          assert entries'[k] == entries[k] && files'[k] == files[k] && items'[j] == items[j];
          assert forall k' | 0 <= k' < k :: entries'[k'] == entries[k'];
        }
      } else {
        forall k' | 0 <= k' < |entries|
          ensures entries'[k'].itemIndex < j
        {
          assert FileEntryOk(entries[k'], files[k'], items, fs, sha1);
        }
        assert FirstUse(items', entries', files', j, |entries|);
      }
    }
  }

  /** The dedup loop of `build_entry_and_item` over the sorted files: the
      item table, starting from the directory sentinel, and the files' entries. */
  method DedupFiles(fs: FileSystem, sha1: Sha1, sorted: seq<PackItem>, dirCount: nat)
    returns (r: Result<Tables>)
    ensures r == DedupOf(sorted, fs, sha1, dirCount)
    ensures r.Ok? <==> forall k | 0 <= k < |sorted| :: sorted[k].src in fs
    ensures r.Err? ==> r.error.Io? && r.error.what !in fs
    ensures r.Ok? ==>
      var t := r.value;
      && ItemsOk(t.items, fs, sha1, dirCount)
      && t.fileItemCount == |t.items| - 1
      && |t.entries| == |sorted|
      && FileEntriesOk(t.entries, sorted, t.items, fs, sha1)
      && RefCounts(t.items, Indices(t.entries))
      && NamedByFirstUse(t.items, t.entries, sorted)
  {
    var items := [DirSentinel(sha1, dirCount)];
    var fileEntries: seq<Entry> := [];
    var totalFileItems := 0;
    var offset := 0;
    for i := 0 to |sorted|
      invariant offset == SumLength(items)
      invariant DedupOf(sorted[..i], fs, sha1, dirCount) == Ok(Tables(fileEntries, items, totalFileItems))
    {
      var f := sorted[i];
      assert sorted[..i + 1] == sorted[..i] + [f];
      DedupOfStep(sorted, fs, sha1, dirCount, i);
      var scan := ScanFile(fs, sha1, f.src);
      if scan.Err? {
        DedupOfStops(sorted, fs, sha1, dirCount, i + 1);
        DedupOfFails(sorted, fs, sha1, dirCount);
        return Err(scan.error);
      }
      var (length, digest) := scan.value;
      items, fileEntries, offset, totalFileItems :=
        AddFile(f, length, digest, items, fileEntries, offset, totalFileItems);
    }
    assert sorted[..|sorted|] == sorted;
    DedupOfFails(sorted, fs, sha1, dirCount);
    DedupOfTables(sorted, fs, sha1, dirCount);
    return Ok(Tables(fileEntries, items, totalFileItems));
  }

  /** One turn of the loop for a readable file: reuse the item with the
      same length and digest, or append a new one at the running offset. */
  method AddFile(f: PackItem, length: nat, digest: Digest,
                 items: seq<Item>, fileEntries: seq<Entry>, offset: nat, totalFileItems: nat)
    returns (items': seq<Item>, fileEntries': seq<Entry>, offset': nat, totalFileItems': nat)
    requires offset == SumLength(items)
    ensures Tables(fileEntries', items', totalFileItems') == AddFileTo(Tables(fileEntries, items, totalFileItems), f, length, digest)
    ensures offset' == SumLength(items')
  {
    var found := FindItem(items, length, digest);
    if found.Some? {
      var idx := found.value;
      items' := items[idx := items[idx].(reference := (items[idx].reference + 1) % 0x1_0000)];
      fileEntries' := fileEntries + [Entry(f.src, f.dst, idx)];
      offset', totalFileItems' := offset, totalFileItems;
      SumLengthSame(items, items');
    } else {
      var item := Item(digest, f.src, 1, 0, offset, length);
      items' := items + [item];
      fileEntries' := fileEntries + [Entry(f.src, f.dst, |items|)];
      offset', totalFileItems' := offset + length, totalFileItems + 1;
      SumLengthSnoc(items, item);
    }
  }

  /** The loop step for a file whose content is already an item. */
  lemma ReuseStep(items: seq<Item>, items': seq<Item>, entries: seq<Entry>, files: seq<PackItem>,
                  e: Entry, f: PackItem, fs: FileSystem, sha1: Sha1, dirCount: nat, idx: nat)
    requires ItemsOk(items, fs, sha1, dirCount)
    requires |entries| == |files| && FileEntriesOk(entries, files, items, fs, sha1)
    requires RefCounts(items, Indices(entries))
    requires 0 < idx < |items| && f.src in fs
    requires SameContent(items[idx], |fs[f.src]|, sha1(fs[f.src]))
    requires e == Entry(f.src, f.dst, idx)
    requires items' == items[idx := items[idx].(reference := (items[idx].reference + 1) % 0x1_0000)]
    ensures ItemsOk(items', fs, sha1, dirCount) && SumLength(items') == SumLength(items)
    ensures FileEntriesOk(entries + [e], files + [f], items', fs, sha1)
    ensures RefCounts(items', Indices(entries + [e]))
  {
    AddReference(items, items', idx, fs, sha1, dirCount);
    assert SameContent(items'[idx], |fs[f.src]|, sha1(fs[f.src]));
    FileEntriesSnoc(entries, files, items, items', e, f, fs, sha1);
    RefCountsBump(items, items', Indices(entries), idx);
    IndicesSnoc(entries, e);
  }

  /** The loop step for a file with a new content. */
  lemma AppendStep(items: seq<Item>, item: Item, entries: seq<Entry>, files: seq<PackItem>,
                   e: Entry, f: PackItem, fs: FileSystem, sha1: Sha1, dirCount: nat)
    requires ItemsOk(items, fs, sha1, dirCount)
    requires |entries| == |files| && FileEntriesOk(entries, files, items, fs, sha1)
    requires RefCounts(items, Indices(entries))
    requires f.src in fs && item == Item(sha1(fs[f.src]), f.src, 1, 0, SumLength(items), |fs[f.src]|)
    requires forall j | 0 < j < |items| :: !SameContent(items[j], item.length, item.digest)
    requires e == Entry(f.src, f.dst, |items|)
    ensures ItemsOk(items + [item], fs, sha1, dirCount)
    ensures SumLength(items + [item]) == SumLength(items) + item.length
    ensures FileEntriesOk(entries + [e], files + [f], items + [item], fs, sha1)
    ensures RefCounts(items + [item], Indices(entries + [e]))
  {
    AddItem(items, item, fs, sha1, dirCount);
    SumLengthSnoc(items, item);
    FileEntriesSnoc(entries, files, items, items + [item], e, f, fs, sha1);
    RefCountsNew(items, item, Indices(entries), e.itemIndex);
    IndicesSnoc(entries, e);
  }

  lemma IndicesSnoc(entries: seq<Entry>, e: Entry)
    ensures Indices(entries + [e]) == Indices(entries) + [e.itemIndex]
  {
  }

  /** Bumping a reference changes no content, name or offset. */
  lemma AddReference(items: seq<Item>, items': seq<Item>, idx: nat,
                     fs: FileSystem, sha1: Sha1, dirCount: nat)
    requires ItemsOk(items, fs, sha1, dirCount) && 0 < idx < |items|
    requires items' == items[idx := items[idx].(reference := (items[idx].reference + 1) % 0x1_0000)]
    ensures ItemsOk(items', fs, sha1, dirCount)
    ensures SumLength(items') == SumLength(items)
    ensures |items'| == |items| && forall j | 0 <= j < |items| :: SameContent(items'[j], items[j].length, items[j].digest)
  {
    assert |items'| == |items|;
    assert forall j | 0 <= j < |items| :: items'[j].(reference := 0) == items[j].(reference := 0);
    assert AllBacked(items', fs, sha1);
    assert DistinctContents(items');
    forall j | 1 <= j < |items'|
      ensures items'[j].offset == SumLength(items'[..j])
    {
      SumLengthSame(items[..j], items'[..j]);
    }
    SumLengthSame(items, items');
  }

  /** A new content appended at the running offset keeps the table well formed. */
  lemma {:induction false} AddItem(items: seq<Item>, item: Item, fs: FileSystem, sha1: Sha1, dirCount: nat)
    requires ItemsOk(items, fs, sha1, dirCount)
    requires Backed(item, fs, sha1) && item.flags == 0
    requires item.offset == SumLength(items)
    requires forall j | 0 < j < |items| :: !SameContent(items[j], item.length, item.digest)
    ensures ItemsOk(items + [item], fs, sha1, dirCount)
  {
    var items' := items + [item];
    assert forall j | 0 <= j < |items| :: items'[j] == items[j];
    assert AllBacked(items', fs, sha1);
    assert DistinctContents(items');
    forall j | 1 <= j < |items'|
      ensures items'[j].offset == SumLength(items'[..j])
    {
      if j < |items| {
        assert items'[..j] == items[..j];
      } else {
        assert items'[..j] == items;
      }
    }
  }

  lemma FileEntriesSnoc(entries: seq<Entry>, files: seq<PackItem>, items: seq<Item>, items': seq<Item>,
                        e: Entry, f: PackItem, fs: FileSystem, sha1: Sha1)
    requires |entries| == |files| && FileEntriesOk(entries, files, items, fs, sha1)
    requires |items| <= |items'| && forall j | 0 <= j < |items| :: SameContent(items'[j], items[j].length, items[j].digest)
    requires FileEntryOk(e, f, items', fs, sha1)
    ensures FileEntriesOk(entries + [e], files + [f], items', fs, sha1)
  {
    forall k | 0 <= k < |files| + 1
      ensures FileEntryOk((entries + [e])[k], (files + [f])[k], items', fs, sha1)
    {
      if k < |files| {
        assert FileEntryOk(entries[k], files[k], items, fs, sha1);
      }
    }
  }

  lemma RefCountsBump(items: seq<Item>, items': seq<Item>, idxs: seq<nat>, idx: nat)
    requires RefCounts(items, idxs) && 0 < idx < |items|
    requires items' == items[idx := items[idx].(reference := (items[idx].reference + 1) % 0x1_0000)]
    ensures RefCounts(items', idxs + [idx])
  {
    assert multiset(idxs + [idx]) == multiset(idxs) + multiset{idx};
  }

  lemma RefCountsNew(items: seq<Item>, item: Item, idxs: seq<nat>, n: nat)
    requires RefCounts(items, idxs) && item.reference == 1 && n == |items|
    requires forall k | 0 <= k < |idxs| :: idxs[k] < |items|
    ensures RefCounts(items + [item], idxs + [n])
  {
    assert multiset(idxs + [n]) == multiset(idxs) + multiset{n};
    assert n !in idxs;
  }

  /** In the tables the fold builds, two files share an item exactly when
      their lengths and digests agree. */
  lemma DedupOfSharing(sorted: seq<PackItem>, fs: FileSystem, sha1: Sha1, dirCount: nat, a: nat, b: nat)
    requires DedupOf(sorted, fs, sha1, dirCount).Ok? && a < |sorted| && b < |sorted|
    ensures sorted[a].src in fs && sorted[b].src in fs
    ensures |DedupOf(sorted, fs, sha1, dirCount).value.entries| == |sorted|
    ensures var t := DedupOf(sorted, fs, sha1, dirCount).value;
      t.entries[a].itemIndex == t.entries[b].itemIndex <==>
        |fs[sorted[a].src]| == |fs[sorted[b].src]| && sha1(fs[sorted[a].src]) == sha1(fs[sorted[b].src])
  {
    DedupOfTables(sorted, fs, sha1, dirCount);
    var t := DedupOf(sorted, fs, sha1, dirCount).value;
    SharedItemIffSameContent(t.entries, sorted, t.items, fs, sha1, dirCount, a, b);
  }

  /** Dedup is exact: two files share an item if and only if their lengths
      and digests agree. */
  lemma SharedItemIffSameContent(entries: seq<Entry>, files: seq<PackItem>, items: seq<Item>,
                                 fs: FileSystem, sha1: Sha1, dirCount: nat, a: nat, b: nat)
    requires ItemsOk(items, fs, sha1, dirCount)
    requires |entries| == |files| && FileEntriesOk(entries, files, items, fs, sha1)
    requires a < |files| && b < |files|
    ensures files[a].src in fs && files[b].src in fs
    ensures entries[a].itemIndex == entries[b].itemIndex <==>
              |fs[files[a].src]| == |fs[files[b].src]| && sha1(fs[files[a].src]) == sha1(fs[files[b].src])
  {
    assert FileEntryOk(entries[a], files[a], items, fs, sha1);
    assert FileEntryOk(entries[b], files[b], items, fs, sha1);
    var i, j := entries[a].itemIndex, entries[b].itemIndex;
    if i < j {
      assert !SameContent(items[i], items[j].length, items[j].digest);
    } else if j < i {
      assert !SameContent(items[j], items[i].length, items[i].digest);
    }
  }
}

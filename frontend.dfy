/** `pack` and `scan_dir` of kwui-cli/src/lib.rs: the four kinds of pack
    input become the file list (source path, destination path) and the
    directory list handed to the archiver.  `path_clean::clean`,
    `Path::file_name` and the `walkdir` traversal are parameters. */
module Frontend {
  import opened Wrappers
  import opened Format
  import opened Text
  import opened Sorting
  import opened Items
  import Packer
  import Codec
  import HeaderWrite

  datatype PackInput =
    | SourceFile(src: string)
    | SourceDir(src: string)
    | FileMapping(src: string, dst: string)
    | DirMapping(src: string, dst: string)

  /** What `entry.metadata()` says of a walked entry. */
  datatype Kind = IsDir | IsFile | IsOther | MetadataError

  /** One entry of the walk: its full path, its last `depth` path
      components (those below the walked directory), and its kind. */
  datatype WalkEntry = WalkEntry(path: string, below: seq<string>, kind: Kind)

  /** The walk of a directory, the directory itself first (with no
      components below it); entries the walk cannot read are already
      dropped, as `filter_map(|e| e.ok())` does. */
  type Walk = string -> seq<WalkEntry>

  /** `join(sep)` of a list of strings. */
  function Join(parts: seq<string>, sep: string): string {
    if parts == [] then ""
    else if |parts| == 1 then parts[0]
    else parts[0] + sep + Join(parts[1..], sep)
  }

  /** The destination `scan_dir` gives an entry: the prefix, a slash, the
      components below the walked directory joined by slashes, and for a
      directory a trailing slash when there is none yet. */
  function EntryDst(e: WalkEntry, dst: string): string {
    var d := dst + "/" + Join(e.below, "/");
    if e.kind == IsDir && !EndsWith(d, "/") then d + "/" else d
  }

  /** `scan_dir` on the entries of a walk: directories to the directory
      list, files to the file list, anything else skipped; an entry whose
      metadata cannot be read fails the scan. */
  function Scan(entries: seq<WalkEntry>, dst: string): (r: Result<(seq<PackItem>, seq<string>)>)
    ensures r.Err? <==> exists k | 0 <= k < |entries| :: entries[k].kind == MetadataError
  {
    if entries == [] then Ok(([], []))
    else
      var init, e := entries[..|entries| - 1], entries[|entries| - 1];
      var prev := Scan(init, dst);
      assert forall k | 0 <= k < |init| :: init[k] == entries[k];
      if prev.Err? then prev
      else
        var (files, dirs) := prev.value;
        match e.kind
        case MetadataError => Err(Io("metadata"))
        case IsDir => Ok((files, dirs + [EntryDst(e, dst)]))
        case IsFile => Ok((files + [PackItem(e.path, EntryDst(e, dst))], dirs))
        case IsOther => prev
  }

  /** `scan_dir`. */
  method ScanDir(walk: Walk, dir: string, dst: string) returns (r: Result<(seq<PackItem>, seq<string>)>)
    ensures r == Scan(walk(dir), dst)
  {
    var entries := walk(dir);
    var files: seq<PackItem> := [];
    var dirs: seq<string> := [];
    for i := 0 to |entries|
      invariant Scan(entries[..i], dst) == Ok((files, dirs))
    {
      var e := entries[i];
      assert entries[..i + 1][..i] == entries[..i];
      var d := dst + "/" + Join(e.below, "/");
      match e.kind
      case MetadataError =>
        ScanStops(entries, dst, i + 1);
        return Err(Io("metadata"));
      case IsDir =>
        d := if EndsWith(d, "/") then d else d + "/";
        dirs := dirs + [d];
      case IsFile =>
        files := files + [PackItem(e.path, d)];
      case IsOther =>
    }
    assert entries[..|entries|] == entries;
    return Ok((files, dirs));
  }

  /** A scan that failed on a prefix fails on the whole walk. */
  lemma {:induction false} ScanStops(entries: seq<WalkEntry>, dst: string, k: nat)
    requires k <= |entries| && Scan(entries[..k], dst).Err?
    ensures Scan(entries, dst) == Scan(entries[..k], dst)
    decreases |entries| - k
  {
    if k < |entries| {
      var pre := entries[..k + 1];
      assert pre[..|pre| - 1] == entries[..k];
      ScanStops(entries, dst, k + 1);
    } else {
      assert entries[..k] == entries;
    }
  }

  /** Every directory `scan_dir` reports lies under the prefix and ends in
      a slash; every file lies under the prefix. */
  lemma {:induction false} ScanShape(entries: seq<WalkEntry>, dst: string)
    requires Scan(entries, dst).Ok?
    ensures forall d | d in Scan(entries, dst).value.1 :: StartsWith(d, dst + "/") && EndsWith(d, "/")
    ensures forall f | f in Scan(entries, dst).value.0 :: StartsWith(f.dst, dst + "/")
  {
    if entries != [] {
      var init, e := entries[..|entries| - 1], entries[|entries| - 1];
      ScanShape(init, dst);
      var d := EntryDst(e, dst);
      var base := dst + "/" + Join(e.below, "/");
      assert StartsWith(base, dst + "/") by {
        assert base[..|dst + "/"|] == dst + "/";
      }
      assert StartsWith(d, dst + "/") by {
        if d != base {
          assert d[..|dst + "/"|] == base[..|dst + "/"|];
        }
      }
      if e.kind == IsDir {
        assert EndsWith(d, "/") by {
          if d != base {
            assert d[|d| - 1..] == "/";
          }
        }
      }
    }
  }

  /** What one input adds to the file and directory lists.  A source file
      whose path has no file name fails the whole `pack`; a directory
      whose scan fails adds nothing. */
  function InputItems(input: PackInput, clean: string -> string, fileName: string -> Option<string>, walk: Walk)
    : (r: Result<(seq<PackItem>, seq<string>)>)
    ensures input.SourceFile? ==>
      var src := clean(input.src);
      && (r.Ok? <==> fileName(src).Some?)
      && (r.Ok? ==> r.value == ([PackItem(src, "/" + fileName(src).value)], []))
    ensures input.FileMapping? ==>
      var src := clean(input.src);
      && (r.Ok? <==> fileName(src).Some?)
      && (r.Ok? ==> |r.value.0| == 1 && r.value.1 == [] && r.value.0[0].src == src)
      && (r.Ok? && EndsWith(input.dst, "/") ==> r.value.0[0].dst == input.dst + fileName(src).value)
      && (r.Ok? && !EndsWith(input.dst, "/") ==> r.value.0[0].dst == input.dst)
    ensures input.SourceDir? ==>
      var src := clean(input.src);
      && (r.Ok? <==> fileName(src).Some?)
      && (r.Ok? && Scan(walk(src), "/" + fileName(src).value).Ok? ==> r == Scan(walk(src), "/" + fileName(src).value))
      && (r.Ok? && Scan(walk(src), "/" + fileName(src).value).Err? ==> r.value == ([], []))
    ensures (input.SourceFile? || input.SourceDir? || input.FileMapping?) && r.Err? ==>
      r.error == InvalidSourceName(clean(input.src))
    ensures input.DirMapping? ==> r.Ok?
    ensures input.DirMapping? && Scan(walk(clean(input.src)), DirPrefix(input.dst)).Ok? ==>
      r == Scan(walk(clean(input.src)), DirPrefix(input.dst))
    ensures input.DirMapping? && Scan(walk(clean(input.src)), DirPrefix(input.dst)).Err? ==> r.value == ([], [])
  {
    var src := clean(input.src);
    match input
    case SourceFile(_) =>
      (match fileName(src)
       case None => Err(InvalidSourceName(src))
       case Some(name) => Ok(([PackItem(src, "/" + name)], [])))
    case SourceDir(_) =>
      (match fileName(src)
       case None => Err(InvalidSourceName(src))
       case Some(name) =>
         var scanned := Scan(walk(src), "/" + name);
         if scanned.Ok? then scanned else Ok(([], [])))
    case FileMapping(_, dst) =>
      (match fileName(src)
       case None => Err(InvalidSourceName(src))
       case Some(name) => Ok(([PackItem(src, if EndsWith(dst, "/") then dst + name else dst)], [])))
    case DirMapping(_, dst) =>
      var scanned := Scan(walk(src), DirPrefix(dst));
      if scanned.Ok? then scanned else Ok(([], []))
  }

  /** The prefix a `DirMapping` scans under: its destination without one
      trailing slash. */
  function DirPrefix(dst: string): (r: string)
    ensures EndsWith(dst, "/") ==> r + "/" == dst
    ensures !EndsWith(dst, "/") ==> r == dst
  {
    if EndsWith(dst, "/") then dst[..|dst| - 1] else dst
  }

  /** The lists of all inputs, in input order; the first input that fails
      fails them all. */
  function Collect(inputs: seq<PackInput>, clean: string -> string, fileName: string -> Option<string>, walk: Walk)
    : Result<(seq<PackItem>, seq<string>)>
  {
    if inputs == [] then Ok(([], []))
    else
      var prev :- Collect(inputs[..|inputs| - 1], clean, fileName, walk);
      var more :- InputItems(inputs[|inputs| - 1], clean, fileName, walk);
      Ok((prev.0 + more.0, prev.1 + more.1))
  }

  /** The directory of a destination: everything up to and including its
      last slash; none when it has no slash. */
  function Parent(dst: string): (r: Option<string>)
    ensures r.None? <==> '/' !in dst
    ensures r.Some? ==> EndsWith(r.value, "/") && StartsWith(dst, r.value) && '/' !in dst[|r.value|..]
  {
    match RFind(dst, '/')
    case None => None
    case Some(idx) =>
      assert dst[..idx + 1][idx..] == "/";
      Some(dst[..idx + 1])
  }

  /** The parent directories of the files, in file order. */
  function Parents(files: seq<PackItem>): (r: seq<string>)
    ensures forall k | 0 <= k < |files| && Parent(files[k].dst).Some? :: Parent(files[k].dst).value in r
    ensures forall d | d in r :: exists k | 0 <= k < |files| :: Parent(files[k].dst) == Some(d)
  {
    if files == [] then []
    else
      var init, f := files[..|files| - 1], files[|files| - 1];
      var prev := Parents(init);
      assert forall k | 0 <= k < |init| :: init[k] == files[k];
      match Parent(f.dst)
      case None => prev
      case Some(d) => prev + [d]
  }

  /** The order of `sort_by_key(|x| x.to_lowercase())`. */
  function ByLower(): (string, string) -> bool {
    (a: string, b: string) => StrLe(Lower(a), Lower(b))
  }

  lemma ByLowerTotalPreorder()
    ensures TotalPreorder(ByLower())
  {
    var le := ByLower();
    forall a, b
      ensures le(a, b) || le(b, a)
    {
      StrLeTotal(Lower(a), Lower(b));
    }
    forall a, b, c | le(a, b) && le(b, c)
      ensures le(a, c)
    {
      StrLeTrans(Lower(a), Lower(b), Lower(c));
    }
  }

  /** The directory list `pack` hands on: the collected directories, the
      parent of every file and the root, sorted by their lower-cased form
      and with adjacent equal strings merged. */
  function FinalDirs(files: seq<PackItem>, dirs: seq<string>): (r: seq<string>)
    ensures Sorted(r, ByLower())
    ensures forall i | 0 <= i < |r| - 1 :: r[i] != r[i + 1]
    ensures forall d :: d in r <==> d in dirs || d in Parents(files) || d == "/"
  {
    ByLowerTotalPreorder();
    var all := dirs + Parents(files) + ["/"];
    var sorted := SortBy(all, ByLower());
    DedupSorted(sorted, ByLower());
    assert forall d :: d in sorted <==> d in multiset(sorted);
    assert forall d :: d in all <==> d in multiset(all);
    Dedup(sorted)
  }

  /** `pack` of lib.rs up to the call of the archiver: the file list and
      the directory list. */
  method Inputs(inputs: seq<PackInput>, clean: string -> string, fileName: string -> Option<string>, walk: Walk)
    returns (r: Result<(seq<PackItem>, seq<string>)>)
    ensures Collect(inputs, clean, fileName, walk).Err? ==> r == Collect(inputs, clean, fileName, walk)
    ensures Collect(inputs, clean, fileName, walk).Ok? ==>
      var c := Collect(inputs, clean, fileName, walk).value;
      r == Ok((c.0, FinalDirs(c.0, c.1)))
  {
    var fileItems: seq<PackItem> := [];
    var dirItems: seq<string> := [];
    for i := 0 to |inputs|
      invariant Collect(inputs[..i], clean, fileName, walk) == Ok((fileItems, dirItems))
    {
      assert inputs[..i + 1][..i] == inputs[..i];
      var more := AddInput(inputs[i], clean, fileName, walk);
      if more.Err? {
        CollectStops(inputs, clean, fileName, walk, i + 1);
        return Err(more.error);
      }
      fileItems := fileItems + more.value.0;
      dirItems := dirItems + more.value.1;
    }
    assert inputs[..|inputs|] == inputs;
    var parents := ParentDirs(fileItems);
    dirItems := dirItems + parents + ["/"];
    ByLowerTotalPreorder();
    dirItems := SortBy(dirItems, ByLower());
    dirItems := Dedup(dirItems);
    return Ok((fileItems, dirItems));
  }

  /** One arm of the `match input` of `pack`. */
  method AddInput(input: PackInput, clean: string -> string, fileName: string -> Option<string>, walk: Walk)
    returns (r: Result<(seq<PackItem>, seq<string>)>)
    ensures r == InputItems(input, clean, fileName, walk)
  {
    var src := clean(input.src);
    match input
    case SourceFile(_) =>
      var name := fileName(src);
      if name.None? {
        return Err(InvalidSourceName(src));
      }
      return Ok(([PackItem(src, "/" + name.value)], []));
    case SourceDir(_) =>
      var name := fileName(src);
      if name.None? {
        return Err(InvalidSourceName(src));
      }
      var scanned := ScanDir(walk, src, "/" + name.value);
      if scanned.Ok? {
        return scanned;
      }
      return Ok(([], []));
    case FileMapping(_, dst) =>
      var name := fileName(src);
      if name.None? {
        return Err(InvalidSourceName(src));
      }
      var d := if EndsWith(dst, "/") then dst + name.value else dst;
      return Ok(([PackItem(src, d)], []));
    case DirMapping(_, dst) =>
      var d := if EndsWith(dst, "/") then dst[..|dst| - 1] else dst;
      var scanned := ScanDir(walk, src, d);
      if scanned.Ok? {
        return scanned;
      }
      return Ok(([], []));
  }

  lemma {:induction false} CollectStops(inputs: seq<PackInput>, clean: string -> string, fileName: string -> Option<string>,
                                        walk: Walk, k: nat)
    requires k <= |inputs| && Collect(inputs[..k], clean, fileName, walk).Err?
    ensures Collect(inputs, clean, fileName, walk) == Collect(inputs[..k], clean, fileName, walk)
    decreases |inputs| - k
  {
    if k < |inputs| {
      var pre := inputs[..k + 1];
      assert pre[..|pre| - 1] == inputs[..k];
      CollectStops(inputs, clean, fileName, walk, k + 1);
    } else {
      assert inputs[..k] == inputs;
    }
  }

  /** The `rfind('/')` loop over the file list. */
  method ParentDirs(files: seq<PackItem>) returns (dirs: seq<string>)
    ensures dirs == Parents(files)
  {
    dirs := [];
    for i := 0 to |files|
      invariant dirs == Parents(files[..i])
    {
      assert files[..i + 1][..i] == files[..i];
      var idx := RFind(files[i].dst, '/');
      if idx.Some? {
        dirs := dirs + [files[i].dst[..idx.value + 1]];
      }
    }
    assert files[..|files|] == files;
  }

  /** What `pack` of lib.rs leaves behind for its inputs: no archive when
      collecting the lists fails; otherwise the archive of the collected
      files and the final directory list, or the bare preamble when the
      archiver fails. */
  ghost predicate Packed(inputs: seq<PackInput>, clean: string -> string, fileName: string -> Option<string>, walk: Walk,
                         fs: FileSystem, sha1: Sha1, compress: Packer.Compress,
                         r: Result<()>, out: seq<u8>, t: Tables, nodes: seq<Node>)
  {
    match Collect(inputs, clean, fileName, walk)
    case Err(e) => r == Err(e) && out == []
    case Ok(c) =>
      var files, dirs := c.0, FinalDirs(c.0, c.1);
      var header := HeaderWrite.HeaderOf(fs, sha1, fileName, files, dirs);
      && (r.Ok? <==> header.Ok?)
      && (r.Err? ==> r.error == header.error && out == Codec.Preamble(0, 0, |dirs|, |files|))
      && ((r.Err? && r.error.Io?) <==> exists p | p in files :: p.src !in fs)
      && (r.Ok? ==>
            && header.value == (t, nodes)
            && BuiltFrom(t, fs, sha1, fileName, files, dirs)
            && HeaderWrite.Indexes(nodes, HeaderWrite.FirstValues(t.entries))
            && out == Packer.Archive(nodes, t.items, |dirs|, |files|, fs, compress))
  }

  /** `pack` of lib.rs: the lists above, handed to the archiver. */
  method Pack(inputs: seq<PackInput>, clean: string -> string, fileName: string -> Option<string>, walk: Walk,
              fs: FileSystem, sha1: Sha1, compress: Packer.Compress)
    returns (r: Result<()>, out: seq<u8>, ghost t: Tables, ghost nodes: seq<Node>)
    ensures Collect(inputs, clean, fileName, walk).Err? ==> r == Collect(inputs, clean, fileName, walk).PropagateFailure() && out == []
    ensures Packed(inputs, clean, fileName, walk, fs, sha1, compress, r, out, t, nodes)
  {
    var lists := Inputs(inputs, clean, fileName, walk);
    if lists.Err? {
      t, nodes := Tables([], [], 0), [];
      return Err(lists.error), [], t, nodes;
    }
    r, out, t, nodes := Packer.Pack(fs, sha1, fileName, compress, lists.value.0, lists.value.1);
  }
}

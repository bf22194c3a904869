/** `unpack` and `list` of kwui-cli/src/packager.rs: the header is read,
    the path index walked, and the (path, item) pairs sorted by item.
    `unpack` creates directories, drains each new item's bytes from the
    chunk stream, and copies the file it just wrote for the next path of
    the same item.  The effect on the target directory is a sequence of
    file-system operations on paths relative to it. */
module Extract {
  import opened Wrappers
  import opened Format
  import opened Codec
  import opened Files
  import opened Sorting
  import opened Trie
  import opened Drain
  import opened HeaderRead
  import Lookup

  /** What `unpack` asks of the file system, in order. */
  datatype Op =
    | CreateDirAll(path: string)
    | WriteFile(path: string, bytes: seq<u8>)
    | CopyFile(from: string, to: string)

  /** A stored path and its item index, as `iter` yields them. */
  type WorkItem = (string, u16)

  /** The order of `sort_by_key(|(_k, idx)| *idx)`. */
  function ById(): (WorkItem, WorkItem) -> bool {
    (a: WorkItem, b: WorkItem) => a.1 <= b.1
  }

  lemma ByIdTotalPreorder()
    ensures TotalPreorder(ById())
  {
  }

  /** The work list: the walk of the index, stably sorted by item index. */
  function WorkItems(nodes: seq<Node>): (r: seq<WorkItem>)
    requires Ordered(nodes)
    ensures multiset(r) == multiset(Iter(nodes))
    ensures forall i, j | 0 <= i < j < |r| :: r[i].1 <= r[j].1
  {
    ByIdTotalPreorder();
    var r := SortBy(Iter(nodes), ById());
    assert Sorted(r, ById());
    r
  }

  /** `&dst_path[1..]`: the stored path without its first character, which
      must be a one-byte character (an empty path or a wider first
      character makes the slice panic). */
  function Relative(dst: string): (r: Result<string>)
    ensures r.Ok? <==> |dst| > 0 && dst[0] as int < 0x80
    ensures r.Ok? ==> [dst[0]] + r.value == dst
  {
    if |dst| > 0 && dst[0] as int < 0x80 then Ok(dst[1..]) else Err(Abort("byte index 1 is not a char boundary"))
  }

  /** The state of the extraction loop: the operations issued, the last
      item written and where (`last_item`), the decoded bytes still to
      come, and the error that ended the loop, if any. */
  datatype Run = Run(ops: seq<Op>, last: Option<(u16, string)>, rest: Decoded, err: Option<Error>)

  /** One turn of the loop of `unpack` for the pair `w`. */
  function Step(run: Run, w: WorkItem, items: seq<Item>): Run {
    if run.err.Some? then run
    else
      match Relative(w.0)
      case Err(e) => run.(err := Some(e))
      case Ok(dst) =>
        if w.1 == 0 then run.(ops := run.ops + [CreateDirAll(dst)])
        else if run.last.Some? && run.last.value.0 == w.1 then run.(ops := run.ops + [CopyFile(run.last.value.1, dst)])
        else if w.1 as int >= |items| then
          run.(ops := run.ops + [WriteFile(dst, [])], err := Some(Abort("item index out of bounds")))
        else
          var n, rest := items[w.1].length, run.rest;
          if n <= |rest.bytes| then
            Run(run.ops + [WriteFile(dst, rest.bytes[..n])], Some((w.1, dst)), Decoded(rest.bytes[n..], rest.err), None)
          else
            run.(ops := run.ops + [WriteFile(dst, rest.bytes)],
                 err := Some(if rest.err.Some? then rest.err.value else InvalidData))
  }

  /** The loop of `unpack` over a work list. */
  function Extract(work: seq<WorkItem>, items: seq<Item>, start: Run): Run {
    if work == [] then start
    else Step(Extract(work[..|work| - 1], items, start), work[|work| - 1], items)
  }

  /** The first state of the loop: nothing done, the whole chunk stream
      after the header to come. */
  function Start(archive: seq<u8>, end: nat, chunks: seq<Chunk>, lzf: Decompress): Run
    requires end <= |archive|
  {
    Run([], None, Decode(archive, end, chunks, lzf), None)
  }

  /** What `unpack` does to an archive: the operations it issues and its
      result.  A header that does not parse ends it before any operation;
      so does a node table whose followed links do not point forward
      (on which the recursive walk of the source would not end). */
  function UnpackOf(archive: seq<u8>, lzf: Decompress): (seq<Op>, Result<()>) {
    match ParseHeader(archive)
    case Err(e) => ([], Err(e))
    case Ok((h, end)) =>
      if !Ordered(h.nodes) then ([], Err(MalformedIndex))
      else
        var run := Extract(WorkItems(h.nodes), h.items, Start(archive, end, h.chunks, lzf));
        (run.ops, if run.err.Some? then Err(run.err.value) else Ok(()))
  }

  /** `unpack`. */
  method Unpack(archive: seq<u8>, lzf: Decompress) returns (r: Result<()>, ops: seq<Op>)
    ensures (ops, r) == UnpackOf(archive, lzf)
  {
    var f := new InFile(archive);
    var header := ReadHeader(f);
    if header.Err? {
      return Err(header.error), [];
    }
    var h := header.value;
    if !Ordered(h.nodes) {
      return Err(MalformedIndex), [];
    }
    var work := SortedPairs(h.nodes);
    var bw := new BufferWriter(f, h.chunkSize, h.chunks, lzf);
    r, ops := ExtractAll(bw, work, h.items);
  }

  /** The loop of `unpack` over the sorted pairs, draining `bw`. */
  method ExtractAll(bw: BufferWriter, work: seq<WorkItem>, items: seq<Item>) returns (r: Result<()>, ops: seq<Op>)
    requires bw.Valid()
    modifies bw, bw.reader`pos
    ensures var run := Extract(work, items, Run([], None, old(bw.Rest()), None));
      ops == run.ops && r == if run.err.Some? then Err(run.err.value) else Ok(())
  {
    ghost var start := Run([], None, bw.Rest(), None);
    ops := [];
    var last: Option<(u16, string)> := None;
    for i := 0 to |work|
      invariant bw.Valid()
      invariant Extract(work[..i], items, start) == Run(ops, last, bw.Rest(), None)
    {
      var err;
      ops, last, err := ExtractOne(bw, items, work[i], ops, last);
      assert work[..i + 1][..i] == work[..i];
      if err.Some? {
        ExtractStops(work, items, start, i + 1);
        return Err(err.value), ops;
      }
    }
    assert work[..|work|] == work;
    return Ok(()), ops;
  }

  /** `lookup_table.iter().collect()` then `sort_by_key` on the item index. */
  method SortedPairs(nodes: seq<Node>) returns (work: seq<WorkItem>)
    requires Ordered(nodes)
    ensures work == WorkItems(nodes)
  {
    var pairs := IndexPairs(nodes);
    ByIdTotalPreorder();
    work := SortBy(pairs, ById());
  }

  /** `LookupTable::new` with the nodes read from the archive, then `iter`. */
  method IndexPairs(nodes: seq<Node>) returns (pairs: seq<WorkItem>)
    requires Ordered(nodes)
    ensures pairs == Iter(nodes)
  {
    var tbl := new Lookup.LookupTable();
    tbl.nodes := nodes;
    pairs := tbl.Iter();
  }

  /** One turn of the loop of `unpack`: `create_dir_all` for a directory,
      `fs::copy` from the last file written when the item is the same,
      otherwise `File::create` and `bw.write` of the item's length. */
  method ExtractOne(bw: BufferWriter, items: seq<Item>, w: WorkItem, ops: seq<Op>, last: Option<(u16, string)>)
    returns (ops': seq<Op>, last': Option<(u16, string)>, err: Option<Error>)
    requires bw.Valid()
    modifies bw, bw.reader`pos
    ensures var s := Step(Run(ops, last, old(bw.Rest()), None), w, items);
      && ops' == s.ops && err == s.err
      && (err.None? ==> bw.Valid() && last' == s.last && bw.Rest() == s.rest)
  {
    var dst := Relative(w.0);
    if dst.Err? {
      return ops, last, Some(dst.error);
    }
    var idx := w.1;
    if idx == 0 {
      return ops + [CreateDirAll(dst.value)], last, None;
    }
    if last.Some? && last.value.0 == idx {
      return ops + [CopyFile(last.value.1, dst.value)], last, None;
    }
    if idx as int >= |items| {
      return ops + [WriteFile(dst.value, [])], last, Some(Abort("item index out of bounds"));
    }
    var length := items[idx].length;
    var written, out := bw.Write(length);
    ops' := ops + [WriteFile(dst.value, out)];
    if written.Err? {
      return ops', last, Some(written.error);
    }
    return ops', Some((idx, dst.value)), None;
  }

  /** Once a turn fails, the loop is over: the later pairs change nothing. */
  lemma {:induction false} ExtractStops(work: seq<WorkItem>, items: seq<Item>, start: Run, k: nat)
    requires k <= |work| && Extract(work[..k], items, start).err.Some?
    ensures Extract(work, items, start) == Extract(work[..k], items, start)
    decreases |work| - k
  {
    if k < |work| {
      var pre := work[..k + 1];
      assert pre[..|pre| - 1] == work[..k];
      ExtractStops(work, items, start, k + 1);
    } else {
      assert work[..k] == work;
    }
  }

  /** One turn of the loop as its offset bookkeeping intends it: a new
      item's bytes are taken at the item's own `offset` in the whole
      decoded stream, which `run.rest` holds and which is never consumed. */
  function StepAt(run: Run, w: WorkItem, items: seq<Item>): Run {
    if run.err.Some? then run
    else
      match Relative(w.0)
      case Err(e) => run.(err := Some(e))
      case Ok(dst) =>
        if w.1 == 0 then run.(ops := run.ops + [CreateDirAll(dst)])
        else if run.last.Some? && run.last.value.0 == w.1 then run.(ops := run.ops + [CopyFile(run.last.value.1, dst)])
        else if w.1 as int >= |items| then
          run.(ops := run.ops + [WriteFile(dst, [])], err := Some(Abort("item index out of bounds")))
        else
          var it, whole := items[w.1], run.rest;
          if it.offset + it.length <= |whole.bytes| then
            run.(ops := run.ops + [WriteFile(dst, whole.bytes[it.offset..it.offset + it.length])], last := Some((w.1, dst)))
          else
            run.(ops := run.ops + [WriteFile(dst, [])],
                 err := Some(if whole.err.Some? then whole.err.value else InvalidData))
  }

  /** The loop with `StepAt` for its turns. */
  function ExtractAt(work: seq<WorkItem>, items: seq<Item>, start: Run): Run {
    if work == [] then start
    else StepAt(ExtractAt(work[..|work| - 1], items, start), work[|work| - 1], items)
  }

  /** `unpack` with each item read at its offset. */
  function UnpackAtOf(archive: seq<u8>, lzf: Decompress): (seq<Op>, Result<()>) {
    match ParseHeader(archive)
    case Err(e) => ([], Err(e))
    case Ok((h, end)) =>
      if !Ordered(h.nodes) then ([], Err(MalformedIndex))
      else
        var run := ExtractAt(WorkItems(h.nodes), h.items, Start(archive, end, h.chunks, lzf));
        (run.ops, if run.err.Some? then Err(run.err.value) else Ok(()))
  }

  /** What `list` prints: whether the archive is solid, the counts, and
      each stored path in item order. */
  datatype Listing = Listing(solid: bool, dirCount: nat, fileCount: nat,
                             nodeCount: nat, itemCount: nat, chunkCount: nat, paths: seq<string>)

  function Paths(work: seq<WorkItem>): (r: seq<string>)
    ensures |r| == |work| && forall i | 0 <= i < |work| :: r[i] == work[i].0
  {
    seq(|work|, i requires 0 <= i < |work| => work[i].0)
  }

  /** What `list` reports for an archive. */
  function ListOf(archive: seq<u8>): Result<Listing> {
    match ParseHeader(archive)
    case Err(e) => Err(e)
    case Ok((h, _)) =>
      if !Ordered(h.nodes) then Err(MalformedIndex)
      else Ok(Listing(HasFlag(h.flags, SolidFlag), h.dirCount, h.fileCount,
                      |h.nodes|, |h.items|, |h.chunks|, Paths(WorkItems(h.nodes))))
  }

  /** `list`. */
  method List(archive: seq<u8>) returns (r: Result<Listing>)
    ensures r == ListOf(archive)
  {
    var f := new InFile(archive);
    var header := ReadHeader(f);
    if header.Err? {
      return Err(header.error);
    }
    var h := header.value;
    if !Ordered(h.nodes) {
      return Err(MalformedIndex);
    }
    var work := SortedPairs(h.nodes);
    var paths: seq<string> := [];
    for i := 0 to |work|
      invariant paths == Paths(work[..i])
    {
      paths := paths + [work[i].0];
    }
    assert work[..|work|] == work;
    return Ok(Listing(HasFlag(h.flags, SolidFlag), h.dirCount, h.fileCount,
                      |h.nodes|, |h.items|, |h.chunks|, paths));
  }
}

/** What the operations of `unpack` leave in the target directory, and the
    conditions under which every stored path ends up holding the bytes of
    its item.  The loop of kwui-cli/src/packager.rs drains the chunk
    stream in item order and never looks at an item's `offset`; it is
    exact only when the sorted work list mentions every file item.  The
    variant that reads each item at its offset is exact for any work list. */
module ExtractFacts {
  import opened Wrappers
  import opened Format
  import opened Items
  import opened Fill
  import opened Drain
  import opened Extract
  import HeaderWrite
  import Utf16
  import Trie

  /** Files under the target directory, by relative path. */
  type Tree = map<string, seq<u8>>

  /** One operation's effect on the files: `create_dir_all` adds none, a
      write sets the file's bytes, a copy gives the target the source's
      bytes (a copy from a missing file fails in `fs::copy` and changes
      nothing). */
  function Apply(files: Tree, op: Op): Tree {
    match op
    case CreateDirAll(_) => files
    case WriteFile(p, b) => files[p := b]
    case CopyFile(from, to) => if from in files then files[to := files[from]] else files
  }

  /** The files a run of operations leaves in an empty target directory. */
  function FilesOf(ops: seq<Op>): Tree {
    if ops == [] then map[] else Apply(FilesOf(ops[..|ops| - 1]), ops[|ops| - 1])
  }

  lemma FilesOfSnoc(ops: seq<Op>, op: Op)
    ensures FilesOf(ops + [op]) == Apply(FilesOf(ops), op)
  {
    assert (ops + [op])[..|ops|] == ops;
  }

  // ------------------------------------------------------------ work lists

  /** Every stored path starts with `/`, as `pack` stores them. */
  predicate Rooted(work: seq<WorkItem>) {
    forall i | 0 <= i < |work| :: |work[i].0| > 0 && work[i].0[0] == '/'
  }

  /** A path appears with one item only (the index maps each path to one
      value). */
  predicate OneItemPerPath(work: seq<WorkItem>) {
    forall i, j | 0 <= i < |work| && 0 <= j < |work| && work[i].0 == work[j].0 :: work[i].1 == work[j].1
  }

  predicate IdsBelow(work: seq<WorkItem>, n: nat) {
    forall i | 0 <= i < |work| :: work[i].1 as int < n
  }

  predicate SortedIds(work: seq<WorkItem>) {
    forall i, j | 0 <= i < j < |work| :: work[i].1 <= work[j].1
  }

  /** The item of the pair before `k`; 0 (the directory item) before the first. */
  function Prev(work: seq<WorkItem>, k: nat): u16
    requires k <= |work|
  {
    if k == 0 then 0 else work[k - 1].1
  }

  /** Each pair's item is the previous pair's item or the one after it. */
  predicate NoGaps(work: seq<WorkItem>) {
    forall k | 0 <= k < |work| :: work[k].1 as int <= Prev(work, k) as int + 1
  }

  /** Some pair names item `j`. */
  predicate Names(work: seq<WorkItem>, j: int) {
    exists i | 0 <= i < |work| :: work[i].1 as int == j
  }

  /** Every file item of a table of `n` items is named by some pair. */
  predicate Mentions(work: seq<WorkItem>, n: nat) {
    forall j | 1 <= j < n :: Names(work, j)
  }

  /** Sorted pairs that mention every file item leave no gap. */
  lemma NoGapsOfMentions(work: seq<WorkItem>, n: nat)
    requires SortedIds(work) && IdsBelow(work, n) && Mentions(work, n)
    ensures NoGaps(work)
  {
    forall k | 0 <= k < |work|
      ensures work[k].1 as int <= Prev(work, k) as int + 1
    {
      var j := Prev(work, k) as int + 1;
      if j < n {
        assert Names(work, j);
        var i :| 0 <= i < |work| && work[i].1 as int == j;
        assert work[k].1 <= work[i].1;
      }
    }
  }

  /** The path a pair is written to, relative to the target directory. */
  function Rel(w: WorkItem): string
    requires |w.0| > 0
  {
    w.0[1..]
  }

  lemma RelativeOfRooted(work: seq<WorkItem>, k: nat)
    requires Rooted(work) && k < |work|
    ensures Relative(work[k].0) == Ok(Rel(work[k]))
  {
    assert work[k].0[0] as int == 47;
  }

  /** The stored items have the lengths of the items packed. */
  predicate SameLengths(items: seq<Item>, src: seq<Item>) {
    |items| == |src| && forall j | 0 <= j < |items| :: items[j].length == src[j].length
  }

  /** Each stored item's offset is where its bytes start in the stream. */
  predicate AtOffsets(items: seq<Item>, src: seq<Item>, fs: FileSystem) {
    SameLengths(items, src) && forall j | 0 <= j < |items| :: items[j].offset == |Stream(src[..j], fs)|
  }

  // ------------------------------------------------------- what is extracted

  /** The pairs before `k` are extracted: a directory is created, a file
      holds its item's bytes. */
  ghost predicate Done(ops: seq<Op>, work: seq<WorkItem>, k: nat, src: seq<Item>, fs: FileSystem)
    requires k <= |work| && Rooted(work) && IdsBelow(work, |src|)
  {
    forall i | 0 <= i < k ::
      if work[i].1 == 0 then CreateDirAll(Rel(work[i])) in ops
      else Rel(work[i]) in FilesOf(ops) && FilesOf(ops)[Rel(work[i])] == Content(src[work[i].1], fs)
  }

  /** One more operation that creates pair `k`'s directory or gives its
      path its item's bytes, and touches no other path. */
  lemma {:induction false} DoneStep(ops: seq<Op>, op: Op, work: seq<WorkItem>, k: nat, src: seq<Item>, fs: FileSystem)
    requires k < |work| && Rooted(work) && OneItemPerPath(work) && IdsBelow(work, |src|)
    requires Done(ops, work, k, src, fs)
    requires work[k].1 == 0 ==> op == CreateDirAll(Rel(work[k]))
    requires work[k].1 != 0 ==> Apply(FilesOf(ops), op) == FilesOf(ops)[Rel(work[k]) := Content(src[work[k].1], fs)]
    ensures Done(ops + [op], work, k + 1, src, fs)
  {
    FilesOfSnoc(ops, op);
    var files := FilesOf(ops);
    if work[k].1 == 0 {
      assert Apply(files, op) == files;
    }
    forall i | 0 <= i < k && Rel(work[i]) == Rel(work[k])
      ensures work[i].1 == work[k].1
    {
      assert work[i].0 == [work[i].0[0]] + Rel(work[i]);
      assert work[k].0 == [work[k].0[0]] + Rel(work[k]);
    }
  }

  /** The bytes of the stream after item `m`. */
  function After(src: seq<Item>, fs: FileSystem, m: nat): seq<u8>
    requires m < |src|
  {
    StreamPrefix(src, fs, m + 1);
    Stream(src, fs)[|Stream(src[..m + 1], fs)|..]
  }

  /** Before the first file, the whole stream is still to come. */
  lemma AfterFirst(src: seq<Item>, fs: FileSystem)
    requires |src| > 0 && src[0].length == 0
    ensures After(src, fs, 0) == Stream(src, fs)
  {
    StreamStep(src, fs, 0);
    assert src[..0] == [];
  }

  /** After item `m` come the bytes of item `m + 1`, then the rest. */
  lemma {:induction false} AfterStep(src: seq<Item>, fs: FileSystem, m: nat)
    requires m + 1 < |src|
    ensures src[m + 1].length <= |After(src, fs, m)|
    ensures After(src, fs, m)[..src[m + 1].length] == Content(src[m + 1], fs)
    ensures After(src, fs, m)[src[m + 1].length..] == After(src, fs, m + 1)
  {
    var s, c, n := Stream(src, fs), Content(src[m + 1], fs), src[m + 1].length;
    var b1, b2 := |Stream(src[..m + 1], fs)|, |Stream(src[..m + 2], fs)|;
    StreamItem(src, fs, m + 1);
    StreamStep(src, fs, m + 1);
    SliceAfter(s, c, b1, n, b2);
  }

  lemma SliceAfter(s: seq<u8>, c: seq<u8>, b1: nat, n: nat, b2: nat)
    requires b1 + n <= |s| && s[b1..b1 + n] == c && b2 == b1 + n
    ensures n <= |s[b1..]| && s[b1..][..n] == c && s[b1..][n..] == s[b2..]
  {
    assert s[b1..][..n] == s[b1..b1 + n];
  }

  // ------------------------------------------------- the loop as written

  /** The state of the loop of `unpack` after `k` pairs of a work list
      whose ids have no gaps: no error, the stream after the last item
      written still to come, that item's file known, and every earlier
      pair extracted. */
  ghost predicate Inv(run: Run, work: seq<WorkItem>, k: nat, src: seq<Item>, fs: FileSystem)
    requires k <= |work| && Rooted(work) && IdsBelow(work, |src|) && |src| > 0
  {
    Tracks(run, Prev(work, k) as nat, src, fs) && Done(run.ops, work, k, src, fs)
  }

  /** The loop state after the items up to `m`: no error, the bytes after
      item `m` still to come, and item `m`'s file known when `m` is a file
      item. */
  ghost predicate Tracks(run: Run, m: nat, src: seq<Item>, fs: FileSystem)
    requires m < |src|
  {
    var files := FilesOf(run.ops);
    && run.err.None?
    && run.rest == Decoded(After(src, fs, m), None)
    && (m == 0 ==> run.last.None?)
    && (m != 0 ==> && run.last.Some? && run.last.value.0 as int == m
                   && run.last.value.1 in files && files[run.last.value.1] == Content(src[m], fs))
  }

  /** The conditions under which the loop as written is exact. */
  predicate Extractable(work: seq<WorkItem>, items: seq<Item>, src: seq<Item>)
  {
    && Rooted(work) && OneItemPerPath(work) && SortedIds(work) && NoGaps(work)
    && IdsBelow(work, |src|) && SameLengths(items, src) && |src| > 0
  }

  lemma {:induction false} StepKeeps(run: Run, work: seq<WorkItem>, k: nat, items: seq<Item>, src: seq<Item>, fs: FileSystem)
    requires Extractable(work, items, src) && k < |work|
    requires Inv(run, work, k, src, fs)
    ensures Inv(Step(run, work[k], items), work, k + 1, src, fs)
  {
    var w := work[k];
    RelativeOfRooted(work, k);
    if k > 0 {
      assert work[k - 1].1 <= w.1;
    }
    if w.1 == 0 {
      DirKeeps(run, work, k, items, src, fs);
    } else if run.last.Some? && run.last.value.0 == w.1 {
      CopyKeeps(run, work, k, items, src, fs);
    } else {
      WriteKeeps(run, work, k, items, src, fs);
    }
  }

  lemma {:induction false} DirKeeps(run: Run, work: seq<WorkItem>, k: nat, items: seq<Item>, src: seq<Item>, fs: FileSystem)
    requires Extractable(work, items, src) && k < |work| && Inv(run, work, k, src, fs)
    requires Relative(work[k].0) == Ok(Rel(work[k])) && work[k].1 == 0 && Prev(work, k) == 0
    ensures Inv(Step(run, work[k], items), work, k + 1, src, fs)
  {
    var op := CreateDirAll(Rel(work[k]));
    assert Step(run, work[k], items) == run.(ops := run.ops + [op]);
    DoneStep(run.ops, op, work, k, src, fs);
    FilesOfSnoc(run.ops, op);
  }

  lemma {:induction false} CopyKeeps(run: Run, work: seq<WorkItem>, k: nat, items: seq<Item>, src: seq<Item>, fs: FileSystem)
    requires Extractable(work, items, src) && k < |work| && Inv(run, work, k, src, fs)
    requires Relative(work[k].0) == Ok(Rel(work[k])) && work[k].1 != 0
    requires run.last.Some? && run.last.value.0 == work[k].1
    ensures Inv(Step(run, work[k], items), work, k + 1, src, fs)
  {
    var op := CopyFile(run.last.value.1, Rel(work[k]));
    assert Step(run, work[k], items) == run.(ops := run.ops + [op]);
    DoneStep(run.ops, op, work, k, src, fs);
    FilesOfSnoc(run.ops, op);
  }

  lemma {:induction false} WriteKeeps(run: Run, work: seq<WorkItem>, k: nat, items: seq<Item>, src: seq<Item>, fs: FileSystem)
    requires Extractable(work, items, src) && k < |work| && Inv(run, work, k, src, fs)
    requires Relative(work[k].0) == Ok(Rel(work[k])) && work[k].1 != 0
    requires Prev(work, k) <= work[k].1 && !(run.last.Some? && run.last.value.0 == work[k].1)
    ensures Inv(Step(run, work[k], items), work, k + 1, src, fs)
  {
    var w, m, rel := work[k], Prev(work, k), Rel(work[k]);
    assert w.1 as int == m as int + 1;
    assert items[w.1].length == src[w.1].length;
    var op := WriteFile(rel, Content(src[w.1], fs));
    WriteDrains(run, w, items, rel, src, fs, m as nat);
    assert Prev(work, k + 1) == w.1;
    DoneStep(run.ops, op, work, k, src, fs);
    WriteTracks(run, Step(run, w, items), op, rel, w.1 as nat, src, fs);
  }

  lemma {:induction false} WriteTracks(run: Run, next: Run, op: Op, rel: string, v: nat, src: seq<Item>, fs: FileSystem)
    requires 0 < v < |src| && v < 0x1_0000 && op == WriteFile(rel, Content(src[v], fs))
    requires next == Run(run.ops + [op], Some((v as u16, rel)), Decoded(After(src, fs, v), None), None)
    ensures Tracks(next, v, src, fs)
  {
    FilesOfSnoc(run.ops, op);
  }

  /** A new item's turn writes the next bytes of the stream, which are
      that item's, and leaves the bytes after it. */
  lemma {:induction false} WriteDrains(run: Run, w: WorkItem, items: seq<Item>, rel: string,
                                       src: seq<Item>, fs: FileSystem, m: nat)
    requires run.err.None? && Relative(w.0) == Ok(rel) && w.1 != 0
    requires !(run.last.Some? && run.last.value.0 == w.1)
    requires w.1 as int == m + 1 && m + 1 < |src| && |items| == |src| && items[w.1].length == src[w.1].length
    requires run.rest == Decoded(After(src, fs, m), None)
    ensures Step(run, w, items)
      == Run(run.ops + [WriteFile(rel, Content(src[w.1], fs))], Some((w.1, rel)), Decoded(After(src, fs, m + 1), None), None)
  {
    AfterStep(src, fs, m);
    WriteTurn(run, w, items, rel);
  }

  /** A turn that writes a new item drains its length from the stream. */
  lemma WriteTurn(run: Run, w: WorkItem, items: seq<Item>, rel: string)
    requires run.err.None? && Relative(w.0) == Ok(rel) && w.1 != 0
    requires !(run.last.Some? && run.last.value.0 == w.1)
    requires w.1 as int < |items| && items[w.1].length <= |run.rest.bytes|
    ensures var n := items[w.1].length;
      Step(run, w, items)
      == Run(run.ops + [WriteFile(rel, run.rest.bytes[..n])], Some((w.1, rel)), Decoded(run.rest.bytes[n..], run.rest.err), None)
  {
  }

  lemma {:induction false} ExtractKeeps(work: seq<WorkItem>, items: seq<Item>, src: seq<Item>, fs: FileSystem, k: nat)
    requires Extractable(work, items, src) && k <= |work| && src[0].length == 0
    ensures Inv(Extract.Extract(work[..k], items, Run([], None, Decoded(Stream(src, fs), None), None)), work, k, src, fs)
  {
    var start := Run([], None, Decoded(Stream(src, fs), None), None);
    if k == 0 {
      AfterFirst(src, fs);
      assert work[..0] == [];
    } else {
      ExtractKeeps(work, items, src, fs, k - 1);
      var run := Extract.Extract(work[..k - 1], items, start);
      assert work[..k][..k - 1] == work[..k - 1] && work[..k][k - 1] == work[k - 1];
      assert Extract.Extract(work[..k], items, start) == Step(run, work[k - 1], items);
      StepKeeps(run, work, k - 1, items, src, fs);
    }
  }

  /** The loop of `unpack` as written, on a sorted work list that names
      every item from the first file item up to the last one named: it
      ends without error, every directory is created and every path holds
      its item's bytes. */
  lemma ExtractExact(work: seq<WorkItem>, items: seq<Item>, src: seq<Item>, fs: FileSystem)
    requires Extractable(work, items, src) && src[0].length == 0
    ensures var run := Extract.Extract(work, items, Run([], None, Decoded(Stream(src, fs), None), None));
      && run.err.None?
      && forall i | 0 <= i < |work| ::
           if work[i].1 == 0 then CreateDirAll(work[i].0[1..]) in run.ops
           else work[i].0[1..] in FilesOf(run.ops) && FilesOf(run.ops)[work[i].0[1..]] == Content(src[work[i].1], fs)
  {
    ExtractKeeps(work, items, src, fs, |work|);
    assert work[..|work|] == work;
  }

  // --------------------------------------------- the loop reading at offsets

  /** The state of `ExtractAt` after `k` pairs: no error, the whole stream
      kept, the last item written known, and every earlier pair extracted. */
  ghost predicate InvAt(run: Run, work: seq<WorkItem>, k: nat, src: seq<Item>, fs: FileSystem)
    requires k <= |work| && Rooted(work) && IdsBelow(work, |src|)
  {
    TracksAt(run, src, fs) && Done(run.ops, work, k, src, fs)
  }

  /** The state of `ExtractAt`: no error, the whole stream kept, and the
      file of the last item written known. */
  ghost predicate TracksAt(run: Run, src: seq<Item>, fs: FileSystem) {
    var files := FilesOf(run.ops);
    && run.err.None?
    && run.rest.bytes == Stream(src, fs)
    && (run.last.Some? ==> && run.last.value.0 as int < |src|
                           && run.last.value.1 in files && files[run.last.value.1] == Content(src[run.last.value.0], fs))
  }

  lemma {:induction false} StepAtKeeps(run: Run, work: seq<WorkItem>, k: nat, items: seq<Item>, src: seq<Item>, fs: FileSystem)
    requires Rooted(work) && OneItemPerPath(work) && IdsBelow(work, |src|) && AtOffsets(items, src, fs)
    requires k < |work| && InvAt(run, work, k, src, fs)
    ensures InvAt(StepAt(run, work[k], items), work, k + 1, src, fs)
  {
    var w, rel := work[k], Rel(work[k]);
    RelativeOfRooted(work, k);
    if w.1 == 0 || (run.last.Some? && run.last.value.0 == w.1) {
      var op := if w.1 == 0 then CreateDirAll(rel) else CopyFile(run.last.value.1, rel);
      assert StepAt(run, w, items) == run.(ops := run.ops + [op]);
      DoneStep(run.ops, op, work, k, src, fs);
      FilesOfSnoc(run.ops, op);
    } else {
      WriteAtKeeps(run, work, k, items, src, fs);
    }
  }

  lemma {:induction false} WriteAtKeeps(run: Run, work: seq<WorkItem>, k: nat, items: seq<Item>, src: seq<Item>, fs: FileSystem)
    requires Rooted(work) && OneItemPerPath(work) && IdsBelow(work, |src|) && AtOffsets(items, src, fs)
    requires k < |work| && InvAt(run, work, k, src, fs)
    requires Relative(work[k].0) == Ok(Rel(work[k])) && work[k].1 != 0
    requires !(run.last.Some? && run.last.value.0 == work[k].1)
    ensures InvAt(StepAt(run, work[k], items), work, k + 1, src, fs)
  {
    var w, rel := work[k], Rel(work[k]);
    var op := WriteFile(rel, Content(src[w.1], fs));
    WriteAtTurn(run, w, items, rel, src, fs);
    DoneStep(run.ops, op, work, k, src, fs);
    FilesOfSnoc(run.ops, op);
  }

  /** A new item's turn writes the item's bytes, found at its offset. */
  lemma {:induction false} WriteAtTurn(run: Run, w: WorkItem, items: seq<Item>, rel: string, src: seq<Item>, fs: FileSystem)
    requires run.err.None? && Relative(w.0) == Ok(rel) && w.1 != 0
    requires !(run.last.Some? && run.last.value.0 == w.1)
    requires w.1 as int < |src| && AtOffsets(items, src, fs) && run.rest.bytes == Stream(src, fs)
    ensures StepAt(run, w, items) == run.(ops := run.ops + [WriteFile(rel, Content(src[w.1], fs))], last := Some((w.1, rel)))
  {
    ItemAtOffset(items, src, fs, w.1 as nat);
    WriteAtBytes(run, w, items, rel, Content(src[w.1], fs));
  }

  /** Each item's bytes lie in the stream at the item's offset. */
  lemma {:induction false} ItemAtOffset(items: seq<Item>, src: seq<Item>, fs: FileSystem, v: nat)
    requires AtOffsets(items, src, fs) && v < |src|
    ensures items[v].offset + items[v].length <= |Stream(src, fs)|
    ensures Stream(src, fs)[items[v].offset..items[v].offset + items[v].length] == Content(src[v], fs)
  {
    StreamItem(src, fs, v);
  }

  lemma {:induction false} WriteAtBytes(run: Run, w: WorkItem, items: seq<Item>, rel: string, c: seq<u8>)
    requires run.err.None? && Relative(w.0) == Ok(rel) && w.1 != 0
    requires !(run.last.Some? && run.last.value.0 == w.1) && w.1 as int < |items|
    requires items[w.1].offset + items[w.1].length <= |run.rest.bytes|
    requires run.rest.bytes[items[w.1].offset..items[w.1].offset + items[w.1].length] == c
    ensures StepAt(run, w, items) == run.(ops := run.ops + [WriteFile(rel, c)], last := Some((w.1, rel)))
  {
  }

  lemma {:induction false} ExtractAtKeeps(work: seq<WorkItem>, items: seq<Item>, src: seq<Item>, fs: FileSystem,
                                          whole: Decoded, k: nat)
    requires Rooted(work) && OneItemPerPath(work) && IdsBelow(work, |src|) && AtOffsets(items, src, fs)
    requires whole.bytes == Stream(src, fs) && k <= |work|
    ensures InvAt(ExtractAt(work[..k], items, Run([], None, whole, None)), work, k, src, fs)
  {
    if k == 0 {
      assert work[..0] == [];
    } else {
      ExtractAtKeeps(work, items, src, fs, whole, k - 1);
      var run := ExtractAt(work[..k - 1], items, Run([], None, whole, None));
      assert work[..k][..k - 1] == work[..k - 1] && work[..k][k - 1] == work[k - 1];
      assert ExtractAt(work[..k], items, Run([], None, whole, None)) == StepAt(run, work[k - 1], items);
      StepAtKeeps(run, work, k - 1, items, src, fs);
    }
  }

  /** Reading each item at its offset, any work list of rooted paths,
      each with one item, is extracted exactly: no order, and no mention of every item,
      is needed. */
  lemma ExtractAtExact(work: seq<WorkItem>, items: seq<Item>, src: seq<Item>, fs: FileSystem, whole: Decoded)
    requires Rooted(work) && OneItemPerPath(work) && IdsBelow(work, |src|) && AtOffsets(items, src, fs)
    requires whole.bytes == Stream(src, fs)
    ensures var run := ExtractAt(work, items, Run([], None, whole, None));
      && run.err.None?
      && forall i | 0 <= i < |work| ::
           if work[i].1 == 0 then CreateDirAll(work[i].0[1..]) in run.ops
           else work[i].0[1..] in FilesOf(run.ops) && FilesOf(run.ops)[work[i].0[1..]] == Content(src[work[i].1], fs)
  {
    ExtractAtKeeps(work, items, src, fs, whole, |work|);
    assert work[..|work|] == work;
  }

  // --------------------------------------------------- the skipped item

  /** Three one-byte files with distinct digests: `a/x` and `b/x` both
      packed to `/x`, and `c/y` to `/y`.  The digest of a one-byte content
      ends in that byte; the file name is the last character. */
  function SkipSha1(b: seq<u8>): Digest {
    ZeroDigest[..19] + [if |b| == 1 then b[0] else 0]
  }
  function SkipFileName(p: string): Option<string> {
    if p == [] then None else Some(p[|p| - 1..])
  }
  const SkipFiles: seq<PackItem> := [PackItem("a/x", "/x"), PackItem("b/x", "/x"), PackItem("c/y", "/y")]
  const SkipDirs: seq<string> := ["/"]
  const SkipFs: FileSystem := map["a/x" := [65], "b/x" := [66], "c/y" := [67]]

  /** The tables packing them builds: the index keeps item 1 for `/x`, so
      item 2 is named by no pair. */
  const SkipEntries: seq<Entry> :=
    [Entry("/", "/", 0), Entry("a/x", "/x", 1), Entry("b/x", "/x", 2), Entry("c/y", "/y", 3)]
  const SkipItems: seq<Item> :=
    [Item(SkipSha1([]), "", 1, DirFlag, 0, 0), Item(SkipSha1([65]), "a/x", 1, 0, 0, 1),
     Item(SkipSha1([66]), "b/x", 1, 0, 1, 1), Item(SkipSha1([67]), "c/y", 1, 0, 2, 1)]
  const SkipWork: seq<WorkItem> := [("/", 0), ("/x", 1), ("/y", 3)]

  /** The solid keys: no suffix, so all "zzz"; then by file name and path. */
  lemma SkipKeys()
    ensures SolidSortKey(SkipFiles[0], SkipFileName) == SortKey(0, "zzz", "x", "a/x")
    ensures SolidSortKey(SkipFiles[1], SkipFileName) == SortKey(0, "zzz", "x", "b/x")
    ensures SolidSortKey(SkipFiles[2], SkipFileName) == SortKey(0, "zzz", "y", "c/y")
  {
    PlainKey(SkipFiles[0], SkipFileName, "x");
    PlainKey(SkipFiles[1], SkipFileName, "x");
    PlainKey(SkipFiles[2], SkipFileName, "y");
  }

  /** A lower-case source path without a dot keys as `zzz`, its file name
      and itself. */
  lemma PlainKey(p: PackItem, fileName: string -> Option<string>, name: string)
    requires forall i | 0 <= i < |p.src| :: !Text.IsUpper(p.src[i]) && p.src[i] != '.'
    requires fileName(p.src) == Some(name)
    ensures SolidSortKey(p, fileName) == SortKey(0, "zzz", name, p.src)
  {
    assert Text.Lower(p.src) == p.src;
  }

  /** The files are already in solid order, so the stable sort keeps them. */
  lemma SkipSorted()
    ensures SolidSorted(SkipFiles, SkipFileName) == SkipFiles
  {
    SkipKeys();
    var le := SolidLe(SkipFileName);
    assert Text.StrLe("a/x", "b/x") && Text.StrLe("x", "y") && "x" != "y";
    assert le(SkipFiles[0], SkipFiles[1]) && le(SkipFiles[1], SkipFiles[2]) && le(SkipFiles[0], SkipFiles[2]);
    SolidLeTotalPreorder(SkipFileName);
    Sorting.SortBySorted(SkipFiles, le);
  }

  /** The dedup fold after each of the three files. */
  function SkipFold(k: nat): Tables
    requires k <= 3
  {
    Tables(SkipEntries[1..k + 1], SkipItems[..k + 1], k)
  }

  lemma SkipDigests()
    ensures SkipSha1([65])[19] == 65 && SkipSha1([66])[19] == 66 && SkipSha1([67])[19] == 67
  {
  }

  /** Each file has a new content, so it appends an item at the offset the
      items before it end at. */
  lemma SkipFoldStep(k: nat)
    requires k < 3
    ensures DedupOf(SkipFiles[..k], SkipFs, SkipSha1, 1) == Ok(SkipFold(k)) ==>
            DedupOf(SkipFiles[..k + 1], SkipFs, SkipSha1, 1) == Ok(SkipFold(k + 1))
  {
    if DedupOf(SkipFiles[..k], SkipFs, SkipSha1, 1) == Ok(SkipFold(k)) {
      var f, t := SkipFiles[k], SkipFold(k);
      var c: u8 := 65 + k as u8;
      assert f.src in SkipFs && SkipFs[f.src] == [c];
      SkipNew(k, c);
      SkipSumLength(k);
      DedupOfAppends(SkipFiles, SkipFs, SkipSha1, 1, k, t);
      SkipFoldNext(k, c);
    }
  }

  /** The file's digest differs from every item's so far. */
  lemma SkipNew(k: nat, c: u8)
    requires k < 3 && c == 65 + k as u8
    ensures forall j | 0 < j < |SkipFold(k).items| :: !SameContent(SkipFold(k).items[j], 1, SkipSha1([c]))
  {
    var t := SkipFold(k);
    SkipDigests();
    assert forall j | 0 < j < |t.items| :: t.items[j].digest[19] == 64 + j as u8;
  }

  /** The next fold state appends the file's entry and item. */
  lemma SkipFoldNext(k: nat, c: u8)
    requires k < 3 && c == 65 + k as u8
    ensures var f, t := SkipFiles[k], SkipFold(k);
      SkipFold(k + 1) == Tables(t.entries + [Entry(f.src, f.dst, k + 1)], t.items + [Item(SkipSha1([c]), f.src, 1, 0, k, 1)], k + 1)
  {
    assert SkipEntries[1..k + 2] == SkipEntries[1..k + 1] + [SkipEntries[k + 1]];
    assert SkipItems[..k + 2] == SkipItems[..k + 1] + [SkipItems[k + 1]];
  }

  lemma {:induction false} SkipSumLength(k: nat)
    requires k <= 3
    ensures SumLength(SkipItems[..k + 1]) == k
  {
    if k > 0 {
      SkipSumLength(k - 1);
      assert SkipItems[..k + 1] == SkipItems[..k] + [SkipItems[k]];
      SumLengthSnoc(SkipItems[..k], SkipItems[k]);
    } else {
      assert SkipItems[..1] == [SkipItems[0]];
      assert SumLength(SkipItems[..1][..0]) == 0;
    }
  }

  /** Before any file the fold holds only the directory sentinel. */
  lemma SkipFoldStart()
    ensures DedupOf(SkipFiles[..0], SkipFs, SkipSha1, 1) == Ok(SkipFold(0))
  {
    assert SkipFiles[..0] == [];
    assert SkipFold(0) == Tables([], [DirSentinel(SkipSha1, 1)], 0);
  }

  /** The dedup fold over the three files appends one item per file. */
  lemma SkipDedup()
    ensures DedupOf(SkipFiles, SkipFs, SkipSha1, 1) == Ok(Tables(SkipEntries[1..], SkipItems, 3))
  {
    SkipFoldStart();
    SkipFoldStep(0);
    SkipFoldStep(1);
    SkipFoldStep(2);
    assert SkipFiles[..3] == SkipFiles;
    assert SkipFold(3) == Tables(SkipEntries[1..], SkipItems, 3) by {
      assert SkipEntries[1..4] == SkipEntries[1..] && SkipItems[..4] == SkipItems;
    }
  }

  /** `build_entry_and_item` on these inputs builds exactly the tables above. */
  lemma SkipTables()
    ensures TablesOf(SkipFs, SkipSha1, SkipFileName, SkipFiles, SkipDirs) == Ok(Tables(SkipEntries, SkipItems, 3))
  {
    SkipSorted();
    SkipDedup();
    TablesOfSorted(SkipFs, SkipSha1, SkipFileName, SkipFiles, SkipDirs, Tables(SkipEntries[1..], SkipItems, 3));
    SkipEntriesSplit();
  }

  lemma SkipEntriesSplit()
    ensures DirEntries(SkipDirs) + SkipEntries[1..] == SkipEntries
  {
    assert DirEntries(SkipDirs) == [SkipEntries[0]];
  }

  /** Files already in solid order are folded as they are. */
  lemma TablesOfSorted(fs: FileSystem, sha1: Sha1, fileName: string -> Option<string>,
                       files: seq<PackItem>, dirs: seq<string>, t: Tables)
    requires SolidSorted(files, fileName) == files && DedupOf(files, fs, sha1, |dirs|) == Ok(t)
    ensures TablesOf(fs, sha1, fileName, files, dirs) == Ok(Tables(DirEntries(dirs) + t.entries, t.items, t.fileItemCount))
  {
  }

  lemma SkipContents()
    ensures Content(SkipItems[0], SkipFs) == [] && Content(SkipItems[1], SkipFs) == [65]
    ensures Content(SkipItems[2], SkipFs) == [66] && Content(SkipItems[3], SkipFs) == [67]
  {
    assert SkipItems[1].fname == "a/x" && SkipItems[2].fname == "b/x" && SkipItems[3].fname == "c/y";
    assert Readable(SkipItems[1], SkipFs) && Readable(SkipItems[2], SkipFs) && Readable(SkipItems[3], SkipFs);
  }

  lemma SkipStream()
    ensures Stream(SkipItems, SkipFs) == [65, 66, 67]
    ensures Content(SkipItems[3], SkipFs) == [67]
  {
    var src, fs := SkipItems, SkipFs;
    SkipContents();
    SkipStreamFront();
    StreamStep(src, fs, 2);
    assert Stream(src[..3], fs) == [65, 66];
    StreamStep(src, fs, 3);
    assert src[..4] == src;
  }

  lemma SkipStreamFront()
    ensures Stream(SkipItems[..2], SkipFs) == [65]
  {
    var src, fs := SkipItems, SkipFs;
    SkipContents();
    assert src[..0] == [];
    StreamStep(src, fs, 0);
    assert Stream(src[..1], fs) == [];
    StreamStep(src, fs, 1);
  }

  /** The index keeps the first item of `/x`; item 2 is in no pair. */
  lemma SkipIndex()
    ensures HeaderWrite.FirstValues(SkipEntries) == map["/" := 0, "/x" := 1, "/y" := 3]
  {
    var e := SkipEntries;
    var e1, e2, e3 := e[..1], e[..2], e[..3];
    assert e1[..0] == [] && e2[..1] == e1 && e3[..2] == e2 && e[..3] == e3;
    assert HeaderWrite.FirstValues(e1) == map["/" := 0];
    assert HeaderWrite.FirstValues(e2) == map["/" := 0, "/x" := 1];
    assert HeaderWrite.FirstValues(e3) == map["/" := 0, "/x" := 1];
  }

  lemma SkipSetup()
    ensures SkipWork[..2] == [SkipWork[0], SkipWork[1]] && [SkipWork[0], SkipWork[1]][..1] == [SkipWork[0]]
    ensures Relative("/") == Ok("") && Relative("/x") == Ok("x") && Relative("/y") == Ok("y")
  {
  }

  /** The loop as written hands item 2's bytes to `/y`, whose item is 3
      and holds `[67]`. */
  lemma SkippedItemShiftsLaterFiles()
    ensures var start := Run([], None, Decoded(Stream(SkipItems, SkipFs), None), None);
      var run := Extract.Extract(SkipWork, SkipItems, start);
      && Content(SkipItems[3], SkipFs) == [67]
      && run.err.None?
      && run.ops == [CreateDirAll(""), WriteFile("x", [65]), WriteFile("y", [66])]
      && FilesOf(run.ops)["y"] == [66]
  {
    SkipStream();
    SkipSetup();
    var src, work := SkipItems, SkipWork;
    var w0, w1, w2 := work[0], work[1], work[2];
    var p1: seq<WorkItem> := [w0];
    assert p1[..0] == [];
    var whole := Decoded([65, 66, 67], None);
    var start := Run([], None, whole, None);
    var r1 := Run([CreateDirAll("")], None, whole, None);
    assert Step(start, w0, src) == r1;
    assert Extract.Extract(p1, src, start) == r1;
    assert whole.bytes[..1] == [65] && whole.bytes[1..] == [66, 67];
    var r2 := Run(r1.ops + [WriteFile("x", [65])], Some((1, "x")), Decoded([66, 67], None), None);
    assert Step(r1, w1, src) == r2;
    assert Extract.Extract(work[..2], src, start) == r2;
    assert [66, 67][..1] == [66] && [66, 67][1..] == [67];
    var r3 := Run(r2.ops + [WriteFile("y", [66])], Some((3, "y")), Decoded([67], None), None);
    assert Step(r2, w2, src) == r3;
    FilesOfSnoc(r2.ops, WriteFile("y", [66]));
  }

  /** Reading at offsets gives `/y` its own bytes. */
  lemma SkippedItemReadAtOffset()
    ensures var start := Run([], None, Decoded(Stream(SkipItems, SkipFs), None), None);
      var run := ExtractAt(SkipWork, SkipItems, start);
      && run.err.None?
      && run.ops == [CreateDirAll(""), WriteFile("x", [65]), WriteFile("y", [67])]
      && FilesOf(run.ops)["y"] == Content(SkipItems[3], SkipFs)
  {
    SkipStream();
    SkipSetup();
    var src, work := SkipItems, SkipWork;
    var w0, w1, w2 := work[0], work[1], work[2];
    var p1: seq<WorkItem> := [w0];
    assert p1[..0] == [];
    var whole := Decoded([65, 66, 67], None);
    var start := Run([], None, whole, None);
    var r1 := Run([CreateDirAll("")], None, whole, None);
    assert StepAt(start, w0, src) == r1;
    assert ExtractAt(p1, src, start) == r1;
    var a2 := Run(r1.ops + [WriteFile("x", [65])], Some((1, "x")), whole, None);
    assert whole.bytes[0..1] == [65];
    assert StepAt(r1, w1, src) == a2;
    assert ExtractAt(work[..2], src, start) == a2;
    var a3 := Run(a2.ops + [WriteFile("y", [67])], Some((3, "y")), whole, None);
    assert whole.bytes[2..3] == [67];
    assert StepAt(a2, w2, src) == a3;
    FilesOfSnoc(a2.ops, WriteFile("y", [67]));
  }

  /** The whole counterexample: packing the three files builds
      `SkipEntries` and `SkipItems`, the index pairs each path with the
      item of `SkipWork`, and the loop as written writes item 2's byte 66
      into `/y`, whose own item holds 67. */
  lemma SkippedItemFromPack()
    ensures TablesOf(SkipFs, SkipSha1, SkipFileName, SkipFiles, SkipDirs) == Ok(Tables(SkipEntries, SkipItems, 3))
    ensures HeaderWrite.FirstValues(SkipEntries) == map[SkipWork[0].0 := 0, SkipWork[1].0 := 1, SkipWork[2].0 := 3]
    ensures Content(SkipItems[3], SkipFs) == [67]
    ensures var run := Extract.Extract(SkipWork, SkipItems, Run([], None, Decoded(Stream(SkipItems, SkipFs), None), None));
      && run.ops == [CreateDirAll(""), WriteFile("x", [65]), WriteFile("y", [66])]
      && FilesOf(run.ops)["y"] == [66]
  {
    SkipTables();
    SkipIndex();
    SkippedItemShiftsLaterFiles();
  }

  /** `pack` succeeds on the three files: the sources are readable, no
      path holds U+0000 and the four paths take a handful of units. */
  lemma SkipPackSucceeds()
    ensures HeaderWrite.HeaderOf(SkipFs, SkipSha1, SkipFileName, SkipFiles, SkipDirs).Ok?
    ensures HeaderWrite.HeaderOf(SkipFs, SkipSha1, SkipFileName, SkipFiles, SkipDirs).value.0 == Tables(SkipEntries, SkipItems, 3)
  {
    SkipTables();
    HeaderWrite.HeaderOfSucceeds(SkipFs, SkipSha1, SkipFileName, SkipFiles, SkipDirs);
    SkipKeyUnits();
    HeaderWrite.IndexOfFits(SkipEntries);
  }

  lemma SkipKeyUnits()
    ensures forall i | 0 <= i < |SkipEntries| :: '\0' !in SkipEntries[i].dst
    ensures HeaderWrite.KeyUnits(SkipEntries) <= 20
  {
    var e := SkipEntries;
    var e1, e2, e3 := e[..1], e[..2], e[..3];
    assert e1[..0] == [] && e2[..1] == e1 && e3[..2] == e2 && e[..3] == e3;
    assert |Utf16.Encode("/")| <= 2 && |Utf16.Encode("/x")| <= 4 && |Utf16.Encode("/y")| <= 4;
    assert HeaderWrite.KeyUnits(e1) <= 3;
    assert HeaderWrite.KeyUnits(e2) <= 8;
    assert HeaderWrite.KeyUnits(e3) <= 13;
  }

  /** The work list of any index of those entries (as `pack` builds it) is
      `SkipWork`: the three paths by increasing item. */
  lemma SkipWorkOf(nodes: seq<Node>)
    requires HeaderWrite.Indexes(nodes, HeaderWrite.FirstValues(SkipEntries))
    ensures WorkItems(nodes) == SkipWork
  {
    SkipIndex();
    SkipWorkListed();
    WorkItemsOfListing(nodes, HeaderWrite.FirstValues(SkipEntries), SkipWork);
  }

  lemma SkipWorkListed()
    ensures HeaderWrite.Lists(SkipWork, map["/" := 0, "/x" := 1, "/y" := 3]) && StrictlyById(SkipWork)
  {
    var m: map<string, u16> := map["/" := 0, "/x" := 1, "/y" := 3];
    assert SkipWork[0] == ("/", m["/"]) && SkipWork[1] == ("/x", m["/x"]) && SkipWork[2] == ("/y", m["/y"]);
  }

  /** A listing of the stored map whose item indices strictly increase is
      the work list: sorting the walk by item gives exactly it. */
  lemma WorkItemsOfListing(nodes: seq<Node>, m: map<string, u16>, w: seq<WorkItem>)
    requires HeaderWrite.Indexes(nodes, m) && HeaderWrite.Lists(w, m)
    requires StrictlyById(w)
    ensures WorkItems(nodes) == w
  {
    var it, r := Trie.Iter(nodes), WorkItems(nodes);
    ListingMembers(it, r, m, w);
    DistinctWork(it, r);
    StrictOfDistinct(r, w);
    StrictSame(r, w);
  }

  /** A permutation of one listing of a map has the elements of any other. */
  lemma ListingMembers(it: seq<WorkItem>, r: seq<WorkItem>, m: map<string, u16>, w: seq<WorkItem>)
    requires multiset(r) == multiset(it) && HeaderWrite.Lists(it, m) && HeaderWrite.Lists(w, m)
    ensures forall x | x in r :: x in w
    ensures forall x | x in w :: x in r
  {
    forall x | x in r
      ensures x in w
    {
      assert x in multiset(it);
      var i :| 0 <= i < |it| && it[i] == x;
      assert (x.0, m[x.0]) in w;
    }
    forall x | x in w
      ensures x in r
    {
      var q :| 0 <= q < |w| && w[q] == x;
      assert (x.0, m[x.0]) in it;
      assert x in multiset(r);
    }
  }

  /** A permutation of a list with distinct paths repeats no pair. */
  lemma DistinctWork(it: seq<WorkItem>, r: seq<WorkItem>)
    requires multiset(r) == multiset(it)
    requires forall a, b | 0 <= a < b < |it| :: it[a].0 != it[b].0
    ensures forall a, b | 0 <= a < b < |r| :: r[a] != r[b]
  {
    forall a, b | 0 <= a < b < |r|
      ensures r[a] != r[b]
    {
      if r[a] == r[b] {
        CountTwo(r, a, b);
        TwoOfCount(it, r[a]);
        assert false;
      }
    }
  }

  /** A list sorted by item index, repeating no pair, whose pairs all lie
      in a list with strictly increasing item indices, has strictly
      increasing item indices too. */
  lemma StrictOfDistinct(r: seq<WorkItem>, w: seq<WorkItem>)
    requires forall i, j | 0 <= i < j < |r| :: r[i].1 <= r[j].1
    requires forall a, b | 0 <= a < b < |r| :: r[a] != r[b]
    requires forall x | x in r :: x in w
    requires StrictlyById(w)
    ensures StrictlyById(r)
  {
    forall a, b | 0 <= a < b < |r|
      ensures r[a].1 < r[b].1
    {
      assert r[a] in w && r[b] in w;
      var p :| 0 <= p < |w| && w[p] == r[a];
      var q :| 0 <= q < |w| && w[q] == r[b];
      assert p != q;
    }
  }

  /** Two lists with the same elements whose item indices strictly
      increase are equal. */
  lemma {:induction false} StrictSame(r: seq<WorkItem>, w: seq<WorkItem>)
    requires StrictlyById(r) && StrictlyById(w)
    requires forall x | x in r :: x in w
    requires forall x | x in w :: x in r
    ensures r == w
    decreases |r|
  {
    if |r| > 0 || |w| > 0 {
      StrictHead(r, w);
      StrictTail(r, w);
      StrictSame(r[1..], w[1..]);
      assert r == [r[0]] + r[1..] && w == [w[0]] + w[1..];
    }
  }

  /** Item indices strictly increase along the list. */
  predicate StrictlyById(r: seq<WorkItem>) {
    forall i, j | 0 <= i < j < |r| :: r[i].1 < r[j].1
  }

  lemma StrictHead(r: seq<WorkItem>, w: seq<WorkItem>)
    requires StrictlyById(r) && StrictlyById(w)
    requires forall x | x in r :: x in w
    requires forall x | x in w :: x in r
    requires |r| > 0 || |w| > 0
    ensures |r| > 0 && |w| > 0 && r[0] == w[0]
  {
    assert |w| > 0 ==> w[0] in r;
    assert |r| > 0 ==> r[0] in w;
    var p :| 0 <= p < |r| && r[p] == w[0];
    var q :| 0 <= q < |w| && w[q] == r[0];
    assert p == 0;
  }

  lemma StrictTail(r: seq<WorkItem>, w: seq<WorkItem>)
    requires StrictlyById(r) && StrictlyById(w)
    requires forall x | x in r :: x in w
    requires forall x | x in w :: x in r
    requires |r| > 0 && |w| > 0 && r[0] == w[0]
    ensures StrictlyById(r[1..]) && StrictlyById(w[1..])
    ensures forall x | x in r[1..] :: x in w[1..]
    ensures forall x | x in w[1..] :: x in r[1..]
  {
    var r', w' := r[1..], w[1..];
    forall x | x in r'
      ensures x in w'
    {
      var i :| 0 <= i < |r'| && r'[i] == x;
      assert r[i + 1] == x && x in w;
      var k :| 0 <= k < |w| && w[k] == x;
      assert k != 0;
      assert w'[k - 1] == x;
    }
    forall x | x in w'
      ensures x in r'
    {
      var i :| 0 <= i < |w'| && w'[i] == x;
      assert w[i + 1] == x && x in r;
      var k :| 0 <= k < |r| && r[k] == x;
      assert k != 0;
      assert r'[k - 1] == x;
    }
  }

  /** An element at two positions occurs at least twice. */
  lemma CountTwo<T>(s: seq<T>, a: nat, b: nat)
    requires a < b < |s| && s[a] == s[b]
    ensures multiset(s)[s[a]] >= 2
  {
    assert s == s[..b] + [s[b]] + s[b + 1..];
    assert s[..b][a] == s[a];
  }

  /** An element occurring at least twice sits at two positions. */
  lemma {:induction false} TwoOfCount<T>(s: seq<T>, x: T)
    requires multiset(s)[x] >= 2
    ensures exists i, j | 0 <= i < j < |s| :: s[i] == x && s[j] == x
  {
    assert |s| > 0;
    var init := s[..|s| - 1];
    assert s == init + [s[|s| - 1]];
    if s[|s| - 1] == x {
      assert x in multiset(init);
      var i :| 0 <= i < |init| && init[i] == x;
      assert s[i] == x && s[|s| - 1] == x;
    } else {
      TwoOfCount(init, x);
      var i, j :| 0 <= i < j < |init| && init[i] == x && init[j] == x;
      assert s[i] == x && s[j] == x;
    }
  }

  /** The loop reads only the lengths of the items. */
  lemma {:induction false} ExtractLengths(work: seq<WorkItem>, a: seq<Item>, b: seq<Item>, start: Run)
    requires |a| == |b| && forall i | 0 <= i < |a| :: a[i].length == b[i].length
    ensures Extract.Extract(work, a, start) == Extract.Extract(work, b, start)
  {
    if work != [] {
      ExtractLengths(work[..|work| - 1], a, b, start);
    }
  }
}

/** The `pack-archive` command of kwui-cli/src/main.rs: each argument
    `SRC`, `SRC:DST` becomes one pack input.  The file-system queries
    (`std::fs::metadata`, `is_file`, `is_dir`), `path_clean::clean` and
    `Path::file_name` are the fields of a `Host`. */
module Cli {
  import opened Wrappers
  import opened Format
  import opened Text
  import opened Items
  import Packer
  import opened Frontend

  datatype Host = Host(
    exists_: string -> bool,
    isFile: string -> bool,
    isDir: string -> bool,
    clean: string -> string,
    fileName: string -> Option<string>)

  /** An argument names a path as a whole when the path exists; otherwise
      it is split at its last colon into source and destination; with no
      colon it is a source alone. */
  function SplitArg(p: string, exists_: string -> bool): (r: seq<string>)
    ensures 1 <= |r| <= 2
    ensures |r| == 1 ==> r[0] == p
    ensures |r| == 2 ==> !exists_(p) && p == r[0] + ":" + r[1] && ':' !in r[1]
    ensures |r| == 1 ==> exists_(p) || ':' !in p
  {
    if exists_(p) then [p]
    else match RFind(p, ':')
      case None => [p]
      case Some(idx) =>
        assert p == p[..idx] + ":" + p[idx + 1..];
        [p[..idx], p[idx + 1..]]
  }

  predicate IsSep(c: char) {
    c == '/' || c == '\\'
  }

  /** The length of the run of non-separators that starts `s`. */
  function PieceLen(s: string): (n: nat)
    ensures n <= |s|
    ensures forall i | 0 <= i < n :: !IsSep(s[i])
    ensures n < |s| ==> IsSep(s[n])
  {
    if s == [] || IsSep(s[0]) then 0 else 1 + PieceLen(s[1..])
  }

  /** `split(&['/', '\\']).filter(|x| !x.is_empty())`. */
  function Segments(s: string): (r: seq<string>)
    ensures forall k | 0 <= k < |r| :: Piece(r[k])
    decreases |s|
  {
    if s == [] then []
    else if IsSep(s[0]) then Segments(s[1..])
    else
      var n := PieceLen(s);
      [s[..n]] + Segments(s[n..])
  }

  /** A segment: not empty, no separator in it. */
  predicate Piece(x: string) {
    x != [] && forall i | 0 <= i < |x| :: !IsSep(x[i])
  }

  /** The destination as `main` normalises it: its segments joined by
      single slashes after a leading slash, and a trailing slash when the
      argument had one; empty when there are no segments and no trailing
      slash. */
  function NormalizeDst(dst: string): (r: string)
    ensures r == "" <==> Segments(dst) == [] && !EndsWith(dst, "/")
    ensures r != "" ==> r[0] == '/'
    ensures EndsWith(r, "/") <==> EndsWith(dst, "/")
  {
    var joined := Join(Segments(dst), "/");
    JoinShape(Segments(dst));
    if EndsWith(dst, "/") then
      if joined == "" then "/" else "/" + joined + "/"
    else if joined == "" then ""
    else "/" + joined
  }

  /** A joined list of segments: empty only for no segments, with no
      separator at either end. */
  lemma {:induction false} JoinShape(segs: seq<string>)
    requires forall k | 0 <= k < |segs| :: Piece(segs[k])
    ensures Join(segs, "/") == "" <==> segs == []
    ensures segs != [] ==> !IsSep(Join(segs, "/")[0]) && !IsSep(Join(segs, "/")[|Join(segs, "/")| - 1])
    ensures forall i | 0 <= i < |Join(segs, "/")| :: Join(segs, "/")[i] != '\\'
    ensures forall i | 0 <= i < |Join(segs, "/")| - 1 :: !(Join(segs, "/")[i] == '/' && Join(segs, "/")[i + 1] == '/')
  {
    if |segs| > 1 {
      JoinShape(segs[1..]);
      var a, j := segs[0], Join(segs[1..], "/");
      assert Join(segs, "/") == a + "/" + j;
      assert Piece(a);
      forall i | 0 <= i < |a + "/" + j| - 1
        ensures !((a + "/" + j)[i] == '/' && (a + "/" + j)[i + 1] == '/')
      {
        if i > |a| {
          assert (a + "/" + j)[i] == j[i - |a| - 1] && (a + "/" + j)[i + 1] == j[i - |a|];
        }
      }
    } else if |segs| == 1 {
      assert Piece(segs[0]);
    }
  }

  /** Segments survive joining: splitting the joined list gives it back. */
  lemma {:induction false} SegmentsOfJoin(segs: seq<string>)
    requires forall k | 0 <= k < |segs| :: Piece(segs[k])
    ensures Segments(Join(segs, "/")) == segs
  {
    if segs != [] {
      var a := segs[0];
      assert Piece(a);
      if |segs| == 1 {
        PieceLenOf(a, "");
        assert a + "" == a && a[..|a|] == a && a[|a|..] == [];
      } else {
        var j := Join(segs[1..], "/");
        var s := a + "/" + j;
        assert Join(segs, "/") == s;
        PieceLenOf(a, "/" + j);
        assert s == a + ("/" + j);
        assert s[..|a|] == a && s[|a|..] == "/" + j && ("/" + j)[1..] == j;
        SegmentsOfJoin(segs[1..]);
      }
    }
  }

  /** The run of non-separators that starts `a + b` is `a` when `a` is a
      segment and `b` is empty or starts with a separator. */
  lemma {:induction false} PieceLenOf(a: string, b: string)
    requires Piece(a) && (b == [] || IsSep(b[0]))
    ensures PieceLen(a + b) == |a|
    decreases |a|
  {
    if |a| > 1 {
      assert (a + b)[1..] == a[1..] + b;
      PieceLenOf(a[1..], b);
    } else {
      assert (a + b)[1..] == b;
    }
  }

  /** A trailing separator adds no segment. */
  lemma {:induction false} SegmentsTrailingSep(s: string, c: char)
    requires IsSep(c)
    ensures Segments(s + [c]) == Segments(s)
    decreases |s|
  {
    if s == [] {
      assert Segments([c]) == Segments([]);
    } else if IsSep(s[0]) {
      assert (s + [c])[1..] == s[1..] + [c];
      SegmentsTrailingSep(s[1..], c);
    } else {
      var n := PieceLen(s);
      PieceLenSnoc(s, c);
      assert (s + [c])[..n] == s[..n];
      assert (s + [c])[n..] == s[n..] + [c];
      SegmentsTrailingSep(s[n..], c);
    }
  }

  lemma {:induction false} PieceLenSnoc(s: string, c: char)
    requires IsSep(c)
    ensures PieceLen(s + [c]) == PieceLen(s)
    decreases |s|
  {
    if s != [] && !IsSep(s[0]) {
      assert (s + [c])[1..] == s[1..] + [c];
      PieceLenSnoc(s[1..], c);
    }
  }

  /** Normalising keeps the segments, leaves no backslash and no doubled
      slash, and a second normalisation changes nothing. */
  lemma NormalizeDstSound(dst: string)
    ensures Segments(NormalizeDst(dst)) == Segments(dst)
    ensures forall i | 0 <= i < |NormalizeDst(dst)| :: NormalizeDst(dst)[i] != '\\'
    ensures forall i | 0 <= i < |NormalizeDst(dst)| - 1 :: !(NormalizeDst(dst)[i] == '/' && NormalizeDst(dst)[i + 1] == '/')
    ensures NormalizeDst(NormalizeDst(dst)) == NormalizeDst(dst)
  {
    var segs := Segments(dst);
    var j := Join(segs, "/");
    var r := NormalizeDst(dst);
    JoinShape(segs);
    SegmentsOfJoin(segs);
    if j != "" {
      assert Segments("/" + j) == Segments(j) by {
        assert ("/" + j)[1..] == j;
      }
      if EndsWith(dst, "/") {
        assert r == ("/" + j) + ['/'];
        SegmentsTrailingSep("/" + j, '/');
      }
    } else if EndsWith(dst, "/") {
      assert Segments("/") == Segments("") by {
        assert "/"[1..] == "";
      }
    }
    assert Segments(r) == segs;
    forall i | 0 <= i < |r| - 1
      ensures !(r[i] == '/' && r[i + 1] == '/')
    {
      if 0 < i < |j| {
        assert r[i] == j[i - 1] && r[i + 1] == j[i];
      }
    }
  }

  /** The pack input one argument stands for: the cleaned source path with
      no destination becomes a `SourceFile` or a `SourceDir`, with one a
      `FileMapping` or a `DirMapping`; a source that is neither a file nor
      a directory is skipped.  `file_name().unwrap()` panics on a source
      with no file name, whatever it is. */
  function ArgInput(p: string, host: Host): (r: Result<Option<PackInput>>)
    ensures var segs := SplitArg(p, host.exists_);
      var src := host.clean(segs[0]);
      var dst := if |segs| == 2 then NormalizeDst(segs[1]) else "";
      && (r.Err? <==> host.fileName(src).None?)
      && (r.Ok? && r.value.Some? <==> host.fileName(src).Some? && (host.isFile(src) || host.isDir(src)))
      && (r.Ok? && r.value.Some? ==> r.value.value.src == src)
      && (r.Ok? && r.value.Some? && dst == "" ==>
            r.value.value == if host.isFile(src) then SourceFile(src) else SourceDir(src))
      && (r.Ok? && r.value.Some? && dst != "" ==>
            r.value.value == if host.isFile(src) then FileMapping(src, dst) else DirMapping(src, dst))
  {
    var segs := SplitArg(p, host.exists_);
    var src := host.clean(segs[0]);
    var dst := if |segs| >= 2 then NormalizeDst(segs[1]) else "";
    if host.fileName(src).None? then Err(Abort("called `Option::unwrap()` on a `None` value"))
    else if host.isFile(src) then
      Ok(Some(if dst == "" then SourceFile(src) else FileMapping(src, dst)))
    else if host.isDir(src) then
      Ok(Some(if dst == "" then SourceDir(src) else DirMapping(src, dst)))
    else Ok(None)
  }

  /** The inputs of all arguments, in order; a panic on one ends it. */
  function ArgInputs(args: seq<string>, host: Host): Result<seq<PackInput>> {
    if args == [] then Ok([])
    else
      var prev :- ArgInputs(args[..|args| - 1], host);
      var one :- ArgInput(args[|args| - 1], host);
      Ok(prev + if one.Some? then [one.value] else [])
  }

  /** The loop of the `PackArchive` arm over its arguments. */
  method ParseArgs(args: seq<string>, host: Host) returns (r: Result<seq<PackInput>>)
    ensures r == ArgInputs(args, host)
  {
    var inputs: seq<PackInput> := [];
    for i := 0 to |args|
      invariant ArgInputs(args[..i], host) == Ok(inputs)
    {
      assert args[..i + 1][..i] == args[..i];
      var one := ParseArg(args[i], host);
      if one.Err? {
        ArgInputsStop(args, host, i + 1);
        return Err(one.error);
      }
      ghost var pre := args[..i + 1];
      assert pre[|pre| - 1] == args[i];
      inputs := inputs + if one.value.Some? then [one.value.value] else [];
      assert ArgInputs(pre, host) == Ok(inputs);
    }
    assert args[..|args|] == args;
    return Ok(inputs);
  }

  /** One turn of that loop. */
  method ParseArg(p: string, host: Host) returns (r: Result<Option<PackInput>>)
    ensures r == ArgInput(p, host)
  {
    var segs: seq<string>;
    if host.exists_(p) {
      segs := [p];
    } else {
      var idx := RFind(p, ':');
      if idx.Some? {
        segs := [p[..idx.value], p[idx.value + 1..]];
      } else {
        segs := [p];
      }
    }
    var src := host.clean(segs[0]);
    var dst := "";
    if |segs| >= 2 {
      var segments := SplitDst(segs[1]);
      var joined := Join(segments, "/");
      if EndsWith(segs[1], "/") {
        dst := if joined == "" then "/" else "/" + joined + "/";
      } else {
        dst := if joined == "" then "" else "/" + joined;
      }
    }
    var name := host.fileName(src);
    if name.None? {
      return Err(Abort("called `Option::unwrap()` on a `None` value"));
    }
    if host.isFile(src) {
      return Ok(Some(if dst == "" then SourceFile(src) else FileMapping(src, dst)));
    } else if host.isDir(src) {
      return Ok(Some(if dst == "" then SourceDir(src) else DirMapping(src, dst)));
    }
    return Ok(None);
  }

  /** The split of a destination into its non-empty segments, scanning it
      once. */
  method SplitDst(s: string) returns (segs: seq<string>)
    ensures segs == Segments(s)
  {
    segs := [];
    var i: nat := 0;
    while i < |s|
      invariant i <= |s|
      invariant segs + Segments(s[i..]) == Segments(s)
    {
      if IsSep(s[i]) {
        assert s[i..][1..] == s[i + 1..];
        i := i + 1;
      } else {
        var j: nat := i;
        while j < |s| && !IsSep(s[j])
          invariant i <= j <= |s|
          invariant forall k | i <= k < j :: !IsSep(s[k])
        {
          j := j + 1;
        }
        PieceLenAt(s, i, j);
        assert s[i..][..j - i] == s[i..j] && s[i..][j - i..] == s[j..];
        segs := segs + [s[i..j]];
        i := j;
      }
    }
  }

  lemma {:induction false} PieceLenAt(s: string, i: nat, j: nat)
    requires i <= j <= |s|
    requires forall k | i <= k < j :: !IsSep(s[k])
    requires j == |s| || IsSep(s[j])
    ensures PieceLen(s[i..]) == j - i
    decreases j - i
  {
    if i < j {
      assert s[i..][1..] == s[i + 1..];
      PieceLenAt(s, i + 1, j);
    }
  }

  lemma {:induction false} ArgInputsStop(args: seq<string>, host: Host, k: nat)
    requires k <= |args| && ArgInputs(args[..k], host).Err?
    ensures ArgInputs(args, host) == ArgInputs(args[..k], host)
    decreases |args| - k
  {
    if k < |args| {
      var pre := args[..k + 1];
      assert pre[..|pre| - 1] == args[..k];
      ArgInputsStop(args, host, k + 1);
    } else {
      assert args[..k] == args;
    }
  }

  /** The `PackArchive` arm: the arguments become pack inputs, handed to
      `pack`. */
  method PackArchive(args: seq<string>, host: Host, walk: Walk, fs: FileSystem, sha1: Sha1, compress: Packer.Compress)
    returns (r: Result<()>, out: seq<u8>, ghost t: Tables, ghost nodes: seq<Node>)
    ensures ArgInputs(args, host).Err? ==> r == ArgInputs(args, host).PropagateFailure() && out == []
    ensures ArgInputs(args, host).Ok? ==>
      Packed(ArgInputs(args, host).value, host.clean, host.fileName, walk, fs, sha1, compress, r, out, t, nodes)
  {
    var inputs := ParseArgs(args, host);
    if inputs.Err? {
      t, nodes := Tables([], [], 0), [];
      return Err(inputs.error), [], t, nodes;
    }
    r, out, t, nodes := Frontend.Pack(inputs.value, host.clean, host.fileName, walk, fs, sha1, compress);
  }
}

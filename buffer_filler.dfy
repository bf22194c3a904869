/** `BufferFiller` of kwui-cli/src/packager.rs: the cursor `pack` reads
    item contents through, in item order, opening each item's source file
    in turn.  Source files are a map from path to bytes. */
module Fill {
  import opened Format
  import opened Items

  function Min(a: nat, b: nat): nat {
    if a < b then a else b
  }

  /** An item whose bytes can be read: an empty one, or one whose source
      file holds exactly its length (the file has not changed since it was
      scanned). */
  predicate Readable(it: Item, fs: FileSystem) {
    it.length == 0 || (it.fname in fs && |fs[it.fname]| == it.length)
  }

  predicate AllReadable(items: seq<Item>, fs: FileSystem) {
    forall j | 0 <= j < |items| :: Readable(items[j], fs)
  }

  /** The bytes an item stands for: its source file when the item is
      readable; an unreadable item, which a valid filler never holds, is
      given zeros so that the stream keeps its length. */
  function Content(it: Item, fs: FileSystem): (r: seq<u8>)
    ensures |r| == it.length
    ensures Readable(it, fs) && it.length > 0 ==> r == fs[it.fname]
  {
    if Readable(it, fs) && it.length > 0 then fs[it.fname] else seq(it.length, _ => 0)
  }

  /** The items' bytes one after another: what successive `fill` calls
      hand out. */
  function Stream(items: seq<Item>, fs: FileSystem): seq<u8> {
    if items == [] then []
    else Stream(items[..|items| - 1], fs) + Content(items[|items| - 1], fs)
  }

  /** The stream is as long as the items say. */
  lemma {:induction false} StreamLength(items: seq<Item>, fs: FileSystem)
    ensures |Stream(items, fs)| == SumLength(items)
  {
    if items != [] {
      StreamLength(items[..|items| - 1], fs);
    }
  }

  /** One more item adds its bytes to the stream. */
  lemma {:induction false} StreamStep(items: seq<Item>, fs: FileSystem, n: nat)
    requires n < |items|
    ensures Stream(items[..n + 1], fs) == Stream(items[..n], fs) + Content(items[n], fs)
  {
    var pre := items[..n + 1];
    assert pre[..|pre| - 1] == items[..n];
  }

  /** The stream of a prefix of the items is a prefix of the stream. */
  lemma {:induction false} StreamPrefix(items: seq<Item>, fs: FileSystem, j: nat)
    requires j <= |items|
    ensures |Stream(items[..j], fs)| <= |Stream(items, fs)|
    ensures Stream(items, fs)[..|Stream(items[..j], fs)|] == Stream(items[..j], fs)
    decreases |items|
  {
    if j < |items| {
      var init := items[..|items| - 1];
      assert init[..j] == items[..j];
      StreamPrefix(init, fs, j);
    } else {
      assert items[..j] == items;
    }
  }

  /** A piece of the part `c` of a prefix `head + c` of `whole`. */
  lemma {:induction false} SliceOfPrefix(whole: seq<u8>, head: seq<u8>, c: seq<u8>, off: nat, k: nat)
    requires |head| + |c| <= |whole| && whole[..|head| + |c|] == head + c && off + k <= |c|
    ensures whole[|head| + off..|head| + off + k] == c[off..off + k]
  {
    assert whole[|head| + off..|head| + off + k] == (head + c)[|head| + off..|head| + off + k];
  }

  /** A tail of a tail that was kept is kept. */
  lemma {:induction false} SameTail(now: seq<u8>, before: seq<u8>, orig: seq<u8>, i: nat, k: nat)
    requires i + k <= |now| == |before| == |orig|
    requires now[i + k..] == before[i + k..] && before[i..] == orig[i..]
    ensures now[i + k..] == orig[i + k..]
  {
    assert before[i + k..] == before[i..][k..];
    assert orig[i + k..] == orig[i..][k..];
  }

  /** Two adjacent pieces of `s` make the piece spanning both. */
  lemma {:induction false} JoinSlices(b: seq<u8>, s: seq<u8>, p: nat, m: nat, k: nat)
    requires p + m + k <= |s| && |b| == m + k
    requires b[..m] == s[p..p + m] && b[m..] == s[p + m..p + m + k]
    ensures b == s[p..p + m + k]
  {
    assert b == b[..m] + b[m..];
  }

  /** The bytes of item `idx` sit in the stream right after the items
      before it. */
  lemma {:induction false} StreamAt(items: seq<Item>, fs: FileSystem, idx: nat, off: nat, k: nat)
    requires idx < |items| && off + k <= items[idx].length
    ensures var base := |Stream(items[..idx], fs)|;
      && base + off + k <= |Stream(items, fs)|
      && Stream(items, fs)[base + off..base + off + k] == Content(items[idx], fs)[off..off + k]
  {
    StreamPrefix(items, fs, idx + 1);
    StreamStep(items, fs, idx);
    SliceOfPrefix(Stream(items, fs), Stream(items[..idx], fs), Content(items[idx], fs), off, k);
  }

  /** The whole of item `idx` sits in the stream right after the items
      before it. */
  lemma {:induction false} StreamItem(items: seq<Item>, fs: FileSystem, idx: nat)
    requires idx < |items|
    ensures var base := |Stream(items[..idx], fs)|;
      && base + items[idx].length <= |Stream(items, fs)|
      && Stream(items, fs)[base..base + items[idx].length] == Content(items[idx], fs)
  {
    var c := Content(items[idx], fs);
    StreamAt(items, fs, idx, 0, items[idx].length);
    assert c[0..items[idx].length] == c;
  }

  /** The bytes read from the current item extend what `fill` handed out
      with the next bytes of the stream. */
  lemma {:induction false} FillPiece(items: seq<Item>, fs: FileSystem, s: seq<u8>, idx: nat, off: nat,
                                     p: nat, start: nat, k: nat, head: seq<u8>, piece: seq<u8>)
    requires s == Stream(items, fs) && idx < |items| && off + k <= items[idx].length
    requires |Stream(items[..idx], fs)| + off == p + start
    requires p + start <= |s| && head == s[p..p + start]
    requires piece == Content(items[idx], fs)[off..off + k]
    ensures p + start + k <= |s| && head + piece == s[p..p + start + k]
  {
    StreamAt(items, fs, idx, off, k);
    JoinSlices(head + piece, s, p, start, k);
  }

  class BufferFiller {
    const items: seq<Item>
    const fs: FileSystem
    var currIndex: nat
    var currOffset: nat
    /** Whether `curr_file` holds the open source file of the current item. */
    var fileOpen: bool

    ghost predicate Valid()
      reads this
    {
      && AllReadable(items, fs)
      && currIndex <= |items|
      && (currIndex < |items| ==> currOffset <= items[currIndex].length)
      && (currIndex == |items| ==> currOffset == 0 && !fileOpen)
    }

    /** How many bytes of the stream have been handed out. */
    ghost function Position(): nat
      reads this
      requires Valid()
    {
      |Stream(items[..currIndex], fs)| + currOffset
    }

    lemma PositionInStream()
      requires Valid()
      ensures Position() <= |Stream(items, fs)|
    {
      if currIndex < |items| {
        StreamAt(items, fs, currIndex, 0, currOffset);
      } else {
        assert items[..currIndex] == items;
      }
    }

    /** `BufferFiller::new`: at the start of the first item. */
    constructor (items: seq<Item>, fs: FileSystem)
      requires AllReadable(items, fs)
      ensures this.items == items && this.fs == fs
      ensures Valid() && Position() == 0 && !fileOpen
    {
      this.items := items;
      this.fs := fs;
      currIndex := 0;
      currOffset := 0;
      fileOpen := false;
    }

    /** `advance`: items already read in full are left behind, and the
        source file of the item now current is opened. */
    method Advance()
      requires Valid()
      modifies this
      ensures Valid() && Position() == old(Position())
      ensures currIndex < |items| ==> currOffset < items[currIndex].length && fileOpen
      ensures currIndex == |items| ==> Position() == |Stream(items, fs)|
    {
      while currIndex < |items| && currOffset >= items[currIndex].length
        invariant Valid() && Position() == old(Position())
        decreases |items| - currIndex
      {
        StreamStep(items, fs, currIndex);
        fileOpen := false;
        currOffset := 0;
        currIndex := currIndex + 1;
      }
      if currIndex < |items| && !fileOpen {
        fileOpen := true;
      }
      if currIndex == |items| {
        assert items[..currIndex] == items;
      }
    }

    /** `f.read(&mut buf[start..])` on the current item's open file: as
        many of the file's remaining bytes as fit. */
    method ReadFile(buf: array<u8>, start: nat) returns (n: nat)
      requires Valid() && currIndex < |items| && start <= buf.Length
      modifies this`currOffset, buf
      ensures n == Min(buf.Length - start, items[currIndex].length - old(currOffset))
      ensures currOffset == old(currOffset) + n && Valid()
      ensures buf[..start] == old(buf[..start]) && buf[start + n..] == old(buf[start + n..])
      ensures buf[start..start + n] == Content(items[currIndex], fs)[old(currOffset)..old(currOffset) + n]
    {
      var it := items[currIndex];
      assert Readable(it, fs);
      n := Min(buf.Length - start, it.length - currOffset);
      if n == 0 {
        return;
      }
      var content, off := fs[it.fname], currOffset;
      for j := 0 to n
        invariant currOffset == off
        invariant buf[..start] == old(buf[..start]) && buf[start + n..] == old(buf[start + n..])
        invariant buf[start..start + j] == content[off..off + j]
      {
        buf[start + j] := content[off + j];
      }
      currOffset := off + n;
    }

    /** `fill`: the next bytes of the stream, as many as fit in `buf` or
        as are left; the rest of `buf` is untouched. */
    method Fill(buf: array<u8>) returns (n: nat)
      requires Valid()
      modifies this, buf
      ensures Valid()
      ensures var p, s := old(Position()), Stream(items, fs);
        && p + n <= |s|
        && n == Min(buf.Length, |s| - p)
        && buf[..n] == s[p..p + n]
        && buf[n..] == old(buf[n..])
        && Position() == p + n
    {
      ghost var p, s, orig := Position(), Stream(items, fs), buf[..];
      PositionInStream();
      var start := 0;
      while start < buf.Length
        invariant Valid() && start <= buf.Length && p + start <= |s|
        invariant Position() == p + start
        invariant buf[..start] == s[p..p + start]
        invariant buf[start..] == orig[start..]
      {
        var k := FillStep(buf, start, p, s, orig);
        if k == 0 {
          assert p + start == |s|;
          break;
        }
        start := start + k;
      }
      n := start;
    }

    /** One turn of the loop of `fill`: `advance`, then one `read` from the
        current file into the free part of `buf`.  It reads nothing only
        when the stream is used up. */
    method FillStep(buf: array<u8>, start: nat, ghost p: nat, ghost s: seq<u8>, ghost orig: seq<u8>) returns (k: nat)
      requires Valid() && s == Stream(items, fs) && start < buf.Length
      requires Position() == p + start <= |s| && buf[..start] == s[p..p + start]
      requires |orig| == buf.Length && buf[start..] == orig[start..]
      modifies this, buf
      ensures Valid() && start + k <= buf.Length && Position() == p + start + k <= |s|
      ensures buf[..start + k] == s[p..p + start + k]
      ensures buf[start + k..] == orig[start + k..]
      ensures k == 0 ==> Position() == |s|
    {
      Advance();
      if currIndex >= |items| {
        return 0;
      }
      ghost var before := buf[..];
      k := ReadPiece(buf, start, p, s);
      SameTail(buf[..], before, orig, start, k);
    }

    /** The `read` of one turn: the next bytes of the current item, at
        least one. */
    method ReadPiece(buf: array<u8>, start: nat, ghost p: nat, ghost s: seq<u8>) returns (k: nat)
      requires Valid() && s == Stream(items, fs) && start < buf.Length
      requires currIndex < |items| && currOffset < items[currIndex].length
      requires Position() == p + start <= |s| && buf[..start] == s[p..p + start]
      modifies this`currOffset, buf
      ensures Valid() && 0 < k && start + k <= buf.Length && Position() == p + start + k <= |s|
      ensures buf[..start + k] == s[p..p + start + k]
      ensures buf[start + k..] == old(buf[start + k..])
    {
      ghost var off := currOffset;
      ghost var head := buf[..start];
      k := ReadFile(buf, start);
      ghost var piece := buf[start..start + k];
      FillPiece(items, fs, s, currIndex, off, p, start, k, head, piece);
      assert buf[..start + k] == buf[..start] + piece;
    }
  }
}

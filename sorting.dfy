/** The two slice operations the archiver relies on: the stable
    `sort_by_key` of the Rust standard library and `Vec::dedup`.  Sorting is
    insertion sort by a total preorder `le`; an element goes after every
    element it is not smaller than, which is what makes it stable. */
module Sorting {
  ghost predicate TotalPreorder<T(!new)>(le: (T, T) -> bool) {
    && (forall a, b :: le(a, b) || le(b, a))
    && (forall a, b, c :: le(a, b) && le(b, c) ==> le(a, c))
  }

  predicate Sorted<T>(s: seq<T>, le: (T, T) -> bool) {
    forall i, j | 0 <= i < j < |s| :: le(s[i], s[j])
  }

  /** Elements equivalent to `x` under `le`, in their order in `s`. */
  function Peers<T>(s: seq<T>, x: T, le: (T, T) -> bool): seq<T> {
    if s == [] then []
    else (if le(s[0], x) && le(x, s[0]) then [s[0]] else []) + Peers(s[1..], x, le)
  }

  /** Insert `x` before the first element strictly greater than it. */
  function InsertAfterPeers<T>(s: seq<T>, x: T, le: (T, T) -> bool): seq<T> {
    if s == [] then [x]
    else if le(s[0], x) then [s[0]] + InsertAfterPeers(s[1..], x, le)
    else [x] + s
  }

  lemma {:induction false} InsertPerm<T>(s: seq<T>, x: T, le: (T, T) -> bool)
    ensures multiset(InsertAfterPeers(s, x, le)) == multiset(s) + multiset{x}
  {
    if s != [] {
      assert s == [s[0]] + s[1..];
      if le(s[0], x) {
        InsertPerm(s[1..], x, le);
      }
    }
  }

  lemma {:induction false} InsertSorted<T(!new)>(s: seq<T>, x: T, le: (T, T) -> bool)
    requires TotalPreorder(le) && Sorted(s, le)
    ensures Sorted(InsertAfterPeers(s, x, le), le)
  {
    if s != [] && le(s[0], x) {
      var t := InsertAfterPeers(s[1..], x, le);
      InsertSorted(s[1..], x, le);
      InsertPerm(s[1..], x, le);
      forall y | y in t
        ensures le(s[0], y)
      {
        assert y in multiset(t);
        if y != x {
          assert y in multiset(s[1..]);
          var k :| 0 <= k < |s[1..]| && s[1..][k] == y;
          assert s[k + 1] == y;
        }
      }
      SortedCons(s[0], t, le);
    }
  }

  lemma SortedCons<T>(h: T, t: seq<T>, le: (T, T) -> bool)
    requires Sorted(t, le) && forall y | y in t :: le(h, y)
    ensures Sorted([h] + t, le)
  {
    var r := [h] + t;
    forall i, j | 0 <= i < j < |r|
      ensures le(r[i], r[j])
    {
      assert r[j] == t[j - 1];
      if i > 0 {
        assert r[i] == t[i - 1];
      }
    }
  }

  lemma {:induction false} PeersConcat<T>(a: seq<T>, b: seq<T>, x: T, le: (T, T) -> bool)
    ensures Peers(a + b, x, le) == Peers(a, x, le) + Peers(b, x, le)
  {
    if a != [] {
      assert (a + b)[0] == a[0];
      assert (a + b)[1..] == a[1..] + b;
      PeersConcat(a[1..], b, x, le);
      var h := if le(a[0], x) && le(x, a[0]) then [a[0]] else [];
      assert Peers(a + b, x, le) == h + (Peers(a[1..], x, le) + Peers(b, x, le));
      assert Peers(a, x, le) == h + Peers(a[1..], x, le);
    } else {
      assert a + b == b;
    }
  }

  /** Inserting `y` after its peers appends it to its class. */
  lemma {:induction false} InsertPeers<T(!new)>(s: seq<T>, y: T, x: T, le: (T, T) -> bool)
    requires TotalPreorder(le) && Sorted(s, le)
    ensures Peers(InsertAfterPeers(s, y, le), x, le) == Peers(s, x, le) + Peers([y], x, le)
  {
    if s != [] {
      if le(s[0], y) {
        InsertPeers(s[1..], y, x, le);
        InsertPeersHead(s, y, x, le);
      } else {
        PeersConcat([y], s, x, le);
        if le(y, x) && le(x, y) {
          // every element of s is strictly greater than y, hence not a peer of x
          NoPeersAbove(s, y, x, le);
        }
      }
    }
  }

  /** The head case of `InsertPeers`: the head stays in front. */
  lemma InsertPeersHead<T>(s: seq<T>, y: T, x: T, le: (T, T) -> bool)
    requires s != [] && le(s[0], y)
    requires Peers(InsertAfterPeers(s[1..], y, le), x, le) == Peers(s[1..], x, le) + Peers([y], x, le)
    ensures Peers(InsertAfterPeers(s, y, le), x, le) == Peers(s, x, le) + Peers([y], x, le)
  {
    var t := InsertAfterPeers(s[1..], y, le);
    var u := [s[0]] + t;
    assert InsertAfterPeers(s, y, le) == u;
    assert u[0] == s[0] && u[1..] == t;
    var h := if le(s[0], x) && le(x, s[0]) then [s[0]] else [];
    var p, q := Peers(s[1..], x, le), Peers([y], x, le);
    assert Peers(u, x, le) == h + (p + q);
    assert Peers(s, x, le) == h + p;
    assert h + (p + q) == (h + p) + q;
  }

  lemma {:induction false} NoPeersAbove<T(!new)>(s: seq<T>, y: T, x: T, le: (T, T) -> bool)
    requires TotalPreorder(le) && Sorted(s, le) && s != [] && !le(s[0], y)
    requires le(y, x) && le(x, y)
    ensures Peers(s, x, le) == []
  {
    if |s| > 1 {
      assert le(s[0], s[1]);
      NoPeersAbove(s[1..], y, x, le);
    }
  }

  /** `slice::sort_by_key` with the key order folded into `le`. */
  function SortBy<T(!new)>(s: seq<T>, le: (T, T) -> bool): (r: seq<T>)
    requires TotalPreorder(le)
    ensures Sorted(r, le) && multiset(r) == multiset(s) && |r| == |s|
  {
    if s == [] then []
    else
      var init, last := s[..|s| - 1], s[|s| - 1];
      var t := SortBy(init, le);
      InsertSorted(t, last, le);
      InsertPerm(t, last, le);
      assert s == init + [last];
      assert multiset(s) == multiset(init) + multiset{last};
      var r := InsertAfterPeers(t, last, le);
      assert |r| == |multiset(r)| == |multiset(s)| == |s|;
      r
  }

  /** An element no smaller than every other goes last. */
  lemma {:induction false} InsertAfterAll<T>(s: seq<T>, x: T, le: (T, T) -> bool)
    requires forall i | 0 <= i < |s| :: le(s[i], x)
    ensures InsertAfterPeers(s, x, le) == s + [x]
  {
    if s != [] {
      InsertAfterAll(s[1..], x, le);
      assert [s[0]] + (s[1..] + [x]) == s + [x];
    }
  }

  /** Sorting a sorted sequence leaves it as it is. */
  lemma {:induction false} SortBySorted<T(!new)>(s: seq<T>, le: (T, T) -> bool)
    requires TotalPreorder(le) && Sorted(s, le)
    ensures SortBy(s, le) == s
  {
    if s != [] {
      var init, last := s[..|s| - 1], s[|s| - 1];
      assert Sorted(init, le);
      SortBySorted(init, le);
      InsertAfterAll(init, last, le);
      assert init + [last] == s;
    }
  }

  /** The sort is stable: each class of equivalent elements keeps its order. */
  lemma {:induction false} SortByStable<T(!new)>(s: seq<T>, x: T, le: (T, T) -> bool)
    requires TotalPreorder(le)
    ensures Peers(SortBy(s, le), x, le) == Peers(s, x, le)
  {
    if s != [] {
      var init, last := s[..|s| - 1], s[|s| - 1];
      SortByStable(init, x, le);
      InsertPeers(SortBy(init, le), last, x, le);
      assert s == init + [last];
      PeersConcat(init, [last], x, le);
    }
  }

  /** `dedup`: each run of equal neighbours becomes its first element. */
  function Dedup<T(==,!new)>(s: seq<T>): (r: seq<T>)
    ensures |s| > 0 ==> |r| > 0 && r[0] == s[0] && r[|r| - 1] == s[|s| - 1]
    ensures forall i | 0 <= i < |r| - 1 :: r[i] != r[i + 1]
    ensures forall x :: x in r <==> x in s
    ensures |r| <= |s|
  {
    if |s| <= 1 then s
    else
      var init, last := s[..|s| - 1], s[|s| - 1];
      assert s == init + [last];
      assert forall x :: x in s <==> x in init || x == last;
      if last == init[|init| - 1] then Dedup(init)
      else Dedup(init) + [last]
  }

  /** Position `i` starts a run of equal neighbours. */
  ghost predicate RunStart<T>(s: seq<T>, i: int) {
    0 <= i < |s| && (i == 0 || s[i] != s[i - 1])
  }

  /** The positions that start a run, in increasing order. */
  ghost function RunStarts<T>(s: seq<T>): seq<nat> {
    if s == [] then []
    else RunStarts(s[..|s| - 1]) + (if RunStart(s, |s| - 1) then [|s| - 1] else [])
  }

  /** The run starts are exactly the positions `i` with `i == 0` or
      `s[i] != s[i - 1]`, listed once each in increasing order. */
  lemma RunStartsExact<T>(s: seq<T>)
    ensures forall j | 0 <= j < |RunStarts(s)| :: RunStart(s, RunStarts(s)[j])
    ensures forall i | RunStart(s, i) :: i in RunStarts(s)
    ensures forall a, b | 0 <= a < b < |RunStarts(s)| :: RunStarts(s)[a] < RunStarts(s)[b]
  {
    RunStartsSound(s);
    RunStartsComplete(s);
  }

  lemma {:induction false} RunStartsSound<T>(s: seq<T>)
    ensures forall j | 0 <= j < |RunStarts(s)| :: RunStart(s, RunStarts(s)[j])
    ensures forall a, b | 0 <= a < b < |RunStarts(s)| :: RunStarts(s)[a] < RunStarts(s)[b]
  {
    if s != [] {
      var init := s[..|s| - 1];
      RunStartsSound(init);
      var ri := RunStarts(init);
      var r := RunStarts(s);
      assert r[..|ri|] == ri;
      forall j | 0 <= j < |ri|
        ensures ri[j] < |s| - 1 && RunStart(s, ri[j])
      {
        assert RunStart(init, ri[j]);
      }
      forall j | 0 <= j < |r|
        ensures RunStart(s, r[j])
      {
        if j < |ri| {
          assert r[j] == ri[j];
        }
      }
      forall a, b | 0 <= a < b < |r|
        ensures r[a] < r[b]
      {
        assert r[a] == ri[a];
        if b < |ri| {
          assert r[b] == ri[b];
        }
      }
    }
  }

  lemma {:induction false} RunStartsComplete<T>(s: seq<T>)
    ensures forall i | RunStart(s, i) :: i in RunStarts(s)
  {
    if s != [] {
      var init := s[..|s| - 1];
      RunStartsComplete(init);
      var ri := RunStarts(init);
      var r := RunStarts(s);
      assert r[..|ri|] == ri;
      forall i | RunStart(s, i)
        ensures i in r
      {
        if i < |s| - 1 {
          assert RunStart(init, i);
          var j :| 0 <= j < |ri| && ri[j] == i;
          assert r[j] == i;
        } else {
          assert r[|r| - 1] == i;
        }
      }
    }
  }

  /** `dedup` keeps exactly the elements at the run starts, in order. */
  lemma {:induction false} DedupKeepsRunStarts<T(!new)>(s: seq<T>)
    ensures |Dedup(s)| == |RunStarts(s)|
    ensures forall j | 0 <= j < |RunStarts(s)| :: RunStarts(s)[j] < |s| && Dedup(s)[j] == s[RunStarts(s)[j]]
  {
    RunStartsExact(s);
    if |s| == 1 {
      assert RunStarts(s[..0]) == [];
    } else if |s| > 1 {
      var init := s[..|s| - 1];
      DedupKeepsRunStarts(init);
      assert forall i | 0 <= i < |init| :: init[i] == s[i];
    }
  }

  /** `dedup` keeps a sorted sequence sorted. */
  lemma {:induction false} DedupSorted<T(!new)>(s: seq<T>, le: (T, T) -> bool)
    requires Sorted(s, le)
    ensures Sorted(Dedup(s), le)
  {
    if |s| > 1 {
      var init := s[..|s| - 1];
      assert Sorted(init, le);
      DedupSorted(init, le);
      var d := Dedup(init);
      forall y | y in d
        ensures le(y, s[|s| - 1])
      {
        var k :| 0 <= k < |init| && init[k] == y;
      }
      if s[|s| - 1] != init[|init| - 1] {
        assert Dedup(s) == d + [s[|s| - 1]];
        forall i, j | 0 <= i < j < |d| + 1
          ensures le(Dedup(s)[i], Dedup(s)[j])
        {
          if j == |d| {
            assert Dedup(s)[i] in d;
          }
        }
      }
    }
  }
}

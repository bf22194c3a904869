/** `LookupTable::iter` lists every stored path exactly once with its value.
    The walk of `build_items` visits the terminators below a node in a fixed
    order (`Terms`); each terminator belongs to exactly one stored path. */
module TrieWalk {
  import opened Format
  import opened Trie
  import opened TrieInvariant
  import Utf16

  ghost predicate ParOk(par: seq<int>) {
    forall i | 0 < i < |par| :: 0 <= par[i] < i
  }

  lemma LinkedParOk(nodes: seq<Node>, pre: seq<seq<u16>>, par: seq<int>)
    requires Linked(nodes, pre, par)
    ensures ParOk(par)
  {
    forall i | 0 < i < |par|
      ensures 0 <= par[i] < i
    {
      assert NodeOk(nodes, pre, par, i);
    }
  }

  /** `j` is `t` or an ancestor of `t` along the parent links. */
  ghost predicate Anc(par: seq<int>, t: int, j: int)
    requires ParOk(par)
    decreases t
  {
    0 <= j <= t < |par| && (t == j || (t > 0 && Anc(par, par[t], j)))
  }

  /** The child of `j` on the way down to its descendant `t`. */
  ghost function Child(par: seq<int>, j: int, t: int): (c: int)
    requires ParOk(par) && Anc(par, t, j) && t != j
    ensures j < c <= t && par[c] == j && Anc(par, t, c)
    decreases t
  {
    if par[t] == j then t else Child(par, j, par[t])
  }

  lemma {:induction false} AncStep(par: seq<int>, t: int, c: int, j: int)
    requires ParOk(par) && Anc(par, t, c) && 0 < c < |par| && par[c] == j
    ensures Anc(par, t, j) && t != j && Child(par, j, t) == c
    decreases t
  {
    if t != c {
      AncStep(par, par[t], c, j);
    }
  }

  lemma {:induction false} AncRoot(par: seq<int>, t: int)
    requires ParOk(par) && 0 <= t < |par|
    ensures Anc(par, t, 0)
    decreases t
  {
    if t > 0 {
      AncRoot(par, par[t]);
    }
  }

  /** The terminators below node `j`, in the order the walk meets them. */
  ghost function Terms(nodes: seq<Node>, j: int): (r: seq<int>)
    requires Ordered(nodes) && j >= 0
    ensures forall i | 0 <= i < |r| :: j <= r[i] < |nodes|
    decreases |nodes| - j
  {
    if j >= |nodes| then []
    else
      var n := nodes[j];
      assert NodeOrdered(n, j);
      (if n.ch == 0 then [j] else [])
      + Terms(nodes, n.lokid)
      + (if n.ch != 0 then Terms(nodes, n.eqkid) else [])
      + Terms(nodes, n.hikid)
  }

  /** The walk's items for a list of terminators. */
  function Labels(nodes: seq<Node>, pre: seq<seq<u16>>, ts: seq<int>): (r: seq<(string, u16)>)
    requires |pre| == |nodes| && forall i | 0 <= i < |ts| :: 0 <= ts[i] < |nodes|
    ensures |r| == |ts|
  {
    seq(|ts|, i requires 0 <= i < |ts| => (Utf16.DecodeLossy(pre[ts[i]]), nodes[ts[i]].eqkid))
  }

  lemma {:induction false} TermsBelow(nodes: seq<Node>, pre: seq<seq<u16>>, par: seq<int>, j: int)
    requires Linked(nodes, pre, par) && Ordered(nodes) && j >= 0
    ensures ParOk(par)
    ensures forall t | t in Terms(nodes, j) :: 0 <= t < |nodes| && nodes[t].ch == 0 && Anc(par, t, j)
    decreases |nodes| - j
  {
    LinkedParOk(nodes, pre, par);
    if j < |nodes| {
      var n := nodes[j];
      assert NodeOrdered(n, j);
      KidTermsBelow(nodes, pre, par, j, Lo);
      KidTermsBelow(nodes, pre, par, j, Hi);
      if n.ch != 0 {
        KidTermsBelow(nodes, pre, par, j, Eq);
      }
    }
  }

  lemma {:induction false} KidTermsBelow(nodes: seq<Node>, pre: seq<seq<u16>>, par: seq<int>, j: int, d: Dir)
    requires Linked(nodes, pre, par) && Ordered(nodes) && 0 <= j < |nodes| && Follows(nodes[j], d)
    ensures ParOk(par)
    ensures forall t | t in Terms(nodes, Kid(nodes[j], d) as int) :: 0 <= t < |nodes| && nodes[t].ch == 0 && Anc(par, t, j)
    decreases |nodes| - j, 0
  {
    LinkedParOk(nodes, pre, par);
    var c := Kid(nodes[j], d) as int;
    assert NodeOk(nodes, pre, par, j);
    assert LinkOk(nodes, pre, par, j, d);
    OrderedKid(nodes, j, d);
    TermsBelow(nodes, pre, par, c);
    forall t | t in Terms(nodes, c)
      ensures Anc(par, t, j)
    {
      AncStep(par, t, c, j);
    }
  }

  /** A terminator below a child `c` of `j` is reached through `c`. */
  lemma ChildOfTerms(nodes: seq<Node>, pre: seq<seq<u16>>, par: seq<int>, j: int, d: Dir, c: int)
    requires Linked(nodes, pre, par) && Ordered(nodes) && 0 <= j < |nodes| && Follows(nodes[j], d)
    requires c == Kid(nodes[j], d) as int
    ensures ParOk(par)
    ensures forall t | t in Terms(nodes, c) :: Anc(par, t, j) && t != j && Child(par, j, t) == c
  {
    assert NodeOk(nodes, pre, par, j);
    assert LinkOk(nodes, pre, par, j, d);
    TermsBelow(nodes, pre, par, c);
    forall t | t in Terms(nodes, c)
      ensures Anc(par, t, j) && t != j && Child(par, j, t) == c
    {
      AncStep(par, t, c, j);
    }
  }

  ghost predicate Distinct<T>(s: seq<T>) {
    forall a, b | 0 <= a < b < |s| :: s[a] != s[b]
  }

  lemma DistinctConcat<T>(s: seq<T>, u: seq<T>)
    requires Distinct(s) && Distinct(u)
    requires forall x, y | x in s && y in u :: x != y
    ensures Distinct(s + u)
  {
    forall a, b | 0 <= a < b < |s + u|
      ensures (s + u)[a] != (s + u)[b]
    {
      if b >= |s| && a < |s| {
        assert (s + u)[a] in s && (s + u)[b] in u;
      }
    }
  }

  lemma DistinctParts<T>(here: seq<T>, lo: seq<T>, eq: seq<T>, hi: seq<T>)
    requires Distinct(here) && Distinct(lo) && Distinct(eq) && Distinct(hi)
    requires forall x, y | x in here && y in lo :: x != y
    requires forall x, y | x in here && y in eq :: x != y
    requires forall x, y | x in here && y in hi :: x != y
    requires forall x, y | x in lo && y in eq :: x != y
    requires forall x, y | x in lo && y in hi :: x != y
    requires forall x, y | x in eq && y in hi :: x != y
    ensures Distinct(here + lo + eq + hi)
  {
    DistinctConcat(here, lo);
    DistinctConcat(here + lo, eq);
    DistinctConcat(here + lo + eq, hi);
  }

  /** Terminators reached through two different children of `j` differ. */
  lemma ApartByChild(par: seq<int>, j: int, a: seq<int>, b: seq<int>, ca: int, cb: int)
    requires ParOk(par) && ca != cb
    requires forall t | t in a :: Anc(par, t, j) && t != j && Child(par, j, t) == ca
    requires forall t | t in b :: Anc(par, t, j) && t != j && Child(par, j, t) == cb
    ensures forall x, y | x in a && y in b :: x != y
  {
  }

  /** No terminator is listed twice. */
  lemma {:induction false} TermsDistinct(nodes: seq<Node>, pre: seq<seq<u16>>, par: seq<int>, j: int)
    requires Linked(nodes, pre, par) && Ordered(nodes) && j >= 0
    ensures Distinct(Terms(nodes, j))
    decreases |nodes| - j
  {
    if j < |nodes| {
      var n := nodes[j];
      assert NodeOrdered(n, j);
      assert NodeOk(nodes, pre, par, j);
      var here := if n.ch == 0 then [j] else [];
      var lo := Terms(nodes, n.lokid);
      var eq := if n.ch != 0 then Terms(nodes, n.eqkid) else [];
      var hi := Terms(nodes, n.hikid);
      TermsDistinct(nodes, pre, par, n.lokid as int);
      TermsDistinct(nodes, pre, par, n.hikid as int);
      ChildOfTerms(nodes, pre, par, j, Lo, n.lokid as int);
      ChildOfTerms(nodes, pre, par, j, Hi, n.hikid as int);
      if n.ch != 0 {
        TermsDistinct(nodes, pre, par, n.eqkid as int);
        ChildOfTerms(nodes, pre, par, j, Eq, n.eqkid as int);
      }
      if lo != [] && hi != [] {
        ApartByChild(par, j, lo, hi, n.lokid as int, n.hikid as int);
      }
      if lo != [] && eq != [] {
        ApartByChild(par, j, lo, eq, n.lokid as int, n.eqkid as int);
      }
      if eq != [] && hi != [] {
        ApartByChild(par, j, eq, hi, n.eqkid as int, n.hikid as int);
      }
      DistinctParts(here, lo, eq, hi);
    }
  }

  /** Every terminator below `j` is listed. */
  lemma {:induction false} TermsComplete(nodes: seq<Node>, pre: seq<seq<u16>>, par: seq<int>, j: int, t: int)
    requires Linked(nodes, pre, par) && Ordered(nodes) && ParOk(par)
    requires Anc(par, t, j) && nodes[t].ch == 0
    ensures t in Terms(nodes, j)
    decreases t - j
  {
    var n := nodes[j];
    assert NodeOrdered(n, j);
    if t != j {
      var c := Child(par, j, t);
      assert NodeOk(nodes, pre, par, c);
      TermsComplete(nodes, pre, par, c, t);
    }
  }

  lemma LabelsConcat(nodes: seq<Node>, pre: seq<seq<u16>>, a: seq<int>, b: seq<int>)
    requires |pre| == |nodes|
    requires forall i | 0 <= i < |a| :: 0 <= a[i] < |nodes|
    requires forall i | 0 <= i < |b| :: 0 <= b[i] < |nodes|
    ensures Labels(nodes, pre, a + b) == Labels(nodes, pre, a) + Labels(nodes, pre, b)
  {
  }

  lemma LabelsParts(nodes: seq<Node>, pre: seq<seq<u16>>, here: seq<int>, lo: seq<int>, eq: seq<int>, hi: seq<int>)
    requires |pre| == |nodes|
    requires forall i | 0 <= i < |here| :: 0 <= here[i] < |nodes|
    requires forall i | 0 <= i < |lo| :: 0 <= lo[i] < |nodes|
    requires forall i | 0 <= i < |eq| :: 0 <= eq[i] < |nodes|
    requires forall i | 0 <= i < |hi| :: 0 <= hi[i] < |nodes|
    ensures forall i | 0 <= i < |here + lo + eq + hi| :: 0 <= (here + lo + eq + hi)[i] < |nodes|
    ensures Labels(nodes, pre, here + lo + eq + hi)
      == Labels(nodes, pre, here) + Labels(nodes, pre, lo) + Labels(nodes, pre, eq) + Labels(nodes, pre, hi)
  {
    LabelsConcat(nodes, pre, here, lo);
    LabelsConcat(nodes, pre, here + lo, eq);
    LabelsConcat(nodes, pre, here + lo + eq, hi);
  }

  lemma KeyOfPush(nodes: seq<Node>, stack: seq<ParentNid>, e: ParentNid)
    requires StackOk(nodes, stack) && (e.NoParent? || e.nid < |nodes|)
    ensures StackOk(nodes, stack + [e])
    ensures KeyOf(nodes, stack + [e]) == KeyOf(nodes, stack) + (if e.Eqkid? then [nodes[e.nid].ch] else [])
  {
    assert (stack + [e])[..|stack|] == stack;
  }

  /** With the stack spelling node `j`'s prefix, the walk from `j` yields the
      labels of the terminators below `j`, in order. */
  lemma {:induction false} WalkLabels(nodes: seq<Node>, pre: seq<seq<u16>>, par: seq<int>, stack: seq<ParentNid>, j: int)
    requires Linked(nodes, pre, par) && Ordered(nodes) && StackOk(nodes, stack) && j >= 0
    requires j < |nodes| ==> KeyOf(nodes, stack) == pre[j]
    ensures Walk(nodes, stack, j) == Labels(nodes, pre, Terms(nodes, j))
    decreases |nodes| - j, 1
  {
    if j < |nodes| {
      var n := nodes[j];
      assert NodeOrdered(n, j);
      var here := if n.ch == 0 then [j] else [];
      var lo := Terms(nodes, n.lokid);
      var eq := if n.ch != 0 then Terms(nodes, n.eqkid) else [];
      var hi := Terms(nodes, n.hikid);
      var wl := WalkKid(nodes, pre, par, stack, j, Lo);
      var wh := WalkKid(nodes, pre, par, stack, j, Hi);
      var we: seq<(string, u16)> := [];
      if n.ch != 0 {
        we := WalkKid(nodes, pre, par, stack, j, Eq);
      }
      assert wl == Labels(nodes, pre, lo) && we == Labels(nodes, pre, eq) && wh == Labels(nodes, pre, hi);
      var wHere := if n.ch == 0 then [(Utf16.DecodeLossy(KeyOf(nodes, stack)), n.eqkid)] else [];
      assert Walk(nodes, stack, j) == wHere + wl + we + wh;
      assert Terms(nodes, j) == here + lo + eq + hi;
      assert wHere == Labels(nodes, pre, here);
      LabelsParts(nodes, pre, here, lo, eq, hi);
    }
  }

  /** One followed link of the walk: push it, walk the child's subtree. */
  lemma {:induction false} WalkKid(nodes: seq<Node>, pre: seq<seq<u16>>, par: seq<int>, stack: seq<ParentNid>, j: int, d: Dir)
    returns (w: seq<(string, u16)>)
    requires Linked(nodes, pre, par) && Ordered(nodes) && StackOk(nodes, stack) && 0 <= j < |nodes|
    requires KeyOf(nodes, stack) == pre[j] && Follows(nodes[j], d)
    ensures StackOk(nodes, stack + [Link(d, j)])
    ensures w == Walk(nodes, stack + [Link(d, j)], Kid(nodes[j], d) as int)
    ensures w == Labels(nodes, pre, Terms(nodes, Kid(nodes[j], d) as int))
    decreases |nodes| - j, 0
  {
    assert NodeOk(nodes, pre, par, j);
    assert LinkOk(nodes, pre, par, j, d);
    OrderedKid(nodes, j, d);
    KeyOfPush(nodes, stack, Link(d, j));
    var c := Kid(nodes[j], d) as int;
    WalkLabels(nodes, pre, par, stack + [Link(d, j)], c);
    w := Walk(nodes, stack + [Link(d, j)], c);
  }

  /** The raw (UTF-16) paths in the order `iter` lists them. */
  ghost function IterKeys(nodes: seq<Node>, pre: seq<seq<u16>>): (r: seq<seq<u16>>)
    requires Ordered(nodes) && |pre| == |nodes|
  {
    var ts := Terms(nodes, 0);
    seq(|ts|, i requires 0 <= i < |ts| => pre[ts[i]])
  }

  /** `iter` lists each stored path exactly once, with its stored value. */
  lemma IterExact(nodes: seq<Node>, pre: seq<seq<u16>>, par: seq<int>, m: map<seq<u16>, u16>, termOf: map<seq<u16>, int>)
    requires Wf(nodes, pre, par, m, termOf)
    ensures |IterKeys(nodes, pre)| == |Iter(nodes)|
    ensures forall i | 0 <= i < |Iter(nodes)| ::
      IterKeys(nodes, pre)[i] in m && Iter(nodes)[i] == (Utf16.DecodeLossy(IterKeys(nodes, pre)[i]), m[IterKeys(nodes, pre)[i]])
    ensures forall k | k in m :: k in IterKeys(nodes, pre)
    ensures Distinct(IterKeys(nodes, pre))
  {
    IterSound(nodes, pre, par, m, termOf);
    IterComplete(nodes, pre, par, m, termOf);
    IterDistinct(nodes, pre, par, m, termOf);
  }

  /** Every item of `iter` is a stored path with its value. */
  lemma IterSound(nodes: seq<Node>, pre: seq<seq<u16>>, par: seq<int>, m: map<seq<u16>, u16>, termOf: map<seq<u16>, int>)
    requires Wf(nodes, pre, par, m, termOf)
    ensures |IterKeys(nodes, pre)| == |Iter(nodes)|
    ensures forall i | 0 <= i < |Iter(nodes)| ::
      IterKeys(nodes, pre)[i] in m && Iter(nodes)[i] == (Utf16.DecodeLossy(IterKeys(nodes, pre)[i]), m[IterKeys(nodes, pre)[i]])
  {
    var ts := Terms(nodes, 0);
    var keys := IterKeys(nodes, pre);
    if |nodes| > 0 {
      assert NodeOk(nodes, pre, par, 0);
    }
    WalkLabels(nodes, pre, par, [], 0);
    TermsBelow(nodes, pre, par, 0);
    forall i | 0 <= i < |ts|
      ensures keys[i] in m && m[keys[i]] == nodes[ts[i]].eqkid
    {
      assert ts[i] in ts;
      assert TermOk(nodes, pre, m, termOf, ts[i]);
    }
  }

  /** Every stored path is listed by `iter`. */
  lemma IterComplete(nodes: seq<Node>, pre: seq<seq<u16>>, par: seq<int>, m: map<seq<u16>, u16>, termOf: map<seq<u16>, int>)
    requires Wf(nodes, pre, par, m, termOf)
    ensures forall k | k in m :: k in IterKeys(nodes, pre)
  {
    var ts := Terms(nodes, 0);
    var keys := IterKeys(nodes, pre);
    LinkedParOk(nodes, pre, par);
    forall k | k in m
      ensures k in keys
    {
      assert KeyOk(nodes, pre, m, termOf, k);
      var t := termOf[k];
      AncRoot(par, t);
      TermsComplete(nodes, pre, par, 0, t);
      var i :| 0 <= i < |ts| && ts[i] == t;
      assert keys[i] == k;
    }
  }

  /** No stored path is listed twice: distinct terminators spell distinct
      paths. */
  lemma IterDistinct(nodes: seq<Node>, pre: seq<seq<u16>>, par: seq<int>, m: map<seq<u16>, u16>, termOf: map<seq<u16>, int>)
    requires Wf(nodes, pre, par, m, termOf)
    ensures Distinct(IterKeys(nodes, pre))
  {
    var ts := Terms(nodes, 0);
    var keys := IterKeys(nodes, pre);
    TermsBelow(nodes, pre, par, 0);
    TermsDistinct(nodes, pre, par, 0);
    forall i | 0 <= i < |ts|
      ensures keys[i] in termOf && termOf[keys[i]] == ts[i]
    {
      assert ts[i] in ts;
      assert TermOk(nodes, pre, m, termOf, ts[i]);
    }
  }
}

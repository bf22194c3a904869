/** `LookupTable::insert` of a new path keeps the invariant of
    `TrieInvariant`, stores the path with its value and keeps every other
    stored path. */
module TrieGrowth {
  import opened Format
  import opened Trie
  import opened TrieInvariant

  /** A search key is a path without 0 units followed by one 0. */
  predicate OnlyLastZero(key: seq<u16>) {
    IsKey(key) && forall i | 0 <= i < |key| - 1 :: key[i] != 0
  }

  lemma KeyShape(k: seq<u16>)
    requires 0 !in k
    ensures OnlyLastZero(k + [0]) && (k + [0])[..|k|] == k
  {
    assert forall i | 0 <= i < |k| :: (k + [0])[i] == k[i] && k[i] in k;
  }

  /** Following the appended eq chain from its j-th node finds `v`. */
  lemma {:induction false} DescendChain(grown: seq<Node>, key: seq<u16>, s: nat, base: nat, j: nat, v: u16, p: ParentNid)
    requires Ordered(grown) && OnlyLastZero(key) && s < |key|
    requires base + (|key| - s) <= |grown| && base + (|key| - s) <= 0x1_0000
    requires forall i | 0 <= i < |key| - s :: grown[base + i] == ChainNode(key[s..], i, base, v)
    requires j < |key| - s && (p.NoParent? || p.nid < |grown|)
    ensures Descend(grown, key, s + j, base + j, p) == Found(v)
    decreases |key| - s - j
  {
    var n := grown[base + j];
    assert n == ChainNode(key[s..], j, base, v);
    assert n.ch == key[s + j];
    if key[s + j] != 0 {
      DescendChain(grown, key, s, base, j + 1, v, Eqkid(base + j));
    }
  }

  /** Paths found before the append are found, with the same value, after it. */
  lemma {:induction false} DescendFrame(nodes: seq<Node>, grown: seq<Node>, rest: seq<u16>, pp: ParentNid, v: u16,
                                        key: seq<u16>, sidx: nat, nid: int, p: ParentNid)
    requires Ordered(nodes) && Ordered(grown) && IsKey(key) && sidx < |key| && nid >= 0
    requires p.NoParent? || p.nid < |nodes|
    requires pp.NoParent? || pp.nid < |nodes|
    requires |nodes| + |rest| <= 0x1_0000 && rest != []
    requires AppendedShape(nodes, grown, rest, pp, v)
    requires !pp.NoParent? ==> Follows(nodes[pp.nid], pp.DirOf()) && Kid(nodes[pp.nid], pp.DirOf()) as int >= |nodes|
    requires Descend(nodes, key, sidx, nid, p).Found?
    ensures Descend(grown, key, sidx, nid, p) == Descend(nodes, key, sidx, nid, p)
    decreases |nodes| - nid
  {
    var n := nodes[nid];
    var g := grown[nid];
    assert NodeOrdered(n, nid);
    var sch := key[sidx];
    if sch < n.ch {
      var r := Descend(nodes, key, sidx, n.lokid, Lokid(nid));
      assert n.lokid as int < |nodes|;
      assert g.lokid == n.lokid;
      DescendFrame(nodes, grown, rest, pp, v, key, sidx, n.lokid as int, Lokid(nid));
    } else if sch > n.ch {
      assert n.hikid as int < |nodes|;
      assert g.hikid == n.hikid;
      DescendFrame(nodes, grown, rest, pp, v, key, sidx, n.hikid as int, Hikid(nid));
    } else if sch == 0 {
      assert g.eqkid == n.eqkid;
    } else {
      assert n.eqkid as int < |nodes|;
      assert g.eqkid == n.eqkid;
      DescendFrame(nodes, grown, rest, pp, v, key, sidx + 1, n.eqkid as int, Eqkid(nid));
    }
  }

  /** After the append, the descent of the inserted key meets the new chain
      and finds `v`. */
  lemma {:induction false} DescendNewKey(nodes: seq<Node>, grown: seq<Node>, key: seq<u16>, v: u16,
                                         s: nat, pp: ParentNid, sidx: nat, nid: int, p: ParentNid)
    requires Ordered(nodes) && Ordered(grown) && OnlyLastZero(key) && sidx < |key| && nid >= 0
    requires p.NoParent? || p.nid < |nodes|
    requires Descend(nodes, key, sidx, nid, p) == Missing(s, pp)
    requires pp.NoParent? || pp.nid < |nodes|
    requires |nodes| + |key| - s <= 0x1_0000
    requires AppendedShape(nodes, grown, key[s..], pp, v)
    requires !pp.NoParent? ==> Kid(nodes[pp.nid], pp.DirOf()) as int >= |nodes|
    requires nid < |nodes| || (nid == 0 && |nodes| == 0)
    ensures Descend(grown, key, sidx, nid, p) == Found(v)
    decreases |nodes| - nid
  {
    var base := |nodes|;
    if nid >= base {
      DescendChain(grown, key, s, base, 0, v, p);
    } else {
      var n := nodes[nid];
      assert NodeOrdered(n, nid);
      var sch := key[sidx];
      var d := if sch < n.ch then Lo else if sch > n.ch then Hi else Eq;
      var sidx' := if d == Eq then sidx + 1 else sidx;
      var c := Kid(n, d) as int;
      assert Descend(nodes, key, sidx', c, Link(d, nid)) == Missing(s, pp);
      KidAfterAppend(nodes, grown, key[s..], v, pp, nid, d);
      assert Descend(grown, key, sidx, nid, p) == Descend(grown, key, sidx', Kid(grown[nid], d) as int, Link(d, nid));
      if c < base {
        DescendNewKey(nodes, grown, key, v, s, pp, sidx', c, Link(d, nid));
      } else {
        DescendChain(grown, key, s, base, 0, v, Link(d, nid));
      }
    }
  }

  /** On the grown vector an old node keeps its unit, and its link keeps its
      target, except the missing link, which now leads to the first
      appended node. */
  lemma KidAfterAppend(nodes: seq<Node>, grown: seq<Node>, rest: seq<u16>, v: u16,
                       pp: ParentNid, nid: nat, d: Dir)
    requires nid < |nodes| && (pp.NoParent? || pp.nid < |nodes|)
    requires |nodes| + |rest| <= 0x1_0000 && rest != []
    requires AppendedShape(nodes, grown, rest, pp, v)
    requires Kid(nodes[nid], d) as int >= |nodes| ==> pp == Link(d, nid)
    requires !pp.NoParent? ==> Kid(nodes[pp.nid], pp.DirOf()) as int >= |nodes|
    ensures grown[nid].ch == nodes[nid].ch
    ensures Kid(nodes[nid], d) as int < |nodes| ==> Kid(grown[nid], d) == Kid(nodes[nid], d)
    ensures Kid(nodes[nid], d) as int >= |nodes| ==> Kid(grown[nid], d) as int == |nodes|
  {
    if !pp.NoParent? && pp.nid == nid {
      assert grown[nid] == SetKid(nodes[nid], pp.DirOf(), |nodes|);
    } else {
      assert grown[nid] == nodes[nid];
    }
  }

  // ----- the ghost companions after the append -----

  /** The new nodes' prefixes: the j-th new node has consumed `key[..s + j]`. */
  function ChainPre(key: seq<u16>, s: nat): (r: seq<seq<u16>>)
    requires s <= |key|
    ensures |r| == |key| - s
    ensures forall j | 0 <= j < |r| :: r[j] == key[..s + j]
  {
    seq(|key| - s, j requires 0 <= j < |key| - s => key[..s + j])
  }

  /** The new nodes' parents: the old parent link for the first, the
      previous new node for the others. */
  function ChainPar(base: nat, p: ParentNid, r: nat): (q: seq<int>)
    ensures |q| == r
    ensures forall j | 0 < j < r :: q[j] == base + j - 1
    ensures r > 0 ==> q[0] == (if p.NoParent? then -1 else p.nid)
  {
    seq(r, j => if j == 0 then (if p.NoParent? then -1 else p.nid) else base + j - 1)
  }

  /** The situation after the descent missed and the append ran. */
  ghost predicate Growing(nodes: seq<Node>, pre: seq<seq<u16>>, par: seq<int>, grown: seq<Node>,
                          key: seq<u16>, s: nat, pp: ParentNid, v: u16)
  {
    && Linked(nodes, pre, par)
    && Ordered(nodes)
    && OnlyLastZero(key)
    && s < |key|
    && |nodes| + |key| - s <= NoChild as int
    && (pp.NoParent? || pp.nid < |nodes|)
    && MissingOk(nodes, pre, key, Missing(s, pp))
    && AppendedShape(nodes, grown, key[s..], pp, v)
  }

  lemma KidKept(n: Node, d: Dir, x: u16, i: int)
    requires IsKidOf(n, i) && Kid(n, d) as int != i
    ensures IsKidOf(SetKid(n, d, x), i)
  {
  }

  lemma OldNodeStaysOk(nodes: seq<Node>, pre: seq<seq<u16>>, par: seq<int>, grown: seq<Node>,
                       key: seq<u16>, s: nat, pp: ParentNid, v: u16, i: int)
    requires Growing(nodes, pre, par, grown, key, s, pp, v)
    requires 0 <= i < |nodes| && (pp.NoParent? || i != pp.nid)
    ensures var pre', par' := pre + ChainPre(key, s), par + ChainPar(|nodes|, pp, |key| - s);
      |pre'| == |grown| && |par'| == |grown| && NodeOk(grown, pre', par', i)
  {
    var pre', par' := pre + ChainPre(key, s), par + ChainPar(|nodes|, pp, |key| - s);
    assert NodeOk(nodes, pre, par, i);
    forall d: Dir
      ensures LinkOk(grown, pre', par', i, d)
    {
      assert LinkOk(nodes, pre, par, i, d);
    }
    if i > 0 {
      var q := par[i];
      assert NodeOk(nodes, pre, par, q);
      if !pp.NoParent? && q == pp.nid {
        assert LinkOk(nodes, pre, par, q, pp.DirOf());
        KidKept(nodes[q], pp.DirOf(), |nodes| as u16, i);
      }
    }
  }

  lemma ParentNodeOk(nodes: seq<Node>, pre: seq<seq<u16>>, par: seq<int>, grown: seq<Node>,
                     key: seq<u16>, s: nat, pp: ParentNid, v: u16)
    requires Growing(nodes, pre, par, grown, key, s, pp, v)
    requires !pp.NoParent?
    ensures var pre', par' := pre + ChainPre(key, s), par + ChainPar(|nodes|, pp, |key| - s);
      |pre'| == |grown| && |par'| == |grown| && NodeOk(grown, pre', par', pp.nid)
  {
    var pre', par' := pre + ChainPre(key, s), par + ChainPar(|nodes|, pp, |key| - s);
    var q := pp.nid;
    ParentLinkOk(nodes, pre, par, grown, key, s, pp, v, Lo);
    ParentLinkOk(nodes, pre, par, grown, key, s, pp, v, Eq);
    ParentLinkOk(nodes, pre, par, grown, key, s, pp, v, Hi);
    assert NodeOk(nodes, pre, par, q);
    assert pre'[q] == pre[q] && par'[q] == par[q];
    if q > 0 {
      var t := par[q];
      assert grown[t] == nodes[t];
    }
  }

  /** The parent's links after the append: the missing one leads to the
      first new node, the others are unchanged and lead elsewhere. */
  lemma ParentLinkOk(nodes: seq<Node>, pre: seq<seq<u16>>, par: seq<int>, grown: seq<Node>,
                     key: seq<u16>, s: nat, pp: ParentNid, v: u16, e: Dir)
    requires Growing(nodes, pre, par, grown, key, s, pp, v)
    requires !pp.NoParent?
    ensures var pre', par' := pre + ChainPre(key, s), par + ChainPar(|nodes|, pp, |key| - s);
      |pre'| == |grown| && |par'| == |grown| && LinkOk(grown, pre', par', pp.nid, e)
    ensures KidsDistinct(grown[pp.nid])
  {
    var pre', par' := pre + ChainPre(key, s), par + ChainPar(|nodes|, pp, |key| - s);
    var q, d := pp.nid, pp.DirOf();
    var base := |nodes|;
    assert NodeOk(nodes, pre, par, q);
    assert grown[q] == SetKid(nodes[q], d, base as u16);
    assert pre'[base] == key[..s];
    assert LinkOk(nodes, pre, par, q, e);
    forall e': Dir
      ensures Follows(nodes[q], e') ==> Kid(nodes[q], e') == NoChild || Kid(nodes[q], e') as int < base
    {
      assert LinkOk(nodes, pre, par, q, e');
    }
  }

  /** The j-th appended node holds the (s + j)-th key unit, and only the
      last one is a terminator. */
  lemma ChainUnit(key: seq<u16>, s: nat, j: int)
    requires OnlyLastZero(key) && s < |key| && 0 <= j < |key| - s
    ensures key[s..][j] == key[s + j]
    ensures key[s + j] == 0 <==> j == |key| - s - 1
  {
  }

  lemma ChainEqLinkOk(nodes: seq<Node>, pre: seq<seq<u16>>, par: seq<int>, grown: seq<Node>,
                      key: seq<u16>, s: nat, pp: ParentNid, v: u16, j: int)
    requires Growing(nodes, pre, par, grown, key, s, pp, v)
    requires 0 <= j < |key| - s
    ensures var pre', par' := pre + ChainPre(key, s), par + ChainPar(|nodes|, pp, |key| - s);
      |pre'| == |grown| && |par'| == |grown| && LinkOk(grown, pre', par', |nodes| + j, Eq)
  {
    var pre', par' := pre + ChainPre(key, s), par + ChainPar(|nodes|, pp, |key| - s);
    var base := |nodes|;
    var i := base + j;
    assert grown[i] == ChainNode(key[s..], j, base, v);
    ChainUnit(key, s, j);
    if key[s + j] != 0 {
      assert pre'[i] == key[..s + j];
      assert pre'[i + 1] == key[..s + j + 1];
      assert key[..s + j + 1] == key[..s + j] + [key[s + j]];
    }
  }

  lemma ChainParentOk(nodes: seq<Node>, pre: seq<seq<u16>>, par: seq<int>, grown: seq<Node>,
                      key: seq<u16>, s: nat, pp: ParentNid, v: u16, j: int)
    requires Growing(nodes, pre, par, grown, key, s, pp, v)
    requires 0 <= j < |key| - s
    ensures var pre', par' := pre + ChainPre(key, s), par + ChainPar(|nodes|, pp, |key| - s);
      var i := |nodes| + j;
      && (i == 0 ==> pre'[0] == [])
      && (i > 0 ==> 0 <= par'[i] < i && IsKidOf(grown[par'[i]], i))
  {
    var pre', par' := pre + ChainPre(key, s), par + ChainPar(|nodes|, pp, |key| - s);
    var base := |nodes|;
    var i := base + j;
    if i == 0 {
      assert pre'[0] == key[..s];
    } else if j == 0 {
      var q, d := pp.nid, pp.DirOf();
      assert par'[i] == q;
      assert grown[q] == SetKid(nodes[q], d, base as u16);
      FollowedKidIsKid(grown[q], d);
    } else {
      assert par'[i] == i - 1;
      assert grown[i - 1] == ChainNode(key[s..], j - 1, base, v);
      ChainUnit(key, s, j - 1);
    }
  }

  lemma ChainNodeOk(nodes: seq<Node>, pre: seq<seq<u16>>, par: seq<int>, grown: seq<Node>,
                    key: seq<u16>, s: nat, pp: ParentNid, v: u16, j: int)
    requires Growing(nodes, pre, par, grown, key, s, pp, v)
    requires 0 <= j < |key| - s
    ensures var pre', par' := pre + ChainPre(key, s), par + ChainPar(|nodes|, pp, |key| - s);
      |pre'| == |grown| && |par'| == |grown| && NodeOk(grown, pre', par', |nodes| + j)
  {
    var base := |nodes|;
    assert grown[base + j] == ChainNode(key[s..], j, base, v);
    ChainEqLinkOk(nodes, pre, par, grown, key, s, pp, v, j);
    ChainParentOk(nodes, pre, par, grown, key, s, pp, v, j);
  }

  lemma GrownLinked(nodes: seq<Node>, pre: seq<seq<u16>>, par: seq<int>, grown: seq<Node>,
                    key: seq<u16>, s: nat, pp: ParentNid, v: u16)
    requires Growing(nodes, pre, par, grown, key, s, pp, v)
    ensures Linked(grown, pre + ChainPre(key, s), par + ChainPar(|nodes|, pp, |key| - s))
  {
    var pre', par' := pre + ChainPre(key, s), par + ChainPar(|nodes|, pp, |key| - s);
    ChainNodesOk(nodes, pre, par, grown, key, s, pp, v, pre', par');
    OldNodesOk(nodes, pre, par, grown, key, s, pp, v, pre', par');
    if !pp.NoParent? {
      ParentNodeOk(nodes, pre, par, grown, key, s, pp, v);
    }
    forall i | 0 <= i < |grown|
      ensures NodeOk(grown, pre', par', i)
    {
    }
  }

  lemma ChainNodesOk(nodes: seq<Node>, pre: seq<seq<u16>>, par: seq<int>, grown: seq<Node>,
                     key: seq<u16>, s: nat, pp: ParentNid, v: u16, pre': seq<seq<u16>>, par': seq<int>)
    requires Growing(nodes, pre, par, grown, key, s, pp, v)
    requires pre' == pre + ChainPre(key, s) && par' == par + ChainPar(|nodes|, pp, |key| - s)
    ensures |pre'| == |grown| && |par'| == |grown|
    ensures forall i | |nodes| <= i < |grown| :: NodeOk(grown, pre', par', i)
  {
    forall i | |nodes| <= i < |grown|
      ensures NodeOk(grown, pre', par', i)
    {
      ChainNodeOk(nodes, pre, par, grown, key, s, pp, v, i - |nodes|);
    }
  }

  lemma OldNodesOk(nodes: seq<Node>, pre: seq<seq<u16>>, par: seq<int>, grown: seq<Node>,
                   key: seq<u16>, s: nat, pp: ParentNid, v: u16, pre': seq<seq<u16>>, par': seq<int>)
    requires Growing(nodes, pre, par, grown, key, s, pp, v)
    requires pre' == pre + ChainPre(key, s) && par' == par + ChainPar(|nodes|, pp, |key| - s)
    ensures |pre'| == |grown| && |par'| == |grown| && |nodes| <= |grown|
    ensures forall i | 0 <= i < |nodes| && (pp.NoParent? || i != pp.nid) :: NodeOk(grown, pre', par', i)
  {
    forall i | 0 <= i < |nodes| && (pp.NoParent? || i != pp.nid)
      ensures NodeOk(grown, pre', par', i)
    {
      OldNodeStaysOk(nodes, pre, par, grown, key, s, pp, v, i);
    }
  }

  lemma GrownTerms(nodes: seq<Node>, pre: seq<seq<u16>>, par: seq<int>, m: map<seq<u16>, u16>, termOf: map<seq<u16>, int>,
                   grown: seq<Node>, key: seq<u16>, s: nat, pp: ParentNid, v: u16,
                   pre': seq<seq<u16>>, m': map<seq<u16>, u16>, termOf': map<seq<u16>, int>)
    requires Wf(nodes, pre, par, m, termOf)
    requires Growing(nodes, pre, par, grown, key, s, pp, v)
    requires key[..|key| - 1] !in m
    requires pre' == pre + ChainPre(key, s)
    requires m' == m[key[..|key| - 1] := v] && termOf' == termOf[key[..|key| - 1] := |grown| - 1]
    ensures |pre'| == |grown|
    ensures forall i | 0 <= i < |grown| :: TermOk(grown, pre', m', termOf', i)
  {
    var base := |nodes|;
    forall i | 0 <= i < |grown|
      ensures TermOk(grown, pre', m', termOf', i)
    {
      if i < base {
        assert TermOk(nodes, pre, m, termOf, i);
        assert grown[i].ch == nodes[i].ch;
        assert nodes[i].ch == 0 ==> grown[i].eqkid == nodes[i].eqkid;
      } else {
        var j := i - base;
        assert grown[i] == ChainNode(key[s..], j, base, v);
        ChainUnit(key, s, j);
        assert pre'[i] == key[..s + j];
      }
    }
  }

  lemma NewKeyOk(nodes: seq<Node>, pre: seq<seq<u16>>, par: seq<int>,
                 grown: seq<Node>, key: seq<u16>, s: nat, pp: ParentNid, v: u16,
                 pre': seq<seq<u16>>, m': map<seq<u16>, u16>, termOf': map<seq<u16>, int>)
    requires Growing(nodes, pre, par, grown, key, s, pp, v)
    requires Ordered(grown)
    requires Descend(nodes, key, 0, 0, NoParent) == Missing(s, pp)
    requires key == key[..|key| - 1] + [0]
    requires pre' == pre + ChainPre(key, s)
    requires key[..|key| - 1] in m' && m'[key[..|key| - 1]] == v
    requires key[..|key| - 1] in termOf' && termOf'[key[..|key| - 1]] == |grown| - 1
    ensures |pre'| == |grown|
    ensures KeyOk(grown, pre', m', termOf', key[..|key| - 1])
  {
    var k := key[..|key| - 1];
    var base := |nodes|;
    var j := |key| - s - 1;
    assert grown[base + j] == ChainNode(key[s..], j, base, v);
    ChainUnit(key, s, j);
    assert pre'[base + j] == key[..s + j];
    assert forall i | 0 <= i < |k| :: k[i] == key[i];
    DescendNewKey(nodes, grown, key, v, s, pp, 0, 0, NoParent);
  }

  lemma OldKeyOk(nodes: seq<Node>, pre: seq<seq<u16>>, par: seq<int>, m: map<seq<u16>, u16>, termOf: map<seq<u16>, int>,
                 grown: seq<Node>, key: seq<u16>, s: nat, pp: ParentNid, v: u16,
                 pre': seq<seq<u16>>, m': map<seq<u16>, u16>, termOf': map<seq<u16>, int>, k': seq<u16>)
    requires Wf(nodes, pre, par, m, termOf)
    requires Growing(nodes, pre, par, grown, key, s, pp, v)
    requires Ordered(grown)
    requires pre' == pre + ChainPre(key, s)
    requires k' in m && k' in m' && m'[k'] == m[k'] && k' in termOf' && termOf'[k'] == termOf[k']
    ensures |pre'| == |grown|
    ensures KeyOk(grown, pre', m', termOf', k')
  {
    assert KeyOk(nodes, pre, m, termOf, k');
    var t := termOf[k'];
    assert grown[t].ch == nodes[t].ch;
    DescendFrame(nodes, grown, key[s..], pp, v, k' + [0], 0, 0, NoParent);
  }

  /** Inserting a path that is not stored yet returns 0, stores the path
      with `v` and keeps the invariant; the new ghost companions are returned. */
  lemma InsertNew(nodes: seq<Node>, pre: seq<seq<u16>>, par: seq<int>, m: map<seq<u16>, u16>, termOf: map<seq<u16>, int>,
                  k: seq<u16>, v: u16)
    returns (pre': seq<seq<u16>>, par': seq<int>, termOf': map<seq<u16>, int>)
    requires Wf(nodes, pre, par, m, termOf)
    requires 0 !in k && k !in m
    requires |nodes| + Added(nodes, k + [0]) <= NoChild as int
    ensures Ordered(nodes) && IsKey(k + [0])
    ensures InsertNodes(nodes, k + [0], v).1 == 0
    ensures Wf(InsertNodes(nodes, k + [0], v).0, pre', par', m[k := v], termOf')
  {
    var key := k + [0];
    KeyShape(k);
    var s, pp, grown := MissAndAppend(nodes, pre, par, m, termOf, k, v);
    pre' := pre + ChainPre(key, s);
    par' := par + ChainPar(|nodes|, pp, |key| - s);
    termOf' := termOf[k := |grown| - 1];
    GrownWf(nodes, pre, par, m, termOf, grown, key, s, pp, v, pre', par', termOf');
  }

  /** The descent of a path that is not stored misses; the append follows. */
  lemma MissAndAppend(nodes: seq<Node>, pre: seq<seq<u16>>, par: seq<int>, m: map<seq<u16>, u16>,
                      termOf: map<seq<u16>, int>, k: seq<u16>, v: u16)
    returns (s: nat, pp: ParentNid, grown: seq<Node>)
    requires Wf(nodes, pre, par, m, termOf)
    requires 0 !in k && k !in m
    requires |nodes| + Added(nodes, k + [0]) <= NoChild as int
    ensures Ordered(nodes) && OnlyLastZero(k + [0]) && (k + [0])[..|k|] == k
    ensures Descend(nodes, k + [0], 0, 0, NoParent) == Missing(s, pp)
    ensures InsertNodes(nodes, k + [0], v) == (grown, 0)
    ensures Growing(nodes, pre, par, grown, k + [0], s, pp, v)
  {
    var key := k + [0];
    KeyShape(k);
    LookupStored(nodes, pre, par, m, termOf, k);
    var probe := Descend(nodes, key, 0, 0, NoParent);
    s, pp := probe.sidx, probe.parent;
    RootState(nodes, pre, par, key);
    DescendMissing(nodes, pre, par, key, 0, 0, NoParent);
    AppendShape(nodes, key[s..], pp, v);
    grown := Append(nodes, key[s..], pp, v);
  }

  /** The grown vector with its new companions satisfies the invariant,
      with the new path stored. */
  lemma GrownWf(nodes: seq<Node>, pre: seq<seq<u16>>, par: seq<int>, m: map<seq<u16>, u16>, termOf: map<seq<u16>, int>,
                grown: seq<Node>, key: seq<u16>, s: nat, pp: ParentNid, v: u16,
                pre': seq<seq<u16>>, par': seq<int>, termOf': map<seq<u16>, int>)
    requires Wf(nodes, pre, par, m, termOf)
    requires Growing(nodes, pre, par, grown, key, s, pp, v)
    requires Descend(nodes, key, 0, 0, NoParent) == Missing(s, pp)
    requires key == key[..|key| - 1] + [0] && key[..|key| - 1] !in m
    requires pre' == pre + ChainPre(key, s) && par' == par + ChainPar(|nodes|, pp, |key| - s)
    requires termOf' == termOf[key[..|key| - 1] := |grown| - 1]
    ensures Wf(grown, pre', par', m[key[..|key| - 1] := v], termOf')
  {
    var k := key[..|key| - 1];
    GrownLinked(nodes, pre, par, grown, key, s, pp, v);
    LinkedOrdered(grown, pre', par');
    GrownTerms(nodes, pre, par, m, termOf, grown, key, s, pp, v, pre', m[k := v], termOf');
    GrownKeys(nodes, pre, par, m, termOf, grown, key, s, pp, v, pre', m[k := v], termOf');
  }

  lemma GrownKeys(nodes: seq<Node>, pre: seq<seq<u16>>, par: seq<int>, m: map<seq<u16>, u16>, termOf: map<seq<u16>, int>,
                  grown: seq<Node>, key: seq<u16>, s: nat, pp: ParentNid, v: u16,
                  pre': seq<seq<u16>>, m': map<seq<u16>, u16>, termOf': map<seq<u16>, int>)
    requires Wf(nodes, pre, par, m, termOf)
    requires Growing(nodes, pre, par, grown, key, s, pp, v)
    requires Ordered(grown)
    requires Descend(nodes, key, 0, 0, NoParent) == Missing(s, pp)
    requires key == key[..|key| - 1] + [0] && key[..|key| - 1] !in m
    requires pre' == pre + ChainPre(key, s)
    requires termOf' == termOf[key[..|key| - 1] := |grown| - 1]
    requires m' == m[key[..|key| - 1] := v]
    ensures |pre'| == |grown|
    ensures forall k' | k' in m' :: KeyOk(grown, pre', m', termOf', k')
  {
    var k := key[..|key| - 1];
    forall k' | k' in m'
      ensures KeyOk(grown, pre', m', termOf', k')
    {
      if k' == k {
        NewKeyOk(nodes, pre, par, grown, key, s, pp, v, pre', m', termOf');
      } else {
        OldKeyOk(nodes, pre, par, m, termOf, grown, key, s, pp, v, pre', m', termOf', k');
      }
    }
  }

  /** Inserting a stored path changes nothing and returns its stored value. */
  lemma InsertStored(nodes: seq<Node>, pre: seq<seq<u16>>, par: seq<int>, m: map<seq<u16>, u16>, termOf: map<seq<u16>, int>,
                     k: seq<u16>, v: u16)
    requires Wf(nodes, pre, par, m, termOf)
    requires 0 !in k && k in m
    ensures Ordered(nodes) && IsKey(k + [0])
    ensures InsertNodes(nodes, k + [0], v) == (nodes, m[k])
  {
    KeyShape(k);
    LookupStored(nodes, pre, par, m, termOf, k);
  }
}

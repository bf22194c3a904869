/** The invariant that every node vector built by `LookupTable::insert` keeps,
    and the proof that `insert` keeps it.  The invariant is stated over the
    node vector and four ghost companions:
      pre[i]     the units consumed on the way from the root to node i,
      par[i]     the one node whose link leads to node i,
      m          the stored paths (as UTF-16 units) and their values,
      termOf[k]  the terminator node of stored path k. */
module TrieInvariant {
  import opened Format
  import opened Trie

  predicate IsKidOf(n: Node, j: int) {
    n.lokid == j || n.hikid == j || (n.ch != 0 && n.eqkid == j)
  }

  lemma FollowedKidIsKid(n: Node, d: Dir)
    requires Follows(n, d)
    ensures IsKidOf(n, Kid(n, d))
  {
  }

  /** A followed link is "no child" or leads forward to a node whose parent
      is this one and whose prefix extends this one's by the link's step. */
  ghost predicate LinkOk(nodes: seq<Node>, pre: seq<seq<u16>>, par: seq<int>, i: int, d: Dir)
    requires |pre| == |nodes| && |par| == |nodes| && 0 <= i < |nodes|
  {
    Follows(nodes[i], d) ==>
      var c := Kid(nodes[i], d) as int;
      c == NoChild as int || (i < c < |nodes| && par[c] == i && pre[c] == pre[i] + Step(nodes[i], d))
  }

  ghost predicate KidsDistinct(n: Node) {
    && (n.lokid != NoChild ==> n.lokid != n.hikid)
    && (n.ch != 0 && n.eqkid != NoChild ==> n.eqkid != n.lokid && n.eqkid != n.hikid)
  }

  ghost predicate NodeOk(nodes: seq<Node>, pre: seq<seq<u16>>, par: seq<int>, i: int)
    requires |pre| == |nodes| && |par| == |nodes| && 0 <= i < |nodes|
  {
    && LinkOk(nodes, pre, par, i, Lo)
    && LinkOk(nodes, pre, par, i, Eq)
    && LinkOk(nodes, pre, par, i, Hi)
    && KidsDistinct(nodes[i])
    && (i == 0 ==> pre[0] == [])
    && (i > 0 ==> 0 <= par[i] < i && IsKidOf(nodes[par[i]], i))
  }

  /** The vector is a tree rooted at node 0 whose links all point forward. */
  ghost predicate Linked(nodes: seq<Node>, pre: seq<seq<u16>>, par: seq<int>) {
    && |nodes| <= NoChild as int
    && |pre| == |nodes| && |par| == |nodes|
    && forall i | 0 <= i < |nodes| :: NodeOk(nodes, pre, par, i)
  }

  lemma LinkedOrdered(nodes: seq<Node>, pre: seq<seq<u16>>, par: seq<int>)
    requires Linked(nodes, pre, par)
    ensures Ordered(nodes)
  {
    forall i | 0 <= i < |nodes|
      ensures NodeOrdered(nodes[i], i)
    {
      assert NodeOk(nodes, pre, par, i);
      assert LinkOk(nodes, pre, par, i, Lo) && LinkOk(nodes, pre, par, i, Eq) && LinkOk(nodes, pre, par, i, Hi);
    }
  }

  /** A terminator spells a stored path, is that path's terminator, and holds its value. */
  ghost predicate TermOk(nodes: seq<Node>, pre: seq<seq<u16>>, m: map<seq<u16>, u16>, termOf: map<seq<u16>, int>, i: int)
    requires |pre| == |nodes| && 0 <= i < |nodes|
  {
    nodes[i].ch == 0 ==>
      pre[i] in m && pre[i] in termOf && termOf[pre[i]] == i && m[pre[i]] == nodes[i].eqkid
  }

  /** A stored path has a terminator, holds no 0 unit, and the descent of
      `insert` finds its value. */
  ghost predicate KeyOk(nodes: seq<Node>, pre: seq<seq<u16>>, m: map<seq<u16>, u16>, termOf: map<seq<u16>, int>, k: seq<u16>)
    requires Ordered(nodes) && |pre| == |nodes| && k in m
  {
    && k in termOf
    && 0 <= termOf[k] < |nodes|
    && nodes[termOf[k]].ch == 0
    && pre[termOf[k]] == k
    && 0 !in k
    && Descend(nodes, k + [0], 0, 0, NoParent) == Found(m[k])
  }

  ghost predicate Wf(nodes: seq<Node>, pre: seq<seq<u16>>, par: seq<int>, m: map<seq<u16>, u16>, termOf: map<seq<u16>, int>) {
    && Linked(nodes, pre, par)
    && Ordered(nodes)
    && (forall i | 0 <= i < |nodes| :: TermOk(nodes, pre, m, termOf, i))
    && termOf.Keys == m.Keys
    && (forall k | k in m :: KeyOk(nodes, pre, m, termOf, k))
  }

  lemma EmptyWf()
    ensures Wf([], [], [], map[], map[])
  {
  }

  /** The state of the descent loop: the units consumed so far are the
      prefix of the current node, and of the link just taken. */
  ghost predicate StateOk(nodes: seq<Node>, pre: seq<seq<u16>>, key: seq<u16>, sidx: nat, nid: int, p: ParentNid)
    requires |pre| == |nodes| && sidx <= |key|
  {
    && (0 <= nid < |nodes| ==> key[..sidx] == pre[nid])
    && (p.NoParent? ==> nid == 0 && sidx == 0)
    && (!p.NoParent? ==>
          && p.nid < |nodes|
          && Follows(nodes[p.nid], p.DirOf())
          && Kid(nodes[p.nid], p.DirOf()) as int == nid
          && key[..sidx] == pre[p.nid] + Step(nodes[p.nid], p.DirOf()))
  }

  function Link(d: Dir, nid: nat): (r: ParentNid)
    ensures !r.NoParent? && r.nid == nid && r.DirOf() == d
  {
    match d
    case Lo => Lokid(nid)
    case Eq => Eqkid(nid)
    case Hi => Hikid(nid)
  }

  /** One step of the descent keeps the loop state. */
  lemma StepOk(nodes: seq<Node>, pre: seq<seq<u16>>, par: seq<int>, key: seq<u16>, sidx: nat, nid: int, d: Dir)
    requires Linked(nodes, pre, par) && 0 <= nid < |nodes| && sidx < |key| && key[..sidx] == pre[nid]
    requires Follows(nodes[nid], d) && (d == Eq ==> key[sidx] == nodes[nid].ch)
    ensures StateOk(nodes, pre, key, if d == Eq then sidx + 1 else sidx, Kid(nodes[nid], d) as int, Link(d, nid))
  {
    assert NodeOk(nodes, pre, par, nid);
    assert LinkOk(nodes, pre, par, nid, d);
    if d == Eq {
      assert key[..sidx + 1] == key[..sidx] + [key[sidx]];
    }
  }

  /** Where a missing key stops: at a followed "no child" link whose prefix
      is the matched part of the key, or at the root of an empty vector. */
  ghost predicate MissingOk(nodes: seq<Node>, pre: seq<seq<u16>>, key: seq<u16>, r: Probe)
    requires |pre| == |nodes| && r.Missing? && r.sidx <= |key|
  {
    && (r.parent.NoParent? ==> |nodes| == 0 && r.sidx == 0)
    && (!r.parent.NoParent? ==>
          && r.parent.nid < |nodes|
          && Follows(nodes[r.parent.nid], r.parent.DirOf())
          && Kid(nodes[r.parent.nid], r.parent.DirOf()) == NoChild
          && key[..r.sidx] == pre[r.parent.nid] + Step(nodes[r.parent.nid], r.parent.DirOf()))
  }

  lemma DescendMissing(nodes: seq<Node>, pre: seq<seq<u16>>, par: seq<int>, key: seq<u16>, sidx: nat, nid: int, p: ParentNid)
    requires Linked(nodes, pre, par) && Ordered(nodes) && IsKey(key) && sidx < |key| && nid >= 0
    requires p.NoParent? || p.nid < |nodes|
    requires StateOk(nodes, pre, key, sidx, nid, p)
    requires Descend(nodes, key, sidx, nid, p).Missing?
    ensures MissingOk(nodes, pre, key, Descend(nodes, key, sidx, nid, p))
    decreases |nodes| - nid
  {
    if nid >= |nodes| {
      if !p.NoParent? {
        assert NodeOk(nodes, pre, par, p.nid);
        assert LinkOk(nodes, pre, par, p.nid, p.DirOf());
      }
    } else {
      var n := nodes[nid];
      var sch := key[sidx];
      assert NodeOrdered(n, nid);
      if sch < n.ch {
        StepOk(nodes, pre, par, key, sidx, nid, Lo);
        DescendMissing(nodes, pre, par, key, sidx, n.lokid, Lokid(nid));
      } else if sch > n.ch {
        StepOk(nodes, pre, par, key, sidx, nid, Hi);
        DescendMissing(nodes, pre, par, key, sidx, n.hikid, Hikid(nid));
      } else {
        StepOk(nodes, pre, par, key, sidx, nid, Eq);
        DescendMissing(nodes, pre, par, key, sidx + 1, n.eqkid, Eqkid(nid));
      }
    }
  }

  /** A found key ends at a terminator whose prefix is the key up to its first 0. */
  lemma DescendFound(nodes: seq<Node>, pre: seq<seq<u16>>, par: seq<int>, key: seq<u16>, sidx: nat, nid: int, p: ParentNid)
    returns (t: int, j: int)
    requires Linked(nodes, pre, par) && Ordered(nodes) && IsKey(key) && sidx < |key| && nid >= 0
    requires p.NoParent? || p.nid < |nodes|
    requires StateOk(nodes, pre, key, sidx, nid, p)
    requires Descend(nodes, key, sidx, nid, p).Found?
    ensures 0 <= t < |nodes| && nodes[t].ch == 0 && nodes[t].eqkid == Descend(nodes, key, sidx, nid, p).value
    ensures sidx <= j < |key| && key[j] == 0 && key[..j] == pre[t]
    decreases |nodes| - nid
  {
    var n := nodes[nid];
    var sch := key[sidx];
    assert NodeOrdered(n, nid);
    if sch < n.ch {
      StepOk(nodes, pre, par, key, sidx, nid, Lo);
      t, j := DescendFound(nodes, pre, par, key, sidx, n.lokid, Lokid(nid));
    } else if sch > n.ch {
      StepOk(nodes, pre, par, key, sidx, nid, Hi);
      t, j := DescendFound(nodes, pre, par, key, sidx, n.hikid, Hikid(nid));
    } else if sch == 0 {
      t, j := nid, sidx;
    } else {
      StepOk(nodes, pre, par, key, sidx, nid, Eq);
      t, j := DescendFound(nodes, pre, par, key, sidx + 1, n.eqkid, Eqkid(nid));
    }
  }

  lemma RootState(nodes: seq<Node>, pre: seq<seq<u16>>, par: seq<int>, key: seq<u16>)
    requires Linked(nodes, pre, par)
    ensures StateOk(nodes, pre, key, 0, 0, NoParent)
  {
    if |nodes| > 0 {
      assert NodeOk(nodes, pre, par, 0);
    }
  }

  lemma FirstZero(k: seq<u16>, j: int)
    requires 0 !in k && 0 <= j <= |k| && (k + [0])[j] == 0
    ensures j == |k|
  {
    assert forall i | 0 <= i < |k| :: (k + [0])[i] == k[i] && k[i] in k;
  }

  /** Whatever the descent finds is the value of a stored path. */
  lemma FoundIsStored(nodes: seq<Node>, pre: seq<seq<u16>>, par: seq<int>, m: map<seq<u16>, u16>, termOf: map<seq<u16>, int>, k: seq<u16>)
    requires Wf(nodes, pre, par, m, termOf) && 0 !in k
    requires Descend(nodes, k + [0], 0, 0, NoParent).Found?
    ensures k in m && Descend(nodes, k + [0], 0, 0, NoParent).value == m[k]
  {
    var key := k + [0];
    RootState(nodes, pre, par, key);
    var t, j := DescendFound(nodes, pre, par, key, 0, 0, NoParent);
    FirstZero(k, j);
    assert key[..j] == k;
    assert TermOk(nodes, pre, m, termOf, t);
  }

  /** `insert` of a path finds a value exactly when the path is stored,
      and then finds the stored value. */
  lemma LookupStored(nodes: seq<Node>, pre: seq<seq<u16>>, par: seq<int>, m: map<seq<u16>, u16>, termOf: map<seq<u16>, int>, k: seq<u16>)
    requires Wf(nodes, pre, par, m, termOf) && 0 !in k
    ensures Descend(nodes, k + [0], 0, 0, NoParent).Found? <==> k in m
    ensures k in m ==> Descend(nodes, k + [0], 0, 0, NoParent) == Found(m[k])
  {
    if k in m {
      assert KeyOk(nodes, pre, m, termOf, k);
    }
    if Descend(nodes, k + [0], 0, 0, NoParent).Found? {
      FoundIsStored(nodes, pre, par, m, termOf, k);
    }
  }

  // ----- the nodes that the append loop adds -----

  function ChainNode(rest: seq<u16>, j: int, base: int, v: u16): Node
    requires 0 <= j < |rest| && 0 <= base && base + |rest| <= 0x1_0000
  {
    Node(rest[j], NoChild, if j + 1 < |rest| then base + j + 1 else if rest[j] == 0 then v else NoChild, NoChild)
  }

  /** What `Append` does to the vector: the parent's link now leads to the
      first new node, and the new nodes form an eq chain spelling `rest`. */
  ghost predicate AppendedShape(nodes: seq<Node>, grown: seq<Node>, rest: seq<u16>, p: ParentNid, v: u16)
    requires p.NoParent? || p.nid < |nodes|
    requires |nodes| + |rest| <= 0x1_0000
  {
    && |grown| == |nodes| + |rest|
    && (forall i | 0 <= i < |nodes| && (p.NoParent? || i != p.nid) :: grown[i] == nodes[i])
    && (!p.NoParent? && rest != [] ==> grown[p.nid] == SetKid(nodes[p.nid], p.DirOf(), |nodes|))
    && (forall j | 0 <= j < |rest| :: grown[|nodes| + j] == ChainNode(rest, j, |nodes|, v))
  }

  lemma {:induction false} AppendShape(nodes: seq<Node>, rest: seq<u16>, p: ParentNid, v: u16)
    requires p.NoParent? || p.nid < |nodes|
    requires |nodes| + |rest| <= 0x1_0000
    ensures AppendedShape(nodes, Append(nodes, rest, p, v), rest, p, v)
    decreases |rest|
  {
    if rest != [] {
      var base := |nodes|;
      var node := Node(rest[0], NoChild, if rest[0] == 0 then v else NoChild, NoChild);
      var linked := Update(p, nodes, base) + [node];
      var grown := Append(linked, rest[1..], Eqkid(base), v);
      AppendShape(linked, rest[1..], Eqkid(base), v);
      assert grown == Append(nodes, rest, p, v);
      forall j | 0 <= j < |rest|
        ensures grown[base + j] == ChainNode(rest, j, base, v)
      {
        if j == 0 {
          if |rest| > 1 {
            assert grown[base] == SetKid(linked[base], Eq, base + 1);
          } else {
            assert grown[base] == linked[base];
          }
        } else {
          assert grown[(base + 1) + (j - 1)] == ChainNode(rest[1..], j - 1, base + 1, v);
        }
      }
    }
  }
}

/** The path index of kwui-cli/src/packager.rs: a ternary search tree over
    UTF-16 units kept as a flat vector of nodes (`LookupTable`).  A node with
    `ch == 0` terminates a path and keeps the path's item id in `eqkid`; a
    link equal to 0xFFFF (`u16::MAX`) means "no child".  This module holds the
    operations as functions on the node vector; `Lookup.LookupTable` is the
    object that owns the vector. */
module Trie {
  import opened Format
  import Utf16

  /** `u16::MAX`, the link value of a missing child. */
  const NoChild: u16 := 0xFFFF

  /** Which of the three links of a node. */
  datatype Dir = Lo | Eq | Hi

  function Kid(n: Node, d: Dir): u16 {
    match d
    case Lo => n.lokid
    case Eq => n.eqkid
    case Hi => n.hikid
  }

  function SetKid(n: Node, d: Dir, x: u16): (r: Node)
    ensures Kid(r, d) == x && r.ch == n.ch
    ensures forall e :: e != d ==> Kid(r, e) == Kid(n, e)
  {
    match d
    case Lo => n.(lokid := x)
    case Eq => n.(eqkid := x)
    case Hi => n.(hikid := x)
  }

  /** Both the descent of `insert` and the walk of `build_items` follow the
      eq link only out of a node that is not a terminator. */
  predicate Follows(n: Node, d: Dir) {
    d != Eq || n.ch != 0
  }

  /** The units a link adds to the path: the node's own unit along eq. */
  function Step(n: Node, d: Dir): seq<u16> {
    if d == Eq then [n.ch] else []
  }

  /** `ParentNid`: the link through which the cursor reached the current node. */
  datatype ParentNid = NoParent | Lokid(nid: nat) | Eqkid(nid: nat) | Hikid(nid: nat) {
    function DirOf(): Dir
      requires !NoParent?
    {
      match this
      case Lokid(_) => Lo
      case Eqkid(_) => Eq
      case Hikid(_) => Hi
    }
  }

  /** `ParentNid::update`: point the parent's link at `nid`, truncated to u16
      as `nid as _` does. */
  function Update(p: ParentNid, nodes: seq<Node>, nid: nat): (r: seq<Node>)
    requires p.NoParent? || p.nid < |nodes|
    ensures |r| == |nodes|
    ensures forall i | 0 <= i < |nodes| && (p.NoParent? || i != p.nid) :: r[i] == nodes[i]
    ensures !p.NoParent? ==> r[p.nid] == SetKid(nodes[p.nid], p.DirOf(), nid % 0x1_0000)
  {
    match p
    case NoParent => nodes
    case Lokid(i) => nodes[i := nodes[i].(lokid := nid % 0x1_0000)]
    case Eqkid(i) => nodes[i := nodes[i].(eqkid := nid % 0x1_0000)]
    case Hikid(i) => nodes[i := nodes[i].(hikid := nid % 0x1_0000)]
  }

  /** Every link that is followed points past its own node, so descent and
      walk move strictly forward through the vector. */
  predicate NodeOrdered(n: Node, i: int) {
    n.lokid > i && n.hikid > i && (n.ch != 0 ==> n.eqkid > i)
  }

  predicate Ordered(nodes: seq<Node>) {
    forall i | 0 <= i < |nodes| :: NodeOrdered(nodes[i], i)
  }

  lemma OrderedKid(nodes: seq<Node>, i: int, d: Dir)
    requires Ordered(nodes) && 0 <= i < |nodes| && Follows(nodes[i], d)
    ensures Kid(nodes[i], d) > i
  {
    assert NodeOrdered(nodes[i], i);
  }

  /** The search key of `insert`: the path's units and a terminating 0. */
  predicate IsKey(key: seq<u16>) {
    |key| > 0 && key[|key| - 1] == 0
  }

  /** Outcome of the descent loop of `insert`. */
  datatype Probe = Found(value: u16) | Missing(sidx: nat, parent: ParentNid)

  /** The `while nid < self.nodes.len()` loop of `insert` (packager.rs 289-306):
      compare the current unit with the node's, go lo / hi, or consume the
      unit along eq; meeting the terminator of an equal key returns its value. */
  function Descend(nodes: seq<Node>, key: seq<u16>, sidx: nat, nid: int, p: ParentNid): (r: Probe)
    requires Ordered(nodes) && IsKey(key) && sidx < |key| && nid >= 0
    requires p.NoParent? || p.nid < |nodes|
    ensures r.Missing? ==> sidx <= r.sidx < |key|
    ensures r.Missing? ==> r.parent == p || (!r.parent.NoParent? && r.parent.nid < |nodes|)
    decreases |nodes| - nid
  {
    if nid >= |nodes| then Missing(sidx, p)
    else
      var n := nodes[nid];
      var sch := key[sidx];
      assert NodeOrdered(n, nid);
      if sch < n.ch then Descend(nodes, key, sidx, n.lokid, Lokid(nid))
      else if sch > n.ch then Descend(nodes, key, sidx, n.hikid, Hikid(nid))
      else if sch == 0 then Found(n.eqkid)
      else Descend(nodes, key, sidx + 1, n.eqkid, Eqkid(nid))
  }

  /** The `for sch in &s[sidx..]` loop of `insert` (packager.rs 308-319): each
      remaining unit becomes a fresh node linked from the previous one; the
      terminator's eqkid holds the value. */
  function Append(nodes: seq<Node>, rest: seq<u16>, p: ParentNid, v: u16): seq<Node>
    requires p.NoParent? || p.nid < |nodes|
    decreases |rest|
  {
    if rest == [] then nodes
    else
      var nid := |nodes|;
      var node := Node(rest[0], NoChild, if rest[0] == 0 then v else NoChild, NoChild);
      Append(Update(p, nodes, nid) + [node], rest[1..], Eqkid(nid), v)
  }

  /** `insert` as a function: the new node vector and the returned value. */
  function InsertNodes(nodes: seq<Node>, key: seq<u16>, v: u16): (seq<Node>, u16)
    requires Ordered(nodes) && IsKey(key)
  {
    match Descend(nodes, key, 0, 0, NoParent)
    case Found(x) => (nodes, x)
    case Missing(sidx, p) => (Append(nodes, key[sidx..], p, v), 0)
  }

  /** How many nodes `insert` appends for a key: none when the descent
      finds it, otherwise one per unit the descent did not consume. */
  function Added(nodes: seq<Node>, key: seq<u16>): (r: nat)
    requires Ordered(nodes) && IsKey(key)
    ensures r <= |key|
  {
    match Descend(nodes, key, 0, 0, NoParent)
    case Found(_) => 0
    case Missing(sidx, _) => |key| - sidx
  }

  /** Appending a chain keeps every followed link pointing forward, as long
      as the new indices stay below the "no child" value. */
  lemma {:induction false} AppendOrdered(nodes: seq<Node>, rest: seq<u16>, p: ParentNid, v: u16)
    requires Ordered(nodes) && (p.NoParent? || p.nid < |nodes|)
    requires |nodes| + |rest| <= NoChild as int
    ensures |Append(nodes, rest, p, v)| == |nodes| + |rest|
    ensures Ordered(Append(nodes, rest, p, v))
    decreases |rest|
  {
    if rest != [] {
      var nid := |nodes|;
      var node := Node(rest[0], NoChild, if rest[0] == 0 then v else NoChild, NoChild);
      var linked := Update(p, nodes, nid) + [node];
      forall i | 0 <= i < |linked|
        ensures NodeOrdered(linked[i], i)
      {
        if i < nid {
          assert NodeOrdered(nodes[i], i);
        }
      }
      AppendOrdered(linked, rest[1..], Eqkid(nid), v);
    }
  }

  /** `insert` grows the vector by `Added` nodes and keeps it ordered while
      the vector stays within the 16-bit link space. */
  lemma InsertNodesGrowth(nodes: seq<Node>, key: seq<u16>, v: u16)
    requires Ordered(nodes) && IsKey(key) && |nodes| + Added(nodes, key) <= NoChild as int
    ensures |InsertNodes(nodes, key, v).0| == |nodes| + Added(nodes, key)
    ensures Ordered(InsertNodes(nodes, key, v).0)
  {
    match Descend(nodes, key, 0, 0, NoParent)
    case Found(_) =>
    case Missing(sidx, p) =>
      AppendOrdered(nodes, key[sidx..], p, v);
  }

  predicate StackOk(nodes: seq<Node>, stack: seq<ParentNid>) {
    forall e | e in stack :: e.NoParent? || e.nid < |nodes|
  }

  /** The path spelled by a walk stack: the units of the nodes left through
      their eq link (packager.rs 255-263). */
  function KeyOf(nodes: seq<Node>, stack: seq<ParentNid>): seq<u16>
    requires StackOk(nodes, stack)
  {
    if stack == [] then []
    else
      var last := stack[|stack| - 1];
      KeyOf(nodes, stack[..|stack| - 1]) + (if last.Eqkid? then [nodes[last.nid].ch] else [])
  }

  /** `build_items` (packager.rs 244-281): depth-first, the node itself if it
      terminates a path, then the lo, eq and hi subtrees. */
  function Walk(nodes: seq<Node>, stack: seq<ParentNid>, current: int): seq<(string, u16)>
    requires Ordered(nodes) && StackOk(nodes, stack) && current >= 0
    decreases |nodes| - current
  {
    if current >= |nodes| then []
    else
      var n := nodes[current];
      assert NodeOrdered(n, current);
      var here := if n.ch == 0 then [(Utf16.DecodeLossy(KeyOf(nodes, stack)), n.eqkid)] else [];
      here
      + Walk(nodes, stack + [Lokid(current)], n.lokid)
      + (if n.ch != 0 then Walk(nodes, stack + [Eqkid(current)], n.eqkid) else [])
      + Walk(nodes, stack + [Hikid(current)], n.hikid)
  }

  /** `iter`: the walk from the root with an empty stack. */
  function Iter(nodes: seq<Node>): seq<(string, u16)>
    requires Ordered(nodes)
  {
    Walk(nodes, [], 0)
  }
}

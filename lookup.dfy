/** `LookupTable` of kwui-cli/src/packager.rs: the object that owns the node
    vector of the path index.  `insert` and `iter` are methods with the
    source's loops; their contracts tie them to the functions of `Trie`,
    whose properties are proved in `TrieInvariant`, `TrieGrowth` and
    `TrieWalk`. */
module Lookup {
  import opened Format
  import opened Trie
  import opened TrieInvariant
  import opened TrieGrowth
  import opened TrieWalk
  import Utf16

  /** `Node::new`: a node with unit 0 and no children. */
  const NewNode: Node := Node(0, NoChild, NoChild, NoChild)

  class LookupTable {
    var nodes: seq<Node>
    /** The paths stored so far and their values. */
    ghost var contents: map<string, u16>
    /** The same paths as UTF-16 units. */
    ghost var units: map<seq<u16>, u16>
    ghost var pre: seq<seq<u16>>
    ghost var par: seq<int>
    ghost var termOf: map<seq<u16>, int>

    ghost predicate Valid()
      reads this
    {
      Inv(nodes, pre, par, units, termOf, contents)
    }

    /** `LookupTable::new`. */
    constructor ()
      ensures Valid() && nodes == [] && contents == map[]
    {
      nodes := [];
      contents := map[];
      units := map[];
      pre := [];
      par := [];
      termOf := map[];
    }

    /** `LookupTable::insert` (packager.rs 282-321): a path already stored
        keeps its value, which is returned; a new path is stored with `v`
        and 0 is returned. */
    method Insert(s: string, v: u16) returns (r: u16)
      requires Valid() && '\0' !in s
      requires |nodes| + Added(nodes, Utf16.Encode(s) + [0]) <= NoChild as int
      modifies this
      ensures Valid()
      ensures Ordered(old(nodes)) && (nodes, r) == InsertNodes(old(nodes), Utf16.Encode(s) + [0], v)
      ensures s in old(contents) ==> r == old(contents)[s] && contents == old(contents) && nodes == old(nodes)
      ensures s !in old(contents) ==> r == 0 && contents == old(contents)[s := v]
    {
      var k := Utf16.Encode(s);
      var key := k + [0];
      KeyShape(k);
      Utf16.DecodeEncode(s);
      assert s in contents <==> k in units;
      LookupStored(nodes, pre, par, units, termOf, k);

      var probe := Locate(key);
      match probe
      case Found(x) =>
        r := x;
      case Missing(sidx, pnid) =>
        AddPath(s, k, sidx, pnid, v);
        r := 0;
    }

    /** The `insert` of a path not stored yet: append its nodes and record it. */
    method AddPath(s: string, k: seq<u16>, sidx: nat, pnid: ParentNid, v: u16)
      requires Valid() && '\0' !in s && k == Utf16.Encode(s) && 0 !in k
      requires s !in contents && k !in units
      requires Ordered(nodes) && IsKey(k + [0])
      requires Descend(nodes, k + [0], 0, 0, NoParent) == Missing(sidx, pnid)
      requires |nodes| + Added(nodes, k + [0]) <= NoChild as int
      modifies this
      ensures Valid()
      ensures nodes == Append(old(nodes), (k + [0])[sidx..], pnid, v)
      ensures contents == old(contents)[s := v]
    {
      ghost var nodes0, pre0, par0, termOf0, units0, contents0 := nodes, pre, par, termOf, units, contents;
      AppendPath(k + [0], sidx, pnid, v);
      ghost var pre', par', termOf', units', contents' :=
        AddPathWf(nodes0, nodes, pre0, par0, units0, termOf0, contents0, s, k, sidx, pnid, v);
      SetShadow(pre', par', termOf', units', contents');
    }

    /** Replace the ghost companions of the node vector. */
    ghost method SetShadow(pre': seq<seq<u16>>, par': seq<int>, termOf': map<seq<u16>, int>,
                           units': map<seq<u16>, u16>, contents': map<string, u16>)
      requires Inv(nodes, pre', par', units', termOf', contents')
      modifies this`pre, this`par, this`termOf, this`units, this`contents
      ensures Valid() && nodes == old(nodes) && contents == contents'
    {
      pre, par, termOf, units, contents := pre', par', termOf', units', contents';
    }

    /** The descent loop of `insert` (packager.rs 286-306). */
    method Locate(key: seq<u16>) returns (probe: Probe)
      requires Ordered(nodes) && IsKey(key)
      ensures probe == Descend(nodes, key, 0, 0, NoParent)
    {
      var sidx := 0;
      var nid := 0;
      var pnid := NoParent;
      while nid < |nodes|
        invariant 0 <= sidx < |key| && nid >= 0
        invariant pnid.NoParent? || pnid.nid < |nodes|
        invariant Descend(nodes, key, sidx, nid, pnid) == Descend(nodes, key, 0, 0, NoParent)
        decreases |nodes| - nid
      {
        var sch := key[sidx];
        var node := nodes[nid];
        assert NodeOrdered(node, nid);
        if sch < node.ch {
          pnid := Lokid(nid);
          nid := node.lokid as int;
        } else if sch > node.ch {
          pnid := Hikid(nid);
          nid := node.hikid as int;
        } else {
          pnid := Eqkid(nid);
          nid := node.eqkid as int;
          sidx := sidx + 1;
          if sch == 0 {
            return Found(node.eqkid);
          }
        }
      }
      return Missing(sidx, pnid);
    }

    /** The append loop of `insert` (packager.rs 308-319): one new node per
        remaining unit, each linked from the previous one. */
    method AppendPath(key: seq<u16>, sidx: nat, pnid: ParentNid, v: u16)
      requires sidx <= |key| && (pnid.NoParent? || pnid.nid < |nodes|)
      modifies this`nodes
      ensures nodes == Append(old(nodes), key[sidx..], pnid, v)
    {
      var p := pnid;
      var j := sidx;
      while j < |key|
        invariant sidx <= j <= |key|
        invariant p.NoParent? || p.nid < |nodes|
        invariant Append(nodes, key[j..], p, v) == Append(old(nodes), key[sidx..], pnid, v)
        decreases |key| - j
      {
        var sch := key[j];
        var nid := |nodes|;
        nodes := Update(p, nodes, nid);
        var node := NewNode.(ch := sch);
        if sch == 0 {
          node := node.(eqkid := v);
        }
        assert key[j..][1..] == key[j + 1..];
        nodes := nodes + [node];
        p := Eqkid(nid);
        j := j + 1;
      }
    }

    /** The loop of `build_items` that collects the units of the nodes the
        stack left through their eq link (packager.rs 255-263). */
    method StackKey(stack: seq<ParentNid>) returns (u: seq<u16>)
      requires StackOk(nodes, stack)
      ensures u == KeyOf(nodes, stack)
    {
      u := [];
      for i := 0 to |stack|
        invariant u == KeyOf(nodes, stack[..i])
      {
        assert stack[..i + 1][..i] == stack[..i];
        match stack[i]
        case Eqkid(idx) =>
          u := u + [nodes[idx].ch];
        case _ =>
      }
      assert stack[..|stack|] == stack;
    }

    /** `build_items` (packager.rs 244-281): appends the walk from `current`. */
    method BuildItems(items: seq<(string, u16)>, stack: seq<ParentNid>, current: int) returns (out: seq<(string, u16)>)
      requires Ordered(nodes) && StackOk(nodes, stack) && current >= 0
      ensures out == items + Walk(nodes, stack, current)
      decreases |nodes| - current
    {
      if current >= |nodes| {
        return items;
      }
      var n := nodes[current];
      assert NodeOrdered(n, current);
      StackPush(nodes, stack, Lokid(current));
      StackPush(nodes, stack, Eqkid(current));
      StackPush(nodes, stack, Hikid(current));
      var here: seq<(string, u16)> := [];
      if n.ch == 0 {
        var u16str := StackKey(stack);
        here := [(Utf16.DecodeLossy(u16str), n.eqkid)];
      }
      out := BuildItems(items + here, stack + [Lokid(current)], n.lokid as int);
      ghost var wl := Walk(nodes, stack + [Lokid(current)], n.lokid as int);
      ghost var we: seq<(string, u16)> := [];
      if n.ch != 0 {
        out := BuildItems(out, stack + [Eqkid(current)], n.eqkid as int);
        we := Walk(nodes, stack + [Eqkid(current)], n.eqkid as int);
      }
      out := BuildItems(out, stack + [Hikid(current)], n.hikid as int);
      ghost var wh := Walk(nodes, stack + [Hikid(current)], n.hikid as int);
      WalkAt(nodes, stack, current, here, wl, we, wh);
      Assoc4(items, here, wl, we, wh);
    }

    /** `iter` (packager.rs 238-243): the walk from the root; on a table
        built by `Insert`, every stored path exactly once, with its stored
        value.  `unpack` and `list` also run it on node vectors read from an
        archive, so only the forward links the walk follows are required. */
    method Iter() returns (items: seq<(string, u16)>)
      requires Ordered(nodes)
      ensures items == Trie.Iter(nodes)
      ensures Valid() ==> forall i | 0 <= i < |items| :: items[i].0 in contents && items[i].1 == contents[items[i].0]
      ensures Valid() ==> forall s | s in contents :: (s, contents[s]) in items
      ensures Valid() ==> forall a, b | 0 <= a < b < |items| :: items[a].0 != items[b].0
    {
      items := BuildItems([], [], 0);
      if Valid() {
        IterContents(nodes, pre, par, units, termOf, contents, items);
      }
    }
  }

  /** The invariant of a `LookupTable`: the node vector is well formed for
      the stored paths, kept both as strings and as UTF-16 units. */
  ghost predicate Inv(nodes: seq<Node>, pre: seq<seq<u16>>, par: seq<int>, units: map<seq<u16>, u16>,
                      termOf: map<seq<u16>, int>, contents: map<string, u16>)
  {
    Wf(nodes, pre, par, units, termOf) && Agrees(contents, units)
  }

  /** The ghost side of storing a new path: the grown node vector is well
      formed for the enlarged maps. */
  lemma AddPathWf(nodes: seq<Node>, grown: seq<Node>, pre: seq<seq<u16>>, par: seq<int>, units: map<seq<u16>, u16>,
                  termOf: map<seq<u16>, int>, contents: map<string, u16>, s: string, k: seq<u16>, sidx: nat, pnid: ParentNid, v: u16)
    returns (pre': seq<seq<u16>>, par': seq<int>, termOf': map<seq<u16>, int>, units': map<seq<u16>, u16>, contents': map<string, u16>)
    requires Inv(nodes, pre, par, units, termOf, contents)
    requires '\0' !in s && k == Utf16.Encode(s) && 0 !in k && k !in units
    requires Ordered(nodes) && IsKey(k + [0])
    requires Descend(nodes, k + [0], 0, 0, NoParent) == Missing(sidx, pnid)
    requires |nodes| + Added(nodes, k + [0]) <= NoChild as int
    requires sidx <= |k + [0]| && (pnid.NoParent? || pnid.nid < |nodes|)
    requires grown == Append(nodes, (k + [0])[sidx..], pnid, v)
    ensures Inv(grown, pre', par', units', termOf', contents')
    ensures contents' == contents[s := v]
  {
    assert InsertNodes(nodes, k + [0], v).0 == Append(nodes, (k + [0])[sidx..], pnid, v);
    pre', par', termOf' := InsertNew(nodes, pre, par, units, termOf, k, v);
    AgreesInsert(contents, units, s, v);
    units', contents' := units[k := v], contents[s := v];
  }

  lemma WalkAt(nodes: seq<Node>, stack: seq<ParentNid>, current: int,
               here: seq<(string, u16)>, wl: seq<(string, u16)>, we: seq<(string, u16)>, wh: seq<(string, u16)>)
    requires Ordered(nodes) && StackOk(nodes, stack) && 0 <= current < |nodes|
    requires NodeOrdered(nodes[current], current)
    requires StackOk(nodes, stack + [Lokid(current)]) && StackOk(nodes, stack + [Eqkid(current)]) && StackOk(nodes, stack + [Hikid(current)])
    requires here == if nodes[current].ch == 0 then [(Utf16.DecodeLossy(KeyOf(nodes, stack)), nodes[current].eqkid)] else []
    requires wl == Walk(nodes, stack + [Lokid(current)], nodes[current].lokid as int)
    requires we == if nodes[current].ch != 0 then Walk(nodes, stack + [Eqkid(current)], nodes[current].eqkid as int) else []
    requires wh == Walk(nodes, stack + [Hikid(current)], nodes[current].hikid as int)
    ensures Walk(nodes, stack, current) == here + wl + we + wh
  {
  }

  lemma Assoc4<T>(a: seq<T>, b: seq<T>, c: seq<T>, d: seq<T>, e: seq<T>)
    ensures a + b + c + d + e == a + (b + c + d + e)
  {
  }

  lemma StackPush(nodes: seq<Node>, stack: seq<ParentNid>, e: ParentNid)
    requires StackOk(nodes, stack) && (e.NoParent? || e.nid < |nodes|)
    ensures StackOk(nodes, stack + [e])
  {
  }

  /** The stored strings and the stored unit sequences are the same paths. */
  ghost predicate Agrees(contents: map<string, u16>, units: map<seq<u16>, u16>) {
    && (forall s | s in contents :: '\0' !in s && Utf16.Encode(s) in units && units[Utf16.Encode(s)] == contents[s])
    && (forall k | k in units :: Utf16.DecodeLossy(k) in contents && Utf16.Encode(Utf16.DecodeLossy(k)) == k)
  }

  lemma AgreesInsert(contents: map<string, u16>, units: map<seq<u16>, u16>, s: string, v: u16)
    requires Agrees(contents, units) && '\0' !in s
    ensures Agrees(contents[s := v], units[Utf16.Encode(s) := v])
  {
    var k := Utf16.Encode(s);
    var c', u' := contents[s := v], units[k := v];
    Utf16.DecodeEncode(s);
    forall x | x in c'
      ensures '\0' !in x && Utf16.Encode(x) in u' && u'[Utf16.Encode(x)] == c'[x]
    {
      if x != s {
        assert x in contents;
        if Utf16.Encode(x) == k {
          Utf16.EncodeInjective(x, s);
        }
      }
    }
    forall y | y in u'
      ensures Utf16.DecodeLossy(y) in c' && Utf16.Encode(Utf16.DecodeLossy(y)) == y
    {
      if y != k {
        assert y in units;
      }
    }
  }

  /** `iter` in terms of the stored strings. */
  lemma IterContents(nodes: seq<Node>, pre: seq<seq<u16>>, par: seq<int>, units: map<seq<u16>, u16>,
                     termOf: map<seq<u16>, int>, contents: map<string, u16>, items: seq<(string, u16)>)
    requires Inv(nodes, pre, par, units, termOf, contents) && items == Trie.Iter(nodes)
    ensures forall i | 0 <= i < |items| :: items[i].0 in contents && items[i].1 == contents[items[i].0]
    ensures forall s | s in contents :: (s, contents[s]) in items
    ensures forall a, b | 0 <= a < b < |items| :: items[a].0 != items[b].0
  {
    IterExact(nodes, pre, par, units, termOf);
    var keys := IterKeys(nodes, pre);
    forall i | 0 <= i < |items|
      ensures items[i].0 in contents && items[i].1 == contents[items[i].0]
    {
      assert keys[i] in units;
    }
    forall s | s in contents
      ensures (s, contents[s]) in items
    {
      var k := Utf16.Encode(s);
      Utf16.DecodeEncode(s);
      assert k in keys;
      var i :| 0 <= i < |keys| && keys[i] == k;
      assert items[i] == (s, contents[s]);
    }
    forall a, b | 0 <= a < b < |items|
      ensures items[a].0 != items[b].0
    {
      assert keys[a] != keys[b];
      assert keys[a] in units && keys[b] in units;
    }
  }
}

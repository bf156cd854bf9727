/**
 The contents of a known graph as a value: for each key its parents (none for a ghost),
 its child links and its greatest distance from the origin, and what the graph
 operations must preserve about them.
 */
module NodeTable {
  import opened Wrappers
  import opened Keys
  import opened Dag
  import opened Frontier

  datatype Node = Node(parents: Option<seq<Key>>, children: seq<Key>, gdfo: Option<nat>)

  type Table = map<Key, Node>

  function ParentsOf(n: Node): seq<Key> {
    if n.parents.Some? then n.parents.value else []
  }

  /** The parents of every key that is not a ghost. */
  ghost function Graph(t: Table): ParentMap {
    map k | k in t && t[k].parents.Some? :: t[k].parents.value
  }

  ghost function Down(t: Table): Net {
    Net(map k | k in t :: ParentsOf(t[k]), map k | k in t :: t[k].children)
  }

  /** The edges of the graph with every ghost as a node without parents. */
  ghost function Edges(t: Table): ParentMap {
    Down(t).ins
  }

  ghost function Pars(t: Table, k: Key): seq<Key> {
    if k in t then ParentsOf(t[k]) else []
  }

  ghost function Kids(t: Table, k: Key): seq<Key> {
    if k in t then t[k].children else []
  }

  /** `v` is listed as a child of `u` as often as `u` is listed as a parent of `v`. */
  ghost predicate Mirrored(t: Table, u: Key, v: Key) {
    multiset(Kids(t, u))[v] == multiset(Pars(t, v))[u]
  }

  /** Child links mirror parents with multiplicity, and ghosts exist only as parents. */
  ghost predicate Linked(t: Table) {
    && (forall u, v :: Mirrored(t, u, v))
    && (forall k, p | p in Pars(t, k) :: p in t)
    && (forall k | k in t && t[k].parents.None? :: t[k].children != [])
  }

  lemma KidIffParent(t: Table, k: Key, c: Key)
    requires Linked(t)
    ensures c in Kids(t, k) <==> k in Pars(t, c)
  {
    assert Mirrored(t, k, c);
    assert c in multiset(Kids(t, k)) <==> k in multiset(Pars(t, c));
  }

  lemma LinkedIsDual(t: Table)
    requires Linked(t)
    ensures Dual(Down(t))
  {
    forall u, v ensures Balanced(Down(t), u, v) {
      assert Mirrored(t, u, v);
    }
    forall u, v | u in t && v in Down(t).ins[u] ensures v in t {
      assert v in Pars(t, u);
    }
    forall u, v | u in t && v in Down(t).outs[u] ensures v in t {
      assert Mirrored(t, u, v);
      assert u in Pars(t, v);
    }
  }

  /** What `_find_gdfo` establishes on any graph, cyclic or not. */
  ghost predicate GdfoFound(t: Table) {
    forall k {:trigger FoundAt(t, k)} :: FoundAt(t, k)
  }

  /** A root, a ghost or a child of a node that reaches no cycle has a distance, no other node. */
  ghost predicate FoundAt(t: Table, k: Key) {
    k in t ==>
      && (t[k].gdfo.Some? <==> Edges(t)[k] == [] || exists p :: p in Edges(t)[k] && Grounded(Edges(t), p))
      && (Grounded(Edges(t), k) ==> t[k].gdfo == Some(Gdfo(Edges(t), k)))
  }

  lemma GraphAndEdges(t: Table)
    ensures forall k, p :: p in Parents(Graph(t), k) <==> p in Parents(Edges(t), k)
    ensures forall a, d :: StrictAncestor(Graph(t), a, d) <==> StrictAncestor(Edges(t), a, d)
    ensures forall k :: Grounded(Graph(t), k) <==> Grounded(Edges(t), k)
    ensures Acyclic(Graph(t)) <==> Acyclic(Edges(t))
    ensures forall k :: Grounded(Graph(t), k) ==> Gdfo(Graph(t), k) == Gdfo(Edges(t), k)
  {
    SameEdges(Graph(t), Edges(t));
  }

  /** Graphs with the same edges have the same ancestry and distances. */
  lemma SameEdges(a: ParentMap, b: ParentMap)
    requires forall k, p :: p in Parents(a, k) <==> p in Parents(b, k)
    ensures forall x, d :: StrictAncestor(a, x, d) <==> StrictAncestor(b, x, d)
    ensures forall k :: Grounded(a, k) <==> Grounded(b, k)
    ensures Acyclic(a) <==> Acyclic(b)
    ensures forall k :: Grounded(a, k) ==> Gdfo(a, k) == Gdfo(b, k)
  {
    forall x, d ensures StrictAncestor(a, x, d) <==> StrictAncestor(b, x, d) {
      if StrictAncestor(a, x, d) {
        var n: nat :| n > 0 && Steps(a, d, x, n);
        StepsMonotone(a, b, d, x, n);
      }
      if StrictAncestor(b, x, d) {
        var n: nat :| n > 0 && Steps(b, d, x, n);
        StepsMonotone(b, a, d, x, n);
      }
    }
    forall k, n: nat ensures HasPath(a, k, n) <==> HasPath(b, k, n) {
      SamePaths(a, b, k, n);
    }
    forall k ensures Grounded(a, k) <==> Grounded(b, k) {
      if Grounded(a, k) {
        var n: nat :| !HasPath(a, k, n);
        assert !HasPath(b, k, n);
      }
      if Grounded(b, k) {
        var n: nat :| !HasPath(b, k, n);
        assert !HasPath(a, k, n);
      }
    }
    forall k | Grounded(a, k) ensures Gdfo(a, k) == Gdfo(b, k) {
      var g, h := Gdfo(a, k), Gdfo(b, k);
      GdfoIsLongestPath(a, k, g);
      GdfoIsLongestPath(a, k, h);
      GdfoIsLongestPath(b, k, g);
      GdfoIsLongestPath(b, k, h);
    }
  }

  lemma SamePaths(a: ParentMap, b: ParentMap, k: Key, n: nat)
    requires forall k, p :: p in Parents(a, k) <==> p in Parents(b, k)
    ensures HasPath(a, k, n) <==> HasPath(b, k, n)
  {
    PathCarries(a, b, k, n);
    PathCarries(b, a, k, n);
  }

  lemma PathCarries(a: ParentMap, b: ParentMap, k: Key, n: nat)
    requires forall k, p :: p in Parents(a, k) ==> p in Parents(b, k)
    ensures HasPath(a, k, n) ==> HasPath(b, k, n)
  {
    if HasPath(a, k, n) {
      var x := PathGivesSteps(a, k, n);
      StepsMonotone(a, b, k, x, n);
      StepsGivePath(b, k, x, n, 0);
    }
  }

  // ---------------------------------------------------------------------------------
  // Adding a node and its child links one parent at a time

  /** The table with only the first `j` parents of `key` counted as linked. */
  ghost function Cut(t: Table, key: Key, j: nat): Table
    requires key in t && t[key].parents.Some? && j <= |t[key].parents.value|
  {
    t[key := t[key].(parents := Some(t[key].parents.value[..j]))]
  }

  /** `child` appended to the links of `p`, which becomes a ghost if it is not known. */
  ghost function AddChild(t: Table, p: Key, child: Key, gdfo: Option<nat>): Table {
    if p in t then t[p := t[p].(children := t[p].children + [child])]
    else t[p := Node(None, [child], gdfo)]
  }

  /** The links with one parent more. */
  lemma LinkAdds(t: Table, key: Key, j: nat, gdfo: Option<nat>)
    requires key in t && t[key].parents.Some? && j < |t[key].parents.value|
    ensures var p := t[key].parents.value[j];
            var t' := AddChild(t, p, key, gdfo);
            && key in t' && t'[key].parents == t[key].parents
            && var c, c' := Cut(t, key, j), Cut(t', key, j + 1);
               && (forall u {:trigger Kids(c', u)} :: Kids(c', u) == Kids(c, u) + if u == p then [key] else [])
               && (forall v {:trigger Pars(c', v)} :: Pars(c', v) == Pars(c, v) + if v == key then [p] else [])
  {
    var ps := t[key].parents.value;
    assert ps[..j + 1] == ps[..j] + [ps[j]];
  }

  lemma LinkStep(t: Table, key: Key, j: nat, gdfo: Option<nat>)
    requires key in t && t[key].parents.Some? && j < |t[key].parents.value|
    requires Linked(Cut(t, key, j))
    ensures var t' := AddChild(t, t[key].parents.value[j], key, gdfo);
            key in t' && t'[key].parents == t[key].parents && Linked(Cut(t', key, j + 1))
  {
    var p := t[key].parents.value[j];
    var t' := AddChild(t, p, key, gdfo);
    LinkAdds(t, key, j, gdfo);
    var c, c' := Cut(t, key, j), Cut(t', key, j + 1);
    forall u, v ensures Mirrored(c', u, v) {
      assert Mirrored(c, u, v);
    }
    forall k, q | q in Pars(c', k) ensures q in c' {
      if q in Pars(c, k) {
        assert q in c && q in t;
      } else {
        assert q == p;
      }
    }
    forall k | k in c' && c'[k].parents.None? ensures c'[k].children != [] {
      if k in c {
        assert c[k].parents.None?;
        assert c'[k].children == Kids(c', k);
      }
    }
  }

  /** The table with `key` given the parents `ps`, as a new node or by filling in a ghost. */
  ghost function WithParents(t: Table, key: Key, ps: seq<Key>): Table {
    if key in t then t[key := t[key].(parents := Some(ps))] else t[key := Node(Some(ps), [], None)]
  }

  /** A new or ghost key that gets parents starts with none of them linked. */
  lemma LinkStart(t: Table, key: Key, ps: seq<Key>)
    requires Linked(t)
    requires key in t ==> t[key].parents.None?
    ensures Linked(Cut(WithParents(t, key, ps), key, 0))
  {
    var c := Cut(WithParents(t, key, ps), key, 0);
    forall u ensures Kids(c, u) == Kids(t, u) && Pars(c, u) == Pars(t, u) {}
    forall u, v ensures Mirrored(c, u, v) {
      assert Mirrored(t, u, v);
    }
  }
}

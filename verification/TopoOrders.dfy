/** What `topo_sort` promises, and exactly when it raises the cycle error. */
module TopoOrders {
  import opened Keys
  import opened Dag
  import opened Frontier
  import opened NodeTable

  /** `k` has parents, and every one of them reaches a cycle. */
  ghost predicate Stuck(pm: ParentMap, k: Key) {
    k in pm && pm[k] != [] && forall p | p in pm[k] :: !Grounded(pm, p)
  }

  /** Each node that reaches no cycle once, after all its parents that are not ghosts. */
  ghost predicate TopoOrder(pm: ParentMap, out: seq<Key>) {
    && NoDuplicates(out)
    && (forall k :: k in out <==> k in pm && Grounded(pm, k))
    && (forall i, p | 0 <= i < |out| && out[i] in pm && p in pm[out[i]] && p in pm :: p in out[..i])
  }

  /** An order holds every node exactly when the graph has no cycle. */
  lemma CompleteIffAcyclic(pm: ParentMap, out: seq<Key>)
    requires TopoOrder(pm, out)
    ensures (forall k | k in pm :: k in out) <==> Acyclic(pm)
  {
    AcyclicIffGrounded(pm);
    if forall k | k in pm :: k in out {
      forall k ensures Grounded(pm, k) {
        if k !in pm {
          assert !HasPath(pm, k, 1);
        }
      }
    }
  }

  /** An acyclic graph is never reported as cyclic. */
  lemma AcyclicIsNotStuck(pm: ParentMap, k: Key)
    requires Acyclic(pm)
    ensures !Stuck(pm, k)
  {
    AcyclicIffGrounded(pm);
    if k in pm && pm[k] != [] {
      assert pm[k][0] in pm[k];
    }
  }

  const SILENT_CYCLE: ParentMap :=
    map[Key("root", []) := [],
        Key("a", []) := [Key("root", []), Key("b", [])],
        Key("b", []) := [Key("root", []), Key("a", [])]]

  /**
   A cycle need not be reported: here every node of the cycle also has a parent outside
   it, so nothing is stuck and the order simply leaves the cycle out.
   */
  lemma CycleMayBeSilent(out: seq<Key>)
    ensures !Acyclic(SILENT_CYCLE)
    ensures forall k :: !Stuck(SILENT_CYCLE, k)
    ensures TopoOrder(SILENT_CYCLE, out) ==> forall k :: k in out <==> k == Key("root", [])
  {
    var pm := SILENT_CYCLE;
    var root, a, b := Key("root", []), Key("a", []), Key("b", []);
    assert b in pm[a] by { assert pm[a][1] == b; }
    assert a in pm[b] by { assert pm[b][1] == a; }
    assert root in pm[a] by { assert pm[a][0] == root; }
    assert root in pm[b] by { assert pm[b][0] == root; }
    ParentIsAncestor(pm, b, a);
    ParentIsAncestor(pm, a, b);
    AncestorTransitive(pm, a, b, a);
    AncestorTransitive(pm, b, a, b);
    assert Grounded(pm, root) by {
      assert !HasPath(pm, root, 1);
    }
    forall k | StrictAncestor(pm, k, k) ensures !Grounded(pm, k) {
      var m: nat :| m > 0 && Steps(pm, k, k, m);
      forall n: nat ensures HasPath(pm, k, n) {
        CycleGivesPaths(pm, k, m, n);
      }
    }
    assert !Grounded(pm, a) && !Grounded(pm, b);
  }

  lemma StuckIsUnlabelled(t: Table, k: Key)
    requires Linked(t) && GdfoFound(t)
    ensures Stuck(Graph(t), k) <==> k in t && t[k].gdfo.None?
  {
    GraphAndEdges(t);
    assert FoundAt(t, k);
  }

  lemma NothingStuck(t: Table)
    requires Linked(t) && GdfoFound(t) && forall k | k in t :: t[k].gdfo.Some?
    ensures forall k :: !Stuck(Graph(t), k)
  {
    forall k ensures !Stuck(Graph(t), k) {
      StuckIsUnlabelled(t, k);
    }
  }

  lemma ChildHasParents(t: Table, k: Key, c: Key)
    requires Linked(t) && k in t && c in t[k].children
    ensures c in t && t[c].parents.Some?
  {
    assert c in Kids(t, k);
    KidIffParent(t, k, c);
  }

  lemma TopoDone(t: Table, done: set<Key>, out: seq<Key>)
    requires Linked(t) && Rest(Down(t), done, {}) && Emitted(Down(t), Graph(t).Keys, done, out)
    ensures TopoOrder(Graph(t), out)
  {
    var pm := Graph(t);
    DoneIsGrounded(Down(t), done);
    GraphAndEdges(t);
    forall k ensures k in out <==> k in pm && Grounded(pm, k) {
      assert OutAt(pm.Keys, done, out, k);
      assert k in done <==> k in t && Grounded(Edges(t), k);
    }
    forall i, p | 0 <= i < |out| && out[i] in pm && p in pm[out[i]] && p in pm ensures p in out[..i] {
      assert AfterAt(Down(t), pm.Keys, out, i, p);
    }
  }
}

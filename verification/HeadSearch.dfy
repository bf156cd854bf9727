/**
 The search for heads that stops at the least distance among the candidates: what it finds on any
 graph, why these are the heads if no candidate leads into a cycle, and that they need not be else.
 */
module HeadSearch {
  import opened Wrappers
  import opened Keys
  import opened Dag
  import opened NodeTable
  import opened GdfoWalk

  ghost predicate Below(e: ParentMap, cands: set<Key>, x: Key) {
    exists c :: c in cands && StrictAncestor(e, x, c)
  }

  /** Farther from the origin than some candidate: the search does not stop there. */
  ghost predicate Deeper(g: map<Key, nat>, cands: set<Key>, d: Key) {
    d in g && exists c :: c in cands && c in g && g[c] < g[d]
  }

  /** A chain of `n` parents leads from a candidate to `x`, and the search stops nowhere in between. */
  ghost predicate ReachedIn(e: ParentMap, g: map<Key, nat>, cands: set<Key>, x: Key, n: nat)
    decreases n, 0
  {
    n > 0 && exists d {:trigger LeadsOn(e, g, cands, d, n - 1)} ::
      x in Parents(e, d) && LeadsOn(e, g, cands, d, n - 1)
  }

  ghost predicate LeadsOn(e: ParentMap, g: map<Key, nat>, cands: set<Key>, d: Key, n: nat)
    decreases n, 1
  {
    if n == 0 then d in cands else Deeper(g, cands, d) && ReachedIn(e, g, cands, d, n)
  }

  ghost predicate Reached(e: ParentMap, g: map<Key, nat>, cands: set<Key>, x: Key) {
    exists n: nat :: ReachedIn(e, g, cands, x, n)
  }

  /** The candidates that the search does not come to: its answer. */
  ghost function Unreached(e: ParentMap, g: map<Key, nat>, cands: set<Key>): set<Key> {
    set c | c in cands && !Reached(e, g, cands, c)
  }

  lemma ReachedOn(e: ParentMap, g: map<Key, nat>, cands: set<Key>, d: Key, p: Key)
    requires p in Parents(e, d) && (d in cands || (Deeper(g, cands, d) && Reached(e, g, cands, d)))
    ensures Reached(e, g, cands, p)
  {
    var n: nat := 0;
    if d !in cands {
      n :| ReachedIn(e, g, cands, d, n);
    }
    assert LeadsOn(e, g, cands, d, n);
    assert ReachedIn(e, g, cands, p, n + 1);
  }

  /** What the search comes to is an ancestor of a candidate. */
  lemma {:induction false} ReachedIsBelow(e: ParentMap, g: map<Key, nat>, cands: set<Key>, x: Key, n: nat)
    requires ReachedIn(e, g, cands, x, n)
    ensures Below(e, cands, x)
    decreases n
  {
    var d :| x in Parents(e, d) && LeadsOn(e, g, cands, d, n - 1);
    ParentIsAncestor(e, x, d);
    if n > 1 {
      ReachedIsBelow(e, g, cands, d, n - 1);
      var c :| c in cands && StrictAncestor(e, d, c);
      AncestorTransitive(e, x, d, c);
    }
  }

  // ---------------------------------------------------------------------------------
  // The loop

  /** The parents of `d` must be looked at: it is a candidate, or seen and deep enough. */
  ghost predicate Followed(g: map<Key, nat>, cands: set<Key>, seen: set<Key>, d: Key) {
    d in cands || (d in seen && Deeper(g, cands, d))
  }

  ghost predicate Covered(e: ParentMap, g: map<Key, nat>, cands: set<Key>, seen: set<Key>, pending: seq<Key>, d: Key, p: Key) {
    Followed(g, cands, seen, d) && p in Parents(e, d) ==> p in seen || p in pending
  }

  ghost predicate Searching(e: ParentMap, g: map<Key, nat>, cands: set<Key>, seen: set<Key>, pending: seq<Key>) {
    && seen <= g.Keys
    && (forall x {:trigger Reached(e, g, cands, x)} | x in seen || x in pending :: Reached(e, g, cands, x))
    && (forall d, p {:trigger Covered(e, g, cands, seen, pending, d, p)} ::
          Covered(e, g, cands, seen, pending, d, p))
  }

  ghost function ParentsOfAll(pm: ParentMap, cs: set<Key>): set<Key> {
    set c, p | c in cs && p in Parents(pm, c) :: p
  }

  lemma ParentsOfMore(pm: ParentMap, cs: set<Key>, c: Key, pending: seq<Key>)
    requires SetOf(pending) == ParentsOfAll(pm, cs)
    ensures SetOf(pending + Parents(pm, c)) == ParentsOfAll(pm, cs + {c})
  {
    assert ParentsOfAll(pm, cs + {c}) == ParentsOfAll(pm, cs) + SetOf(Parents(pm, c));
    assert SetOf(pending + Parents(pm, c)) == SetOf(pending) + SetOf(Parents(pm, c));
  }

  lemma SearchStart(e: ParentMap, g: map<Key, nat>, cands: set<Key>, pending: seq<Key>)
    requires SetOf(pending) == ParentsOfAll(e, cands)
    ensures Searching(e, g, cands, {}, pending)
  {
    forall x | x in pending ensures Reached(e, g, cands, x) {
      assert x in SetOf(pending);
      var c :| c in cands && x in Parents(e, c);
      ReachedOn(e, g, cands, c, x);
    }
    forall d, p ensures Covered(e, g, cands, {}, pending, d, p) {
      if d in cands && p in Parents(e, d) {
        assert p in SetOf(pending);
      }
    }
  }

  lemma TopIsReached(e: ParentMap, g: map<Key, nat>, cands: set<Key>, seen: set<Key>, pending: seq<Key>)
    requires Searching(e, g, cands, seen, pending) && |pending| > 0
    ensures Reached(e, g, cands, pending[|pending| - 1])
  {
    assert pending[|pending| - 1] in pending;
  }

  /** The top of the stack was seen before: it is dropped. */
  lemma SearchSkip(e: ParentMap, g: map<Key, nat>, cands: set<Key>, seen: set<Key>, pending: seq<Key>)
    requires Searching(e, g, cands, seen, pending) && |pending| > 0 && pending[|pending| - 1] in seen
    ensures Searching(e, g, cands, seen, pending[..|pending| - 1])
  {
    var rest := pending[..|pending| - 1];
    assert pending == rest + [pending[|pending| - 1]];
    forall d, p ensures Covered(e, g, cands, seen, rest, d, p) {
      assert Covered(e, g, cands, seen, pending, d, p);
    }
  }

  /** The top of the stack is new: its parents are pushed unless it is near enough the origin. */
  lemma SearchVisit(e: ParentMap, g: map<Key, nat>, cands: set<Key>, seen: set<Key>, pending: seq<Key>, parents: seq<Key>)
    requires Searching(e, g, cands, seen, pending) && |pending| > 0
    requires var x := pending[|pending| - 1];
             x in g && parents == if Deeper(g, cands, x) then Parents(e, x) else []
    ensures var x := pending[|pending| - 1];
            Searching(e, g, cands, seen + {x}, pending[..|pending| - 1] + parents)
  {
    var x := pending[|pending| - 1];
    var rest := pending[..|pending| - 1];
    assert pending == rest + [x];
    TopIsReached(e, g, cands, seen, pending);
    forall y | y in parents ensures Reached(e, g, cands, y) {
      ReachedOn(e, g, cands, x, y);
    }
    var seen', pending' := seen + {x}, rest + parents;
    forall d, p ensures Covered(e, g, cands, seen', pending', d, p) {
      assert Covered(e, g, cands, seen, pending, d, p);
    }
  }

  lemma {:induction false} ReachedSeen(e: ParentMap, g: map<Key, nat>, cands: set<Key>, seen: set<Key>, x: Key, n: nat)
    requires Searching(e, g, cands, seen, []) && ReachedIn(e, g, cands, x, n)
    ensures x in seen
    decreases n
  {
    var d :| x in Parents(e, d) && LeadsOn(e, g, cands, d, n - 1);
    if n > 1 {
      ReachedSeen(e, g, cands, seen, d, n - 1);
    }
    assert Covered(e, g, cands, seen, [], d, x);
  }

  /** When nothing is pending the search has seen all that it reaches, and read its distances. */
  lemma SearchDone(e: ParentMap, g: map<Key, nat>, cands: set<Key>, seen: set<Key>)
    requires Searching(e, g, cands, seen, [])
    ensures cands - seen == Unreached(e, g, cands)
    ensures forall x | Reached(e, g, cands, x) :: x in g
  {
    forall x | Reached(e, g, cands, x) ensures x in seen {
      var n: nat :| ReachedIn(e, g, cands, x, n);
      ReachedSeen(e, g, cands, seen, x, n);
    }
  }

  // ---------------------------------------------------------------------------------
  // The heads

  /** Keys that lead into no cycle have their greatest distance, and parents are keys themselves. */
  ghost predicate Measured(e: ParentMap, g: map<Key, nat>) {
    && (forall k {:trigger Grounded(e, k)} | k in e && Grounded(e, k) :: k in g && g[k] == Gdfo(e, k))
    && (forall k, p {:trigger p in Parents(e, k)} | p in Parents(e, k) :: p in e)
  }

  /** No ancestor of the candidates that leads into a cycle stops the search. */
  ghost predicate NothingStops(e: ParentMap, g: map<Key, nat>, cands: set<Key>) {
    forall y {:trigger Below(e, cands, y)} | Below(e, cands, y) && !Grounded(e, y) :: Deeper(g, cands, y)
  }

  lemma {:induction false} ComesThrough(e: ParentMap, g: map<Key, nat>, cands: set<Key>, c: Key, d: Key, m: nat, x: Key, n: nat)
    requires Measured(e, g) && NothingStops(e, g, cands) && x in cands && x in e
    requires LeadsOn(e, g, cands, d, m) && c in cands && AncestorOrSelf(e, d, c)
    requires n > 0 && Steps(e, d, x, n)
    ensures Reached(e, g, cands, x)
    decreases n
  {
    var p :| p in Parents(e, d) && Steps(e, p, x, n - 1);
    assert ReachedIn(e, g, cands, p, m + 1);
    if n > 1 {
      ParentIsAncestor(e, p, d);
      if d != c { AncestorTransitive(e, p, d, c); }
      assert Below(e, cands, p);
      if Grounded(e, p) {
        GdfoDropsAlong(e, p, x, n - 1);
      }
      assert Deeper(g, cands, p);
      assert LeadsOn(e, g, cands, p, m + 1);
      ComesThrough(e, g, cands, c, p, m + 1, x, n - 1);
    }
  }

  /** Then the search comes to exactly the candidates that are ancestors of one. */
  lemma ReachedIffBelow(e: ParentMap, g: map<Key, nat>, cands: set<Key>, x: Key)
    requires Measured(e, g) && NothingStops(e, g, cands) && x in cands && x in e
    ensures Reached(e, g, cands, x) <==> Below(e, cands, x)
  {
    if Reached(e, g, cands, x) {
      var n: nat :| ReachedIn(e, g, cands, x, n);
      ReachedIsBelow(e, g, cands, x, n);
    }
    if Below(e, cands, x) {
      var c :| c in cands && StrictAncestor(e, x, c);
      var n: nat :| n > 0 && Steps(e, c, x, n);
      assert LeadsOn(e, g, cands, c, 0);
      ComesThrough(e, g, cands, c, c, 0, x, n);
    }
  }

  /** If no candidate leads into a cycle, the answer is the heads. */
  lemma UnreachedAreHeads(e: ParentMap, g: map<Key, nat>, cands: set<Key>)
    requires Measured(e, g) && forall c | c in cands :: c in e && Grounded(e, c)
    ensures Unreached(e, g, cands) == HeadsOf(e, cands)
  {
    forall y | Below(e, cands, y) ensures Grounded(e, y) {
      var c :| c in cands && StrictAncestor(e, y, c);
      AncestorGdfo(e, y, c);
    }
    forall x | x in cands ensures Reached(e, g, cands, x) <==> x !in HeadsOf(e, cands) {
      ReachedIffBelow(e, g, cands, x);
      GroundedIffNoCycle(e, x);
      assert AncestorOrSelf(e, x, x);
    }
  }

  ghost predicate BelowAnother(e: ParentMap, cands: set<Key>, x: Key) {
    exists d :: d in cands && d != x && StrictAncestor(e, x, d)
  }

  /**
   On any graph the answer is the heads exactly if to every candidate that is an ancestor of
   another leads a chain on which the search does not stop, and to none of the others one that
   goes round a cycle.
   */
  lemma HeadsRightIff(e: ParentMap, g: map<Key, nat>, cands: set<Key>)
    ensures Unreached(e, g, cands) == HeadsOf(e, cands) <==>
              && (forall x {:trigger Reached(e, g, cands, x)} | x in cands && BelowAnother(e, cands, x) :: Reached(e, g, cands, x))
              && (forall x {:trigger Reached(e, g, cands, x)} | x in cands && StrictAncestor(e, x, x) && Reached(e, g, cands, x) ::
                    BelowAnother(e, cands, x))
  {
    forall x | x in cands
      ensures x in HeadsOf(e, cands) <==> !BelowAnother(e, cands, x)
      ensures Reached(e, g, cands, x) ==> BelowAnother(e, cands, x) || StrictAncestor(e, x, x)
    {
      if Reached(e, g, cands, x) {
        var n: nat :| ReachedIn(e, g, cands, x, n);
        ReachedIsBelow(e, g, cands, x, n);
      }
    }
    assert forall x | x in cands :: x in Unreached(e, g, cands) <==> !Reached(e, g, cands, x);
  }

  /** `m` and `n` are each other's parents, next to `r` and `t`, and `a` has `t` through them only. */
  ghost function Tangle(r: Key, t: Key, m: Key, n: Key, a: Key): Table {
    map[r := Node(Some([]), [t, m, a], Some(1)), t := Node(Some([r]), [n], Some(2)),
        m := Node(Some([n, r]), [n, a], Some(2)), n := Node(Some([m, t]), [m], Some(3)),
        a := Node(Some([m, r]), [], Some(2))]
  }

  ghost predicate Distinct(r: Key, t: Key, m: Key, n: Key, a: Key) {
    && r != t && r != m && r != n && r != a && t != m && t != n && t != a
    && m != n && m != a && n != a
  }

  /** The search for the heads of `a` and `t` stops at `m`, no farther than both, and keeps `t`. */
  lemma HeadMissed(r: Key, t: Key, m: Key, n: Key, a: Key)
    requires Distinct(r, t, m, n, a)
    ensures var tangle := Tangle(r, t, m, n, a);
            && Linked(tangle) && GdfoFound(tangle) && Labels(tangle).Keys == tangle.Keys
            && StrictAncestor(Edges(tangle), t, a) && Unreached(Edges(tangle), Labels(tangle), {a, t}) == {a, t}
  {
    var e := Edges(Tangle(r, t, m, n, a));
    TangleLinked(r, t, m, n, a);
    TangleFound(r, t, m, n, a);
    assert e[a] == [m, r] && e[m] == [n, r] && e[n] == [m, t];
    assert e[a][0] == m && e[m][0] == n && e[n][1] == t;
    ParentIsAncestor(e, t, n);
    ParentIsAncestor(e, n, m);
    ParentIsAncestor(e, m, a);
    AncestorTransitive(e, t, n, m);
    AncestorTransitive(e, t, m, a);
    var g := Labels(Tangle(r, t, m, n, a));
    forall k: nat, x | ReachedIn(e, g, {a, t}, x, k) ensures x == m || x == r {
      TangleReached(e, g, r, t, m, a, x, k);
    }
  }

  lemma TangleLinked(r: Key, t: Key, m: Key, n: Key, a: Key)
    requires Distinct(r, t, m, n, a)
    ensures Linked(Tangle(r, t, m, n, a))
  {
    var tangle := Tangle(r, t, m, n, a);
    TangleLists(r, t, m, n, a);
    forall u, v ensures Mirrored(tangle, u, v) {
      TangleMirrored(tangle, r, t, m, n, a, u, v);
    }
  }

  lemma TangleLists(r: Key, t: Key, m: Key, n: Key, a: Key)
    requires Distinct(r, t, m, n, a)
    ensures TangleListed(Tangle(r, t, m, n, a), r, t, m, n, a)
  {
    var tangle := Tangle(r, t, m, n, a);
    forall k ensures (k in tangle <==> k == r || k == t || k == m || k == n || k == a) {}
  }

  ghost predicate TangleListed(tangle: Table, r: Key, t: Key, m: Key, n: Key, a: Key) {
    && (forall k :: k in tangle <==> k == r || k == t || k == m || k == n || k == a)
    && Kids(tangle, r) == [t, m, a] && Kids(tangle, t) == [n] && Kids(tangle, m) == [n, a]
    && Kids(tangle, n) == [m] && Kids(tangle, a) == []
    && Pars(tangle, r) == [] && Pars(tangle, t) == [r] && Pars(tangle, m) == [n, r]
    && Pars(tangle, n) == [m, t] && Pars(tangle, a) == [m, r]
  }

  lemma TangleMirrored(tangle: Table, r: Key, t: Key, m: Key, n: Key, a: Key, u: Key, v: Key)
    requires Distinct(r, t, m, n, a) && TangleListed(tangle, r, t, m, n, a)
    ensures Mirrored(tangle, u, v)
  {
    assert multiset([t, m, a]) == multiset{t, m, a} && multiset([n, a]) == multiset{n, a};
    assert multiset([n, r]) == multiset{n, r} && multiset([m, t]) == multiset{m, t} && multiset([m, r]) == multiset{m, r};
  }

  lemma TangleFound(r: Key, t: Key, m: Key, n: Key, a: Key)
    requires Distinct(r, t, m, n, a)
    ensures GdfoFound(Tangle(r, t, m, n, a)) && Labels(Tangle(r, t, m, n, a)).Keys == Tangle(r, t, m, n, a).Keys
  {
    var tangle := Tangle(r, t, m, n, a);
    var e := Edges(tangle);
    assert e[r] == [] && e[t] == [r] && e[m] == [n, r] && e[n] == [m, t] && e[a] == [m, r];
    TangleGrounded(e, r, t, m, n, a);
    forall k ensures FoundAt(tangle, k) {
      if k in tangle && k != r {
        assert k == t || k == m || k == n || k == a;
      }
    }
  }

  lemma TangleGrounded(e: ParentMap, r: Key, t: Key, m: Key, n: Key, a: Key)
    requires r in e && t in e && m in e && n in e && a in e
    requires e[r] == [] && e[t] == [r] && e[m] == [n, r] && e[n] == [m, t] && e[a] == [m, r]
    ensures Grounded(e, r) && Gdfo(e, r) == 1 && Grounded(e, t) && Gdfo(e, t) == 2
    ensures !Grounded(e, m) && !Grounded(e, n) && !Grounded(e, a)
    ensures r in e[m] && t in e[n] && r in e[a]
  {
    assert e[t][0] == r && e[m][0] == n && e[m][1] == r && e[n][0] == m && e[n][1] == t && e[a][0] == m && e[a][1] == r;
    assert Parents(e, r) == [] && Parents(e, t) == [r];
    assert !HasPath(e, r, 1) && HasPath(e, r, 0);
    assert r in Parents(e, t) && HasPath(e, r, 1 - 1);
    assert HasPath(e, t, 1);
    assert !HasPath(e, t, 2) by { assert forall p | p in Parents(e, t) :: p == r && !HasPath(e, p, 2 - 1); }
    GdfoIsLongestPath(e, r, 0);
    GdfoIsLongestPath(e, r, 1);
    GdfoIsLongestPath(e, t, 1);
    GdfoIsLongestPath(e, t, 2);
    if Grounded(e, m) {
      GroundedParent(e, m, n);
      GroundedParent(e, n, m);
    }
    if Grounded(e, n) {
      GroundedParent(e, n, m);
    }
    if Grounded(e, a) {
      GroundedParent(e, a, m);
    }
  }

  lemma {:induction false} TangleReached(e: ParentMap, g: map<Key, nat>, r: Key, t: Key, m: Key, a: Key, x: Key, k: nat)
    requires Parents(e, a) == [m, r] && Parents(e, t) == [r]
    requires r in g && t in g && m in g && a in g && g[r] == 1 && g[t] == g[m] == g[a] == 2
    requires ReachedIn(e, g, {a, t}, x, k)
    ensures x == m || x == r
    decreases k
  {
    var d :| x in Parents(e, d) && LeadsOn(e, g, {a, t}, d, k - 1);
    if k > 1 {
      TangleReached(e, g, r, t, m, a, d, k - 1);
    }
  }
}

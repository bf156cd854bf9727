/**
 The revision graph shared by every other module: parents, reachability, path lengths,
 acyclicity, heads and left-hand distance.

 A key that is mentioned as a parent but has no entry of its own is a ghost.
 */
module Dag {
  import opened Keys

  type ParentMap = map<Key, seq<Key>>

  function Parents(pm: ParentMap, k: Key): seq<Key> {
    if k in pm then pm[k] else []
  }

  /** `a` is reached from `d` by exactly `n` child-to-parent steps. */
  ghost predicate Steps(pm: ParentMap, d: Key, a: Key, n: nat)
    decreases n
  {
    if n == 0 then d == a
    else exists p :: p in Parents(pm, d) && Steps(pm, p, a, n - 1)
  }

  /** Some chain of `n` child-to-parent steps starts at `k`. */
  ghost predicate HasPath(pm: ParentMap, k: Key, n: nat)
    decreases n
  {
    n == 0 || exists p :: p in Parents(pm, k) && HasPath(pm, p, n - 1)
  }

  ghost predicate StrictAncestor(pm: ParentMap, a: Key, d: Key) {
    exists n: nat :: n > 0 && Steps(pm, d, a, n)
  }

  ghost predicate AncestorOrSelf(pm: ParentMap, a: Key, d: Key) {
    a == d || StrictAncestor(pm, a, d)
  }

  ghost predicate Acyclic(pm: ParentMap) {
    forall k :: !StrictAncestor(pm, k, k)
  }

  /** The chains that start at `k` have bounded length: `k` reaches no cycle. */
  ghost predicate Grounded(pm: ParentMap, k: Key) {
    exists n: nat :: !HasPath(pm, k, n)
  }

  // ---------------------------------------------------------------------------------
  // Reachability

  lemma ParentIsAncestor(pm: ParentMap, p: Key, d: Key)
    requires p in Parents(pm, d)
    ensures StrictAncestor(pm, p, d)
  {
    assert Steps(pm, p, p, 0);
    assert Steps(pm, d, p, 1);
  }

  lemma {:induction false} StepsConcat(pm: ParentMap, a: Key, b: Key, c: Key, m: nat, n: nat)
    requires Steps(pm, a, b, m) && Steps(pm, b, c, n)
    ensures Steps(pm, a, c, m + n)
    decreases m
  {
    if m > 0 {
      var p :| p in Parents(pm, a) && Steps(pm, p, b, m - 1);
      StepsConcat(pm, p, b, c, m - 1, n);
      assert Steps(pm, p, c, (m + n) - 1);
    }
  }

  lemma AncestorTransitive(pm: ParentMap, a: Key, b: Key, c: Key)
    requires StrictAncestor(pm, a, b) && StrictAncestor(pm, b, c)
    ensures StrictAncestor(pm, a, c)
  {
    var m: nat :| m > 0 && Steps(pm, b, a, m);
    var n: nat :| n > 0 && Steps(pm, c, b, n);
    StepsConcat(pm, c, b, a, n, m);
  }

  /** A strict ancestor is a parent, or a strict ancestor of a parent. */
  lemma AncestorViaParent(pm: ParentMap, a: Key, d: Key) returns (p: Key)
    requires StrictAncestor(pm, a, d)
    ensures p in Parents(pm, d) && AncestorOrSelf(pm, a, p)
  {
    var n: nat :| n > 0 && Steps(pm, d, a, n);
    p :| p in Parents(pm, d) && Steps(pm, p, a, n - 1);
  }

  /** A strict ancestor is a parent of `d` or of some strict ancestor of `d`. */
  lemma {:induction false} AncestorViaChild(pm: ParentMap, a: Key, d: Key, n: nat) returns (c: Key)
    requires n > 0 && Steps(pm, d, a, n)
    ensures a in Parents(pm, c) && AncestorOrSelf(pm, c, d)
    ensures Steps(pm, d, c, n - 1)
    decreases n
  {
    if n == 1 {
      c := d;
      assert Steps(pm, d, c, 0);
    } else {
      var p :| p in Parents(pm, d) && Steps(pm, p, a, n - 1);
      c := AncestorViaChild(pm, a, p, n - 1);
      assert Steps(pm, d, c, n - 1);
    }
  }

  lemma ParentThenAncestor(pm: ParentMap, a: Key, p: Key, d: Key)
    requires p in Parents(pm, d) && AncestorOrSelf(pm, a, p)
    ensures StrictAncestor(pm, a, d)
  {
    ParentIsAncestor(pm, p, d);
    if a != p {
      AncestorTransitive(pm, a, p, d);
    }
  }

  lemma {:induction false} StepsMonotone(pm: ParentMap, pm': ParentMap, d: Key, a: Key, n: nat)
    requires forall k, p :: p in Parents(pm, k) ==> p in Parents(pm', k)
    requires Steps(pm, d, a, n)
    ensures Steps(pm', d, a, n)
    decreases n
  {
    if n > 0 {
      var p :| p in Parents(pm, d) && Steps(pm, p, a, n - 1);
      StepsMonotone(pm, pm', p, a, n - 1);
    }
  }

  /** A graph with fewer edges than an acyclic one is acyclic. */
  lemma AcyclicMonotone(pm: ParentMap, pm': ParentMap)
    requires forall k, p :: p in Parents(pm, k) ==> p in Parents(pm', k)
    requires Acyclic(pm')
    ensures Acyclic(pm)
  {
    forall k ensures !StrictAncestor(pm, k, k) {
      if StrictAncestor(pm, k, k) {
        var n: nat :| n > 0 && Steps(pm, k, k, n);
        StepsMonotone(pm, pm', k, k, n);
        assert StrictAncestor(pm', k, k);
      }
    }
  }

  // ---------------------------------------------------------------------------------
  // Path lengths and the greatest distance from origin

  lemma {:induction false} HasPathShorter(pm: ParentMap, k: Key, m: nat, n: nat)
    requires HasPath(pm, k, n) && m <= n
    ensures HasPath(pm, k, m)
    decreases m
  {
    if m > 0 {
      var p :| p in Parents(pm, k) && HasPath(pm, p, n - 1);
      HasPathShorter(pm, p, m - 1, n - 1);
    }
  }

  lemma {:induction false} StepsGivePath(pm: ParentMap, d: Key, a: Key, m: nat, n: nat)
    requires Steps(pm, d, a, m) && HasPath(pm, a, n)
    ensures HasPath(pm, d, m + n)
    decreases m
  {
    if m > 0 {
      var p :| p in Parents(pm, d) && Steps(pm, p, a, m - 1);
      StepsGivePath(pm, p, a, m - 1, n);
      assert HasPath(pm, p, (m + n) - 1);
    }
  }

  lemma {:induction false} PathGivesSteps(pm: ParentMap, d: Key, n: nat) returns (a: Key)
    requires HasPath(pm, d, n)
    ensures Steps(pm, d, a, n)
    decreases n
  {
    if n == 0 {
      a := d;
    } else {
      var p :| p in Parents(pm, d) && HasPath(pm, p, n - 1);
      a := PathGivesSteps(pm, p, n - 1);
    }
  }

  lemma {:induction false} CycleGivesPaths(pm: ParentMap, k: Key, m: nat, n: nat)
    requires m > 0 && Steps(pm, k, k, m)
    ensures HasPath(pm, k, n)
    decreases n
  {
    if n <= m {
      StepsGivePath(pm, k, k, m, 0);
      HasPathShorter(pm, k, n, m);
    } else {
      CycleGivesPaths(pm, k, m, n - m);
      StepsGivePath(pm, k, k, m, n - m);
    }
  }

  /** Pigeonhole: in an acyclic graph a chain visits each key at most once. */
  lemma {:induction false} AcyclicPathBound(pm: ParentMap, k: Key, n: nat, visited: set<Key>)
    requires Acyclic(pm) && HasPath(pm, k, n)
    requires visited <= pm.Keys
    requires forall v :: v in visited ==> StrictAncestor(pm, k, v)
    ensures n + |visited| <= |pm.Keys|
    decreases n
  {
    if n == 0 {
      SubsetSize(visited, pm.Keys);
    } else {
      var p :| p in Parents(pm, k) && HasPath(pm, p, n - 1);
      assert k !in visited;
      ParentIsAncestor(pm, p, k);
      forall v | v in visited + {k} ensures StrictAncestor(pm, p, v) {
        if v != k {
          AncestorTransitive(pm, p, k, v);
        }
      }
      AcyclicPathBound(pm, p, n - 1, visited + {k});
    }
  }

  lemma {:induction false} SubsetSize<T>(a: set<T>, b: set<T>)
    requires a <= b
    ensures |a| <= |b|
  {
    if a != {} {
      var x :| x in a;
      SubsetSize(a - {x}, b - {x});
    }
  }

  /** A graph is acyclic exactly when every key's chains are bounded. */
  lemma AcyclicIffGrounded(pm: ParentMap)
    ensures Acyclic(pm) <==> forall k :: Grounded(pm, k)
  {
    if Acyclic(pm) {
      forall k ensures Grounded(pm, k) {
        AcyclicGrounded(pm, k);
      }
    }
    forall k | StrictAncestor(pm, k, k) ensures !Grounded(pm, k) {
      var m: nat :| m > 0 && Steps(pm, k, k, m);
      forall n: nat ensures HasPath(pm, k, n) {
        CycleGivesPaths(pm, k, m, n);
      }
    }
  }

  lemma AcyclicGrounded(pm: ParentMap, k: Key)
    requires Acyclic(pm)
    ensures Grounded(pm, k)
  {
    if HasPath(pm, k, |pm.Keys| + 1) {
      AcyclicPathBound(pm, k, |pm.Keys| + 1, {});
    }
  }

  ghost function LeastUnreached(pm: ParentMap, k: Key, n: nat): (r: nat)
    requires !HasPath(pm, k, n)
    ensures !HasPath(pm, k, r) && r > 0 && HasPath(pm, k, r - 1)
  {
    if HasPath(pm, k, n - 1) then n else LeastUnreached(pm, k, n - 1)
  }

  /**
   The greatest distance from the origin: the number of keys on the longest chain of
   parents that starts at `k`. It is 1 for roots and ghosts.
   */
  ghost function Gdfo(pm: ParentMap, k: Key): nat
    requires Grounded(pm, k)
  {
    var n: nat :| !HasPath(pm, k, n);
    LeastUnreached(pm, k, n)
  }

  lemma GdfoIsLongestPath(pm: ParentMap, k: Key, n: nat)
    requires Grounded(pm, k)
    ensures HasPath(pm, k, n) <==> n < Gdfo(pm, k)
  {
    var g := Gdfo(pm, k);
    if n < g {
      HasPathShorter(pm, k, n, g - 1);
    } else if HasPath(pm, k, n) {
      HasPathShorter(pm, k, g, n);
    }
  }

  lemma GroundedParent(pm: ParentMap, k: Key, p: Key)
    requires Grounded(pm, k) && p in Parents(pm, k)
    ensures Grounded(pm, p) && Gdfo(pm, p) < Gdfo(pm, k)
  {
    var g := Gdfo(pm, k);
    GdfoIsLongestPath(pm, k, g);
    assert HasPath(pm, p, g - 1) ==> HasPath(pm, k, g);
    GdfoIsLongestPath(pm, p, g - 1);
  }

  lemma {:induction false} ParentsBound(pm: ParentMap, ps: seq<Key>) returns (n: nat)
    requires forall p | p in ps :: Grounded(pm, p)
    ensures forall p | p in ps :: !HasPath(pm, p, n)
  {
    n := 0;
    for i := 0 to |ps|
      invariant forall p | p in ps[..i] :: !HasPath(pm, p, n)
    {
      var g := Gdfo(pm, ps[i]);
      GdfoIsLongestPath(pm, ps[i], g);
      var n' := if g > n then g else n;
      forall p | p in ps[..i + 1] ensures !HasPath(pm, p, n') {
        if p == ps[i] {
          GdfoIsLongestPath(pm, p, n');
        } else {
          assert p in ps[..i];
          if HasPath(pm, p, n') { HasPathShorter(pm, p, n, n'); }
        }
      }
      n := n';
    }
    assert ps[..|ps|] == ps;
  }

  lemma GroundedFromParents(pm: ParentMap, k: Key)
    requires forall p | p in Parents(pm, k) :: Grounded(pm, p)
    ensures Grounded(pm, k)
  {
    var n := ParentsBound(pm, Parents(pm, k));
    assert !HasPath(pm, k, n + 1);
  }

  /** An ancestor of a grounded key is grounded and strictly nearer the origin. */
  lemma {:induction false} GdfoDropsAlong(pm: ParentMap, d: Key, a: Key, n: nat)
    requires Grounded(pm, d) && Steps(pm, d, a, n)
    ensures Grounded(pm, a) && Gdfo(pm, a) + n <= Gdfo(pm, d)
    decreases n
  {
    if n > 0 {
      var p :| p in Parents(pm, d) && Steps(pm, p, a, n - 1);
      GroundedParent(pm, d, p);
      GdfoDropsAlong(pm, p, a, n - 1);
    }
  }

  lemma AncestorGdfo(pm: ParentMap, a: Key, d: Key)
    requires Grounded(pm, d) && StrictAncestor(pm, a, d)
    ensures Grounded(pm, a) && Gdfo(pm, a) < Gdfo(pm, d)
  {
    var n: nat :| n > 0 && Steps(pm, d, a, n);
    GdfoDropsAlong(pm, d, a, n);
  }

  /** A labelling that rises along every edge bounds the length of every chain. */
  lemma {:induction false} RisingLabels(pm: ParentMap, dist: map<Key, nat>, k: Key, n: nat)
    requires Grounded(pm, k) && k in dist && dist[k] > 0
    requires forall q, p | q in dist && p in Parents(pm, q) && Grounded(pm, p) ::
               p in dist && dist[q] > dist[p] > 0
    requires HasPath(pm, k, n)
    ensures dist[k] > n
    decreases n
  {
    if n > 0 {
      var p :| p in Parents(pm, k) && HasPath(pm, p, n - 1);
      GroundedParent(pm, k, p);
      RisingLabels(pm, dist, p, n - 1);
    }
  }

  /**
   A labelling that is attested by chains and rises along every edge is the greatest
   distance from the origin.
   */
  lemma LabelsAreGdfo(pm: ParentMap, dist: map<Key, nat>, k: Key)
    requires Grounded(pm, k) && k in dist && dist[k] > 0 && HasPath(pm, k, dist[k] - 1)
    requires forall q, p | q in dist && p in Parents(pm, q) && Grounded(pm, p) ::
               p in dist && dist[q] > dist[p] > 0
    ensures dist[k] == Gdfo(pm, k)
  {
    var g := Gdfo(pm, k);
    GdfoIsLongestPath(pm, k, dist[k] - 1);
    GdfoIsLongestPath(pm, k, g - 1);
    RisingLabels(pm, dist, k, g - 1);
  }

  // ---------------------------------------------------------------------------------
  // Heads

  /** The keys of `s` that are not strict ancestors of another key of `s`. */
  ghost function HeadsOf(pm: ParentMap, s: set<Key>): set<Key> {
    set k | k in s && !exists d :: d in s && d != k && StrictAncestor(pm, k, d)
  }

  /** What `heads` answers: NULL counts only when nothing else is asked for. */
  ghost function Heads(pm: ParentMap, s: set<Key>): set<Key> {
    if s == {NULL_REVISION} then s else HeadsOf(pm, s - {NULL_REVISION})
  }

  /** Every key asked for is a head or a strict ancestor of one. */
  lemma {:induction false} HeadsDominate(pm: ParentMap, s: set<Key>, k: Key) returns (h: Key)
    requires Acyclic(pm) && k in s
    ensures h in HeadsOf(pm, s) && AncestorOrSelf(pm, k, h)
    decreases |s|
  {
    if k in HeadsOf(pm, s) {
      h := k;
    } else {
      var d :| d in s && d != k && StrictAncestor(pm, k, d);
      // A descendant of d is no ancestor of k, so k can be dropped from the question.
      h := HeadsDominate(pm, s - {k}, d);
      assert StrictAncestor(pm, k, h) by {
        if h != d { AncestorTransitive(pm, k, d, h); }
      }
      assert h in HeadsOf(pm, s) by {
        if StrictAncestor(pm, h, k) {
          AncestorTransitive(pm, h, k, h);
        }
      }
    }
  }

  /** No key of `h` is an ancestor of another, and every key of `s` is below one of `h`. */
  ghost predicate DominatingAntichain(pm: ParentMap, s: set<Key>, h: set<Key>) {
    && h <= s
    && (forall a, b {:trigger StrictAncestor(pm, a, b)} | a in h && b in h :: !StrictAncestor(pm, a, b))
    && (forall k {:trigger Dominated(pm, h, k)} | k in s :: Dominated(pm, h, k))
  }

  ghost predicate Dominated(pm: ParentMap, h: set<Key>, k: Key) {
    exists d {:trigger AncestorOrSelf(pm, k, d)} :: d in h && AncestorOrSelf(pm, k, d)
  }

  /** The heads are the one antichain among the keys asked for that dominates them all. */
  lemma HeadsCharacterised(pm: ParentMap, s: set<Key>, h: set<Key>)
    requires Acyclic(pm)
    ensures DominatingAntichain(pm, s, h) <==> h == HeadsOf(pm, s)
  {
    if h == HeadsOf(pm, s) {
      HeadsDominateAll(pm, s);
    }
    if DominatingAntichain(pm, s, h) {
      forall k | k in s ensures k in h <==> k in HeadsOf(pm, s) {
        DominatingAreHeads(pm, s, h, k);
      }
    }
  }

  lemma HeadsDominateAll(pm: ParentMap, s: set<Key>)
    requires Acyclic(pm)
    ensures DominatingAntichain(pm, s, HeadsOf(pm, s))
  {
    var h := HeadsOf(pm, s);
    forall k | k in s ensures Dominated(pm, h, k) {
      var d := HeadsDominate(pm, s, k);
    }
  }

  lemma DominatingAreHeads(pm: ParentMap, s: set<Key>, h: set<Key>, k: Key)
    requires Acyclic(pm) && DominatingAntichain(pm, s, h) && k in s
    ensures k in h <==> !exists d :: d in s && d != k && StrictAncestor(pm, k, d)
  {
    forall d | d in s && d != k && StrictAncestor(pm, k, d) ensures k !in h {
      assert Dominated(pm, h, d);
      var f :| f in h && AncestorOrSelf(pm, d, f);
      if d != f {
        AncestorTransitive(pm, k, d, f);
      }
    }
    assert Dominated(pm, h, k);
    var f :| f in h && AncestorOrSelf(pm, k, f);
  }

  /** The heads determine, and are determined by, ancestry: a two-key question decides it. */
  lemma HeadsOfPair(pm: ParentMap, a: Key, b: Key)
    requires Acyclic(pm) && a != NULL_REVISION && b != NULL_REVISION
    ensures (Heads(pm, {a, b}) == {b}) <==> AncestorOrSelf(pm, a, b)
    ensures (Heads(pm, {a, b}) == {a}) <==> AncestorOrSelf(pm, b, a)
    ensures Heads(pm, {a, b}) == {a, b} || Heads(pm, {a, b}) == {a} || Heads(pm, {a, b}) == {b}
  {
    var s := {a, b};
    assert s - {NULL_REVISION} == s;
    var h := HeadsOf(pm, s);
    if a != b {
      if StrictAncestor(pm, a, b) && StrictAncestor(pm, b, a) {
        AncestorTransitive(pm, a, b, a);
      }
      assert a in h <==> !StrictAncestor(pm, a, b);
      assert b in h <==> !StrictAncestor(pm, b, a);
    } else {
      assert s == {a};
      assert h == {a};
    }
  }

  /** The parents of the keys are among them. */
  ghost predicate ClosedUnderParents(pm: ParentMap, ks: set<Key>) {
    forall k, p {:trigger HasParent(pm, ks, k, p)} | HasParent(pm, ks, k, p) :: p in ks
  }

  ghost predicate HasParent(pm: ParentMap, ks: set<Key>, k: Key, p: Key) {
    k in ks && p in Parents(pm, k)
  }

  lemma {:induction false} AncestorsInClosed(pm: ParentMap, ks: set<Key>, d: Key, a: Key, n: nat)
    requires ClosedUnderParents(pm, ks) && d in ks && Steps(pm, d, a, n)
    ensures a in ks
    decreases n
  {
    if n > 0 {
      var p :| p in Parents(pm, d) && Steps(pm, p, a, n - 1);
      assert HasParent(pm, ks, d, p);
      AncestorsInClosed(pm, ks, p, a, n - 1);
    }
  }

  /** Within a set that holds the parents of its members, only their parents matter. */
  lemma {:induction false} StepsLocal(pm: ParentMap, pm': ParentMap, known: set<Key>, d: Key, a: Key, n: nat)
    requires forall k | k in known :: Parents(pm, k) == Parents(pm', k)
    requires forall k, p | k in known && p in Parents(pm, k) :: p in known
    requires d in known
    ensures Steps(pm, d, a, n) <==> Steps(pm', d, a, n)
    decreases n
  {
    if n > 0 {
      forall p | p in Parents(pm, d) ensures Steps(pm, p, a, n - 1) <==> Steps(pm', p, a, n - 1) {
        StepsLocal(pm, pm', known, p, a, n - 1);
      }
    }
  }

  lemma HeadsLocal(pm: ParentMap, pm': ParentMap, known: set<Key>, s: set<Key>)
    requires forall k | k in known :: Parents(pm, k) == Parents(pm', k)
    requires forall k, p | k in known && p in Parents(pm, k) :: p in known
    requires s <= known
    ensures HeadsOf(pm, s) == HeadsOf(pm', s)
  {
    forall a, d | d in s ensures StrictAncestor(pm, a, d) <==> StrictAncestor(pm', a, d) {
      forall n: nat ensures Steps(pm, d, a, n) <==> Steps(pm', d, a, n) {
        StepsLocal(pm, pm', known, d, a, n);
      }
    }
  }

  lemma {:induction false} PathsLocal(pm: ParentMap, pm': ParentMap, known: set<Key>, k: Key, n: nat)
    requires forall d | d in known :: Parents(pm, d) == Parents(pm', d)
    requires forall d, p | d in known && p in Parents(pm, d) && p in pm :: p in known
    requires k in known && pm'.Keys <= pm.Keys
    ensures HasPath(pm, k, n) <==> HasPath(pm', k, n)
    decreases n
  {
    if n > 0 {
      forall p | p in Parents(pm, k) ensures HasPath(pm, p, n - 1) <==> HasPath(pm', p, n - 1) {
        if p in known {
          PathsLocal(pm, pm', known, p, n - 1);
        }
      }
    }
  }

  lemma GroundedLocal(pm: ParentMap, pm': ParentMap, known: set<Key>, k: Key)
    requires forall d | d in known :: Parents(pm, d) == Parents(pm', d)
    requires ClosedUnderParents(pm, known) && k in known && Grounded(pm, k)
    ensures Grounded(pm', k)
  {
    var n: nat :| !HasPath(pm, k, n);
    if HasPath(pm', k, n) {
      PathsClosed(pm, pm', known, k, n);
    }
    assert !HasPath(pm', k, n);
  }

  lemma {:induction false} PathsClosed(pm: ParentMap, pm': ParentMap, known: set<Key>, k: Key, n: nat)
    requires forall d | d in known :: Parents(pm, d) == Parents(pm', d)
    requires ClosedUnderParents(pm, known) && k in known && HasPath(pm', k, n)
    ensures HasPath(pm, k, n)
    decreases n
  {
    if n > 0 {
      var p :| p in Parents(pm', k) && HasPath(pm', p, n - 1);
      assert HasParent(pm, known, k, p);
      PathsClosed(pm, pm', known, p, n - 1);
    }
  }

  /** The chains that start at a key are bounded exactly if they lead into no cycle. */
  lemma GroundedIffNoCycle(pm: ParentMap, k: Key)
    ensures Grounded(pm, k) <==> forall c | AncestorOrSelf(pm, c, k) :: !StrictAncestor(pm, c, c)
  {
    if forall c | AncestorOrSelf(pm, c, k) :: !StrictAncestor(pm, c, c) {
      BoundedWithoutCycle(pm, k);
    }
    forall c | AncestorOrSelf(pm, c, k) && StrictAncestor(pm, c, c) ensures !Grounded(pm, k) {
      var m: nat :| m > 0 && Steps(pm, c, c, m);
      forall n: nat ensures HasPath(pm, c, n) {
        CycleGivesPaths(pm, c, m, n);
      }
      if Grounded(pm, k) && c != k {
        AncestorGdfo(pm, c, k);
      }
    }
  }

  lemma BoundedWithoutCycle(pm: ParentMap, k: Key)
    requires forall c | AncestorOrSelf(pm, c, k) :: !StrictAncestor(pm, c, c)
    ensures Grounded(pm, k)
  {
    var known := (set d | d in pm && AncestorOrSelf(pm, d, k));
    var part := map d | d in known :: pm[d];
    forall c ensures !StrictAncestor(part, c, c) {
      if StrictAncestor(part, c, c) {
        var n: nat :| n > 0 && Steps(part, c, c, n);
        StepsMonotone(part, pm, c, c, n);
      }
    }
    forall d, p | d in known && p in Parents(pm, d) && p in pm ensures p in known {
      ParentIsAncestor(pm, p, d);
      if d != k {
        AncestorTransitive(pm, p, d, k);
      }
    }
    AcyclicGrounded(part, k);
    var n: nat :| !HasPath(part, k, n);
    if k in pm {
      PathsLocal(pm, part, known, k, n);
      assert !HasPath(pm, k, n);
    } else {
      assert !HasPath(pm, k, 1);
    }
  }

  // ---------------------------------------------------------------------------------
  // Left-hand history

  /** `r` has left-hand distance `n` from the null revision. */
  ghost predicate LefthandDistance(pm: ParentMap, r: Key, n: nat)
    decreases n
  {
    if r == NULL_REVISION then n == 0
    else n > 0 && r in pm && LefthandDistance(pm, if |pm[r]| == 0 then NULL_REVISION else pm[r][0], n - 1)
  }

  lemma {:induction false} LefthandDistanceUnique(pm: ParentMap, r: Key, m: nat, n: nat)
    requires LefthandDistance(pm, r, m) && LefthandDistance(pm, r, n)
    ensures m == n
    decreases m
  {
    if r != NULL_REVISION {
      LefthandDistanceUnique(pm, if |pm[r]| == 0 then NULL_REVISION else pm[r][0], m - 1, n - 1);
    }
  }
}

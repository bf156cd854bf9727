/**
 The loop that passes a new distance on to the descendants of a node: what one turn does, what
 every turn keeps, and on which graphs it comes to an end.
 */
module Propagation {
  import opened Wrappers
  import opened Keys
  import opened Dag
  import opened Frontier
  import opened NodeTable
  import opened GdfoWalk

  /** The distances and the queue between two turns. */
  datatype Progress = Progress(g: map<Key, nat>, pending: seq<Key>)

  /** A child that is nearer the origin than `next` is moved there and queued. */
  ghost function RaiseOne(s: Progress, c: Key, next: nat): Progress {
    if c in s.g && s.g[c] < next then Progress(s.g[c := next], s.pending + [c]) else s
  }

  ghost function RaiseAll(s: Progress, children: seq<Key>, next: nat): Progress {
    if |children| == 0 then s
    else RaiseOne(RaiseAll(s, children[..|children| - 1], next), children[|children| - 1], next)
  }

  lemma RaiseAllAppend(s: Progress, children: seq<Key>, c: Key, next: nat)
    ensures RaiseAll(s, children + [c], next) == RaiseOne(RaiseAll(s, children, next), c, next)
  {
    assert (children + [c])[..|children|] == children;
  }

  /** One turn: the first of the queue raises its children to one more than it has at the beginning. */
  ghost function Turn(net: Net, s: Progress): Progress
    requires |s.pending| > 0
  {
    var cur, rest := s.pending[0], Progress(s.g, s.pending[1..]);
    if cur in net.outs && cur in s.g then RaiseAll(rest, net.outs[cur], s.g[cur] + 1) else rest
  }

  /** After `n` turns, or fewer if the queue is empty before. */
  ghost function Turns(net: Net, s: Progress, n: nat): Progress {
    if n == 0 then s
    else
      var before := Turns(net, s, n - 1);
      if |before.pending| == 0 then before else Turn(net, before)
  }

  ghost predicate EndedAfter(net: Net, s: Progress, n: nat) {
    |Turns(net, s, n).pending| == 0
  }

  ghost predicate Ends(net: Net, s: Progress) {
    exists n: nat {:trigger EndedAfter(net, s, n)} :: EndedAfter(net, s, n)
  }

  lemma {:induction false} TurnsShift(net: Net, s: Progress, n: nat)
    requires |s.pending| > 0
    ensures Turns(net, s, n + 1) == Turns(net, Turn(net, s), n)
  {
    if n > 0 {
      TurnsShift(net, s, n - 1);
    } else {
      assert Turns(net, s, 0) == s;
    }
  }

  /** Once the queue is empty it stays so. */
  lemma {:induction false} StaysEnded(net: Net, s: Progress, m: nat, n: nat)
    requires EndedAfter(net, s, m) && m <= n
    ensures Turns(net, s, n) == Turns(net, s, m)
  {
    if m < n {
      StaysEnded(net, s, m, n - 1);
    }
  }

  // ---------------------------------------------------------------------------------
  // What every turn keeps, with cycles or without

  /**
   Every node is labelled, and labels rise along every edge, except along the edges out of
   pending nodes and those edges out of `cur` that have not been looked at yet.
   */
  ghost predicate Propagating(net: Net, g: map<Key, nat>, pending: seq<Key>, cur: Option<Key>, i: nat) {
    && Dual(net) && g.Keys == net.ins.Keys
    && (forall k | k in pending :: k in net.ins)
    && (cur.Some? ==> cur.value in net.ins && i <= |net.outs[cur.value]|)
    && (forall v, p {:trigger Settled(net, g, pending, cur, i, v, p)} :: Settled(net, g, pending, cur, i, v, p))
  }

  ghost predicate Settled(net: Net, g: map<Key, nat>, pending: seq<Key>, cur: Option<Key>, i: nat, v: Key, p: Key) {
    v in net.ins && p in net.ins[v] ==>
      || Rises(g, p, v) || p in pending
      || (cur == Some(p) && p in net.outs && i <= |net.outs[p]| && v !in net.outs[p][..i])
  }

  /** Within a turn of `cur`: unless it is its own child, the children go one further than it is itself. */
  ghost predicate Passing(net: Net, s: Progress, cur: Key, i: nat, next: nat) {
    && Propagating(net, s.g, s.pending, Some(cur), i)
    && (s.g[cur] + 1 == next || cur in s.pending)
  }

  lemma PassStart(net: Net, s: Progress)
    requires Propagating(net, s.g, s.pending, None, 0) && |s.pending| > 0
    ensures s.pending[0] in s.g && s.pending[0] in net.outs
    ensures Passing(net, Progress(s.g, s.pending[1..]), s.pending[0], 0, s.g[s.pending[0]] + 1)
  {
    var cur, rest := s.pending[0], s.pending[1..];
    assert s.pending == [cur] + rest;
    assert cur in s.pending;
    assert net.outs[cur][..0] == [];
    forall v, p ensures Settled(net, s.g, rest, Some(cur), 0, v, p) {
      assert Settled(net, s.g, s.pending, None, 0, v, p);
    }
  }

  lemma PassOne(net: Net, s: Progress, cur: Key, i: nat, after: nat, next: nat)
    requires Passing(net, s, cur, i, next) && i < after == i + 1 <= |net.outs[cur]|
    ensures Passing(net, RaiseOne(s, net.outs[cur][i], next), cur, after, next)
  {
    var c := net.outs[cur][i];
    var s' := RaiseOne(s, c, next);
    assert c in net.outs[cur] && c in net.ins;
    assert net.outs[cur][..after] == net.outs[cur][..i] + [c];
    assert forall k | k in s.pending :: k in s'.pending;
    forall v, p ensures Settled(net, s'.g, s'.pending, Some(cur), after, v, p) {
      assert Settled(net, s.g, s.pending, Some(cur), i, v, p);
    }
  }

  lemma {:induction false} PassAll(net: Net, s: Progress, cur: Key, k: nat, next: nat)
    requires Passing(net, s, cur, 0, next) && cur in net.outs && k <= |net.outs[cur]|
    ensures Passing(net, RaiseAll(s, net.outs[cur][..k], next), cur, k, next)
    decreases k
  {
    if k > 0 {
      PassAll(net, s, cur, k - 1, next);
      PassOne(net, RaiseAll(s, net.outs[cur][..k - 1], next), cur, k - 1, k, next);
      assert net.outs[cur][..k] == net.outs[cur][..k - 1] + [net.outs[cur][k - 1]];
      RaiseAllAppend(s, net.outs[cur][..k - 1], net.outs[cur][k - 1], next);
    } else {
      assert net.outs[cur][..0] == [];
    }
  }

  lemma PassEnd(net: Net, g: map<Key, nat>, pending: seq<Key>, cur: Key)
    requires cur in net.ins && Dual(net) && Propagating(net, g, pending, Some(cur), |net.outs[cur]|)
    ensures Propagating(net, g, pending, None, 0)
  {
    assert net.outs[cur][..|net.outs[cur]|] == net.outs[cur];
    forall v, p ensures Settled(net, g, pending, None, 0, v, p) {
      assert Settled(net, g, pending, Some(cur), |net.outs[cur]|, v, p);
      if v in net.ins && p == cur { EdgeAtBothEnds(net, cur, v); }
    }
  }

  lemma TurnPropagates(net: Net, s: Progress)
    requires Propagating(net, s.g, s.pending, None, 0) && |s.pending| > 0
    ensures Propagating(net, Turn(net, s).g, Turn(net, s).pending, None, 0)
  {
    var cur, rest := s.pending[0], Progress(s.g, s.pending[1..]);
    PassStart(net, s);
    PassAll(net, rest, cur, |net.outs[cur]|, s.g[cur] + 1);
    assert net.outs[cur][..|net.outs[cur]|] == net.outs[cur];
    PassEnd(net, Turn(net, s).g, Turn(net, s).pending, cur);
  }

  lemma {:induction false} TurnsPropagate(net: Net, s: Progress, n: nat)
    requires Propagating(net, s.g, s.pending, None, 0)
    ensures Propagating(net, Turns(net, s, n).g, Turns(net, s, n).pending, None, 0)
  {
    if n > 0 {
      TurnsPropagate(net, s, n - 1);
      if |Turns(net, s, n - 1).pending| > 0 {
        TurnPropagates(net, Turns(net, s, n - 1));
      }
    }
  }

  // ---------------------------------------------------------------------------------
  // Without cycles: labels stay attested, so they cannot grow for ever

  ghost predicate Repairing(net: Net, s: Progress) {
    Propagating(net, s.g, s.pending, None, 0) && Acyclic(net.ins) && Attested(net.ins, s.g)
  }

  /** The pairs (node, value) by which labels may still grow. */
  ghost function Slack(g: map<Key, nat>, bound: nat): set<(Key, nat)> {
    set k, v: nat | k in g.Keys && 0 <= v < bound && g[k] < v :: (k, v)
  }

  ghost function Budget(net: Net, g: map<Key, nat>): nat {
    |Slack(g, |net.ins| + 2)|
  }

  lemma SlackShrinks(g: map<Key, nat>, g': map<Key, nat>, c: Key, bound: nat)
    requires c in g && c in g' && g' == g[c := g'[c]] && g[c] < g'[c] < bound
    ensures |Slack(g', bound)| < |Slack(g, bound)|
  {
    assert (c, g'[c]) in Slack(g, bound);
    assert (c, g'[c]) !in Slack(g', bound);
    assert Slack(g', bound) <= Slack(g, bound) - {(c, g'[c])};
    SubsetSize(Slack(g', bound), Slack(g, bound) - {(c, g'[c])});
  }

  /** One child: its label stays attested, and if it is raised less is left to raise. */
  lemma RaiseOneRepairs(net: Net, s: Progress, cur: Key, c: Key)
    requires Dual(net) && Acyclic(net.ins) && s.g.Keys == net.ins.Keys && Attested(net.ins, s.g)
    requires cur in net.ins && c in net.outs[cur]
    ensures var s' := RaiseOne(s, c, s.g[cur] + 1);
            && s'.g.Keys == net.ins.Keys && Attested(net.ins, s'.g) && s'.g[cur] == s.g[cur]
            && (s' == s || Budget(net, s'.g) < Budget(net, s.g))
  {
    RaisedAttested(net, cur, c, s.g);
    ParentIsAncestor(net.ins, cur, c);
    if s.g[c] < s.g[cur] + 1 {
      BudgetShrinks(net, s.g, Raised(s.g, cur, c), c);
    }
  }

  lemma BudgetShrinks(net: Net, g: map<Key, nat>, g': map<Key, nat>, c: Key)
    requires Acyclic(net.ins) && Attested(net.ins, g') && c in g && c in g' && g' == g[c := g'[c]] && g[c] < g'[c]
    ensures Budget(net, g') < Budget(net, g)
  {
    assert AttestedAt(net.ins, g', c);
    AcyclicPathBound(net.ins, c, g'[c] - 1, {});
    assert |net.ins.Keys| == |net.ins|;
    SlackShrinks(g, g', c, |net.ins| + 2);
  }

  lemma {:induction false} RaiseAllRepairs(net: Net, s: Progress, cur: Key, children: seq<Key>, next: nat)
    requires Dual(net) && Acyclic(net.ins) && s.g.Keys == net.ins.Keys && Attested(net.ins, s.g)
    requires cur in net.ins && next == s.g[cur] + 1 && forall c | c in children :: c in net.outs[cur]
    ensures var s' := RaiseAll(s, children, next);
            && s'.g.Keys == net.ins.Keys && Attested(net.ins, s'.g) && s'.g[cur] == s.g[cur]
            && (s' == s || Budget(net, s'.g) < Budget(net, s.g))
  {
    if |children| > 0 {
      var last := |children| - 1;
      RaiseAllRepairs(net, s, cur, children[..last], next);
      RaiseOneRepairs(net, RaiseAll(s, children[..last], next), cur, children[last]);
    }
  }

  lemma TurnRepairs(net: Net, s: Progress)
    requires Repairing(net, s) && |s.pending| > 0
    ensures Repairing(net, Turn(net, s))
    ensures Budget(net, Turn(net, s).g) < Budget(net, s.g) || Turn(net, s) == Progress(s.g, s.pending[1..])
  {
    TurnPropagates(net, s);
    var cur := s.pending[0];
    assert cur in s.pending;
    RaiseAllRepairs(net, Progress(s.g, s.pending[1..]), cur, net.outs[cur], s.g[cur] + 1);
  }

  lemma {:induction false} TurnsRepair(net: Net, s: Progress, n: nat)
    requires Repairing(net, s)
    ensures Repairing(net, Turns(net, s, n))
  {
    if n > 0 {
      TurnsRepair(net, s, n - 1);
      if |Turns(net, s, n - 1).pending| > 0 {
        TurnRepairs(net, Turns(net, s, n - 1));
      }
    }
  }

  lemma {:induction false} EndsWithoutCycle(net: Net, s: Progress)
    requires Repairing(net, s)
    ensures Ends(net, s)
    decreases Budget(net, s.g), |s.pending|
  {
    if |s.pending| == 0 {
      assert EndedAfter(net, s, 0);
    } else {
      TurnRepairs(net, s);
      EndsWithoutCycle(net, Turn(net, s));
      var n: nat :| EndedAfter(net, Turn(net, s), n);
      TurnsShift(net, s, n);
      assert EndedAfter(net, s, n + 1);
    }
  }

  // ---------------------------------------------------------------------------------
  // The end

  /** With labels that rise along every edge nothing is left to update. */
  ghost predicate CameToRest(net: Net, g: map<Key, nat>) {
    && g.Keys == net.ins.Keys
    && forall v, p {:trigger Settled(net, g, [], None, 0, v, p)} :: Settled(net, g, [], None, 0, v, p)
  }

  /** Propagating distances can only come to rest on a graph without cycles. */
  lemma RestMeansAcyclic(net: Net, g: map<Key, nat>)
    requires Dual(net) && CameToRest(net, g)
    ensures Acyclic(net.ins)
  {
    forall k ensures !StrictAncestor(net.ins, k, k) {
      if StrictAncestor(net.ins, k, k) {
        var n: nat :| n > 0 && Steps(net.ins, k, k, n);
        LabelsFallAlong(net, g, k, k, n);
      }
    }
  }

  lemma {:induction false} LabelsFallAlong(net: Net, g: map<Key, nat>, d: Key, a: Key, n: nat)
    requires Dual(net) && CameToRest(net, g) && Steps(net.ins, d, a, n) && n > 0
    ensures d in g && a in g && g[a] < g[d]
    decreases n
  {
    var p :| p in Parents(net.ins, d) && Steps(net.ins, p, a, n - 1);
    assert Settled(net, g, [], None, 0, d, p);
    if n > 1 {
      LabelsFallAlong(net, g, p, a, n - 1);
    }
  }

  /** So a state that is at rest exists exactly on graphs without cycles. */
  lemma ComesToRestIff(net: Net)
    requires Dual(net)
    ensures (exists g {:trigger CameToRest(net, g)} :: CameToRest(net, g)) <==> Acyclic(net.ins)
  {
    if Acyclic(net.ins) {
      AcyclicIffGrounded(net.ins);
      var g := map k | k in net.ins :: Gdfo(net.ins, k);
      forall v, p ensures Settled(net, g, [], None, 0, v, p) {
        if v in net.ins && p in net.ins[v] {
          GroundedParent(net.ins, v, p);
          assert p in net.ins;
          GdfoIsLongestPath(net.ins, p, 0);
        }
      }
      assert CameToRest(net, g);
    }
    forall g | CameToRest(net, g) ensures Acyclic(net.ins) {
      RestMeansAcyclic(net, g);
    }
  }

  /** The queue becomes empty exactly on graphs without cycles. */
  lemma EndsIff(net: Net, s: Progress)
    requires Propagating(net, s.g, s.pending, None, 0) && (Acyclic(net.ins) ==> Attested(net.ins, s.g))
    ensures Ends(net, s) <==> Acyclic(net.ins)
  {
    if Ends(net, s) {
      var n: nat :| EndedAfter(net, s, n);
      TurnsPropagate(net, s, n);
      EmptyIsRest(net, Turns(net, s, n));
    }
    if Acyclic(net.ins) {
      EndsWithoutCycle(net, s);
    }
  }

  lemma EmptyIsRest(net: Net, s: Progress)
    requires Propagating(net, s.g, s.pending, None, 0) && |s.pending| == 0
    ensures CameToRest(net, s.g) && Acyclic(net.ins)
  {
    assert s.pending == [];
    RestMeansAcyclic(net, s.g);
  }

  lemma RepairDone(t: Table)
    requires Repairing(Down(t), Progress(Labels(t), []))
    ensures GdfoFound(t)
    ensures forall k | k in t :: t[k].gdfo.Some?
  {
    var net := Down(t);
    var g := Labels(t);
    AcyclicIffGrounded(net.ins);
    forall k | k in t
      ensures t[k].gdfo.Some? && FoundAt(t, k)
    {
      assert k in g && AttestedAt(net.ins, g, k);
      forall q, p | q in g && p in Parents(net.ins, q) ensures p in g && g[q] > g[p] > 0 {
        assert Settled(net, g, [], None, 0, q, p);
        assert AttestedAt(net.ins, g, p);
      }
      LabelsAreGdfo(net.ins, g, k);
      if net.ins[k] != [] {
        assert net.ins[k][0] in net.ins[k];
      }
    }
  }
}

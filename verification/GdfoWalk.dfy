/**
 Why the labels computed by `_find_gdfo` and repaired by `add_node` are the greatest
 distances from the origin.
 */
module GdfoWalk {
  import opened Wrappers
  import opened Keys
  import opened Dag
  import opened Frontier
  import opened NodeTable

  /** The distances found so far. */
  ghost function Labels(t: Table): map<Key, nat> {
    map k | k in t && t[k].gdfo.Some? :: t[k].gdfo.value
  }

  /** Every label is the length of some chain of parents. */
  ghost predicate AttestedAt(pm: ParentMap, g: map<Key, nat>, k: Key) {
    k in g ==> k in pm && g[k] > 0 && HasPath(pm, k, g[k] - 1)
  }

  ghost predicate Attested(pm: ParentMap, g: map<Key, nat>) {
    forall k {:trigger AttestedAt(pm, g, k)} :: AttestedAt(pm, g, k)
  }

  /** The label of `v` exceeds that of `p`. */
  ghost predicate Rises(g: map<Key, nat>, p: Key, v: Key) {
    p in g && v in g && g[p] < g[v]
  }

  // ---------------------------------------------------------------------------------
  // The batch computation

  ghost predicate KnownAtRest(net: Net, done: set<Key>, g: map<Key, nat>, v: Key) {
    v in net.ins ==> (v in g <==> net.ins[v] == [] || CountIn(net.ins[v], done) > 0)
  }

  ghost predicate KnownWithin(net: Net, done: set<Key>, cur: Key, i: nat, g: map<Key, nat>, v: Key)
    requires Dual(net) && cur in net.ins && i <= |net.outs[cur]|
  {
    v in net.ins ==> (v in g <==> net.ins[v] == [] || SeenAt(net, done, cur, i, v) > 0)
  }

  /** Labels rise along the edges out of the nodes that are done. */
  ghost predicate RisesFrom(net: Net, done: set<Key>, g: map<Key, nat>, v: Key, p: Key) {
    v in net.ins && p in net.ins[v] && p in done ==> Rises(g, p, v)
  }

  ghost predicate RestLabels(net: Net, done: set<Key>, queued: set<Key>, g: map<Key, nat>) {
    && Rest(net, done, queued)
    && Attested(net.ins, g) && g.Keys <= net.ins.Keys
    && (forall v {:trigger KnownAtRest(net, done, g, v)} :: KnownAtRest(net, done, g, v))
    && (forall v, p {:trigger RisesFrom(net, done, g, v, p)} :: RisesFrom(net, done, g, v, p))
  }

  ghost predicate MidLabels(net: Net, done: set<Key>, cur: Key, i: nat, queued: set<Key>, g: map<Key, nat>) {
    && Mid(net, done, cur, i, queued)
    && Attested(net.ins, g) && g.Keys <= net.ins.Keys
    && (forall v {:trigger KnownWithin(net, done, cur, i, g, v)} :: KnownWithin(net, done, cur, i, g, v))
    && (forall v, p {:trigger RisesFrom(net, done, g, v, p)} :: RisesFrom(net, done, g, v, p))
    && (forall v {:trigger Rises(g, cur, v)} | v in net.outs[cur][..i] :: Rises(g, cur, v))
    && cur in g
  }

  lemma LabelsStart(net: Net, tails: set<Key>, g: map<Key, nat>)
    requires Dual(net)
    requires tails == set v | v in net.ins && net.ins[v] == []
    requires g.Keys == tails && forall k | k in g :: g[k] == 1
    ensures RestLabels(net, {}, tails, g)
  {
    Start(net, tails);
    forall v ensures KnownAtRest(net, {}, g, v) {
      if v in net.ins { CountInEmpty(net.ins[v]); }
    }
  }

  lemma LabelsPop(net: Net, done: set<Key>, cur: Key, queued: set<Key>, g: map<Key, nat>)
    requires RestLabels(net, done, queued, g) && cur in queued
    ensures MidLabels(net, done, cur, 0, queued - {cur}, g)
  {
    Pop(net, done, cur, queued);
    assert net.outs[cur][..0] == [];
    assert ReadyAtRest(net, done, queued, cur) && KnownAtRest(net, done, g, cur);
    CountInBound(net.ins[cur], done);
    forall v ensures KnownWithin(net, done, cur, 0, g, v) {
      assert KnownAtRest(net, done, g, v);
    }
  }

  ghost function Raised(g: map<Key, nat>, cur: Key, c: Key): map<Key, nat>
    requires cur in g
  {
    if c !in g || g[cur] + 1 > g[c] then g[c := g[cur] + 1] else g
  }

  lemma RaisedAttested(net: Net, cur: Key, c: Key, g: map<Key, nat>)
    requires Dual(net) && Attested(net.ins, g) && cur in g && cur in net.ins && c in net.outs[cur]
    ensures c in net.ins && cur in net.ins[c]
    ensures Attested(net.ins, Raised(g, cur, c))
  {
    EdgeAtBothEnds(net, cur, c);
    assert AttestedAt(net.ins, g, cur);
    assert cur in Parents(net.ins, c) && HasPath(net.ins, cur, g[cur] - 1);
    assert HasPath(net.ins, c, g[cur]);
    forall k ensures AttestedAt(net.ins, Raised(g, cur, c), k) {
      assert AttestedAt(net.ins, g, k);
    }
  }

  lemma RaisedRises(g: map<Key, nat>, cur: Key, c: Key)
    requires cur in g && c != cur
    ensures Rises(Raised(g, cur, c), cur, c)
    ensures forall p, v | p != c && Rises(g, p, v) :: Rises(Raised(g, cur, c), p, v)
  {
  }

  lemma KnownStep(net: Net, done: set<Key>, cur: Key, i: nat, next: nat, g: map<Key, nat>, g': map<Key, nat>)
    requires Dual(net) && cur in net.ins && i < |net.outs[cur]| && next == i + 1
    requires g'.Keys == g.Keys + {net.outs[cur][i]}
    requires forall v {:trigger KnownWithin(net, done, cur, i, g, v)} :: KnownWithin(net, done, cur, i, g, v)
    ensures forall v {:trigger KnownWithin(net, done, cur, next, g', v)} :: KnownWithin(net, done, cur, next, g', v)
  {
    forall v ensures KnownWithin(net, done, cur, next, g', v) {
      assert KnownWithin(net, done, cur, i, g, v);
      if v in net.ins { SeenNext(net, done, cur, i, v); }
    }
  }

  lemma RisesStep(net: Net, done: set<Key>, cur: Key, i: nat, g: map<Key, nat>)
    requires cur in net.outs && i < |net.outs[cur]| && cur in g
    requires net.outs[cur][i] !in done + {cur}
    requires forall v, p {:trigger RisesFrom(net, done, g, v, p)} :: RisesFrom(net, done, g, v, p)
    requires forall v {:trigger Rises(g, cur, v)} | v in net.outs[cur][..i] :: Rises(g, cur, v)
    ensures var g' := Raised(g, cur, net.outs[cur][i]);
            && (forall v, p {:trigger RisesFrom(net, done, g', v, p)} :: RisesFrom(net, done, g', v, p))
            && (forall v {:trigger Rises(g', cur, v)} | v in net.outs[cur][..i + 1] :: Rises(g', cur, v))
  {
    var c := net.outs[cur][i];
    var g' := Raised(g, cur, c);
    RaisedRises(g, cur, c);
    assert net.outs[cur][..i + 1] == net.outs[cur][..i] + [c];
    forall v, p ensures RisesFrom(net, done, g', v, p) {
      assert RisesFrom(net, done, g, v, p);
    }
    forall v | v in net.outs[cur][..i + 1] ensures Rises(g', cur, v) {
      if v != c { assert v in net.outs[cur][..i] && Rises(g, cur, v); }
    }
  }

  ghost function QueuedAfter(net: Net, done: set<Key>, cur: Key, i: nat, queued: set<Key>): set<Key>
    requires Dual(net) && cur in net.ins && i < |net.outs[cur]| && net.outs[cur][i] in net.ins
  {
    var c := net.outs[cur][i];
    if SeenAt(net, done, cur, i, c) + 1 == |net.ins[c]| then queued + {c} else queued
  }

  lemma LabelsStep(net: Net, done: set<Key>, cur: Key, i: nat, queued: set<Key>, g: map<Key, nat>)
    requires MidLabels(net, done, cur, i, queued, g) && i < |net.outs[cur]|
    ensures var c := net.outs[cur][i];
      && c in net.ins
      && c !in done + {cur} + queued
      && SeenAt(net, done, cur, i, c) < |net.ins[c]|
      && MidLabels(net, done, cur, i + 1, QueuedAfter(net, done, cur, i, queued), Raised(g, cur, c))
  {
    var c := net.outs[cur][i];
    Step(net, done, cur, i, queued);
    assert c in net.outs[cur];
    RaisedAttested(net, cur, c, g);
    KnownStep(net, done, cur, i, i + 1, g, Raised(g, cur, c));
    RisesStep(net, done, cur, i, g);
  }

  lemma LabelsFinish(net: Net, done: set<Key>, cur: Key, queued: set<Key>, g: map<Key, nat>)
    requires Dual(net) && cur in net.ins && MidLabels(net, done, cur, |net.outs[cur]|, queued, g)
    ensures RestLabels(net, done + {cur}, queued, g)
  {
    Finish(net, done, cur, queued);
    assert net.outs[cur][..|net.outs[cur]|] == net.outs[cur];
    forall v ensures KnownAtRest(net, done + {cur}, g, v) {
      assert KnownWithin(net, done, cur, |net.outs[cur]|, g, v);
      if v in net.ins { SeenBound(net, done, cur, |net.outs[cur]|, v); }
    }
    forall v, p ensures RisesFrom(net, done + {cur}, g, v, p) {
      assert RisesFrom(net, done, g, v, p);
      if p == cur && v in net.ins && p in net.ins[v] {
        EdgeAtBothEnds(net, cur, v);
        assert Rises(g, cur, v);
      }
    }
  }

  lemma {:induction false} CountInPositive(s: seq<Key>, marked: set<Key>)
    ensures CountIn(s, marked) > 0 <==> exists k :: k in s && k in marked
  {
    if |s| > 0 {
      CountInPositive(s[1..], marked);
      assert s == [s[0]] + s[1..];
      assert forall k :: k in s <==> k == s[0] || k in s[1..];
    }
  }

  lemma GroundedLabel(net: Net, done: set<Key>, g: map<Key, nat>, k: Key)
    requires RestLabels(net, done, {}, g) && k in net.ins && Grounded(net.ins, k)
    ensures k in g && g[k] == Gdfo(net.ins, k)
  {
    DoneIsGrounded(net, done);
    CountInBound(net.ins[k], done);
    assert ReadyAtRest(net, done, {}, k) && KnownAtRest(net, done, g, k);
    assert AttestedAt(net.ins, g, k);
    assert net.ins[k] != [] ==> net.ins[k][0] in net.ins[k];
    CountInPositive(net.ins[k], done);
    forall q, p | q in g && p in Parents(net.ins, q) && Grounded(net.ins, p)
      ensures p in g && g[q] > g[p] > 0
    {
      assert p in done;
      assert RisesFrom(net, done, g, q, p);
      assert AttestedAt(net.ins, g, p);
    }
    LabelsAreGdfo(net.ins, g, k);
  }

  /** When the walk runs dry its labels are what `_find_gdfo` promises. */
  lemma LabelsDone(t: Table, done: set<Key>)
    requires Dual(Down(t)) && RestLabels(Down(t), done, {}, Labels(t))
    ensures GdfoFound(t)
  {
    var net := Down(t);
    var g := Labels(t);
    forall k ensures FoundAt(t, k) {
      if k in t {
        if Grounded(net.ins, k) {
          GroundedLabel(net, done, g, k);
        }
        DoneIsGrounded(net, done);
        CountInPositive(net.ins[k], done);
        assert KnownAtRest(net, done, g, k);
        assert forall p | p in net.ins[k] :: p in done <==> Grounded(net.ins, p);
        assert k in g <==> t[k].gdfo.Some?;
      }
    }
  }

  /** The counter dictionary of `_find_gdfo`: only nodes with some but not all edges seen. */
  ghost predicate PartlySeen(num: map<Key, nat>, v: Key, seen: nat, total: nat) {
    && (v in num <==> 0 < seen < total)
    && (v in num ==> num[v] == seen)
  }

  ghost predicate PartlyAtRest(net: Net, done: set<Key>, num: map<Key, nat>) {
    && Dual(net)
    && forall v | v in net.ins :: PartlySeen(num, v, CountIn(net.ins[v], done), |net.ins[v]|)
  }

  ghost predicate PartlyMid(net: Net, done: set<Key>, cur: Key, i: nat, num: map<Key, nat>) {
    && Dual(net) && cur in net.ins && i <= |net.outs[cur]|
    && forall v | v in net.ins :: PartlySeen(num, v, SeenAt(net, done, cur, i, v), |net.ins[v]|)
  }

  lemma PartlyStart(net: Net)
    requires Dual(net)
    ensures PartlyAtRest(net, {}, map[])
  {
    forall v | v in net.ins ensures CountIn(net.ins[v], {}) == 0 {
      CountInEmpty(net.ins[v]);
    }
  }

  lemma PartlyPop(net: Net, done: set<Key>, cur: Key, num: map<Key, nat>)
    requires PartlyAtRest(net, done, num) && cur in net.ins
    ensures PartlyMid(net, done, cur, 0, num)
  {
    assert net.outs[cur][..0] == [];
  }

  lemma PartlyStep(net: Net, done: set<Key>, cur: Key, i: nat, num: map<Key, nat>, num': map<Key, nat>)
    requires PartlyMid(net, done, cur, i, num) && i < |net.outs[cur]|
    requires net.outs[cur][i] in net.ins
    requires SeenAt(net, done, cur, i, net.outs[cur][i]) < |net.ins[net.outs[cur][i]]|
    requires num' == var c := net.outs[cur][i];
                     var seen := (if c in num then num[c] else 0) + 1;
                     if seen == |net.ins[c]| then num - {c} else num[c := seen]
    ensures PartlyMid(net, done, cur, i + 1, num')
  {
    forall v | v in net.ins
      ensures PartlySeen(num', v, SeenAt(net, done, cur, i + 1, v), |net.ins[v]|)
    {
      SeenNext(net, done, cur, i, v);
      assert PartlySeen(num, v, SeenAt(net, done, cur, i, v), |net.ins[v]|);
    }
  }

  lemma PartlyFinish(net: Net, done: set<Key>, cur: Key, num: map<Key, nat>)
    requires Dual(net) && cur in net.ins && cur !in done && PartlyMid(net, done, cur, |net.outs[cur]|, num)
    ensures PartlyAtRest(net, done + {cur}, num)
  {
    forall v | v in net.ins
      ensures SeenAt(net, done, cur, |net.outs[cur]|, v) == CountIn(net.ins[v], done + {cur})
    {
      SeenBound(net, done, cur, |net.outs[cur]|, v);
    }
  }

  // The state of the loop as a whole: the stack, the labels and the counters together.

  function SeenCount(known: map<Key, nat>, c: Key): nat {
    if c in known then known[c] + 1 else 1
  }

  function PendingAfter(pending: seq<Key>, known: map<Key, nat>, c: Key, total: nat): seq<Key> {
    if SeenCount(known, c) == total then pending + [c] else pending
  }

  function KnownAfter(known: map<Key, nat>, c: Key, total: nat): map<Key, nat> {
    if SeenCount(known, c) == total then known - {c} else known[c := SeenCount(known, c)]
  }

  ghost predicate Between(net: Net, done: set<Key>, pending: seq<Key>, g: map<Key, nat>, known: map<Key, nat>) {
    && NoDuplicates(pending)
    && RestLabels(net, done, SetOf(pending), g)
    && PartlyAtRest(net, done, known)
  }

  ghost predicate Within(net: Net, done: set<Key>, cur: Key, i: nat, pending: seq<Key>, g: map<Key, nat>,
                         known: map<Key, nat>) {
    && NoDuplicates(pending)
    && MidLabels(net, done, cur, i, SetOf(pending), g)
    && PartlyMid(net, done, cur, i, known)
  }

  lemma WalkStart(net: Net, tails: seq<Key>, g: map<Key, nat>)
    requires Dual(net) && NoDuplicates(tails)
    requires SetOf(tails) == set v | v in net.ins && net.ins[v] == []
    requires g.Keys == SetOf(tails) && forall k | k in g :: g[k] == 1
    ensures Between(net, {}, tails, g, map[])
  {
    LabelsStart(net, SetOf(tails), g);
    PartlyStart(net);
  }

  lemma WalkPop(net: Net, done: set<Key>, pending: seq<Key>, g: map<Key, nat>, known: map<Key, nat>)
    requires Between(net, done, pending, g, known) && |pending| > 0
    ensures var last := |pending| - 1;
            && pending[last] in net.ins && pending[last] !in done
            && Within(net, done, pending[last], 0, pending[..last], g, known)
  {
    var key := pending[|pending| - 1];
    assert key in SetOf(pending);
    LabelsPop(net, done, key, SetOf(pending), g);
    PartlyPop(net, done, key, known);
    PopLast(pending);
  }

  lemma WalkStep(net: Net, done: set<Key>, cur: Key, i: nat, pending: seq<Key>, g: map<Key, nat>, known: map<Key, nat>)
    requires Within(net, done, cur, i, pending, g, known) && i < |net.outs[cur]|
    ensures var c := net.outs[cur][i];
            && c in net.ins && net.ins[c] != []
            && Within(net, done, cur, i + 1, PendingAfter(pending, known, c, |net.ins[c]|), Raised(g, cur, c),
                      KnownAfter(known, c, |net.ins[c]|))
  {
    var c := net.outs[cur][i];
    LabelsStep(net, done, cur, i, SetOf(pending), g);
    assert PartlySeen(known, c, SeenAt(net, done, cur, i, c), |net.ins[c]|);
    PartlyStep(net, done, cur, i, known, KnownAfter(known, c, |net.ins[c]|));
    if SeenCount(known, c) == |net.ins[c]| {
      PushLast(pending, c);
    }
  }

  lemma WalkFinish(net: Net, done: set<Key>, cur: Key, pending: seq<Key>, g: map<Key, nat>, known: map<Key, nat>)
    requires Dual(net) && cur in net.ins && Within(net, done, cur, |net.outs[cur]|, pending, g, known)
    ensures Between(net, done + {cur}, pending, g, known)
  {
    LabelsFinish(net, done, cur, SetOf(pending), g);
    PartlyFinish(net, done, cur, known);
  }

  lemma WalkDone(t: Table, done: set<Key>, known: map<Key, nat>)
    requires Between(Down(t), done, [], Labels(t), known)
    ensures GdfoFound(t)
  {
    assert SetOf([]) == {};
    LabelsDone(t, done);
  }
}

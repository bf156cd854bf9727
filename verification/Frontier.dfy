/**
 The counting walk that `_find_gdfo`, `topo_sort` and `gc_sort` share: a node is queued
 when the last of its incoming edges has been seen, and walking a node counts each of its
 outgoing edges once. Edges may be repeated, so incoming and outgoing lists correspond
 with multiplicity.
 */
module Frontier {
  import opened Keys
  import opened Dag

  datatype Net = Net(ins: ParentMap, outs: ParentMap)

  /** The edge from `u` to `v` is listed equally often at its two ends. */
  ghost predicate Balanced(net: Net, u: Key, v: Key) {
    u in net.outs && v in net.ins ==> multiset(net.outs[u])[v] == multiset(net.ins[v])[u]
  }

  ghost predicate Dual(net: Net) {
    && net.ins.Keys == net.outs.Keys
    && (forall u, v {:trigger Balanced(net, u, v)} :: Balanced(net, u, v))
    && (forall u, v | u in net.ins && v in net.ins[u] :: v in net.ins)
    && (forall u, v | u in net.ins && v in net.outs[u] :: v in net.ins)
  }

  lemma EdgeAtBothEnds(net: Net, u: Key, v: Key)
    requires Dual(net) && u in net.ins && v in net.ins
    ensures v in net.outs[u] <==> u in net.ins[v]
  {
    assert Balanced(net, u, v);
    assert v in multiset(net.outs[u]) <==> u in multiset(net.ins[v]);
  }

  /** How many entries of `s` lie in `marked`. */
  ghost function CountIn(s: seq<Key>, marked: set<Key>): nat {
    if |s| == 0 then 0 else (if s[0] in marked then 1 else 0) + CountIn(s[1..], marked)
  }

  lemma {:induction false} CountInAdd(s: seq<Key>, marked: set<Key>, k: Key)
    requires k !in marked
    ensures CountIn(s, marked + {k}) == CountIn(s, marked) + multiset(s)[k]
  {
    if |s| > 0 {
      CountInAdd(s[1..], marked, k);
      assert s == [s[0]] + s[1..];
    }
  }

  lemma {:induction false} CountInBound(s: seq<Key>, marked: set<Key>)
    ensures CountIn(s, marked) <= |s|
    ensures CountIn(s, marked) == |s| <==> forall k | k in s :: k in marked
  {
    if |s| > 0 {
      CountInBound(s[1..], marked);
      assert s == [s[0]] + s[1..];
      assert s[0] in s;
      assert forall k | k in s[1..] :: k in s;
    }
  }

  /** Edges into `v` seen when `done` are walked and `i` out-edges of `cur` are counted. */
  ghost function SeenAt(net: Net, done: set<Key>, cur: Key, i: nat, v: Key): nat
    requires Dual(net) && cur in net.ins && v in net.ins && i <= |net.outs[cur]|
  {
    CountIn(net.ins[v], done) + multiset(net.outs[cur][..i])[v]
  }

  ghost predicate ReadyAtRest(net: Net, done: set<Key>, queued: set<Key>, v: Key) {
    v in net.ins ==> (v in done + queued <==> CountIn(net.ins[v], done) == |net.ins[v]|)
  }

  ghost predicate ReadyWithin(net: Net, done: set<Key>, cur: Key, i: nat, queued: set<Key>, v: Key)
    requires Dual(net) && cur in net.ins && i <= |net.outs[cur]|
  {
    v in net.ins ==> (v in done + {cur} + queued <==> SeenAt(net, done, cur, i, v) == |net.ins[v]|)
  }

  /** Between two nodes: exactly the nodes with all edges in from `done` are done or queued. */
  ghost predicate Rest(net: Net, done: set<Key>, queued: set<Key>) {
    && Dual(net)
    && done <= net.ins.Keys && queued <= net.ins.Keys && done !! queued
    && (forall v {:trigger ReadyAtRest(net, done, queued, v)} :: ReadyAtRest(net, done, queued, v))
    && (forall v {:trigger Grounded(net.ins, v)} | v in done + queued :: Grounded(net.ins, v))
  }

  /** In the middle of walking `cur`. */
  ghost predicate Mid(net: Net, done: set<Key>, cur: Key, i: nat, queued: set<Key>) {
    && Dual(net)
    && cur in net.ins && i <= |net.outs[cur]|
    && done <= net.ins.Keys && queued <= net.ins.Keys && done !! queued
    && cur !in done && cur !in queued
    && (forall v {:trigger ReadyWithin(net, done, cur, i, queued, v)} :: ReadyWithin(net, done, cur, i, queued, v))
    && (forall v {:trigger Grounded(net.ins, v)} | v in done + {cur} + queued :: Grounded(net.ins, v))
    && (forall p | p in net.ins[cur] :: p in done)
  }

  lemma Start(net: Net, tails: set<Key>)
    requires Dual(net)
    requires tails == set v | v in net.ins && net.ins[v] == []
    ensures Rest(net, {}, tails)
  {
    forall v ensures ReadyAtRest(net, {}, tails, v) {
      if v in net.ins {
        CountInBound(net.ins[v], {});
        if net.ins[v] != [] { assert net.ins[v][0] in net.ins[v]; }
      }
    }
    forall v | v in tails ensures Grounded(net.ins, v) {
      GroundedFromParents(net.ins, v);
    }
  }

  lemma Pop(net: Net, done: set<Key>, cur: Key, queued: set<Key>)
    requires Rest(net, done, queued) && cur in queued
    ensures Mid(net, done, cur, 0, queued - {cur})
  {
    assert net.outs[cur][..0] == [];
    CountInBound(net.ins[cur], done);
    assert ReadyAtRest(net, done, queued, cur);
    forall v ensures ReadyWithin(net, done, cur, 0, queued - {cur}, v) {
      assert ReadyAtRest(net, done, queued, v);
      assert v in done + {cur} + (queued - {cur}) <==> v in done + queued;
    }
  }

  /** Counts never exceed the number of edges in. */
  lemma SeenBound(net: Net, done: set<Key>, cur: Key, i: nat, v: Key)
    requires Dual(net) && cur in net.ins && v in net.ins && i <= |net.outs[cur]| && cur !in done
    ensures SeenAt(net, done, cur, i, v) <= CountIn(net.ins[v], done + {cur}) <= |net.ins[v]|
    ensures i == |net.outs[cur]| ==> SeenAt(net, done, cur, i, v) == CountIn(net.ins[v], done + {cur})
  {
    CountInAdd(net.ins[v], done, cur);
    CountInBound(net.ins[v], done + {cur});
    assert Balanced(net, cur, v);
    assert net.outs[cur] == net.outs[cur][..i] + net.outs[cur][i..];
    assert multiset(net.outs[cur])[v] == multiset(net.outs[cur][..i])[v] + multiset(net.outs[cur][i..])[v];
    if i == |net.outs[cur]| {
      assert net.outs[cur][..i] == net.outs[cur];
    }
  }

  lemma SeenNext(net: Net, done: set<Key>, cur: Key, i: nat, v: Key)
    requires Dual(net) && cur in net.ins && v in net.ins && i < |net.outs[cur]|
    ensures SeenAt(net, done, cur, i + 1, v) == SeenAt(net, done, cur, i, v) + if v == net.outs[cur][i] then 1 else 0
  {
    assert net.outs[cur][..i + 1] == net.outs[cur][..i] + [net.outs[cur][i]];
  }

  /** Counting one more edge: its head is queued exactly when that was its last edge in. */
  lemma Step(net: Net, done: set<Key>, cur: Key, i: nat, queued: set<Key>)
    requires Mid(net, done, cur, i, queued) && i < |net.outs[cur]|
    ensures var c := net.outs[cur][i];
      && c in net.ins
      && c !in done + {cur} + queued
      && SeenAt(net, done, cur, i, c) < |net.ins[c]|
      && Mid(net, done, cur, i + 1,
             if SeenAt(net, done, cur, i, c) + 1 == |net.ins[c]| then queued + {c} else queued)
  {
    var c := net.outs[cur][i];
    assert c in net.outs[cur];
    SeenNext(net, done, cur, i, c);
    SeenBound(net, done, cur, i + 1, c);
    assert ReadyWithin(net, done, cur, i, queued, c);
    var queued' := if SeenAt(net, done, cur, i, c) + 1 == |net.ins[c]| then queued + {c} else queued;
    if queued' != queued {
      LastEdge(net, done, cur, i + 1, c);
    }
    var next := i + 1;
    forall v ensures ReadyWithin(net, done, cur, next, queued', v) {
      assert ReadyWithin(net, done, cur, i, queued, v);
      if v in net.ins { SeenNext(net, done, cur, i, v); }
    }
  }

  /** A node all of whose edges in have been seen reaches no cycle. */
  lemma LastEdge(net: Net, done: set<Key>, cur: Key, i: nat, c: Key)
    requires Dual(net) && cur in net.ins && c in net.ins && i <= |net.outs[cur]| && cur !in done
    requires SeenAt(net, done, cur, i, c) == |net.ins[c]|
    requires forall v {:trigger Grounded(net.ins, v)} | v in done + {cur} :: Grounded(net.ins, v)
    ensures Grounded(net.ins, c)
  {
    SeenBound(net, done, cur, i, c);
    CountInBound(net.ins[c], done + {cur});
    assert forall p | p in net.ins[c] :: Grounded(net.ins, p);
    GroundedFromParents(net.ins, c);
  }

  lemma Finish(net: Net, done: set<Key>, cur: Key, queued: set<Key>)
    requires Dual(net) && cur in net.ins && Mid(net, done, cur, |net.outs[cur]|, queued)
    ensures Rest(net, done + {cur}, queued)
  {
    forall v ensures ReadyAtRest(net, done + {cur}, queued, v) {
      assert ReadyWithin(net, done, cur, |net.outs[cur]|, queued, v);
      if v in net.ins { SeenBound(net, done, cur, |net.outs[cur]|, v); }
    }
  }

  /** A walk that runs dry has done exactly the nodes that reach no cycle. */
  lemma DoneIsGrounded(net: Net, done: set<Key>)
    requires Rest(net, done, {})
    ensures done == set v | v in net.ins && Grounded(net.ins, v)
  {
    forall v | v in net.ins ensures v in done <==> Grounded(net.ins, v) {
      if Grounded(net.ins, v) { GroundedIsDone(net, done, v); }
    }
  }

  lemma {:induction false} GroundedIsDone(net: Net, done: set<Key>, v: Key)
    requires Rest(net, done, {}) && v in net.ins && Grounded(net.ins, v)
    ensures v in done
    decreases Gdfo(net.ins, v)
  {
    forall p | p in net.ins[v] ensures p in done {
      GroundedParent(net.ins, v, p);
      GroundedIsDone(net, done, p);
    }
    CountInBound(net.ins[v], done);
    assert ReadyAtRest(net, done, {}, v);
  }

  /** One entry of the counter dictionary of the two sorts: full nodes are dropped from it. */
  ghost predicate Counted(num: map<Key, nat>, v: Key, seen: nat, total: nat) {
    && (v in num <==> total == 0 || seen < total)
    && (v in num ==> num[v] == seen)
  }

  ghost predicate Counts(net: Net, done: set<Key>, cur: Key, i: nat, num: map<Key, nat>) {
    && Dual(net) && cur in net.ins && i <= |net.outs[cur]|
    && forall v {:trigger SeenAt(net, done, cur, i, v)} | v in net.ins ::
         Counted(num, v, SeenAt(net, done, cur, i, v), |net.ins[v]|)
  }

  ghost predicate CountsAtRest(net: Net, done: set<Key>, num: map<Key, nat>) {
    && Dual(net)
    && forall v {:trigger CountIn(net.ins[v], done)} | v in net.ins ::
         Counted(num, v, CountIn(net.ins[v], done), |net.ins[v]|)
  }

  lemma CountsStart(net: Net, num: map<Key, nat>)
    requires Dual(net) && num.Keys == net.ins.Keys && forall v | v in num :: num[v] == 0
    ensures CountsAtRest(net, {}, num)
  {
    forall v | v in net.ins ensures CountIn(net.ins[v], {}) == 0 {
      CountInEmpty(net.ins[v]);
    }
  }

  lemma {:induction false} CountInEmpty(s: seq<Key>)
    ensures CountIn(s, {}) == 0
  {
    if |s| > 0 { CountInEmpty(s[1..]); }
  }

  lemma CountsPop(net: Net, done: set<Key>, cur: Key, num: map<Key, nat>)
    requires CountsAtRest(net, done, num) && cur in net.ins
    ensures Counts(net, done, cur, 0, num)
  {
    assert net.outs[cur][..0] == [];
  }

  lemma CountsStep(net: Net, done: set<Key>, cur: Key, i: nat, num: map<Key, nat>, num': map<Key, nat>)
    requires Counts(net, done, cur, i, num) && i < |net.outs[cur]|
    requires net.outs[cur][i] in net.ins
    requires SeenAt(net, done, cur, i, net.outs[cur][i]) < |net.ins[net.outs[cur][i]]|
    requires net.outs[cur][i] in num
    requires num' == var c := net.outs[cur][i];
                     if num[c] + 1 == |net.ins[c]| then num - {c} else num[c := num[c] + 1]
    ensures Counts(net, done, cur, i + 1, num')
  {
    forall v | v in net.ins
      ensures Counted(num', v, SeenAt(net, done, cur, i + 1, v), |net.ins[v]|)
    {
      SeenNext(net, done, cur, i, v);
      assert Counted(num, v, SeenAt(net, done, cur, i, v), |net.ins[v]|);
    }
  }

  lemma CountsFinish(net: Net, done: set<Key>, cur: Key, num: map<Key, nat>)
    requires Dual(net) && cur in net.ins && cur !in done && Counts(net, done, cur, |net.outs[cur]|, num)
    ensures CountsAtRest(net, done + {cur}, num)
  {
    forall v | v in net.ins
      ensures SeenAt(net, done, cur, |net.outs[cur]|, v) == CountIn(net.ins[v], done + {cur})
    {
      SeenBound(net, done, cur, |net.outs[cur]|, v);
    }
  }

  // ---------------------------------------------------------------------------------
  // The loop of the two sorts as a whole: the stack, the nodes kept waiting outside it,
  // and the counters.

  function QueueAfter(pending: seq<Key>, num: map<Key, nat>, c: Key, total: nat): seq<Key>
    requires c in num
  {
    if num[c] + 1 == total then pending + [c] else pending
  }

  function NumAfter(num: map<Key, nat>, c: Key, total: nat): map<Key, nat>
    requires c in num
  {
    if num[c] + 1 == total then num - {c} else num[c := num[c] + 1]
  }

  ghost predicate AtRest(net: Net, done: set<Key>, pending: seq<Key>, waiting: set<Key>, num: map<Key, nat>) {
    && NoDuplicates(pending) && SetOf(pending) !! waiting
    && Rest(net, done, SetOf(pending) + waiting)
    && CountsAtRest(net, done, num)
  }

  ghost predicate AtEdge(net: Net, done: set<Key>, cur: Key, i: nat, pending: seq<Key>, waiting: set<Key>,
                         num: map<Key, nat>) {
    && NoDuplicates(pending) && SetOf(pending) !! waiting
    && Mid(net, done, cur, i, SetOf(pending) + waiting)
    && Counts(net, done, cur, i, num)
  }

  lemma SortPop(net: Net, done: set<Key>, pending: seq<Key>, waiting: set<Key>, num: map<Key, nat>)
    requires AtRest(net, done, pending, waiting, num) && |pending| > 0
    ensures var last := |pending| - 1;
            && pending[last] in net.ins && pending[last] !in done
            && AtEdge(net, done, pending[last], 0, pending[..last], waiting, num)
  {
    var last := |pending| - 1;
    assert pending[last] in SetOf(pending);
    Pop(net, done, pending[last], SetOf(pending) + waiting);
    CountsPop(net, done, pending[last], num);
    PopLast(pending);
    assert SetOf(pending) + waiting - {pending[last]} == SetOf(pending[..last]) + waiting;
  }

  lemma SortStep(net: Net, done: set<Key>, cur: Key, i: nat, pending: seq<Key>, waiting: set<Key>, num: map<Key, nat>)
    requires AtEdge(net, done, cur, i, pending, waiting, num) && i < |net.outs[cur]|
    ensures var c := net.outs[cur][i];
            && c in net.ins && c in num
            && AtEdge(net, done, cur, i + 1, QueueAfter(pending, num, c, |net.ins[c]|), waiting,
                      NumAfter(num, c, |net.ins[c]|))
  {
    var c := net.outs[cur][i];
    var queued := SetOf(pending) + waiting;
    Step(net, done, cur, i, queued);
    assert Counted(num, c, SeenAt(net, done, cur, i, c), |net.ins[c]|);
    CountsStep(net, done, cur, i, num, NumAfter(num, c, |net.ins[c]|));
    if num[c] + 1 == |net.ins[c]| {
      PushLast(pending, c);
      assert SetOf(pending + [c]) + waiting == queued + {c};
    }
  }

  lemma SortFinish(net: Net, done: set<Key>, cur: Key, pending: seq<Key>, waiting: set<Key>, num: map<Key, nat>)
    requires Dual(net) && cur in net.ins && AtEdge(net, done, cur, |net.outs[cur]|, pending, waiting, num)
    ensures AtRest(net, done + {cur}, pending, waiting, num)
  {
    Finish(net, done, cur, SetOf(pending) + waiting);
    CountsFinish(net, done, cur, num);
  }

  // ---------------------------------------------------------------------------------
  // What has been put out: the walked nodes that are wanted, each after its edges in

  ghost predicate Emitted(net: Net, wanted: set<Key>, done: set<Key>, out: seq<Key>) {
    && NoDuplicates(out)
    && (forall k {:trigger OutAt(wanted, done, out, k)} :: OutAt(wanted, done, out, k))
    && InsFirst(net, wanted, out)
  }

  ghost predicate OutAt(wanted: set<Key>, done: set<Key>, out: seq<Key>, k: Key) {
    k in out <==> k in done && k in wanted
  }

  ghost predicate InsFirst(net: Net, wanted: set<Key>, out: seq<Key>) {
    forall i, p {:trigger AfterAt(net, wanted, out, i, p)} :: AfterAt(net, wanted, out, i, p)
  }

  ghost predicate AfterAt(net: Net, wanted: set<Key>, out: seq<Key>, i: int, p: Key) {
    0 <= i < |out| && out[i] in net.ins && p in net.ins[out[i]] && p in wanted ==> p in out[..i]
  }

  lemma EmitPop(net: Net, wanted: set<Key>, done: set<Key>, cur: Key, out: seq<Key>)
    requires Emitted(net, wanted, done, out) && cur in net.ins && cur !in done
    requires forall p | p in net.ins[cur] :: p in done
    ensures Emitted(net, wanted, done + {cur}, if cur in wanted then out + [cur] else out)
  {
    var out' := if cur in wanted then out + [cur] else out;
    forall k ensures OutAt(wanted, done + {cur}, out', k) {
      assert OutAt(wanted, done, out, k);
    }
    if cur in wanted {
      assert OutAt(wanted, done, out, cur);
      forall p | p in net.ins[cur] && p in wanted ensures p in out {
        assert OutAt(wanted, done, out, p);
      }
      forall i, p ensures AfterAt(net, wanted, out', i, p) {
        assert AfterAt(net, wanted, out, i, p);
        if 0 <= i < |out| { assert out'[..i] == out[..i]; }
        if i == |out| { assert out'[..i] == out; }
      }
    }
  }
}

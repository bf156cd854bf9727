/**
 The order that `gc_sort` produces, as a function of the contents of the graph, and its
 properties: it depends on the graph alone, not on the order in which it was built.
 */
module GcOrder {
  import opened Keys
  import opened Dag
  import opened Frontier
  import opened NodeTable
  import opened GcPlaces

  predicate KeyGreater(a: Key, b: Key) {
    KeyLess(b, a)
  }

  lemma KeyGreaterOrder()
    ensures StrictTotalOrder(KeyGreater)
  {
    KeyOrder();
    forall a: Key, b: Key, c: Key | KeyGreater(a, b) && KeyGreater(b, c) ensures KeyGreater(a, c) {
      assert KeyLess(c, b) && KeyLess(b, a);
    }
    forall a: Key, b: Key ensures a == b || KeyGreater(a, b) || KeyGreater(b, a) {
      assert a == b || KeyLess(a, b) || KeyLess(b, a);
    }
  }

  /** `sorted(s, reverse=True)` */
  function Descending(s: seq<Key>): (r: seq<Key>)
    ensures multiset(r) == multiset(s)
  {
    Sorted(KeyGreater, s)
  }

  lemma DescendingCanonical(s: seq<Key>, s': seq<Key>)
    requires multiset(s) == multiset(s')
    ensures Descending(s) == Descending(s')
  {
    KeyGreaterOrder();
    SortedCanonical(KeyGreater, s, s');
  }

  // ---------------------------------------------------------------------------------
  // The order

  /** Count an edge down to each of `parents`, queueing those whose last child this is. */
  ghost function Expand(parents: seq<Key>, counts: map<Key, nat>, pending: seq<Key>, num: map<Key, nat>)
    : (seq<Key>, map<Key, nat>)
  {
    if |parents| == 0 then (pending, num)
    else
      var last := |parents| - 1;
      var (q, n) := Expand(parents[..last], counts, pending, num);
      var p := parents[last];
      if p in n && p in counts then (QueueAfter(q, n, p, counts[p]), NumAfter(n, p, counts[p])) else (q, n)
  }

  /** One group: walk down from `pending` until it is used up, in at most `fuel` steps. */
  ghost function RunGroup(pm: ParentMap, counts: map<Key, nat>, pending: seq<Key>, num: map<Key, nat>, out: seq<Key>,
                          fuel: nat): (seq<Key>, map<Key, nat>)
    decreases fuel
  {
    if fuel == 0 || |pending| == 0 then (out, num)
    else
      var last := |pending| - 1;
      var key := pending[last];
      if key !in pm then RunGroup(pm, counts, pending[..last], num, out, fuel - 1)
      else
        var (q, n) := Expand(Descending(pm[key]), counts, pending[..last], num);
        RunGroup(pm, counts, q, n, out + [key], fuel - 1)
  }

  ghost function Group(tips: set<Key>, prefix: string): set<Key> {
    set k | k in tips && Prefix(k) == prefix
  }

  ghost function RunGroups(pm: ParentMap, counts: map<Key, nat>, tips: set<Key>, prefixes: seq<string>,
                           num: map<Key, nat>, out: seq<Key>): seq<Key>
  {
    if |prefixes| == 0 then out
    else
      var (o, n) := RunGroup(pm, counts, Descending(SeqOf(Group(tips, prefixes[0]))), num, out, |counts|);
      RunGroups(pm, counts, tips, prefixes[1..], n, o)
  }

  ghost function Tips(t: Table): set<Key> {
    set k | k in t && t[k].children == []
  }

  ghost function Prefixes(tips: set<Key>): seq<string> {
    Sorted(StrLess, SeqOf(set k | k in tips :: Prefix(k)))
  }

  ghost function ChildCounts(t: Table): map<Key, nat> {
    map k | k in t :: |t[k].children|
  }

  ghost function Zeros(keys: set<Key>): map<Key, nat> {
    map k | k in keys :: 0
  }

  /** The result of `gc_sort` on a graph with contents `t`. */
  ghost function Order(t: Table): seq<Key> {
    RunGroups(Graph(t), ChildCounts(t), Tips(t), Prefixes(Tips(t)), Zeros(t.Keys), [])
  }

  lemma SameKeys(t: Table, t': Table)
    requires Linked(t) && Linked(t') && Graph(t) == Graph(t')
    ensures t.Keys <= t'.Keys
  {
    forall k | k in t ensures k in t' {
      if t[k].parents.Some? {
        assert k in Graph(t');
      } else {
        var c := t[k].children[0];
        assert c in Kids(t, k);
        KidIffParent(t, k, c);
        assert c in Graph(t) && k in Pars(t', c);
      }
    }
  }

  lemma SameChildCount(t: Table, t': Table, k: Key)
    requires Linked(t) && Linked(t') && Graph(t) == Graph(t') && k in t && k in t'
    ensures |t[k].children| == |t'[k].children|
  {
    forall c ensures multiset(t[k].children)[c] == multiset(t'[k].children)[c] {
      assert Mirrored(t, k, c) && Mirrored(t', k, c);
      assert c in Graph(t) <==> c in Graph(t');
      assert Pars(t, c) == Pars(t', c);
    }
    assert multiset(t[k].children) == multiset(t'[k].children);
    MultisetMember(t[k].children, t'[k].children);
  }

  /**
   The order is stable: two graphs with the same parents give the same result, whatever
   the order in which their nodes and child links were added.
   */
  lemma OrderDependsOnGraph(t: Table, t': Table)
    requires Linked(t) && Linked(t') && Graph(t) == Graph(t')
    ensures Order(t) == Order(t')
  {
    SameKeys(t, t');
    SameKeys(t', t);
    forall k | k in t ensures |t[k].children| == |t'[k].children| {
      SameChildCount(t, t', k);
    }
    assert ChildCounts(t) == ChildCounts(t');
    assert Tips(t) == Tips(t');
    assert Zeros(t.Keys) == Zeros(t'.Keys);
  }

  // ---------------------------------------------------------------------------------
  // The walk down, as a counting walk with children as the edges in

  ghost function Up(t: Table): Net {
    Net(map k | k in t :: t[k].children, map k | k in t :: Descending(ParentsOf(t[k])))
  }

  lemma UpIsDual(t: Table)
    requires Linked(t)
    ensures Dual(Up(t))
  {
    var net := Up(t);
    forall u, v ensures Balanced(net, u, v) {
      assert Mirrored(t, v, u);
    }
    forall u, v | u in net.ins && v in net.ins[u] ensures v in net.ins {
      KidIffParent(t, u, v);
    }
    forall u, v | u in net.ins && v in net.outs[u] ensures v in net.ins {
      MultisetMember(net.outs[u], ParentsOf(t[u]));
      assert v in Pars(t, u);
    }
  }

  lemma OneStep(pm: ParentMap, p: Key, d: Key)
    requires p in Parents(pm, d)
    ensures Steps(pm, d, p, 1)
  {
    assert Steps(pm, p, p, 0);
  }

  // ---------------------------------------------------------------------------------
  // What the order promises

  ghost predicate NoneLost(pm: ParentMap, out: seq<Key>) {
    NoDuplicates(out) && forall k :: k in out <==> k in pm
  }

  /** Children before parents. */
  ghost predicate ChildrenFirst(pm: ParentMap, out: seq<Key>) {
    forall i, c | 0 <= i < |out| && c in pm && out[i] in pm[c] :: c in out[..i]
  }

  /** The prefixes come in sorted order, so equal prefixes are adjacent. */
  ghost predicate GroupedByPrefix(out: seq<Key>) {
    forall i, j | 0 <= i < j < |out| :: !StrLess(Prefix(out[j]), Prefix(out[i]))
  }

  ghost predicate ParentsSharePrefix(pm: ParentMap) {
    forall c, p | c in pm && p in pm[c] && p in pm :: Prefix(p) == Prefix(c)
  }

  /** Neither `k` nor any of its descendants lies on a cycle. */
  ghost predicate NoCycleBelow(pm: ParentMap, k: Key) {
    forall c {:trigger StrictAncestor(pm, c, c)} | AncestorOrSelf(pm, k, c) :: !StrictAncestor(pm, c, c)
  }

  /** Exactly the keys without a cycle below them come out, each once. */
  ghost predicate CycleFree(pm: ParentMap, out: seq<Key>) {
    NoDuplicates(out) && forall k {:trigger k in out} :: k in out <==> k in pm && NoCycleBelow(pm, k)
  }

  lemma CycleFreeIsComplete(pm: ParentMap, out: seq<Key>)
    requires CycleFree(pm, out)
    ensures NoneLost(pm, out) <==> Acyclic(pm)
  {
    if NoneLost(pm, out) {
      forall k ensures !StrictAncestor(pm, k, k) {
        if k in pm {
          assert k in out && AncestorOrSelf(pm, k, k);
        } else if StrictAncestor(pm, k, k) {
          var p := AncestorViaParent(pm, k, k);
        }
      }
    }
  }

  lemma {:induction false} ReverseSteps(children: ParentMap, parents: ParentMap, k: Key, d: Key, n: nat)
    requires forall k, c :: c in Parents(children, k) ==> k in Parents(parents, c)
    requires Steps(children, k, d, n)
    ensures Steps(parents, d, k, n)
    decreases n
  {
    if n > 0 {
      var c :| c in Parents(children, k) && Steps(children, c, d, n - 1);
      ReverseSteps(children, parents, c, d, n - 1);
      OneStep(parents, k, c);
      StepsConcat(parents, d, c, k, n - 1, 1);
    }
  }

  lemma ReverseAncestors(children: ParentMap, parents: ParentMap, k: Key, d: Key)
    requires forall k, c :: c in Parents(children, k) <==> k in Parents(parents, c)
    ensures StrictAncestor(children, d, k) <==> StrictAncestor(parents, k, d)
  {
    if StrictAncestor(children, d, k) {
      var n: nat :| n > 0 && Steps(children, k, d, n);
      ReverseSteps(children, parents, k, d, n);
    }
    if StrictAncestor(parents, k, d) {
      var n: nat :| n > 0 && Steps(parents, d, k, n);
      ReverseSteps(parents, children, d, k, n);
    }
  }

  lemma ChildEdgesIff(t: Table)
    requires Linked(t)
    ensures forall k, c :: c in Parents(Up(t).ins, k) <==> k in Parents(Edges(t), c)
  {
    forall k, c ensures c in Parents(Up(t).ins, k) <==> k in Parents(Edges(t), c) {
      KidIffParent(t, k, c);
    }
  }

  /** The chains of children of a key are bounded exactly if there is no cycle below it. */
  lemma UpwardsIff(t: Table, k: Key)
    requires Linked(t)
    ensures Grounded(Up(t).ins, k) <==> NoCycleBelow(Graph(t), k)
  {
    var children, parents := Up(t).ins, Edges(t);
    ChildEdgesIff(t);
    GraphAndEdges(t);
    GroundedIffNoCycle(children, k);
    forall c ensures AncestorOrSelf(children, c, k) <==> AncestorOrSelf(Graph(t), k, c)
             ensures StrictAncestor(children, c, c) <==> StrictAncestor(Graph(t), c, c)
    {
      ReverseAncestors(children, parents, k, c);
      ReverseAncestors(children, parents, c, c);
    }
  }

  lemma EmittedIsOrdered(t: Table, done: set<Key>, out: seq<Key>)
    requires Linked(t) && Rest(Up(t), done, {}) && Emitted(Up(t), Graph(t).Keys, done, out)
    ensures ChildrenFirst(Graph(t), out) && CycleFree(Graph(t), out)
  {
    var net := Up(t);
    forall i, c | 0 <= i < |out| && c in Graph(t) && out[i] in Graph(t)[c] ensures c in out[..i] {
      assert AfterAt(net, Graph(t).Keys, out, i, c);
      KidIffParent(t, out[i], c);
      assert out[i] in out && OutAt(Graph(t).Keys, done, out, out[i]);
    }
    DoneIsGrounded(net, done);
    forall k ensures k in out <==> k in Graph(t) && NoCycleBelow(Graph(t), k) {
      assert OutAt(Graph(t).Keys, done, out, k);
      UpwardsIff(t, k);
    }
  }


  lemma {:induction false} ExpandQueues(parents: seq<Key>, counts: map<Key, nat>, pending: seq<Key>, num: map<Key, nat>,
                                        k: Key)
    requires k in Expand(parents, counts, pending, num).0
    ensures k in pending || k in parents
  {
    if |parents| > 0 {
      var last := |parents| - 1;
      var q := Expand(parents[..last], counts, pending, num).0;
      if k in q {
        ExpandQueues(parents[..last], counts, pending, num, k);
      } else {
        assert k == parents[last];
      }
    }
  }

  ghost predicate HavePrefix(pm: ParentMap, s: seq<Key>, prefix: string) {
    forall k | k in s && k in pm :: Prefix(k) == prefix
  }

  /** Walking down from keys of one prefix only puts out keys of that prefix. */
  lemma {:induction false} RunGroupPrefix(pm: ParentMap, counts: map<Key, nat>, pending: seq<Key>, num: map<Key, nat>,
                                          out: seq<Key>, fuel: nat, prefix: string)
    requires ParentsSharePrefix(pm) && HavePrefix(pm, pending, prefix)
    ensures var o := RunGroup(pm, counts, pending, num, out, fuel).0;
            out <= o && forall i | |out| <= i < |o| :: Prefix(o[i]) == prefix
    decreases fuel
  {
    if fuel > 0 && |pending| > 0 {
      var last := |pending| - 1;
      var key := pending[last];
      assert key in pending;
      assert forall k | k in pending[..last] :: k in pending;
      if key !in pm {
        RunGroupPrefix(pm, counts, pending[..last], num, out, fuel - 1, prefix);
      } else {
        var parents := Descending(pm[key]);
        var (q, n) := Expand(parents, counts, pending[..last], num);
        forall k | k in q && k in pm ensures Prefix(k) == prefix {
          ExpandQueues(parents, counts, pending[..last], num, k);
          MultisetMember(parents, pm[key]);
        }
        RunGroupPrefix(pm, counts, q, n, out + [key], fuel - 1, prefix);
      }
    }
  }

  lemma {:induction false} RunGroupsGrouped(pm: ParentMap, counts: map<Key, nat>, tips: set<Key>, prefixes: seq<string>,
                                            num: map<Key, nat>, out: seq<Key>)
    requires ParentsSharePrefix(pm) && IsSorted(StrLess, prefixes) && GroupedByPrefix(out)
    requires forall i, j | 0 <= i < |out| && 0 <= j < |prefixes| :: !StrLess(prefixes[j], Prefix(out[i]))
    ensures GroupedByPrefix(RunGroups(pm, counts, tips, prefixes, num, out))
    decreases |prefixes|
  {
    if |prefixes| > 0 {
      var group := Group(tips, prefixes[0]);
      var pending := Descending(SeqOf(group));
      forall k | k in pending ensures Prefix(k) == prefixes[0] {
        assert k in multiset(group);
      }
      RunGroupPrefix(pm, counts, pending, num, out, |counts|, prefixes[0]);
      var (o, n) := RunGroup(pm, counts, pending, num, out, |counts|);
      StrOrder();
      forall i, j | 0 <= i < j < |o| ensures !StrLess(Prefix(o[j]), Prefix(o[i])) {
        if i < |out| {
          assert o[i] == out[i];
        }
        if j < |out| {
          assert o[j] == out[j];
        }
      }
      forall i, j | 0 <= i < |o| && 0 <= j < |prefixes[1..]| ensures !StrLess(prefixes[1..][j], Prefix(o[i])) {
        if i < |out| {
          assert o[i] == out[i];
        }
        assert prefixes[1..][j] == prefixes[j + 1];
      }
      RunGroupsGrouped(pm, counts, tips, prefixes[1..], n, o);
    }
  }

  /** Where parents share the prefix of their children, the order is grouped by prefix. */
  lemma OrderIsGrouped(t: Table)
    requires ParentsSharePrefix(Graph(t))
    ensures GroupedByPrefix(Order(t))
  {
    StrOrder();
    SortedIsSorted(StrLess, SeqOf(set k | k in Tips(t) :: Prefix(k)));
    RunGroupsGrouped(Graph(t), ChildCounts(t), Tips(t), Prefixes(Tips(t)), Zeros(t.Keys), []);
  }

  // ---------------------------------------------------------------------------------
  // The groups of tips

  ghost function Waiting(tips: set<Key>, prefixes: seq<string>): set<Key> {
    set k | k in tips && Prefix(k) in prefixes
  }

  /** The dictionary of tips by prefix, each list without repetition. */
  ghost predicate ByPrefix(tips: set<Key>, prefixTips: map<string, seq<Key>>) {
    && (forall k | k in tips :: Prefix(k) in prefixTips)
    && (forall p | p in prefixTips ::
          prefixTips[p] != [] && NoDuplicates(prefixTips[p]) && SetOf(prefixTips[p]) == Group(tips, p))
  }

  lemma PrefixesOfDictionary(tips: set<Key>, prefixTips: map<string, seq<Key>>)
    requires ByPrefix(tips, prefixTips)
    ensures prefixTips.Keys == set k | k in tips :: Prefix(k)
  {
    forall p | p in prefixTips ensures exists k :: k in tips && Prefix(k) == p {
      assert prefixTips[p][0] in SetOf(prefixTips[p]);
    }
  }

  lemma GroupsLeft(tips: set<Key>, prefixes: seq<string>)
    requires prefixes == Prefixes(tips)
    ensures Waiting(tips, prefixes[0..]) == tips
    ensures forall i, j | 0 <= i < j < |prefixes| :: prefixes[i] != prefixes[j]
    ensures SetOf([]) + tips == tips
  {
    var elements := set k | k in tips :: Prefix(k);
    SetAsSequence(prefixes, elements);
    assert prefixes[0..] == prefixes;
    forall k | k in tips ensures Prefix(k) in prefixes {
      assert Prefix(k) in elements;
    }
  }

  /** The next group leaves the waiting tips and becomes the stack. */
  lemma NextGroup(net: Net, done: set<Key>, tips: set<Key>, prefixes: seq<string>, n: nat, pending: seq<Key>,
                  num: map<Key, nat>)
    requires n < |prefixes| && AtRest(net, done, [], Waiting(tips, prefixes[n..]), num)
    requires forall i, j | 0 <= i < j < |prefixes| :: prefixes[i] != prefixes[j]
    requires NoDuplicates(pending) && SetOf(pending) == Group(tips, prefixes[n])
    ensures AtRest(net, done, pending, Waiting(tips, prefixes[n + 1..]), num)
  {
    var waiting, waiting' := Waiting(tips, prefixes[n..]), Waiting(tips, prefixes[n + 1..]);
    assert prefixes[n..] == [prefixes[n]] + prefixes[n + 1..];
    assert prefixes[n] !in prefixes[n + 1..];
    assert SetOf([]) == {};
    assert SetOf([]) + waiting == SetOf(pending) + waiting';
  }

  /** Any listing of a group sorts to the same stack. */
  lemma GroupStack(tips: set<Key>, prefix: string, listed: seq<Key>)
    requires NoDuplicates(listed) && SetOf(listed) == Group(tips, prefix)
    ensures Descending(listed) == Descending(SeqOf(Group(tips, prefix)))
    ensures NoDuplicates(Descending(listed)) && SetOf(Descending(listed)) == Group(tips, prefix)
  {
    DistinctIsSet(listed);
    assert SetOf(listed) == set k | k in listed;
    DescendingCanonical(listed, SeqOf(Group(tips, prefix)));
    SetAsSequence(Descending(listed), Group(tips, prefix));
  }

  // ---------------------------------------------------------------------------------
  // The three nested loops

  /** What a run works on: the edges, the parents of the nodes that are put out, the child counts. */
  datatype Plan = Plan(net: Net, pm: ParentMap, counts: map<Key, nat>)

  ghost function PlanOf(t: Table): Plan {
    Plan(Up(t), Graph(t), ChildCounts(t))
  }

  ghost predicate DescribesAt(w: Plan, t: Table, k: Key) {
    k in t ==>
      && k in w.net.ins && w.net.ins[k] == t[k].children
      && k in w.net.outs && w.net.outs[k] == Descending(ParentsOf(t[k]))
      && k in w.counts && w.counts[k] == |t[k].children|
      && (k in w.pm <==> t[k].parents.Some?)
      && (k in w.pm ==> w.pm[k] == t[k].parents.value)
  }

  ghost predicate SizedAt(w: Plan, k: Key) {
    k in w.net.ins ==> k in w.counts && w.counts[k] == |w.net.ins[k]|
  }

  ghost predicate Describes(w: Plan, t: Table) {
    && Dual(w.net) && w.net.ins.Keys == t.Keys && w.counts.Keys == t.Keys
    && (forall k {:trigger DescribesAt(w, t, k)} :: DescribesAt(w, t, k))
    && (forall k {:trigger SizedAt(w, k)} :: SizedAt(w, k))
  }

  lemma PlanDescribes(t: Table)
    requires Linked(t)
    ensures Describes(PlanOf(t), t)
  {
    UpIsDual(t);
  }

  /** In the innermost loop: `i` parents of `key` have been counted since `pending0`, `num0`. */
  ghost predicate Expanding(w: Plan, done: set<Key>, waiting: set<Key>, key: Key, i: nat,
                            pending0: seq<Key>, num0: map<Key, nat>, pending: seq<Key>, num: map<Key, nat>) {
    && AtEdge(w.net, done, key, i, pending, waiting, num)
    && Expanded(w, w.net.outs[key][..i], pending0, num0, pending, num)
  }

  ghost predicate Expanded(w: Plan, parents: seq<Key>, pending0: seq<Key>, num0: map<Key, nat>,
                           pending: seq<Key>, num: map<Key, nat>) {
    forall ps {:trigger Expand(ps, w.counts, pending0, num0)} | ps == parents ::
      (pending, num) == Expand(ps, w.counts, pending0, num0)
  }

  lemma ExpandStart(w: Plan, done: set<Key>, waiting: set<Key>, key: Key, pending: seq<Key>, num: map<Key, nat>)
    requires AtEdge(w.net, done, key, 0, pending, waiting, num)
    ensures Expanding(w, done, waiting, key, 0, pending, num, pending, num)
  {
    assert w.net.outs[key][..0] == [];
  }

  lemma ExpandStep(w: Plan, done: set<Key>, waiting: set<Key>, key: Key, i: nat,
                   pending0: seq<Key>, num0: map<Key, nat>, pending: seq<Key>, num: map<Key, nat>)
    requires Expanding(w, done, waiting, key, i, pending0, num0, pending, num) && i < |w.net.outs[key]|
    requires SizedAt(w, w.net.outs[key][i])
    ensures var p := w.net.outs[key][i];
            && p in w.net.ins && p in num
            && Expanding(w, done, waiting, key, i + 1, pending0, num0,
                         QueueAfter(pending, num, p, |w.net.ins[p]|), NumAfter(num, p, |w.net.ins[p]|))
  {
    SortStep(w.net, done, key, i, pending, waiting, num);
    ExpandedStep(w, w.net.outs[key][..i + 1], pending0, num0, pending, num);
    var outs := w.net.outs[key];
    assert outs[..i + 1][..i] == outs[..i];
  }

  lemma ExpandedStep(w: Plan, parents: seq<Key>, pending0: seq<Key>, num0: map<Key, nat>,
                     pending: seq<Key>, num: map<Key, nat>)
    requires |parents| > 0
    ensures Expanded(w, parents[..|parents| - 1], pending0, num0, pending, num) ==>
              var p := parents[|parents| - 1];
              p in num && p in w.counts ==>
                Expanded(w, parents, pending0, num0, QueueAfter(pending, num, p, w.counts[p]), NumAfter(num, p, w.counts[p]))
  {
    assert Expand(parents[..|parents| - 1], w.counts, pending0, num0) ==
           Expand(parents[..|parents| - 1], w.counts, pending0, num0);
  }

  lemma ExpandFinish(w: Plan, done: set<Key>, waiting: set<Key>, key: Key,
                     pending0: seq<Key>, num0: map<Key, nat>, pending: seq<Key>, num: map<Key, nat>)
    requires Dual(w.net) && key in w.net.ins
    requires Expanding(w, done, waiting, key, |w.net.outs[key]|, pending0, num0, pending, num)
    ensures AtRest(w.net, done + {key}, pending, waiting, num)
    ensures Expanded(w, w.net.outs[key], pending0, num0, pending, num)
  {
    SortFinish(w.net, done, key, pending, waiting, num);
    assert w.net.outs[key][..|w.net.outs[key]|] == w.net.outs[key];
  }

  /** In the loop over one group, which still has `fuel` steps and comes to `result`. */
  ghost predicate Running(w: Plan, done: set<Key>, waiting: set<Key>, result: (seq<Key>, map<Key, nat>),
                          pending: seq<Key>, num: map<Key, nat>, out: seq<Key>, fuel: nat) {
    && AtRest(w.net, done, pending, waiting, num)
    && Emitted(w.net, w.pm.Keys, done, out)
    && Placed(w.net, w.pm, out, pending)
    && fuel + |done| >= |w.counts|
    && Yields(w, result, pending, num, out, fuel)
  }

  /** The loop over one group from outside. */
  ghost predicate OnTheWay(w: Plan, done: set<Key>, waiting: set<Key>, result: (seq<Key>, map<Key, nat>),
                           pending: seq<Key>, num: map<Key, nat>, out: seq<Key>, left: nat) {
    forall fuel: nat {:trigger Running(w, done, waiting, result, pending, num, out, fuel)} | fuel == left ::
      Running(w, done, waiting, result, pending, num, out, fuel)
  }

  /** Going on with the `left` steps that remain gives `result`. */
  ghost predicate Yields(w: Plan, result: (seq<Key>, map<Key, nat>),
                         pending: seq<Key>, num: map<Key, nat>, out: seq<Key>, left: nat) {
    forall fuel: nat {:trigger RunGroup(w.pm, w.counts, pending, num, out, fuel)} | fuel == left ::
      result == RunGroup(w.pm, w.counts, pending, num, out, fuel)
  }

  lemma RunPop(w: Plan, done: set<Key>, waiting: set<Key>, result: (seq<Key>, map<Key, nat>),
               pending: seq<Key>, num: map<Key, nat>, out: seq<Key>, fuel: nat)
    requires Running(w, done, waiting, result, pending, num, out, fuel) && |pending| > 0
    requires w.counts.Keys == w.net.ins.Keys
    ensures var key, rest := pending[|pending| - 1], pending[..|pending| - 1];
            && key in w.net.ins && key !in done && fuel > 0
            && AtEdge(w.net, done, key, 0, rest, waiting, num)
            && Emitted(w.net, w.pm.Keys, done + {key}, if key in w.pm then out + [key] else out)
            && fuel - 1 + |done + {key}| >= |w.counts|
  {
    var key := pending[|pending| - 1];
    SortPop(w.net, done, pending, waiting, num);
    EmitPop(w.net, w.pm.Keys, done, key, out);
    FuelLeft(w.counts, done, key);
  }

  lemma FuelLeft(counts: map<Key, nat>, done: set<Key>, key: Key)
    requires done <= counts.Keys && key in counts && key !in done
    ensures |done| < |counts| && |done + {key}| == |done| + 1
  {
    SubsetSize(done + {key}, counts.Keys);
    assert |counts.Keys| == |counts|;
  }

  lemma YieldsGhost(w: Plan, result: (seq<Key>, map<Key, nat>),
                    pending: seq<Key>, num: map<Key, nat>, out: seq<Key>, fuel: nat)
    requires Yields(w, result, pending, num, out, fuel) && fuel > 0 && |pending| > 0
    requires pending[|pending| - 1] !in w.pm
    ensures Yields(w, result, pending[..|pending| - 1], num, out, fuel - 1)
  {
    assert result == RunGroup(w.pm, w.counts, pending, num, out, fuel);
  }

  lemma YieldsExpand(w: Plan, result: (seq<Key>, map<Key, nat>), pending: seq<Key>, num: map<Key, nat>, out: seq<Key>,
                     fuel: nat, parents: seq<Key>, pending': seq<Key>, num': map<Key, nat>)
    requires Yields(w, result, pending, num, out, fuel) && fuel > 0 && |pending| > 0
    requires pending[|pending| - 1] in w.pm && parents == Descending(w.pm[pending[|pending| - 1]])
    requires Expanded(w, parents, pending[..|pending| - 1], num, pending', num')
    ensures Yields(w, result, pending', num', out + [pending[|pending| - 1]], fuel - 1)
  {
    assert result == RunGroup(w.pm, w.counts, pending, num, out, fuel);
    assert (pending', num') == Expand(parents, w.counts, pending[..|pending| - 1], num);
  }

  /** A ghost is dropped. */
  lemma RunGhost(w: Plan, done: set<Key>, waiting: set<Key>, result: (seq<Key>, map<Key, nat>),
                 pending: seq<Key>, num: map<Key, nat>, out: seq<Key>, fuel: nat)
    requires Running(w, done, waiting, result, pending, num, out, fuel) && |pending| > 0
    requires Dual(w.net) && w.counts.Keys == w.net.ins.Keys
    requires var key := pending[|pending| - 1]; key !in w.pm && key in w.net.outs && w.net.outs[key] == []
    ensures fuel > 0
    ensures Running(w, done + {pending[|pending| - 1]}, waiting, result, pending[..|pending| - 1], num, out, fuel - 1)
  {
    RunPop(w, done, waiting, result, pending, num, out, fuel);
    YieldsGhost(w, result, pending, num, out, fuel);
    PlacedGhost(w.net, w.pm, out, pending);
    SortFinish(w.net, done, pending[|pending| - 1], pending[..|pending| - 1], waiting, num);
  }

  /** Any other node is put out and its parents are counted. */
  lemma RunExpand(w: Plan, done: set<Key>, waiting: set<Key>, result: (seq<Key>, map<Key, nat>),
                  pending: seq<Key>, num: map<Key, nat>, out: seq<Key>, fuel: nat,
                  pending': seq<Key>, num': map<Key, nat>)
    requires Running(w, done, waiting, result, pending, num, out, fuel) && |pending| > 0
    requires w.counts.Keys == w.net.ins.Keys
    requires var key := pending[|pending| - 1];
             && key in w.pm && key in w.net.outs && w.net.outs[key] == Descending(w.pm[key])
             && Expanded(w, w.net.outs[key], pending[..|pending| - 1], num, pending', num')
             && AtRest(w.net, done + {key}, pending', waiting, num')
    ensures fuel > 0
    ensures Running(w, done + {pending[|pending| - 1]}, waiting, result, pending', num',
                    out + [pending[|pending| - 1]], fuel - 1)
  {
    RunPop(w, done, waiting, result, pending, num, out, fuel);
    YieldsExpand(w, result, pending, num, out, fuel, w.net.outs[pending[|pending| - 1]], pending', num');
    var added := AddedFalling(w, pending[|pending| - 1], pending[..|pending| - 1], num, pending', num');
    AddedAreReady(w.net, w.pm, done, waiting, out, pending, num, added, num');
    PlacedExpand(w.net, w.pm, done, out, pending, added);
  }

  /** What is pushed on the stack while the parents of `key` are counted: some of them, in descending order. */
  lemma AddedFalling(w: Plan, key: Key, pending: seq<Key>, num: map<Key, nat>, pending': seq<Key>, num': map<Key, nat>)
      returns (added: seq<Key>)
    requires key in w.pm && key in w.net.outs && w.net.outs[key] == Descending(w.pm[key])
    requires Expanded(w, w.net.outs[key], pending, num, pending', num')
    ensures pending' == pending + added && Falling(added) && forall k | k in added :: k in w.net.outs[key]
  {
    var parents := w.net.outs[key];
    KeyGreaterOrder();
    SortedIsSorted(KeyGreater, w.pm[key]);
    forall i, j | 0 <= i < j < |parents| ensures !KeyLess(parents[i], parents[j]) {
      assert !KeyGreater(parents[j], parents[i]);
    }
    assert (pending', num') == Expand(parents, w.counts, pending, num);
    added := ExpandAppends(parents, w.counts, pending, num);
  }

  lemma {:induction false} ExpandAppends(parents: seq<Key>, counts: map<Key, nat>, pending: seq<Key>, num: map<Key, nat>)
      returns (added: seq<Key>)
    requires Falling(parents)
    ensures Expand(parents, counts, pending, num).0 == pending + added
    ensures Falling(added) && forall k | k in added :: k in parents
  {
    if |parents| == 0 {
      added := [];
    } else {
      var last := |parents| - 1;
      var before := ExpandAppends(parents[..last], counts, pending, num);
      added := Expand(parents, counts, pending, num).0[|pending|..];
      forall i | 0 <= i < |before| ensures !KeyLess(before[i], parents[last]) {
        assert before[i] in parents[..last];
        var j :| 0 <= j < last && parents[j] == before[i];
      }
      assert added == before || added == before + [parents[last]];
    }
  }

  /** They are the parents that became ready. */
  lemma AddedAreReady(net: Net, pm: ParentMap, done: set<Key>, waiting: set<Key>, out: seq<Key>, pending: seq<Key>,
                      num: map<Key, nat>, added: seq<Key>, num': map<Key, nat>)
    requires |pending| > 0 && AtRest(net, done, pending, waiting, num) && Emitted(net, pm.Keys, done, out)
    requires var key := pending[|pending| - 1];
             && key in pm && key in net.outs && Falling(added) && (forall k | k in added :: k in net.outs[key])
             && AtRest(net, done + {key}, pending[..|pending| - 1] + added, waiting, num')
    ensures Expands(net, pm, done, out, pending, added)
  {
    var key, rest := pending[|pending| - 1], pending[..|pending| - 1];
    assert pending == rest + [key] && key in SetOf(pending);
    forall k ensures k in out <==> k in done && k in pm {
      assert OutAt(pm.Keys, done, out, k);
    }
    forall p ensures AddedAt(net, done, key, out, pending, added, p) {
      AddedIsReady(net, done, waiting, key, rest, added, p);
    }
  }

  lemma AddedIsReady(net: Net, done: set<Key>, waiting: set<Key>, key: Key, rest: seq<Key>, added: seq<Key>, p: Key)
    requires NoDuplicates(rest + added) && Rest(net, done, SetOf(rest + [key]) + waiting) && key !in rest
    requires key in net.outs && forall k | k in added :: k in net.outs[key]
    requires Rest(net, done + {key}, SetOf(rest + added) + waiting) && SetOf(rest + added) !! waiting
    ensures p in added ==> p !in done && p !in rest && p != key
    ensures p in added <==> p in net.ins && key in net.ins[p] && forall c | c in net.ins[p] :: c in done + {key}
  {
    var before, after := SetOf(rest + [key]) + waiting, SetOf(rest + added) + waiting;
    assert key in SetOf(rest + [key]) && forall k :: k in SetOf(rest + added) <==> k in rest || k in added;
    assert forall k :: k in SetOf(rest + [key]) <==> k in rest || k == key;
    assert p in added ==> p in SetOf(rest + added);
    if p in net.ins {
      EdgeAtBothEnds(net, key, p);
      CountInBound(net.ins[p], done);
      CountInBound(net.ins[p], done + {key});
      assert ReadyAtRest(net, done, before, p) && ReadyAtRest(net, done + {key}, after, p);
    }
  }

  lemma PlanIsPeopled(t: Table)
    requires Linked(t)
    ensures forall c {:trigger c in Up(t).outs} | c in Up(t).outs && Up(t).outs[c] != [] :: c in Graph(t)
  {
    forall c | c in Up(t).outs && Up(t).outs[c] != [] ensures c in Graph(t) {
      MultisetMember(Up(t).outs[c], ParentsOf(t[c]));
    }
  }

  ghost predicate Distinct(s: seq<string>) {
    forall i, j | 0 <= i < j < |s| :: s[i] != s[j]
  }

  /** The prefixes of all tips, in ascending order. */
  ghost predicate PrefixesFit(net: Net, pm: ParentMap, tips: set<Key>, prefixes: seq<string>) {
    && Distinct(prefixes) && IsSorted(StrLess, prefixes)
    && (forall k {:trigger k in tips} | k in tips :: Prefix(k) in prefixes)
    && (forall k {:trigger IsTip(net, pm, k)} | IsTip(net, pm, k) :: k in tips)
  }

  /** All keys are where they belong, with no group on the stack. */
  ghost predicate GroupsPlaced(w: Plan, tips: set<Key>, prefixes: seq<string>, out: seq<Key>) {
    forall o {:trigger Placed(w.net, w.pm, o, [])} | o == out :: Placed(w.net, w.pm, o, []) && PrefixesFit(w.net, w.pm, tips, prefixes)
  }

  /** In the loop over the groups of `tips`: `n` of them have been put out, on the way to `total`. */
  ghost predicate Grouping(w: Plan, tips: set<Key>, total: seq<Key>, done: set<Key>, prefixes: seq<string>, n: nat,
                           num: map<Key, nat>, out: seq<Key>) {
    && n <= |prefixes|
    && AtRest(w.net, done, [], Waiting(tips, prefixes[n..]), num)
    && Emitted(w.net, w.pm.Keys, done, out)
    && GroupsPlaced(w, tips, prefixes, out)
    && Continues(w, tips, total, prefixes[n..], num, out)
  }

  /** Putting out the groups in `prefixes` after `out` completes the order. */
  ghost predicate Continues(w: Plan, tips: set<Key>, total: seq<Key>, prefixes: seq<string>,
                            num: map<Key, nat>, out: seq<Key>) {
    forall left {:trigger RunGroups(w.pm, w.counts, tips, left, num, out)} | left == prefixes ::
      total == RunGroups(w.pm, w.counts, tips, left, num, out)
  }

  /** What the loop over one group, listed in any order, comes to. */
  ghost function GroupResult(w: Plan, listed: seq<Key>, num: map<Key, nat>, out: seq<Key>): (seq<Key>, map<Key, nat>) {
    RunGroup(w.pm, w.counts, Descending(listed), num, out, |w.counts|)
  }

  /** `w` is the plan for `t`, and carried out from `tips` it comes to the order of `t`. */
  ghost predicate Plans(t: Table, w: Plan, tips: set<Key>, total: seq<Key>) {
    && Describes(w, t) && tips == Tips(t)
    && forall u {:trigger Order(u)} | u == t :: w == PlanOf(u) && total == Order(u)
  }

  ghost predicate SortedPrefixesOf(tips: set<Key>, prefixes: seq<string>) {
    forall ts {:trigger Prefixes(ts)} | ts == tips :: prefixes == Prefixes(ts)
  }

  /** The tips of one group, on top of those put out before. */
  lemma PlacedTipsOfGroup(net: Net, pm: ParentMap, tips: set<Key>, prefixes: seq<string>, n: nat, out: seq<Key>, listed: seq<Key>)
    requires Placed(net, pm, out, []) && n < |prefixes| && PrefixesFit(net, pm, tips, prefixes)
    requires NoDuplicates(listed) && SetOf(listed) == Group(tips, prefixes[n])
    requires forall k | k in out && k in tips :: Prefix(k) !in prefixes[n..]
    ensures Placed(net, pm, out, Descending(listed))
  {
    var group := Descending(listed);
    GroupStack(tips, prefixes[n], listed);
    KeyGreaterOrder();
    StrOrder();
    SortedIsSorted(KeyGreater, listed);
    forall i, j | 0 <= i < j < |group| ensures !KeyLess(group[i], group[j]) {
      assert !KeyGreater(group[j], group[i]);
    }
    forall k | k in group ensures Prefix(k) == prefixes[n] {
      assert k in SetOf(group);
    }
    forall m | n <= m < |prefixes| ensures prefixes[m] in prefixes[n..] {
      assert prefixes[n..][m - n] == prefixes[m];
    }
    forall p, q | p in group && q in out && IsTip(net, pm, q) ensures !TipLess(p, q) {
      var m :| 0 <= m < |prefixes| && prefixes[m] == Prefix(q);
      assert m < n;
      assert !StrLess(prefixes[n], prefixes[m]) && prefixes[m] != prefixes[n];
    }
    PlacedGroup(net, pm, out, group);
  }

  lemma GroupsStart(t: Table, prefixes: seq<string>) returns (w: Plan, tips: set<Key>, total: seq<Key>)
    requires Linked(t) && SortedPrefixesOf(Tips(t), prefixes)
    ensures Plans(t, w, tips, total)
    ensures Grouping(w, tips, total, {}, prefixes, 0, Zeros(t.Keys), [])
  {
    w, tips, total := PlanOf(t), Tips(t), Order(t);
    assert prefixes == Prefixes(tips);
    PlanDescribes(t);
    Start(w.net, tips);
    CountsStart(w.net, Zeros(t.Keys));
    GroupsLeft(tips, prefixes);
    assert prefixes[0..] == prefixes;
    StartFits(t, prefixes);
  }

  lemma StartFits(t: Table, prefixes: seq<string>)
    requires Linked(t) && prefixes == Prefixes(Tips(t))
    ensures PrefixesFit(Up(t), Graph(t), Tips(t), prefixes) && Placed(Up(t), Graph(t), [], [])
  {
    GroupsLeft(Tips(t), prefixes);
    StrOrder();
    SortedIsSorted(StrLess, SeqOf(set k | k in Tips(t) :: Prefix(k)));
    assert prefixes[0..] == prefixes;
    forall k | k in Tips(t) ensures Prefix(k) in prefixes {
      assert k in Waiting(Tips(t), prefixes[0..]);
    }
    PlanIsPeopled(t);
    PlacedNothing(Up(t), Graph(t));
  }

  lemma GroupStart(w: Plan, tips: set<Key>, total: seq<Key>, done: set<Key>, prefixes: seq<string>, n: nat,
                   num: map<Key, nat>, out: seq<Key>, listed: seq<Key>)
    requires Grouping(w, tips, total, done, prefixes, n, num, out) && n < |prefixes|
    requires NoDuplicates(listed) && SetOf(listed) == Group(tips, prefixes[n])
    ensures OnTheWay(w, done, Waiting(tips, prefixes[n + 1..]), GroupResult(w, listed, num, out),
                     Descending(listed), num, out, |w.counts|)
  {
    assert Placed(w.net, w.pm, out, []) && PrefixesFit(w.net, w.pm, tips, prefixes);
    GroupStack(tips, prefixes[n], listed);
    NextGroup(w.net, done, tips, prefixes, n, Descending(listed), num);
    forall k | k in out && k in tips ensures Prefix(k) !in prefixes[n..] {
      assert OutAt(w.pm.Keys, done, out, k);
      assert k !in Waiting(tips, prefixes[n..]);
    }
    PlacedTipsOfGroup(w.net, w.pm, tips, prefixes, n, out, listed);
  }

  lemma GroupFinish(w: Plan, tips: set<Key>, total: seq<Key>, done: set<Key>, prefixes: seq<string>, n: nat,
                    num: map<Key, nat>, out: seq<Key>, listed: seq<Key>,
                    done': set<Key>, num': map<Key, nat>, out': seq<Key>, fuel: nat)
    requires Grouping(w, tips, total, done, prefixes, n, num, out) && n < |prefixes|
    requires NoDuplicates(listed) && SetOf(listed) == Group(tips, prefixes[n])
    requires OnTheWay(w, done', Waiting(tips, prefixes[n + 1..]), GroupResult(w, listed, num, out), [], num', out', fuel)
    ensures Grouping(w, tips, total, done', prefixes, n + 1, num', out')
  {
    assert Running(w, done', Waiting(tips, prefixes[n + 1..]), GroupResult(w, listed, num, out), [], num', out', fuel);
    assert Placed(w.net, w.pm, out, []) && PrefixesFit(w.net, w.pm, tips, prefixes);
    GroupStack(tips, prefixes[n], listed);
    YieldsDone(w, GroupResult(w, listed, num, out), num', out', fuel);
    var left, left' := prefixes[n..], prefixes[n + 1..];
    assert left[0] == prefixes[n] && left[1..] == left';
    ContinueAfter(w, tips, total, listed, left, left', num, out, num', out');
  }

  lemma YieldsDone(w: Plan, result: (seq<Key>, map<Key, nat>), num: map<Key, nat>, out: seq<Key>, left: nat)
    requires Yields(w, result, [], num, out, left)
    ensures result == (out, num)
  {
    assert result == RunGroup(w.pm, w.counts, [], num, out, left);
  }

  lemma ContinueAfter(w: Plan, tips: set<Key>, total: seq<Key>, listed: seq<Key>, left: seq<string>, left': seq<string>,
                      num: map<Key, nat>, out: seq<Key>, num': map<Key, nat>, out': seq<Key>)
    requires |left| > 0 && left' == left[1..] && Continues(w, tips, total, left, num, out)
    requires Descending(listed) == Descending(SeqOf(Group(tips, left[0])))
    requires (out', num') == GroupResult(w, listed, num, out)
    ensures Continues(w, tips, total, left', num', out')
  {
    assert total == RunGroups(w.pm, w.counts, tips, left, num, out);
  }

  lemma GroupsDone(t: Table, w: Plan, tips: set<Key>, total: seq<Key>, done: set<Key>, prefixes: seq<string>,
                   num: map<Key, nat>, out: seq<Key>)
    requires Linked(t) && Plans(t, w, tips, total)
    requires Grouping(w, tips, total, done, prefixes, |prefixes|, num, out)
    ensures out == Order(t)
    ensures ChildrenFirst(Graph(t), out) && CycleFree(Graph(t), out)
    ensures TipsAscend(Graph(t), out) && ParentsAscend(Graph(t), out) && ParentsFollow(Graph(t), out)
  {
    assert total == Order(t);
    assert Waiting(tips, prefixes[|prefixes|..]) == {} && SetOf([]) + {} == {};
    assert total == RunGroups(w.pm, w.counts, tips, prefixes[|prefixes|..], num, out);
    EmittedIsOrdered(t, done, out);
    assert Placed(Up(t), Graph(t), out, []);
    OrderPlaces(t, done, out);
  }

  lemma OrderPlaces(t: Table, done: set<Key>, out: seq<Key>)
    requires Linked(t) && Placed(Up(t), Graph(t), out, []) && Emitted(Up(t), Graph(t).Keys, done, out)
    ensures TipsAscend(Graph(t), out) && ParentsAscend(Graph(t), out) && ParentsFollow(Graph(t), out)
  {
    forall k, c | k in t ensures c in Up(t).ins[k] <==> k in Parents(Graph(t), c) {
      KidIffParent(t, k, c);
    }
    forall k | k in out ensures k in Graph(t) {
      assert OutAt(Graph(t).Keys, done, out, k);
    }
    AllPlaced(Up(t), Graph(t), out);
  }
}

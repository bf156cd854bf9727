/** The in-memory revision graph: construction, growth, head search and the two sorts. */
module KnownGraphs {
  import opened Wrappers
  import opened Keys
  import opened Dag
  import opened Frontier
  import opened NodeTable
  import opened GdfoWalk
  import opened Propagation
  import opened Growth
  import opened HeadSearch
  import opened GcOrder
  import opened GcPlaces
  import opened TopoOrders

  datatype GraphError =
    | ParentMismatch(key: Key, existing: seq<Key>, given: seq<Key>)
    | UnknownKey(key: Key)
    | NoDistance(key: Key)
    | GraphCycle

  class KnownGraphNode {
    const key: Key
    var parentKeys: Option<seq<Key>>
    var childKeys: seq<Key>
    var gdfo: Option<nat>

    constructor (key: Key, parentKeys: Option<seq<Key>>, childKeys: seq<Key>, gdfo: Option<nat>)
      ensures this.key == key && Value() == Node(parentKeys, childKeys, gdfo)
    {
      this.key := key;
      this.parentKeys := parentKeys;
      this.childKeys := childKeys;
      this.gdfo := gdfo;
    }

    ghost function Value(): Node
      reads this
    {
      Node(parentKeys, childKeys, gdfo)
    }
  }

  class KnownGraph {
    var nodes: map<Key, KnownGraphNode>
    var knownHeads: map<set<Key>, set<Key>>
    const doCache: bool

    ghost var Repr: set<KnownGraphNode>

    /** Each node is filed under its own key, so no two keys share a node. */
    ghost predicate Keyed()
      reads this`nodes, this`Repr
    {
      forall k | k in nodes :: nodes[k].key == k && nodes[k] in Repr
    }

    ghost function Contents(): Table
      reads this`nodes, nodes.Values
    {
      map k | k in nodes :: nodes[k].Value()
    }

    ghost function ParentMap(): ParentMap
      reads this`nodes, nodes.Values
    {
      Graph(Contents())
    }

    ghost predicate CacheCorrect()
      reads this, nodes.Values
    {
      forall s | s in knownHeads :: s <= nodes.Keys && HeadsFrom(Contents(), s, Success(knownHeads[s]))
    }

    ghost predicate Valid()
      reads this, nodes.Values
    {
      Keyed() && Linked(Contents()) && GdfoFound(Contents()) && CacheCorrect()
    }

    constructor (items: Items, doCache: bool := true)
      requires DistinctKeys(items)
      ensures Valid() && fresh(Repr)
      ensures ParentMap() == MapOf(items)
      ensures this.doCache == doCache && knownHeads == map[]
    {
      nodes := map[];
      Repr := {};
      knownHeads := map[];
      this.doCache := doCache;
      new;
      InitializeNodes(items);
      FindGdfo();
    }

    // -------------------------------------------------------------------------------
    // Single updates of the heap and what they do to the contents

    method SetGdfo(k: Key, v: nat)
      requires Keyed() && k in nodes
      modifies Repr
      ensures Contents() == old(Contents())[k := old(Contents())[k].(gdfo := Some(v))]
    {
      nodes[k].gdfo := Some(v);
      assert forall j | j in nodes && j != k :: nodes[j] != nodes[k];
    }

    /** `nodes[parent].child_keys.append(child)`, creating a ghost for an unknown parent. */
    method AppendChild(parent: Key, child: Key, ghostGdfo: Option<nat>)
      requires Keyed()
      modifies this`nodes, this`Repr, Repr
      ensures Keyed()
      ensures Contents() == AddChild(old(Contents()), parent, child, ghostGdfo)
      ensures fresh(Repr - old(Repr))
    {
      if parent in nodes {
        var node := nodes[parent];
        node.childKeys := node.childKeys + [child];
        assert forall j | j in nodes && j != parent :: nodes[j] != node;
      } else {
        AddGhost(parent, child, ghostGdfo);
      }
    }

    method AddGhost(key: Key, child: Key, gdfo: Option<nat>)
      requires Keyed() && key !in nodes
      modifies this`nodes, this`Repr
      ensures Keyed() && fresh(Repr - old(Repr)) && old(Repr) <= Repr
      ensures Contents() == old(Contents())[key := Node(None, [child], gdfo)]
    {
      var node := new KnownGraphNode(key, None, [child], gdfo);
      nodes, Repr := nodes[key := node], Repr + {node};
    }

    /** Give `key` its parents, as a new node or by filling in a ghost. */
    method SetParents(key: Key, parentKeys: seq<Key>)
      requires Keyed()
      modifies this`nodes, this`Repr, Repr
      ensures Keyed()
      ensures Contents() == WithParents(old(Contents()), key, parentKeys)
      ensures fresh(Repr - old(Repr))
    {
      if key in nodes {
        var node := nodes[key];
        node.parentKeys := Some(parentKeys);
        assert forall j | j in nodes && j != key :: nodes[j] != node;
      } else {
        var node := new KnownGraphNode(key, Some(parentKeys), [], None);
        nodes, Repr := nodes[key := node], Repr + {node};
      }
    }

    // -------------------------------------------------------------------------------
    // Construction

    method InitializeNodes(items: Items)
      requires nodes == map[] && Repr == {} && DistinctKeys(items)
      modifies this`nodes, this`Repr
      ensures fresh(Repr)
      ensures Keyed() && Linked(Contents())
      ensures ParentMap() == MapOf(items)
      ensures forall k | k in nodes :: nodes[k].gdfo.None?
    {
      for n := 0 to |items|
        invariant fresh(Repr) && Keyed()
        invariant Built(Contents(), MapOf(items[..n]))
      {
        InitializeNode(items, n);
      }
      assert items[..|items|] == items;
      assert forall k | k in nodes :: Contents()[k].gdfo == nodes[k].gdfo;
    }

    method InitializeNode(items: Items, n: nat)
      requires DistinctKeys(items) && n < |items| && Keyed() && Built(Contents(), MapOf(items[..n]))
      modifies this`nodes, this`Repr, Repr
      ensures Keyed() && fresh(Repr - old(Repr)) && Built(Contents(), MapOf(items[..n + 1]))
    {
      var (key, parentKeys) := items[n];
      BuildItem(Contents(), items, n);
      SetParents(key, parentKeys);
      LinkItem(key, parentKeys, MapOf(items[..n + 1]));
    }

    /** The inner loop: link a node to its parents. */
    method LinkItem(key: Key, parentKeys: seq<Key>, ghost pm: ParentMap)
      requires Keyed() && Building(Contents(), key, parentKeys, 0, pm)
      modifies this`nodes, this`Repr, Repr
      ensures Keyed() && fresh(Repr - old(Repr)) && Built(Contents(), pm)
    {
      for j := 0 to |parentKeys|
        invariant fresh(Repr - old(Repr)) && Keyed()
        invariant Building(Contents(), key, parentKeys, j, pm)
      {
        BuildStep(Contents(), key, parentKeys, j, pm);
        AppendChild(parentKeys[j], key, None);
      }
      BuildFinish(Contents(), key, parentKeys, pm);
    }

    method FindTails() returns (tails: seq<Key>)
      ensures NoDuplicates(tails)
      ensures SetOf(tails) == set k | k in nodes && ParentsOf(nodes[k].Value()) == []
    {
      tails := [];
      var rest := nodes.Keys;
      while rest != {}
        invariant rest <= nodes.Keys && NoDuplicates(tails)
        invariant SetOf(tails) == set k | k in nodes && k !in rest && ParentsOf(nodes[k].Value()) == []
        decreases rest
      {
        var k :| k in rest;
        rest := rest - {k};
        if nodes[k].parentKeys.None? || nodes[k].parentKeys.value == [] {
          PushLast(tails, k);
          tails := tails + [k];
        }
      }
    }

    /** The first loop of `FindGdfo`: the tails are at distance 1. */
    method LabelTails(ghost t0: Table) returns (tails: seq<Key>, ghost g: map<Key, nat>)
      requires Keyed() && Contents() == t0 && forall k | k in t0 :: t0[k].gdfo.None?
      modifies Repr
      ensures NoDuplicates(tails)
      ensures SetOf(tails) == set k | k in t0 && ParentsOf(t0[k]) == []
      ensures g.Keys == SetOf(tails) && forall k | k in g :: g[k] == 1
      ensures Contents() == Relabel(t0, g)
    {
      g := map[];
      tails := FindTails();
      assert Contents() == Relabel(t0, g);
      for n := 0 to |tails|
        invariant Contents() == Relabel(t0, g)
        invariant g.Keys == SetOf(tails[..n]) && forall k | k in g :: g[k] == 1
      {
        assert tails[..n + 1] == tails[..n] + [tails[n]];
        assert tails[n] in SetOf(tails);
        RelabelUpdate(t0, g, tails[n], 1);
        SetGdfo(tails[n], 1);
        g := g[tails[n] := 1];
      }
      assert tails[..|tails|] == tails;
    }

    method FindGdfo()
      requires Keyed() && Linked(Contents()) && forall k | k in nodes :: nodes[k].gdfo.None?
      modifies Repr
      ensures Keyed() && Linked(Contents()) && GdfoFound(Contents())
      ensures ParentMap() == old(ParentMap())
    {
      ghost var t0 := Contents();
      ghost var net := Down(t0);
      LinkedIsDual(t0);
      var pending, g := LabelTails(t0);
      WalkStart(net, pending, g);

      var known: map<Key, nat> := map[];
      ghost var done: set<Key> := {};
      while |pending| > 0
        invariant Contents() == Relabel(t0, g)
        invariant Between(net, done, pending, g, known)
        decreases net.ins.Keys - done
      {
        WalkPop(net, done, pending, g, known);
        var key := pending[|pending| - 1];
        pending := pending[..|pending| - 1];
        pending, known, g := SeeChildren(key, pending, known, t0, done, g);
        done := done + {key};
      }
      assert pending == [];
      RelabelKeepsLinks(t0, g);
      WalkDone(Contents(), done, known);
    }

    /** The body of the loop of `FindGdfo`: count every edge out of `key`. */
    method SeeChildren(key: Key, pending: seq<Key>, known: map<Key, nat>,
                       ghost t0: Table, ghost done: set<Key>, ghost g: map<Key, nat>)
        returns (pending': seq<Key>, known': map<Key, nat>, ghost g': map<Key, nat>)
      requires Keyed() && Contents() == Relabel(t0, g)
      requires Within(Down(t0), done, key, 0, pending, g, known)
      modifies Repr
      ensures Contents() == Relabel(t0, g')
      ensures Between(Down(t0), done + {key}, pending', g', known')
    {
      ghost var net := Down(t0);
      pending', known', g' := pending, known, g;
      var children := nodes[key].childKeys;
      assert children == net.outs[key];
      for i := 0 to |children|
        invariant Contents() == Relabel(t0, g')
        invariant Within(net, done, key, i, pending', g', known')
      {
        WalkStep(net, done, key, i, pending', g', known');
        BumpedIsRaised(t0, g', key, children[i]);
        pending', known' := SeeChild(key, children[i], pending', known');
        g' := Raised(g', key, children[i]);
      }
      WalkFinish(net, done, key, pending', g', known');
    }

    /** Count the edge from `key` to `childKey`; the child is pending after its last edge. */
    method SeeChild(key: Key, childKey: Key, pending: seq<Key>, known: map<Key, nat>)
        returns (pending': seq<Key>, known': map<Key, nat>)
      requires Keyed() && key in nodes && nodes[key].gdfo.Some?
      requires childKey in nodes && nodes[childKey].parentKeys.Some?
      modifies Repr
      ensures pending' == PendingAfter(pending, known, childKey, |old(nodes[childKey].parentKeys.value)|)
      ensures known' == KnownAfter(known, childKey, |old(nodes[childKey].parentKeys.value)|)
      ensures Contents() == Bumped(old(Contents()), key, childKey)
    {
      pending', known' := pending, known;
      var node, child := nodes[key], nodes[childKey];
      var present := childKey in known;
      var knownGdfo := if present then known[childKey] + 1 else 1;
      if child.gdfo.None? || node.gdfo.value + 1 > child.gdfo.value {
        SetGdfo(childKey, node.gdfo.value + 1);
      }
      assert Contents()[childKey].parents == old(Contents())[childKey].parents;
      if knownGdfo == |child.parentKeys.value| {
        pending' := pending' + [childKey];
        if present {
          known' := known' - {childKey};
        }
      } else {
        known' := known'[childKey := knownGdfo];
      }
    }

    // -------------------------------------------------------------------------------
    // Growth

    /**
     Add a node, or fill in a ghost. Adding the same node again changes nothing, and other
     parents for a node that has some are an error that changes nothing. A new key that is its
     own parent is an error that comes up half way. `Growth.AddEndsIff` shows that the calls
     that are excluded here are those that do not end.
     */
    method AddNode(key: Key, parentKeys: seq<Key>) returns (r: Outcome<GraphError>)
      requires Valid() && Acyclic(ParentMap())
      requires key !in ParentMap() && (key in parentKeys ==> key in nodes) ==> Acyclic(ParentMap()[key := parentKeys])
      modifies this, Repr
      ensures Keyed() && fresh(Repr - old(Repr))
      ensures var before := old(ParentMap());
              if key !in old(nodes) && key in parentKeys then
                r == Fail(NoDistance(key)) && BrokenOff(old(Contents()), Contents(), key, parentKeys)
              else
                && Valid() && Acyclic(ParentMap())
                && if key !in before then r.Pass? && ParentMap() == before[key := parentKeys]
                   else ParentMap() == before && Contents() == old(Contents()) &&
                        r == if before[key] == parentKeys then Pass else Fail(ParentMismatch(key, before[key], parentKeys))
    {
      if key in nodes && nodes[key].parentKeys.Some? {
        var existing := nodes[key].parentKeys.value;
        assert key in ParentMap() && ParentMap()[key] == existing;
        return if parentKeys == existing then Pass else Fail(ParentMismatch(key, existing, parentKeys));
      }
      assert key !in ParentMap();
      var added := AddNewNode(key, parentKeys);
      r := if added then Pass else Fail(NoDistance(key));
    }

    /** A node that has no parents yet, new or a ghost. */
    method AddNewNode(key: Key, parentKeys: seq<Key>) returns (added: bool)
      requires Valid() && key !in ParentMap() && Acyclic(ParentMap())
      requires (key in parentKeys ==> key in nodes) ==> Acyclic(ParentMap()[key := parentKeys])
      modifies this, Repr
      ensures Keyed() && fresh(Repr - old(Repr))
      ensures added <==> (key in parentKeys ==> key in old(nodes))
      ensures added ==> Valid() && ParentMap() == old(ParentMap())[key := parentKeys]
      ensures !added ==> BrokenOff(old(Contents()), Contents(), key, parentKeys)
    {
      ghost var t0 := Contents();
      FoundIsExact(t0);
      if key in nodes {
        // A ghost gets parents, so the cached heads may no longer be right.
        knownHeads := map[];
      }
      added := InsertNode(key, parentKeys, t0);
      if added {
        KeptHeads(t0, Contents(), key, parentKeys, knownHeads);
      }
    }

    /** The part of `AddNode` that changes the graph. */
    method InsertNode(key: Key, parentKeys: seq<Key>, ghost t0: Table) returns (added: bool)
      requires Keyed() && Contents() == t0 && Exact(t0) && key !in Graph(t0) && Labels(t0).Keys == t0.Keys
      requires Comparable(t0, key, parentKeys) ==> Acyclic(Graph(t0)[key := parentKeys])
      modifies this`nodes, this`Repr, Repr
      ensures Keyed() && fresh(Repr - old(Repr)) && (added <==> Comparable(t0, key, parentKeys))
      ensures added ==> Linked(Contents()) && GdfoFound(Contents()) && ParentMap() == Graph(t0)[key := parentKeys]
      ensures added ==> t0.Keys <= nodes.Keys
      ensures !added ==> BrokenOff(t0, Contents(), key, parentKeys)
    {
      SetParents(key, parentKeys);
      var parentGdfo := LinkToParents(key, parentKeys, t0);
      if parentGdfo.None? {
        return false;
      }
      FinishNode(key, parentKeys, parentGdfo.value, t0);
      added := true;
    }

    /** Once the parents are linked. */
    method FinishNode(key: Key, ghost parentKeys: seq<Key>, parentGdfo: nat, ghost t0: Table)
      requires Keyed() && Growing(t0, Contents(), key, parentKeys, |parentKeys|, parentGdfo)
      requires Exact(t0) && Labels(t0).Keys == t0.Keys && (key in t0 ==> t0[key].parents.None?)
      requires Acyclic(Graph(t0)[key := parentKeys])
      modifies Repr
      ensures Keyed() && Linked(Contents()) && GdfoFound(Contents())
      ensures ParentMap() == Graph(t0)[key := parentKeys] && nodes == old(nodes) && t0.Keys <= nodes.Keys
    {
      GrowingIsReady(t0, Contents(), key, parentKeys, parentGdfo);
      LabelAndPropagate(key, parentGdfo);
    }

    /** Set the distance and pass it on. */
    method LabelAndPropagate(key: Key, parentGdfo: nat)
      requires Keyed() && key in nodes && Ready(Contents()[key := Contents()[key].(gdfo := Some(parentGdfo + 1))], key)
      modifies Repr
      ensures Keyed() && Linked(Contents()) && GdfoFound(Contents())
      ensures ParentMap() == Graph(old(Contents())[key := old(Contents())[key].(gdfo := Some(parentGdfo + 1))])
      ensures nodes == old(nodes)
    {
      SetGdfo(key, parentGdfo + 1);
      ghost var t := Contents();
      ghost var n := PropagateGdfo(key);
      PropagatedIsFound(t, key, n);
    }

    /**
     The first loop of `AddNode`: link the parents and take the greatest of their distances. A
     new key has none itself, so it cannot be compared as its own parent.
     */
    method LinkToParents(key: Key, parentKeys: seq<Key>, ghost t0: Table) returns (parentGdfo: Option<nat>)
      requires Keyed() && Contents() == WithParents(t0, key, parentKeys)
      requires Linked(t0) && (key in t0 ==> t0[key].parents.None?) && Labels(t0).Keys == t0.Keys
      modifies this`nodes, this`Repr, Repr
      ensures Keyed() && fresh(Repr - old(Repr)) && (parentGdfo.Some? <==> Comparable(t0, key, parentKeys))
      ensures parentGdfo.Some? ==> IsLinking(t0, key, parentKeys, |parentKeys|, Linking(Contents(), parentGdfo.value))
      ensures parentGdfo.Some? ==> Growing(t0, Contents(), key, parentKeys, |parentKeys|, parentGdfo.value)
      ensures parentGdfo.None? ==> BrokenOff(t0, Contents(), key, parentKeys)
    {
      var greatest := 0;
      LinkingStarts(t0, key, parentKeys);
      for j := 0 to |parentKeys|
        invariant Keyed() && fresh(Repr - old(Repr)) && (key in parentKeys[..j] ==> key in t0)
        invariant IsLinking(t0, key, parentKeys, j, Linking(Contents(), greatest))
      {
        ghost var linked := Linking(Contents(), greatest);
        NextParent(t0, key, parentKeys, j, linked);
        assert parentKeys[..j + 1] == parentKeys[..j] + [parentKeys[j]];
        var next := LinkToParent(key, parentKeys[j], greatest);
        if next.None? {
          BreaksOff(t0, key, parentKeys, j, linked);
          return None;
        }
        greatest := next.value;
        LinkingNext(t0, key, parentKeys, j, linked, Linking(Contents(), greatest));
      }
      assert parentKeys[..|parentKeys|] == parentKeys;
      LinkingIsGrowing(t0, key, parentKeys, Linking(Contents(), greatest));
      parentGdfo := Some(greatest);
    }

    /** Compare one parent, a new ghost if it is not known, and link it. */
    method LinkToParent(key: Key, parent: Key, greatest: nat) returns (greatest': Option<nat>)
      requires Keyed()
      modifies this`nodes, this`Repr, Repr
      ensures Keyed() && fresh(Repr - old(Repr))
      ensures greatest'.None? <==> parent in old(Contents()) && old(Contents())[parent].gdfo.None?
      ensures greatest'.None? ==> Contents() == old(Contents())
      ensures greatest'.Some? ==>
                && Contents() == AddChild(old(Contents()), parent, key, Some(1)) && Contents()[parent].gdfo.Some?
                && greatest'.value == Max(greatest, Contents()[parent].gdfo.value)
    {
      var gdfo := if parent in nodes then nodes[parent].gdfo else Some(1);
      assert parent in nodes ==> gdfo == Contents()[parent].gdfo;
      if gdfo.None? {
        return None;
      }
      AppendChild(parent, key, Some(1));
      greatest' := Some(if greatest < gdfo.value then gdfo.value else greatest);
    }

    /**
     The second loop of `AddNode`: pass the new distance on to the descendants. What it does is
     `Turns`, on any graph on which these come to an end.
     */
    method PropagateGdfo(key: Key) returns (ghost n: nat)
      requires Keyed() && Linked(Contents()) && Labels(Contents()).Keys == Contents().Keys && key in nodes
      requires Ends(Down(Contents()), Progress(Labels(Contents()), [key]))
      modifies Repr
      ensures var t, s := old(Contents()), Progress(Labels(old(Contents())), [key]);
              EndedAfter(Down(t), s, n) && Contents() == Relabel(t, Turns(Down(t), s, n).g)
    {
      ghost var t0 := Contents();
      ghost var net := Down(t0);
      ghost var s := Progress(Labels(t0), [key]);
      ghost var start := s;
      ghost var end: nat :| EndedAfter(net, s, end);
      LabelsOfRelabel(t0, s.g);
      var pending := [key];
      n := 0;
      while |pending| > 0
        invariant s == Turns(net, start, n) && pending == s.pending && n <= end
        invariant Contents() == Relabel(t0, s.g) && InTable(t0, s)
        decreases end - n
      {
        assert n != end;
        var current := pending[0];
        pending := pending[1..];
        pending, s := RaiseChildren(current, pending, t0, net, s);
        n := n + 1;
      }
    }

    /** The body of that loop: raise the children of `key` that are too near the origin. */
    method RaiseChildren(key: Key, pending: seq<Key>, ghost t0: Table, ghost net: Net, ghost s: Progress)
        returns (pending': seq<Key>, ghost s': Progress)
      requires Keyed() && Contents() == Relabel(t0, s.g) && InTable(t0, s) && Linked(t0) && net == Down(t0)
      requires |s.pending| > 0 && key == s.pending[0] && pending == s.pending[1..]
      modifies Repr
      ensures s' == Turn(net, s) && pending' == s'.pending && Contents() == Relabel(t0, s'.g) && InTable(t0, s')
    {
      TopInTable(t0, s);
      assert key in Contents();
      assert nodes[key].gdfo == Relabel(t0, s.g)[key].gdfo == Some(s.g[key]);
      var children := nodes[key].childKeys;
      assert children == t0[key].children == net.outs[key];
      pending', s' := RaiseEach(children, nodes[key].gdfo.value + 1, pending, t0, Progress(s.g, pending));
    }

    method RaiseEach(children: seq<Key>, nextGdfo: nat, pending: seq<Key>, ghost t0: Table, ghost s: Progress)
        returns (pending': seq<Key>, ghost s': Progress)
      requires Keyed() && Contents() == Relabel(t0, s.g) && InTable(t0, s) && pending == s.pending
      requires forall c | c in children :: c in t0
      modifies Repr
      ensures s' == RaiseAll(s, children, nextGdfo) && pending' == s'.pending
      ensures Contents() == Relabel(t0, s'.g) && InTable(t0, s')
    {
      pending', s' := pending, s;
      for i := 0 to |children|
        invariant s' == RaiseAll(s, children[..i], nextGdfo) && pending' == s'.pending
        invariant Contents() == Relabel(t0, s'.g) && InTable(t0, s')
      {
        assert children[..i + 1] == children[..i] + [children[i]];
        RaiseAllAppend(s, children[..i], children[i], nextGdfo);
        pending', s' := RaiseChild(children[i], nextGdfo, pending', t0, s');
      }
      assert children[..|children|] == children;
    }

    method RaiseChild(childKey: Key, nextGdfo: nat, pending: seq<Key>, ghost t0: Table, ghost s: Progress)
        returns (pending': seq<Key>, ghost s': Progress)
      requires Keyed() && Contents() == Relabel(t0, s.g) && InTable(t0, s) && pending == s.pending && childKey in t0
      modifies Repr
      ensures s' == RaiseOne(s, childKey, nextGdfo) && pending' == s'.pending
      ensures Contents() == Relabel(t0, s'.g) && InTable(t0, s')
    {
      pending', s' := pending, RaiseOne(s, childKey, nextGdfo);
      assert childKey in Contents();
      assert nodes[childKey].gdfo == Relabel(t0, s.g)[childKey].gdfo == Some(s.g[childKey]);
      if nodes[childKey].gdfo.value < nextGdfo {
        RelabelUpdate(t0, s.g, childKey, nextGdfo);
        SetGdfo(childKey, nextGdfo);
        pending' := pending' + [childKey];
      }
    }

    // -------------------------------------------------------------------------------
    // Heads

    /**
     The keys that are not strict ancestors of another of the keys. The null revision is a
     head only on its own; a key the graph does not have is an error. Keys that lead into a
     cycle may lack a distance to compare, or make the search stop too early.
     */
    method Heads(keys: set<Key>) returns (r: Result<set<Key>, GraphError>)
      requires Valid()
      modifies this`knownHeads
      ensures Valid()
      ensures !(keys <= nodes.Keys) ==> r.Failure? && r.error.UnknownKey? && r.error.key in keys - nodes.Keys
      ensures keys <= nodes.Keys ==>
                if |keys - {NULL_REVISION}| < 2 then r == Success(Dag.Heads(ParentMap(), keys))
                else HeadsFrom(Contents(), keys - {NULL_REVISION}, r)
      ensures keys <= nodes.Keys && (forall k | k in keys :: Grounded(ParentMap(), k)) ==>
                r == Success(Dag.Heads(ParentMap(), keys))
    {
      if !(keys <= nodes.Keys) {
        var unknown :| unknown in keys && unknown !in nodes.Keys;
        return Failure(UnknownKey(unknown));
      }
      var candidates := keys;
      if NULL_REVISION in candidates {
        candidates := candidates - {NULL_REVISION};
        if candidates == {} {
          assert keys == {NULL_REVISION};
          return Success({NULL_REVISION});
        }
      }
      assert candidates == keys - {NULL_REVISION} && keys != {NULL_REVISION};
      if |candidates| < 2 {
        FewHeads(ParentMap(), candidates);
        return Success(candidates);
      }
      if candidates in knownHeads {
        r := Success(knownHeads[candidates]);
      } else {
        r := ComputeHeads(candidates);
      }
      if forall k | k in candidates :: Grounded(ParentMap(), k) {
        HeadsFromGrounded(Contents(), candidates, r);
      }
    }

    /** Compute the heads of keys that are not cached, and cache the answer. */
    method ComputeHeads(candidates: set<Key>) returns (r: Result<set<Key>, GraphError>)
      requires Valid() && candidates <= nodes.Keys && candidates != {}
      modifies this`knownHeads
      ensures Valid()
      ensures HeadsFrom(Contents(), candidates, r)
    {
      r := FindHeads(candidates);
      if doCache && r.Success? {
        Remember(candidates, r.value);
      }
    }

    method Remember(candidates: set<Key>, heads: set<Key>)
      requires Valid() && candidates <= nodes.Keys && HeadsFrom(Contents(), candidates, Success(heads))
      modifies this`knownHeads
      ensures Valid() && Contents() == old(Contents())
    {
      knownHeads := knownHeads[candidates := heads];
    }

    method FindHeads(candidates: set<Key>) returns (r: Result<set<Key>, GraphError>)
      requires Keyed() && Linked(Contents()) && GdfoFound(Contents()) && candidates <= nodes.Keys && candidates != {}
      ensures HeadsFrom(Contents(), candidates, r)
    {
      ghost var t := Contents();
      var pending, minGdfo := StartPoints(candidates);
      if minGdfo.Failure? {
        return Failure(minGdfo.error);
      }
      SearchStart(Edges(t), Labels(t), candidates, pending);
      var seen := MarkAncestors(candidates, minGdfo.value, pending);
      if seen.Failure? {
        return Failure(seen.error);
      }
      SearchEnds(t, candidates, minGdfo.value, seen.value);
      r := Success(candidates - seen.value);
    }

    /** The search itself: mark strict ancestors until nothing deep enough is left. */
    method MarkAncestors(ghost candidates: set<Key>, minGdfo: nat, start: seq<Key>) returns (r: Result<set<Key>, GraphError>)
      requires Keyed() && Linked(Contents()) && IsLeast(Labels(Contents()), candidates, Some(minGdfo))
      requires Searching(Edges(Contents()), Labels(Contents()), candidates, {}, start)
      ensures r.Success? ==> Searching(Edges(Contents()), Labels(Contents()), candidates, r.value, [])
      ensures r.Failure? ==> Incomparable(Contents(), candidates, r.error)
    {
      ghost var t := Contents();
      ghost var e, g := Edges(t), Labels(t);
      var pending, seen := start, {};
      while |pending| > 0
        invariant Searching(e, g, candidates, seen, pending)
        decreases nodes.Keys - seen, |pending|
      {
        var nodeKey := pending[|pending| - 1];
        TopIsReached(e, g, candidates, seen, pending);
        ReachedInTable(t, candidates, nodeKey);
        if nodeKey in seen {
          SearchSkip(e, g, candidates, seen, pending);
          pending := pending[..|pending| - 1];
        } else {
          var parents := ParentsToVisit(nodeKey, minGdfo, candidates);
          if parents.None? {
            return Failure(NoDistance(nodeKey));
          }
          SearchVisit(e, g, candidates, seen, pending, parents.value);
          seen := seen + {nodeKey};
          pending := pending[..|pending| - 1] + parents.value;
        }
      }
      assert pending == [];
      r := Success(seen);
    }

    /** The parents to push, none if the node is near enough the origin; fails without a distance. */
    method ParentsToVisit(nodeKey: Key, minGdfo: nat, ghost candidates: set<Key>) returns (parents: Option<seq<Key>>)
      requires nodeKey in nodes && IsLeast(Labels(Contents()), candidates, Some(minGdfo))
      ensures parents.None? <==> nodeKey !in Labels(Contents())
      ensures parents.Some? ==>
                parents.value == if Deeper(Labels(Contents()), candidates, nodeKey) then Parents(Edges(Contents()), nodeKey) else []
    {
      var node := nodes[nodeKey];
      assert Contents()[nodeKey] == node.Value();
      if node.gdfo.None? {
        return None;
      }
      parents := Some(if node.gdfo.value <= minGdfo || node.parentKeys.None? then [] else node.parentKeys.value);
    }

    /** The parents of the candidates, and the least distance of a candidate. */
    method StartPoints(candidates: set<Key>) returns (pending: seq<Key>, minGdfo: Result<nat, GraphError>)
      requires Keyed() && GdfoFound(Contents()) && candidates <= nodes.Keys && candidates != {}
      ensures SetOf(pending) == ParentsOfAll(Edges(Contents()), candidates) || minGdfo.Failure?
      ensures minGdfo.Success? ==> IsLeast(Labels(Contents()), candidates, Some(minGdfo.value))
      ensures minGdfo.Failure? ==> Incomparable(Contents(), candidates, minGdfo.error)
    {
      ghost var t := Contents();
      pending := [];
      var least: Option<nat> := None;
      var rest := candidates;
      while rest != {}
        invariant rest <= candidates
        invariant SetOf(pending) == ParentsOfAll(Edges(t), candidates - rest)
        invariant IsLeast(Labels(t), candidates - rest, least)
        decreases rest
      {
        var key :| key in rest;
        assert candidates - (rest - {key}) == (candidates - rest) + {key};
        var ok;
        ok, pending, least := StartPoint(key, pending, least, candidates - rest);
        if !ok {
          return pending, Failure(NoDistance(key));
        }
        rest := rest - {key};
      }
      assert candidates - rest == candidates;
      if least.None? {
        // Candidates without a distance have parents, on which the walk fails at once.
        var key :| key in candidates;
        HasParents(t, candidates, key);
        assert pending != [];
        return pending, Failure(NoDistance(key));
      }
      minGdfo := Success(least.value);
    }

    /** One candidate. A missing distance cannot be compared, unless nothing was found before. */
    method StartPoint(key: Key, pending: seq<Key>, least: Option<nat>, ghost before: set<Key>)
        returns (ok: bool, pending': seq<Key>, least': Option<nat>)
      requires key in nodes
      requires SetOf(pending) == ParentsOfAll(Edges(Contents()), before) && IsLeast(Labels(Contents()), before, least)
      ensures ok <==> least.None? || key in Labels(Contents())
      ensures SetOf(pending') == ParentsOfAll(Edges(Contents()), before + {key})
      ensures ok ==> IsLeast(Labels(Contents()), before + {key}, least')
    {
      var node := nodes[key];
      assert Contents()[key] == node.Value();
      ParentsOfMore(Edges(Contents()), before, key, pending);
      pending' := pending + if node.parentKeys.Some? then node.parentKeys.value else [];
      ok := least.None? || node.gdfo.Some?;
      least' := if least.None? || (node.gdfo.Some? && node.gdfo.value < least.value) then node.gdfo else least;
      if ok {
        LeastNext(Labels(Contents()), before, least, key, node.gdfo);
      }
    }

    // -------------------------------------------------------------------------------
    // Sorting parents first

    /**
     The nodes that reach no cycle, parents before children. The cycle error is raised only
     when some node has nothing but parents that reach a cycle.
     */
    method TopoSort() returns (r: Result<seq<Key>, GraphError>)
      requires Keyed() && Linked(Contents()) && GdfoFound(Contents())
      ensures r.Failure? <==> exists k :: Stuck(ParentMap(), k)
      ensures r.Failure? ==> r.error == GraphCycle
      ensures r.Success? ==> TopoOrder(ParentMap(), r.value)
    {
      ghost var t := Contents();
      var unlabelled := FindUnlabelled();
      assert Contents() == t;
      if unlabelled.Some? {
        StuckIsUnlabelled(t, unlabelled.value);
        r := Failure(GraphCycle);
      } else {
        NothingStuck(t);
        var order := Ordered(t);
        r := Success(order);
      }
      assert ParentMap() == Graph(t);
    }

    method Ordered(ghost t: Table) returns (order: seq<Key>)
      requires Keyed() && Linked(t) && t == Contents() && forall k | k in t :: t[k].gdfo.Some?
      ensures TopoOrder(Graph(t), order)
    {
      ghost var done;
      order, done := TopoWalk();
      assert Contents() == t;
      TopoDone(t, done, order);
    }

    method FindUnlabelled() returns (r: Option<Key>)
      ensures r.Some? ==> r.value in nodes && Contents()[r.value].gdfo.None?
      ensures r.None? ==> forall k | k in Contents() :: Contents()[k].gdfo.Some?
    {
      var rest := nodes.Keys;
      while rest != {}
        invariant rest <= nodes.Keys
        invariant forall k | k in nodes.Keys - rest :: nodes[k].gdfo.Some?
        decreases rest
      {
        var k :| k in rest;
        if nodes[k].gdfo.None? {
          return Some(k);
        }
        rest := rest - {k};
      }
      forall k | k in Contents() ensures Contents()[k].gdfo.Some? {
        assert k in nodes.Keys - rest;
      }
      r := None;
    }

    method TopoWalk() returns (topoOrder: seq<Key>, ghost done: set<Key>)
      requires Keyed() && Linked(Contents())
      ensures Rest(Down(Contents()), done, {})
      ensures Emitted(Down(Contents()), Graph(Contents()).Keys, done, topoOrder)
    {
      ghost var t := Contents();
      ghost var net, wanted := Down(t), Graph(t).Keys;
      LinkedIsDual(t);
      var pending := FindTails();
      var numSeenParents: map<Key, nat> := map k | k in nodes.Keys :: 0;
      topoOrder, done := [], {};
      Start(net, SetOf(pending));
      CountsStart(net, numSeenParents);
      assert SetOf(pending) + {} == SetOf(pending);
      while |pending| > 0
        invariant AtRest(net, done, pending, {}, numSeenParents)
        invariant Emitted(net, wanted, done, topoOrder)
        decreases net.ins.Keys - done
      {
        ghost var key := pending[|pending| - 1];
        pending, numSeenParents, topoOrder := Emit(pending, numSeenParents, topoOrder, t, done);
        done := done + {key};
      }
      assert pending == [] && SetOf(pending) + {} == {};
      assert Contents() == t;
    }

    /** The body of that loop: put out the top of the stack, unless it is a ghost. */
    method Emit(pending: seq<Key>, num: map<Key, nat>, out: seq<Key>, ghost t: Table, ghost done: set<Key>)
        returns (pending': seq<Key>, num': map<Key, nat>, out': seq<Key>)
      requires Keyed() && t == Contents() && Linked(t) && |pending| > 0
      requires AtRest(Down(t), done, pending, {}, num) && Emitted(Down(t), Graph(t).Keys, done, out)
      ensures var key := pending[|pending| - 1];
              && key in Down(t).ins && key !in done && AtRest(Down(t), done + {key}, pending', {}, num')
              && Emitted(Down(t), Graph(t).Keys, done + {key}, out')
    {
      SortPop(Down(t), done, pending, {}, num);
      var key := pending[|pending| - 1];
      EmitPop(Down(t), Graph(t).Keys, done, key, out);
      out' := if nodes[key].parentKeys.Some? then out + [key] else out;
      pending', num' := CountParent(key, pending[..|pending| - 1], num, t, done);
    }

    /** One more seen parent for every child of `key`. */
    method CountParent(key: Key, pending: seq<Key>, num: map<Key, nat>, ghost t: Table, ghost done: set<Key>)
        returns (pending': seq<Key>, num': map<Key, nat>)
      requires Keyed() && t == Contents() && Linked(t) && AtEdge(Down(t), done, key, 0, pending, {}, num)
      ensures AtRest(Down(t), done + {key}, pending', {}, num')
    {
      ghost var net := Down(t);
      pending', num' := pending, num;
      var children := nodes[key].childKeys;
      assert children == net.outs[key];
      for i := 0 to |children|
        invariant AtEdge(net, done, key, i, pending', {}, num')
      {
        var childKey := children[i];
        SortStep(net, done, key, i, pending', {}, num');
        ChildHasParents(t, key, childKey);
        var childNode := nodes[childKey];
        assert ParentsOf(childNode.Value()) == net.ins[childKey];
        pending', num' := CountSeen(childKey, |childNode.parentKeys.value|, pending', num');
      }
      SortFinish(net, done, key, pending', {}, num');
    }

    /** One more edge into `key` of `total`: the last one queues it and drops its counter. */
    method CountSeen(key: Key, total: nat, pending: seq<Key>, num: map<Key, nat>)
        returns (pending': seq<Key>, num': map<Key, nat>)
      requires key in num
      ensures pending' == QueueAfter(pending, num, key, total) && num' == NumAfter(num, key, total)
    {
      pending', num' := pending, num;
      var seen := num[key] + 1;
      if seen == total {
        pending' := pending' + [key];
        num' := num' - {key};
      } else {
        num' := num'[key := seen];
      }
    }

    // -------------------------------------------------------------------------------
    // Sorting children first

    /**
     A stable order with children before parents: tips in ascending order, each followed at
     once by the parents that have no other child left, in ascending order too. It is a function
     of the contents of the graph that `OrderDependsOnGraph` shows to depend on the parents alone.
     */
    method GcSort() returns (result: seq<Key>)
      requires Keyed() && Linked(Contents())
      ensures result == Order(Contents())
      ensures ChildrenFirst(ParentMap(), result) && CycleFree(ParentMap(), result)
      ensures NoneLost(ParentMap(), result) <==> Acyclic(ParentMap())
      ensures ParentsSharePrefix(ParentMap()) ==> GroupedByPrefix(result)
      ensures TipsAscend(ParentMap(), result) && ParentsAscend(ParentMap(), result) && ParentsFollow(ParentMap(), result)
    {
      ghost var t := Contents();
      ghost var w, tips, total, prefixes, done, num;
      result, w, tips, total, prefixes, done, num := GcWalk(t);
      assert ParentMap() == Graph(t) && Contents() == t;
      GroupsDone(t, w, tips, total, done, prefixes, num, result);
      CycleFreeIsComplete(Graph(t), result);
      if ParentsSharePrefix(Graph(t)) {
        OrderIsGrouped(t);
      }
    }

    /** The loop over the groups of tips, in the order of their prefixes. */
    method GcWalk(ghost t: Table)
        returns (result: seq<Key>, ghost w: Plan, ghost tips: set<Key>, ghost total: seq<Key>,
                 ghost prefixes: seq<string>, ghost done: set<Key>, ghost num: map<Key, nat>)
      requires Keyed() && t == Contents() && Linked(t)
      ensures Plans(t, w, tips, total)
      ensures Grouping(w, tips, total, done, prefixes, |prefixes|, num, result)
    {
      var prefixTips := TipsByPrefix();
      var sortedPrefixes := SortedPrefixes(prefixTips, Tips(t));
      prefixes := sortedPrefixes;
      w, tips, total := GroupsStart(t, prefixes);
      result, done, num := WalkPrefixes(prefixTips, sortedPrefixes, t, w, tips, total);
    }

    method WalkPrefixes(prefixTips: map<string, seq<Key>>, prefixes: seq<string>,
                        ghost t: Table, ghost w: Plan, ghost tips: set<Key>, ghost total: seq<Key>)
        returns (result: seq<Key>, ghost done: set<Key>, ghost num: map<Key, nat>)
      requires Keyed() && t == Contents() && Describes(w, t)
      requires ByPrefix(tips, prefixTips) && forall p | p in prefixes :: p in prefixTips
      requires Grouping(w, tips, total, {}, prefixes, 0, Zeros(t.Keys), [])
      ensures Grouping(w, tips, total, done, prefixes, |prefixes|, num, result)
    {
      var numSeenChildren: map<Key, nat> := map k | k in nodes.Keys :: 0;
      result, done := [], {};
      assert numSeenChildren == Zeros(t.Keys);
      for n := 0 to |prefixes|
        invariant Grouping(w, tips, total, done, prefixes, n, numSeenChildren, result)
      {
        var listed := prefixTips[prefixes[n]];
        numSeenChildren, result, done := WalkTips(listed, n, numSeenChildren, result, t, w, tips, total, done, prefixes);
      }
      num := numSeenChildren;
    }

    /** The body of that loop, for the group number `n`. */
    method WalkTips(listed: seq<Key>, ghost n: nat, num: map<Key, nat>, out: seq<Key>, ghost t: Table, ghost w: Plan,
                    ghost tips: set<Key>, ghost total: seq<Key>, ghost done: set<Key>, ghost prefixes: seq<string>)
        returns (num': map<Key, nat>, out': seq<Key>, ghost done': set<Key>)
      requires Keyed() && t == Contents() && Describes(w, t)
      requires Grouping(w, tips, total, done, prefixes, n, num, out) && n < |prefixes|
      requires NoDuplicates(listed) && SetOf(listed) == Group(tips, prefixes[n])
      ensures Grouping(w, tips, total, done', prefixes, n + 1, num', out')
    {
      ghost var fuel;
      GroupStart(w, tips, total, done, prefixes, n, num, out, listed);
      num', out', done', fuel := WalkGroup(Descending(listed), num, out, t, w, done, Waiting(tips, prefixes[n + 1..]),
                                           GroupResult(w, listed, num, out));
      GroupFinish(w, tips, total, done, prefixes, n, num, out, listed, done', num', out', fuel);
    }

    method TipsByPrefix() returns (prefixTips: map<string, seq<Key>>)
      requires Keyed()
      ensures ByPrefix(Tips(Contents()), prefixTips)
    {
      prefixTips := map[];
      var rest := nodes.Keys;
      while rest != {}
        invariant rest <= nodes.Keys
        invariant ByPrefix(Tips(Contents()) - rest, prefixTips)
        decreases rest
      {
        var k :| k in rest;
        ghost var before := Tips(Contents()) - rest;
        rest := rest - {k};
        ghost var tips := Tips(Contents()) - rest;
        if nodes[k].childKeys == [] {
          assert Contents()[k].children == [];
          assert tips == before + {k};
          var prefix := Prefix(k);
          var list := if prefix in prefixTips then prefixTips[prefix] else [];
          AddTip(before, prefixTips, k);
          prefixTips := prefixTips[prefix := list + [k]];
        } else {
          assert Contents()[k].children != [];
          assert tips == before;
        }
      }
      assert Tips(Contents()) - rest == Tips(Contents());
    }

    method SortedPrefixes(prefixTips: map<string, seq<Key>>, ghost tips: set<Key>) returns (prefixes: seq<string>)
      requires ByPrefix(tips, prefixTips)
      ensures SortedPrefixesOf(tips, prefixes)
      ensures forall p | p in prefixes :: p in prefixTips
    {
      var listed := ListOf(prefixTips.Keys);
      PrefixesOfDictionary(tips, prefixTips);
      StrOrder();
      SortedCanonical(StrLess, listed, SeqOf(set k | k in tips :: Prefix(k)));
      prefixes := Sorted(StrLess, listed);
      SetAsSequence(prefixes, prefixTips.Keys);
    }

    /** The inner loop: walk down from one group of tips until it is used up. */
    method WalkGroup(start: seq<Key>, num0: map<Key, nat>, out0: seq<Key>, ghost t: Table, ghost w: Plan,
                     ghost done0: set<Key>, ghost waiting: set<Key>, ghost target: (seq<Key>, map<Key, nat>))
        returns (num: map<Key, nat>, out: seq<Key>, ghost done: set<Key>, ghost fuel: nat)
      requires Keyed() && t == Contents() && Describes(w, t)
      requires OnTheWay(w, done0, waiting, target, start, num0, out0, |w.counts|)
      ensures OnTheWay(w, done, waiting, target, [], num, out, fuel)
    {
      var pending := start;
      num, out, done, fuel := num0, out0, done0, |w.counts|;
      while |pending| > 0
        invariant OnTheWay(w, done, waiting, target, pending, num, out, fuel)
        decreases fuel
      {
        pending, num, out, done, fuel := VisitTop(pending, num, out, t, w, done, waiting, target, fuel);
      }
      assert pending == [];
    }

    /** Take the top of the stack: a ghost is dropped, any other node is put out. */
    method VisitTop(pending: seq<Key>, num: map<Key, nat>, out: seq<Key>, ghost t: Table, ghost w: Plan,
                    ghost done: set<Key>, ghost waiting: set<Key>, ghost target: (seq<Key>, map<Key, nat>),
                    ghost fuel: nat)
        returns (pending': seq<Key>, num': map<Key, nat>, out': seq<Key>, ghost done': set<Key>, ghost fuel': nat)
      requires Keyed() && t == Contents() && Describes(w, t)
      requires OnTheWay(w, done, waiting, target, pending, num, out, fuel) && |pending| > 0
      ensures fuel > 0 && fuel' == fuel - 1
      ensures OnTheWay(w, done', waiting, target, pending', num', out', fuel')
    {
      fuel', done' := if fuel > 0 then fuel - 1 else 0, done + {pending[|pending| - 1]};
      assert Running(w, done, waiting, target, pending, num, out, fuel);
      RunPop(w, done, waiting, target, pending, num, out, fuel);
      var key, rest := pending[|pending| - 1], pending[..|pending| - 1];
      assert DescribesAt(w, t, key) && t[key] == nodes[key].Value();
      if nodes[key].parentKeys.None? {
        RunGhost(w, done, waiting, target, pending, num, out, fuel);
        pending', num', out' := rest, num, out;
      } else {
        pending', num' := CountChild(key, rest, num, t, w, done, waiting);
        RunExpand(w, done, waiting, target, pending, num, out, fuel, pending', num');
        out' := out + [key];
      }
    }

    /** One more seen child for every parent of `key`. */
    method CountChild(key: Key, pending: seq<Key>, num: map<Key, nat>,
                      ghost t: Table, ghost w: Plan, ghost done: set<Key>, ghost waiting: set<Key>)
        returns (pending': seq<Key>, num': map<Key, nat>)
      requires Keyed() && t == Contents() && Describes(w, t)
      requires key in nodes && nodes[key].parentKeys.Some?
      requires AtEdge(w.net, done, key, 0, pending, waiting, num)
      ensures AtRest(w.net, done + {key}, pending', waiting, num')
      ensures Expanded(w, w.net.outs[key], pending, num, pending', num')
    {
      pending', num' := pending, num;
      var parents := Descending(nodes[key].parentKeys.value);
      assert DescribesAt(w, t, key) && t[key] == nodes[key].Value();
      ExpandStart(w, done, waiting, key, pending, num);
      for i := 0 to |parents|
        invariant Expanding(w, done, waiting, key, i, pending, num, pending', num')
      {
        assert SizedAt(w, parents[i]) && DescribesAt(w, t, parents[i]);
        ExpandStep(w, done, waiting, key, i, pending, num, pending', num');
        assert t[parents[i]] == nodes[parents[i]].Value();
        pending', num' := CountSeen(parents[i], |nodes[parents[i]].childKeys|, pending', num');
      }
      ExpandFinish(w, done, waiting, key, pending, num, pending', num');
    }
  }

  lemma AddTip(tips: set<Key>, prefixTips: map<string, seq<Key>>, k: Key)
    requires ByPrefix(tips, prefixTips) && k !in tips
    ensures var list := if Prefix(k) in prefixTips then prefixTips[Prefix(k)] else [];
            ByPrefix(tips + {k}, prefixTips[Prefix(k) := list + [k]])
  {
    var list := if Prefix(k) in prefixTips then prefixTips[Prefix(k)] else [];
    assert SetOf(list) == Group(tips, Prefix(k));
    PushLast(list, k);
    forall p | p in prefixTips && p != Prefix(k) ensures Group(tips + {k}, p) == Group(tips, p) {}
    assert Group(tips + {k}, Prefix(k)) == Group(tips, Prefix(k)) + {k};
  }

  /** A key without a distance that the search has to compare. */
  ghost predicate Incomparable(t: Table, cands: set<Key>, error: GraphError) {
    && error.NoDistance? && error.key in t && error.key !in Labels(t)
    && (error.key in cands || Reached(Edges(t), Labels(t), cands, error.key))
  }

  /** What the search for heads answers on any graph. */
  ghost predicate HeadsFrom(t: Table, cands: set<Key>, r: Result<set<Key>, GraphError>) {
    match r
    case Success(heads) =>
      && heads == Unreached(Edges(t), Labels(t), cands) && cands * Labels(t).Keys != {}
      && forall x {:trigger Reached(Edges(t), Labels(t), cands, x)} | Reached(Edges(t), Labels(t), cands, x) :: x in Labels(t)
    case Failure(error) => Incomparable(t, cands, error)
  }

  /** The least of the distances that these keys have. */
  ghost predicate IsLeast(g: map<Key, nat>, ks: set<Key>, least: Option<nat>) {
    && (least.None? ==> forall k | k in ks :: k !in g)
    && (least.Some? ==> (exists k :: k in ks && k in g && g[k] == least.value) &&
                        forall k | k in ks && k in g :: least.value <= g[k])
  }

  lemma LeastNext(g: map<Key, nat>, ks: set<Key>, least: Option<nat>, key: Key, gdfo: Option<nat>)
    requires IsLeast(g, ks, least) && gdfo == (if key in g then Some(g[key]) else None) && (least.None? || gdfo.Some?)
    ensures IsLeast(g, ks + {key}, if least.None? || gdfo.value < least.value then gdfo else least)
  {
    if least.Some? {
      var k :| k in ks && k in g && g[k] == least.value;
      assert k in ks + {key} && key in ks + {key};
    }
  }

  lemma SearchEnds(t: Table, cands: set<Key>, least: nat, seen: set<Key>)
    requires Searching(Edges(t), Labels(t), cands, seen, []) && IsLeast(Labels(t), cands, Some(least))
    ensures HeadsFrom(t, cands, Success(cands - seen))
  {
    SearchDone(Edges(t), Labels(t), cands, seen);
    var k :| k in cands && k in Labels(t);
    assert k in cands * Labels(t).Keys;
  }

  lemma ReachedInTable(t: Table, cands: set<Key>, x: Key)
    requires Linked(t) && Reached(Edges(t), Labels(t), cands, x)
    ensures x in t
  {
    var n: nat :| ReachedIn(Edges(t), Labels(t), cands, x, n);
    var d :| x in Parents(Edges(t), d) && LeadsOn(Edges(t), Labels(t), cands, d, n - 1);
    assert x in Pars(t, d);
  }

  lemma HasParents(t: Table, cands: set<Key>, key: Key)
    requires GdfoFound(t) && key in cands && key in t && key !in Labels(t)
    ensures ParentsOfAll(Edges(t), cands) != {}
  {
    assert FoundAt(t, key);
    var p := Parents(Edges(t), key)[0];
    assert p in Parents(Edges(t), key) && p in ParentsOfAll(Edges(t), cands);
  }

  lemma TableIsMeasured(t: Table)
    requires Linked(t) && GdfoFound(t)
    ensures Measured(Edges(t), Labels(t))
  {
    var e := Edges(t);
    forall k | k in e && Grounded(e, k) ensures k in Labels(t) && Labels(t)[k] == Gdfo(e, k) {
      assert FoundAt(t, k);
    }
    forall k, p | p in Parents(e, k) ensures p in e {
      assert p in Pars(t, k);
    }
  }

  /** For keys that lead into no cycle it answers the heads. */
  lemma HeadsFromGrounded(t: Table, cands: set<Key>, r: Result<set<Key>, GraphError>)
    requires Linked(t) && GdfoFound(t) && cands <= t.Keys && cands != {}
    requires forall c | c in cands :: Grounded(Graph(t), c)
    ensures HeadsFrom(t, cands, r) <==> r == Success(HeadsOf(Graph(t), cands))
  {
    var e, g := Edges(t), Labels(t);
    GraphAndEdges(t);
    TableIsMeasured(t);
    UnreachedAreHeads(e, g, cands);
    assert HeadsOf(Graph(t), cands) == HeadsOf(e, cands);
    forall x | x in cands || Reached(e, g, cands, x) ensures x in g {
      if x !in cands {
        ReachedInTable(t, cands, x);
        var n: nat :| ReachedIn(e, g, cands, x, n);
        ReachedIsBelow(e, g, cands, x, n);
        var c :| c in cands && StrictAncestor(e, x, c);
        AncestorGdfo(e, x, c);
      }
    }
    var c :| c in cands;
    assert c in cands * g.Keys;
  }

  /** Heads in the cache stay right when a key that nobody mentioned is added. */
  lemma KeptHeads(t0: Table, t: Table, key: Key, ps: seq<Key>, known: map<set<Key>, set<Key>>)
    requires Linked(t0) && GdfoFound(t0) && Acyclic(Graph(t0)) && Linked(t) && GdfoFound(t) && Acyclic(Graph(t))
    requires Graph(t) == Graph(t0)[key := ps] && t0.Keys <= t.Keys && (key in t0 ==> known == map[])
    requires forall s | s in known :: s <= t0.Keys && HeadsFrom(t0, s, Success(known[s]))
    ensures forall s | s in known :: HeadsFrom(t, s, Success(known[s]))
  {
    AcyclicIffGrounded(Graph(t0));
    AcyclicIffGrounded(Graph(t));
    forall s | s in known ensures HeadsFrom(t, s, Success(known[s])) {
      GrowHeads(t0, t, key, ps, s);
      HeadsFromGrounded(t0, s, Success(known[s]));
      HeadsFromGrounded(t, s, Success(known[s]));
    }
  }

  lemma FewHeads(pm: ParentMap, s: set<Key>)
    requires |s| < 2
    ensures HeadsOf(pm, s) == s
  {
    forall k, d | k in s && d in s ensures k == d {
      if k != d {
        SubsetSize({k, d}, s);
      }
    }
  }

  /**
   Distances depend on the graph alone: it does not matter which keys were given at once,
   which were added one by one, and in what order ghosts were filled in.
   */
  lemma GdfoDependsOnGraph(t: Table, t': Table)
    requires Linked(t) && GdfoFound(t) && Linked(t') && GdfoFound(t')
    requires Graph(t) == Graph(t') && Acyclic(Graph(t))
    ensures t.Keys == t'.Keys
    ensures forall k | k in t :: Grounded(Graph(t), k) && t[k].gdfo == t'[k].gdfo == Some(Gdfo(Graph(t), k))
  {
    SameKeys(t, t');
    SameKeys(t', t);
    forall k | k in t ensures Grounded(Graph(t), k) && t[k].gdfo == t'[k].gdfo == Some(Gdfo(Graph(t), k)) {
      GdfoIsExact(t, k);
      GdfoIsExact(t', k);
    }
  }

  lemma GdfoIsExact(t: Table, k: Key)
    requires Linked(t) && GdfoFound(t) && Acyclic(Graph(t)) && k in t
    ensures Grounded(Graph(t), k) && t[k].gdfo == Some(Gdfo(Graph(t), k))
  {
    FoundIsExact(t);
    assert ExactAt(t, k);
    GraphAndEdges(t);
  }
}

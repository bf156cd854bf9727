/**
 How the contents of a known graph evolve while it is built from a parent map and while
 single nodes are added to it.
 */
module Growth {
  import opened Wrappers
  import opened Keys
  import opened Dag
  import opened Frontier
  import opened NodeTable
  import opened GdfoWalk
  import opened Propagation

  /** A parent map given by the sequence of its items, in insertion order. */
  type Items = seq<(Key, seq<Key>)>

  ghost predicate DistinctKeys(items: Items) {
    forall i, j | 0 <= i < j < |items| :: items[i].0 != items[j].0
  }

  ghost function MapOf(items: Items): ParentMap {
    if |items| == 0 then map[]
    else var last := |items| - 1; MapOf(items[..last])[items[last].0 := items[last].1]
  }

  /** The same links with other distances. */
  ghost function Relabel(t: Table, g: map<Key, nat>): Table {
    map k | k in t :: t[k].(gdfo := if k in g then Some(g[k]) else None)
  }

  lemma SameLinks(t: Table, t': Table)
    requires t'.Keys == t.Keys
    requires forall k | k in t :: t'[k].parents == t[k].parents && t'[k].children == t[k].children
    ensures Down(t') == Down(t) && Graph(t') == Graph(t)
  {
  }

  lemma SameLinksLinked(t: Table, t': Table)
    requires t'.Keys == t.Keys
    requires forall k | k in t :: t'[k].parents == t[k].parents && t'[k].children == t[k].children
    requires Linked(t)
    ensures Linked(t')
  {
    forall u, v ensures Mirrored(t', u, v) {
      assert Mirrored(t, u, v);
    }
    forall k, p | p in Pars(t', k) ensures p in t' {
      assert p in Pars(t, k);
    }
  }

  lemma RelabelKeepsLinks(t: Table, g: map<Key, nat>)
    ensures Down(Relabel(t, g)) == Down(t) && Graph(Relabel(t, g)) == Graph(t)
    ensures Linked(t) ==> Linked(Relabel(t, g))
    ensures g.Keys <= t.Keys ==> Labels(Relabel(t, g)) == g
  {
    SameLinks(t, Relabel(t, g));
    if Linked(t) {
      SameLinksLinked(t, Relabel(t, g));
    }
    LabelsOfRelabel(t, g);
  }

  lemma LabelsOfRelabel(t: Table, g: map<Key, nat>)
    ensures g.Keys <= t.Keys ==> Labels(Relabel(t, g)) == g
    ensures Relabel(t, Labels(t)) == t
  {
  }

  /** `c` labelled at least one more than `key`. */
  ghost function Bumped(t: Table, key: Key, c: Key): Table
    requires key in t && t[key].gdfo.Some? && c in t
  {
    var v := t[key].gdfo.value + 1;
    if t[c].gdfo.None? || v > t[c].gdfo.value then t[c := t[c].(gdfo := Some(v))] else t
  }

  lemma BumpedIsRaised(t: Table, g: map<Key, nat>, key: Key, c: Key)
    requires key in t && key in g && c in t
    ensures Relabel(t, g)[key].gdfo == Some(g[key])
    ensures Bumped(Relabel(t, g), key, c) == Relabel(t, Raised(g, key, c))
  {
  }

  lemma RelabelUpdate(t: Table, g: map<Key, nat>, k: Key, v: nat)
    requires k in t
    ensures Relabel(t, g)[k := t[k].(gdfo := Some(v))] == Relabel(t, g[k := v])
  {
  }

  /** A linked table for `pm` whose distances are still to be found. */
  ghost predicate Built(t: Table, pm: ParentMap) {
    Linked(t) && Graph(t) == pm && forall k | k in t :: t[k].gdfo.None?
  }

  /** The same while only `j` parents of `key` have been linked. */
  ghost predicate Building(t: Table, key: Key, ps: seq<Key>, j: nat, pm: ParentMap) {
    && key in t && t[key].parents == Some(ps) && j <= |ps|
    && Linked(Cut(t, key, j)) && Graph(t) == pm
    && forall k | k in t :: t[k].gdfo.None?
  }

  lemma BuildItem(t: Table, items: Items, n: nat)
    requires DistinctKeys(items) && n < |items| && Built(t, MapOf(items[..n]))
    ensures var (key, ps) := items[n];
            Building(WithParents(t, key, ps), key, ps, 0, MapOf(items[..n + 1]))
  {
    var (key, ps) := items[n];
    assert items[..n + 1][..n] == items[..n];
    NotYet(items, n);
    LinkStart(t, key, ps);
  }

  lemma BuildStep(t: Table, key: Key, ps: seq<Key>, j: nat, pm: ParentMap)
    requires Building(t, key, ps, j, pm) && j < |ps|
    ensures Building(AddChild(t, ps[j], key, None), key, ps, j + 1, pm)
  {
    LinkStep(t, key, j, None);
  }

  lemma BuildFinish(t: Table, key: Key, ps: seq<Key>, pm: ParentMap)
    requires Building(t, key, ps, |ps|, pm)
    ensures Built(t, pm)
  {
    CutAll(t, key);
  }

  lemma CutAll(t: Table, key: Key)
    requires key in t && t[key].parents.Some?
    ensures Cut(t, key, |t[key].parents.value|) == t
  {
    var ps := t[key].parents.value;
    assert ps[..|ps|] == ps;
  }

  lemma {:induction false} MapOfKeys(items: Items, k: Key)
    ensures k in MapOf(items) <==> exists i :: 0 <= i < |items| && items[i].0 == k
  {
    if |items| > 0 {
      MapOfKeys(items[..|items| - 1], k);
    }
  }

  lemma NotYet(items: Items, n: nat)
    requires DistinctKeys(items) && n < |items|
    ensures items[n].0 !in MapOf(items[..n])
  {
    MapOfKeys(items[..n], items[n].0);
  }

  // ---------------------------------------------------------------------------------
  // Adding one node to a finished graph

  /** `m` is the greatest distance among the parents `ps`, 0 without parents. */
  ghost predicate Greatest(g: map<Key, nat>, ps: seq<Key>, m: nat) {
    && (forall p | p in ps :: p in g && g[p] <= m)
    && (m == 0 || exists p :: p in ps && p in g && g[p] == m)
  }

  /** Distances of all keys but `key` as in `before`, and 1 for ghosts it did not have. */
  ghost predicate KeptAt(before: map<Key, nat>, g: map<Key, nat>, k: Key) {
    k in g && g[k] == if k in before then before[k] else 1
  }

  ghost predicate Kept(before: map<Key, nat>, g: map<Key, nat>, keys: set<Key>, key: Key) {
    forall k {:trigger KeptAt(before, g, k)} | k in keys && k != key :: KeptAt(before, g, k)
  }

  /** `t0` with `key` given the parents `ps`, of which `j` have been linked so far. */
  ghost predicate Growing(t0: Table, t: Table, key: Key, ps: seq<Key>, j: nat, parentGdfo: nat) {
    && key in t && t[key].parents == Some(ps) && j <= |ps|
    && Linked(Cut(t, key, j))
    && Graph(t) == Graph(t0)[key := ps]
    && t0.Keys <= t.Keys
    && Kept(Labels(t0), Labels(t), t.Keys, key) && (key in t0 ==> key in Labels(t))
    && Greatest(Labels(t), ps[..j], parentGdfo)
  }

  /** Every key is labelled with its greatest distance from the origin. */
  ghost predicate Exact(t: Table) {
    && Linked(t) && Acyclic(Edges(t))
    && forall k {:trigger ExactAt(t, k)} :: ExactAt(t, k)
  }

  ghost predicate ExactAt(t: Table, k: Key) {
    k in t ==> Grounded(Edges(t), k) && t[k].gdfo == Some(Gdfo(Edges(t), k))
  }

  lemma FoundIsExact(t: Table)
    requires Linked(t) && GdfoFound(t) && Acyclic(Graph(t))
    ensures Exact(t) && Labels(t).Keys == t.Keys
  {
    assert Acyclic(Graph(t)) <==> Acyclic(Edges(t)) by { GraphAndEdges(t); }
    AcyclicIffGrounded(Edges(t));
    forall k ensures ExactAt(t, k) {
      assert FoundAt(t, k);
    }
    forall k | k in t ensures t[k].gdfo.Some? {
      assert ExactAt(t, k);
    }
  }

  lemma GrowStart(t: Table, key: Key, ps: seq<Key>)
    requires Linked(t) && (key in t ==> t[key].parents.None?)
    requires Labels(t).Keys == t.Keys
    ensures Growing(t, WithParents(t, key, ps), key, ps, 0, 0)
  {
    LinkStart(t, key, ps);
  }

  function Max(a: nat, b: nat): nat {
    if a < b then b else a
  }

  lemma GreatestStep(g: map<Key, nat>, g': map<Key, nat>, ps: seq<Key>, j: nat, m: nat)
    requires j < |ps| && Greatest(g, ps[..j], m)
    requires forall k | k in g :: k in g' && g'[k] == g[k]
    requires ps[j] in g'
    ensures Greatest(g', ps[..j + 1], Max(m, g'[ps[j]]))
  {
    assert ps[..j + 1] == ps[..j] + [ps[j]];
    var m' := Max(m, g'[ps[j]]);
    if m' == m && m > 0 {
      var p :| p in ps[..j] && p in g && g[p] == m;
      assert p in ps[..j + 1] && g'[p] == m';
    } else if m' > 0 {
      assert ps[j] in ps[..j + 1];
    }
  }

  lemma ChildKeepsLabels(t: Table, p: Key, key: Key)
    requires p !in t || p in Labels(t)
    ensures Labels(AddChild(t, p, key, Some(1))) == if p in t then Labels(t) else Labels(t)[p := 1]
  {
    var t' := AddChild(t, p, key, Some(1));
    assert forall k | k in t :: t'[k].gdfo == t[k].gdfo;
  }

  lemma GrowStep(t0: Table, t: Table, key: Key, ps: seq<Key>, j: nat, parentGdfo: nat)
    requires Growing(t0, t, key, ps, j, parentGdfo) && j < |ps| && (ps[j] == key ==> key in t0)
    requires Labels(t0).Keys == t0.Keys
    ensures var t' := AddChild(t, ps[j], key, Some(1));
            && ps[j] in t' && t'[ps[j]].gdfo.Some?
            && Growing(t0, t', key, ps, j + 1, Max(parentGdfo, t'[ps[j]].gdfo.value))
  {
    LinkStep(t, key, j, Some(1));
    var t' := AddChild(t, ps[j], key, Some(1));
    assert ps[j] in t && ps[j] != key ==> KeptAt(Labels(t0), Labels(t), ps[j]);
    ChildKeepsLabels(t, ps[j], key);
    ChildIsLabelled(t, ps[j], key);
    GreatestStep(Labels(t), Labels(t'), ps, j, parentGdfo);
    KeptStep(Labels(t0), Labels(t), Labels(t'), t.Keys, key, ps[j]);
    ChildKeepsGraph(t, ps[j], key);
  }

  lemma ChildIsLabelled(t: Table, p: Key, key: Key)
    requires p !in t || p in Labels(t)
    ensures var t' := AddChild(t, p, key, Some(1));
            && t'.Keys == t.Keys + {p} && t'[p].gdfo.Some? && p in Labels(t') && Labels(t')[p] == t'[p].gdfo.value
  {
  }

  lemma ChildKeepsGraph(t: Table, p: Key, key: Key)
    ensures Graph(AddChild(t, p, key, Some(1))) == Graph(t)
  {
  }

  lemma KeptStep(before: map<Key, nat>, g: map<Key, nat>, g': map<Key, nat>, keys: set<Key>, key: Key, p: Key)
    requires Kept(before, g, keys, key) && before.Keys <= keys
    requires g' == if p in keys then g else g[p := 1]
    ensures Kept(before, g', keys + {p}, key)
  {
    forall k | k in keys + {p} && k != key ensures KeptAt(before, g', k) {
      if k in keys {
        assert KeptAt(before, g, k);
      }
    }
  }

  lemma {:induction false} HasPathMonotone(pm: ParentMap, pm': ParentMap, k: Key, n: nat)
    requires forall k, p :: p in Parents(pm, k) ==> p in Parents(pm', k)
    requires HasPath(pm, k, n)
    ensures HasPath(pm', k, n)
  {
    var a := PathGivesSteps(pm, k, n);
    StepsMonotone(pm, pm', k, a, n);
    StepsGivePath(pm', k, a, n, 0);
  }

  /** No parent but `key` itself is farther than `m` from the origin. */
  ghost predicate Above(g: map<Key, nat>, ps: seq<Key>, key: Key, m: nat) {
    forall p {:trigger p in ps} | p in ps && p != key :: p in g && g[p] <= m
  }

  /**
   Labels that were exact before `key` got its parents rise along all edges but those out of
   `key`, once `key` itself is labelled from its parents, whether they close a cycle or not.
   */
  lemma GrowPropagates(net: Net, e0: ParentMap, g0: map<Key, nat>, g: map<Key, nat>, key: Key, m: nat)
    requires Dual(net) && g.Keys == net.ins.Keys && key in net.ins
    requires Extends(e0, net.ins, key)
    requires forall k | k in e0 :: k in g0 && Grounded(e0, k) && g0[k] == Gdfo(e0, k)
    requires g0.Keys == e0.Keys && Kept(g0, g, net.ins.Keys, key)
    requires g[key] == m + 1 && Above(g, net.ins[key], key, m)
    ensures Propagating(net, g, [key], None, 0)
  {
    GrowSettles(net, e0, g0, g, key, m);
  }

  lemma GrowAttests(net: Net, e0: ParentMap, g0: map<Key, nat>, g: map<Key, nat>, key: Key, m: nat)
    requires Dual(net) && Acyclic(net.ins) && g.Keys == net.ins.Keys && key in net.ins
    requires Extends(e0, net.ins, key)
    requires forall k | k in e0 :: k in g0 && Grounded(e0, k) && g0[k] == Gdfo(e0, k)
    requires g0.Keys == e0.Keys && Kept(g0, g, net.ins.Keys, key)
    requires g[key] == m + 1 && Greatest(g, net.ins[key], m)
    ensures forall k {:trigger AttestedAt(net.ins, g, k)} :: AttestedAt(net.ins, g, k)
  {
    OthersAttested(net, e0, g0, g, key);
    AllAttested(net, g, key, m);
  }

  lemma AllAttested(net: Net, g: map<Key, nat>, key: Key, m: nat)
    requires Dual(net) && Acyclic(net.ins) && g.Keys == net.ins.Keys && key in net.ins
    requires forall k {:trigger OtherAttested(net, g, k)} | k in net.ins && k != key :: OtherAttested(net, g, k)
    requires g[key] == m + 1 && Greatest(g, net.ins[key], m)
    ensures forall k {:trigger AttestedAt(net.ins, g, k)} :: AttestedAt(net.ins, g, k)
  {
    if key in net.ins[key] {
      ParentIsAncestor(net.ins, key, key);
    }
    forall p | p in net.ins[key] ensures p in g && g[p] > 0 && HasPath(net.ins, p, g[p] - 1) {
      assert OtherAttested(net, g, p);
    }
    GrowAttestedKey(net, g, key, m);
    forall k ensures AttestedAt(net.ins, g, k) {
      assert k in net.ins && k != key ==> OtherAttested(net, g, k);
    }
  }

  ghost predicate OtherAttested(net: Net, g: map<Key, nat>, k: Key) {
    k in g && g[k] > 0 && HasPath(net.ins, k, g[k] - 1)
  }

  lemma OthersAttested(net: Net, e0: ParentMap, g0: map<Key, nat>, g: map<Key, nat>, key: Key)
    requires Dual(net) && g.Keys == net.ins.Keys && Extends(e0, net.ins, key)
    requires forall k | k in e0 :: k in g0 && Grounded(e0, k) && g0[k] == Gdfo(e0, k)
    requires g0.Keys == e0.Keys && Kept(g0, g, net.ins.Keys, key)
    ensures forall k {:trigger OtherAttested(net, g, k)} | k in net.ins && k != key :: OtherAttested(net, g, k)
  {
    forall k | k in net.ins && k != key ensures OtherAttested(net, g, k) {
      GrowAttested(e0, net.ins, g0, g, key, k);
    }
  }

  lemma GrowSettles(net: Net, e0: ParentMap, g0: map<Key, nat>, g: map<Key, nat>, key: Key, m: nat)
    requires Dual(net) && g.Keys == net.ins.Keys && key in net.ins
    requires Extends(e0, net.ins, key)
    requires forall k | k in e0 :: k in g0 && Grounded(e0, k) && g0[k] == Gdfo(e0, k)
    requires g0.Keys == e0.Keys && Kept(g0, g, net.ins.Keys, key)
    requires g[key] == m + 1 && Above(g, net.ins[key], key, m)
    ensures forall v, p {:trigger Settled(net, g, [key], None, 0, v, p)} :: Settled(net, g, [key], None, 0, v, p)
  {
    forall v, p ensures Settled(net, g, [key], None, 0, v, p) {
      if v in net.ins && p in net.ins[v] && p != key {
        GrowRises(net, e0, g0, g, key, m, v, p);
      }
    }
  }

  lemma GrowAttestedKey(net: Net, g: map<Key, nat>, key: Key, m: nat)
    requires key in net.ins && Greatest(g, net.ins[key], m)
    requires forall p {:trigger OtherAttested(net, g, p)} | p in net.ins[key] :: OtherAttested(net, g, p)
    ensures HasPath(net.ins, key, m)
  {
    if m > 0 {
      var p :| p in net.ins[key] && p in g && g[p] == m;
      assert OtherAttested(net, g, p);
      assert p in Parents(net.ins, key);
    }
  }

  lemma GrowRises(net: Net, e0: ParentMap, g0: map<Key, nat>, g: map<Key, nat>, key: Key, m: nat, v: Key, p: Key)
    requires Dual(net) && g.Keys == net.ins.Keys && key in net.ins
    requires Extends(e0, net.ins, key)
    requires forall k | k in e0 :: k in g0 && Grounded(e0, k) && g0[k] == Gdfo(e0, k)
    requires g0.Keys == e0.Keys && Kept(g0, g, net.ins.Keys, key)
    requires g[key] == m + 1 && Above(g, net.ins[key], key, m)
    requires v in net.ins && p in net.ins[v] && p != key
    ensures Rises(g, p, v)
  {
    assert p in net.ins && (p in g && v in g);
    if v != key {
      assert KeptAt(g0, g, v) && KeptAt(g0, g, p);
      assert v in e0 && p in Parents(e0, v);
      GroundedParent(e0, v, p);
    }
  }

  lemma GrowAttested(e0: ParentMap, e1: ParentMap, g0: map<Key, nat>, g: map<Key, nat>, key: Key, k: Key)
    requires Extends(e0, e1, key) && k in e1 && k != key
    requires k in e0 ==> k in g0 && Grounded(e0, k) && g0[k] == Gdfo(e0, k)
    requires g0.Keys == e0.Keys && Kept(g0, g, e1.Keys, key)
    ensures k in g && g[k] > 0 && HasPath(e1, k, g[k] - 1)
  {
    assert KeptAt(g0, g, k);
    if k in e0 {
      GdfoIsLongestPath(e0, k, g[k] - 1);
      HasPathMonotone(e0, e1, k, g[k] - 1);
    }
  }

  /** `e1` is `e0` with edges out of `key` alone added, and possibly new nodes without edges. */
  ghost predicate Extends(e0: ParentMap, e1: ParentMap, key: Key) {
    && e0.Keys <= e1.Keys
    && (key in e0 ==> e0[key] == [])
    && (forall k | k in e1 && k != key :: e1[k] == if k in e0 then e0[k] else [])
    && (forall k, p | k in e0 && p in e0[k] :: p in e0)
  }

  // ---------------------------------------------------------------------------------
  // From the first loop to the second

  /** The table after some parents have been linked, and the greatest of their distances. */
  datatype Linking = Linking(t: Table, greatest: nat)

  /** `key` linked to its first `j` parents; parents that are not known become ghosts. */
  ghost function LinkedTo(t: Table, key: Key, ps: seq<Key>, j: nat): Linking
    requires j <= |ps|
  {
    if j == 0 then Linking(t, 0)
    else
      var before := LinkedTo(t, key, ps, j - 1);
      var t' := AddChild(before.t, ps[j - 1], key, Some(1));
      var gdfo := t'[ps[j - 1]].gdfo;
      Linking(t', if gdfo.Some? then Max(before.greatest, gdfo.value) else before.greatest)
  }

  /** The first `j` parents have been linked. */
  ghost predicate IsLinking(t0: Table, key: Key, ps: seq<Key>, j: nat, linked: Linking) {
    forall i: nat {:trigger LinkedTo(WithParents(t0, key, ps), key, ps, i)} | i == j <= |ps| ::
      linked == LinkedTo(WithParents(t0, key, ps), key, ps, i)
  }

  lemma LinkingStarts(t0: Table, key: Key, ps: seq<Key>)
    ensures IsLinking(t0, key, ps, 0, Linking(WithParents(t0, key, ps), 0))
  {
  }

  lemma LinkingNext(t0: Table, key: Key, ps: seq<Key>, j: nat, linked: Linking, linked': Linking)
    requires IsLinking(t0, key, ps, j, linked) && j < |ps| && linked'.t == AddChild(linked.t, ps[j], key, Some(1))
    requires linked'.t[ps[j]].gdfo.Some? && linked'.greatest == Max(linked.greatest, linked'.t[ps[j]].gdfo.value)
    ensures IsLinking(t0, key, ps, j + 1, linked')
  {
    assert linked == LinkedTo(WithParents(t0, key, ps), key, ps, j);
  }

  /** All parents linked and the distance of `key` set: what is left is to pass it on. */
  ghost function Begun(t0: Table, key: Key, ps: seq<Key>): Table {
    var linked := LinkedTo(WithParents(t0, key, ps), key, ps, |ps|);
    if key in linked.t then linked.t[key := linked.t[key].(gdfo := Some(linked.greatest + 1))] else linked.t
  }

  /** The parents are compared while `key` is linked, which a new key that is its own parent does not survive. */
  ghost predicate Comparable(t0: Table, key: Key, ps: seq<Key>) {
    key in ps ==> key in t0
  }

  lemma {:induction false} LinkedIsGrowing(t0: Table, key: Key, ps: seq<Key>, j: nat)
    requires Linked(t0) && (key in t0 ==> t0[key].parents.None?) && Labels(t0).Keys == t0.Keys
    requires j <= |ps| && (key in ps[..j] ==> key in t0)
    ensures var linked := LinkedTo(WithParents(t0, key, ps), key, ps, j);
            Growing(t0, linked.t, key, ps, j, linked.greatest)
    decreases j
  {
    if j == 0 {
      GrowStart(t0, key, ps);
    } else {
      assert ps[..j] == ps[..j - 1] + [ps[j - 1]];
      LinkedIsGrowing(t0, key, ps, j - 1);
      var before := LinkedTo(WithParents(t0, key, ps), key, ps, j - 1);
      NextIsGrowing(t0, before, key, ps, j - 1, LinkedTo(WithParents(t0, key, ps), key, ps, j));
    }
  }

  lemma NextIsGrowing(t0: Table, before: Linking, key: Key, ps: seq<Key>, j: nat, after: Linking)
    requires Growing(t0, before.t, key, ps, j, before.greatest) && j < |ps| && (ps[j] == key ==> key in t0)
    requires Labels(t0).Keys == t0.Keys && after.t == AddChild(before.t, ps[j], key, Some(1))
    requires var gdfo := after.t[ps[j]].gdfo;
             after.greatest == if gdfo.Some? then Max(before.greatest, gdfo.value) else before.greatest
    ensures Growing(t0, after.t, key, ps, j + 1, after.greatest)
  {
    GrowStep(t0, before.t, key, ps, j, before.greatest);
  }

  /** How far linking comes when `key` is new and its own parent: to where it is listed first. */
  ghost predicate BrokenOff(t0: Table, t: Table, key: Key, ps: seq<Key>) {
    exists j: nat {:trigger ps[j]} ::
      j < |ps| && ps[j] == key && key !in ps[..j] && t == LinkedTo(WithParents(t0, key, ps), key, ps, j).t
  }

  lemma BreaksOff(t0: Table, key: Key, ps: seq<Key>, j: nat, linked: Linking)
    requires j < |ps| && ps[j] == key && key !in ps[..j] && IsLinking(t0, key, ps, j, linked)
    ensures BrokenOff(t0, linked.t, key, ps)
  {
    assert linked == LinkedTo(WithParents(t0, key, ps), key, ps, j);
  }

  lemma LinkingIsGrowing(t0: Table, key: Key, ps: seq<Key>, linked: Linking)
    requires Linked(t0) && (key in t0 ==> t0[key].parents.None?) && Labels(t0).Keys == t0.Keys && Comparable(t0, key, ps)
    requires IsLinking(t0, key, ps, |ps|, linked)
    ensures Growing(t0, linked.t, key, ps, |ps|, linked.greatest)
  {
    assert ps[..|ps|] == ps;
    assert linked == LinkedTo(WithParents(t0, key, ps), key, ps, |ps|);
    LinkedIsGrowing(t0, key, ps, |ps|);
  }

  lemma {:induction false} UnlabelledYet(t0: Table, key: Key, ps: seq<Key>, j: nat)
    requires key !in t0 && j <= |ps| && key !in ps[..j]
    ensures var t := LinkedTo(WithParents(t0, key, ps), key, ps, j).t; key in t && t[key].gdfo == None
    decreases j
  {
    if j > 0 {
      assert ps[..j] == ps[..j - 1] + [ps[j - 1]];
      UnlabelledYet(t0, key, ps, j - 1);
    }
  }

  /** The next parent has a distance, or is the new key itself. */
  lemma NextParent(t0: Table, key: Key, ps: seq<Key>, j: nat, linked: Linking)
    requires Linked(t0) && (key in t0 ==> t0[key].parents.None?) && Labels(t0).Keys == t0.Keys
    requires j < |ps| && (key in ps[..j] ==> key in t0) && IsLinking(t0, key, ps, j, linked)
    ensures var t := linked.t;
            key in t && (ps[j] in t ==> (t[ps[j]].gdfo.None? <==> ps[j] == key && key !in t0))
  {
    assert linked == LinkedTo(WithParents(t0, key, ps), key, ps, j);
    LinkedIsGrowing(t0, key, ps, j);
    if ps[j] == key && key !in t0 {
      UnlabelledYet(t0, key, ps, j);
    } else if ps[j] in linked.t && ps[j] != key {
      assert KeptAt(Labels(t0), Labels(linked.t), ps[j]);
    }
  }

  lemma GrowKeepsLinks(t: Table, key: Key, gdfo: Option<nat>)
    requires key in t && t[key].parents.Some? && Linked(Cut(t, key, |t[key].parents.value|))
    ensures var t' := t[key := t[key].(gdfo := gdfo)]; Linked(t') && Graph(t') == Graph(t)
  {
    CutAll(t, key);
    SameLinks(t, t[key := t[key].(gdfo := gdfo)]);
    SameLinksLinked(t, t[key := t[key].(gdfo := gdfo)]);
  }

  /** `t` has the new node, labelled from its parents, and all else as it was. */
  ghost predicate Labelled(t0: Table, t: Table, key: Key, ps: seq<Key>, m: nat) {
    && Labels(t).Keys == t.Keys && key in t && Labels(t)[key] == m + 1
    && Kept(Labels(t0), Labels(t), t.Keys, key) && Above(Labels(t), ps, key, m)
  }

  lemma BegunIsLabelled(t0: Table, key: Key, ps: seq<Key>) returns (m: nat)
    requires Exact(t0) && Labels(t0).Keys == t0.Keys && key !in Graph(t0) && Comparable(t0, key, ps)
    ensures var t := Begun(t0, key, ps);
            && Linked(t) && t0.Keys <= t.Keys && Graph(t) == Graph(t0)[key := ps]
            && Labelled(t0, t, key, ps, m) && (key !in ps ==> Greatest(Labels(t), ps, m))
  {
    assert ps[..|ps|] == ps;
    LinkedIsGrowing(t0, key, ps, |ps|);
    var linked := LinkedTo(WithParents(t0, key, ps), key, ps, |ps|);
    m := linked.greatest;
    assert Begun(t0, key, ps) == linked.t[key := linked.t[key].(gdfo := Some(m + 1))];
    GrowingIsLabelled(t0, linked.t, key, ps, m);
  }

  lemma GrowingIsLabelled(t0: Table, t: Table, key: Key, ps: seq<Key>, m: nat)
    requires Growing(t0, t, key, ps, |ps|, m)
    ensures var t' := t[key := t[key].(gdfo := Some(m + 1))];
            && Linked(t') && t0.Keys <= t'.Keys && Graph(t') == Graph(t0)[key := ps]
            && Labelled(t0, t', key, ps, m) && (key !in ps ==> Greatest(Labels(t'), ps, m))
  {
    GrowKeepsLinks(t, key, Some(m + 1));
    GrowLabelled(t0, t, key, ps, m);
    if key !in ps {
      GrowGreatest(t0, t, key, ps, m);
    }
  }

  /** What the second loop begins with, with cycles or without. */
  lemma LabelledPropagates(t0: Table, t: Table, key: Key, ps: seq<Key>, m: nat)
    requires Linked(t) && Graph(t) == Graph(t0)[key := ps] && t0.Keys <= t.Keys
    requires Exact(t0) && Labels(t0).Keys == t0.Keys && (key in t0 ==> t0[key].parents.None?)
    requires Labelled(t0, t, key, ps, m)
    ensures Propagating(Down(t), Labels(t), [key], None, 0)
  {
    GrowExtends(t0, t, key, ps);
    GrowPropagates(Down(t), Edges(t0), Labels(t0), Labels(t), key, m);
  }

  /** Without a cycle all labels are attested as well. */
  lemma LabelledAttests(t0: Table, t: Table, key: Key, ps: seq<Key>, m: nat)
    requires Linked(t) && Graph(t) == Graph(t0)[key := ps] && t0.Keys <= t.Keys && Acyclic(Graph(t))
    requires Exact(t0) && Labels(t0).Keys == t0.Keys && (key in t0 ==> t0[key].parents.None?)
    requires Labels(t).Keys == t.Keys && key in t && Labels(t)[key] == m + 1
    requires Kept(Labels(t0), Labels(t), t.Keys, key) && Greatest(Labels(t), ps, m)
    ensures Acyclic(Edges(t)) && Attested(Edges(t), Labels(t))
  {
    assert Acyclic(Graph(t)) <==> Acyclic(Edges(t)) by { GraphAndEdges(t); }
    GrowExtends(t0, t, key, ps);
    GrowAttests(Down(t), Edges(t0), Labels(t0), Labels(t), key, m);
  }

  /** A labelled node from which its distance can be passed on. */
  ghost predicate Ready(t: Table, key: Key) {
    && key in t && Linked(t) && Labels(t).Keys == t.Keys
    && Repairing(Down(t), Progress(Labels(t), [key])) && Ends(Down(t), Progress(Labels(t), [key]))
  }

  lemma IsReady(t: Table, key: Key)
    requires key in t && Linked(t) && Labels(t).Keys == t.Keys && Acyclic(Edges(t)) && Attested(Edges(t), Labels(t))
    requires Propagating(Down(t), Labels(t), [key], None, 0)
    ensures Ready(t, key)
  {
    EndsWithoutCycle(Down(t), Progress(Labels(t), [key]));
  }

  lemma LabelledIsReady(t0: Table, t: Table, key: Key, ps: seq<Key>, m: nat)
    requires Linked(t) && Graph(t) == Graph(t0)[key := ps] && t0.Keys <= t.Keys && Acyclic(Graph(t))
    requires Exact(t0) && Labels(t0).Keys == t0.Keys && (key in t0 ==> t0[key].parents.None?)
    requires Labelled(t0, t, key, ps, m) && Greatest(Labels(t), ps, m)
    ensures Ready(t, key)
  {
    LabelledPropagates(t0, t, key, ps, m);
    LabelledAttests(t0, t, key, ps, m);
    IsReady(t, key);
  }

  lemma GrowingIsReady(t0: Table, t: Table, key: Key, ps: seq<Key>, m: nat)
    requires Growing(t0, t, key, ps, |ps|, m) && Acyclic(Graph(t0)[key := ps])
    requires Exact(t0) && Labels(t0).Keys == t0.Keys && (key in t0 ==> t0[key].parents.None?)
    ensures Ready(t[key := t[key].(gdfo := Some(m + 1))], key)
    ensures Graph(t[key := t[key].(gdfo := Some(m + 1))]) == Graph(t0)[key := ps]
  {
    NoOwnParent(Graph(t0)[key := ps], key, ps);
    GrowingIsLabelled(t0, t, key, ps, m);
    LabelledIsReady(t0, t[key := t[key].(gdfo := Some(m + 1))], key, ps, m);
  }

  /**
   Adding a node to a graph without cycles: passing the distances on comes to an end exactly if
   there is no cycle afterwards.
   */
  lemma AddEndsIff(t0: Table, key: Key, ps: seq<Key>)
    requires Linked(t0) && GdfoFound(t0) && Acyclic(Graph(t0)) && key !in Graph(t0) && Comparable(t0, key, ps)
    ensures var t := Begun(t0, key, ps);
            Ends(Down(t), Progress(Labels(t), [key])) <==> Acyclic(Graph(t0)[key := ps])
  {
    FoundIsExact(t0);
    var t := Begun(t0, key, ps);
    var m := BegunIsLabelled(t0, key, ps);
    LabelledPropagates(t0, t, key, ps, m);
    assert Acyclic(Graph(t)) <==> Acyclic(Edges(t)) by { GraphAndEdges(t); }
    if Acyclic(Graph(t)) {
      NoOwnParent(Graph(t), key, ps);
      LabelledAttests(t0, t, key, ps, m);
    }
    EndsIff(Down(t), Progress(Labels(t), [key]));
  }

  /** Every node has a distance, and the queue holds nodes. */
  ghost predicate InTable(t: Table, s: Progress) {
    s.g.Keys == t.Keys && forall k {:trigger k in s.pending} | k in s.pending :: k in t
  }

  lemma TopInTable(t: Table, s: Progress)
    requires InTable(t, s) && Linked(t) && |s.pending| > 0
    ensures s.pending[0] in t && InTable(t, Progress(s.g, s.pending[1..]))
    ensures forall c | c in t[s.pending[0]].children :: c in t
  {
    assert s.pending == [s.pending[0]] + s.pending[1..];
    assert s.pending[0] in s.pending;
    forall k | k in s.pending[1..] ensures k in t {
      assert k in s.pending;
    }
    forall c | c in t[s.pending[0]].children ensures c in t {
      KidIffParent(t, s.pending[0], c);
    }
  }

  lemma PropagatedIsFound(t: Table, key: Key, n: nat)
    requires Linked(t) && Labels(t).Keys == t.Keys && Repairing(Down(t), Progress(Labels(t), [key]))
    requires EndedAfter(Down(t), Progress(Labels(t), [key]), n)
    ensures var t' := Relabel(t, Turns(Down(t), Progress(Labels(t), [key]), n).g);
            Linked(t') && GdfoFound(t') && Graph(t') == Graph(t)
  {
    var s := Turns(Down(t), Progress(Labels(t), [key]), n);
    TurnsRepair(Down(t), Progress(Labels(t), [key]), n);
    RelabelKeepsLinks(t, s.g);
    assert s == Progress(s.g, []);
    RepairDone(Relabel(t, s.g));
  }

  lemma NoOwnParent(pm: ParentMap, key: Key, ps: seq<Key>)
    requires Acyclic(pm) && key in pm && pm[key] == ps
    ensures key !in ps
  {
    if key in ps {
      ParentIsAncestor(pm, key, key);
    }
  }

  /** A ghost that is filled in with its own child as parent: the two go on raising each other. */
  lemma FilledGhostNeverEnds(a: Key, b: Key)
    requires a != b
    ensures var t0 := map[a := Node(Some([b]), [], Some(2)), b := Node(None, [a], Some(1))];
            var t := Begun(t0, b, [a]);
            && t == map[a := Node(Some([b]), [b], Some(2)), b := Node(Some([a]), [a], Some(3))]
            && !Ends(Down(t), Progress(Labels(t), [b]))
  {
    var t0 := map[a := Node(Some([b]), [], Some(2)), b := Node(None, [a], Some(1))];
    var t := map[a := Node(Some([b]), [b], Some(2)), b := Node(Some([a]), [a], Some(3))];
    var linked := LinkedTo(WithParents(t0, b, [a]), b, [a], 1);
    assert LinkedTo(WithParents(t0, b, [a]), b, [a], 0) == Linking(WithParents(t0, b, [a]), 0);
    assert [] + [b] == [b];
    assert AddChild(WithParents(t0, b, [a]), a, b, Some(1)) == t[b := t[b].(gdfo := Some(1))];
    assert linked == Linking(t[b := t[b].(gdfo := Some(1))], 2);
    assert Begun(t0, b, [a]) == t;
    PairIsCyclic(t, a, b);
    EndsIff(Down(t), Progress(Labels(t), [b]));
  }

  lemma PairIsCyclic(t: Table, a: Key, b: Key)
    requires a != b && t == map[a := Node(Some([b]), [b], Some(2)), b := Node(Some([a]), [a], Some(3))]
    ensures !Acyclic(Edges(t)) && Propagating(Down(t), Labels(t), [b], None, 0)
  {
    var net := Down(t);
    ParentIsAncestor(net.ins, a, b);
    ParentIsAncestor(net.ins, b, a);
    AncestorTransitive(net.ins, a, b, a);
    forall u, v ensures Balanced(net, u, v) {}
    forall v, p ensures Settled(net, Labels(t), [b], None, 0, v, p) {}
  }

  lemma GrowLabelled(t0: Table, t: Table, key: Key, ps: seq<Key>, m: nat)
    requires Growing(t0, t, key, ps, |ps|, m)
    ensures var t' := t[key := t[key].(gdfo := Some(m + 1))];
            && Labels(t').Keys == t'.Keys && Labels(t')[key] == m + 1
            && Kept(Labels(t0), Labels(t'), t'.Keys, key) && Above(Labels(t'), ps, key, m)
  {
    var t' := t[key := t[key].(gdfo := Some(m + 1))];
    assert ps[..|ps|] == ps;
    assert forall k | k in t && k != key :: KeptAt(Labels(t0), Labels(t), k);
    assert forall k | k in t && k != key :: k in Labels(t) && k in Labels(t') && Labels(t')[k] == Labels(t)[k];
  }

  lemma GrowGreatest(t0: Table, t: Table, key: Key, ps: seq<Key>, m: nat)
    requires Growing(t0, t, key, ps, |ps|, m) && key !in ps
    ensures Greatest(Labels(t[key := t[key].(gdfo := Some(m + 1))]), ps, m)
  {
    var t' := t[key := t[key].(gdfo := Some(m + 1))];
    assert ps[..|ps|] == ps;
    assert forall k | k in Labels(t) && k != key :: k in Labels(t') && Labels(t')[k] == Labels(t)[k];
  }

  lemma GrowExtends(t0: Table, t: Table, key: Key, ps: seq<Key>)
    requires Linked(t) && Graph(t) == Graph(t0)[key := ps] && t0.Keys <= t.Keys
    requires Exact(t0) && Labels(t0).Keys == t0.Keys && (key in t0 ==> t0[key].parents.None?)
    ensures Dual(Down(t)) && key in Edges(t) && Edges(t)[key] == ps
    ensures Extends(Edges(t0), Edges(t), key)
    ensures forall k | k in Edges(t0) ::
              k in Labels(t0) && Grounded(Edges(t0), k) && Labels(t0)[k] == Gdfo(Edges(t0), k)
  {
    LinkedIsDual(t);
    GrowEdges(t0, t, key, ps);
    forall k | k in Edges(t0)
      ensures k in Labels(t0) && Grounded(Edges(t0), k) && Labels(t0)[k] == Gdfo(Edges(t0), k)
    {
      assert ExactAt(t0, k);
    }
  }

  lemma GrowEdges(t0: Table, t: Table, key: Key, ps: seq<Key>)
    requires Linked(t0) && Graph(t) == Graph(t0)[key := ps] && t0.Keys <= t.Keys
    requires key in t0 ==> t0[key].parents.None?
    ensures key in Edges(t) && Edges(t)[key] == ps && Extends(Edges(t0), Edges(t), key)
  {
    forall k | k in t && k != key
      ensures ParentsOf(t[k]) == if k in t0 then ParentsOf(t0[k]) else []
    {
      assert k in Graph(t) <==> k in Graph(t0);
    }
    assert key in Graph(t) && Graph(t)[key] == ps;
    forall k, p | k in t0 && p in Edges(t0)[k] ensures p in t0 {
      assert p in Pars(t0, k);
    }
  }

  /** Heads already computed stay right when a key nobody mentioned is added. */
  lemma GrowHeads(t0: Table, t: Table, key: Key, ps: seq<Key>, s: set<Key>)
    requires Linked(t0) && key !in t0 && Graph(t) == Graph(t0)[key := ps]
    requires s <= t0.Keys
    ensures HeadsOf(Graph(t), s) == HeadsOf(Graph(t0), s)
  {
    forall k, p | k in t0.Keys && p in Parents(Graph(t0), k) ensures p in t0.Keys {
      assert p in Pars(t0, k);
    }
    HeadsLocal(Graph(t0), Graph(t), t0.Keys, s);
  }
}

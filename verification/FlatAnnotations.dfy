/** Choosing a single key for a line among the keys the line is attributed to. */
module FlatAnnotations {
  import opened Wrappers
  import opened Keys
  import opened Dag
  import opened Growth
  import opened KnownGraphs
  import opened Blame

  /** Decides between two keys for a line. */
  type Tiebreaker = (Key, Key, Line) -> Key

  ghost predicate FairTiebreaker(tiebreaker: Option<Tiebreaker>) {
    tiebreaker.Some? ==>
      forall a, b, line {:trigger tiebreaker.value(a, b, line)} :: tiebreaker.value(a, b, line) in {a, b}
  }

  /** `k` is a head of the keys; without a tie breaker, the least head. */
  ghost predicate ChosenHead(pm: ParentMap, keys: set<Key>, tiebreaker: Option<Tiebreaker>, k: Key) {
    && k in HeadsOf(pm, keys)
    && (tiebreaker.None? ==> forall o | o in HeadsOf(pm, keys) :: !KeyLess(o, k))
  }

  method ResolveAnnotationTie(heads: set<Key>, line: Line, tiebreaker: Option<Tiebreaker>) returns (head: Key)
    requires heads != {} && FairTiebreaker(tiebreaker)
    ensures head in heads && (tiebreaker.None? ==> forall o | o in heads :: !KeyLess(o, head))
  {
    var listed := ListOf(heads);
    MultisetMember(listed, SeqOf(heads));
    SetAsSequence(listed, heads);
    assert |listed| > 0 by {
      var k :| k in heads;
    }
    match tiebreaker
    case None =>
      var sorted := Sorted(KeyLess, listed);
      MultisetMember(sorted, listed);
      KeyOrder();
      SortedIsSorted(KeyLess, listed);
      head := sorted[0];
      forall o | o in heads ensures !KeyLess(o, head) {
        assert o in sorted;
        assert !KeyLess(head, head);
      }
    case Some(choose) =>
      head := listed[0];
      for j := 1 to |listed|
        invariant head in heads
      {
        head := choose(head, listed[j], line);
      }
  }

  method FlatKey(provider: KnownGraph, annotation: Annotation, line: Line, tiebreaker: Option<Tiebreaker>)
      returns (head: Key)
    requires provider.Valid() && Acyclic(provider.ParentMap()) && FairTiebreaker(tiebreaker)
    requires |annotation| > 0 && SetOf(annotation) <= provider.ParentMap().Keys && NULL_REVISION !in annotation
    modifies provider`knownHeads
    ensures provider.Valid() && provider.ParentMap() == old(provider.ParentMap())
    ensures ChosenHead(provider.ParentMap(), SetOf(annotation), tiebreaker, head)
  {
    ghost var pm, keys := provider.ParentMap(), SetOf(annotation);
    KeyOrder();
    if |annotation| == 1 {
      head := annotation[0];
      SingleHead(pm, keys, head);
    } else {
      var heads := HeadsFor(provider, annotation);
      head := ChooseHead(heads, line, tiebreaker);
    }
  }

  method ChooseHead(heads: set<Key>, line: Line, tiebreaker: Option<Tiebreaker>) returns (head: Key)
    requires heads != {} && FairTiebreaker(tiebreaker)
    ensures head in heads && (tiebreaker.None? ==> forall o | o in heads :: !KeyLess(o, head))
  {
    if |heads| == 1 {
      head := OnlyHead(heads);
    } else {
      head := ResolveAnnotationTie(heads, line, tiebreaker);
    }
  }

  method HeadsFor(provider: KnownGraph, annotation: Annotation) returns (heads: set<Key>)
    requires provider.Valid() && Acyclic(provider.ParentMap())
    requires |annotation| > 0 && SetOf(annotation) <= provider.ParentMap().Keys && NULL_REVISION !in annotation
    modifies provider`knownHeads
    ensures provider.Valid() && provider.ParentMap() == old(provider.ParentMap())
    ensures heads == HeadsOf(provider.ParentMap(), SetOf(annotation)) && heads != {}
  {
    ghost var pm, keys := provider.ParentMap(), SetOf(annotation);
    assert keys == (set k | k in annotation);
    heads := HeadsOfKeys(provider, set k | k in annotation);
    var dominating := HeadsDominate(pm, keys, annotation[0]);
  }

  method HeadsOfKeys(provider: KnownGraph, keys: set<Key>) returns (heads: set<Key>)
    requires provider.Valid() && Acyclic(provider.ParentMap())
    requires keys <= provider.ParentMap().Keys && NULL_REVISION !in keys
    modifies provider`knownHeads
    ensures provider.Valid() && provider.ParentMap() == old(provider.ParentMap())
    ensures heads == HeadsOf(provider.ParentMap(), keys)
  {
    ghost var pm := provider.ParentMap();
    PlainHeads(pm, keys);
    assert keys <= provider.nodes.Keys;
    var answer := provider.Heads(keys);
    assert provider.ParentMap() == pm;
    heads := answer.value;
  }

  lemma PlainHeads(pm: ParentMap, keys: set<Key>)
    requires Acyclic(pm) && NULL_REVISION !in keys
    ensures Heads(pm, keys) == HeadsOf(pm, keys) && forall k | k in keys :: Grounded(pm, k)
  {
    AcyclicIffGrounded(pm);
    assert keys - {NULL_REVISION} == keys;
  }

  method OnlyHead(heads: set<Key>) returns (head: Key)
    requires |heads| == 1
    ensures head in heads && forall o | o in heads :: !KeyLess(o, head)
  {
    KeyOrder();
    head :| head in heads;
    forall o | o in heads ensures o == head { SingletonMember(heads, o, head); }
  }

  /** The annotation names keys that the graph knows. */
  ghost predicate KnownLine(pm: ParentMap, annotation: Annotation) {
    |annotation| > 0 && SetOf(annotation) <= pm.Keys && NULL_REVISION !in annotation
  }

  ghost predicate FlatLine(pm: ParentMap, keys: set<Key>, line: Line, tiebreaker: Option<Tiebreaker>, flat: (Key, Line)) {
    flat.1 == line && ChosenHead(pm, keys, tiebreaker, flat.0)
  }

  method FlattenLines(provider: KnownGraph, annotations: seq<Annotation>, lines: Text, tiebreaker: Option<Tiebreaker>)
      returns (out: seq<(Key, Line)>)
    requires provider.Valid() && Acyclic(provider.ParentMap()) && FairTiebreaker(tiebreaker)
    requires |annotations| == |lines|
    requires forall i {:trigger annotations[i]} | 0 <= i < |lines| :: KnownLine(provider.ParentMap(), annotations[i])
    modifies provider`knownHeads
    ensures |out| == |lines|
    ensures forall i {:trigger out[i]} | 0 <= i < |lines| ::
              FlatLine(old(provider.ParentMap()), SetOf(annotations[i]), lines[i], tiebreaker, out[i])
  {
    ghost var pm := provider.ParentMap();
    out := [];
    for i := 0 to |lines|
      invariant provider.Valid() && provider.ParentMap() == pm && |out| == i
      invariant forall j {:trigger out[j]} | 0 <= j < i :: FlatLine(pm, SetOf(annotations[j]), lines[j], tiebreaker, out[j])
    {
      assert KnownLine(pm, annotations[i]);
      var head := FlatKey(provider, annotations[i], lines[i], tiebreaker);
      out := out + [(head, lines[i])];
    }
  }

  lemma SingletonMember<T>(s: set<T>, a: T, b: T)
    requires |s| == 1 && a in s && b in s
    ensures a == b
  {
    assert |s - {a}| == 0;
  }

  lemma SingleHead(pm: ParentMap, keys: set<Key>, k: Key)
    requires Acyclic(pm) && keys == {k}
    ensures HeadsOf(pm, keys) == {k}
  {
  }

  /** The items of a parent map, in some order. */
  method ItemsOf(pm: ParentMap) returns (items: Items)
    ensures DistinctKeys(items) && MapOf(items) == pm
  {
    items := [];
    var rest := pm.Keys;
    while rest != {}
      invariant rest <= pm.Keys && DistinctKeys(items) && MapOf(items) == map k | k in pm.Keys - rest :: pm[k]
      decreases rest
    {
      var k :| k in rest;
      MapOfKeys(items, k);
      var more := items + [(k, pm[k])];
      assert more[..|items|] == items;
      rest := rest - {k};
      items := more;
    }
  }
}

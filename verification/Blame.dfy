/**
 Where a line comes from: the attribution that annotating computes, defined without
 reference to how it is computed, and what it means for a key to be blamed for a line.
 */
module Blame {
  import opened Wrappers
  import opened Keys
  import opened Dag
  import opened Blocks

  type Line = string
  type Text = seq<Line>
  type Annotation = seq<Key>
  type Matcher = (Text, Text) -> seq<Block>

  /** The texts and parents that a versioned file holds; a key without a text is a ghost. */
  datatype History = History(texts: map<Key, Text>, parents: ParentMap)

  ghost predicate ValidMatcher(m: Matcher) {
    forall a, b :: ValidBlocks(m(a, b), a, b)
  }

  function TextOf(h: History, k: Key): Text {
    if k in h.texts then h.texts[k] else []
  }

  /** The line of `p` that line `i` of its child `k` is matched with. */
  function MatchLine(h: History, m: Matcher, p: Key, k: Key, i: nat): Option<nat> {
    MatchOf(m(TextOf(h, p), TextOf(h, k)), i)
  }

  lemma AllParentsGrounded(pm: ParentMap, k: Key)
    requires Grounded(pm, k)
    ensures forall p | p in Parents(pm, k) :: Grounded(pm, p) && Gdfo(pm, p) < Gdfo(pm, k)
  {
    forall p | p in Parents(pm, k) ensures Grounded(pm, p) && Gdfo(pm, p) < Gdfo(pm, k) {
      GroundedParent(pm, k, p);
    }
  }

  /** The origins of the line that `i` is matched with in any of the given parents. */
  ghost function Inherited(h: History, m: Matcher, k: Key, i: nat, ps: set<Key>): set<Key>
    requires Grounded(h.parents, k) && forall p | p in ps :: p in Parents(h.parents, k)
    decreases Gdfo(h.parents, k), 0
  {
    AllParentsGrounded(h.parents, k);
    set p, o | p in ps && MatchLine(h, m, p, k, i).Some? && o in Origins(h, m, p, MatchLine(h, m, p, k, i).value) :: o
  }

  /** The origins of line `i` of `k`: those of its matches in the parents, else `k` itself. */
  ghost function Origins(h: History, m: Matcher, k: Key, i: nat): set<Key>
    requires Grounded(h.parents, k)
    decreases Gdfo(h.parents, k), 1
  {
    var inherited := Inherited(h, m, k, i, SetOf(Parents(h.parents, k)));
    if inherited == {} then {k} else inherited
  }

  ghost function SortedSet(s: set<Key>): Annotation {
    Sorted(KeyLess, SeqOf(s))
  }

  /** The closed form of an annotation: for each line its origins, sorted, without repetition. */
  ghost function AnnotationOf(h: History, m: Matcher, k: Key): (r: seq<Annotation>)
    requires Grounded(h.parents, k)
  {
    seq(|TextOf(h, k)|, i requires 0 <= i => SortedSet(Origins(h, m, k, i)))
  }

  lemma SortedSetIs(s: set<Key>)
    ensures SetOf(SortedSet(s)) == s && NoDuplicates(SortedSet(s)) && IsSorted(KeyLess, SortedSet(s))
  {
    SetAsSequence(SortedSet(s), s);
    KeyOrder();
    SortedIsSorted(KeyLess, SeqOf(s));
  }

  lemma SortedSetSingle(k: Key)
    ensures SortedSet({k}) == [k]
  {
    assert multiset([k]) == multiset({k});
    KeyOrder();
    SortedCanonical(KeyLess, SeqOf({k}), [k]);
  }

  // ---------------------------------------------------------------------------------
  // What blame means

  /** No parent of `k` has line `i`: `k` introduced it. */
  ghost predicate Introduced(h: History, m: Matcher, k: Key, i: nat) {
    forall p | p in Parents(h.parents, k) :: MatchLine(h, m, p, k, i).None?
  }

  /** `n` matching steps to parents lead from line `i` of `k` to line `j` of `o`. */
  ghost predicate Traces(h: History, m: Matcher, k: Key, i: nat, o: Key, j: nat, n: nat)
    decreases n
  {
    if n == 0 then k == o && i == j
    else exists p ::
      && p in Parents(h.parents, k) && MatchLine(h, m, p, k, i).Some?
      && Traces(h, m, p, MatchLine(h, m, p, k, i).value, o, j, n - 1)
  }

  lemma {:induction false} OriginsNonEmpty(h: History, m: Matcher, k: Key, i: nat)
    requires Grounded(h.parents, k)
    ensures Origins(h, m, k, i) != {}
    ensures Inherited(h, m, k, i, SetOf(Parents(h.parents, k))) == {} <==> Introduced(h, m, k, i)
    decreases Gdfo(h.parents, k)
  {
    AllParentsGrounded(h.parents, k);
    var inherited := Inherited(h, m, k, i, SetOf(Parents(h.parents, k)));
    forall p | p in Parents(h.parents, k) && MatchLine(h, m, p, k, i).Some? ensures inherited != {} {
      var pi := MatchLine(h, m, p, k, i).value;
      OriginsNonEmpty(h, m, p, pi);
      var o :| o in Origins(h, m, p, pi);
      assert o in inherited;
    }
  }

  /** A blamed key is reached by matching steps, and introduced the line it is reached at. */
  lemma {:induction false} BlameIsJustified(h: History, m: Matcher, k: Key, i: nat, o: Key) returns (j: nat, n: nat)
    requires Grounded(h.parents, k) && o in Origins(h, m, k, i)
    ensures Traces(h, m, k, i, o, j, n) && Introduced(h, m, o, j)
    decreases Gdfo(h.parents, k)
  {
    AllParentsGrounded(h.parents, k);
    var inherited := Inherited(h, m, k, i, SetOf(Parents(h.parents, k)));
    if inherited == {} {
      OriginsNonEmpty(h, m, k, i);
      j, n := i, 0;
    } else {
      var p :| p in Parents(h.parents, k) && MatchLine(h, m, p, k, i).Some?
            && o in Origins(h, m, p, MatchLine(h, m, p, k, i).value);
      j, n := BlameIsJustified(h, m, p, MatchLine(h, m, p, k, i).value, o);
      n := n + 1;
    }
  }

  /** Whoever introduced the line that matching steps lead to is blamed. */
  lemma {:induction false} BlameIsComplete(h: History, m: Matcher, k: Key, i: nat, o: Key, j: nat, n: nat)
    requires Grounded(h.parents, k)
    requires Traces(h, m, k, i, o, j, n) && Introduced(h, m, o, j)
    ensures o in Origins(h, m, k, i)
    decreases n
  {
    AllParentsGrounded(h.parents, k);
    if n == 0 {
      OriginsNonEmpty(h, m, k, i);
    } else {
      var p, next := FirstStep(h, m, k, i, o, j, n);
      BlameIsComplete(h, m, p, next, o, j, n - 1);
      InheritedFrom(h, m, k, i, p, o);
    }
  }

  lemma InheritedFrom(h: History, m: Matcher, k: Key, i: nat, p: Key, o: Key)
    requires Grounded(h.parents, k) && p in Parents(h.parents, k) && MatchLine(h, m, p, k, i).Some? && Grounded(h.parents, p)
    requires o in Origins(h, m, p, MatchLine(h, m, p, k, i).value)
    ensures o in Origins(h, m, k, i)
  {
    assert o in Inherited(h, m, k, i, SetOf(Parents(h.parents, k)));
  }

  /** Matched lines are equal. */
  lemma MatchedText(h: History, m: Matcher, p: Key, k: Key, i: nat)
    requires ValidMatcher(m) && MatchLine(h, m, p, k, i).Some? && i < |TextOf(h, k)|
    ensures var j := MatchLine(h, m, p, k, i).value; j < |TextOf(h, p)| && TextOf(h, p)[j] == TextOf(h, k)[i]
  {
    var blocks := m(TextOf(h, p), TextOf(h, k));
    assert blocks[..|blocks|] == blocks;
    MatchIsEqual(blocks, |blocks|, i, TextOf(h, p), TextOf(h, k));
  }

  lemma FirstStep(h: History, m: Matcher, k: Key, i: nat, o: Key, j: nat, n: nat) returns (p: Key, next: nat)
    requires n > 0 && Traces(h, m, k, i, o, j, n)
    ensures p in Parents(h.parents, k) && MatchLine(h, m, p, k, i) == Some(next) && Traces(h, m, p, next, o, j, n - 1)
  {
    p :| p in Parents(h.parents, k) && MatchLine(h, m, p, k, i).Some?
      && Traces(h, m, p, MatchLine(h, m, p, k, i).value, o, j, n - 1);
    next := MatchLine(h, m, p, k, i).value;
  }

  /** Matching steps follow parents and keep the line. */
  lemma {:induction false} TraceKeepsLine(h: History, m: Matcher, k: Key, i: nat, o: Key, j: nat, n: nat)
    requires Traces(h, m, k, i, o, j, n)
    ensures Steps(h.parents, k, o, n)
    ensures ValidMatcher(m) && i < |TextOf(h, k)| ==> j < |TextOf(h, o)| && TextOf(h, o)[j] == TextOf(h, k)[i]
    decreases n
  {
    if n > 0 {
      var p, next := FirstStep(h, m, k, i, o, j, n);
      if ValidMatcher(m) && i < |TextOf(h, k)| {
        MatchedText(h, m, p, k, i);
      }
      TraceKeepsLine(h, m, p, next, o, j, n - 1);
    }
  }

  /** Matching steps lead from line `i` of `k` to a line that `o` introduced. */
  ghost predicate Blamed(h: History, m: Matcher, k: Key, i: nat, o: Key) {
    exists j: nat, n: nat :: Traces(h, m, k, i, o, j, n) && Introduced(h, m, o, j)
  }

  lemma OriginsAreBlamed(h: History, m: Matcher, k: Key, i: nat, o: Key)
    requires Grounded(h.parents, k)
    ensures o in Origins(h, m, k, i) <==> Blamed(h, m, k, i, o)
  {
    if o in Origins(h, m, k, i) {
      var j, n := BlameIsJustified(h, m, k, i, o);
    }
    if Blamed(h, m, k, i, o) {
      var j: nat, n: nat :| Traces(h, m, k, i, o, j, n) && Introduced(h, m, o, j);
      BlameIsComplete(h, m, k, i, o, j, n);
    }
  }

  /**
   A key is blamed for a line exactly when matching blocks lead from the line through
   parents to a line of that key that none of the key's own parents has. The key is then
   an ancestor, or the annotated key itself, and its text holds the very line.
   */
  lemma BlameIff(h: History, m: Matcher, k: Key, i: nat, o: Key)
    requires ValidMatcher(m) && Grounded(h.parents, k) && i < |TextOf(h, k)|
    ensures o in AnnotationOf(h, m, k)[i] <==> Blamed(h, m, k, i, o)
    ensures o in AnnotationOf(h, m, k)[i] ==> AncestorOrSelf(h.parents, o, k) && TextOf(h, k)[i] in TextOf(h, o)
  {
    SortedSetIs(Origins(h, m, k, i));
    assert o in AnnotationOf(h, m, k)[i] <==> o in SetOf(SortedSet(Origins(h, m, k, i)));
    OriginsAreBlamed(h, m, k, i, o);
    if o in Origins(h, m, k, i) {
      var j, n := BlameIsJustified(h, m, k, i, o);
      TraceKeepsLine(h, m, k, i, o, j, n);
      if n > 0 { assert StrictAncestor(h.parents, o, k); }
    }
  }

  /** The keys blamed for a line are listed in ascending order, each once. */
  lemma BlamedInOrder(h: History, m: Matcher, k: Key, i: nat, x: nat, y: nat)
    requires Grounded(h.parents, k) && i < |TextOf(h, k)| && x < y < |AnnotationOf(h, m, k)[i]|
    ensures KeyLess(AnnotationOf(h, m, k)[i][x], AnnotationOf(h, m, k)[i][y])
  {
    SortedSetIs(Origins(h, m, k, i));
    KeyOrder();
    var keys := AnnotationOf(h, m, k)[i];
    assert keys[x] != keys[y] && !KeyLess(keys[y], keys[x]);
  }

  lemma OriginIsAncestor(h: History, m: Matcher, k: Key, i: nat, o: Key)
    requires Grounded(h.parents, k) && o in Origins(h, m, k, i)
    ensures AncestorOrSelf(h.parents, o, k)
  {
    var j, n := BlameIsJustified(h, m, k, i, o);
    TraceKeepsLine(h, m, k, i, o, j, n);
    if n > 0 { assert StrictAncestor(h.parents, o, k); }
  }

  /** The order in which parents are listed makes no difference to an annotation. */
  lemma {:induction false} ParentOrderIrrelevant(h: History, h': History, m: Matcher, k: Key, i: nat)
    requires h.texts == h'.texts && forall c, p :: p in Parents(h.parents, c) <==> p in Parents(h'.parents, c)
    requires Grounded(h.parents, k) && Grounded(h'.parents, k)
    ensures Origins(h, m, k, i) == Origins(h', m, k, i)
    decreases Gdfo(h.parents, k)
  {
    AllParentsGrounded(h.parents, k);
    AllParentsGrounded(h'.parents, k);
    assert SetOf(Parents(h.parents, k)) == SetOf(Parents(h'.parents, k));
    forall p | p in Parents(h.parents, k) && MatchLine(h, m, p, k, i).Some?
      ensures Origins(h, m, p, MatchLine(h, m, p, k, i).value) == Origins(h', m, p, MatchLine(h', m, p, k, i).value)
    {
      ParentOrderIrrelevant(h, h', m, p, MatchLine(h, m, p, k, i).value);
    }
    var ps := SetOf(Parents(h.parents, k));
    assert Inherited(h, m, k, i, ps) == Inherited(h', m, k, i, ps);
  }

  /** The annotation of a key depends on its ancestry only. */
  lemma AnnotationLocal(h: History, h': History, m: Matcher, known: set<Key>, k: Key)
    requires forall d | d in known :: Parents(h.parents, d) == Parents(h'.parents, d) && TextOf(h, d) == TextOf(h', d)
    requires ClosedUnderParents(h.parents, known) && k in known && Grounded(h.parents, k)
    ensures Grounded(h'.parents, k) && AnnotationOf(h', m, k) == AnnotationOf(h, m, k)
  {
    GroundedLocal(h.parents, h'.parents, known, k);
    forall i: nat ensures Origins(h', m, k, i) == Origins(h, m, k, i) {
      OriginsLocal(h, h', m, known, k, i);
    }
  }

  lemma {:induction false} OriginsLocal(h: History, h': History, m: Matcher, known: set<Key>, k: Key, i: nat)
    requires forall d | d in known :: Parents(h.parents, d) == Parents(h'.parents, d) && TextOf(h, d) == TextOf(h', d)
    requires ClosedUnderParents(h.parents, known) && k in known
    requires Grounded(h.parents, k) && Grounded(h'.parents, k)
    ensures Origins(h', m, k, i) == Origins(h, m, k, i)
    decreases Gdfo(h.parents, k)
  {
    AllParentsGrounded(h.parents, k);
    AllParentsGrounded(h'.parents, k);
    forall p | p in Parents(h.parents, k)
      ensures MatchLine(h', m, p, k, i) == MatchLine(h, m, p, k, i)
      ensures MatchLine(h, m, p, k, i).Some? ==>
                var j := MatchLine(h, m, p, k, i).value; Origins(h', m, p, j) == Origins(h, m, p, j)
    {
      assert HasParent(h.parents, known, k, p);
      if MatchLine(h, m, p, k, i).Some? {
        OriginsLocal(h, h', m, known, p, MatchLine(h, m, p, k, i).value);
      }
    }
    SameInherited(h, h', m, k, i);
  }

  lemma SameInherited(h: History, h': History, m: Matcher, k: Key, i: nat)
    requires Grounded(h.parents, k) && Grounded(h'.parents, k) && Parents(h'.parents, k) == Parents(h.parents, k)
    requires forall p | p in Parents(h.parents, k) ::
               && Grounded(h.parents, p) && Grounded(h'.parents, p)
               && MatchLine(h', m, p, k, i) == MatchLine(h, m, p, k, i)
               && (MatchLine(h, m, p, k, i).Some? ==>
                     var j := MatchLine(h, m, p, k, i).value; Origins(h', m, p, j) == Origins(h, m, p, j))
    ensures Inherited(h', m, k, i, SetOf(Parents(h'.parents, k))) == Inherited(h, m, k, i, SetOf(Parents(h.parents, k)))
    ensures Origins(h', m, k, i) == Origins(h, m, k, i)
  {
  }
}

/** Several calls on one annotator: which revisions can be annotated after others. */
module AnnotatorCalls {
  import opened Wrappers
  import opened Keys
  import opened Dag
  import opened Blame
  import opened AnnotatorState
  import opened AnnotationSchedule
  import opened Annotators

  /** `known` are the keys that annotating `first` made known. */
  ghost predicate KnownFrom(h: History, known: set<Key>, first: Key) {
    forall k {:trigger k in known} :: k in known <==> AncestorOrSelf(h.parents, k, first)
  }

  /** All ancestors are there. */
  ghost predicate AncestryPresent(h: History, present: set<Key>, key: Key) {
    forall k {:trigger AncestorOrSelf(h.parents, k, key)} | AncestorOrSelf(h.parents, k, key) :: k in present
  }

  /** A new annotator can annotate a key exactly if all its ancestors are there. */
  lemma FirstCallIff(h: History, present: set<Key>, key: Key)
    ensures CanAnnotate(h, present, {}, {}, key) <==> AncestryPresent(h, present, key)
  {
    forall p ensures !LostParent(h, {}, {}, key, p) {
      forall d | ToAnnotate(h, {}, {}, key, d) && p in Parents(h.parents, d) ensures ToAnnotate(h, {}, {}, key, p) {
        ParentThenAncestorOrSelf(h, p, d, key);
      }
    }
    forall k ensures ToAnnotate(h, {}, {}, key, k) <==> AncestorOrSelf(h.parents, k, key) {}
  }

  lemma ParentThenAncestorOrSelf(h: History, p: Key, d: Key, key: Key)
    requires p in Parents(h.parents, d) && AncestorOrSelf(h.parents, d, key)
    ensures AncestorOrSelf(h.parents, p, key)
  {
    ParentIsAncestor(h.parents, p, d);
    if d != key {
      AncestorTransitive(h.parents, p, d, key);
    }
  }

  /** What `second` adds to the history of `first` is there, and hangs on to it by `first` alone. */
  ghost predicate AttachedBy(h: History, present: set<Key>, first: Key, second: Key) {
    forall k {:trigger AncestorOrSelf(h.parents, k, second)} |
      AncestorOrSelf(h.parents, k, second) && !AncestorOrSelf(h.parents, k, first) ::
      k in present && forall p | p in Parents(h.parents, k) && AncestorOrSelf(h.parents, p, first) :: p == first
  }

  /** After `first` the annotator reads no evicted parent when it annotates `second`. */
  ghost predicate CanFollow(h: History, present: set<Key>, first: Key, second: Key) {
    if second == first then true
    else if AncestorOrSelf(h.parents, second, first) then second in present && Parents(h.parents, second) == []
    else AttachedBy(h, present, first, second)
  }

  lemma SecondCallIff(h: History, present: set<Key>, known: set<Key>, first: Key, second: Key)
    requires Acyclic(h.parents) && KnownFrom(h, known, first)
    ensures CanAnnotate(h, present, known, {first}, second) <==> CanFollow(h, present, first, second)
  {
    assert first in known && (second in known <==> AncestorOrSelf(h.parents, second, first));
    if second == first {
    } else if second in known {
      AgainIff(h, present, known, first, second);
    } else {
      NewIff(h, present, known, first, second);
    }
  }

  /** A revision whose text was dropped cannot be annotated again, unless it has no parents. */
  lemma AgainIff(h: History, present: set<Key>, known: set<Key>, first: Key, second: Key)
    requires Acyclic(h.parents) && KnownFrom(h, known, first) && second in known && second != first
    ensures CanAnnotate(h, present, known, {first}, second) <==> second in present && Parents(h.parents, second) == []
  {
    assert ToAnnotate(h, known, {first}, second, second);
    if |Parents(h.parents, second)| > 0 {
      var p := Parents(h.parents, second)[0];
      ParentOfAncestor(h, first, second, p);
      ParentIsAncestor(h.parents, p, second);
      assert LostParent(h, known, {first}, second, p);
    }
  }

  lemma NewIff(h: History, present: set<Key>, known: set<Key>, first: Key, second: Key)
    requires KnownFrom(h, known, first) && second !in known && first in known
    ensures CanAnnotate(h, present, known, {first}, second) <==> AttachedBy(h, present, first, second)
  {
    forall k ensures NewAt(h, known, first, second, k) {}
    if AttachedBy(h, present, first, second) {
      forall k | ToAnnotate(h, known, {first}, second, k) ensures k in present {
        assert NewAt(h, known, first, second, k);
      }
      forall p ensures !LostParent(h, known, {first}, second, p) {
        NotLost(h, present, known, first, second, p);
      }
    }
    if CanAnnotate(h, present, known, {first}, second) {
      forall k | AncestorOrSelf(h.parents, k, second) && !AncestorOrSelf(h.parents, k, first)
        ensures k in present
        ensures forall p | p in Parents(h.parents, k) && AncestorOrSelf(h.parents, p, first) :: p == first
      {
        NewIsAttached(h, present, known, first, second, k);
      }
    }
  }

  ghost predicate NewAt(h: History, known: set<Key>, first: Key, second: Key, k: Key) {
    && (k in known <==> AncestorOrSelf(h.parents, k, first))
    && (ToAnnotate(h, known, {first}, second, k) <==> AncestorOrSelf(h.parents, k, second) && k !in known)
  }

  lemma NotLost(h: History, present: set<Key>, known: set<Key>, first: Key, second: Key, p: Key)
    requires AttachedBy(h, present, first, second)
    requires forall k {:trigger NewAt(h, known, first, second, k)} :: NewAt(h, known, first, second, k)
    ensures !LostParent(h, known, {first}, second, p)
  {
    assert NewAt(h, known, first, second, p);
    forall d | ToAnnotate(h, known, {first}, second, d) && p in Parents(h.parents, d)
      ensures p == first || ToAnnotate(h, known, {first}, second, p)
    {
      assert NewAt(h, known, first, second, d);
      ParentThenAncestorOrSelf(h, p, d, second);
    }
  }

  lemma NewIsAttached(h: History, present: set<Key>, known: set<Key>, first: Key, second: Key, k: Key)
    requires CanAnnotate(h, present, known, {first}, second)
    requires forall x {:trigger NewAt(h, known, first, second, x)} :: NewAt(h, known, first, second, x)
    requires AncestorOrSelf(h.parents, k, second) && !AncestorOrSelf(h.parents, k, first)
    ensures k in present
    ensures forall p | p in Parents(h.parents, k) && AncestorOrSelf(h.parents, p, first) :: p == first
  {
    assert NewAt(h, known, first, second, k);
    forall p | p in Parents(h.parents, k) && AncestorOrSelf(h.parents, p, first) ensures p == first {
      assert NewAt(h, known, first, second, p);
      assert !LostParent(h, known, {first}, second, p);
      assert ToAnnotate(h, known, {first}, second, k);
    }
  }

  lemma FirstCallKnows(h: History, parentMap: ParentMap, first: Key)
    requires KnowsMore(h, {}, {}, first, parentMap)
    ensures KnownFrom(h, parentMap.Keys, first)
  {
    forall k ensures k in parentMap.Keys <==> AncestorOrSelf(h.parents, k, first) {
      assert k in parentMap <==> k in {} || ToAnnotate(h, {}, {}, first, k);
    }
  }

  /** Two revisions after one another, with one annotator: exactly when either call succeeds. */
  method AnnotateBoth(vf: VersionedFile, matcher: Matcher, first: Key, second: Key)
      returns (r1: Result<(seq<Annotation>, Text), Trouble>, r2: Result<(seq<Annotation>, Text), Trouble>)
    requires ValidFile(vf) && ValidMatcher(matcher) && Acyclic(FileParents(vf))
    ensures var h, present := History(vf.texts, FileParents(vf)), vf.texts.Keys;
            && (r1.Success? <==> AncestryPresent(h, present, first))
            && (r1.Success? ==> (r2.Success? <==> CanFollow(h, present, first, second)))
            && (r1.Success? && r2.Success? ==>
                  && Grounded(h.parents, second) && second in vf.texts
                  && r2.value == (AnnotationOf(h, matcher, second), vf.texts[second]))
  {
    var annotator := new Annotator(vf, matcher);
    ghost var h, present := annotator.Combined(), annotator.Present();
    FirstCallIff(h, present, first);
    r1 := annotator.Annotate(first);
    r2 := r1;
    if r1.Success? {
      ghost var known, present2 := annotator.Known(), annotator.Present();
      assert annotator.Special() == {} && present2 == present;
      assert known == annotator.parentMap.Keys;
      FirstCallKnows(h, annotator.parentMap, first);
      SecondCallIff(h, present, known, first, second);
      r2 := annotator.Annotate(second);
    }
  }

  /** In a chain of three, the middle one can be annotated, but not after the last. */
  lemma SecondCallMayFail(h: History, a: Key, b: Key, c: Key)
    requires a != b && b != c && a != c && h.parents == map[a := [], b := [a], c := [b]] && h.texts.Keys == {a, b, c}
    ensures AncestryPresent(h, h.texts.Keys, b) && AncestryPresent(h, h.texts.Keys, c)
    ensures !CanFollow(h, h.texts.Keys, c, b)
  {
    ParentIsAncestor(h.parents, b, c);
    var known := {a, b, c};
    assert ClosedUnderParents(h.parents, known);
    forall k, d | d in known && AncestorOrSelf(h.parents, k, d) ensures k in known {
      if k != d {
        var n: nat :| n > 0 && Steps(h.parents, d, k, n);
        AncestorsInClosed(h.parents, known, d, k, n);
      }
    }
  }
}

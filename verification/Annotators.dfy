/** The annotator: collects the texts a key needs and annotates them parents first. */
module Annotators {
  import opened Wrappers
  import opened Keys
  import opened Dag
  import opened Blocks
  import opened Blame
  import opened MergeAnnotations
  import opened AnnotatorState
  import opened AnnotationSchedule
  import opened FlatAnnotations
  import opened KnownGraphs

  datatype Matched = Matched(annotations: seq<Annotation>, blocks: seq<Block>)

  function Count(num: map<Key, int>, k: Key): int {
    if k in num then num[k] else 0
  }

  lemma NeedsMore(pm: ParentMap, done: seq<Key>, wanted: set<Key>, lost: set<Key>, num: map<Key, int>, k: Key,
                  num': map<Key, int>)
    requires Needs(pm, done, wanted, lost, num)
    requires forall x :: Count(num', x) == Count(num, x) + multiset(Parents(pm, k))[x]
    ensures Needs(pm, done + [k], wanted, lost, num')
  {
    var done' := done + [k];
    forall x | x !in lost ensures NeedAt(pm, done', wanted, num', x) {
      assert NeedAt(pm, done, wanted, num, x);
      UsesConcat(pm, done, [k], x);
      assert [k][1..] == [];
      assert Uses(pm, [k], x) == multiset(Parents(pm, k))[x];
    }
  }

  lemma NeedsStart(pm: ParentMap, known: set<Key>, held: set<Key>, key: Key, num: map<Key, int>)
    requires Needs(pm, [], held, known - held, num)
    ensures Needs(pm, [], held + {key}, known - held - {key}, num[key := 1])
  {
    forall k | k !in known - held - {key} ensures NeedAt(pm, [], held + {key}, num[key := 1], k) {
      if k != key {
        assert NeedAt(pm, [], held, num, k);
      }
    }
  }

  /** The annotations once `n` parents of `k` have been taken into account. */
  ghost predicate AllPartial(h: History, m: Matcher, k: Key, n: nat, anns: seq<Annotation>) {
    && Grounded(h.parents, k) && n <= |Parents(h.parents, k)|
    && |anns| == |TextOf(h, k)|
    && forall i: nat {:trigger Partial(h, m, k, n, i)} | i < |anns| :: anns[i] == Partial(h, m, k, n, i)
  }

  lemma AllPartialStart(h: History, m: Matcher, k: Key, anns: seq<Annotation>)
    requires Grounded(h.parents, k) && |anns| == |TextOf(h, k)| && forall i | 0 <= i < |anns| :: anns[i] == [k]
    ensures AllPartial(h, m, k, 0, anns)
  {
    forall i: nat | i < |anns| ensures anns[i] == Partial(h, m, k, 0, i) {
      PartialStart(h, m, k, i);
    }
  }

  /** One line of the next parent. */
  lemma PartialLine(h: History, m: Matcher, k: Key, n: nat, i: nat, par: seq<Annotation>, blocks: seq<Block>,
                    ann: Annotation, ann': Annotation)
    requires ValidMatcher(m) && Acyclic(h.parents) && Grounded(h.parents, k) && n < |Parents(h.parents, k)|
    requires i < |TextOf(h, k)| && ann == Partial(h, m, k, n, i) && ann' == Merged(ann, par, [k], blocks, i)
    requires var p := Parents(h.parents, k)[n];
             && Grounded(h.parents, p) && |par| == |TextOf(h, p)| && blocks == m(TextOf(h, p), TextOf(h, k))
             && var x := MatchLine(h, m, p, k, i);
                x.Some? && x.value < |par| ==> par[x.value] == SortedSet(Origins(h, m, p, x.value))
    ensures ann' == Partial(h, m, k, n + 1, i)
  {
    var p := Parents(h.parents, k)[n];
    assert blocks[..|blocks|] == blocks;
    MatchIsEqual(blocks, |blocks|, i, TextOf(h, p), TextOf(h, k));
    PartialStep(h, m, k, n, i);
  }

  lemma AllPartialStep(h: History, m: Matcher, k: Key, n: nat, next: nat, anns: seq<Annotation>,
                       anns': seq<Annotation>, par: seq<Annotation>, blocks: seq<Block>)
    requires next == n + 1 && ValidMatcher(m) && Acyclic(h.parents) && AllPartial(h, m, k, n, anns) && n < |Parents(h.parents, k)|
    requires var p := Parents(h.parents, k)[n];
             && Grounded(h.parents, p) && par == AnnotationOf(h, m, p)
             && blocks == m(TextOf(h, p), TextOf(h, k))
    requires MergedWith(anns, anns', par, [k], blocks)
    ensures AllPartial(h, m, k, next, anns')
  {
    forall i: nat | i < |anns| ensures anns'[i] == Partial(h, m, k, next, i) {
      assert MergedAt(anns, anns', par, [k], blocks, i);
      assert anns[i] == Partial(h, m, k, n, i);
      PartialLine(h, m, k, n, i, par, blocks, anns[i], anns'[i]);
    }
  }

  lemma AllPartialEnd(h: History, m: Matcher, k: Key, anns: seq<Annotation>)
    requires AllPartial(h, m, k, |Parents(h.parents, k)|, anns)
    ensures anns == AnnotationOf(h, m, k)
  {
    forall i: nat | i < |anns| ensures anns[i] == AnnotationOf(h, m, k)[i] {
      assert anns[i] == Partial(h, m, k, |Parents(h.parents, k)|, i);
      PartialEnd(h, m, k, i);
    }
  }

  class Annotator {
    const vf: VersionedFile
    const matcher: Matcher
    var parentMap: ParentMap
    var textCache: map<Key, Text>
    var numNeededChildren: map<Key, int>
    var annotationsCache: map<Key, seq<Annotation>>
    /** Every text added by hand, cached or not. */
    ghost var added: map<Key, Text>

    constructor (vf: VersionedFile, matcher: Matcher)
      ensures this.vf == vf && this.matcher == matcher
      ensures Valid() && Known() == {} && annotationsCache.Keys == Special() == {}
      ensures Combined() == History(vf.texts, FileParents(vf))
    {
      this.vf, this.matcher := vf, matcher;
      parentMap, textCache, numNeededChildren, annotationsCache := map[], map[], map[], map[];
      added := map[];
      new;
      forall k ensures NeedAt(Combined().parents, [], {}, numNeededChildren, k) {}
      assert vf.texts + map[] == vf.texts && FileParents(vf) + map[] == FileParents(vf);
    }

    /** The history that is annotated: the file's, with the texts added by hand. */
    ghost function Combined(): History
      reads this`parentMap, this`added
    {
      Together(vf, added, parentMap)
    }

    /** The texts that were added by hand and have not been annotated. */
    ghost function Special(): set<Key>
      reads this`textCache, this`annotationsCache
    {
      textCache.Keys - annotationsCache.Keys
    }

    /** The keys whose parents have been looked up. */
    ghost function Known(): set<Key>
      reads this`parentMap, this`textCache, this`annotationsCache
    {
      parentMap.Keys - Special()
    }

    /** The keys that have a text at hand. */
    ghost function Present(): set<Key>
      reads this`textCache
    {
      vf.texts.Keys + textCache.Keys
    }

    /** The caches are right, and the counters say what is cached. */
    ghost predicate Valid()
      reads this
    {
      Consistent(vf, matcher, added, parentMap, textCache, annotationsCache, numNeededChildren)
    }

    /** A text that is not in the versioned file, such as that of a working tree. */
    method AddSpecialText(key: Key, parentKeys: seq<Key>, lines: Text)
      modifies this`parentMap, this`textCache, this`added
      ensures parentMap == old(parentMap)[key := parentKeys] && textCache == old(textCache)[key := lines]
      ensures var h := old(Combined());
              Combined() == History(h.texts[key := lines], h.parents[key := parentKeys])
      ensures old(Valid()) && key !in old(parentMap) ==>
                Valid() && Special() == old(Special()) + {key} && Known() == old(Known())
    {
      ghost var added0, parentMap0, texts0 := added, parentMap, textCache;
      parentMap := parentMap[key := parentKeys];
      textCache := textCache[key := lines];
      added := added[key := lines];
      AddedTogether(vf, added0, parentMap0, key, parentKeys, lines);
      if old(Valid()) && key !in parentMap0 {
        AddedIsValid(vf, matcher, added0, parentMap0, texts0, annotationsCache, numNeededChildren, key, parentKeys, lines);
      }
    }

    // -------------------------------------------------------------------------------
    // What is needed

    method UpdateNeededChildren(parentKeys: seq<Key>)
      modifies this`numNeededChildren
      ensures forall x :: Count(numNeededChildren, x) == Count(old(numNeededChildren), x) + multiset(parentKeys)[x]
    {
      for j := 0 to |parentKeys|
        invariant forall x :: Count(numNeededChildren, x) ==
                              Count(old(numNeededChildren), x) + multiset(parentKeys[..j])[x]
      {
        var p := parentKeys[j];
        assert parentKeys[..j + 1] == parentKeys[..j] + [p];
        if p in numNeededChildren {
          numNeededChildren := numNeededChildren[p := numNeededChildren[p] + 1];
        } else {
          numNeededChildren := numNeededChildren[p := 1];
        }
      }
      assert parentKeys[..|parentKeys|] == parentKeys;
    }

    /** The first loop of a round: what to look up, and what to extract or annotate. */
    method Classify(needed: set<Key>, vfKeys: set<Key>, annKeys: set<Key>)
        returns (lookup: set<Key>, next: ParentMap, vfKeys': set<Key>, annKeys': set<Key>)
      requires annotationsCache.Keys <= textCache.Keys <= parentMap.Keys
      ensures lookup == needed - parentMap.Keys
      ensures next == map k | k in needed * Special() :: parentMap[k]
      ensures vfKeys' == vfKeys + (needed - textCache.Keys)
      ensures annKeys' == annKeys + needed * Special()
    {
      lookup, next, vfKeys', annKeys' := {}, map[], vfKeys, annKeys;
      var rest := needed;
      while rest != {}
        invariant rest <= needed
        invariant lookup == (needed - rest) - parentMap.Keys
        invariant next == map k | k in (needed - rest) * Special() :: parentMap[k]
        invariant vfKeys' == vfKeys + ((needed - rest) - textCache.Keys)
        invariant annKeys' == annKeys + (needed - rest) * Special()
        decreases rest
      {
        var k :| k in rest;
        assert needed - (rest - {k}) == (needed - rest) + {k};
        rest := rest - {k};
        if k in parentMap {
          if k !in textCache {
            vfKeys' := vfKeys' + {k};
          } else if k !in annotationsCache {
            annKeys' := annKeys' + {k};
            next := next[k := parentMap[k]];
          }
        } else {
          lookup := lookup + {k};
          vfKeys' := vfKeys' + {k};
        }
      }
    }

    /** `vf.get_parent_map`, with no parents where there is no graph. */
    method GetParentMap(lookup: set<Key>) returns (found: ParentMap)
      ensures found == map k | k in lookup && k in FileParents(vf) :: FileParents(vf)[k]
    {
      found := map k | k in lookup && k in vf.parents :: if vf.parents[k].Some? then vf.parents[k].value else [];
    }

    /** The second loop of a round: count the parents, and need those that are not known. */
    method CountNeeded(next: ParentMap, ghost pm: ParentMap, ghost done: seq<Key>, ghost wanted: set<Key>,
                       ghost lost: set<Key>)
        returns (needed: set<Key>, ghost added: seq<Key>)
      requires Needs(pm, done, wanted, lost, numNeededChildren)
      requires forall k | k in next :: k in pm && next[k] == pm[k]
      modifies this`numNeededChildren
      ensures NoDuplicates(added) && SetOf(added) == next.Keys
      ensures Needs(pm, done + added, wanted, lost, numNeededChildren)
      ensures needed == set d, p | d in added && p in Parents(pm, d) && p !in parentMap :: p
    {
      needed, added := {}, [];
      var rest := next.Keys;
      assert done + added == done;
      while rest != {}
        invariant rest <= next.Keys && NoDuplicates(added) && SetOf(added) == next.Keys - rest
        invariant Needs(pm, done + added, wanted, lost, numNeededChildren)
        invariant needed == set d, p | d in added && p in Parents(pm, d) && p !in parentMap :: p
        decreases rest
      {
        var k :| k in rest;
        PushLast(added, k);
        rest := rest - {k};
        ghost var num := numNeededChildren;
        UpdateNeededChildren(next[k]);
        NeedsMore(pm, done + added, wanted, lost, num, k, numNeededChildren);
        assert done + added + [k] == done + (added + [k]);
        needed := needed + set p | p in next[k] && p !in parentMap;
        added := added + [k];
      }
    }

    /**
     The keys whose texts must be extracted and those whose text is already there but not
     annotated. Together they are the keys to annotate: the requested key and its ancestors up
     to those that are known.
     */
    method GetNeededKeys(key: Key) returns (vfKeys: set<Key>, annKeys: set<Key>, ghost done: seq<Key>)
      requires Valid() && Special() <= {key} && Acyclic(Combined().parents) && ValidFile(vf)
      modifies this`parentMap, this`numNeededChildren
      ensures Gathered(old(Combined()), key, Special(), old(Known()), annotationsCache.Keys, done, vfKeys, annKeys, parentMap)
      ensures Needs(old(Combined()).parents, done, annotationsCache.Keys + {key},
                    old(Known()) - annotationsCache.Keys - {key}, numNeededChildren)
    {
      ghost var h, known := Combined(), Known();
      StartGathering(vf, matcher, added, parentMap, textCache, annotationsCache, numNeededChildren, key);
      numNeededChildren := numNeededChildren[key := 1];
      assert textCache.Keys == annotationsCache.Keys + Special();
      vfKeys, annKeys, done := CollectKeys(key, h, Special(), known, annotationsCache.Keys);
      GatherEnd(h, key, Special(), known, annotationsCache.Keys, done, vfKeys, annKeys, parentMap);
    }

    method CollectKeys(key: Key, ghost h: History, ghost special: set<Key>, ghost known: set<Key>, ghost held: set<Key>)
        returns (vfKeys: set<Key>, annKeys: set<Key>, ghost done: seq<Key>)
      requires Acyclic(h.parents) && held == annotationsCache.Keys && textCache.Keys == held + special && special !! held
      requires textCache.Keys <= parentMap.Keys && special <= h.parents.Keys && FileParts(h, vf, parentMap)
      requires Gathering(h, key, special, known, held, [], {key}, {}, {}, parentMap)
      requires Needs(h.parents, [], held + {key}, known - held - {key}, numNeededChildren)
      modifies this`parentMap, this`numNeededChildren
      ensures Gathering(h, key, special, known, held, done, {}, vfKeys, annKeys, parentMap)
      ensures Needs(h.parents, done, held + {key}, known - held - {key}, numNeededChildren)
    {
      ghost var before := parentMap;
      vfKeys, annKeys, done := {}, {}, [];
      var needed := {key};
      while needed != {}
        invariant Gathering(h, key, special, known, held, done, needed, vfKeys, annKeys, parentMap)
        invariant Needs(h.parents, done, held + {key}, known - held - {key}, numNeededChildren)
        invariant before.Keys <= parentMap.Keys
        decreases h.parents.Keys - SetOf(done), needed
      {
        ghost var more;
        ghost var done0, needed0 := done, needed;
        needed, vfKeys, annKeys, more := NeedRound(needed, vfKeys, annKeys, h, key, special, known, held, before, done);
        done := done + more;
        RoundProgress(h, done0, more, needed0, needed);
      }
    }

    method NeedRound(needed: set<Key>, vfKeys: set<Key>, annKeys: set<Key>, ghost h: History, ghost key: Key,
                     ghost special: set<Key>, ghost known: set<Key>, ghost held: set<Key>, ghost before: ParentMap,
                     ghost done: seq<Key>)
        returns (needed': set<Key>, vfKeys': set<Key>, annKeys': set<Key>, ghost more: seq<Key>)
      requires Acyclic(h.parents) && needed != {} && held == annotationsCache.Keys && textCache.Keys == held + special
      requires special !! held && textCache.Keys <= before.Keys <= parentMap.Keys && special <= h.parents.Keys
      requires FileParts(h, vf, before)
      requires Gathering(h, key, special, known, held, done, needed, vfKeys, annKeys, parentMap)
      requires Needs(h.parents, done, held + {key}, known - held - {key}, numNeededChildren)
      modifies this`parentMap, this`numNeededChildren
      ensures Gathering(h, key, special, known, held, done + more, needed', vfKeys', annKeys', parentMap)
      ensures Needs(h.parents, done + more, held + {key}, known - held - {key}, numNeededChildren)
      ensures NoDuplicates(done + more) && SetOf(more) <= h.parents.Keys && (more == [] ==> needed' == {})
      ensures before.Keys <= parentMap.Keys
    {
      ghost var pm := parentMap;
      var next;
      GatheringHolds(h, key, special, known, held, done, needed, vfKeys, annKeys, pm);
      next, vfKeys', annKeys' := LookUp(needed, vfKeys, annKeys, h, special, held, before);
      ghost var looked := next;
      needed', more := CountNeeded(next, h.parents, done, held + {key}, known - held - {key});
      GatherRound(h, key, special, known, held, done, needed, vfKeys, annKeys, pm, more, needed');
      RoundParents(h, pm, looked, more);
      parentMap := parentMap + next;
    }

    /** The keys of a round whose parents are to be counted, and what is done with all its keys. */
    method LookUp(needed: set<Key>, vfKeys: set<Key>, annKeys: set<Key>, ghost h: History, ghost special: set<Key>,
                  ghost held: set<Key>, ghost before: ParentMap)
        returns (next: ParentMap, vfKeys': set<Key>, annKeys': set<Key>)
      requires held == annotationsCache.Keys && textCache.Keys == held + special && special !! held
      requires textCache.Keys <= before.Keys <= parentMap.Keys && FileParts(h, vf, before)
      requires forall k {:trigger k in parentMap} | k in parentMap :: k in h.parents && parentMap[k] == h.parents[k]
      ensures next.Keys == set k | k in needed && (k in special || k !in parentMap) && k in h.parents
      ensures forall k | k in next :: k in h.parents && next[k] == h.parents[k]
      ensures vfKeys' == vfKeys + (needed - held - special) && annKeys' == annKeys + (needed * special)
    {
      var lookup;
      lookup, next, vfKeys', annKeys' := Classify(needed, vfKeys, annKeys);
      assert Special() == special && needed - textCache.Keys == needed - held - special;
      var found := GetParentMap(lookup);
      RoundKeys(h, vf, special, needed, before, parentMap, next, found);
      next := next + found;
    }

    // -------------------------------------------------------------------------------
    // Annotating

    /** Keep the annotation, and drop the parents that nothing needs any more. */
    method RecordAnnotation(key: Key, parentKeys: seq<Key>, annotations: seq<Annotation>)
      requires key !in parentKeys
      requires forall p | p in parentKeys ::
                 && p in textCache && p in annotationsCache && p in numNeededChildren && numNeededChildren[p] > 0
      modifies this`textCache, this`annotationsCache, this`numNeededChildren
      ensures CountedOff(old(numNeededChildren), numNeededChildren, parentKeys)
      ensures textCache == old(textCache) - Exhausted(numNeededChildren, parentKeys)
      ensures annotationsCache == old(annotationsCache)[key := annotations] - Exhausted(numNeededChildren, parentKeys)
    {
      annotationsCache := annotationsCache[key := annotations];
      ghost var texts, anns, num := textCache, annotationsCache, numNeededChildren;
      for j := 0 to |parentKeys|
        invariant Released(num, numNeededChildren, parentKeys[..j], texts, textCache, anns, annotationsCache)
      {
        ghost var before, texts', anns' := numNeededChildren, textCache, annotationsCache;
        assert parentKeys[j] in texts && parentKeys[j] in anns;
        CountOne(num, before, parentKeys, j);
        ReleaseParent(parentKeys[j]);
        ReleasedNext(num, before, numNeededChildren, parentKeys, j, texts, texts', textCache, anns, anns', annotationsCache);
      }
      assert parentKeys[..|parentKeys|] == parentKeys;
    }

    /** Count off one use; on the last one the text and its annotation must be there to delete. */
    method ReleaseParent(p: Key)
      requires p in numNeededChildren
      requires numNeededChildren[p] == 1 ==> p in textCache && p in annotationsCache
      modifies this`textCache, this`annotationsCache, this`numNeededChildren
      ensures numNeededChildren == old(numNeededChildren)[p := old(numNeededChildren)[p] - 1]
      ensures var dropped := if numNeededChildren[p] == 0 then {p} else {};
              textCache == old(textCache) - dropped && annotationsCache == old(annotationsCache) - dropped
    {
      var num := numNeededChildren[p] - 1;
      if num == 0 {
        textCache := textCache - {p};
        annotationsCache := annotationsCache - {p};
      }
      numNeededChildren := numNeededChildren[p := num];
    }

    /** Annotate a text by its parents, unless one of these is not cached. */
    method AnnotateOne(key: Key, text: Text, ghost h: History) returns (evicted: Option<Key>)
      requires Acyclic(h.parents) && ValidMatcher(matcher) && Grounded(h.parents, key)
      requires key in parentMap && parentMap[key] == Parents(h.parents, key) && text == TextOf(h, key)
      requires CachedRight(h, matcher, key, textCache, annotationsCache, numNeededChildren)
      modifies this`textCache, this`annotationsCache, this`numNeededChildren
      ensures evicted.Some? ==> MissingParent(h, key, old(textCache), old(annotationsCache), evicted.value)
      ensures evicted.None? ==>
                && (forall p | p in Parents(h.parents, key) :: p in old(textCache) && p in old(annotationsCache))
                && CountedOff(old(numNeededChildren), numNeededChildren, Parents(h.parents, key))
                && var dropped := Exhausted(numNeededChildren, Parents(h.parents, key));
                && textCache == old(textCache) - dropped
                && annotationsCache == old(annotationsCache)[key := AnnotationOf(h, matcher, key)] - dropped
    {
      var annotations;
      annotations, evicted := Attribute(key, text, h);
      if evicted.None? {
        NoOwnParent(h, matcher, key, textCache, annotationsCache, numNeededChildren);
        RecordAnnotation(key, parentMap[key], annotations);
      }
    }

    /** Start with the key itself for every line, then go through the parents. */
    method Attribute(key: Key, text: Text, ghost h: History) returns (r: seq<Annotation>, evicted: Option<Key>)
      requires Acyclic(h.parents) && ValidMatcher(matcher) && Grounded(h.parents, key)
      requires key in parentMap && parentMap[key] == Parents(h.parents, key) && text == TextOf(h, key)
      requires CachedRight(h, matcher, key, textCache, annotationsCache, numNeededChildren)
      ensures evicted.Some? ==> MissingParent(h, key, textCache, annotationsCache, evicted.value)
      ensures evicted.None? ==>
                && r == AnnotationOf(h, matcher, key)
                && forall p | p in Parents(h.parents, key) :: p in textCache && p in annotationsCache
    {
      var annotations := new Annotation[|text|](_ => [key]);
      AllPartialStart(h, matcher, key, annotations[..]);
      var parentKeys := parentMap[key];
      evicted := None;
      if |parentKeys| > 0 {
        evicted := FromFirstParent(key, annotations, text, parentKeys[0], h);
        if evicted.None? {
          evicted := FromOtherParents(key, annotations, text, parentKeys, h);
        }
      }
      if evicted.None? {
        AllPartialEnd(h, matcher, key, annotations[..]);
      }
      r := annotations[..];
    }

    method FromOtherParents(key: Key, annotations: array<Annotation>, text: Text, parentKeys: seq<Key>, ghost h: History)
        returns (evicted: Option<Key>)
      requires Acyclic(h.parents) && ValidMatcher(matcher) && text == TextOf(h, key)
      requires parentKeys == Parents(h.parents, key) && |parentKeys| > 0
      requires AllPartial(h, matcher, key, 1, annotations[..])
      requires CachedRight(h, matcher, key, textCache, annotationsCache, numNeededChildren)
      requires parentKeys[0] in textCache && parentKeys[0] in annotationsCache
      modifies annotations
      ensures evicted.Some? ==> MissingParent(h, key, textCache, annotationsCache, evicted.value)
      ensures evicted.None? ==>
                && AllPartial(h, matcher, key, |parentKeys|, annotations[..])
                && forall p | p in parentKeys :: p in textCache && p in annotationsCache
    {
      for j := 1 to |parentKeys|
        invariant AllPartial(h, matcher, key, j, annotations[..])
        invariant forall p | p in parentKeys[..j] :: p in textCache && p in annotationsCache
      {
        evicted := FromOtherParent(key, annotations, text, parentKeys[j], h, j);
        if evicted.Some? {
          return;
        }
        assert parentKeys[..j + 1] == parentKeys[..j] + [parentKeys[j]];
      }
      evicted := None;
      assert parentKeys[..|parentKeys|] == parentKeys;
    }

    method FromFirstParent(key: Key, annotations: array<Annotation>, text: Text, parentKey: Key, ghost h: History)
        returns (evicted: Option<Key>)
      requires Acyclic(h.parents) && ValidMatcher(matcher) && text == TextOf(h, key)
      requires AllPartial(h, matcher, key, 0, annotations[..])
      requires forall i | 0 <= i < annotations.Length :: annotations[i] == [key]
      requires |Parents(h.parents, key)| > 0 && parentKey == Parents(h.parents, key)[0]
      requires CachedRight(h, matcher, key, textCache, annotationsCache, numNeededChildren)
      modifies annotations
      ensures evicted.Some? ==> MissingParent(h, key, textCache, annotationsCache, evicted.value)
      ensures evicted.None? ==>
                && AllPartial(h, matcher, key, 1, annotations[..])
                && parentKey in textCache && parentKey in annotationsCache
    {
      ghost var before := annotations[..];
      var matched := ParentAnnotationsAndMatches(text, parentKey);
      if matched.Failure? {
        return Some(parentKey);
      }
      var Matched(par, blocks) := matched.value;
      ParentReady(h, matcher, key, textCache, annotationsCache, numNeededChildren, 0);
      UpdateFromFirstParent(annotations, par, blocks, [key], textCache[parentKey], text);
      AllPartialStep(h, matcher, key, 0, 1, before, annotations[..], par, blocks);
      evicted := None;
    }

    method FromOtherParent(key: Key, annotations: array<Annotation>, text: Text, parentKey: Key, ghost h: History,
                           ghost j: nat)
        returns (evicted: Option<Key>)
      requires Acyclic(h.parents) && ValidMatcher(matcher) && text == TextOf(h, key)
      requires AllPartial(h, matcher, key, j, annotations[..])
      requires j < |Parents(h.parents, key)| && parentKey == Parents(h.parents, key)[j]
      requires CachedRight(h, matcher, key, textCache, annotationsCache, numNeededChildren)
      modifies annotations
      ensures evicted.Some? ==> MissingParent(h, key, textCache, annotationsCache, evicted.value)
      ensures evicted.None? ==>
                && AllPartial(h, matcher, key, j + 1, annotations[..])
                && parentKey in textCache && parentKey in annotationsCache
    {
      ghost var before := annotations[..];
      var matched := ParentAnnotationsAndMatches(text, parentKey);
      if matched.Failure? {
        return Some(parentKey);
      }
      var Matched(par, blocks) := matched.value;
      ParentReady(h, matcher, key, textCache, annotationsCache, numNeededChildren, j);
      UpdateFromOtherParents(annotations, par, blocks, [key], textCache[parentKey], text);
      AllPartialStep(h, matcher, key, j, j + 1, before, annotations[..], par, blocks);
      evicted := None;
    }

    /** What is cached of a parent, and how its text matches; an error if it is not cached. */
    method ParentAnnotationsAndMatches(text: Text, parentKey: Key) returns (r: Result<Matched, Key>)
      requires ValidMatcher(matcher)
      ensures r.Success? <==> parentKey in textCache && parentKey in annotationsCache
      ensures r.Success? ==>
                && r.value == Matched(annotationsCache[parentKey], matcher(textCache[parentKey], text))
                && ValidBlocks(r.value.blocks, textCache[parentKey], text)
    {
      if parentKey !in textCache || parentKey !in annotationsCache {
        return Failure(parentKey);
      }
      r := Success(Matched(annotationsCache[parentKey], matcher(textCache[parentKey], text)));
    }

    /** Annotate text number `i` of the schedule, whose text has just been cached. */
    method AnnotateScheduled(k: Key, text: Text, ghost h: History, ghost plan: Plan, ghost i: nat,
                             ghost texts: map<Key, Text>) returns (evicted: Option<Key>)
      requires Acyclic(h.parents) && ValidMatcher(matcher) && Schedule(h, plan) && plan.Start() <= i < |plan.full|
      requires Stage(h, matcher, plan, i, texts, annotationsCache, numNeededChildren)
      requires k == plan.full[i] && k in h.texts && text == h.texts[k] && textCache == texts[k := text]
      requires k in parentMap && parentMap[k] == Parents(h.parents, k)
      modifies this`textCache, this`annotationsCache, this`numNeededChildren
      ensures evicted.Some? ==> LostParent(h, plan.known, plan.held, plan.key, evicted.value)
      ensures evicted.None? ==>
                && Stage(h, matcher, plan, i + 1, textCache, annotationsCache, numNeededChildren)
                && forall p | p in Parents(h.parents, k) :: p in plan.full[..i]
    {
      ghost var anns, num := annotationsCache, numNeededChildren;
      AcyclicGrounded(h.parents, k);
      AllRight(h, matcher, plan, i, texts, anns, num);
      evicted := AnnotateOne(k, text, h);
      if evicted.Some? {
        MissingIsLost(h, plan, i, evicted.value);
      } else {
        StageNext(h, matcher, plan, i, texts, anns, num, numNeededChildren);
      }
    }

    /**
     The annotations of `key` and its lines. The call succeeds exactly if all texts it has to
     annotate are there and no parent of theirs has been evicted by an earlier call.
     */
    method Annotate(key: Key) returns (r: Result<(seq<Annotation>, Text), Trouble>)
      requires Valid() && Special() <= {key} && Acyclic(Combined().parents) && ValidFile(vf) && ValidMatcher(matcher)
      modifies this`parentMap, this`textCache, this`annotationsCache, this`numNeededChildren
      ensures r.Success? <==>
                CanAnnotate(old(Combined()), old(Present()), old(Known()), old(annotationsCache.Keys), key)
      ensures r.Failure? ==>
                Explained(old(Combined()), old(Known()), old(annotationsCache.Keys), key, old(Present()), r.error)
      ensures r.Success? ==>
                && var h, known, held := old(Combined()), old(Known()), old(annotationsCache.Keys);
                && Grounded(h.parents, key) && key in h.texts
                && r.value == (AnnotationOf(h, matcher, key), h.texts[key])
                && textCache.Keys == annotationsCache.Keys == HeldAfter(h.parents, known, held, key)
                && KnowsMore(h, known, held, key, parentMap)
                && Combined() == h && FromFile(vf, added, parentMap) && (Unhidden(vf, added, {key}) ==> Valid())
    {
      var trouble := AnnotateTexts(key, Combined(), Known(), Present());
      if trouble.Some? {
        return Failure(trouble.value);
      }
      r := Success((annotationsCache[key], textCache[key]));
    }

    /** The loop of a call. */
    method AnnotateTexts(key: Key, ghost h: History, ghost known: set<Key>, ghost present: set<Key>)
        returns (trouble: Option<Trouble>)
      requires h == Combined() && known == Known() && present == Present() && Acyclic(h.parents)
      requires Valid() && Special() <= {key} && ValidFile(vf) && ValidMatcher(matcher)
      modifies this`parentMap, this`textCache, this`annotationsCache, this`numNeededChildren
      ensures trouble.None? <==> CanAnnotate(h, present, known, old(annotationsCache.Keys), key)
      ensures trouble.Some? ==> Explained(h, known, old(annotationsCache.Keys), key, present, trouble.value)
      ensures trouble.None? ==>
                Finished(vf, matcher, added, h, known, old(annotationsCache.Keys), key, parentMap, textCache,
                         annotationsCache, numNeededChildren)
    {
      var stream, special;
      ghost var plan;
      stream, special, plan := ScheduleTexts(key, h, present);
      trouble := AnnotatePlanned(key, stream, special, h, plan, present);
    }

    /** The stream, then the text added by hand. */
    method AnnotateAll(key: Key, stream: seq<Key>, special: bool, ghost h: History, ghost plan: Plan, ghost present: set<Key>)
        returns (trouble: Option<Trouble>)
      requires Acyclic(h.parents) && ValidMatcher(matcher) && Schedule(h, plan) && plan.key == key && plan.special <= present
      requires Streaming(vf, h, plan, present, stream, parentMap)
      requires if special then SpecialIsLast(h, plan, |stream|, parentMap) else |plan.full| == plan.Start() + |stream|
      requires Stage(h, matcher, plan, plan.Start(), textCache, annotationsCache, numNeededChildren)
      modifies this`textCache, this`annotationsCache, this`numNeededChildren
      ensures trouble.None? <==> CanAnnotate(h, present, plan.known, plan.held, plan.key)
      ensures trouble.Some? ==> Explained(h, plan.known, plan.held, plan.key, present, trouble.value)
      ensures trouble.None? ==> Stage(h, matcher, plan, |plan.full|, textCache, annotationsCache, numNeededChildren)
    {
      trouble := AnnotateStream(stream, h, plan, present);
      if trouble.None? {
        trouble := AnnotateSpecial(key, special, |stream|, h, plan, present);
      }
      if trouble.Some? {
        TroubleMeans(h, plan.known, plan.held, plan.key, present, trouble.value);
      } else {
        Completed(h, plan, present);
      }
    }

    /** All texts of the plan, and what that leaves. */
    method AnnotatePlanned(key: Key, stream: seq<Key>, special: bool, ghost h: History, ghost plan: Plan, ghost present: set<Key>)
        returns (trouble: Option<Trouble>)
      requires Acyclic(h.parents) && ValidMatcher(matcher) && Schedule(h, plan) && plan.key == key && plan.special <= present
      requires Streaming(vf, h, plan, present, stream, parentMap)
      requires if special then SpecialIsLast(h, plan, |stream|, parentMap) else |plan.full| == plan.Start() + |stream|
      requires Stage(h, matcher, plan, plan.Start(), textCache, annotationsCache, numNeededChildren)
      requires CanAnnotate(h, present, plan.known, plan.held, plan.key) ==> Learnt(vf, added, h, plan, parentMap)
      modifies this`textCache, this`annotationsCache, this`numNeededChildren
      ensures trouble.None? <==> CanAnnotate(h, present, plan.known, plan.held, plan.key)
      ensures trouble.Some? ==> Explained(h, plan.known, plan.held, plan.key, present, trouble.value)
      ensures trouble.None? ==>
                Finished(vf, matcher, added, h, plan.known, plan.held, plan.key, parentMap, textCache, annotationsCache,
                         numNeededChildren)
    {
      trouble := AnnotateAll(key, stream, special, h, plan, present);
      if trouble.None? {
        WorkDone(vf, matcher, added, h, plan, parentMap, textCache, annotationsCache, numNeededChildren);
      }
    }

    /** Last comes the requested key, if its text was added by hand. */
    method AnnotateSpecial(key: Key, special: bool, streamed: nat, ghost h: History, ghost plan: Plan,
                           ghost present: set<Key>)
        returns (trouble: Option<Trouble>)
      requires Acyclic(h.parents) && ValidMatcher(matcher) && Schedule(h, plan) && plan.key == key
      requires Stage(h, matcher, plan, plan.Start() + streamed, textCache, annotationsCache, numNeededChildren)
      requires AllDone(h, plan, present, plan.Start() + streamed)
      requires if special then SpecialIsLast(h, plan, streamed, parentMap) else |plan.full| == plan.Start() + streamed
      requires plan.special <= present
      modifies this`textCache, this`annotationsCache, this`numNeededChildren
      ensures trouble.Some? ==> Explained(h, plan.known, plan.held, plan.key, present, trouble.value)
      ensures trouble.None? ==>
                && Stage(h, matcher, plan, |plan.full|, textCache, annotationsCache, numNeededChildren)
                && AllDone(h, plan, present, |plan.full|)
    {
      if !special {
        return None;
      }
      SpecialText(h, matcher, plan, streamed, parentMap, textCache, annotationsCache, numNeededChildren);
      var evicted := AnnotateScheduled(key, textCache[key], h, plan, plan.Start() + streamed, textCache);
      if evicted.Some? {
        return Some(Evicted(evicted.value));
      }
      assert DoneAt(h, plan, present, plan.Start() + streamed);
      trouble := None;
    }

    /** The stream to annotate, and whether a text added by hand comes after it. */
    method ScheduleTexts(key: Key, ghost h: History, ghost present: set<Key>)
        returns (stream: seq<Key>, special: bool, ghost plan: Plan)
      requires h == Combined() && present == Present() && Valid() && Special() <= {key} && Acyclic(h.parents) && ValidFile(vf)
      modifies this`parentMap, this`numNeededChildren
      ensures plan.key == key && plan.known == old(Known()) && plan.held == annotationsCache.Keys && plan.special == Special()
      ensures Schedule(h, plan) && Stage(h, matcher, plan, plan.Start(), textCache, annotationsCache, numNeededChildren)
      ensures Streaming(vf, h, plan, present, stream, parentMap) && plan.special <= present
      ensures if special then SpecialIsLast(h, plan, |stream|, parentMap) else |plan.full| == plan.Start() + |stream|
      ensures CanAnnotate(h, present, plan.known, plan.held, plan.key) ==> Learnt(vf, added, h, plan, parentMap)
    {
      ghost var before, known, num := parentMap, Known(), numNeededChildren;
      var vfKeys, annKeys;
      ghost var done;
      vfKeys, annKeys, done := GetNeededKeys(key);
      stream, special := vf.stream(vfKeys), annKeys != {};
      plan := MakePlan(vf, matcher, added, before, h, key, done, vfKeys, annKeys, parentMap, textCache, annotationsCache,
                       num, numNeededChildren, Special(), known, present);
    }

    /** Annotate the texts of the stream, up to one that is absent or has lost a parent. */
    method AnnotateStream(stream: seq<Key>, ghost h: History, ghost plan: Plan, ghost present: set<Key>)
        returns (trouble: Option<Trouble>)
      requires Acyclic(h.parents) && ValidMatcher(matcher) && Schedule(h, plan)
      requires Streaming(vf, h, plan, present, stream, parentMap)
      requires Stage(h, matcher, plan, plan.Start(), textCache, annotationsCache, numNeededChildren)
      modifies this`textCache, this`annotationsCache, this`numNeededChildren
      ensures trouble.Some? ==> Explained(h, plan.known, plan.held, plan.key, present, trouble.value)
      ensures trouble.None? ==>
                && Stage(h, matcher, plan, plan.Start() + |stream|, textCache, annotationsCache, numNeededChildren)
                && AllDone(h, plan, present, plan.Start() + |stream|)
    {
      for i := 0 to |stream|
        invariant Stage(h, matcher, plan, plan.Start() + i, textCache, annotationsCache, numNeededChildren)
        invariant AllDone(h, plan, present, plan.Start() + i)
      {
        trouble := AnnotateStreamed(stream, i, h, plan, plan.Start() + i, present);
        if trouble.Some? {
          return;
        }
      }
      trouble := None;
    }

    /** One record of the stream. */
    method AnnotateStreamed(stream: seq<Key>, i: nat, ghost h: History, ghost plan: Plan, ghost at: nat,
                            ghost present: set<Key>)
        returns (trouble: Option<Trouble>)
      requires Acyclic(h.parents) && ValidMatcher(matcher) && Schedule(h, plan) && i < |stream| && at == plan.Start() + i
      requires Streaming(vf, h, plan, present, stream, parentMap)
      requires Stage(h, matcher, plan, at, textCache, annotationsCache, numNeededChildren) && AllDone(h, plan, present, at)
      modifies this`textCache, this`annotationsCache, this`numNeededChildren
      ensures trouble.Some? ==> Explained(h, plan.known, plan.held, plan.key, present, trouble.value)
      ensures trouble.None? ==>
                && Stage(h, matcher, plan, at + 1, textCache, annotationsCache, numNeededChildren)
                && AllDone(h, plan, present, at + 1)
    {
      var k := stream[i];
      assert StreamAt(vf, h, plan, present, stream, parentMap, i);
      if k !in vf.texts {
        return Some(NotPresent(k));
      }
      ghost var texts := textCache;
      textCache := textCache[k := vf.texts[k]];
      var evicted := AnnotateScheduled(k, vf.texts[k], h, plan, at, texts);
      if evicted.Some? {
        return Some(Evicted(evicted.value));
      }
      assert DoneAt(h, plan, present, at);
      trouble := None;
    }

    // -------------------------------------------------------------------------------
    // One key for each line

    /**
     A single key for each line: a head of the keys the line is attributed to, so that none
     of the others descends from it. Without a tie breaker it is the least head.
     */
    method AnnotateFlat(key: Key, tiebreaker: Option<Tiebreaker>) returns (r: Result<seq<(Key, Line)>, Trouble>)
      requires Valid() && Special() <= {key} && Acyclic(Combined().parents) && ValidFile(vf) && ValidMatcher(matcher)
      requires NULL_REVISION !in Combined().texts && FairTiebreaker(tiebreaker)
      modifies this`parentMap, this`textCache, this`annotationsCache, this`numNeededChildren
      ensures r.Success? <==>
                CanAnnotate(old(Combined()), old(Present()), old(Known()), old(annotationsCache.Keys), key)
      ensures r.Success? ==> Flattened(old(Combined()), matcher, key, tiebreaker, r.value)
    {
      ghost var h := Combined();
      var annotated := Annotate(key);
      if annotated.Failure? {
        return Failure(annotated.error);
      }
      var (annotations, lines) := annotated.value;
      KnownIsAncestry(h, vf, added, key, parentMap);
      var out := Flatten(key, annotations, lines, tiebreaker, h);
      r := Success(out);
    }

    method Flatten(key: Key, annotations: seq<Annotation>, lines: Text, tiebreaker: Option<Tiebreaker>, ghost h: History)
        returns (out: seq<(Key, Line)>)
      requires Acyclic(h.parents) && Grounded(h.parents, key) && Ancestry(h, key, parentMap) && FairTiebreaker(tiebreaker)
      requires h.texts.Keys == h.parents.Keys && NULL_REVISION !in h.texts
      requires forall k | AncestorOrSelf(h.parents, k, key) :: k in h.texts
      requires annotations == AnnotationOf(h, matcher, key) && key in h.texts && lines == h.texts[key]
      ensures Flattened(h, matcher, key, tiebreaker, out)
    {
      ghost var pm := parentMap;
      FlatReady(h, matcher, key, pm, annotations);
      var items := ItemsOf(parentMap);
      var provider := new KnownGraph(items);
      out := FlattenLines(provider, annotations, lines, tiebreaker);
      FlatDone(h, matcher, key, pm, annotations, lines, tiebreaker, out);
    }
  }

  lemma AddedTogether(vf: VersionedFile, added: map<Key, Text>, parentMap: ParentMap, key: Key, parentKeys: seq<Key>,
                      lines: Text)
    ensures var h := Together(vf, added, parentMap);
            Together(vf, added[key := lines], parentMap[key := parentKeys])
            == History(h.texts[key := lines], h.parents[key := parentKeys])
  {
    Overlay(vf.texts, added, key, lines);
    Overlay(FileParents(vf), parentMap, key, parentKeys);
  }

  lemma AddedIsValid(vf: VersionedFile, m: Matcher, added: map<Key, Text>, parentMap: ParentMap,
                     texts: map<Key, Text>, anns: map<Key, seq<Annotation>>, num: map<Key, int>,
                     key: Key, parentKeys: seq<Key>, lines: Text)
    requires Consistent(vf, m, added, parentMap, texts, anns, num) && key !in parentMap
    ensures Consistent(vf, m, added[key := lines], parentMap[key := parentKeys], texts[key := lines], anns, num)
    ensures texts[key := lines].Keys - anns.Keys == texts.Keys - anns.Keys + {key}
    ensures parentMap[key := parentKeys].Keys - (texts[key := lines].Keys - anns.Keys)
            == parentMap.Keys - (texts.Keys - anns.Keys)
  {
    AddedIsConsistent(vf, m, added, parentMap, texts, anns, num, key, parentKeys, lines);
  }

  /** The parent map is part of the history, and holds the ancestry of `key` in full. */
  ghost predicate Ancestry(h: History, key: Key, parentMap: ParentMap) {
    && (forall k {:trigger Parents(parentMap, k)} | k in parentMap ::
          k in h.parents && Parents(parentMap, k) == Parents(h.parents, k))
    && (forall k {:trigger KnownParents(h, parentMap, k)} | AncestorOrSelf(h.parents, k, key) ::
          KnownParents(h, parentMap, k))
  }

  ghost predicate KnownParents(h: History, parentMap: ParentMap, k: Key) {
    (k in parentMap <==> k in h.parents) && Parents(parentMap, k) == Parents(h.parents, k)
  }

  lemma AncestryAcyclic(h: History, key: Key, parentMap: ParentMap)
    requires Acyclic(h.parents) && Ancestry(h, key, parentMap)
    ensures Acyclic(parentMap)
  {
    forall k, p ensures p in Parents(parentMap, k) ==> p in Parents(h.parents, k) {}
    AcyclicMonotone(parentMap, h.parents);
  }

  /** The heads of the origins of a line are the same in the part of the history that is known. */
  lemma FlatOrigins(h: History, m: Matcher, key: Key, parentMap: ParentMap, i: nat)
    requires Acyclic(h.parents) && Grounded(h.parents, key) && Ancestry(h, key, parentMap)
    requires h.texts.Keys == h.parents.Keys && NULL_REVISION !in h.texts
    requires forall k | AncestorOrSelf(h.parents, k, key) :: k in h.texts
    requires i < |TextOf(h, key)|
    ensures var annotation, origins := AnnotationOf(h, m, key)[i], Origins(h, m, key, i);
            && |annotation| > 0 && SetOf(annotation) == origins <= parentMap.Keys && NULL_REVISION !in annotation
            && HeadsOf(parentMap, origins) == HeadsOf(h.parents, origins)
  {
    var annotation, origins := AnnotationOf(h, m, key)[i], Origins(h, m, key, i);
    SortedSetIs(origins);
    OriginsNonEmpty(h, m, key, i);
    assert annotation != [] by {
      var o :| o in origins;
      assert o in SetOf(annotation);
    }
    forall o | o in origins ensures o in parentMap && o != NULL_REVISION && AncestorOrSelf(h.parents, o, key) {
      OriginIsAncestor(h, m, key, i, o);
      assert KnownParents(h, parentMap, o);
    }
    assert NULL_REVISION !in SetOf(annotation);
    OriginHeads(h, key, parentMap, origins);
  }

  lemma FlatReady(h: History, m: Matcher, key: Key, parentMap: ParentMap, annotations: seq<Annotation>)
    requires Acyclic(h.parents) && Grounded(h.parents, key) && Ancestry(h, key, parentMap)
    requires h.texts.Keys == h.parents.Keys && NULL_REVISION !in h.texts
    requires forall k | AncestorOrSelf(h.parents, k, key) :: k in h.texts
    requires annotations == AnnotationOf(h, m, key)
    ensures Acyclic(parentMap)
    ensures forall i {:trigger annotations[i]} | 0 <= i < |annotations| :: KnownLine(parentMap, annotations[i])
  {
    AncestryAcyclic(h, key, parentMap);
    forall i: nat | i < |annotations| ensures KnownLine(parentMap, annotations[i]) {
      FlatOrigins(h, m, key, parentMap, i);
    }
  }

  /** Each line of `key` with a head of its origins. */
  ghost predicate Flattened(h: History, m: Matcher, key: Key, tiebreaker: Option<Tiebreaker>, out: seq<(Key, Line)>) {
    && Grounded(h.parents, key) && key in h.texts && |out| == |h.texts[key]|
    && forall i {:trigger out[i]} | 0 <= i < |out| ::
         FlatLine(h.parents, Origins(h, m, key, i), h.texts[key][i], tiebreaker, out[i])
  }

  lemma FlatDone(h: History, m: Matcher, key: Key, parentMap: ParentMap, annotations: seq<Annotation>, lines: Text,
                 tiebreaker: Option<Tiebreaker>, out: seq<(Key, Line)>)
    requires Acyclic(h.parents) && Grounded(h.parents, key) && Ancestry(h, key, parentMap)
    requires h.texts.Keys == h.parents.Keys && NULL_REVISION !in h.texts
    requires forall k | AncestorOrSelf(h.parents, k, key) :: k in h.texts
    requires annotations == AnnotationOf(h, m, key) && lines == TextOf(h, key) && |out| == |lines|
    requires forall i {:trigger out[i]} | 0 <= i < |out| ::
               FlatLine(parentMap, SetOf(annotations[i]), lines[i], tiebreaker, out[i])
    ensures forall i {:trigger out[i]} | 0 <= i < |out| ::
              FlatLine(h.parents, Origins(h, m, key, i), lines[i], tiebreaker, out[i])
  {
    forall i: nat | i < |out| ensures FlatLine(h.parents, Origins(h, m, key, i), lines[i], tiebreaker, out[i]) {
      FlatOrigins(h, m, key, parentMap, i);
    }
  }

  lemma OriginHeads(h: History, key: Key, parentMap: ParentMap, origins: set<Key>)
    requires Acyclic(h.parents) && Ancestry(h, key, parentMap) && h.texts.Keys == h.parents.Keys
    requires forall k | AncestorOrSelf(h.parents, k, key) :: k in h.texts
    requires origins <= parentMap.Keys && forall o | o in origins :: AncestorOrSelf(h.parents, o, key)
    ensures HeadsOf(parentMap, origins) == HeadsOf(h.parents, origins)
  {
    var known := set k | k in parentMap && AncestorOrSelf(h.parents, k, key);
    forall k, p | k in known && p in Parents(parentMap, k) ensures p in known {
      ParentOfAncestor(h, key, k, p);
      assert KnownParents(h, parentMap, p);
    }
    HeadsLocal(parentMap, h.parents, known, origins);
  }

  /** Once `key` has been annotated, all its ancestors are known. */
  lemma KnownIsAncestry(h: History, vf: VersionedFile, added: map<Key, Text>, key: Key, parentMap: ParentMap)
    requires ValidFile(vf) && h == Together(vf, added, parentMap) && FromFile(vf, added, parentMap)
    requires key in parentMap && ClosedUnderParents(h.parents, parentMap.Keys)
    ensures Ancestry(h, key, parentMap) && h.texts.Keys == h.parents.Keys
    ensures forall k | AncestorOrSelf(h.parents, k, key) :: k in h.texts
  {
    forall k | AncestorOrSelf(h.parents, k, key) ensures k in parentMap && KnownParents(h, parentMap, k) {
      if k != key {
        var n: nat :| n > 0 && Steps(h.parents, key, k, n);
        AncestorsInClosed(h.parents, parentMap.Keys, key, k, n);
      }
    }
  }

  /** The parents of the next text are cached as they should be, if at all. */
  lemma AllRight(h: History, m: Matcher, plan: Plan, i: nat,
                 texts: map<Key, Text>, anns: map<Key, seq<Annotation>>, num: map<Key, int>)
    requires Acyclic(h.parents) && Schedule(h, plan) && plan.Start() <= i < |plan.full| && plan.full[i] in h.texts
    requires Stage(h, m, plan, i, texts, anns, num)
    ensures var k := plan.full[i];
            CachedRight(h, m, k, texts[k := h.texts[k]], anns, num)
    ensures forall p | p in Parents(h.parents, plan.full[i]) ::
              p != plan.full[i] && (p in texts <==> p in plan.full[..i]) && (p in anns <==> p in plan.full[..i])
  {
    var k := plan.full[i];
    forall p | p in Parents(h.parents, k)
      ensures p != k && (p in texts <==> p in plan.full[..i]) && (p in anns <==> p in plan.full[..i])
      ensures CachedAt(h, m, texts[k := h.texts[k]], anns, num, p)
    {
      NextParent(h, plan, i, p);
      ParentsCached(h, m, plan, i, texts, anns, num, p);
      assert ParentAt(h, m, plan.full[..i], texts, anns, num, p);
    }
  }

  /** The uses by the given parents are counted off, and what is exhausted is gone. */
  ghost predicate Released(num: map<Key, int>, num': map<Key, int>, parents: seq<Key>, texts: map<Key, Text>,
                           texts': map<Key, Text>, anns: map<Key, seq<Annotation>>, anns': map<Key, seq<Annotation>>) {
    && CountedOff(num, num', parents)
    && texts' == texts - Exhausted(num', parents) && anns' == anns - Exhausted(num', parents)
  }

  lemma ReleasedNext(num: map<Key, int>, before: map<Key, int>, after: map<Key, int>, parentKeys: seq<Key>, j: nat,
                     texts: map<Key, Text>, texts': map<Key, Text>, texts'': map<Key, Text>,
                     anns: map<Key, seq<Annotation>>, anns': map<Key, seq<Annotation>>, anns'': map<Key, seq<Annotation>>)
    requires j < |parentKeys| && Released(num, before, parentKeys[..j], texts, texts', anns, anns')
    requires parentKeys[j] in num && num[parentKeys[j]] > 0
    requires var p := parentKeys[j];
             && p in before && after == before[p := before[p] - 1]
             && var dropped := if after[p] == 0 then {p} else {};
                texts'' == texts' - dropped && anns'' == anns' - dropped
    ensures Released(num, after, parentKeys[..j + 1], texts, texts'', anns, anns'')
  {
    CountOne(num, before, parentKeys, j);
    var p := parentKeys[j];
    var gone, dropped := Exhausted(before, parentKeys[..j]), if after[p] == 0 then {p} else {};
    assert (texts - gone) - dropped == texts - (gone + dropped);
    assert (anns - gone) - dropped == anns - (gone + dropped);
  }

  lemma CountOne(num: map<Key, int>, before: map<Key, int>, parentKeys: seq<Key>, j: nat)
    requires j < |parentKeys| && CountedOff(num, before, parentKeys[..j])
    requires parentKeys[j] in num && num[parentKeys[j]] > 0
    ensures parentKeys[j] in before
    ensures before[parentKeys[j]] == 1 ==> parentKeys[j] !in Exhausted(before, parentKeys[..j])
    ensures var p := parentKeys[j];
            var after := before[p := before[p] - 1];
            && CountedOff(num, after, parentKeys[..j + 1])
            && Exhausted(after, parentKeys[..j + 1])
               == Exhausted(before, parentKeys[..j]) + if after[p] == 0 then {p} else {}
  {
    var p := parentKeys[j];
    assert parentKeys[..j + 1] == parentKeys[..j] + [p];
    assert parentKeys == parentKeys[..j + 1] + parentKeys[j + 1..];
    assert multiset(parentKeys[..j + 1]) == multiset(parentKeys[..j]) + multiset{p};
    assert before[p] <= 0 ==> p in multiset(parentKeys[..j]);
  }

  /** If the parent is cached, then with its text and its annotation, and it is counted. */
  ghost predicate CachedAt(h: History, m: Matcher, texts: map<Key, Text>, anns: map<Key, seq<Annotation>>,
                           num: map<Key, int>, p: Key) {
    p in texts && p in anns ==>
      && texts[p] == TextOf(h, p) && Grounded(h.parents, p) && anns[p] == AnnotationOf(h, m, p)
      && p in num && num[p] > 0
  }

  ghost predicate CachedRight(h: History, m: Matcher, key: Key, texts: map<Key, Text>,
                              anns: map<Key, seq<Annotation>>, num: map<Key, int>) {
    forall p {:trigger CachedAt(h, m, texts, anns, num, p)} |
      p in Parents(h.parents, key) :: CachedAt(h, m, texts, anns, num, p)
  }

  ghost predicate MissingParent(h: History, key: Key, texts: map<Key, Text>, anns: map<Key, seq<Annotation>>, p: Key) {
    p in Parents(h.parents, key) && !(p in texts && p in anns)
  }

  lemma ParentReady(h: History, m: Matcher, key: Key, texts: map<Key, Text>, anns: map<Key, seq<Annotation>>,
                    num: map<Key, int>, j: nat)
    requires CachedRight(h, m, key, texts, anns, num) && j < |Parents(h.parents, key)|
    requires Parents(h.parents, key)[j] in texts && Parents(h.parents, key)[j] in anns
    ensures var p := Parents(h.parents, key)[j];
            && texts[p] == TextOf(h, p) && Grounded(h.parents, p) && anns[p] == AnnotationOf(h, m, p)
            && |anns[p]| == |texts[p]|
  {
    assert CachedAt(h, m, texts, anns, num, Parents(h.parents, key)[j]);
  }

  lemma NoOwnParent(h: History, m: Matcher, key: Key, texts: map<Key, Text>, anns: map<Key, seq<Annotation>>,
                    num: map<Key, int>)
    requires Acyclic(h.parents) && CachedRight(h, m, key, texts, anns, num)
    ensures key !in Parents(h.parents, key)
    ensures forall p | p in Parents(h.parents, key) && p in texts && p in anns :: p in num && num[p] > 0
  {
    forall p | p in Parents(h.parents, key) && p in texts && p in anns ensures p in num && num[p] > 0 {
      assert CachedAt(h, m, texts, anns, num, p);
    }
    if key in Parents(h.parents, key) {
      ParentIsAncestor(h.parents, key, key);
    }
  }

  /** What a round looks up is what the history says of the needed keys that are new. */
  lemma RoundKeys(h: History, vf: VersionedFile, special: set<Key>, needed: set<Key>, before: ParentMap,
                  parentMap: ParentMap, next: ParentMap, found: ParentMap)
    requires FileParts(h, vf, before) && special <= before.Keys <= parentMap.Keys
    requires forall k {:trigger k in parentMap} | k in parentMap :: k in h.parents && parentMap[k] == h.parents[k]
    requires next == map k | k in needed * special :: parentMap[k]
    requires found == map k | k in needed - parentMap.Keys && k in FileParents(vf) :: FileParents(vf)[k]
    ensures (next + found).Keys == set k | k in needed && (k in special || k !in parentMap) && k in h.parents
    ensures forall k | k in next + found :: k in h.parents && (next + found)[k] == h.parents[k]
  {
  }

  lemma GatheringHolds(h: History, key: Key, special: set<Key>, known: set<Key>, held: set<Key>, done: seq<Key>,
                       needed: set<Key>, vfKeys: set<Key>, annKeys: set<Key>, parentMap: ParentMap)
    requires Gathering(h, key, special, known, held, done, needed, vfKeys, annKeys, parentMap)
    ensures forall k {:trigger k in parentMap} | k in parentMap :: k in h.parents && parentMap[k] == h.parents[k]
  {
  }

  lemma RoundParents(h: History, parentMap: ParentMap, next: ParentMap, more: seq<Key>)
    requires forall k {:trigger k in parentMap} | k in parentMap :: k in h.parents && parentMap[k] == h.parents[k]
    requires forall k | k in next :: k in h.parents && next[k] == h.parents[k]
    requires SetOf(more) == next.Keys
    ensures parentMap + next == map k | k in parentMap.Keys + SetOf(more) :: h.parents[k]
  {
  }

  /** The history is what is known, and what the file says of all other keys. */
  ghost predicate FileParts(h: History, vf: VersionedFile, parentMap: ParentMap) {
    && (forall k {:trigger k in parentMap} | k in parentMap :: k in h.parents && parentMap[k] == h.parents[k])
    && (forall k {:trigger k in h.parents} | k !in parentMap :: k in h.parents <==> k in FileParents(vf))
    && (forall k {:trigger h.parents[k]} | k !in parentMap && k in h.parents :: h.parents[k] == FileParents(vf)[k])
  }

  lemma StartGathering(vf: VersionedFile, m: Matcher, added: map<Key, Text>, parentMap: ParentMap,
                       texts: map<Key, Text>, anns: map<Key, seq<Annotation>>, num: map<Key, int>, key: Key)
    requires Consistent(vf, m, added, parentMap, texts, anns, num) && texts.Keys - anns.Keys <= {key}
    requires Acyclic(Together(vf, added, parentMap).parents)
    ensures var h, special, held := Together(vf, added, parentMap), texts.Keys - anns.Keys, anns.Keys;
            var known := parentMap.Keys - special;
            && held <= texts.Keys <= parentMap.Keys && special <= h.parents.Keys && FileParts(h, vf, parentMap)
            && Gathering(h, key, special, known, held, [], {key}, {}, {}, parentMap)
            && Needs(h.parents, [], held + {key}, known - held - {key}, num[key := 1])
            && ClosedUnderParents(h.parents, known)
  {
    var h, special, held := Together(vf, added, parentMap), texts.Keys - anns.Keys, anns.Keys;
    ConsistentMeans(vf, m, added, parentMap, texts, anns, num);
    CombinedHolds(vf, added, parentMap);
    GatherStart(h, key, special, parentMap.Keys - special, held, parentMap);
    NeedsStart(h.parents, parentMap.Keys - special, held, key, num);
  }

  lemma CombinedHolds(vf: VersionedFile, added: map<Key, Text>, parentMap: ParentMap)
    ensures FileParts(Together(vf, added, parentMap), vf, parentMap)
  {
  }

  lemma RoundProgress(h: History, done: seq<Key>, more: seq<Key>, needed: set<Key>, needed': set<Key>)
    requires NoDuplicates(done + more) && SetOf(more) <= h.parents.Keys && needed != {}
    requires more == [] ==> needed' == {}
    ensures more != [] ==> h.parents.Keys - SetOf(done + more) < h.parents.Keys - SetOf(done)
    ensures more == [] ==> SetOf(done + more) == SetOf(done) && needed' < needed
  {
    assert SetOf(done + more) == SetOf(done) + SetOf(more);
    if more != [] {
      var k := more[0];
      assert k in SetOf(more) && k in h.parents.Keys - SetOf(done) by {
        assert (done + more)[|done|] == k;
        assert forall i | 0 <= i < |done| :: (done + more)[i] == done[i];
      }
    }
  }
}

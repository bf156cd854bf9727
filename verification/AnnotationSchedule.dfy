/** Annotating the gathered texts one after another: what the caches hold at each step. */
module AnnotationSchedule {
  import opened Keys
  import opened Dag
  import opened Blame
  import opened AnnotatorState

  /** A key without a text, or a parent whose text is no longer cached. */
  datatype Trouble = NotPresent(key: Key) | Evicted(key: Key)

  /**
   A call for `key` when `known` is known and `held` is cached. The texts of `full` count as
   annotated up to position `Start`; the rest is annotated in this order.
   */
  datatype Plan = Plan(key: Key, known: set<Key>, held: set<Key>, special: set<Key>, full: seq<Key>) {
    ghost function Wanted(): set<Key> { held + {key} }

    /** Known, but not cached any more. */
    ghost function Lost(): set<Key> { known - held - {key} }

    /** The key was annotated before, and must be annotated again. */
    ghost predicate Again() { key in known && key !in held }

    ghost function Start(): nat { |SeqOf(held)| }
  }

  /** Each key once: first what is cached, then what the call annotates, parents first. */
  ghost predicate Ordered(h: History, plan: Plan) {
    && NoDuplicates(plan.full) && plan.Start() <= |plan.full| && plan.full[..plan.Start()] == SeqOf(plan.held)
    && plan.special <= {plan.key} && plan.held <= plan.known
    && (plan.Again() ==> plan.special == {} && plan.full == SeqOf(plan.held) + [plan.key])
    && (forall k {:trigger Included(h, plan, k)} :: Included(h, plan, k))
    && (forall i, p {:trigger ParentEarlier(h, plan, i, p)} :: ParentEarlier(h, plan, i, p))
  }

  ghost predicate Included(h: History, plan: Plan, k: Key) {
    k in plan.full <==> k in plan.held || ToAnnotate(h, plan.known, plan.held, plan.key, k)
  }

  ghost predicate Schedule(h: History, plan: Plan) {
    Ordered(h, plan) && forall i {:trigger Awaited(h, plan, i)} :: Awaited(h, plan, i)
  }

  /** A text is annotated because it was asked for, or is a parent of one that comes later. */
  ghost predicate Awaited(h: History, plan: Plan, i: int) {
    plan.Start() <= i < |plan.full| ==>
      plan.full[i] in plan.Wanted() ||
      exists j {:trigger plan.full[j]} :: i < j < |plan.full| && plan.full[i] in Parents(h.parents, plan.full[j])
  }

  ghost predicate ParentEarlier(h: History, plan: Plan, i: int, p: Key) {
    plan.Start() <= i < |plan.full| && p in Parents(h.parents, plan.full[i]) && p in plan.full ==> p in plan.full[..i]
  }

  lemma ScheduledKey(h: History, plan: Plan, i: nat)
    requires Ordered(h, plan) && plan.Start() <= i < |plan.full|
    ensures plan.full[i] !in plan.held && plan.full[i] !in plan.Lost()
    ensures ToAnnotate(h, plan.known, plan.held, plan.key, plan.full[i])
    ensures AncestorOrSelf(h.parents, plan.full[i], plan.key)
  {
    var k := plan.full[i];
    HeldIsEarlier(plan, i);
    assert k in plan.full && Included(h, plan, k);
  }

  lemma HeldIsEarlier(plan: Plan, i: nat)
    requires NoDuplicates(plan.full) && plan.Start() <= i < |plan.full| && plan.full[..plan.Start()] == SeqOf(plan.held)
    ensures plan.full[i] !in plan.held
  {
    var first := plan.full[..plan.Start()];
    SetAsSequence(SeqOf(plan.held), plan.held);
    assert forall j | 0 <= j < |first| :: first[j] == plan.full[j] != plan.full[i];
    assert plan.full[i] !in first;
  }

  // ---------------------------------------------------------------------------------
  // The caches and the counters

  ghost predicate Alive(num: map<Key, int>, k: Key) {
    k in num && num[k] > 0
  }

  ghost predicate TextAt(h: History, special: set<Key>, annotated: seq<Key>, texts: map<Key, Text>,
                         num: map<Key, int>, k: Key) {
    && (k in texts <==> (k in annotated && Alive(num, k)) || k in special)
    && (k in texts ==> k in h.texts && texts[k] == h.texts[k])
  }

  ghost predicate AnnotationAt(h: History, m: Matcher, annotated: seq<Key>, anns: map<Key, seq<Annotation>>,
                               num: map<Key, int>, k: Key) {
    && (k in anns <==> k in annotated && Alive(num, k))
    && (k in anns ==> Grounded(h.parents, k) && anns[k] == AnnotationOf(h, m, k))
  }

  /** The caches hold exactly the annotated texts that are still needed. */
  ghost predicate Cached(h: History, m: Matcher, special: set<Key>, annotated: seq<Key>,
                         texts: map<Key, Text>, anns: map<Key, seq<Annotation>>, num: map<Key, int>) {
    && (forall k {:trigger TextAt(h, special, annotated, texts, num, k)} :: TextAt(h, special, annotated, texts, num, k))
    && (forall k {:trigger AnnotationAt(h, m, annotated, anns, num, k)} :: AnnotationAt(h, m, annotated, anns, num, k))
  }

  /** The state before text number `i`, when all uses by the texts to come have been counted. */
  ghost predicate Annotating(h: History, m: Matcher, plan: Plan, i: nat,
                             texts: map<Key, Text>, anns: map<Key, seq<Annotation>>, num: map<Key, int>) {
    && i <= |plan.full|
    && Needs(h.parents, plan.full[i..], plan.Wanted(), plan.Lost(), num)
    && Cached(h, m, plan.special, plan.full[..i], texts, anns, num)
  }

  /** Before and after a text is annotated again: its uses of the parents are not counted. */
  ghost predicate Repeating(h: History, m: Matcher, plan: Plan, i: nat,
                            texts: map<Key, Text>, anns: map<Key, seq<Annotation>>, num: map<Key, int>) {
    var keys := if i == plan.Start() then plan.held else HeldAfter(h.parents, plan.known, plan.held, plan.key);
    && plan.Start() <= i <= |plan.full| && Resting(h, m, keys, {}, texts, anns)
    && Needs(h.parents, [], keys + {plan.key}, plan.known - keys - {plan.key}, num)
  }

  ghost predicate Stage(h: History, m: Matcher, plan: Plan, i: nat,
                        texts: map<Key, Text>, anns: map<Key, seq<Annotation>>, num: map<Key, int>) {
    if plan.Again() then Repeating(h, m, plan, i, texts, anns, num)
    else Annotating(h, m, plan, i, texts, anns, num)
  }

  /** The counters after the parents of `k` have been counted off. */
  ghost predicate CountedOff(num: map<Key, int>, num': map<Key, int>, parents: seq<Key>) {
    num'.Keys == num.Keys && forall k | k in num :: num'[k] == num[k] - multiset(parents)[k]
  }

  ghost function Exhausted(num: map<Key, int>, parents: seq<Key>): set<Key> {
    set p | p in parents && p in num && num[p] <= 0
  }

  // ---------------------------------------------------------------------------------
  // The parents of the next text

  /** Every parent of the next text that is not lost is counted as often as it is named. */
  lemma ParentsCounted(h: History, plan: Plan, i: nat, num: map<Key, int>, p: Key)
    requires i < |plan.full| && Needs(h.parents, plan.full[i..], plan.Wanted(), plan.Lost(), num)
    requires p in Parents(h.parents, plan.full[i]) && p !in plan.Lost()
    ensures p in num && num[p] >= multiset(Parents(h.parents, plan.full[i]))[p] > 0
  {
    assert NeedAt(h.parents, plan.full[i..], plan.Wanted(), num, p);
    assert plan.full[i..][0] == plan.full[i];
    assert p in multiset(Parents(h.parents, plan.full[i]));
  }

  /** A parent of the next text is cached, with its annotation, exactly if it came before. */
  ghost predicate ParentAt(h: History, m: Matcher, before: seq<Key>, texts: map<Key, Text>,
                           anns: map<Key, seq<Annotation>>, num: map<Key, int>, p: Key) {
    && (p in texts <==> p in before) && (p in anns <==> p in before)
    && (p in before ==>
          && p in h.texts && texts[p] == h.texts[p]
          && Grounded(h.parents, p) && anns[p] == AnnotationOf(h, m, p)
          && p in num && num[p] > 0)
  }

  lemma NextParent(h: History, plan: Plan, i: nat, p: Key)
    requires Acyclic(h.parents) && Schedule(h, plan) && plan.Start() <= i < |plan.full|
    requires p in Parents(h.parents, plan.full[i])
    ensures p != plan.key && p != plan.full[i] && p !in plan.special
  {
    ScheduledKey(h, plan, i);
    ParentOfAncestor(h, plan.key, plan.full[i], p);
    ParentIsAncestor(h.parents, p, plan.full[i]);
  }

  lemma ParentsCached(h: History, m: Matcher, plan: Plan, i: nat,
                      texts: map<Key, Text>, anns: map<Key, seq<Annotation>>, num: map<Key, int>, p: Key)
    requires Acyclic(h.parents) && Schedule(h, plan) && plan.Start() <= i < |plan.full|
    requires Stage(h, m, plan, i, texts, anns, num) && p in Parents(h.parents, plan.full[i])
    ensures ParentAt(h, m, plan.full[..i], texts, anns, num, p)
  {
    NextParent(h, plan, i, p);
    if plan.Again() {
      RepeatedParent(h, m, plan, texts, anns, num, p);
      assert i == plan.Start() && plan.full[i] == plan.key;
    } else {
      if p in plan.full[..i] {
        AnnotatedIsKept(h, plan, p);
        ParentsCounted(h, plan, i, num, p);
      }
      assert TextAt(h, plan.special, plan.full[..i], texts, num, p);
      assert AnnotationAt(h, m, plan.full[..i], anns, num, p);
    }
  }

  lemma AnnotatedIsKept(h: History, plan: Plan, p: Key)
    requires Schedule(h, plan) && p in plan.full
    ensures p !in plan.Lost()
  {
    assert Included(h, plan, p);
  }

  lemma RepeatedParent(h: History, m: Matcher, plan: Plan, texts: map<Key, Text>, anns: map<Key, seq<Annotation>>,
                       num: map<Key, int>, p: Key)
    requires Repeating(h, m, plan, plan.Start(), texts, anns, num)
    requires p in Parents(h.parents, plan.key) && p != plan.key
    ensures ParentAt(h, m, SeqOf(plan.held), texts, anns, num, p)
  {
    SetAsSequence(SeqOf(plan.held), plan.held);
    if p in plan.held {
      assert NeedAt(h.parents, [], plan.held + {plan.key}, num, p);
    }
  }

  /** What follows from a parent that is not cached: neither cached before nor to be annotated. */
  lemma MissingIsLost(h: History, plan: Plan, i: nat, p: Key)
    requires Schedule(h, plan) && plan.Start() <= i < |plan.full|
    requires p in Parents(h.parents, plan.full[i]) && p !in plan.full[..i]
    ensures LostParent(h, plan.known, plan.held, plan.key, p)
  {
    assert ParentEarlier(h, plan, i, p);
    ScheduledKey(h, plan, i);
    assert Included(h, plan, p);
  }

  // ---------------------------------------------------------------------------------
  // One text

  /** Recording the annotation of text number `i` leads to the state before the next one. */
  lemma AnnotateNext(h: History, m: Matcher, plan: Plan, i: nat,
                     texts: map<Key, Text>, anns: map<Key, seq<Annotation>>, num: map<Key, int>, num': map<Key, int>)
    requires Acyclic(h.parents) && Schedule(h, plan) && plan.Start() <= i < |plan.full|
    requires Annotating(h, m, plan, i, texts, anns, num)
    requires plan.full[i] in h.texts && Grounded(h.parents, plan.full[i])
    requires forall p | p in Parents(h.parents, plan.full[i]) :: p in plan.full[..i]
    requires CountedOff(num, num', Parents(h.parents, plan.full[i]))
    ensures var k, parents := plan.full[i], Parents(h.parents, plan.full[i]);
            Annotating(h, m, plan, i + 1, texts[k := h.texts[k]] - Exhausted(num', parents),
                       anns[k := AnnotationOf(h, m, k)] - Exhausted(num', parents), num')
  {
    var k, parents := plan.full[i], Parents(h.parents, plan.full[i]);
    var texts' := texts[k := h.texts[k]] - Exhausted(num', parents);
    var anns' := anns[k := AnnotationOf(h, m, k)] - Exhausted(num', parents);
    var done, done' := plan.full[..i], plan.full[..i + 1];
    assert done' == done + [k];
    ParentsKept(h, plan, i);
    NextNeeds(h, plan, i, num, num');
    StillNeeded(h, plan, i, num');
    if k in parents { ParentIsAncestor(h.parents, k, k); }
    forall x ensures TextAt(h, plan.special, done', texts', num', x) {
      assert TextAt(h, plan.special, done, texts, num, x);
      AliveNext(h, plan, i, num, num', x);
    }
    forall x ensures AnnotationAt(h, m, done', anns', num', x) {
      assert AnnotationAt(h, m, done, anns, num, x);
      AliveNext(h, plan, i, num, num', x);
    }
  }

  lemma ParentsKept(h: History, plan: Plan, i: nat)
    requires Schedule(h, plan) && plan.Start() <= i < |plan.full|
    requires forall p | p in Parents(h.parents, plan.full[i]) :: p in plan.full[..i]
    ensures forall p | p in Parents(h.parents, plan.full[i]) :: p !in plan.Lost()
  {
    forall p | p in Parents(h.parents, plan.full[i]) ensures p !in plan.Lost() {
      AnnotatedIsKept(h, plan, p);
    }
  }

  /** Counting off changes who is alive only by exhausting parents. */
  lemma AliveNext(h: History, plan: Plan, i: nat, num: map<Key, int>, num': map<Key, int>, x: Key)
    requires i < |plan.full| && Needs(h.parents, plan.full[i..], plan.Wanted(), plan.Lost(), num)
    requires plan.special <= {plan.key}
    requires forall p | p in Parents(h.parents, plan.full[i]) :: p !in plan.Lost()
    requires CountedOff(num, num', Parents(h.parents, plan.full[i]))
    ensures Alive(num', x) <==> Alive(num, x) && x !in Exhausted(num', Parents(h.parents, plan.full[i]))
    ensures x in plan.special ==> x !in Exhausted(num', Parents(h.parents, plan.full[i]))
  {
    var parents := Parents(h.parents, plan.full[i]);
    if x in parents {
      ParentsCounted(h, plan, i, num, x);
    } else {
      assert x !in multiset(parents);
    }
    if x in plan.special {
      NextNeeds(h, plan, i, num, num');
      assert NeedAt(h.parents, plan.full[i + 1..], plan.Wanted(), num', x);
    }
  }

  lemma NextNeeds(h: History, plan: Plan, i: nat, num: map<Key, int>, num': map<Key, int>)
    requires i < |plan.full| && Needs(h.parents, plan.full[i..], plan.Wanted(), plan.Lost(), num)
    requires forall p | p in Parents(h.parents, plan.full[i]) :: p !in plan.Lost()
    requires CountedOff(num, num', Parents(h.parents, plan.full[i]))
    ensures Needs(h.parents, plan.full[i + 1..], plan.Wanted(), plan.Lost(), num')
  {
    var rest := plan.full[i + 1..];
    assert plan.full[i..][0] == plan.full[i] && plan.full[i..][1..] == rest;
    forall k | k !in plan.Lost() ensures NeedAt(h.parents, rest, plan.Wanted(), num', k) {
      assert NeedAt(h.parents, plan.full[i..], plan.Wanted(), num, k);
    }
  }

  /** A text that has just been annotated is needed: by a child to come, or by a caller. */
  lemma StillNeeded(h: History, plan: Plan, i: nat, num': map<Key, int>)
    requires Schedule(h, plan) && plan.Start() <= i < |plan.full|
    requires Needs(h.parents, plan.full[i + 1..], plan.Wanted(), plan.Lost(), num')
    ensures Alive(num', plan.full[i])
  {
    var k := plan.full[i];
    var rest := plan.full[i + 1..];
    ScheduledKey(h, plan, i);
    assert NeedAt(h.parents, rest, plan.Wanted(), num', k) && Awaited(h, plan, i);
    if k !in plan.Wanted() {
      var j :| i < j < |plan.full| && k in Parents(h.parents, plan.full[j]);
      assert rest[j - i - 1] == plan.full[j];
      UsedBy(h.parents, rest, plan.full[j], k);
    }
  }

  /** A text that is annotated again exhausts its parents. */
  lemma AnnotateAgain(h: History, m: Matcher, plan: Plan, texts: map<Key, Text>, anns: map<Key, seq<Annotation>>,
                      num: map<Key, int>, num': map<Key, int>)
    requires Acyclic(h.parents) && plan.Again() && |plan.full| == plan.Start() + 1
    requires plan.held <= plan.known && Repeating(h, m, plan, plan.Start(), texts, anns, num)
    requires plan.key in h.texts && Grounded(h.parents, plan.key)
    requires forall p | p in Parents(h.parents, plan.key) :: p in plan.held
    requires CountedOff(num, num', Parents(h.parents, plan.key))
    ensures var k, parents := plan.key, Parents(h.parents, plan.key);
            Repeating(h, m, plan, plan.Start() + 1, texts[k := h.texts[k]] - Exhausted(num', parents),
                      anns[k := AnnotationOf(h, m, k)] - Exhausted(num', parents), num')
  {
    if plan.key in Parents(h.parents, plan.key) { ParentIsAncestor(h.parents, plan.key, plan.key); }
    RepeatExhausts(h.parents, plan.held, plan.known - plan.held - {plan.key}, plan.key, num, num');
    RepeatNeeds(h.parents, plan.known, plan.held, plan.key, num, num');
    RepeatRests(h, m, plan.held, plan.key, SetOf(Parents(h.parents, plan.key)), texts, anns);
  }

  lemma RepeatRests(h: History, m: Matcher, held: set<Key>, key: Key, gone: set<Key>, texts: map<Key, Text>,
                    anns: map<Key, seq<Annotation>>)
    requires Resting(h, m, held, {}, texts, anns) && key in h.texts && Grounded(h.parents, key) && key !in gone
    ensures Resting(h, m, held - gone + {key}, {}, texts[key := h.texts[key]] - gone,
                    anns[key := AnnotationOf(h, m, key)] - gone)
  {
  }

  lemma RepeatExhausts(pm: ParentMap, held: set<Key>, lost: set<Key>, key: Key, num: map<Key, int>, num': map<Key, int>)
    requires held !! lost && Needs(pm, [], held + {key}, lost, num) && CountedOff(num, num', Parents(pm, key))
    requires forall p | p in Parents(pm, key) :: p in held
    ensures Exhausted(num', Parents(pm, key)) == SetOf(Parents(pm, key))
  {
    forall p | p in Parents(pm, key) ensures p in num' && num'[p] <= 0 {
      assert NeedAt(pm, [], held + {key}, num, p);
      assert p in multiset(Parents(pm, key));
    }
  }

  lemma RepeatNeeds(pm: ParentMap, known: set<Key>, held: set<Key>, key: Key, num: map<Key, int>, num': map<Key, int>)
    requires key in known && key !in held && held <= known && key !in Parents(pm, key)
    requires forall p | p in Parents(pm, key) :: p in held
    requires Needs(pm, [], held + {key}, known - held - {key}, num) && CountedOff(num, num', Parents(pm, key))
    ensures var keys := HeldAfter(pm, known, held, key); Needs(pm, [], keys + {key}, known - keys - {key}, num')
  {
    var keys := HeldAfter(pm, known, held, key);
    forall x | x !in known - keys - {key} ensures NeedAt(pm, [], keys + {key}, num', x) {
      assert NeedAt(pm, [], held + {key}, num, x);
      assert x !in multiset(Parents(pm, key));
    }
  }

  // ---------------------------------------------------------------------------------
  // The end

  /** At the end the caches hold what was cached before and the key, and nothing else. */
  lemma AnnotateEnd(h: History, m: Matcher, plan: Plan,
                    texts: map<Key, Text>, anns: map<Key, seq<Annotation>>, num: map<Key, int>)
    requires Schedule(h, plan) && Annotating(h, m, plan, |plan.full|, texts, anns, num) && !plan.Again()
    ensures Resting(h, m, plan.Wanted(), {}, texts, anns)
    ensures Needs(h.parents, [], plan.Wanted(), plan.Lost(), num)
  {
    var full := plan.full;
    assert full[..|full|] == full && full[|full|..] == [];
    assert AncestorOrSelf(h.parents, plan.key, plan.key);
    assert Included(h, plan, plan.key);
    forall k ensures k in full && Alive(num, k) <==> k in plan.Wanted() {
      assert Included(h, plan, k);
      if k !in plan.Lost() {
        assert NeedAt(h.parents, full[|full|..], plan.Wanted(), num, k);
      }
    }
    forall k ensures (k in texts <==> k in plan.Wanted()) && (k in texts ==> k in h.texts && texts[k] == h.texts[k]) {
      assert TextAt(h, plan.special, full[..|full|], texts, num, k);
    }
    forall k
      ensures k in anns <==> k in plan.Wanted()
      ensures k in anns ==> Grounded(h.parents, k) && anns[k] == AnnotationOf(h, m, k)
    {
      assert AnnotationAt(h, m, full[..|full|], anns, num, k);
    }
  }

  // ---------------------------------------------------------------------------------
  // Making the schedule

  lemma NeedsPermuted(pm: ParentMap, done: seq<Key>, full: seq<Key>, wanted: set<Key>, lost: set<Key>, num: map<Key, int>)
    requires Needs(pm, done, wanted, lost, num)
    requires NoDuplicates(done) && NoDuplicates(full)
    requires forall k | k in done :: k in full
    requires forall k | k in full && Parents(pm, k) != [] :: k in done
    ensures Needs(pm, full, wanted, lost, num)
  {
    forall k | k !in lost ensures NeedAt(pm, full, wanted, num, k) {
      assert NeedAt(pm, done, wanted, num, k);
      UsesOfPresent(pm, done, full, k);
    }
  }

  /** Keys without parents use nothing, so they can be left out of the count. */
  lemma UsesOfPresent(pm: ParentMap, done: seq<Key>, full: seq<Key>, k: Key)
    requires NoDuplicates(done) && NoDuplicates(full)
    requires forall x | x in done :: x in full
    requires forall x | x in full && Parents(pm, x) != [] :: x in done
    ensures Uses(pm, done, k) == Uses(pm, full, k)
  {
    var extra := SetOf(full) - SetOf(done);
    var rest := SeqOf(extra);
    SetAsSequence(rest, extra);
    WholeIsParts(done, full, extra, rest);
    UsesPermutation(pm, done + rest, full, k);
    UsesConcat(pm, done, rest, k);
    RootsUseNothing(pm, rest, k);
  }

  lemma WholeIsParts(done: seq<Key>, full: seq<Key>, extra: set<Key>, rest: seq<Key>)
    requires NoDuplicates(done) && NoDuplicates(full) && SetOf(done) <= SetOf(full)
    requires extra == SetOf(full) - SetOf(done) && multiset(rest) == multiset(extra)
    ensures multiset(done + rest) == multiset(full)
  {
    DistinctIsSet(done);
    DistinctIsSet(full);
    assert multiset(done) == multiset(SetOf(done)) && multiset(full) == multiset(SetOf(full));
    assert multiset(SetOf(full)) == multiset(SetOf(done)) + multiset(extra);
    assert multiset(done + rest) == multiset(done) + multiset(rest);
  }

  lemma {:induction false} RootsUseNothing(pm: ParentMap, todo: seq<Key>, k: Key)
    requires forall x | x in todo :: Parents(pm, x) == []
    ensures Uses(pm, todo, k) == 0
  {
    if |todo| > 0 {
      RootsUseNothing(pm, todo[1..], k);
    }
  }

  /** The texts to annotate: the stream, then the requested key if its text was added by hand. */
  ghost function ToCome(vf: VersionedFile, key: Key, vfKeys: set<Key>, annKeys: set<Key>): seq<Key> {
    vf.stream(vfKeys) + if annKeys == {} then [] else [key]
  }

  lemma ToComeKeys(vf: VersionedFile, key: Key, vfKeys: set<Key>, annKeys: set<Key>)
    requires ValidFile(vf) && vfKeys !! annKeys && annKeys <= {key}
    ensures NoDuplicates(ToCome(vf, key, vfKeys, annKeys))
    ensures SetOf(ToCome(vf, key, vfKeys, annKeys)) == vfKeys + annKeys
  {
    var s := vf.stream(vfKeys);
    assert ValidStream(vfKeys, FileParents(vf), s);
    assert forall k :: k in s <==> k in SetOf(s);
    assert annKeys != {} ==> annKeys == {key};
  }

  lemma ToComeInOrder(h: History, vf: VersionedFile, key: Key, vfKeys: set<Key>, annKeys: set<Key>, i: nat, p: Key)
    requires ValidFile(vf) && annKeys <= {key} && Acyclic(h.parents)
    requires forall k | k in vfKeys + annKeys :: AncestorOrSelf(h.parents, k, key)
    requires vfKeys == {key} || forall k | k in vfKeys :: Parents(h.parents, k) == Parents(FileParents(vf), k)
    requires var s := ToCome(vf, key, vfKeys, annKeys); i < |s| && s[i] in vfKeys + annKeys && p in Parents(h.parents, s[i])
    requires p in vfKeys + annKeys
    ensures p in ToCome(vf, key, vfKeys, annKeys)[..i]
  {
    var s, full := vf.stream(vfKeys), ToCome(vf, key, vfKeys, annKeys);
    assert ValidStream(vfKeys, FileParents(vf), s);
    assert forall k :: k in s <==> k in SetOf(s);
    ParentOfAncestor(h, key, full[i], p);
    if i < |s| {
      assert full[i] == s[i] && s[i] in s;
      assert p in s[..i] && full[..i] == s[..i];
    } else {
      assert full[..i] == s;
    }
  }

  lemma StreamOfOne(vf: VersionedFile, key: Key)
    requires ValidFile(vf)
    ensures vf.stream({key}) == [key]
  {
    var s := vf.stream({key});
    assert ValidStream({key}, FileParents(vf), s);
    DistinctIsSet(s);
    assert multiset(s) == multiset({key}) && |multiset(s)| == |s|;
    assert s[0] in SetOf(s);
  }

  lemma MakeSchedule(h: History, vf: VersionedFile, plan: Plan, done: seq<Key>, vfKeys: set<Key>, annKeys: set<Key>,
                     parentMap: ParentMap)
    requires Acyclic(h.parents) && ValidFile(vf) && ClosedUnderParents(h.parents, plan.known)
    requires Gathered(h, plan.key, plan.special, plan.known, plan.held, done, vfKeys, annKeys, parentMap)
    requires plan.key in plan.known || forall k | k in vfKeys :: Parents(h.parents, k) == Parents(FileParents(vf), k)
    requires plan.full == SeqOf(plan.held) + ToCome(vf, plan.key, vfKeys, annKeys)
    ensures Schedule(h, plan) && plan.full[plan.Start()..] == ToCome(vf, plan.key, vfKeys, annKeys)
  {
    GatheredApart(h, plan, done, vfKeys, annKeys, parentMap);
    MakeOrdered(h, vf, plan, vfKeys, annKeys);
    forall i ensures Awaited(h, plan, i) {
      MakeAwaited(h, plan, i);
    }
  }

  /** The texts to annotate, of which the key itself may have been added by hand. */
  ghost predicate Apart(h: History, plan: Plan, vfKeys: set<Key>, annKeys: set<Key>) {
    && vfKeys !! annKeys && plan.held !! vfKeys + annKeys && annKeys == plan.special <= {plan.key}
    && plan.held <= plan.known && (plan.Again() ==> vfKeys == {plan.key} && annKeys == {})
    && (plan.key in plan.known ==> vfKeys <= {plan.key})
    && (forall k {:trigger ToAnnotate(h, plan.known, plan.held, plan.key, k)} ::
          k in vfKeys + annKeys <==> ToAnnotate(h, plan.known, plan.held, plan.key, k))
  }

  lemma MakeOrdered(h: History, vf: VersionedFile, plan: Plan, vfKeys: set<Key>, annKeys: set<Key>)
    requires Acyclic(h.parents) && ValidFile(vf) && Apart(h, plan, vfKeys, annKeys)
    requires plan.key in plan.known || forall k | k in vfKeys :: Parents(h.parents, k) == Parents(FileParents(vf), k)
    requires plan.full == SeqOf(plan.held) + ToCome(vf, plan.key, vfKeys, annKeys)
    ensures Ordered(h, plan) && plan.full[plan.Start()..] == ToCome(vf, plan.key, vfKeys, annKeys)
  {
    ToComeKeys(vf, plan.key, vfKeys, annKeys);
    MakeAllEarlier(h, vf, plan, vfKeys, annKeys);
    AgainIsOne(vf, plan, vfKeys, annKeys);
    OrderedFrom(h, plan, ToCome(vf, plan.key, vfKeys, annKeys), vfKeys + annKeys);
  }

  lemma AgainIsOne(vf: VersionedFile, plan: Plan, vfKeys: set<Key>, annKeys: set<Key>)
    requires ValidFile(vf) && (plan.Again() ==> vfKeys == {plan.key} && annKeys == {})
    ensures plan.Again() ==> ToCome(vf, plan.key, vfKeys, annKeys) == [plan.key]
  {
    StreamOfOne(vf, plan.key);
  }

  lemma OrderedFrom(h: History, plan: Plan, come: seq<Key>, ks: set<Key>)
    requires NoDuplicates(come) && SetOf(come) == ks && plan.held !! ks && plan.full == SeqOf(plan.held) + come
    requires plan.special <= {plan.key} && plan.held <= plan.known
    requires plan.Again() ==> plan.special == {} && come == [plan.key]
    requires forall k {:trigger ToAnnotate(h, plan.known, plan.held, plan.key, k)} ::
               k in ks <==> ToAnnotate(h, plan.known, plan.held, plan.key, k)
    requires forall i, p {:trigger ParentEarlier(h, plan, i, p)} :: ParentEarlier(h, plan, i, p)
    ensures Ordered(h, plan) && plan.full[plan.Start()..] == come
  {
    MakeFull(plan, come, ks);
    MakeIncluded(h, plan, ks);
  }

  lemma MakeIncluded(h: History, plan: Plan, ks: set<Key>)
    requires SetOf(plan.full) == plan.held + ks
    requires forall k {:trigger ToAnnotate(h, plan.known, plan.held, plan.key, k)} ::
               k in ks <==> ToAnnotate(h, plan.known, plan.held, plan.key, k)
    ensures forall k {:trigger Included(h, plan, k)} :: Included(h, plan, k)
  {
    forall k ensures Included(h, plan, k) {
      assert k in ks <==> ToAnnotate(h, plan.known, plan.held, plan.key, k);
      assert k in plan.full <==> k in SetOf(plan.full);
    }
  }

  lemma MakeAllEarlier(h: History, vf: VersionedFile, plan: Plan, vfKeys: set<Key>, annKeys: set<Key>)
    requires Acyclic(h.parents) && ValidFile(vf) && Apart(h, plan, vfKeys, annKeys)
    requires plan.key in plan.known || forall k | k in vfKeys :: Parents(h.parents, k) == Parents(FileParents(vf), k)
    requires plan.full == SeqOf(plan.held) + ToCome(vf, plan.key, vfKeys, annKeys)
    requires SetOf(ToCome(vf, plan.key, vfKeys, annKeys)) == vfKeys + annKeys
    ensures forall i, p {:trigger ParentEarlier(h, plan, i, p)} :: ParentEarlier(h, plan, i, p)
  {
    forall i, p ensures ParentEarlier(h, plan, i, p) {
      MakeEarlier(h, vf, plan, vfKeys, annKeys, i, p);
    }
  }

  lemma MakeFull(plan: Plan, come: seq<Key>, ks: set<Key>)
    requires NoDuplicates(come) && plan.held !! ks && plan.full == SeqOf(plan.held) + come
    requires SetOf(come) == ks
    ensures NoDuplicates(plan.full) && plan.Start() <= |plan.full|
    ensures plan.full[..plan.Start()] == SeqOf(plan.held) && plan.full[plan.Start()..] == come
    ensures SetOf(plan.full) == plan.held + ks
  {
    SetAsSequence(SeqOf(plan.held), plan.held);
    assert SetOf(SeqOf(plan.held)) == plan.held;
    RoundIsNew(SeqOf(plan.held), come);
  }

  lemma GatheredApart(h: History, plan: Plan, done: seq<Key>, vfKeys: set<Key>, annKeys: set<Key>, parentMap: ParentMap)
    requires Gathered(h, plan.key, plan.special, plan.known, plan.held, done, vfKeys, annKeys, parentMap)
    ensures Apart(h, plan, vfKeys, annKeys)
  {
  }

  lemma MakeEarlier(h: History, vf: VersionedFile, plan: Plan, vfKeys: set<Key>, annKeys: set<Key>, i: int, p: Key)
    requires Acyclic(h.parents) && ValidFile(vf) && Apart(h, plan, vfKeys, annKeys)
    requires plan.key in plan.known || forall k | k in vfKeys :: Parents(h.parents, k) == Parents(FileParents(vf), k)
    requires plan.full == SeqOf(plan.held) + ToCome(vf, plan.key, vfKeys, annKeys)
    requires SetOf(ToCome(vf, plan.key, vfKeys, annKeys)) == vfKeys + annKeys
    ensures ParentEarlier(h, plan, i, p)
  {
    var come := ToCome(vf, plan.key, vfKeys, annKeys);
    if plan.Start() <= i < |plan.full| && p in Parents(h.parents, plan.full[i]) && p in plan.full {
      var j := i - plan.Start();
      SplitAt(SeqOf(plan.held), come, i);
      if p !in SeqOf(plan.held) {
        assert p in come;
        EarlierToCome(h, vf, plan, vfKeys, annKeys, j, p);
      }
    }
  }

  lemma EarlierToCome(h: History, vf: VersionedFile, plan: Plan, vfKeys: set<Key>, annKeys: set<Key>, j: nat, p: Key)
    requires Acyclic(h.parents) && ValidFile(vf) && Apart(h, plan, vfKeys, annKeys)
    requires plan.key in plan.known || forall k | k in vfKeys :: Parents(h.parents, k) == Parents(FileParents(vf), k)
    requires var come := ToCome(vf, plan.key, vfKeys, annKeys);
             && SetOf(come) == vfKeys + annKeys && j < |come| && p in Parents(h.parents, come[j]) && p in come
    ensures p in ToCome(vf, plan.key, vfKeys, annKeys)[..j]
  {
    var come := ToCome(vf, plan.key, vfKeys, annKeys);
    assert come[j] in SetOf(come) && p in SetOf(come);
    forall k | k in vfKeys + annKeys ensures AncestorOrSelf(h.parents, k, plan.key) {
      assert ToAnnotate(h, plan.known, plan.held, plan.key, k);
    }
    ToComeInOrder(h, vf, plan.key, vfKeys, annKeys, j, p);
  }

  lemma SplitAt(a: seq<Key>, b: seq<Key>, i: nat)
    requires |a| <= i < |a| + |b|
    ensures (a + b)[i] == b[i - |a|] && (a + b)[..i] == a + b[..i - |a|]
  {
  }

  lemma MakeAwaited(h: History, plan: Plan, i: int)
    requires Ordered(h, plan) && ClosedUnderParents(h.parents, plan.known)
    ensures Awaited(h, plan, i)
  {
    if plan.Start() <= i < |plan.full| && plan.full[i] != plan.key {
      var k := plan.full[i];
      ScheduledKey(h, plan, i);
      var n: nat :| n > 0 && Steps(h.parents, plan.key, k, n);
      var c := AncestorViaChild(h.parents, k, plan.key, n);
      assert !HasParent(h.parents, plan.known, c, k);
      ChildIsLater(h, plan, i, c);
    }
  }

  lemma ChildIsLater(h: History, plan: Plan, i: nat, c: Key)
    requires Ordered(h, plan) && i < |plan.full| && ToAnnotate(h, plan.known, plan.held, plan.key, c)
    requires plan.full[i] in Parents(h.parents, c)
    ensures exists j {:trigger plan.full[j]} :: i < j < |plan.full| && plan.full[i] in Parents(h.parents, plan.full[j])
  {
    var j := ScheduledAt(h, plan, c);
    assert plan.full[i] in plan.full && ParentEarlier(h, plan, j, plan.full[i]);
    assert plan.full[i] in plan.full[..j];
  }

  // ---------------------------------------------------------------------------------
  // From one call to the next

  /** Before the first text: what was cached counts as annotated. */
  lemma StageStart(h: History, m: Matcher, vf: VersionedFile, plan: Plan, done: seq<Key>, vfKeys: set<Key>,
                   annKeys: set<Key>, parentMap: ParentMap, texts: map<Key, Text>, anns: map<Key, seq<Annotation>>,
                   num: map<Key, int>)
    requires Gathered(h, plan.key, plan.special, plan.known, plan.held, done, vfKeys, annKeys, parentMap)
    requires Schedule(h, plan) && plan.full[plan.Start()..] == ToCome(vf, plan.key, vfKeys, annKeys)
    requires SetOf(ToCome(vf, plan.key, vfKeys, annKeys)) == vfKeys + annKeys
    requires NoDuplicates(ToCome(vf, plan.key, vfKeys, annKeys))
    requires Resting(h, m, plan.held, plan.special, texts, anns)
    requires Needs(h.parents, done, plan.Wanted(), plan.Lost(), num)
    ensures Stage(h, m, plan, plan.Start(), texts, anns, num)
  {
    if !plan.Again() {
      GatheredIsDone(h, plan, done, vfKeys, annKeys, parentMap);
      NeedsPermuted(h.parents, done, plan.full[plan.Start()..], plan.Wanted(), plan.Lost(), num);
      SetAsSequence(SeqOf(plan.held), plan.held);
      forall k | k in plan.held ensures Alive(num, k) {
        assert NeedAt(h.parents, done, plan.Wanted(), num, k);
      }
      forall k ensures TextAt(h, plan.special, plan.full[..plan.Start()], texts, num, k) {}
      forall k ensures AnnotationAt(h, m, plan.full[..plan.Start()], anns, num, k) {}
    }
  }

  /** What was done are the keys to annotate, but for those without parents. */
  lemma GatheredIsDone(h: History, plan: Plan, done: seq<Key>, vfKeys: set<Key>, annKeys: set<Key>, parentMap: ParentMap)
    requires Gathered(h, plan.key, plan.special, plan.known, plan.held, done, vfKeys, annKeys, parentMap) && !plan.Again()
    ensures NoDuplicates(done) && forall k | k in done :: k in vfKeys + annKeys
    ensures forall k | k in vfKeys + annKeys && Parents(h.parents, k) != [] :: k in done
  {
    assert forall k :: k in done <==> k in SetOf(done);
  }

  lemma StageEnd(h: History, m: Matcher, plan: Plan,
                 texts: map<Key, Text>, anns: map<Key, seq<Annotation>>, num: map<Key, int>)
    requires Schedule(h, plan) && Stage(h, m, plan, |plan.full|, texts, anns, num)
    ensures var keys := HeldAfter(h.parents, plan.known, plan.held, plan.key);
            && Resting(h, m, keys, {}, texts, anns)
            && Needs(h.parents, [], keys, plan.known - keys, num)
  {
    var keys := HeldAfter(h.parents, plan.known, plan.held, plan.key);
    assert keys + {plan.key} == keys && plan.known - keys - {plan.key} == plan.known - keys;
    if !plan.Again() {
      AnnotateEnd(h, m, plan, texts, anns, num);
      assert plan.Wanted() == keys && plan.Lost() == plan.known - keys;
    }
  }

  /** Every text up to position `n` was there, and the parents of each came before it. */
  ghost predicate AllDone(h: History, plan: Plan, present: set<Key>, n: nat) {
    forall i {:trigger DoneAt(h, plan, present, i)} | plan.Start() <= i < n :: DoneAt(h, plan, present, i)
  }

  ghost predicate DoneAt(h: History, plan: Plan, present: set<Key>, i: int) {
    && 0 <= i < |plan.full| && plan.full[i] in present
    && forall p | p in Parents(h.parents, plan.full[i]) :: p in plan.full[..i]
  }

  lemma Completed(h: History, plan: Plan, present: set<Key>)
    requires Schedule(h, plan) && AllDone(h, plan, present, |plan.full|)
    ensures CanAnnotate(h, present, plan.known, plan.held, plan.key)
  {
    forall k | ToAnnotate(h, plan.known, plan.held, plan.key, k)
      ensures k in present
      ensures forall p | p in Parents(h.parents, k) :: p in plan.full
    {
      var i := ScheduledAt(h, plan, k);
      assert DoneAt(h, plan, present, i);
    }
    forall p ensures !LostParent(h, plan.known, plan.held, plan.key, p) {
      assert Included(h, plan, p);
    }
  }

  lemma ScheduledAt(h: History, plan: Plan, k: Key) returns (i: nat)
    requires Ordered(h, plan) && ToAnnotate(h, plan.known, plan.held, plan.key, k)
    ensures plan.Start() <= i < |plan.full| && plan.full[i] == k
  {
    assert Included(h, plan, k) && k !in plan.held;
    i :| i < |plan.full| && plan.full[i] == k;
    SetAsSequence(SeqOf(plan.held), plan.held);
    assert forall j | 0 <= j < plan.Start() :: plan.full[j] == plan.full[..plan.Start()][j] && plan.full[j] in plan.held;
  }

  /** The file's text of a key to annotate is the one of the combined history. */
  lemma TextFromFile(vf: VersionedFile, added: map<Key, Text>, before: ParentMap, h: History, plan: Plan, done: seq<Key>,
                     vfKeys: set<Key>, annKeys: set<Key>, parentMap: ParentMap, k: Key)
    requires ValidFile(vf) && h == Together(vf, added, before) && FromFile(vf, added, before)
    requires Unhidden(vf, added, plan.known) && before.Keys == plan.known + plan.special && plan.special <= added.Keys
    requires Gathered(h, plan.key, plan.special, plan.known, plan.held, done, vfKeys, annKeys, parentMap)
    requires k in vfKeys
    ensures k in vf.texts ==> h.texts[k] == vf.texts[k] && k in parentMap && parentMap[k] == Parents(h.parents, k)
  {
    assert Lookups(h, plan.special, plan.known, done, parentMap);
    assert plan.key !in plan.known ==> k !in before;
  }

  /** What is known afterwards: the keys known before and those that have been annotated. */
  lemma KnownAfter(vf: VersionedFile, added: map<Key, Text>, h: History, plan: Plan, done: seq<Key>, vfKeys: set<Key>,
                   annKeys: set<Key>, parentMap: ParentMap, present: set<Key>, k: Key)
    requires Gathered(h, plan.key, plan.special, plan.known, plan.held, done, vfKeys, annKeys, parentMap)
    requires CanAnnotate(h, present, plan.known, plan.held, plan.key) && plan.special <= h.parents.Keys
    requires forall x | x in vfKeys && x in present :: x in h.parents
    ensures k in parentMap <==> k in plan.known || ToAnnotate(h, plan.known, plan.held, plan.key, k)
  {
    assert k in vfKeys + annKeys <==> ToAnnotate(h, plan.known, plan.held, plan.key, k);
    assert Lookups(h, plan.special, plan.known, done, parentMap);
  }

  lemma ClosedAfter(h: History, plan: Plan, parentMap: ParentMap, present: set<Key>)
    requires ClosedUnderParents(h.parents, plan.known) && plan.held <= plan.known
    requires CanAnnotate(h, present, plan.known, plan.held, plan.key)
    requires forall k {:trigger k in parentMap} ::
               k in parentMap <==> k in plan.known || ToAnnotate(h, plan.known, plan.held, plan.key, k)
    ensures ClosedUnderParents(h.parents, parentMap.Keys)
  {
    forall k, p | HasParent(h.parents, parentMap.Keys, k, p) ensures p in parentMap.Keys {
      assert k in parentMap;
      if k in plan.known {
        assert HasParent(h.parents, plan.known, k, p);
      } else {
        assert !LostParent(h, plan.known, plan.held, plan.key, p);
      }
      assert p in parentMap <==> p in plan.known || ToAnnotate(h, plan.known, plan.held, plan.key, p);
    }
  }

  lemma TogetherAfter(vf: VersionedFile, added: map<Key, Text>, before: ParentMap, parentMap: ParentMap)
    requires FromFile(vf, added, before) && before.Keys <= parentMap.Keys <= vf.parents.Keys + added.Keys
    requires forall k {:trigger k in parentMap} | k in parentMap ::
               parentMap[k] == Parents(Together(vf, added, before).parents, k)
    ensures Together(vf, added, parentMap) == Together(vf, added, before) && FromFile(vf, added, parentMap)
  {
    var pm, pm' := FileParents(vf) + before, FileParents(vf) + parentMap;
    assert pm'.Keys == pm.Keys;
    forall k | k in pm ensures pm'[k] == pm[k] {
      if k in parentMap {
        assert Parents(pm, k) == pm[k];
      }
    }
    assert pm' == pm;
  }

  /** A call under way: what it found out, and the order it follows. */
  ghost predicate Working(vf: VersionedFile, added: map<Key, Text>, before: ParentMap, h: History, plan: Plan,
                          done: seq<Key>, vfKeys: set<Key>, annKeys: set<Key>, parentMap: ParentMap) {
    && Acyclic(h.parents) && ValidFile(vf) && h == Together(vf, added, before) && FromFile(vf, added, before)
    && Unhidden(vf, added, plan.known) && ClosedUnderParents(h.parents, plan.known)
    && before.Keys == plan.known + plan.special && plan.special <= added.Keys
    && Gathered(h, plan.key, plan.special, plan.known, plan.held, done, vfKeys, annKeys, parentMap)
    && Schedule(h, plan) && plan.full == SeqOf(plan.held) + ToCome(vf, plan.key, vfKeys, annKeys)
  }

  /** What is wrong with a call: a text that is not there, or a parent that was evicted. */
  ghost predicate Explained(h: History, known: set<Key>, held: set<Key>, key: Key, present: set<Key>, trouble: Trouble) {
    match trouble
    case NotPresent(k) => ToAnnotate(h, known, held, key, k) && k !in present
    case Evicted(p) => LostParent(h, known, held, key, p)
  }

  lemma TroubleMeans(h: History, known: set<Key>, held: set<Key>, key: Key, present: set<Key>, trouble: Trouble)
    requires Explained(h, known, held, key, present, trouble)
    ensures !CanAnnotate(h, present, known, held, key)
  {
  }

  /** Known afterwards: what was known, and what has been annotated, with their parents. */
  ghost predicate KnowsMore(h: History, known: set<Key>, held: set<Key>, key: Key, parentMap: ParentMap) {
    && (forall k {:trigger k in parentMap} :: k in parentMap <==> k in known || ToAnnotate(h, known, held, key, k))
    && ClosedUnderParents(h.parents, parentMap.Keys)
  }

  /** Text number `i` of the stream is next in the schedule; the file has it if it is present at all. */
  ghost predicate StreamAt(vf: VersionedFile, h: History, plan: Plan, present: set<Key>, stream: seq<Key>,
                           parentMap: ParentMap, i: int) {
    && 0 <= i < |stream| && plan.Start() + i < |plan.full| && plan.full[plan.Start() + i] == stream[i]
    && var k := stream[i];
    && ToAnnotate(h, plan.known, plan.held, plan.key, k) && (k in vf.texts <==> k in present)
    && (k in vf.texts ==>
          k in h.texts && h.texts[k] == vf.texts[k] && k in parentMap && parentMap[k] == Parents(h.parents, k))
  }

  ghost predicate Streaming(vf: VersionedFile, h: History, plan: Plan, present: set<Key>, stream: seq<Key>,
                            parentMap: ParentMap) {
    forall i {:trigger StreamAt(vf, h, plan, present, stream, parentMap, i)} | 0 <= i < |stream| ::
      StreamAt(vf, h, plan, present, stream, parentMap, i)
  }

  ghost predicate SpecialIsLast(h: History, plan: Plan, streamed: nat, parentMap: ParentMap) {
    && |plan.full| == plan.Start() + streamed + 1 && plan.full[plan.Start() + streamed] == plan.key
    && plan.key in plan.special && plan.key in parentMap && parentMap[plan.key] == Parents(h.parents, plan.key)
  }

  lemma StreamIsRight(vf: VersionedFile, added: map<Key, Text>, before: ParentMap, h: History, plan: Plan,
                      done: seq<Key>, vfKeys: set<Key>, annKeys: set<Key>, parentMap: ParentMap, present: set<Key>)
    requires Working(vf, added, before, h, plan, done, vfKeys, annKeys, parentMap)
    requires present == vf.texts.Keys + plan.held + plan.special
    ensures Streaming(vf, h, plan, present, vf.stream(vfKeys), parentMap)
  {
    var s := vf.stream(vfKeys);
    forall i | 0 <= i < |s| ensures StreamAt(vf, h, plan, present, s, parentMap, i) {
      Streamed(vf, vfKeys, i);
      StreamText(vf, added, before, h, plan, done, vfKeys, annKeys, parentMap, present, i);
    }
  }

  lemma Streamed(vf: VersionedFile, vfKeys: set<Key>, i: nat)
    requires ValidFile(vf) && i < |vf.stream(vfKeys)|
    ensures vf.stream(vfKeys)[i] in vfKeys
  {
    var s := vf.stream(vfKeys);
    assert ValidStream(vfKeys, FileParents(vf), s);
    assert s[i] in SetOf(s);
  }

  /** After the stream comes the requested key if its text was added by hand, else nothing. */
  lemma StreamIsAll(h: History, vf: VersionedFile, plan: Plan, done: seq<Key>, vfKeys: set<Key>, annKeys: set<Key>,
                    parentMap: ParentMap)
    requires Gathered(h, plan.key, plan.special, plan.known, plan.held, done, vfKeys, annKeys, parentMap)
    requires plan.full == SeqOf(plan.held) + ToCome(vf, plan.key, vfKeys, annKeys)
    ensures var streamed := |vf.stream(vfKeys)|;
            if annKeys != {} then SpecialIsLast(h, plan, streamed, parentMap) else |plan.full| == plan.Start() + streamed
  {
    GatheredApart(h, plan, done, vfKeys, annKeys, parentMap);
    assert annKeys != {} ==> annKeys == {plan.key};
    assert plan.key in plan.special ==> Lookups(h, plan.special, plan.known, done, parentMap);
  }

  lemma StreamText(vf: VersionedFile, added: map<Key, Text>, before: ParentMap, h: History, plan: Plan, done: seq<Key>,
                   vfKeys: set<Key>, annKeys: set<Key>, parentMap: ParentMap, present: set<Key>, i: nat)
    requires Working(vf, added, before, h, plan, done, vfKeys, annKeys, parentMap)
    requires present == vf.texts.Keys + plan.held + plan.special
    requires i < |vf.stream(vfKeys)| && vf.stream(vfKeys)[i] in vfKeys
    ensures StreamAt(vf, h, plan, present, vf.stream(vfKeys), parentMap, i)
  {
    var k := vf.stream(vfKeys)[i];
    GatheredApart(h, plan, done, vfKeys, annKeys, parentMap);
    assert k in vfKeys + annKeys;
    assert ToAnnotate(h, plan.known, plan.held, plan.key, k);
    TextFromFile(vf, added, before, h, plan, done, vfKeys, annKeys, parentMap, k);
  }

  /** The text that was added by hand is still there when its turn comes. */
  lemma SpecialText(h: History, m: Matcher, plan: Plan, streamed: nat, parentMap: ParentMap,
                    texts: map<Key, Text>, anns: map<Key, seq<Annotation>>, num: map<Key, int>)
    requires Schedule(h, plan) && SpecialIsLast(h, plan, streamed, parentMap)
    requires Stage(h, m, plan, plan.Start() + streamed, texts, anns, num)
    ensures plan.key in texts && plan.key in h.texts && texts[plan.key] == h.texts[plan.key]
    ensures texts == texts[plan.key := texts[plan.key]]
  {
    assert TextAt(h, plan.special, plan.full[..plan.Start() + streamed], texts, num, plan.key);
  }

  /** One text after another: from one stage to the next. */
  lemma StageNext(h: History, m: Matcher, plan: Plan, i: nat, texts: map<Key, Text>, anns: map<Key, seq<Annotation>>,
                  num: map<Key, int>, num': map<Key, int>)
    requires Acyclic(h.parents) && Schedule(h, plan) && plan.Start() <= i < |plan.full|
    requires Stage(h, m, plan, i, texts, anns, num)
    requires plan.full[i] in h.texts && Grounded(h.parents, plan.full[i])
    requires forall p | p in Parents(h.parents, plan.full[i]) :: p in plan.full[..i]
    requires CountedOff(num, num', Parents(h.parents, plan.full[i]))
    ensures var k, parents := plan.full[i], Parents(h.parents, plan.full[i]);
            Stage(h, m, plan, i + 1, texts[k := h.texts[k]] - Exhausted(num', parents),
                  anns[k := AnnotationOf(h, m, k)] - Exhausted(num', parents), num')
  {
    if plan.Again() {
      SetAsSequence(SeqOf(plan.held), plan.held);
      assert i == plan.Start() && plan.full[..i] == SeqOf(plan.held);
      AnnotateAgain(h, m, plan, texts, anns, num, num');
    } else {
      AnnotateNext(h, m, plan, i, texts, anns, num, num');
    }
  }

  lemma WorkBegins(vf: VersionedFile, added: map<Key, Text>, before: ParentMap, h: History, plan: Plan,
                   done: seq<Key>, vfKeys: set<Key>, annKeys: set<Key>, parentMap: ParentMap)
    requires Acyclic(h.parents) && ValidFile(vf) && h == Together(vf, added, before) && FromFile(vf, added, before)
    requires Unhidden(vf, added, plan.known) && ClosedUnderParents(h.parents, plan.known)
    requires before.Keys == plan.known + plan.special && plan.special <= added.Keys
    requires Gathered(h, plan.key, plan.special, plan.known, plan.held, done, vfKeys, annKeys, parentMap)
    requires plan.full == SeqOf(plan.held) + ToCome(vf, plan.key, vfKeys, annKeys)
    ensures Working(vf, added, before, h, plan, done, vfKeys, annKeys, parentMap)
    ensures plan.full[plan.Start()..] == ToCome(vf, plan.key, vfKeys, annKeys)
  {
    StreamParents(vf, added, before, h, plan, done, vfKeys, annKeys, parentMap);
    MakeSchedule(h, vf, plan, done, vfKeys, annKeys, parentMap);
  }

  lemma StartStage(h: History, m: Matcher, vf: VersionedFile, plan: Plan, done: seq<Key>, vfKeys: set<Key>,
                   annKeys: set<Key>, parentMap: ParentMap, texts: map<Key, Text>, anns: map<Key, seq<Annotation>>,
                   num: map<Key, int>)
    requires ValidFile(vf) && Gathered(h, plan.key, plan.special, plan.known, plan.held, done, vfKeys, annKeys, parentMap)
    requires Schedule(h, plan) && plan.full[plan.Start()..] == ToCome(vf, plan.key, vfKeys, annKeys)
    requires Resting(h, m, plan.held, plan.special, texts, anns)
    requires Needs(h.parents, done, plan.Wanted(), plan.Lost(), num)
    ensures Stage(h, m, plan, plan.Start(), texts, anns, num)
  {
    GatheredApart(h, plan, done, vfKeys, annKeys, parentMap);
    ToComeKeys(vf, plan.key, vfKeys, annKeys);
    StageStart(h, m, vf, plan, done, vfKeys, annKeys, parentMap, texts, anns, num);
  }

  lemma StreamParents(vf: VersionedFile, added: map<Key, Text>, before: ParentMap, h: History, plan: Plan,
                      done: seq<Key>, vfKeys: set<Key>, annKeys: set<Key>, parentMap: ParentMap)
    requires h == Together(vf, added, before) && before.Keys == plan.known + plan.special
    requires Gathered(h, plan.key, plan.special, plan.known, plan.held, done, vfKeys, annKeys, parentMap)
    ensures plan.key in plan.known || forall k | k in vfKeys :: Parents(h.parents, k) == Parents(FileParents(vf), k)
  {
    assert plan.key !in plan.known ==> forall k | k in vfKeys :: k !in before;
  }

  /** What is in the parent map once a call has looked up all that it needs. */
  ghost predicate Learnt(vf: VersionedFile, added: map<Key, Text>, h: History, plan: Plan, parentMap: ParentMap) {
    && KnowsMore(h, plan.known, plan.held, plan.key, parentMap)
    && Together(vf, added, parentMap) == h && FromFile(vf, added, parentMap)
    && plan.held + {plan.key} <= parentMap.Keys && plan.known <= parentMap.Keys
    && (Unhidden(vf, added, {plan.key}) ==> Unhidden(vf, added, parentMap.Keys))
  }

  lemma Learn(vf: VersionedFile, added: map<Key, Text>, before: ParentMap, h: History, plan: Plan,
              done: seq<Key>, vfKeys: set<Key>, annKeys: set<Key>, parentMap: ParentMap, present: set<Key>)
    requires Working(vf, added, before, h, plan, done, vfKeys, annKeys, parentMap)
    requires present == vf.texts.Keys + plan.held + plan.special
    requires CanAnnotate(h, present, plan.known, plan.held, plan.key)
    ensures Learnt(vf, added, h, plan, parentMap)
  {
    LearnKeys(vf, added, h, plan, done, vfKeys, annKeys, parentMap, present);
    ClosedAfter(h, plan, parentMap, present);
    LookedUp(h, plan, done, vfKeys, annKeys, parentMap);
    LearnFromFile(vf, added, before, h, plan, parentMap);
  }

  lemma LearnKeys(vf: VersionedFile, added: map<Key, Text>, h: History, plan: Plan,
                  done: seq<Key>, vfKeys: set<Key>, annKeys: set<Key>, parentMap: ParentMap, present: set<Key>)
    requires Gathered(h, plan.key, plan.special, plan.known, plan.held, done, vfKeys, annKeys, parentMap)
    requires CanAnnotate(h, present, plan.known, plan.held, plan.key)
    requires vf.texts.Keys <= h.parents.Keys && plan.special <= h.parents.Keys
    requires present == vf.texts.Keys + plan.held + plan.special
    ensures forall k {:trigger k in parentMap} ::
              k in parentMap <==> k in plan.known || ToAnnotate(h, plan.known, plan.held, plan.key, k)
  {
    GatheredApart(h, plan, done, vfKeys, annKeys, parentMap);
    forall k ensures k in parentMap <==> k in plan.known || ToAnnotate(h, plan.known, plan.held, plan.key, k) {
      KnownAfter(vf, added, h, plan, done, vfKeys, annKeys, parentMap, present, k);
    }
  }

  lemma LearnFromFile(vf: VersionedFile, added: map<Key, Text>, before: ParentMap, h: History, plan: Plan,
                      parentMap: ParentMap)
    requires h == Together(vf, added, before) && FromFile(vf, added, before) && Unhidden(vf, added, plan.known)
    requires before.Keys == plan.known + plan.special && plan.special <= {plan.key} && plan.held <= plan.known
    requires before.Keys <= parentMap.Keys
    requires forall k {:trigger k in parentMap} | k in parentMap :: k in h.parents && parentMap[k] == Parents(h.parents, k)
    requires KnowsMore(h, plan.known, plan.held, plan.key, parentMap)
    ensures Learnt(vf, added, h, plan, parentMap)
  {
    assert AncestorOrSelf(h.parents, plan.key, plan.key);
    assert plan.key in plan.known || ToAnnotate(h, plan.known, plan.held, plan.key, plan.key);
    TogetherAfter(vf, added, before, parentMap);
    assert forall k | k in added :: k in before;
  }

  lemma LookedUp(h: History, plan: Plan, done: seq<Key>, vfKeys: set<Key>, annKeys: set<Key>, parentMap: ParentMap)
    requires Gathered(h, plan.key, plan.special, plan.known, plan.held, done, vfKeys, annKeys, parentMap)
    ensures forall k {:trigger k in parentMap} | k in parentMap :: k in h.parents && parentMap[k] == Parents(h.parents, k)
    ensures plan.known + plan.special <= parentMap.Keys && plan.held <= plan.known
  {
    assert Lookups(h, plan.special, plan.known, done, parentMap);
  }

  /** What a successful call leaves: its key is cached with the rest, and it is ready for another call. */
  ghost predicate Finished(vf: VersionedFile, m: Matcher, added: map<Key, Text>, h: History, known: set<Key>,
                           held: set<Key>, key: Key, parentMap: ParentMap, texts: map<Key, Text>,
                           anns: map<Key, seq<Annotation>>, num: map<Key, int>) {
    && Grounded(h.parents, key) && key in h.texts
    && key in anns && anns[key] == AnnotationOf(h, m, key) && key in texts && texts[key] == h.texts[key]
    && texts.Keys == anns.Keys == HeldAfter(h.parents, known, held, key)
    && KnowsMore(h, known, held, key, parentMap)
    && Together(vf, added, parentMap) == h && FromFile(vf, added, parentMap)
    && (Unhidden(vf, added, {key}) ==> Consistent(vf, m, added, parentMap, texts, anns, num))
  }

  lemma WorkDone(vf: VersionedFile, m: Matcher, added: map<Key, Text>, h: History, plan: Plan, parentMap: ParentMap,
                 texts: map<Key, Text>, anns: map<Key, seq<Annotation>>, num: map<Key, int>)
    requires Schedule(h, plan) && Learnt(vf, added, h, plan, parentMap)
    requires Stage(h, m, plan, |plan.full|, texts, anns, num)
    ensures Finished(vf, m, added, h, plan.known, plan.held, plan.key, parentMap, texts, anns, num)
  {
    StageEnd(h, m, plan, texts, anns, num);
    var keys := HeldAfter(h.parents, plan.known, plan.held, plan.key);
    RestingWithout(h, m, keys, texts, anns);
    assert texts.Keys - anns.Keys == {} && parentMap.Keys - {} == parentMap.Keys;
    assert keys <= parentMap.Keys && plan.known <= parentMap.Keys;
    NeedsLess(h.parents, keys, plan.known - keys, parentMap.Keys - keys, num);
  }

  lemma NeedsLess(pm: ParentMap, keys: set<Key>, lost: set<Key>, lost': set<Key>, num: map<Key, int>)
    requires Needs(pm, [], keys, lost, num) && lost <= lost'
    ensures Needs(pm, [], keys, lost', num)
  {
    forall k | k !in lost' ensures NeedAt(pm, [], keys, num, k) {
      assert NeedAt(pm, [], keys, num, k);
    }
  }

  lemma RestingWithout(h: History, m: Matcher, keys: set<Key>, texts: map<Key, Text>, anns: map<Key, seq<Annotation>>)
    requires Resting(h, m, keys, {}, texts, anns)
    ensures texts.Keys == anns.Keys == keys && Resting(h, m, anns.Keys, texts.Keys - anns.Keys, texts, anns)
  {
    assert texts.Keys - anns.Keys == {};
  }

  /** The plan of a call, from what it gathered. */
  lemma MakePlan(vf: VersionedFile, m: Matcher, added: map<Key, Text>, before: ParentMap, h: History, key: Key,
                 done: seq<Key>, vfKeys: set<Key>, annKeys: set<Key>, parentMap: ParentMap,
                 texts: map<Key, Text>, anns: map<Key, seq<Annotation>>, num0: map<Key, int>, num: map<Key, int>,
                 special: set<Key>, known: set<Key>, present: set<Key>)
      returns (plan: Plan)
    requires Acyclic(h.parents) && ValidFile(vf) && h == Together(vf, added, before)
    requires Consistent(vf, m, added, before, texts, anns, num0)
    requires special == texts.Keys - anns.Keys && known == before.Keys - special && present == vf.texts.Keys + texts.Keys
    requires Gathered(h, key, special, known, anns.Keys, done, vfKeys, annKeys, parentMap)
    requires Needs(h.parents, done, anns.Keys + {key}, known - anns.Keys - {key}, num)
    ensures plan.key == key && plan.known == known && plan.held == anns.Keys && plan.special == special <= present
    ensures Schedule(h, plan) && Stage(h, m, plan, plan.Start(), texts, anns, num)
    ensures var stream := vf.stream(vfKeys);
            && Streaming(vf, h, plan, present, stream, parentMap)
            && (if annKeys != {} then SpecialIsLast(h, plan, |stream|, parentMap) else |plan.full| == plan.Start() + |stream|)
            && (CanAnnotate(h, present, plan.known, plan.held, plan.key) ==> Learnt(vf, added, h, plan, parentMap))
  {
    plan := Plan(key, known, anns.Keys, special, SeqOf(anns.Keys) + ToCome(vf, key, vfKeys, annKeys));
    PlanMeans(vf, m, added, before, plan, texts, anns, num0, present);
    PlanFollows(vf, m, added, before, h, plan, done, vfKeys, annKeys, parentMap, texts, anns, num, present);
  }

  lemma PlanFollows(vf: VersionedFile, m: Matcher, added: map<Key, Text>, before: ParentMap, h: History, plan: Plan,
                    done: seq<Key>, vfKeys: set<Key>, annKeys: set<Key>, parentMap: ParentMap,
                    texts: map<Key, Text>, anns: map<Key, seq<Annotation>>, num: map<Key, int>, present: set<Key>)
    requires Acyclic(h.parents) && ValidFile(vf) && h == Together(vf, added, before) && FromFile(vf, added, before)
    requires Unhidden(vf, added, plan.known) && ClosedUnderParents(h.parents, plan.known)
    requires before.Keys == plan.known + plan.special && plan.special <= added.Keys
    requires Resting(h, m, plan.held, plan.special, texts, anns)
    requires present == vf.texts.Keys + plan.held + plan.special
    requires plan.full == SeqOf(plan.held) + ToCome(vf, plan.key, vfKeys, annKeys)
    requires Gathered(h, plan.key, plan.special, plan.known, plan.held, done, vfKeys, annKeys, parentMap)
    requires Needs(h.parents, done, plan.Wanted(), plan.Lost(), num)
    ensures Schedule(h, plan) && Stage(h, m, plan, plan.Start(), texts, anns, num)
    ensures var stream := vf.stream(vfKeys);
            && Streaming(vf, h, plan, present, stream, parentMap)
            && (if annKeys != {} then SpecialIsLast(h, plan, |stream|, parentMap) else |plan.full| == plan.Start() + |stream|)
            && (CanAnnotate(h, present, plan.known, plan.held, plan.key) ==> Learnt(vf, added, h, plan, parentMap))
  {
    WorkBegins(vf, added, before, h, plan, done, vfKeys, annKeys, parentMap);
    StartStage(h, m, vf, plan, done, vfKeys, annKeys, parentMap, texts, anns, num);
    StreamIsRight(vf, added, before, h, plan, done, vfKeys, annKeys, parentMap, present);
    StreamIsAll(h, vf, plan, done, vfKeys, annKeys, parentMap);
    if CanAnnotate(h, present, plan.known, plan.held, plan.key) {
      Learn(vf, added, before, h, plan, done, vfKeys, annKeys, parentMap, present);
    }
  }

  lemma PlanMeans(vf: VersionedFile, m: Matcher, added: map<Key, Text>, before: ParentMap, plan: Plan,
                  texts: map<Key, Text>, anns: map<Key, seq<Annotation>>, num: map<Key, int>, present: set<Key>)
    requires Consistent(vf, m, added, before, texts, anns, num)
    requires plan.held == anns.Keys && plan.special == texts.Keys - anns.Keys && plan.known == before.Keys - plan.special
    requires present == vf.texts.Keys + texts.Keys
    ensures var h := Together(vf, added, before);
            && FromFile(vf, added, before) && Unhidden(vf, added, plan.known) && ClosedUnderParents(h.parents, plan.known)
            && before.Keys == plan.known + plan.special && plan.special <= added.Keys
            && Resting(h, m, plan.held, plan.special, texts, anns)
            && present == vf.texts.Keys + plan.held + plan.special
  {
    ConsistentMeans(vf, m, added, before, texts, anns, num);
    assert texts.Keys == anns.Keys + (texts.Keys - anns.Keys);
  }
}

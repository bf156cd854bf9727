/**
 What the caches and counters of an annotator hold while it collects the texts it needs
 and while it annotates them one after another.
 */
module AnnotatorState {
  import opened Wrappers
  import opened Keys
  import opened Dag
  import opened Blame

  /**
   Texts and parents by key, no parents at all where there is no graph, and the order in
   which a set of keys is streamed.
   */
  datatype VersionedFile = VersionedFile(texts: map<Key, Text>, parents: map<Key, Option<seq<Key>>>,
                                         stream: set<Key> -> seq<Key>)

  function FileParents(vf: VersionedFile): ParentMap {
    map k | k in vf.parents.Keys :: if vf.parents[k].Some? then vf.parents[k].value else []
  }

  /** The contract of a topological stream: each key once, parents first. */
  ghost predicate ValidStream(ks: set<Key>, pm: ParentMap, s: seq<Key>) {
    && NoDuplicates(s) && SetOf(s) == ks
    && forall i, p | 0 <= i < |s| && p in Parents(pm, s[i]) && p in ks :: p in s[..i]
  }

  ghost predicate ValidFile(vf: VersionedFile) {
    && vf.texts.Keys == vf.parents.Keys
    && forall ks {:trigger vf.stream(ks)} :: ValidStream(ks, FileParents(vf), vf.stream(ks))
  }

  // ---------------------------------------------------------------------------------
  // Counting uses

  /** How often `k` is named as a parent by the keys `todo`. */
  ghost function Uses(pm: ParentMap, todo: seq<Key>, k: Key): nat {
    if |todo| == 0 then 0 else multiset(Parents(pm, todo[0]))[k] + Uses(pm, todo[1..], k)
  }

  lemma {:induction false} UsesConcat(pm: ParentMap, a: seq<Key>, b: seq<Key>, k: Key)
    ensures Uses(pm, a + b, k) == Uses(pm, a, k) + Uses(pm, b, k)
  {
    if |a| == 0 {
      assert a + b == b;
    } else {
      assert (a + b)[1..] == a[1..] + b;
      UsesConcat(pm, a[1..], b, k);
    }
  }

  lemma {:induction false} UsesPermutation(pm: ParentMap, a: seq<Key>, b: seq<Key>, k: Key)
    requires multiset(a) == multiset(b)
    ensures Uses(pm, a, k) == Uses(pm, b, k)
    decreases |a|
  {
    MultisetMember(a, b);
    if |a| > 0 {
      assert a == [a[0]] + a[1..] && a[0] in a;
      var j :| 0 <= j < |b| && b[j] == a[0];
      var left, right := b[..j], b[j + 1..];
      assert b == left + [b[j]] + right;
      SameRest(a, b, j);
      UsesPermutation(pm, a[1..], left + right, k);
      UsesConcat(pm, left + [b[j]], right, k);
      UsesConcat(pm, left, [b[j]], k);
      UsesConcat(pm, left, right, k);
      assert [b[j]][1..] == [];
    }
  }

  lemma {:induction false} UsedBy(pm: ParentMap, todo: seq<Key>, c: Key, k: Key)
    requires c in todo && k in Parents(pm, c)
    ensures Uses(pm, todo, k) > 0
  {
    if c == todo[0] {
      assert k in multiset(Parents(pm, c));
    } else {
      UsedBy(pm, todo[1..], c, k);
    }
  }

  ghost function Need(pm: ParentMap, todo: seq<Key>, wanted: set<Key>, k: Key): nat {
    Uses(pm, todo, k) + if k in wanted then 1 else 0
  }

  ghost predicate NeedAt(pm: ParentMap, todo: seq<Key>, wanted: set<Key>, num: map<Key, int>, k: Key) {
    (if k in num then num[k] else 0) == Need(pm, todo, wanted, k)
  }

  /**
   The counters: uses as a parent still to come, and one more for every key that was asked for.
   Those of the keys that are lost say nothing.
   */
  ghost predicate Needs(pm: ParentMap, todo: seq<Key>, wanted: set<Key>, lost: set<Key>, num: map<Key, int>) {
    forall k {:trigger NeedAt(pm, todo, wanted, num, k)} | k !in lost :: NeedAt(pm, todo, wanted, num, k)
  }

  /**
   The keys that a call for `key` annotates: nothing if it is cached, the key alone if its
   parents are known, else the key and its ancestors up to those whose parents are known.
   */
  ghost predicate ToAnnotate(h: History, known: set<Key>, held: set<Key>, key: Key, k: Key) {
    if key in held then false
    else if key in known then k == key
    else AncestorOrSelf(h.parents, k, key) && k !in known
  }

  // ---------------------------------------------------------------------------------
  // Collecting the keys that are needed

  /**
   `special` holds the requested key if its text was added by hand, else nothing; `known` the
   keys whose parents were known before, without the requested key.
   */
  ghost predicate Collecting(h: History, key: Key, special: set<Key>, known: set<Key>, done: seq<Key>, needed: set<Key>,
                             vfKeys: set<Key>, annKeys: set<Key>, parentMap: ParentMap) {
    && Lookups(h, special, known, done, parentMap)
    && Apportioned(h, key, special, known, done, needed, vfKeys, annKeys)
    && Ancestral(h, key, vfKeys + annKeys + needed)
    && Reaches(h, done, vfKeys + annKeys + known + needed)
  }

  ghost predicate Ancestral(h: History, key: Key, ks: set<Key>) {
    forall k {:trigger AncestorOrSelf(h.parents, k, key)} | k in ks :: AncestorOrSelf(h.parents, k, key)
  }

  /** The parents of what is done are known or needed. */
  ghost predicate Reaches(h: History, done: seq<Key>, reached: set<Key>) {
    forall d, p {:trigger Closed(h, done, reached, d, p)} :: Closed(h, done, reached, d, p)
  }

  /** The parents of what is done have been looked up. */
  ghost predicate Lookups(h: History, special: set<Key>, known: set<Key>, done: seq<Key>, parentMap: ParentMap) {
    && NoDuplicates(done) && parentMap.Keys == SetOf(done) + special + known
    && forall k {:trigger k in parentMap} | k in parentMap :: k in h.parents && parentMap[k] == h.parents[k]
  }

  /** The requested key comes first; what has a text added by hand is not extracted. */
  ghost predicate Apportioned(h: History, key: Key, special: set<Key>, known: set<Key>, done: seq<Key>,
                              needed: set<Key>, vfKeys: set<Key>, annKeys: set<Key>) {
    && special <= {key} && annKeys <= special && special !! vfKeys
    && known !! vfKeys + annKeys + needed && key !in known
    && SetOf(done) <= vfKeys + annKeys && annKeys <= SetOf(done)
    && (forall k | k in vfKeys && k in h.parents :: k in SetOf(done))
    && key in vfKeys + annKeys + needed
    && (key in needed ==> done == [] && needed == {key})
    && (done == [] ==> vfKeys == {} || (needed == {} && vfKeys == {key}))
  }

  ghost predicate Closed(h: History, done: seq<Key>, known: set<Key>, d: Key, p: Key) {
    d in done && p in Parents(h.parents, d) ==> p in known
  }

  /** What was collected when nothing more is needed: exactly the unknown ancestors of the key. */
  ghost predicate Collected(h: History, key: Key, special: set<Key>, known: set<Key>, done: seq<Key>,
                            vfKeys: set<Key>, annKeys: set<Key>, parentMap: ParentMap) {
    && Collecting(h, key, special, known, done, {}, vfKeys, annKeys, parentMap)
    && forall k :: k in vfKeys + annKeys <==> AncestorOrSelf(h.parents, k, key) && k !in known
  }

  lemma {:induction false} AncestorsCollected(h: History, key: Key, special: set<Key>, known: set<Key>, done: seq<Key>,
                                              vfKeys: set<Key>, annKeys: set<Key>, parentMap: ParentMap, k: Key, n: nat)
    requires Collecting(h, key, special, known, done, {}, vfKeys, annKeys, parentMap)
    requires ClosedUnderParents(h.parents, known) && Steps(h.parents, key, k, n)
    ensures k in vfKeys + annKeys + known
    decreases n
  {
    if n > 0 {
      var c := AncestorViaChild(h.parents, k, key, n);
      AncestorsCollected(h, key, special, known, done, vfKeys, annKeys, parentMap, c, n - 1);
      if c in known {
        assert HasParent(h.parents, known, c, k);
      } else {
        assert c in SetOf(done);
        assert Closed(h, done, vfKeys + annKeys + known + {}, c, k);
      }
    }
  }

  lemma CollectEnd(h: History, key: Key, special: set<Key>, known: set<Key>, done: seq<Key>,
                   vfKeys: set<Key>, annKeys: set<Key>, parentMap: ParentMap)
    requires Collecting(h, key, special, known, done, {}, vfKeys, annKeys, parentMap)
    requires ClosedUnderParents(h.parents, known)
    ensures Collected(h, key, special, known, done, vfKeys, annKeys, parentMap)
  {
    assert vfKeys + annKeys + {} == vfKeys + annKeys;
    forall k | AncestorOrSelf(h.parents, k, key) ensures k in vfKeys + annKeys + known {
      if k == key {
        assert Steps(h.parents, key, key, 0);
        AncestorsCollected(h, key, special, known, done, vfKeys, annKeys, parentMap, key, 0);
      } else {
        var n: nat :| n > 0 && Steps(h.parents, key, k, n);
        AncestorsCollected(h, key, special, known, done, vfKeys, annKeys, parentMap, k, n);
      }
    }
  }

  /** One round: the needed keys that are there are done, and their unknown parents needed. */
  lemma CollectRound(h: History, key: Key, special: set<Key>, known: set<Key>, done: seq<Key>, needed: set<Key>,
                     vfKeys: set<Key>, annKeys: set<Key>, parentMap: ParentMap,
                     added: seq<Key>, needed': set<Key>)
    requires Acyclic(h.parents) && Collecting(h, key, special, known, done, needed, vfKeys, annKeys, parentMap)
    requires special <= h.parents.Keys && needed != {}
    requires NoDuplicates(added)
    requires SetOf(added) == set k | k in needed && (k in special || k !in parentMap) && k in h.parents
    requires needed' == set d, p | d in added && p in Parents(h.parents, d) && p !in parentMap :: p
    ensures NoDuplicates(done + added)
    ensures Collecting(h, key, special, known, done + added, needed', vfKeys + (needed - special),
                       annKeys + (needed * special), map k | k in parentMap.Keys + SetOf(added) :: h.parents[k])
  {
    var vfKeys', annKeys' := vfKeys + (needed - special), annKeys + (needed * special);
    assert vfKeys' + annKeys' == vfKeys + annKeys + needed;
    assert vfKeys' + annKeys' + known + needed' == vfKeys + annKeys + known + needed + needed';
    RoundIsNew(done, added);
    RoundLooksUp(h, special, known, done, parentMap, added);
    RoundNeeds(h, key, needed, parentMap, added, needed');
    RoundApportions(h, key, special, known, done, needed, vfKeys, annKeys, parentMap, added, needed');
    RoundCloses(h, key, done, needed, vfKeys + annKeys + known, parentMap, added, needed');
  }

  lemma RoundLooksUp(h: History, special: set<Key>, known: set<Key>, done: seq<Key>, parentMap: ParentMap,
                     added: seq<Key>)
    requires Lookups(h, special, known, done, parentMap)
    requires NoDuplicates(done + added) && SetOf(done + added) == SetOf(done) + SetOf(added)
    requires SetOf(added) <= h.parents.Keys
    ensures Lookups(h, special, known, done + added, map k | k in parentMap.Keys + SetOf(added) :: h.parents[k])
  {
  }

  lemma RoundApportions(h: History, key: Key, special: set<Key>, known: set<Key>, done: seq<Key>, needed: set<Key>,
                        vfKeys: set<Key>, annKeys: set<Key>, parentMap: ParentMap, added: seq<Key>, needed': set<Key>)
    requires Lookups(h, special, known, done, parentMap) && special <= h.parents.Keys
    requires Apportioned(h, key, special, known, done, needed, vfKeys, annKeys) && needed != {}
    requires SetOf(done + added) == SetOf(done) + SetOf(added)
    requires SetOf(added) == set k | k in needed && (k in special || k !in parentMap) && k in h.parents
    requires needed' !! parentMap.Keys && key !in needed' && (added == [] ==> needed' == {})
    ensures Apportioned(h, key, special, known, done + added, needed', vfKeys + (needed - special),
                        annKeys + (needed * special))
  {
  }

  lemma RoundIsNew(done: seq<Key>, added: seq<Key>)
    requires NoDuplicates(done) && NoDuplicates(added) && SetOf(done) !! SetOf(added)
    ensures NoDuplicates(done + added) && SetOf(done + added) == SetOf(done) + SetOf(added)
  {
    forall i, j | 0 <= i < |done| && 0 <= j < |added| ensures done[i] != added[j] {
      assert done[i] in SetOf(done) && added[j] in SetOf(added);
    }
  }

  /** What a round needs next are other ancestors of the key, not known yet. */
  lemma RoundNeeds(h: History, key: Key, needed: set<Key>, parentMap: ParentMap, added: seq<Key>, needed': set<Key>)
    requires Acyclic(h.parents) && SetOf(added) <= needed
    requires Ancestral(h, key, needed)
    requires needed' == set d, p | d in added && p in Parents(h.parents, d) && p !in parentMap :: p
    ensures needed' !! parentMap.Keys && key !in needed'
    ensures Ancestral(h, key, needed')
    ensures added == [] ==> needed' == {}
  {
    forall k | k in needed' ensures k != key && AncestorOrSelf(h.parents, k, key) {
      var d, p :| d in added && p in Parents(h.parents, d) && p !in parentMap && p == k;
      assert d in SetOf(added);
      ParentOfAncestor(h, key, d, p);
    }
  }

  lemma RoundCloses(h: History, key: Key, done: seq<Key>, needed: set<Key>, rest: set<Key>, parentMap: ParentMap,
                    added: seq<Key>, needed': set<Key>)
    requires Reaches(h, done, rest + needed)
    requires needed' == set d, p | d in added && p in Parents(h.parents, d) && p !in parentMap :: p
    requires parentMap.Keys <= rest + needed
    ensures Reaches(h, done + added, rest + needed + needed')
  {
    forall d, p ensures Closed(h, done + added, rest + needed + needed', d, p) {
      assert Closed(h, done, rest + needed, d, p);
    }
  }

  lemma ParentOfAncestor(h: History, key: Key, d: Key, p: Key)
    requires Acyclic(h.parents) && AncestorOrSelf(h.parents, d, key) && p in Parents(h.parents, d)
    ensures StrictAncestor(h.parents, p, key) && p != key
  {
    ParentIsAncestor(h.parents, p, d);
    if d != key {
      AncestorTransitive(h.parents, p, d, key);
    }
  }

  /** A key whose parents are known is extracted unless it is cached, and not collected further. */
  ghost predicate Gathering(h: History, key: Key, special: set<Key>, known: set<Key>, held: set<Key>, done: seq<Key>,
                            needed: set<Key>, vfKeys: set<Key>, annKeys: set<Key>, parentMap: ParentMap) {
    && held <= known
    && if key in known then
         && special == {} && done == [] && annKeys == {} && Lookups(h, {}, known, [], parentMap)
         && ((needed == {key} && vfKeys == {}) || (needed == {} && vfKeys == {key} - held))
       else Collecting(h, key, special, known, done, needed, vfKeys, annKeys, parentMap)
  }

  lemma GatherStart(h: History, key: Key, special: set<Key>, known: set<Key>, held: set<Key>, parentMap: ParentMap)
    requires held <= known && special <= {key} && special !! known && parentMap.Keys == special + known
    requires forall k {:trigger k in parentMap} | k in parentMap :: k in h.parents && parentMap[k] == h.parents[k]
    requires Acyclic(h.parents)
    ensures Gathering(h, key, special, known, held, [], {key}, {}, {}, parentMap)
  {
    forall d, p ensures Closed(h, [], {} + {} + known + {key}, d, p) {}
  }

  lemma SomeElement(s: seq<Key>)
    ensures s != [] ==> SetOf(s) != {}
  {
    if s != [] {
      assert s[0] in SetOf(s);
    }
  }

  lemma GatherRound(h: History, key: Key, special: set<Key>, known: set<Key>, held: set<Key>, done: seq<Key>,
                    needed: set<Key>, vfKeys: set<Key>, annKeys: set<Key>, parentMap: ParentMap,
                    added: seq<Key>, needed': set<Key>)
    requires Acyclic(h.parents) && needed != {} && special <= h.parents.Keys && NoDuplicates(added)
    requires Gathering(h, key, special, known, held, done, needed, vfKeys, annKeys, parentMap)
    requires SetOf(added) == set k | k in needed && (k in special || k !in parentMap) && k in h.parents
    requires needed' == set d, p | d in added && p in Parents(h.parents, d) && p !in parentMap :: p
    ensures NoDuplicates(done + added) && SetOf(added) <= h.parents.Keys && (added == [] ==> needed' == {})
    ensures Gathering(h, key, special, known, held, done + added, needed', vfKeys + (needed - held - special),
                      annKeys + (needed * special), map k | k in parentMap.Keys + SetOf(added) :: h.parents[k])
  {
    if key in known {
      SomeElement(added);
      assert done + added == [];
      assert parentMap == map k | k in parentMap.Keys + SetOf(added) :: h.parents[k];
    } else {
      assert needed - held - special == needed - special;
      CollectRound(h, key, special, known, done, needed, vfKeys, annKeys, parentMap, added, needed');
    }
  }

  /** What a call will annotate has been gathered, and looked up where it is there. */
  ghost predicate Gathered(h: History, key: Key, special: set<Key>, known: set<Key>, held: set<Key>, done: seq<Key>,
                           vfKeys: set<Key>, annKeys: set<Key>, parentMap: ParentMap) {
    && Gathering(h, key, special, known, held, done, {}, vfKeys, annKeys, parentMap)
    && annKeys == special
    && forall k {:trigger ToAnnotate(h, known, held, key, k)} :: k in vfKeys + annKeys <==> ToAnnotate(h, known, held, key, k)
  }

  lemma GatherEnd(h: History, key: Key, special: set<Key>, known: set<Key>, held: set<Key>, done: seq<Key>,
                  vfKeys: set<Key>, annKeys: set<Key>, parentMap: ParentMap)
    requires Gathering(h, key, special, known, held, done, {}, vfKeys, annKeys, parentMap)
    requires ClosedUnderParents(h.parents, known)
    ensures Gathered(h, key, special, known, held, done, vfKeys, annKeys, parentMap)
  {
    if key !in known {
      CollectEnd(h, key, special, known, done, vfKeys, annKeys, parentMap);
    }
  }

  // ---------------------------------------------------------------------------------
  // One call after another

  /** One more text than before is cached. A text annotated again uses up those of its parents. */
  ghost function HeldAfter(pm: ParentMap, known: set<Key>, held: set<Key>, key: Key): set<Key> {
    if key in known && key !in held then held - SetOf(Parents(pm, key)) + {key} else held + {key}
  }

  /** The caches hold the keys with their annotations, and texts of special keys beside them. */
  ghost predicate Resting(h: History, m: Matcher, keys: set<Key>, special: set<Key>, texts: map<Key, Text>,
                          anns: map<Key, seq<Annotation>>) {
    && anns.Keys == keys && texts.Keys == keys + special
    && (forall k {:trigger k in texts} | k in texts :: k in h.texts && texts[k] == h.texts[k])
    && (forall k {:trigger k in anns} | k in anns :: Grounded(h.parents, k) && anns[k] == AnnotationOf(h, m, k))
  }

  /** A parent that is asked for although it is neither cached nor about to be. */
  ghost predicate LostParent(h: History, known: set<Key>, held: set<Key>, key: Key, p: Key) {
    && p !in held && !ToAnnotate(h, known, held, key, p)
    && exists d {:trigger ToAnnotate(h, known, held, key, d)} ::
         ToAnnotate(h, known, held, key, d) && p in Parents(h.parents, d)
  }

  /** The texts that a call annotates are there, and so are those of their parents. */
  ghost predicate CanAnnotate(h: History, present: set<Key>, known: set<Key>, held: set<Key>, key: Key) {
    && (forall k {:trigger ToAnnotate(h, known, held, key, k)} | ToAnnotate(h, known, held, key, k) :: k in present)
    && (forall p {:trigger LostParent(h, known, held, key, p)} :: !LostParent(h, known, held, key, p))
  }

  // ---------------------------------------------------------------------------------
  // What an annotator knows between two calls

  /** The history that is annotated: the file's, with the texts added by hand. */
  ghost function Together(vf: VersionedFile, added: map<Key, Text>, parentMap: ParentMap): History {
    History(vf.texts + added, FileParents(vf) + parentMap)
  }

  /** What is known of a key was read from the file, if it was not added by hand. */
  ghost predicate FromFile(vf: VersionedFile, added: map<Key, Text>, parentMap: ParentMap) {
    && added.Keys <= parentMap.Keys <= vf.parents.Keys + added.Keys
    && forall k {:trigger k in parentMap} | k in parentMap && k !in added :: parentMap[k] == FileParents(vf)[k]
  }

  /** The texts that the file has of these keys are not hidden by others added by hand. */
  ghost predicate Unhidden(vf: VersionedFile, added: map<Key, Text>, ks: set<Key>) {
    forall k {:trigger k in added} | k in ks && k in added && k in vf.texts :: added[k] == vf.texts[k]
  }

  ghost predicate Consistent(vf: VersionedFile, m: Matcher, added: map<Key, Text>, parentMap: ParentMap,
                             texts: map<Key, Text>, anns: map<Key, seq<Annotation>>, num: map<Key, int>) {
    var special := texts.Keys - anns.Keys;
    Knowing(vf, m, Together(vf, added, parentMap), added, parentMap, parentMap.Keys - special, special, texts, anns, num)
  }

  ghost predicate Knowing(vf: VersionedFile, m: Matcher, h: History, added: map<Key, Text>, parentMap: ParentMap,
                          known: set<Key>, special: set<Key>, texts: map<Key, Text>, anns: map<Key, seq<Annotation>>,
                          num: map<Key, int>) {
    && Resting(h, m, anns.Keys, special, texts, anns)
    && texts.Keys <= parentMap.Keys && special <= added.Keys
    && FromFile(vf, added, parentMap) && Unhidden(vf, added, known)
    && ClosedUnderParents(h.parents, known)
    && Needs(h.parents, [], anns.Keys, known - anns.Keys, num)
  }

  lemma ConsistentMeans(vf: VersionedFile, m: Matcher, added: map<Key, Text>, before: ParentMap,
                        texts: map<Key, Text>, anns: map<Key, seq<Annotation>>, num: map<Key, int>)
    requires Consistent(vf, m, added, before, texts, anns, num)
    ensures var h := Together(vf, added, before);
            var special := texts.Keys - anns.Keys;
            && Resting(h, m, anns.Keys, special, texts, anns) && special <= added.Keys && texts.Keys <= before.Keys
            && FromFile(vf, added, before) && Unhidden(vf, added, before.Keys - special)
            && ClosedUnderParents(h.parents, before.Keys - special) && anns.Keys <= texts.Keys
            && Needs(h.parents, [], anns.Keys, before.Keys - special - anns.Keys, num)
  {
  }

  /** Adding a text whose key is not known yet changes nothing for those that are. */
  lemma AddedIsConsistent(vf: VersionedFile, m: Matcher, added: map<Key, Text>, parentMap: ParentMap,
                          texts: map<Key, Text>, anns: map<Key, seq<Annotation>>, num: map<Key, int>,
                          key: Key, parentKeys: seq<Key>, lines: Text)
    requires Consistent(vf, m, added, parentMap, texts, anns, num) && key !in parentMap
    ensures Consistent(vf, m, added[key := lines], parentMap[key := parentKeys], texts[key := lines], anns, num)
    ensures texts[key := lines].Keys - anns.Keys == texts.Keys - anns.Keys + {key}
  {
    var special := texts.Keys - anns.Keys;
    assert texts[key := lines].Keys - anns.Keys == special + {key};
    assert parentMap[key := parentKeys].Keys - (special + {key}) == parentMap.Keys - special;
    Overlay(vf.texts, added, key, lines);
    Overlay(FileParents(vf), parentMap, key, parentKeys);
    AddedIsKnowing(vf, m, Together(vf, added, parentMap), added, parentMap, parentMap.Keys - special, special, texts,
                   anns, num, key, parentKeys, lines);
  }

  lemma AddedIsKnowing(vf: VersionedFile, m: Matcher, h: History, added: map<Key, Text>, parentMap: ParentMap,
                       known: set<Key>, special: set<Key>, texts: map<Key, Text>, anns: map<Key, seq<Annotation>>,
                       num: map<Key, int>, key: Key, parentKeys: seq<Key>, lines: Text)
    requires Knowing(vf, m, h, added, parentMap, known, special, texts, anns, num)
    requires anns.Keys <= known <= parentMap.Keys && key !in parentMap
    ensures Knowing(vf, m, History(h.texts[key := lines], h.parents[key := parentKeys]), added[key := lines],
                    parentMap[key := parentKeys], known, special + {key}, texts[key := lines], anns, num)
  {
    var h' := History(h.texts[key := lines], h.parents[key := parentKeys]);
    AddedIsResting(h, h', m, known, special, texts, anns, key, lines);
    ClosedLocal(h.parents, h'.parents, known);
    NeedsNothing(h.parents, h'.parents, anns.Keys, known - anns.Keys, num);
    AddedFromFile(vf, added, parentMap, known, key, parentKeys, lines);
  }

  lemma Overlay<V>(base: map<Key, V>, top: map<Key, V>, key: Key, v: V)
    ensures base + top[key := v] == (base + top)[key := v]
  {
  }

  lemma AddedFromFile(vf: VersionedFile, added: map<Key, Text>, parentMap: ParentMap, known: set<Key>,
                      key: Key, parentKeys: seq<Key>, lines: Text)
    requires FromFile(vf, added, parentMap) && Unhidden(vf, added, known) && key !in known
    ensures FromFile(vf, added[key := lines], parentMap[key := parentKeys])
    ensures Unhidden(vf, added[key := lines], known)
  {
  }

  lemma AddedIsResting(h: History, h': History, m: Matcher, known: set<Key>, special: set<Key>, texts: map<Key, Text>,
                       anns: map<Key, seq<Annotation>>, key: Key, lines: Text)
    requires Resting(h, m, anns.Keys, special, texts, anns) && anns.Keys <= known && key !in known
    requires h'.texts == h.texts[key := lines] && h'.parents.Keys == h.parents.Keys + {key}
    requires forall k | k in h.parents && k != key :: h'.parents[k] == h.parents[k]
    requires ClosedUnderParents(h.parents, known)
    ensures Resting(h', m, anns.Keys, special + {key}, texts[key := lines], anns)
  {
    forall k | k in anns ensures Grounded(h'.parents, k) && anns[k] == AnnotationOf(h', m, k) {
      AnnotationLocal(h, h', m, known, k);
    }
  }

  lemma ClosedLocal(pm: ParentMap, pm': ParentMap, known: set<Key>)
    requires ClosedUnderParents(pm, known) && forall k | k in known :: Parents(pm', k) == Parents(pm, k)
    ensures ClosedUnderParents(pm', known)
  {
    forall k, p | HasParent(pm', known, k, p) ensures p in known {
      assert HasParent(pm, known, k, p);
    }
  }

  lemma NeedsNothing(pm: ParentMap, pm': ParentMap, wanted: set<Key>, lost: set<Key>, num: map<Key, int>)
    requires Needs(pm, [], wanted, lost, num)
    ensures Needs(pm', [], wanted, lost, num)
  {
    forall k | k !in lost ensures NeedAt(pm', [], wanted, num, k) {
      assert NeedAt(pm, [], wanted, num, k);
    }
  }
}

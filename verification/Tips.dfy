/**
 Branch tips: how two tips are related, and where a branch ends up when it is updated to a
 revision. Everything that moves the tip of a branch is specified by these functions.
 */
module Tips {
  import opened Wrappers
  import opened Keys
  import opened Dag

  /** What a branch records about its last revision: its number and its id. */
  datatype Tip = Tip(revno: int, rev: Key)

  const EMPTY := Tip(0, NULL_REVISION)

  /** `a` is an ancestor of `b` or `b` itself; the null revision is behind everything. */
  ghost predicate Behind(pm: ParentMap, a: Key, b: Key) {
    a == NULL_REVISION || AncestorOrSelf(pm, a, b)
  }

  /** A repository without ghosts: every parent is present, and null is not a revision. */
  ghost predicate Closed(pm: ParentMap) {
    NULL_REVISION !in pm && forall k, p {:trigger p in pm[k]} | k in pm && p in pm[k] :: p in pm
  }

  ghost predicate Sound(pm: ParentMap) {
    Acyclic(pm) && Closed(pm)
  }

  predicate Present(pm: ParentMap, r: Key) {
    r == NULL_REVISION || r in pm
  }

  /** What `Branch.check` looks for: the recorded number is the length of the left-hand history. */
  ghost predicate Correct(pm: ParentMap, t: Tip) {
    t.revno >= 0 && LefthandDistance(pm, t.rev, t.revno)
  }

  lemma NoAncestorOfNull(pm: ParentMap, a: Key)
    requires NULL_REVISION !in pm
    ensures !StrictAncestor(pm, a, NULL_REVISION)
  {
    if StrictAncestor(pm, a, NULL_REVISION) {
      var p := AncestorViaParent(pm, a, NULL_REVISION);
    }
  }

  lemma BehindTransitive(pm: ParentMap, a: Key, b: Key, c: Key)
    requires Closed(pm) && Behind(pm, a, b) && Behind(pm, b, c)
    ensures Behind(pm, a, c)
  {
    if b == NULL_REVISION {
      NoAncestorOfNull(pm, a);
    } else if a != NULL_REVISION && a != b && b != c {
      AncestorTransitive(pm, a, b, c);
    }
  }

  lemma BehindChains(pm: ParentMap, a: Key, b: Key, c: Key)
    requires Closed(pm)
    ensures Behind(pm, a, b) && Behind(pm, b, c) ==> Behind(pm, a, c)
  {
    if Behind(pm, a, b) && Behind(pm, b, c) {
      BehindTransitive(pm, a, b, c);
    }
  }

  /** Which of two revisions is behind the other is read off the heads of the two. */
  lemma HeadsDecide(pm: ParentMap, a: Key, b: Key)
    requires Sound(pm)
    ensures Heads(pm, {a, b}) == {b} <==> Behind(pm, a, b)
    ensures Heads(pm, {a, b}) == {a} <==> Behind(pm, b, a)
    ensures Heads(pm, {a, b}) in {{a}, {b}, {a, b}}
  {
    if a != NULL_REVISION && b != NULL_REVISION {
      HeadsOfPair(pm, a, b);
    } else if a == b {
      assert {a, b} == {NULL_REVISION};
    } else {
      var other := if a == NULL_REVISION then b else a;
      NoAncestorOfNull(pm, other);
      assert {a, b} - {NULL_REVISION} == {other};
      assert HeadsOf(pm, {other}) == {other};
    }
  }

  // ---------------------------------------------------------------------------------
  // Updating a branch without overwriting

  datatype Relation = BDescendsFromA | ADescendsFromB | Diverged

  /** `_revision_relations`, with the tests in this order. */
  function RelationOf(heads: set<Key>, a: Key, b: Key): Relation {
    if heads == {b} then BDescendsFromA else if heads == {a, b} then Diverged else ADescendsFromB
  }

  /** The tip of a branch at `target` after an update to `stop`, or nothing if they diverged. */
  ghost function Updated(pm: ParentMap, target: Tip, stop: Tip): Option<Tip> {
    match RelationOf(Heads(pm, {stop.rev, target.rev}), stop.rev, target.rev)
    case BDescendsFromA => Some(target)
    case Diverged => None
    case ADescendsFromB => Some(stop)
  }

  /**
   An update goes to the one head of the old tip and the revision asked for, and fails
   exactly when neither descends from the other.
   */
  lemma UpdatedIsUniqueHead(pm: ParentMap, target: Tip, stop: Tip)
    requires Sound(pm)
    ensures Updated(pm, target, stop).None? <==> !Behind(pm, stop.rev, target.rev) && !Behind(pm, target.rev, stop.rev)
    ensures match Updated(pm, target, stop)
            case None => Heads(pm, {stop.rev, target.rev}) == {stop.rev, target.rev} && stop.rev != target.rev
            case Some(t) =>
              && Heads(pm, {stop.rev, target.rev}) == {t.rev} && t in {target, stop}
              && Behind(pm, target.rev, t.rev) && Behind(pm, stop.rev, t.rev)
              && t == if Behind(pm, stop.rev, target.rev) then target else stop
  {
    HeadsDecide(pm, stop.rev, target.rev);
    HeadsDecide(pm, target.rev, stop.rev);
    assert {stop.rev, target.rev} == {target.rev, stop.rev};
  }

  /**
   Updating the master and then the branch bound to it, both to the same revision. The
   second update can fail after the first went through.
   */
  ghost function UpdatedBoth(pm: ParentMap, master: Tip, local: Tip, forMaster: Tip, forLocal: Tip)
    : (r: (Tip, Tip, bool))
  {
    match Updated(pm, master, forMaster)
    case None => (master, local, false)
    case Some(m) =>
      match Updated(pm, local, forLocal)
      case None => (m, local, false)
      case Some(l) => (m, l, true)
  }

  /** The bound branch stays behind its master, whether or not both updates go through. */
  lemma UpdatedBothKeepsBehind(pm: ParentMap, master: Tip, local: Tip, forMaster: Tip, forLocal: Tip)
    requires Sound(pm) && Behind(pm, local.rev, master.rev) && forMaster.rev == forLocal.rev
    ensures var (m, l, ok) := UpdatedBoth(pm, master, local, forMaster, forLocal);
            Behind(pm, l.rev, m.rev) && Behind(pm, master.rev, m.rev) && Behind(pm, local.rev, l.rev)
  {
    UpdatedIsUniqueHead(pm, master, forMaster);
    UpdatedIsUniqueHead(pm, local, forLocal);
    var m := UpdatedBoth(pm, master, local, forMaster, forLocal).0;
    BehindTransitive(pm, local.rev, master.rev, m.rev);
  }

  /** Neither of two revisions descends from the other. */
  ghost predicate Apart(pm: ParentMap, a: Key, b: Key) {
    !Behind(pm, a, b) && !Behind(pm, b, a)
  }

  /** Each moves if what it is asked for is ahead of it, and a master that diverged stops the branch too. */
  lemma UpdatedBothIs(pm: ParentMap, master: Tip, local: Tip, forMaster: Tip, forLocal: Tip)
    requires Sound(pm)
    ensures var (m, l, ok) := UpdatedBoth(pm, master, local, forMaster, forLocal);
            var stopped := Apart(pm, master.rev, forMaster.rev);
            && m == (if stopped || Behind(pm, forMaster.rev, master.rev) then master else forMaster)
            && l == (if stopped || Apart(pm, local.rev, forLocal.rev) || Behind(pm, forLocal.rev, local.rev) then local else forLocal)
            && (ok <==> !stopped && !Apart(pm, local.rev, forLocal.rev))
  {
    UpdatedIsUniqueHead(pm, master, forMaster);
    UpdatedIsUniqueHead(pm, local, forLocal);
  }

  /**
   If the source moves between the two updates, the bound branch stays behind exactly if one
   of the updates diverges, or the master has what the branch is updated to: already, or
   from what it is updated to itself.
   */
  lemma UpdatedApartIff(pm: ParentMap, master: Tip, local: Tip, forMaster: Tip, forLocal: Tip)
    requires Sound(pm) && Behind(pm, local.rev, master.rev)
    ensures var (m, l, _) := UpdatedBoth(pm, master, local, forMaster, forLocal);
            Behind(pm, l.rev, m.rev) <==>
              || Apart(pm, master.rev, forMaster.rev) || Apart(pm, local.rev, forLocal.rev)
              || Behind(pm, forLocal.rev, master.rev)
              || (Behind(pm, master.rev, forMaster.rev) && Behind(pm, forLocal.rev, forMaster.rev))
  {
    UpdatedIsUniqueHead(pm, master, forMaster);
    UpdatedIsUniqueHead(pm, local, forLocal);
    HeadsDecide(pm, forLocal.rev, local.rev);
    HeadsDecide(pm, forMaster.rev, master.rev);
    BehindChains(pm, local.rev, master.rev, forMaster.rev);
    BehindChains(pm, forLocal.rev, local.rev, master.rev);
    BehindChains(pm, forLocal.rev, master.rev, forMaster.rev);
  }

  /**
   A pull from the master itself goes to the bound branch alone. It leaves the branch behind
   the master exactly if the master has the revision, or the branch diverged from it.
   */
  lemma PulledFromMasterIff(pm: ParentMap, master: Tip, local: Tip, stop: Tip)
    requires Sound(pm) && Behind(pm, local.rev, master.rev)
    ensures var l := match Updated(pm, local, stop) case None => local case Some(t) => t;
            Behind(pm, l.rev, master.rev) <==> Behind(pm, stop.rev, master.rev) || Apart(pm, local.rev, stop.rev)
  {
    UpdatedIsUniqueHead(pm, local, stop);
    HeadsDecide(pm, stop.rev, local.rev);
    BehindChains(pm, stop.rev, local.rev, master.rev);
  }

  /** A pull from the master of a revision on top of the master's tip puts the branch ahead. */
  lemma PullingAheadOfMaster(pm: ParentMap, a: Key, b: Key)
    requires Sound(pm) && b in pm && pm[b] == [a]
    ensures Updated(pm, Tip(1, a), Tip(2, b)) == Some(Tip(2, b)) && !Behind(pm, b, a)
  {
    assert a in pm[b];
    ParentIsAncestor(pm, a, b);
    if Behind(pm, b, a) {
      AncestorTransitive(pm, a, b, a);
    }
    HeadsDecide(pm, b, a);
  }

  /** So it does when the source gets a commit on top between the two. */
  lemma MovingSourceGetsAhead(pm: ParentMap, a: Key, b: Key)
    requires Sound(pm) && b in pm && pm[b] == [a]
    ensures var (m, l, ok) := UpdatedBoth(pm, Tip(1, a), Tip(1, a), Tip(1, a), Tip(2, b));
            ok && !Behind(pm, l.rev, m.rev)
  {
    assert a in pm[b];
    ParentIsAncestor(pm, a, b);
    if Behind(pm, b, a) {
      AncestorTransitive(pm, a, b, a);
    }
    HeadsDecide(pm, a, a);
    HeadsDecide(pm, b, a);
  }

  /** A branch that is behind its master never diverges from it, and catches up in full. */
  lemma CatchesUp(pm: ParentMap, master: Tip, local: Tip)
    requires Sound(pm) && Behind(pm, local.rev, master.rev)
    ensures Updated(pm, local, master).Some? && Updated(pm, local, master).value.rev == master.rev
  {
    UpdatedIsUniqueHead(pm, local, master);
    HeadsDecide(pm, local.rev, master.rev);
    assert {local.rev, master.rev} == {master.rev, local.rev};
  }

  // ---------------------------------------------------------------------------------
  // Adding a revision

  /** A revision id that nothing in the repository mentions. */
  ghost predicate Unused(pm: ParentMap, rev: Key) {
    rev != NULL_REVISION && rev !in pm && forall k {:trigger pm[k]} | k in pm :: rev !in pm[k]
  }

  ghost predicate AllPresent(pm: ParentMap, parents: seq<Key>) {
    forall p | p in parents :: p in pm
  }

  /** Paths from old revisions stay as they are. */
  lemma AncestorsKept(pm: ParentMap, rev: Key, parents: seq<Key>, a: Key, d: Key)
    requires Closed(pm) && rev !in pm && d in pm
    ensures StrictAncestor(pm, a, d) <==> StrictAncestor(pm[rev := parents], a, d)
  {
    var pm' := pm[rev := parents];
    if StrictAncestor(pm, a, d) {
      var n: nat :| n > 0 && Steps(pm, d, a, n);
      StepsLocal(pm, pm', pm.Keys, d, a, n);
    }
    if StrictAncestor(pm', a, d) {
      var n: nat :| n > 0 && Steps(pm', d, a, n);
      StepsLocal(pm, pm', pm.Keys, d, a, n);
    }
  }

  lemma {:induction false} AncestorPresent(pm: ParentMap, d: Key, a: Key, n: nat)
    requires Closed(pm) && d in pm && Steps(pm, d, a, n)
    ensures a in pm
    decreases n
  {
    if n > 0 {
      var p :| p in Parents(pm, d) && Steps(pm, p, a, n - 1);
      AncestorPresent(pm, p, a, n - 1);
    }
  }

  /** A new revision whose parents are present keeps the repository sound. */
  lemma CommitKeepsSound(pm: ParentMap, rev: Key, parents: seq<Key>)
    requires Sound(pm) && Unused(pm, rev) && AllPresent(pm, parents)
    ensures Sound(pm[rev := parents])
  {
    var pm' := pm[rev := parents];
    forall k ensures !StrictAncestor(pm', k, k) {
      if StrictAncestor(pm', k, k) {
        if k in pm {
          AncestorsKept(pm, rev, parents, k, k);
        } else {
          var p := AncestorViaParent(pm', k, k);
          assert k == rev && p in pm;
          AncestorsKept(pm, rev, parents, k, p);
          var n: nat :| Steps(pm, p, k, n);
          AncestorPresent(pm, p, k, n);
        }
      }
    }
  }

  lemma BehindKept(pm: ParentMap, rev: Key, parents: seq<Key>, a: Key, b: Key)
    requires Closed(pm) && Unused(pm, rev) && Present(pm, b)
    ensures Behind(pm, a, b) <==> Behind(pm[rev := parents], a, b)
  {
    if b == NULL_REVISION {
      NoAncestorOfNull(pm, a);
      NoAncestorOfNull(pm[rev := parents], a);
    } else {
      AncestorsKept(pm, rev, parents, a, b);
    }
  }

  lemma {:induction false} DistanceKept(pm: ParentMap, rev: Key, parents: seq<Key>, r: Key, n: nat)
    requires rev !in pm && LefthandDistance(pm, r, n)
    ensures LefthandDistance(pm[rev := parents], r, n)
    decreases n
  {
    if r != NULL_REVISION {
      DistanceKept(pm, rev, parents, if |pm[r]| == 0 then NULL_REVISION else pm[r][0], n - 1);
    }
  }

  // ---------------------------------------------------------------------------------
  // Committing

  /** The left parent of a tree or revision with the given parents. */
  function FirstParent(parents: seq<Key>): Key {
    if |parents| == 0 then NULL_REVISION else parents[0]
  }

  /** `_check_out_of_date_tree`: may a tree with these parents be committed on top of `tip`? */
  predicate UpToDate(tip: Tip, parents: seq<Key>) {
    tip.rev == FirstParent(parents) || tip.rev == NULL_REVISION
  }

  /**
   The tip that a commit leaves on the branch of the tree and on its master, if it has one;
   none if the two are not level or the tree is not up to date.
   */
  function Committed(master: Option<Tip>, local: Tip, parents: seq<Key>, rev: Key): Option<Tip> {
    var target := if master.Some? then master.value else local;
    if target.rev == local.rev && UpToDate(target, parents) then Some(Tip(target.revno + 1, rev)) else None
  }

  /** A branch on no revision yet takes any tree, and counts its commit as the first. */
  predicate StartsOver(tip: Tip, parents: seq<Key>) {
    tip.rev == NULL_REVISION && parents != []
  }

  /** The new revision is ahead of the tip that it replaces. */
  lemma CommitIsAhead(pm: ParentMap, tip: Tip, rev: Key)
    requires rev in pm && UpToDate(tip, pm[rev])
    ensures Behind(pm, tip.rev, rev)
  {
    if tip.rev != NULL_REVISION {
      ParentIsAncestor(pm, tip.rev, rev);
    }
  }

  /**
   The number that a commit records, one more than that of the tip it replaces, is right
   exactly unless it starts over.
   */
  lemma CommitIsNumbered(pm: ParentMap, tip: Tip, rev: Key)
    requires Closed(pm) && rev in pm && Correct(pm, tip) && UpToDate(tip, pm[rev])
    ensures Correct(pm, Tip(tip.revno + 1, rev)) <==> !StartsOver(tip, pm[rev])
  {
    if StartsOver(tip, pm[rev]) {
      assert pm[rev][0] in pm[rev];
      assert pm[rev][0] in pm;
      assert !LefthandDistance(pm, pm[rev][0], 0);
    }
  }

  /** Such a commit: a tree based on A, in a branch that has no revision yet. */
  lemma StartingOverMiscounts(a: Key, b: Key)
    requires a != b && NULL_REVISION !in {a, b}
    ensures var pm := map[a := [], b := [a]];
            && Correct(pm, EMPTY) && UpToDate(EMPTY, pm[b])
            && !Correct(pm, Tip(EMPTY.revno + 1, b)) && Correct(pm, Tip(2, b))
  {
    var pm := map[a := [], b := [a]];
    assert LefthandDistance(pm, NULL_REVISION, 0);
    assert LefthandDistance(pm, a, 1);
    assert !LefthandDistance(pm, a, 0);
  }
}

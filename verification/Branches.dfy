/**
 A branch and a commit as the objects that one process works with: pulling and pushing with
 or without a master, checking, and committing to a bound or unbound branch.

 Branches share one repository, into which fetching has already copied what is needed.
 */
module Branches {
  import opened Wrappers
  import opened Keys
  import opened Dag
  import opened Tips

  /** The services of the revision graph, which belong to another component. */
  datatype RevisionGraph = RevisionGraph(
    heads: (ParentMap, set<Key>) -> set<Key>,
    distanceToNull: (ParentMap, Key, seq<Tip>) -> int)

  /** Their contract. Known numbers may be used as short cuts, so they have to be right. */
  ghost predicate ValidGraph(g: RevisionGraph, pm: ParentMap) {
    && (forall s {:trigger g.heads(pm, s)} :: g.heads(pm, s) == Heads(pm, s))
    && forall r, known, n: nat {:trigger g.distanceToNull(pm, r, known), LefthandDistance(pm, r, n)} |
         LefthandDistance(pm, r, n) && (forall t | t in known :: Correct(pm, t)) :: g.distanceToNull(pm, r, known) == n
  }

  /**
   The tip that an update asks for: the source's, with the number the source has for it, unless a
   revision is given. That gets its left-hand distance, counted from tips with right numbers.
   */
  ghost predicate AskedFor(pm: ParentMap, source: Tip, before: Tip, stopRevision: Option<Key>, stop: Tip) {
    match stopRevision
    case None => stop == source
    case Some(rev) =>
      && stop.rev == rev
      && (Correct(pm, source) && Correct(pm, before) && (exists n: nat :: LefthandDistance(pm, rev, n)) ==> Correct(pm, stop))
  }

  datatype BranchError = DivergedBranches | LocalRequiresBoundBranch

  class Repository {
    var parents: ParentMap

    constructor (parents: ParentMap)
      ensures this.parents == parents
    {
      this.parents := parents;
    }
  }

  class Branch {
    const repository: Repository
    /** The master that the branch is bound to, if any. */
    const master: Branch?
    var tip: Tip

    constructor (repository: Repository, master: Branch?, tip: Tip)
      ensures this.repository == repository && this.master == master && this.tip == tip
    {
      this.repository, this.master, this.tip := repository, master, tip;
    }

    method SetLastRevisionInfo(revno: int, rev: Key)
      modifies this`tip
      ensures tip == Tip(revno, rev)
    {
      tip := Tip(revno, rev);
    }

    method ImportLastRevisionInfo(revno: int, rev: Key) returns (imported: (int, Key))
      modifies this`tip
      ensures tip == Tip(revno, rev) && imported == (revno, rev)
    {
      SetLastRevisionInfo(revno, rev);
      imported := (revno, rev);
    }

    /** Compare the recorded number with the length of the left-hand history. */
    method Check(actualRevno: int) returns (errors: seq<(int, int)>)
      requires exists n: nat :: LefthandDistance(repository.parents, tip.rev, n) && n == actualRevno
      ensures errors == [] <==> Correct(repository.parents, tip)
    {
      ghost var n: nat :| LefthandDistance(repository.parents, tip.rev, n) && n == actualRevno;
      if Correct(repository.parents, tip) {
        LefthandDistanceUnique(repository.parents, tip.rev, tip.revno, n);
      }
      errors := if actualRevno != tip.revno then [(tip.revno, actualRevno)] else [];
    }

    /** May the tip stay because it descends from `a`? */
    method CheckIfDescendantOrDiverged(a: Key, b: Key, graph: RevisionGraph) returns (r: Result<bool, BranchError>)
      requires Sound(repository.parents) && ValidGraph(graph, repository.parents)
      ensures r == if Behind(repository.parents, a, b) then Success(true)
                   else if Behind(repository.parents, b, a) then Success(false) else Failure(DivergedBranches)
    {
      HeadsDecide(repository.parents, a, b);
      match RelationOf(graph.heads(repository.parents, {a, b}), a, b)
      case BDescendsFromA => r := Success(true);
      case Diverged => r := Failure(DivergedBranches);
      case ADescendsFromB => r := Success(false);
    }

    /** The core of pull and push: move to the revision unless the tip already has it. */
    method UpdateRevisions(source: Tip, stopRevision: Option<Key>, overwrite: bool, graph: RevisionGraph)
        returns (r: Outcome<BranchError>, ghost stop: Tip)
      requires Sound(repository.parents) && ValidGraph(graph, repository.parents)
      modifies this
      ensures old(AskedFor(repository.parents, source, tip, stopRevision, stop))
      ensures !overwrite ==> match Updated(repository.parents, old(tip), stop)
                             case None => r == Fail(DivergedBranches) && tip == old(tip)
                             case Some(t) => r.Pass? && tip == t
      ensures overwrite ==> r.Pass? && tip == if stopRevision.None? && stop.rev == NULL_REVISION then old(tip) else stop
    {
      ghost var pm, before := repository.parents, tip;
      stop := Wished(source, tip, stopRevision, graph);
      UpdatedIsUniqueHead(pm, before, stop);
      var stopRev := source.rev;
      var stopRevno := Some(source.revno);
      if stopRevision.Some? {
        stopRev, stopRevno := stopRevision.value, None;
      } else if source.rev == NULL_REVISION {
        return Pass, stop;
      }
      var lastRev := tip.rev;
      if !overwrite {
        var descends := CheckIfDescendantOrDiverged(stopRev, lastRev, graph);
        if descends.Failure? {
          return Fail(descends.error), stop;
        }
        if descends.value {
          return Pass, stop;
        }
      }
      if stopRevno.None? {
        stopRevno := Some(graph.distanceToNull(repository.parents, stopRev, [source, tip]));
      }
      SetLastRevisionInfo(stopRevno.value, stopRev);
      r := Pass;
    }

    ghost function Masters(): set<object>
    {
      if master == null then {} else {master}
    }

    /** The master is a branch of its own, over the same repository, and not bound itself. */
    ghost predicate WellBound()
    {
      master != null ==> master != this && master.master == null && master.repository == repository
    }

    /** Pull into the branch, after its master unless that is the source. */
    method Pull(source: Branch, stopRevision: Option<Key>, overwrite: bool, local: bool, graph: RevisionGraph)
        returns (r: Outcome<BranchError>, ghost forMaster: Tip, ghost forLocal: Tip)
      requires Sound(repository.parents) && ValidGraph(graph, repository.parents) && WellBound() && source != this
      modifies this, Masters()
      ensures local && master == null ==> r == Fail(LocalRequiresBoundBranch) && tip == old(tip)
      ensures !(local && master == null) ==>
                (if local || master == null || source == master
                 then (master != null ==> master.tip == old(master.tip)) && MovedTo(old(tip), tip, stopRevision, forLocal, overwrite, r)
                 else MovedBoth(old(master.tip), old(tip), master.tip, tip, stopRevision, forMaster, forLocal,
                                overwrite, r))
      ensures old(AskedFor(repository.parents, source.tip, tip, stopRevision, forLocal))
      ensures master != null && source != master ==>
                old(AskedFor(repository.parents, source.tip, master.tip, stopRevision, forMaster))
    {
      forLocal := Wished(source.tip, tip, stopRevision, graph);
      forMaster := if master == null then forLocal else Wished(source.tip, master.tip, stopRevision, graph);
      if local && master == null {
        return Fail(LocalRequiresBoundBranch), forMaster, forLocal;
      }
      if !local && master != null && source != master {
        r, forMaster := master.UpdateRevisions(source.tip, stopRevision, overwrite, graph);
        if r.Fail? {
          return;
        }
      }
      r, forLocal := UpdateRevisions(source.tip, stopRevision, overwrite, graph);
    }

    /** The tip that an update would go to. */
    ghost function Wished(source: Tip, before: Tip, stopRevision: Option<Key>, graph: RevisionGraph): (stop: Tip)
      requires ValidGraph(graph, repository.parents)
      reads repository
      ensures AskedFor(repository.parents, source, before, stopRevision, stop)
    {
      if stopRevision.None? then source
      else Tip(graph.distanceToNull(repository.parents, stopRevision.value, [source, before]), stopRevision.value)
    }

    /**
     Without overwriting an update is `Updated`; else it goes to the tip asked for, unless that
     is of a source that has no revision.
     */
    ghost predicate MovedTo(before: Tip, after: Tip, stopRevision: Option<Key>, stop: Tip, overwrite: bool, r: Outcome<BranchError>)
      reads repository
    {
      if overwrite then r.Pass? && after == if stopRevision.None? && stop.rev == NULL_REVISION then before else stop
      else match Updated(repository.parents, before, stop)
           case None => r == Fail(DivergedBranches) && after == before
           case Some(t) => r.Pass? && after == t
    }

    ghost predicate MovedBoth(masterBefore: Tip, before: Tip, masterAfter: Tip, after: Tip, stopRevision: Option<Key>,
                              forMaster: Tip, forLocal: Tip, overwrite: bool, r: Outcome<BranchError>)
      reads repository
    {
      if overwrite then
        MovedTo(masterBefore, masterAfter, stopRevision, forMaster, true, r) && MovedTo(before, after, stopRevision, forLocal, true, r)
      else
        && (masterAfter, after, r.Pass?) == UpdatedBoth(repository.parents, masterBefore, before, forMaster, forLocal)
        && (r.Fail? ==> r.error == DivergedBranches)
    }

    /** Push into the branch; nothing to do when its tip is the revision asked for. */
    method BasicPush(source: Branch, stopRevision: Option<Key>, overwrite: bool, graph: RevisionGraph)
        returns (r: Outcome<BranchError>, ghost stop: Tip)
      requires Sound(repository.parents) && ValidGraph(graph, repository.parents)
      modifies this
      ensures MovedTo(old(tip), tip, stopRevision, stop, overwrite, r)
      ensures old(AskedFor(repository.parents, source.tip, tip, stopRevision, stop))
      ensures stopRevision == Some(old(tip).rev) ==> r.Pass? && tip == old(tip)
    {
      if stopRevision.Some? && tip.rev == stopRevision.value {
        HeadsDecide(repository.parents, tip.rev, tip.rev);
        return Pass, tip;
      }
      r, stop := UpdateRevisions(source.tip, stopRevision, overwrite, graph);
    }

    /** Push into the branch, after its master. */
    method Push(source: Branch, stopRevision: Option<Key>, overwrite: bool, graph: RevisionGraph)
        returns (r: Outcome<BranchError>, ghost forMaster: Tip, ghost forLocal: Tip)
      requires Sound(repository.parents) && ValidGraph(graph, repository.parents) && WellBound() && source != this
      modifies this, Masters()
      ensures if master == null then MovedTo(old(tip), tip, stopRevision, forLocal, overwrite, r)
              else MovedBoth(old(master.tip), old(tip), master.tip, tip, stopRevision, forMaster, forLocal,
                                overwrite, r)
      ensures old(AskedFor(repository.parents, source.tip, tip, stopRevision, forLocal))
      ensures master != null ==> old(AskedFor(repository.parents, source.tip, master.tip, stopRevision, forMaster))
    {
      forLocal := Wished(source.tip, tip, stopRevision, graph);
      forMaster := forLocal;
      if master != null {
        r, forMaster := master.BasicPush(source, stopRevision, overwrite, graph);
        if r.Fail? {
          return;
        }
      }
      r, forLocal := BasicPush(source, stopRevision, overwrite, graph);
    }
  }
}

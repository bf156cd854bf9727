/** A commit as the object that one process works with. */
module Commits {
  import opened Wrappers
  import opened Keys
  import opened Tips
  import opened Branches

  datatype CommitError =
    | LocalRequiresBoundBranch
    | CommitToDoubleBoundBranch
    | BoundBranchOutOfDate
    | OutOfDateTree

  class Commit {
    /** The branch of the working tree, and the tree's parents. */
    const branch: Branch
    const parents: seq<Key>
    /** The branch that the commit has to extend. */
    var masterBranch: Branch
    /** The branch of the tree if it is bound and its master takes part, else null. */
    var boundBranch: Branch?
    var revId: Option<Key>

    constructor (branch: Branch, parents: seq<Key>)
      ensures this.branch == branch && this.parents == parents
      ensures masterBranch == branch && boundBranch == null && revId == None
    {
      this.branch, this.parents := branch, parents;
      masterBranch, boundBranch, revId := branch, null, None;
    }

    ghost function TargetBranch(local: bool): Branch {
      if local || branch.master == null then branch else branch.master
    }

    /** Why the commit is refused before anything is locked but the tree. */
    ghost function BoundError(local: bool): Option<CommitError>
      reads branch, if branch.master == null then {} else {branch.master}
    {
      if branch.master == null then if local then Some(CommitError.LocalRequiresBoundBranch) else None
      else if local then None
      else if branch.master.master != null then Some(CommitToDoubleBoundBranch)
      else if branch.tip.rev != branch.master.tip.rev then Some(BoundBranchOutOfDate)
      else None
    }

    method CheckBoundBranch(local: bool) returns (r: Outcome<CommitError>)
      requires boundBranch == null
      modifies this`masterBranch, this`boundBranch
      ensures r == match old(BoundError(local)) case None => Pass case Some(e) => Fail(e)
      ensures r == Fail(CommitError.LocalRequiresBoundBranch) <==> local && branch.master == null
      ensures r == Fail(CommitToDoubleBoundBranch) <==> !local && branch.master != null && branch.master.master != null
      ensures r == Fail(BoundBranchOutOfDate) <==>
                !local && branch.master != null && branch.master.master == null && old(branch.tip.rev != branch.master.tip.rev)
      ensures r.Pass? ==>
                masterBranch == TargetBranch(local) && boundBranch == if local || branch.master == null then null else branch
    {
      if local && branch.master == null {
        return Fail(CommitError.LocalRequiresBoundBranch);
      }
      if local || branch.master == null {
        masterBranch := branch;
        return Pass;
      }
      masterBranch := branch.master;
      if masterBranch.master != null {
        return Fail(CommitToDoubleBoundBranch);
      }
      if branch.tip.rev != masterBranch.tip.rev {
        return Fail(BoundBranchOutOfDate);
      }
      boundBranch := branch;
      r := Pass;
    }

    /**
     The number and id of the revision to extend, and the number of the new one: none on top
     of a left parent that the repository does not have.
     */
    method CheckOutOfDateTree() returns (r: Result<(int, Key, Option<int>), CommitError>)
      ensures UpToDate(masterBranch.tip, parents) ==>
                var known := Present(branch.repository.parents, FirstParent(parents));
                r == Success((masterBranch.tip.revno, masterBranch.tip.rev,
                              if known then Some(masterBranch.tip.revno + 1) else None))
      ensures !UpToDate(masterBranch.tip, parents) ==> r == Failure(OutOfDateTree)
      ensures r.Failure? <==> masterBranch.tip.rev != NULL_REVISION && masterBranch.tip.rev != if parents == [] then NULL_REVISION else parents[0]
      ensures r.Success? ==>
                (r.value.2.Some? <==> parents == [] || parents[0] == NULL_REVISION || parents[0] in branch.repository.parents)
    {
      var firstTreeParent := if |parents| > 0 then parents[0] else NULL_REVISION;
      var oldRevno, masterLast := masterBranch.tip.revno, masterBranch.tip.rev;
      if masterLast != firstTreeParent {
        if masterLast != NULL_REVISION {
          return Failure(OutOfDateTree);
        }
      }
      var newRevno := if Present(branch.repository.parents, firstTreeParent) then Some(oldRevno + 1) else None;
      r := Success((oldRevno, masterLast, newRevno));
    }

    /** The master first, so that an interruption leaves the bound branch behind. */
    method UpdateBranches(newRevno: int)
      requires revId.Some?
      modifies branch, if boundBranch == null then {} else {masterBranch}
      ensures branch.tip == Tip(newRevno, revId.value)
      ensures boundBranch != null ==> masterBranch.tip == Tip(newRevno, revId.value)
    {
      var revno, rev := newRevno, revId.value;
      if boundBranch != null {
        var imported := masterBranch.ImportLastRevisionInfo(revno, rev);
        revno, rev := imported.0, imported.1;
      }
      branch.SetLastRevisionInfo(revno, rev);
    }

    /**
     Commit the tree as revision `rev`. The branch that is extended and the branch of the
     tree both end at the new revision, or nothing changes at all.
     */
    method Run(local: bool, rev: Key) returns (r: Result<Key, CommitError>)
      requires Sound(branch.repository.parents) && Unused(branch.repository.parents, rev)
      requires AllPresent(branch.repository.parents, parents) && branch.WellBound() && boundBranch == null
      modifies this, branch, branch.Masters(), branch.repository
      ensures Sound(branch.repository.parents)
      ensures var target := TargetBranch(local);
              if old(BoundError(local)).None? && UpToDate(old(target.tip), parents) then
                && r == Success(rev) && branch.repository.parents == old(branch.repository.parents)[rev := parents]
                && target.tip == branch.tip == Tip(old(target.tip).revno + 1, rev)
                && Behind(branch.repository.parents, old(target.tip).rev, rev)
              else
                && r == Failure(if old(BoundError(local)).Some? then old(BoundError(local)).value else OutOfDateTree)
                && branch.repository.parents == old(branch.repository.parents)
                && target.tip == old(target.tip) && branch.tip == old(branch.tip)
      ensures var master := if branch.master == null then None else Some(old(branch.master.tip));
              !local ==> match Committed(master, old(branch.tip), parents, rev)
                         case None => r.Failure?
                         case Some(t) => r.Success? && TargetBranch(local).tip == branch.tip == t
      ensures var target := if local || branch.master == null then branch else branch.master;
              r.Success? <==>
                && (if local then branch.master != null else branch.master == null || old(branch.tip.rev == branch.master.tip.rev))
                && (old(target.tip.rev) == NULL_REVISION || old(target.tip.rev) == if parents == [] then NULL_REVISION else parents[0])
    {
      var bound := CheckBoundBranch(local);
      if bound.Fail? {
        return Failure(bound.error);
      }
      var checked := CheckOutOfDateTree();
      if checked.Failure? {
        return Failure(checked.error);
      }
      ghost var pm := branch.repository.parents;
      CommitKeepsSound(pm, rev, parents);
      branch.repository.parents := branch.repository.parents[rev := parents];
      CommitIsAhead(branch.repository.parents, masterBranch.tip, rev);
      revId := Some(rev);
      UpdateBranches(checked.value.2.value);
      r := Success(rev);
    }
  }
}

/**
 What a process does when no other one comes between its steps: a whole commit or pull of
 the protocol ends as that of the branch objects does.
 */
module LoneProcess {
  import opened Wrappers
  import opened Keys
  import opened Tips
  import opened BoundBranches

  /** Actions one after another. */
  datatype Actions = Begin | Then(before: Actions, last: Action)

  /** The system after the actions of process `p`, if all of them are possible. */
  ghost function Through(w: Setting, s: System, p: ProcessId, actions: Actions): Option<System> {
    match actions
    case Begin => Some(s)
    case Then(before, last) =>
      var s1 := Through(w, s, p, before);
      if s1.None? then None else After(w, s1.value, p, last)
  }

  ghost predicate SameActivity(s: System, s': System, q: ProcessId) {
    ActivityOf(s', q) == ActivityOf(s, q)
  }

  ghost predicate OthersWait(s: System, s': System, p: ProcessId) {
    forall q {:trigger SameActivity(s, s', q)} | q != p :: SameActivity(s, s', q)
  }

  lemma StillWaiting(s: System, s1: System, s2: System, p: ProcessId, a: Activity)
    requires OthersWait(s, s1, p) && s2.activities == s1.activities[p := a]
    ensures OthersWait(s, s2, p)
  {
    forall q | q != p ensures SameActivity(s, s2, q) {
      assert SameActivity(s, s1, q);
    }
  }

  /** The process has nothing left to do and holds no lock, the others are where they were. */
  ghost predicate Unlocked(s: System, s': System, p: ProcessId) {
    && ActivityOf(s', p) == Idle && OthersWait(s, s', p)
    && forall b {:trigger Holds(s', p, b)} :: !Holds(s', p, b)
  }

  ghost predicate SameTip(s: System, s': System, x: BranchId) {
    TipOf(s', x) == TipOf(s, x)
  }

  /** Only these tips may have changed. */
  ghost predicate OthersKept(s: System, s': System, b: BranchId, c: BranchId) {
    forall x {:trigger SameTip(s, s', x)} | x != b && x != c :: SameTip(s, s', x)
  }

  lemma Finish(w: Setting, s: System, p: ProcessId, actions: Actions, s1: System) returns (s': System)
    requires Through(w, s, p, actions) == Some(s1) && ActivityOf(s1, p) == Finished && OthersWait(s, s1, p)
    ensures Through(w, s, p, Then(actions, Advance)) == Some(s')
    ensures s'.parents == s1.parents && s'.tips == s1.tips && Unlocked(s, s', p)
  {
    s' := Release(s1, p);
    StillWaiting(s, s1, s', p, Idle);
  }

  /** A process that can start on branch `b` and finds the master unlocked. */
  ghost predicate MayStart(w: Setting, s: System, p: ProcessId, b: BranchId) {
    && w.master !in w.bound && ActivityOf(s, p) == Idle && b !in s.locks
    && (b in w.bound ==> w.master !in s.locks)
  }

  ghost function MasterTip(w: Setting, s: System, b: BranchId): Option<Tip> {
    if b in w.bound then Some(TipOf(s, w.master)) else None
  }

  /** A commit begins. */
  lemma CommitStarts(w: Setting, s: System, p: ProcessId, b: BranchId, parents: seq<Key>) returns (s': System)
    requires MayStart(w, s, p, b) && AllPresent(s.parents, parents)
    ensures Through(w, s, p, Then(Begin, StartCommit(b, parents))) == Some(s')
    ensures s' == At(Lock(s, p, b), p, CommitStarted(b, parents)) && OthersWait(s, s', p)
  {
    s' := At(Lock(s, p, b), p, CommitStarted(b, parents));
    StillWaiting(s, s, s', p, CommitStarted(b, parents));
  }

  /** A step of the process that moves no tip. */
  lemma Step(w: Setting, s: System, p: ProcessId, actions: Actions, s1: System, s2: System)
    requires Through(w, s, p, actions) == Some(s1) && OthersWait(s, s1, p) && Advanced(w, s1, p) == Some(s2)
    requires s2.activities == s1.activities[p := ActivityOf(s2, p)]
    ensures Through(w, s, p, Then(actions, Advance)) == Some(s2) && OthersWait(s, s2, p)
  {
    StillWaiting(s, s1, s2, p, ActivityOf(s2, p));
  }

  /** The tips are compared. */
  ghost function Compared(w: Setting, s: System, p: ProcessId, b: BranchId, parents: seq<Key>): (s': System) {
    At(s, p, if b !in w.bound then CommitLocked(b, parents)
             else if TipOf(s, b).rev == TipOf(s, w.master).rev then CommitCompared(b, parents) else Finished)
  }

  /** The tips are compared and the target is locked. */
  lemma CommitLocks(w: Setting, s: System, p: ProcessId, actions: Actions, s1: System, b: BranchId, parents: seq<Key>)
      returns (actions': Actions, s': System)
    requires Through(w, s, p, actions) == Some(s1) && ActivityOf(s1, p) == CommitStarted(b, parents)
    requires (b in w.bound ==> w.master !in s1.locks) && OthersWait(s, s1, p)
    ensures Through(w, s, p, actions') == Some(s') && s'.parents == s1.parents && s'.tips == s1.tips
    ensures OthersWait(s, s', p)
    ensures ActivityOf(s', p) ==
              if b in w.bound && TipOf(s1, b).rev != TipOf(s1, w.master).rev then Finished else CommitLocked(b, parents)
  {
    var s2 := Compared(w, s1, p, b, parents);
    Step(w, s, p, actions, s1, s2);
    actions', s' := Then(actions, Advance), s2;
    if ActivityOf(s2, p) == CommitCompared(b, parents) {
      s' := At(Lock(s2, p, w.master), p, CommitLocked(b, parents));
      Step(w, s, p, actions', s2, s');
      actions' := Then(actions', Advance);
    }
  }

  ghost function Checked(w: Setting, s: System, p: ProcessId, b: BranchId, parents: seq<Key>): (s': System) {
    var tip := TipOf(s, Target(w, b));
    At(s, p, if UpToDate(tip, parents) then CommitChecked(b, parents, tip.revno + 1) else Finished)
  }

  /** The tree is checked against the target. */
  lemma CommitChecks(w: Setting, s: System, p: ProcessId, actions: Actions, s1: System, b: BranchId, parents: seq<Key>)
      returns (actions': Actions, s': System)
    requires Through(w, s, p, actions) == Some(s1) && ActivityOf(s1, p) == CommitLocked(b, parents) && OthersWait(s, s1, p)
    ensures Through(w, s, p, actions') == Some(s') && s'.parents == s1.parents && s'.tips == s1.tips
    ensures OthersWait(s, s', p)
    ensures var tip := TipOf(s1, Target(w, b));
            ActivityOf(s', p) == if UpToDate(tip, parents) then CommitChecked(b, parents, tip.revno + 1) else Finished
  {
    s' := Checked(w, s1, p, b, parents);
    Step(w, s, p, actions, s1, s');
    actions' := Then(actions, Advance);
  }

  /** Up to the point where the tree has been checked. */
  lemma CommitToCheck(w: Setting, s: System, p: ProcessId, b: BranchId, parents: seq<Key>, rev: Key)
      returns (actions: Actions, s': System)
    requires MayStart(w, s, p, b) && AllPresent(s.parents, parents)
    ensures Through(w, s, p, actions) == Some(s') && s'.parents == s.parents && s'.tips == s.tips
    ensures OthersWait(s, s', p)
    ensures var committed := Committed(MasterTip(w, s, b), TipOf(s, b), parents, rev);
            ActivityOf(s', p) == if committed.Some? then CommitChecked(b, parents, committed.value.revno) else Finished
  {
    s' := CommitStarts(w, s, p, b, parents);
    actions, s' := CommitLocks(w, s, p, Then(Begin, StartCommit(b, parents)), s', b, parents);
    if ActivityOf(s', p) != Finished {
      actions, s' := CommitChecks(w, s, p, actions, s', b, parents);
    }
  }

  /** From the stored revision on: the target moves, then the branch if it is another. */
  lemma CommitPublished(w: Setting, s: System, p: ProcessId, actions: Actions, s1: System, b: BranchId,
                        parents: seq<Key>, rev: Key, revno: int)
      returns (actions': Actions, s': System)
    requires w.master !in w.bound && OthersWait(s, s1, p)
    requires Through(w, s, p, actions) == Some(s1) && ActivityOf(s1, p) == CommitBuilt(b, parents, rev, revno)
    ensures Through(w, s, p, actions') == Some(s') && Unlocked(s, s', p) && s'.parents == s1.parents
    ensures TipOf(s', b) == TipOf(s', Target(w, b)) == Tip(revno, rev)
    ensures s'.tips == s1.tips[Target(w, b) := Tip(revno, rev)][b := Tip(revno, rev)]
  {
    var target, tip := Target(w, b), Tip(revno, rev);
    var s2 := At(Move(s1, target, tip), p, if b in w.bound then CommitUploaded(b, rev, revno) else Finished);
    StillWaiting(s, s1, s2, p, ActivityOf(s2, p));
    var s3 := s2;
    actions' := Then(actions, Advance);
    if b in w.bound {
      s3 := At(Move(s2, b, tip), p, Finished);
      StillWaiting(s, s2, s3, p, Finished);
      actions' := Then(actions', Advance);
    }
    s' := Finish(w, s, p, actions', s3);
    actions' := Then(actions', Advance);
  }

  /** A commit without interruption: both tips at the new revision, or nothing has changed. */
  lemma CommitAlone(w: Setting, s: System, p: ProcessId, b: BranchId, parents: seq<Key>, rev: Key)
      returns (actions: Actions, s': System)
    requires MayStart(w, s, p, b) && AllPresent(s.parents, parents) && Unused(s.parents, rev)
    ensures Through(w, s, p, actions) == Some(s') && Unlocked(s, s', p)
    ensures match Committed(MasterTip(w, s, b), TipOf(s, b), parents, rev)
            case None => s'.parents == s.parents && s'.tips == s.tips
            case Some(t) =>
              && s'.parents == s.parents[rev := parents] && TipOf(s', b) == TipOf(s', Target(w, b)) == t
              && OthersKept(s, s', b, Target(w, b))
  {
    var s1;
    actions, s1 := CommitToCheck(w, s, p, b, parents, rev);
    if Committed(MasterTip(w, s, b), TipOf(s, b), parents, rev).None? {
      s' := Finish(w, s, p, actions, s1);
      actions := Then(actions, Advance);
    } else {
      var revno := ActivityOf(s1, p).revno;
      var s2 := At(s1.(parents := s1.parents[rev := parents]), p, CommitBuilt(b, parents, rev, revno));
      StillWaiting(s, s1, s2, p, ActivityOf(s2, p));
      actions, s' := CommitPublished(w, s, p, Then(actions, Build(rev)), s2, b, parents, rev, revno);
    }
  }

  /** A pull or push through the master without interruption. */
  lemma UpdateAlone(w: Setting, s: System, p: ProcessId, b: BranchId, source: BranchId, stop: Tip)
      returns (actions: Actions, s': System)
    requires MayStart(w, s, p, b) && b in w.bound && MayUpdate(w, s, b, source, stop, true)
    ensures Through(w, s, p, actions) == Some(s') && Unlocked(s, s', p) && s'.parents == s.parents
    ensures var (m, l, _) := UpdatedBoth(s.parents, TipOf(s, w.master), TipOf(s, b), stop, stop);
            TipOf(s', w.master) == m && TipOf(s', b) == l && OthersKept(s, s', b, w.master)
  {
    actions, s' := UpdateToMaster(w, s, p, b, source, stop);
    if ActivityOf(s', p) != Finished {
      actions, s' := UpdateBranch(w, s, p, actions, s', b, stop);
    }
    s' := Finish(w, s, p, actions, s');
    actions := Then(actions, Advance);
  }

  lemma UpdateToMaster(w: Setting, s: System, p: ProcessId, b: BranchId, source: BranchId, stop: Tip)
      returns (actions: Actions, s': System)
    requires MayStart(w, s, p, b) && b in w.bound && MayUpdate(w, s, b, source, stop, true)
    ensures Through(w, s, p, actions) == Some(s') && s'.parents == s.parents && OthersWait(s, s', p)
    ensures var moved := Updated(s.parents, TipOf(s, w.master), stop);
            && s'.tips == (if moved.Some? then s.tips[w.master := moved.value] else s.tips)
            && ActivityOf(s', p) == if moved.Some? then UpdateLocal(b, stop) else Finished
  {
    s' := UpdateStarts(w, s, p, b, source, stop, true);
    actions, s' := UpdateLocks(w, s, p, Then(Begin, StartUpdate(b, source, stop, true)), s', b, stop);
    actions, s' := UpdateMaster(w, s, p, actions, s', b, stop);
  }

  lemma UpdateStarts(w: Setting, s: System, p: ProcessId, b: BranchId, source: BranchId, stop: Tip, viaMaster: bool)
      returns (s': System)
    requires MayStart(w, s, p, b) && MayUpdate(w, s, b, source, stop, viaMaster)
    ensures Through(w, s, p, Then(Begin, StartUpdate(b, source, stop, viaMaster))) == Some(s') && OthersWait(s, s', p)
    ensures s' == At(Lock(s, p, b), p, if viaMaster then UpdateStarted(b, stop) else UpdateLocal(b, stop))
  {
    s' := At(Lock(s, p, b), p, if viaMaster then UpdateStarted(b, stop) else UpdateLocal(b, stop));
    StillWaiting(s, s, s', p, ActivityOf(s', p));
  }

  lemma UpdateLocks(w: Setting, s: System, p: ProcessId, actions: Actions, s1: System, b: BranchId, stop: Tip)
      returns (actions': Actions, s': System)
    requires Through(w, s, p, actions) == Some(s1) && ActivityOf(s1, p) == UpdateStarted(b, stop) && OthersWait(s, s1, p)
    requires w.master !in s1.locks
    ensures Through(w, s, p, actions') == Some(s') && s'.parents == s1.parents && OthersWait(s, s', p)
    ensures s'.tips == s1.tips && ActivityOf(s', p) == UpdateLocked(b, stop)
  {
    s' := At(Lock(s1, p, w.master), p, UpdateLocked(b, stop));
    Step(w, s, p, actions, s1, s');
    actions' := Then(actions, Advance);
  }

  /** The master moves, or diverges. */
  lemma UpdateMaster(w: Setting, s: System, p: ProcessId, actions: Actions, s1: System, b: BranchId, stop: Tip)
      returns (actions': Actions, s': System)
    requires Through(w, s, p, actions) == Some(s1) && ActivityOf(s1, p) == UpdateLocked(b, stop) && OthersWait(s, s1, p)
    ensures Through(w, s, p, actions') == Some(s') && s'.parents == s1.parents && OthersWait(s, s', p)
    ensures var moved := Updated(s1.parents, TipOf(s1, w.master), stop);
            && s'.tips == (if moved.Some? then s1.tips[w.master := moved.value] else s1.tips)
            && ActivityOf(s', p) == if moved.Some? then UpdateLocal(b, stop) else Finished
  {
    var moved := Updated(s1.parents, TipOf(s1, w.master), stop);
    s' := if moved.Some? then At(Move(s1, w.master, moved.value), p, UpdateLocal(b, stop)) else At(s1, p, Finished);
    Step(w, s, p, actions, s1, s');
    actions' := Then(actions, Advance);
  }

  /** The branch itself moves, or diverges. */
  lemma UpdateBranch(w: Setting, s: System, p: ProcessId, actions: Actions, s1: System, b: BranchId, stop: Tip)
      returns (actions': Actions, s': System)
    requires Through(w, s, p, actions) == Some(s1) && ActivityOf(s1, p) == UpdateLocal(b, stop) && OthersWait(s, s1, p)
    ensures Through(w, s, p, actions') == Some(s') && s'.parents == s1.parents && OthersWait(s, s', p)
    ensures var moved := Updated(s1.parents, TipOf(s1, b), stop);
            s'.tips == (if moved.Some? then s1.tips[b := moved.value] else s1.tips) && ActivityOf(s', p) == Finished
  {
    var moved := Updated(s1.parents, TipOf(s1, b), stop);
    s' := if moved.Some? then At(Move(s1, b, moved.value), p, Finished) else At(s1, p, Finished);
    Step(w, s, p, actions, s1, s');
    actions' := Then(actions, Advance);
  }

  /** A pull into a branch alone: one that is not bound, or from the master itself. */
  lemma UpdateDirectly(w: Setting, s: System, p: ProcessId, b: BranchId, source: BranchId, stop: Tip)
      returns (actions: Actions, s': System)
    requires MayStart(w, s, p, b) && MayUpdate(w, s, b, source, stop, false)
    ensures Through(w, s, p, actions) == Some(s') && Unlocked(s, s', p) && s'.parents == s.parents
    ensures var moved := Updated(s.parents, TipOf(s, b), stop);
            TipOf(s', b) == (if moved.Some? then moved.value else TipOf(s, b)) && OthersKept(s, s', b, b)
  {
    s' := UpdateStarts(w, s, p, b, source, stop, false);
    actions, s' := UpdateBranch(w, s, p, Then(Begin, StartUpdate(b, source, stop, false)), s', b, stop);
    s' := Finish(w, s, p, actions, s');
    actions := Then(actions, Advance);
  }
}

/**
 Any number of processes commit to, pull into and push to branches, some of which are bound
 to one master branch. A process takes one small step at a time and may stop between any
 two. A branch that a process has write-locked is locked for every other process; the tips
 that a bound commit compares first are read without the master's lock.
 */
module BoundBranches {
  import opened Wrappers
  import opened Keys
  import opened Dag
  import opened Tips

  type BranchId = nat
  type ProcessId = nat

  /** Which branches are bound to the master. The master itself is not bound. */
  datatype Setting = Setting(master: BranchId, bound: set<BranchId>)

  /** How far a process has come. */
  datatype Activity =
    | Idle
    | CommitStarted(b: BranchId, parents: seq<Key>)                        // tree and branch locked
    | CommitCompared(b: BranchId, parents: seq<Key>)                       // the unlocked tips agreed
    | CommitLocked(b: BranchId, parents: seq<Key>)                         // the target is locked too
    | CommitChecked(b: BranchId, parents: seq<Key>, revno: int)            // the tree is up to date
    | CommitBuilt(b: BranchId, parents: seq<Key>, rev: Key, revno: int)    // the revision is stored
    | CommitUploaded(b: BranchId, rev: Key, revno: int)                    // the master has moved
    | UpdateStarted(b: BranchId, stop: Tip)                                // branch locked
    | UpdateLocked(b: BranchId, stop: Tip)                                 // master locked too
    | UpdateLocal(b: BranchId, stop: Tip)                                  // the branch itself is next
    | Finished                                                             // done or failed; to unlock

  datatype Action =
    | StartCommit(b: BranchId, parents: seq<Key>)
    | StartUpdate(b: BranchId, source: BranchId, stop: Tip, viaMaster: bool)
    | Build(rev: Key)
    | Advance
    | Crash

  datatype System = System(parents: ParentMap, tips: map<BranchId, Tip>, locks: map<BranchId, ProcessId>,
                           activities: map<ProcessId, Activity>)

  function TipOf(s: System, b: BranchId): Tip {
    if b in s.tips then s.tips[b] else EMPTY
  }

  function ActivityOf(s: System, p: ProcessId): Activity {
    if p in s.activities then s.activities[p] else Idle
  }

  /** The branch whose tip a commit must extend: the master of a bound branch. */
  function Target(w: Setting, b: BranchId): BranchId {
    if b in w.bound then w.master else b
  }

  predicate Holds(s: System, p: ProcessId, b: BranchId) {
    b in s.locks && s.locks[b] == p
  }

  function At(s: System, p: ProcessId, a: Activity): System {
    s.(activities := s.activities[p := a])
  }

  function Lock(s: System, p: ProcessId, b: BranchId): System {
    s.(locks := s.locks[b := p])
  }

  function Move(s: System, b: BranchId, t: Tip): System {
    s.(tips := s.tips[b := t])
  }

  /** Give up all locks, at the end or when interrupted. */
  function Release(s: System, p: ProcessId): System {
    At(s.(locks := map b | b in s.locks && s.locks[b] != p :: s.locks[b]), p, Idle)
  }

  ghost predicate AllCorrect(s: System) {
    forall b {:trigger TipOf(s, b)} :: Correct(s.parents, TipOf(s, b))
  }

  /**
   A pull or push without overwriting: `stop` is the tip of the source, fixed from here on,
   or a revision given by the caller, whose number is computed from the tips involved. Only
   a pull from the master bypasses the master: of a revision that the master has, or one
   that the branch diverged from.
   */
  ghost predicate MayUpdate(w: Setting, s: System, b: BranchId, source: BranchId, stop: Tip, viaMaster: bool) {
    && Present(s.parents, stop.rev)
    && (stop == TipOf(s, source) || (AllCorrect(s) ==> Correct(s.parents, stop)))
    && if b in w.bound then viaMaster || (source == w.master && KeepsBehind(w, s, b, stop)) else !viaMaster
  }

  /** Updating `b` to the revision leaves it behind the master, whether or not it moves. */
  ghost predicate KeepsBehind(w: Setting, s: System, b: BranchId, stop: Tip) {
    Behind(s.parents, stop.rev, TipOf(s, w.master).rev) || Apart(s.parents, TipOf(s, b).rev, stop.rev)
  }

  /** The step of an activity that needs no choice. */
  ghost function Advanced(w: Setting, s: System, p: ProcessId): Option<System> {
    match ActivityOf(s, p)
    case Idle => None
    case CommitStarted(b, parents) =>
      if b !in w.bound then Some(At(s, p, CommitLocked(b, parents)))
      else if TipOf(s, b).rev == TipOf(s, w.master).rev then Some(At(s, p, CommitCompared(b, parents)))
      else Some(At(s, p, Finished))
    case CommitCompared(b, parents) =>
      if w.master in s.locks then None else Some(At(Lock(s, p, w.master), p, CommitLocked(b, parents)))
    case CommitLocked(b, parents) =>
      var tip := TipOf(s, Target(w, b));
      Some(At(s, p, if UpToDate(tip, parents) then CommitChecked(b, parents, tip.revno + 1) else Finished))
    case CommitChecked(_, _, _) => None
    case CommitBuilt(b, _, rev, revno) =>
      Some(At(Move(s, Target(w, b), Tip(revno, rev)), p,
              if b in w.bound then CommitUploaded(b, rev, revno) else Finished))
    case CommitUploaded(b, rev, revno) => Some(At(Move(s, b, Tip(revno, rev)), p, Finished))
    case UpdateStarted(b, stop) =>
      if w.master in s.locks then None else Some(At(Lock(s, p, w.master), p, UpdateLocked(b, stop)))
    case UpdateLocked(b, stop) =>
      (match Updated(s.parents, TipOf(s, w.master), stop)
       case None => Some(At(s, p, Finished))
       case Some(m) => Some(At(Move(s, w.master, m), p, UpdateLocal(b, stop))))
    case UpdateLocal(b, stop) =>
      (match Updated(s.parents, TipOf(s, b), stop)
       case None => Some(At(s, p, Finished))
       case Some(l) => Some(At(Move(s, b, l), p, Finished)))
    case Finished => Some(Release(s, p))
  }

  /** The system after a step of process `p`, if that step is possible. */
  ghost function After(w: Setting, s: System, p: ProcessId, a: Action): Option<System> {
    match a
    case StartCommit(b, parents) =>
      if ActivityOf(s, p) == Idle && b !in s.locks && AllPresent(s.parents, parents)
      then Some(At(Lock(s, p, b), p, CommitStarted(b, parents))) else None
    case StartUpdate(b, source, stop, viaMaster) =>
      if ActivityOf(s, p) == Idle && b !in s.locks && MayUpdate(w, s, b, source, stop, viaMaster)
      then Some(At(Lock(s, p, b), p, if viaMaster then UpdateStarted(b, stop) else UpdateLocal(b, stop))) else None
    case Build(rev) =>
      (match ActivityOf(s, p)
       case CommitChecked(b, parents, revno) =>
         if Unused(s.parents, rev)
         then Some(At(s.(parents := s.parents[rev := parents]), p, CommitBuilt(b, parents, rev, revno))) else None
       case _ => None)
    case Advance => Advanced(w, s, p)
    case Crash => Some(Release(s, p))
  }

  // ---------------------------------------------------------------------------------
  // The invariant

  ghost predicate TipOk(w: Setting, s: System, b: BranchId) {
    && Present(s.parents, TipOf(s, b).rev)
    && (b in w.bound ==> Behind(s.parents, TipOf(s, b).rev, TipOf(s, w.master).rev))
  }

  ghost predicate ActivityOk(w: Setting, s: System, p: ProcessId) {
    match ActivityOf(s, p)
    case Idle => true
    case CommitStarted(b, parents) => Holds(s, p, b) && AllPresent(s.parents, parents)
    case CommitCompared(b, parents) => b in w.bound && Holds(s, p, b) && AllPresent(s.parents, parents)
    case CommitLocked(b, parents) => Holds(s, p, b) && Holds(s, p, Target(w, b)) && AllPresent(s.parents, parents)
    case CommitChecked(b, parents, revno) =>
      && Holds(s, p, b) && Holds(s, p, Target(w, b)) && AllPresent(s.parents, parents)
      && UpToDate(TipOf(s, Target(w, b)), parents) && revno == TipOf(s, Target(w, b)).revno + 1
    case CommitBuilt(b, parents, rev, revno) =>
      && Holds(s, p, b) && Holds(s, p, Target(w, b)) && rev in s.parents && s.parents[rev] == parents
      && UpToDate(TipOf(s, Target(w, b)), parents) && revno == TipOf(s, Target(w, b)).revno + 1
    case CommitUploaded(b, rev, revno) =>
      b in w.bound && Holds(s, p, b) && Holds(s, p, w.master) && TipOf(s, w.master) == Tip(revno, rev)
    case UpdateStarted(b, stop) => b in w.bound && Holds(s, p, b) && Present(s.parents, stop.rev)
    case UpdateLocked(b, stop) =>
      b in w.bound && Holds(s, p, b) && Holds(s, p, w.master) && Present(s.parents, stop.rev)
    case UpdateLocal(b, stop) =>
      && Holds(s, p, b) && Present(s.parents, stop.rev)
      && (b in w.bound ==> KeepsBehind(w, s, b, stop))
    case Finished => true
  }

  ghost predicate Inv(w: Setting, s: System) {
    && w.master !in w.bound && Sound(s.parents)
    && (forall b {:trigger TipOk(w, s, b)} :: TipOk(w, s, b))
    && (forall p {:trigger ActivityOk(w, s, p)} :: ActivityOk(w, s, p))
  }

  /** Process `p` alone changes its activity, and takes no lock from another. */
  ghost predicate OnlyBy(s: System, s': System, p: ProcessId) {
    forall q {:trigger ActivityOf(s', q)} | q != p ::
      ActivityOf(s', q) == ActivityOf(s, q) && forall b | Holds(s, q, b) :: Holds(s', q, b)
  }

  /** No tip goes anywhere but ahead. */
  ghost predicate TipsAdvance(s: System, s': System) {
    forall b {:trigger TipOf(s', b)} :: Behind(s'.parents, TipOf(s, b).rev, TipOf(s', b).rev)
  }

  /** A step that changes locks and activity only. */
  lemma QuietStep(w: Setting, s: System, p: ProcessId, s': System)
    requires Inv(w, s) && s'.parents == s.parents && s'.tips == s.tips && OnlyBy(s, s', p) && ActivityOk(w, s', p)
    ensures Inv(w, s') && TipsAdvance(s, s')
  {
    forall b ensures TipOk(w, s', b) {
      assert TipOk(w, s, b);
    }
    forall q ensures ActivityOk(w, s', q) {
      assert ActivityOk(w, s, q);
    }
  }

  /** A step that stores a new revision. */
  lemma BuildStep(w: Setting, s: System, p: ProcessId, rev: Key, parents: seq<Key>, s': System)
    requires Inv(w, s) && Unused(s.parents, rev) && AllPresent(s.parents, parents)
    requires s'.parents == s.parents[rev := parents] && s'.tips == s.tips && s'.locks == s.locks
    requires OnlyBy(s, s', p) && ActivityOk(w, s', p)
    ensures Inv(w, s') && TipsAdvance(s, s')
  {
    CommitKeepsSound(s.parents, rev, parents);
    forall b ensures TipOk(w, s', b) {
      assert TipOk(w, s, b) && TipOk(w, s, w.master);
      if b in w.bound {
        BehindKept(s.parents, rev, parents, TipOf(s, b).rev, TipOf(s, w.master).rev);
      }
    }
    forall q ensures ActivityOk(w, s', q) {
      assert ActivityOk(w, s, q) && TipOk(w, s, w.master);
      match ActivityOf(s, q)
      case UpdateLocal(b, stop) =>
        assert TipOk(w, s, b);
        BehindKept(s.parents, rev, parents, stop.rev, TipOf(s, w.master).rev);
        BehindKept(s.parents, rev, parents, stop.rev, TipOf(s, b).rev);
        BehindKept(s.parents, rev, parents, TipOf(s, b).rev, stop.rev);
      case _ =>
    }
  }

  /** A step that moves the tip of a branch that `p` has locked. */
  lemma MoveStep(w: Setting, s: System, p: ProcessId, b: BranchId, t: Tip, s': System)
    requires Inv(w, s) && Holds(s, p, b) && s'.parents == s.parents && s'.tips == s.tips[b := t] && s'.locks == s.locks
    requires OnlyBy(s, s', p) && ActivityOk(w, s', p)
    requires Present(s.parents, t.rev) && Behind(s.parents, TipOf(s, b).rev, t.rev)
    requires b in w.bound ==> Behind(s.parents, t.rev, TipOf(s, w.master).rev)
    ensures Inv(w, s') && TipsAdvance(s, s')
  {
    forall c ensures TipOk(w, s', c) {
      assert TipOk(w, s, c);
      if c in w.bound && c != b {
        BehindTransitive(s.parents, TipOf(s, c).rev, TipOf(s, w.master).rev, TipOf(s', w.master).rev);
      }
    }
    forall q ensures ActivityOk(w, s', q) {
      assert ActivityOk(w, s, q);
      if q != p {
        OthersUnmoved(w, s, p, q, b, t, s');
      }
    }
  }

  lemma OthersUnmoved(w: Setting, s: System, p: ProcessId, q: ProcessId, b: BranchId, t: Tip, s': System)
    requires Inv(w, s) && Holds(s, p, b) && s'.parents == s.parents && s'.tips == s.tips[b := t] && s'.locks == s.locks
    requires q != p && ActivityOf(s', q) == ActivityOf(s, q) && Behind(s.parents, TipOf(s, b).rev, t.rev)
    ensures ActivityOk(w, s', q)
  {
    assert ActivityOk(w, s, q);
    forall x | Holds(s, q, x) ensures TipOf(s', x) == TipOf(s, x) && Holds(s', q, x) {}
    match ActivityOf(s, q)
    case UpdateLocal(c, stop) =>
      BehindChains(s.parents, stop.rev, TipOf(s, w.master).rev, TipOf(s', w.master).rev);
    case _ =>
  }

  lemma OnlyThis(s: System, s': System, p: ProcessId, a: Activity)
    requires s'.activities == s.activities[p := a]
    requires forall b {:trigger s.locks[b]} | b in s.locks && s.locks[b] != p ::
               b in s'.locks && s'.locks[b] == s.locks[b]
    ensures OnlyBy(s, s', p)
  {
    forall q | q != p ensures ActivityOf(s', q) == ActivityOf(s, q) && forall b | Holds(s, q, b) :: Holds(s', q, b) {
      forall b | Holds(s, q, b) ensures Holds(s', q, b) {
        assert s.locks[b] == q;
      }
    }
  }

  lemma AdvancedByOne(w: Setting, s: System, p: ProcessId, s': System)
    requires Advanced(w, s, p) == Some(s')
    ensures OnlyBy(s, s', p)
  {
    LocksKept(w, s, p, s');
    OnlyThis(s, s', p, ActivityOf(s', p));
  }

  lemma LocksKept(w: Setting, s: System, p: ProcessId, s': System)
    requires Advanced(w, s, p) == Some(s')
    ensures s'.activities == s.activities[p := ActivityOf(s', p)]
    ensures forall b {:trigger s.locks[b]} | b in s.locks && s.locks[b] != p :: b in s'.locks && s'.locks[b] == s.locks[b]
  {
    if ActivityOf(s, p).CommitCompared? || ActivityOf(s, p).UpdateStarted? {
      assert s'.locks == s.locks[w.master := p] && w.master !in s.locks;
    } else if !ActivityOf(s, p).Finished? {
      NoLockTaken(w, s, p, s');
    }
  }

  lemma NoLockTaken(w: Setting, s: System, p: ProcessId, s': System)
    requires Advanced(w, s, p) == Some(s')
    requires var now := ActivityOf(s, p); !now.CommitCompared? && !now.UpdateStarted? && !now.Finished?
    ensures s'.locks == s.locks && s'.activities == s.activities[p := ActivityOf(s', p)]
  {
  }

  /** The new revision becomes the tip of the target, and later of the branch bound to it. */
  lemma CommitMoves(w: Setting, s: System, p: ProcessId, s': System)
    requires Inv(w, s) && Advanced(w, s, p) == Some(s')
    requires ActivityOf(s, p).CommitBuilt? || ActivityOf(s, p).CommitUploaded?
    ensures Inv(w, s') && TipsAdvance(s, s')
  {
    assert ActivityOk(w, s, p);
    OnlyThis(s, s', p, ActivityOf(s', p));
    match ActivityOf(s, p)
    case CommitBuilt(b, parents, rev, revno) =>
      CommitIsAhead(s.parents, TipOf(s, Target(w, b)), rev);
      MoveStep(w, s, p, Target(w, b), Tip(revno, rev), s');
    case CommitUploaded(b, rev, revno) =>
      assert TipOk(w, s, b) && TipOk(w, s, w.master);
      MoveStep(w, s, p, b, Tip(revno, rev), s');
  }

  lemma UpdateMoves(w: Setting, s: System, p: ProcessId, b: BranchId, stop: Tip, s': System)
    requires Inv(w, s) && Advanced(w, s, p) == Some(s')
    requires ActivityOf(s, p) == UpdateLocal(b, stop)
             || (b == w.master && exists c :: ActivityOf(s, p) == UpdateLocked(c, stop))
    ensures Inv(w, s') && TipsAdvance(s, s')
  {
    assert ActivityOk(w, s, p);
    OnlyThis(s, s', p, ActivityOf(s', p));
    UpdatedIsUniqueHead(s.parents, TipOf(s, b), stop);
    assert TipOk(w, s, b);
    var moved := Updated(s.parents, TipOf(s, b), stop);
    if moved.Some? {
      MoveStep(w, s, p, b, moved.value, s');
    } else {
      QuietStep(w, s, p, s');
    }
  }

  lemma AdvanceKeepsInv(w: Setting, s: System, p: ProcessId, s': System)
    requires Inv(w, s) && Advanced(w, s, p) == Some(s')
    ensures Inv(w, s') && TipsAdvance(s, s')
  {
    assert ActivityOk(w, s, p);
    match ActivityOf(s, p)
    case CommitBuilt(_, _, _, _) => CommitMoves(w, s, p, s');
    case CommitUploaded(_, _, _) => CommitMoves(w, s, p, s');
    case UpdateLocked(_, stop) => UpdateMoves(w, s, p, w.master, stop, s');
    case UpdateLocal(b, stop) => UpdateMoves(w, s, p, b, stop, s');
    case _ => AdvanceQuietly(w, s, p, s');
  }

  lemma AdvanceQuietly(w: Setting, s: System, p: ProcessId, s': System)
    requires Inv(w, s) && Advanced(w, s, p) == Some(s') && s'.tips == s.tips
    requires !ActivityOf(s, p).CommitBuilt? && !ActivityOf(s, p).CommitUploaded?
    requires !ActivityOf(s, p).UpdateLocked? && !ActivityOf(s, p).UpdateLocal?
    ensures Inv(w, s') && TipsAdvance(s, s')
  {
    assert ActivityOk(w, s, p);
    AdvancedByOne(w, s, p, s');
    QuietStep(w, s, p, s');
  }

  /** Every step of every process keeps the invariant and moves tips only ahead. */
  lemma StepKeepsInv(w: Setting, s: System, p: ProcessId, a: Action, s': System)
    requires Inv(w, s) && After(w, s, p, a) == Some(s')
    ensures Inv(w, s') && TipsAdvance(s, s')
  {
    assert ActivityOk(w, s, p);
    match a
    case Advance => AdvanceKeepsInv(w, s, p, s');
    case Build(rev) =>
      OnlyThis(s, s', p, ActivityOf(s', p));
      BuildStep(w, s, p, rev, ActivityOf(s, p).parents, s');
    case _ =>
      OnlyThis(s, s', p, ActivityOf(s', p));
      QuietStep(w, s, p, s');
  }
}

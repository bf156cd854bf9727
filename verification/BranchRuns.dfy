/**
 What holds throughout every run of committing, pulling and pushing processes: bound
 branches never get ahead of their master, no revision that was ever a tip is lost, every
 commit extends the tip that it replaces, and revision numbers count the left-hand history.
 */
module BranchRuns {
  import opened Wrappers
  import opened Keys
  import opened Dag
  import opened Tips
  import opened BoundBranches

  type Event = (ProcessId, Action)

  /** Nothing is going on, and bound branches are not ahead of the master. */
  ghost predicate Init(w: Setting, s: System) {
    && w.master !in w.bound && Sound(s.parents)
    && (forall b {:trigger TipOk(w, s, b)} :: TipOk(w, s, b))
    && s.activities == map[] && s.locks == map[]
  }

  ghost predicate StepAt(w: Setting, states: seq<System>, events: seq<Event>, i: nat)
    requires i < |events| < |states|
  {
    After(w, states[i], events[i].0, events[i].1) == Some(states[i + 1])
  }

  ghost predicate Run(w: Setting, states: seq<System>, events: seq<Event>) {
    && |states| == |events| + 1 && Init(w, states[0])
    && forall i: nat {:trigger StepAt(w, states, events, i)} | i < |events| :: StepAt(w, states, events, i)
  }

  lemma {:induction false} RunKeepsInv(w: Setting, states: seq<System>, events: seq<Event>, i: nat)
    requires Run(w, states, events) && i < |states|
    ensures Inv(w, states[i])
    decreases i
  {
    if i == 0 {
      forall p ensures ActivityOk(w, states[0], p) {}
    } else {
      var before := i - 1;
      RunKeepsInv(w, states, events, before);
      assert StepAt(w, states, events, before);
      StepKeepsInv(w, states[before], events[before].0, events[before].1, states[i]);
    }
  }

  /**
   In every reachable state, so also after an interruption between the update of the master
   and that of the bound branch, and after either of them failed, the tip of a bound branch
   is an ancestor of its master's tip, or that tip itself.
   */
  lemma BoundNeverAhead(w: Setting, states: seq<System>, events: seq<Event>, i: nat, b: BranchId)
    requires Run(w, states, events) && i < |states| && b in w.bound
    ensures Behind(states[i].parents, TipOf(states[i], b).rev, TipOf(states[i], w.master).rev)
  {
    RunKeepsInv(w, states, events, i);
    assert TipOk(w, states[i], b);
  }

  lemma BehindAfterStep(w: Setting, s: System, p: ProcessId, a: Action, s': System, x: Key, y: Key)
    requires Inv(w, s) && After(w, s, p, a) == Some(s') && Present(s.parents, y) && Behind(s.parents, x, y)
    ensures Behind(s'.parents, x, y)
  {
    if a.Build? {
      BehindKept(s.parents, a.rev, ActivityOf(s, p).parents, x, y);
    } else {
      assert s'.parents == s.parents;
    }
  }

  /** Whatever was once the tip of a branch stays in the history of that branch. */
  lemma {:induction false} NothingIsLost(w: Setting, states: seq<System>, events: seq<Event>, i: nat, j: nat, b: BranchId)
    requires Run(w, states, events) && i <= j < |states|
    ensures Behind(states[j].parents, TipOf(states[i], b).rev, TipOf(states[j], b).rev)
    decreases j
  {
    if i < j {
      var k := j - 1;
      NothingIsLost(w, states, events, i, k, b);
      RunKeepsInv(w, states, events, k);
      RunKeepsInv(w, states, events, j);
      assert StepAt(w, states, events, k) && TipOk(w, states[k], b);
      StepKeepsInv(w, states[k], events[k].0, events[k].1, states[j]);
      BehindAfterStep(w, states[k], events[k].0, events[k].1, states[j], TipOf(states[i], b).rev, TipOf(states[k], b).rev);
      BehindTransitive(states[j].parents, TipOf(states[i], b).rev, TipOf(states[k], b).rev, TipOf(states[j], b).rev);
    }
  }

  /**
   Although the tips were compared without the master's lock, a commit that moves a branch
   has the tip that it replaces as its left parent, or replaces none.
   */
  lemma CommitReplacesItsParent(w: Setting, states: seq<System>, events: seq<Event>, i: nat)
    requires Run(w, states, events) && i < |events| && events[i].1 == Advance
    requires ActivityOf(states[i], events[i].0).CommitBuilt?
    ensures var done := ActivityOf(states[i], events[i].0);
            var target := Target(w, done.b);
            var replaced := TipOf(states[i], target);
            && TipOf(states[i + 1], target) == Tip(replaced.revno + 1, done.rev)
            && done.rev in states[i + 1].parents
            && (replaced.rev == NULL_REVISION
                || (done.parents != [] && states[i + 1].parents[done.rev] == done.parents && done.parents[0] == replaced.rev))
  {
    RunKeepsInv(w, states, events, i);
    assert StepAt(w, states, events, i);
    assert ActivityOk(w, states[i], events[i].0);
  }

  /** A pull or push takes a branch to the one head of its tip and the revision, or leaves it. */
  lemma UpdateGoesToTheHead(w: Setting, states: seq<System>, events: seq<Event>, i: nat)
    requires Run(w, states, events) && i < |events| && events[i].1 == Advance
    requires ActivityOf(states[i], events[i].0).UpdateLocked? || ActivityOf(states[i], events[i].0).UpdateLocal?
    ensures var now := ActivityOf(states[i], events[i].0);
            var target := if now.UpdateLocked? then w.master else now.b;
            var heads := Heads(states[i].parents, {now.stop.rev, TipOf(states[i], target).rev});
            || heads == {TipOf(states[i + 1], target).rev}
            || (|heads| == 2 && states[i + 1].tips == states[i].tips)
  {
    RunKeepsInv(w, states, events, i);
    assert StepAt(w, states, events, i);
    var now := ActivityOf(states[i], events[i].0);
    var target := if now.UpdateLocked? then w.master else now.b;
    UpdatedIsUniqueHead(states[i].parents, TipOf(states[i], target), now.stop);
    if Updated(states[i].parents, TipOf(states[i], target), now.stop).None? {
      assert |{now.stop.rev, TipOf(states[i], target).rev}| == 2;
    }
  }

  // ---------------------------------------------------------------------------------
  // Why the tree is checked again under the lock

  lemma {:induction false} RunExtends(w: Setting, states: seq<System>, events: seq<Event>, e: Event, s': System)
    requires Run(w, states, events) && After(w, states[|states| - 1], e.0, e.1) == Some(s')
    ensures Run(w, states + [s'], events + [e])
  {
    var states', events' := states + [s'], events + [e];
    forall i: nat | i < |events'| ensures StepAt(w, states', events', i) {
      if i < |events| {
        assert StepAt(w, states, events, i);
        var next := i + 1;
        assert states'[i] == states[i] && states'[next] == states[next];
      }
    }
  }

  /** Process `p` begins to commit a tree based on `r` and finds the tips equal. */
  lemma Compare(w: Setting, states: seq<System>, events: seq<Event>, p: ProcessId, b: BranchId, r: Key)
      returns (states': seq<System>, events': seq<Event>)
    requires Run(w, states, events) && b in w.bound
    requires var s := states[|states| - 1];
             && ActivityOf(s, p) == Idle && b !in s.locks && r in s.parents
             && TipOf(s, b).rev == TipOf(s, w.master).rev == r
    ensures Run(w, states', events')
    ensures var s := states[|states| - 1];
            states'[|states'| - 1] == At(At(Lock(s, p, b), p, CommitStarted(b, [r])), p, CommitCompared(b, [r]))
  {
    var s := states[|states| - 1];
    var s1 := At(Lock(s, p, b), p, CommitStarted(b, [r]));
    var s2 := At(s1, p, CommitCompared(b, [r]));
    RunExtends(w, states, events, (p, StartCommit(b, [r])), s1);
    RunExtends(w, states + [s1], events + [(p, StartCommit(b, [r]))], (p, Advance), s2);
    states', events' := states + [s1] + [s2], events + [(p, StartCommit(b, [r]))] + [(p, Advance)];
  }

  /** Process `p` locks the master, finds its tree up to date and stores the revision. */
  lemma LockAndBuild(w: Setting, states: seq<System>, events: seq<Event>, p: ProcessId, b: BranchId, r: Key, rev: Key)
      returns (states': seq<System>, events': seq<Event>)
    requires Run(w, states, events) && b in w.bound
    requires var s := states[|states| - 1];
             && ActivityOf(s, p) == CommitCompared(b, [r]) && w.master !in s.locks
             && TipOf(s, w.master).rev == r && Unused(s.parents, rev)
    ensures Run(w, states', events')
    ensures var s := states[|states| - 1];
            states'[|states'| - 1] ==
              Lock(s, p, w.master).(parents := s.parents[rev := [r]],
                                    activities := s.activities[p := CommitBuilt(b, [r], rev, TipOf(s, w.master).revno + 1)])
  {
    var s := states[|states| - 1];
    var revno := TipOf(s, w.master).revno + 1;
    var s1 := At(Lock(s, p, w.master), p, CommitLocked(b, [r]));
    var s2 := At(s1, p, CommitChecked(b, [r], revno));
    var s3 := At(s2.(parents := s2.parents[rev := [r]]), p, CommitBuilt(b, [r], rev, revno));
    RunExtends(w, states, events, (p, Advance), s1);
    states', events' := states + [s1], events + [(p, Advance)];
    RunExtends(w, states', events', (p, Advance), s2);
    states', events' := states' + [s2], events' + [(p, Advance)];
    RunExtends(w, states', events', (p, Build(rev)), s3);
    states', events' := states' + [s3], events' + [(p, Build(rev))];
  }

  /** Process `p` moves the master and its own branch, and unlocks. */
  lemma Publish(w: Setting, states: seq<System>, events: seq<Event>, p: ProcessId, b: BranchId, rev: Key)
      returns (states': seq<System>, events': seq<Event>)
    requires Run(w, states, events) && b in w.bound && w.master !in w.bound
    requires var s := states[|states| - 1];
             ActivityOf(s, p).CommitBuilt? && ActivityOf(s, p).b == b && ActivityOf(s, p).rev == rev && Holds(s, p, w.master)
    ensures Run(w, states', events')
    ensures var s := states[|states| - 1];
            var s' := states'[|states'| - 1];
            && TipOf(s', w.master).rev == rev && w.master !in s'.locks
            && (forall c {:trigger TipOf(s', c)} | c != b && c != w.master :: TipOf(s', c) == TipOf(s, c))
            && forall q {:trigger ActivityOf(s', q)} | q != p :: ActivityOf(s', q) == ActivityOf(s, q)
  {
    var s := states[|states| - 1];
    var revno := ActivityOf(s, p).revno;
    var s4 := At(Move(s, w.master, Tip(revno, rev)), p, CommitUploaded(b, rev, revno));
    var s5 := At(Move(s4, b, Tip(revno, rev)), p, Finished);
    var s6 := Release(s5, p);
    RunExtends(w, states, events, (p, Advance), s4);
    states', events' := states + [s4], events + [(p, Advance)];
    RunExtends(w, states', events', (p, Advance), s5);
    states', events' := states' + [s5], events' + [(p, Advance)];
    RunExtends(w, states', events', (p, Advance), s6);
    states', events' := states' + [s6], events' + [(p, Advance)];
  }

  /**
   The tips that were found equal need not be any more once the master is locked: of two
   checkouts that compare at the same time, the second gets the lock when the master has
   moved. Only the check that follows keeps it from overwriting the first one's commit.
   */
  lemma CompareMayBeStale(r: Key, rev: Key) returns (w: Setting, states: seq<System>, events: seq<Event>)
    requires r != rev && r != NULL_REVISION && rev != NULL_REVISION
    ensures Run(w, states, events)
    ensures var s := states[|states| - 1];
            && 2 in w.bound && ActivityOf(s, 2) == CommitLocked(2, [r]) && TipOf(s, 2).rev == r
            && TipOf(s, w.master).rev == rev
  {
    w := Setting(0, {1, 2});
    states, events := BothCompare(w, r);
    states, events := LockAndBuild(w, states, events, 1, 1, r, rev);
    assert ActivityOf(states[|states| - 1], 2) == CommitCompared(2, [r]);
    states, events := Publish(w, states, events, 1, 1, rev);
    assert ActivityOf(states[|states| - 1], 2) == CommitCompared(2, [r]) && TipOf(states[|states| - 1], 2).rev == r;
    states, events := LockLate(w, states, events, 2, [r]);
  }

  /** Two checkouts compare their tips with the master's before either locks it. */
  lemma BothCompare(w: Setting, r: Key) returns (states: seq<System>, events: seq<Event>)
    requires r != NULL_REVISION && w == Setting(0, {1, 2})
    ensures Run(w, states, events)
    ensures var s := states[|states| - 1];
            && s.parents == map[r := []] && 0 !in s.locks && TipOf(s, 0).rev == r && TipOf(s, 2).rev == r
            && ActivityOf(s, 1) == CommitCompared(1, [r]) && ActivityOf(s, 2) == CommitCompared(2, [r])
  {
    var s0 := System(map[r := []], map[0 := Tip(1, r), 1 := Tip(1, r), 2 := Tip(1, r)], map[], map[]);
    RootIsSound(r);
    forall b ensures TipOk(w, s0, b) {}
    states, events := [s0], [];
    states, events := Compare(w, states, events, 1, 1, r);
    states, events := Compare(w, states, events, 2, 2, r);
  }

  lemma LockLate(w: Setting, states: seq<System>, events: seq<Event>, p: ProcessId, parents: seq<Key>)
      returns (states': seq<System>, events': seq<Event>)
    requires Run(w, states, events)
    requires var s := states[|states| - 1]; ActivityOf(s, p) == CommitCompared(p, parents) && w.master !in s.locks
    ensures Run(w, states', events')
    ensures var s, s' := states[|states| - 1], states'[|states'| - 1];
            ActivityOf(s', p) == CommitLocked(p, parents) && forall b {:trigger TipOf(s', b)} :: TipOf(s', b) == TipOf(s, b)
  {
    var s := states[|states| - 1];
    var s' := At(Lock(s, p, w.master), p, CommitLocked(p, parents));
    RunExtends(w, states, events, (p, Advance), s');
    states', events' := states + [s'], events + [(p, Advance)];
  }

  lemma RootIsSound(r: Key)
    requires r != NULL_REVISION
    ensures Sound(map[r := []])
  {
    var pm: ParentMap := map[r := []];
    forall k ensures !StrictAncestor(pm, k, k) {
      if StrictAncestor(pm, k, k) {
        var p := AncestorViaParent(pm, k, k);
      }
    }
  }

  // ---------------------------------------------------------------------------------
  // Revision numbers

  /** The number of every tip is right, and so is every number still to be recorded. */
  ghost predicate Numbered(w: Setting, s: System) {
    AllCorrect(s) && forall p {:trigger NumberOk(w, s, p)} :: NumberOk(w, s, p)
  }

  ghost predicate NumberOk(w: Setting, s: System, p: ProcessId) {
    match ActivityOf(s, p)
    case CommitChecked(b, parents, _) => !StartsOver(TipOf(s, Target(w, b)), parents)
    case CommitBuilt(b, parents, _, _) => !StartsOver(TipOf(s, Target(w, b)), parents)
    case UpdateStarted(_, stop) => Correct(s.parents, stop)
    case UpdateLocked(_, stop) => Correct(s.parents, stop)
    case UpdateLocal(_, stop) => Correct(s.parents, stop)
    case _ => true
  }

  /** The step that lets a tree with parents be committed into a branch without revisions. */
  ghost predicate StartsOverAt(w: Setting, s: System, e: Event) {
    e.1 == Advance &&
    match ActivityOf(s, e.0)
    case CommitLocked(b, parents) => StartsOver(TipOf(s, Target(w, b)), parents)
    case _ => false
  }

  /** Storing the commit keeps all numbers right exactly unless it starts over. */
  lemma NumbersStayRightIff(w: Setting, s: System, p: ProcessId, s': System)
    requires Inv(w, s) && AllCorrect(s) && ActivityOf(s, p).CommitBuilt? && Advanced(w, s, p) == Some(s')
    ensures var done := ActivityOf(s, p);
            AllCorrect(s') <==> !StartsOver(TipOf(s, Target(w, done.b)), done.parents)
  {
    assert ActivityOk(w, s, p);
    var done := ActivityOf(s, p);
    var target := Target(w, done.b);
    assert Correct(s.parents, TipOf(s, target));
    CommitIsNumbered(s.parents, TipOf(s, target), done.rev);
    assert TipOf(s', target) == Tip(done.revno, done.rev);
    forall b | b != target ensures Correct(s'.parents, TipOf(s', b)) {
      assert TipOf(s', b) == TipOf(s, b);
    }
  }

  lemma QuietNumbers(w: Setting, s: System, p: ProcessId, s': System)
    requires Inv(w, s) && Numbered(w, s) && s'.parents == s.parents && s'.tips == s.tips
    requires OnlyBy(s, s', p) && NumberOk(w, s', p)
    ensures Numbered(w, s')
  {
    forall b ensures Correct(s'.parents, TipOf(s', b)) {
      assert TipOf(s', b) == TipOf(s, b);
    }
    forall q ensures NumberOk(w, s', q) {
      assert NumberOk(w, s, q);
    }
  }

  lemma BuildNumbers(w: Setting, s: System, p: ProcessId, rev: Key, s': System)
    requires Inv(w, s) && Numbered(w, s) && After(w, s, p, Build(rev)) == Some(s')
    ensures Numbered(w, s')
  {
    var parents := ActivityOf(s, p).parents;
    forall b ensures Correct(s'.parents, TipOf(s', b)) {
      assert Correct(s.parents, TipOf(s, b));
      DistanceKept(s.parents, rev, parents, TipOf(s, b).rev, TipOf(s, b).revno);
    }
    forall q ensures NumberOk(w, s', q) {
      assert NumberOk(w, s, q);
      var now := ActivityOf(s, q);
      if now.UpdateStarted? || now.UpdateLocked? || now.UpdateLocal? {
        DistanceKept(s.parents, rev, parents, now.stop.rev, now.stop.revno);
      }
    }
  }

  lemma MoveNumbers(w: Setting, s: System, p: ProcessId, b: BranchId, t: Tip, s': System)
    requires Inv(w, s) && Numbered(w, s) && Holds(s, p, b) && OnlyBy(s, s', p) && NumberOk(w, s', p)
    requires s'.parents == s.parents && s'.tips == s.tips[b := t] && s'.locks == s.locks && Correct(s.parents, t)
    ensures Numbered(w, s')
  {
    forall c ensures Correct(s'.parents, TipOf(s', c)) {
      assert Correct(s.parents, TipOf(s, c));
    }
    forall q ensures NumberOk(w, s', q) {
      assert NumberOk(w, s, q) && ActivityOk(w, s, q);
      assert forall x | Holds(s, q, x) && q != p :: TipOf(s', x) == TipOf(s, x);
    }
  }

  lemma CommitNumbers(w: Setting, s: System, p: ProcessId, s': System)
    requires Inv(w, s) && Numbered(w, s) && Advanced(w, s, p) == Some(s') && OnlyBy(s, s', p)
    requires ActivityOf(s, p).CommitBuilt? || ActivityOf(s, p).CommitUploaded?
    ensures Numbered(w, s')
  {
    assert ActivityOk(w, s, p) && NumberOk(w, s, p);
    match ActivityOf(s, p)
    case CommitBuilt(b, _, rev, revno) =>
      NumbersStayRightIff(w, s, p, s');
      assert Correct(s'.parents, TipOf(s', Target(w, b)));
      MoveNumbers(w, s, p, Target(w, b), Tip(revno, rev), s');
    case CommitUploaded(b, rev, revno) =>
      assert Correct(s.parents, TipOf(s, w.master));
      MoveNumbers(w, s, p, b, Tip(revno, rev), s');
  }

  lemma AdvanceKeepsNumbers(w: Setting, s: System, p: ProcessId, s': System)
    requires Inv(w, s) && Numbered(w, s) && Advanced(w, s, p) == Some(s') && !StartsOverAt(w, s, (p, Advance))
    ensures Numbered(w, s')
  {
    AdvancedByOne(w, s, p, s');
    match ActivityOf(s, p)
    case CommitBuilt(_, _, _, _) => CommitNumbers(w, s, p, s');
    case CommitUploaded(_, _, _) => CommitNumbers(w, s, p, s');
    case UpdateLocked(_, stop) => UpdateNumbers(w, s, p, w.master, stop, s');
    case UpdateLocal(b, stop) => UpdateNumbers(w, s, p, b, stop, s');
    case _ => QuietAdvanceNumbers(w, s, p, s');
  }

  lemma QuietAdvanceNumbers(w: Setting, s: System, p: ProcessId, s': System)
    requires Inv(w, s) && Numbered(w, s) && Advanced(w, s, p) == Some(s') && !StartsOverAt(w, s, (p, Advance))
    requires OnlyBy(s, s', p) && s'.tips == s.tips
    requires !ActivityOf(s, p).CommitBuilt? && !ActivityOf(s, p).CommitUploaded?
    requires !ActivityOf(s, p).UpdateLocked? && !ActivityOf(s, p).UpdateLocal?
    ensures Numbered(w, s')
  {
    assert NumberOk(w, s, p);
    QuietNumbers(w, s, p, s');
  }

  lemma UpdateNumbers(w: Setting, s: System, p: ProcessId, b: BranchId, stop: Tip, s': System)
    requires Inv(w, s) && Numbered(w, s) && Advanced(w, s, p) == Some(s') && OnlyBy(s, s', p)
    requires ActivityOf(s, p) == UpdateLocal(b, stop)
             || (b == w.master && exists c :: ActivityOf(s, p) == UpdateLocked(c, stop))
    ensures Numbered(w, s')
  {
    assert ActivityOk(w, s, p) && NumberOk(w, s, p) && Correct(s.parents, TipOf(s, b));
    var moved := Updated(s.parents, TipOf(s, b), stop);
    if moved.Some? {
      MoveNumbers(w, s, p, b, moved.value, s');
    } else {
      QuietNumbers(w, s, p, s');
    }
  }

  lemma StepKeepsNumbers(w: Setting, s: System, e: Event, s': System)
    requires Inv(w, s) && Numbered(w, s) && After(w, s, e.0, e.1) == Some(s') && !StartsOverAt(w, s, e)
    ensures Numbered(w, s')
  {
    match e.1
    case Advance => AdvanceKeepsNumbers(w, s, e.0, s');
    case Build(rev) => BuildNumbers(w, s, e.0, rev, s');
    case StartUpdate(b, source, stop, viaMaster) =>
      OnlyThis(s, s', e.0, ActivityOf(s', e.0));
      assert Correct(s.parents, TipOf(s, source));
      QuietNumbers(w, s, e.0, s');
    case _ =>
      OnlyThis(s, s', e.0, ActivityOf(s', e.0));
      QuietNumbers(w, s, e.0, s');
  }

  /**
   As long as no commit starts over, every branch records the length of its left-hand
   history in every reachable state: checking a branch has nothing to report.
   */
  lemma {:induction false} NumbersAreDistances(w: Setting, states: seq<System>, events: seq<Event>, i: nat)
    requires Run(w, states, events) && i < |states| && AllCorrect(states[0])
    requires forall j: nat {:trigger events[j]} | j < |events| :: !StartsOverAt(w, states[j], events[j])
    ensures Numbered(w, states[i])
    ensures forall b :: Correct(states[i].parents, TipOf(states[i], b))
    decreases i
  {
    if i == 0 {
      forall p ensures NumberOk(w, states[0], p) {}
    } else {
      var before := i - 1;
      NumbersAreDistances(w, states, events, before);
      RunKeepsInv(w, states, events, before);
      assert StepAt(w, states, events, before);
      assert !StartsOverAt(w, states[before], events[before]);
      StepKeepsNumbers(w, states[before], events[before], states[i]);
    }
  }
}

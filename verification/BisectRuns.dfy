/** How long a bisection of linear history takes and where it ends. */
module BisectRuns {
  import opened Keys
  import opened Dag
  import opened Tips
  import opened Logarithms
  import opened BisectLogs

  /** The number of answers that suffice for `n` revisions between the ends. */
  function AnswersFor(n: nat): nat {
    if n == 0 then 0 else FloorLog2(n) + 1
  }

  lemma HalfTakesLess(m: nat, n: nat)
    requires n > 0 && m <= n / 2
    ensures AnswersFor(m) < AnswersFor(n)
  {
    FloorLog2Monotone(m, n / 2);
  }

  /** So many answers are enough. */
  ghost predicate Suffices(left: nat, n: nat) {
    forall m {:trigger AnswersFor(m)} | m == n :: left == AnswersFor(m)
  }

  lemma LeftAfter(left: nat, n: nat, n': nat) returns (left': nat)
    requires Suffices(left, n) && n > 0 && n' <= n / 2
    ensures Suffices(left', n') && left' < left
  {
    HalfTakesLess(n', n);
    left' := AnswersFor(n');
  }

  lemma RangeUnique(hist: seq<Key>, items: Items, h: int, l: int, h': int, l': int)
    requires IsRange(hist, items, h, l) && IsRange(hist, items, h', l')
    ensures h == h' && l == l'
  {
    assert l < l' ==> MarkedAt(hist, items, h', l);
    assert l' < l ==> MarkedAt(hist, items, h, l');
    assert MarkedAt(hist, items, h, h') && MarkedAt(hist, items, h', h);
    assert MarkedAt(hist, items, h, h) && MarkedAt(hist, items, h', h');
  }

  /** A verdict on a revision inside the range becomes an end of the new range. */
  lemma RangeAfter(hist: seq<Key>, items: Items, h: int, l: int, m: int, mark: Mark)
    requires NoDuplicates(hist) && IsRange(hist, items, h, l) && h < m < l && Judged(mark)
    ensures mark == Yes ==> IsRange(hist, items + [Item(hist[m], mark)], m, l)
    ensures mark == No ==> IsRange(hist, items + [Item(hist[m], mark)], h, m)
  {
    var items' := items + [Item(hist[m], mark)];
    var h', l' := if mark == Yes then m else h, if mark == Yes then l else m;
    forall j | j < l' ensures MarkedAt(hist, items', h', j) {
      assert MarkedAt(hist, items, h, j);
      if 0 <= j < |hist| {
        MarksAfter(items, hist[m], mark, hist[j]);
      }
    }
    assert MarkedAt(hist, items, h, m);
    if l' < |hist| {
      MarksAfter(items, hist[m], mark, hist[l']);
    }
  }

  /** A verdict "done" changes no range. */
  lemma RangeDone(hist: seq<Key>, items: Items, h: int, l: int, rev: Key)
    requires IsRange(hist, items, h, l)
    ensures IsRange(hist, items + [Item(rev, Done)], h, l)
  {
    var items' := items + [Item(rev, Done)];
    forall j | j < l ensures MarkedAt(hist, items', h, j) {
      assert MarkedAt(hist, items, h, j);
      if 0 <= j < |hist| {
        MarksAfter(items, rev, Done, hist[j]);
      }
    }
    if l < |hist| {
      MarksAfter(items, rev, Done, hist[l]);
    }
  }

  /** Newer revisions say yes, older ones no. */
  ghost predicate Monotone(hist: seq<Key>, script: Key -> bool) {
    forall i, j {:trigger script(hist[i]), script(hist[j])} | 0 <= i < j < |hist| :: script(hist[j]) ==> script(hist[i])
  }

  /**
   Nothing is left to choose: the ends meet, or no revision has said no and the first
   revision, which then stands in for the low end, is the middle.
   */
  predicate Stops(hist: seq<Key>, h: int, l: int) {
    l == h + 1 || (l == |hist| && l <= h + 3)
  }

  /** Below a yes, the log is at the middle, and done when nothing is left to choose. */
  ghost predicate InProgress(log: BisectLog, h: int, l: int)
    requires log.Valid()
    reads log
  {
    && 0 <= h < l <= |log.History(log.tip)| && log.Ranged(log.items, h, l)
    && log.current == log.middleRevid
    && (log.IsDone() <==> Stops(log.History(log.tip), h, l))
  }

  /** The middle is at an end of the range exactly when nothing is left to choose. */
  lemma AtEndIff(hist: seq<Key>, oldest: Key, h: int, l: int)
    requires NoDuplicates(hist) && 0 <= h < l <= |hist| && oldest == hist[|hist| - 1]
    ensures var ends := EndsOf(hist, oldest, h, l);
            ends.middle == ends.high || ends.middle == ends.low <==> Stops(hist, h, l)
  {
    if l > h + 1 {
      MiddleHalves(l - h - 1);
    }
  }

  /** The position tried between two ends. */
  function Tried(h: int, l: int): int
    requires h < l
  {
    l - 1 - MiddleIndex(l - h - 1)
  }

  /** The position tried, and the ends that a verdict on it leaves. */
  lemma NextEnds(hist: seq<Key>, items: Items, h: int, l: int, mark: Mark) returns (h': int, l': int)
    requires NoDuplicates(hist) && IsRange(hist, items, h, l) && 0 <= h < l - 1 && l <= |hist| && Judged(mark)
    ensures var m := Tried(h, l);
            && h < m < l && hist[m] == MiddleOf(hist, h, l) && MarksOf(items, hist[m]) == []
            && (h', l') == (if mark == Yes then (m, l) else (h, m))
            && IsRange(hist, items + [Item(hist[m], mark)], h', l')
    ensures l' - h' - 1 <= (l - h - 1) / 2
  {
    MiddleHalves(l - h - 1);
    var m := Tried(h, l);
    assert MarkedAt(hist, items, h, m);
    RangeAfter(hist, items, h, l, m, mark);
    h', l' := if mark == Yes then m else h, if mark == Yes then l else m;
  }

  /** What the log holds after a verdict is the new range, done when nothing is left to choose. */
  lemma EndsReached(hist: seq<Key>, oldest: Key, after: Items, items: Items, ends: Ends, high: int, low: int, h: int, l: int)
    requires NoDuplicates(hist) && IsRange(hist, after, high, low) && IsRange(hist, after, h, l) && 0 <= h < l <= |hist|
    requires oldest == hist[|hist| - 1] && ends == EndsOf(hist, oldest, high, low)
    requires |after| > 0 && after[|after| - 1].mark != Done
    requires items == if ends.middle == ends.high || ends.middle == ends.low then after + [Item(ends.middle, Done)] else after
    ensures ends == EndsOf(hist, oldest, h, l) && IsRange(hist, items, h, l)
    ensures items[|items| - 1].mark == Done <==> Stops(hist, h, l)
  {
    RangeUnique(hist, after, high, low, h, l);
    AtEndIff(hist, oldest, h, l);
    RangeDone(hist, after, h, l, ends.middle);
  }

  /** One answer, on the middle, leaves at most half of what was between. */
  method Answer(log: BisectLog, mark: Mark, ghost h: int, ghost l: int) returns (ghost h': int, ghost l': int)
    requires log.Valid() && DistinctParents(log.parents) && Linear(log.History(log.tip), log.parents)
    requires InProgress(log, h, l) && !log.IsDone() && Judged(mark)
    modifies log
    ensures InProgress(log, h', l') && l' - h' - 1 <= (l - h - 1) / 2
    ensures var m := Tried(h, l);
            && h < m < l && old(log.current) == log.History(log.tip)[m]
            && (h', l') == (if mark == Yes then (m, l) else (h, m))
  {
    ghost var hist, oldest := log.History(log.tip), log.Oldest();
    AcyclicGrounded(log.parents, log.tip);
    LefthandDistinct(log.parents, log.tip);
    h', l' := NextEnds(hist, log.items, h, l, mark);
    ghost var after := log.items + [Item(hist[Tried(h, l)], mark)];
    var done, r;
    ghost var high, low, trail;
    done, r, high, low, trail := log.SetState(mark);
    EndsReached(hist, oldest, after, log.items, Ends(log.highRevid, log.lowRevid, log.middleRevid), high, low, h', l');
  }

  /**
   Where a search without a "no" stops: the number of revisions left below the last "yes",
   from `n` of them on. One or two that are left are not tried.
   */
  function LeftUntried(n: nat): (r: nat)
    ensures r <= 2 && r <= n
    decreases n
  {
    if n <= 2 then n else LeftUntried(MiddleIndex(n))
  }

  /**
   With `d` revisions older than the first that says yes, and `n` below a revision that says
   yes, it is found: it is the first of all, or is not among those that are left untried.
   */
  predicate Found(d: nat, n: nat) {
    d == 0 || d > LeftUntried(n)
  }

  /** A verdict on the middle of what is below a yes changes nothing about what is found. */
  lemma FoundNext(d: nat, n: nat)
    requires n > 2 && d <= n
    ensures MiddleIndex(n) < n && LeftUntried(MiddleIndex(n)) == LeftUntried(n)
    ensures d > MiddleIndex(n) ==> Found(d, n)
  {
  }

  /** The state of a search: the first yes is between the ends, and what was to be found still is. */
  ghost predicate Searching(hist: seq<Key>, script: Key -> bool, first: int, found: bool, h: int, l: int) {
    && FirstYes(hist, script, first) && 0 <= h <= first < l <= |hist|
    && (if l < |hist| then found else found == Found(|hist| - 1 - first, |hist| - 1 - h))
  }

  lemma SearchNext(hist: seq<Key>, script: Key -> bool, first: int, found: bool, h: int, l: int)
    requires Searching(hist, script, first, found, h, l) && !Stops(hist, h, l)
    ensures var m := Tried(h, l);
            && h < m < l
            && (if script(hist[m]) then Searching(hist, script, first, found, m, l)
                else Searching(hist, script, first, found, h, m))
  {
    MiddleHalves(l - h - 1);
    var m := Tried(h, l);
    assert script(hist[m]) <==> m <= first;
    if l == |hist| {
      FoundNext(|hist| - 1 - first, |hist| - 1 - h);
    }
  }

  /**
   From a yes on, with a script that says yes for newer revisions and no for older ones: the
   search ends after at most one answer more than the binary logarithm of the number of
   revisions to choose from. With a no below, it ends at the first revision that says yes;
   without, it does so if that is found, and at the first of all otherwise.
   */
  method RunBisect(log: BisectLog, script: Key -> bool, ghost h: int, ghost l: int, ghost first: int)
      returns (ghost answers: nat)
    requires log.Valid() && DistinctParents(log.parents) && Linear(log.History(log.tip), log.parents)
    requires InProgress(log, h, l) && h <= first < l && FirstYes(log.History(log.tip), script, first)
    modifies log
    ensures log.IsDone() && answers <= AnswersFor(l - h - 1)
    ensures var hist := log.History(log.tip);
            log.current == hist[if l < |hist| || Found(|hist| - 1 - first, |hist| - 1 - h) then first else |hist| - 1]
  {
    ghost var hist := log.History(log.tip);
    ghost var found := l < |hist| || Found(|hist| - 1 - first, |hist| - 1 - h);
    ghost var h', l' := h, l;
    ghost var budget := AnswersFor(l - h - 1);
    ghost var left := budget;
    answers := 0;
    while !log.IsDone()
      invariant InProgress(log, h', l') && Searching(hist, script, first, found, h', l')
      invariant answers + left <= budget && Suffices(left, l' - h' - 1)
      decreases left
    {
      ghost var n := l' - h' - 1;
      h', l' := Try(log, script, h', l', first, found);
      left := LeftAfter(left, n, l' - h' - 1);
      answers := answers + 1;
    }
    SearchEnd(hist, script, first, found, h', l');
  }

  /** One run of the script. */
  method Try(log: BisectLog, script: Key -> bool, ghost h: int, ghost l: int, ghost first: int, ghost found: bool)
      returns (ghost h': int, ghost l': int)
    requires log.Valid() && DistinctParents(log.parents) && Linear(log.History(log.tip), log.parents)
    requires InProgress(log, h, l) && !log.IsDone() && Searching(log.History(log.tip), script, first, found, h, l)
    modifies log
    ensures InProgress(log, h', l') && Searching(log.History(log.tip), script, first, found, h', l')
    ensures h < l - 1 && l' - h' - 1 <= (l - h - 1) / 2
  {
    SearchNext(log.History(log.tip), script, first, found, h, l);
    h', l' := Answer(log, if script(log.current) then Yes else No, h, l);
  }

  lemma SearchEnd(hist: seq<Key>, script: Key -> bool, first: int, found: bool, h: int, l: int)
    requires Searching(hist, script, first, found, h, l) && Stops(hist, h, l)
    ensures MiddleOf(hist, h, l) == hist[if found then first else |hist| - 1]
  {
  }

  /**
   The whole command, from nothing: if the newest revision says no, it is where the search
   ends; else it ends at the first revision that says yes exactly if that is found.
   */
  method Run(parents: ParentMap, tip: Key, script: Key -> bool) returns (log: BisectLog, ghost answers: nat)
    requires Sound(parents) && tip in parents && DistinctParents(parents)
    requires Grounded(parents, tip) && Linear(Lefthand(parents, tip), parents) && Monotone(Lefthand(parents, tip), script)
    ensures var hist := Lefthand(parents, tip);
            && log.IsDone() && answers <= 1 + AnswersFor(|hist| - 1)
            && (!script(tip) ==> log.current == tip)
            && forall first {:trigger FirstYes(hist, script, first)} | 0 <= first < |hist| && FirstYes(hist, script, first) ::
                 log.current == hist[if Found(|hist| - 1 - first, |hist| - 1) then first else |hist| - 1]
  {
    log := new BisectLog(parents, tip, [Item(tip, Start)], tip);
    ghost var hist := log.History(tip);
    StartBisect(log, if script(tip) then Yes else No);
    answers := 1;
    if script(tip) {
      ghost var first := LastYes(hist, script);
      FirstYesUnique(hist, script, first);
      ghost var more := RunBisect(log, script, 0, |hist|, first);
      answers := 1 + more;
    } else {
      NoYes(hist, script);
    }
  }

  /** The first verdict, on the newest revision. */
  method StartBisect(log: BisectLog, mark: Mark)
    requires log.Valid() && DistinctParents(log.parents) && Linear(log.History(log.tip), log.parents) && Judged(mark)
    requires log.items == [Item(log.tip, Start)] && log.current == log.tip
    modifies log
    ensures mark == Yes ==> InProgress(log, 0, |log.History(log.tip)|)
    ensures mark == No ==> log.IsDone() && log.current == log.tip
  {
    ghost var hist, oldest := log.History(log.tip), log.Oldest();
    AcyclicGrounded(log.parents, log.tip);
    LefthandDistinct(log.parents, log.tip);
    FirstVerdict(hist, log.tip, mark);
    var done, r;
    ghost var high, low, trail;
    done, r, high, low, trail := log.SetState(mark);
    StartReached(hist, oldest, log.tip, mark, log.items, Ends(log.highRevid, log.lowRevid, log.middleRevid), high, low);
  }

  lemma NoYes(hist: seq<Key>, script: Key -> bool)
    requires |hist| > 0 && !script(hist[0])
    ensures forall first {:trigger FirstYes(hist, script, first)} | 0 <= first < |hist| :: !FirstYes(hist, script, first)
  {
    forall first | 0 <= first < |hist| ensures !FirstYes(hist, script, first) {
      assert !(script(hist[0]) <==> 0 <= first);
    }
  }

  /** What the verdict on the newest revision leaves: nothing above a no, or all below a yes. */
  lemma FirstVerdict(hist: seq<Key>, tip: Key, mark: Mark)
    requires NoDuplicates(hist) && |hist| > 0 && hist[0] == tip && Judged(mark)
    ensures MarksOf([Item(tip, Start)], tip) == []
    ensures [Item(tip, Start)] + [Item(tip, mark)] == [Item(tip, Start), Item(tip, mark)]
    ensures mark == Yes ==> IsRange(hist, [Item(tip, Start), Item(tip, mark)], 0, |hist|)
    ensures mark == No ==> IsRange(hist, [Item(tip, Start), Item(tip, mark)], -1, 0)
  {
    var items := [Item(tip, Start), Item(tip, mark)];
    assert items == [Item(tip, Start)] + [Item(tip, mark)] && [Item(tip, Start)] == [] + [Item(tip, Start)];
    forall k ensures MarksOf(items, k) == if k == tip then [mark] else [] {
      MarksAfter([], tip, Start, k);
      MarksAfter([Item(tip, Start)], tip, mark, k);
    }
    if mark == Yes {
      forall j | j < |hist| ensures MarkedAt(hist, items, 0, j) {}
    }
  }

  lemma StartReached(hist: seq<Key>, oldest: Key, tip: Key, mark: Mark, items: Items, ends: Ends, high: int, low: int)
    requires NoDuplicates(hist) && |hist| > 0 && hist[0] == tip && oldest == hist[|hist| - 1] && Judged(mark)
    requires var after := [Item(tip, Start), Item(tip, mark)];
             && IsRange(hist, after, high, low) && ends == EndsOf(hist, oldest, high, low)
             && items == if ends.middle == ends.high || ends.middle == ends.low then after + [Item(ends.middle, Done)] else after
    ensures mark == Yes ==>
              && ends == EndsOf(hist, oldest, 0, |hist|) && IsRange(hist, items, 0, |hist|)
              && (items[|items| - 1].mark == Done <==> Stops(hist, 0, |hist|))
    ensures mark == No ==> ends.middle == tip && items[|items| - 1].mark == Done
  {
    var after := [Item(tip, Start), Item(tip, mark)];
    FirstVerdict(hist, tip, mark);
    if mark == Yes {
      EndsReached(hist, oldest, after, items, ends, high, low, 0, |hist|);
    } else {
      RangeUnique(hist, after, high, low, -1, 0);
    }
  }

  lemma LastYes(hist: seq<Key>, script: Key -> bool) returns (first: int)
    requires |hist| > 0 && script(hist[0]) && Monotone(hist, script)
    ensures 0 <= first < |hist| && FirstYes(hist, script, first)
  {
    first := 0;
    while first + 1 < |hist| && script(hist[first + 1])
      invariant 0 <= first < |hist| && script(hist[first])
    {
      first := first + 1;
    }
    if first == |hist| - 1 {
      forall j | 0 <= j < |hist| ensures script(hist[j]) <==> j <= first {
        assert script(hist[first]) && script(hist[j]);
      }
    } else {
      YesAboveNo(hist, script, first);
    }
  }

  lemma FirstYesUnique(hist: seq<Key>, script: Key -> bool, first: int)
    requires 0 <= first < |hist| && FirstYes(hist, script, first)
    ensures forall other {:trigger FirstYes(hist, script, other)} |
              0 <= other < |hist| && FirstYes(hist, script, other) :: other == first
  {
    forall other | 0 <= other < |hist| && FirstYes(hist, script, other) ensures other == first {
      assert script(hist[other]) && script(hist[first]);
    }
  }

  /** The revisions that say yes are those down to position `first`. */
  ghost predicate FirstYes(hist: seq<Key>, script: Key -> bool, first: int) {
    forall j {:trigger script(hist[j])} | 0 <= j < |hist| :: script(hist[j]) <==> j <= first
  }

  lemma YesAboveNo(hist: seq<Key>, script: Key -> bool, first: int)
    requires Monotone(hist, script) && 0 <= first < |hist| - 1 && script(hist[first]) && !script(hist[first + 1])
    ensures FirstYes(hist, script, first)
  {
    forall j | 0 <= j < |hist| ensures script(hist[j]) <==> j <= first {
      assert script(hist[first]) && !script(hist[first + 1]);
    }
  }

  /**
   Without a verdict "no" the first revision stands in for the low end, although it may be
   chosen itself. The search then stops there untested exactly when one or two revisions
   are left to choose from.
   */
  lemma StopsUntestedIff(hist: seq<Key>, items: Items, h: int)
    requires NoDuplicates(hist) && |hist| > 0 && IsRange(hist, items, h, |hist|)
    ensures var n := |hist| - h - 1;
            var low := hist[|hist| - 1];
            (MiddleOf(hist, h, |hist|) == low && MarksOf(items, low) == [])
            <==> n == 1 || n == 2
  {
    var n := |hist| - h - 1;
    assert MarkedAt(hist, items, h, |hist| - 1);
    if n > 0 {
      MiddleHalves(n);
    }
  }

  /** With two revisions and a "yes" on the newer one, the older one is the answer unasked. */
  lemma StopsUntested(a: Key, b: Key)
    requires a != b
    ensures var hist, items := [b, a], [Item(b, Yes)];
            IsRange(hist, items, 0, 2) && MiddleOf(hist, 0, 2) == a && MarksOf(items, a) == []
  {
    var hist, items := [b, a], [Item(b, Yes)];
    MarksAfter([], b, Yes, a);
    MarksAfter([], b, Yes, b);
    assert [] + [Item(b, Yes)] == items;
    forall j | j < 2 ensures MarkedAt(hist, items, 0, j) {}
  }
}

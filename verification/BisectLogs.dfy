/** Bisecting the left-hand history of a branch for the first revision that says yes. */
module BisectLogs {
  import opened Wrappers
  import opened Keys
  import opened Dag
  import opened Tips

  datatype Mark = Start | Yes | No | Done

  /** A line of the log. */
  datatype Item = Item(rev: Key, mark: Mark)

  type Items = seq<Item>

  datatype BisectError = Duplicated(rev: Key) | AddedTwice(rev: Key)

  /** The left-hand ancestry of a revision, newest first. */
  function Lefthand(pm: ParentMap, r: Key): (s: seq<Key>)
    requires Closed(pm) && r in pm && Grounded(pm, r)
    ensures |s| > 0 && s[0] == r && forall k | k in s :: k in pm
    decreases Gdfo(pm, r)
  {
    if |pm[r]| == 0 then [r]
    else
      assert pm[r][0] in pm[r];
      GroundedParent(pm, r, pm[r][0]);
      [r] + Lefthand(pm, pm[r][0])
  }

  lemma {:induction false} LefthandAncestors(pm: ParentMap, r: Key, k: Key)
    requires Closed(pm) && r in pm && Grounded(pm, r) && k in Lefthand(pm, r)
    ensures AncestorOrSelf(pm, k, r)
    decreases Gdfo(pm, r)
  {
    if k != r {
      var p := pm[r][0];
      GroundedParent(pm, r, p);
      LefthandAncestors(pm, p, k);
      ParentThenAncestor(pm, k, p, r);
    }
  }

  lemma {:induction false} LefthandDistinct(pm: ParentMap, r: Key)
    requires Sound(pm) && r in pm && Grounded(pm, r)
    ensures NoDuplicates(Lefthand(pm, r))
    decreases Gdfo(pm, r)
  {
    if |pm[r]| > 0 {
      var p := pm[r][0];
      GroundedParent(pm, r, p);
      LefthandDistinct(pm, p);
      if r in Lefthand(pm, p) {
        LefthandAncestors(pm, p, r);
        ParentThenAncestor(pm, r, p, r);
      }
    }
  }

  /** Each is followed by its first parent, and the last has none. */
  lemma {:induction false} LefthandIs(pm: ParentMap, r: Key, i: nat)
    requires Closed(pm) && r in pm && Grounded(pm, r) && i < |Lefthand(pm, r)|
    ensures var s := Lefthand(pm, r);
            && s[i] in pm && (pm[s[i]] == [] <==> i == |s| - 1)
            && (i + 1 < |s| ==> pm[s[i]] != [] && s[i + 1] == pm[s[i]][0])
    decreases i
  {
    if |pm[r]| > 0 {
      assert pm[r][0] in pm[r];
      GroundedParent(pm, r, pm[r][0]);
      if i > 0 {
        LefthandIs(pm, pm[r][0], i - 1);
      }
    }
  }

  /** There are as many as the left-hand distance says. */
  lemma {:induction false} LefthandCounts(pm: ParentMap, r: Key)
    requires Closed(pm) && r in pm && Grounded(pm, r)
    ensures LefthandDistance(pm, r, |Lefthand(pm, r)|)
    decreases Gdfo(pm, r)
  {
    if |pm[r]| > 0 {
      assert pm[r][0] in pm[r];
      GroundedParent(pm, r, pm[r][0]);
      LefthandCounts(pm, pm[r][0]);
    } else {
      assert LefthandDistance(pm, NULL_REVISION, 0);
    }
  }

  // ---------------------------------------------------------------------------------
  // Marks

  predicate Judged(m: Mark) {
    m == Yes || m == No
  }

  /** All verdicts on a revision, in the order they were given. */
  function MarksOf(items: Items, rev: Key): seq<Mark> {
    if |items| == 0 then []
    else
      var last := items[|items| - 1];
      MarksOf(items[..|items| - 1], rev) + if last.rev == rev && Judged(last.mark) then [last.mark] else []
  }

  lemma {:induction false} NoMarks(items: Items, rev: Key)
    ensures MarksOf(items, rev) == [] <==> forall i | 0 <= i < |items| :: items[i].rev == rev ==> !Judged(items[i].mark)
  {
    if |items| > 0 {
      NoMarks(items[..|items| - 1], rev);
    }
  }

  /** These are the lines with a verdict, and there are two exactly if two lines have one. */
  lemma {:induction false} MarksAre(items: Items, rev: Key)
    ensures forall m :: m in MarksOf(items, rev) <==> (m == Yes || m == No) && Item(rev, m) in items
    ensures |MarksOf(items, rev)| > 1 <==>
              exists i, j {:trigger items[i], items[j]} ::
                0 <= i < j < |items| && items[i] in {Item(rev, Yes), Item(rev, No)} && items[j] in {Item(rev, Yes), Item(rev, No)}
  {
    if |items| > 0 {
      var last := |items| - 1;
      var before := items[..last];
      MarksAre(before, rev);
      NoMarks(before, rev);
      assert items == before + [items[last]];
      assert forall i | 0 <= i < last :: before[i] == items[i];
      if i, j :| 0 <= i < j < last && before[i] in {Item(rev, Yes), Item(rev, No)} && before[j] in {Item(rev, Yes), Item(rev, No)} {
        assert items[i] in {Item(rev, Yes), Item(rev, No)} && items[j] in {Item(rev, Yes), Item(rev, No)};
      }
    }
  }

  lemma MarksAfter(items: Items, rev: Key, mark: Mark, k: Key)
    ensures MarksOf(items + [Item(rev, mark)], k) == MarksOf(items, k) + if rev == k && Judged(mark) then [mark] else []
  {
    assert (items + [Item(rev, mark)])[..|items|] == items;
  }

  // ---------------------------------------------------------------------------------
  // The range

  ghost predicate MarkedAt(hist: seq<Key>, items: Items, high: int, j: int) {
    0 <= j < |hist| ==>
      && (j < high ==> MarksOf(items, hist[j]) == [] || MarksOf(items, hist[j]) == [Yes])
      && (j == high ==> MarksOf(items, hist[j]) == [Yes])
      && (j > high ==> MarksOf(items, hist[j]) == [])
  }

  /** Down to position `low` nothing said no, and `high` is the oldest that said yes, or -1. */
  ghost predicate Scanned(hist: seq<Key>, items: Items, high: int, low: int) {
    && -1 <= high < low <= |hist|
    && forall j {:trigger MarkedAt(hist, items, high, j)} | j < low :: MarkedAt(hist, items, high, j)
  }

  /**
   The range that the verdicts leave: `low` is the newest revision that said no, if any,
   and `high` the oldest above it that said yes, if any; the length and -1 stand for none.
   */
  ghost predicate IsRange(hist: seq<Key>, items: Items, high: int, low: int) {
    && Scanned(hist, items, high, low)
    && (low < |hist| ==> MarksOf(items, hist[low]) == [No])
  }

  ghost predicate NoRange(hist: seq<Key>, items: Items) {
    forall high, low {:trigger IsRange(hist, items, high, low)} :: !IsRange(hist, items, high, low)
  }

  lemma DuplicatedMeansNoRange(hist: seq<Key>, items: Items, top: int, i: nat)
    requires Scanned(hist, items, top, i) && i < |hist| && |MarksOf(items, hist[i])| > 1
    ensures NoRange(hist, items)
  {
    forall high, low ensures !IsRange(hist, items, high, low) {
      if low < i {
        assert MarkedAt(hist, items, top, low);
      } else if i < low {
        assert !MarkedAt(hist, items, high, i);
      }
    }
  }

  lemma ScanNext(hist: seq<Key>, items: Items, high: int, i: nat)
    requires Scanned(hist, items, high, i) && i < |hist|
    ensures MarksOf(items, hist[i]) == [] ==> Scanned(hist, items, high, i + 1)
    ensures MarksOf(items, hist[i]) == [Yes] ==> Scanned(hist, items, i, i + 1)
  {
    var next := i + 1;
    if MarksOf(items, hist[i]) == [] {
      forall j | j < next ensures MarkedAt(hist, items, high, j) {
        assert j < i ==> MarkedAt(hist, items, high, j);
      }
    }
    if MarksOf(items, hist[i]) == [Yes] {
      forall j | j < next ensures MarkedAt(hist, items, i, j) {
        assert j < i ==> MarkedAt(hist, items, high, j);
      }
    }
  }

  /** The position chosen among `n` revisions. */
  function MiddleIndex(n: nat): nat {
    if n == 0 then 0 else (n + 1) / 2 - 1
  }

  /** Whatever the answer on the middle, at most half of the revisions are left. */
  lemma MiddleHalves(n: nat)
    requires n > 0
    ensures MiddleIndex(n) < n
    ensures MiddleIndex(n) <= n / 2 && n - 1 - MiddleIndex(n) <= n / 2
    ensures MiddleIndex(n) <= n - 1 - MiddleIndex(n) <= MiddleIndex(n) + 1
  {
  }

  /** The revision to try next, or the high end when there is none between. */
  function MiddleOf(hist: seq<Key>, high: int, low: int): Key
    requires -1 <= high < low <= |hist| && |hist| > 0
  {
    if low == high + 1 then if high >= 0 then hist[high] else hist[0]
    else
      MiddleHalves(low - high - 1);
      hist[low - 1 - MiddleIndex(low - high - 1)]
  }

  /** The high and low ends of a range, and its middle. */
  datatype Ends = Ends(high: Key, low: Key, middle: Key)

  function EndsOf(hist: seq<Key>, oldest: Key, high: int, low: int): Ends
    requires -1 <= high < low <= |hist| && |hist| > 0
  {
    Ends(if high >= 0 then hist[high] else hist[0], if low < |hist| then hist[low] else oldest, MiddleOf(hist, high, low))
  }

  /** Of the revisions between, as many are newer than the middle as are older, or one more. */
  lemma MiddleSplits(hist: seq<Key>, high: int, low: int) returns (j: int)
    requires -1 <= high < low <= |hist| && |hist| > 0
    ensures 0 <= j < |hist| && MiddleOf(hist, high, low) == hist[j]
    ensures if low == high + 1 then j == (if high >= 0 then high else 0)
            else high < j < low && low - 1 - j <= j - high - 1 <= low - j
  {
    if low == high + 1 {
      j := if high >= 0 then high else 0;
    } else {
      MiddleHalves(low - high - 1);
      j := low - 1 - MiddleIndex(low - high - 1);
    }
  }

  /** The revisions between two positions, oldest first. */
  ghost predicate IsBetween(between: seq<Key>, hist: seq<Key>, high: int, low: int) {
    && -1 <= high < low <= |hist| && |between| == low - high - 1
    && forall i {:trigger between[i]} | 0 <= i < |between| :: between[i] == hist[low - 1 - i]
  }

  method FindMiddle(between: seq<Key>, highRevid: Key, ghost hist: seq<Key>, ghost high: int, ghost low: int)
      returns (middle: Key)
    requires IsBetween(between, hist, high, low) && |hist| > 0
    requires highRevid == if high >= 0 then hist[high] else hist[0]
    ensures middle == MiddleOf(hist, high, low)
  {
    // The spread includes the high revision, to favour the high side when the number is odd.
    var spread := |between| + 1;
    var middleIndex := if spread < 2 then 0 else spread / 2 - 1;
    middle := if |between| > 0 then between[middleIndex] else highRevid;
  }

  class BisectLog {
    const parents: ParentMap
    /** The last revision of the branch. */
    const tip: Key
    var items: Items
    var current: Key
    var highRevid: Key
    var lowRevid: Key
    var middleRevid: Key

    constructor (parents: ParentMap, tip: Key, items: Items, current: Key)
      ensures this.parents == parents && this.tip == tip && this.items == items && this.current == current
    {
      this.parents, this.tip, this.items, this.current := parents, tip, items, current;
      highRevid, lowRevid, middleRevid := tip, tip, tip;
    }

    ghost predicate Valid()
    {
      Sound(parents) && tip in parents
    }

    function History(last: Key): (s: seq<Key>)
      requires Valid() && last in parents
      ensures |s| > 0 && s[0] == last
    {
      AcyclicGrounded(parents, last);
      Lefthand(parents, last)
    }

    predicate IsDone()
      reads this`items
    {
      |items| > 0 && items[|items| - 1].mark == Done
    }

    method FindRangeAndMiddle(last: Key) returns (r: Outcome<BisectError>, ghost high: int, ghost low: int)
      requires Valid() && last in parents
      modifies this`highRevid, this`lowRevid, this`middleRevid
      ensures r.Pass? ==>
                && IsRange(History(last), items, high, low)
                && Ends(highRevid, lowRevid, middleRevid) == EndsOf(History(last), Oldest(), high, low)
                && highRevid == (if high >= 0 then History(last)[high] else last)
                && lowRevid == if low < |History(last)| then History(last)[low] else Oldest()
      ensures r.Fail? ==> r.error.Duplicated? && NoRange(History(last), items)
    {
      var hist, oldest := History(last), Oldest();
      var scan;
      scan, high, low := Scan(hist, oldest, items);
      if scan.Failure? {
        return Fail(scan.error), high, low;
      }
      highRevid, lowRevid, middleRevid := scan.value.high, scan.value.low, scan.value.middle;
      r := Pass;
    }

    /** The first revision of the branch. */
    function Oldest(): Key
      requires Valid()
    {
      History(tip)[|History(tip)| - 1]
    }

    // -------------------------------------------------------------------------------
    // Verdicts

    /** A verdict on a revision that has one already is refused, once done nothing is added. */
    method SetStatus(rev: Key, mark: Mark) returns (r: Outcome<BisectError>)
      modifies this`items
      ensures old(IsDone()) ==> r.Pass? && items == old(items)
      ensures !old(IsDone()) ==>
                if mark != Done && MarksOf(old(items), rev) != [] then r == Fail(AddedTwice(rev)) && items == old(items)
                else r.Pass? && items == old(items) + [Item(rev, mark)]
    {
      r := Pass;
      if !IsDone() {
        NoMarks(items, rev);
        var judged := set i | 0 <= i < |items| && Judged(items[i].mark) :: items[i].rev;
        if mark != Done && rev in judged {
          return Fail(AddedTwice(rev));
        }
        items := items + [Item(rev, mark)];
      }
    }

    method SetCurrent(mark: Mark) returns (r: Outcome<BisectError>)
      modifies this`items
      ensures old(IsDone()) ==> r.Pass? && items == old(items)
      ensures !old(IsDone()) ==>
                if mark != Done && MarksOf(old(items), current) != [] then r == Fail(AddedTwice(current)) && items == old(items)
                else r.Pass? && items == old(items) + [Item(current, mark)]
    {
      r := SetStatus(current, mark);
    }

    predicate IsMergePoint(rev: Key)
      requires rev in parents
    {
      |parents[rev]| > 1
    }

    /** The middle is at an end of the range: there is nothing between to choose from. */
    predicate AtEnd()
      reads this`middleRevid, this`highRevid, this`lowRevid
    {
      middleRevid == highRevid || middleRevid == lowRevid
    }

    /** The fields say what the range of the branch's history is. */
    ghost predicate Ranged(items: Items, high: int, low: int)
      requires Valid()
      reads this`highRevid, this`lowRevid, this`middleRevid
    {
      && IsRange(History(tip), items, high, low)
      && Ends(highRevid, lowRevid, middleRevid) == EndsOf(History(tip), Oldest(), high, low)
    }

    ghost predicate RangedFrom(items: Items, last: Key, ends: Ends, high: int, low: int)
      requires Valid()
    {
      last in parents && IsRange(History(last), items, high, low) && ends == EndsOf(History(last), Oldest(), high, low)
    }

    /** The range from `last` has a merge as its middle and end, and `next` is its first parent but for the low end. */
    ghost predicate Turns(items: Items, last: Key, next: Key)
      requires Valid()
    {
      exists ends, high, low {:trigger RangedFrom(items, last, ends, high, low)} ::
        && RangedFrom(items, last, ends, high, low) && (ends.middle == ends.high || ends.middle == ends.low)
        && ends.middle in parents && |parents[ends.middle]| > 1 && FirstBut(parents[ends.middle], ends.low, next)
    }

    /** From the last revision of the branch on, every turn is along such a parent. */
    ghost predicate Descent(items: Items, trail: seq<Key>)
      requires Valid()
    {
      && |trail| > 0 && trail[0] == tip && trail[|trail| - 1] in parents
      && forall i: nat {:trigger TurnsAt(items, trail, i)} | i + 1 < |trail| :: TurnsAt(items, trail, i)
    }

    /** The fields say what the range of the last revision of the trail is. */
    ghost predicate ArrivedAt(items: Items, trail: seq<Key>, high: int, low: int)
      requires Valid()
      reads this`highRevid, this`lowRevid, this`middleRevid
    {
      && Descent(items, trail)
      && RangedFrom(items, trail[|trail| - 1], Ends(highRevid, lowRevid, middleRevid), high, low)
    }

    ghost predicate TurnsAt(items: Items, trail: seq<Key>, i: nat)
      requires Valid() && i + 1 < |trail|
    {
      Turns(items, trail[i], trail[i + 1])
    }

    lemma OneTurnMore(items: Items, trail: seq<Key>, ends: Ends, high: int, low: int, next: Key)
      requires Valid() && Descent(items, trail) && next in parents
      requires RangedFrom(items, trail[|trail| - 1], ends, high, low) && (ends.middle == ends.high || ends.middle == ends.low)
      requires ends.middle in parents && |parents[ends.middle]| > 1 && FirstBut(parents[ends.middle], ends.low, next)
      ensures Descent(items, trail + [next])
    {
      var longer := trail + [next];
      forall i: nat | i + 1 < |longer| ensures TurnsAt(items, longer, i) {
        if i + 1 < |trail| {
          assert TurnsAt(items, trail, i);
        }
      }
    }

    /**
     Find the range and move to its middle. At an end of the range that is a merge, the
     search goes on along a parent; that ends, as every turn moves to a strict ancestor.
     */
    method Bisect() returns (r: Outcome<BisectError>, ghost high: int, ghost low: int, ghost trail: seq<Key>)
      requires Valid() && DistinctParents(parents)
      modifies this
      ensures r.Pass? ==> middleRevid in parents && current == middleRevid && (AtEnd() ==> !IsMergePoint(middleRevid))
      ensures r.Pass? ==> items == if AtEnd() && !old(IsDone()) then old(items) + [Item(current, Done)] else old(items)
      ensures r.Fail? ==> items == old(items)
      ensures r.Pass? ==> ArrivedAt(old(items), trail, high, low)
      ensures r.Fail? ==> Descent(items, trail) && NoRange(History(trail[|trail| - 1]), items)
      ensures r.Pass? && Linear(History(tip), parents) ==> Ranged(old(items), high, low)
      ensures r.Fail? && Linear(History(tip), parents) ==> NoRange(History(tip), items)
    {
      trail := [tip];
      r, high, low := FindRangeAndMiddle(tip);
      if r.Fail? {
        return;
      }
      ghost var linear := Linear(History(tip), parents);
      AcyclicGrounded(parents, tip);
      MiddleIsAncestor(parents, tip, high, low);
      while AtEnd() && IsMergePoint(middleRevid)
        invariant middleRevid in parents && items == old(items) && r.Pass? && ArrivedAt(items, trail, high, low)
        invariant linear ==> middleRevid in History(tip) && Ranged(items, high, low)
        decreases GdfoOf(parents, middleRevid)
      {
        assert !linear;
        var parent := OtherParent();
        ghost var before := middleRevid;
        OneTurnMore(items, trail, Ends(highRevid, lowRevid, middleRevid), high, low, parent);
        trail := trail + [parent];
        r, high, low := FindRangeAndMiddle(parent);
        if r.Fail? {
          return;
        }
        AcyclicGrounded(parents, parent);
        MiddleIsAncestor(parents, parent, high, low);
        Descends(parents, before, parent, middleRevid);
      }
      current := middleRevid;
      if AtEnd() {
        r := SetCurrent(Done);
      }
    }

    /** The first parent of a merge that is not the low end. */
    method OtherParent() returns (parent: Key)
      requires Valid() && DistinctParents(parents) && middleRevid in parents && IsMergePoint(middleRevid)
      ensures parent in parents[middleRevid] && parent in parents && FirstBut(parents[middleRevid], lowRevid, parent)
    {
      var ps := parents[middleRevid];
      var j := 0;
      while j < |ps| && ps[j] == lowRevid
        invariant j <= 1 && forall i | 0 <= i < j :: ps[i] == lowRevid
      {
        assert ps[0] != ps[1];
        j := j + 1;
      }
      parent := ps[j];
    }

    /** Record a verdict on the current revision and go on, unless there is nothing left to do. */
    method SetState(mark: Mark)
        returns (done: bool, r: Outcome<BisectError>, ghost high: int, ghost low: int, ghost trail: seq<Key>)
      requires Valid() && DistinctParents(parents) && Judged(mark)
      modifies this
      ensures done == old(IsDone()) && (done ==> r.Pass? && items == old(items) && current == old(current))
      ensures !done && r.Pass? ==>
                var after := old(items) + [Item(old(current), mark)];
                && MarksOf(old(items), old(current)) == [] && middleRevid in parents && current == middleRevid
                && items == (if AtEnd() then after + [Item(current, Done)] else after)
                && (Linear(History(tip), parents) ==> Ranged(after, high, low))
      ensures !done && r.Pass? ==> ArrivedAt(old(items) + [Item(old(current), mark)], trail, high, low)
      ensures !done && r.Fail? && MarksOf(old(items), old(current)) == [] && Linear(History(tip), parents) ==>
                NoRange(History(tip), old(items) + [Item(old(current), mark)])
    {
      done, r, high, low, trail := IsDone(), Pass, -1, 0, [];
      if !done {
        r := SetCurrent(mark);
        if r.Pass? {
          r, high, low, trail := Bisect();
        }
      }
    }
  }

  /** The first of a list that is not `out`. */
  ghost predicate FirstBut(list: seq<Key>, out: Key, first: Key) {
    exists j {:trigger list[j]} :: 0 <= j < |list| && list[j] == first != out && forall i | 0 <= i < j :: list[i] == out
  }

  ghost predicate DistinctParents(pm: ParentMap) {
    forall k, i, j {:trigger pm[k][i], pm[k][j]} | k in pm && 0 <= i < j < |pm[k]| :: pm[k][i] != pm[k][j]
  }

  /** No revision of the history is a merge. */
  ghost predicate Linear(hist: seq<Key>, pm: ParentMap) {
    forall k | k in hist :: k in pm && |pm[k]| <= 1
  }

  ghost function GdfoOf(pm: ParentMap, k: Key): nat {
    if Grounded(pm, k) then Gdfo(pm, k) else 0
  }

  lemma MiddleIsAncestor(pm: ParentMap, last: Key, high: int, low: int)
    requires Sound(pm) && last in pm && Grounded(pm, last) && -1 <= high < low <= |Lefthand(pm, last)|
    ensures var middle := MiddleOf(Lefthand(pm, last), high, low);
            middle in Lefthand(pm, last) && middle in pm && AncestorOrSelf(pm, middle, last)
  {
    MiddleInHistory(Lefthand(pm, last), high, low);
    LefthandAncestors(pm, last, MiddleOf(Lefthand(pm, last), high, low));
  }

  lemma MiddleInHistory(hist: seq<Key>, high: int, low: int)
    requires -1 <= high < low <= |hist| && |hist| > 0
    ensures MiddleOf(hist, high, low) in hist
  {
  }

  lemma Descends(pm: ParentMap, before: Key, parent: Key, middle: Key)
    requires Sound(pm) && parent in Parents(pm, before) && AncestorOrSelf(pm, middle, parent)
    ensures GdfoOf(pm, middle) < GdfoOf(pm, before)
  {
    ParentThenAncestor(pm, middle, parent, before);
    AcyclicGrounded(pm, before);
    AncestorGdfo(pm, middle, before);
  }

  /** Go over the revisions from the newest down to one that said no. */
  method Scan(hist: seq<Key>, oldest: Key, items: Items)
      returns (r: Result<Ends, BisectError>, ghost high: int, ghost low: int)
    requires |hist| > 0
    ensures match r
            case Failure(e) => e.Duplicated? && NoRange(hist, items)
            case Success(ends) => IsRange(hist, items, high, low) && ends == EndsOf(hist, oldest, high, low)
  {
    var highFound: Option<Key> := None;
    var lowFound: Option<Key> := None;
    var between: seq<Key> := [];
    var i := 0;
    high := -1;
    while i < |hist| && lowFound.None?
      invariant i <= |hist| && Scanned(hist, items, high, i) && IsBetween(between, hist, high, i)
      invariant highFound == if high >= 0 then Some(hist[high]) else None
      invariant lowFound.Some? ==> i < |hist| && lowFound == Some(hist[i]) && MarksOf(items, hist[i]) == [No]
      decreases |hist| - i, lowFound.None?
    {
      var revision := hist[i];
      var matches := MarksOf(items, revision);
      ScanNext(hist, items, high, i);
      JudgedMarks(items, revision);
      if |matches| > 1 {
        DuplicatedMeansNoRange(hist, items, high, i);
        return Failure(Duplicated(revision)), high, i;
      }
      if |matches| == 0 {
        between := [revision] + between;
        i := i + 1;
      } else if matches[0] == Yes {
        assert matches == [Yes];
        highFound, between, high := Some(revision), [], i;
        i := i + 1;
      } else {
        assert matches[0] in matches && matches == [No];
        lowFound := Some(revision);
      }
    }
    low := i;
    var highRevid := if highFound.Some? then highFound.value else hist[0];
    var middle := FindMiddle(between, highRevid, hist, high, low);
    r := Success(Ends(highRevid, if lowFound.Some? then lowFound.value else oldest, middle));
  }

  lemma {:induction false} JudgedMarks(items: Items, rev: Key)
    ensures forall m | m in MarksOf(items, rev) :: Judged(m)
  {
    if |items| > 0 {
      JudgedMarks(items[..|items| - 1], rev);
    }
  }
}

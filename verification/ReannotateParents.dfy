/** Bringing the annotations of a second parent, or of more, into play. */
module ReannotateParents {
  import opened Wrappers
  import opened Keys
  import opened Dag
  import opened Blocks
  import opened Blame
  import opened Reannotate

  // ---------------------------------------------------------------------------------
  // The second parent

  /**
   The line of the right parent that line `i` is settled with, looking at the first `n`
   blocks between the annotated texts. Inside a block it is the line matched; between
   blocks the plain texts of the two gaps are matched anew, unless one gap is empty.
   */
  ghost function Counterpart(o: Policy, right: seq<AnnLine>, left: seq<AnnLine>, text: Text, blocks: seq<Block>, n: nat, i: nat)
    : Option<nat>
    requires ValidBlocks(blocks, right, left) && n <= |blocks| && |left| == |text|
    decreases n
  {
    if n == 0 then None
    else
      var b := blocks[n - 1];
      var r0, l0 := LeftEnd(blocks, n - 1), RightEnd(blocks, n - 1);
      EndsInOrder(blocks, n - 1, right, left);
      if i < l0 then Counterpart(o, right, left, text, blocks, n - 1, i)
      else CounterpartAt(o, right, text, b, r0, l0, i)
  }

  /** The same for a line of block `b` or of the gap before it, which begins at `r0` and `l0`. */
  ghost function CounterpartAt(o: Policy, right: seq<AnnLine>, text: Text, b: Block, r0: nat, l0: nat, i: nat): Option<nat>
    requires r0 <= b.left <= |right| && l0 <= b.right <= |text| && l0 <= i
  {
    if b.right <= i then Some(b.left + (i - b.right))
    else if r0 == b.left then None
    else
      match MatchOf(o.matcher(Texts(right[r0..b.left]), text[l0..b.right]), i - l0)
      case None => None
      case Some(x) => Some(r0 + x)
  }

  /** A line as settled between the left annotation and its counterpart in the right parent. */
  ghost function Settled(o: Policy, right: seq<AnnLine>, left: AnnLine, counterpart: Option<nat>): AnnLine {
    match counterpart
    case None => left
    case Some(x) => if x < |right| then Resolve(o, left, right[x]) else left
  }

  lemma {:induction false} CounterpartNear(o: Policy, right: seq<AnnLine>, left: seq<AnnLine>, text: Text, blocks: seq<Block>,
                                           n: nat, k: nat, i: nat)
    requires ValidBlocks(blocks, right, left) && k < n <= |blocks| && |left| == |text|
    requires RightEnd(blocks, k) <= i < blocks[k].right + blocks[k].size
    ensures LeftEnd(blocks, k) <= blocks[k].left <= |right| && RightEnd(blocks, k) <= blocks[k].right <= |text|
    ensures Counterpart(o, right, left, text, blocks, n, i)
            == CounterpartAt(o, right, text, blocks[k], LeftEnd(blocks, k), RightEnd(blocks, k), i)
    decreases n
  {
    EndsInOrder(blocks, n - 1, right, left);
    EndsInOrder(blocks, k, right, left);
    if k < n - 1 {
      assert k == n - 2 || blocks[k].right + blocks[k].size <= blocks[n - 2].right;
      CounterpartNear(o, right, left, text, blocks, n - 1, k, i);
    }
  }

  /**
   A line in a block of equal annotated lines has the line there as its counterpart; one between
   two blocks has the line that its plain text is matched with between the same two, and none if
   the right side has nothing there.
   */
  lemma CounterpartIs(o: Policy, right: seq<AnnLine>, left: seq<AnnLine>, text: Text, blocks: seq<Block>, k: nat, i: nat)
    requires ValidBlocks(blocks, right, left) && k < |blocks| && |left| == |text|
    requires (if k == 0 then 0 else blocks[k - 1].right + blocks[k - 1].size) <= i < blocks[k].right + blocks[k].size
    ensures var b := blocks[k];
            var r0 := if k == 0 then 0 else blocks[k - 1].left + blocks[k - 1].size;
            var l0 := if k == 0 then 0 else blocks[k - 1].right + blocks[k - 1].size;
            && r0 <= b.left <= |right| && l0 <= b.right <= |text|
            && match Counterpart(o, right, left, text, blocks, |blocks|, i)
               case Some(x) =>
                 if b.right <= i then x == b.left + (i - b.right)
                 else r0 <= x && MatchOf(o.matcher(Texts(right[r0..b.left]), text[l0..b.right]), i - l0) == Some(x - r0)
               case None =>
                 i < b.right && (r0 == b.left || MatchOf(o.matcher(Texts(right[r0..b.left]), text[l0..b.right]), i - l0) == None)
  {
    CounterpartNear(o, right, left, text, blocks, |blocks|, k, i);
  }

  /** The counterpart of a line has the same text. */
  lemma {:induction false} CounterpartHasText(o: Policy, right: seq<AnnLine>, left: seq<AnnLine>, text: Text,
                                              blocks: seq<Block>, n: nat, i: nat)
    requires ValidMatcher(o.matcher) && ValidBlocks(blocks, right, left) && n <= |blocks| && Texts(left) == text
    requires i < RightEnd(blocks, n) && i < |text|
    ensures var c := Counterpart(o, right, left, text, blocks, n, i);
            c.Some? ==> c.value < |right| && right[c.value].text == text[i]
    decreases n
  {
    if n > 0 {
      var b := blocks[n - 1];
      var r0, l0 := LeftEnd(blocks, n - 1), RightEnd(blocks, n - 1);
      EndsInOrder(blocks, n - 1, right, left);
      if i < l0 {
        CounterpartHasText(o, right, left, text, blocks, n - 1, i);
      } else {
        CounterpartAtHasText(o, right, left, text, b, r0, l0, i);
      }
    }
  }

  lemma CounterpartAtHasText(o: Policy, right: seq<AnnLine>, left: seq<AnnLine>, text: Text, b: Block, r0: nat, l0: nat, i: nat)
    requires ValidMatcher(o.matcher) && Texts(left) == text && i < |text|
    requires r0 <= b.left && b.left + b.size <= |right| && l0 <= b.right && b.right + b.size <= |text|
    requires right[b.left..b.left + b.size] == left[b.right..b.right + b.size] && l0 <= i < b.right + b.size
    ensures var c := CounterpartAt(o, right, text, b, r0, l0, i);
            c.Some? ==> c.value < |right| && right[c.value].text == text[i]
  {
    if b.right <= i {
      BlockIndex(b, right, left, i);
      assert left[i].text == text[i];
    } else if r0 != b.left {
      GapMatchHasText(o, right[r0..b.left], text[l0..b.right], i - l0);
      assert text[l0..b.right][i - l0] == text[i];
    }
  }

  lemma BlockIndex<T>(b: Block, first: seq<T>, second: seq<T>, i: nat)
    requires b.left + b.size <= |first| && b.right + b.size <= |second| && InBlock(b, i)
    requires first[b.left..b.left + b.size] == second[b.right..b.right + b.size]
    ensures first[b.left + (i - b.right)] == second[i]
  {
    assert first[b.left..b.left + b.size][i - b.right] == second[b.right..b.right + b.size][i - b.right];
  }

  lemma GapMatchHasText(o: Policy, right: seq<AnnLine>, text: Text, i: nat)
    requires ValidMatcher(o.matcher) && i < |text|
    ensures var x := MatchOf(o.matcher(Texts(right), text), i); x.Some? ==> x.value < |right| && right[x.value].text == text[i]
  {
    var inner := o.matcher(Texts(right), text);
    assert inner[..|inner|] == inner;
    MatchIsEqual(inner, |inner|, i, Texts(right), text);
  }

  /** The lines of a gap, each settled with its match in the gap of the right parent. */
  ghost predicate GapSettled(o: Policy, child: seq<AnnLine>, right: seq<AnnLine>, blocks: seq<Block>, out: seq<AnnLine>, n: nat) {
    && |out| == n <= |child|
    && forall i {:trigger out[i]} | 0 <= i < n :: out[i] == Settled(o, right, child[i], MatchOf(blocks, i))
  }

  /** `_find_matching_unannotated_lines`, on the lines of the two gaps. */
  method FindMatchingUnannotatedLines(o: Policy, plainChild: Text, child: seq<AnnLine>, right: seq<AnnLine>,
                                      ghost pm: ParentMap)
      returns (out: seq<AnnLine>)
    requires ValidPolicy(o, pm) && |plainChild| == |child|
    ensures GapSettled(o, child, right, o.matcher(Texts(right), plainChild), out, |child|)
  {
    var blocks := o.matcher(Texts(right), plainChild);
    out := [];
    var lastChildIdx := 0;
    for n := 0 to |blocks|
      invariant lastChildIdx == RightEnd(blocks, n) && GapSettled(o, child, right, blocks, out, lastChildIdx)
    {
      var b := blocks[n];
      EndsInOrder(blocks, n, Texts(right), plainChild);
      var matched := ResolveBlock(o, child[b.right..b.right + b.size], right[b.left..b.left + b.size], pm);
      NextInGap(o, plainChild, child, right, blocks, n, out, matched);
      if b.right > lastChildIdx {
        out := out + child[lastChildIdx..b.right];
      } else {
        assert out + child[lastChildIdx..b.right] == out;
      }
      out := out + matched;
      lastChildIdx := b.right + b.size;
    }
    EndsInOrder(blocks, |blocks| - 1, Texts(right), plainChild);
  }

  /** The lines of one matching block. */
  method ResolveBlock(o: Policy, left: seq<AnnLine>, right: seq<AnnLine>, ghost pm: ParentMap) returns (out: seq<AnnLine>)
    requires ValidPolicy(o, pm) && |left| == |right|
    ensures |out| == |left| && forall i {:trigger out[i]} | 0 <= i < |out| :: out[i] == Resolve(o, left[i], right[i])
  {
    out := [];
    for offset := 0 to |left|
      invariant |out| == offset && forall i {:trigger out[i]} | 0 <= i < offset :: out[i] == Resolve(o, left[i], right[i])
    {
      var line := ResolveLine(o, left[offset], right[offset], pm);
      out := out + [line];
    }
  }

  lemma NextInGap(o: Policy, plainChild: Text, child: seq<AnnLine>, right: seq<AnnLine>, blocks: seq<Block>, n: nat,
                  out: seq<AnnLine>, matched: seq<AnnLine>)
    requires ValidBlocks(blocks, Texts(right), plainChild) && n < |blocks| && |plainChild| == |child|
    requires GapSettled(o, child, right, blocks, out, RightEnd(blocks, n))
    requires var b := blocks[n];
             && RightEnd(blocks, n) <= b.right && b.right + b.size <= |child| && b.left + b.size <= |right|
             && |matched| == b.size
             && forall i {:trigger matched[i]} | 0 <= i < b.size ::
                  matched[i] == Resolve(o, child[b.right..b.right + b.size][i], right[b.left..b.left + b.size][i])
    ensures var b := blocks[n];
            GapSettled(o, child, right, blocks, out + child[RightEnd(blocks, n)..b.right] + matched, b.right + b.size)
  {
    var b, end := blocks[n], RightEnd(blocks, n);
    var out' := out + child[end..b.right] + matched;
    forall i | 0 <= i < b.right + b.size ensures out'[i] == Settled(o, right, child[i], MatchOf(blocks, i)) {
      if i < end {
        assert out'[i] == out[i];
      } else {
        MatchAround(blocks, n, i, Texts(right), plainChild);
        assert i >= b.right ==> out'[i] == matched[i - b.right];
      }
    }
  }

  ghost predicate AllSettled(o: Policy, right: seq<AnnLine>, left: seq<AnnLine>, text: Text, blocks: seq<Block>, n: nat,
                             lines: seq<AnnLine>)
    requires ValidBlocks(blocks, right, left) && n <= |blocks| && |left| == |text|
  {
    && |lines| == RightEnd(blocks, n) <= |left|
    && forall i {:trigger lines[i]} | 0 <= i < |lines| ::
         lines[i] == Settled(o, right, left[i], Counterpart(o, right, left, text, blocks, n, i))
  }

  /** Line `i` goes to the left side if it has no counterpart, and else is decided between the two. */
  ghost predicate DecidedAt(o: Policy, pm: ParentMap, right: seq<AnnLine>, left: seq<AnnLine>, text: Text, blocks: seq<Block>,
                            lines: seq<AnnLine>, i: nat)
    requires ValidBlocks(blocks, right, left) && |left| == |text| == |lines| && i < |text|
  {
    match Counterpart(o, right, left, text, blocks, |blocks|, i)
    case None => lines[i] == left[i]
    case Some(x) => x < |right| && right[x].text == text[i] && Decided(o, pm, left[i], right[x], lines[i])
  }

  ghost predicate AllDecided(o: Policy, pm: ParentMap, right: seq<AnnLine>, left: seq<AnnLine>, text: Text, blocks: seq<Block>,
                             lines: seq<AnnLine>)
  {
    && ValidBlocks(blocks, right, left) && |left| == |text| == |lines|
    && forall i: nat {:trigger DecidedAt(o, pm, right, left, text, blocks, lines, i)} | i < |text| ::
         DecidedAt(o, pm, right, left, text, blocks, lines, i)
  }

  /** `_reannotate_annotated` */
  method ReannotateAnnotated(o: Policy, right: seq<AnnLine>, text: Text, left: seq<AnnLine>, ghost pm: ParentMap)
      returns (lines: seq<AnnLine>, ghost blocks: seq<Block>)
    requires ValidPolicy(o, pm) && |left| == |text|
    ensures blocks == o.lineMatcher(right, left) && ValidBlocks(blocks, right, left)
    ensures |lines| == |text| && AllSettled(o, right, left, text, blocks, |blocks|, lines)
  {
    var matching := o.lineMatcher(right, left);
    blocks := matching;
    lines := [];
    var lastRightIdx, lastLeftIdx := 0, 0;
    for n := 0 to |matching|
      invariant lastRightIdx == LeftEnd(matching, n) && lastLeftIdx == RightEnd(matching, n)
      invariant AllSettled(o, right, left, text, matching, n, lines)
    {
      lines := SettleBlock(o, right, text, left, matching, n, lastRightIdx, lastLeftIdx, lines, pm);
      lastRightIdx, lastLeftIdx := matching[n].left + matching[n].size, matching[n].right + matching[n].size;
    }
    EndsInOrder(matching, |matching| - 1, right, left);
  }

  /** What comes before a block, and the lines of the block. */
  method SettleBlock(o: Policy, right: seq<AnnLine>, text: Text, left: seq<AnnLine>, matching: seq<Block>, n: nat,
                     lastRightIdx: nat, lastLeftIdx: nat, lines: seq<AnnLine>, ghost pm: ParentMap)
      returns (lines': seq<AnnLine>)
    requires ValidPolicy(o, pm) && |left| == |text| && ValidBlocks(matching, right, left) && n < |matching|
    requires lastRightIdx == LeftEnd(matching, n) && lastLeftIdx == RightEnd(matching, n)
    requires AllSettled(o, right, left, text, matching, n, lines)
    ensures AllSettled(o, right, left, text, matching, n + 1, lines')
  {
    EndsInOrder(matching, n, right, left);
    var gap := SettleGap(o, right, text, left, lastRightIdx, lastLeftIdx, matching[n], pm);
    lines' := lines + gap + left[matching[n].right..matching[n].right + matching[n].size];
    NextBlockSettled(o, right, left, text, matching, n, n + 1, lines, gap, lines');
  }

  lemma NextBlockSettled(o: Policy, right: seq<AnnLine>, left: seq<AnnLine>, text: Text, blocks: seq<Block>, n: nat, next: nat,
                         lines: seq<AnnLine>, gap: seq<AnnLine>, lines': seq<AnnLine>)
    requires ValidMatcher(o.matcher) && ValidBlocks(blocks, right, left) && n < next == n + 1 <= |blocks| && |left| == |text|
    requires AllSettled(o, right, left, text, blocks, n, lines) && blocks[n].right + blocks[n].size <= |left|
    requires GapBefore(o, right, left, text, LeftEnd(blocks, n), RightEnd(blocks, n), blocks[n], gap)
    requires lines' == lines + gap + left[blocks[n].right..blocks[n].right + blocks[n].size]
    ensures AllSettled(o, right, left, text, blocks, next, lines')
  {
    assert NextGap(o, right, left, text, blocks, n, gap);
    NextSettled(o, right, left, text, blocks, n, lines, gap);
  }

  /** The lines between two blocks: if one side is empty they are a pure insertion. */
  method SettleGap(o: Policy, right: seq<AnnLine>, text: Text, left: seq<AnnLine>, lastRightIdx: nat, lastLeftIdx: nat, b: Block,
                   ghost pm: ParentMap)
      returns (gap: seq<AnnLine>)
    requires ValidPolicy(o, pm) && |left| == |text|
    requires lastRightIdx <= b.left <= |right| && lastLeftIdx <= b.right <= |left|
    ensures GapBefore(o, right, left, text, lastRightIdx, lastLeftIdx, b, gap)
  {
    if lastRightIdx == b.left || lastLeftIdx == b.right {
      gap := left[lastLeftIdx..b.right];
    } else {
      gap := FindMatchingUnannotatedLines(o, text[lastLeftIdx..b.right], left[lastLeftIdx..b.right],
                                          right[lastRightIdx..b.left], pm);
    }
  }

  ghost predicate GapBefore(o: Policy, right: seq<AnnLine>, left: seq<AnnLine>, text: Text, r0: nat, l0: nat, b: Block,
                            gap: seq<AnnLine>)
    requires |left| == |text|
  {
    && r0 <= b.left <= |right| && l0 <= b.right <= |left|
    && if r0 == b.left || l0 == b.right then gap == left[l0..b.right]
       else GapSettled(o, left[l0..b.right], right[r0..b.left],
                       o.matcher(Texts(right[r0..b.left]), text[l0..b.right]), gap, b.right - l0)
  }

  ghost predicate NextGap(o: Policy, right: seq<AnnLine>, left: seq<AnnLine>, text: Text, blocks: seq<Block>, n: nat,
                          gap: seq<AnnLine>)
    requires n < |blocks| && |left| == |text|
  {
    GapBefore(o, right, left, text, LeftEnd(blocks, n), RightEnd(blocks, n), blocks[n], gap)
  }

  lemma InTheGap(o: Policy, right: seq<AnnLine>, left: seq<AnnLine>, text: Text, blocks: seq<Block>, n: nat,
                 gap: seq<AnnLine>, i: nat)
    requires ValidMatcher(o.matcher) && ValidBlocks(blocks, right, left) && n < |blocks| && |left| == |text|
    requires NextGap(o, right, left, text, blocks, n, gap) && RightEnd(blocks, n) <= i < blocks[n].right
    ensures gap[i - RightEnd(blocks, n)] == Settled(o, right, left[i], Counterpart(o, right, left, text, blocks, n + 1, i))
  {
    EndsInOrder(blocks, n, right, left);
    InGapBefore(o, right, left, text, blocks[n], LeftEnd(blocks, n), RightEnd(blocks, n), gap, i);
  }

  lemma InGapBefore(o: Policy, right: seq<AnnLine>, left: seq<AnnLine>, text: Text, b: Block, r0: nat, l0: nat,
                    gap: seq<AnnLine>, i: nat)
    requires ValidMatcher(o.matcher) && |left| == |text|
    requires GapBefore(o, right, left, text, r0, l0, b, gap) && l0 <= i < b.right
    ensures gap[i - l0] == Settled(o, right, left[i], CounterpartAt(o, right, text, b, r0, l0, i))
  {
    if r0 != b.left {
      var first, second := Texts(right[r0..b.left]), text[l0..b.right];
      var inner := o.matcher(first, second);
      assert inner[..|inner|] == inner;
      MatchIsEqual(inner, |inner|, i - l0, first, second);
      assert left[l0..b.right][i - l0] == left[i];
      assert gap[i - l0] == Settled(o, right[r0..b.left], left[i], MatchOf(inner, i - l0));
    }
  }

  /** One more gap and the block after it. */
  lemma NextSettled(o: Policy, right: seq<AnnLine>, left: seq<AnnLine>, text: Text, blocks: seq<Block>, n: nat,
                    lines: seq<AnnLine>, gap: seq<AnnLine>)
    requires ValidMatcher(o.matcher) && ValidBlocks(blocks, right, left) && n < |blocks| && |left| == |text|
    requires AllSettled(o, right, left, text, blocks, n, lines)
    requires NextGap(o, right, left, text, blocks, n, gap)
    ensures AllSettled(o, right, left, text, blocks, n + 1, lines + gap + left[blocks[n].right..RightEnd(blocks, n + 1)])
  {
    var b, next := blocks[n], n + 1;
    var end := RightEnd(blocks, next);
    EndsInOrder(blocks, n, right, left);
    var lines' := lines + gap + left[b.right..end];
    forall i | 0 <= i < end
      ensures lines'[i] == Settled(o, right, left[i], Counterpart(o, right, left, text, blocks, next, i))
    {
      if i < RightEnd(blocks, n) {
        assert lines'[i] == lines[i];
      } else {
        NextSettledAt(o, right, left, text, blocks, n, lines, gap, i);
      }
    }
  }

  lemma NextSettledAt(o: Policy, right: seq<AnnLine>, left: seq<AnnLine>, text: Text, blocks: seq<Block>, n: nat,
                      lines: seq<AnnLine>, gap: seq<AnnLine>, i: nat)
    requires ValidMatcher(o.matcher) && ValidBlocks(blocks, right, left) && n < |blocks| && |left| == |text|
    requires |lines| == RightEnd(blocks, n) <= i < RightEnd(blocks, n + 1) <= |left|
    requires NextGap(o, right, left, text, blocks, n, gap)
    ensures |gap| == blocks[n].right - |lines|
    ensures (lines + gap + left[blocks[n].right..RightEnd(blocks, n + 1)])[i]
            == Settled(o, right, left[i], Counterpart(o, right, left, text, blocks, n + 1, i))
  {
    var b := blocks[n];
    EndsInOrder(blocks, n, right, left);
    if i < b.right {
      InTheGap(o, right, left, text, blocks, n, gap, i);
    } else {
      assert right[b.left..b.left + b.size][i - b.right] == left[b.right..b.right + b.size][i - b.right];
    }
  }

  // ---------------------------------------------------------------------------------
  // Any number of parents

  ghost predicate AllLong(annos: seq<seq<AnnLine>>, n: nat) {
    forall p {:trigger annos[p]} | 0 <= p < |annos| :: |annos[p]| == n
  }

  /** The origins, other than the new revision, that the parents claim for line `i`. */
  ghost function Claims(annos: seq<seq<AnnLine>>, n: nat, rev: Key, i: nat): set<Key>
    requires AllLong(annos, n) && i < n
  {
    set p | 0 <= p < |annos| && annos[p][i].origin != rev :: annos[p][i].origin
  }

  /** With three parents or more a line goes to the one origin claimed, if there is just one. */
  ghost predicate Agreed(claims: set<Key>, rev: Key, origin: Key) {
    if |claims| == 1 then claims == {origin} else origin == rev
  }

  /** A parent claims the origin for line `i`, and no parent claims any other. */
  ghost predicate ClaimedAlone(annos: seq<seq<AnnLine>>, n: nat, rev: Key, i: nat, origin: Key)
    requires AllLong(annos, n) && i < n
  {
    && origin != rev
    && (exists p {:trigger annos[p]} :: 0 <= p < |annos| && annos[p][i].origin == origin)
    && forall p {:trigger annos[p]} | 0 <= p < |annos| :: annos[p][i].origin == origin || annos[p][i].origin == rev
  }

  lemma AloneIff(annos: seq<seq<AnnLine>>, n: nat, rev: Key, i: nat, origin: Key)
    requires AllLong(annos, n) && i < n
    ensures ClaimedAlone(annos, n, rev, i, origin) <==> Claims(annos, n, rev, i) == {origin}
  {
    var claims := Claims(annos, n, rev, i);
    if claims == {origin} {
      assert origin in claims;
      forall p | 0 <= p < |annos| ensures annos[p][i].origin == origin || annos[p][i].origin == rev {
        assert annos[p][i].origin != rev ==> annos[p][i].origin in claims;
      }
    }
    if ClaimedAlone(annos, n, rev, i, origin) {
      var p :| 0 <= p < |annos| && annos[p][i].origin == origin;
      assert origin in claims;
    }
  }

  /** The origin is the one that is claimed alone, or the new revision if there is none. */
  lemma AgreedIff(annos: seq<seq<AnnLine>>, n: nat, rev: Key, i: nat, origin: Key)
    requires AllLong(annos, n) && i < n
    ensures Agreed(Claims(annos, n, rev, i), rev, origin) <==>
              ClaimedAlone(annos, n, rev, i, origin)
              || (origin == rev && forall c {:trigger ClaimedAlone(annos, n, rev, i, c)} :: !ClaimedAlone(annos, n, rev, i, c))
  {
    var claims := Claims(annos, n, rev, i);
    forall c ensures ClaimedAlone(annos, n, rev, i, c) <==> claims == {c} {
      AloneIff(annos, n, rev, i, c);
    }
    if |claims| == 1 {
      var c :| c in claims;
      OneElement(claims, c);
      assert ClaimedAlone(annos, n, rev, i, c);
    }
  }

  method Agree(annos: seq<seq<AnnLine>>, ghost n: nat, rev: Key, i: nat) returns (r: AnnLine)
    requires |annos| > 0 && AllLong(annos, n) && i < n
    requires forall p {:trigger annos[p]} | 0 <= p < |annos| :: annos[p][i].text == annos[0][i].text
    ensures r.text == annos[0][i].text && Agreed(Claims(annos, n, rev, i), rev, r.origin)
  {
    var origins := set p | 0 <= p < |annos| :: annos[p][i].origin;
    assert Claims(annos, n, rev, i) == origins - {rev};
    assert annos[0][i].origin in origins;
    CountOthers(origins, rev);
    if |origins| == 1 {
      OneElement(origins, annos[0][i].origin);
      return annos[0][i];
    }
    var line := annos[0][i].text;
    if |origins| == 2 && rev in origins {
      origins := origins - {rev};
    }
    if |origins| == 1 {
      var origin :| origin in origins;
      OneElement(origins, origin);
      r := AnnLine(origin, line);
    } else {
      r := AnnLine(rev, line);
    }
  }

  lemma CountOthers<T>(s: set<T>, x: T)
    ensures |s - {x}| == if x in s then |s| - 1 else |s|
  {
    assert x !in s ==> s - {x} == s;
  }

  lemma OneElement<T>(s: set<T>, x: T)
    requires |s| == 1 && x in s
    ensures s == {x}
  {
    assert |s - {x}| == 0;
    assert s == (s - {x}) + {x};
  }

  /** What a parent alone makes of the text; the hint is about the first parent only. */
  ghost predicate FromAlone(o: Policy, parent: seq<AnnLine>, text: Text, hint: Option<seq<Block>>, lines: seq<AnnLine>) {
    var blocks := if hint.Some? then hint.value else o.matcher(Texts(parent), text);
    && |lines| == |text|
    && forall i {:trigger lines[i]} | 0 <= i < |text| :: lines[i] == FromParent(parent, text, o.rev, blocks, i)
  }

  ghost predicate AllAlone(o: Policy, parents: seq<seq<AnnLine>>, text: Text, hint: Option<seq<Block>>,
                           annos: seq<seq<AnnLine>>, n: nat) {
    && |annos| == n <= |parents|
    && forall p {:trigger annos[p]} | 0 <= p < n ::
         FromAlone(o, parents[p], text, if p == 0 then hint else None, annos[p])
  }

  /** The text is kept, and every origin is the new revision or a parent's for the same text. */
  ghost predicate Inherits(o: Policy, parents: seq<seq<AnnLine>>, line: Line, out: AnnLine) {
    out.text == line && (out.origin == o.rev || exists p, x :: 0 <= p < |parents| && 0 <= x < |parents[p]| && parents[p][x] == out)
  }

  ghost predicate ValidHint(parents: seq<seq<AnnLine>>, text: Text, hint: Option<seq<Block>>) {
    hint.Some? && |parents| > 0 ==> ValidBlocks(hint.value, Texts(parents[0]), text)
  }

  /** `reannotate` */
  method ReannotateText(o: Policy, parents: seq<seq<AnnLine>>, text: Text, hint: Option<seq<Block>>, ghost pm: ParentMap)
      returns (lines: seq<AnnLine>, ghost annos: seq<seq<AnnLine>>)
    requires ValidPolicy(o, pm) && ValidHint(parents, text, hint)
    ensures Texts(lines) == text
    ensures forall i {:trigger lines[i]} | 0 <= i < |lines| :: Inherits(o, parents, text[i], lines[i])
    ensures |parents| == 1 ==> FromAlone(o, parents[0], text, hint, lines)
    ensures |parents| == 2 ==>
              && AllAlone(o, parents, text, hint, annos, 1)
              && var blocks := o.lineMatcher(parents[1], annos[0]);
                 && ValidBlocks(blocks, parents[1], annos[0]) && AllSettled(o, parents[1], annos[0], text, blocks, |blocks|, lines)
                 && AllDecided(o, pm, parents[1], annos[0], text, blocks, lines)
    ensures |parents| > 2 ==>
              && AllAlone(o, parents, text, hint, annos, |parents|) && AllLong(annos, |lines|)
              && forall i {:trigger lines[i]} | 0 <= i < |lines| ::
                   Agreed(Claims(annos, |lines|, o.rev, i), o.rev, lines[i].origin)
  {
    annos := [];
    if |parents| == 0 {
      lines := Attributed(text, o.rev);
    } else if |parents| == 1 {
      lines := ReannotateAlone(o, parents[0], text, hint);
      InheritsAlone(o, parents, text, hint, 0, lines);
    } else if |parents| == 2 {
      var left := ReannotateAlone(o, parents[0], text, hint);
      InheritsAlone(o, parents, text, hint, 0, left);
      annos := [left];
      ghost var blocks;
      lines, blocks := ReannotateAnnotated(o, parents[1], text, left, pm);
      InheritsBoth(o, pm, parents, text, left, lines);
    } else {
      lines, annos := ReannotateMany(o, parents, text, hint);
    }
  }

  lemma InheritsAlone(o: Policy, parents: seq<seq<AnnLine>>, text: Text, hint: Option<seq<Block>>, p: nat, lines: seq<AnnLine>)
    requires ValidMatcher(o.matcher) && ValidHint(parents, text, hint) && p < |parents|
    requires FromAlone(o, parents[p], text, if p == 0 then hint else None, lines)
    ensures Texts(lines) == text
    ensures forall i {:trigger lines[i]} | 0 <= i < |lines| :: Inherits(o, parents, text[i], lines[i])
  {
    var blocks := if p == 0 && hint.Some? then hint.value else o.matcher(Texts(parents[p]), text);
    forall i | 0 <= i < |text| ensures Inherits(o, parents, text[i], lines[i]) {
      FromParentKeepsText(parents[p], text, o.rev, blocks, i);
    }
  }

  lemma InheritsBoth(o: Policy, pm: ParentMap, parents: seq<seq<AnnLine>>, text: Text, left: seq<AnnLine>, lines: seq<AnnLine>)
    requires ValidPolicy(o, pm) && |parents| == 2 && Texts(left) == text && |lines| == |text|
    requires forall i {:trigger left[i]} | 0 <= i < |left| :: Inherits(o, parents, text[i], left[i])
    requires var blocks := o.lineMatcher(parents[1], left);
             ValidBlocks(blocks, parents[1], left) && AllSettled(o, parents[1], left, text, blocks, |blocks|, lines)
    ensures AllDecided(o, pm, parents[1], left, text, o.lineMatcher(parents[1], left), lines)
    ensures Texts(lines) == text
    ensures forall i {:trigger lines[i]} | 0 <= i < |lines| :: Inherits(o, parents, text[i], lines[i])
  {
    var right := parents[1];
    var blocks := o.lineMatcher(right, left);
    forall i | 0 <= i < |text|
      ensures Inherits(o, parents, text[i], lines[i]) && DecidedAt(o, pm, right, left, text, blocks, lines, i)
    {
      assert Inherits(o, parents, text[i], left[i]);
      CounterpartHasText(o, right, left, text, blocks, |blocks|, i);
      var c := Counterpart(o, right, left, text, blocks, |blocks|, i);
      if c.Some? {
        ResolveGivesHead(o, pm, left[i], right[c.value]);
        assert right[c.value] == AnnLine(right[c.value].origin, text[i]);
        assert Inherits(o, parents, text[i], right[c.value]);
      }
    }
  }

  method ReannotateMany(o: Policy, parents: seq<seq<AnnLine>>, text: Text, hint: Option<seq<Block>>)
      returns (lines: seq<AnnLine>, ghost annos: seq<seq<AnnLine>>)
    requires ValidMatcher(o.matcher) && ValidHint(parents, text, hint) && |parents| > 0
    ensures Texts(lines) == text && AllAlone(o, parents, text, hint, annos, |parents|) && AllLong(annos, |lines|)
    ensures forall i {:trigger lines[i]} | 0 <= i < |lines| ::
              Inherits(o, parents, text[i], lines[i]) && Agreed(Claims(annos, |lines|, o.rev, i), o.rev, lines[i].origin)
  {
    var reannotations := ReannotateEach(o, parents, text, hint);
    annos := reannotations;
    lines := [];
    for i := 0 to |text|
      invariant |lines| == i
      invariant forall j {:trigger lines[j]} | 0 <= j < i ::
                  Inherits(o, parents, text[j], lines[j]) && Agreed(Claims(annos, |text|, o.rev, j), o.rev, lines[j].origin)
    {
      InheritsEach(o, parents, text, hint, annos, i);
      var line := Agree(reannotations, |text|, o.rev, i);
      InheritsAgreed(o, parents, text, annos, i, line);
      lines := lines + [line];
    }
  }

  method ReannotateEach(o: Policy, parents: seq<seq<AnnLine>>, text: Text, hint: Option<seq<Block>>)
      returns (annos: seq<seq<AnnLine>>)
    requires ValidMatcher(o.matcher) && ValidHint(parents, text, hint)
    ensures AllAlone(o, parents, text, hint, annos, |parents|) && AllLong(annos, |text|)
  {
    annos := [];
    for p := 0 to |parents|
      invariant AllAlone(o, parents, text, hint, annos, p)
    {
      var alone := ReannotateAlone(o, parents[p], text, if p == 0 then hint else None);
      NextAlone(o, parents, text, hint, annos, p, alone);
      annos := annos + [alone];
    }
    AloneIsLong(o, parents, text, hint, annos);
  }

  method ReannotateAlone(o: Policy, parent: seq<AnnLine>, text: Text, hint: Option<seq<Block>>) returns (lines: seq<AnnLine>)
    requires ValidMatcher(o.matcher) && (hint.Some? ==> ValidBlocks(hint.value, Texts(parent), text))
    ensures FromAlone(o, parent, text, hint, lines)
  {
    ghost var blocks;
    lines, blocks := ReannotateOne(parent, text, o.rev, hint, o.matcher);
  }

  lemma NextAlone(o: Policy, parents: seq<seq<AnnLine>>, text: Text, hint: Option<seq<Block>>, annos: seq<seq<AnnLine>>,
                  p: nat, alone: seq<AnnLine>)
    requires AllAlone(o, parents, text, hint, annos, p) && p < |parents|
    requires FromAlone(o, parents[p], text, if p == 0 then hint else None, alone)
    ensures AllAlone(o, parents, text, hint, annos + [alone], p + 1)
  {
    var more, next := annos + [alone], p + 1;
    forall q | 0 <= q < next ensures FromAlone(o, parents[q], text, if q == 0 then hint else None, more[q]) {
      if q < p {
        assert more[q] == annos[q];
      }
    }
  }

  lemma AloneIsLong(o: Policy, parents: seq<seq<AnnLine>>, text: Text, hint: Option<seq<Block>>, annos: seq<seq<AnnLine>>)
    requires AllAlone(o, parents, text, hint, annos, |parents|)
    ensures AllLong(annos, |text|)
  {
  }

  lemma InheritsEach(o: Policy, parents: seq<seq<AnnLine>>, text: Text, hint: Option<seq<Block>>, annos: seq<seq<AnnLine>>, i: nat)
    requires ValidMatcher(o.matcher) && ValidHint(parents, text, hint) && i < |text|
    requires AllAlone(o, parents, text, hint, annos, |parents|)
    ensures forall p {:trigger annos[p]} | 0 <= p < |annos| :: i < |annos[p]| && Inherits(o, parents, text[i], annos[p][i])
  {
    forall p | 0 <= p < |annos| ensures i < |annos[p]| && Inherits(o, parents, text[i], annos[p][i]) {
      InheritsAlone(o, parents, text, hint, p, annos[p]);
    }
  }

  lemma InheritsAgreed(o: Policy, parents: seq<seq<AnnLine>>, text: Text, annos: seq<seq<AnnLine>>, i: nat, line: AnnLine)
    requires |annos| > 0 && AllLong(annos, |text|) && i < |text| && line.text == text[i]
    requires forall p {:trigger annos[p]} | 0 <= p < |annos| :: Inherits(o, parents, text[i], annos[p][i])
    requires Agreed(Claims(annos, |text|, o.rev, i), o.rev, line.origin)
    ensures Inherits(o, parents, text[i], line)
  {
    if line.origin != o.rev {
      assert line.origin in Claims(annos, |text|, o.rev, i);
      var p :| 0 <= p < |annos| && annos[p][i].origin == line.origin;
      assert annos[p][i] == line;
    }
  }
}

/**
 Annotating new lines from the annotations of their parents, without a versioned file.
 With two parents the second is compared on annotated lines first, and on plain lines where
 those differ; with more, the parents have to agree.
 */
module Reannotate {
  import opened Wrappers
  import opened Keys
  import opened Dag
  import opened Blocks
  import opened Blame

  /** A line and the revision it is attributed to. */
  datatype AnnLine = AnnLine(origin: Key, text: Line)
  type LineMatcher = (seq<AnnLine>, seq<AnnLine>) -> seq<Block>

  /** What a call is given to settle attributions with. */
  datatype Policy = Policy(
    rev: Key,
    matcher: Matcher,
    lineMatcher: LineMatcher,
    heads: Option<set<Key> -> set<Key>>,
    tiebreaker: Option<(AnnLine, AnnLine) -> AnnLine>)

  /** The matchers are valid and the heads are those of an acyclic graph. */
  ghost predicate ValidPolicy(o: Policy, pm: ParentMap) {
    && ValidMatcher(o.matcher)
    && (forall a, b {:trigger o.lineMatcher(a, b)} :: ValidBlocks(o.lineMatcher(a, b), a, b))
    && Acyclic(pm)
    && (o.heads.Some? ==> forall s {:trigger o.heads.value(s)} :: o.heads.value(s) == Heads(pm, s))
    && (o.tiebreaker.Some? ==>
          forall a, b {:trigger o.tiebreaker.value(a, b)} :: o.tiebreaker.value(a, b) in {a, b})
  }

  function Texts(lines: seq<AnnLine>): (r: Text)
    ensures |r| == |lines| && forall i | 0 <= i < |r| :: r[i] == lines[i].text
  {
    seq(|lines|, i requires 0 <= i < |lines| => lines[i].text)
  }

  // ---------------------------------------------------------------------------------
  // One parent

  /** The line of the new text, attributed as in the parent where the blocks match it. */
  function FromParent(parent: seq<AnnLine>, text: Text, rev: Key, blocks: seq<Block>, i: nat): AnnLine
    requires i < |text|
  {
    match MatchOf(blocks, i)
    case None => AnnLine(rev, text[i])
    case Some(x) => if x < |parent| then parent[x] else AnnLine(rev, text[i])
  }

  /** Where block `n` begins to be reached: just after the block before it. */
  function LeftEnd(blocks: seq<Block>, n: nat): nat
    requires n <= |blocks|
  {
    if n == 0 then 0 else blocks[n - 1].left + blocks[n - 1].size
  }

  function RightEnd(blocks: seq<Block>, n: nat): nat
    requires n <= |blocks|
  {
    if n == 0 then 0 else blocks[n - 1].right + blocks[n - 1].size
  }

  lemma EndsInOrder<T>(blocks: seq<Block>, n: nat, first: seq<T>, second: seq<T>)
    requires ValidBlocks(blocks, first, second) && n < |blocks|
    ensures LeftEnd(blocks, n) <= blocks[n].left && blocks[n].left + blocks[n].size <= |first|
    ensures RightEnd(blocks, n) <= blocks[n].right && blocks[n].right + blocks[n].size <= |second|
    ensures first[blocks[n].left..blocks[n].left + blocks[n].size] == second[blocks[n].right..blocks[n].right + blocks[n].size]
    ensures RightEnd(blocks, |blocks|) == |second|
  {
    assert Agrees(blocks[n], first, second);
  }

  /** Between two blocks nothing matches, and in a block its own lines do. */
  lemma MatchAround<T>(blocks: seq<Block>, n: nat, i: nat, first: seq<T>, second: seq<T>)
    requires ValidBlocks(blocks, first, second) && n < |blocks|
    requires RightEnd(blocks, n) <= i < blocks[n].right + blocks[n].size
    ensures MatchOf(blocks, i) == if i < blocks[n].right then None else Some(blocks[n].left + (i - blocks[n].right))
  {
    assert blocks[..|blocks|] == blocks;
    if i < blocks[n].right {
      forall k | 0 <= k < |blocks| ensures !InBlock(blocks[k], i) {
        if k < n && n > 0 {
          assert k == n - 1 || blocks[k].right + blocks[k].size <= blocks[n - 1].right;
        }
      }
      MatchMisses(blocks, i);
    } else {
      MatchInBlock(blocks, |blocks|, n, i, first, second);
    }
  }

  /** A line in a block is the parent's line there, with its origin, and a line in none is new. */
  lemma FromParentIs(parent: seq<AnnLine>, text: Text, rev: Key, blocks: seq<Block>, i: nat)
    requires ValidBlocks(blocks, Texts(parent), text) && i < |text|
    ensures forall k | 0 <= k < |blocks| && blocks[k].right <= i < blocks[k].right + blocks[k].size ::
              var x := blocks[k].left + (i - blocks[k].right); x < |parent| && FromParent(parent, text, rev, blocks, i) == parent[x]
    ensures (forall k | 0 <= k < |blocks| :: !(blocks[k].right <= i < blocks[k].right + blocks[k].size)) ==>
              FromParent(parent, text, rev, blocks, i) == AnnLine(rev, text[i])
  {
    assert blocks[..|blocks|] == blocks;
    forall k | 0 <= k < |blocks| && blocks[k].right <= i < blocks[k].right + blocks[k].size
      ensures var x := blocks[k].left + (i - blocks[k].right); x < |parent| && FromParent(parent, text, rev, blocks, i) == parent[x]
    {
      assert Agrees(blocks[k], Texts(parent), text);
      MatchInBlock(blocks, |blocks|, k, i, Texts(parent), text);
    }
    if forall k | 0 <= k < |blocks| :: !(blocks[k].right <= i < blocks[k].right + blocks[k].size) {
      MatchMisses(blocks, i);
    }
  }

  /** `_reannotate` */
  method ReannotateOne(parent: seq<AnnLine>, text: Text, rev: Key, hint: Option<seq<Block>>, matcher: Matcher)
      returns (lines: seq<AnnLine>, ghost blocks: seq<Block>)
    requires ValidMatcher(matcher) && (hint.Some? ==> ValidBlocks(hint.value, Texts(parent), text))
    ensures blocks == if hint.Some? then hint.value else matcher(Texts(parent), text)
    ensures |lines| == |text| && forall i | 0 <= i < |text| :: lines[i] == FromParent(parent, text, rev, blocks, i)
    ensures ValidBlocks(blocks, Texts(parent), text)
  {
    var matching := if hint.Some? then hint.value else matcher(Texts(parent), text);
    blocks := matching;
    var newCur := 0;
    lines := [];
    for n := 0 to |matching|
      invariant newCur == RightEnd(matching, n) && AsInParent(parent, text, rev, matching, lines, newCur)
    {
      lines := AppendBlock(parent, text, rev, matching, n, newCur, lines);
      newCur := matching[n].right + matching[n].size;
    }
    EndsInOrder(matching, |matching| - 1, Texts(parent), text);
  }

  /** The new lines before a block, and the lines of the block. */
  method AppendBlock(parent: seq<AnnLine>, text: Text, rev: Key, matching: seq<Block>, n: nat, newCur: nat,
                     lines: seq<AnnLine>)
      returns (lines': seq<AnnLine>)
    requires ValidBlocks(matching, Texts(parent), text) && n < |matching|
    requires newCur == RightEnd(matching, n) && AsInParent(parent, text, rev, matching, lines, newCur)
    ensures AsInParent(parent, text, rev, matching, lines', matching[n].right + matching[n].size)
  {
    var b := matching[n];
    EndsInOrder(matching, n, Texts(parent), text);
    NextFromParent(parent, text, rev, matching, n, lines);
    lines' := lines + Attributed(text[newCur..b.right], rev) + parent[b.left..b.left + b.size];
  }

  /** The first `n` lines are attributed as in the parent. */
  ghost predicate AsInParent(parent: seq<AnnLine>, text: Text, rev: Key, blocks: seq<Block>, lines: seq<AnnLine>, n: nat) {
    && |lines| == n <= |text|
    && forall i {:trigger lines[i]} | 0 <= i < n :: lines[i] == FromParent(parent, text, rev, blocks, i)
  }

  lemma NextFromParent(parent: seq<AnnLine>, text: Text, rev: Key, blocks: seq<Block>, n: nat, lines: seq<AnnLine>)
    requires ValidBlocks(blocks, Texts(parent), text) && n < |blocks|
    requires AsInParent(parent, text, rev, blocks, lines, RightEnd(blocks, n))
    requires RightEnd(blocks, n) <= blocks[n].right && blocks[n].right + blocks[n].size <= |text|
    requires blocks[n].left + blocks[n].size <= |parent|
    ensures var b := blocks[n];
            AsInParent(parent, text, rev, blocks, lines + Attributed(text[RightEnd(blocks, n)..b.right], rev)
                                                  + parent[b.left..b.left + b.size], b.right + b.size)
  {
    var b, end := blocks[n], RightEnd(blocks, n);
    var lines' := lines + Attributed(text[end..b.right], rev) + parent[b.left..b.left + b.size];
    forall i | 0 <= i < b.right + b.size ensures lines'[i] == FromParent(parent, text, rev, blocks, i) {
      if i < end {
        assert lines'[i] == lines[i];
      } else {
        MatchAround(blocks, n, i, Texts(parent), text);
      }
    }
  }

  /** All lines attributed to `rev`. */
  function Attributed(text: Text, rev: Key): (r: seq<AnnLine>)
    ensures |r| == |text| && forall i | 0 <= i < |r| :: r[i] == AnnLine(rev, text[i])
  {
    seq(|text|, i requires 0 <= i < |text| => AnnLine(rev, text[i]))
  }

  /** A line of the parent that is used has the very text. */
  lemma FromParentKeepsText(parent: seq<AnnLine>, text: Text, rev: Key, blocks: seq<Block>, i: nat)
    requires ValidBlocks(blocks, Texts(parent), text) && i < |text|
    ensures FromParent(parent, text, rev, blocks, i).text == text[i]
    ensures FromParent(parent, text, rev, blocks, i).origin == rev || FromParent(parent, text, rev, blocks, i) in parent
  {
    assert blocks[..|blocks|] == blocks;
    MatchIsEqual(blocks, |blocks|, i, Texts(parent), text);
  }

  // ---------------------------------------------------------------------------------
  // Two parents that both claim a line

  /** Least of two annotated lines: by origin, then by text. */
  function LeastLine(a: AnnLine, b: AnnLine): AnnLine {
    if KeyLess(a.origin, b.origin) || (a.origin == b.origin && !StrLess(b.text, a.text)) then a else b
  }

  /** How a line attributed by both sides is attributed. */
  ghost function Resolve(o: Policy, left: AnnLine, right: AnnLine): AnnLine {
    if left.origin == right.origin then left
    else if left.origin == o.rev then right
    else
      match o.heads
      case None => AnnLine(o.rev, left.text)
      case Some(heads) =>
        var hs := heads({left.origin, right.origin});
        if left.origin in hs && right.origin in hs then
          match o.tiebreaker case None => LeastLine(left, right) case Some(choose) => choose(left, right)
        else if left.origin in hs then left else AnnLine(right.origin, left.text)
  }

  lemma HeadsOfTwo(pm: ParentMap, a: Key, b: Key)
    requires Acyclic(pm)
    ensures Heads(pm, {a, b}) <= {a, b}
    ensures a != b ==> (|Heads(pm, {a, b})| == 1 <==> !(a in Heads(pm, {a, b}) && b in Heads(pm, {a, b})))
    ensures Heads(pm, {a, b}) != {}
  {
    var hs := Heads(pm, {a, b});
    if hs == {} {
      var k := if a == NULL_REVISION then b else a;
      assert k in {a, b} - {NULL_REVISION};
      var h := HeadsDominate(pm, {a, b} - {NULL_REVISION}, k);
    }
    if a in hs && b in hs && a != b {
      assert hs == {a, b};
    } else if a in hs {
      assert hs == {a};
    } else {
      assert hs == {b};
    }
  }

  /** `sorted([left, right])[0]` or the head of the two, as the code does it. */
  method ResolveLine(o: Policy, left: AnnLine, right: AnnLine, ghost pm: ParentMap) returns (r: AnnLine)
    requires ValidPolicy(o, pm)
    ensures r == Resolve(o, left, right)
  {
    if left.origin == right.origin {
      return left;
    }
    if left.origin == o.rev {
      return right;
    }
    if o.heads.None? {
      return AnnLine(o.rev, left.text);
    }
    HeadsOfTwo(pm, left.origin, right.origin);
    var hs := o.heads.value({left.origin, right.origin});
    if |hs| == 1 {
      var head :| head in hs;
      assert forall x | x in hs :: x == head by {
        assert |hs - {head}| == 0;
      }
      r := AnnLine(head, left.text);
    } else if o.tiebreaker.None? {
      r := LeastLine(left, right);
    } else {
      r := o.tiebreaker.value(left, right);
    }
  }

  /**
   How a line is attributed that the left side has as `left` and the right side as `right`: what
   one side calls new is the other's; without heads a dispute goes to the new revision, and with
   them to a head, the least one unless a tie breaker chooses.
   */
  ghost predicate Decided(o: Policy, pm: ParentMap, left: AnnLine, right: AnnLine, line: AnnLine) {
    && line.text == left.text
    && (left.origin == o.rev ==> line.origin == right.origin)
    && (left.origin == right.origin ==> line.origin == left.origin)
    && (left.origin != o.rev && left.origin != right.origin ==>
          match o.heads
          case None => line.origin == o.rev
          case Some(_) =>
            var hs := Heads(pm, {left.origin, right.origin});
            && line.origin in hs
            && ({left.origin, right.origin} <= hs ==>
                  match o.tiebreaker
                  case None => !KeyLess(left.origin, line.origin) && !KeyLess(right.origin, line.origin)
                  case Some(choose) => line == choose(left, right)))
  }

  /** Neither side's claim to a line is dropped in favour of an ancestor or of the new revision. */
  lemma ResolveGivesHead(o: Policy, pm: ParentMap, left: AnnLine, right: AnnLine)
    requires ValidPolicy(o, pm) && left.text == right.text
    ensures Resolve(o, left, right).origin in {o.rev, left.origin, right.origin}
    ensures Decided(o, pm, left, right, Resolve(o, left, right))
  {
    HeadsOfTwo(pm, left.origin, right.origin);
    KeyOrder();
    assert !KeyLess(left.origin, left.origin) && !KeyLess(right.origin, right.origin);
    assert KeyLess(left.origin, right.origin) ==> !KeyLess(right.origin, left.origin);
  }

  /** The two sides may be swapped: repeated criss-cross merges settle on one attribution. */
  lemma ResolveIsStable(o: Policy, pm: ParentMap, left: AnnLine, right: AnnLine)
    requires ValidPolicy(o, pm) && left.text == right.text && o.tiebreaker.None?
    requires left.origin != o.rev && right.origin != o.rev
    ensures Resolve(o, left, right) == Resolve(o, right, left)
  {
    KeyOrder();
    HeadsOfTwo(pm, left.origin, right.origin);
    assert {left.origin, right.origin} == {right.origin, left.origin};
    assert left.origin == right.origin || KeyLess(left.origin, right.origin) || KeyLess(right.origin, left.origin);
    assert !(KeyLess(left.origin, right.origin) && KeyLess(right.origin, left.origin)) by {
      assert !KeyLess(left.origin, left.origin);
    }
  }
}

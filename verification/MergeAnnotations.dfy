/**
 Updating the annotations of a text in place from one parent after another, with the
 memo of the last pair merged, and why the result is the closed form.
 */
module MergeAnnotations {
  import opened Wrappers
  import opened Keys
  import opened Dag
  import opened Blocks
  import opened Blame

  // ---------------------------------------------------------------------------------
  // What one parent does to one line

  /** The annotation of a line that also matches a parent that annotates it `par`. */
  ghost function Merge(ann: Annotation, par: Annotation, thisAnnotation: Annotation): Annotation {
    if ann == par then ann
    else if ann == thisAnnotation then par
    else SortedSet(SetOf(ann) + SetOf(par))
  }

  /** The same for a line that need not match the parent. */
  ghost function Merged(ann: Annotation, par: seq<Annotation>, thisAnnotation: Annotation, blocks: seq<Block>, i: nat)
    : Annotation
  {
    MergedFrom(ann, par, thisAnnotation, MatchOf(blocks, i))
  }

  ghost function MergedFrom(ann: Annotation, par: seq<Annotation>, thisAnnotation: Annotation, x: Option<nat>): Annotation {
    if x.Some? && x.value < |par| then Merge(ann, par[x.value], thisAnnotation) else ann
  }

  ghost predicate MergedAt(before: seq<Annotation>, now: seq<Annotation>, par: seq<Annotation>,
                           thisAnnotation: Annotation, blocks: seq<Block>, i: int) {
    0 <= i < |before| && i < |now| ==> now[i] == Merged(before[i], par, thisAnnotation, blocks, i)
  }

  /** `now` is `before` merged with the annotations `par` of a parent along the given blocks. */
  ghost predicate MergedWith(before: seq<Annotation>, now: seq<Annotation>, par: seq<Annotation>,
                             thisAnnotation: Annotation, blocks: seq<Block>) {
    && |now| == |before|
    && forall i {:trigger MergedAt(before, now, par, thisAnnotation, blocks, i)} ::
         MergedAt(before, now, par, thisAnnotation, blocks, i)
  }

  lemma NothingMerged(before: seq<Annotation>, par: seq<Annotation>, thisAnnotation: Annotation, blocks: seq<Block>)
    ensures MergedWith(before, before, par, thisAnnotation, blocks[..0])
  {
  }

  /** The next block matches its own lines, which no earlier block has, and no others. */
  lemma NextBlock<T>(blocks: seq<Block>, n: nat, i: nat, first: seq<T>, second: seq<T>)
    requires ValidBlocks(blocks, first, second) && n < |blocks| && i < |second|
    ensures InBlock(blocks[n], i) ==>
              MatchOf(blocks[..n], i) == None
              && MatchOf(blocks[..n + 1], i) == Some(blocks[n].left + (i - blocks[n].right))
    ensures !InBlock(blocks[n], i) ==> MatchOf(blocks[..n + 1], i) == MatchOf(blocks[..n], i)
  {
    assert blocks[..n + 1][..n] == blocks[..n];
    if InBlock(blocks[n], i) {
      forall k | 0 <= k < n ensures !InBlock(blocks[..n][k], i) {
        assert blocks[k].right + blocks[k].size <= blocks[n].right;
      }
      MatchMisses(blocks[..n], i);
    }
  }

  ghost predicate LineMerged(now: seq<Annotation>, now': seq<Annotation>, par: seq<Annotation>,
                             thisAnnotation: Annotation, b: Block, d: nat, i: int) {
    0 <= i < |now| && i < |now'| && b.left + d <= |par| ==>
      now'[i] == if b.right <= i < b.right + d then Merge(now[i], par[b.left + (i - b.right)], thisAnnotation)
                 else now[i]
  }

  /** The first `d` lines of block `b` have been merged. */
  ghost predicate BlockMerged(now: seq<Annotation>, now': seq<Annotation>, par: seq<Annotation>,
                              thisAnnotation: Annotation, b: Block, d: nat) {
    && |now'| == |now|
    && forall i {:trigger LineMerged(now, now', par, thisAnnotation, b, d, i)} ::
         LineMerged(now, now', par, thisAnnotation, b, d, i)
  }

  /** Merging into an annotation that begins as `thisAnnotation`, as a function of the two annotations. */
  type Merger = (Annotation, Annotation) -> Annotation

  ghost predicate MergesAs(f: Merger, thisAnnotation: Annotation, ann: Annotation, par: Annotation) {
    f(ann, par) == Merge(ann, par, thisAnnotation)
  }

  ghost predicate IsMerger(f: Merger, thisAnnotation: Annotation) {
    forall ann, par {:trigger MergesAs(f, thisAnnotation, ann, par)} :: MergesAs(f, thisAnnotation, ann, par)
  }

  lemma SomeMerger(thisAnnotation: Annotation) returns (f: Merger)
    ensures IsMerger(f, thisAnnotation)
  {
    f := (ann, par) => Merge(ann, par, thisAnnotation);
  }

  /** Element `j` of `merged` is the value of line `j` of block `b`, merged. */
  ghost predicate MergedLine(now: seq<Annotation>, par: seq<Annotation>, f: Merger, b: Block, merged: seq<Annotation>, j: nat)
    requires b.right + b.size <= |now| && b.left + b.size <= |par| && |merged| <= b.size
  {
    j < |merged| ==> merged[j] == f(now[b.right + j], par[b.left + j])
  }

  ghost predicate MergedLines(now: seq<Annotation>, par: seq<Annotation>, f: Merger, b: Block, merged: seq<Annotation>) {
    && |merged| == b.size && b.right + b.size <= |now| && b.left + b.size <= |par|
    && forall j: nat {:trigger MergedLine(now, par, f, b, merged, j)} :: MergedLine(now, par, f, b, merged, j)
  }

  lemma LinesToMerge(now: seq<Annotation>, par: seq<Annotation>, f: Merger, b: Block) returns (merged: seq<Annotation>)
    requires b.right + b.size <= |now| && b.left + b.size <= |par|
    ensures MergedLines(now, par, f, b, merged)
  {
    merged := seq(b.size, j requires 0 <= j < b.size => f(now[b.right + j], par[b.left + j]));
  }

  /** `now` with the values `merged` from position `at` on. */
  ghost function Spliced(now: seq<Annotation>, at: nat, merged: seq<Annotation>): seq<Annotation>
    requires at + |merged| <= |now|
  {
    now[..at] + merged + now[at + |merged|..]
  }

  lemma SplicedNext(now: seq<Annotation>, at: nat, merged: seq<Annotation>, d: nat, next: nat)
    requires at + |merged| <= |now| && d < next == d + 1 <= |merged|
    ensures Spliced(now, at, merged[..d])[at + d := merged[d]] == Spliced(now, at, merged[..next])
  {
  }

  lemma SplicedIsMerged(now: seq<Annotation>, par: seq<Annotation>, thisAnnotation: Annotation, f: Merger, b: Block,
                        merged: seq<Annotation>)
    requires MergedLines(now, par, f, b, merged) && IsMerger(f, thisAnnotation)
    ensures BlockMerged(now, Spliced(now, b.right, merged), par, thisAnnotation, b, b.size)
  {
    var after := Spliced(now, b.right, merged);
    forall i ensures LineMerged(now, after, par, thisAnnotation, b, b.size, i) {
      SplicedLine(now, par, thisAnnotation, f, b, merged, i);
    }
  }

  lemma SplicedLine(now: seq<Annotation>, par: seq<Annotation>, thisAnnotation: Annotation, f: Merger, b: Block,
                    merged: seq<Annotation>, i: int)
    requires MergedLines(now, par, f, b, merged) && IsMerger(f, thisAnnotation)
    ensures LineMerged(now, Spliced(now, b.right, merged), par, thisAnnotation, b, b.size, i)
  {
    if 0 <= i < |now| {
      if b.right <= i < b.right + b.size {
        assert MergedLine(now, par, f, b, merged, i - b.right);
        assert MergesAs(f, thisAnnotation, now[i], par[b.left + (i - b.right)]);
        assert Spliced(now, b.right, merged)[i] == merged[i - b.right];
      } else {
        assert Spliced(now, b.right, merged)[i] == now[i];
      }
    }
  }

  lemma NextLine(now: seq<Annotation>, par: seq<Annotation>, f: Merger, b: Block, merged: seq<Annotation>,
                 annSub: seq<Annotation>, parSub: seq<Annotation>, d: nat)
    requires MergedLines(now, par, f, b, merged) && d < b.size
    requires annSub == now[b.right..b.right + b.size] && parSub == par[b.left..b.left + b.size]
    ensures Spliced(now, b.right, merged[..d])[b.right + d := f(annSub[d], parSub[d])]
            == Spliced(now, b.right, merged[..d + 1])
  {
    assert annSub[d] == now[b.right + d] && parSub[d] == par[b.left + d];
    assert MergedLine(now, par, f, b, merged, d);
    SplicedNext(now, b.right, merged, d, d + 1);
  }

  lemma MergeNextBlock<T>(before: seq<Annotation>, now: seq<Annotation>, now': seq<Annotation>, par: seq<Annotation>,
                          thisAnnotation: Annotation, blocks: seq<Block>, n: nat, first: seq<T>, second: seq<T>)
    requires ValidBlocks(blocks, first, second) && n < |blocks| && |before| == |second| && |par| == |first|
    requires MergedWith(before, now, par, thisAnnotation, blocks[..n]) && Agrees(blocks[n], first, second)
    requires BlockMerged(now, now', par, thisAnnotation, blocks[n], blocks[n].size)
    ensures MergedWith(before, now', par, thisAnnotation, blocks[..n + 1])
  {
    var after_n := blocks[..n + 1];
    forall i ensures MergedAt(before, now', par, thisAnnotation, after_n, i) {
      if 0 <= i < |before| {
        MergeNextAt(before, now, now', par, thisAnnotation, blocks, n, first, second, i);
      }
    }
  }

  lemma MergeNextAt<T>(before: seq<Annotation>, now: seq<Annotation>, now': seq<Annotation>, par: seq<Annotation>,
                       thisAnnotation: Annotation, blocks: seq<Block>, n: nat, first: seq<T>, second: seq<T>, i: nat)
    requires ValidBlocks(blocks, first, second) && n < |blocks| && |before| == |second| && |par| == |first|
    requires MergedWith(before, now, par, thisAnnotation, blocks[..n]) && Agrees(blocks[n], first, second)
    requires BlockMerged(now, now', par, thisAnnotation, blocks[n], blocks[n].size) && i < |before|
    ensures MergedAt(before, now', par, thisAnnotation, blocks[..n + 1], i)
  {
    assert MergedAt(before, now, par, thisAnnotation, blocks[..n], i);
    assert LineMerged(now, now', par, thisAnnotation, blocks[n], blocks[n].size, i);
    NextBlock(blocks, n, i, first, second);
    NextMerged(before[i], now[i], now'[i], par, thisAnnotation, blocks[n], i,
               MatchOf(blocks[..n], i), MatchOf(blocks[..n + 1], i));
  }

  lemma NextMerged(before: Annotation, now: Annotation, now': Annotation, par: seq<Annotation>, thisAnnotation: Annotation,
                   b: Block, i: nat, x: Option<nat>, x': Option<nat>)
    requires now == MergedFrom(before, par, thisAnnotation, x) && b.left + b.size <= |par|
    requires if InBlock(b, i) then x == None && x' == Some(b.left + (i - b.right)) else x' == x
    requires now' == if InBlock(b, i) then Merge(now, par[b.left + (i - b.right)], thisAnnotation) else now
    ensures now' == MergedFrom(before, par, thisAnnotation, x')
  {
  }

  /** On a text that is still unattributed, merging is copying. */
  method UpdateFromFirstParent<T>(annotations: array<Annotation>, par: seq<Annotation>, blocks: seq<Block>,
                                  ghost thisAnnotation: Annotation, ghost first: seq<T>, ghost second: seq<T>)
    requires ValidBlocks(blocks, first, second) && annotations.Length == |second| && |par| == |first|
    requires forall i | 0 <= i < annotations.Length :: annotations[i] == thisAnnotation
    modifies annotations
    ensures MergedWith(old(annotations[..]), annotations[..], par, thisAnnotation, blocks)
  {
    ghost var before := annotations[..];
    NothingMerged(before, par, thisAnnotation, blocks);
    for n := 0 to |blocks|
      invariant MergedWith(before, annotations[..], par, thisAnnotation, blocks[..n])
    {
      ghost var now := annotations[..];
      assert Agrees(blocks[n], first, second);
      CopyBlock(annotations, par, blocks[n]);
      CopyIsMerge(before, now, annotations[..], par, thisAnnotation, blocks, n, first, second);
      MergeNextBlock(before, now, annotations[..], par, thisAnnotation, blocks, n, first, second);
    }
    assert blocks[..|blocks|] == blocks;
  }

  lemma CopyIsMerge<T>(before: seq<Annotation>, now: seq<Annotation>, now': seq<Annotation>, par: seq<Annotation>,
                       thisAnnotation: Annotation, blocks: seq<Block>, n: nat, first: seq<T>, second: seq<T>)
    requires ValidBlocks(blocks, first, second) && n < |blocks| && |before| == |second| && |par| == |first|
    requires Agrees(blocks[n], first, second) && forall i | 0 <= i < |before| :: before[i] == thisAnnotation
    requires MergedWith(before, now, par, thisAnnotation, blocks[..n]) && |now'| == |now|
    requires var b := blocks[n];
             forall i | 0 <= i < |now| :: now'[i] == if InBlock(b, i) then par[b.left + (i - b.right)] else now[i]
    ensures BlockMerged(now, now', par, thisAnnotation, blocks[n], blocks[n].size)
  {
    var before_n := blocks[..n];
    forall i | 0 <= i < |now| && InBlock(blocks[n], i) ensures now[i] == thisAnnotation {
      NextBlock(blocks, n, i, first, second);
      assert MergedAt(before, now, par, thisAnnotation, before_n, i);
    }
  }

  method CopyBlock(annotations: array<Annotation>, par: seq<Annotation>, b: Block)
    requires b.right + b.size <= annotations.Length && b.left + b.size <= |par|
    modifies annotations
    ensures forall i | 0 <= i < annotations.Length ::
              annotations[i] == if InBlock(b, i) then par[b.left + (i - b.right)] else old(annotations[i])
  {
    for d := 0 to b.size
      invariant forall i | 0 <= i < annotations.Length ::
                  annotations[i] == if b.right <= i < b.right + d then par[b.left + (i - b.right)]
                                    else old(annotations[i])
    {
      annotations[b.right + d] := par[b.left + d];
    }
  }

  /** `tuple(sorted(set(a) | set(b)))` */
  method SortedUnion(a: Annotation, b: Annotation) returns (r: Annotation)
    ensures r == SortedSet(SetOf(a) + SetOf(b))
  {
    var union := (set k | k in a) + set k | k in b;
    var listed := ListOf(union);
    assert union == SetOf(a) + SetOf(b);
    KeyOrder();
    SortedCanonical(KeyLess, listed, SeqOf(SetOf(a) + SetOf(b)));
    r := Sorted(KeyLess, listed);
  }

  /** The last pair that was merged, and what it came to. */
  datatype Memo = Memo(ann: Annotation, par: Annotation, res: Annotation)

  ghost predicate MemoCorrect(memo: Option<Memo>) {
    memo.Some? ==> memo.value.res == SortedSet(SetOf(memo.value.ann) + SetOf(memo.value.par))
  }

  /** Merge one line, through the memo. */
  method MergeLine(ann: Annotation, par: Annotation, thisAnnotation: Annotation, memo: Option<Memo>)
      returns (r: Annotation, memo': Option<Memo>)
    requires MemoCorrect(memo)
    ensures MemoCorrect(memo') && r == Merge(ann, par, thisAnnotation)
  {
    memo' := memo;
    if ann == par {
      r := ann;
    } else if ann == thisAnnotation {
      r := par;
    } else if memo.Some? && ann == memo.value.ann && par == memo.value.par {
      r := memo.value.res;
    } else {
      r := SortedUnion(ann, par);
      memo' := Some(Memo(ann, par, r));
    }
  }

  method UpdateFromOtherParents<T>(annotations: array<Annotation>, par: seq<Annotation>, blocks: seq<Block>,
                                   thisAnnotation: Annotation, ghost first: seq<T>, ghost second: seq<T>)
    requires ValidBlocks(blocks, first, second) && annotations.Length == |second| && |par| == |first|
    modifies annotations
    ensures MergedWith(old(annotations[..]), annotations[..], par, thisAnnotation, blocks)
  {
    ghost var before := annotations[..];
    var memo: Option<Memo> := None;
    NothingMerged(before, par, thisAnnotation, blocks);
    for n := 0 to |blocks|
      invariant MemoCorrect(memo)
      invariant MergedWith(before, annotations[..], par, thisAnnotation, blocks[..n])
    {
      ghost var now := annotations[..];
      assert Agrees(blocks[n], first, second);
      memo := MergeBlock(annotations, par, blocks[n], thisAnnotation, memo);
      MergeNextBlock(before, now, annotations[..], par, thisAnnotation, blocks, n, first, second);
    }
    assert blocks[..|blocks|] == blocks;
  }

  /** The lines of one block, skipped when the parent already agrees on all of them. */
  method MergeBlock(annotations: array<Annotation>, par: seq<Annotation>, b: Block, thisAnnotation: Annotation,
                    memo: Option<Memo>) returns (memo': Option<Memo>)
    requires b.right + b.size <= annotations.Length && b.left + b.size <= |par| && MemoCorrect(memo)
    modifies annotations
    ensures MemoCorrect(memo')
    ensures BlockMerged(old(annotations[..]), annotations[..], par, thisAnnotation, b, b.size)
  {
    memo' := memo;
    var annSub := annotations[b.right..b.right + b.size];
    var parSub := par[b.left..b.left + b.size];
    if annSub == parSub {
      EqualIsMerged(annotations[..], par, thisAnnotation, b);
    } else {
      memo' := MergeLines(annotations, par, annSub, parSub, b, thisAnnotation, memo);
    }
  }

  /** The lines of a block, one after another. */
  method MergeLines(annotations: array<Annotation>, ghost par: seq<Annotation>, annSub: seq<Annotation>,
                    parSub: seq<Annotation>, b: Block, thisAnnotation: Annotation, memo: Option<Memo>)
      returns (memo': Option<Memo>)
    requires b.right + b.size <= annotations.Length && b.left + b.size <= |par| && MemoCorrect(memo)
    requires annSub == annotations[b.right..b.right + b.size] && parSub == par[b.left..b.left + b.size]
    modifies annotations
    ensures MemoCorrect(memo')
    ensures BlockMerged(old(annotations[..]), annotations[..], par, thisAnnotation, b, b.size)
  {
    memo' := memo;
    ghost var now := annotations[..];
    ghost var f := SomeMerger(thisAnnotation);
    ghost var merged := LinesToMerge(now, par, f, b);
    assert Spliced(now, b.right, merged[..0]) == now;
    for d := 0 to b.size
      invariant MemoCorrect(memo') && annotations[..] == Spliced(now, b.right, merged[..d])
    {
      NextLine(now, par, f, b, merged, annSub, parSub, d);
      var ann;
      ann, memo' := MergeLineAs(annSub[d], parSub[d], thisAnnotation, memo', f);
      Put(annotations, b.right + d, ann);
    }
    assert merged[..b.size] == merged;
    SplicedIsMerged(now, par, thisAnnotation, f, b, merged);
  }

  method MergeLineAs(ann: Annotation, par: Annotation, thisAnnotation: Annotation, memo: Option<Memo>, ghost f: Merger)
      returns (r: Annotation, memo': Option<Memo>)
    requires MemoCorrect(memo) && IsMerger(f, thisAnnotation)
    ensures MemoCorrect(memo') && r == f(ann, par)
  {
    r, memo' := MergeLine(ann, par, thisAnnotation, memo);
    assert MergesAs(f, thisAnnotation, ann, par);
  }

  method Put(annotations: array<Annotation>, i: nat, ann: Annotation)
    requires i < annotations.Length
    modifies annotations
    ensures annotations[..] == old(annotations[..])[i := ann]
  {
    annotations[i] := ann;
  }

  lemma EqualIsMerged(now: seq<Annotation>, par: seq<Annotation>, thisAnnotation: Annotation, b: Block)
    requires b.right + b.size <= |now| && b.left + b.size <= |par|
    requires now[b.right..b.right + b.size] == par[b.left..b.left + b.size]
    ensures BlockMerged(now, now, par, thisAnnotation, b, b.size)
  {
    forall i ensures LineMerged(now, now, par, thisAnnotation, b, b.size, i) {
      if 0 <= i < |now| && InBlock(b, i) {
        EqualInBlock(now, par, b, i);
      }
    }
  }

  lemma EqualInBlock(now: seq<Annotation>, par: seq<Annotation>, b: Block, i: nat)
    requires b.right + b.size <= |now| && b.left + b.size <= |par| && InBlock(b, i)
    requires now[b.right..b.right + b.size] == par[b.left..b.left + b.size]
    ensures now[i] == par[b.left + (i - b.right)]
  {
    assert now[b.right..b.right + b.size][i - b.right] == par[b.left..b.left + b.size][i - b.right];
  }

  // ---------------------------------------------------------------------------------
  // Parent after parent comes to the closed form

  /** The annotation of line `i` once the first `n` parents have been taken into account. */
  ghost function Partial(h: History, m: Matcher, k: Key, n: nat, i: nat): Annotation
    requires Grounded(h.parents, k) && n <= |Parents(h.parents, k)|
  {
    var inherited := Inherited(h, m, k, i, SetOf(Parents(h.parents, k)[..n]));
    if inherited == {} then [k] else SortedSet(inherited)
  }

  lemma PartialStart(h: History, m: Matcher, k: Key, i: nat)
    requires Grounded(h.parents, k)
    ensures Partial(h, m, k, 0, i) == [k]
  {
    assert SetOf(Parents(h.parents, k)[..0]) == {};
    assert Inherited(h, m, k, i, {}) == {};
  }

  lemma PartialEnd(h: History, m: Matcher, k: Key, i: nat)
    requires Grounded(h.parents, k) && i < |TextOf(h, k)|
    ensures Partial(h, m, k, |Parents(h.parents, k)|, i) == AnnotationOf(h, m, k)[i]
  {
    assert Parents(h.parents, k)[..|Parents(h.parents, k)|] == Parents(h.parents, k);
    SortedSetSingle(k);
  }

  lemma InheritedGrows(h: History, m: Matcher, k: Key, n: nat, i: nat)
    requires Grounded(h.parents, k) && n < |Parents(h.parents, k)|
    ensures Grounded(h.parents, Parents(h.parents, k)[n])
    ensures var ps := Parents(h.parents, k);
            var x := MatchLine(h, m, ps[n], k, i);
            Inherited(h, m, k, i, SetOf(ps[..n + 1]))
            == Inherited(h, m, k, i, SetOf(ps[..n])) + if x.Some? then Origins(h, m, ps[n], x.value) else {}
  {
    AllParentsGrounded(h.parents, k);
    var ps := Parents(h.parents, k);
    assert SetOf(ps[..n + 1]) == SetOf(ps[..n]) + {ps[n]} by {
      assert ps[..n + 1] == ps[..n] + [ps[n]];
    }
  }

  /** The text's own key is no origin of a line of its parents. */
  lemma NotInherited(h: History, m: Matcher, k: Key, n: nat, i: nat)
    requires Acyclic(h.parents) && Grounded(h.parents, k) && n <= |Parents(h.parents, k)|
    ensures k !in Inherited(h, m, k, i, SetOf(Parents(h.parents, k)[..n]))
  {
    AllParentsGrounded(h.parents, k);
    if k in Inherited(h, m, k, i, SetOf(Parents(h.parents, k)[..n])) {
      var p :| p in Parents(h.parents, k) && MatchLine(h, m, p, k, i).Some?
            && k in Origins(h, m, p, MatchLine(h, m, p, k, i).value);
      OriginIsAncestor(h, m, p, MatchLine(h, m, p, k, i).value, k);
      ParentThenAncestor(h.parents, k, p, k);
    }
  }

  lemma MergeUnion(before: set<Key>, added: set<Key>, k: Key)
    requires added != {} && k !in before
    ensures Merge(if before == {} then [k] else SortedSet(before), SortedSet(added), [k]) == SortedSet(before + added)
  {
    if before == {} {
      assert before + added == added;
    } else {
      SortedSetIs(before);
      SortedSetIs(added);
      MergeDistinct(SortedSet(before), SortedSet(added), before, added, k);
    }
  }

  lemma MergeDistinct(ann: Annotation, par: Annotation, before: set<Key>, added: set<Key>, k: Key)
    requires SetOf(ann) == before && SetOf(par) == added && k !in before
    requires par == SortedSet(added)
    ensures Merge(ann, par, [k]) == SortedSet(before + added)
  {
    assert k in SetOf([k]);
    if ann == par {
      assert before + added == added;
    }
  }

  /** Merging in the annotation of the next parent keeps the closed form. */
  lemma PartialStep(h: History, m: Matcher, k: Key, n: nat, i: nat)
    requires Acyclic(h.parents) && Grounded(h.parents, k) && n < |Parents(h.parents, k)|
    ensures var p := Parents(h.parents, k)[n];
            var x := MatchLine(h, m, p, k, i);
            Grounded(h.parents, p) &&
            Partial(h, m, k, n + 1, i) ==
              if x.None? then Partial(h, m, k, n, i)
              else Merge(Partial(h, m, k, n, i), SortedSet(Origins(h, m, p, x.value)), [k])
  {
    var ps := Parents(h.parents, k);
    InheritedGrows(h, m, k, n, i);
    var x := MatchLine(h, m, ps[n], k, i);
    if x.Some? {
      OriginsNonEmpty(h, m, ps[n], x.value);
      PartialMatched(h, m, k, n, n + 1, i, Origins(h, m, ps[n], x.value));
    } else {
      PartialUnmatched(h, m, k, n, n + 1, i);
    }
  }

  lemma PartialUnmatched(h: History, m: Matcher, k: Key, n: nat, next: nat, i: nat)
    requires Grounded(h.parents, k) && n < next == n + 1 <= |Parents(h.parents, k)|
    requires Inherited(h, m, k, i, SetOf(Parents(h.parents, k)[..next]))
             == Inherited(h, m, k, i, SetOf(Parents(h.parents, k)[..n]))
    ensures Partial(h, m, k, next, i) == Partial(h, m, k, n, i)
  {
  }

  lemma PartialMatched(h: History, m: Matcher, k: Key, n: nat, next: nat, i: nat, added: set<Key>)
    requires Acyclic(h.parents) && Grounded(h.parents, k) && n < next == n + 1 <= |Parents(h.parents, k)| && added != {}
    requires Inherited(h, m, k, i, SetOf(Parents(h.parents, k)[..next]))
             == Inherited(h, m, k, i, SetOf(Parents(h.parents, k)[..n])) + added
    ensures Partial(h, m, k, next, i) == Merge(Partial(h, m, k, n, i), SortedSet(added), [k])
  {
    NotInherited(h, m, k, n, i);
    MergeUnion(Inherited(h, m, k, i, SetOf(Parents(h.parents, k)[..n])), added, k);
  }
}

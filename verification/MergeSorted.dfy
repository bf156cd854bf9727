/** Walking merge-sorted revisions from a start to a stop, without what the start has not merged. */
module MergeSorted {
  import opened Sequences
  import opened Wrappers
  import opened Keys
  import opened Dag

  datatype MergeNode = MergeNode(key: Key, depth: nat, revno: seq<nat>, endOfMerge: bool)

  ghost predicate InOrder(pm: ParentMap, nodes: seq<MergeNode>, i: int, j: int) {
    0 <= i < |nodes| && 0 <= j < |nodes| ==>
      && (i != j ==> nodes[i].key != nodes[j].key)
      && (nodes[j].key in Parents(pm, nodes[i].key) ==> i < j)
      && (nodes[i].depth == 0 && i < j ==> StrictAncestor(pm, nodes[j].key, nodes[i].key))
  }

  ghost predicate Has(nodes: seq<MergeNode>, k: Key) {
    exists i :: 0 <= i < |nodes| && nodes[i].key == k
  }

  /**
   The contract of the merge sort of a tip's ancestry: each revision once, children before
   parents, with every present parent, and after a mainline revision only its ancestors.
   */
  ghost predicate IsMergeSorted(pm: ParentMap, nodes: seq<MergeNode>) {
    && (forall i, j {:trigger InOrder(pm, nodes, i, j)} :: InOrder(pm, nodes, i, j))
    && (forall i {:trigger nodes[i]} | 0 <= i < |nodes| :: nodes[i].key in pm)
    && (forall i, p {:trigger p in pm[nodes[i].key]} | 0 <= i < |nodes| && p in pm[nodes[i].key] && p in pm :: Has(nodes, p))
  }

  /** The nodes that are `start` or its ancestors, in order. */
  ghost function AncestorsIn(pm: ParentMap, start: Key, nodes: seq<MergeNode>): seq<MergeNode> {
    if |nodes| == 0 then []
    else
      var last := nodes[|nodes| - 1];
      AncestorsIn(pm, start, nodes[..|nodes| - 1]) + if AncestorOrSelf(pm, last.key, start) then [last] else []
  }

  /** The present ancestors of a revision come after it in the sorted list. */
  lemma {:induction false} AncestorComesLater(pm: ParentMap, nodes: seq<MergeNode>, i: nat, a: Key, n: nat) returns (j: nat)
    requires IsMergeSorted(pm, nodes) && i < |nodes| && Steps(pm, nodes[i].key, a, n) && a in pm
    ensures i + n <= j < |nodes| && nodes[j].key == a
    decreases n
  {
    if n == 0 {
      j := i;
    } else {
      var p :| p in Parents(pm, nodes[i].key) && Steps(pm, p, a, n - 1);
      if n > 1 {
        var q :| q in Parents(pm, p) && Steps(pm, q, a, n - 2);
      }
      assert Has(nodes, p);
      var k :| 0 <= k < |nodes| && nodes[k].key == p;
      assert InOrder(pm, nodes, i, k);
      j := AncestorComesLater(pm, nodes, k, a, n - 1);
    }
  }

  /** `p` is a parent of an ancestor of revision `s` that comes before position `i`. */
  ghost predicate ParentOfKept(pm: ParentMap, nodes: seq<MergeNode>, s: nat, i: nat, p: Key)
    requires s < i <= |nodes|
  {
    exists j {:trigger nodes[j]} ::
      s <= j < i && AncestorOrSelf(pm, nodes[j].key, nodes[s].key) && p in Parents(pm, nodes[j].key)
  }

  /** A revision is an ancestor of an earlier one exactly if one between them leads to it. */
  lemma ParentOfKeptIff(pm: ParentMap, nodes: seq<MergeNode>, s: nat, i: nat)
    requires IsMergeSorted(pm, nodes) && s < i < |nodes|
    ensures ParentOfKept(pm, nodes, s, i, nodes[i].key) <==> AncestorOrSelf(pm, nodes[i].key, nodes[s].key)
  {
    var r, start := nodes[i].key, nodes[s].key;
    assert InOrder(pm, nodes, s, i);
    if ParentOfKept(pm, nodes, s, i, r) {
      var j :| s <= j < i && AncestorOrSelf(pm, nodes[j].key, start) && r in Parents(pm, nodes[j].key);
      ParentIsAncestor(pm, r, nodes[j].key);
      if nodes[j].key != start {
        AncestorTransitive(pm, r, nodes[j].key, start);
      }
    }
    if AncestorOrSelf(pm, r, start) {
      var n: nat :| n > 0 && Steps(pm, start, r, n);
      var c := AncestorViaChild(pm, r, start, n);
      var j := AncestorComesLater(pm, nodes, s, c, n - 1);
      assert InOrder(pm, nodes, j, i);
      assert s <= j < i && AncestorOrSelf(pm, nodes[j].key, start) && r in Parents(pm, nodes[j].key);
    }
  }

  // ---------------------------------------------------------------------------------
  // Leaving out what is not merged into the start

  ghost predicate DistinctKeys(revs: seq<MergeNode>) {
    forall i, j {:trigger revs[i], revs[j]} | 0 <= i < j < |revs| :: revs[i].key != revs[j].key
  }

  /** Once number `j` is kept, so is number `i`: as its parent, or as anything after a mainline revision. */
  ghost predicate LeadsTo(pm: ParentMap, revs: seq<MergeNode>, j: nat, i: nat)
    requires j < |revs| && i < |revs|
  {
    revs[i].key in Parents(pm, revs[j].key) || revs[j].depth == 0
  }

  /** The first is kept, and what a kept one leads to. */
  ghost predicate KeptAt(pm: ParentMap, revs: seq<MergeNode>, i: nat)
    requires i < |revs|
    decreases i
  {
    i == 0 || exists j: nat {:trigger KeptAt(pm, revs, j)} :: j < i && KeptAt(pm, revs, j) && LeadsTo(pm, revs, j, i)
  }

  /** What is kept of the first `n`. */
  ghost function Remaining(pm: ParentMap, revs: seq<MergeNode>, n: nat): seq<MergeNode>
    requires n <= |revs|
  {
    if n == 0 then [] else Remaining(pm, revs, n - 1) + if KeptAt(pm, revs, n - 1) then [revs[n - 1]] else []
  }

  /** Some revision kept before position `i` leads to everything after it. */
  ghost predicate MainlineKept(pm: ParentMap, revs: seq<MergeNode>, i: nat)
    requires i <= |revs|
  {
    exists j: nat {:trigger KeptAt(pm, revs, j)} :: j < i && KeptAt(pm, revs, j) && revs[j].depth == 0
  }

  /** `p` is a parent of a revision kept before position `i`. */
  ghost predicate Wanted(pm: ParentMap, revs: seq<MergeNode>, i: nat, p: Key)
    requires i <= |revs|
  {
    exists j: nat {:trigger KeptAt(pm, revs, j)} :: j < i && KeptAt(pm, revs, j) && p in Parents(pm, revs[j].key)
  }

  /** The whitelist is right about what is still to come. */
  ghost predicate Whitelisted(pm: ParentMap, revs: seq<MergeNode>, i: nat, whitelist: set<Key>)
    requires i <= |revs|
  {
    forall k: nat {:trigger WhitelistedAt(pm, revs, i, whitelist, k)} | i <= k < |revs| :: WhitelistedAt(pm, revs, i, whitelist, k)
  }

  ghost predicate WhitelistedAt(pm: ParentMap, revs: seq<MergeNode>, i: nat, whitelist: set<Key>, k: nat)
    requires i <= k < |revs|
  {
    revs[k].key in whitelist <==> Wanted(pm, revs, i, revs[k].key)
  }

  lemma KeptIff(pm: ParentMap, revs: seq<MergeNode>, i: nat)
    requires 0 < i < |revs|
    ensures KeptAt(pm, revs, i) <==> MainlineKept(pm, revs, i) || Wanted(pm, revs, i, revs[i].key)
  {
    if KeptAt(pm, revs, i) {
      var j: nat :| j < i && KeptAt(pm, revs, j) && LeadsTo(pm, revs, j, i);
      assert KeptAt(pm, revs, j);
    }
    if MainlineKept(pm, revs, i) {
      var j: nat :| j < i && KeptAt(pm, revs, j) && revs[j].depth == 0;
      assert LeadsTo(pm, revs, j, i);
    }
    if Wanted(pm, revs, i, revs[i].key) {
      var j: nat :| j < i && KeptAt(pm, revs, j) && revs[i].key in Parents(pm, revs[j].key);
      assert LeadsTo(pm, revs, j, i);
    }
  }

  lemma MainlineNext(pm: ParentMap, revs: seq<MergeNode>, i: nat, next: nat)
    requires i < next == i + 1 <= |revs|
    ensures MainlineKept(pm, revs, next) <==> MainlineKept(pm, revs, i) || (KeptAt(pm, revs, i) && revs[i].depth == 0)
  {
    if MainlineKept(pm, revs, i) {
      var j: nat :| j < i && KeptAt(pm, revs, j) && revs[j].depth == 0;
      assert j < next && KeptAt(pm, revs, j);
    }
  }

  lemma WantedNext(pm: ParentMap, revs: seq<MergeNode>, i: nat, next: nat, p: Key)
    requires i < next == i + 1 <= |revs|
    ensures Wanted(pm, revs, next, p) <==> Wanted(pm, revs, i, p) || (KeptAt(pm, revs, i) && p in Parents(pm, revs[i].key))
  {
    if Wanted(pm, revs, i, p) {
      var j: nat :| j < i && KeptAt(pm, revs, j) && p in Parents(pm, revs[j].key);
      assert j < next && KeptAt(pm, revs, j);
    }
  }

  lemma WhitelistNext(pm: ParentMap, revs: seq<MergeNode>, i: nat, next: nat, whitelist: set<Key>, whitelist': set<Key>)
    requires i < next == i + 1 <= |revs| && DistinctKeys(revs) && Whitelisted(pm, revs, i, whitelist)
    requires whitelist' == if KeptAt(pm, revs, i) then whitelist - {revs[i].key} + (set p | p in Parents(pm, revs[i].key)) else whitelist
    ensures Whitelisted(pm, revs, next, whitelist')
  {
    forall k: nat | next <= k < |revs| ensures WhitelistedAt(pm, revs, next, whitelist', k) {
      assert WhitelistedAt(pm, revs, i, whitelist, k);
      WantedNext(pm, revs, i, next, revs[k].key);
      assert revs[i].key != revs[k].key;
    }
  }

  /** Before position `i`: what is kept is out, and the whitelist decides about the rest unless all of it is kept. */
  ghost predicate Filtering(pm: ParentMap, revs: seq<MergeNode>, i: nat, out: seq<MergeNode>, clean: bool,
                            whitelist: set<Key>) {
    && 0 < i <= |revs| && out == Remaining(pm, revs, i)
    && (clean <==> MainlineKept(pm, revs, i))
    && (!clean ==> Whitelisted(pm, revs, i, whitelist))
  }

  lemma FilterStart(pm: ParentMap, revs: seq<MergeNode>, whitelist: set<Key>)
    requires |revs| > 0 && DistinctKeys(revs) && revs[0].depth != 0
    requires whitelist == set p | p in Parents(pm, revs[0].key)
    ensures Filtering(pm, revs, 1, [revs[0]], false, whitelist)
  {
    assert Remaining(pm, revs, 0) == [];
    forall k: nat | k < |revs| ensures WhitelistedAt(pm, revs, 0, {}, k) {}
    WhitelistNext(pm, revs, 0, 1, {}, {} - {revs[0].key} + whitelist);
    MainlineNext(pm, revs, 0, 1);
  }

  lemma FilterNext(pm: ParentMap, revs: seq<MergeNode>, i: nat, out: seq<MergeNode>, clean: bool, whitelist: set<Key>)
    requires Filtering(pm, revs, i, out, clean, whitelist) && i < |revs| && DistinctKeys(revs)
    ensures var rev := revs[i];
            if clean then Filtering(pm, revs, i + 1, out + [rev], true, whitelist)
            else if rev.key in whitelist then
              Filtering(pm, revs, i + 1, out + [rev], rev.depth == 0, whitelist - {rev.key} + set p | p in Parents(pm, rev.key))
            else Filtering(pm, revs, i + 1, out, false, whitelist)
  {
    KeptIff(pm, revs, i);
    MainlineNext(pm, revs, i, i + 1);
    if !clean {
      assert WhitelistedAt(pm, revs, i, whitelist, i);
      WhitelistNext(pm, revs, i, i + 1, whitelist,
                    if KeptAt(pm, revs, i) then whitelist - {revs[i].key} + (set p | p in Parents(pm, revs[i].key)) else whitelist);
    }
  }

  lemma {:induction false} AllRemain(pm: ParentMap, revs: seq<MergeNode>, n: nat)
    requires n <= |revs| && forall i: nat {:trigger KeptAt(pm, revs, i)} | i < n :: KeptAt(pm, revs, i)
    ensures Remaining(pm, revs, n) == revs[..n]
  {
    if n > 0 {
      AllRemain(pm, revs, n - 1);
      assert KeptAt(pm, revs, n - 1) && revs[..n] == revs[..n - 1] + [revs[n - 1]];
    }
  }

  lemma {:induction false} FirstRemains(pm: ParentMap, revs: seq<MergeNode>, n: nat)
    requires 0 < n <= |revs| && forall i: nat {:trigger KeptAt(pm, revs, i)} | 0 < i < n :: !KeptAt(pm, revs, i)
    ensures Remaining(pm, revs, n) == [revs[0]]
  {
    if n > 1 {
      FirstRemains(pm, revs, n - 1);
      assert !KeptAt(pm, revs, n - 1);
    } else {
      assert Remaining(pm, revs, 0) == [];
    }
  }

  lemma {:induction false} OnlyFirstKept(pm: ParentMap, revs: seq<MergeNode>, i: nat)
    requires 0 < i < |revs| && revs[0].depth != 0 && Parents(pm, revs[0].key) == []
    ensures !KeptAt(pm, revs, i)
    decreases i
  {
    forall j: nat | 0 < j < i ensures !KeptAt(pm, revs, j) {
      OnlyFirstKept(pm, revs, j);
    }
  }

  /** Numbers `x` and `y` of the result stand in the list from `a` on, in this order. */
  ghost predicate PickedAt(nodes: seq<MergeNode>, a: nat, out: seq<MergeNode>, x: nat, y: nat) {
    x < y < |out| ==> exists i, j {:trigger nodes[i], nodes[j]} :: a <= i < j < |nodes| && nodes[i] == out[x] && nodes[j] == out[y]
  }

  /** Part of the list from `a` on, in its order. */
  ghost predicate Picked(nodes: seq<MergeNode>, a: nat, out: seq<MergeNode>) {
    && a <= |nodes| && (forall n | n in out :: n in nodes[a..])
    && forall x: nat, y: nat {:trigger PickedAt(nodes, a, out, x, y)} :: PickedAt(nodes, a, out, x, y)
  }

  lemma {:induction false} RemainingFrom(pm: ParentMap, revs: seq<MergeNode>, n: nat, x: nat) returns (i: nat)
    requires n <= |revs| && x < |Remaining(pm, revs, n)|
    ensures i < n && revs[i] == Remaining(pm, revs, n)[x]
  {
    var before := Remaining(pm, revs, n - 1);
    if x < |before| {
      i := RemainingFrom(pm, revs, n - 1, x);
    } else {
      i := n - 1;
    }
  }

  lemma {:induction false} RemainingInOrder(pm: ParentMap, revs: seq<MergeNode>, n: nat, x: nat, y: nat) returns (i: nat, j: nat)
    requires n <= |revs| && x < y < |Remaining(pm, revs, n)|
    ensures i < j < n && revs[i] == Remaining(pm, revs, n)[x] && revs[j] == Remaining(pm, revs, n)[y]
  {
    var before := Remaining(pm, revs, n - 1);
    if y < |before| {
      i, j := RemainingInOrder(pm, revs, n - 1, x, y);
    } else {
      i := RemainingFrom(pm, revs, n - 1, x);
      j := n - 1;
    }
  }

  lemma RemainingIsPicked(pm: ParentMap, revs: seq<MergeNode>)
    ensures Picked(revs, 0, Remaining(pm, revs, |revs|))
  {
    var out := Remaining(pm, revs, |revs|);
    assert revs[0..] == revs;
    forall n | n in out ensures n in revs {
      var x :| 0 <= x < |out| && out[x] == n;
      var i := RemainingFrom(pm, revs, |revs|, x);
    }
    forall x: nat, y: nat ensures PickedAt(revs, 0, out, x, y) {
      if x < y < |out| {
        var i, j := RemainingInOrder(pm, revs, |revs|, x, y);
        assert revs[i] == out[x] && revs[j] == out[y];
      }
    }
  }

  /**
   Told by the result alone: the first is in it, and any other exactly if a revision before it that
   is in it has it as a parent or is on the mainline.
   */
  ghost predicate YieldsWhatFollows(pm: ParentMap, revs: seq<MergeNode>, out: seq<MergeNode>) {
    forall i {:trigger revs[i]} | 0 <= i < |revs| ::
      revs[i] in out <==>
        i == 0 || exists j {:trigger revs[j]} ::
          0 <= j < i && revs[j] in out && (revs[i].key in Parents(pm, revs[j].key) || revs[j].depth == 0)
  }

  lemma {:induction false} RemainingMember(pm: ParentMap, revs: seq<MergeNode>, n: nat, i: nat)
    requires DistinctKeys(revs) && n <= |revs| && i < |revs|
    ensures revs[i] in Remaining(pm, revs, n) <==> i < n && KeptAt(pm, revs, i)
  {
    if n > 0 {
      RemainingMember(pm, revs, n - 1, i);
      assert revs[i] == revs[n - 1] ==> i == n - 1;
    }
  }

  lemma RemainingFollows(pm: ParentMap, revs: seq<MergeNode>)
    requires DistinctKeys(revs)
    ensures YieldsWhatFollows(pm, revs, Remaining(pm, revs, |revs|))
  {
    var out := Remaining(pm, revs, |revs|);
    forall i: nat | i < |revs| ensures revs[i] in out <==> KeptAt(pm, revs, i) {
      RemainingMember(pm, revs, |revs|, i);
    }
    forall i | 0 <= i < |revs|
      ensures revs[i] in out <==>
                i == 0 || exists j {:trigger revs[j]} ::
                  0 <= j < i && revs[j] in out && (revs[i].key in Parents(pm, revs[j].key) || revs[j].depth == 0)
    {
      if i > 0 && KeptAt(pm, revs, i) {
        var j: nat :| j < i && KeptAt(pm, revs, j) && LeadsTo(pm, revs, j, i);
        assert revs[j] in out;
      }
      if j :| 0 <= j < i && revs[j] in out && (revs[i].key in Parents(pm, revs[j].key) || revs[j].depth == 0) {
        assert KeptAt(pm, revs, j) && LeadsTo(pm, revs, j, i);
      }
    }
  }

  /** `_filter_start_non_ancestors` */
  method FilterStartNonAncestors(pm: ParentMap, revs: seq<MergeNode>) returns (out: seq<MergeNode>)
    requires DistinctKeys(revs)
    ensures out == Remaining(pm, revs, |revs|)
    ensures YieldsWhatFollows(pm, revs, out) && Picked(revs, 0, out)
  {
    RemainingFollows(pm, revs);
    RemainingIsPicked(pm, revs);
    if |revs| == 0 {
      return [];
    }
    var first := revs[0];
    if first.depth == 0 {
      forall i: nat | i < |revs| ensures KeptAt(pm, revs, i) {
        assert KeptAt(pm, revs, 0) && LeadsTo(pm, revs, 0, i);
      }
      AllRemain(pm, revs, |revs|);
      return revs;
    }
    var parents := if first.key in pm then pm[first.key] else [];
    if |parents| == 0 {
      forall i: nat | 0 < i < |revs| ensures !KeptAt(pm, revs, i) {
        OnlyFirstKept(pm, revs, i);
      }
      FirstRemains(pm, revs, |revs|);
      return [first];
    }
    out := FilterRest(pm, revs, parents);
  }

  method FilterRest(pm: ParentMap, revs: seq<MergeNode>, parents: seq<Key>) returns (out: seq<MergeNode>)
    requires |revs| > 0 && DistinctKeys(revs) && revs[0].depth != 0 && parents == Parents(pm, revs[0].key)
    ensures out == Remaining(pm, revs, |revs|)
  {
    var clean := false;
    var whitelist: set<Key> := set p | p in parents;
    out := [revs[0]];
    FilterStart(pm, revs, whitelist);
    for i := 1 to |revs|
      invariant Filtering(pm, revs, i, out, clean, whitelist)
    {
      var rev := revs[i];
      FilterNext(pm, revs, i, out, clean, whitelist);
      if !clean {
        if rev.key in whitelist {
          var more := Parents(pm, rev.key);
          whitelist := whitelist - {rev.key} + set p | p in more;
          clean := rev.depth == 0;
        } else {
          continue;
        }
      }
      out := out + [rev];
    }
  }

  // ---------------------------------------------------------------------------------
  // What is kept are the ancestors of the start

  /** Part of a merge-sorted list: what comes after a mainline revision is an ancestor of it. */
  ghost predicate Orderly(pm: ParentMap, revs: seq<MergeNode>) {
    forall i, j {:trigger InOrder(pm, revs, i, j)} :: InOrder(pm, revs, i, j)
  }

  /** An ancestor of the first has one before it that leads to it. */
  ghost predicate ChainedAt(pm: ParentMap, revs: seq<MergeNode>, i: nat)
    requires i < |revs|
  {
    exists j: nat {:trigger LeadsTo(pm, revs, j, i)} ::
      j < i && AncestorOrSelf(pm, revs[j].key, revs[0].key) && LeadsTo(pm, revs, j, i)
  }

  ghost predicate Chained(pm: ParentMap, revs: seq<MergeNode>) {
    forall i: nat {:trigger ChainedAt(pm, revs, i)} |
      0 < i < |revs| && AncestorOrSelf(pm, revs[i].key, revs[0].key) :: ChainedAt(pm, revs, i)
  }

  lemma {:induction false} KeptIsAncestor(pm: ParentMap, revs: seq<MergeNode>, i: nat)
    requires Orderly(pm, revs) && i < |revs| && KeptAt(pm, revs, i)
    ensures AncestorOrSelf(pm, revs[i].key, revs[0].key)
    decreases i
  {
    if i > 0 {
      var j: nat :| j < i && KeptAt(pm, revs, j) && LeadsTo(pm, revs, j, i);
      KeptIsAncestor(pm, revs, j);
      assert InOrder(pm, revs, j, i);
      if revs[i].key in Parents(pm, revs[j].key) {
        ParentIsAncestor(pm, revs[i].key, revs[j].key);
      }
      if revs[j].key != revs[0].key {
        AncestorTransitive(pm, revs[i].key, revs[j].key, revs[0].key);
      }
    }
  }

  lemma {:induction false} AncestorIsKept(pm: ParentMap, revs: seq<MergeNode>, i: nat)
    requires Chained(pm, revs) && i < |revs| && AncestorOrSelf(pm, revs[i].key, revs[0].key)
    ensures KeptAt(pm, revs, i)
    decreases i
  {
    if i > 0 {
      assert ChainedAt(pm, revs, i);
      var j: nat :| j < i && AncestorOrSelf(pm, revs[j].key, revs[0].key) && LeadsTo(pm, revs, j, i);
      AncestorIsKept(pm, revs, j);
    }
  }

  ghost predicate KeptRight(pm: ParentMap, revs: seq<MergeNode>, i: nat)
    requires i < |revs|
  {
    KeptAt(pm, revs, i) <==> AncestorOrSelf(pm, revs[i].key, revs[0].key)
  }

  /** Equal lists of what is kept and of the ancestors keep the same. */
  lemma {:induction false} RemainingIff(pm: ParentMap, revs: seq<MergeNode>, n: nat)
    requires Orderly(pm, revs) && n <= |revs| && |revs| > 0
    ensures var kept, ancestors := Remaining(pm, revs, n), AncestorsIn(pm, revs[0].key, revs[..n]);
            && |kept| <= |ancestors|
            && (|kept| == |ancestors| <==> forall i: nat {:trigger KeptRight(pm, revs, i)} | i < n :: KeptRight(pm, revs, i))
            && (|kept| == |ancestors| ==> kept == ancestors)
  {
    if n > 0 {
      var last := n - 1;
      RemainingIff(pm, revs, last);
      assert revs[..n][..last] == revs[..last];
      if KeptAt(pm, revs, last) {
        KeptIsAncestor(pm, revs, last);
      }
      var kept, ancestor := KeptAt(pm, revs, last), AncestorOrSelf(pm, revs[last].key, revs[0].key);
      assert Remaining(pm, revs, n) == Remaining(pm, revs, last) + if kept then [revs[last]] else [];
      assert AncestorsIn(pm, revs[0].key, revs[..n])
             == AncestorsIn(pm, revs[0].key, revs[..last]) + if ancestor then [revs[last]] else [];
      assert KeptRight(pm, revs, last) <==> (kept <==> ancestor);
    }
  }

  /** Exactly the ancestors of the first are kept, if and only if they hang together. */
  lemma KeepsAncestorsIff(pm: ParentMap, revs: seq<MergeNode>)
    requires Orderly(pm, revs) && |revs| > 0
    ensures Remaining(pm, revs, |revs|) == AncestorsIn(pm, revs[0].key, revs) <==> Chained(pm, revs)
  {
    assert revs[..|revs|] == revs;
    RemainingIff(pm, revs, |revs|);
    if Chained(pm, revs) {
      forall i: nat | i < |revs| ensures KeptRight(pm, revs, i) {
        if KeptAt(pm, revs, i) { KeptIsAncestor(pm, revs, i); }
        if AncestorOrSelf(pm, revs[i].key, revs[0].key) { AncestorIsKept(pm, revs, i); }
      }
    }
    if forall i: nat | i < |revs| :: KeptRight(pm, revs, i) {
      forall i: nat | 0 < i < |revs| && AncestorOrSelf(pm, revs[i].key, revs[0].key) ensures ChainedAt(pm, revs, i) {
        assert KeptRight(pm, revs, i);
        var j: nat :| j < i && KeptAt(pm, revs, j) && LeadsTo(pm, revs, j, i);
        KeptIsAncestor(pm, revs, j);
      }
    }
  }

  // ---------------------------------------------------------------------------------
  // The stretch between start and stop

  datatype StopRule = Exclude | Include | WithMerges | WithoutCommonAncestry

  /** The first position of a revision, or the length if it is not there. */
  function PositionOf(nodes: seq<MergeNode>, k: Key): (i: nat)
    ensures i <= |nodes| && (i < |nodes| ==> nodes[i].key == k)
    ensures forall j {:trigger nodes[j]} | 0 <= j < i :: nodes[j].key != k
  {
    if |nodes| == 0 then 0
    else
      var i := PositionOf(nodes[..|nodes| - 1], k);
      if i < |nodes| - 1 || nodes[|nodes| - 1].key == k then i else |nodes|
  }

  method SkipTo(nodes: seq<MergeNode>, k: Key) returns (i: nat)
    ensures i == PositionOf(nodes, k)
  {
    i := 0;
    while i < |nodes| && nodes[i].key != k
      invariant i <= PositionOf(nodes, k)
    {
      i := i + 1;
    }
  }

  function LeftParent(pm: ParentMap, k: Key): Key {
    if |Parents(pm, k)| > 0 then Parents(pm, k)[0] else NULL_REVISION
  }

  /** `find_unique_ancestors`, which belongs to another component: what `a` has and `b` has not. */
  ghost predicate FindsUnique(pm: ParentMap, unique: (Key, Key) -> set<Key>) {
    forall a, b, k {:trigger k in unique(a, b)} ::
      k in unique(a, b) <==> k in pm && AncestorOrSelf(pm, k, a) && !AncestorOrSelf(pm, k, b)
  }

  /** The nodes that are `start` or its ancestors, but not `stop` or its ancestors, in order. */
  ghost function OwnAncestors(pm: ParentMap, start: Key, stop: Key, nodes: seq<MergeNode>): seq<MergeNode> {
    if |nodes| == 0 then []
    else
      var last := nodes[|nodes| - 1];
      OwnAncestors(pm, start, stop, nodes[..|nodes| - 1])
      + if AncestorOrSelf(pm, last.key, start) && !AncestorOrSelf(pm, last.key, stop) then [last] else []
  }

  /**
   What is kept of the list from the start on: up to the stop, without or with it; or with
   the stop also what it merged, which ends before its left parent; or what the start has and
   the stop has not.
   */
  ghost function Kept(pm: ParentMap, rest: seq<MergeNode>, start: Option<Key>, stop: Option<Key>, rule: StopRule)
    : seq<MergeNode>
  {
    if stop.None? then rest
    else
      var n := PositionOf(rest, stop.value);
      match rule
      case Exclude => rest[..n]
      case Include => if n < |rest| then rest[..n + 1] else rest
      case WithMerges => Merges(pm, rest[..PositionOf(rest, LeftParent(pm, stop.value))], stop.value)
      case WithoutCommonAncestry => if start.Some? then OwnAncestors(pm, start.value, stop.value, rest) else []
  }

  /** All up to `stop`, and then its ancestors. A revision without parents merges nothing and stops nothing. */
  ghost function Merges(pm: ParentMap, nodes: seq<MergeNode>, stop: Key): seq<MergeNode> {
    var n := PositionOf(nodes, stop);
    if n < |nodes| && Parents(pm, stop) != [] then nodes[..n + 1] + AncestorsIn(pm, stop, nodes[n + 1..]) else nodes
  }

  lemma PositionIs(nodes: seq<MergeNode>, k: Key, i: nat)
    requires i <= |nodes| && (i < |nodes| ==> nodes[i].key == k)
    requires forall j {:trigger nodes[j]} | 0 <= j < i :: nodes[j].key != k
    ensures PositionOf(nodes, k) == i
  {
  }

  /** `_filter_merge_sorted_revisions` */
  method FilterMergeSortedRevisions(pm: ParentMap, nodes: seq<MergeNode>, start: Option<Key>, stop: Option<Key>,
                                    rule: StopRule, unique: (Key, Key) -> set<Key>)
      returns (out: seq<MergeNode>, ghost a: nat)
    requires IsMergeSorted(pm, nodes) && FindsUnique(pm, unique)
    requires stop.Some? && rule.WithMerges? ==> stop.value in pm
    requires stop.Some? && rule.WithoutCommonAncestry? ==> start.Some?
    ensures a == if start.None? then 0 else PositionOf(nodes, start.value)
    ensures out == Kept(pm, nodes[a..], start, stop, rule)
    ensures Picked(nodes, a, out) && KeepsExactly(pm, nodes, a, start, stop, rule, out)
  {
    var i := 0;
    if start.Some? {
      i := SkipTo(nodes, start.value);
    }
    a := i;
    if stop.None? {
      out := nodes[i..];
    } else {
      match rule
      case WithMerges => out := FilterWithMerges(pm, nodes, i, stop.value);
      case WithoutCommonAncestry => out := FilterOwn(pm, nodes[i..], start.value, stop.value, unique(start.value, stop.value));
      case _ => out := FilterUpTo(nodes[i..], stop.value, rule.Include?);
    }
    KeptIsPicked(pm, nodes, a, start, stop, rule);
    KeptExactly(pm, nodes, a, start, stop, rule);
  }

  method FilterUpTo(rest: seq<MergeNode>, stop: Key, inclusive: bool) returns (out: seq<MergeNode>)
    ensures var n := PositionOf(rest, stop);
            out == if inclusive && n < |rest| then rest[..n + 1] else rest[..n]
  {
    out := [];
    for i := 0 to |rest|
      invariant out == rest[..i] && i <= PositionOf(rest, stop)
    {
      if !inclusive && rest[i].key == stop {
        return;
      }
      assert rest[..i + 1] == rest[..i] + [rest[i]];
      out := out + [rest[i]];
      if inclusive && rest[i].key == stop {
        return;
      }
    }
  }

  method FilterOwn(pm: ParentMap, rest: seq<MergeNode>, ghost start: Key, ghost stop: Key, ancestors: set<Key>)
      returns (out: seq<MergeNode>)
    requires forall i {:trigger rest[i]} | 0 <= i < |rest| :: rest[i].key in pm
    requires forall k {:trigger k in ancestors} ::
               k in ancestors <==> k in pm && AncestorOrSelf(pm, k, start) && !AncestorOrSelf(pm, k, stop)
    ensures out == OwnAncestors(pm, start, stop, rest)
  {
    out := [];
    for i := 0 to |rest|
      invariant out == OwnAncestors(pm, start, stop, rest[..i])
    {
      assert rest[..i + 1][..i] == rest[..i];
      if rest[i].key in ancestors {
        out := out + [rest[i]];
      }
    }
    assert rest[..|rest|] == rest;
  }

  // ---------------------------------------------------------------------------------
  // What the stop merged

  /** The parents of what was kept from the stop on. */
  ghost predicate Merged(pm: ParentMap, nodes: seq<MergeNode>, s: nat, i: nat, whitelist: seq<Key>)
    requires s < i <= |nodes|
  {
    forall p {:trigger p in whitelist} :: p in whitelist <==> ParentOfKept(pm, nodes, s, i, p)
  }

  /** Before position `i`: all is kept up to the stop at `s`, and after it what the stop merged. */
  ghost predicate Stopping(pm: ParentMap, nodes: seq<MergeNode>, a: nat, s: nat, i: nat, stop: Key, out: seq<MergeNode>,
                           reached: bool, whitelist: seq<Key>) {
    && a <= i <= |nodes|
    && (forall j {:trigger nodes[j]} | a <= j < i :: nodes[j].key != LeftParent(pm, stop))
    && if reached then
         && a <= s < i && nodes[s].key == stop && Parents(pm, stop) != []
         && out == nodes[a..s + 1] + AncestorsIn(pm, stop, nodes[s + 1..i]) && Merged(pm, nodes, s, i, whitelist)
       else
         && out == nodes[a..i] && whitelist == []
         && (Parents(pm, stop) != [] ==> forall j {:trigger nodes[j]} | a <= j < i :: nodes[j].key != stop)
  }

  method FilterWithMerges(pm: ParentMap, nodes: seq<MergeNode>, a: nat, stop: Key) returns (out: seq<MergeNode>)
    requires IsMergeSorted(pm, nodes) && a <= |nodes| && stop in pm
    ensures out == Merges(pm, nodes[a..][..PositionOf(nodes[a..], LeftParent(pm, stop))], stop)
  {
    var leftParent := if |pm[stop]| > 0 then pm[stop][0] else NULL_REVISION;
    var reached := false;
    var whitelist: seq<Key> := [];
    ghost var s: nat := a;
    out := [];
    for i := a to |nodes|
      invariant Stopping(pm, nodes, a, s, i, stop, out, reached, whitelist)
    {
      var rev := nodes[i].key;
      if rev == leftParent {
        StoppedAt(pm, nodes, a, s, i, stop, out, reached, whitelist);
        return;
      }
      s, out, reached, whitelist := KeepOrDrop(pm, nodes, a, s, i, stop, out, reached, whitelist);
    }
    StoppedAt(pm, nodes, a, s, |nodes|, stop, out, reached, whitelist);
  }

  /** The rest of the loop's body: a node that is not the left parent of the stop. */
  method KeepOrDrop(pm: ParentMap, nodes: seq<MergeNode>, ghost a: nat, ghost s: nat, i: nat, stop: Key, out: seq<MergeNode>,
                    reached: bool, whitelist: seq<Key>)
      returns (ghost s': nat, out': seq<MergeNode>, reached': bool, whitelist': seq<Key>)
    requires IsMergeSorted(pm, nodes) && Stopping(pm, nodes, a, s, i, stop, out, reached, whitelist) && i < |nodes|
    requires nodes[i].key != LeftParent(pm, stop) && nodes[i].key in pm
    ensures Stopping(pm, nodes, a, s', i + 1, stop, out', reached', whitelist')
  {
    var rev := nodes[i].key;
    KeepNext(pm, nodes, a, s, i, stop, out, reached, whitelist);
    s', out', reached', whitelist' := s, out, reached, whitelist;
    if !reached || rev in whitelist {
      out' := out + [nodes[i]];
      if reached || rev == stop {
        if |pm[rev]| > 0 {
          s' := if reached then s else i;
          reached', whitelist' := true, whitelist + pm[rev];
        } else {
          assert whitelist + pm[rev] == whitelist;
        }
      }
    }
  }

  /** One more node. */
  lemma KeepNext(pm: ParentMap, nodes: seq<MergeNode>, a: nat, s: nat, i: nat, stop: Key, out: seq<MergeNode>,
                 reached: bool, whitelist: seq<Key>)
    requires IsMergeSorted(pm, nodes) && Stopping(pm, nodes, a, s, i, stop, out, reached, whitelist) && i < |nodes|
    requires nodes[i].key != LeftParent(pm, stop)
    ensures var rev := nodes[i].key;
            if !reached then
              if rev == stop && |pm[rev]| > 0 then Stopping(pm, nodes, a, i, i + 1, stop, out + [nodes[i]], true, whitelist + pm[rev])
              else Stopping(pm, nodes, a, s, i + 1, stop, out + [nodes[i]], false, whitelist)
            else if rev in whitelist then Stopping(pm, nodes, a, s, i + 1, stop, out + [nodes[i]], true, whitelist + pm[rev])
            else Stopping(pm, nodes, a, s, i + 1, stop, out, true, whitelist)
  {
    if !reached {
      KeepBefore(pm, nodes, a, s, i, i + 1, stop, out, whitelist);
    } else {
      KeepAfter(pm, nodes, a, s, i, i + 1, stop, out, whitelist);
    }
  }

  lemma KeepBefore(pm: ParentMap, nodes: seq<MergeNode>, a: nat, s: nat, i: nat, next: nat, stop: Key, out: seq<MergeNode>,
                   whitelist: seq<Key>)
    requires IsMergeSorted(pm, nodes) && Stopping(pm, nodes, a, s, i, stop, out, false, whitelist)
    requires i < next == i + 1 <= |nodes| && nodes[i].key != LeftParent(pm, stop)
    ensures var rev := nodes[i].key;
            if rev == stop && |pm[rev]| > 0 then Stopping(pm, nodes, a, i, next, stop, out + [nodes[i]], true, whitelist + pm[rev])
            else Stopping(pm, nodes, a, s, next, stop, out + [nodes[i]], false, whitelist)
  {
    var rev := nodes[i].key;
    assert nodes[a..next] == nodes[a..i] + [nodes[i]];
    if rev == stop && |pm[rev]| > 0 {
      StopReached(pm, nodes, i, next, whitelist + pm[rev]);
      assert nodes[next..next] == [] && out + [nodes[i]] + [] == out + [nodes[i]];
    }
  }

  lemma KeepAfter(pm: ParentMap, nodes: seq<MergeNode>, a: nat, s: nat, i: nat, next: nat, stop: Key, out: seq<MergeNode>,
                  whitelist: seq<Key>)
    requires IsMergeSorted(pm, nodes) && Stopping(pm, nodes, a, s, i, stop, out, true, whitelist)
    requires i < next == i + 1 <= |nodes| && nodes[i].key != LeftParent(pm, stop)
    ensures var rev := nodes[i].key;
            if rev in whitelist then Stopping(pm, nodes, a, s, next, stop, out + [nodes[i]], true, whitelist + pm[rev])
            else Stopping(pm, nodes, a, s, next, stop, out, true, whitelist)
  {
    KeepMerged(pm, nodes, s, i, next, whitelist);
    OneMoreMerged(pm, nodes, a, s, i, next, stop);
    var kept := nodes[i].key in whitelist;
    assert kept <==> AncestorOrSelf(pm, nodes[i].key, stop);
    StillStopping(pm, nodes, a, s, i, next, stop, out, whitelist,
                  if kept then out + [nodes[i]] else out, if kept then whitelist + pm[nodes[i].key] else whitelist);
  }

  lemma StillStopping(pm: ParentMap, nodes: seq<MergeNode>, a: nat, s: nat, i: nat, next: nat, stop: Key, out: seq<MergeNode>,
                      whitelist: seq<Key>, out': seq<MergeNode>, whitelist': seq<Key>)
    requires Stopping(pm, nodes, a, s, i, stop, out, true, whitelist)
    requires i < next == i + 1 <= |nodes| && nodes[i].key != LeftParent(pm, stop)
    requires a <= s < next && Merged(pm, nodes, s, next, whitelist')
    requires out' == nodes[a..s + 1] + AncestorsIn(pm, stop, nodes[s + 1..next])
    ensures Stopping(pm, nodes, a, s, next, stop, out', true, whitelist')
  {
  }

  lemma OneMoreMerged(pm: ParentMap, nodes: seq<MergeNode>, a: nat, s: nat, i: nat, next: nat, stop: Key)
    requires a <= s < i < next == i + 1 <= |nodes|
    ensures var before, after := AncestorsIn(pm, stop, nodes[s + 1..i]), AncestorsIn(pm, stop, nodes[s + 1..next]);
            if AncestorOrSelf(pm, nodes[i].key, stop) then nodes[a..s + 1] + before + [nodes[i]] == nodes[a..s + 1] + after
            else nodes[a..s + 1] + before == nodes[a..s + 1] + after
  {
    AncestorsNext(pm, nodes, s + 1, i, next, stop);
    AppendLast(nodes[a..s + 1], AncestorsIn(pm, stop, nodes[s + 1..i]), nodes[i]);
  }

  lemma AncestorsNext(pm: ParentMap, nodes: seq<MergeNode>, from: nat, i: nat, next: nat, stop: Key)
    requires from <= i < next == i + 1 <= |nodes|
    ensures AncestorsIn(pm, stop, nodes[from..next])
            == AncestorsIn(pm, stop, nodes[from..i]) + if AncestorOrSelf(pm, nodes[i].key, stop) then [nodes[i]] else []
  {
    assert nodes[from..next][..i - from] == nodes[from..i];
  }

  lemma AppendLast(first: seq<MergeNode>, second: seq<MergeNode>, last: MergeNode)
    ensures first + second + [last] == first + (second + [last]) && second + [] == second
  {
  }

  lemma StopReached(pm: ParentMap, nodes: seq<MergeNode>, s: nat, next: nat, whitelist: seq<Key>)
    requires s < next == s + 1 <= |nodes| && nodes[s].key in pm && whitelist == pm[nodes[s].key]
    ensures Merged(pm, nodes, s, next, whitelist)
  {
    forall p ensures p in whitelist <==> ParentOfKept(pm, nodes, s, next, p) {
      if p in whitelist {
        assert s <= s < next && AncestorOrSelf(pm, nodes[s].key, nodes[s].key) && p in Parents(pm, nodes[s].key);
      }
    }
  }

  /** A node after the stop is kept exactly if it is an ancestor of the stop. */
  lemma KeepMerged(pm: ParentMap, nodes: seq<MergeNode>, s: nat, i: nat, next: nat, whitelist: seq<Key>)
    requires IsMergeSorted(pm, nodes) && s < i < next == i + 1 <= |nodes| && Merged(pm, nodes, s, i, whitelist)
    ensures nodes[i].key in whitelist <==> AncestorOrSelf(pm, nodes[i].key, nodes[s].key)
    ensures Merged(pm, nodes, s, next, if nodes[i].key in whitelist then whitelist + pm[nodes[i].key] else whitelist)
  {
    var rev := nodes[i].key;
    ParentOfKeptIff(pm, nodes, s, i);
    var whitelist' := if rev in whitelist then whitelist + pm[rev] else whitelist;
    forall p ensures p in whitelist' <==> ParentOfKept(pm, nodes, s, next, p) {
      MergedNext(pm, nodes, s, i, next, p);
    }
  }

  lemma MergedNext(pm: ParentMap, nodes: seq<MergeNode>, s: nat, i: nat, next: nat, p: Key)
    requires s < i < next == i + 1 <= |nodes|
    ensures ParentOfKept(pm, nodes, s, next, p) <==>
              ParentOfKept(pm, nodes, s, i, p)
              || (AncestorOrSelf(pm, nodes[i].key, nodes[s].key) && p in Parents(pm, nodes[i].key))
  {
    if ParentOfKept(pm, nodes, s, i, p) {
      var j :| s <= j < i && AncestorOrSelf(pm, nodes[j].key, nodes[s].key) && p in Parents(pm, nodes[j].key);
      assert s <= j < next;
    }
    if AncestorOrSelf(pm, nodes[i].key, nodes[s].key) && p in Parents(pm, nodes[i].key) {
      assert s <= i < next;
    }
  }

  lemma StoppedAt(pm: ParentMap, nodes: seq<MergeNode>, a: nat, s: nat, i: nat, stop: Key, out: seq<MergeNode>,
                  reached: bool, whitelist: seq<Key>)
    requires IsMergeSorted(pm, nodes) && Stopping(pm, nodes, a, s, i, stop, out, reached, whitelist)
    requires i < |nodes| ==> nodes[i].key == LeftParent(pm, stop)
    ensures out == Merges(pm, nodes[a..][..PositionOf(nodes[a..], LeftParent(pm, stop))], stop)
  {
    var rest, part := nodes[a..], nodes[a..i];
    PositionIs(rest, LeftParent(pm, stop), i - a);
    assert rest[..i - a] == part;
    if reached {
      MergesFrom(pm, nodes, a, s, i, stop);
    } else if Parents(pm, stop) != [] {
      PositionIs(part, stop, |part|);
    }
  }

  lemma MergesFrom(pm: ParentMap, nodes: seq<MergeNode>, a: nat, s: nat, i: nat, stop: Key)
    requires IsMergeSorted(pm, nodes) && a <= s < i <= |nodes| && nodes[s].key == stop && Parents(pm, stop) != []
    ensures Merges(pm, nodes[a..i], stop) == nodes[a..s + 1] + AncestorsIn(pm, stop, nodes[s + 1..i])
  {
    var part := nodes[a..i];
    forall j | 0 <= j < s - a ensures part[j].key != stop {
      assert InOrder(pm, nodes, a + j, s);
    }
    PositionIs(part, stop, s - a);
    assert part[..s - a + 1] == nodes[a..s + 1] && part[s - a + 1..] == nodes[s + 1..i];
  }

  // ---------------------------------------------------------------------------------
  // Part of a list hangs together

  /** The nodes that are chosen, in order. */
  ghost function Select(choice: MergeNode -> bool, nodes: seq<MergeNode>): seq<MergeNode> {
    if |nodes| == 0 then []
    else
      var last := nodes[|nodes| - 1];
      Select(choice, nodes[..|nodes| - 1]) + if choice(last) then [last] else []
  }

  lemma {:induction false} SelectedFrom(choice: MergeNode -> bool, nodes: seq<MergeNode>, i: nat) returns (k: nat)
    requires i < |Select(choice, nodes)|
    ensures i <= k < |nodes| && nodes[k] == Select(choice, nodes)[i] && choice(nodes[k])
  {
    var last := |nodes| - 1;
    var before := Select(choice, nodes[..last]);
    if i < |before| {
      k := SelectedFrom(choice, nodes[..last], i);
    } else {
      k := last;
      SelectIsShorter(choice, nodes[..last]);
    }
  }

  lemma {:induction false} SelectIsShorter(choice: MergeNode -> bool, nodes: seq<MergeNode>)
    ensures |Select(choice, nodes)| <= |nodes|
  {
    if |nodes| > 0 {
      SelectIsShorter(choice, nodes[..|nodes| - 1]);
    }
  }

  lemma {:induction false} SelectedAt(choice: MergeNode -> bool, nodes: seq<MergeNode>, k: nat) returns (i: nat)
    requires k < |nodes| && choice(nodes[k])
    ensures i < |Select(choice, nodes)| && Select(choice, nodes)[i] == nodes[k]
    ensures k == 0 ==> i == 0
  {
    var last := |nodes| - 1;
    if k < last {
      i := SelectedAt(choice, nodes[..last], k);
    } else {
      i := |Select(choice, nodes[..last])|;
      if k == 0 {
        assert nodes[..last] == [];
      }
    }
  }

  /** Part of an orderly list is orderly. */
  lemma {:induction false} SelectIsOrderly(pm: ParentMap, choice: MergeNode -> bool, nodes: seq<MergeNode>)
    requires Orderly(pm, nodes)
    ensures Orderly(pm, Select(choice, nodes))
  {
    if |nodes| > 0 {
      var last := |nodes| - 1;
      var before := Select(choice, nodes[..last]);
      forall i, j ensures InOrder(pm, nodes[..last], i, j) {
        assert InOrder(pm, nodes, i, j);
      }
      SelectIsOrderly(pm, choice, nodes[..last]);
      if choice(nodes[last]) {
        OneMoreIsOrderly(pm, choice, nodes, before);
        assert Select(choice, nodes) == before + [nodes[last]];
      } else {
        assert Select(choice, nodes) == before;
      }
    }
  }

  lemma OneMoreIsOrderly(pm: ParentMap, choice: MergeNode -> bool, nodes: seq<MergeNode>, before: seq<MergeNode>)
    requires Orderly(pm, nodes) && |nodes| > 0
    requires before == Select(choice, nodes[..|nodes| - 1]) && Orderly(pm, before)
    ensures Orderly(pm, before + [nodes[|nodes| - 1]])
  {
    var last := |nodes| - 1;
    var all := before + [nodes[last]];
    forall i, j ensures InOrder(pm, all, i, j) {
      assert InOrder(pm, before, i, j) && InOrder(pm, nodes, last, last);
      assert forall k | 0 <= k < |before| :: all[k] == before[k];
      if 0 <= i < |before| && j == |before| {
        var k := SelectedFrom(choice, nodes[..last], i);
        assert InOrder(pm, nodes, k, last);
      }
      if 0 <= j < |before| && i == |before| {
        var k := SelectedFrom(choice, nodes[..last], j);
        assert InOrder(pm, nodes, last, k);
      }
    }
  }

  /** A chosen node before position `k` that is an ancestor of the first leads to the node there. */
  ghost predicate Hangs(pm: ParentMap, choice: MergeNode -> bool, nodes: seq<MergeNode>, k: nat)
    requires k < |nodes|
  {
    exists m {:trigger nodes[m]} ::
      0 <= m < k && choice(nodes[m]) && AncestorOrSelf(pm, nodes[m].key, nodes[0].key)
      && nodes[k].key in Parents(pm, nodes[m].key)
  }

  ghost predicate AllHang(pm: ParentMap, choice: MergeNode -> bool, nodes: seq<MergeNode>) {
    forall k: nat {:trigger Hangs(pm, choice, nodes, k)} |
      0 < k < |nodes| && choice(nodes[k]) && AncestorOrSelf(pm, nodes[k].key, nodes[0].key) :: Hangs(pm, choice, nodes, k)
  }

  lemma SelectIsChained(pm: ParentMap, choice: MergeNode -> bool, nodes: seq<MergeNode>)
    requires Orderly(pm, nodes) && |nodes| > 0 && choice(nodes[0]) && AllHang(pm, choice, nodes)
    ensures var revs := Select(choice, nodes);
            |revs| > 0 && revs[0] == nodes[0] && Orderly(pm, revs) && Chained(pm, revs)
  {
    var revs := Select(choice, nodes);
    var first := SelectedAt(choice, nodes, 0);
    SelectIsOrderly(pm, choice, nodes);
    forall i: nat | 0 < i < |revs| && AncestorOrSelf(pm, revs[i].key, revs[0].key) ensures ChainedAt(pm, revs, i) {
      SelectedIsChained(pm, choice, nodes, i);
    }
  }

  lemma SelectedIsChained(pm: ParentMap, choice: MergeNode -> bool, nodes: seq<MergeNode>, i: nat)
    requires |nodes| > 0 && AllHang(pm, choice, nodes) && Orderly(pm, Select(choice, nodes))
    requires 0 < i < |Select(choice, nodes)| && Select(choice, nodes)[0] == nodes[0]
    requires AncestorOrSelf(pm, Select(choice, nodes)[i].key, nodes[0].key)
    ensures ChainedAt(pm, Select(choice, nodes), i)
  {
    var revs := Select(choice, nodes);
    var k := SelectedFrom(choice, nodes, i);
    assert Hangs(pm, choice, nodes, k);
    var m :| 0 <= m < k && choice(nodes[m]) && AncestorOrSelf(pm, nodes[m].key, nodes[0].key)
          && nodes[k].key in Parents(pm, nodes[m].key);
    var j := SelectedAt(choice, nodes, m);
    assert InOrder(pm, revs, j, i);
    assert LeadsTo(pm, revs, j, i);
  }

  // The four rules

  lemma {:induction false} SelectAll(choice: MergeNode -> bool, nodes: seq<MergeNode>)
    requires forall k {:trigger nodes[k]} | 0 <= k < |nodes| :: choice(nodes[k])
    ensures Select(choice, nodes) == nodes
  {
    if |nodes| > 0 {
      var last := |nodes| - 1;
      SelectAll(choice, nodes[..last]);
      assert nodes == nodes[..last] + [nodes[last]];
    }
  }

  lemma {:induction false} SelectAppend(choice: MergeNode -> bool, a: seq<MergeNode>, b: seq<MergeNode>)
    ensures Select(choice, a + b) == Select(choice, a) + Select(choice, b)
    decreases |b|
  {
    if |b| == 0 {
      assert a + b == a;
    } else {
      var last := |b| - 1;
      assert (a + b)[..|a + b| - 1] == a + b[..last];
      SelectAppend(choice, a, b[..last]);
    }
  }

  lemma {:induction false} SelectAncestors(pm: ParentMap, start: Key, choice: MergeNode -> bool, nodes: seq<MergeNode>)
    requires forall k {:trigger nodes[k]} | 0 <= k < |nodes| :: choice(nodes[k]) <==> AncestorOrSelf(pm, nodes[k].key, start)
    ensures Select(choice, nodes) == AncestorsIn(pm, start, nodes)
  {
    if |nodes| > 0 {
      var last := nodes[|nodes| - 1];
      SelectAncestors(pm, start, choice, nodes[..|nodes| - 1]);
      assert choice(last) <==> AncestorOrSelf(pm, last.key, start);
    }
  }

  lemma {:induction false} SelectOwn(pm: ParentMap, start: Key, stop: Key, choice: MergeNode -> bool, nodes: seq<MergeNode>)
    requires forall k {:trigger nodes[k]} | 0 <= k < |nodes| ::
               choice(nodes[k]) <==> AncestorOrSelf(pm, nodes[k].key, start) && !AncestorOrSelf(pm, nodes[k].key, stop)
    ensures Select(choice, nodes) == OwnAncestors(pm, start, stop, nodes)
  {
    if |nodes| > 0 {
      var last := nodes[|nodes| - 1];
      SelectOwn(pm, start, stop, choice, nodes[..|nodes| - 1]);
      assert choice(last) <==> AncestorOrSelf(pm, last.key, start) && !AncestorOrSelf(pm, last.key, stop);
    }
  }

  lemma StretchIsOrderly(pm: ParentMap, nodes: seq<MergeNode>, a: nat, n: nat)
    requires IsMergeSorted(pm, nodes) && a <= n <= |nodes|
    ensures Orderly(pm, nodes[a..n])
  {
    var revs := nodes[a..n];
    forall i, j ensures InOrder(pm, revs, i, j) {
      assert InOrder(pm, nodes, a + i, a + j);
    }
  }

  /** Up to the stop, without or with it: all of a stretch hangs together. */
  lemma StretchIsChained(pm: ParentMap, nodes: seq<MergeNode>, a: nat, n: nat)
    requires IsMergeSorted(pm, nodes) && a < n <= |nodes|
    ensures Orderly(pm, nodes[a..n]) && Chained(pm, nodes[a..n])
  {
    var revs := nodes[a..n];
    StretchIsOrderly(pm, nodes, a, n);
    forall i: nat | 0 < i < |revs| && AncestorOrSelf(pm, revs[i].key, revs[0].key) ensures ChainedAt(pm, revs, i) {
      ParentOfKeptIff(pm, nodes, a, a + i);
      var j :| a <= j < a + i && AncestorOrSelf(pm, nodes[j].key, nodes[a].key) && revs[i].key in Parents(pm, nodes[j].key);
      assert revs[j - a] == nodes[j] && LeadsTo(pm, revs, j - a, i);
    }
  }

  /** What the start has and the stop has not hangs together, and nothing else is in it. */
  lemma OwnIsChained(pm: ParentMap, nodes: seq<MergeNode>, a: nat, stop: Key)
    requires IsMergeSorted(pm, nodes) && a < |nodes| && !AncestorOrSelf(pm, nodes[a].key, stop)
    ensures var own := OwnAncestors(pm, nodes[a].key, stop, nodes[a..]);
            && |own| > 0 && own[0] == nodes[a] && Orderly(pm, own) && Chained(pm, own)
            && AncestorsIn(pm, nodes[a].key, own) == own
  {
    var rest, start := nodes[a..], nodes[a].key;
    var choice := (n: MergeNode) => AncestorOrSelf(pm, n.key, start) && !AncestorOrSelf(pm, n.key, stop);
    SelectOwn(pm, start, stop, choice, rest);
    StretchIsOrderly(pm, nodes, a, |nodes|);
    assert rest == nodes[a..|nodes|];
    forall k: nat | 0 < k < |rest| && choice(rest[k]) ensures Hangs(pm, choice, rest, k) {
      ParentOfKeptIff(pm, nodes, a, a + k);
      var j :| a <= j < a + k && AncestorOrSelf(pm, nodes[j].key, start) && rest[k].key in Parents(pm, nodes[j].key);
      ParentOfOwn(pm, rest[k].key, nodes[j].key, stop);
      assert rest[j - a] == nodes[j];
    }
    SelectIsChained(pm, choice, rest);
    OwnAreAncestors(pm, start, stop, rest);
  }

  /** A child of what the stop does not have is not in its ancestry either. */
  lemma ParentOfOwn(pm: ParentMap, p: Key, c: Key, stop: Key)
    requires p in Parents(pm, c) && !AncestorOrSelf(pm, p, stop)
    ensures !AncestorOrSelf(pm, c, stop)
  {
    if AncestorOrSelf(pm, c, stop) {
      ParentIsAncestor(pm, p, c);
      if c != stop {
        AncestorTransitive(pm, p, c, stop);
      }
    }
  }

  lemma {:induction false} OwnAreAncestors(pm: ParentMap, start: Key, stop: Key, nodes: seq<MergeNode>)
    ensures AncestorsIn(pm, start, OwnAncestors(pm, start, stop, nodes)) == OwnAncestors(pm, start, stop, nodes)
  {
    if |nodes| > 0 {
      var last := nodes[|nodes| - 1];
      var before := OwnAncestors(pm, start, stop, nodes[..|nodes| - 1]);
      OwnAreAncestors(pm, start, stop, nodes[..|nodes| - 1]);
      var own := AncestorOrSelf(pm, last.key, start) && !AncestorOrSelf(pm, last.key, stop);
      assert OwnAncestors(pm, start, stop, nodes) == before + if own then [last] else [];
      if own {
        assert (before + [last])[..|before|] == before;
        assert AncestorsIn(pm, start, before + [last]) == AncestorsIn(pm, start, before) + [last];
      } else {
        assert before + [] == before;
      }
    }
  }

  /** If the start has everything that the stop has, nothing is in it. */
  lemma {:induction false} NothingOwn(pm: ParentMap, start: Key, stop: Key, nodes: seq<MergeNode>)
    requires AncestorOrSelf(pm, start, stop)
    ensures OwnAncestors(pm, start, stop, nodes) == []
  {
    if |nodes| > 0 {
      var last := nodes[|nodes| - 1];
      NothingOwn(pm, start, stop, nodes[..|nodes| - 1]);
      if AncestorOrSelf(pm, last.key, start) && last.key != start && start != stop {
        AncestorTransitive(pm, last.key, start, stop);
      }
      assert AncestorOrSelf(pm, last.key, start) ==> AncestorOrSelf(pm, last.key, stop);
    }
  }

  /** The nodes up to position `n`, and after it the ancestors of the one there. */
  ghost function UpToAndMerged(pm: ParentMap, part: seq<MergeNode>, n: nat): MergeNode -> bool
    requires n < |part|
  {
    var first := set j | 0 <= j <= n :: part[j].key;
    (x: MergeNode) => x.key in first || AncestorOrSelf(pm, x.key, part[n].key)
  }

  lemma MergesIsSelected(pm: ParentMap, part: seq<MergeNode>, n: nat)
    requires Orderly(pm, part) && n < |part|
    ensures Select(UpToAndMerged(pm, part, n), part) == part[..n + 1] + AncestorsIn(pm, part[n].key, part[n + 1..])
  {
    var choice := UpToAndMerged(pm, part, n);
    assert part == part[..n + 1] + part[n + 1..];
    SelectAppend(choice, part[..n + 1], part[n + 1..]);
    SelectAll(choice, part[..n + 1]);
    var after := part[n + 1..];
    forall k {:trigger after[k]} | 0 <= k < |after| ensures choice(after[k]) <==> AncestorOrSelf(pm, after[k].key, part[n].key) {
      AfterIsNotFirst(pm, part, n, n + 1 + k);
      assert after[k] == part[n + 1 + k];
    }
    SelectAncestors(pm, part[n].key, choice, after);
  }

  lemma AfterIsNotFirst(pm: ParentMap, part: seq<MergeNode>, n: nat, k: nat)
    requires Orderly(pm, part) && n < k < |part|
    ensures UpToAndMerged(pm, part, n)(part[k]) <==> AncestorOrSelf(pm, part[k].key, part[n].key)
  {
    forall j | 0 <= j <= n ensures part[j].key != part[k].key {
      assert InOrder(pm, part, j, k);
    }
  }

  /** With what the stop merged the list hangs together if the start has the stop. */
  lemma MergesIsChained(pm: ParentMap, nodes: seq<MergeNode>, a: nat, b: nat, stop: Key)
    requires IsMergeSorted(pm, nodes) && a < b <= |nodes| && AncestorOrSelf(pm, stop, nodes[a].key)
    ensures var revs := Merges(pm, nodes[a..b], stop);
            |revs| > 0 && revs[0] == nodes[a] && Orderly(pm, revs) && Chained(pm, revs)
  {
    var part := nodes[a..b];
    var n := PositionOf(part, stop);
    if n < |part| && Parents(pm, stop) != [] {
      StretchIsOrderly(pm, nodes, a, b);
      MergesIsSelected(pm, part, n);
      var choice := UpToAndMerged(pm, part, n);
      forall k: nat | 0 < k < |part| && choice(part[k]) && AncestorOrSelf(pm, part[k].key, part[0].key)
        ensures Hangs(pm, choice, part, k)
      {
        MergedHangs(pm, nodes, a, b, n, k);
      }
      SelectIsChained(pm, choice, part);
    } else {
      StretchIsChained(pm, nodes, a, b);
    }
  }

  lemma MergedHangs(pm: ParentMap, nodes: seq<MergeNode>, a: nat, b: nat, n: nat, k: nat)
    requires IsMergeSorted(pm, nodes) && a < b <= |nodes| && n < b - a && 0 < k < b - a
    requires AncestorOrSelf(pm, nodes[a..b][n].key, nodes[a].key)
    requires UpToAndMerged(pm, nodes[a..b], n)(nodes[a..b][k]) && AncestorOrSelf(pm, nodes[a..b][k].key, nodes[a].key)
    ensures Hangs(pm, UpToAndMerged(pm, nodes[a..b], n), nodes[a..b], k)
  {
    var part, stop := nodes[a..b], nodes[a + n].key;
    StretchIsOrderly(pm, nodes, a, b);
    if k <= n {
      ParentOfKeptIff(pm, nodes, a, a + k);
      var j :| a <= j < a + k && AncestorOrSelf(pm, nodes[j].key, nodes[a].key) && part[k].key in Parents(pm, nodes[j].key);
      assert part[j - a] == nodes[j];
    } else {
      AfterIsNotFirst(pm, part, n, k);
      AfterStopHangs(pm, nodes, a, b, n, k);
    }
  }

  lemma AfterStopHangs(pm: ParentMap, nodes: seq<MergeNode>, a: nat, b: nat, n: nat, k: nat)
    requires IsMergeSorted(pm, nodes) && a < b <= |nodes| && n < k < b - a
    requires AncestorOrSelf(pm, nodes[a + n].key, nodes[a].key) && AncestorOrSelf(pm, nodes[a + k].key, nodes[a + n].key)
    ensures Hangs(pm, UpToAndMerged(pm, nodes[a..b], n), nodes[a..b], k)
  {
    var part, stop := nodes[a..b], nodes[a + n].key;
    ParentOfKeptIff(pm, nodes, a + n, a + k);
    var j :| a + n <= j < a + k && AncestorOrSelf(pm, nodes[j].key, stop) && part[k].key in Parents(pm, nodes[j].key);
    assert part[j - a] == nodes[j];
    if nodes[j].key != stop && stop != nodes[a].key {
      AncestorTransitive(pm, nodes[j].key, stop, nodes[a].key);
    }
  }

  /** Only the rule with merges may keep something apart, unless the stop is an ancestor of the start. */
  ghost predicate HangsTogether(pm: ParentMap, start: Key, stop: Option<Key>, rule: StopRule) {
    stop.Some? && rule.WithMerges? ==> AncestorOrSelf(pm, stop.value, start)
  }

  lemma KeptHangsTogether(pm: ParentMap, nodes: seq<MergeNode>, a: nat, start: Option<Key>, stop: Option<Key>, rule: StopRule)
    requires IsMergeSorted(pm, nodes) && a < |nodes| && (start.Some? ==> nodes[a].key == start.value)
    requires stop.Some? && rule.WithoutCommonAncestry? ==> start.Some?
    requires HangsTogether(pm, nodes[a].key, stop, rule)
    ensures var kept := Kept(pm, nodes[a..], start, stop, rule);
            |kept| > 0 ==> Orderly(pm, kept) && Chained(pm, kept)
  {
    if stop.Some? && rule.WithMerges? {
      MergedHangTogether(pm, nodes, a, stop.value);
    } else if stop.Some? && rule.WithoutCommonAncestry? {
      OwnHangTogether(pm, nodes, a, stop.value);
    } else {
      var kept := Kept(pm, nodes[a..], start, stop, rule);
      if |kept| > 0 {
        assert kept == nodes[a..a + |kept|];
        StretchIsChained(pm, nodes, a, a + |kept|);
      }
    }
  }

  lemma MergedHangTogether(pm: ParentMap, nodes: seq<MergeNode>, a: nat, stop: Key)
    requires IsMergeSorted(pm, nodes) && a < |nodes| && AncestorOrSelf(pm, stop, nodes[a].key)
    ensures var kept := Merges(pm, nodes[a..][..PositionOf(nodes[a..], LeftParent(pm, stop))], stop);
            |kept| > 0 ==> Orderly(pm, kept) && Chained(pm, kept)
  {
    var b := a + PositionOf(nodes[a..], LeftParent(pm, stop));
    assert nodes[a..][..b - a] == nodes[a..b];
    if a < b {
      MergesIsChained(pm, nodes, a, b, stop);
    }
  }

  lemma OwnHangTogether(pm: ParentMap, nodes: seq<MergeNode>, a: nat, stop: Key)
    requires IsMergeSorted(pm, nodes) && a < |nodes|
    ensures var kept := OwnAncestors(pm, nodes[a].key, stop, nodes[a..]);
            |kept| > 0 ==> Orderly(pm, kept) && Chained(pm, kept)
  {
    if AncestorOrSelf(pm, nodes[a].key, stop) {
      NothingOwn(pm, nodes[a].key, stop, nodes[a..]);
    } else {
      OwnIsChained(pm, nodes, a, stop);
    }
  }

  lemma OrderlyIsDistinct(pm: ParentMap, revs: seq<MergeNode>)
    requires Orderly(pm, revs)
    ensures DistinctKeys(revs)
  {
    forall i, j | 0 <= i < j < |revs| ensures revs[i].key != revs[j].key {
      assert InOrder(pm, revs, i, j);
    }
  }

  /** What the second filter leaves. */
  lemma KeptIsRight(pm: ParentMap, nodes: seq<MergeNode>, a: nat, start: Option<Key>, stop: Option<Key>, rule: StopRule)
    requires IsMergeSorted(pm, nodes) && a == if start.None? then 0 else PositionOf(nodes, start.value)
    requires stop.Some? && rule.WithoutCommonAncestry? ==> start.Some?
    ensures var kept := Kept(pm, nodes[a..], start, stop, rule);
            && (|kept| > 0 ==> a < |nodes|)
            && (|kept| > 0 && HangsTogether(pm, nodes[a].key, stop, rule) ==>
                  Remaining(pm, kept, |kept|) == AncestorsIn(pm, kept[0].key, kept))
            && (stop.Some? && rule.WithoutCommonAncestry? ==> Remaining(pm, kept, |kept|) == kept)
  {
    var kept := Kept(pm, nodes[a..], start, stop, rule);
    if a == |nodes| {
      assert nodes[a..] == [];
    } else {
      KeptIsOrderly(pm, nodes, a, start, stop, rule);
      if HangsTogether(pm, nodes[a].key, stop, rule) && |kept| > 0 {
        KeptHangsTogether(pm, nodes, a, start, stop, rule);
        KeepsAncestorsIff(pm, kept);
      }
      if stop.Some? && rule.WithoutCommonAncestry? {
        OwnIsWhole(pm, nodes, a, stop.value);
      }
    }
  }

  lemma OwnIsWhole(pm: ParentMap, nodes: seq<MergeNode>, a: nat, stop: Key)
    requires IsMergeSorted(pm, nodes) && a < |nodes|
    ensures var own := OwnAncestors(pm, nodes[a].key, stop, nodes[a..]);
            |own| > 0 ==> own[0] == nodes[a] && AncestorsIn(pm, own[0].key, own) == own
  {
    if AncestorOrSelf(pm, nodes[a].key, stop) {
      NothingOwn(pm, nodes[a].key, stop, nodes[a..]);
    } else {
      OwnIsChained(pm, nodes, a, stop);
    }
  }

  function Named(name: string): Key {
    Key(name, [])
  }

  function Plain(name: string): MergeNode {
    MergeNode(Named(name), 1, [], false)
  }

  /** `x` has `r` through `y`, the stop `p` has `r` as the second parent after `l`. */
  const CROSSING: ParentMap := map[Named("x") := [Named("y")], Named("p") := [Named("l"), Named("r")],
                                   Named("y") := [Named("r")], Named("r") := [], Named("l") := []]

  /**
   A list within the contract of the merge sort in which `r` is kept with what the stop merged,
   and is an ancestor of the start, but the second filter leaves it out.
   */
  lemma MergesMayFallApart()
    ensures var nodes := [Plain("x"), Plain("p"), Plain("y"), Plain("r"), Plain("l")];
            var kept := Kept(CROSSING, nodes, Some(Named("x")), Some(Named("p")), WithMerges);
            && IsMergeSorted(CROSSING, nodes) && kept == [Plain("x"), Plain("p"), Plain("r")]
            && AncestorOrSelf(CROSSING, Named("r"), Named("x")) && Remaining(CROSSING, kept, 3) == [Plain("x")]
  {
    var nodes := [Plain("x"), Plain("p"), Plain("y"), Plain("r"), Plain("l")];
    CrossingIsSorted(nodes);
    CrossingAncestors();
    assert LeftParent(CROSSING, Named("p")) == Named("l") by { assert Parents(CROSSING, Named("p"))[0] == Named("l"); }
    PositionIs(nodes, Named("l"), 4);
    CrossingMerges(nodes[..4]);
    CrossingRemains([Plain("x"), Plain("p"), Plain("r")]);
  }

  lemma CrossingIsSorted(nodes: seq<MergeNode>)
    requires nodes == [Plain("x"), Plain("p"), Plain("y"), Plain("r"), Plain("l")]
    ensures IsMergeSorted(CROSSING, nodes)
  {
    assert nodes[0] == Plain("x") && nodes[1] == Plain("p") && nodes[2] == Plain("y");
    assert nodes[3] == Plain("r") && nodes[4] == Plain("l");
    assert Has(nodes, Named("y")) && Has(nodes, Named("l")) && Has(nodes, Named("r"));
  }

  lemma CrossingAncestors()
    ensures StrictAncestor(CROSSING, Named("r"), Named("x")) && StrictAncestor(CROSSING, Named("r"), Named("p"))
    ensures !StrictAncestor(CROSSING, Named("y"), Named("p"))
  {
    ParentIsAncestor(CROSSING, Named("y"), Named("x"));
    ParentIsAncestor(CROSSING, Named("r"), Named("y"));
    AncestorTransitive(CROSSING, Named("r"), Named("y"), Named("x"));
    assert CROSSING[Named("p")][1] == Named("r");
    ParentIsAncestor(CROSSING, Named("r"), Named("p"));
    if StrictAncestor(CROSSING, Named("y"), Named("p")) {
      var c := AncestorViaParent(CROSSING, Named("y"), Named("p"));
      var d := AncestorViaParent(CROSSING, Named("y"), c);
    }
  }

  lemma CrossingMerges(part: seq<MergeNode>)
    requires part == [Plain("x"), Plain("p"), Plain("y"), Plain("r")]
    requires StrictAncestor(CROSSING, Named("r"), Named("p")) && !StrictAncestor(CROSSING, Named("y"), Named("p"))
    ensures Merges(CROSSING, part, Named("p")) == [Plain("x"), Plain("p"), Plain("r")]
  {
    PositionIs(part, Named("p"), 1);
    assert part[..2] == [Plain("x"), Plain("p")] && part[2..] == [Plain("y"), Plain("r")];
    assert part[2..][..1] == [Plain("y")] && part[2..][..1][..0] == [];
    assert AncestorsIn(CROSSING, Named("p"), part[2..][..1]) == [];
    assert AncestorsIn(CROSSING, Named("p"), part[2..]) == [Plain("r")];
  }

  lemma CrossingRemains(kept: seq<MergeNode>)
    requires kept == [Plain("x"), Plain("p"), Plain("r")]
    ensures Remaining(CROSSING, kept, 3) == [Plain("x")]
  {
    assert !LeadsTo(CROSSING, kept, 0, 1) && !LeadsTo(CROSSING, kept, 0, 2);
    assert !KeptAt(CROSSING, kept, 1) && !KeptAt(CROSSING, kept, 2);
    FirstRemains(CROSSING, kept, 3);
  }

  // ---------------------------------------------------------------------------------
  // What the rules keep, node by node

  /**
   Of the nodes from position `a` on: without a stop all; those before the stop; those up to it;
   with what it merged, those before its left parent that are its ancestors or not after it,
   unless it has no parents; and those that the start has and the stop has not.
   */
  ghost predicate Keeps(pm: ParentMap, nodes: seq<MergeNode>, a: nat, start: Option<Key>, stop: Option<Key>, rule: StopRule, i: nat)
    requires a <= i < |nodes|
  {
    stop.None? ||
    match rule
    case Exclude => forall j {:trigger nodes[j]} | a <= j <= i :: nodes[j].key != stop.value
    case Include => forall j {:trigger nodes[j]} | a <= j < i :: nodes[j].key != stop.value
    case WithMerges =>
      && (forall j {:trigger nodes[j]} | a <= j <= i ::
            nodes[j].key != if Parents(pm, stop.value) == [] then NULL_REVISION else Parents(pm, stop.value)[0])
      && (|| Parents(pm, stop.value) == [] || AncestorOrSelf(pm, nodes[i].key, stop.value)
          || forall j {:trigger nodes[j]} | a <= j < i :: nodes[j].key != stop.value)
    case WithoutCommonAncestry =>
      start.Some? && AncestorOrSelf(pm, nodes[i].key, start.value) && !AncestorOrSelf(pm, nodes[i].key, stop.value)
  }

  lemma StretchMember(pm: ParentMap, nodes: seq<MergeNode>, a: nat, b: nat, i: nat)
    requires IsMergeSorted(pm, nodes) && a <= b <= |nodes| && a <= i < |nodes|
    ensures nodes[i] in nodes[a..b] <==> i < b
  {
    forall j | a <= j < b ensures nodes[a..b][j - a] == nodes[j] && (nodes[j] == nodes[i] ==> j == i) {
      assert InOrder(pm, nodes, j, i);
    }
  }

  /** A position counted from `a`. */
  lemma PositionFrom(nodes: seq<MergeNode>, a: nat, b: nat, k: Key, i: nat)
    requires a <= i <= b <= |nodes|
    ensures i - a <= PositionOf(nodes[a..b], k) <==> forall j {:trigger nodes[j]} | a <= j < i :: nodes[j].key != k
  {
    var n := PositionOf(nodes[a..b], k);
    if i - a <= n {
      forall j | a <= j < i ensures nodes[j].key != k {
        assert nodes[a..b][j - a] == nodes[j];
      }
    } else {
      assert nodes[a..b][n] == nodes[a + n];
    }
  }

  lemma {:induction false} AncestorsMember(pm: ParentMap, start: Key, nodes: seq<MergeNode>, n: MergeNode)
    ensures n in AncestorsIn(pm, start, nodes) <==> n in nodes && AncestorOrSelf(pm, n.key, start)
  {
    if |nodes| > 0 {
      AncestorsMember(pm, start, nodes[..|nodes| - 1], n);
      assert nodes == nodes[..|nodes| - 1] + [nodes[|nodes| - 1]];
    }
  }

  lemma {:induction false} OwnMember(pm: ParentMap, start: Key, stop: Key, nodes: seq<MergeNode>, n: MergeNode)
    ensures n in OwnAncestors(pm, start, stop, nodes) <==>
              n in nodes && AncestorOrSelf(pm, n.key, start) && !AncestorOrSelf(pm, n.key, stop)
  {
    if |nodes| > 0 {
      OwnMember(pm, start, stop, nodes[..|nodes| - 1], n);
      assert nodes == nodes[..|nodes| - 1] + [nodes[|nodes| - 1]];
    }
  }

  lemma MergesMember(pm: ParentMap, nodes: seq<MergeNode>, a: nat, b: nat, stop: Key, i: nat)
    requires IsMergeSorted(pm, nodes) && a <= b <= |nodes| && a <= i < |nodes|
    ensures nodes[i] in Merges(pm, nodes[a..b], stop) <==>
              i < b && (|| Parents(pm, stop) == [] || AncestorOrSelf(pm, nodes[i].key, stop)
                        || forall j {:trigger nodes[j]} | a <= j < i :: nodes[j].key != stop)
  {
    var n := PositionOf(nodes[a..b], stop);
    StretchMember(pm, nodes, a, b, i);
    if i < b {
      PositionFrom(nodes, a, b, stop, i);
    }
    if n < b - a && Parents(pm, stop) != [] {
      MergedMember(pm, nodes, a, b, stop, n, i);
    }
  }

  lemma MergedMember(pm: ParentMap, nodes: seq<MergeNode>, a: nat, b: nat, stop: Key, n: nat, i: nat)
    requires IsMergeSorted(pm, nodes) && a <= i < |nodes| && a + n < b <= |nodes|
    ensures nodes[i] in nodes[a..b][..n + 1] + AncestorsIn(pm, stop, nodes[a..b][n + 1..]) <==>
              i < b && (i - a <= n || AncestorOrSelf(pm, nodes[i].key, stop))
  {
    var part, split := nodes[a..b], a + n + 1;
    assert part[..n + 1] == nodes[a..split] && part[n + 1..] == nodes[split..b];
    StretchMember(pm, nodes, a, split, i);
    AncestorsMember(pm, stop, nodes[split..b], nodes[i]);
    if split <= i {
      StretchMember(pm, nodes, split, b, i);
    } else {
      NotAfter(pm, nodes, split, b, i);
    }
  }

  lemma NotAfter(pm: ParentMap, nodes: seq<MergeNode>, a: nat, b: nat, i: nat)
    requires IsMergeSorted(pm, nodes) && i < a <= b <= |nodes|
    ensures nodes[i] !in nodes[a..b]
  {
    forall j | a <= j < b ensures nodes[j] != nodes[i] {
      assert InOrder(pm, nodes, i, j);
    }
  }

  lemma BeforeMember(pm: ParentMap, nodes: seq<MergeNode>, a: nat, stop: Key, i: nat, next: nat)
    requires IsMergeSorted(pm, nodes) && a <= i < next == i + 1 <= |nodes|
    ensures nodes[i] in nodes[a..][..PositionOf(nodes[a..], stop)] <==>
              forall j {:trigger nodes[j]} | a <= j < next :: nodes[j].key != stop
  {
    var rest := nodes[a..];
    var n := PositionOf(rest, stop);
    assert rest == nodes[a..|nodes|] && rest[..n] == nodes[a..a + n];
    PositionFrom(nodes, a, |nodes|, stop, next);
    StretchMember(pm, nodes, a, a + n, i);
  }

  lemma UpToMember(pm: ParentMap, nodes: seq<MergeNode>, a: nat, stop: Key, i: nat)
    requires IsMergeSorted(pm, nodes) && a <= i < |nodes|
    ensures var n := PositionOf(nodes[a..], stop);
            nodes[i] in (if n < |nodes[a..]| then nodes[a..][..n + 1] else nodes[a..])
            <==> forall j {:trigger nodes[j]} | a <= j < i :: nodes[j].key != stop
  {
    var rest := nodes[a..];
    var n := PositionOf(rest, stop);
    assert rest == nodes[a..|nodes|];
    PositionFrom(nodes, a, |nodes|, stop, i);
    if n < |rest| {
      assert rest[..n + 1] == nodes[a..a + n + 1];
      StretchMember(pm, nodes, a, a + n + 1, i);
    } else {
      StretchMember(pm, nodes, a, |nodes|, i);
    }
  }

  lemma WithMergesMember(pm: ParentMap, nodes: seq<MergeNode>, a: nat, stop: Key, i: nat, next: nat)
    requires IsMergeSorted(pm, nodes) && a <= i < next == i + 1 <= |nodes|
    ensures var rest := nodes[a..];
            nodes[i] in Merges(pm, rest[..PositionOf(rest, LeftParent(pm, stop))], stop) <==>
              && (forall j {:trigger nodes[j]} | a <= j < next :: nodes[j].key != LeftParent(pm, stop))
              && (|| Parents(pm, stop) == [] || AncestorOrSelf(pm, nodes[i].key, stop)
                  || forall j {:trigger nodes[j]} | a <= j < i :: nodes[j].key != stop)
  {
    var rest := nodes[a..];
    var b := a + PositionOf(rest, LeftParent(pm, stop));
    assert rest == nodes[a..|nodes|] && rest[..b - a] == nodes[a..b];
    PositionFrom(nodes, a, |nodes|, LeftParent(pm, stop), next);
    MergesMember(pm, nodes, a, b, stop, i);
  }

  /** By any rule part of the list is kept, in order. */
  lemma KeptIsOrderly(pm: ParentMap, nodes: seq<MergeNode>, a: nat, start: Option<Key>, stop: Option<Key>, rule: StopRule)
    requires IsMergeSorted(pm, nodes) && a <= |nodes|
    ensures Orderly(pm, Kept(pm, nodes[a..], start, stop, rule))
  {
    KeptIsPicked(pm, nodes, a, start, stop, rule);
    PickedIsOrderly(pm, nodes, a, Kept(pm, nodes[a..], start, stop, rule));
  }

  lemma PickedIsOrderly(pm: ParentMap, nodes: seq<MergeNode>, a: nat, out: seq<MergeNode>)
    requires IsMergeSorted(pm, nodes) && Picked(nodes, a, out)
    ensures Orderly(pm, out)
  {
    forall x, y ensures InOrder(pm, out, x, y) {
      if 0 <= x < |out| && 0 <= y < |out| {
        assert out[x] in out;
        var k :| 0 <= k < |nodes[a..]| && nodes[a..][k] == out[x];
        assert nodes[a + k] == out[x] && InOrder(pm, nodes, a + k, a + k);
        assert PickedAt(nodes, a, out, x, y) && PickedAt(nodes, a, out, y, x);
        PairInOrder(pm, nodes, a, out, x, y);
      }
    }
  }

  lemma PairInOrder(pm: ParentMap, nodes: seq<MergeNode>, a: nat, out: seq<MergeNode>, x: nat, y: nat)
    requires IsMergeSorted(pm, nodes) && PickedAt(nodes, a, out, x, y) && PickedAt(nodes, a, out, y, x) && x < |out| && y < |out|
    ensures x != y ==> InOrder(pm, out, x, y)
  {
    if x < y {
      var i, j :| a <= i < j < |nodes| && nodes[i] == out[x] && nodes[j] == out[y];
      assert InOrder(pm, nodes, i, j);
    }
    if y < x {
      var i, j :| a <= i < j < |nodes| && nodes[i] == out[y] && nodes[j] == out[x];
      assert InOrder(pm, nodes, j, i);
    }
  }

  /** The first filter leaves exactly these nodes. */
  lemma KeptMember(pm: ParentMap, nodes: seq<MergeNode>, a: nat, start: Option<Key>, stop: Option<Key>, rule: StopRule, i: nat)
    requires IsMergeSorted(pm, nodes) && a <= i < |nodes|
    ensures nodes[i] in Kept(pm, nodes[a..], start, stop, rule) <==> Keeps(pm, nodes, a, start, stop, rule, i)
  {
    assert nodes[a..] == nodes[a..|nodes|];
    StretchMember(pm, nodes, a, |nodes|, i);
    if stop.Some? {
      match rule
      case WithMerges => WithMergesMember(pm, nodes, a, stop.value, i, i + 1);
      case WithoutCommonAncestry =>
        if start.Some? {
          OwnMember(pm, start.value, stop.value, nodes[a..], nodes[i]);
        }
      case Exclude => BeforeMember(pm, nodes, a, stop.value, i, i + 1);
      case Include => UpToMember(pm, nodes, a, stop.value, i);
    }
  }

  ghost predicate KeepsExactly(pm: ParentMap, nodes: seq<MergeNode>, a: nat, start: Option<Key>, stop: Option<Key>,
                               rule: StopRule, out: seq<MergeNode>) {
    forall i {:trigger Keeps(pm, nodes, a, start, stop, rule, i)} | a <= i < |nodes| ::
      nodes[i] in out <==> Keeps(pm, nodes, a, start, stop, rule, i)
  }

  lemma KeptExactly(pm: ParentMap, nodes: seq<MergeNode>, a: nat, start: Option<Key>, stop: Option<Key>, rule: StopRule)
    requires IsMergeSorted(pm, nodes) && a <= |nodes|
    ensures KeepsExactly(pm, nodes, a, start, stop, rule, Kept(pm, nodes[a..], start, stop, rule))
  {
    forall i | a <= i < |nodes|
      ensures nodes[i] in Kept(pm, nodes[a..], start, stop, rule) <==> Keeps(pm, nodes, a, start, stop, rule, i)
    {
      KeptMember(pm, nodes, a, start, stop, rule, i);
    }
  }

  lemma {:induction false} SelectInOrder(choice: MergeNode -> bool, nodes: seq<MergeNode>, x: nat, y: nat) returns (i: nat, j: nat)
    requires x < y < |Select(choice, nodes)|
    ensures i < j < |nodes| && nodes[i] == Select(choice, nodes)[x] && nodes[j] == Select(choice, nodes)[y]
  {
    var last := |nodes| - 1;
    var before := Select(choice, nodes[..last]);
    if y < |before| {
      i, j := SelectInOrder(choice, nodes[..last], x, y);
    } else {
      i := SelectedFrom(choice, nodes[..last], x);
      j := last;
    }
  }

  lemma SelectIsPicked(choice: MergeNode -> bool, nodes: seq<MergeNode>, a: nat, b: nat, out: seq<MergeNode>)
    requires a <= b <= |nodes| && out == Select(choice, nodes[a..b])
    ensures Picked(nodes, a, out)
  {
    forall n | n in out ensures n in nodes[a..] {
      var x :| 0 <= x < |out| && out[x] == n;
      var i := SelectedFrom(choice, nodes[a..b], x);
      assert nodes[a..][i] == nodes[a..b][i];
    }
    forall x: nat, y: nat ensures PickedAt(nodes, a, out, x, y) {
      if x < y < |out| {
        var i, j := SelectInOrder(choice, nodes[a..b], x, y);
        assert nodes[a + i] == out[x] && nodes[a + j] == out[y];
      }
    }
  }

  lemma StretchIsPicked(nodes: seq<MergeNode>, a: nat, b: nat)
    requires a <= b <= |nodes|
    ensures Picked(nodes, a, nodes[a..b])
  {
    var all := (n: MergeNode) => true;
    SelectAll(all, nodes[a..b]);
    SelectIsPicked(all, nodes, a, b, nodes[a..b]);
  }

  lemma MergesIsPicked(pm: ParentMap, nodes: seq<MergeNode>, a: nat, b: nat, stop: Key)
    requires IsMergeSorted(pm, nodes) && a <= b <= |nodes|
    ensures Picked(nodes, a, Merges(pm, nodes[a..b], stop))
  {
    var part, n := nodes[a..b], PositionOf(nodes[a..b], stop);
    if n < |part| && Parents(pm, stop) != [] {
      StretchIsOrderly(pm, nodes, a, b);
      MergesIsSelected(pm, part, n);
      SelectIsPicked(UpToAndMerged(pm, part, n), nodes, a, b, Merges(pm, part, stop));
    } else {
      StretchIsPicked(nodes, a, b);
    }
  }

  lemma OwnIsPicked(pm: ParentMap, nodes: seq<MergeNode>, a: nat, start: Key, stop: Key)
    requires a <= |nodes|
    ensures Picked(nodes, a, OwnAncestors(pm, start, stop, nodes[a..]))
  {
    var choice := (n: MergeNode) => AncestorOrSelf(pm, n.key, start) && !AncestorOrSelf(pm, n.key, stop);
    SelectOwn(pm, start, stop, choice, nodes[a..]);
    assert nodes[a..] == nodes[a..|nodes|];
    SelectIsPicked(choice, nodes, a, |nodes|, OwnAncestors(pm, start, stop, nodes[a..]));
  }

  /** In the order of the list. */
  lemma KeptIsPicked(pm: ParentMap, nodes: seq<MergeNode>, a: nat, start: Option<Key>, stop: Option<Key>, rule: StopRule)
    requires IsMergeSorted(pm, nodes) && a <= |nodes|
    ensures Picked(nodes, a, Kept(pm, nodes[a..], start, stop, rule))
  {
    if stop.None? {
      assert nodes[a..] == nodes[a..|nodes|];
      StretchIsPicked(nodes, a, |nodes|);
    } else {
      match rule
      case WithMerges => WithMergesIsPicked(pm, nodes, a, stop.value);
      case WithoutCommonAncestry => if start.Some? { OwnIsPicked(pm, nodes, a, start.value, stop.value); }
      case _ => UpToIsPicked(nodes, a, stop.value);
    }
  }

  lemma UpToIsPicked(nodes: seq<MergeNode>, a: nat, stop: Key)
    requires a <= |nodes|
    ensures var rest := nodes[a..];
            var n := PositionOf(rest, stop);
            Picked(nodes, a, rest[..n]) && Picked(nodes, a, if n < |rest| then rest[..n + 1] else rest)
  {
    var rest := nodes[a..];
    var n := PositionOf(rest, stop);
    var m := if n < |rest| then n + 1 else n;
    assert rest[..n] == nodes[a..a + n] && rest[..m] == nodes[a..a + m];
    StretchIsPicked(nodes, a, a + n);
    StretchIsPicked(nodes, a, a + m);
  }

  lemma WithMergesIsPicked(pm: ParentMap, nodes: seq<MergeNode>, a: nat, stop: Key)
    requires IsMergeSorted(pm, nodes) && a <= |nodes|
    ensures Picked(nodes, a, Merges(pm, nodes[a..][..PositionOf(nodes[a..], LeftParent(pm, stop))], stop))
  {
    var b := a + PositionOf(nodes[a..], LeftParent(pm, stop));
    assert nodes[a..][..b - a] == nodes[a..b];
    MergesIsPicked(pm, nodes, a, b, stop);
  }

  // ---------------------------------------------------------------------------------
  // The whole iteration

  datatype Direction = Reverse | Forward

  /**
   `iter_merge_sorted_revisions`: what the first filter keeps and the second leaves of it, in
   merge order or backwards. Where it hangs together these are exactly the start and its
   ancestors; without common ancestry the second filter leaves out nothing.
   */
  method IterMergeSortedRevisions(pm: ParentMap, nodes: seq<MergeNode>, start: Option<Key>, stop: Option<Key>,
                                  rule: StopRule, direction: Direction, unique: (Key, Key) -> set<Key>)
      returns (out: seq<MergeNode>)
    requires IsMergeSorted(pm, nodes) && FindsUnique(pm, unique)
    requires stop.Some? && rule.WithMerges? ==> stop.value in pm
    requires stop.Some? && rule.WithoutCommonAncestry? ==> start.Some?
    ensures var a := if start.None? then 0 else PositionOf(nodes, start.value);
            var kept := Kept(pm, nodes[a..], start, stop, rule);
            && DistinctKeys(kept)
            && out == (if direction.Reverse? then Remaining(pm, kept, |kept|) else Backwards(Remaining(pm, kept, |kept|)))
            && (|kept| > 0 && HangsTogether(pm, nodes[a].key, stop, rule) ==>
                  Remaining(pm, kept, |kept|) == AncestorsIn(pm, kept[0].key, kept))
            && (stop.Some? && rule.WithoutCommonAncestry? ==> Remaining(pm, kept, |kept|) == kept)
            && (a < |nodes| && HangsTogether(pm, nodes[a].key, stop, rule) ==>
                  Stays(pm, nodes, a, start, stop, rule, out))
  {
    ghost var a;
    out, a := FilterMergeSortedRevisions(pm, nodes, start, stop, rule, unique);
    KeptIsOrderly(pm, nodes, a, start, stop, rule);
    OrderlyIsDistinct(pm, out);
    KeptIsRight(pm, nodes, a, start, stop, rule);
    out := FilterStartNonAncestors(pm, out);
    if a < |nodes| && HangsTogether(pm, nodes[a].key, stop, rule) {
      StaysExactly(pm, nodes, a, start, stop, rule);
      StaysBackwards(pm, nodes, a, start, stop, rule, out);
    }
    if direction.Forward? {
      out := Reversed(out);
    }
  }

  /** What the rule keeps, as far as the start has it. */
  ghost predicate Stays(pm: ParentMap, nodes: seq<MergeNode>, a: nat, start: Option<Key>, stop: Option<Key>, rule: StopRule,
                        out: seq<MergeNode>)
    requires a < |nodes|
  {
    forall i {:trigger Keeps(pm, nodes, a, start, stop, rule, i)} | a <= i < |nodes| ::
      nodes[i] in out <==> Keeps(pm, nodes, a, start, stop, rule, i) && AncestorOrSelf(pm, nodes[i].key, nodes[a].key)
  }

  lemma StaysBackwards(pm: ParentMap, nodes: seq<MergeNode>, a: nat, start: Option<Key>, stop: Option<Key>, rule: StopRule,
                       out: seq<MergeNode>)
    requires a < |nodes| && Stays(pm, nodes, a, start, stop, rule, out)
    ensures Stays(pm, nodes, a, start, stop, rule, Backwards(out))
  {
    BackwardsMember(out);
    forall i | a <= i < |nodes|
      ensures nodes[i] in Backwards(out) <==> Keeps(pm, nodes, a, start, stop, rule, i) && AncestorOrSelf(pm, nodes[i].key, nodes[a].key)
    {
      assert nodes[i] in Backwards(out) <==> nodes[i] in out;
    }
  }

  lemma StaysExactly(pm: ParentMap, nodes: seq<MergeNode>, a: nat, start: Option<Key>, stop: Option<Key>, rule: StopRule)
    requires IsMergeSorted(pm, nodes) && a < |nodes| && a == if start.None? then 0 else PositionOf(nodes, start.value)
    requires stop.Some? && rule.WithoutCommonAncestry? ==> start.Some?
    requires HangsTogether(pm, nodes[a].key, stop, rule)
    ensures var kept := Kept(pm, nodes[a..], start, stop, rule);
            Stays(pm, nodes, a, start, stop, rule, Remaining(pm, kept, |kept|))
  {
    var kept := Kept(pm, nodes[a..], start, stop, rule);
    KeptIsRight(pm, nodes, a, start, stop, rule);
    FirstIsStart(pm, nodes, a, start, stop, rule);
    forall i | a <= i < |nodes|
      ensures nodes[i] in Remaining(pm, kept, |kept|)
              <==> Keeps(pm, nodes, a, start, stop, rule, i) && AncestorOrSelf(pm, nodes[i].key, nodes[a].key)
    {
      KeptMember(pm, nodes, a, start, stop, rule, i);
      AncestorsMember(pm, nodes[a].key, kept, nodes[i]);
    }
  }

  /** If anything is kept, the start is. */
  lemma FirstIsStart(pm: ParentMap, nodes: seq<MergeNode>, a: nat, start: Option<Key>, stop: Option<Key>, rule: StopRule)
    requires IsMergeSorted(pm, nodes) && a < |nodes| && (start.Some? ==> nodes[a].key == start.value)
    ensures var kept := Kept(pm, nodes[a..], start, stop, rule);
            kept != [] ==> kept[0] == nodes[a]
  {
    var kept := Kept(pm, nodes[a..], start, stop, rule);
    if kept != [] {
      KeptIsPicked(pm, nodes, a, start, stop, rule);
      assert kept[0] in kept;
      var i :| 0 <= i < |nodes[a..]| && nodes[a..][i] == kept[0];
      KeptMember(pm, nodes, a, start, stop, rule, a + i);
      KeptMember(pm, nodes, a, start, stop, rule, a);
      if stop.Some? && rule.WithoutCommonAncestry? && start.Some? && AncestorOrSelf(pm, start.value, stop.value) {
        NothingOwn(pm, start.value, stop.value, nodes[a..]);
      }
      assert Keeps(pm, nodes, a, start, stop, rule, a);
      StartComesFirst(pm, nodes, a, kept);
    }
  }

  lemma StartComesFirst(pm: ParentMap, nodes: seq<MergeNode>, a: nat, out: seq<MergeNode>)
    requires IsMergeSorted(pm, nodes) && a < |nodes| && Picked(nodes, a, out) && nodes[a] in out
    ensures out[0] == nodes[a]
  {
    var x: nat :| x < |out| && out[x] == nodes[a];
    forall j | a <= j < |nodes| && nodes[j] == nodes[a] ensures j == a {
      assert InOrder(pm, nodes, j, a);
    }
    assert PickedAt(nodes, a, out, 0, x);
  }

  method Reversed(nodes: seq<MergeNode>) returns (out: seq<MergeNode>)
    ensures out == Backwards(nodes)
  {
    out := [];
    for i := 0 to |nodes|
      invariant out == Backwards(nodes[..i])
    {
      assert nodes[..i + 1][..i] == nodes[..i];
      out := [nodes[i]] + out;
    }
    assert nodes[..|nodes|] == nodes;
  }
}

/**
 Where `gc_sort` puts a key: the tips in ascending order, and below each key at once the parents
 that have no other child left, in ascending order as well.
 */
module GcPlaces {
  import opened Keys
  import opened Dag
  import opened Frontier

  /** With `out` put out and `pending` on the stack, `p` comes before `q`. */
  ghost predicate Comes(out: seq<Key>, pending: seq<Key>, p: Key, q: Key) {
    || (exists x, y {:trigger out[x], out[y]} :: 0 <= x < y < |out| && out[x] == p && out[y] == q)
    || (p in out && q in pending)
    || (exists x, y {:trigger pending[x], pending[y]} :: 0 <= x < y < |pending| && pending[y] == p && pending[x] == q)
  }

  /** Key number `i` was the last child of `p` to be put out. */
  ghost predicate ReadyAt(net: Net, pm: ParentMap, out: seq<Key>, i: int, p: Key) {
    && 0 <= i < |out| && p in pm && p in net.ins && out[i] in net.ins[p]
    && forall c | c in net.ins[p] :: c in out[..i + 1]
  }

  ghost predicate IsTip(net: Net, pm: ParentMap, k: Key) {
    k in pm && k in net.ins && net.ins[k] == []
  }

  /** Tips are sorted by their prefix, which is empty for a 1-tuple, and then as keys. */
  ghost predicate TipLess(a: Key, b: Key) {
    var x := if |a.rest| == 0 then "" else a.first;
    var y := if |b.rest| == 0 then "" else b.first;
    StrLess(x, y) || (x == y && KeyLess(a, b))
  }

  ghost predicate ReadyInOrder(net: Net, pm: ParentMap, out: seq<Key>, pending: seq<Key>, i: int, p: Key, q: Key) {
    ReadyAt(net, pm, out, i, p) && ReadyAt(net, pm, out, i, q) && KeyLess(p, q) ==> Comes(out, pending, p, q)
  }

  ghost predicate TipsInOrder(net: Net, pm: ParentMap, out: seq<Key>, pending: seq<Key>, p: Key, q: Key) {
    && IsTip(net, pm, p) && IsTip(net, pm, q) && p in out + pending && q in out + pending && TipLess(p, q)
    ==> Comes(out, pending, p, q)
  }

  /** After key number `i` comes a parent that has become ready with it, if there is one. */
  ghost predicate FollowedAt(net: Net, pm: ParentMap, out: seq<Key>, i: int, p: Key) {
    ReadyAt(net, pm, out, i, p) && i + 1 < |out| ==> ReadyAt(net, pm, out, i, out[i + 1])
  }

  /** The first that is no ghost on the stack, at position `m`, has become ready with the last key put out. */
  ghost predicate TopReady(net: Net, pm: ParentMap, out: seq<Key>, pending: seq<Key>, m: int) {
    && 0 <= m < |pending| && ReadyAt(net, pm, out, |out| - 1, pending[m])
    && forall x {:trigger pending[x]} | m < x < |pending| :: pending[x] !in pm
  }

  ghost predicate NextReady(net: Net, pm: ParentMap, out: seq<Key>, pending: seq<Key>, p: Key) {
    ReadyAt(net, pm, out, |out| - 1, p) ==> exists m {:trigger TopReady(net, pm, out, pending, m)} :: TopReady(net, pm, out, pending, m)
  }

  ghost predicate Placed(net: Net, pm: ParentMap, out: seq<Key>, pending: seq<Key>) {
    && (forall c {:trigger c in net.outs} | c in net.outs && net.outs[c] != [] :: c in pm)
    && (forall i, p, q {:trigger ReadyInOrder(net, pm, out, pending, i, p, q)} :: ReadyInOrder(net, pm, out, pending, i, p, q))
    && (forall p, q {:trigger TipsInOrder(net, pm, out, pending, p, q)} :: TipsInOrder(net, pm, out, pending, p, q))
    && (forall i, p {:trigger FollowedAt(net, pm, out, i, p)} :: FollowedAt(net, pm, out, i, p))
    && (forall p {:trigger NextReady(net, pm, out, pending, p)} :: NextReady(net, pm, out, pending, p))
  }

  /** Nothing has been put out yet. */
  lemma PlacedNothing(net: Net, pm: ParentMap)
    requires forall c {:trigger c in net.outs} | c in net.outs && net.outs[c] != [] :: c in pm
    ensures Placed(net, pm, [], [])
  {
  }

  // ---------------------------------------------------------------------------------
  // A ghost is dropped

  lemma ComesWithoutTop(out: seq<Key>, pending: seq<Key>, p: Key, q: Key)
    requires |pending| > 0 && Comes(out, pending, p, q)
    requires p != pending[|pending| - 1] && q != pending[|pending| - 1]
    ensures Comes(out, pending[..|pending| - 1], p, q)
  {
    var rest := pending[..|pending| - 1];
    assert pending == rest + [pending[|pending| - 1]];
    if x, y :| 0 <= x < y < |pending| && pending[y] == p && pending[x] == q {
      assert rest[x] == q && rest[y] == p;
    }
  }

  lemma PlacedGhost(net: Net, pm: ParentMap, out: seq<Key>, pending: seq<Key>)
    requires Placed(net, pm, out, pending) && |pending| > 0 && pending[|pending| - 1] !in pm
    ensures Placed(net, pm, out, pending[..|pending| - 1])
  {
    var top, rest := pending[|pending| - 1], pending[..|pending| - 1];
    assert pending == rest + [top];
    forall i, p, q ensures ReadyInOrder(net, pm, out, rest, i, p, q) {
      assert ReadyInOrder(net, pm, out, pending, i, p, q);
      if ReadyAt(net, pm, out, i, p) && ReadyAt(net, pm, out, i, q) && KeyLess(p, q) {
        ComesWithoutTop(out, pending, p, q);
      }
    }
    forall p, q ensures TipsInOrder(net, pm, out, rest, p, q) {
      assert TipsInOrder(net, pm, out, pending, p, q);
      if IsTip(net, pm, p) && IsTip(net, pm, q) && p in out + rest && q in out + rest && TipLess(p, q) {
        ComesWithoutTop(out, pending, p, q);
      }
    }
    forall p ensures NextReady(net, pm, out, rest, p) {
      assert NextReady(net, pm, out, pending, p);
      if ReadyAt(net, pm, out, |out| - 1, p) {
        var m :| TopReady(net, pm, out, pending, m);
        assert pending[m] in pm;
        assert TopReady(net, pm, out, rest, m);
      }
    }
  }

  // ---------------------------------------------------------------------------------
  // A key is put out, and `added` are the parents that it made ready

  /** In descending order. */
  ghost predicate Falling(s: seq<Key>) {
    forall i, j {:trigger s[i], s[j]} | 0 <= i < j < |s| :: !KeyLess(s[i], s[j])
  }

  /** All that is needed of the walk between two keys. */
  ghost predicate Expands(net: Net, pm: ParentMap, done: set<Key>, out: seq<Key>, pending: seq<Key>, added: seq<Key>) {
    && |pending| > 0 && Falling(added) && Dual(net)
    && var key := pending[|pending| - 1];
    && key in pm && key in net.ins && key !in out && NoDuplicates(pending)
    && (forall k {:trigger k in out} :: k in out <==> k in done && k in pm)
    && (forall p {:trigger AddedAt(net, done, key, out, pending, added, p)} :: AddedAt(net, done, key, out, pending, added, p))
  }

  /** Exactly the parents whose last child this is are added. */
  ghost predicate AddedAt(net: Net, done: set<Key>, key: Key, out: seq<Key>, pending: seq<Key>, added: seq<Key>, p: Key) {
    && (p in added ==> p !in out && p !in pending)
    && (p in added <==> p in net.ins && key in net.ins[p] && forall c | c in net.ins[p] :: c in done + {key})
  }

  lemma ComesAfterVisit(out: seq<Key>, pending: seq<Key>, added: seq<Key>, p: Key, q: Key)
    requires |pending| > 0 && Comes(out, pending, p, q)
    ensures Comes(out + [pending[|pending| - 1]], pending[..|pending| - 1] + added, p, q)
  {
    var key, rest := pending[|pending| - 1], pending[..|pending| - 1];
    var out', pending' := out + [key], rest + added;
    assert pending == rest + [key];
    assert forall k | k in out :: k in out';
    if x, y :| 0 <= x < y < |out| && out[x] == p && out[y] == q {
      assert out'[x] == p && out'[y] == q;
    } else if p in out && q in pending {
      var x :| 0 <= x < |out| && out[x] == p;
      if q == key {
        assert out'[x] == p && out'[|out|] == q;
      } else {
        assert q in rest;
      }
    } else {
      var x, y :| 0 <= x < y < |pending| && pending[y] == p && pending[x] == q;
      assert pending'[x] == q && (y < |rest| ==> pending'[y] == p);
    }
  }

  lemma ReadyEarlier(net: Net, pm: ParentMap, out: seq<Key>, key: Key, i: int, p: Key)
    ensures i != |out| ==> (ReadyAt(net, pm, out + [key], i, p) <==> ReadyAt(net, pm, out, i, p))
  {
    if 0 <= i < |out| {
      assert (out + [key])[..i + 1] == out[..i + 1];
    }
  }

  lemma ReadyNow(net: Net, pm: ParentMap, done: set<Key>, out: seq<Key>, pending: seq<Key>, added: seq<Key>, p: Key)
    requires Expands(net, pm, done, out, pending, added) && Placed(net, pm, out, pending)
    ensures ReadyAt(net, pm, out + [pending[|pending| - 1]], |out|, p) <==> p in pm && p in added
  {
    var key := pending[|pending| - 1];
    var out' := out + [key];
    assert AddedAt(net, done, key, out, pending, added, p);
    assert out'[..|out| + 1] == out';
    if p in net.ins {
      forall c | c in net.ins[p] ensures c in out' <==> c in done + {key} {
        EdgeAtBothEnds(net, c, p);
        assert c in net.outs && c in pm;
        assert c in out <==> c in done && c in pm;
      }
    }
  }

  lemma AddedComes(out: seq<Key>, rest: seq<Key>, added: seq<Key>, p: Key, q: Key)
    requires Falling(added) && p in added && q in added && KeyLess(p, q)
    ensures Comes(out, rest + added, p, q)
  {
    var y :| 0 <= y < |added| && added[y] == p;
    var x :| 0 <= x < |added| && added[x] == q;
    KeyOrder();
    assert !KeyLess(p, p) && x != y;
    assert (rest + added)[|rest| + x] == q && (rest + added)[|rest| + y] == p;
  }

  lemma PlacedReady(net: Net, pm: ParentMap, done: set<Key>, out: seq<Key>, pending: seq<Key>, added: seq<Key>, i: int, p: Key, q: Key)
    requires Expands(net, pm, done, out, pending, added) && Placed(net, pm, out, pending)
    ensures ReadyInOrder(net, pm, out + [pending[|pending| - 1]], pending[..|pending| - 1] + added, i, p, q)
  {
    var key := pending[|pending| - 1];
    var out', pending' := out + [key], pending[..|pending| - 1] + added;
    if ReadyAt(net, pm, out', i, p) && ReadyAt(net, pm, out', i, q) && KeyLess(p, q) {
      if i == |out| {
        ReadyNow(net, pm, done, out, pending, added, p);
        ReadyNow(net, pm, done, out, pending, added, q);
        AddedComes(out', pending[..|pending| - 1], added, p, q);
      } else {
        ReadyEarlier(net, pm, out, key, i, p);
        ReadyEarlier(net, pm, out, key, i, q);
        assert ReadyInOrder(net, pm, out, pending, i, p, q);
        ComesAfterVisit(out, pending, added, p, q);
      }
    }
  }

  lemma PlacedTips(net: Net, pm: ParentMap, done: set<Key>, out: seq<Key>, pending: seq<Key>, added: seq<Key>, p: Key, q: Key)
    requires Expands(net, pm, done, out, pending, added) && Placed(net, pm, out, pending)
    ensures TipsInOrder(net, pm, out + [pending[|pending| - 1]], pending[..|pending| - 1] + added, p, q)
  {
    var key, rest := pending[|pending| - 1], pending[..|pending| - 1];
    assert pending == rest + [key];
    assert AddedAt(net, done, key, out, pending, added, p) && AddedAt(net, done, key, out, pending, added, q);
    assert TipsInOrder(net, pm, out, pending, p, q);
    if IsTip(net, pm, p) && IsTip(net, pm, q) && p in (out + [key]) + (rest + added) && q in (out + [key]) + (rest + added) && TipLess(p, q) {
      assert p !in added && q !in added;
      ComesAfterVisit(out, pending, added, p, q);
    }
  }

  lemma PlacedNext(net: Net, pm: ParentMap, done: set<Key>, out: seq<Key>, pending: seq<Key>, added: seq<Key>, p: Key)
    requires Expands(net, pm, done, out, pending, added) && Placed(net, pm, out, pending)
    ensures NextReady(net, pm, out + [pending[|pending| - 1]], pending[..|pending| - 1] + added, p)
  {
    var key, rest := pending[|pending| - 1], pending[..|pending| - 1];
    ReadyNow(net, pm, done, out, pending, added, p);
    if p in pm && p in added {
      var m := LastIn(pm, added, p);
      ReadyNow(net, pm, done, out, pending, added, added[m]);
      assert TopReady(net, pm, out + [key], rest + added, |rest| + m);
    }
  }

  lemma {:induction false} LastIn(pm: ParentMap, s: seq<Key>, p: Key) returns (m: nat)
    requires p in pm && p in s
    ensures m < |s| && s[m] in pm && forall x {:trigger s[x]} | m < x < |s| :: s[x] !in pm
  {
    m := |s| - 1;
    if s[m] !in pm {
      assert s == s[..m] + [s[m]];
      var before := LastIn(pm, s[..m], p);
      m := before;
    }
  }

  lemma PlacedFollowed(net: Net, pm: ParentMap, done: set<Key>, out: seq<Key>, pending: seq<Key>, added: seq<Key>, i: int, p: Key)
    requires Expands(net, pm, done, out, pending, added) && Placed(net, pm, out, pending)
    ensures FollowedAt(net, pm, out + [pending[|pending| - 1]], i, p)
  {
    var key := pending[|pending| - 1];
    var out' := out + [key];
    if ReadyAt(net, pm, out', i, p) && i + 1 < |out'| {
      ReadyEarlier(net, pm, out, key, i, p);
      ReadyEarlier(net, pm, out, key, i, out'[i + 1]);
      assert FollowedAt(net, pm, out, i, p) && NextReady(net, pm, out, pending, p);
      if i == |out| - 1 {
        var m :| TopReady(net, pm, out, pending, m);
        assert pending[|pending| - 1] in pm;
        assert pending[m] == key;
      }
    }
  }

  lemma PlacedExpand(net: Net, pm: ParentMap, done: set<Key>, out: seq<Key>, pending: seq<Key>, added: seq<Key>)
    requires Expands(net, pm, done, out, pending, added) && Placed(net, pm, out, pending)
    ensures Placed(net, pm, out + [pending[|pending| - 1]], pending[..|pending| - 1] + added)
  {
    var out', pending' := out + [pending[|pending| - 1]], pending[..|pending| - 1] + added;
    forall i, p, q ensures ReadyInOrder(net, pm, out', pending', i, p, q) {
      PlacedReady(net, pm, done, out, pending, added, i, p, q);
    }
    forall p, q ensures TipsInOrder(net, pm, out', pending', p, q) {
      PlacedTips(net, pm, done, out, pending, added, p, q);
    }
    forall i, p ensures FollowedAt(net, pm, out', i, p) {
      PlacedFollowed(net, pm, done, out, pending, added, i, p);
    }
    forall p ensures NextReady(net, pm, out', pending', p) {
      PlacedNext(net, pm, done, out, pending, added, p);
    }
  }

  // ---------------------------------------------------------------------------------
  // The next group of tips becomes the stack

  lemma PlacedGroup(net: Net, pm: ParentMap, out: seq<Key>, group: seq<Key>)
    requires Placed(net, pm, out, []) && Falling(group) && NoDuplicates(group)
    requires forall p, q {:trigger TipLess(p, q)} | p in group && q in group && TipLess(p, q) :: KeyLess(p, q)
    requires forall p, q {:trigger TipLess(p, q)} | p in group && q in out && IsTip(net, pm, q) :: !TipLess(p, q)
    ensures Placed(net, pm, out, group)
  {
    forall i, p, q ensures ReadyInOrder(net, pm, out, group, i, p, q) {
      assert ReadyInOrder(net, pm, out, [], i, p, q);
    }
    forall p, q ensures TipsInOrder(net, pm, out, group, p, q) {
      assert TipsInOrder(net, pm, out, [], p, q);
      assert out + [] == out;
      if p in group && q in group && TipLess(p, q) {
        AddedComes(out, [], group, p, q);
        assert [] + group == group;
      }
    }
    forall p ensures NextReady(net, pm, out, group, p) {
      assert NextReady(net, pm, out, [], p) && forall m :: !TopReady(net, pm, out, [], m);
    }
  }

  // ---------------------------------------------------------------------------------
  // The same of the graph and the result alone

  ghost predicate Childless(pm: ParentMap, k: Key) {
    forall c {:trigger Parents(pm, c)} :: k !in Parents(pm, c)
  }

  /** Tips come in ascending order of their prefixes, and of the keys where these are equal. */
  ghost predicate TipsAscend(pm: ParentMap, out: seq<Key>) {
    forall x, y {:trigger TipLess(out[x], out[y])} | 0 <= x < |out| && 0 <= y < |out| ::
      Childless(pm, out[x]) && Childless(pm, out[y]) && TipLess(out[x], out[y]) ==> x < y
  }

  /** Number `i` is a child of `p`, and the last of its children to come. */
  ghost predicate LastChild(pm: ParentMap, out: seq<Key>, i: int, p: Key) {
    && 0 <= i < |out| && p in pm && p in Parents(pm, out[i])
    && forall c {:trigger Parents(pm, c)} | p in Parents(pm, c) :: c in out[..i + 1]
  }

  /** Parents with the same last child come in ascending order. */
  ghost predicate ParentsAscend(pm: ParentMap, out: seq<Key>) {
    forall i, x, y {:trigger LastChild(pm, out, i, out[x]), LastChild(pm, out, i, out[y])} |
      0 <= x < |out| && 0 <= y < |out| && LastChild(pm, out, i, out[x]) && LastChild(pm, out, i, out[y]) && KeyLess(out[x], out[y]) ::
      x < y
  }

  /** A last child is followed at once by one of these parents. */
  ghost predicate ParentsFollow(pm: ParentMap, out: seq<Key>) {
    forall i, p {:trigger LastChild(pm, out, i, p)} | LastChild(pm, out, i, p) ::
      i + 1 < |out| && LastChild(pm, out, i, out[i + 1])
  }

  ghost predicate ChildrenOf(net: Net, pm: ParentMap) {
    forall k, c {:trigger k in Parents(pm, c)} | k in net.ins :: c in net.ins[k] <==> k in Parents(pm, c)
  }

  lemma LastChildIsReady(net: Net, pm: ParentMap, out: seq<Key>, i: int, p: Key)
    requires ChildrenOf(net, pm) && pm.Keys <= net.ins.Keys
    ensures LastChild(pm, out, i, p) <==> ReadyAt(net, pm, out, i, p)
  {
    if ReadyAt(net, pm, out, i, p) {
      forall c | p in Parents(pm, c) ensures c in out[..i + 1] {
        assert c in net.ins[p];
      }
    }
    if LastChild(pm, out, i, p) {
      forall c | c in net.ins[p] ensures c in out[..i + 1] {
        assert p in Parents(pm, c);
      }
    }
  }

  lemma ComesEarlier(out: seq<Key>, x: nat, y: nat)
    requires NoDuplicates(out) && x < |out| && y < |out| && Comes(out, [], out[x], out[y])
    ensures x < y
  {
  }

  /** When the stack is used up. */
  lemma AllPlaced(net: Net, pm: ParentMap, out: seq<Key>)
    requires Placed(net, pm, out, []) && NoDuplicates(out) && forall k | k in out :: k in pm
    requires ChildrenOf(net, pm) && pm.Keys <= net.ins.Keys
    ensures TipsAscend(pm, out) && ParentsAscend(pm, out) && ParentsFollow(pm, out)
  {
    forall x, y | 0 <= x < |out| && 0 <= y < |out| && Childless(pm, out[x]) && Childless(pm, out[y]) && TipLess(out[x], out[y])
      ensures x < y
    {
      ChildlessIsTip(net, pm, out[x]);
      ChildlessIsTip(net, pm, out[y]);
      assert TipsInOrder(net, pm, out, [], out[x], out[y]);
      ComesEarlier(out, x, y);
    }
    forall i, x, y | 0 <= x < |out| && 0 <= y < |out| && LastChild(pm, out, i, out[x]) && LastChild(pm, out, i, out[y]) && KeyLess(out[x], out[y])
      ensures x < y
    {
      LastChildIsReady(net, pm, out, i, out[x]);
      LastChildIsReady(net, pm, out, i, out[y]);
      assert ReadyInOrder(net, pm, out, [], i, out[x], out[y]);
      ComesEarlier(out, x, y);
    }
    forall i, p | LastChild(pm, out, i, p) ensures i + 1 < |out| && LastChild(pm, out, i, out[i + 1]) {
      LastChildIsReady(net, pm, out, i, p);
      assert NextReady(net, pm, out, [], p) && forall m :: !TopReady(net, pm, out, [], m);
      assert FollowedAt(net, pm, out, i, p);
      LastChildIsReady(net, pm, out, i, out[i + 1]);
    }
  }

  lemma ChildlessIsTip(net: Net, pm: ParentMap, k: Key)
    requires ChildrenOf(net, pm) && pm.Keys <= net.ins.Keys && k in pm && Childless(pm, k)
    ensures IsTip(net, pm, k)
  {
    assert forall c | c in net.ins[k] :: k in Parents(pm, c);
    SomeMember(net.ins[k]);
  }

  lemma SomeMember(s: seq<Key>)
    ensures s == [] || exists k :: k in s
  {
    if s != [] {
      assert s[0] in s;
    }
  }
}

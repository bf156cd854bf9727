/**
 Keys of texts and revisions, their ordering, and sorting.

 A key is a non-empty tuple of byte strings: `(revision_id,)` or `(file_id, revision_id)`.
 Tuples and byte strings compare lexicographically.
 */
module Keys {

  datatype Key = Key(first: string, rest: seq<string>)

  /** The revision id that stands for "no revision at all". */
  const NULL_REVISION := Key("null:", [])

  /** The grouping prefix of a key: empty for a 1-tuple, else its first component. */
  function Prefix(k: Key): string {
    if |k.rest| == 0 then "" else k.first
  }

  // ---------------------------------------------------------------------------------
  // Orders

  ghost predicate StrictTotalOrder<T(!new)>(less: (T, T) -> bool) {
    && (forall a: T :: !less(a, a))
    && (forall a: T, b: T, c: T {:trigger less(a, b), less(b, c)} :: less(a, b) && less(b, c) ==> less(a, c))
    && (forall a: T, b: T {:trigger less(a, b)} :: a == b || less(a, b) || less(b, a))
  }

  /** Lexicographic order over a given order of the elements. */
  predicate LexLess<T(==)>(less: (T, T) -> bool, a: seq<T>, b: seq<T>) {
    if |b| == 0 then false
    else if |a| == 0 then true
    else if a[0] != b[0] then less(a[0], b[0])
    else LexLess(less, a[1..], b[1..])
  }

  predicate StrLess(a: string, b: string) {
    LexLess((c: char, d: char) => c < d, a, b)
  }

  predicate KeyLess(a: Key, b: Key) {
    if a.first != b.first then StrLess(a.first, b.first) else LexLess(StrLess, a.rest, b.rest)
  }

  lemma {:induction false} LexIrreflexive<T(!new)>(less: (T, T) -> bool, a: seq<T>)
    ensures !LexLess(less, a, a)
  {
    if |a| > 0 {
      LexIrreflexive(less, a[1..]);
    }
  }

  lemma {:induction false} LexTransitive<T(!new)>(less: (T, T) -> bool, a: seq<T>, b: seq<T>, c: seq<T>)
    requires StrictTotalOrder(less)
    requires LexLess(less, a, b) && LexLess(less, b, c)
    ensures LexLess(less, a, c)
  {
    if |a| > 0 && a[0] == b[0] == c[0] {
      LexTransitive(less, a[1..], b[1..], c[1..]);
    } else if |a| > 0 && less(a[0], b[0]) && less(b[0], c[0]) {
      assert less(a[0], c[0]);
    }
  }

  lemma {:induction false} LexConnected<T(!new)>(less: (T, T) -> bool, a: seq<T>, b: seq<T>)
    requires StrictTotalOrder(less)
    ensures a == b || LexLess(less, a, b) || LexLess(less, b, a)
  {
    if |a| > 0 && |b| > 0 && a[0] == b[0] {
      LexConnected(less, a[1..], b[1..]);
      assert a == [a[0]] + a[1..] && b == [b[0]] + b[1..];
    } else if |a| > 0 && |b| > 0 {
      assert less(a[0], b[0]) || less(b[0], a[0]);
    }
  }

  lemma StrOrder()
    ensures StrictTotalOrder(StrLess)
  {
    var less := (c: char, d: char) => c < d;
    forall a: string ensures !StrLess(a, a) {
      LexIrreflexive(less, a);
    }
    forall a: string, b: string, c: string | StrLess(a, b) && StrLess(b, c) ensures StrLess(a, c) {
      LexTransitive(less, a, b, c);
    }
    forall a: string, b: string ensures a == b || StrLess(a, b) || StrLess(b, a) {
      LexConnected(less, a, b);
    }
  }

  lemma KeyOrder()
    ensures StrictTotalOrder(KeyLess)
  {
    StrOrder();
    forall a: Key ensures !KeyLess(a, a) {
      LexIrreflexive(StrLess, a.rest);
    }
    forall a: Key, b: Key, c: Key | KeyLess(a, b) && KeyLess(b, c) ensures KeyLess(a, c) {
      if a.first == b.first == c.first {
        LexTransitive(StrLess, a.rest, b.rest, c.rest);
      }
    }
    forall a: Key, b: Key ensures a == b || KeyLess(a, b) || KeyLess(b, a) {
      if a.first == b.first {
        LexConnected(StrLess, a.rest, b.rest);
      }
    }
  }

  /** The lesser is a proper beginning of the other, or has the lesser element where they first differ. */
  ghost predicate FirstDiffers<T(!new)>(less: (T, T) -> bool, a: seq<T>, b: seq<T>, n: nat) {
    && n <= |a| && n < |b| && a[..n] == b[..n]
    && (n == |a| || less(a[n], b[n]))
  }

  lemma {:induction false} LexLessIff<T(!new)>(less: (T, T) -> bool, a: seq<T>, b: seq<T>)
    requires forall x :: !less(x, x)
    ensures LexLess(less, a, b) <==> exists n: nat :: FirstDiffers(less, a, b, n)
  {
    forall n: nat | n > 0 && FirstDiffers(less, a, b, n) ensures a[0] == b[0] {
      assert a[0] == a[..n][0] && b[0] == b[..n][0];
    }
    if |a| > 0 && |b| > 0 && a[0] == b[0] {
      LexLessIff(less, a[1..], b[1..]);
      if n: nat :| FirstDiffers(less, a[1..], b[1..], n) {
        assert a[..n + 1] == [a[0]] + a[1..][..n] && b[..n + 1] == [b[0]] + b[1..][..n];
        assert FirstDiffers(less, a, b, n + 1);
      }
      if n: nat :| FirstDiffers(less, a, b, n) {
        assert n > 0;
        assert a[1..][..n - 1] == a[..n][1..] && b[1..][..n - 1] == b[..n][1..];
        assert FirstDiffers(less, a[1..], b[1..], n - 1);
      }
    } else if |b| > 0 && (|a| == 0 || less(a[0], b[0])) {
      assert FirstDiffers(less, a, b, 0);
    }
  }

  /** Where byte strings first differ the lesser character decides, and a beginning is less. */
  lemma StrLessIff(a: string, b: string)
    ensures StrLess(a, b) <==>
              exists n: nat :: n <= |a| && n < |b| && a[..n] == b[..n] && (n == |a| || a[n] < b[n])
  {
    var less := (c: char, d: char) => c < d;
    LexLessIff(less, a, b);
    if n: nat :| FirstDiffers(less, a, b, n) {
      assert n <= |a| && n < |b| && a[..n] == b[..n] && (n == |a| || a[n] < b[n]);
    }
    if n: nat :| n <= |a| && n < |b| && a[..n] == b[..n] && (n == |a| || a[n] < b[n]) {
      assert FirstDiffers(less, a, b, n);
    }
  }

  /** The components of a key. */
  ghost function Components(k: Key): seq<string> {
    [k.first] + k.rest
  }

  /** Where keys first differ the lesser component decides, and a beginning is less. */
  lemma KeyLessIff(a: Key, b: Key)
    ensures KeyLess(a, b) <==>
              exists n: nat :: n <= |a.rest| + 1 && n < |b.rest| + 1 && Components(a)[..n] == Components(b)[..n]
                               && (n == |a.rest| + 1 || StrLess(Components(a)[n], Components(b)[n]))
  {
    var x, y := Components(a), Components(b);
    StrOrder();
    LexLessIff(StrLess, x, y);
    assert x[1..] == a.rest && y[1..] == b.rest;
    assert KeyLess(a, b) == LexLess(StrLess, x, y);
    if n: nat :| FirstDiffers(StrLess, x, y, n) {
      assert n <= |x| && n < |y| && x[..n] == y[..n] && (n == |x| || StrLess(x[n], y[n]));
    }
    if n: nat :| n <= |x| && n < |y| && x[..n] == y[..n] && (n == |x| || StrLess(x[n], y[n])) {
      assert FirstDiffers(StrLess, x, y, n);
    }
  }

  // ---------------------------------------------------------------------------------
  // Sorting (the built-in `sorted`)

  predicate IsSorted<T(==)>(less: (T, T) -> bool, s: seq<T>) {
    forall i, j | 0 <= i < j < |s| :: !less(s[j], s[i])
  }

  function Insert<T>(less: (T, T) -> bool, x: T, s: seq<T>): (r: seq<T>)
    ensures multiset(r) == multiset(s) + multiset{x}
  {
    if |s| == 0 then [x]
    else if less(s[0], x) then
      assert s == [s[0]] + s[1..];
      [s[0]] + Insert(less, x, s[1..])
    else [x] + s
  }

  function Sorted<T>(less: (T, T) -> bool, s: seq<T>): (r: seq<T>)
    ensures multiset(r) == multiset(s)
  {
    if |s| == 0 then []
    else
      assert s == [s[0]] + s[1..];
      Insert(less, s[0], Sorted(less, s[1..]))
  }

  lemma MultisetMember<T>(s: seq<T>, t: seq<T>)
    requires multiset(s) == multiset(t)
    ensures |s| == |t|
    ensures forall x :: x in s <==> x in t
  {
    assert |multiset(s)| == |s|;
    forall x ensures x in s <==> x in t {
      assert x in s <==> x in multiset(s);
      assert x in t <==> x in multiset(t);
    }
  }

  /** Taking an element out of two permutations of one another leaves permutations. */
  lemma SameRest<T>(a: seq<T>, b: seq<T>, j: nat)
    requires multiset(a) == multiset(b) && |a| > 0 && j < |b| && b[j] == a[0]
    ensures multiset(a[1..]) == multiset(b[..j] + b[j + 1..])
  {
    assert a == [a[0]] + a[1..];
    assert b == b[..j] + [b[j]] + b[j + 1..];
    forall x ensures multiset(a[1..])[x] == multiset(b[..j] + b[j + 1..])[x] {
      assert multiset(a)[x] == multiset([a[0]])[x] + multiset(a[1..])[x];
      assert multiset(b)[x] == multiset(b[..j])[x] + multiset([b[j]])[x] + multiset(b[j + 1..])[x];
    }
  }

  lemma {:induction false} InsertSorted<T(!new)>(less: (T, T) -> bool, x: T, s: seq<T>)
    requires StrictTotalOrder(less) && IsSorted(less, s)
    ensures IsSorted(less, Insert(less, x, s))
  {
    if |s| > 0 && less(s[0], x) {
      var tail := Insert(less, x, s[1..]);
      InsertSorted(less, x, s[1..]);
      MultisetMember(tail, s[1..] + [x]);
      forall y | y in tail ensures !less(y, s[0]) {
        if y != x {
          var j :| 0 <= j < |s[1..]| && s[1..][j] == y;
          assert y == s[j + 1];
        }
      }
    } else if |s| > 0 {
      forall y | y in s ensures !less(y, x) {
        var j :| 0 <= j < |s| && s[j] == y;
      }
    }
  }

  lemma {:induction false} SortedIsSorted<T(!new)>(less: (T, T) -> bool, s: seq<T>)
    requires StrictTotalOrder(less)
    ensures IsSorted(less, Sorted(less, s))
  {
    if |s| > 0 {
      SortedIsSorted(less, s[1..]);
      InsertSorted(less, s[0], Sorted(less, s[1..]));
    }
  }

  /** Two sorted permutations of one another are equal. */
  lemma {:induction false} SortedUnique<T(!new)>(less: (T, T) -> bool, s: seq<T>, t: seq<T>)
    requires StrictTotalOrder(less) && IsSorted(less, s) && IsSorted(less, t)
    requires multiset(s) == multiset(t)
    ensures s == t
  {
    MultisetMember(s, t);
    if |s| > 0 {
      LeastFirst(less, s, t);
      SameRests(s, t);
      SortedRest(less, s);
      SortedRest(less, t);
      SortedUnique(less, s[1..], t[1..]);
      SameByParts(s, t);
    }
  }

  lemma LeastFirst<T(!new)>(less: (T, T) -> bool, s: seq<T>, t: seq<T>)
    requires StrictTotalOrder(less) && IsSorted(less, s) && IsSorted(less, t)
    requires multiset(s) == multiset(t) && |s| > 0 && |t| > 0
    ensures s[0] == t[0]
  {
    MultisetMember(s, t);
    assert s[0] in s && t[0] in t;
    LeastIn(less, s, t[0]);
    LeastIn(less, t, s[0]);
  }

  lemma LeastIn<T>(less: (T, T) -> bool, s: seq<T>, x: T)
    requires IsSorted(less, s) && x in s
    ensures x == s[0] || !less(x, s[0])
  {
    var j :| 0 <= j < |s| && s[j] == x;
    assert j > 0 ==> !less(s[j], s[0]);
  }

  lemma SameRests<T>(s: seq<T>, t: seq<T>)
    requires multiset(s) == multiset(t) && |s| > 0 && |t| > 0 && s[0] == t[0]
    ensures multiset(s[1..]) == multiset(t[1..])
  {
    SameRest(s, t, 0);
    assert t[..0] + t[1..] == t[1..];
  }

  lemma SameByParts<T>(s: seq<T>, t: seq<T>)
    requires |s| > 0 && |t| > 0 && s[0] == t[0] && s[1..] == t[1..]
    ensures s == t
  {
    assert s == [s[0]] + s[1..] && t == [t[0]] + t[1..];
  }

  lemma SortedRest<T>(less: (T, T) -> bool, s: seq<T>)
    requires IsSorted(less, s) && |s| > 0
    ensures IsSorted(less, s[1..])
  {
    forall i, j | 0 <= i < j < |s[1..]| ensures !less(s[1..][j], s[1..][i]) {
      var i', j' := i + 1, j + 1;
      assert s[1..][i] == s[i'] && s[1..][j] == s[j'];
    }
  }

  /** `sorted` depends only on the elements and their multiplicities. */
  lemma SortedCanonical<T(!new)>(less: (T, T) -> bool, s: seq<T>, t: seq<T>)
    requires StrictTotalOrder(less) && multiset(s) == multiset(t)
    ensures Sorted(less, s) == Sorted(less, t)
  {
    SortedIsSorted(less, s);
    SortedIsSorted(less, t);
    SortedUnique(less, Sorted(less, s), Sorted(less, t));
  }

  // ---------------------------------------------------------------------------------
  // Enumerating sets

  ghost function SeqOf<T>(s: set<T>): (r: seq<T>)
    ensures multiset(r) == multiset(s)
  {
    if s == {} then [] else
      var x :| x in s;
      assert s == {x} + (s - {x});
      [x] + SeqOf(s - {x})
  }

  /** The elements of a set, in some order. */
  method ListOf<T(==)>(s: set<T>) returns (listed: seq<T>)
    ensures multiset(listed) == multiset(s)
  {
    listed := [];
    var rest := s;
    while rest != {}
      invariant rest <= s && multiset(listed) == multiset(s - rest)
      decreases rest
    {
      var k :| k in rest;
      assert s - (rest - {k}) == (s - rest) + {k};
      listed := listed + [k];
      rest := rest - {k};
    }
    assert s - rest == s;
  }

  lemma {:induction false} DistinctIsSet<T>(s: seq<T>)
    requires forall i, j | 0 <= i < j < |s| :: s[i] != s[j]
    ensures multiset(s) == multiset(set x | x in s)
  {
    if |s| > 0 {
      var last := |s| - 1;
      var init := s[..last];
      DistinctIsSet(init);
      assert s == init + [s[last]];
      assert (set x | x in s) == (set x | x in init) + {s[last]};
      assert s[last] !in init;
    }
  }

  lemma {:induction false} SetAsSequence<T>(s: seq<T>, elements: set<T>)
    requires multiset(s) == multiset(elements)
    ensures forall i, j | 0 <= i < j < |s| :: s[i] != s[j]
    ensures forall x :: x in s <==> x in elements
  {
    forall i, j | 0 <= i < j < |s| ensures s[i] != s[j] {
      assert s == s[..j] + s[j..];
      assert s[i] in multiset(s[..j]) && s[j] in multiset(s[j..]);
      assert multiset(s)[s[i]] == multiset(s[..j])[s[i]] + multiset(s[j..])[s[i]];
    }
    forall x ensures x in s <==> x in elements {
      assert x in s <==> x in multiset(s);
    }
  }

  ghost function SetOf(s: seq<Key>): set<Key> {
    set k | k in s
  }

  ghost predicate NoDuplicates(s: seq<Key>) {
    forall i, j | 0 <= i < j < |s| :: s[i] != s[j]
  }

  lemma PopLast(s: seq<Key>)
    requires NoDuplicates(s) && |s| > 0
    ensures var last := |s| - 1; NoDuplicates(s[..last]) && SetOf(s[..last]) == SetOf(s) - {s[last]}
  {
    var last := |s| - 1;
    assert s == s[..last] + [s[last]];
  }

  lemma PushLast(s: seq<Key>, k: Key)
    requires NoDuplicates(s) && k !in SetOf(s)
    ensures NoDuplicates(s + [k]) && SetOf(s + [k]) == SetOf(s) + {k}
  {
    assert forall i | 0 <= i < |s| :: s[i] in s;
  }
}

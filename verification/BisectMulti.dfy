/** Looking up many keys at once by bisecting byte offsets. */
module BisectMulti {
  import opened Wrappers
  import opened Keys
  import opened Logarithms

  /** A place to look for a key. */
  type Probe = (int, Key)

  datatype Status<+V> = Earlier | Later | Missing | Found(value: V)

  /**
   Where a key is decided: a probe between `lo` and `hi` finds its value, or that it has
   none; a probe outside is told on which side to go on.
   */
  datatype Place<+V> = Place(lo: int, hi: int, value: Option<V>)

  function Answer<V>(place: Place<V>, offset: int): Status<V> {
    if offset < place.lo then Later
    else if place.hi < offset then Earlier
    else match place.value case None => Missing case Some(v) => Found(v)
  }

  /** The offsets that make sense; a probe at 0 does even in empty content. */
  predicate InContent(size: nat, offset: int) {
    0 <= offset && (offset < size || offset == 0)
  }

  ghost function Probes<V>(answers: seq<(Probe, Status<V>)>): (r: seq<Probe>)
    ensures |r| == |answers|
  {
    seq(|answers|, i requires 0 <= i < |answers| => answers[i].0)
  }

  /** Every probe is answered once, in any order, and truthfully. */
  ghost predicate Answers<V>(places: Key -> Place<V>, probes: seq<Probe>, answers: seq<(Probe, Status<V>)>) {
    && multiset(Probes(answers)) == multiset(probes)
    && forall i {:trigger answers[i]} | 0 <= i < |answers| ::
         answers[i].1 == Answer(places(answers[i].0.1), answers[i].0.0)
  }

  /** The contract of the lookup: it is asked inside the content only. */
  ghost predicate Truthful<V>(lookup: seq<Probe> -> seq<(Probe, Status<V>)>, size: nat, places: Key -> Place<V>) {
    && (forall k {:trigger places(k)} :: InContent(size, places(k).lo) && InContent(size, places(k).hi)
                                         && places(k).lo <= places(k).hi)
    && forall probes: seq<Probe> {:trigger lookup(probes)} |
         (forall i | 0 <= i < |probes| :: InContent(size, probes[i].0)) :: Answers(places, probes, lookup(probes))
  }

  // ---------------------------------------------------------------------------------
  // How close a probe is

  function Distance<V>(place: Place<V>, offset: int): nat {
    if offset < place.lo then place.lo - offset else if place.hi < offset then offset - place.hi else 0
  }

  /** How far the halving has come after `rounds` rounds. */
  ghost predicate Halved(size: nat, delta: nat, rounds: nat) {
    var k0 := FloorLog2(size / 2);
    if rounds <= k0 then rounds + FloorLog2(delta) == k0 && (size >= 2 ==> delta >= 1) && delta <= size / 2
    else delta == 1 && size >= 2
  }

  /**
   A probe that is still to be made. While the step is being halved it is at most the last
   step and one for each halving away, and no nearer to either end than the last step;
   after that it is one nearer with each round.
   */
  ghost predicate Near<V>(places: Key -> Place<V>, size: nat, delta: nat, rounds: nat, probe: Probe) {
    var k0 := FloorLog2(size / 2);
    var d := Distance(places(probe.1), probe.0);
    && InContent(size, probe.0)
    && if rounds <= k0 then delta <= probe.0 <= size - delta && d <= delta + rounds else d + rounds <= 1 + 2 * k0
  }

  ghost predicate AllNear<V>(places: Key -> Place<V>, size: nat, delta: nat, rounds: nat, probes: seq<Probe>) {
    forall i {:trigger probes[i]} | 0 <= i < |probes| :: Near(places, size, delta, rounds, probes[i])
  }

  function Step(delta: nat): nat {
    if delta > 1 then delta / 2 else delta
  }

  lemma HalvedNext(size: nat, delta: nat, rounds: nat)
    requires size >= 2 && Halved(size, delta, rounds)
    ensures Halved(size, Step(delta), rounds + 1)
  {
  }

  /** A probe that is sent on is nearer by the new step. */
  lemma NearNext<V>(places: Key -> Place<V>, size: nat, delta: nat, rounds: nat, probe: Probe)
    requires size >= 2 && Halved(size, delta, rounds) && Near(places, size, delta, rounds, probe)
    requires places(probe.1).lo <= places(probe.1).hi
    requires InContent(size, places(probe.1).lo) && InContent(size, places(probe.1).hi)
    ensures match Answer(places(probe.1), probe.0)
            case Earlier => Near(places, size, Step(delta), rounds + 1, (probe.0 - Step(delta), probe.1))
            case Later => Near(places, size, Step(delta), rounds + 1, (probe.0 + Step(delta), probe.1))
            case _ => true
  {
    var k0, step := FloorLog2(size / 2), Step(delta);
    if rounds < k0 {
      assert delta >= 2 && step == delta / 2 && 2 * step <= delta <= 2 * step + 1;
    } else {
      assert step == 1 && FloorLog2(delta) == 0;
    }
  }

  /** Tiny content is decided by the one probe at its beginning. */
  lemma TinyIsDecided<V>(places: Key -> Place<V>, size: nat, probe: Probe)
    requires size < 2 && InContent(size, probe.0)
    requires InContent(size, places(probe.1).lo) && InContent(size, places(probe.1).hi)
    ensures !Answer(places(probe.1), probe.0).Earlier? && !Answer(places(probe.1), probe.0).Later?
  {
  }

  // ---------------------------------------------------------------------------------
  // What comes out

  ghost function KeysOf(probes: seq<Probe>): (r: seq<Key>)
    ensures |r| == |probes|
  {
    seq(|probes|, i requires 0 <= i < |probes| => probes[i].1)
  }

  lemma KeysOfAppend(probes: seq<Probe>, p: Probe)
    ensures KeysOf(probes + [p]) == KeysOf(probes) + [p.1]
  {
  }

  lemma {:induction false} KeysPermuted(a: seq<Probe>, b: seq<Probe>)
    requires multiset(a) == multiset(b)
    ensures multiset(KeysOf(a)) == multiset(KeysOf(b))
    decreases |a|
  {
    MultisetMember(a, b);
    if |a| > 0 {
      assert a[0] in b;
      var j :| 0 <= j < |b| && b[j] == a[0];
      var rest := b[..j] + b[j + 1..];
      SameRest(a, b, j);
      KeysPermuted(a[1..], rest);
      assert KeysOf(a) == [a[0].1] + KeysOf(a[1..]);
      assert KeysOf(b) == KeysOf(b[..j]) + [a[0].1] + KeysOf(b[j + 1..]);
      assert KeysOf(rest) == KeysOf(b[..j]) + KeysOf(b[j + 1..]);
    }
  }

  /** How often `(k, v)` has to come out for the given keys. */
  ghost function Due<V>(places: Key -> Place<V>, keys: seq<Key>, k: Key, v: V): nat {
    if places(k).value == Some(v) then multiset(keys)[k] else 0
  }

  ghost predicate AccountedAt<V>(places: Key -> Place<V>, keys: seq<Key>, result: seq<(Key, V)>, pending: seq<Key>, k: Key, v: V) {
    multiset(result)[(k, v)] + Due(places, pending, k, v) == Due(places, keys, k, v)
  }

  /** What is out and what the pending keys will yield make up what is due. */
  ghost predicate Accounted<V(!new)>(places: Key -> Place<V>, keys: seq<Key>, result: seq<(Key, V)>, pending: seq<Key>) {
    forall k, v {:trigger AccountedAt(places, keys, result, pending, k, v)} :: AccountedAt(places, keys, result, pending, k, v)
  }

  /** One answer: the key goes on, has no value, or has come out. */
  lemma AccountedNext<V(!new)>(places: Key -> Place<V>, keys: seq<Key>, result: seq<(Key, V)>, onward: seq<Key>, key: Key,
                               rest: seq<Key>, status: Status<V>)
    requires Accounted(places, keys, result, onward + ([key] + rest))
    requires status.Missing? ==> places(key).value.None?
    requires status.Found? ==> places(key).value == Some(status.value)
    ensures match status
            case Missing => Accounted(places, keys, result, onward + rest)
            case Found(v) => Accounted(places, keys, result + [(key, v)], onward + rest)
            case _ => Accounted(places, keys, result, (onward + [key]) + rest)
  {
    var result' := if status.Found? then result + [(key, status.value)] else result;
    var pending' := if status.Missing? || status.Found? then onward + rest else (onward + [key]) + rest;
    forall k, v ensures AccountedAt(places, keys, result', pending', k, v) {
      assert AccountedAt(places, keys, result, onward + ([key] + rest), k, v);
    }
  }

  /** The answers of a round: what is found, and where to look next. */
  method SortOut<V(!new)>(answers: seq<(Probe, Status<V>)>, delta: nat, ghost places: Key -> Place<V>, ghost size: nat,
                          ghost rounds: nat, ghost keys: seq<Key>, ghost before: seq<(Key, V)>)
      returns (result: seq<(Key, V)>, onward: seq<Probe>)
    requires Ordered(places, size)
    requires forall i {:trigger answers[i]} | 0 <= i < |answers| ::
               answers[i].1 == Answer(places(answers[i].0.1), answers[i].0.0)
               && SentOnNear(places, size, delta, rounds, answers[i].0, answers[i].1)
    requires Accounted(places, keys, before, KeysOf(Probes(answers)))
    ensures AllNear(places, size, delta, rounds, onward) && (size < 2 ==> onward == [])
    ensures Accounted(places, keys, before + result, KeysOf(onward))
  {
    result, onward := [], [];
    ghost var all := KeysOf(Probes(answers));
    assert KeysOf(onward) + all == all && before + result == before;
    for i := 0 to |answers|
      invariant AllNear(places, size, delta, rounds, onward) && (size < 2 ==> onward == [])
      invariant Accounted(places, keys, before + result, KeysOf(onward) + all[i..])
    {
      var ((location, key), status) := answers[i];
      assert all[i..] == [key] + all[i + 1..];
      AccountedNext(places, keys, before + result, KeysOf(onward), key, all[i + 1..], status);
      match status
      case Earlier =>
        KeysOfAppend(onward, (location - delta, key));
        onward := onward + [(location - delta, key)];
      case Later =>
        KeysOfAppend(onward, (location + delta, key));
        onward := onward + [(location + delta, key)];
      case Missing =>
      case Found(v) =>
        assert before + (result + [(key, v)]) == before + result + [(key, v)];
        result := result + [(key, v)];
    }
    assert KeysOf(onward) + all[|answers|..] == KeysOf(onward);
  }

  ghost predicate Ordered<V>(places: Key -> Place<V>, size: nat) {
    forall k {:trigger places(k)} ::
      InContent(size, places(k).lo) && InContent(size, places(k).hi) && places(k).lo <= places(k).hi
  }

  ghost predicate SentOnNear<V>(places: Key -> Place<V>, size: nat, delta: nat, rounds: nat, probe: Probe, status: Status<V>) {
    match status
    case Earlier => size >= 2 && Near(places, size, delta, rounds, (probe.0 - delta, probe.1))
    case Later => size >= 2 && Near(places, size, delta, rounds, (probe.0 + delta, probe.1))
    case _ => true
  }

  /** Before a round: tiny content takes one round, other content is halved. */
  ghost predicate Searching<V>(places: Key -> Place<V>, size: nat, delta: nat, rounds: nat, probes: seq<Probe>) {
    if size < 2 && rounds > 0 then rounds == 1 && probes == []
    else Halved(size, delta, rounds) && AllNear(places, size, delta, rounds, probes)
  }

  function Bound(size: nat): nat {
    if size < 2 then 1 else 2 * FloorLog2(size / 2) + 2
  }

  lemma Start<V(!new)>(places: Key -> Place<V>, size: nat, keys: seq<Key>, probes: seq<Probe>)
    requires Ordered(places, size)
    requires |probes| == |keys| && forall i | 0 <= i < |keys| :: probes[i] == (size / 2, keys[i])
    ensures Searching(places, size, size / 2, 0, probes) && Accounted(places, keys, [], KeysOf(probes))
  {
    assert KeysOf(probes) == keys;
    forall i | 0 <= i < |probes| ensures Near(places, size, size / 2, 0, probes[i]) {
      assert InContent(size, places(keys[i]).lo);
    }
    forall k, v ensures AccountedAt(places, keys, [], keys, k, v) {}
  }

  lemma NotYetDone<V>(places: Key -> Place<V>, size: nat, delta: nat, rounds: nat, probes: seq<Probe>)
    requires Searching(places, size, delta, rounds, probes) && |probes| > 0
    ensures rounds < Bound(size)
    ensures forall i {:trigger probes[i]} | 0 <= i < |probes| :: InContent(size, probes[i].0)
  {
    assert Near(places, size, delta, rounds, probes[0]);
  }

  lemma ProbeAnswered<V>(places: Key -> Place<V>, size: nat, delta: nat, rounds: nat, probe: Probe)
    requires Ordered(places, size) && (size < 2 ==> rounds == 0)
    requires Halved(size, delta, rounds) && Near(places, size, delta, rounds, probe)
    ensures SentOnNear(places, size, Step(delta), rounds + 1, probe, Answer(places(probe.1), probe.0))
  {
    assert InContent(size, places(probe.1).lo);
    if size < 2 {
      TinyIsDecided(places, size, probe);
    } else {
      NearNext(places, size, delta, rounds, probe);
    }
  }

  lemma RoundAnswered<V(!new)>(places: Key -> Place<V>, size: nat, delta: nat, rounds: nat, keys: seq<Key>,
                               result: seq<(Key, V)>, asked: seq<Probe>, answers: seq<(Probe, Status<V>)>)
    requires Ordered(places, size) && Answers(places, asked, answers)
    requires Searching(places, size, delta, rounds, asked) && |asked| > 0
    requires Accounted(places, keys, result, KeysOf(asked))
    ensures forall i {:trigger answers[i]} | 0 <= i < |answers| ::
              answers[i].1 == Answer(places(answers[i].0.1), answers[i].0.0)
              && SentOnNear(places, size, Step(delta), rounds + 1, answers[i].0, answers[i].1)
    ensures Accounted(places, keys, result, KeysOf(Probes(answers)))
  {
    var probes := Probes(answers);
    MultisetMember(probes, asked);
    forall i | 0 <= i < |answers|
      ensures SentOnNear(places, size, Step(delta), rounds + 1, answers[i].0, answers[i].1)
    {
      assert probes[i] in asked;
      ProbeAnswered(places, size, delta, rounds, probes[i]);
    }
    KeysPermuted(probes, asked);
    forall k, v ensures AccountedAt(places, keys, result, KeysOf(probes), k, v) {
      assert AccountedAt(places, keys, result, KeysOf(asked), k, v);
    }
  }

  /** All rounds ask inside the content only. */
  ghost predicate AskedInside(size: nat, calls: seq<seq<Probe>>) {
    forall r, i {:trigger calls[r][i]} | 0 <= r < |calls| && 0 <= i < |calls[r]| :: InContent(size, calls[r][i].0)
  }

  /**
   Every key that has a value comes out with it, as often as it was asked for, and no other
   does. The number of rounds is twice the number of halvings and two, and no probe is
   outside the content.
   */
  method BisectMultiBytes<V(!new)>(lookup: seq<Probe> -> seq<(Probe, Status<V>)>, size: nat, keys: seq<Key>,
                                   ghost places: Key -> Place<V>)
      returns (result: seq<(Key, V)>, ghost calls: seq<seq<Probe>>)
    requires Truthful(lookup, size, places)
    ensures forall k, v :: multiset(result)[(k, v)] == if places(k).value == Some(v) then multiset(keys)[k] else 0
    ensures |calls| <= if size < 2 then 1 else 2 * FloorLog2(size / 2) + 2
    ensures AskedInside(size, calls)
  {
    result, calls := [], [];
    var delta: nat := size / 2;
    var searchKeys: seq<Probe> := seq(|keys|, i requires 0 <= i < |keys| => (delta, keys[i]));
    assert Ordered(places, size);
    Start(places, size, keys, searchKeys);
    while |searchKeys| > 0
      invariant Searching(places, size, delta, |calls|, searchKeys)
      invariant Accounted(places, keys, result, KeysOf(searchKeys))
      invariant AskedInside(size, calls) && |calls| <= Bound(size)
      decreases Bound(size) - |calls|
    {
      ghost var asked, rounds := searchKeys, |calls|;
      NotYetDone(places, size, delta, rounds, asked);
      var searchResults := lookup(searchKeys);
      RoundAnswered(places, size, delta, rounds, keys, result, asked, searchResults);
      calls := calls + [asked];
      if size >= 2 {
        HalvedNext(size, delta, rounds);
      }
      if delta > 1 {
        delta := delta / 2;
      }
      var found, onward := SortOut(searchResults, delta, places, size, rounds + 1, keys, result);
      result := result + found;
      searchKeys := onward;
    }
    forall k, v ensures multiset(result)[(k, v)] == Due(places, keys, k, v) {
      assert AccountedAt(places, keys, result, KeysOf(searchKeys), k, v);
    }
  }
}

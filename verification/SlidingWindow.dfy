/**
 A bucket of time-stamped events, oldest first, from which expired events are popped lazily.
 Times are integer ticks, one microsecond each.
 */
module SlidingWindow {

  const SECOND: int := 1_000_000
  const MINUTE: int := 60 * SECOND
  const HOUR: int := 60 * MINUTE

  /** What is left of the bucket once everything at its front older than the cutoff is popped. */
  function Evict<A>(bucket: seq<A>, when: A -> int, cutoff: int): seq<A> {
    if bucket != [] && when(bucket[0]) < cutoff then Evict(bucket[1..], when, cutoff) else bucket
  }

  method PopExpired<A>(bucket: seq<A>, when: A -> int, cutoff: int) returns (kept: seq<A>)
    ensures kept == Evict(bucket, when, cutoff)
  {
    kept := bucket;
    while kept != [] && when(kept[0]) < cutoff
      invariant Evict(kept, when, cutoff) == Evict(bucket, when, cutoff)
      decreases |kept|
    {
      kept := kept[1..];
    }
  }

  lemma {:induction false} EvictTwice<A>(bucket: seq<A>, when: A -> int, early: int, late: int)
    requires early <= late
    ensures Evict(Evict(bucket, when, early), when, late) == Evict(bucket, when, late)
  {
    if bucket != [] && when(bucket[0]) < early {
      EvictTwice(bucket[1..], when, early, late);
    }
  }

  lemma {:induction false} EvictAppend<A>(bucket: seq<A>, x: A, when: A -> int, cutoff: int)
    ensures Evict(bucket + [x], when, cutoff) ==
            if Evict(bucket, when, cutoff) != [] then Evict(bucket, when, cutoff) + [x] else Evict([x], when, cutoff)
  {
    if bucket == [] {
      assert bucket + [x] == [x];
    } else if when(bucket[0]) < cutoff {
      assert (bucket + [x])[1..] == bucket[1..] + [x];
      EvictAppend(bucket[1..], x, when, cutoff);
    }
  }

  /** The lazily evicted bucket answers like the full history for every cutoff from `from` on. */
  ghost predicate Tracks<A>(bucket: seq<A>, history: seq<A>, when: A -> int, from: int) {
    forall cutoff :: cutoff >= from ==> Evict(bucket, when, cutoff) == Evict(history, when, cutoff)
  }

  /** Popping what expired before a later cutoff loses nothing that a later question can see. */
  lemma TracksAfterEviction<A>(bucket: seq<A>, history: seq<A>, when: A -> int, from: int, cutoff: int)
    requires Tracks(bucket, history, when, from) && from <= cutoff
    ensures Tracks(Evict(bucket, when, cutoff), history, when, cutoff)
  {
    forall later | later >= cutoff
      ensures Evict(Evict(bucket, when, cutoff), when, later) == Evict(history, when, later)
    {
      EvictTwice(bucket, when, cutoff, later);
    }
  }

  lemma TracksLater<A>(bucket: seq<A>, history: seq<A>, when: A -> int, from: int, later: int)
    requires Tracks(bucket, history, when, from) && from <= later
    ensures Tracks(bucket, history, when, later)
  {
  }

  lemma TracksAfterAppend<A>(bucket: seq<A>, history: seq<A>, x: A, when: A -> int, from: int)
    requires Tracks(bucket, history, when, from)
    ensures Tracks(bucket + [x], history + [x], when, from)
  {
    forall cutoff | cutoff >= from
      ensures Evict(bucket + [x], when, cutoff) == Evict(history + [x], when, cutoff)
    {
      EvictAppend(bucket, x, when, cutoff);
      EvictAppend(history, x, when, cutoff);
    }
  }

  function Itself(t: int): int { t }

  function AnyTime(t: int): bool { true }

  function Bucket<K, A>(buckets: map<K, seq<A>>, k: K): seq<A> {
    if k in buckets then buckets[k] else []
  }

  // ---------- counting what the bucket holds ----------

  function Number<A>(s: seq<A>, shows: A -> bool): nat {
    if s == [] then 0 else Number(s[..|s| - 1], shows) + if shows(s[|s| - 1]) then 1 else 0
  }

  function NumberSince<A>(s: seq<A>, when: A -> int, shows: A -> bool, from: int): nat {
    if s == [] then 0
    else
      var x := s[|s| - 1];
      NumberSince(s[..|s| - 1], when, shows, from) + if shows(x) && when(x) >= from then 1 else 0
  }

  function NumberBetween<A>(s: seq<A>, when: A -> int, shows: A -> bool, from: int, to: int): nat {
    if s == [] then 0
    else
      var x := s[|s| - 1];
      NumberBetween(s[..|s| - 1], when, shows, from, to) + if shows(x) && from <= when(x) <= to then 1 else 0
  }

  ghost predicate Chronological<A>(s: seq<A>, when: A -> int) {
    forall i, j :: 0 <= i < j < |s| ==> when(s[i]) <= when(s[j])
  }

  lemma OneMore<A>(s: seq<A>, x: A, when: A -> int, shows: A -> bool, from: int, to: int)
    ensures Number(s + [x], shows) == Number(s, shows) + if shows(x) then 1 else 0
    ensures NumberSince(s + [x], when, shows, from) ==
            NumberSince(s, when, shows, from) + if shows(x) && when(x) >= from then 1 else 0
    ensures NumberBetween(s + [x], when, shows, from, to) ==
            NumberBetween(s, when, shows, from, to) + if shows(x) && from <= when(x) <= to then 1 else 0
  {
    assert (s + [x])[..|s|] == s;
  }

  lemma {:induction false} BetweenWithinSince<A>(s: seq<A>, when: A -> int, shows: A -> bool, from: int, to: int,
                                                 earlier: int)
    requires earlier <= from
    ensures NumberBetween(s, when, shows, from, to) <= NumberSince(s, when, shows, earlier)
  {
    if s != [] {
      BetweenWithinSince(s[..|s| - 1], when, shows, from, to, earlier);
    }
  }

  /** An event in the window finds no fewer in its own look back than the window held before it. */
  lemma WindowOneMore<A>(s: seq<A>, x: A, when: A -> int, shows: A -> bool, from: int, width: int)
    ensures var before, after := NumberBetween(s, when, shows, from, from + width),
            NumberBetween(s + [x], when, shows, from, from + width);
            if shows(x) && from <= when(x) <= from + width
            then after == before + 1 && before <= NumberSince(s, when, shows, when(x) - width)
            else after == before
  {
    OneMore(s, x, when, shows, from, from + width);
    if when(x) <= from + width {
      BetweenWithinSince(s, when, shows, from, from + width, when(x) - width);
    }
  }

  ghost predicate NoneAfter<A>(s: seq<A>, when: A -> int, time: int) {
    forall i :: 0 <= i < |s| ==> when(s[i]) <= time
  }

  /** Where nothing is later than `to`, counting from a time on is counting up to it. */
  lemma {:induction false} SinceIsBetween<A>(s: seq<A>, when: A -> int, shows: A -> bool, from: int, to: int)
    requires NoneAfter(s, when, to)
    ensures NumberSince(s, when, shows, from) == NumberBetween(s, when, shows, from, to)
  {
    if s != [] {
      SinceIsBetween(s[..|s| - 1], when, shows, from, to);
    }
  }

  lemma {:induction false} AllExpired<A>(s: seq<A>, when: A -> int, shows: A -> bool, cutoff: int)
    requires forall i :: 0 <= i < |s| ==> when(s[i]) < cutoff
    ensures NumberSince(s, when, shows, cutoff) == 0 && Evict(s, when, cutoff) == []
  {
    if s != [] {
      var front, x := s[..|s| - 1], s[|s| - 1];
      AllExpired(front, when, shows, cutoff);
      assert s == front + [x];
      EvictAppend(front, x, when, cutoff);
    }
  }

  /** What the evicted bucket shows is what the history shows at or after the cutoff. */
  lemma {:induction false} EvictedNumber<A>(s: seq<A>, when: A -> int, shows: A -> bool, cutoff: int)
    requires Chronological(s, when)
    ensures Number(Evict(s, when, cutoff), shows) == NumberSince(s, when, shows, cutoff)
  {
    if s != [] {
      var front, x := s[..|s| - 1], s[|s| - 1];
      assert s == front + [x];
      if when(x) < cutoff {
        AllExpired(s, when, shows, cutoff);
      } else {
        EvictedNumber(front, when, shows, cutoff);
        EvictAppend(front, x, when, cutoff);
        OneMore(Evict(front, when, cutoff), x, when, shows, cutoff, cutoff);
        assert [x][..0] == [];
      }
    }
  }

  /** The size of an evicted bucket of times is the number of times at or after the cutoff. */
  lemma EvictedSize(times: seq<int>, cutoff: int)
    requires Chronological(times, Itself)
    ensures |Evict(times, Itself, cutoff)| == NumberSince(times, Itself, AnyTime, cutoff)
  {
    EvictedNumber(times, Itself, AnyTime, cutoff);
    SizeIsNumber(Evict(times, Itself, cutoff));
  }

  lemma {:induction false} SizeIsNumber(times: seq<int>)
    ensures Number(times, AnyTime) == |times|
  {
    if times != [] {
      SizeIsNumber(times[..|times| - 1]);
    }
  }
}

/**
 The general request limiter: one sliding minute per identity. What happens before the request is
 passed on has no `await` in it, so each `Dispatch` decides in one piece.
 */
module RateLimit {
  import opened Prelude
  import Decimal
  import opened SlidingWindow

  /** `userId` is what the auth middleware left on the request; `host` the client address. */
  datatype Request = Request(path: string, userId: Option<int>, host: Option<string>)

  datatype Answer = Exempt | TooManyRequests | Admitted

  predicate IsExempt(path: string) {
    "/api/health" <= path || "/docs" <= path || "/redoc" <= path || "/openapi.json" <= path
  }

  /** A user id of 0 counts as none. */
  function Identity(request: Request): string {
    if request.userId.Some? && request.userId.value != 0 then "user:" + Decimal.OfInt(request.userId.value)
    else if request.host.Some? then "ip:" + request.host.value
    else "ip:unknown"
  }

  /** Users have a bucket each, and none shares one with an address. */
  lemma IdentitySeparates(a: Request, b: Request)
    requires a.userId.Some? && a.userId.value != 0
    ensures Identity(a) == Identity(b) <==> b.userId == a.userId
  {
    if b.userId.Some? && b.userId.value != 0 {
      assert Identity(a)[5..] == Decimal.OfInt(a.userId.value);
      assert Identity(b)[5..] == Decimal.OfInt(b.userId.value);
      if Identity(a) == Identity(b) {
        Decimal.IntInjective(a.userId.value, b.userId.value);
      }
    } else {
      assert Identity(a)[0] == 'u' && Identity(b)[0] == 'i';
    }
  }

  /** Requests without a user share a bucket just when they come from one address, "unknown" standing for none. */
  lemma AddressesSeparate(a: Request, b: Request)
    requires a.userId == None || a.userId == Some(0)
    requires b.userId == None || b.userId == Some(0)
    ensures Identity(a) == Identity(b) <==>
            a.host == b.host || (a.host == None && b.host == Some("unknown")) ||
            (a.host == Some("unknown") && b.host == None)
  {
    assert a.host.Some? ==> Identity(a)[3..] == a.host.value;
    assert b.host.Some? ==> Identity(b)[3..] == b.host.value;
    assert "ip:unknown"[3..] == "unknown";
  }

  /** An admitted request. */
  datatype Hit = Hit(identity: string, time: int)

  /** Hits of the identity at or after `from`. */
  function CountSince(log: seq<Hit>, identity: string, from: int): nat {
    NumberSince(Times(log, identity), Itself, AnyTime, from)
  }

  function CountBetween(log: seq<Hit>, identity: string, from: int, to: int): nat {
    NumberBetween(Times(log, identity), Itself, AnyTime, from, to)
  }

  function Times(log: seq<Hit>, identity: string): seq<int> {
    if log == [] then []
    else
      var h := log[|log| - 1];
      Times(log[..|log| - 1], identity) + if h.identity == identity then [h.time] else []
  }

  ghost predicate NotAfter(log: seq<Hit>, time: int) {
    forall i :: 0 <= i < |log| ==> log[i].time <= time
  }

  /** The log is chronological, and each hit found fewer than `limit` hits in the minute that it closes. */
  ghost predicate Admissible(log: seq<Hit>, limit: int) {
    log != [] ==>
      var front, h := log[..|log| - 1], log[|log| - 1];
      && Admissible(front, limit)
      && NotAfter(front, h.time)
      && CountSince(front, h.identity, h.time - MINUTE) < limit
  }

  /** The hits of the identity between two times, the ends included. */
  ghost function HitsIn(log: seq<Hit>, identity: string, from: int, to: int): set<nat> {
    set i: nat | i < |log| && log[i].identity == identity && from <= log[i].time <= to
  }

  lemma HitsGrow(log: seq<Hit>, h: Hit, identity: string, from: int, to: int)
    ensures HitsIn(log + [h], identity, from, to) ==
            HitsIn(log, identity, from, to) + if h.identity == identity && from <= h.time <= to then {|log|} else {}
  {
    var all := log + [h];
    assert forall i: nat :: i < |log| ==> all[i] == log[i];
  }

  lemma {:induction false} HitsCounted(log: seq<Hit>, identity: string, from: int, to: int)
    ensures CountBetween(log, identity, from, to) == |HitsIn(log, identity, from, to)|
  {
    if log != [] {
      var front, h := log[..|log| - 1], log[|log| - 1];
      assert log == front + [h];
      HitsCounted(front, identity, from, to);
      HitsGrow(front, h, identity, from, to);
      TimesGrow(log, identity);
      OneMore(Times(front, identity), h.time, Itself, AnyTime, from, to);
    }
  }

  /** What is compared with the limit is the number of hits in the last minute. */
  lemma CountMeans(log: seq<Hit>, limit: int, identity: string, now: int)
    requires Admissible(log, limit) && NotAfter(log, now)
    ensures CountSince(log, identity, now - MINUTE) == |HitsIn(log, identity, now - 60_000_000, now)|
  {
    TimesInOrder(log, limit, identity, now);
    SinceIsBetween(Times(log, identity), Itself, AnyTime, now - MINUTE, now);
    HitsCounted(log, identity, now - MINUTE, now);
  }

  lemma TimesGrow(log: seq<Hit>, identity: string)
    requires log != []
    ensures var front, h := log[..|log| - 1], log[|log| - 1];
            Times(log, identity) == if h.identity == identity then Times(front, identity) + [h.time]
                else Times(front, identity)
  {
  }

  /** No closed minute holds more than `limit` admitted requests of one identity. */
  lemma {:induction false} MinuteBound(log: seq<Hit>, limit: nat, identity: string, from: int)
    requires Admissible(log, limit)
    ensures CountBetween(log, identity, from, from + MINUTE) <= limit
  {
    if log != [] {
      var front, h := log[..|log| - 1], log[|log| - 1];
      MinuteBound(front, limit, identity, from);
      TimesGrow(log, identity);
      if h.identity == identity {
        WindowOneMore(Times(front, identity), h.time, Itself, AnyTime, from, MINUTE);
      }
    }
  }

  lemma {:induction false} TimesInOrder(log: seq<Hit>, limit: int, identity: string, time: int)
    requires Admissible(log, limit) && NotAfter(log, time)
    ensures Chronological(Times(log, identity), Itself) && NoneAfter(Times(log, identity), Itself, time)
  {
    if log != [] {
      TimesInOrder(log[..|log| - 1], limit, identity, log[|log| - 1].time);
      TimesGrow(log, identity);
    }
  }

  ghost predicate BucketsTrack(buckets: map<string, seq<int>>, log: seq<Hit>, from: int) {
    forall id :: Tracks(Bucket(buckets, id), Times(log, id), Itself, from)
  }

  lemma BucketEvicted(buckets: map<string, seq<int>>, log: seq<Hit>, limit: int, identity: string, now: int)
    requires Admissible(log, limit) && NotAfter(log, now) && BucketsTrack(buckets, log, now - MINUTE)
    ensures var kept := Evict(Bucket(buckets, identity), Itself, now - MINUTE);
            BucketsTrack(buckets[identity := kept], log, now - MINUTE) &&
            |kept| == CountSince(log, identity, now - MINUTE)
  {
    TracksAfterEviction(Bucket(buckets, identity), Times(log, identity), Itself, now - MINUTE, now - MINUTE);
    TimesInOrder(log, limit, identity, now);
    EvictedSize(Times(log, identity), now - MINUTE);
  }

  lemma HitRecorded(buckets: map<string, seq<int>>, log: seq<Hit>, from: int, h: Hit)
    requires BucketsTrack(buckets, log, from)
    ensures BucketsTrack(buckets[h.identity := Bucket(buckets, h.identity) + [h.time]], log + [h], from)
  {
    var after := buckets[h.identity := Bucket(buckets, h.identity) + [h.time]];
    assert (log + [h])[..|log|] == log;
    forall id ensures Tracks(Bucket(after, id), Times(log + [h], id), Itself, from) {
      TimesGrow(log + [h], id);
      TracksAfterAppend(Bucket(buckets, id), Times(log, id), h.time, Itself, from);
    }
  }

  lemma AdmissibleExtends(log: seq<Hit>, limit: int, h: Hit)
    requires Admissible(log, limit) && NotAfter(log, h.time) && CountSince(log, h.identity, h.time - MINUTE) < limit
    ensures Admissible(log + [h], limit) && NotAfter(log + [h], h.time)
  {
    assert (log + [h])[..|log|] == log;
  }

  class RateLimitMiddleware {
    const limit: int
    var buckets: map<string, seq<int>>
    ghost var log: seq<Hit>
    ghost var clock: int

    ghost predicate Valid()
      reads this
    {
      Admissible(log, limit) && NotAfter(log, clock) && BucketsTrack(buckets, log, clock - MINUTE)
    }

    constructor (limit: int)
      ensures Valid() && log == [] && this.limit == limit
    {
      this.limit := limit;
      buckets, log, clock := map[], [], 0;
    }

    /** Admits exactly when the full log has fewer than `limit` hits of the identity in the closed last minute. */
    method Dispatch(request: Request, now: int) returns (answer: Answer)
      requires Valid() && clock <= now
      modifies this
      ensures Valid() && clock == if answer == Exempt then old(clock) else now
      ensures answer == Exempt <==>
              "/api/health" <= request.path || "/docs" <= request.path || "/redoc" <= request.path ||
              "/openapi.json" <= request.path
      ensures answer == Admitted <==>
              answer != Exempt && |HitsIn(old(log), Identity(request), now - 60_000_000, now)| < limit
      ensures log == if answer == Admitted then old(log) + [Hit(Identity(request), now)] else old(log)
    {
      if IsExempt(request.path) {
        return Exempt;
      }
      clock := now;
      var identity := Identity(request);
      CountMeans(log, limit, identity, now);
      var recent := EvictOld(identity, now);
      if recent >= limit {
        return TooManyRequests;
      }
      HitRecorded(buckets, log, now - MINUTE, Hit(identity, now));
      AdmissibleExtends(log, limit, Hit(identity, now));
      buckets := buckets[identity := Bucket(buckets, identity) + [now]];
      log := log + [Hit(identity, now)];
      return Admitted;
    }

    method EvictOld(identity: string, now: int) returns (recent: nat)
      requires Admissible(log, limit) && NotAfter(log, now) && BucketsTrack(buckets, log, now - MINUTE)
      modifies this`buckets
      ensures BucketsTrack(buckets, log, now - MINUTE)
      ensures recent == CountSince(log, identity, now - MINUTE) == |Bucket(buckets, identity)|
    {
      var bucket := PopExpired(Bucket(buckets, identity), Itself, now - MINUTE);
      BucketEvicted(buckets, log, limit, identity, now);
      buckets := buckets[identity := bucket];
      return |bucket|;
    }
  }
}

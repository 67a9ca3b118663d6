/**
 The AI rate gate: two sliding windows per user, a limit on identical questions, and temporary bans.
 The class keeps lazily evicted buckets; its specification decides from the full history of events.
 */
module AiRateGate {
  import opened Prelude
  import opened SlidingWindow

  const IDENTICAL_QUESTION_LIMIT: nat := 10
  const INJECTION_BAN: int := 60 * MINUTE

  datatype Limits = Limits(perHour: nat, perMinute: nat)

  function LimitsOf(role: Option<string>): Limits {
    match role
    case Some("collector") => Limits(30, 5)
    case Some("reviewer") => Limits(50, 8)
    case Some("esg_manager") => Limits(100, 15)
    case Some("admin") => Limits(200, 20)
    case Some("platform_admin") => Limits(200, 20)
    case Some("auditor") => Limits(30, 5)
    case _ => Limits(10, 2)
  }

  /** What has happened so far, oldest first. Questions are kept normalised; rejected calls leave no event. */
  datatype Event =
    | Accepted(user: int, role: Option<string>, question: Option<string>, time: int)
    | Banned(user: int, time: int)

  datatype Verdict =
    | Pass
    | TempBanned(remainingMinutes: int)
    | MinuteLimited
    | HourLimited
    | AbuseDetected

  // ---------- deciding from the full history ----------

  type Stamped = (int, string)

  function StampTime(s: Stamped): int { s.0 }

  function Asks(question: string): Stamped -> bool {
    (s: Stamped) => s.1 == question
  }

  /** When the user's accepted calls were made. */
  function Times(log: seq<Event>, user: int): seq<int> {
    if log == [] then []
    else
      var e := log[|log| - 1];
      Times(log[..|log| - 1], user) + if e.Accepted? && e.user == user then [e.time] else []
  }

  /** The questions that the user's accepted calls came with, and when. */
  function Asked(log: seq<Event>, user: int): seq<Stamped> {
    if log == [] then []
    else
      var e := log[|log| - 1];
      Asked(log[..|log| - 1], user) +
      if e.Accepted? && e.user == user && e.question.Some? then [(e.time, e.question.value)] else []
  }

  function CountSince(log: seq<Event>, user: int, from: int): nat {
    NumberSince(Times(log, user), Itself, AnyTime, from)
  }

  function CountSame(log: seq<Event>, user: int, question: string, from: int): nat {
    NumberSince(Asked(log, user), StampTime, Asks(question), from)
  }

  function LastBan(log: seq<Event>, user: int): Option<int> {
    if log == [] then None
    else
      var e := log[|log| - 1];
      if e.Banned? && e.user == user then Some(e.time) else LastBan(log[..|log| - 1], user)
  }

  function Decide(log: seq<Event>, user: int, role: Option<string>, question: Option<string>, now: int): Verdict {
    var ban := LastBan(log, user);
    if ban.Some? && now < ban.value + INJECTION_BAN then TempBanned((ban.value + INJECTION_BAN - now) / MINUTE)
    else DecideUnbanned(log, user, role, question, now)
  }

  function DecideUnbanned(log: seq<Event>, user: int, role: Option<string>, question: Option<string>,
                          now: int): Verdict {
    if CountSince(log, user, now - MINUTE) >= LimitsOf(role).perMinute then MinuteLimited
    else if CountSince(log, user, now - HOUR) >= LimitsOf(role).perHour then HourLimited
    else if question.Some? && CountSame(log, user, question.value, now - HOUR) >= IDENTICAL_QUESTION_LIMIT
      then AbuseDetected
    else Pass
  }

  ghost predicate NotAfter(log: seq<Event>, time: int) {
    forall i :: 0 <= i < |log| ==> log[i].time <= time
  }

  /** The history is chronological, and the gate's decision let every call in it through. */
  ghost predicate Admissible(log: seq<Event>) {
    log != [] ==>
      var front, e := log[..|log| - 1], log[|log| - 1];
      && Admissible(front)
      && NotAfter(front, e.time)
      && (e.Accepted? ==> Decide(front, e.user, e.role, e.question, e.time) == Pass)
  }

  lemma AdmissibleExtends(log: seq<Event>, e: Event)
    requires Admissible(log) && NotAfter(log, e.time)
    requires e.Accepted? ==> Decide(log, e.user, e.role, e.question, e.time) == Pass
    ensures Admissible(log + [e])
  {
    assert (log + [e])[..|log|] == log;
  }

  // ---------- whole runs: no window ever holds more than its limit ----------

  function CountBetween(log: seq<Event>, user: int, from: int, to: int): nat {
    NumberBetween(Times(log, user), Itself, AnyTime, from, to)
  }

  function CountSameBetween(log: seq<Event>, user: int, question: string, from: int, to: int): nat {
    NumberBetween(Asked(log, user), StampTime, Asks(question), from, to)
  }

  /** How one more event shows in each projection of the history. */
  lemma ProjectionsGrow(log: seq<Event>, e: Event, user: int)
    ensures Times(log + [e], user) == if e.Accepted? && e.user == user then Times(log, user) + [e.time]
            else Times(log, user)
    ensures Asked(log + [e], user) ==
            if e.Accepted? && e.user == user && e.question.Some? then Asked(log, user) + [(e.time, e.question.value)]
            else Asked(log, user)
    ensures LastBan(log + [e], user) == if e.Banned? && e.user == user then Some(e.time) else LastBan(log, user)
  {
    assert (log + [e])[..|log|] == log;
  }

  lemma WindowGrows(log: seq<Event>, e: Event, user: int, from: int, width: int)
    ensures var before, after := CountBetween(log, user, from, from + width),
            CountBetween(log + [e], user, from, from + width);
            if e.Accepted? && e.user == user && from <= e.time <= from + width
            then after == before + 1 && before <= CountSince(log, user, e.time - width)
            else after == before
  {
    ProjectionsGrow(log, e, user);
    WindowOneMore(Times(log, user), e.time, Itself, AnyTime, from, width);
  }

  /** Every closed minute holds at most `limit` accepted calls of the user, when that bounds the user's roles in it. */
  lemma {:induction false} MinuteBound(log: seq<Event>, user: int, from: int, limit: nat)
    requires Admissible(log)
    requires forall e :: e in log && e.Accepted? && e.user == user && from <= e.time <= from + MINUTE
                         ==> LimitsOf(e.role).perMinute <= limit
    ensures CountBetween(log, user, from, from + MINUTE) <= limit
  {
    if log != [] {
      var front, e := log[..|log| - 1], log[|log| - 1];
      assert log == front + [e];
      MinuteBound(front, user, from, limit);
      WindowGrows(front, e, user, from, MINUTE);
    }
  }

  lemma {:induction false} HourBound(log: seq<Event>, user: int, from: int, limit: nat)
    requires Admissible(log)
    requires forall e :: e in log && e.Accepted? && e.user == user && from <= e.time <= from + HOUR
                         ==> LimitsOf(e.role).perHour <= limit
    ensures CountBetween(log, user, from, from + HOUR) <= limit
  {
    if log != [] {
      var front, e := log[..|log| - 1], log[|log| - 1];
      assert log == front + [e];
      HourBound(front, user, from, limit);
      WindowGrows(front, e, user, from, HOUR);
    }
  }

  lemma SameWindowGrows(log: seq<Event>, e: Event, user: int, question: string, from: int)
    ensures var before := CountSameBetween(log, user, question, from, from + HOUR);
            var after := CountSameBetween(log + [e], user, question, from, from + HOUR);
            if e.Accepted? && e.user == user && e.question == Some(question) && from <= e.time <= from + HOUR
            then after == before + 1 && before <= CountSame(log, user, question, e.time - HOUR)
            else after == before
  {
    ProjectionsGrow(log, e, user);
    if e.Accepted? && e.user == user && e.question.Some? {
      var stamp := (e.time, e.question.value);
      assert Asks(question)(stamp) <==> e.question == Some(question);
      WindowOneMore(Asked(log, user), stamp, StampTime, Asks(question), from, HOUR);
    } else {
      assert Asked(log + [e], user) == Asked(log, user);
    }
  }

  /** Whatever the roles, no closed hour holds more than ten accepted calls with one question. */
  lemma {:induction false} IdenticalBound(log: seq<Event>, user: int, question: string, from: int)
    requires Admissible(log)
    ensures CountSameBetween(log, user, question, from, from + HOUR) <= IDENTICAL_QUESTION_LIMIT
  {
    if log != [] {
      var front, e := log[..|log| - 1], log[|log| - 1];
      assert log == front + [e];
      IdenticalBound(front, user, question, from);
      SameWindowGrows(front, e, user, question, from);
    }
  }

  lemma {:induction false} LastBanIsLatest(log: seq<Event>, i: nat)
    requires Admissible(log) && i < |log| && log[i].Banned?
    ensures LastBan(log, log[i].user).Some? && LastBan(log, log[i].user).value >= log[i].time
  {
    var front := log[..|log| - 1];
    if i < |front| {
      assert front[i] == log[i];
      LastBanIsLatest(front, i);
    }
  }

  /** After a ban the user's next accepted call comes no sooner than sixty minutes later. */
  lemma {:induction false} BanHolds(log: seq<Event>, i: nat, j: nat)
    requires Admissible(log) && i < j < |log|
    requires log[i].Banned? && log[j].Accepted? && log[i].user == log[j].user
    ensures log[j].time >= log[i].time + INJECTION_BAN
  {
    var front := log[..|log| - 1];
    assert front[i] == log[i];
    if j < |front| {
      assert front[j] == log[j];
      BanHolds(front, i, j);
    } else {
      LastBanIsLatest(front, i);
    }
  }

  // ---------- the history produced by a run of requests ----------

  datatype Request =
    | Ask(user: int, role: Option<string>, question: Option<string>, time: int)
    | Ban(user: int, time: int)

  function Normalised(question: Option<string>, fold: string -> string): Option<string> {
    if question.Some? && question.value != "" then Some(fold(question.value)) else None
  }

  function Replay(requests: seq<Request>, fold: string -> string): seq<Event> {
    if requests == [] then []
    else
      var log := Replay(requests[..|requests| - 1], fold);
      match requests[|requests| - 1]
      case Ban(u, t) => log + [Banned(u, t)]
      case Ask(u, role, q, t) =>
        if Decide(log, u, role, Normalised(q, fold), t) == Pass
          then log + [Accepted(u, role, Normalised(q, fold), t)] else log
  }

  /** Any requests, users, roles and bans, with a clock that does not go back, leave an admissible history. */
  lemma {:induction false} ReplayAdmissible(requests: seq<Request>, fold: string -> string)
    requires forall i, j :: 0 <= i < j < |requests| ==> requests[i].time <= requests[j].time
    ensures Admissible(Replay(requests, fold))
    ensures requests != [] ==> NotAfter(Replay(requests, fold), requests[|requests| - 1].time)
    ensures requests == [] ==> Replay(requests, fold) == []
  {
    if requests != [] {
      var front := requests[..|requests| - 1];
      var last := requests[|requests| - 1];
      ReplayAdmissible(front, fold);
      var log := Replay(front, fold);
      assert NotAfter(log, last.time);
      match last
      case Ban(u, t) => AdmissibleExtends(log, Banned(u, t));
      case Ask(u, role, q, t) =>
        if Decide(log, u, role, Normalised(q, fold), t) == Pass {
          AdmissibleExtends(log, Accepted(u, role, Normalised(q, fold), t));
        }
    }
  }

  // ---------- buckets against the history ----------

  lemma {:induction false} TimesInOrder(log: seq<Event>, user: int, time: int)
    requires Admissible(log) && NotAfter(log, time)
    ensures Chronological(Times(log, user), Itself) && NoneAfter(Times(log, user), Itself, time)
  {
    if log != [] {
      TimesInOrder(log[..|log| - 1], user, log[|log| - 1].time);
    }
  }

  lemma {:induction false} AskedInOrder(log: seq<Event>, user: int, time: int)
    requires Admissible(log) && NotAfter(log, time)
    ensures Chronological(Asked(log, user), StampTime) && NoneAfter(Asked(log, user), StampTime, time)
  {
    if log != [] {
      AskedInOrder(log[..|log| - 1], user, log[|log| - 1].time);
    }
  }

  // ---------- the gate ----------

  ghost predicate TimesTracked(buckets: map<int, seq<int>>, log: seq<Event>, from: int) {
    forall u :: Tracks(Bucket(buckets, u), Times(log, u), Itself, from)
  }

  ghost predicate AskedTracked(buckets: map<int, seq<Stamped>>, log: seq<Event>, from: int) {
    forall u :: Tracks(Bucket(buckets, u), Asked(log, u), StampTime, from)
  }

  ghost predicate BansRecorded(bannedUntil: map<int, int>, log: seq<Event>) {
    forall u ::
      && (u in bannedUntil <==> LastBan(log, u).Some?)
      && (u in bannedUntil ==> bannedUntil[u] == LastBan(log, u).value + INJECTION_BAN)
  }

  /** Evicting a user's bucket keeps the table in step for later questions. */
  lemma TimesKept(buckets: map<int, seq<int>>, log: seq<Event>, from: int, user: int, cutoff: int)
    requires TimesTracked(buckets, log, from) && from <= cutoff
    ensures TimesTracked(buckets[user := Evict(Bucket(buckets, user), Itself, cutoff)], log, cutoff)
  {
    var after := buckets[user := Evict(Bucket(buckets, user), Itself, cutoff)];
    forall u ensures Tracks(Bucket(after, u), Times(log, u), Itself, cutoff) {
      TracksLater(Bucket(buckets, u), Times(log, u), Itself, from, cutoff);
      TracksAfterEviction(Bucket(buckets, u), Times(log, u), Itself, from, cutoff);
    }
  }

  lemma AskedKept(buckets: map<int, seq<Stamped>>, log: seq<Event>, from: int, user: int, cutoff: int)
    requires AskedTracked(buckets, log, from) && from <= cutoff
    ensures AskedTracked(buckets[user := Evict(Bucket(buckets, user), StampTime, cutoff)], log, cutoff)
  {
    var after := buckets[user := Evict(Bucket(buckets, user), StampTime, cutoff)];
    forall u ensures Tracks(Bucket(after, u), Asked(log, u), StampTime, cutoff) {
      TracksLater(Bucket(buckets, u), Asked(log, u), StampTime, from, cutoff);
      TracksAfterEviction(Bucket(buckets, u), Asked(log, u), StampTime, from, cutoff);
    }
  }

  /** What is left in an evicted bucket of times is what the check counts. */
  lemma TimesCounted(bucket: seq<int>, log: seq<Event>, user: int, clock: int, cutoff: int)
    requires Admissible(log) && NotAfter(log, clock) && Tracks(bucket, Times(log, user), Itself, cutoff)
    ensures |Evict(bucket, Itself, cutoff)| == CountSince(log, user, cutoff)
  {
    TimesInOrder(log, user, clock);
    EvictedSize(Times(log, user), cutoff);
  }

  lemma AskedCounted(bucket: seq<Stamped>, log: seq<Event>, user: int, question: string, clock: int, cutoff: int)
    requires Admissible(log) && NotAfter(log, clock) && Tracks(bucket, Asked(log, user), StampTime, cutoff)
    ensures Number(Evict(bucket, StampTime, cutoff), Asks(question)) == CountSame(log, user, question, cutoff)
  {
    AskedInOrder(log, user, clock);
    EvictedNumber(Asked(log, user), StampTime, Asks(question), cutoff);
  }

  lemma AppendTracked(buckets: map<int, seq<int>>, log: seq<Event>, from: int, e: Event)
    requires TimesTracked(buckets, log, from) && e.Accepted?
    ensures TimesTracked(buckets[e.user := Bucket(buckets, e.user) + [e.time]], log + [e], from)
  {
    var after := buckets[e.user := Bucket(buckets, e.user) + [e.time]];
    forall u ensures Tracks(Bucket(after, u), Times(log + [e], u), Itself, from) {
      ProjectionsGrow(log, e, u);
      TracksAfterAppend(Bucket(buckets, u), Times(log, u), e.time, Itself, from);
    }
  }

  lemma AppendAsked(buckets: map<int, seq<Stamped>>, log: seq<Event>, from: int, e: Event)
    requires AskedTracked(buckets, log, from) && e.Accepted? && e.question.Some?
    ensures AskedTracked(buckets[e.user := Bucket(buckets, e.user) + [(e.time, e.question.value)]], log + [e], from)
  {
    var stamp := (e.time, e.question.value);
    var after := buckets[e.user := Bucket(buckets, e.user) + [stamp]];
    forall u ensures Tracks(Bucket(after, u), Asked(log + [e], u), StampTime, from) {
      ProjectionsGrow(log, e, u);
      TracksAfterAppend(Bucket(buckets, u), Asked(log, u), stamp, StampTime, from);
    }
  }

  /** Events that a projection does not show leave it tracked. */
  lemma OthersTracked(times: map<int, seq<int>>, asked: map<int, seq<Stamped>>, log: seq<Event>, timesFrom: int,
                      askedFrom: int, e: Event)
    ensures e.Banned? && TimesTracked(times, log, timesFrom) ==> TimesTracked(times, log + [e], timesFrom)
    ensures (e.Banned? || e.question.None?) && AskedTracked(asked, log, askedFrom) ==>
            AskedTracked(asked, log + [e], askedFrom)
  {
    forall u ensures e.Banned? ==> Times(log + [e], u) == Times(log, u)
             ensures e.Banned? || e.question.None? ==> Asked(log + [e], u) == Asked(log, u)
    {
      ProjectionsGrow(log, e, u);
    }
  }

  lemma BansGrow(bannedUntil: map<int, int>, log: seq<Event>, e: Event)
    requires BansRecorded(bannedUntil, log)
    ensures e.Accepted? ==> BansRecorded(bannedUntil, log + [e])
    ensures e.Banned? ==> BansRecorded(bannedUntil[e.user := e.time + INJECTION_BAN], log + [e])
  {
    forall u { ProjectionsGrow(log, e, u); }
  }

  /** The gate's four tables stand for the history `log` as seen from time `clock` on. */
  ghost predicate StandsFor(minutes: map<int, seq<int>>, hours: map<int, seq<int>>, asked: map<int, seq<Stamped>>,
                            bannedUntil: map<int, int>, log: seq<Event>, clock: int)
  {
    && Admissible(log) && NotAfter(log, clock)
    && TimesTracked(minutes, log, clock - MINUTE)
    && TimesTracked(hours, log, clock - HOUR)
    && AskedTracked(asked, log, clock - HOUR)
    && BansRecorded(bannedUntil, log)
  }

  lemma AsOf(minutes: map<int, seq<int>>, hours: map<int, seq<int>>, asked: map<int, seq<Stamped>>,
             bannedUntil: map<int, int>, log: seq<Event>, clock: int, now: int)
    requires StandsFor(minutes, hours, asked, bannedUntil, log, clock) && clock <= now
    ensures StandsFor(minutes, hours, asked, bannedUntil, log, now)
  {
    forall u
      ensures Tracks(Bucket(minutes, u), Times(log, u), Itself, now - MINUTE)
      ensures Tracks(Bucket(hours, u), Times(log, u), Itself, now - HOUR)
      ensures Tracks(Bucket(asked, u), Asked(log, u), StampTime, now - HOUR)
    {
      TracksLater(Bucket(minutes, u), Times(log, u), Itself, clock - MINUTE, now - MINUTE);
      TracksLater(Bucket(hours, u), Times(log, u), Itself, clock - HOUR, now - HOUR);
      TracksLater(Bucket(asked, u), Asked(log, u), StampTime, clock - HOUR, now - HOUR);
    }
  }

  function Appended<A>(buckets: map<int, seq<A>>, user: int, x: A): map<int, seq<A>> {
    buckets[user := Bucket(buckets, user) + [x]]
  }

  lemma AcceptedRecorded(minutes: map<int, seq<int>>, hours: map<int, seq<int>>, asked: map<int, seq<Stamped>>,
                         bannedUntil: map<int, int>, log: seq<Event>, e: Event)
    requires StandsFor(minutes, hours, asked, bannedUntil, log, e.time)
    requires e.Accepted? && Admissible(log + [e])
    ensures StandsFor(Appended(minutes, e.user, e.time), Appended(hours, e.user, e.time),
                      if e.question.Some? then Appended(asked, e.user, (e.time, e.question.value)) else asked,
                      bannedUntil, log + [e], e.time)
  {
    if e.question.Some? {
      AppendAsked(asked, log, e.time - HOUR, e);
    } else {
      OthersTracked(minutes, asked, log, e.time - MINUTE, e.time - HOUR, e);
    }
    AppendTracked(minutes, log, e.time - MINUTE, e);
    AppendTracked(hours, log, e.time - HOUR, e);
    BansGrow(bannedUntil, log, e);
  }

  class AIRateGate {
    const fold: string -> string                    // strip and lower-case
    var minuteEvents: map<int, seq<int>>
    var hourEvents: map<int, seq<int>>
    var questionHashes: map<int, seq<Stamped>>
    var bannedUntil: map<int, int>
    ghost var log: seq<Event>
    ghost var clock: int                            // latest time the gate has been told

    ghost predicate Valid()
      reads this
    {
      StandsFor(minuteEvents, hourEvents, questionHashes, bannedUntil, log, clock)
    }

    constructor (fold: string -> string)
      ensures Valid() && log == [] && this.fold == fold
    {
      this.fold := fold;
      minuteEvents, hourEvents, questionHashes, bannedUntil := map[], map[], map[], map[];
      log, clock := [], 0;
    }

    /** The gate decides as the full history would, and records exactly the calls it lets through. */
    method Check(user: int, role: Option<string>, question: Option<string>, now: int) returns (verdict: Verdict)
      requires Valid() && clock <= now
      modifies this
      ensures Valid() && clock == now
      ensures verdict == Decide(old(log), user, role, Normalised(question, fold), now)
      ensures log == if verdict == Pass then old(log) + [Accepted(user, role, Normalised(question, fold), now)]
              else old(log)
      ensures bannedUntil == old(bannedUntil)
    {
      AsOf(minuteEvents, hourEvents, questionHashes, bannedUntil, log, clock, now);
      clock := now;

      if user in bannedUntil && now < bannedUntil[user] {
        return TempBanned((bannedUntil[user] - now) / MINUTE);
      }

      verdict := CheckWindows(user, role, Normalised(question, fold), now);
      if verdict == Pass {
        AdmissibleExtends(log, Accepted(user, role, Normalised(question, fold), now));
        Record(user, role, Normalised(question, fold), now);
      }
    }

    method CheckWindows(user: int, role: Option<string>, hash: Option<string>, now: int) returns (verdict: Verdict)
      requires Valid() && clock == now
      modifies this`minuteEvents, this`hourEvents, this`questionHashes
      ensures Valid() && verdict == DecideUnbanned(log, user, role, hash, now)
    {
      var inMinute := EvictMinute(user, now);
      if inMinute >= LimitsOf(role).perMinute {
        return MinuteLimited;
      }
      verdict := CheckHour(user, role, hash, now);
    }

    method CheckHour(user: int, role: Option<string>, hash: Option<string>, now: int) returns (verdict: Verdict)
      requires Valid() && clock == now && CountSince(log, user, now - MINUTE) < LimitsOf(role).perMinute
      modifies this`hourEvents, this`questionHashes
      ensures Valid() && verdict == DecideUnbanned(log, user, role, hash, now)
    {
      var inHour := EvictHour(user, now);
      if inHour >= LimitsOf(role).perHour {
        return HourLimited;
      }
      var repeated := AskedTooOften(user, hash, now);
      return if repeated then AbuseDetected else Pass;
    }

    method AskedTooOften(user: int, hash: Option<string>, now: int) returns (repeated: bool)
      requires Valid() && clock == now
      modifies this`questionHashes
      ensures Valid()
      ensures repeated <==> hash.Some? && CountSame(log, user, hash.value, now - HOUR) >= IDENTICAL_QUESTION_LIMIT
    {
      if hash.None? {
        return false;
      }
      var identical := EvictQuestions(user, hash.value, now);
      return identical >= IDENTICAL_QUESTION_LIMIT;
    }

    /** The appends at the end of a call that is let through. */
    method Record(user: int, role: Option<string>, hash: Option<string>, now: int)
      requires Valid() && clock == now
      requires Admissible(log + [Accepted(user, role, hash, now)])
      modifies this
      ensures Valid() && clock == now
      ensures log == old(log) + [Accepted(user, role, hash, now)]
      ensures bannedUntil == old(bannedUntil)
    {
      ghost var event := Accepted(user, role, hash, now);
      AcceptedRecorded(minuteEvents, hourEvents, questionHashes, bannedUntil, log, event);
      var minutes, hours := Appended(minuteEvents, user, now), Appended(hourEvents, user, now);
      var asked := if hash.Some? then Appended(questionHashes, user, (now, hash.value)) else questionHashes;
      assert StandsFor(minutes, hours, asked, bannedUntil, log + [event], now);
      minuteEvents, hourEvents, questionHashes := minutes, hours, asked;
      log := log + [event];
    }

    method EvictMinute(user: int, now: int) returns (count: nat)
      requires Valid() && clock == now
      modifies this`minuteEvents
      ensures Valid() && count == CountSince(log, user, now - MINUTE)
    {
      TimesKept(minuteEvents, log, now - MINUTE, user, now - MINUTE);
      TimesCounted(Bucket(minuteEvents, user), log, user, now, now - MINUTE);
      var bucket := PopExpired(Bucket(minuteEvents, user), Itself, now - MINUTE);
      minuteEvents := minuteEvents[user := bucket];
      return |bucket|;
    }

    method EvictHour(user: int, now: int) returns (count: nat)
      requires Valid() && clock == now
      modifies this`hourEvents
      ensures Valid() && count == CountSince(log, user, now - HOUR)
    {
      TimesKept(hourEvents, log, now - HOUR, user, now - HOUR);
      TimesCounted(Bucket(hourEvents, user), log, user, now, now - HOUR);
      var bucket := PopExpired(Bucket(hourEvents, user), Itself, now - HOUR);
      hourEvents := hourEvents[user := bucket];
      return |bucket|;
    }

    method EvictQuestions(user: int, hash: string, now: int) returns (identical: nat)
      requires Valid() && clock == now
      modifies this`questionHashes
      ensures Valid() && identical == CountSame(log, user, hash, now - HOUR)
    {
      AskedKept(questionHashes, log, now - HOUR, user, now - HOUR);
      AskedCounted(Bucket(questionHashes, user), log, user, hash, now, now - HOUR);
      var bucket := PopExpired(Bucket(questionHashes, user), StampTime, now - HOUR);
      questionHashes := questionHashes[user := bucket];
      return Number(bucket, Asks(hash));
    }

    method BanUser(user: int, now: int)
      requires Valid() && clock <= now
      modifies this
      ensures Valid() && clock == now
      ensures log == old(log) + [Banned(user, now)]
      ensures bannedUntil == old(bannedUntil)[user := now + INJECTION_BAN]
    {
      ghost var event := Banned(user, now);
      clock := now;
      OthersTracked(minuteEvents, questionHashes, log, now - MINUTE, now - HOUR, event);
      OthersTracked(hourEvents, questionHashes, log, now - HOUR, now - HOUR, event);
      BansGrow(bannedUntil, log, event);
      AdmissibleExtends(log, event);
      bannedUntil := bannedUntil[user := now + INJECTION_BAN];
      log := log + [event];
    }
  }
}

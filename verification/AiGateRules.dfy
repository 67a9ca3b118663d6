/**
 What the AI gate lets through and what it refuses, told from the events of the log: bans, and calls counted
 one by one. Times are microseconds.
 */
module AiGateRules {
  import opened Prelude
  import opened SlidingWindow
  import opened AiRateGate

  /** The user's accepted calls between two times, the ends included. */
  ghost function CallsIn(log: seq<Event>, user: int, from: int, to: int): set<nat> {
    set i: nat | i < |log| && log[i].Accepted? && log[i].user == user && from <= log[i].time <= to
  }

  /** Those that came with the question. */
  ghost function AskedIn(log: seq<Event>, user: int, question: string, from: int, to: int): set<nat> {
    set i: nat | i < |log| && log[i].Accepted? && log[i].user == user && log[i].question == Some(question) &&
                 from <= log[i].time <= to
  }

  predicate BannedAt(log: seq<Event>, user: int, i: int) {
    0 <= i < |log| && log[i].Banned? && log[i].user == user
  }

  /** The user was banned less than an hour ago. */
  ghost predicate UnderBan(log: seq<Event>, user: int, now: int) {
    exists i :: BannedAt(log, user, i) && now < log[i].time + 3_600_000_000
  }

  /** How many calls a role may make in a minute and in an hour. */
  predicate Grants(role: Option<string>, perMinute: nat, perHour: nat) {
    if role == Some("collector") || role == Some("auditor") then perMinute == 5 && perHour == 30
    else if role == Some("reviewer") then perMinute == 8 && perHour == 50
    else if role == Some("esg_manager") then perMinute == 15 && perHour == 100
    else if role == Some("admin") || role == Some("platform_admin") then perMinute == 20 && perHour == 200
    else perMinute == 2 && perHour == 10
  }

  // ---------- counting events one by one ----------

  lemma CallsGrow(log: seq<Event>, e: Event, user: int, from: int, to: int)
    ensures CallsIn(log + [e], user, from, to) ==
            CallsIn(log, user, from, to) +
            if e.Accepted? && e.user == user && from <= e.time <= to then {|log|} else {}
  {
    var all := log + [e];
    assert forall i: nat :: i < |log| ==> all[i] == log[i];
  }

  lemma AskedGrow(log: seq<Event>, e: Event, user: int, question: string, from: int, to: int)
    ensures AskedIn(log + [e], user, question, from, to) ==
            AskedIn(log, user, question, from, to) +
            if e.Accepted? && e.user == user && e.question == Some(question) && from <= e.time <= to then {|log|}
            else {}
  {
    var all := log + [e];
    assert forall i: nat :: i < |log| ==> all[i] == log[i];
  }

  lemma {:induction false} CallsCounted(log: seq<Event>, user: int, from: int, to: int)
    ensures CountBetween(log, user, from, to) == |CallsIn(log, user, from, to)|
  {
    if log != [] {
      var front, e := log[..|log| - 1], log[|log| - 1];
      assert log == front + [e];
      CallsCounted(front, user, from, to);
      CallsGrow(front, e, user, from, to);
      ProjectionsGrow(front, e, user);
      OneMore(Times(front, user), e.time, Itself, AnyTime, from, to);
    }
  }

  lemma {:induction false} AskedCountedOneByOne(log: seq<Event>, user: int, question: string, from: int, to: int)
    ensures CountSameBetween(log, user, question, from, to) == |AskedIn(log, user, question, from, to)|
  {
    if log != [] {
      var front, e := log[..|log| - 1], log[|log| - 1];
      assert log == front + [e];
      AskedCountedOneByOne(front, user, question, from, to);
      AskedGrow(front, e, user, question, from, to);
      ProjectionsGrow(front, e, user);
      if e.Accepted? && e.user == user && e.question.Some? {
        OneMore(Asked(front, user), (e.time, e.question.value), StampTime, Asks(question), from, to);
      }
    }
  }

  /** What the gate compares with its limits is the number of such calls in the log. */
  lemma CountsMean(log: seq<Event>, user: int, question: string, from: int, now: int)
    requires Admissible(log) && NotAfter(log, now)
    ensures CountSince(log, user, from) == |CallsIn(log, user, from, now)|
    ensures CountSame(log, user, question, from) == |AskedIn(log, user, question, from, now)|
  {
    TimesInOrder(log, user, now);
    AskedInOrder(log, user, now);
    SinceIsBetween(Times(log, user), Itself, AnyTime, from, now);
    SinceIsBetween(Asked(log, user), StampTime, Asks(question), from, now);
    CallsCounted(log, user, from, now);
    AskedCountedOneByOne(log, user, question, from, now);
  }

  // ---------- bans ----------

  lemma {:induction false} LastBanIsOne(log: seq<Event>, user: int) returns (i: int)
    requires LastBan(log, user).Some?
    ensures BannedAt(log, user, i) && log[i].time == LastBan(log, user).value
  {
    var front, e := log[..|log| - 1], log[|log| - 1];
    if e.Banned? && e.user == user {
      i := |log| - 1;
    } else {
      i := LastBanIsOne(front, user);
    }
  }

  /** The gate looks at the user's latest ban, which is the only one that matters. */
  lemma BanMeans(log: seq<Event>, user: int, now: int)
    requires Admissible(log)
    ensures UnderBan(log, user, now) <==> LastBan(log, user).Some? && now < LastBan(log, user).value + INJECTION_BAN
  {
    if LastBan(log, user).Some? && now < LastBan(log, user).value + INJECTION_BAN {
      var i := LastBanIsOne(log, user);
    }
    if UnderBan(log, user, now) {
      var i :| BannedAt(log, user, i) && now < log[i].time + 3_600_000_000;
      LastBanIsLatest(log, i);
    }
  }

  // ---------- the rules ----------

  /** The question is counted unless there is none; `fold` strips it and puts it in lower case. */
  ghost predicate AskedTooOften(log: seq<Event>, user: int, question: Option<string>, fold: string -> string,
                                now: int) {
    && question.Some? && question.value != ""
    && |AskedIn(log, user, fold(question.value), now - 3_600_000_000, now)| >= 10
  }

  /**
   A call passes if and only if the user was not banned in the last hour, has made fewer calls in the last minute and in
   the last hour than the role may, and has asked the question fewer than ten times in the last hour.
   */
  lemma PassesIff(log: seq<Event>, user: int, role: Option<string>, question: Option<string>, fold: string -> string,
                  now: int, perMinute: nat, perHour: nat)
    requires Admissible(log) && NotAfter(log, now) && Grants(role, perMinute, perHour)
    ensures Decide(log, user, role, Normalised(question, fold), now) == Pass <==>
            && (forall i :: BannedAt(log, user, i) ==> log[i].time + 3_600_000_000 <= now)
            && |CallsIn(log, user, now - 60_000_000, now)| < perMinute
            && |CallsIn(log, user, now - 3_600_000_000, now)| < perHour
            && !AskedTooOften(log, user, question, fold, now)
  {
    RefusalsIff(log, user, role, question, fold, now, perMinute, perHour);
    BanMeans(log, user, now);
  }

  lemma LimitsAreGranted(role: Option<string>, perMinute: nat, perHour: nat)
    requires Grants(role, perMinute, perHour)
    ensures LimitsOf(role) == Limits(perHour, perMinute)
  {
  }

  lemma AskedMeans(log: seq<Event>, user: int, question: Option<string>, fold: string -> string, now: int)
    requires Admissible(log) && NotAfter(log, now)
    ensures var asked := Normalised(question, fold);
            AskedTooOften(log, user, question, fold, now) <==>
            asked.Some? && CountSame(log, user, asked.value, now - HOUR) >= IDENTICAL_QUESTION_LIMIT
  {
    if question.Some? && question.value != "" {
      CountsMean(log, user, fold(question.value), now - HOUR, now);
    }
  }

  /** Which refusal is given: the first of the four that applies. */
  lemma RefusalsIff(log: seq<Event>, user: int, role: Option<string>, question: Option<string>, fold: string -> string,
                    now: int, perMinute: nat, perHour: nat)
    requires Admissible(log) && NotAfter(log, now) && Grants(role, perMinute, perHour)
    ensures var verdict := Decide(log, user, role, Normalised(question, fold), now);
            if UnderBan(log, user, now) then verdict.TempBanned?
            else if |CallsIn(log, user, now - 60_000_000, now)| >= perMinute then verdict == MinuteLimited
            else if |CallsIn(log, user, now - 3_600_000_000, now)| >= perHour then verdict == HourLimited
            else if AskedTooOften(log, user, question, fold, now) then verdict == AbuseDetected
            else verdict == Pass
  {
    LimitsAreGranted(role, perMinute, perHour);
    BanMeans(log, user, now);
    AskedMeans(log, user, question, fold, now);
    CountsMean(log, user, "", now - 60_000_000, now);
    CountsMean(log, user, "", now - 3_600_000_000, now);
  }

  /** A banned user is told the whole minutes that are left of the latest ban. */
  lemma MinutesLeft(log: seq<Event>, user: int, role: Option<string>, question: Option<string>, now: int, minutes: int)
    requires Admissible(log) && NotAfter(log, now)
    requires Decide(log, user, role, question, now) == TempBanned(minutes)
    ensures exists i :: BannedAt(log, user, i) && (forall j :: BannedAt(log, user, j) ==> log[j].time <= log[i].time) &&
                        60_000_000 * minutes <= log[i].time + 3_600_000_000 - now < 60_000_000 * (minutes + 1)
  {
    var i := LastBanIsOne(log, user);
    forall j | BannedAt(log, user, j) ensures log[j].time <= log[i].time {
      LastBanIsLatest(log, j);
    }
  }

  ghost predicate IdleSince(log: seq<Event>, user: int, time: int) {
    forall i :: 0 <= i < |log| && log[i].Accepted? && log[i].user == user ==> log[i].time < time
  }

  lemma IdleMakesNone(log: seq<Event>, user: int, question: string, from: int, now: int)
    requires IdleSince(log, user, from)
    ensures |CallsIn(log, user, from, now)| == 0 && |AskedIn(log, user, question, from, now)| == 0
  {
    assert CallsIn(log, user, from, now) == {};
    assert AskedIn(log, user, question, from, now) == {};
  }

  /** A ban is lifted: an hour after the last one, a user with no call in the last hour is let through. */
  lemma BanIsLifted(log: seq<Event>, user: int, role: Option<string>, question: Option<string>, fold: string -> string,
                    now: int, perMinute: nat, perHour: nat)
    requires Admissible(log) && NotAfter(log, now) && Grants(role, perMinute, perHour)
    requires forall i :: BannedAt(log, user, i) ==> log[i].time + 3_600_000_000 <= now
    requires IdleSince(log, user, now - 3_600_000_000)
    ensures Decide(log, user, role, Normalised(question, fold), now) == Pass
  {
    PassesIff(log, user, role, question, fold, now, perMinute, perHour);
    var asked := if question.Some? then fold(question.value) else "";
    IdleMakesNone(log, user, asked, now - 3_600_000_000, now);
    IdleMakesNone(log, user, asked, now - 60_000_000, now);
  }
}

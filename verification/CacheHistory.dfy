/** What a look-up answers, told from the steps taken before it: how long a stored product is returned. */
module CacheHistory {
  import opened Prelude
  import RuntimeCache
  import opened CacheProtocol

  /** Step `j` puts the product into the table under the key: a factory ends, or a `set`. */
  ghost predicate Puts(states: seq<State>, steps: seq<Step>, j: nat, key: string, p: Product)
    requires j < |steps| && j < |states|
  {
    match steps[j]
    case FactoryDone(t, v) =>
      IsRunning(states[j], t) && states[j].tasks[t].key == key &&
      p == Product(v, states[j].tasks[t].born, SeenBy(states[j], t))
    case Enter(t) =>
      t in states[j].tasks && states[j].tasks[t] == Waiting(Set(key, p.value)) && p == Product(p.value, j, 0)
    case _ => false
  }

  /** Step `j` puts something under the key, or drops what is there. */
  predicate Touches(states: seq<State>, steps: seq<Step>, j: nat, key: string)
    requires j < |steps| && j < |states|
  {
    || StoresProduct(states[j], steps[j], key)
    || SetsDirectly(states[j], steps[j], key)
    || Invalidates(states[j], steps[j], key)
  }

  /** What step `j` put under the key is the last that happened to the key before step `n`. */
  ghost predicate Standing(states: seq<State>, steps: seq<Step>, j: nat, n: nat, key: string, p: Product)
    requires n <= |steps| < |states|
  {
    j < n && Puts(states, steps, j, key, p) && forall k :: j < k < n ==> !Touches(states, steps, k, key)
  }

  function ExpiryAt(s: State): int {
    s.now + s.ttl
  }

  /** The product put last under the key, if it has not been dropped since and its time is not over. */
  ghost predicate Fresh(states: seq<State>, steps: seq<Step>, n: nat, key: string, p: Product)
    requires n <= |steps| < |states|
  {
    exists j: nat :: Standing(states, steps, j, n, key, p) && states[n].now < states[j].now + states[j].ttl
  }

  // ---------- the table against the history ----------

  lemma TimeGrows(states: seq<State>, steps: seq<Step>, a: nat, b: nat)
    requires IsRun(states, steps) && a <= b < |states|
    ensures states[a].now <= states[b].now && states[a].ttl == states[b].ttl
    decreases b
  {
    if a < b {
      TimeGrows(states, steps, a, b - 1);
      assert Enabled(states[b - 1], steps[b - 1]) && states[b] == Apply(states[b - 1], b - 1, steps[b - 1]);
    }
  }

  /** Every entry is the one put last, with its expiry. */
  ghost predicate Explained(states: seq<State>, steps: seq<Step>, n: nat, key: string)
    requires n <= |steps| < |states|
  {
    key in states[n].items ==>
      exists j: nat :: Standing(states, steps, j, n, key, states[n].items[key].value) &&
                  states[n].items[key].expiresAt == ExpiryAt(states[j])
  }

  lemma StandsOn(states: seq<State>, steps: seq<Step>, j: nat, n: nat, key: string, p: Product)
    requires n < |steps| < |states| && Standing(states, steps, j, n, key, p) && !Touches(states, steps, n, key)
    ensures Standing(states, steps, j, n + 1, key, p)
  {
  }

  lemma PutStands(states: seq<State>, steps: seq<Step>, n: nat, key: string)
    requires IsRun(states, steps) && n < |steps|
    requires StoresProduct(states[n], steps[n], key) || SetsDirectly(states[n], steps[n], key)
    ensures key in states[n + 1].items
    ensures Standing(states, steps, n, n + 1, key, states[n + 1].items[key].value)
    ensures states[n + 1].items[key].expiresAt == ExpiryAt(states[n])
  {
    assert Enabled(states[n], steps[n]) && states[n + 1] == Apply(states[n], n, steps[n]);
  }

  lemma UntouchedKept(states: seq<State>, steps: seq<Step>, n: nat, key: string)
    requires IsRun(states, steps) && n < |steps|
    requires !StoresProduct(states[n], steps[n], key) && !SetsDirectly(states[n], steps[n], key)
    ensures key in states[n + 1].items ==>
              key in states[n].items && states[n + 1].items[key] == states[n].items[key] &&
              !Invalidates(states[n], steps[n], key)
    ensures key in states[n].items && key !in states[n + 1].items && !Invalidates(states[n], steps[n], key) ==>
              states[n].items[key].expiresAt <= states[n].now
  {
    assert Enabled(states[n], steps[n]) && states[n + 1] == Apply(states[n], n, steps[n]);
  }

  lemma {:induction false} EntryExplained(states: seq<State>, steps: seq<Step>, n: nat, key: string)
    requires IsRun(states, steps) && n <= |steps|
    ensures Explained(states, steps, n, key)
  {
    if n > 0 {
      EntryExplained(states, steps, n - 1, key);
      if StoresProduct(states[n - 1], steps[n - 1], key) || SetsDirectly(states[n - 1], steps[n - 1], key) {
        PutStands(states, steps, n - 1, key);
      } else {
        UntouchedKept(states, steps, n - 1, key);
        if key in states[n].items {
          var j: nat :| Standing(states, steps, j, n - 1, key, states[n - 1].items[key].value) &&
                   states[n - 1].items[key].expiresAt == ExpiryAt(states[j]);
          StandsOn(states, steps, j, n - 1, key, states[n].items[key].value);
        }
      }
    }
  }

  /** The time is over, or the product is in the table until then. */
  predicate Lasts(s: State, key: string, p: Product, expiry: int) {
    s.now >= expiry || (key in s.items && s.items[key] == RuntimeCache.Entry(p, expiry))
  }

  /** What was put last is in the table until its time is over. */
  lemma {:induction false} StandingKept(states: seq<State>, steps: seq<Step>, j: nat, n: nat, key: string, p: Product)
    requires IsRun(states, steps) && n <= |steps| && Standing(states, steps, j, n, key, p)
    ensures Lasts(states[n], key, p, ExpiryAt(states[j]))
    decreases n
  {
    if j == n - 1 {
      PutStores(states, steps, j, key, p);
    } else {
      StandingKept(states, steps, j, n - 1, key, p);
      assert !Touches(states, steps, n - 1, key);
      LastsOneMore(states, steps, n - 1, key, p, ExpiryAt(states[j]));
    }
  }

  lemma LastsOneMore(states: seq<State>, steps: seq<Step>, n: nat, key: string, p: Product, expiry: int)
    requires IsRun(states, steps) && n < |steps| && !Touches(states, steps, n, key) && Lasts(states[n], key, p, expiry)
    ensures Lasts(states[n + 1], key, p, expiry)
  {
    TimeGrows(states, steps, n, n + 1);
    if states[n + 1].now < expiry {
      KeptIfLive(states, steps, n, key);
    }
  }

  lemma PutStores(states: seq<State>, steps: seq<Step>, j: nat, key: string, p: Product)
    requires IsRun(states, steps) && j < |steps| && Puts(states, steps, j, key, p)
    ensures key in states[j + 1].items && states[j + 1].items[key] == RuntimeCache.Entry(p, ExpiryAt(states[j]))
  {
    assert Enabled(states[j], steps[j]) && states[j + 1] == Apply(states[j], j, steps[j]);
  }

  lemma KeptIfLive(states: seq<State>, steps: seq<Step>, n: nat, key: string)
    requires IsRun(states, steps) && n < |steps| && !Touches(states, steps, n, key)
    requires key in states[n].items && states[n].now < states[n].items[key].expiresAt
    ensures key in states[n + 1].items && states[n + 1].items[key] == states[n].items[key]
  {
    assert Enabled(states[n], steps[n]) && states[n + 1] == Apply(states[n], n, steps[n]);
  }

  /** The table shows exactly the fresh products. */
  lemma LiveIffFresh(states: seq<State>, steps: seq<Step>, n: nat, key: string, p: Product)
    requires IsRun(states, steps) && n <= |steps|
    ensures RuntimeCache.Live(states[n].items, key, states[n].now) && states[n].items[key].value == p <==>
            Fresh(states, steps, n, key, p)
  {
    if RuntimeCache.Live(states[n].items, key, states[n].now) && states[n].items[key].value == p {
      EntryExplained(states, steps, n, key);
    }
    if Fresh(states, steps, n, key, p) {
      var j: nat :| Standing(states, steps, j, n, key, p) && states[n].now < states[j].now + states[j].ttl;
      StandingKept(states, steps, j, n, key, p);
    }
  }

  // ---------- what callers get ----------

  /** A task enters a look-up for the key: a `get`, or the second one of a `get_or_set`. */
  predicate LooksUp(s: State, step: Step, key: string) {
    step.Enter? && s.lock == None && step.t in s.tasks &&
    (s.tasks[step.t] == Waiting(Get(key)) || s.tasks[step.t] == Missed(key))
  }

  /** The first look-up of a `get_or_set`. */
  predicate LooksFirst(s: State, step: Step, key: string) {
    step.Enter? && s.lock == None && step.t in s.tasks && s.tasks[step.t] == Waiting(GetOrSet(key))
  }

  /** A look-up returns a product if and only if it was put last under the key and its time is not over. */
  lemma AnswersIff(states: seq<State>, steps: seq<Step>, m: nat, key: string, p: Product)
    requires IsRun(states, steps) && m < |steps| && LooksUp(states[m], steps[m], key)
    ensures Returned(states[m], steps[m], key) == Some(p) <==>
            exists j: nat :: Standing(states, steps, j, m, key, p) && states[m].now < states[j].now + states[j].ttl
  {
    LiveIffFresh(states, steps, m, key, p);
  }

  /** The first look-up of a `get_or_set` does so too, but for `None`, which goes on to the second. */
  lemma FirstAnswersIff(states: seq<State>, steps: seq<Step>, m: nat, key: string, p: Product)
    requires IsRun(states, steps) && m < |steps| && LooksFirst(states[m], steps[m], key)
    ensures Returned(states[m], steps[m], key) == Some(p) <==>
            p.value.Some? &&
            exists j: nat :: Standing(states, steps, j, m, key, p) && states[m].now < states[j].now + states[j].ttl
    ensures Returned(states[m], steps[m], key) == None <==>
            states[m + 1].tasks == states[m].tasks[steps[m].t := Missed(key)]
  {
    LiveIffFresh(states, steps, m, key, p);
    assert states[m + 1] == Apply(states[m], m, steps[m]);
  }

  /** The second look-up starts the factory, with the lock, if and only if no product put under the key still counts. */
  lemma FactoryIff(states: seq<State>, steps: seq<Step>, m: nat, key: string)
    requires IsRun(states, steps) && m < |steps| && LooksUp(states[m], steps[m], key)
    requires states[m].tasks[steps[m].t] == Missed(key)
    ensures IsRunning(states[m + 1], steps[m].t) <==> forall p :: !Fresh(states, steps, m, key, p)
    ensures IsRunning(states[m + 1], steps[m].t) ==> states[m + 1].lock == Some(steps[m].t)
  {
    assert states[m + 1] == Apply(states[m], m, steps[m]);
    if RuntimeCache.Live(states[m].items, key, states[m].now) {
      LiveIffFresh(states, steps, m, key, states[m].items[key].value);
    }
    forall p | Fresh(states, steps, m, key, p) ensures RuntimeCache.Live(states[m].items, key, states[m].now) {
      LiveIffFresh(states, steps, m, key, p);
    }
  }

  /** Whatever is returned and not just made was put into the table less than a lifetime ago. */
  lemma NothingOutlivesItsTime(states: seq<State>, steps: seq<Step>, m: nat, key: string)
    requires IsRun(states, steps) && m < |steps| && Returned(states[m], steps[m], key).Some?
    ensures StoresProduct(states[m], steps[m], key) ||
            exists j: nat :: j < m && Puts(states, steps, j, key, Returned(states[m], steps[m], key).value) &&
                             states[m].now < states[j].now + states[j].ttl
  {
    if !StoresProduct(states[m], steps[m], key) {
      var p := Returned(states[m], steps[m], key).value;
      LiveIffFresh(states, steps, m, key, p);
      var j: nat :| Standing(states, steps, j, m, key, p) && states[m].now < states[j].now + states[j].ttl;
    }
  }
}

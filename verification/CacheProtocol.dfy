/** Many tasks sharing one TTL cache: what every run of them keeps. */
module CacheProtocol {
  import opened Prelude
  import opened RuntimeCache

  /*
   Every critical section without an `await` is one step, taken when the lock is free; the section of
   `get_or_set` that runs the factory keeps the lock from the step that starts the factory to the step
   that finishes it, and anything else may happen in between: calls, the clock, changes of the data
   behind the cache.

   Products carry two stamps that the cache itself never reads: `born`, the index of the step that
   started their factory (or wrote them with `set`), and `seen`, the version of the outside data
   at the factory's first read, or at its end if it read none. The theorems are about every run.
   */

  type TaskId = int
  type Data = int

  datatype Product = Product(value: Option<Data>, born: nat, seen: nat)

  datatype Op =
    | Get(key: string)
    | Set(key: string, value: Option<Data>)
    | GetOrSet(key: string)
    | Invalidate(key: string)
    | InvalidateWhere(covers: string -> bool)

  datatype Task =
    | Waiting(op: Op)                                      // called, waits for the lock
    | Missed(key: string)                                  // get_or_set, first look-up returned None
    | Running(key: string, born: nat, seen: Option<nat>)   // factory awaited, lock held

  datatype State = State(
    items: Items<Product>,
    lock: Option<TaskId>,
    tasks: map<TaskId, Task>,
    now: int,
    version: nat,
    ttl: int)

  datatype Step =
    | Call(t: TaskId, op: Op)
    | Enter(t: TaskId)                                     // take the lock and run the critical section
    | FactoryRead(t: TaskId)
    | FactoryDone(t: TaskId, value: Option<Data>)
    | FactoryFailed(t: TaskId)                             // exception or cancellation inside the factory
    | Abandon(t: TaskId)                                   // cancelled while waiting for the lock
    | Tick(ticks: nat)
    | OutsideChange

  // ---------- one step ----------

  predicate IsRunning(s: State, t: TaskId) {
    t in s.tasks && s.tasks[t].Running?
  }

  predicate IsWaiting(s: State, t: TaskId) {
    t in s.tasks && !s.tasks[t].Running?
  }

  predicate Enabled(s: State, step: Step) {
    match step
    case Call(t, _) => t !in s.tasks
    case Enter(t) => s.lock.None? && IsWaiting(s, t)
    case FactoryRead(t) => IsRunning(s, t)
    case FactoryDone(t, _) => IsRunning(s, t)
    case FactoryFailed(t) => IsRunning(s, t)
    case Abandon(t) => IsWaiting(s, t)
    case Tick(_) => true
    case OutsideChange => true
  }

  /** A factory that has read nothing made something as good as new. */
  function SeenBy(s: State, t: TaskId): nat
    requires IsRunning(s, t)
  {
    if s.tasks[t].seen.Some? then s.tasks[t].seen.value else s.version
  }

  function EnterSection(s: State, i: nat, t: TaskId): State
    requires IsWaiting(s, t)
  {
    var returned := s.(tasks := s.tasks - {t});
    match s.tasks[t]
    case Waiting(Get(k)) => returned.(items := AfterLookup(s.items, k, s.now))
    case Waiting(Set(k, v)) => returned.(items := Stored(s.items, k, Product(v, i, 0), s.now, s.ttl))
    case Waiting(GetOrSet(k)) =>
      if Live(s.items, k, s.now) && s.items[k].value.value.Some? then returned
      else s.(items := AfterLookup(s.items, k, s.now), tasks := s.tasks[t := Missed(k)])
    case Waiting(Invalidate(k)) => returned.(items := DroppedWhere(s.items, x => x == k))
    case Waiting(InvalidateWhere(covers)) => returned.(items := DroppedWhere(s.items, covers))
    case Missed(k) =>
      if Live(s.items, k, s.now) then returned
      else s.(lock := Some(t), tasks := s.tasks[t := Running(k, i, None)])
  }

  /** The state after step number `i`. */
  function Apply(s: State, i: nat, step: Step): State
    requires Enabled(s, step)
  {
    match step
    case Call(t, op) => s.(tasks := s.tasks[t := Waiting(op)])
    case Enter(t) => EnterSection(s, i, t)
    case FactoryRead(t) =>
      if s.tasks[t].seen.Some? then s
      else s.(tasks := s.tasks[t := s.tasks[t].(seen := Some(s.version))])
    case FactoryDone(t, v) =>
      var r := s.tasks[t];
      s.(items := Stored(s.items, r.key, Product(v, r.born, SeenBy(s, t)), s.now, s.ttl),
         lock := None, tasks := s.tasks - {t})
    case FactoryFailed(t) => s.(lock := None, tasks := s.tasks - {t})
    case Abandon(t) => s.(tasks := s.tasks - {t})
    case Tick(d) => s.(now := s.now + d)
    case OutsideChange => s.(version := s.version + 1)
  }

  // ---------- what a step means to its caller ----------

  /** What the step returns from a `get` or `get_or_set` for the key, if it returns a product. */
  function Returned(s: State, step: Step, key: string): Option<Product>
    requires Enabled(s, step)
  {
    match step
    case Enter(t) =>
      (match s.tasks[t]
       case Waiting(Get(k)) => if k == key && Live(s.items, k, s.now) then Some(s.items[k].value) else None
       case Waiting(GetOrSet(k)) =>
         if k == key && Live(s.items, k, s.now) && s.items[k].value.value.Some? then Some(s.items[k].value) else None
       case Missed(k) => if k == key && Live(s.items, k, s.now) then Some(s.items[k].value) else None
       case _ => None)
    case FactoryDone(t, v) =>
      var r := s.tasks[t];
      if r.key == key then Some(Product(v, r.born, SeenBy(s, t))) else None
    case _ => None
  }

  predicate Invalidates(s: State, step: Step, key: string) {
    step.Enter? && step.t in s.tasks &&
    match s.tasks[step.t]
    case Waiting(Invalidate(k)) => k == key
    case Waiting(InvalidateWhere(covers)) => covers(key)
    case _ => false
  }

  predicate StartsFactory(s: State, step: Step, key: string) {
    step.Enter? && step.t in s.tasks && s.tasks[step.t] == Missed(key) && !Live(s.items, key, s.now)
  }

  predicate SetsDirectly(s: State, step: Step, key: string) {
    step.Enter? && step.t in s.tasks && s.tasks[step.t].Waiting? &&
    s.tasks[step.t].op.Set? && s.tasks[step.t].op.key == key
  }

  predicate StoresProduct(s: State, step: Step, key: string) {
    step.FactoryDone? && IsRunning(s, step.t) && s.tasks[step.t].key == key
  }

  // ---------- runs ----------

  ghost predicate IsRun(states: seq<State>, steps: seq<Step>) {
    && |states| == |steps| + 1
    && states[0].items == map[] && states[0].lock == None && states[0].tasks == map[]
    && forall i :: 0 <= i < |steps| ==> Enabled(states[i], steps[i]) && states[i + 1] == Apply(states[i], i, steps[i])
  }

  /** Runs start from any clock, version and expiry time, and go on with whatever step is possible. */
  lemma RunsGoOn(states: seq<State>, steps: seq<Step>, step: Step, now: int, version: nat, ttl: int)
    ensures IsRun([State(map[], None, map[], now, version, ttl)], [])
    ensures IsRun(states, steps) && Enabled(states[|steps|], step) ==>
              IsRun(states + [Apply(states[|steps|], |steps|, step)], steps + [step])
  {
    if IsRun(states, steps) && Enabled(states[|steps|], step) {
      var states', steps' := states + [Apply(states[|steps|], |steps|, step)], steps + [step];
      forall i | 0 <= i < |steps'|
        ensures Enabled(states'[i], steps'[i]) && states'[i + 1] == Apply(states'[i], i, steps'[i]) {
        if i < |steps| {
          assert states'[i] == states[i] && states'[i + 1] == states[i + 1] && steps'[i] == steps[i];
        }
      }
    }
  }

  /** The lock is held exactly by the one task whose factory is running. */
  predicate LockInvariant(s: State) {
    && (s.lock.Some? ==> IsRunning(s, s.lock.value))
    && forall t :: t in s.tasks && s.tasks[t].Running? ==> s.lock == Some(t)
  }

  lemma {:induction false} LockHeld(states: seq<State>, steps: seq<Step>, n: nat)
    requires IsRun(states, steps) && n < |states|
    ensures LockInvariant(states[n])
  {
    if n > 0 {
      LockHeld(states, steps, n - 1);
      assert Enabled(states[n - 1], steps[n - 1]) && states[n] == Apply(states[n - 1], n - 1, steps[n - 1]);
    }
  }

  /** Mutual exclusion: in no reachable state do two factories run, for whatever keys. */
  lemma AtMostOneFactory(states: seq<State>, steps: seq<Step>, n: nat, t: TaskId, u: TaskId)
    requires IsRun(states, steps) && n < |states|
    requires IsRunning(states[n], t) && IsRunning(states[n], u)
    ensures t == u
  {
    LockHeld(states, steps, n);
  }

  // ---------- where a stored product comes from ----------

  /** The step numbered `p.born` started a factory for the key or wrote the key with `set`. */
  ghost predicate Origin(states: seq<State>, steps: seq<Step>, n: nat, key: string, born: nat, seen: nat) {
    && born < n <= |steps| < |states|
    && (SetsDirectly(states[born], steps[born], key) ||
        (StartsFactory(states[born], steps[born], key) && seen >= states[born].version))
  }

  ghost predicate EntryGrounded(states: seq<State>, steps: seq<Step>, n: nat, key: string)
    requires n < |states|
  {
    key in states[n].items ==>
      Origin(states, steps, n, key, states[n].items[key].value.born, states[n].items[key].value.seen)
  }

  ghost predicate TaskGrounded(states: seq<State>, steps: seq<Step>, n: nat, t: TaskId)
    requires n < |states|
  {
    IsRunning(states[n], t) ==>
      var r := states[n].tasks[t];
      && r.born < n <= |steps| < |states|
      && states[r.born].version <= states[n].version
      && StartsFactory(states[r.born], steps[r.born], r.key)
      && (r.seen.Some? ==> r.seen.value >= states[r.born].version)
  }

  lemma {:induction false} TasksGrounded(states: seq<State>, steps: seq<Step>, n: nat, t: TaskId)
    requires IsRun(states, steps) && n < |states|
    ensures TaskGrounded(states, steps, n, t)
  {
    if n > 0 {
      TasksGrounded(states, steps, n - 1, t);
      assert Enabled(states[n - 1], steps[n - 1]) && states[n] == Apply(states[n - 1], n - 1, steps[n - 1]);
    }
  }

  lemma {:induction false} EntriesGrounded(states: seq<State>, steps: seq<Step>, n: nat, key: string)
    requires IsRun(states, steps) && n < |states|
    ensures EntryGrounded(states, steps, n, key)
  {
    if n > 0 {
      EntriesGrounded(states, steps, n - 1, key);
      var s, step := states[n - 1], steps[n - 1];
      assert Enabled(s, step) && states[n] == Apply(s, n - 1, step);
      if step.FactoryDone? {
        TasksGrounded(states, steps, n - 1, step.t);
      }
    }
  }

  lemma {:induction false} VersionsGrow(states: seq<State>, steps: seq<Step>, a: nat, b: nat)
    requires IsRun(states, steps) && a <= b < |states|
    ensures states[a].version <= states[b].version && states[a].ttl == states[b].ttl
    decreases b
  {
    if a < b {
      VersionsGrow(states, steps, a, b - 1);
      assert Enabled(states[b - 1], steps[b - 1]) && states[b] == Apply(states[b - 1], b - 1, steps[b - 1]);
    }
  }

  // ---------- coherence ----------

  /** Nothing stored or under way for the key began at or before step `i`. */
  ghost predicate BornAfter(s: State, i: nat, key: string) {
    && (key in s.items ==> s.items[key].value.born > i)
    && (forall t :: IsRunning(s, t) && s.tasks[t].key == key ==> s.tasks[t].born > i)
  }

  lemma {:induction false} NothingSurvivesInvalidation(states: seq<State>, steps: seq<Step>, i: nat, n: nat,
                                                       key: string)
    requires IsRun(states, steps) && i < n < |states|
    requires Invalidates(states[i], steps[i], key)
    ensures BornAfter(states[n], i, key)
    decreases n
  {
    assert Enabled(states[n - 1], steps[n - 1]) && states[n] == Apply(states[n - 1], n - 1, steps[n - 1]);
    if n == i + 1 {
      LockHeld(states, steps, i);
    } else {
      NothingSurvivesInvalidation(states, steps, i, n - 1, key);
    }
  }

  /**
   Coherence. Once an invalidation covering the key has completed, no later step returns a product
   for the key that began before it, even to a call that was already waiting.
   */
  lemma Coherence(states: seq<State>, steps: seq<Step>, i: nat, m: nat, key: string)
    requires IsRun(states, steps) && i < m < |steps|
    requires Invalidates(states[i], steps[i], key)
    requires Returned(states[m], steps[m], key).Some?
    ensures var p := Returned(states[m], steps[m], key).value;
            && i < p.born <= m
            && (StartsFactory(states[p.born], steps[p.born], key) || SetsDirectly(states[p.born], steps[p.born], key))
  {
    NothingSurvivesInvalidation(states, steps, i, m, key);
    EntriesGrounded(states, steps, m, key);
    TasksGrounded(states, steps, m, steps[m].t);
  }

  /**
   Reading your own writes. If the key is never written with `set`, then whatever is returned after
   the invalidation was computed from data at least as recent as the data at the invalidation.
   */
  lemma InvalidationPublishesChanges(states: seq<State>, steps: seq<Step>, i: nat, m: nat, key: string)
    requires IsRun(states, steps) && i < m < |steps|
    requires Invalidates(states[i], steps[i], key)
    requires forall j :: 0 <= j < m ==> !SetsDirectly(states[j], steps[j], key)
    requires Returned(states[m], steps[m], key).Some?
    ensures Returned(states[m], steps[m], key).value.seen >= states[i].version
  {
    NothingSurvivesInvalidation(states, steps, i, m, key);
    EntriesGrounded(states, steps, m, key);
    TasksGrounded(states, steps, m, steps[m].t);
    var p := Returned(states[m], steps[m], key).value;
    VersionsGrow(states, steps, i, p.born);
  }

  // ---------- single flight ----------

  /** From a store that expires at `expiry` on: the key holds an entry at least as durable, or the time has come. */
  ghost predicate CoveredUntil(s: State, key: string, expiry: int) {
    s.now >= expiry || (key in s.items && s.items[key].expiresAt >= expiry)
  }

  lemma {:induction false} StaysCovered(states: seq<State>, steps: seq<Step>, p: nat, n: nat, key: string)
    requires IsRun(states, steps) && p < n < |states|
    requires StoresProduct(states[p], steps[p], key)
    requires forall j :: p < j < n ==> !Invalidates(states[j], steps[j], key)
    ensures states[n].now >= states[p].now
    ensures CoveredUntil(states[n], key, states[p].now + states[p].ttl)
    decreases n
  {
    assert Enabled(states[n - 1], steps[n - 1]) && states[n] == Apply(states[n - 1], n - 1, steps[n - 1]);
    if n > p + 1 {
      StaysCovered(states, steps, p, n - 1, key);
      VersionsGrow(states, steps, p, n - 1);
    }
  }

  /**
   Single flight. After a factory run for the key has stored its product (`None` included), no other
   run for the key starts before that product expires, unless an invalidation covering the key ran in between.
   */
  lemma SingleFlight(states: seq<State>, steps: seq<Step>, p: nat, q: nat, key: string)
    requires IsRun(states, steps) && p < q < |steps|
    requires StoresProduct(states[p], steps[p], key)
    requires StartsFactory(states[q], steps[q], key)
    ensures states[q].now >= states[p].now + states[p].ttl ||
            exists j :: p < j < q && Invalidates(states[j], steps[j], key)
  {
    if forall j :: p < j < q ==> !Invalidates(states[j], steps[j], key) {
      StaysCovered(states, steps, p, q, key);
    }
  }
}

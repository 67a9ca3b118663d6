/**
 Keys of the dashboard-progress cache, and invalidation of a whole project by key prefix.
 */
module DashboardCache {
  import opened Prelude
  import Decimal
  import opened RuntimeCache
  import Protocol = CacheProtocol

  datatype Context = Context(userId: int, organizationId: Option<int>, role: Option<string>, supportMode: bool)

  // Python's `x or default`: None and the empty (zero) value both give the default.
  function OrZero(id: Option<int>): int {
    match id case Some(i) => i case None => 0
  }

  function RoleName(role: Option<string>): string {
    if role.Some? && role.value != "" then role.value else "unknown"
  }

  predicate PerUser(role: Option<string>) {
    role == Some("collector") || role == Some("reviewer")
  }

  function ViewerScope(ctx: Context): string {
    if PerUser(ctx.role) then Decimal.OfInt(ctx.userId) else RoleName(ctx.role)
  }

  function ProjectPrefix(projectId: int): string {
    "project:" + Decimal.OfInt(projectId) + ":"
  }

  function SupportFlag(supportMode: bool): string {
    if supportMode then "1" else "0"
  }

  function CacheKey(projectId: int, ctx: Context): string {
    ProjectPrefix(projectId) + KeyRest(ctx)
  }

  /** Everything after the project field. */
  function KeyRest(ctx: Context): string {
    ("org:" + Decimal.OfInt(OrZero(ctx.organizationId)) + ":") + RoleRest(ctx)
  }

  function RoleRest(ctx: Context): string {
    "role:" + (RoleName(ctx.role) + ":viewer:" + ViewerScope(ctx)) + ":support:" + SupportFlag(ctx.supportMode)
  }

  predicate StartsWith(s: string, prefix: string) {
    prefix <= s
  }

  // ---------- fields ended by ':' can be read back ----------

  predicate NoColon(s: string) {
    forall i :: 0 <= i < |s| ==> s[i] != ':'
  }

  lemma ColonTells(a: string, b: string, restA: string, restB: string)
    requires NoColon(b)
    ensures |a| < |b| ==> a + ":" + restA != b + ":" + restB
  {
    if |a| < |b| {
      assert (a + ":" + restA)[|a|] == ':';
      assert (b + ":" + restB)[|a|] == b[|a|];
    }
  }

  lemma FieldUnique(a: string, b: string, restA: string, restB: string)
    requires NoColon(a) && NoColon(b)
    requires a + ":" + restA == b + ":" + restB
    ensures a == b && restA == restB
  {
    ColonTells(a, b, restA, restB);
    ColonTells(b, a, restB, restA);
    var s, t := a + ":" + restA, b + ":" + restB;
    assert s[..|a|] == a && t[..|b|] == b;
    assert s[|a| + 1..] == restA && t[|b| + 1..] == restB;
  }

  lemma LabelledField(tag: string, a: string, b: string, restA: string, restB: string)
    requires NoColon(a) && NoColon(b)
    requires (tag + a + ":") + restA == (tag + b + ":") + restB
    ensures a == b && restA == restB
  {
    var s, t := (tag + a + ":") + restA, (tag + b + ":") + restB;
    assert s[|tag|..] == a + ":" + restA;
    assert t[|tag|..] == b + ":" + restB;
    FieldUnique(a, b, restA, restB);
  }

  // ---------- prefix invalidation is exact ----------

  lemma PrefixOfField(tag: string, a: string, b: string, rest: string)
    requires NoColon(a) && NoColon(b)
    requires tag + a + ":" <= (tag + b + ":") + rest
    ensures a == b
  {
    var key := (tag + b + ":") + rest;
    var tail := key[|tag + a + ":"|..];
    assert key == (tag + a + ":") + tail;
    LabelledField(tag, a, b, tail, rest);
  }

  /** A key built for project `q` starts with the prefix of project `p` only when `p` is `q`: 1 does not catch 12. */
  lemma PrefixIsExact(p: int, q: int, ctx: Context)
    ensures StartsWith(CacheKey(q, ctx), ProjectPrefix(p)) <==> p == q
  {
    if StartsWith(CacheKey(q, ctx), ProjectPrefix(p)) {
      PrefixOfField("project:", Decimal.OfInt(p), Decimal.OfInt(q), KeyRest(ctx));
      Decimal.IntInjective(p, q);
    }
  }

  // ---------- when two contexts share a key ----------

  /** "collector:viewer:7" is not of the form "r:viewer:r", and neither is the reviewer's. */
  lemma PerUserNeverShared(role: string, id: int, shared: string)
    requires role == "collector" || role == "reviewer"
    ensures role + ":viewer:" + Decimal.OfInt(id) != shared + ":viewer:" + shared
  {
    var digits := Decimal.OfInt(id);
    var x := role + ":viewer:" + digits;
    var y := shared + ":viewer:" + shared;
    assert y[|shared|] == ':' && y[|shared| + 1] == 'v';
    if |shared| < |role| {
      assert x[|shared|] == role[|shared|];
    } else if |shared| == |role| {
      assert x[0] == role[0] && y[0] == shared[0];
      assert x[|role| + 8] == digits[0] && y[|role| + 8] == shared[0];
    } else if |shared| < |role| + 7 {
      assert x[|shared|] == ":viewer:"[|shared| - |role|];
    } else if |shared| == |role| + 7 {
      assert x[|shared| + 1] == digits[0];
    } else if |shared| < |x| {
      assert x[|shared|] == digits[|shared| - |role| - 8];
    } else {
      assert |y| > |x|;
    }
  }

  lemma DoubledUnique(a: string, b: string)
    requires a + ":viewer:" + a == b + ":viewer:" + b
    ensures a == b
  {
    var x, y := a + ":viewer:" + a, b + ":viewer:" + b;
    assert |x| == 2 * |a| + 8 && |y| == 2 * |b| + 8;
    assert x[..|a|] == a && y[..|b|] == b;
  }

  lemma PerUserFields(a: string, i: int, b: string, j: int)
    requires NoColon(a) && NoColon(b)
    requires a + ":viewer:" + Decimal.OfInt(i) == b + ":viewer:" + Decimal.OfInt(j)
    ensures a == b && i == j
  {
    var restA, restB := "viewer:" + Decimal.OfInt(i), "viewer:" + Decimal.OfInt(j);
    assert a + ":viewer:" + Decimal.OfInt(i) == a + ":" + restA;
    assert b + ":viewer:" + Decimal.OfInt(j) == b + ":" + restB;
    FieldUnique(a, b, restA, restB);
    assert restA[7..] == Decimal.OfInt(i) && restB[7..] == Decimal.OfInt(j);
    Decimal.IntInjective(i, j);
  }

  lemma PerUserField(ctx: Context)
    ensures PerUser(ctx.role) ==>
              && (RoleName(ctx.role) == "collector" || RoleName(ctx.role) == "reviewer")
              && NoColon(RoleName(ctx.role)) && ViewerScope(ctx) == Decimal.OfInt(ctx.userId)
  {
  }

  lemma ViewerUnique(c: Context, d: Context)
    requires RoleName(c.role) + ":viewer:" + ViewerScope(c) == RoleName(d.role) + ":viewer:" + ViewerScope(d)
    ensures RoleName(c.role) == RoleName(d.role) && (PerUser(c.role) ==> c.userId == d.userId)
  {
    PerUserField(c);
    PerUserField(d);
    if PerUser(c.role) && PerUser(d.role) {
      PerUserFields(RoleName(c.role), c.userId, RoleName(d.role), d.userId);
    } else if PerUser(c.role) {
      PerUserNeverShared(RoleName(c.role), c.userId, RoleName(d.role));
    } else if PerUser(d.role) {
      PerUserNeverShared(RoleName(d.role), d.userId, RoleName(c.role));
    } else {
      DoubledUnique(RoleName(c.role), RoleName(d.role));
    }
  }

  lemma RoleFieldsUnique(a: string, b: string, flagA: string, flagB: string)
    requires |flagA| == |flagB| == 1
    requires "role:" + a + ":support:" + flagA == "role:" + b + ":support:" + flagB
    ensures a == b && flagA == flagB
  {
    var x, y := "role:" + a + ":support:" + flagA, "role:" + b + ":support:" + flagB;
    assert |a| == |b|;
    assert x[5..5 + |a|] == a && y[5..5 + |b|] == b;
    assert x[14 + |a|..] == flagA && y[14 + |b|..] == flagB;
  }

  predicate IsZero(id: Option<int>) {
    id == None || id == Some(0)
  }

  predicate IsUnknown(role: Option<string>) {
    role == None || role == Some("") || role == Some("unknown")
  }

  /** Organisations `None` and 0 are one, and so are the roles `None`, "" and "unknown". */
  ghost predicate SameView(c: Context, d: Context) {
    && (c.organizationId == d.organizationId || (IsZero(c.organizationId) && IsZero(d.organizationId)))
    && (c.role == d.role || (IsUnknown(c.role) && IsUnknown(d.role)))
    && c.supportMode == d.supportMode
    && (c.role == Some("collector") || c.role == Some("reviewer") ==> c.userId == d.userId)
  }

  lemma FieldsMean(c: Context, d: Context)
    ensures SameView(c, d) <==>
            && OrZero(c.organizationId) == OrZero(d.organizationId) && RoleName(c.role) == RoleName(d.role)
            && c.supportMode == d.supportMode && (PerUser(c.role) ==> c.userId == d.userId)
  {
  }

  /**
   Two requests share a cached dashboard exactly when project, organisation, role and support flag agree,
   and for collectors and reviewers the user too. The role may be any string, one with ':' in it included.
   */
  lemma KeysCoincide(p: int, c: Context, q: int, d: Context)
    ensures CacheKey(p, c) == CacheKey(q, d) <==> p == q && SameView(c, d)
  {
    FieldsMean(c, d);
    if CacheKey(p, c) == CacheKey(q, d) {
      LabelledField("project:", Decimal.OfInt(p), Decimal.OfInt(q), KeyRest(c), KeyRest(d));
      Decimal.IntInjective(p, q);
      LabelledField("org:", Decimal.OfInt(OrZero(c.organizationId)), Decimal.OfInt(OrZero(d.organizationId)),
                    RoleRest(c), RoleRest(d));
      Decimal.IntInjective(OrZero(c.organizationId), OrZero(d.organizationId));
      RoleFieldsUnique(RoleName(c.role) + ":viewer:" + ViewerScope(c), RoleName(d.role) + ":viewer:" + ViewerScope(d),
                       SupportFlag(c.supportMode), SupportFlag(d.supportMode));
      ViewerUnique(c, d);
    }
    if p == q && SameView(c, d) {
    }
  }

  // ---------- the shared cache ----------

  class ProgressCache<D> {
    const cache: TTLCache<D>

    constructor (ttlSeconds: int)
      ensures fresh(cache) && cache.items == map[] && cache.ttlSeconds == ttlSeconds
    {
      cache := new TTLCache<D>(ttlSeconds);
    }

    method InvalidateProject(projectId: int)
      modifies cache
      ensures forall ctx :: CacheKey(projectId, ctx) !in cache.items
      ensures forall k :: k in cache.items ==> k in old(cache.items) && cache.items[k] == old(cache.items)[k]
      ensures forall q, ctx :: q != projectId && CacheKey(q, ctx) in old(cache.items) ==>
                CacheKey(q, ctx) in cache.items
    {
      var prefix := ProjectPrefix(projectId);
      cache.InvalidateWhere(key => StartsWith(key, prefix));
      forall q, ctx ensures StartsWith(CacheKey(q, ctx), prefix) <==> q == projectId {
        PrefixIsExact(projectId, q, ctx);
      }
    }

    method InvalidateProjects(projectIds: seq<int>)
      modifies cache
      ensures forall p, ctx :: p in projectIds ==> CacheKey(p, ctx) !in cache.items
      ensures forall k :: k in cache.items ==> k in old(cache.items) && cache.items[k] == old(cache.items)[k]
      ensures forall q, ctx :: q !in projectIds && CacheKey(q, ctx) in old(cache.items) ==>
                CacheKey(q, ctx) in cache.items
      ensures projectIds == [] ==> cache.items == old(cache.items)
    {
      var uniqueIds := set p | p in projectIds;
      if uniqueIds == {} {
        assert forall p :: p in projectIds ==> p in uniqueIds;
        return;
      }
      cache.InvalidateWhere(key => exists p :: p in uniqueIds && StartsWith(key, ProjectPrefix(p)));
      forall p, q, ctx ensures StartsWith(CacheKey(q, ctx), ProjectPrefix(p)) <==> p == q {
        PrefixIsExact(p, q, ctx);
      }
      assert projectIds == [] ==> uniqueIds == {};
    }
  }

  /** The step clears the cache of the given projects: one of them, or several at once. */
  ghost predicate ClearsProjects(s: Protocol.State, step: Protocol.Step, projectIds: set<int>) {
    && step.Enter? && step.t in s.tasks && s.tasks[step.t].Waiting? && s.tasks[step.t].op.InvalidateWhere?
    && forall key :: s.tasks[step.t].op.covers(key) <==>
         exists p :: p in projectIds && StartsWith(key, ProjectPrefix(p))
  }

  /** Such a step invalidates the dashboards of exactly these projects. */
  lemma ClearsExactly(s: Protocol.State, step: Protocol.Step, projectIds: set<int>, q: int, ctx: Context)
    requires ClearsProjects(s, step, projectIds)
    ensures Protocol.Invalidates(s, step, CacheKey(q, ctx)) <==> q in projectIds
  {
    forall p ensures StartsWith(CacheKey(q, ctx), ProjectPrefix(p)) <==> p == q {
      PrefixIsExact(p, q, ctx);
    }
  }

  /**
   End to end: in every run of tasks over the cache, after an invalidation of projects has completed, every
   dashboard returned for one of them, whatever the viewer, was computed from data at least as recent.
   */
  lemma DashboardShowsChanges(states: seq<Protocol.State>, steps: seq<Protocol.Step>, i: nat, m: nat,
                              projectIds: set<int>, p: int, ctx: Context)
    requires Protocol.IsRun(states, steps) && i < m < |steps|
    requires ClearsProjects(states[i], steps[i], projectIds) && p in projectIds
    requires forall j :: 0 <= j < m ==> !Protocol.SetsDirectly(states[j], steps[j], CacheKey(p, ctx))
    requires Protocol.Returned(states[m], steps[m], CacheKey(p, ctx)).Some?
    ensures Protocol.Returned(states[m], steps[m], CacheKey(p, ctx)).value.seen >= states[i].version
  {
    ClearsExactly(states[i], steps[i], projectIds, p, ctx);
    Protocol.InvalidationPublishesChanges(states, steps, i, m, CacheKey(p, ctx));
  }
}

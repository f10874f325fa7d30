/**
 * The in-memory fixed-window rate limiter of lib/rate-limiter.ts. The table maps
 * an identifier to its window; `now` (milliseconds) is an explicit argument and
 * the five-minute cleanup timer becomes the explicit operation Cleanup.
 */
module RateLimiter {
  import opened Common

  datatype Config = Config(maxRequests: int, windowMs: int)

  /** The confession limiter: 5 requests per hour. */
  const ConfessionLimit := Config(5, 60 * 60 * 1000)

  datatype Entry = Entry(count: int, resetTime: int)

  type Table = map<string, Entry>

  datatype Decision = Decision(allowed: bool, remaining: int, resetTime: int)

  datatype Status = Status(count: int, remaining: int, resetTime: int)

  /** The window stored for `id` is still running at `now`. */
  predicate Active(t: Table, id: string, now: int) {
    id in t && now < t[id].resetTime
  }

  /** `check(identifier)`: the decision and the table afterwards. */
  function Check(cfg: Config, t: Table, id: string, now: int): (r: (Decision, Table))
    // no window, or an expired one: a fresh window with one request in it
    ensures !Active(t, id, now) ==>
              && r.0 == Decision(true, cfg.maxRequests - 1, now + cfg.windowMs)
              && r.1 == t[id := Entry(1, now + cfg.windowMs)]
    // a full running window: rejected, nothing stored changes
    ensures Active(t, id, now) && t[id].count >= cfg.maxRequests ==>
              && r.0 == Decision(false, 0, t[id].resetTime)
              && r.1 == t
    // room left in a running window: one more request counted
    ensures Active(t, id, now) && t[id].count < cfg.maxRequests ==>
              && r.0 == Decision(true, cfg.maxRequests - (t[id].count + 1), t[id].resetTime)
              && r.1 == t[id := Entry(t[id].count + 1, t[id].resetTime)]
    // only the entry for `id` is ever touched, and it is always present afterwards
    ensures r.1.Keys == t.Keys + {id}
    ensures forall other | other in t && other != id :: r.1[other] == t[other]
    ensures r.0.resetTime == r.1[id].resetTime
  {
    if id !in t || now >= t[id].resetTime then
      var resetTime := now + cfg.windowMs;
      (Decision(true, cfg.maxRequests - 1, resetTime), t[id := Entry(1, resetTime)])
    else
      var entry := t[id];
      if entry.count >= cfg.maxRequests then
        (Decision(false, 0, entry.resetTime), t)
      else
        var entry' := entry.(count := entry.count + 1);
        (Decision(true, cfg.maxRequests - entry'.count, entry'.resetTime), t[id := entry'])
  }

  /** `cleanup()`: forgets every window that has ended by `now`. */
  function Cleanup(t: Table, now: int): (r: Table)
    ensures forall id :: id in r <==> id in t && now < t[id].resetTime
    ensures forall id | id in r :: r[id] == t[id]
  {
    map id | id in t && now < t[id].resetTime :: t[id]
  }

  /** `reset(identifier)`: forgets the window of one identifier. */
  function Reset(t: Table, id: string): (r: Table)
    ensures id !in r
    ensures r.Keys == t.Keys - {id}
    ensures forall other | other in r :: r[other] == t[other]
  {
    t - {id}
  }

  /** `getStatus(identifier)`: `null` (None) unless a window is running at `now`. */
  function GetStatus(cfg: Config, t: Table, id: string, now: int): (r: Option<Status>)
    ensures r.None? <==> id !in t || now >= t[id].resetTime
    ensures r.Some? ==>
              && r.value.count == t[id].count
              && r.value.resetTime == t[id].resetTime
              && r.value.remaining >= 0
              && r.value.remaining == if cfg.maxRequests >= t[id].count then cfg.maxRequests - t[id].count else 0
  {
    if id !in t then None
    else
      var entry := t[id];
      if now >= entry.resetTime then None
      else
        var remaining := cfg.maxRequests - entry.count;
        Some(Status(entry.count, if 0 > remaining then 0 else remaining, entry.resetTime))
  }

  /** Every stored window holds between one and `maxRequests` requests. */
  ghost predicate Bounded(cfg: Config, t: Table) {
    forall id | id in t :: 1 <= t[id].count <= cfg.maxRequests
  }

  /** With a positive maximum, `check` never stores a count above it. */
  lemma CheckKeepsBounded(cfg: Config, t: Table, id: string, now: int)
    requires 1 <= cfg.maxRequests
    requires Bounded(cfg, t)
    ensures Bounded(cfg, Check(cfg, t, id, now).1)
    ensures Check(cfg, t, id, now).0.allowed ==> 0 <= Check(cfg, t, id, now).0.remaining < cfg.maxRequests
  {
  }

  /** Cleanup and reset only forget windows, so they keep the bound too. */
  lemma ForgettingKeepsBounded(cfg: Config, t: Table, id: string, now: int)
    requires Bounded(cfg, t)
    ensures Bounded(cfg, Cleanup(t, now))
    ensures Bounded(cfg, Reset(t, id))
  {
  }

  /**
   * Cleanup is invisible to `check`: a later check sees the same decision, and
   * the table it leaves is the cleaned version of the one it would have left.
   */
  lemma CleanupInvisibleToCheck(cfg: Config, t: Table, id: string, swept: int, now: int)
    requires 0 < cfg.windowMs
    requires swept <= now
    ensures Check(cfg, Cleanup(t, swept), id, now).0 == Check(cfg, t, id, now).0
    ensures Check(cfg, Cleanup(t, swept), id, now).1 == Cleanup(Check(cfg, t, id, now).1, swept)
  {
    var c := Cleanup(t, swept);
    assert Active(c, id, now) <==> Active(t, id, now);
    var lhs := Check(cfg, c, id, now).1;
    var rhs := Cleanup(Check(cfg, t, id, now).1, swept);
    assert lhs.Keys == rhs.Keys;
  }

  /** Cleanup is invisible to `getStatus` as well. */
  lemma CleanupInvisibleToStatus(cfg: Config, t: Table, id: string, swept: int, now: int)
    requires swept <= now
    ensures GetStatus(cfg, Cleanup(t, swept), id, now) == GetStatus(cfg, t, id, now)
  {
  }

  /** After `reset(id)`, the next check of `id` is admitted with a fresh window. */
  lemma ResetThenCheckAdmits(cfg: Config, t: Table, id: string, now: int)
    ensures Check(cfg, Reset(t, id), id, now).0 == Decision(true, cfg.maxRequests - 1, now + cfg.windowMs)
    ensures Check(cfg, Reset(t, id), id, now).1[id] == Entry(1, now + cfg.windowMs)
  {
  }

  /** `getStatus` right after a check reports the quota that check returned. */
  lemma StatusAfterCheck(cfg: Config, t: Table, id: string, now: int)
    requires 0 < cfg.windowMs
    requires 1 <= cfg.maxRequests && Bounded(cfg, t)
    ensures var (d, t') := Check(cfg, t, id, now);
            GetStatus(cfg, t', id, now) == Some(Status(t'[id].count, d.remaining, d.resetTime))
  {
  }

  /** Runs `check(id)` at each instant of `times`; returns the decisions in order. */
  function CheckAll(cfg: Config, t: Table, id: string, times: seq<int>): (r: (seq<Decision>, Table))
    ensures |r.0| == |times|
    ensures times != [] ==> id in r.1
    ensures r.1.Keys == if times == [] then t.Keys else t.Keys + {id}
    decreases |times|
  {
    if times == [] then ([], t)
    else
      var (d, t') := Check(cfg, t, id, times[0]);
      var (ds, t'') := CheckAll(cfg, t', id, times[1..]);
      ([d] + ds, t'')
  }

  /** Number of admitted decisions that belong to the window ending at `resetTime`. */
  function AdmittedIn(ds: seq<Decision>, resetTime: int): (n: nat)
    ensures n <= |ds|
  {
    if ds == [] then 0
    else (if ds[0].allowed && ds[0].resetTime == resetTime then 1 else 0) + AdmittedIn(ds[1..], resetTime)
  }

  /**
   * How many more requests the window ending at `resetTime` can still admit,
   * given what is stored for `id`.
   */
  function Budget(cfg: Config, t: Table, id: string, resetTime: int): int {
    if id !in t || t[id].resetTime < resetTime then cfg.maxRequests
    else if t[id].resetTime == resetTime then cfg.maxRequests - t[id].count
    else 0
  }

  /**
   * The fixed-window guarantee: over any run of checks of one identifier, a
   * single window (named by its reset time) admits no more than the budget left
   * in it, because every new window ends strictly later than the one it replaces.
   */
  lemma {:induction false} WindowAdmitsAtMostBudget(cfg: Config, t: Table, id: string, times: seq<int>, resetTime: int)
    requires 1 <= cfg.maxRequests && 0 < cfg.windowMs
    requires Bounded(cfg, t)
    ensures AdmittedIn(CheckAll(cfg, t, id, times).0, resetTime) <= Budget(cfg, t, id, resetTime)
    decreases |times|
  {
    if times != [] {
      var (d, t') := Check(cfg, t, id, times[0]);
      CheckKeepsBounded(cfg, t, id, times[0]);
      WindowAdmitsAtMostBudget(cfg, t', id, times[1..], resetTime);
      var ds := CheckAll(cfg, t', id, times[1..]).0;
      assert CheckAll(cfg, t, id, times).0 == [d] + ds;
      assert ([d] + ds)[1..] == ds;
    }
  }

  /** The confession limiter's configuration admits at most five requests per hour-long window. */
  lemma ConfessionLimitAdmitsFivePerWindow(id: string, times: seq<int>, resetTime: int)
    ensures AdmittedIn(CheckAll(ConfessionLimit, map[], id, times).0, resetTime) <= 5
  {
    AtMostMaxPerWindow(ConfessionLimit, id, times, resetTime);
  }

  /** From an empty table, no window of one identifier ever admits more than `maxRequests`. */
  lemma AtMostMaxPerWindow(cfg: Config, id: string, times: seq<int>, resetTime: int)
    requires 1 <= cfg.maxRequests && 0 < cfg.windowMs
    ensures AdmittedIn(CheckAll(cfg, map[], id, times).0, resetTime) <= cfg.maxRequests
  {
    WindowAdmitsAtMostBudget(cfg, map[], id, times, resetTime);
  }
}

/**
 The sliding-window rate limiter of internal/ratelimit: two counters per key and
 a background cleanup, against a plain log of every admission.

 Time is an integer number of clock ticks and the estimate is kept exact by
 scaling with the window: the limiter admits when
 previous * (window - elapsed) + current * window < limit * window.
 */
module RateLimit {
  import opened Arith

  datatype Entry = Entry(current: nat, previous: nat, windowStart: int)

  /** The limiter's map, as a value. */
  type Buckets = map<string, Entry>

  datatype Limits = Limits(limit: int, window: int)

  function Truncate(t: int, window: int): int
    requires window > 0
  {
    t - t % window
  }

  predicate Admits(l: Limits, e: Entry, now: int) {
    e.previous * (l.window - (now - e.windowStart)) + e.current * l.window < l.limit * l.window
  }

  /** The entry Allow works on: created if missing, rolled forward if its window is over. */
  function Rolled(l: Limits, b: Buckets, key: string, now: int): Entry
    requires l.window > 0
  {
    var start := Truncate(now, l.window);
    var e := if key in b then b[key] else Entry(0, 0, start);
    var elapsed := now - e.windowStart;
    if elapsed >= 2 * l.window then Entry(0, 0, start)
    else if elapsed >= l.window then Entry(0, e.current, start)
    else e
  }

  function AfterAllow(l: Limits, b: Buckets, key: string, now: int): Buckets
    requires l.window > 0
  {
    var e := Rolled(l, b, key, now);
    b[key := if Admits(l, e, now) then e.(current := e.current + 1) else e]
  }

  function AfterCleanup(l: Limits, b: Buckets, now: int): Buckets {
    map k | k in b && b[k].windowStart >= now - 2 * l.window :: b[k]
  }

  class RateLimiter {
    var buckets: Buckets
    const limits: Limits

    constructor (limits: Limits)
      ensures this.limits == limits && buckets == map[]
    {
      this.limits := limits;
      this.buckets := map[];
    }

    method Allow(key: string, now: int) returns (ok: bool)
      requires limits.window > 0
      modifies this
      ensures ok == Admits(limits, Rolled(limits, old(buckets), key, now), now)
      ensures buckets == AfterAllow(limits, old(buckets), key, now)
    {
      if key !in buckets {
        buckets := buckets[key := Entry(0, 0, Truncate(now, limits.window))];
      }
      var e := buckets[key];
      var elapsed := now - e.windowStart;
      if elapsed >= limits.window {
        var previous := if elapsed >= 2 * limits.window then 0 else e.current;
        e := Entry(0, previous, Truncate(now, limits.window));
        buckets := buckets[key := e];
      }
      elapsed := now - e.windowStart;
      if e.previous * (limits.window - elapsed) + e.current * limits.window >= limits.limit * limits.window {
        return false;
      }
      buckets := buckets[key := e.(current := e.current + 1)];
      return true;
    }

    method Cleanup(now: int)
      modifies this
      ensures buckets == AfterCleanup(limits, old(buckets), now)
      ensures forall k :: k in buckets <==>
                k in old(buckets) && now <= old(buckets)[k].windowStart + limits.window + limits.window
      ensures forall k | k in buckets :: buckets[k] == old(buckets)[k]
    {
      var cutoff := now - 2 * limits.window;
      var all := buckets;
      var pending := all.Keys;
      while pending != {}
        invariant pending <= all.Keys
        invariant forall k :: k in buckets <==> k in all && (k in pending || all[k].windowStart >= cutoff)
        invariant forall k | k in buckets :: buckets[k] == all[k]
        decreases |pending|
      {
        var k :| k in pending;
        pending := pending - {k};
        if buckets[k].windowStart < cutoff {
          buckets := buckets - {k};
        }
      }
    }
  }

  // ---------------------------------------------------------------- Runs

  datatype Event = AllowOf(key: string, now: int) | CleanupAt(now: int)

  datatype History = Start | Then(past: History, last: Event)

  function Clock(h: History): int
    requires h.Then?
  {
    h.last.now
  }

  predicate Chronological(h: History) {
    h.Then? ==> Chronological(h.past) && (h.past.Then? ==> Clock(h.past) <= h.last.now)
  }

  function Exec(l: Limits, h: History): Buckets
    requires l.window > 0
  {
    match h
    case Start => map[]
    case Then(past, AllowOf(key, now)) => AfterAllow(l, Exec(l, past), key, now)
    case Then(past, CleanupAt(now)) => AfterCleanup(l, Exec(l, past), now)
  }

  /** The limiter's answer to a request for `key` at `now`, after history h. */
  predicate Allows(l: Limits, h: History, key: string, now: int)
    requires l.window > 0
  {
    Admits(l, Rolled(l, Exec(l, h), key, now), now)
  }

  // ----------------------------------------------------- The plain log

  /** Every admission ever made, kept forever: key and time. */
  type Log = seq<(string, int)>

  /** Admissions of `key` in the w-th aligned window. */
  function InWindow(log: Log, key: string, window: int, w: int): nat
    requires window > 0
  {
    if log == [] then 0 else
    InWindow(log[..|log| - 1], key, window, w) +
    if log[|log| - 1].0 == key && log[|log| - 1].1 / window == w then 1 else 0
  }

  predicate LogAdmits(l: Limits, log: Log, key: string, now: int)
    requires l.window > 0
  {
    var w, e := now / l.window, now % l.window;
    InWindow(log, key, l.window, w - 1) * (l.window - e) + InWindow(log, key, l.window, w) * l.window
    < l.limit * l.window
  }

  /** A limiter that keeps the whole log and ignores cleanups. */
  function LogOf(l: Limits, h: History): Log
    requires l.window > 0
  {
    match h
    case Start => []
    case Then(past, AllowOf(key, now)) =>
      var log := LogOf(l, past);
      if LogAdmits(l, log, key, now) then log + [(key, now)] else log
    case Then(past, CleanupAt(_)) => LogOf(l, past)
  }

  // --------------------------------------- The two counters are the log

  /** A counted window: the admissions of key in window w, as the log has them. */
  ghost predicate Quiet(l: Limits, log: Log, key: string, w: int)
    requires l.window > 0
  {
    InWindow(log, key, l.window, w) == 0
  }

  /** What the map knows about one key, at time now. */
  ghost predicate Faithful(l: Limits, b: Buckets, log: Log, key: string, now: int)
    requires l.window > 0
  {
    if key in b then
      var e, w := b[key], b[key].windowStart / l.window;
      && e.windowStart == w * l.window <= now
      && e.current == InWindow(log, key, l.window, w)
      && e.previous == InWindow(log, key, l.window, w - 1)
      && forall v | v > w :: Quiet(l, log, key, v)
    else
      forall v | v >= now / l.window - 1 :: Quiet(l, log, key, v)
  }

  lemma InWindowSnoc(log: Log, a: (string, int), key: string, window: int, w: int)
    requires window > 0
    ensures InWindow(log + [a], key, window, w) ==
            InWindow(log, key, window, w) + if a.0 == key && a.1 / window == w then 1 else 0
  {
    assert (log + [a])[..|log|] == log;
  }

  lemma FaithfulLater(l: Limits, b: Buckets, log: Log, key: string, now: int, later: int)
    requires l.window > 0 && now <= later && Faithful(l, b, log, key, now)
    ensures Faithful(l, b, log, key, later)
  {
    DivMono(now, later, l.window);
  }

  /** After rolling forward, the entry holds the log's counts for the current and previous windows. */
  lemma RolledMeaning(l: Limits, b: Buckets, log: Log, key: string, now: int)
    requires l.window > 0 && Faithful(l, b, log, key, now)
    ensures var e, w := Rolled(l, b, key, now), now / l.window;
            && e.windowStart == w * l.window == now - now % l.window
            && e.current == InWindow(log, key, l.window, w)
            && e.previous == InWindow(log, key, l.window, w - 1)
            && forall v | v > w :: Quiet(l, log, key, v)
  {
    var w := now / l.window;
    assert now == w * l.window + now % l.window;
    if key in b {
      var w0 := b[key].windowStart / l.window;
      var elapsed := now - w0 * l.window;
      assert (w0 + 1) * l.window == w0 * l.window + l.window;
      assert (w0 + 2) * l.window == w0 * l.window + 2 * l.window;
      if elapsed < l.window {
        DivUnique(now, l.window, w0);
      } else if elapsed < 2 * l.window {
        DivUnique(now, l.window, w0 + 1);
        assert Quiet(l, log, key, w);
      } else {
        DivMono((w0 + 2) * l.window, now, l.window);
        DivUnique((w0 + 2) * l.window, l.window, w0 + 2);
        assert Quiet(l, log, key, w) && Quiet(l, log, key, w - 1);
      }
    } else {
      assert Quiet(l, log, key, w) && Quiet(l, log, key, w - 1);
    }
  }

  lemma RolledDecides(l: Limits, b: Buckets, log: Log, key: string, now: int)
    requires l.window > 0 && Faithful(l, b, log, key, now)
    ensures Admits(l, Rolled(l, b, key, now), now) <==> LogAdmits(l, log, key, now)
  {
    RolledMeaning(l, b, log, key, now);
  }

  /** An admission of one key, in the log's counts. */
  lemma LogGrows(l: Limits, log: Log, asked: string, now: int, key: string)
    requires l.window > 0
    ensures forall v :: InWindow(log + [(asked, now)], key, l.window, v) ==
                        InWindow(log, key, l.window, v) + if asked == key && now / l.window == v then 1 else 0
    ensures forall v | asked != key || v != now / l.window ::
              Quiet(l, log + [(asked, now)], key, v) <==> Quiet(l, log, key, v)
  {
    forall v ensures InWindow(log + [(asked, now)], key, l.window, v) ==
                     InWindow(log, key, l.window, v) + if asked == key && now / l.window == v then 1 else 0
    {
      InWindowSnoc(log, (asked, now), key, l.window, v);
    }
  }

  /** The rolled entry, counted up or not, against the log with the admission or without. */
  lemma {:induction false} RolledStaysFaithful(l: Limits, b: Buckets, log: Log, key: string, now: int)
    requires l.window > 0 && Faithful(l, b, log, key, now)
    ensures Faithful(l, b[key := Rolled(l, b, key, now)], log, key, now)
  {
    RolledMeaning(l, b, log, key, now);
    DivUnique(now / l.window * l.window, l.window, now / l.window);
  }

  lemma {:induction false} CountedStaysFaithful(l: Limits, b: Buckets, log: Log, key: string, now: int, e: Entry)
    requires l.window > 0 && key in b && b[key] == e && Faithful(l, b, log, key, now)
    requires e.windowStart / l.window == now / l.window
    ensures Faithful(l, b[key := e.(current := e.current + 1)], log + [(key, now)], key, now)
  {
    LogGrows(l, log, key, now, key);
  }

  lemma {:induction false} AskedKeyStaysFaithful(l: Limits, b: Buckets, log: Log, key: string, now: int)
    requires l.window > 0 && Faithful(l, b, log, key, now)
    ensures var log' := if LogAdmits(l, log, key, now) then log + [(key, now)] else log;
            Faithful(l, AfterAllow(l, b, key, now), log', key, now)
  {
    var e, w := Rolled(l, b, key, now), now / l.window;
    RolledDecides(l, b, log, key, now);
    RolledMeaning(l, b, log, key, now);
    RolledStaysFaithful(l, b, log, key, now);
    if Admits(l, e, now) {
      DivUnique(w * l.window, l.window, w);
      CountedStaysFaithful(l, b[key := e], log, key, now, e);
      assert b[key := e][key := e.(current := e.current + 1)] == b[key := e.(current := e.current + 1)];
    }
  }

  lemma AllowKeepsFaithful(l: Limits, b: Buckets, log: Log, asked: string, now: int, key: string)
    requires l.window > 0 && Faithful(l, b, log, asked, now) && Faithful(l, b, log, key, now)
    ensures var log' := if LogAdmits(l, log, asked, now) then log + [(asked, now)] else log;
            Faithful(l, AfterAllow(l, b, asked, now), log', key, now)
  {
    if asked == key {
      AskedKeyStaysFaithful(l, b, log, key, now);
    } else {
      LogGrows(l, log, asked, now, key);
    }
  }

  lemma CleanupKeepsFaithful(l: Limits, b: Buckets, log: Log, now: int, key: string)
    requires l.window > 0 && Faithful(l, b, log, key, now)
    ensures Faithful(l, AfterCleanup(l, b, now), log, key, now)
  {
    if key in b && b[key].windowStart < now - 2 * l.window {
      var w0 := b[key].windowStart / l.window;
      assert (w0 + 2) * l.window == w0 * l.window + 2 * l.window;
      DivMono((w0 + 2) * l.window, now, l.window);
      DivUnique((w0 + 2) * l.window, l.window, w0 + 2);
    }
  }

  lemma {:induction false} CountersAreTheLog(l: Limits, h: History, key: string, now: int)
    requires l.window > 0 && Chronological(h) && (h.Then? ==> Clock(h) <= now)
    ensures Faithful(l, Exec(l, h), LogOf(l, h), key, now)
  {
    match h
    case Start =>
    case Then(past, CleanupAt(t)) =>
      CountersAreTheLog(l, past, key, t);
      CleanupKeepsFaithful(l, Exec(l, past), LogOf(l, past), t, key);
      FaithfulLater(l, Exec(l, h), LogOf(l, h), key, t, now);
    case Then(past, AllowOf(asked, t)) =>
      CountersAreTheLog(l, past, asked, t);
      CountersAreTheLog(l, past, key, t);
      AllowKeepsFaithful(l, Exec(l, past), LogOf(l, past), asked, t, key);
      FaithfulLater(l, Exec(l, h), LogOf(l, h), key, t, now);
  }

  /**
   In every run, with cleanups at arbitrary moments, the limiter decides exactly
   as one that keeps every admission for ever.
   */
  lemma DecidesAsLog(l: Limits, h: History, key: string, now: int)
    requires l.window > 0 && Chronological(h) && (h.Then? ==> Clock(h) <= now)
    ensures Allows(l, h, key, now) <==> LogAdmits(l, LogOf(l, h), key, now)
  {
    CountersAreTheLog(l, h, key, now);
    RolledDecides(l, Exec(l, h), LogOf(l, h), key, now);
  }

  // ------------------------------- Cleanup and other keys are invisible

  function WithoutCleanups(h: History): History {
    match h
    case Start => Start
    case Then(past, AllowOf(_, _)) => Then(WithoutCleanups(past), h.last)
    case Then(past, CleanupAt(_)) => WithoutCleanups(past)
  }

  lemma {:induction false} WithoutCleanupsRuns(l: Limits, h: History)
    requires l.window > 0 && Chronological(h)
    ensures var g := WithoutCleanups(h);
            && Chronological(g) && (g.Then? ==> h.Then? && Clock(g) <= Clock(h))
            && LogOf(l, g) == LogOf(l, h)
  {
    if h.Then? {
      WithoutCleanupsRuns(l, h.past);
    }
  }

  /** Dropping every cleanup from a run changes no answer. */
  lemma CleanupIsUnobservable(l: Limits, h: History, key: string, now: int)
    requires l.window > 0 && Chronological(h) && (h.Then? ==> Clock(h) <= now)
    ensures Allows(l, h, key, now) <==> Allows(l, WithoutCleanups(h), key, now)
  {
    WithoutCleanupsRuns(l, h);
    DecidesAsLog(l, h, key, now);
    DecidesAsLog(l, WithoutCleanups(h), key, now);
  }

  function OnlyKey(h: History, key: string): History {
    match h
    case Start => Start
    case Then(past, AllowOf(k, _)) => if k == key then Then(OnlyKey(past, key), h.last) else OnlyKey(past, key)
    case Then(past, CleanupAt(_)) => Then(OnlyKey(past, key), h.last)
  }

  /** Two logs agree on one key, window by window. */
  ghost predicate SameCounts(l: Limits, f: Log, g: Log, key: string)
    requires l.window > 0
  {
    forall w :: InWindow(f, key, l.window, w) == InWindow(g, key, l.window, w)
  }

  lemma {:induction false} SameCountsSnoc(l: Limits, f: Log, g: Log, key: string, a: (string, int))
    requires l.window > 0 && SameCounts(l, f, g, key)
    ensures a.0 == key ==> SameCounts(l, f + [a], g + [a], key)
    ensures a.0 != key ==> SameCounts(l, f, g + [a], key)
  {
    forall w
      ensures InWindow(g + [a], key, l.window, w) == InWindow(f, key, l.window, w) +
              (if a.0 == key && a.1 / l.window == w then 1 else 0)
      ensures a.0 == key ==> InWindow(f + [a], key, l.window, w) == InWindow(g + [a], key, l.window, w)
    {
      InWindowSnoc(f, a, key, l.window, w);
      InWindowSnoc(g, a, key, l.window, w);
    }
  }

  lemma {:induction false} SameDecision(l: Limits, f: Log, g: Log, key: string, now: int)
    requires l.window > 0 && SameCounts(l, f, g, key)
    ensures LogAdmits(l, f, key, now) <==> LogAdmits(l, g, key, now)
  {
    var w := now / l.window;
    assert InWindow(f, key, l.window, w) == InWindow(g, key, l.window, w);
    assert InWindow(f, key, l.window, w - 1) == InWindow(g, key, l.window, w - 1);
  }

  lemma {:induction false} OnlyKeyRuns(l: Limits, h: History, key: string)
    requires l.window > 0 && Chronological(h)
    ensures var g := OnlyKey(h, key);
            && Chronological(g) && (g.Then? ==> h.Then? && Clock(g) <= Clock(h))
            && SameCounts(l, LogOf(l, g), LogOf(l, h), key)
  {
    match h
    case Start =>
    case Then(past, CleanupAt(_)) =>
      OnlyKeyRuns(l, past, key);
    case Then(past, AllowOf(asked, now)) =>
      OnlyKeyRuns(l, past, key);
      var f, g := LogOf(l, OnlyKey(past, key)), LogOf(l, past);
      SameDecision(l, f, g, key, now);
      SameCountsSnoc(l, f, g, key, (asked, now));
  }

  /** Requests for other keys change no answer. */
  lemma KeysAreIndependent(l: Limits, h: History, key: string, now: int)
    requires l.window > 0 && Chronological(h) && (h.Then? ==> Clock(h) <= now)
    ensures Allows(l, h, key, now) <==> Allows(l, OnlyKey(h, key), key, now)
  {
    OnlyKeyRuns(l, h, key);
    DecidesAsLog(l, h, key, now);
    DecidesAsLog(l, OnlyKey(h, key), key, now);
  }

  // ------------------------------------------------ How much gets through

  /** Admissions of key at a time in [from, to]. */
  function Within(log: Log, key: string, from: int, to: int): nat {
    if log == [] then 0 else
    Within(log[..|log| - 1], key, from, to) +
    if log[|log| - 1].0 == key && from <= log[|log| - 1].1 <= to then 1 else 0
  }

  lemma WithinSnoc(log: Log, a: (string, int), key: string, from: int, to: int)
    ensures Within(log + [a], key, from, to) ==
            Within(log, key, from, to) + if a.0 == key && from <= a.1 <= to then 1 else 0
  {
    assert (log + [a])[..|log|] == log;
  }

  /** Admissions in t's own window, up to t. */
  function SoFar(log: Log, key: string, window: int, t: int): nat
    requires window > 0
  {
    Within(log, key, t - t % window, t)
  }

  /** An interval of one window length meets only t's window and the one before. */
  lemma {:induction false} IntervalSplits(log: Log, key: string, window: int, t: int)
    requires window > 0
    ensures Within(log, key, t - window, t) <=
            InWindow(log, key, window, t / window - 1) + SoFar(log, key, window, t)
  {
    if log != [] {
      var rest, u := log[..|log| - 1], log[|log| - 1].1;
      IntervalSplits(rest, key, window, t);
      var w := t / window;
      assert t == w * window + t % window;
      assert (w - 1) * window == w * window - window;
      DivUnique(u, window, w - 1);
    }
  }

  /** Only the window of u counts towards what t has seen so far. */
  lemma {:induction false} SoFarInWindow(log: Log, key: string, window: int, t: int)
    requires window > 0
    ensures SoFar(log, key, window, t) <= InWindow(log, key, window, t / window)
  {
    if log != [] {
      var rest, u := log[..|log| - 1], log[|log| - 1].1;
      SoFarInWindow(rest, key, window, t);
      var w := t / window;
      assert t == w * window + t % window;
      DivUnique(u, window, w);
    }
  }

  /** The log records times in order, none after `now`. */
  lemma {:induction false} NothingLater(l: Limits, h: History, key: string, w: int)
    requires l.window > 0 && Chronological(h) && (h.Then? ==> Clock(h) / l.window < w)
    ensures InWindow(LogOf(l, h), key, l.window, w) == 0
  {
    if h.Then? {
      if h.past.Then? {
        DivMono(Clock(h.past), Clock(h), l.window);
      }
      NothingLater(l, h.past, key, w);
      if h.last.AllowOf? {
        InWindowSnoc(LogOf(l, h.past), (h.last.key, h.last.now), key, l.window, w);
      }
    }
  }

  ghost predicate Capped(l: Limits, log: Log, key: string, t: int)
    requires l.window > 0
  {
    var p, c := InWindow(log, key, l.window, t / l.window - 1), SoFar(log, key, l.window, t);
    c == 0 || p * (l.window - t % l.window) + c * l.window < (l.limit + 1) * l.window
  }

  lemma CapStep(p: nat, c: nat, cur: nat, early: nat, late: nat, w: nat, limit: int)
    requires late <= early && c <= cur && p * early + cur * w < limit * w
    ensures p * late + (c + 1) * w < (limit + 1) * w
  {
    MulMono(late, early, p);
    MulMono(c, cur, w);
    assert (c + 1) * w == c * w + w && (limit + 1) * w == limit * w + w;
  }

  /** Two times in one window are ordered as their offsets. */
  lemma SameWindow(now: int, t: int, window: int)
    requires window > 0 && t - t % window <= now <= t
    ensures now / window == t / window && now % window <= t % window
  {
    var v := t / window;
    assert t == v * window + t % window;
    DivUnique(now, window, v);
    assert now == v * window + now % window;
  }

  /** A new admission in the same window, no later than t. */
  lemma {:induction false} AppendBefore(l: Limits, log: Log, key: string, now: int, t: int)
    requires l.window > 0 && LogAdmits(l, log, key, now)
    requires t - t % l.window <= now <= t
    ensures Capped(l, log + [(key, now)], key, t)
  {
    var v := t / l.window;
    SameWindow(now, t, l.window);
    InWindowSnoc(log, (key, now), key, l.window, v - 1);
    WithinSnoc(log, (key, now), key, t - t % l.window, t);
    SoFarInWindow(log, key, l.window, t);
    CapStep(InWindow(log, key, l.window, v - 1), SoFar(log, key, l.window, t), InWindow(log, key, l.window, v),
            l.window - now % l.window, l.window - t % l.window, l.window, l.limit);
  }

  /** A new admission in the window before t's: t's own window is still empty. */
  lemma AppendInPrevious(l: Limits, h: History, now: int, key: string, t: int)
    requires l.window > 0 && Chronological(h) && (h.Then? ==> Clock(h) <= now)
    requires now / l.window == t / l.window - 1 && !(t - t % l.window <= now <= t)
    ensures Capped(l, LogOf(l, h) + [(key, now)], key, t)
  {
    var log, v := LogOf(l, h), t / l.window;
    if h.Then? {
      DivMono(Clock(h), now, l.window);
    }
    NothingLater(l, h, key, v);
    SoFarInWindow(log, key, l.window, t);
    WithinSnoc(log, (key, now), key, t - t % l.window, t);
  }

  /** An admission that t's two windows do not see. */
  lemma AppendUnseen(l: Limits, log: Log, asked: string, now: int, key: string, t: int)
    requires l.window > 0 && Capped(l, log, key, t)
    requires asked != key || (now / l.window != t / l.window - 1 && !(t - t % l.window <= now <= t))
    ensures Capped(l, log + [(asked, now)], key, t)
  {
    InWindowSnoc(log, (asked, now), key, l.window, t / l.window - 1);
    WithinSnoc(log, (asked, now), key, t - t % l.window, t);
  }

  lemma AppendKeepsCap(l: Limits, h: History, asked: string, now: int, key: string, t: int)
    requires l.window > 0 && Chronological(h) && (h.Then? ==> Clock(h) <= now)
    requires LogAdmits(l, LogOf(l, h), asked, now) && Capped(l, LogOf(l, h), key, t)
    ensures Capped(l, LogOf(l, h) + [(asked, now)], key, t)
  {
    if asked == key && t - t % l.window <= now <= t {
      AppendBefore(l, LogOf(l, h), key, now, t);
    } else if asked == key && now / l.window == t / l.window - 1 {
      AppendInPrevious(l, h, now, key, t);
    } else {
      AppendUnseen(l, LogOf(l, h), asked, now, key, t);
    }
  }

  lemma {:induction false} AlwaysCapped(l: Limits, h: History, key: string, t: int)
    requires l.window > 0 && Chronological(h)
    ensures Capped(l, LogOf(l, h), key, t)
  {
    if h.Then? {
      AlwaysCapped(l, h.past, key, t);
      if h.last.AllowOf? && LogAdmits(l, LogOf(l, h.past), h.last.key, h.last.now) {
        AppendKeepsCap(l, h.past, h.last.key, h.last.now, key, t);
      }
    }
  }

  /** No aligned window ever admits more than the limit. */
  lemma {:induction false} WindowCapped(l: Limits, h: History, key: string, w: int)
    requires l.window > 0
    ensures var c := InWindow(LogOf(l, h), key, l.window, w); c == 0 || c <= l.limit
  {
    if h.Then? {
      WindowCapped(l, h.past, key, w);
      if h.last.AllowOf? {
        var log, now := LogOf(l, h.past), h.last.now;
        InWindowSnoc(log, (h.last.key, now), key, l.window, w);
        var p, c := InWindow(log, h.last.key, l.window, now / l.window - 1),
                    InWindow(log, h.last.key, l.window, now / l.window);
        MulMono(0, p, l.window - now % l.window);
        if c >= l.limit {
          MulMono(l.limit, c, l.window);
        }
      }
    }
  }

  /**
   In any interval of one window length ending at offset e of an aligned window,
   the admissions N of a key satisfy N * w < (limit + 1) * w + P * e, where P is the
   previous window's count. So N is at most the limit right at a boundary and never
   more than twice the limit.
   */
  lemma IntervalBound(l: Limits, h: History, key: string, t: int)
    requires l.window > 0 && l.limit >= 0 && Chronological(h)
    ensures var log, e := LogOf(l, h), t % l.window;
            var n, p := Within(log, key, t - l.window, t), InWindow(log, key, l.window, t / l.window - 1);
            && p <= l.limit
            && n * l.window < (l.limit + 1) * l.window + p * e
            && (e == 0 ==> n <= l.limit)
            && n <= 2 * l.limit
  {
    var log, w, e := LogOf(l, h), l.window, t % l.window;
    var n, p, c := Within(log, key, t - w, t), InWindow(log, key, w, t / w - 1), SoFar(log, key, w, t);
    IntervalSplits(log, key, w, t);
    AlwaysCapped(l, h, key, t);
    WindowCapped(l, h, key, t / w - 1);
    SumBound(n, l.limit, p, c, e, w);
    TwiceBound(n, l.limit, p, e, w);
  }

  // ----------------------------------------------- Twice the limit, exactly

  /** n requests for one key at one moment. */
  function Burst(h: History, key: string, now: int, n: nat): History {
    if n == 0 then h else Then(Burst(h, key, now, n - 1), AllowOf(key, now))
  }

  /** The log leaves room for n more admissions of key at now. */
  predicate Room(l: Limits, log: Log, key: string, now: int, n: nat)
    requires l.window > 0
  {
    var w := now / l.window;
    InWindow(log, key, l.window, w - 1) * (l.window - now % l.window) +
    (InWindow(log, key, l.window, w) + n - 1) * l.window < l.limit * l.window
  }

  /** Log g has n more admissions of key at now than f, and counts the same otherwise. */
  ghost predicate Grown(l: Limits, f: Log, g: Log, key: string, now: int, n: nat)
    requires l.window > 0
  {
    && (forall v :: InWindow(g, key, l.window, v) ==
                    InWindow(f, key, l.window, v) + if v == now / l.window then n else 0)
    && (forall from, to :: Within(g, key, from, to) ==
                           Within(f, key, from, to) + if from <= now <= to then n else 0)
  }

  lemma {:induction false} GrownSnoc(l: Limits, f: Log, g: Log, key: string, now: int, n: nat)
    requires l.window > 0 && Grown(l, f, g, key, now, n)
    ensures Grown(l, f, g + [(key, now)], key, now, n + 1)
  {
    forall v {
      InWindowSnoc(g, (key, now), key, l.window, v);
    }
    forall from, to {
      WithinSnoc(g, (key, now), key, from, to);
    }
  }

  lemma {:induction false} RoomAdmits(l: Limits, f: Log, g: Log, key: string, now: int, n: nat)
    requires l.window > 0 && Room(l, f, key, now, n + 1) && Grown(l, f, g, key, now, n)
    ensures LogAdmits(l, g, key, now)
  {
    var w := now / l.window;
    assert InWindow(g, key, l.window, w) == InWindow(f, key, l.window, w) + n;
    assert InWindow(g, key, l.window, w - 1) == InWindow(f, key, l.window, w - 1);
  }

  lemma {:induction false} RoomForFewer(l: Limits, log: Log, key: string, now: int, n: nat)
    requires l.window > 0 && Room(l, log, key, now, n + 1)
    ensures Room(l, log, key, now, n)
  {
    var c := InWindow(log, key, l.window, now / l.window);
    assert (c + n) * l.window == (c + n - 1) * l.window + l.window;
  }

  lemma {:induction false} BurstStep(l: Limits, f: Log, g: History, key: string, now: int, n: nat)
    requires l.window > 0 && Room(l, f, key, now, n + 1) && Grown(l, f, LogOf(l, g), key, now, n)
    ensures Grown(l, f, LogOf(l, Then(g, AllowOf(key, now))), key, now, n + 1)
  {
    RoomAdmits(l, f, LogOf(l, g), key, now, n);
    assert LogOf(l, Then(g, AllowOf(key, now))) == LogOf(l, g) + [(key, now)];
    GrownSnoc(l, f, LogOf(l, g), key, now, n);
  }

  /** Where there is room for n more, every request of a burst of n is admitted. */
  lemma {:induction false} BurstAdmitted(l: Limits, h: History, key: string, now: int, n: nat)
    requires l.window > 0 && Room(l, LogOf(l, h), key, now, n)
    ensures Grown(l, LogOf(l, h), LogOf(l, Burst(h, key, now, n)), key, now, n)
  {
    if n > 0 {
      RoomForFewer(l, LogOf(l, h), key, now, n - 1);
      BurstAdmitted(l, h, key, now, n - 1);
      BurstStep(l, LogOf(l, h), Burst(h, key, now, n - 1), key, now, n - 1);
    }
  }

  lemma {:induction false} BurstChronological(h: History, key: string, now: int, n: nat)
    requires Chronological(h) && (h.Then? ==> Clock(h) <= now)
    ensures var g := Burst(h, key, now, n); Chronological(g) && (g.Then? ==> Clock(g) <= now)
  {
    if n > 0 {
      BurstChronological(h, key, now, n - 1);
    }
  }

  /** History h lets twice the limit of one key through within one window length ending at t. */
  ghost predicate Doubles(l: Limits, h: History, key: string, t: int)
    requires l.window > 0
  {
    Chronological(h) && Within(LogOf(l, h), key, t - l.window, t) == 2 * l.limit
  }

  /** A full burst at the last tick of two adjacent windows. */
  function TwoBursts(l: Limits, key: string): History
    requires l.limit >= 0
  {
    Burst(Burst(Start, key, l.window - 1, l.limit), key, 2 * l.window - 1, l.limit)
  }

  lemma LastTicks(window: int)
    requires window > 0
    ensures (window - 1) / window == 0 && (window - 1) % window == window - 1
    ensures (2 * window - 1) / window == 1 && (2 * window - 1) % window == window - 1
  {
    DivModUnique(window - 1, window, 0, window - 1);
    DivModUnique(2 * window - 1, window, 1, window - 1);
  }

  lemma OneTickLeft(limit: nat, p: nat, window: int)
    requires p <= limit < window
    ensures p * (window - (window - 1)) + (0 + limit - 1) * window < limit * window
  {
    assert window - (window - 1) == 1 && (limit - 1) * window == limit * window - window;
  }

  /** At the last tick of a window so far empty there is room for the whole limit. */
  lemma {:induction false} RoomAtTheEnd(l: Limits, log: Log, key: string, now: int, w: int)
    requires 0 <= l.limit < l.window && now / l.window == w && now % l.window == l.window - 1
    requires InWindow(log, key, l.window, w) == 0 && InWindow(log, key, l.window, w - 1) <= l.limit
    ensures Room(l, log, key, now, l.limit)
  {
    OneTickLeft(l.limit, InWindow(log, key, l.window, w - 1), l.window);
  }

  lemma {:induction false} TwoBurstsDouble(l: Limits, key: string)
    requires 0 <= l.limit < l.window
    ensures Doubles(l, TwoBursts(l, key), key, 2 * l.window - 1)
  {
    var w, t := l.window, 2 * l.window - 1;
    var first := Burst(Start, key, w - 1, l.limit);
    LastTicks(w);
    BurstChronological(Start, key, w - 1, l.limit);
    BurstChronological(first, key, t, l.limit);
    RoomAtTheEnd(l, [], key, w - 1, 0);
    BurstAdmitted(l, Start, key, w - 1, l.limit);
    var log := LogOf(l, first);
    assert InWindow(log, key, w, 0) == l.limit && InWindow(log, key, w, 1) == 0;
    assert Within(log, key, t - w, t) == l.limit;
    RoomAtTheEnd(l, log, key, t, 1);
    BurstAdmitted(l, first, key, t, l.limit);
  }

  /**
   Some run lets twice the limit through within one window length exactly when the
   limit is below the number of clock ticks in a window.
   */
  lemma TwiceTheLimitExactly(l: Limits)
    requires l.window > 0 && l.limit >= 0
    ensures (exists h, key, t :: Doubles(l, h, key, t)) <==> l.limit < l.window
  {
    if l.limit < l.window {
      TwoBurstsDouble(l, "");
    }
    forall h, key, t | Doubles(l, h, key, t) ensures l.limit < l.window {
      IntervalBound(l, h, key, t);
      DoubleNeedsRoom(l.limit, InWindow(LogOf(l, h), key, l.window, t / l.window - 1), t % l.window, l.window);
    }
  }

  lemma DoubleNeedsRoom(limit: nat, p: nat, e: nat, w: nat)
    requires e < w && p <= limit && 2 * limit * w < (limit + 1) * w + p * e
    ensures limit < w
  {
    MulMono(p, limit, e);
    MulMono(e, w - 1, limit);
    assert (w - 1) * limit == limit * w - limit && (limit + 1) * w == limit * w + w;
    assert 2 * limit * w == limit * w + limit * w;
  }

  lemma SumBound(n: nat, limit: nat, p: nat, c: nat, e: nat, w: nat)
    requires e < w && p <= limit && n <= p + c
    requires c == 0 || p * (w - e) + c * w < (limit + 1) * w
    ensures n * w < (limit + 1) * w + p * e
  {
    MulMono(n, p + c, w);
    assert (p + c) * w == p * w + c * w && p * (w - e) == p * w - p * e;
    MulMono(p, limit, w);
    MulMono(0, e, p);
    assert (limit + 1) * w == limit * w + w;
  }

  lemma TwiceBound(n: nat, limit: nat, p: nat, e: nat, w: nat)
    requires e < w && p <= limit && n * w < (limit + 1) * w + p * e
    ensures n <= 2 * limit && (e == 0 ==> n <= limit)
  {
    MulMono(e, w, p);
    MulMono(p, limit, w);
    assert (limit + 1) * w + limit * w == (2 * limit + 1) * w;
    if n >= 2 * limit + 1 {
      MulMono(2 * limit + 1, n, w);
    }
    if n >= limit + 1 {
      MulMono(limit + 1, n, w);
    }
  }
}

// Fixed-window attempt counters (crates/core/src/ratelimit.rs). Times are unbounded integers
// here; the program keeps them in an i64 of milliseconds.
module RateLimit {
  import opened Common
  import opened Collections

  datatype Attempts = Attempts(windowStart: int, count: nat)

  datatype Decision =
    | Allow(next: Attempts)
    | Deny(retryAfterMs: int)
  {
    /** Rounded up to whole seconds. */
    function RetryAfterSecs(): Option<int> {
      if Deny? then Some((retryAfterMs + 999) / 1000) else None
    }
  }

  datatype Limit = Limit(max: nat, windowMs: int) {
    predicate InWindow(s: Attempts, now: int) {
      now - s.windowStart < windowMs
    }

    function Check(state: Option<Attempts>, now: int): Decision {
      match state
      case Some(s) =>
        if InWindow(s, now) && s.count >= max then
          var left := s.windowStart + windowMs - now;
          Deny(if left > 0 then left else 0)
        else if InWindow(s, now) then Allow(Attempts(s.windowStart, s.count + 1))
        else Allow(Attempts(now, 1))
      case None => Allow(Attempts(now, 1))
    }
  }

  /** The longest wait either bucket asks for; the fallback never applies to a refusal. */
  function Wait(a: Decision, b: Decision): int {
    match (a.RetryAfterSecs(), b.RetryAfterSecs())
    case (Some(x), Some(y)) => if x >= y then x else y
    case (Some(x), None) => x
    case (None, Some(y)) => y
    case (None, None) => 1
  }

  // ---- whole runs ---------------------------------------------------------------------------

  /** The stored record and the times of the attempts let through so far. */
  datatype Log = Log(state: Option<Attempts>, allowed: seq<int>)

  function Attempt(l: Limit, log: Log, t: int): Log {
    match l.Check(log.state, t)
    case Allow(next) => Log(Some(next), log.allowed + [t])
    case Deny(_) => log
  }

  function Run(l: Limit, log: Log, times: seq<int>): Log {
    if |times| == 0 then log
    else var n := |times| - 1; Attempt(l, Run(l, log, times[..n]), times[n])
  }

  /** How many of `ts` fall in `[lo, hi)`. */
  function CountIn(ts: seq<int>, lo: int, hi: int): nat {
    if |ts| == 0 then 0
    else CountIn(ts[..|ts| - 1], lo, hi) + if lo <= ts[|ts| - 1] < hi then 1 else 0
  }

  predicate NonDecreasing(ts: seq<int>) {
    forall i, j :: 0 <= i <= j < |ts| ==> ts[i] <= ts[j]
  }

  lemma {:induction false} CountSplits(ts: seq<int>, lo: int, mid: int, hi: int)
    requires lo <= mid <= hi
    ensures CountIn(ts, lo, hi) == CountIn(ts, lo, mid) + CountIn(ts, mid, hi)
  {
    if |ts| > 0 { CountSplits(ts[..|ts| - 1], lo, mid, hi); }
  }

  lemma {:induction false} CountNone(ts: seq<int>, lo: int, hi: int)
    requires forall i :: 0 <= i < |ts| ==> !(lo <= ts[i] < hi)
    ensures CountIn(ts, lo, hi) == 0
  {
    if |ts| > 0 { CountNone(ts[..|ts| - 1], lo, hi); }
  }

  lemma CountOneMore(ts: seq<int>, t: int, lo: int, hi: int)
    ensures CountIn(ts + [t], lo, hi) == CountIn(ts, lo, hi) + if lo <= t < hi then 1 else 0
  {
    assert (ts + [t])[..|ts|] == ts;
  }

  /** What holds of a run for one fixed interval `[a, a + window)`: the open window holds as many
      attempts as its counter says and one of them opened it; an interval that reaches back past
      its start misses the opening attempt of the window before. */
  predicate Bounded(l: Limit, log: Log, a: int) {
    match log.state
    case None => log.allowed == []
    case Some(s) =>
      var ts, start, end := log.allowed, s.windowStart, s.windowStart + l.windowMs;
      && 1 <= s.count <= l.max
      && (forall i :: 0 <= i < |ts| ==> ts[i] < end)
      && CountIn(ts, start, end) == s.count
      && CountIn(ts, start, start + 1) >= 1
      && (start - l.windowMs < a <= start ==> CountIn(ts, a, start) <= l.max - 1)
      && CountIn(ts, a, a + l.windowMs) <= 2 * l.max - 1
  }

  /** An interval reaching past a window's end misses the attempt that opened the window. */
  lemma TailMissesOpening(l: Limit, log: Log, a: int, hi: int)
    requires l.windowMs > 0 && Bounded(l, log, a) && log.state.Some?
    requires log.state.value.windowStart < a && log.state.value.windowStart + l.windowMs <= hi
    requires a <= hi
    ensures CountIn(log.allowed, a, hi) <= l.max - 1
  {
    var ts, start, end := log.allowed, log.state.value.windowStart, log.state.value.windowStart + l.windowMs;
    CountNone(ts, end, hi);
    if a < end {
      CountSplits(ts, start, start + 1, end);
      CountSplits(ts, start + 1, a, end);
      CountSplits(ts, a, end, hi);
    } else {
      CountNone(ts, a, hi);
    }
  }

  lemma OpeningKeepsBound(l: Limit, log: Log, t: int, a: int)
    requires l.max >= 1 && l.windowMs > 0 && Bounded(l, log, a)
    requires log.state.Some? ==> !l.InWindow(log.state.value, t)
    ensures Bounded(l, Log(Some(Attempts(t, 1)), log.allowed + [t]), a)
  {
    var ts, w := log.allowed, l.windowMs;
    CountOneMore(ts, t, t, t + w);
    CountOneMore(ts, t, t, t + 1);
    CountOneMore(ts, t, a, t);
    CountOneMore(ts, t, a, a + w);
    CountNone(ts, t, t + w);
    CountNone(ts, t, t + 1);
    if log.state.Some? && t - w < a <= t {
      TailMissesOpening(l, log, a, t);
      TailMissesOpening(l, log, a, a + w);
    }
  }

  lemma CountingKeepsBound(l: Limit, log: Log, t: int, a: int)
    requires l.max >= 1 && l.windowMs > 0 && Bounded(l, log, a)
    requires log.state.Some? && l.InWindow(log.state.value, t) && log.state.value.count < l.max
    requires t >= log.state.value.windowStart
    ensures var s := log.state.value;
            Bounded(l, Log(Some(Attempts(s.windowStart, s.count + 1)), log.allowed + [t]), a)
  {
    var ts, w, s := log.allowed, l.windowMs, log.state.value;
    var ts', start, end := ts + [t], s.windowStart, s.windowStart + w;
    CountOneMore(ts, t, start, end);
    CountOneMore(ts, t, start, start + 1);
    CountOneMore(ts, t, a, start);
    CountOneMore(ts, t, a, a + w);
    if a <= t < a + w {
      if a <= start {
        CountSplits(ts', a, start, a + w);
        CountSplits(ts', start, a + w, end);
      } else {
        CountSplits(ts', start, a, end);
        CountSplits(ts', a, end, a + w);
        CountNone(ts', end, a + w);
      }
    }
  }

  lemma NothingIsBounded(l: Limit, a: int)
    ensures Bounded(l, Log(None, []), a)
  {
  }

  lemma {:induction false} RunIsBounded(l: Limit, times: seq<int>, a: int)
    requires l.max >= 1 && l.windowMs > 0 && NonDecreasing(times)
    ensures var log := Run(l, Log(None, []), times);
            && Bounded(l, log, a)
            && (log.state.Some? ==> |times| > 0 && log.state.value.windowStart <= times[|times| - 1])
  {
    hide Bounded, CountIn;
    if |times| == 0 {
      NothingIsBounded(l, a);
    } else {
      var n := |times| - 1;
      RunIsBounded(l, times[..n], a);
      var log := Run(l, Log(None, []), times[..n]);
      assert n > 0 ==> times[..n][n - 1] <= times[n];
      if log.state.None? || !l.InWindow(log.state.value, times[n]) {
        OpeningKeepsBound(l, log, times[n], a);
      } else if log.state.value.count < l.max {
        CountingKeepsBound(l, log, times[n], a);
      }
    }
  }

  /** Over any run, no interval as long as the window lets through more than `2 * max - 1`
      attempts: one short of the doubling a fixed window is usually charged with. */
  lemma AtMostTwiceTheLimit(l: Limit, times: seq<int>, a: int)
    requires l.max >= 1 && l.windowMs > 0 && NonDecreasing(times)
    ensures CountIn(Run(l, Log(None, []), times).allowed, a, a + l.windowMs) <= 2 * l.max - 1
  {
    RunIsBounded(l, times, a);
  }

  lemma {:induction false} RepeatedAttempts(l: Limit, log: Log, t: int, k: nat)
    requires log.state.Some? && l.InWindow(log.state.value, t) && log.state.value.count + k <= l.max
    ensures var s := log.state.value;
            Run(l, log, seq(k, _ => t)) ==
              Log(Some(Attempts(s.windowStart, s.count + k)), log.allowed + seq(k, _ => t))
  {
    var ts := seq(k, _ => t);
    if k == 0 {
      assert log.allowed + ts == log.allowed;
    } else {
      assert ts[..k - 1] == seq(k - 1, _ => t);
      RepeatedAttempts(l, log, t, k - 1);
      assert log.allowed + ts == log.allowed + seq(k - 1, _ => t) + [t];
    }
  }

  lemma {:induction false} RunConcat(l: Limit, log: Log, x: seq<int>, y: seq<int>)
    ensures Run(l, log, x + y) == Run(l, Run(l, log, x), y)
  {
    if |y| == 0 {
      assert x + y == x;
    } else {
      var n := |y| - 1;
      assert (x + y)[..|x + y| - 1] == x + y[..n];
      RunConcat(l, log, x, y[..n]);
    }
  }

  lemma {:induction false} CountRepeated(ts: seq<int>, t: int, k: nat, lo: int, hi: int)
    ensures CountIn(ts + seq(k, _ => t), lo, hi) == CountIn(ts, lo, hi) + if lo <= t < hi then k else 0
  {
    if k == 0 {
      assert ts + seq(k, _ => t) == ts;
    } else {
      assert ts + seq(k, _ => t) == ts + seq(k - 1, _ => t) + [t];
      CountOneMore(ts + seq(k - 1, _ => t), t, lo, hi);
      CountRepeated(ts, t, k - 1, lo, hi);
    }
  }

  /** A burst across the boundary: one attempt opens a window, the rest wait for its last
      millisecond, and the next window is used up at once. */
  function Burst(l: Limit): seq<int>
    requires l.max >= 1
  {
    [0] + seq(l.max - 1, _ => l.windowMs - 1) + ([l.windowMs] + seq(l.max - 1, _ => l.windowMs))
  }

  lemma BurstFillsFirstWindow(l: Limit)
    requires l.max >= 1 && l.windowMs >= 2
    ensures var first := [0] + seq(l.max - 1, _ => l.windowMs - 1);
            Run(l, Log(None, []), first) == Log(Some(Attempts(0, l.max)), first)
  {
    var rest := seq(l.max - 1, _ => l.windowMs - 1);
    RunConcat(l, Log(None, []), [0], rest);
    OneAttempt(l, Log(None, []), 0);
    assert Attempt(l, Log(None, []), 0) == Log(Some(Attempts(0, 1)), [0]);
    RepeatedAttempts(l, Log(Some(Attempts(0, 1)), [0]), l.windowMs - 1, l.max - 1);
  }

  lemma BurstFillsSecondWindow(l: Limit, allowed: seq<int>)
    requires l.max >= 1 && l.windowMs >= 2
    ensures var second := [l.windowMs] + seq(l.max - 1, _ => l.windowMs);
            Run(l, Log(Some(Attempts(0, l.max)), allowed), second).allowed == allowed + second
  {
    var w, rest := l.windowMs, seq(l.max - 1, _ => l.windowMs);
    var mid := Log(Some(Attempts(0, l.max)), allowed);
    RunConcat(l, mid, [w], rest);
    OneAttempt(l, mid, w);
    RepeatedAttempts(l, Log(Some(Attempts(w, 1)), allowed + [w]), w, l.max - 1);
    assert allowed + [w] + rest == allowed + ([w] + rest);
  }

  lemma BurstCount(l: Limit)
    requires l.max >= 1 && l.windowMs >= 2
    ensures CountIn(Burst(l), l.windowMs - 1, 2 * l.windowMs - 1) == 2 * l.max - 1
  {
    var w, k := l.windowMs, l.max - 1;
    var first := [0] + seq(k, _ => w - 1);
    CountOneMore([], 0, w - 1, 2 * w - 1);
    assert [] + [0] == [0];
    CountRepeated([0], w - 1, k, w - 1, 2 * w - 1);
    CountOneMore(first, w, w - 1, 2 * w - 1);
    CountRepeated(first + [w], w, k, w - 1, 2 * w - 1);
    assert Burst(l) == first + [w] + seq(k, _ => w);
  }

  lemma BurstIsOrdered(l: Limit)
    requires l.max >= 1 && l.windowMs >= 2
    ensures NonDecreasing(Burst(l))
  {
    var b, k := Burst(l), l.max;
    forall i | 0 <= i < |b| ensures b[i] == if i == 0 then 0 else if i < k then l.windowMs - 1 else l.windowMs {
    }
  }

  /** The bound is reached for every limit whose window is longer than one tick. */
  lemma BoundIsTight(l: Limit)
    requires l.max >= 1 && l.windowMs >= 2
    ensures NonDecreasing(Burst(l))
    ensures CountIn(Run(l, Log(None, []), Burst(l)).allowed, l.windowMs - 1, 2 * l.windowMs - 1) == 2 * l.max - 1
  {
    var first, second := [0] + seq(l.max - 1, _ => l.windowMs - 1), [l.windowMs] + seq(l.max - 1, _ => l.windowMs);
    BurstFillsFirstWindow(l);
    BurstFillsSecondWindow(l, first);
    RunConcat(l, Log(None, []), first, second);
    BurstCount(l);
    BurstIsOrdered(l);
  }

  lemma OneAttempt(l: Limit, log: Log, t: int)
    ensures Run(l, log, [t]) == Attempt(l, log, t)
  {
    assert [t][..0] == [];
  }

  // ---- after a denial -----------------------------------------------------------------------

  /** Waiting as told reopens both buckets, and one second less would not have been enough. */
  lemma WaitingReopensBoth(la: Limit, lb: Limit, sa: Option<Attempts>, sb: Option<Attempts>, now: int, later: int)
    requires la.Check(sa, now).Deny? || lb.Check(sb, now).Deny?
    ensures var wait := Wait(la.Check(sa, now), lb.Check(sb, now));
            && wait >= 1
            && (later >= now + 1000 * wait ==> la.Check(sa, later).Allow? && lb.Check(sb, later).Allow?)
            && (now <= later <= now + 1000 * (wait - 1) ==> la.Check(sa, later).Deny? || lb.Check(sb, later).Deny?)
  {
  }

  // ---- calls that overlap -------------------------------------------------------------------

  /** A checked call: when it read the counter, and what it will record. */
  datatype Call = Call(at: int, next: Attempts)

  /** A counter shared by calls that read it in one statement and record in another. `calls` holds
      the calls let through that have neither recorded nor given up; `recorded` the times of those
      that did record. */
  datatype Shared = Shared(state: Option<Attempts>, calls: map<nat, Call>, recorded: seq<int>)

  /** A call reads once; if it is let through it records, or ends without recording, as a post does
      that is refused after the check. */
  datatype Event = Read(who: nat, at: int) | Record(who: nat) | GiveUp(who: nat)

  function Happen(l: Limit, s: Shared, e: Event): Shared {
    match e
    case Read(who, at) =>
      if who in s.calls then s
      else
        (match l.Check(s.state, at)
         case Allow(next) => s.(calls := s.calls[who := Call(at, next)])
         case Deny(_) => s)
    case Record(who) =>
      if who in s.calls then
        Shared(Some(s.calls[who].next), s.calls - {who}, s.recorded + [s.calls[who].at])
      else s
    case GiveUp(who) => s.(calls := s.calls - {who})
  }

  /** Events in any order, on a counter nobody has used. */
  function Interleave(l: Limit, events: seq<Event>): Shared {
    if |events| == 0 then Shared(None, map[], [])
    else var n := |events| - 1; Happen(l, Interleave(l, events[..n]), events[n])
  }

  predicate ReadsUpTo(events: seq<Event>, t: int) {
    forall i :: 0 <= i < |events| && events[i].Read? ==> events[i].at <= t
  }

  /** The clock does not run backwards. */
  predicate InTime(events: seq<Event>) {
    |events| > 0 ==>
      var n := |events| - 1;
      InTime(events[..n]) && (events[n].Read? ==> ReadsUpTo(events[..n], events[n].at))
  }

  /** Never more than `c` calls are between their read and their end. */
  predicate AtMostOutstanding(l: Limit, events: seq<Event>, c: nat) {
    |events| > 0 ==> AtMostOutstanding(l, events[..|events| - 1], c) && |Interleave(l, events).calls| <= c
  }

  predicate KeepsBound(l: Limit, events: seq<Event>, a: int) {
    CountIn(Interleave(l, events).recorded, a, a + l.windowMs) <= 2 * l.max - 1
  }

  // ---- one call at a time -------------------------------------------------------------------

  /** With one call at a time, the attempts recorded are those a run lets through, and the call
      outstanding, if any, is the next step of that run. */
  ghost predicate IsSerial(l: Limit, s: Shared) {
    && Run(l, Log(None, []), s.recorded) == Log(s.state, s.recorded)
    && NonDecreasing(s.recorded)
    && (forall v, w :: v in s.calls && w in s.calls ==> v == w)
    && forall w :: w in s.calls ==>
         && l.Check(s.state, s.calls[w].at) == Allow(s.calls[w].next)
         && forall i :: 0 <= i < |s.recorded| ==> s.recorded[i] <= s.calls[w].at
  }

  predicate TimesUpTo(s: Shared, t: int) {
    && (forall i :: 0 <= i < |s.recorded| ==> s.recorded[i] <= t)
    && forall w :: w in s.calls ==> s.calls[w].at <= t
  }

  lemma HappenIsInTime(l: Limit, s: Shared, e: Event, t: int)
    requires TimesUpTo(s, t) && (e.Read? ==> e.at <= t)
    ensures TimesUpTo(Happen(l, s, e), t)
  {
    hide Limit.Check;
  }

  lemma {:induction false} TimesWereRead(l: Limit, events: seq<Event>, t: int)
    requires ReadsUpTo(events, t)
    ensures TimesUpTo(Interleave(l, events), t)
  {
    hide Happen, TimesUpTo;
    if |events| > 0 {
      var n := |events| - 1;
      TimesWereRead(l, events[..n], t);
      HappenIsInTime(l, Interleave(l, events[..n]), events[n], t);
    } else {
      NoTimes(t);
    }
  }

  lemma NoTimes(t: int)
    ensures TimesUpTo(Shared(None, map[], []), t)
  {
  }

  lemma OnlyOne(calls: map<nat, Call>, w: nat)
    requires w in calls && |calls| <= 1
    ensures forall v :: v in calls ==> v == w
  {
    assert |calls.Keys| == |calls|;
    forall v | v in calls ensures v == w {
      if v != w {
        assert {v, w} <= calls.Keys;
        SubsetSize({v, w}, calls.Keys);
      }
    }
  }

  lemma ReadStaysSerial(l: Limit, s: Shared, who: nat, at: int)
    requires IsSerial(l, s) && |Happen(l, s, Read(who, at)).calls| <= 1
    requires forall i :: 0 <= i < |s.recorded| ==> s.recorded[i] <= at
    ensures IsSerial(l, Happen(l, s, Read(who, at)))
  {
    hide Limit.Check, Run;
    var next := Happen(l, s, Read(who, at));
    if who in next.calls { OnlyOne(next.calls, who); }
  }

  lemma RecordStaysSerial(l: Limit, s: Shared, who: nat)
    requires IsSerial(l, s) && who in s.calls
    ensures IsSerial(l, Happen(l, s, Record(who)))
  {
    hide Limit.Check;
    var t := s.calls[who].at;
    assert (s.recorded + [t])[..|s.recorded|] == s.recorded;
    assert Run(l, Log(None, []), s.recorded + [t]) == Attempt(l, Log(s.state, s.recorded), t);
    assert (s.calls - {who}).Keys == {};
  }

  lemma {:induction false} OneCallIsSerial(l: Limit, events: seq<Event>)
    requires InTime(events) && AtMostOutstanding(l, events, 1)
    ensures IsSerial(l, Interleave(l, events))
  {
    hide IsSerial, Limit.Check;
    if |events| == 0 {
      NothingIsSerial(l);
    } else {
      var n := |events| - 1;
      var s := Interleave(l, events[..n]);
      OneCallIsSerial(l, events[..n]);
      match events[n] {
        case Read(who, at) =>
          TimesWereRead(l, events[..n], at);
          ReadStaysSerial(l, s, who, at);
        case Record(who) =>
          if who in s.calls { RecordStaysSerial(l, s, who); }
        case GiveUp(who) => GiveUpStaysSerial(l, s, who);
      }
    }
  }

  lemma NothingIsSerial(l: Limit)
    ensures IsSerial(l, Shared(None, map[], []))
  {
  }

  lemma GiveUpStaysSerial(l: Limit, s: Shared, who: nat)
    requires IsSerial(l, s)
    ensures IsSerial(l, Happen(l, s, GiveUp(who)))
  {
    hide Limit.Check, Run;
  }

  lemma {:induction false} FewerOutstanding(l: Limit, events: seq<Event>, c: nat, d: nat)
    requires c <= d && AtMostOutstanding(l, events, c)
    ensures AtMostOutstanding(l, events, d)
  {
    hide Interleave;
    if |events| > 0 { FewerOutstanding(l, events[..|events| - 1], c, d); }
  }

  /** Calls one at a time keep the bound, whether or not each of them records. */
  lemma OneCallKeepsBound(l: Limit, events: seq<Event>, a: int)
    requires l.max >= 1 && l.windowMs > 0 && InTime(events) && AtMostOutstanding(l, events, 1)
    ensures KeepsBound(l, events, a)
  {
    OneCallIsSerial(l, events);
    AtMostTwiceTheLimit(l, Interleave(l, events).recorded, a);
  }

  // ---- two at a time ------------------------------------------------------------------------

  function Used(state: Option<Attempts>): nat {
    match state case Some(s) => s.count case None => 0
  }

  /** `k` calls, each of which reads and records at once. */
  function InTurn(k: nat, t: int): seq<Event> {
    if k == 0 then [] else InTurn(k - 1, t) + [Read(1, t), Record(1)]
  }

  lemma OneMoreEvent(l: Limit, events: seq<Event>, e: Event, c: nat)
    requires InTime(events) && AtMostOutstanding(l, events, c)
    requires |Happen(l, Interleave(l, events), e).calls| <= c && (e.Read? ==> ReadsUpTo(events, e.at))
    ensures InTime(events + [e]) && AtMostOutstanding(l, events + [e], c)
    ensures Interleave(l, events + [e]) == Happen(l, Interleave(l, events), e)
  {
    hide Limit.Check;
    assert (events + [e])[..|events|] == events;
  }

  /** A schedule at one instant, and the counter it leaves. */
  ghost predicate Reaches(l: Limit, events: seq<Event>, t: int, s: Shared) {
    && InTime(events) && ReadsUpTo(events, t) && AtMostOutstanding(l, events, 2) && Interleave(l, events) == s
    && (s.state.Some? ==> s.state.value.windowStart == t)
  }

  lemma ReachesAfter(l: Limit, events: seq<Event>, t: int, s: Shared, e: Event)
    requires Reaches(l, events, t, s) && (e.Read? ==> e.at == t)
    requires var r := Happen(l, s, e); |r.calls| <= 2 && (r.state.Some? ==> r.state.value.windowStart == t)
    ensures Reaches(l, events + [e], t, Happen(l, s, e))
  {
    hide Limit.Check, Interleave;
    OneMoreEvent(l, events, e, 2);
  }

  lemma {:induction false} TurnsCount(l: Limit, events: seq<Event>, t: int, s: Shared, k: nat)
    requires Reaches(l, events, t, s) && l.windowMs > 0 && Used(s.state) + k <= l.max
    requires |s.calls| <= 1 && 1 !in s.calls
    ensures Reaches(l, events + InTurn(k, t), t,
              Shared(if k == 0 then s.state else Some(Attempts(t, Used(s.state) + k)), s.calls, s.recorded + seq(k, _ => t)))
  {
    hide Reaches;
    if k == 0 {
      assert events + [] == events && s.recorded + seq(0, _ => t) == s.recorded;
    } else {
      var so := Shared(if k == 1 then s.state else Some(Attempts(t, Used(s.state) + k - 1)), s.calls, s.recorded + seq(k - 1, _ => t));
      TurnsCount(l, events, t, s, k - 1);
      StartOf(l, events, t, s);
      OneTurn(l, events + InTurn(k - 1, t), t, so);
      assert events + InTurn(k, t) == events + InTurn(k - 1, t) + [Read(1, t)] + [Record(1)];
      assert s.recorded + seq(k, _ => t) == s.recorded + seq(k - 1, _ => t) + [t];
    }
  }

  lemma StartOf(l: Limit, events: seq<Event>, t: int, s: Shared)
    requires Reaches(l, events, t, s)
    ensures s.state.Some? ==> s.state.value.windowStart == t
  {
  }

  /** A call that finds room in the window reads and records one more. */
  lemma TurnHappens(l: Limit, s: Shared, t: int)
    requires l.windowMs > 0 && Used(s.state) < l.max && (s.state.Some? ==> s.state.value.windowStart == t)
    requires 1 !in s.calls
    ensures var next := Attempts(t, Used(s.state) + 1);
            var mid := s.(calls := s.calls[1 := Call(t, next)]);
            && Happen(l, s, Read(1, t)) == mid
            && Happen(l, mid, Record(1)) == Shared(Some(next), s.calls, s.recorded + [t])
  {
    var next := Attempts(t, Used(s.state) + 1);
    assert l.Check(s.state, t) == Allow(next);
    assert s.calls[1 := Call(t, next)] - {1} == s.calls;
  }

  lemma OneMoreCall(calls: map<nat, Call>, w: nat, call: Call)
    requires w !in calls
    ensures |calls[w := call]| == |calls| + 1
  {
    var more := calls[w := call];
    assert more.Keys == calls.Keys + {w};
    assert |more.Keys| == |more| && |calls.Keys| == |calls|;
  }

  lemma OneTurn(l: Limit, events: seq<Event>, t: int, s: Shared)
    requires Reaches(l, events, t, s) && l.windowMs > 0 && Used(s.state) < l.max
    requires |s.calls| <= 1 && 1 !in s.calls
    ensures Reaches(l, events + [Read(1, t)] + [Record(1)], t,
              Shared(Some(Attempts(t, Used(s.state) + 1)), s.calls, s.recorded + [t]))
  {
    StartOf(l, events, t, s);
    hide Reaches, Happen, Limit.Check;
    TurnHappens(l, s, t);
    var call := Call(t, Attempts(t, Used(s.state) + 1));
    OneMoreCall(s.calls, 1, call);
    ReachesAfter(l, events, t, s, Read(1, t));
    ReachesAfter(l, events + [Read(1, t)], t, s.(calls := s.calls[1 := call]), Record(1));
  }

  /** One call reads, others use the window up, the first one records over their count, and the
      others go on: at most two calls at any moment, and twice the limit in one instant. */
  function Overtaken(max: nat, t: int): seq<Event>
    requires max >= 1
  {
    [Read(0, t)] + InTurn(max, t) + [Record(0)] + InTurn(max - 1, t)
  }

  lemma OvertakenReaches(l: Limit, t: int)
    requires l.max >= 1 && l.windowMs > 0
    ensures Reaches(l, Overtaken(l.max, t), t, Shared(Some(Attempts(t, l.max)), map[], seq(2 * l.max, _ => t)))
  {
    var m := l.max;
    var none, first := Shared(None, map[], []), Call(t, Attempts(t, 1));
    assert Reaches(l, [], t, none);
    assert Happen(l, none, Read(0, t)) == none.(calls := map[0 := first]);
    hide Reaches;
    ReachesAfter(l, [], t, none, Read(0, t));
    assert [] + [Read(0, t)] == [Read(0, t)];
    var waiting := none.(calls := map[0 := first]);
    TurnsCount(l, [Read(0, t)], t, waiting, m);
    var full := Shared(Some(Attempts(t, m)), map[0 := first], [] + seq(m, _ => t));
    assert map[0 := first] - {0} == map[];
    var back := Shared(Some(Attempts(t, 1)), map[], [] + seq(m, _ => t) + [t]);
    assert Happen(l, full, Record(0)) == back;
    ReachesAfter(l, [Read(0, t)] + InTurn(m, t), t, full, Record(0));
    TurnsCount(l, [Read(0, t)] + InTurn(m, t) + [Record(0)], t, back, m - 1);
    assert back.recorded + seq(m - 1, _ => t) == seq(2 * m, _ => t);
  }

  lemma OvertakenIs(l: Limit, t: int)
    requires l.max >= 1 && l.windowMs > 0
    ensures InTime(Overtaken(l.max, t)) && AtMostOutstanding(l, Overtaken(l.max, t), 2)
    ensures var recorded := Interleave(l, Overtaken(l.max, t)).recorded;
            |recorded| == 2 * l.max && forall i :: 0 <= i < |recorded| ==> recorded[i] == t
  {
    OvertakenReaches(l, t);
    hide Overtaken, Interleave, InTime, AtMostOutstanding;
  }

  lemma {:induction false} CountAll(ts: seq<int>, t: int, lo: int, hi: int)
    requires lo <= t < hi && forall i :: 0 <= i < |ts| ==> ts[i] == t
    ensures CountIn(ts, lo, hi) == |ts|
  {
    if |ts| > 0 { CountAll(ts[..|ts| - 1], t, lo, hi); }
  }

  lemma TwoCallsBreakBound(l: Limit, t: int)
    requires l.max >= 1 && l.windowMs > 0
    ensures InTime(Overtaken(l.max, t)) && AtMostOutstanding(l, Overtaken(l.max, t), 2)
    ensures CountIn(Interleave(l, Overtaken(l.max, t)).recorded, t, t + l.windowMs) == 2 * l.max
  {
    OvertakenIs(l, t);
    hide Overtaken, Reaches, Interleave, InTime, AtMostOutstanding, CountIn;
    CountAll(Interleave(l, Overtaken(l.max, t)).recorded, t, t, t + l.windowMs);
  }

  /** The bound survives sharing exactly when calls come one at a time: with at most `c` outstanding
      every schedule keeps it if and only if `c` is at most one. */
  lemma BoundNeedsOneAtATime(l: Limit, c: nat)
    requires l.max >= 1 && l.windowMs > 0
    ensures (forall events, a :: InTime(events) && AtMostOutstanding(l, events, c) ==> KeepsBound(l, events, a)) <==> c <= 1
  {
    hide InTime, AtMostOutstanding, Interleave;
    if c <= 1 {
      forall events, a | InTime(events) && AtMostOutstanding(l, events, c) ensures KeepsBound(l, events, a) {
        FewerOutstanding(l, events, c, 1);
        OneCallKeepsBound(l, events, a);
      }
    } else {
      TwoCallsBreakBound(l, 0);
      FewerOutstanding(l, Overtaken(l.max, 0), 2, c);
      assert !KeepsBound(l, Overtaken(l.max, 0), 0);
    }
  }

  // ---- any number at a time -----------------------------------------------------------------

  function AllRead(n: nat, t: int): seq<Event> {
    if n == 0 then [] else AllRead(n - 1, t) + [Read(n - 1, t)]
  }

  function AllRecord(n: nat): seq<Event> {
    if n == 0 then [] else AllRecord(n - 1) + [Record(n - 1)]
  }

  lemma {:induction false} EveryReadPasses(l: Limit, n: nat, t: int)
    ensures var s := Interleave(l, AllRead(n, t));
            && s.state == None && s.recorded == []
            && (forall who :: who in s.calls <==> 0 <= who < n)
            && forall who :: who in s.calls ==> s.calls[who] == Call(t, Attempts(t, 1))
  {
    if n > 0 {
      EveryReadPasses(l, n - 1, t);
      assert AllRead(n, t)[..n - 1] == AllRead(n - 1, t) by { LengthOfReads(n - 1, t); }
      LengthOfReads(n, t);
    }
  }

  lemma {:induction false} LengthOfReads(n: nat, t: int)
    ensures |AllRead(n, t)| == n
  {
    if n > 0 { LengthOfReads(n - 1, t); }
  }

  /** Of `n` calls that read together, the first `k` have recorded. */
  ghost predicate Recorded(s: Shared, n: nat, t: int, k: nat) {
    && (k > 0 ==> s.state == Some(Attempts(t, 1)))
    && |s.recorded| == k && (forall i :: 0 <= i < k ==> s.recorded[i] == t)
    && (forall who :: who in s.calls <==> k <= who < n)
    && forall who :: who in s.calls ==> s.calls[who] == Call(t, Attempts(t, 1))
  }

  lemma NextRecords(l: Limit, s: Shared, n: nat, t: int, k: nat)
    requires k < n && Recorded(s, n, t, k)
    ensures Recorded(Happen(l, s, Record(k)), n, t, k + 1)
  {
    hide Limit.Check;
  }

  lemma {:induction false} EveryRecordCounts(l: Limit, n: nat, t: int, k: nat)
    requires k <= n
    ensures Recorded(Interleave(l, AllRead(n, t) + AllRecord(k)), n, t, k)
  {
    hide Happen;
    var allRead := AllRead(n, t);
    if k == 0 {
      EveryReadPasses(l, n, t);
      assert allRead + [] == allRead;
    } else {
      hide Recorded;
      var before, events := allRead + AllRecord(k - 1), allRead + AllRecord(k);
      EveryRecordCounts(l, n, t, k - 1);
      assert events == before + [Record(k - 1)] && events[..|before|] == before;
      NextRecords(l, Interleave(l, before), n, t, k - 1);
    }
  }

  /** Calls that all read before any of them records are all let through, however many there are,
      and all record, and the counter ends as if there had been one. */
  lemma OverlappingCallsAllPass(l: Limit, n: nat, t: int)
    requires l.windowMs > 0 && n > 0
    ensures var s := Interleave(l, AllRead(n, t) + AllRecord(n));
            CountIn(s.recorded, t, t + l.windowMs) == n && s.state == Some(Attempts(t, 1)) && s.calls == map[]
  {
    hide Interleave, CountIn, AllRead, AllRecord;
    EveryRecordCounts(l, n, t, n);
    CountAll(Interleave(l, AllRead(n, t) + AllRecord(n)).recorded, t, t, t + l.windowMs);
  }
}

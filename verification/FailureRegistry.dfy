/** The persisted registry of playback failures (PopcornTime/Model/Session.swift:415-481).
    The clock is an input; runs are those in which it never goes back. */
module FailureRegistry {
  import opened Sequences

  const RETENTION: real := 2592000.0   // 30 days, in seconds
  const GAP: real := 60.0

  type Log = map<string, seq<real>>

  function Times(log: Log, url: string): seq<real> {
    if url in log then log[url] else []
  }

  /** The dates not before `cutoff`, in order. */
  function Recent(ts: seq<real>, cutoff: real): seq<real> {
    Filter(ts, NotBefore(cutoff))
  }

  function NotBefore(cutoff: real): real -> bool {
    (t: real) => t >= cutoff
  }

  predicate Accepts(ts: seq<real>, now: real) {
    ts == [] || now - ts[|ts| - 1] >= GAP
  }

  function Recorded(log: Log, url: string, now: real): Log {
    if Accepts(Times(log, url), now) then log[url := Times(log, url) + [now]] else log
  }

  function Pruned(log: Log, now: real): Log {
    map url | url in log && Recent(log[url], now - RETENTION) != [] :: Recent(log[url], now - RETENTION)
  }

  lemma PrunedTimes(log: Log, now: real, url: string)
    ensures Times(Pruned(log, now), url) == Recent(Times(log, url), now - RETENTION)
  {}

  function Penalty(count: nat): int {
    if count * 100 < 1500 then count * 100 else 1500
  }

  // ---------- The registry as an object ----------

  /** What the program holds in memory and what it has saved. */
  datatype State = State(failures: Log, stored: Log)

  datatype Event =
    | Failure(url: string, now: real)
    | Count(url: string, now: real)
    | Restart(now: real)

  function Step(s: State, e: Event): State {
    match e
    case Failure(url, now) =>
      if Accepts(Times(s.failures, url), now)
      then var log := Recorded(s.failures, url, now); State(log, log)
      else s
    case Count(_, now) => s.(failures := Pruned(s.failures, now))
    case Restart(now) => s.(failures := Pruned(s.stored, now))
  }

  class PlaybackFailureRegistry {
    var failures: Log
    var stored: Log

    ghost function Abstract(): State
      reads this
    {
      State(failures, stored)
    }

    /** A launch of the program: load what was last saved, then prune. */
    constructor (saved: Log, now: real)
      ensures Abstract() == State(Pruned(saved, now), saved)
    {
      failures, stored := saved, saved;
      new;
      Prune(now);
    }

    method Prune(now: real)
      modifies this`failures
      ensures failures == Pruned(old(failures), now)
    {
      var cutoff := now - RETENTION;
      var rest := failures.Keys;
      while rest != {}
        invariant rest <= old(failures).Keys
        invariant forall url :: url in failures <==>
          url in old(failures) && (url in rest || Recent(old(failures)[url], cutoff) != [])
        invariant forall url :: url in failures ==>
          failures[url] == if url in rest then old(failures)[url] else Recent(old(failures)[url], cutoff)
        decreases rest
      {
        var url :| url in rest;
        var kept := Recent(failures[url], cutoff);
        if kept == [] {
          failures := failures - {url};
        } else if |kept| != |failures[url]| {
          failures := failures[url := kept];
        } else {
          RecentOfFullLength(failures[url], cutoff);
        }
        rest := rest - {url};
      }
    }

    method Save()
      modifies this`stored
      ensures stored == failures
    {
      stored := failures;
    }

    method RecordFailure(url: string, now: real)
      modifies this
      ensures Abstract() == Step(old(Abstract()), Failure(url, now))
    {
      if url in failures && failures[url] != [] && now - failures[url][|failures[url]| - 1] < GAP { return; }
      failures := failures[url := (if url in failures then failures[url] else []) + [now]];
      Save();
    }

    method FailureCount(url: string, now: real) returns (count: nat)
      modifies this`failures
      ensures Abstract() == Step(old(Abstract()), Count(url, now))
      ensures count == |Recent(Times(old(failures), url), now - RETENTION)|
    {
      PrunedTimes(failures, now, url);
      Prune(now);
      count := if url in failures then |failures[url]| else 0;
    }

    method QualityPenalty(url: string, now: real) returns (penalty: int)
      modifies this`failures
      ensures Abstract() == Step(old(Abstract()), Count(url, now))
      ensures penalty == Penalty(|Recent(Times(old(failures), url), now - RETENTION)|)
    {
      var count := FailureCount(url, now);
      penalty := if count * 100 < 1500 then count * 100 else 1500;
    }
  }

  lemma {:induction false} RecentOfFullLength(ts: seq<real>, cutoff: real)
    ensures |Recent(ts, cutoff)| <= |ts|
    ensures |Recent(ts, cutoff)| == |ts| ==> Recent(ts, cutoff) == ts
  {
    if ts != [] {
      RecentOfFullLength(ts[..|ts| - 1], cutoff);
      FilterSnoc(ts, NotBefore(cutoff));
    }
  }

  // ---------- The full log it stands for ----------

  /** All failures ever accepted, nothing pruned: a failure is accepted when the last accepted
      one of its URL is at least a minute old. Launches and queries leave it alone. */
  function FullLog(events: seq<Event>): Log {
    if events == [] then map[]
    else
      var log := FullLog(events[..|events| - 1]);
      match events[|events| - 1]
      case Failure(url, now) => Recorded(log, url, now)
      case _ => log
  }

  function Run(events: seq<Event>): State {
    if events == [] then State(map[], map[]) else Step(Run(events[..|events| - 1]), events[|events| - 1])
  }

  ghost predicate Monotone(events: seq<Event>) {
    forall i, j :: 0 <= i < j < |events| ==> events[i].now <= events[j].now
  }

  /** Successive dates are at least a minute apart, and none lies after `clock`. */
  ghost predicate Spaced(ts: seq<real>, clock: real) {
    && (forall i, j :: 0 <= i < j < |ts| && j == i + 1 ==> ts[j] - ts[i] >= GAP)
    && (ts != [] ==> ts[|ts| - 1] <= clock)
  }

  /** `ts` is what is left of `full` after dropping only dates before `cutoff`. */
  ghost predicate Remainder(ts: seq<real>, full: seq<real>, cutoff: real) {
    && |ts| <= |full|
    && (forall i :: 0 <= i < |ts| ==> ts[i] == full[|full| - |ts| + i])
    && forall i :: 0 <= i < |full| - |ts| ==> full[i] < cutoff
  }

  ghost predicate RefinesAt(s: State, log: Log, clock: real, url: string) {
    && Spaced(Times(log, url), clock)
    && Remainder(Times(s.failures, url), Times(log, url), clock - RETENTION)
    && Remainder(Times(s.stored, url), Times(log, url), clock - RETENTION)
  }

  ghost predicate Refines(s: State, log: Log, clock: real) {
    forall url :: RefinesAt(s, log, clock, url)
  }

  lemma {:induction false} SpacedIsSorted(ts: seq<real>, clock: real, i: nat)
    requires Spaced(ts, clock) && i < |ts|
    ensures ts[i] <= ts[|ts| - 1] - GAP * (|ts| - 1 - i) as real
    decreases |ts| - i
  {
    if i < |ts| - 1 {
      SpacedIsSorted(ts, clock, i + 1);
      assert ts[i + 1] - ts[i] >= GAP;
    }
  }

  lemma {:induction false} NothingRecent(ts: seq<real>, cutoff: real)
    requires forall i :: 0 <= i < |ts| ==> ts[i] < cutoff
    ensures Recent(ts, cutoff) == []
  {
    if ts != [] { NothingRecent(ts[1..], cutoff); }
  }

  lemma RemainderSnoc(ts: seq<real>, full: seq<real>, cutoff: real, t: real)
    requires Remainder(ts, full, cutoff)
    ensures Remainder(ts + [t], full + [t], cutoff)
  {}

  lemma RecentSnoc(front: seq<real>, t: real, cutoff: real)
    requires t >= cutoff && Remainder(Recent(front, cutoff), front, cutoff)
    ensures Remainder(Recent(front + [t], cutoff), front + [t], cutoff)
  {
    var full := front + [t];
    assert full[..|full| - 1] == front;
    FilterSnoc(full, NotBefore(cutoff));
    RemainderSnoc(Recent(front, cutoff), front, cutoff, t);
  }

  /** Filtering spaced dates drops a prefix. */
  lemma {:induction false} RecentIsRemainder(ts: seq<real>, clock: real, cutoff: real)
    requires Spaced(ts, clock)
    ensures Remainder(Recent(ts, cutoff), ts, cutoff)
  {
    if ts != [] {
      var n := |ts| - 1;
      if ts[n] < cutoff {
        forall i | 0 <= i < |ts| ensures ts[i] < cutoff { SpacedIsSorted(ts, clock, i); }
        NothingRecent(ts, cutoff);
      } else {
        if n > 0 { assert ts[n] - ts[n - 1] >= GAP; }
        RecentIsRemainder(ts[..n], clock, cutoff);
        RecentSnoc(ts[..n], ts[n], cutoff);
        assert ts == ts[..n] + [ts[n]];
      }
    }
  }

  lemma {:induction false} RecentOfRemainder(ts: seq<real>, full: seq<real>, cutoff: real, later: real)
    requires Remainder(ts, full, cutoff) && cutoff <= later
    ensures Recent(ts, later) == Recent(full, later)
  {
    if full != [] {
      var n := |full| - 1;
      FilterSnoc(full, NotBefore(later));
      if ts == [] {
        RecentOfRemainder([], full[..n], cutoff, later);
      } else {
        assert ts[|ts| - 1] == full[n];
        FilterSnoc(ts, NotBefore(later));
        RecentOfRemainder(ts[..|ts| - 1], full[..n], cutoff, later);
      }
    }
  }

  lemma RemainderPruned(ts: seq<real>, full: seq<real>, clock: real, cutoff: real, later: real)
    requires Remainder(ts, full, cutoff) && cutoff <= later && Spaced(full, clock)
    ensures Remainder(Recent(ts, later), full, later)
  {
    RecentOfRemainder(ts, full, cutoff, later);
    RecentIsRemainder(full, clock, later);
  }

  /** What is left decides acceptance as the full log does: dropped dates are long past. */
  lemma SameAcceptance(ts: seq<real>, full: seq<real>, clock: real, now: real)
    requires Remainder(ts, full, clock - RETENTION) && Spaced(full, clock) && clock <= now
    ensures Accepts(ts, now) == Accepts(full, now)
    ensures Accepts(ts, now) ==> Spaced(full + [now], now) && Remainder(ts + [now], full + [now], now - RETENTION)
  {}

  lemma Wait(s: State, log: Log, clock: real, now: real, url: string)
    requires RefinesAt(s, log, clock, url) && clock <= now
    ensures RefinesAt(s, log, now, url)
  {}

  lemma PruneRefines(s: State, log: Log, clock: real, now: real, url: string)
    requires RefinesAt(s, log, clock, url) && clock <= now
    ensures RefinesAt(s.(failures := Pruned(s.failures, now)), log, now, url)
    ensures RefinesAt(s.(failures := Pruned(s.stored, now)), log, now, url)
  {
    Wait(s, log, clock, now, url);
    PrunedTimes(s.failures, now, url);
    PrunedTimes(s.stored, now, url);
    RemainderPruned(Times(s.failures, url), Times(log, url), clock, clock - RETENTION, now - RETENTION);
    RemainderPruned(Times(s.stored, url), Times(log, url), clock, clock - RETENTION, now - RETENTION);
  }

  lemma RecordedTimes(log: Log, u: string, now: real, url: string)
    ensures Times(Recorded(log, u, now), url)
         == if u == url && Accepts(Times(log, u), now) then Times(log, u) + [now] else Times(log, url)
  {}

  lemma FailureRefines(s: State, log: Log, clock: real, u: string, now: real, url: string)
    requires RefinesAt(s, log, clock, u) && RefinesAt(s, log, clock, url) && clock <= now
    ensures RefinesAt(Step(s, Failure(u, now)), Recorded(log, u, now), now, url)
  {
    Wait(s, log, clock, now, url);
    RecordedTimes(log, u, now, url);
    RecordedTimes(s.failures, u, now, url);
    SameAcceptance(Times(s.failures, u), Times(log, u), clock, now);
    if !Accepts(Times(s.failures, u), now) {
      assert Step(s, Failure(u, now)) == s;
    } else {
      var recorded := Recorded(s.failures, u, now);
      assert Step(s, Failure(u, now)) == State(recorded, recorded);
    }
  }

  lemma StepRefines(s: State, log: Log, clock: real, e: Event)
    requires Refines(s, log, clock) && clock <= e.now
    ensures Refines(Step(s, e), if e.Failure? then Recorded(log, e.url, e.now) else log, e.now)
  {
    var s', log' := Step(s, e), if e.Failure? then Recorded(log, e.url, e.now) else log;
    forall url ensures RefinesAt(s', log', e.now, url) {
      match e
      case Failure(u, now) => FailureRefines(s, log, clock, u, now, url);
      case Count(_, now) => PruneRefines(s, log, clock, now, url);
      case Restart(now) => PruneRefines(s, log, clock, now, url);
    }
  }

  /** In every run with a clock that never goes back, the pruned and reloaded state stands for
      the full log. */
  lemma {:induction false} RunRefines(events: seq<Event>, clock: real)
    requires Monotone(events) && (events != [] ==> events[|events| - 1].now <= clock)
    ensures Refines(Run(events), FullLog(events), clock)
  {
    if events != [] {
      var n := |events| - 1;
      RunRefines(events[..n], events[n].now);
      StepRefines(Run(events[..n]), FullLog(events[..n]), events[n].now, events[n]);
      forall url ensures RefinesAt(Run(events), FullLog(events), clock, url) {
        Wait(Run(events), FullLog(events), events[n].now, clock, url);
      }
    }
  }

  /** The accepted failures of `url` in the 30 days up to `now`. */
  function RecentFailures(events: seq<Event>, url: string, now: real): nat {
    |Recent(Times(FullLog(events), url), now - RETENTION)|
  }

  /** What `failureCount` answers, at any moment of any run, is the number of failures accepted
      in the last 30 days, whatever was pruned, saved and reloaded in between. */
  lemma CountIsRecentFailures(events: seq<Event>, url: string, now: real)
    requires Monotone(events) && (events != [] ==> events[|events| - 1].now <= now)
    ensures |Recent(Times(Run(events).failures, url), now - RETENTION)| == RecentFailures(events, url, now)
  {
    RunRefines(events, now);
    assert RefinesAt(Run(events), FullLog(events), now, url);
    RecentOfRemainder(Times(Run(events).failures, url), Times(FullLog(events), url), now - RETENTION, now - RETENTION);
  }

  /** The failures among the events, in order. */
  function Failures(events: seq<Event>): seq<Event> {
    if events == [] then []
    else
      var n := |events| - 1;
      if events[n].Failure? then Failures(events[..n]) + [events[n]] else Failures(events[..n])
  }

  lemma {:induction false} FullLogOfFailures(events: seq<Event>)
    ensures FullLog(events) == FullLog(Failures(events))
  {
    if events != [] {
      var n := |events| - 1;
      FullLogOfFailures(events[..n]);
      var front := Failures(events[..n]);
      if events[n].Failure? {
        assert (front + [events[n]])[..|front|] == front;
      }
    }
  }

  /** Launches and queries never change a count: two histories with the same failures answer alike. */
  lemma RestartsAreInvisible(a: seq<Event>, b: seq<Event>, url: string, now: real)
    requires Monotone(a) && (a != [] ==> a[|a| - 1].now <= now)
    requires Monotone(b) && (b != [] ==> b[|b| - 1].now <= now)
    requires Failures(a) == Failures(b)
    ensures |Recent(Times(Run(a).failures, url), now - RETENTION)| == |Recent(Times(Run(b).failures, url), now - RETENTION)|
  {
    CountIsRecentFailures(a, url, now);
    CountIsRecentFailures(b, url, now);
    FullLogOfFailures(a);
    FullLogOfFailures(b);
  }

  lemma MinutesIn30Days(n: nat)
    requires n >= 1 && GAP * (n - 1) as real <= RETENTION
    ensures n <= 43201
  {}

  /** Spaced dates, the oldest of them within the window, fit into it. */
  lemma WindowHolds(full: seq<real>, recent: seq<real>, now: real)
    requires Spaced(full, now) && Remainder(recent, full, now - RETENTION)
    requires recent != [] && recent[0] >= now - RETENTION
    ensures |recent| <= 43201
  {
    SpacedIsSorted(full, now, |full| - |recent|);
    assert recent[0] == full[|full| - |recent|];
    MinutesIn30Days(|recent|);
  }

  /** Dates a minute apart cannot crowd a 30-day window: at most 43201 of them, so the penalty
      stays within its bounds. */
  lemma CountIsBounded(events: seq<Event>, url: string, now: real)
    requires Monotone(events) && (events != [] ==> events[|events| - 1].now <= now)
    ensures RecentFailures(events, url, now) <= 43201
    ensures 0 <= Penalty(RecentFailures(events, url, now)) <= 1500
  {
    RunRefines(events, now);
    assert RefinesAt(Run(events), FullLog(events), now, url);
    var full := Times(FullLog(events), url);
    var recent := Recent(full, now - RETENTION);
    RecentIsRemainder(full, now, now - RETENTION);
    RecentAreRecent(full, now - RETENTION);
    if recent != [] { WindowHolds(full, recent, now); }
  }

  lemma RecentAreRecent(ts: seq<real>, cutoff: real)
    ensures forall i :: 0 <= i < |Recent(ts, cutoff)| ==> Recent(ts, cutoff)[i] >= cutoff
  {
    forall i | 0 <= i < |Recent(ts, cutoff)| ensures Recent(ts, cutoff)[i] >= cutoff {
      InFilter(ts, NotBefore(cutoff), Recent(ts, cutoff)[i]);
    }
  }

  // ---------- What is counted, said of the events alone ----------

  /** Event `i` is a failure of `url` that no accepted one of the 60 seconds before it drowns. */
  ghost predicate Accepted(events: seq<Event>, url: string, i: int)
    decreases i
  {
    && 0 <= i < |events| && events[i].Failure? && events[i].url == url
    && forall j :: 0 <= j < i && Accepted(events, url, j) ==> events[i].now - events[j].now >= 60.0
  }

  /** `t` is the time of an accepted failure before event `n`. */
  ghost predicate AcceptedTime(events: seq<Event>, url: string, n: int, t: real) {
    exists j :: 0 <= j < n && Accepted(events, url, j) && events[j].now == t
  }

  lemma FullLogNext(events: seq<Event>, n: nat)
    requires n < |events|
    ensures FullLog(events[..n + 1])
         == if events[n].Failure? then Recorded(FullLog(events[..n]), events[n].url, events[n].now) else FullLog(events[..n])
  {
    assert events[..n + 1][..n] == events[..n];
  }

  lemma LogIsSpaced(events: seq<Event>, url: string, n: nat)
    requires Monotone(events) && n < |events|
    ensures Spaced(Times(FullLog(events[..n]), url), events[n].now)
  {
    RunRefines(events[..n], events[n].now);
    assert RefinesAt(Run(events[..n]), FullLog(events[..n]), events[n].now, url);
  }

  lemma NewestDecides(ts: seq<real>, clock: real, now: real)
    requires Spaced(ts, clock)
    ensures Accepts(ts, now) <==> forall t :: t in ts ==> now - t >= 60.0
  {
    forall i | 0 <= i < |ts| ensures ts[i] <= ts[|ts| - 1] { SpacedIsSorted(ts, clock, i); }
    if ts != [] { assert ts[|ts| - 1] in ts; }
  }

  /** The log holds exactly the accepted failures. */
  lemma {:induction false} LogIsAccepted(events: seq<Event>, url: string, n: nat)
    requires Monotone(events) && n <= |events|
    ensures forall t :: t in Times(FullLog(events[..n]), url) <==> AcceptedTime(events, url, n, t)
  {
    if n > 0 {
      LogIsAccepted(events, url, n - 1);
      FullLogNext(events, n - 1);
      AcceptedIsAccepts(events, url, n - 1);
      forall t ensures AcceptedTime(events, url, n, t)
                       <==> AcceptedTime(events, url, n - 1, t) || (Accepted(events, url, n - 1) && events[n - 1].now == t)
      {
        AcceptedTimeNext(events, url, n - 1, t);
      }
    }
  }

  lemma AcceptedTimeNext(events: seq<Event>, url: string, n: nat, t: real)
    requires n < |events|
    ensures AcceptedTime(events, url, n + 1, t)
            <==> AcceptedTime(events, url, n, t) || (Accepted(events, url, n) && events[n].now == t)
  {}

  /** The last accepted failure decides whether a new one is accepted. */
  lemma AcceptedIsAccepts(events: seq<Event>, url: string, n: nat)
    requires Monotone(events) && n < |events|
    requires forall t :: t in Times(FullLog(events[..n]), url) <==> AcceptedTime(events, url, n, t)
    ensures Accepted(events, url, n) <==>
      events[n].Failure? && events[n].url == url && Accepts(Times(FullLog(events[..n]), url), events[n].now)
  {
    var ts := Times(FullLog(events[..n]), url);
    LogIsSpaced(events, url, n);
    NewestDecides(ts, events[n].now, events[n].now);
    if forall t :: t in ts ==> events[n].now - t >= 60.0 {
      forall j | 0 <= j < n && Accepted(events, url, j) ensures events[n].now - events[j].now >= 60.0 {
        assert AcceptedTime(events, url, n, events[j].now);
      }
    }
  }

  /** The accepted failures of `url` among the first `n` events, from `cutoff` on. */
  ghost function AcceptedSince(events: seq<Event>, url: string, cutoff: real, n: nat): set<int>
    requires n <= |events|
  {
    set i | 0 <= i < n && Accepted(events, url, i) && events[i].now >= cutoff
  }

  lemma AcceptedSinceNext(events: seq<Event>, url: string, cutoff: real, n: nat)
    requires n < |events|
    ensures |AcceptedSince(events, url, cutoff, n + 1)|
         == |AcceptedSince(events, url, cutoff, n)| + if Accepted(events, url, n) && events[n].now >= cutoff then 1 else 0
  {
    var before, after := AcceptedSince(events, url, cutoff, n), AcceptedSince(events, url, cutoff, n + 1);
    assert after == if Accepted(events, url, n) && events[n].now >= cutoff then before + {n} else before;
  }

  lemma RecentOfSnoc(ts: seq<real>, t: real, cutoff: real)
    ensures Recent(ts + [t], cutoff) == Recent(ts, cutoff) + if t >= cutoff then [t] else []
  {
    assert (ts + [t])[..|ts|] == ts;
    FilterSnoc(ts + [t], NotBefore(cutoff));
  }

  lemma TimesNext(events: seq<Event>, url: string, n: nat)
    requires Monotone(events) && n < |events|
    ensures Times(FullLog(events[..n + 1]), url)
         == Times(FullLog(events[..n]), url) + if Accepted(events, url, n) then [events[n].now] else []
  {
    LogIsAccepted(events, url, n);
    AcceptedIsAccepts(events, url, n);
    FullLogNext(events, n);
    if events[n].Failure? { RecordedTimes(FullLog(events[..n]), events[n].url, events[n].now, url); }
  }

  lemma RecentGrows(ts: seq<real>, ts': seq<real>, t: real, cutoff: real, accepted: bool)
    requires ts' == ts + if accepted then [t] else []
    ensures |Recent(ts', cutoff)| == |Recent(ts, cutoff)| + if accepted && t >= cutoff then 1 else 0
  {
    RecentOfSnoc(ts, t, cutoff);
    assert ts + [] == ts;
  }

  ghost predicate CountedTo(events: seq<Event>, url: string, cutoff: real, n: nat)
    requires n <= |events|
  {
    |Recent(Times(FullLog(events[..n]), url), cutoff)| == |AcceptedSince(events, url, cutoff, n)|
  }

  lemma CountedOn(events: seq<Event>, url: string, cutoff: real, n: nat)
    requires Monotone(events) && n < |events| && CountedTo(events, url, cutoff, n)
    ensures CountedTo(events, url, cutoff, n + 1)
  {
    TimesNext(events, url, n);
    AcceptedSinceNext(events, url, cutoff, n);
    RecentGrows(Times(FullLog(events[..n]), url), Times(FullLog(events[..n + 1]), url), events[n].now, cutoff,
                Accepted(events, url, n));
  }

  lemma {:induction false} RecentAreAccepted(events: seq<Event>, url: string, cutoff: real, n: nat)
    requires Monotone(events) && n <= |events|
    ensures CountedTo(events, url, cutoff, n)
  {
    if n > 0 {
      RecentAreAccepted(events, url, cutoff, n - 1);
      CountedOn(events, url, cutoff, n - 1);
    } else {
      assert AcceptedSince(events, url, cutoff, 0) == {};
    }
  }

  /** What `failureCount` answers is the number of failures of the last 30 days that no accepted one
      came less than 60 seconds before. */
  lemma CountIsAccepted(events: seq<Event>, url: string, now: real)
    requires Monotone(events) && (events != [] ==> events[|events| - 1].now <= now)
    ensures |Recent(Times(Run(events).failures, url), now - RETENTION)|
         == |AcceptedSince(events, url, now - 30.0 * 24.0 * 3600.0, |events|)|
  {
    CountIsRecentFailures(events, url, now);
    RecentAreAccepted(events, url, now - RETENTION, |events|);
    assert events[..|events|] == events;
  }

  /** Each failure up to the fifteenth costs 100 points, and no more than 1500 are ever taken. */
  lemma PenaltyGrows(n: nat)
    ensures Penalty(0) == 0 && Penalty(n + 1) == Penalty(n) + if n < 15 then 100 else 0
    ensures n >= 15 ==> Penalty(n) == 1500
  {}
}

/** What the playback health monitor does over whole runs
    (PopcornTime/Flows/Movie Details/PreloadTorrentViewModel.swift:206-394). */
module HealthRuns {
  import opened Sequences
  import opened HealthMonitor
  import FailureRegistry

  // ---------- Every run ----------

  function Run(start: real, events: seq<Event>): Monitor {
    if events == [] then Fresh(start)
    else Step(Run(start, events[..|events| - 1]), events[|events| - 1]).m
  }

  /** The issue emitted by the `i`-th event of a run. */
  function EmittedAt(start: real, events: seq<Event>, i: nat): Option<Issue>
    requires i < |events|
  {
    Step(Run(start, events[..i]), events[i]).emitted
  }

  /** What holds in every reachable state. */
  ghost predicate Reachable(start: real, events: seq<Event>, m: Monitor) {
    && m.sessionStarted == start
    && m.sustainedLowSpeedSince.None?
    && (m.vlcBufferingSince.Some? ==> exists k :: EpisodeSince(events, k, |events|, m.vlcBufferingSince.value))
  }

  /** From event `k` up to event `n` VLC is in one uninterrupted buffering episode begun at `since`. */
  ghost predicate EpisodeSince(events: seq<Event>, k: int, n: int, since: real) {
    && 0 <= k < n <= |events|
    && events[k] == BufferingStarts(since)
    && forall j :: k < j < n ==> !events[j].BufferingEnds? && !events[j].ResetForPlayback?
  }

  lemma {:induction false} RunIsReachable(start: real, events: seq<Event>)
    ensures Reachable(start, events, Run(start, events))
  {
    if events != [] {
      var n := |events| - 1;
      var front := events[..n];
      RunIsReachable(start, front);
      var m, e := Run(start, front), events[n];
      var m' := Run(start, events);
      if m'.vlcBufferingSince.Some? {
        if m.vlcBufferingSince.Some? {
          var k :| EpisodeSince(front, k, n, m.vlcBufferingSince.value);
          assert EpisodeSince(events, k, |events|, m'.vlcBufferingSince.value);
        } else {
          assert EpisodeSince(events, n, |events|, m'.vlcBufferingSince.value);
        }
      }
    }
  }

  /** The low-speed timer is never set, so its issue is never emitted: the slow-start test before
      it catches every unfinished pre-buffer. */
  lemma LowSpeedIsShadowed(start: real, events: seq<Event>)
    ensures Run(start, events).sustainedLowSpeedSince.None?
    ensures forall i :: 0 <= i < |events| ==> EmittedAt(start, events, i) != Some(SustainedLowSpeed)
  {
    RunIsReachable(start, events);
    forall i | 0 <= i < |events| ensures EmittedAt(start, events, i) != Some(SustainedLowSpeed) {
      RunIsReachable(start, events[..i]);
    }
  }

  /** Nothing is emitted in the first 30 seconds of a session. */
  lemma NothingDuringGrace(start: real, events: seq<Event>, i: nat)
    requires i < |events| && EmittedAt(start, events, i).Some?
    ensures events[i].Observe? && events[i].now - start >= 30.0
  {
    RunIsReachable(start, events[..i]);
  }

  lemma PrefixRun(start: real, events: seq<Event>, i: nat)
    requires i < |events|
    ensures Run(start, events[..i + 1]) == Step(Run(start, events[..i]), events[i]).m
  {
    assert events[..i + 1][..i] == events[..i];
  }

  // ---------- Pre-buffering ----------

  /** Event `i` is a pre-buffer observation that the monitor looks at. */
  ghost predicate Tracked(start: real, events: seq<Event>, i: int)
    requires 0 <= i < |events|
  {
    events[i].Observe? && events[i].phase.PreBuffer? && !Run(start, events[..i]).hasEmittedIssue
  }

  /** Since event `k`, at time `since`, or since the start, every pre-buffer observation up to
      event `n` has reported the same progress. */
  ghost predicate FrozenSince(start: real, events: seq<Event>, k: int, n: int, progress: real, since: real) {
    && -1 <= k < n + 1 <= |events| + 1
    && (if k < 0 then since == start && progress == -1.0
        else k < n && Tracked(start, events, k) && events[k].now == since && events[k].status.bufferingProgress == progress)
    && forall j :: k < j < n && Tracked(start, events, j) ==> events[j].status.bufferingProgress == progress
  }

  lemma TrackedInPrefix(start: real, events: seq<Event>, n: nat, i: nat)
    requires i < n <= |events|
    ensures Tracked(start, events[..n], i) == Tracked(start, events, i)
  {
    assert events[..n][..i] == events[..i];
  }

  /** Every pre-buffer observation up to event `n` since `since` has reported this progress. */
  ghost predicate Frozen(start: real, events: seq<Event>, n: int, progress: real, since: real) {
    exists k :: FrozenSince(start, events, k, n, progress, since)
  }

  lemma FrozenInPrefix(start: real, events: seq<Event>, n: nat, progress: real, since: real)
    requires n <= |events| && Frozen(start, events[..n], n, progress, since)
    ensures Frozen(start, events, n, progress, since)
  {
    var k :| FrozenSince(start, events[..n], k, n, progress, since);
    forall j | 0 <= j < n ensures Tracked(start, events[..n], j) == Tracked(start, events, j) {
      TrackedInPrefix(start, events, n, j);
    }
    assert FrozenSince(start, events, k, n, progress, since);
  }

  /** One step changes the watermark only for a tracked observation with new progress. */
  lemma WatermarkStep(m: Monitor, e: Event)
    ensures var m' := Step(m, e).m;
            (m'.lastBufferProgress, m'.lastBufferProgressChangedAt) ==
              if e.Observe? && e.phase.PreBuffer? && !m.hasEmittedIssue && e.status.bufferingProgress != m.lastBufferProgress
              then (e.status.bufferingProgress, e.now) else (m.lastBufferProgress, m.lastBufferProgressChangedAt)
  {}

  /** In every run the watermark says since when the reported progress has been frozen. */
  lemma {:induction false} WatermarkIsFrozen(start: real, events: seq<Event>)
    ensures var m := Run(start, events);
            Frozen(start, events, |events|, m.lastBufferProgress, m.lastBufferProgressChangedAt)
  {
    var m' := Run(start, events);
    if events == [] {
      assert FrozenSince(start, events, -1, 0, m'.lastBufferProgress, m'.lastBufferProgressChangedAt);
    } else {
      var n := |events| - 1;
      var m := Run(start, events[..n]);
      WatermarkIsFrozen(start, events[..n]);
      FrozenInPrefix(start, events, n, m.lastBufferProgress, m.lastBufferProgressChangedAt);
      WatermarkStep(m, events[n]);
      var k :| FrozenSince(start, events, k, n, m.lastBufferProgress, m.lastBufferProgressChangedAt);
      var changes := Tracked(start, events, n) && events[n].status.bufferingProgress != m.lastBufferProgress;
      assert FrozenSince(start, events, if changes then n else k, n + 1, m'.lastBufferProgress, m'.lastBufferProgressChangedAt);
    }
  }

  // ---------- Stalls ----------

  /** Since when the signal of an observation's phase has been stuck. */
  function Since(m: Monitor, e: Event): Option<real>
    requires e.Observe?
  {
    if e.phase.PreBuffer? then Some(Track(m, e.now, e.status, e.phase).lastBufferProgressChangedAt) else m.vlcBufferingSince
  }

  /** The monitor takes note of a stall: past the grace period an armed monitor sees the signal
      stuck for ten seconds. */
  predicate StuckAt(m: Monitor, e: Event) {
    && e.Observe? && !m.hasEmittedIssue && e.now - m.sessionStarted >= COLD_START_GRACE
    && (e.phase.PreBuffer? ==> e.status.bufferingProgress >= 1.0)
    && Since(m, e).Some? && e.now - Since(m, e).value >= 10.0
  }

  lemma StepStalls(m: Monitor, e: Event)
    ensures Step(m, e).m.stallTimestamps
         == if e.ResetForPlayback? then [] else if StuckAt(m, e) then AddStall(m.stallTimestamps, e.now) else m.stallTimestamps
    ensures Step(m, e).emitted == Some(BufferStall)
            <==> StuckAt(m, e) && (e.now - Since(m, e).value >= 30.0 || |AddStall(m.stallTimestamps, e.now)| >= 2)
  {}

  /** The stall just noted is the second of the last minute when an earlier one is that recent. */
  lemma AddedStalls(stalls: seq<real>, now: real)
    ensures forall t :: t in AddStall(stalls, now) <==> t == now || (t in stalls && now - t < 60.0)
    ensures |AddStall(stalls, now)| >= 2 <==> exists t :: t in stalls && now - t < 60.0
  {
    var keep := LessThanAMinuteBefore(now);
    FilterConcat(stalls, [now], keep);
    assert [now][1..] == [] && Filter([now], keep) == [now];
    forall t ensures t in Filter(stalls, keep) <==> t in stalls && now - t < 60.0 { InFilter(stalls, keep, t); }
    if Filter(stalls, keep) != [] { assert Filter(stalls, keep)[0] in Filter(stalls, keep); }
  }

  predicate Stuck(start: real, events: seq<Event>, i: int) {
    0 <= i < |events| && StuckAt(Run(start, events[..i]), events[i])
  }

  function StuckSince(start: real, events: seq<Event>, i: nat): real
    requires Stuck(start, events, i)
  {
    Since(Run(start, events[..i]), events[i]).value
  }

  function StuckFor(start: real, events: seq<Event>, i: nat): real
    requires Stuck(start, events, i)
  {
    events[i].now - StuckSince(start, events, i)
  }

  predicate NoReset(events: seq<Event>, j: int, n: int)
    requires 0 <= j < n <= |events|
  {
    forall k :: j < k < n ==> !events[k].ResetForPlayback?
  }

  /** A stall was noted at event `j` and no reset has come before event `n`. */
  predicate Noted(start: real, events: seq<Event>, j: int, n: int) {
    0 <= j < n <= |events| && Stuck(start, events, j) && NoReset(events, j, n)
  }

  lemma NextStalls(start: real, events: seq<Event>, n: nat)
    requires n < |events|
    ensures Run(start, events[..n + 1]).stallTimestamps
         == if events[n].ResetForPlayback? then []
            else if Stuck(start, events, n) then AddStall(Run(start, events[..n]).stallTimestamps, events[n].now)
            else Run(start, events[..n]).stallTimestamps
  {
    PrefixRun(start, events, n);
    StepStalls(Run(start, events[..n]), events[n]);
  }

  /** In every run the monitor remembers only stalls it noted since the last reset. */
  lemma {:induction false} StallsAreNoted(start: real, events: seq<Event>, n: nat, t: real)
    requires n <= |events| && t in Run(start, events[..n]).stallTimestamps
    ensures exists j :: Noted(start, events, j, n) && events[j].now == t
    decreases n
  {
    NextStalls(start, events, n - 1);
    AddedStalls(Run(start, events[..n - 1]).stallTimestamps, events[n - 1].now);
    if Stuck(start, events, n - 1) && t == events[n - 1].now {
      assert Noted(start, events, n - 1, n);
    } else {
      StallsAreNoted(start, events, n - 1, t);
      var j :| Noted(start, events, j, n - 1) && events[j].now == t;
      assert Noted(start, events, j, n);
    }
  }

  ghost predicate Monotone(events: seq<Event>) {
    forall i, j :: 0 <= i < j < |events| ==> events[i].now <= events[j].now
  }

  /** With a clock that never goes back it remembers all of them for a minute. */
  lemma {:induction false} NotedIsRemembered(start: real, events: seq<Event>, j: nat, n: nat, now: real)
    requires Monotone(events) && Noted(start, events, j, n) && events[n - 1].now <= now < events[j].now + 60.0
    ensures events[j].now in Run(start, events[..n]).stallTimestamps
    decreases n
  {
    NextStalls(start, events, n - 1);
    AddedStalls(Run(start, events[..n - 1]).stallTimestamps, events[n - 1].now);
    if j < n - 1 {
      assert events[n - 2].now <= events[n - 1].now;
      NotedIsRemembered(start, events, j, n - 1, now);
    }
  }

  /** A stall noted at event `j`, less than a minute before event `i` with no reset in between. */
  predicate Earlier(start: real, events: seq<Event>, j: int, i: int) {
    0 <= i < |events| && Noted(start, events, j, i) && events[i].now - events[j].now < 60.0
  }

  /** A stall of half a minute, or a second one in a minute. */
  ghost predicate StallCause(start: real, events: seq<Event>, i: nat) {
    Stuck(start, events, i) && (StuckFor(start, events, i) >= 30.0 || exists j :: Earlier(start, events, j, i))
  }

  lemma StallsHaveCauses(start: real, events: seq<Event>, i: nat)
    requires i < |events| && EmittedAt(start, events, i) == Some(BufferStall)
    ensures StallCause(start, events, i)
  {
    var m, e := Run(start, events[..i]), events[i];
    StepStalls(m, e);
    AddedStalls(m.stallTimestamps, e.now);
    if StuckFor(start, events, i) < 30.0 {
      var t :| t in m.stallTimestamps && e.now - t < 60.0;
      StallsAreNoted(start, events, i, t);
      var j :| Noted(start, events, j, i) && events[j].now == t;
      assert Earlier(start, events, j, i);
    }
  }

  /** With a clock that never goes back a run emits a buffer stall exactly when a stall is noted that
      has lasted 30 seconds, or that comes less than 60 seconds after another with no reset between. */
  lemma BufferStallExactlyWhen(start: real, events: seq<Event>, i: nat)
    requires i < |events| && Monotone(events)
    ensures EmittedAt(start, events, i) == Some(BufferStall) <==> StallCause(start, events, i)
  {
    var m, e := Run(start, events[..i]), events[i];
    StepStalls(m, e);
    AddedStalls(m.stallTimestamps, e.now);
    if EmittedAt(start, events, i) == Some(BufferStall) {
      StallsHaveCauses(start, events, i);
    } else if StallCause(start, events, i) {
      var j :| Earlier(start, events, j, i);
      assert events[i - 1].now <= e.now;
      NotedIsRemembered(start, events, j, i, e.now);
    }
  }

  // ---------- What a stall is ----------

  /** VLC has been in one uninterrupted buffering episode since `since`. */
  ghost predicate Buffering(events: seq<Event>, i: int, since: real) {
    exists k :: EpisodeSince(events, k, i, since)
  }

  /** A noted stall is an uninterrupted episode, or a complete progress that stood still. */
  lemma StuckMeans(start: real, events: seq<Event>, i: nat)
    requires Stuck(start, events, i)
    ensures StuckFor(start, events, i) >= 10.0
    ensures events[i].phase.Playback? ==> Buffering(events, i, StuckSince(start, events, i))
    ensures events[i].phase.PreBuffer? ==>
              && events[i].status.bufferingProgress >= 1.0
              && Frozen(start, events, i + 1, events[i].status.bufferingProgress, StuckSince(start, events, i))
  {
    var m, e := Run(start, events[..i]), events[i];
    if e.phase.Playback? {
      RunIsReachable(start, events[..i]);
      var k :| EpisodeSince(events[..i], k, i, m.vlcBufferingSince.value);
      assert EpisodeSince(events, k, i, m.vlcBufferingSince.value);
    } else {
      PrefixRun(start, events, i);
      WatermarkStep(m, e);
      var m' := Run(start, events[..i + 1]);
      WatermarkIsFrozen(start, events[..i + 1]);
      FrozenInPrefix(start, events, i + 1, m'.lastBufferProgress, m'.lastBufferProgressChangedAt);
    }
  }

  /** During playback the only issue is a buffer stall: VLC has been in one uninterrupted buffering
      episode for 30 seconds, or for ten and a stall was noted in the minute before. */
  lemma PlaybackEmitsOnlyStalls(start: real, events: seq<Event>, i: nat)
    requires i < |events| && EmittedAt(start, events, i).Some? && events[i].Observe? && events[i].phase.Playback?
    ensures EmittedAt(start, events, i) == Some(BufferStall) && StallCause(start, events, i)
    ensures Buffering(events, i, StuckSince(start, events, i)) && StuckFor(start, events, i) >= 10.0
  {
    StallsHaveCauses(start, events, i);
    StuckMeans(start, events, i);
  }

  /** The documented cause of an issue, at a pre-buffer observation of a run. */
  ghost predicate HasCause(start: real, events: seq<Event>, i: nat, issue: Issue)
    requires i < |events| && events[i].Observe?
  {
    var status, now := events[i].status, events[i].now;
    match issue
    case SlowStart => status.bufferingProgress < 1.0
    case BufferStall =>
      && status.bufferingProgress >= 1.0 && StallCause(start, events, i)
      && Frozen(start, events, i + 1, status.bufferingProgress, StuckSince(start, events, i))
    case PeerCollapse => status.bufferingProgress >= 1.0 && now - start < 120.0 && status.peers < 3
    case SustainedLowSpeed => false
  }

  lemma PreBufferEmission(m: Monitor, now: real, status: Status)
    requires Observed(m, now, status, PreBuffer).emitted.Some? && m.sustainedLowSpeedSince.None?
    ensures match Observed(m, now, status, PreBuffer).emitted.value
            case SlowStart => status.bufferingProgress < 1.0
            case BufferStall => status.bufferingProgress >= 1.0
            case PeerCollapse => status.bufferingProgress >= 1.0 && now - m.sessionStarted < 120.0 && status.peers < 3
            case SustainedLowSpeed => false
  {}

  /** Whatever a run emits while pre-buffering has its documented cause; for a stall, that the
      complete progress stood still for 30 seconds, or for ten and a stall was noted in the minute
      before. */
  lemma PreBufferEmissionsHaveCauses(start: real, events: seq<Event>, i: nat)
    requires i < |events| && EmittedAt(start, events, i).Some? && events[i].Observe? && events[i].phase.PreBuffer?
    ensures HasCause(start, events, i, EmittedAt(start, events, i).value)
  {
    RunIsReachable(start, events[..i]);
    PreBufferEmission(Run(start, events[..i]), events[i].now, events[i].status);
    if EmittedAt(start, events, i) == Some(BufferStall) {
      StallsHaveCauses(start, events, i);
      StuckMeans(start, events, i);
    }
  }

  /** Past the grace period, an armed monitor reports every unfinished pre-buffer at once, and in
      the first two minutes every swarm of fewer than three peers. */
  lemma TroubleIsReported(start: real, events: seq<Event>, i: nat)
    requires i < |events| && Tracked(start, events, i) && events[i].now - start >= 30.0
    ensures events[i].status.bufferingProgress < 1.0 ==> EmittedAt(start, events, i) == Some(SlowStart)
    ensures events[i].status.peers < 3 && events[i].now - start < 120.0 ==> EmittedAt(start, events, i).Some?
  {
    RunIsReachable(start, events[..i]);
  }

  // ---------- One stall noted twice ----------

  /** The stalls noted at `j` and `i` are one: the same signal, stuck since the same moment. */
  predicate SameStall(start: real, events: seq<Event>, j: nat, i: nat)
    requires Stuck(start, events, j) && Stuck(start, events, i)
  {
    events[j].phase == events[i].phase && StuckSince(start, events, j) == StuckSince(start, events, i)
  }

  /** VLC stops buffering between events `j` and `n`. */
  predicate BufferingEndsBetween(events: seq<Event>, j: int, n: int)
    requires 0 <= j < n <= |events|
  {
    exists k :: j < k < n && events[k].BufferingEnds?
  }

  /** A pre-buffer observation between events `j` and `n` reports another progress than event `j`. */
  ghost predicate ProgressChangesBetween(start: real, events: seq<Event>, j: int, n: int)
    requires 0 <= j < n <= |events| && events[j].Observe?
  {
    exists k :: j < k < n && Tracked(start, events, k) && events[k].status.bufferingProgress != events[j].status.bufferingProgress
  }

  /** What happened from `j` to `i` ended the stall noted at `j`. */
  ghost predicate Interrupted(start: real, events: seq<Event>, j: int, i: int)
    requires 0 <= j < i < |events| && events[j].Observe? && events[i].Observe?
  {
    || events[j].phase != events[i].phase
    || (events[i].phase.Playback? && BufferingEndsBetween(events, j, i))
    || (events[i].phase.PreBuffer? && ProgressChangesBetween(start, events, j, i + 1))
  }

  function NextEpisode(since: Option<real>, e: Event): Option<real> {
    match e
    case BufferingStarts(now) => if since.None? then Some(now) else since
    case BufferingEnds(_) => None
    case ResetForPlayback(_) => None
    case _ => since
  }

  lemma NextSince(start: real, events: seq<Event>, n: nat)
    requires n < |events|
    ensures Run(start, events[..n + 1]).vlcBufferingSince == NextEpisode(Run(start, events[..n]).vlcBufferingSince, events[n])
  {
    PrefixRun(start, events, n);
  }

  lemma BufferingEndsNext(events: seq<Event>, j: nat, n: nat)
    requires j < n < |events|
    ensures BufferingEndsBetween(events, j, n + 1) <==> BufferingEndsBetween(events, j, n) || events[n].BufferingEnds?
  {}

  lemma ProgressChangesNext(start: real, events: seq<Event>, j: nat, n: nat)
    requires j < n < |events| && events[j].Observe?
    ensures ProgressChangesBetween(start, events, j, n + 1) <==>
      || ProgressChangesBetween(start, events, j, n)
      || (Tracked(start, events, n) && events[n].status.bufferingProgress != events[j].status.bufferingProgress)
  {}

  lemma NextWatermark(start: real, events: seq<Event>, n: nat)
    requires n < |events|
    ensures var m, m' := Run(start, events[..n]), Run(start, events[..n + 1]);
            (m'.lastBufferProgress, m'.lastBufferProgressChangedAt) ==
              if Tracked(start, events, n) && events[n].status.bufferingProgress != m.lastBufferProgress
              then (events[n].status.bufferingProgress, events[n].now) else (m.lastBufferProgress, m.lastBufferProgressChangedAt)
  {
    PrefixRun(start, events, n);
    WatermarkStep(Run(start, events[..n]), events[n]);
  }

  /** The episode running at `n`, when `first` was running at an event of time `from`. */
  predicate EpisodeKept(ended: bool, first: Option<real>, since: Option<real>, from: real) {
    (ended && (since.Some? ==> since.value >= from)) || (!ended && (first.Some? ==> since == first))
  }

  lemma EpisodeKeptNext(ended: bool, first: Option<real>, since: Option<real>, from: real, e: Event)
    requires EpisodeKept(ended, first, since, from) && from <= e.now && !e.ResetForPlayback?
    ensures EpisodeKept(ended || e.BufferingEnds?, first, NextEpisode(since, e), from)
  {}

  /** A buffering episode keeps its start until it ends, and a later one starts later. */
  lemma {:induction false} EpisodeAfter(start: real, events: seq<Event>, j: nat, n: nat)
    requires j < n <= |events| && events[j].Observe? && NoReset(events, j, n)
    requires forall k :: j < k < n ==> events[j].now <= events[k].now
    ensures EpisodeKept(BufferingEndsBetween(events, j, n), Run(start, events[..j]).vlcBufferingSince,
                        Run(start, events[..n]).vlcBufferingSince, events[j].now)
    decreases n
  {
    NextSince(start, events, n - 1);
    if j < n - 1 {
      EpisodeAfter(start, events, j, n - 1);
      BufferingEndsNext(events, j, n - 1);
      EpisodeKeptNext(BufferingEndsBetween(events, j, n - 1), Run(start, events[..j]).vlcBufferingSince,
                      Run(start, events[..n - 1]).vlcBufferingSince, events[j].now, events[n - 1]);
    }
  }

  /** The watermark at `n`, when progress `p` had it at `first`. */
  predicate WatermarkKept(changed: bool, p: real, first: real, progress: real, at: real, from: real) {
    (changed && at >= from) || (!changed && progress == p && at == first)
  }

  lemma WatermarkKeptNext(changed: bool, p: real, first: real, progress: real, at: real, from: real,
                          tracked: bool, seen: real, now: real, progress': real, at': real)
    requires WatermarkKept(changed, p, first, progress, at, from) && from <= now
    requires (progress', at') == if tracked && seen != progress then (seen, now) else (progress, at)
    ensures WatermarkKept(changed || (tracked && seen != p), p, first, progress', at', from)
  {}

  /** At `n` the watermark still is the one that event `j` left, or lies later. */
  ghost predicate WatermarkKeptTo(start: real, events: seq<Event>, j: nat, n: nat)
    requires j < n <= |events| && events[j].Observe?
  {
    var m, m' := Run(start, events[..j + 1]), Run(start, events[..n]);
    WatermarkKept(ProgressChangesBetween(start, events, j, n), events[j].status.bufferingProgress,
                  m.lastBufferProgressChangedAt, m'.lastBufferProgress, m'.lastBufferProgressChangedAt, events[j].now)
  }

  lemma WatermarkKeptOn(start: real, events: seq<Event>, j: nat, n: nat)
    requires j < n < |events| && events[j].Observe? && events[j].now <= events[n].now
    requires WatermarkKeptTo(start, events, j, n)
    ensures WatermarkKeptTo(start, events, j, n + 1)
  {
    NextWatermark(start, events, n);
    ProgressChangesNext(start, events, j, n);
    var m, m', e := Run(start, events[..n]), Run(start, events[..n + 1]), events[n];
    WatermarkKeptNext(ProgressChangesBetween(start, events, j, n), events[j].status.bufferingProgress,
                      Run(start, events[..j + 1]).lastBufferProgressChangedAt, m.lastBufferProgress,
                      m.lastBufferProgressChangedAt, events[j].now, Tracked(start, events, n),
                      if e.Observe? then e.status.bufferingProgress else 0.0, e.now,
                      m'.lastBufferProgress, m'.lastBufferProgressChangedAt);
  }

  /** The watermark stays while the progress does, and moves later when it changes. */
  lemma {:induction false} WatermarkAfter(start: real, events: seq<Event>, j: nat, n: nat)
    requires j < n <= |events| && Tracked(start, events, j)
    requires forall k :: j < k < n ==> events[j].now <= events[k].now
    ensures WatermarkKeptTo(start, events, j, n)
    decreases n
  {
    if j < n - 1 {
      WatermarkAfter(start, events, j, n - 1);
      WatermarkKeptOn(start, events, j, n - 1);
    } else {
      NextWatermark(start, events, j);
    }
  }

  lemma SinceIsWatermark(start: real, events: seq<Event>, i: nat)
    requires Stuck(start, events, i) && events[i].phase.PreBuffer?
    ensures StuckSince(start, events, i) == Run(start, events[..i + 1]).lastBufferProgressChangedAt
  {
    NextWatermark(start, events, i);
  }

  /** Two noted stalls are one if and only if nothing ended it between them: no end of buffering
      during playback, no change of progress while pre-buffering. */
  lemma SameStallExactlyWhenUninterrupted(start: real, events: seq<Event>, j: nat, i: nat)
    requires Monotone(events) && Noted(start, events, j, i) && Stuck(start, events, i)
    ensures SameStall(start, events, j, i) <==> !Interrupted(start, events, j, i)
  {
    assert events[j].now <= events[i].now;
    if events[j].phase == events[i].phase {
      if events[i].phase.Playback? {
        EpisodeAfter(start, events, j, i);
      } else {
        SinceIsWatermark(start, events, j);
        SinceIsWatermark(start, events, i);
        WatermarkAfter(start, events, j, i + 1);
      }
    }
  }

  /** As the issue is documented: a stall of half a minute, or two stalls in a minute. */
  ghost predicate Documented(start: real, events: seq<Event>, i: nat)
    requires Stuck(start, events, i)
  {
    || StuckFor(start, events, i) >= 30.0
    || exists j :: Earlier(start, events, j, i) && !SameStall(start, events, j, i)
  }

  /** A buffer stall is emitted as documented if and only if it has lasted 30 seconds or some stall
      of the minute before had ended: otherwise the monitor has counted one stall of 10 to 30
      seconds as often as it observed it. */
  lemma DocumentedExactlyWhen(start: real, events: seq<Event>, i: nat)
    requires Monotone(events) && i < |events| && EmittedAt(start, events, i) == Some(BufferStall)
    ensures Stuck(start, events, i)
    ensures Documented(start, events, i)
            <==> StuckFor(start, events, i) >= 30.0 || exists j :: Earlier(start, events, j, i) && Interrupted(start, events, j, i)
  {
    StallsHaveCauses(start, events, i);
    forall j: nat | Earlier(start, events, j, i)
      ensures SameStall(start, events, j, i) <==> !Interrupted(start, events, j, i)
    {
      SameStallExactlyWhenUninterrupted(start, events, j, i);
    }
  }

  /** One uninterrupted episode observed twice past its tenth second, less than a minute apart,
      always leaves the monitor emitted. */
  lemma OneEpisodeSeenTwiceEmits(start: real, events: seq<Event>, j: nat, i: nat)
    requires Monotone(events) && Earlier(start, events, j, i) && Stuck(start, events, i)
    requires !Interrupted(start, events, j, i)
    ensures EmittedAt(start, events, i) == Some(BufferStall) && SameStall(start, events, j, i)
  {
    BufferStallExactlyWhen(start, events, i);
    SameStallExactlyWhenUninterrupted(start, events, j, i);
  }

  // ---------- Stalls at the end of the grace period ----------

  /** Event `i` is the first observation past the grace period. */
  ghost predicate GraceEnds(start: real, events: seq<Event>, i: nat) {
    && i < |events| && events[i].Observe? && events[i].now - start >= COLD_START_GRACE
    && forall j :: 0 <= j < i && events[j].Observe? ==> events[j].now - start < COLD_START_GRACE
  }

  lemma {:induction false} ArmedInGrace(start: real, events: seq<Event>, i: nat)
    requires i <= |events| && forall j :: 0 <= j < i && events[j].Observe? ==> events[j].now - start < COLD_START_GRACE
    ensures !Run(start, events[..i]).hasEmittedIssue
  {
    if i > 0 {
      ArmedInGrace(start, events, i - 1);
      PrefixRun(start, events, i - 1);
      RunIsReachable(start, events[..i - 1]);
    }
  }

  lemma {:induction false} WatermarkNotLater(start: real, events: seq<Event>, n: nat, now: real)
    requires n <= |events| && start <= now && forall j :: 0 <= j < n ==> events[j].now <= now
    ensures Run(start, events[..n]).lastBufferProgressChangedAt <= now
  {
    if n > 0 {
      WatermarkNotLater(start, events, n - 1, now);
      NextWatermark(start, events, n - 1);
    }
  }

  /** A complete progress was reported at least 30 seconds before event `i`, and no other since. */
  ghost predicate CompleteForHalfAMinute(start: real, events: seq<Event>, i: nat)
    requires i < |events| && events[i].Observe?
  {
    && events[i].status.bufferingProgress >= 1.0
    && exists k :: CompleteSince(start, events, k, i) && events[i].now - events[k].now >= 30.0
  }

  ghost predicate CompleteSince(start: real, events: seq<Event>, k: int, i: nat)
    requires i < |events| && events[i].Observe?
  {
    0 <= k < i && FrozenSince(start, events, k, i + 1, events[i].status.bufferingProgress, events[k].now)
  }

  lemma StuckMeansComplete(start: real, events: seq<Event>, i: nat)
    requires Stuck(start, events, i) && events[i].phase.PreBuffer? && StuckFor(start, events, i) >= 30.0
    ensures CompleteForHalfAMinute(start, events, i)
  {
    StuckMeans(start, events, i);
    var progress, since := events[i].status.bufferingProgress, StuckSince(start, events, i);
    var k :| FrozenSince(start, events, k, i + 1, progress, since);
    assert 0 <= k && since == events[k].now;
    assert CompleteSince(start, events, k, i);
  }

  lemma WatermarkIsOld(start: real, events: seq<Event>, k: nat, i: nat)
    requires i < |events| && events[i].Observe? && CompleteSince(start, events, k, i)
    requires Monotone(events) && start <= events[0].now
    ensures Run(start, events[..i + 1]).lastBufferProgressChangedAt <= events[k].now
  {
    WatermarkAfter(start, events, k, i + 1);
    WatermarkNotLater(start, events, k + 1, events[k].now);
  }

  lemma OldWatermarkStalls(start: real, events: seq<Event>, i: nat)
    requires GraceEnds(start, events, i) && events[i].phase.PreBuffer? && events[i].status.bufferingProgress >= 1.0
    requires events[i].now - Run(start, events[..i + 1]).lastBufferProgressChangedAt >= 30.0
    ensures EmittedAt(start, events, i) == Some(BufferStall)
  {
    ArmedInGrace(start, events, i);
    RunIsReachable(start, events[..i]);
    NextWatermark(start, events, i);
    StepStalls(Run(start, events[..i]), events[i]);
  }

  /** A pre-buffer stall fires the instant the grace period closes if and only if a complete progress
      was reported half a minute before and no other since: the watermark was current, and old. */
  lemma StallAsGraceEndsExactlyWhen(start: real, events: seq<Event>, i: nat)
    requires GraceEnds(start, events, i) && Monotone(events) && start <= events[0].now && events[i].phase.PreBuffer?
    ensures EmittedAt(start, events, i) == Some(BufferStall) <==> CompleteForHalfAMinute(start, events, i)
  {
    if EmittedAt(start, events, i) == Some(BufferStall) {
      StallsHaveCauses(start, events, i);
      forall j ensures !Earlier(start, events, j, i) {
        if 0 <= j < i { RunIsReachable(start, events[..j]); }
      }
      StuckMeansComplete(start, events, i);
    }
    if CompleteForHalfAMinute(start, events, i) {
      var k :| CompleteSince(start, events, k, i) && events[i].now - events[k].now >= 30.0;
      WatermarkIsOld(start, events, k, i);
      OldWatermarkStalls(start, events, i);
    }
  }

  /** So it does for a torrent that is complete from the start. */
  lemma StallAsGraceCloses(start: real, status: Status)
    requires status.bufferingProgress >= 1.0
    ensures EmittedAt(start, [Observe(start, status, PreBuffer), Observe(start + COLD_START_GRACE, status, PreBuffer)], 1)
         == Some(BufferStall)
  {
    var events := [Observe(start, status, PreBuffer), Observe(start + COLD_START_GRACE, status, PreBuffer)];
    assert events[..1] == [events[0]] && [events[0]][..0] == [];
    assert Run(start, events[..1]) == Step(Fresh(start), events[0]).m;
  }

  // ---------- Latching ----------

  function Resets(events: seq<Event>): nat {
    if events == [] then 0
    else Resets(events[..|events| - 1]) + if events[|events| - 1].ResetForPlayback? then 1 else 0
  }

  function Emissions(start: real, events: seq<Event>): nat {
    if events == [] then 0
    else Emissions(start, events[..|events| - 1]) + if EmittedAt(start, events, |events| - 1).Some? then 1 else 0
  }

  /** A step emits exactly when it sets the latch, and only a reset clears the latch. */
  lemma LatchStep(m: Monitor, e: Event)
    ensures Step(m, e).emitted.Some? ==> !m.hasEmittedIssue && Step(m, e).m.hasEmittedIssue
    ensures Step(m, e).emitted.None? && !e.ResetForPlayback? ==> Step(m, e).m.hasEmittedIssue == m.hasEmittedIssue
    ensures e.ResetForPlayback? ==> Step(m, e).emitted.None? && !Step(m, e).m.hasEmittedIssue
  {}

  lemma {:induction false} EmissionsAreLatched(start: real, events: seq<Event>)
    ensures Emissions(start, events) <= Resets(events) + if Run(start, events).hasEmittedIssue then 1 else 0
  {
    if events != [] {
      var n := |events| - 1;
      EmissionsAreLatched(start, events[..n]);
      LatchStep(Run(start, events[..n]), events[n]);
    }
  }

  /** Emissions number at most one more than the resets. */
  lemma EmissionsBounded(start: real, events: seq<Event>)
    ensures Emissions(start, events) <= Resets(events) + 1
  {
    EmissionsAreLatched(start, events);
  }

  lemma {:induction false} StaysLatched(start: real, events: seq<Event>, i: nat, j: nat)
    requires i <= j <= |events| && Run(start, events[..i]).hasEmittedIssue
    requires forall k :: i <= k < j ==> !events[k].ResetForPlayback?
    ensures Run(start, events[..j]).hasEmittedIssue
    decreases j
  {
    if i < j {
      StaysLatched(start, events, i, j - 1);
      assert events[..j][..j - 1] == events[..j - 1];
      LatchStep(Run(start, events[..j - 1]), events[j - 1]);
    }
  }

  /** Nothing but a reset re-arms the monitor, in particular no dismissal: between two emissions
      there is always a reset. */
  lemma OnlyResetsRearm(start: real, events: seq<Event>, i: nat, j: nat)
    requires i < j < |events|
    requires EmittedAt(start, events, i).Some? && EmittedAt(start, events, j).Some?
    ensures exists k :: i < k < j && events[k].ResetForPlayback?
  {
    assert events[..i + 1][..i] == events[..i];
    LatchStep(Run(start, events[..i]), events[i]);
    LatchStep(Run(start, events[..j]), events[j]);
    if forall k :: i < k < j ==> !events[k].ResetForPlayback? {
      StaysLatched(start, events, i + 1, j);
    }
  }

  // ---------- What the user is shown ----------

  /** Since the emission at event `i` nobody dismissed it and nothing was reset. */
  ghost predicate StillShown(start: real, events: seq<Event>, i: int, issue: Issue) {
    && 0 <= i < |events| && EmittedAt(start, events, i) == Some(issue)
    && forall k :: i < k < |events| ==> !events[k].Dismiss? && !events[k].ResetForPlayback?
  }

  lemma ShownStep(m: Monitor, e: Event)
    ensures Step(m, e).m.currentIssue ==
      if Step(m, e).emitted.Some? then Step(m, e).emitted
      else if e.Dismiss? || e.ResetForPlayback? then None else m.currentIssue
    ensures Step(m, e).emitted.Some? ==> e.Observe?
  {}

  /** A shown issue means that the monitor is latched. */
  lemma {:induction false} ShownIsLatched(start: real, events: seq<Event>)
    ensures Run(start, events).currentIssue.Some? ==> Run(start, events).hasEmittedIssue
  {
    if events != [] {
      var n := |events| - 1;
      ShownIsLatched(start, events[..n]);
      ShownStep(Run(start, events[..n]), events[n]);
      LatchStep(Run(start, events[..n]), events[n]);
    }
  }

  lemma StillShownNext(start: real, events: seq<Event>, i: int, issue: Issue)
    requires events != [] && 0 <= i < |events| - 1
    ensures StillShown(start, events, i, issue) <==>
      StillShown(start, events[..|events| - 1], i, issue)
      && !events[|events| - 1].Dismiss? && !events[|events| - 1].ResetForPlayback?
  {
    var n := |events| - 1;
    assert events[..n][..i] == events[..i];
    assert forall k :: 0 <= k < n ==> events[..n][k] == events[k];
  }

  /** In every run the user is shown exactly the issue emitted last, until it is dismissed or the
      monitor is reset. */
  lemma {:induction false} ShownExactlyWhen(start: real, events: seq<Event>, issue: Issue)
    ensures Run(start, events).currentIssue == Some(issue) <==> exists i :: StillShown(start, events, i, issue)
  {
    if events != [] {
      var n := |events| - 1;
      var m := Run(start, events[..n]);
      ShownExactlyWhen(start, events[..n], issue);
      ShownStep(m, events[n]);
      LatchStep(m, events[n]);
      forall i | 0 <= i < n
        ensures StillShown(start, events, i, issue) <==>
                StillShown(start, events[..n], i, issue) && !events[n].Dismiss? && !events[n].ResetForPlayback?
      {
        StillShownNext(start, events, i, issue);
      }
      if i :| StillShown(start, events, i, issue) {
        if i < n && EmittedAt(start, events, n).Some? {
          OnlyResetsRearm(start, events, i, n);
        }
      } else if m.currentIssue == Some(issue) {
        var i :| StillShown(start, events[..n], i, issue);
        assert !StillShown(start, events, i, issue);
      }
      if EmittedAt(start, events, n) == Some(issue) { assert StillShown(start, events, n, issue); }
    }
  }

  // ---------- What reaches the registry ----------

  /** The failure registry after a run: it is told of every emission, as `ObserveStatus` does. */
  function RegistryAfter(start: real, url: string, before: FailureRegistry.State, events: seq<Event>): FailureRegistry.State {
    if events == [] then before
    else
      var n := |events| - 1;
      var s := RegistryAfter(start, url, before, events[..n]);
      if EmittedAt(start, events, n).None? then s else FailureRegistry.Step(s, FailureRegistry.Failure(url, events[n].now))
  }

  lemma {:induction false} RecordingsAreEmissions(start: real, url: string, before: FailureRegistry.State, events: seq<Event>, u: string)
    ensures var ts, ts' := FailureRegistry.Times(before.failures, u),
                           FailureRegistry.Times(RegistryAfter(start, url, before, events).failures, u);
            if u == url then |ts| <= |ts'| <= |ts| + Emissions(start, events) else ts' == ts
  {
    if events != [] {
      var n := |events| - 1;
      RecordingsAreEmissions(start, url, before, events[..n], u);
      FailureRegistry.RecordedTimes(RegistryAfter(start, url, before, events[..n]).failures, url, events[n].now, u);
    }
  }

  /** Every emission leaves the registry with a failure of the torrent from the last minute. */
  lemma EmissionIsRecorded(start: real, url: string, before: FailureRegistry.State, events: seq<Event>)
    requires events != [] && EmittedAt(start, events, |events| - 1).Some?
    ensures exists t :: t in FailureRegistry.Times(RegistryAfter(start, url, before, events).failures, url)
                        && events[|events| - 1].now - t < 60.0
  {
    var n := |events| - 1;
    var s := RegistryAfter(start, url, before, events[..n]);
    var ts := FailureRegistry.Times(s.failures, url);
    FailureRegistry.RecordedTimes(s.failures, url, events[n].now, url);
    var t := if FailureRegistry.Accepts(ts, events[n].now) then events[n].now else ts[|ts| - 1];
    assert t in FailureRegistry.Times(RegistryAfter(start, url, before, events).failures, url);
  }

  /** A run records at most one failure more than it has resets, and only for its own torrent. */
  lemma RecordingsBounded(start: real, url: string, before: FailureRegistry.State, events: seq<Event>, u: string)
    ensures var ts, ts' := FailureRegistry.Times(before.failures, u),
                           FailureRegistry.Times(RegistryAfter(start, url, before, events).failures, u);
            if u == url then |ts'| <= |ts| + Resets(events) + 1 else ts' == ts
  {
    RecordingsAreEmissions(start, url, before, events, u);
    EmissionsBounded(start, events);
  }
}

/** The playback health monitor
    (PopcornTime/Flows/Movie Details/PreloadTorrentViewModel.swift:206-394). */
module HealthMonitor {
  import opened Sequences
  import FailureRegistry

  datatype Issue = BufferStall | SlowStart | PeerCollapse | SustainedLowSpeed

  datatype Phase = PreBuffer | Playback

  datatype Status = Status(bufferingProgress: real, peers: int, downloadSpeed: int)

  const COLD_START_GRACE: real := 30.0

  datatype Monitor = Monitor(
    currentIssue: Option<Issue>,
    hasEmittedIssue: bool,
    sessionStarted: real,
    lastBufferProgress: real,
    lastBufferProgressChangedAt: real,
    stallTimestamps: seq<real>,
    sustainedLowSpeedSince: Option<real>,
    vlcBufferingSince: Option<real>)

  function Fresh(now: real): Monitor {
    Monitor(None, false, now, -1.0, now, [], None, None)
  }

  datatype Event =
    | Observe(now: real, status: Status, phase: Phase)
    | BufferingStarts(now: real)
    | BufferingEnds(now: real)
    | Dismiss(now: real)
    | ResetForPlayback(now: real)

  // ---------- One step ----------

  /** The stalls of the last minute, counting the one at `now`. */
  function AddStall(stalls: seq<real>, now: real): seq<real> {
    WithinMinute(stalls + [now], now)
  }

  function WithinMinute(stalls: seq<real>, now: real): seq<real> {
    Filter(stalls, LessThanAMinuteBefore(now))
  }

  function LessThanAMinuteBefore(now: real): real -> bool {
    (t: real) => now - t < 60.0
  }

  /** What an observation does: the new state, and the issue it emits. */
  datatype Outcome = Outcome(m: Monitor, emitted: Option<Issue>)

  function Emit(m: Monitor, issue: Issue): Outcome {
    Outcome(m.(hasEmittedIssue := true, currentIssue := Some(issue)), Some(issue))
  }

  function Track(m: Monitor, now: real, status: Status, phase: Phase): Monitor {
    if phase.PreBuffer? && status.bufferingProgress != m.lastBufferProgress
    then m.(lastBufferProgress := status.bufferingProgress, lastBufferProgressChangedAt := now)
    else m
  }

  /** How long the signal of the phase has been stuck, if it is being watched. */
  function StallDuration(m: Monitor, now: real, phase: Phase): Option<real> {
    if phase.PreBuffer? then Some(now - m.lastBufferProgressChangedAt)
    else if m.vlcBufferingSince.Some? then Some(now - m.vlcBufferingSince.value)
    else None
  }

  /** The last test: a low speed held for 30 seconds. */
  function SpeedWatched(m: Monitor, now: real, status: Status): Outcome {
    if status.downloadSpeed / 1024 < 500 && status.bufferingProgress < 1.0 then
      if m.sustainedLowSpeedSince.None? then Outcome(m.(sustainedLowSpeedSince := Some(now)), None)
      else if now - m.sustainedLowSpeedSince.value >= 30.0 then Emit(m, SustainedLowSpeed)
      else Outcome(m, None)
    else Outcome(m.(sustainedLowSpeedSince := None), None)
  }

  function Observed(m0: Monitor, now: real, status: Status, phase: Phase): Outcome {
    if m0.hasEmittedIssue then Outcome(m0, None)
    else
      var m := Track(m0, now, status, phase);
      var sinceStart := now - m.sessionStarted;
      if sinceStart < COLD_START_GRACE then Outcome(m, None)
      else if phase.PreBuffer? && status.bufferingProgress < 1.0 then Emit(m, SlowStart)
      else
        var duration := StallDuration(m, now, phase);
        var stuck := duration.Some? && duration.value >= 10.0;
        var m1 := if stuck then m.(stallTimestamps := AddStall(m.stallTimestamps, now)) else m;
        if stuck && (duration.value >= 30.0 || |m1.stallTimestamps| >= 2) then Emit(m1, BufferStall)
        else if phase.PreBuffer? && sinceStart < 120.0 && status.peers < 3 then Emit(m1, PeerCollapse)
        else if phase.PreBuffer? then SpeedWatched(m1, now, status)
        else Outcome(m1, None)
  }

  function Step(m: Monitor, e: Event): Outcome {
    match e
    case Observe(now, status, phase) => Observed(m, now, status, phase)
    case BufferingStarts(now) =>
      Outcome(if m.vlcBufferingSince.None? then m.(vlcBufferingSince := Some(now)) else m, None)
    case BufferingEnds(_) => Outcome(m.(vlcBufferingSince := None), None)
    case Dismiss(_) => Outcome(m.(currentIssue := None), None)
    case ResetForPlayback(_) =>
      Outcome(m.(currentIssue := None, hasEmittedIssue := false, stallTimestamps := [],
                 sustainedLowSpeedSince := None, vlcBufferingSince := None), None)
  }

  // ---------- The monitor as an object ----------

  class PlaybackHealthMonitor {
    const torrentURL: string
    const sessionStarted: real
    const registry: FailureRegistry.PlaybackFailureRegistry
    var currentIssue: Option<Issue>
    var hasEmittedIssue: bool
    var lastBufferProgress: real
    var lastBufferProgressChangedAt: real
    var stallTimestamps: seq<real>
    var sustainedLowSpeedSince: Option<real>
    var vlcBufferingSince: Option<real>

    ghost function Abstract(): Monitor
      reads this
    {
      Monitor(currentIssue, hasEmittedIssue, sessionStarted, lastBufferProgress, lastBufferProgressChangedAt,
              stallTimestamps, sustainedLowSpeedSince, vlcBufferingSince)
    }

    constructor (torrentURL: string, registry: FailureRegistry.PlaybackFailureRegistry, now: real)
      ensures Abstract() == Fresh(now)
      ensures this.torrentURL == torrentURL && this.registry == registry
    {
      this.torrentURL, this.registry, sessionStarted := torrentURL, registry, now;
      currentIssue, hasEmittedIssue := None, false;
      lastBufferProgress, lastBufferProgressChangedAt := -1.0, now;
      stallTimestamps, sustainedLowSpeedSince, vlcBufferingSince := [], None, None;
    }

    /** An issue is emitted once, and only then told to the failure registry. */
    method EmitIssue(issue: Issue, now: real)
      modifies this`hasEmittedIssue, this`currentIssue, registry
      ensures Abstract() == if old(hasEmittedIssue) then old(Abstract()) else Emit(old(Abstract()), issue).m
      ensures registry.Abstract() == if old(hasEmittedIssue) then old(registry.Abstract())
                                     else FailureRegistry.Step(old(registry.Abstract()), FailureRegistry.Failure(torrentURL, now))
    {
      if hasEmittedIssue { return; }
      hasEmittedIssue := true;
      currentIssue := Some(issue);
      registry.RecordFailure(torrentURL, now);
    }

    method ObserveStatus(now: real, status: Status, phase: Phase)
      modifies this, registry
      ensures Abstract() == Observed(old(Abstract()), now, status, phase).m
      ensures registry.Abstract() ==
        if Observed(old(Abstract()), now, status, phase).emitted.None? then old(registry.Abstract())
        else FailureRegistry.Step(old(registry.Abstract()), FailureRegistry.Failure(torrentURL, now))
    {
      if hasEmittedIssue { return; }
      var sinceStart := now - sessionStarted;
      if phase.PreBuffer? && status.bufferingProgress != lastBufferProgress {
        lastBufferProgress := status.bufferingProgress;
        lastBufferProgressChangedAt := now;
      }
      if sinceStart < COLD_START_GRACE { return; }
      if phase.PreBuffer? && status.bufferingProgress < 1.0 {
        EmitIssue(SlowStart, now);
        return;
      }
      if phase.PreBuffer? {
        var stallDuration := now - lastBufferProgressChangedAt;
        if stallDuration >= 10.0 {
          stallTimestamps := WithinMinute(stallTimestamps + [now], now);
          if stallDuration >= 30.0 || |stallTimestamps| >= 2 {
            EmitIssue(BufferStall, now);
            return;
          }
        }
      } else if vlcBufferingSince.Some? {
        var bufferingDuration := now - vlcBufferingSince.value;
        if bufferingDuration >= 10.0 {
          stallTimestamps := WithinMinute(stallTimestamps + [now], now);
          if bufferingDuration >= 30.0 || |stallTimestamps| >= 2 {
            EmitIssue(BufferStall, now);
            return;
          }
        }
      }
      if phase.PreBuffer? && sinceStart < 120.0 && status.peers < 3 {
        EmitIssue(PeerCollapse, now);
        return;
      }
      if phase.PreBuffer? {
        WatchSpeed(now, status);
      }
    }

    method WatchSpeed(now: real, status: Status)
      requires !hasEmittedIssue
      modifies this, registry
      ensures Abstract() == SpeedWatched(old(Abstract()), now, status).m
      ensures registry.Abstract() ==
        if SpeedWatched(old(Abstract()), now, status).emitted.None? then old(registry.Abstract())
        else FailureRegistry.Step(old(registry.Abstract()), FailureRegistry.Failure(torrentURL, now))
    {
      var kbps := status.downloadSpeed / 1024;
      if kbps < 500 && status.bufferingProgress < 1.0 {
        if sustainedLowSpeedSince.None? {
          sustainedLowSpeedSince := Some(now);
        } else if now - sustainedLowSpeedSince.value >= 30.0 {
          EmitIssue(SustainedLowSpeed, now);
        }
      } else {
        sustainedLowSpeedSince := None;
      }
    }

    method VlcBufferingDidStart(now: real)
      modifies this`vlcBufferingSince
      ensures Abstract() == Step(old(Abstract()), BufferingStarts(now)).m
    {
      if vlcBufferingSince.None? { vlcBufferingSince := Some(now); }
    }

    method VlcBufferingDidEnd(now: real)
      modifies this`vlcBufferingSince
      ensures Abstract() == Step(old(Abstract()), BufferingEnds(now)).m
    {
      vlcBufferingSince := None;
    }

    method DismissIssue(now: real)
      modifies this`currentIssue
      ensures Abstract() == Step(old(Abstract()), Dismiss(now)).m
    {
      currentIssue := None;
    }

    method Reset(now: real)
      modifies this
      ensures Abstract() == Step(old(Abstract()), ResetForPlayback(now)).m
    {
      currentIssue := None;
      hasEmittedIssue := false;
      stallTimestamps := [];
      sustainedLowSpeedSince := None;
      vlcBufferingSince := None;
    }
  }
}

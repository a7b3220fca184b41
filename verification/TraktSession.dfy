/** The token refresh shared by concurrent callers
    (PopcornKit/Sources/Managers/TraktSession.swift:5-55, TraktAuthApi.swift:80-98;
    section 6 of RFC 6749). Callers interleave freely but each runs without interruption
    between two awaits. */
module TraktSession {
  import opened Sequences

  datatype Credential = Credential(accessToken: string, refreshToken: Option<string>, expiration: Option<real>)

  predicate Expired(c: Credential, now: real) {
    c.expiration.Some? && c.expiration.value < now
  }

  datatype Error = MissingSession | BadRequest | OtherError(code: int)

  datatype Outcome = Ok(credential: Credential) | Err(error: Error)

  /** A refresh request: sent with a refresh token, or answered. */
  datatype Task = Running(refreshToken: string) | Done(outcome: Outcome)

  /** A call of `traktCredentials`: waiting for a refresh it found or started, or returned,
      with the refresh it waited for, if any. */
  datatype Call = Joined(task: nat) | Initiated(task: nat) | Returned(outcome: Outcome, waitedFor: Option<nat>)

  datatype State = State(
    refreshTask: Option<nat>,
    credentials: Option<Credential>,
    persisted: Option<Credential>,
    tasks: seq<Task>,
    calls: map<nat, Call>)

  datatype Event =
    | Enter(id: nat, now: real)
    | Answer(task: nat, outcome: Outcome)
    | Resume(id: nat)
    | Login(credential: Credential)
    | Logout

  // ---------- One step ----------

  function Store(s: State, c: Credential): State {
    s.(credentials := Some(c), persisted := Some(c))
  }

  function LoggedOut(s: State): State {
    s.(credentials := None, persisted := None)
  }

  /** `traktCredentials` up to its first await or return. */
  function Entered(s: State, id: nat, now: real): State {
    if s.refreshTask.Some? then s.(calls := s.calls[id := Joined(s.refreshTask.value)])
    else if s.credentials.None? then s.(calls := s.calls[id := Returned(Err(MissingSession), None)])
    else
      var c := s.credentials.value;
      if Expired(c, now) && c.refreshToken.Some? then
        s.(refreshTask := Some(|s.tasks|),
           tasks := s.tasks + [Running(c.refreshToken.value)],
           calls := s.calls[id := Initiated(|s.tasks|)])
      else s.(calls := s.calls[id := Returned(Ok(c), None)])
  }

  /** The refresh request completes: new credentials are stored, a rejected token logs out. */
  function Answered(s: State, task: nat, outcome: Outcome): State
    requires task < |s.tasks|
  {
    var s' := match outcome
      case Ok(c) => Store(s, c)
      case Err(BadRequest) => LoggedOut(s)
      case Err(_) => s;
    s'.(tasks := s'.tasks[task := Done(outcome)])
  }

  /** A waiting call continues with the outcome of its refresh. */
  function Resumed(s: State, id: nat): State
    requires id in s.calls && !s.calls[id].Returned? && s.calls[id].task < |s.tasks|
    requires s.tasks[s.calls[id].task].Done?
  {
    var t := s.calls[id].task;
    var outcome := s.tasks[t].outcome;
    var s' := if s.calls[id].Initiated? && outcome.Ok? then Store(s, outcome.credential).(refreshTask := None) else s;
    s'.(calls := s'.calls[id := Returned(outcome, Some(t))])
  }

  predicate Enabled(s: State, e: Event) {
    match e
    case Enter(id, _) => id !in s.calls
    case Answer(task, _) => task < |s.tasks| && s.tasks[task].Running?
    case Resume(id) =>
      id in s.calls && !s.calls[id].Returned? && s.calls[id].task < |s.tasks| && s.tasks[s.calls[id].task].Done?
    case _ => true
  }

  function Step(s: State, e: Event): State
    requires Enabled(s, e)
  {
    match e
    case Enter(id, now) => Entered(s, id, now)
    case Answer(task, outcome) => Answered(s, task, outcome)
    case Resume(id) => Resumed(s, id)
    case Login(c) => Store(s, c)
    case Logout => LoggedOut(s)
  }

  function Start(saved: Option<Credential>): State {
    State(None, saved, saved, [], map[])
  }

  /** `events` can happen one after the other from `s`, ending in `Run(s, events)`. */
  predicate Possible(s: State, events: seq<Event>)
    decreases |events|
  {
    events == [] || (Enabled(s, events[0]) && Possible(Step(s, events[0]), events[1..]))
  }

  function Run(s: State, events: seq<Event>): State
    requires Possible(s, events)
    decreases |events|
  {
    if events == [] then s else Run(Step(s, events[0]), events[1..])
  }

  // ---------- The session as an object ----------

  class Session {
    var refreshTask: Option<nat>
    var credentials: Option<Credential>
    var persisted: Option<Credential>
    ghost var tasks: seq<Task>
    ghost var calls: map<nat, Call>

    ghost function Abstract(): State
      reads this
    {
      State(refreshTask, credentials, persisted, tasks, calls)
    }

    constructor (saved: Option<Credential>)
      ensures Abstract() == Start(saved)
    {
      refreshTask, credentials, persisted, tasks, calls := None, saved, saved, [], map[];
    }

    method StoreCredentials(c: Credential)
      modifies this
      ensures Abstract() == Store(old(Abstract()), c)
    {
      credentials := Some(c);
      persisted := Some(c);
    }

    method LogOut()
      modifies this
      ensures Abstract() == LoggedOut(old(Abstract()))
    {
      credentials := None;
      persisted := None;
    }

    /** `newTask` is the handle the runtime gives to a task created here. */
    method TraktCredentials(ghost id: nat, now: real, newTask: nat) returns (r: Option<Outcome>)
      requires id !in calls && newTask == |tasks|
      modifies this
      ensures Abstract() == Entered(old(Abstract()), id, now)
      ensures r == if calls[id].Returned? then Some(calls[id].outcome) else None
    {
      if refreshTask.Some? {
        calls := calls[id := Joined(refreshTask.value)];
        return None;
      }
      if credentials.Some? {
        var c := credentials.value;
        if Expired(c, now) && c.refreshToken.Some? {
          refreshTask := Some(newTask);
          tasks := tasks + [Running(c.refreshToken.value)];
          calls := calls[id := Initiated(newTask)];
          return None;
        } else {
          calls := calls[id := Returned(Ok(c), None)];
          return Some(Ok(c));
        }
      }
      calls := calls[id := Returned(Err(MissingSession), None)];
      r := Some(Err(MissingSession));
    }

    method RefreshTokenAnswered(ghost task: nat, outcome: Outcome)
      requires Enabled(Abstract(), Answer(task, outcome))
      modifies this
      ensures Abstract() == Answered(old(Abstract()), task, outcome)
    {
      match outcome {
        case Ok(c) => StoreCredentials(c);
        case Err(e) => if e.BadRequest? { LogOut(); }
      }
      tasks := tasks[task := Done(outcome)];
    }

    method ResumeInitiator(ghost id: nat, outcome: Outcome) returns (r: Outcome)
      requires Enabled(Abstract(), Resume(id)) && calls[id].Initiated? && outcome == tasks[calls[id].task].outcome
      modifies this
      ensures Abstract() == Resumed(old(Abstract()), id) && r == outcome
    {
      ghost var t := calls[id].task;
      if outcome.Ok? {
        StoreCredentials(outcome.credential);
        refreshTask := None;
      }
      calls := calls[id := Returned(outcome, Some(t))];
      r := outcome;
    }

    method ResumeJoiner(ghost id: nat, outcome: Outcome) returns (r: Outcome)
      requires Enabled(Abstract(), Resume(id)) && calls[id].Joined? && outcome == tasks[calls[id].task].outcome
      modifies this
      ensures Abstract() == Resumed(old(Abstract()), id) && r == outcome
    {
      calls := calls[id := Returned(outcome, Some(calls[id].task))];
      r := outcome;
    }
  }

  // ---------- Every run ----------

  /** What holds in every reachable state. */
  ghost predicate Inv(s: State) {
    && (s.refreshTask.Some? ==> s.refreshTask.value < |s.tasks|)
    // A request in flight is the one in the slot.
    && (forall t :: 0 <= t < |s.tasks| && s.tasks[t].Running? ==> s.refreshTask == Some(t))
    // The call that filled the slot finds it as it left it.
    && (forall id :: id in s.calls && s.calls[id].Initiated? ==> s.refreshTask == Some(s.calls[id].task))
    && (forall id, id' :: id in s.calls && id' in s.calls && s.calls[id].Initiated? && s.calls[id'].Initiated? ==> id == id')
    && (forall id :: id in s.calls && s.calls[id].Joined? ==> s.calls[id].task < |s.tasks|)
    // Whoever waited for a refresh returned its outcome.
    && (forall id :: id in s.calls && s.calls[id].Returned? && s.calls[id].waitedFor.Some? ==>
          s.calls[id].waitedFor.value < |s.tasks| && s.tasks[s.calls[id].waitedFor.value] == Done(s.calls[id].outcome))
    // A filled slot has a call that will clear it, or holds a failure.
    && (s.refreshTask.Some? ==>
          (exists id :: id in s.calls && s.calls[id] == Initiated(s.refreshTask.value)) || Failed(s))
    && s.persisted == s.credentials
  }

  /** The slot holds a refresh that failed and that nobody will clear. */
  ghost predicate Failed(s: State) {
    && s.refreshTask.Some? && s.refreshTask.value < |s.tasks|
    && s.tasks[s.refreshTask.value].Done? && s.tasks[s.refreshTask.value].outcome.Err?
  }

  lemma EnterKeepsInv(s: State, id: nat, now: real)
    requires Inv(s) && id !in s.calls
    ensures Inv(Entered(s, id, now))
  {
    var s' := Entered(s, id, now);
    if s'.refreshTask.Some? && s.refreshTask.None? {
      assert s'.calls[id] == Initiated(s'.refreshTask.value);
    } else if s.refreshTask.Some? && !Failed(s) {
      var i :| i in s.calls && s.calls[i] == Initiated(s.refreshTask.value);
      assert s'.calls[i] == Initiated(s'.refreshTask.value);
    }
  }

  lemma AnswerKeepsInv(s: State, task: nat, outcome: Outcome)
    requires Inv(s) && Enabled(s, Answer(task, outcome))
    ensures Inv(Answered(s, task, outcome))
  {
    var s' := Answered(s, task, outcome);
    var i :| i in s.calls && s.calls[i] == Initiated(s.refreshTask.value);
    assert s'.calls[i] == Initiated(s'.refreshTask.value);
  }

  lemma ResumeKeepsInv(s: State, id: nat)
    requires Inv(s) && Enabled(s, Resume(id))
    ensures Inv(Resumed(s, id))
  {
    var s' := Resumed(s, id);
    if s'.refreshTask.Some? && !Failed(s') {
      var i :| i in s.calls && s.calls[i] == Initiated(s.refreshTask.value);
      assert s'.calls[i] == Initiated(s'.refreshTask.value);
    }
  }

  lemma StepKeepsInv(s: State, e: Event)
    requires Inv(s) && Enabled(s, e)
    ensures Inv(Step(s, e))
  {
    match e
    case Enter(id, now) => EnterKeepsInv(s, id, now);
    case Answer(task, outcome) => AnswerKeepsInv(s, task, outcome);
    case Resume(id) => ResumeKeepsInv(s, id);
    case _ =>
      var s' := Step(s, e);
      if s.refreshTask.Some? && !Failed(s) {
        var i :| i in s.calls && s.calls[i] == Initiated(s.refreshTask.value);
        assert s'.calls[i] == Initiated(s'.refreshTask.value);
      }
  }

  lemma {:induction false} RunKeepsInv(s: State, events: seq<Event>)
    requires Inv(s) && Possible(s, events)
    ensures Inv(Run(s, events))
    decreases |events|
  {
    if events != [] {
      StepKeepsInv(s, events[0]);
      RunKeepsInv(Step(s, events[0]), events[1..]);
    }
  }

  /** At most one refresh is in flight in every run, however many calls interleave. */
  lemma SingleFlight(saved: Option<Credential>, events: seq<Event>, t: nat, t': nat)
    requires Possible(Start(saved), events)
    requires var s := Run(Start(saved), events);
             t < |s.tasks| && t' < |s.tasks| && s.tasks[t].Running? && s.tasks[t'].Running?
    ensures t == t'
  {
    RunKeepsInv(Start(saved), events);
  }

  /** All calls that waited for the same refresh return the same outcome. */
  lemma WaitersAgree(saved: Option<Credential>, events: seq<Event>, id: nat, id': nat)
    requires Possible(Start(saved), events)
    requires var s := Run(Start(saved), events);
             && id in s.calls && id' in s.calls && s.calls[id].Returned? && s.calls[id'].Returned?
             && s.calls[id].waitedFor.Some? && s.calls[id].waitedFor == s.calls[id'].waitedFor
    ensures var s := Run(Start(saved), events); s.calls[id].outcome == s.calls[id'].outcome
  {
    RunKeepsInv(Start(saved), events);
  }

  /** The slot is emptied only by the call that filled it, and only after a success; it is
      never refilled while it is full. */
  lemma OnlyInitiatorClears(s: State, e: Event)
    requires Inv(s) && Enabled(s, e) && s.refreshTask.Some? && Step(s, e).refreshTask != s.refreshTask
    ensures Step(s, e).refreshTask.None? && e.Resume?
    ensures s.calls[e.id] == Initiated(s.refreshTask.value) && s.tasks[s.refreshTask.value].outcome.Ok?
  {}

  lemma {:induction false} FailureIsForever(s: State, events: seq<Event>)
    requires Inv(s) && Failed(s) && Possible(s, events)
    ensures var s' := Run(s, events);
            && s'.refreshTask == s.refreshTask && |s'.tasks| == |s.tasks|
            && s'.tasks[s.refreshTask.value] == s.tasks[s.refreshTask.value]
    decreases |events|
  {
    if events != [] {
      var e := events[0];
      StepKeepsInv(s, e);
      if e.Resume? && s.calls[e.id].Initiated? {
        assert s.refreshTask == Some(s.calls[e.id].task);
      }
      FailureIsForever(Step(s, e), events[1..]);
    }
  }

  /** Once a refresh has failed, every later call of the same session returns that same failure,
      even after a new login, and no refresh is ever sent again. */
  lemma EveryLaterCallFails(s: State, events: seq<Event>, id: nat, now: real)
    requires Inv(s) && Failed(s) && Possible(s, events) && id !in Run(s, events).calls
    ensures var s' := Entered(Run(s, events), id, now);
            && Enabled(s', Resume(id)) && |s'.tasks| == |s.tasks|
            && Resumed(s', id).calls[id] == Returned(s.tasks[s.refreshTask.value].outcome, s.refreshTask)
  {
    FailureIsForever(s, events);
  }

  /** When the call that started a refresh resumes, the session is usable again if and only if
      the refresh succeeded. */
  lemma FreedExactlyOnSuccess(s: State, id: nat)
    requires Inv(s) && Enabled(s, Resume(id)) && s.calls[id].Initiated?
    ensures Resumed(s, id).refreshTask.None? <==> s.tasks[s.calls[id].task].outcome.Ok?
    ensures s.tasks[s.calls[id].task].outcome.Err? <==> Failed(Resumed(s, id))
  {}

  // ---------- What a call gets ----------

  /** The session holds expired credentials with this refresh token. */
  predicate Stale(s: State, now: real, token: string) {
    && s.credentials.Some? && s.credentials.value.expiration.Some? && s.credentials.value.expiration.value < now
    && s.credentials.value.refreshToken == Some(token)
  }

  /** A refresh is sent by exactly one kind of step, a call that finds no other under way and expired
      credentials, and with the refresh token they hold. */
  lemma RefreshSentExactlyWhen(s: State, e: Event, token: string)
    requires Enabled(s, e)
    ensures |Step(s, e).tasks| > |s.tasks| && Step(s, e).tasks[|s.tasks|] == Running(token)
            <==> e.Enter? && s.refreshTask.None? && Stale(s, e.now, token)
    ensures e.Enter? && s.refreshTask.None? && Stale(s, e.now, token) ==> Step(s, e).calls[e.id] == Initiated(|s.tasks|)
  {}

  /** A call returned at once: nothing was under way, and it got the credentials held, not in need of
      a refresh, or learned that there are none. */
  ghost predicate RepliedAtOnce(before: State, now: real, outcome: Outcome) {
    && before.refreshTask.None?
    && outcome == (if before.credentials.Some? then Ok(before.credentials.value) else Err(MissingSession))
    && forall c :: before.credentials == Some(c) ==>
         c.expiration.None? || c.expiration.value >= now || c.refreshToken.None?
  }

  lemma EnteredReplies(s: State, id: nat, now: real)
    requires id !in s.calls
    ensures var call := Entered(s, id, now).calls[id];
            call.Returned? <==> s.refreshTask.None? && !(exists token :: Stale(s, now, token))
    ensures var call := Entered(s, id, now).calls[id];
            call.Returned? ==> call.waitedFor.None? && RepliedAtOnce(s, now, call.outcome)
    ensures Entered(s, id, now).credentials == s.credentials
  {
    if s.credentials.Some? && s.credentials.value.refreshToken.Some? && Expired(s.credentials.value, now) {
      assert Stale(s, now, s.credentials.value.refreshToken.value);
    }
  }

  lemma {:induction false} ReturnedStays(s: State, events: seq<Event>, id: nat)
    requires Possible(s, events) && id in s.calls
    ensures id in Run(s, events).calls
    ensures s.calls[id].Returned? ==> Run(s, events).calls[id] == s.calls[id]
    ensures !s.calls[id].Returned? && Run(s, events).calls[id].Returned? ==> Run(s, events).calls[id].waitedFor.Some?
    decreases |events|
  {
    if events != [] { ReturnedStays(Step(s, events[0]), events[1..], id); }
  }

  /** Event `i` of the run is the call `id`, replied to at once with this outcome. */
  ghost predicate RepliedBy(s: State, events: seq<Event>, i: int, id: nat, outcome: Outcome) {
    && 0 <= i < |events| && Possible(s, events[..i]) && events[i].Enter? && events[i].id == id
    && RepliedAtOnce(Run(s, events[..i]), events[i].now, outcome)
  }

  lemma RepliedLater(s: State, events: seq<Event>, i: int, id: nat, outcome: Outcome)
    requires events != [] && Enabled(s, events[0]) && RepliedBy(Step(s, events[0]), events[1..], i, id, outcome)
    ensures RepliedBy(s, events, i + 1, id, outcome)
  {
    assert events[..i + 1][0] == events[0] && events[..i + 1][1..] == events[1..][..i];
  }

  /** In every run, a call that returned without waiting returned the credentials the session held
      when it entered, and `MissingSession` exactly when there were none. */
  lemma {:induction false} CallsReturnWhatIsHeld(s: State, events: seq<Event>, id: nat)
    requires Possible(s, events) && id !in s.calls && id in Run(s, events).calls
    requires Run(s, events).calls[id].Returned? && Run(s, events).calls[id].waitedFor.None?
    ensures exists i :: RepliedBy(s, events, i, id, Run(s, events).calls[id].outcome)
    decreases |events|
  {
    var e := events[0];
    var next := Step(s, e);
    if e.Enter? && e.id == id {
      EnteredReplies(s, id, e.now);
      ReturnedStays(next, events[1..], id);
      assert events[..0] == [];
      assert RepliedBy(s, events, 0, id, Run(s, events).calls[id].outcome);
    } else {
      CallsReturnWhatIsHeld(next, events[1..], id);
      var i :| RepliedBy(next, events[1..], i, id, Run(s, events).calls[id].outcome);
      RepliedLater(s, events, i, id, Run(s, events).calls[id].outcome);
    }
  }

  /** What the answer of a refresh does to credentials and storage: success replaces them, a rejected
      token removes them, and any other failure leaves both alone. */
  lemma AnswerEffects(s: State, task: nat, outcome: Outcome)
    requires Enabled(s, Answer(task, outcome))
    ensures var s' := Step(s, Answer(task, outcome));
            (s'.credentials, s'.persisted) ==
              if outcome.Ok? then (Some(outcome.credential), Some(outcome.credential))
              else if outcome.error == BadRequest then (None, None)
              else (s.credentials, s.persisted)
  {}

  // ---------- How long a logout lasts ----------

  ghost predicate WithoutLogin(events: seq<Event>) {
    forall e :: e in events ==> !e.Login?
  }

  /** After a logout in this state no run without a new login brings credentials back. */
  ghost predicate LogoutLasts(s: State) {
    forall events :: Possible(LoggedOut(s), events) && WithoutLogin(events) ==> Run(LoggedOut(s), events).credentials.None?
  }

  /** Logged out, with no refresh that could still store credentials. */
  ghost predicate Quiet(s: State) {
    Inv(s) && s.credentials.None? && (s.refreshTask.None? || Failed(s))
  }

  lemma QuietStep(s: State, e: Event)
    requires Quiet(s) && Enabled(s, e) && !e.Login?
    ensures Quiet(Step(s, e))
  {
    StepKeepsInv(s, e);
    if e.Resume? && s.calls[e.id].Initiated? {
      assert s.refreshTask == Some(s.calls[e.id].task);
    }
  }

  lemma {:induction false} QuietRun(s: State, events: seq<Event>)
    requires Quiet(s) && Possible(s, events) && WithoutLogin(events)
    ensures Run(s, events).credentials.None?
    decreases |events|
  {
    if events != [] {
      assert events[0] in events;
      assert forall e :: e in events[1..] ==> e in events;
      QuietStep(s, events[0]);
      QuietRun(Step(s, events[0]), events[1..]);
    }
  }

  lemma RunOne(s: State, e: Event)
    requires Enabled(s, e)
    ensures Possible(s, [e]) && Run(s, [e]) == Step(s, e)
  {
    var rest := [e][1..];
    assert rest == [] && Possible(Step(s, e), rest) && Run(Step(s, e), rest) == Step(s, e);
  }

  /** The step that brings credentials back when a refresh is pending or was answered well. */
  function Comeback(s: State, t: nat, id: nat, c: Credential): Event
    requires t < |s.tasks|
  {
    if s.tasks[t].Running? then Answer(t, Ok(c)) else Resume(id)
  }

  lemma ComebackRun(s: State, t: nat, id: nat, c: Credential)
    requires Inv(s) && s.refreshTask == Some(t) && !Failed(s) && id in s.calls && s.calls[id] == Initiated(t)
    ensures !LogoutLasts(s)
  {
    var e := Comeback(s, t, id, c);
    RunOne(LoggedOut(s), e);
    assert WithoutLogin([e]);
  }

  /** A logout lasts until the next login if and only if it finds no refresh under way: the slot
      is empty or holds a failed refresh. */
  lemma LogoutLastsExactlyWhen(s: State)
    requires Inv(s)
    ensures LogoutLasts(s) <==> s.refreshTask.None? || Failed(s)
  {
    var out := LoggedOut(s);
    if s.refreshTask.None? || Failed(s) {
      StepKeepsInv(s, Logout);
      forall events | Possible(out, events) && WithoutLogin(events) ensures Run(out, events).credentials.None? {
        QuietRun(out, events);
      }
    } else {
      var t := s.refreshTask.value;
      var id :| id in s.calls && s.calls[id] == Initiated(t);
      ComebackRun(s, t, id, Credential("", None, None));
    }
  }

  /** A logout between the answer of a refresh and the resumption of the call that started it
      is undone: the refreshed credentials are stored a second time. */
  lemma LogoutIsUndone(stale: Credential, renewed: Credential, now: real)
    requires Expired(stale, now) && stale.refreshToken.Some?
    ensures var events := [Enter(0, now), Answer(0, Ok(renewed)), Logout, Resume(0)];
            Possible(Start(Some(stale)), events) && Run(Start(Some(stale)), events).credentials == Some(renewed)
  {
    var s0 := Start(Some(stale));
    var s1 := Step(s0, Enter(0, now));
    var s2 := Step(s1, Answer(0, Ok(renewed)));
    var s3 := Step(s2, Logout);
    var s4 := Step(s3, Resume(0));
    var events := [Enter(0, now), Answer(0, Ok(renewed)), Logout, Resume(0)];
    assert events[1..] == [Answer(0, Ok(renewed)), Logout, Resume(0)];
    assert events[1..][1..] == [Logout, Resume(0)];
    assert events[1..][1..][1..] == [Resume(0)];
    assert events[1..][1..][1..][1..] == [];
    assert Possible(s4, []) && Run(s4, []) == s4;
    assert Possible(s3, [Resume(0)]) && Run(s3, [Resume(0)]) == s4;
    assert Possible(s2, [Logout, Resume(0)]) && Run(s2, [Logout, Resume(0)]) == s4;
    assert Possible(s1, events[1..]) && Run(s1, events[1..]) == s4;
  }

  // ---------- How long a login lasts ----------

  ghost predicate WithoutAccountChange(events: seq<Event>) {
    forall e :: e in events ==> !e.Login? && !e.Logout?
  }

  /** After a login with `c` in this state the session keeps `c` in every run without another login
      or a logout, until it sends a refresh of its own accord. */
  ghost predicate LoginLasts(s: State, c: Credential) {
    forall events :: Possible(Store(s, c), events) && WithoutAccountChange(events)
                     && |Run(Store(s, c), events).tasks| == |s.tasks|
      ==> Run(Store(s, c), events).credentials == Some(c)
  }

  /** The slot holds nothing that could replace `c`. */
  ghost predicate Harmless(s: State, c: Credential) {
    || s.refreshTask.None? || Failed(s)
    || (s.refreshTask.value < |s.tasks| && s.tasks[s.refreshTask.value] == Done(Ok(c)))
  }

  ghost predicate KeepsLogin(s: State, c: Credential) {
    Inv(s) && s.credentials == Some(c) && Harmless(s, c)
  }

  lemma KeepsLoginStep(s: State, c: Credential, e: Event)
    requires KeepsLogin(s, c) && Enabled(s, e) && !e.Login? && !e.Logout? && |Step(s, e).tasks| == |s.tasks|
    ensures KeepsLogin(Step(s, e), c)
  {
    StepKeepsInv(s, e);
    if e.Resume? && s.calls[e.id].Initiated? {
      assert s.refreshTask == Some(s.calls[e.id].task);
    }
  }

  lemma {:induction false} TasksGrow(s: State, events: seq<Event>)
    requires Possible(s, events)
    ensures |Run(s, events).tasks| >= |s.tasks|
    decreases |events|
  {
    if events != [] { TasksGrow(Step(s, events[0]), events[1..]); }
  }

  lemma {:induction false} KeepsLoginRun(s: State, c: Credential, events: seq<Event>)
    requires KeepsLogin(s, c) && Possible(s, events) && WithoutAccountChange(events)
    requires |Run(s, events).tasks| == |s.tasks|
    ensures Run(s, events).credentials == Some(c)
    decreases |events|
  {
    if events != [] {
      assert events[0] in events;
      assert forall e :: e in events[1..] ==> e in events;
      TasksGrow(Step(s, events[0]), events[1..]);
      assert |Step(s, events[0]).tasks| >= |s.tasks|;
      KeepsLoginStep(s, c, events[0]);
      KeepsLoginRun(Step(s, events[0]), c, events[1..]);
    }
  }

  lemma ReplacedLogin(s: State, c: Credential, t: nat, id: nat)
    requires Inv(s) && s.refreshTask == Some(t) && !Harmless(s, c) && id in s.calls && s.calls[id] == Initiated(t)
    ensures !LoginLasts(s, c)
  {
    var e := if s.tasks[t].Running? then Answer(t, Err(BadRequest)) else Resume(id);
    RunOne(Store(s, c), e);
    assert WithoutAccountChange([e]);
  }

  /** A login lasts if and only if it finds no refresh under way: the slot is empty, holds a failed
      refresh, or holds an answer with those very credentials. */
  lemma LoginLastsExactlyWhen(s: State, c: Credential)
    requires Inv(s)
    ensures LoginLasts(s, c) <==> Harmless(s, c)
  {
    var login := Store(s, c);
    if Harmless(s, c) {
      StepKeepsInv(s, Login(c));
      forall events | Possible(login, events) && WithoutAccountChange(events) && |Run(login, events).tasks| == |s.tasks|
        ensures Run(login, events).credentials == Some(c)
      {
        KeepsLoginRun(login, c, events);
      }
    } else {
      var t := s.refreshTask.value;
      var id :| id in s.calls && s.calls[id] == Initiated(t);
      ReplacedLogin(s, c, t, id);
    }
  }

  /** A login while a refresh is in flight is undone when that refresh is rejected. */
  lemma LoginIsUndone(stale: Credential, renewed: Credential, now: real)
    requires Expired(stale, now) && stale.refreshToken.Some?
    ensures var s := Step(Step(Start(Some(stale)), Enter(0, now)), Login(renewed));
            && s.credentials == Some(renewed) && Enabled(s, Answer(0, Err(BadRequest)))
            && Step(s, Answer(0, Err(BadRequest))).credentials.None?
  {}
}

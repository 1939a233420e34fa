/** A live session as a transition system over the three components: guarded pages,
    patched code and the hidden step. The target runs in phase `Running`; in every other
    phase it is frozen and the adapter, or a callback it invoked, is at work. The answers of the system to
    suspensions, resumptions and trap flags are part of the events. */
module LiveProtocol {
  import opened Common
  import opened Target
  import GuardPages
  import Patches
  import opened StepEngine

  datatype Phase =
    | Running
    | Paused
    | PageEvent(thread: Tid, page: int)
    | PatchEvent(thread: Tid, id: nat)
    | Completing(thread: Tid, actions: seq<Action>, next: nat)
    | StepQueued(token: Token)

  /** `ran` lists the user step callbacks in the order they ran; `accepted` those debugStep took; `leaked`
      counts, per thread, the resumes that the system refused. */
  datatype Live = Live(
    engine: Engine,
    guard: GuardPages.Guard,
    code: Patches.Code,
    phase: Phase,
    ran: seq<Token>,
    accepted: set<Token>,
    leaked: multiset<Tid>)

  datatype Event =
    // the target
    | GuardFault(t: Tid, address: int, accessType: nat, hit: Option<nat>)
    | PatchTrap(t: Tid, address: int, patch: nat)
    | HiddenStepTrap(t: Tid)
    | UserStepDone(t: Tid)
    | OtherStop
    | ThreadStarts(t: Tid)
    | ThreadExits(t: Tid)
    // the adapter's handlers
    | EndGuardFault(reply: Reply)
    | EndPatchTrap(reply: Reply)
    | RunAction
    | EndHiddenStep(stuck: set<Tid>)
    | RunUserStep
    | Continue
    // calls from callbacks and from the front end; those that take the pause lock need a frozen target
    | AddWatch(watch: GuardPages.Watch)
    | RemoveWatch(watchId: nat)
    | ReadSpan(range: set<int>)
    | SetPatch(request: Patches.Request)
    | DeletePatch(patchId: nat)
    | RemoveAll
    | RequestUserStep(t: Tid, token: Token, status: Status, systemId: nat)

  ghost predicate Enabled(s: Live, ev: Event) {
    match ev
    case GuardFault(t, address, accessType, hit) =>
      && s.phase.Running? && t in s.engine.threads && PageOf(address) in s.guard.table.pages
      && GuardPages.IsHit(s.guard.watches, address, accessType, hit)
    case PatchTrap(t, address, id) =>
      s.phase.Running? && t in s.engine.threads && Patches.MatchesLive(s.code, id, address) &&
      Patches.Restorable(s.code, id)
    case HiddenStepTrap(t) => s.phase.Running? && t in s.engine.hidden
    case UserStepDone(t) => s.phase.Running? && t !in s.engine.hidden && t in s.engine.steps
    case OtherStop => s.phase.Running?
    case ThreadStarts(t) => s.phase.Paused? && t in s.engine.suspend
    case ThreadExits(t) => s.phase.Paused? && s.engine.hidden == map[] && t in s.engine.threads
    case EndGuardFault(reply) => s.phase.PageEvent?
    case EndPatchTrap(reply) => s.phase.PatchEvent?
    case RunAction =>
      && s.phase.Completing? && s.phase.next < |s.phase.actions|
      && var a := s.phase.actions[s.phase.next];
         (a.RearmPatch? ==> Patches.Rearmable(s.code, a.id))
    case EndHiddenStep(stuck) => s.phase.Completing? && s.phase.next == |s.phase.actions|
    case RunUserStep => s.phase.StepQueued?
    case Continue => s.phase.Paused?
    case AddWatch(w) => !s.phase.Running? && GuardPages.CanAdd(s.guard, w)
    case RemoveWatch(id) => !s.phase.Running? && id in s.guard.watches
    case ReadSpan(range) => !s.phase.Running?
    case SetPatch(r) => Patches.CanSet(s.code, r) && Patches.FitsBeside(s.code, r) && Patches.IsEncoded(r)
    case DeletePatch(id) => id in s.code.live && Patches.Restorable(s.code, id)
    case RemoveAll => !s.phase.Running?
    case RequestUserStep(t, token, status, systemId) =>
      !s.phase.Running? && token !in s.accepted && !status.GoHandled?
  }

  /** The system grants what the hidden step asks for, no thread starts during one, and a thread that exits
      has no user step registered. */
  ghost predicate Granted(s: Live, ev: Event) {
    match ev
    case EndGuardFault(reply) => Grants(s.engine, reply)
    case EndPatchTrap(reply) => Grants(s.engine, reply)
    case ThreadStarts(t) => s.engine.hidden == map[]
    case ThreadExits(t) => t !in s.engine.steps
    case _ => true
  }

  // ---- What each event does to each component ---------------------------

  /** Windows clears the guard before it reports the fault; a one-shot breakpoint goes at once. */
  function FaultedGuard(g: GuardPages.Guard, page: int, hit: Option<nat>): GuardPages.Guard {
    GuardPages.Reported(g.(table := GuardPages.Protect(g.table, page, false)), hit)
  }

  ghost function GuardAfter(s: Live, ev: Event): GuardPages.Guard
    requires Enabled(s, ev)
  {
    match ev
    case GuardFault(t, address, accessType, hit) => FaultedGuard(s.guard, PageOf(address), hit)
    case EndGuardFault(reply) => s.guard.(table := GuardPages.Protect(s.guard.table, s.phase.page, false))
    case RunAction =>
      var a := s.phase.actions[s.phase.next];
      if a.RearmPage? then s.guard.(table := GuardPages.Protect(s.guard.table, a.page, true)) else s.guard
    case AddWatch(w) => GuardPages.Add(s.guard, w)
    case RemoveWatch(id) => GuardPages.Remove(s.guard, id)
    case ReadSpan(range) => s.guard.(table := GuardPages.Reguard(s.guard.table, range))
    case RemoveAll => GuardPages.Cleared(s.guard)
    case _ => s.guard
  }

  ghost function CodeAfter(s: Live, ev: Event): Patches.Code
    requires Enabled(s, ev)
  {
    match ev
    case PatchTrap(t, address, id) => Patches.Fire(s.code, id)
    case RunAction =>
      var a := s.phase.actions[s.phase.next];
      if a.RearmPatch? then Patches.Rearm(s.code, a.id) else s.code
    case SetPatch(r) => Patches.Set(s.code, r)
    case DeletePatch(id) => Patches.Delete(s.code, id)
    case RemoveAll => Patches.Emptied(s.code)
    case _ => s.code
  }

  ghost function EngineAfter(s: Live, ev: Event): Engine
    requires Enabled(s, ev)
  {
    match ev
    case HiddenStepTrap(t) => BeginCompletion(s.engine, t)
    case UserStepDone(t) => FinishStep(s.engine, t)
    case ThreadStarts(t) => Start(s.engine, t)
    case ThreadExits(t) => Exit(s.engine, t)
    case EndGuardFault(reply) =>
      if s.phase.page in s.guard.table.pages
      then Schedule(s.engine, s.phase.thread, RearmPage(s.phase.page), reply) else s.engine
    case EndPatchTrap(reply) =>
      if s.phase.id in s.code.live
      then Schedule(s.engine, s.phase.thread, RearmPatch(s.phase.id), reply) else s.engine
    case EndHiddenStep(stuck) => EndCompletion(s.engine, s.phase.thread, stuck)
    case RequestUserStep(t, token, status, systemId) => RequestStep(s.engine, t, token, status, systemId)
    case _ => s.engine
  }

  /** The threads that this event leaves suspended because ResumeThread was refused. */
  ghost function LeaksOf(s: Live, ev: Event): set<Tid>
    requires Enabled(s, ev)
  {
    match ev
    case EndGuardFault(reply) =>
      if s.phase.page in s.guard.table.pages then LeftBehind(s.engine, s.phase.thread, reply) else {}
    case EndPatchTrap(reply) =>
      if s.phase.id in s.code.live then LeftBehind(s.engine, s.phase.thread, reply) else {}
    case EndHiddenStep(stuck) =>
      if s.phase.thread in s.engine.listed then s.engine.listed[s.phase.thread] * stuck else {}
    case _ => {}
  }

  ghost function PhaseAfter(s: Live, ev: Event): Phase
    requires Enabled(s, ev)
  {
    match ev
    case GuardFault(t, address, accessType, hit) => PageEvent(t, PageOf(address))
    case PatchTrap(t, address, id) => PatchEvent(t, id)
    case HiddenStepTrap(t) => Completing(t, s.engine.hidden[t], 0)
    case UserStepDone(t) => StepQueued(s.engine.steps[t])
    case OtherStop => Paused
    case EndGuardFault(reply) => Paused
    case EndPatchTrap(reply) => Paused
    case RunAction => s.phase.(next := s.phase.next + 1)
    case EndHiddenStep(stuck) => Paused
    case RunUserStep => Paused
    case Continue => Running
    case _ => s.phase
  }

  ghost function RanAfter(s: Live, ev: Event): seq<Token>
    requires Enabled(s, ev)
  {
    match ev
    case RunAction =>
      var a := s.phase.actions[s.phase.next];
      if a.UserStep? then s.ran + [a.token] else s.ran
    case RunUserStep => s.ran + [s.phase.token]
    case _ => s.ran
  }

  ghost function AcceptedAfter(s: Live, ev: Event): set<Token>
    requires Enabled(s, ev)
  {
    match ev
    case RequestUserStep(t, token, status, systemId) =>
      if t in s.engine.steps then s.accepted else s.accepted + {token}
    case _ => s.accepted
  }

  ghost function Next(s: Live, ev: Event): Live
    requires Enabled(s, ev)
  {
    Live(EngineAfter(s, ev), GuardAfter(s, ev), CodeAfter(s, ev), PhaseAfter(s, ev), RanAfter(s, ev),
         AcceptedAfter(s, ev), s.leaked + multiset(LeaksOf(s, ev)))
  }

  ghost predicate CanRun(s: Live, events: seq<Event>)
    decreases |events|
  {
    events == [] || (Enabled(s, events[0]) && CanRun(Next(s, events[0]), events[1..]))
  }

  ghost function Run(s: Live, events: seq<Event>): Live
    requires CanRun(s, events)
    decreases |events|
  {
    if events == [] then s else Run(Next(s, events[0]), events[1..])
  }

  // ---- Invariant --------------------------------------------------------

  function CompletingThread(phase: Phase): set<Tid> {
    if phase.Completing? then {phase.thread} else {}
  }

  ghost predicate InHiddenSteps(hidden: map<Tid, seq<Action>>, a: Action) {
    exists t, i :: t in hidden && 0 <= i < |hidden[t]| && hidden[t][i] == a
  }

  ghost predicate InRest(phase: Phase, a: Action) {
    phase.Completing? && exists i :: phase.next <= i < |phase.actions| && phase.actions[i] == a
  }

  ghost predicate Pending(s: Live, a: Action) {
    InHiddenSteps(s.engine.hidden, a) || InRest(s.phase, a)
  }

  /** A watched page without its guard is the page of the event in hand, or has a re-arm coming. */
  ghost predicate PagesAccounted(s: Live) {
    forall p | GuardPages.Exposed(s.guard.table, p) ::
      (s.phase.PageEvent? && s.phase.page == p) || Pending(s, RearmPage(p))
  }

  /** A live patch that is not written is the patch of the event in hand, or has a re-arm coming. */
  ghost predicate PatchesAccounted(s: Live) {
    forall id | id in s.code.live && id !in s.code.installed ::
      (s.phase.PatchEvent? && s.phase.id == id) || Pending(s, RearmPatch(id))
  }

  ghost predicate PhaseOk(s: Live) {
    && (s.phase.PageEvent? || s.phase.PatchEvent? || s.phase.Completing? ==> s.phase.thread in s.engine.threads)
    && (s.phase.Completing? ==>
          && s.phase.next <= |s.phase.actions|
          && forall i | 0 <= i < |s.phase.actions| && s.phase.actions[i].UserStep? :: i == 1)
  }

  /** The base counts together with the refused resumes. */
  function Plus(counts: map<Tid, nat>, leaked: multiset<Tid>): map<Tid, nat> {
    map u | u in counts :: counts[u] + leaked[u]
  }

  ghost predicate EngineOk(s: Live, counts: map<Tid, nat>) {
    && WellFormed(s.engine, CompletingThread(s.phase))
    && Conserved(s.engine, Plus(counts, s.leaked))
    && s.engine.threads <= counts.Keys
    && PhaseOk(s)
  }

  datatype Place = Registered(t: Tid) | InHiddenStep(t: Tid) | InCompletion | Queued | Ran(i: nat)

  ghost predicate At(s: Live, token: Token, place: Place) {
    match place
    case Registered(t) => t in s.engine.steps && s.engine.steps[t] == token
    case InHiddenStep(t) => t in s.engine.hidden && |s.engine.hidden[t]| > 1 && s.engine.hidden[t][1] == UserStep(token)
    case InCompletion =>
      s.phase.Completing? && s.phase.next <= 1 < |s.phase.actions| && s.phase.actions[1] == UserStep(token)
    case Queued => s.phase == StepQueued(token)
    case Ran(i) => i < |s.ran| && s.ran[i] == token
  }

  /** No step callback is in two places, and only accepted ones are anywhere. */
  ghost predicate TokensUnique(s: Live) {
    && (forall token, p | At(s, token, p) :: token in s.accepted)
    && (forall token, p, q | At(s, token, p) && At(s, token, q) :: p == q)
  }

  /** Every accepted step callback is somewhere. */
  ghost predicate TokensFound(s: Live) {
    forall token | token in s.accepted :: exists place :: At(s, token, place)
  }

  /** What survives every answer of the system. `base`, `logical` and `counts` are the protections, the memory
      and the suspend counts the session started from. */
  ghost predicate Core(s: Live, base: map<int, Protection>, logical: Memory, counts: map<Tid, nat>) {
    && GuardPages.Valid(s.guard, base)
    && Patches.Sound(s.code, logical) && Patches.Encoded(s.code)
    && EngineOk(s, counts)
    && TokensUnique(s)
  }

  /** What also holds as long as the system grants everything. */
  ghost predicate Sheltered(s: Live) {
    && Isolated(s.engine)
    && PagesAccounted(s)
    && PatchesAccounted(s)
    && TokensFound(s)
    && StatusesNamed(s.engine)
  }

  function Initial(threads: set<Tid>, base: map<int, Protection>, logical: Memory, counts: map<Tid, nat>): Live {
    Live(Engine(threads, map[], map[], map[], map[], map[], counts, {}),
         GuardPages.Guard(map[], 1, GuardPages.Table(map[], base)),
         Patches.Code(map[], {}, 0x8000_0000, {}, logical),
         Paused, [], {}, multiset{})
  }

  // ---- Every event keeps the invariant ----------------------------------

  lemma InitialGuard(base: map<int, Protection>)
    requires forall p | p in base :: !base[p].guarded
    ensures GuardPages.Valid(GuardPages.Guard(map[], 1, GuardPages.Table(map[], base)), base)
  {
  }

  lemma InitialEngine(threads: set<Tid>, counts: map<Tid, nat>)
    ensures var e := Engine(threads, map[], map[], map[], map[], map[], counts, {});
      WellFormed(e, {}) && Conserved(e, counts) && Isolated(e)
  {
  }

  lemma InitialTokens(s: Live)
    requires s.engine.steps == map[] && s.engine.hidden == map[] && s.phase.Paused? && s.ran == [] && s.accepted == {}
    ensures TokensUnique(s) && TokensFound(s)
  {
  }

  lemma NothingLeaked(counts: map<Tid, nat>)
    ensures Plus(counts, multiset{}) == counts
  {
  }

  lemma InitialInv(threads: set<Tid>, base: map<int, Protection>, logical: Memory, counts: map<Tid, nat>)
    requires threads <= counts.Keys && forall p | p in base :: !base[p].guarded
    ensures Core(Initial(threads, base, logical, counts), base, logical, counts)
    ensures Sheltered(Initial(threads, base, logical, counts))
  {
    var s := Initial(threads, base, logical, counts);
    InitialGuard(base);
    InitialEngine(threads, counts);
    NothingLeaked(counts);
    assert Patches.Sound(s.code, logical);
    InitialTokens(s);
  }

  lemma GuardKept(s: Live, ev: Event, base: map<int, Protection>)
    requires GuardPages.Valid(s.guard, base) && Enabled(s, ev)
    ensures GuardPages.Valid(GuardAfter(s, ev), base)
  {
    match ev {
      case GuardFault(t, address, accessType, hit) =>
        var page := PageOf(address);
        GuardPages.ProtectKeepsValid(s.guard, page, false, base);
        var cleared := s.guard.(table := GuardPages.Protect(s.guard.table, page, false));
        if hit.Some? {
          GuardPages.RemoveKeepsValid(cleared, hit.value, base);
        }
      case EndGuardFault(reply) => GuardPages.ProtectKeepsValid(s.guard, s.phase.page, false, base);
      case RunAction =>
        var a := s.phase.actions[s.phase.next];
        if a.RearmPage? {
          GuardPages.ProtectKeepsValid(s.guard, a.page, true, base);
        }
      case AddWatch(w) => GuardPages.AddKeepsValid(s.guard, w, base);
      case RemoveWatch(id) => GuardPages.RemoveKeepsValid(s.guard, id, base);
      case ReadSpan(range) => GuardPages.ReguardKeepsValid(s.guard, range, base);
      case RemoveAll => GuardPages.ClearedIsBase(s.guard, base);
      case _ =>
    }
  }

  lemma CodeKept(s: Live, ev: Event, logical: Memory)
    requires Patches.Sound(s.code, logical) && Patches.Encoded(s.code) && Enabled(s, ev)
    ensures Patches.Sound(CodeAfter(s, ev), logical) && Patches.Encoded(CodeAfter(s, ev))
  {
    match ev {
      case PatchTrap(t, address, id) => Patches.FireKeepsSound(s.code, id, logical);
      case RunAction =>
        var a := s.phase.actions[s.phase.next];
        if a.RearmPatch? {
          Patches.RearmKeepsSound(s.code, a.id, logical);
        }
      case SetPatch(r) => Patches.SetKeepsSound(s.code, r, logical);
      case DeletePatch(id) => Patches.DeleteKeepsSound(s.code, id, logical);
      case RemoveAll => Patches.EmptiedIsLogical(s.code, logical);
      case _ =>
    }
  }

  lemma PhaseKept(s: Live, ev: Event)
    requires PhaseOk(s) && s.engine.hidden.Keys <= s.engine.threads && UserStepsSecond(s.engine.hidden)
    requires Enabled(s, ev)
    ensures PhaseOk(Next(s, ev))
  {
  }

  lemma PlusMore(counts: map<Tid, nat>, leaked: multiset<Tid>, more: set<Tid>)
    ensures Suspended(Plus(counts, leaked), more) == Plus(counts, leaked + multiset(more))
  {
  }

  lemma ScheduledKept(e: Engine, counts: map<Tid, nat>, t: Tid, action: Action, reply: Reply)
    requires WellFormed(e, {}) && Conserved(e, counts) && !action.UserStep?
    ensures WellFormed(Schedule(e, t, action, reply), {})
    ensures Conserved(Schedule(e, t, action, reply), Suspended(counts, LeftBehind(e, t, reply)))
    ensures Schedule(e, t, action, reply).threads == e.threads
    ensures Isolated(e) && Grants(e, reply) ==> Isolated(Schedule(e, t, action, reply))
  {
    ScheduleKeepsForm(e, t, action, reply);
    ScheduleKeepsCounts(e, counts, t, action, reply);
  }

  /** The engine part of an event, with the refused resumes added to the base counts. */
  ghost predicate EngineStepOk(s: Live, ev: Event, counts: map<Tid, nat>)
    requires Enabled(s, ev)
  {
    var e := EngineAfter(s, ev);
    && WellFormed(e, CompletingThread(PhaseAfter(s, ev)))
    && Conserved(e, Suspended(counts, LeaksOf(s, ev)))
    && e.threads <= counts.Keys
    && (Isolated(s.engine) && Granted(s, ev) ==> Isolated(e))
  }

  ghost predicate EngineReady(s: Live, counts: map<Tid, nat>) {
    && WellFormed(s.engine, CompletingThread(s.phase)) && Conserved(s.engine, counts)
    && s.engine.threads <= counts.Keys
  }

  lemma ScheduleEventKept(s: Live, ev: Event, counts: map<Tid, nat>)
    requires EngineReady(s, counts) && Enabled(s, ev) && (ev.EndGuardFault? || ev.EndPatchTrap?)
    ensures EngineStepOk(s, ev, counts)
  {
    ResumeUndoesSuspend(counts, {}, {});
    if ev.EndGuardFault? && s.phase.page in s.guard.table.pages {
      ScheduledKept(s.engine, counts, s.phase.thread, RearmPage(s.phase.page), ev.reply);
    } else if ev.EndPatchTrap? && s.phase.id in s.code.live {
      ScheduledKept(s.engine, counts, s.phase.thread, RearmPatch(s.phase.id), ev.reply);
    }
  }

  lemma CompletionEventKept(s: Live, ev: Event, counts: map<Tid, nat>)
    requires EngineReady(s, counts) && Enabled(s, ev) && (ev.HiddenStepTrap? || ev.EndHiddenStep?)
    ensures EngineStepOk(s, ev, counts)
  {
    ResumeUndoesSuspend(counts, {}, {});
    if ev.HiddenStepTrap? {
      BeginKeepsForm(s.engine, counts, ev.t);
    } else {
      EndKeepsCounts(s.engine, counts, s.phase.thread, ev.stuck);
      EndKeepsForm(s.engine, s.phase.thread, ev.stuck);
    }
  }

  lemma ThreadEventKept(s: Live, ev: Event, counts: map<Tid, nat>)
    requires EngineReady(s, counts) && Enabled(s, ev) && (ev.ThreadStarts? || ev.ThreadExits?)
    ensures EngineStepOk(s, ev, counts)
  {
    ResumeUndoesSuspend(counts, {}, {});
    assert s.engine.listed.Keys == s.engine.hidden.Keys;
    if ev.ThreadStarts? {
      StartKeepsForm(s.engine, counts, ev.t);
    } else {
      ExitKeepsForm(s.engine, counts, ev.t);
    }
  }

  lemma UserStepEventKept(s: Live, ev: Event, counts: map<Tid, nat>)
    requires EngineReady(s, counts) && Enabled(s, ev) && (ev.UserStepDone? || ev.RequestUserStep?)
    ensures EngineStepOk(s, ev, counts)
  {
    ResumeUndoesSuspend(counts, {}, {});
    if ev.UserStepDone? {
      FinishKeepsForm(s.engine, counts, ev.t);
    } else {
      RequestKeepsForm(s.engine, counts, CompletingThread(s.phase), ev.t, ev.token, ev.status, ev.systemId);
    }
  }

  /** The events that leave the engine alone. */
  predicate LeavesEngine(ev: Event) {
    && !ev.EndGuardFault? && !ev.EndPatchTrap? && !ev.HiddenStepTrap? && !ev.EndHiddenStep?
    && !ev.ThreadStarts? && !ev.ThreadExits? && !ev.UserStepDone? && !ev.RequestUserStep?
  }

  lemma EngineIsLeft(s: Live, ev: Event)
    requires Enabled(s, ev) && LeavesEngine(ev)
    ensures EngineAfter(s, ev) == s.engine && LeaksOf(s, ev) == {}
    ensures CompletingThread(PhaseAfter(s, ev)) == CompletingThread(s.phase)
  {
  }

  lemma OtherEventKept(s: Live, ev: Event, counts: map<Tid, nat>)
    requires EngineReady(s, counts) && Enabled(s, ev) && LeavesEngine(ev)
    ensures EngineStepOk(s, ev, counts)
  {
    ResumeUndoesSuspend(counts, {}, {});
    EngineIsLeft(s, ev);
  }

  lemma EngineStepKept(s: Live, ev: Event, counts: map<Tid, nat>)
    requires EngineReady(s, counts) && Enabled(s, ev)
    ensures EngineStepOk(s, ev, counts)
  {
    if LeavesEngine(ev) {
      OtherEventKept(s, ev, counts);
    } else if ev.EndGuardFault? || ev.EndPatchTrap? {
      ScheduleEventKept(s, ev, counts);
    } else if ev.HiddenStepTrap? || ev.EndHiddenStep? {
      CompletionEventKept(s, ev, counts);
    } else if ev.ThreadStarts? || ev.ThreadExits? {
      ThreadEventKept(s, ev, counts);
    } else {
      UserStepEventKept(s, ev, counts);
    }
  }

  lemma EngineKept(s: Live, ev: Event, counts: map<Tid, nat>)
    requires EngineOk(s, counts) && Enabled(s, ev)
    ensures EngineOk(Next(s, ev), counts)
    ensures Isolated(s.engine) && Granted(s, ev) ==> Isolated(EngineAfter(s, ev))
  {
    PhaseKept(s, ev);
    EngineStepKept(s, ev, Plus(counts, s.leaked));
    PlusMore(counts, s.leaked, LeaksOf(s, ev));
  }

  /** A granted schedule adds its own action. */
  lemma ScheduledIsPending(e: Engine, t: Tid, action: Action, reply: Reply)
    requires t in e.threads && Grants(e, reply)
    ensures InHiddenSteps(Schedule(e, t, action, reply).hidden, action)
  {
    ScheduleKeepsActionIff(e, t, action, reply);
    assert HasAction(Schedule(e, t, action, reply), t, action);
  }

  /** No schedule forgets an action. */
  lemma ScheduledKeepsPending(e: Engine, t: Tid, action: Action, reply: Reply, a: Action)
    requires InHiddenSteps(e.hidden, a)
    ensures InHiddenSteps(Schedule(e, t, action, reply).hidden, a)
  {
    var u, i :| u in e.hidden && 0 <= i < |e.hidden[u]| && e.hidden[u][i] == a;
    ScheduleKeepsQueue(e, t, action, reply, u);
    assert Schedule(e, t, action, reply).hidden[u][i] == a;
  }

  lemma TrapKeepsPending(s: Live, t: Tid, a: Action)
    requires Enabled(s, HiddenStepTrap(t)) && InHiddenSteps(s.engine.hidden, a)
    ensures Pending(Next(s, HiddenStepTrap(t)), a)
  {
    var s' := Next(s, HiddenStepTrap(t));
    var u, i :| u in s.engine.hidden && 0 <= i < |s.engine.hidden[u]| && s.engine.hidden[u][i] == a;
    if u == t {
      assert s'.phase.actions[i] == a;
    } else {
      assert s'.engine.hidden[u][i] == a;
    }
  }

  /** A pending action stays pending until it is the one that runs. */
  lemma PendingKept(s: Live, ev: Event, a: Action)
    requires PhaseOk(s) && Enabled(s, ev) && Pending(s, a)
    ensures Pending(Next(s, ev), a) || (ev.RunAction? && s.phase.actions[s.phase.next] == a)
  {
    match ev {
      case HiddenStepTrap(t) => TrapKeepsPending(s, t, a);
      case EndGuardFault(reply) =>
        ScheduledKeepsPending(s.engine, s.phase.thread, RearmPage(s.phase.page), reply, a);
      case EndPatchTrap(reply) =>
        ScheduledKeepsPending(s.engine, s.phase.thread, RearmPatch(s.phase.id), reply, a);
      case _ =>
    }
  }

  lemma PagesKept(s: Live, ev: Event, base: map<int, Protection>)
    requires GuardPages.Valid(s.guard, base) && PhaseOk(s) && PagesAccounted(s) && Enabled(s, ev) && Granted(s, ev)
    ensures PagesAccounted(Next(s, ev))
  {
    var s' := Next(s, ev);
    forall p | GuardPages.Exposed(s'.guard.table, p)
      ensures (s'.phase.PageEvent? && s'.phase.page == p) || Pending(s', RearmPage(p))
    {
      ExposedBefore(s, ev, base, p);
      if ev.EndGuardFault? && s.phase.page == p {
        ScheduledIsPending(s.engine, s.phase.thread, RearmPage(p), ev.reply);
      } else if !(ev.GuardFault? && PageOf(ev.address) == p) && Pending(s, RearmPage(p)) {
        PendingKept(s, ev, RearmPage(p));
      }
    }
  }

  /** Only the page of a fault becomes exposed, and running a page's re-arm covers it. */
  lemma ExposedBefore(s: Live, ev: Event, base: map<int, Protection>, p: int)
    requires GuardPages.Valid(s.guard, base) && Enabled(s, ev)
    requires GuardPages.Exposed(GuardAfter(s, ev).table, p)
    ensures p in s.guard.table.pages
    ensures GuardPages.Exposed(s.guard.table, p) || (ev.GuardFault? && PageOf(ev.address) == p) ||
            (ev.EndGuardFault? && s.phase.page == p)
    ensures ev.RunAction? ==> s.phase.actions[s.phase.next] != RearmPage(p)
  {
  }

  lemma PatchesKept(s: Live, ev: Event)
    requires PhaseOk(s) && PatchesAccounted(s) && Enabled(s, ev) && Granted(s, ev)
    ensures PatchesAccounted(Next(s, ev))
  {
    var s' := Next(s, ev);
    forall id | id in s'.code.live && id !in s'.code.installed
      ensures (s'.phase.PatchEvent? && s'.phase.id == id) || Pending(s', RearmPatch(id))
    {
      if ev.EndPatchTrap? && s.phase.id == id {
        ScheduledIsPending(s.engine, s.phase.thread, RearmPatch(id), ev.reply);
      } else if !(ev.PatchTrap? && ev.patch == id) && Pending(s, RearmPatch(id)) {
        PendingKept(s, ev, RearmPatch(id));
      }
    }
  }

  // ---- User step callbacks ----------------------------------------------

  /** From `s` to `s'` only `token` moved, to `place`. */
  ghost predicate Moved(s: Live, s': Live, token: Token, place: Place) {
    && s'.accepted == s.accepted + {token}
    && forall k, p :: At(s', k, p) <==> (k == token && p == place) || (k != token && At(s, k, p))
  }

  ghost predicate Unmoved(s: Live, s': Live) {
    s'.accepted == s.accepted && forall k, p :: At(s', k, p) <==> At(s, k, p)
  }

  /** Nothing moved, but something may have been dropped. */
  ghost predicate Fewer(s: Live, s': Live) {
    s'.accepted == s.accepted && forall k, p | At(s', k, p) :: At(s, k, p)
  }

  /** The callbacks stay unique, and are all found again if they were and nothing is refused. */
  ghost predicate PlacesKept(s: Live, s': Live, granted: bool) {
    TokensUnique(s') && (TokensFound(s) && granted ==> TokensFound(s'))
  }

  lemma MovedKeepsPlaced(s: Live, s': Live, token: Token, place: Place)
    requires TokensUnique(s) && Moved(s, s', token, place)
    ensures PlacesKept(s, s', true)
  {
    if TokensFound(s) {
      forall k | k in s'.accepted ensures exists p :: At(s', k, p) {
        if k == token {
          assert At(s', k, place);
        } else {
          var p :| At(s, k, p);
          assert At(s', k, p);
        }
      }
    }
  }

  lemma UnmovedKeepsPlaced(s: Live, s': Live)
    requires TokensUnique(s) && Unmoved(s, s')
    ensures PlacesKept(s, s', true)
  {
    if TokensFound(s) {
      forall k | k in s'.accepted ensures exists p :: At(s', k, p) {
        var p :| At(s, k, p);
        assert At(s', k, p);
      }
    }
  }

  lemma FewerKeepsUnique(s: Live, s': Live)
    requires TokensUnique(s) && Fewer(s, s')
    ensures TokensUnique(s')
  {
  }

  /** Scheduling moves the thread's registered step behind the new action, forgets it when the trap flag
      is refused, or moves nothing. */
  lemma ScheduledPlaces(s: Live, s': Live, t: Tid, action: Action, reply: Reply)
    requires t in s.engine.threads && !action.UserStep?
    requires s'.engine == Schedule(s.engine, t, action, reply)
    requires !s.phase.Completing? && !s.phase.StepQueued? && s'.phase == Paused
    requires s'.ran == s.ran && s'.accepted == s.accepted && TokensUnique(s)
    ensures PlacesKept(s, s', Grants(s.engine, reply))
  {
    if reply.Reply? && t !in s.engine.hidden && t in s.engine.steps {
      var k := s.engine.steps[t];
      assert At(s, k, Registered(t));
      if reply.flagSet {
        assert s'.engine.hidden[t] == [action, UserStep(k)];
        forall j, p
          ensures At(s', j, p) <==> (j == k && p == InHiddenStep(t)) || (j != k && At(s, j, p))
        {
          if At(s, k, p) {
            assert p == Registered(t);
          }
        }
        assert s.accepted + {k} == s.accepted;
        MovedKeepsPlaced(s, s', k, InHiddenStep(t));
      } else {
        FewerKeepsUnique(s, s');
      }
    } else {
      ScheduledMovesNothing(s, s', t, action, reply);
      UnmovedKeepsPlaced(s, s');
    }
  }

  lemma ScheduledMovesNothing(s: Live, s': Live, t: Tid, action: Action, reply: Reply)
    requires !action.UserStep? && s'.engine == Schedule(s.engine, t, action, reply)
    requires reply.NoThread? || t in s.engine.hidden || t !in s.engine.steps
    requires !s.phase.Completing? && !s.phase.StepQueued? && s'.phase == Paused
    requires s'.ran == s.ran && s'.accepted == s.accepted
    ensures Unmoved(s, s')
  {
  }

  lemma TrapPlaces(s: Live, t: Tid)
    requires TokensUnique(s) && PhaseOk(s) && Enabled(s, HiddenStepTrap(t))
    ensures PlacesKept(s, Next(s, HiddenStepTrap(t)), true)
  {
    var s' := Next(s, HiddenStepTrap(t));
    if |s.engine.hidden[t]| > 1 && s.engine.hidden[t][1].UserStep? {
      var k := s.engine.hidden[t][1].token;
      assert At(s, k, InHiddenStep(t));
      forall j, p ensures At(s', j, p) <==> (j == k && p == InCompletion) || (j != k && At(s, j, p)) {
        if At(s, k, p) {
          assert p == InHiddenStep(t);
        }
      }
      assert s.accepted + {k} == s.accepted;
      MovedKeepsPlaced(s, s', k, InCompletion);
    } else {
      UnmovedKeepsPlaced(s, s');
    }
  }

  lemma ActionPlaces(s: Live)
    requires TokensUnique(s) && PhaseOk(s) && Enabled(s, RunAction)
    ensures PlacesKept(s, Next(s, RunAction), true)
  {
    var s' := Next(s, RunAction);
    var a := s.phase.actions[s.phase.next];
    if a.UserStep? {
      RanOnePlace(s, s', a.token, InCompletion);
    } else {
      UnmovedKeepsPlaced(s, s');
    }
  }

  lemma RanOnePlace(s: Live, s': Live, k: Token, from: Place)
    requires TokensUnique(s) && At(s, k, from) && !from.Ran?
    requires s'.ran == s.ran + [k] && s'.accepted == s.accepted && s'.engine == s.engine
    requires from == (if s.phase.StepQueued? then Queued else InCompletion)
    requires !s'.phase.StepQueued? && !At(s', k, InCompletion)
    requires s'.phase.Completing? ==> forall j :: !At(s', j, InCompletion)
    ensures PlacesKept(s, s', true)
  {
    forall j, p ensures At(s', j, p) <==> (j == k && p == Ran(|s.ran|)) || (j != k && At(s, j, p)) {
      if At(s, k, p) {
        assert p == from;
      }
      if p.Ran? && p.i < |s.ran| {
        assert At(s', j, p) <==> At(s, j, p);
      }
    }
    assert s.accepted + {k} == s.accepted;
    MovedKeepsPlaced(s, s', k, Ran(|s.ran|));
  }

  lemma TokensKept(s: Live, ev: Event)
    requires TokensUnique(s) && PhaseOk(s) && Enabled(s, ev)
    ensures PlacesKept(s, Next(s, ev), Granted(s, ev))
  {
    var s' := Next(s, ev);
    match ev {
      case EndGuardFault(reply) => HandlerPlaces(s, ev);
      case EndPatchTrap(reply) => HandlerPlaces(s, ev);
      case HiddenStepTrap(t) => TrapPlaces(s, t);
      case RunAction => ActionPlaces(s);
      case UserStepDone(t) => DonePlaces(s, t);
      case RunUserStep => RanOnePlace(s, s', s.phase.token, Queued);
      case ThreadExits(t) => ExitPlaces(s, t);
      case RequestUserStep(t, token, status, systemId) => RequestPlaces(s, t, token, status, systemId);
      case _ => UnmovedKeepsPlaced(s, s');
    }
  }

  lemma HandlerPlaces(s: Live, ev: Event)
    requires TokensUnique(s) && PhaseOk(s) && Enabled(s, ev) && (ev.EndGuardFault? || ev.EndPatchTrap?)
    ensures PlacesKept(s, Next(s, ev), Granted(s, ev))
  {
    var s' := Next(s, ev);
    if ev.EndGuardFault? && s.phase.page in s.guard.table.pages {
      ScheduledPlaces(s, s', s.phase.thread, RearmPage(s.phase.page), ev.reply);
    } else if ev.EndPatchTrap? && s.phase.id in s.code.live {
      ScheduledPlaces(s, s', s.phase.thread, RearmPatch(s.phase.id), ev.reply);
    } else {
      UnmovedKeepsPlaced(s, s');
    }
  }

  lemma ExitPlaces(s: Live, t: Tid)
    requires TokensUnique(s) && Enabled(s, ThreadExits(t))
    ensures PlacesKept(s, Next(s, ThreadExits(t)), t !in s.engine.steps)
  {
    var s' := Next(s, ThreadExits(t));
    FewerKeepsUnique(s, s');
    if t !in s.engine.steps {
      UnmovedKeepsPlaced(s, s');
    }
  }

  lemma RequestPlaces(s: Live, t: Tid, token: Token, status: Status, systemId: nat)
    requires TokensUnique(s) && Enabled(s, RequestUserStep(t, token, status, systemId))
    ensures PlacesKept(s, Next(s, RequestUserStep(t, token, status, systemId)), true)
  {
    var s' := Next(s, RequestUserStep(t, token, status, systemId));
    if t in s.engine.steps {
      UnmovedKeepsPlaced(s, s');
    } else {
      forall j, p ensures At(s', j, p) <==> (j == token && p == Registered(t)) || (j != token && At(s, j, p)) {
        assert !At(s, token, p);
      }
      MovedKeepsPlaced(s, s', token, Registered(t));
    }
  }

  lemma DonePlaces(s: Live, t: Tid)
    requires TokensUnique(s) && Enabled(s, UserStepDone(t))
    ensures PlacesKept(s, Next(s, UserStepDone(t)), true)
  {
    var s' := Next(s, UserStepDone(t));
    var k := s.engine.steps[t];
    assert At(s, k, Registered(t));
    forall j, p ensures At(s', j, p) <==> (j == k && p == Queued) || (j != k && At(s, j, p)) {
      if At(s, k, p) {
        assert p == Registered(t);
      }
    }
    assert s.accepted + {k} == s.accepted;
    MovedKeepsPlaced(s, s', k, Queued);
  }

  lemma StatusesKept(s: Live, ev: Event)
    requires StatusesNamed(s.engine) && PhaseOk(s) && Enabled(s, ev) && Granted(s, ev)
    ensures StatusesNamed(EngineAfter(s, ev))
  {
    match ev {
      case EndGuardFault(reply) =>
        ScheduleLeavesNoStaleStatusIff(s.engine, s.phase.thread, RearmPage(s.phase.page), reply);
      case EndPatchTrap(reply) =>
        ScheduleLeavesNoStaleStatusIff(s.engine, s.phase.thread, RearmPatch(s.phase.id), reply);
      case _ =>
    }
  }

  // ---- Whole runs -------------------------------------------------------

  lemma ShelterKept(s: Live, ev: Event, base: map<int, Protection>)
    requires GuardPages.Valid(s.guard, base) && PhaseOk(s) && Sheltered(s) && Enabled(s, ev) && Granted(s, ev)
    ensures PagesAccounted(Next(s, ev)) && PatchesAccounted(Next(s, ev)) && StatusesNamed(Next(s, ev).engine)
  {
    PagesKept(s, ev, base);
    PatchesKept(s, ev);
    StatusesKept(s, ev);
  }

  lemma CoreKept(s: Live, ev: Event, base: map<int, Protection>, logical: Memory, counts: map<Tid, nat>)
    requires Core(s, base, logical, counts) && Enabled(s, ev)
    ensures Core(Next(s, ev), base, logical, counts)
    ensures Sheltered(s) && Granted(s, ev) ==> Sheltered(Next(s, ev))
  {
    GuardKept(s, ev, base);
    CodeKept(s, ev, logical);
    EngineKept(s, ev, counts);
    TokensKept(s, ev);
    if Sheltered(s) && Granted(s, ev) {
      ShelterKept(s, ev, base);
    }
  }

  /** The system grants everything, at every event of the run. */
  ghost predicate AllGranted(s: Live, events: seq<Event>)
    requires CanRun(s, events)
    decreases |events|
  {
    events == [] || (Granted(s, events[0]) && AllGranted(Next(s, events[0]), events[1..]))
  }

  /** The core holds after every run of target events, handlers and calls, whatever is refused on the way; the
      shelter too when nothing is. */
  lemma {:induction false} RunKeepsCore(s: Live, events: seq<Event>,
                                        base: map<int, Protection>, logical: Memory, counts: map<Tid, nat>)
    requires Core(s, base, logical, counts) && CanRun(s, events)
    ensures Core(Run(s, events), base, logical, counts)
    ensures Sheltered(s) && AllGranted(s, events) ==> Sheltered(Run(s, events))
    decreases |events|
  {
    if events != [] {
      CoreKept(s, events[0], base, logical, counts);
      RunKeepsCore(Next(s, events[0]), events[1..], base, logical, counts);
    }
  }

  /** Every request for a user step that is not refused names a thread without a pending hidden step. */
  ghost predicate PromptRequests(s: Live, events: seq<Event>)
    requires CanRun(s, events)
    decreases |events|
  {
    events == [] ||
    ((events[0].RequestUserStep? ==> events[0].t in s.engine.steps || events[0].t !in s.engine.hidden) &&
     PromptRequests(Next(s, events[0]), events[1..]))
  }

  lemma StrandsNone(s: Live, ev: Event)
    requires NoneStranded(s.engine) && Enabled(s, ev)
    requires ev.RequestUserStep? ==> ev.t in s.engine.steps || ev.t !in s.engine.hidden
    ensures NoneStranded(EngineAfter(s, ev))
  {
    match ev {
      case EndGuardFault(reply) => ScheduleStrandsNone(s.engine, s.phase.thread, RearmPage(s.phase.page), reply);
      case EndPatchTrap(reply) => ScheduleStrandsNone(s.engine, s.phase.thread, RearmPatch(s.phase.id), reply);
      case HiddenStepTrap(t) => CompletionStrandsNone(s.engine, t, {});
      case EndHiddenStep(stuck) => CompletionStrandsNone(s.engine, s.phase.thread, stuck);
      case UserStepDone(t) => CompletionStrandsNone(s.engine, t, {});
      case ThreadStarts(t) => CompletionStrandsNone(s.engine, t, {});
      case ThreadExits(t) => CompletionStrandsNone(s.engine, t, {});
      case RequestUserStep(t, token, status, systemId) =>
        if t !in s.engine.steps {
          RequestStrandsNoneIff(s.engine, t, token, status, systemId);
        }
      case _ =>
    }
  }

  /** In a run whose requests are prompt every registered user step keeps the status that makes it happen,
      whatever the system refuses. */
  lemma {:induction false} PromptRunsStrandNone(s: Live, events: seq<Event>)
    requires NoneStranded(s.engine) && CanRun(s, events) && PromptRequests(s, events)
    ensures NoneStranded(Run(s, events).engine)
    decreases |events|
  {
    if events != [] {
      StrandsNone(s, events[0]);
      PromptRunsStrandNone(Next(s, events[0]), events[1..]);
    }
  }

  // ---- What the invariant gives -----------------------------------------

  /** A session: the threads, the protections, the memory and the suspend counts it starts from. */
  datatype Origin = Origin(threads: set<Tid>, base: map<int, Protection>, logical: Memory, counts: map<Tid, nat>)

  ghost predicate IsOrigin(o: Origin) {
    o.threads <= o.counts.Keys && forall p | p in o.base :: !o.base[p].guarded
  }

  function First(o: Origin): Live {
    Initial(o.threads, o.base, o.logical, o.counts)
  }

  /** Some run leads from the origin to `s`. */
  ghost predicate Reachable(s: Live, o: Origin) {
    IsOrigin(o) && exists events :: CanRun(First(o), events) && Run(First(o), events) == s
  }

  /** Some run in which the system grants everything leads from the origin to `s`. */
  ghost predicate GrantedReachable(s: Live, o: Origin) {
    IsOrigin(o) &&
    exists events :: CanRun(First(o), events) && AllGranted(First(o), events) && Run(First(o), events) == s
  }

  lemma ReachableCore(s: Live, o: Origin)
    requires Reachable(s, o)
    ensures Core(s, o.base, o.logical, o.counts)
  {
    var events :| CanRun(First(o), events) && Run(First(o), events) == s;
    InitialInv(o.threads, o.base, o.logical, o.counts);
    RunKeepsCore(First(o), events, o.base, o.logical, o.counts);
  }

  lemma GrantedReachableSheltered(s: Live, o: Origin)
    requires GrantedReachable(s, o)
    ensures Reachable(s, o) && Core(s, o.base, o.logical, o.counts) && Sheltered(s)
  {
    var events :| CanRun(First(o), events) && AllGranted(First(o), events) && Run(First(o), events) == s;
    InitialInv(o.threads, o.base, o.logical, o.counts);
    RunKeepsCore(First(o), events, o.base, o.logical, o.counts);
  }

  predicate IsSuspended(s: Live, u: Tid) {
    u in s.engine.suspend && s.engine.suspend[u] > 0
  }

  /** The target is running and this thread may execute an instruction of its own. */
  predicate CanExecute(s: Live, t: Tid) {
    s.phase.Running? && t in s.engine.threads && !IsSuspended(s, t) && t !in s.engine.hidden
  }

  /** Thread `t` has a pending hidden step that will perform `a`, and it is alone. */
  ghost predicate HeldOpenBy(s: Live, a: Action, t: Tid) {
    && t in s.engine.hidden
    && (exists i :: 0 <= i < |s.engine.hidden[t]| && s.engine.hidden[t][i] == a)
    && (forall u | u in s.engine.threads && u != t :: IsSuspended(s, u))
  }

  lemma ListedAreSuspended(s: Live, counts: map<Tid, nat>, t: Tid)
    requires EngineOk(s, counts) && Isolated(s.engine) && t in s.engine.listed
    ensures forall u | u in s.engine.threads && u != t :: IsSuspended(s, u)
  {
    forall u | u in s.engine.threads && u != t ensures IsSuspended(s, u) {
      assert t in Holders(s.engine, u);
      HeldThreadsAreSuspended(s.engine, Plus(counts, s.leaked), u);
    }
  }

  lemma PendingIsIsolated(s: Live, counts: map<Tid, nat>, a: Action)
    requires EngineOk(s, counts) && Isolated(s.engine) && InHiddenSteps(s.engine.hidden, a)
    ensures exists t :: HeldOpenBy(s, a, t)
  {
    var t, i :| t in s.engine.hidden && 0 <= i < |s.engine.hidden[t]| && s.engine.hidden[t][i] == a;
    ListedAreSuspended(s, counts, t);
    assert HeldOpenBy(s, a, t);
  }

  /** While the target runs, a watched page is without its guard only under a pending hidden step that
      will guard it again, and every other thread is then suspended. */
  lemma ExposedPageIsIsolated(s: Live, o: Origin, p: int)
    requires GrantedReachable(s, o) && s.phase.Running? && GuardPages.Exposed(s.guard.table, p)
    ensures exists t :: HeldOpenBy(s, RearmPage(p), t)
  {
    GrantedReachableSheltered(s, o);
    PendingIsIsolated(s, o.counts, RearmPage(p));
  }

  /** Likewise a live patch is missing from memory only under a pending hidden step that will write it. */
  lemma MissingPatchIsIsolated(s: Live, o: Origin, id: nat)
    requires GrantedReachable(s, o) && s.phase.Running? && id in s.code.live && id !in s.code.installed
    ensures exists t :: HeldOpenBy(s, RearmPatch(id), t)
  {
    GrantedReachableSheltered(s, o);
    PendingIsIsolated(s, o.counts, RearmPatch(id));
  }

  /** No access escapes: a thread that can execute and is not inside its own hidden step
      finds every watched page guarded, so touching one faults. */
  lemma ExecutingThreadSeesGuards(s: Live, o: Origin, t: Tid, p: int)
    requires GrantedReachable(s, o) && CanExecute(s, t) && p in s.guard.table.pages
    ensures p in s.guard.table.protection && s.guard.table.protection[p].guarded
  {
    GrantedReachableSheltered(s, o);
    if GuardPages.Exposed(s.guard.table, p) {
      ExposedPageIsIsolated(s, o, p);
    }
  }

  lemma ReachableCode(s: Live, o: Origin)
    requires Reachable(s, o)
    ensures Patches.Sound(s.code, o.logical) && Patches.Encoded(s.code)
  {
    ReachableCore(s, o);
  }

  lemma ExecutingThreadMissesNoPatch(s: Live, o: Origin, t: Tid)
    requires GrantedReachable(s, o) && CanExecute(s, t)
    ensures s.code.live.Keys <= s.code.installed
  {
    forall id | id in s.code.live ensures id in s.code.installed {
      if id !in s.code.installed {
        MissingPatchIsIsolated(s, o, id);
      }
    }
  }

  /** No breakpoint is stepped past: the same thread finds every live patch in memory. */
  lemma ExecutingThreadSeesPatches(s: Live, o: Origin, t: Tid, id: nat, a: int)
    requires GrantedReachable(s, o) && CanExecute(s, t) && Patches.SpansLive(s.code, id, a)
    ensures Patches.ReadsPatch(s.code, id, a)
  {
    ExecutingThreadMissesNoPatch(s, o, t);
    GrantedReachableSheltered(s, o);
    Patches.InstalledReadsPatch(s.code, o.logical, id, a);
  }

  /** A trap at an address that a fired patch reports can belong to no other record, whatever was refused before,
      so the event of the protocol is determined by the address. */
  lemma TrapNamesItsPatch(s: Live, o: Origin, t: Tid, address: int, i: nat, j: nat)
    requires Reachable(s, o) && Enabled(s, PatchTrap(t, address, i)) && Patches.MatchesLive(s.code, j, address)
    ensures i == j
  {
    ReachableCode(s, o);
    Patches.MatchUnique(s.code, i, j, address);
  }

  // ---- Event by event ------------------------------------------------------

  /** Over every run, whatever is refused, exactly the threads with a pending hidden step run under the trap flag, and
      exactly these ask to continue as handled. */
  lemma TrapFlagIffPending(s: Live, o: Origin, t: Tid)
    requires Reachable(s, o)
    ensures t in s.engine.trap <==> t in s.engine.hidden
    ensures t in s.engine.statuses && s.engine.statuses[t].GoHandled? <==> t in s.engine.hidden
  {
    ReachableCore(s, o);
  }

  /** When nothing is refused, the engine is never asked to step for a step that nobody waits for. */
  lemma StatusesAreWaitedFor(s: Live, o: Origin, t: Tid)
    requires GrantedReachable(s, o) && t in s.engine.statuses
    ensures t in s.engine.steps || t in s.engine.hidden
  {
    GrantedReachableSheltered(s, o);
  }

  /** An access of an executing thread to bytes that a breakpoint watches for such accesses hits a guarded page, and
      the fault reports the matching breakpoint with the least id. */
  lemma WatchedAccessFaults(s: Live, o: Origin, t: Tid, id: nat, address: int, accessType: nat)
    requires GrantedReachable(s, o) && CanExecute(s, t)
    requires GuardPages.Answers(s.guard.watches, id, address, accessType)
    ensures var p := PageOf(address); p in s.guard.table.protection && s.guard.table.protection[p].guarded
    ensures exists h: nat :: h <= id && Enabled(s, GuardFault(t, address, accessType, Some(h)))
  {
    GrantedReachableSheltered(s, o);
    var w := s.guard.watches[id];
    assert w.start <= address < w.start + w.size;
    GuardPages.CoveredPagesMeaning(w, PageOf(address));
    assert id in GuardPages.Owners(s.guard.watches, PageOf(address));
    ExecutingThreadSeesGuards(s, o, t, PageOf(address));
    GuardPages.HitExists(s.guard.watches, id, address, accessType);
    var h: nat :| h <= id && GuardPages.IsHit(s.guard.watches, address, accessType, Some(h));
    assert Enabled(s, GuardFault(t, address, accessType, Some(h)));
  }

  /** A fault takes the guard off its own page only, and retires the breakpoint it reports exactly when that one
      does not restore itself. */
  lemma FaultIsTaken(s: Live, o: Origin, t: Tid, address: int, accessType: nat, hit: Option<nat>, id: nat, p: int)
    requires Reachable(s, o) && Enabled(s, GuardFault(t, address, accessType, hit))
    ensures var n := Next(s, GuardFault(t, address, accessType, hit));
      && n.phase == PageEvent(t, PageOf(address)) && n.engine == s.engine && n.code == s.code
      && (id in n.guard.watches <==>
            id in s.guard.watches && !(hit == Some(id) && !s.guard.watches[id].restoreOnHit))
      && (GuardPages.Exposed(n.guard.table, p) <==>
            p in n.guard.table.pages && (p == PageOf(address) || GuardPages.Exposed(s.guard.table, p)))
  {
    ReachableCore(s, o);
    var cleared := s.guard.(table := GuardPages.Protect(s.guard.table, PageOf(address), false));
    GuardPages.ProtectKeepsValid(s.guard, PageOf(address), false, o.base);
    GuardPages.ReportedMeaning(cleared, hit, id);
    if hit.Some? {
      GuardPages.RemoveKeepsValid(cleared, hit.value, o.base);
    }
  }

  lemma EventInHand(s: Live, o: Origin)
    requires Reachable(s, o) && (s.phase.PageEvent? || s.phase.PatchEvent?)
    ensures WellFormed(s.engine, {}) && s.phase.thread in s.engine.threads && GuardPages.Valid(s.guard, o.base)
  {
    ReachableCore(s, o);
  }

  /** The re-arm that the end of a handler asks for, if any. */
  function RearmOf(s: Live): Option<Action> {
    if s.phase.PageEvent? && s.phase.page in s.guard.table.pages then Some(RearmPage(s.phase.page))
    else if s.phase.PatchEvent? && s.phase.id in s.code.live then Some(RearmPatch(s.phase.id))
    else None
  }

  lemma GrantedAnswer(s: Live, ev: Event)
    requires (ev.EndGuardFault? || ev.EndPatchTrap?) && Enabled(s, ev)
    requires WellFormed(s.engine, {}) && s.phase.thread in s.engine.threads
    ensures RearmOf(s).Some? && Grants(s.engine, ev.reply) ==>
      HasAction(EngineAfter(s, ev), s.phase.thread, RearmOf(s).value) && s.phase.thread in EngineAfter(s, ev).trap
    ensures RearmOf(s).None? ==> EngineAfter(s, ev) == s.engine
  {
    if RearmOf(s).Some? && Grants(s.engine, ev.reply) {
      GrantedStepIsPending(s.engine, s.phase.thread, RearmOf(s).value, ev.reply);
    }
  }

  /** The end of the handler leaves a page that still has an owner open for the one instruction; the thread steps
      over it and its re-arm is queued when nothing is refused. A page without owner needs neither. */
  lemma FaultIsAnswered(s: Live, o: Origin, reply: Reply)
    requires Reachable(s, o) && s.phase.PageEvent?
    ensures var n := Next(s, EndGuardFault(reply)); var p := s.phase.page; var t := s.phase.thread;
      && n.phase == Paused && n.guard.watches == s.guard.watches
      && (p in s.guard.table.pages ==> GuardPages.Exposed(n.guard.table, p))
      && (p in s.guard.table.pages && Grants(s.engine, reply) ==>
            HasAction(n.engine, t, RearmPage(p)) && t in n.engine.trap)
      && (p !in s.guard.table.pages ==> n.engine == s.engine && n.guard == s.guard)
  {
    EventInHand(s, o);
    GuardPages.ProtectKeepsValid(s.guard, s.phase.page, false, o.base);
    GrantedAnswer(s, EndGuardFault(reply));
  }

  /** A breakpoint hit takes the patch out: the target reads the logical bytes there. The record survives exactly
      when it is not one-shot, exactly a one-shot address is retired, and no other record moves. */
  lemma HitIsTaken(s: Live, o: Origin, t: Tid, address: int, id: nat, i: nat, a: int)
    requires Reachable(s, o) && Enabled(s, PatchTrap(t, address, id))
    ensures var n := Next(s, PatchTrap(t, address, id)); var r := s.code.live[id].request;
      && n.phase == PatchEvent(t, id) && n.engine == s.engine && n.guard == s.guard
      && (id in n.code.live <==> !r.oneShot) && id !in n.code.installed
      && (i != id ==> Patches.SameRecord(s.code, n.code, i))
      && (a in n.code.retired <==> a in s.code.retired || (r.oneShot && a == r.offset))
      && (Patches.Spans(r, a) ==> a in o.logical && a in n.code.memory && n.code.memory[a] == o.logical[a])
  {
    ReachableCore(s, o);
    Patches.FireMeaning(s.code, id, i, a);
    if Patches.Spans(s.code.live[id].request, a) {
      assert Patches.SpansLive(s.code, id, a);
      Patches.FiredPatchIsOut(s.code, id, o.logical, a);
    }
  }

  /** The end of its handler queues a re-arm exactly for a record that is still there. */
  lemma HitIsAnswered(s: Live, o: Origin, reply: Reply)
    requires Reachable(s, o) && s.phase.PatchEvent?
    ensures var n := Next(s, EndPatchTrap(reply)); var t := s.phase.thread;
      && n.phase == Paused && n.code == s.code
      && (s.phase.id in s.code.live && Grants(s.engine, reply) ==>
            HasAction(n.engine, t, RearmPatch(s.phase.id)) && t in n.engine.trap)
      && (s.phase.id !in s.code.live ==> n.engine == s.engine)
  {
    EventInHand(s, o);
    GrantedAnswer(s, EndPatchTrap(reply));
  }

  /** The action of a completing step does what it was queued for: the page is guarded, the patch is in memory or the
      callback has run. */
  lemma ActionIsDone(s: Live, o: Origin, p: int, id: nat, a: int)
    requires Reachable(s, o) && Enabled(s, RunAction)
    ensures var n := Next(s, RunAction);
      match s.phase.actions[s.phase.next]
      case RearmPage(page) =>
        && (GuardPages.Exposed(n.guard.table, p) <==> p != page && GuardPages.Exposed(s.guard.table, p))
        && n.code == s.code && n.ran == s.ran
      case RearmPatch(patch) =>
        && (id in n.code.installed <==> id in s.code.installed || (id == patch && id in s.code.live))
        && (Patches.SpansLive(s.code, patch, a) ==> Patches.ReadsPatch(n.code, patch, a))
        && n.guard == s.guard && n.ran == s.ran
      case UserStep(token) => n.ran == s.ran + [token] && n.guard == s.guard && n.code == s.code
  {
    ReachableCore(s, o);
    match s.phase.actions[s.phase.next] {
      case RearmPage(page) => GuardPages.ProtectKeepsValid(s.guard, page, true, o.base);
      case RearmPatch(patch) => RearmedReadsPatch(s.code, o.logical, patch, a);
      case UserStep(token) =>
    }
  }

  lemma RearmedReadsPatch(c: Patches.Code, logical: Memory, id: nat, a: int)
    requires Patches.Sound(c, logical)
    ensures Patches.Rearmable(c, id)
    ensures Patches.SpansLive(c, id, a) ==> Patches.ReadsPatch(Patches.Rearm(c, id), id, a)
  {
    Patches.RearmKeepsSound(c, id, logical);
  }

  lemma NothingPendingIsArmed(s: Live)
    requires PagesAccounted(s) && PatchesAccounted(s) && s.engine.hidden == map[]
    requires s.phase.Completing? && s.phase.next == |s.phase.actions|
    ensures GuardPages.AllArmed(s.guard.table) && s.code.live.Keys <= s.code.installed
  {
    assert forall a :: !Pending(s, a);
  }

  /** The last action of the only pending hidden step has run and its peers are still suspended:
      everything is already armed again. */
  lemma ArmedBeforePeersResume(s: Live, o: Origin)
    requires GrantedReachable(s, o) && s.engine.hidden == map[]
    requires s.phase.Completing? && s.phase.next == |s.phase.actions|
    ensures GuardPages.AllArmed(s.guard.table)
    ensures s.code.installed == s.code.live.Keys
    ensures forall u | u in s.engine.threads && u != s.phase.thread :: IsSuspended(s, u)
  {
    GrantedReachableSheltered(s, o);
    ListedAreSuspended(s, o.counts, s.phase.thread);
    NothingPendingIsArmed(s);
  }

  lemma IdleCounts(s: Live, counts: map<Tid, nat>)
    requires EngineOk(s, counts) && s.engine.hidden == map[] && !s.phase.Completing?
    ensures s.engine.suspend == Plus(counts, s.leaked)
  {
    assert s.engine.listed.Keys == {};
    IdleCountsAreBase(s.engine, Plus(counts, s.leaked));
  }

  /** Over every run, through refused suspensions, rollbacks, chained steps, refused resumes, and threads that start
      or exit: each count is the base count, plus one for every hidden step that lists the thread, plus its refused
      resumes; and with no hidden step under way it is the base count plus the refused resumes. */
  lemma SuspendCountsConserved(s: Live, o: Origin, u: Tid)
    requires Reachable(s, o) && u in o.counts
    ensures u in s.engine.suspend
    ensures s.engine.suspend[u] == o.counts[u] + |Holders(s.engine, u)| + s.leaked[u]
    ensures s.engine.hidden == map[] && !s.phase.Completing? ==> s.engine.suspend[u] == o.counts[u] + s.leaked[u]
  {
    ReachableCore(s, o);
    if s.engine.hidden == map[] && !s.phase.Completing? {
      IdleCounts(s, o.counts);
    }
  }

  /** Whatever is refused, an accepted step callback runs at most once, and once it has run it waits nowhere else. */
  lemma StepCallbacksRunOnce(s: Live, o: Origin, token: Token)
    requires Reachable(s, o)
    ensures forall p, q | At(s, token, p) && At(s, token, q) :: p == q
    ensures forall place | At(s, token, place) :: token in s.accepted
    ensures forall i, j | 0 <= i < j < |s.ran| :: s.ran[i] != s.ran[j]
  {
    ReachableCore(s, o);
    forall i, j | 0 <= i < j < |s.ran| ensures s.ran[i] != s.ran[j] {
      assert At(s, s.ran[i], Ran(i)) && At(s, s.ran[j], Ran(j));
    }
  }

  /** When nothing is refused, an accepted step callback waits in exactly one place until it has run. */
  lemma StepCallbacksConserved(s: Live, o: Origin, token: Token)
    requires GrantedReachable(s, o)
    ensures token in s.accepted <==> exists place :: At(s, token, place)
    ensures forall p, q | At(s, token, p) && At(s, token, q) :: p == q
  {
    GrantedReachableSheltered(s, o);
  }

  /** A removal of all breakpoints gives protections and memory back at once, in the middle of a
      hidden step and after any refusal as well. */
  lemma RemoveAllRestoresTarget(s: Live, o: Origin)
    requires Reachable(s, o) && Enabled(s, RemoveAll)
    ensures var s' := Next(s, RemoveAll);
      s'.guard.table == GuardPages.Table(map[], o.base) && s'.code.memory == o.logical && s'.code.live == map[]
  {
    ReachableCore(s, o);
    GuardPages.ClearedIsBase(s.guard, o.base);
    Patches.EmptiedIsLogical(s.code, o.logical);
  }

  lemma CleanTarget(s: Live, o: Origin)
    requires GuardPages.Valid(s.guard, o.base) && Patches.Sound(s.code, o.logical)
    requires s.guard.watches == map[] && s.code.live == map[]
    ensures s.guard.table.protection == o.base && s.code.memory == o.logical
  {
    GuardPages.EmptyTableRestoresBase(s.guard, o.base);
    Patches.NothingLiveRestoresMemory(s.code, o.logical);
  }

  /** With no hidden step pending and every breakpoint removed, the target is as the session found it:
      protections, memory and, but for refused resumes, suspend counts. */
  lemma CleanSessionLeavesNoTrace(s: Live, o: Origin)
    requires Reachable(s, o)
    requires s.engine.hidden == map[] && !s.phase.Completing?
    requires s.guard.watches == map[] && s.code.live == map[]
    ensures s.guard.table.protection == o.base && s.code.memory == o.logical
    ensures s.leaked == multiset{} ==> s.engine.suspend == o.counts
  {
    ReachableCore(s, o);
    CleanTarget(s, o);
    IdleCounts(s, o.counts);
    NothingLeaked(o.counts);
  }

  /** Reading a page that a hidden step holds open guards it early, and the stepped instruction
      faults on it again; any other read leaves the session as it was. */
  lemma ReadDisturbsIff(s: Live, o: Origin, range: set<int>)
    requires Reachable(s, o) && Enabled(s, ReadSpan(range))
    ensures Next(s, ReadSpan(range)) == s <==> forall p | p in range :: !GuardPages.Exposed(s.guard.table, p)
  {
    ReachableCore(s, o);
    GuardPages.ReadKeepsProtectionsIff(s.guard.table, range, o.base);
    assert s.leaked + multiset({}) == s.leaked;
  }
}

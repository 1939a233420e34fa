/** Whole cycles of a live session: from a fault or a breakpoint hit to the moment its thread runs on. */
module LiveCycles {
  import opened Common
  import opened Target
  import GuardPages
  import Patches
  import opened StepEngine
  import opened LiveProtocol

  lemma Then(s: Live, ev: Event, rest: seq<Event>, end: Live)
    requires Enabled(s, ev) && CanRun(Next(s, ev), rest) && Run(Next(s, ev), rest) == end
    ensures CanRun(s, [ev] + rest) && Run(s, [ev] + rest) == end
  {
    assert ([ev] + rest)[1..] == rest;
  }

  // ---- Every event is worked off -----------------------------------------

  /** What the adapter does next with the event in hand; `reply` and `stuck` are the answers of the system. */
  ghost function Handler(s: Live, reply: Reply, stuck: set<Tid>): Event {
    match s.phase
    case PageEvent(t, page) => EndGuardFault(reply)
    case PatchEvent(t, id) => EndPatchTrap(reply)
    case Completing(t, actions, next) => if next < |actions| then RunAction else EndHiddenStep(stuck)
    case StepQueued(token) => RunUserStep
    case _ => Continue
  }

  ghost predicate InHand(s: Live) {
    !s.phase.Running? && !s.phase.Paused?
  }

  ghost function WorkLeft(s: Live): nat {
    if s.phase.Completing? && s.phase.next <= |s.phase.actions| then |s.phase.actions| - s.phase.next + 1
    else if InHand(s) then 1 else 0
  }

  lemma HandlerWorks(s: Live, reply: Reply, stuck: set<Tid>, o: Origin)
    requires Core(s, o.base, o.logical, o.counts) && InHand(s)
    ensures Enabled(s, Handler(s, reply, stuck))
    ensures WorkLeft(Next(s, Handler(s, reply, stuck))) < WorkLeft(s)
    ensures !Next(s, Handler(s, reply, stuck)).phase.Running?
  {
    if s.phase.Completing? && s.phase.next < |s.phase.actions| && s.phase.actions[s.phase.next].RearmPatch? {
      Patches.RearmKeepsSound(s.code, s.phase.actions[s.phase.next].id, o.logical);
    }
  }

  lemma {:induction false} WorkedOff(s: Live, reply: Reply, stuck: set<Tid>, o: Origin) returns (events: seq<Event>)
    requires Core(s, o.base, o.logical, o.counts) && !s.phase.Running?
    ensures CanRun(s, events) && Run(s, events).phase.Paused? && |events| <= WorkLeft(s)
    decreases WorkLeft(s)
  {
    if s.phase.Paused? {
      events := [];
    } else {
      var ev := Handler(s, reply, stuck);
      HandlerWorks(s, reply, stuck, o);
      CoreKept(s, ev, o.base, o.logical, o.counts);
      var rest := WorkedOff(Next(s, ev), reply, stuck, o);
      Then(s, ev, rest, Run(Next(s, ev), rest));
      events := [ev] + rest;
    }
  }

  /** The adapter is never stuck with an event: whatever the system answers, the next part of its handler can be done,
      and after one part for each queued action and one more the target is ready to continue. */
  lemma EventsAreWorkedOff(s: Live, o: Origin, reply: Reply, stuck: set<Tid>)
    requires Reachable(s, o) && InHand(s)
    ensures Enabled(s, Handler(s, reply, stuck))
    ensures exists events :: CanRun(s, events) && Run(s, events).phase.Paused? && |events| <= WorkLeft(s)
  {
    ReachableCore(s, o);
    HandlerWorks(s, reply, stuck, o);
    var events := WorkedOff(s, reply, stuck, o);
  }

  // ---- One hidden step from beginning to end -----------------------------

  /** The events after a trap that hands over the re-arm `a` and perhaps a user step. */
  function CompletionEvents(callback: Option<Token>): seq<Event> {
    if callback.Some? then [RunAction, RunAction, EndHiddenStep({}), Continue]
    else [RunAction, EndHiddenStep({}), Continue]
  }

  function ActionsOf(a: Action, callback: Option<Token>): seq<Action> {
    if callback.Some? then [a, UserStep(callback.value)] else [a]
  }

  function RanWith(ran: seq<Token>, callback: Option<Token>): seq<Token> {
    if callback.Some? then ran + [callback.value] else ran
  }

  /** The end of a completion whose actions have all run. */
  lemma LastPart(s: Live)
    requires s.phase.Completing? && s.phase.next == |s.phase.actions|
    ensures CanRun(s, [EndHiddenStep({}), Continue])
    ensures Run(s, [EndHiddenStep({}), Continue]) ==
            s.(engine := EndCompletion(s.engine, s.phase.thread, {}), phase := Running)
  {
    var paused := Next(s, EndHiddenStep({}));
    assert s.leaked + multiset({}) == s.leaked;
    assert paused == s.(engine := EndCompletion(s.engine, s.phase.thread, {}), phase := Paused);
    var end := Next(paused, Continue);
    assert end == paused.(phase := Running);
    Then(paused, Continue, [], end);
    Then(s, EndHiddenStep({}), [Continue], end);
  }

  lemma CallbackPart(s: Live, token: Token)
    requires s.phase.Completing? && s.phase.next == |s.phase.actions| - 1
    requires s.phase.actions[s.phase.next] == UserStep(token)
    ensures CanRun(s, [RunAction, EndHiddenStep({}), Continue])
    ensures Run(s, [RunAction, EndHiddenStep({}), Continue]) ==
            s.(engine := EndCompletion(s.engine, s.phase.thread, {}), phase := Running, ran := s.ran + [token])
  {
    var done := Next(s, RunAction);
    assert s.leaked + multiset({}) == s.leaked;
    assert done == s.(phase := s.phase.(next := s.phase.next + 1), ran := s.ran + [token]);
    LastPart(done);
    Then(s, RunAction, [EndHiddenStep({}), Continue], Run(done, [EndHiddenStep({}), Continue]));
  }

  /** A completion runs the re-arm, then the callback, resumes the peers and lets the target continue. */
  lemma CompletionRuns(s: Live, a: Action, callback: Option<Token>)
    requires s.phase.Completing? && s.phase.next == 0 && s.phase.actions == ActionsOf(a, callback)
    requires !a.UserStep? && Enabled(s, RunAction)
    ensures CanRun(s, CompletionEvents(callback))
    ensures Run(s, CompletionEvents(callback)) ==
            s.(engine := EndCompletion(s.engine, s.phase.thread, {}), phase := Running,
               guard := GuardAfter(s, RunAction), code := CodeAfter(s, RunAction), ran := RanWith(s.ran, callback))
  {
    var armed := Next(s, RunAction);
    assert s.leaked + multiset({}) == s.leaked;
    assert armed ==
      s.(phase := s.phase.(next := 1), guard := GuardAfter(s, RunAction), code := CodeAfter(s, RunAction));
    var rest := CompletionEvents(callback)[1..];
    if callback.Some? {
      CallbackPart(armed, callback.value);
      assert rest == [RunAction, EndHiddenStep({}), Continue];
    } else {
      LastPart(armed);
      assert rest == [EndHiddenStep({}), Continue];
    }
    assert CompletionEvents(callback) == [RunAction] + rest;
    Then(s, RunAction, rest, Run(armed, rest));
  }

  ghost function Rearmed(s: Live, a: Action): Live
    requires a.RearmPatch? ==> Patches.Rearmable(s.code, a.id)
  {
    match a
    case RearmPage(page) => s.(guard := s.guard.(table := GuardPages.Protect(s.guard.table, page, true)))
    case RearmPatch(id) => s.(code := Patches.Rearm(s.code, id))
    case UserStep(token) => s
  }

  /** The re-arm is done, the callback has run, and the engine is as before the step. */
  ghost function StepEnd(s: Live, e: Engine, t: Tid, a: Action, callback: Option<Token>): Live
    requires a.RearmPatch? ==> Patches.Rearmable(s.code, a.id)
  {
    Rearmed(s, a).(engine := e.(statuses := e.statuses - {t}), ran := RanWith(s.ran, callback))
  }

  /** The whole hidden step of `t` from an engine that was idle when it was armed. */
  lemma StepRuns(s: Live, e: Engine, t: Tid, a: Action, callback: Option<Token>, peers: set<Tid>)
    requires s.phase.Running? && s.engine == Armed(e, t, ActionsOf(a, callback), peers) && !a.UserStep?
    requires t in e.threads && t !in e.hidden && t !in e.listed && t !in e.trap
    requires a.RearmPatch? ==> Patches.Rearmable(s.code, a.id)
    ensures CanRun(s, [HiddenStepTrap(t)] + CompletionEvents(callback))
    ensures Run(s, [HiddenStepTrap(t)] + CompletionEvents(callback)) == StepEnd(s, e, t, a, callback)
  {
    var trapped := Next(s, HiddenStepTrap(t));
    assert s.leaked + multiset({}) == s.leaked;
    assert trapped == s.(engine := BeginCompletion(s.engine, t), phase := Completing(t, ActionsOf(a, callback), 0));
    CompletionRuns(trapped, a, callback);
    CompletionUndoesArm(e, t, ActionsOf(a, callback), peers);
    Then(s, HiddenStepTrap(t), CompletionEvents(callback), Run(trapped, CompletionEvents(callback)));
  }

  lemma PausedRuns(s: Live, e: Engine, t: Tid, a: Action, callback: Option<Token>, peers: set<Tid>)
    requires s.phase.Paused? && s.engine == Armed(e, t, ActionsOf(a, callback), peers) && !a.UserStep?
    requires t in e.threads && t !in e.hidden && t !in e.listed && t !in e.trap
    requires a.RearmPatch? ==> Patches.Rearmable(s.code, a.id)
    ensures var events := [Continue] + ([HiddenStepTrap(t)] + CompletionEvents(callback));
      var n := s.(phase := Running);
      && CanRun(s, events) && CanRun(n, events[1..]) && Run(s, events) == Run(n, events[1..])
      && Run(s, events) == StepEnd(n, e, t, a, callback)
  {
    var running := s.(phase := Running);
    assert s.leaked + multiset({}) == s.leaked;
    assert Next(s, Continue) == running;
    StepRuns(running, e, t, a, callback, peers);
    var rest := [HiddenStepTrap(t)] + CompletionEvents(callback);
    assert ([Continue] + rest)[1..] == rest;
    Then(s, Continue, rest, Run(running, rest));
  }

  // ---- A fault and a breakpoint hit leave no trace -------------------------

  /** The user step of `t`, which its hidden step takes along. */
  function CallbackOf(e: Engine, t: Tid): Option<Token> {
    if t in e.steps then Some(e.steps[t]) else None
  }

  lemma ArmedFromIdle(e: Engine, t: Tid, a: Action, reply: Reply)
    requires WellFormed(e, {}) && e.hidden == map[] && t in e.threads && Grants(e, reply)
    ensures e.listed == map[] && t !in e.trap
    ensures Schedule(e, t, a, reply) == Armed(TakeUserStep(e, t), t, ActionsOf(a, CallbackOf(e, t)), e.threads - {t})
    ensures StatusesNamed(e) ==>
      TakeUserStep(e, t).(statuses := e.statuses - {t}) == FinishStep(e, t) && (t !in e.steps ==> FinishStep(e, t) == e)
  {
    assert e.listed.Keys == {};
    assert (e.threads - {t}) * reply.canSuspend == e.threads - {t};
  }

  /** The end of a handler arms the hidden step of its thread and lets the target continue. */
  lemma AnswerArms(s: Live, ev: Event, a: Action)
    requires (ev.EndGuardFault? || ev.EndPatchTrap?) && Enabled(s, ev) && RearmOf(s) == Some(a)
    requires WellFormed(s.engine, {}) && s.engine.hidden == map[] && s.phase.thread in s.engine.threads
    requires Grants(s.engine, ev.reply)
    ensures var t := s.phase.thread; var e := s.engine;
      EngineAfter(s, ev) == Armed(TakeUserStep(e, t), t, ActionsOf(a, CallbackOf(e, t)), e.threads - {t})
  {
    ArmedFromIdle(s.engine, s.phase.thread, a, ev.reply);
  }

  lemma AnswerPauses(s: Live, ev: Event)
    requires (ev.EndGuardFault? || ev.EndPatchTrap?) && Enabled(s, ev) && Grants(s.engine, ev.reply)
    ensures Next(s, ev) == s.(engine := EngineAfter(s, ev), phase := Paused, guard := GuardAfter(s, ev))
  {
    assert LeaksOf(s, ev) == {};
    assert s.leaked + multiset({}) == s.leaked;
  }

  function CycleEvents(ev: Event, t: Tid, callback: Option<Token>): seq<Event> {
    [ev] + ([Continue] + ([HiddenStepTrap(t)] + CompletionEvents(callback)))
  }

  /** From the end of a handler to the moment the stepped thread runs on. */
  lemma AnswerRuns(s: Live, ev: Event, a: Action)
    requires (ev.EndGuardFault? || ev.EndPatchTrap?) && Enabled(s, ev) && RearmOf(s) == Some(a)
    requires WellFormed(s.engine, {}) && s.engine.hidden == map[] && s.phase.thread in s.engine.threads
    requires Grants(s.engine, ev.reply)
    requires a.RearmPatch? ==> Patches.Rearmable(s.code, a.id)
    ensures var t := s.phase.thread; var callback := CallbackOf(s.engine, t);
      && CanRun(s, CycleEvents(ev, t, callback))
      && Run(s, CycleEvents(ev, t, callback)) ==
           StepEnd(s.(guard := GuardAfter(s, ev), phase := Running), TakeUserStep(s.engine, t), t, a, callback)
  {
    var t, callback, e := s.phase.thread, CallbackOf(s.engine, s.phase.thread), TakeUserStep(s.engine, s.phase.thread);
    AnswerArms(s, ev, a);
    AnswerPauses(s, ev);
    ArmedFromIdle(s.engine, t, a, ev.reply);
    var queued := Next(s, ev);
    PausedRuns(queued, e, t, a, callback, s.engine.threads - {t});
    var rest := [Continue] + ([HiddenStepTrap(t)] + CompletionEvents(callback));
    Then(s, ev, rest, Run(queued, rest));
  }

  /** The session after the cycle: as before, but for a user step of the thread, whose callback has run. */
  function StepTaken(s: Live, t: Tid): Live {
    s.(engine := FinishStep(s.engine, t), ran := RanWith(s.ran, CallbackOf(s.engine, t)))
  }

  lemma ArmedWhenIdle(s: Live, o: Origin)
    requires GrantedReachable(s, o) && s.phase.Running? && s.engine.hidden == map[]
    ensures Core(s, o.base, o.logical, o.counts) && WellFormed(s.engine, {}) && StatusesNamed(s.engine)
    ensures GuardPages.AllArmed(s.guard.table) && s.code.live.Keys <= s.code.installed
  {
    GrantedReachableSheltered(s, o);
    assert forall a :: !Pending(s, a);
  }

  /** A guard fault on a page whose breakpoint stays, from the fault to the moment the thread runs on: page table,
      protections, breakpoints, patches and suspend counts are exactly as before; a user step of the thread has
      been taken, and without one nothing at all has changed. */
  lemma FaultLeavesNoTrace(s: Live, o: Origin, t: Tid, address: int, accessType: nat, hit: Option<nat>, reply: Reply)
    requires GrantedReachable(s, o) && s.engine.hidden == map[] && Grants(s.engine, reply)
    requires Enabled(s, GuardFault(t, address, accessType, hit))
    requires hit.Some? ==> s.guard.watches[hit.value].restoreOnHit
    ensures var cycle := CycleEvents(EndGuardFault(reply), t, CallbackOf(s.engine, t));
      var events := [GuardFault(t, address, accessType, hit)] + cycle;
      CanRun(s, events) && Run(s, events) == StepTaken(s, t)
    ensures t !in s.engine.steps ==> StepTaken(s, t) == s
  {
    var ev, p := GuardFault(t, address, accessType, hit), PageOf(address);
    ArmedWhenIdle(s, o);
    GuardPages.GuardUndoesExpose(s.guard.table, p, o.base);
    ArmedFromIdle(s.engine, t, RearmPage(p), reply);
    var open := s.guard.(table := GuardPages.Protect(s.guard.table, p, false));
    var faulted := Next(s, ev);
    assert s.leaked + multiset({}) == s.leaked;
    assert faulted == s.(guard := open, phase := PageEvent(t, p));
    FaultAnswerRuns(faulted, s, t, p, reply);
    var cycle := CycleEvents(EndGuardFault(reply), t, CallbackOf(s.engine, t));
    Then(s, ev, cycle, Run(faulted, cycle));
  }

  lemma FaultAnswerRuns(faulted: Live, s: Live, t: Tid, p: int, reply: Reply)
    requires s.phase.Running? && WellFormed(s.engine, {}) && StatusesNamed(s.engine) && s.engine.hidden == map[]
    requires t in s.engine.threads && Grants(s.engine, reply) && p in s.guard.table.pages
    requires var open := GuardPages.Protect(s.guard.table, p, false);
      && faulted == s.(guard := s.guard.(table := open), phase := PageEvent(t, p))
      && GuardPages.Protect(open, p, false) == open && GuardPages.Protect(open, p, true) == s.guard.table
    ensures var cycle := CycleEvents(EndGuardFault(reply), t, CallbackOf(s.engine, t));
      CanRun(faulted, cycle) && Run(faulted, cycle) == StepTaken(s, t)
  {
    AnswerRuns(faulted, EndGuardFault(reply), RearmPage(p));
    ArmedFromIdle(s.engine, t, RearmPage(p), reply);
  }

  /** Likewise a hit of a persistent breakpoint: its record and its bytes in memory are back. */
  lemma HitLeavesNoTrace(s: Live, o: Origin, t: Tid, address: int, id: nat, reply: Reply)
    requires GrantedReachable(s, o) && s.engine.hidden == map[] && Grants(s.engine, reply)
    requires Enabled(s, PatchTrap(t, address, id)) && !s.code.live[id].request.oneShot
    ensures var cycle := CycleEvents(EndPatchTrap(reply), t, CallbackOf(s.engine, t));
      var events := [PatchTrap(t, address, id)] + cycle;
      CanRun(s, events) && Run(s, events) == StepTaken(s, t)
  {
    var ev := PatchTrap(t, address, id);
    ArmedWhenIdle(s, o);
    Patches.RearmUndoesFire(s.code, id, o.logical);
    var hit := Next(s, ev);
    assert s.leaked + multiset({}) == s.leaked;
    assert hit == s.(code := Patches.Fire(s.code, id), phase := PatchEvent(t, id));
    Patches.FireMeaning(s.code, id, id, 0);
    HitAnswerRuns(hit, s, t, id, reply);
    var cycle := CycleEvents(EndPatchTrap(reply), t, CallbackOf(s.engine, t));
    Then(s, ev, cycle, Run(hit, cycle));
  }

  lemma HitAnswerRuns(hit: Live, s: Live, t: Tid, id: nat, reply: Reply)
    requires s.phase.Running? && WellFormed(s.engine, {}) && StatusesNamed(s.engine) && s.engine.hidden == map[]
    requires t in s.engine.threads && Grants(s.engine, reply)
    requires hit == s.(code := hit.code, phase := PatchEvent(t, id)) && id in hit.code.live
    requires Patches.Rearmable(hit.code, id) && Patches.Rearm(hit.code, id) == s.code
    ensures var cycle := CycleEvents(EndPatchTrap(reply), t, CallbackOf(s.engine, t));
      CanRun(hit, cycle) && Run(hit, cycle) == StepTaken(s, t)
  {
    AnswerRuns(hit, EndPatchTrap(reply), RearmPatch(id));
    ArmedFromIdle(s.engine, t, RearmPatch(id), reply);
  }
}

/** The hidden single step: pending actions per thread, suspended peers, user steps
    and the execution statuses that make them happen. */
module StepEngine {
  import opened Common

  type Tid = nat
  type Token = nat

  /** The closures a thread's hidden step can hold; a user step callback is named by a token. */
  datatype Action = RearmPage(page: int) | RearmPatch(id: nat) | UserStep(token: Token)

  datatype Status = StepIntoStatus | StepOverStatus | GoHandled

  /** What the engine and the system answer to one call of scheduleInternalStep: the current thread cannot be
      read, or `canSuspend` are the threads for which SuspendThread succeeds, `flagSet` says whether the trap
      flag could be written, and `stuck` are the threads for which ResumeThread fails in the rollback. */
  datatype Reply = NoThread | Reply(canSuspend: set<Tid>, flagSet: bool, stuck: set<Tid>)

  /** `listed[t]` are the threads that t's pending hidden step has suspended. */
  datatype Engine = Engine(
    threads: set<Tid>,
    hidden: map<Tid, seq<Action>>,
    listed: map<Tid, set<Tid>>,
    steps: map<Tid, Token>,
    stepIds: map<Tid, nat>,
    statuses: map<Tid, Status>,
    suspend: map<Tid, nat>,
    trap: set<Tid>)

  function Suspended(suspend: map<Tid, nat>, peers: set<Tid>): map<Tid, nat> {
    map u | u in suspend :: if u in peers then suspend[u] + 1 else suspend[u]
  }

  function Resumed(suspend: map<Tid, nat>, peers: set<Tid>): map<Tid, nat> {
    map u | u in suspend :: if u in peers && suspend[u] > 0 then suspend[u] - 1 else suspend[u]
  }

  /** The rollback gives every count back except those of the threads that refuse to be resumed. */
  lemma ResumeUndoesSuspend(suspend: map<Tid, nat>, peers: set<Tid>, stuck: set<Tid>)
    ensures Resumed(Suspended(suspend, peers), peers - stuck) == Suspended(suspend, peers * stuck)
    ensures Suspended(suspend, {}) == suspend
  {
  }

  function DropUserStep(e: Engine, t: Tid): Engine {
    e.(steps := e.steps - {t}, stepIds := e.stepIds - {t})
  }

  function TakeUserStep(e: Engine, t: Tid): Engine {
    if t in e.steps then DropUserStep(e, t) else e
  }

  function TakenActions(e: Engine, t: Tid, action: Action): seq<Action> {
    if t in e.steps then [action, UserStep(e.steps[t])] else [action]
  }

  /** The peers that the loop suspends. */
  function Caught(e: Engine, t: Tid, reply: Reply): set<Tid> {
    if reply.NoThread? then {} else (e.threads - {t}) * reply.canSuspend
  }

  /** The peers that a rollback leaves suspended. */
  function LeftBehind(e: Engine, t: Tid, reply: Reply): set<Tid> {
    if reply.Reply? && !reply.flagSet && t in e.threads && t !in e.hidden
    then Caught(e, t, reply) * reply.stuck else {}
  }

  function Armed(e: Engine, t: Tid, actions: seq<Action>, peers: set<Tid>): Engine {
    e.(hidden := e.hidden[t := actions], listed := e.listed[t := peers], statuses := e.statuses[t := GoHandled],
       suspend := Suspended(e.suspend, peers), trap := e.trap + {t})
  }

  function RolledBack(e: Engine, t: Tid, left: set<Tid>): Engine {
    e.(listed := e.listed - {t}, suspend := Suspended(e.suspend, left))
  }

  /** Suspends the peers, sets the trap flag and stores the actions; a refused flag undoes the suspensions. */
  function Arm(e: Engine, t: Tid, actions: seq<Action>, reply: Reply): Engine
    requires reply.Reply?
  {
    if reply.flagSet then Armed(e, t, actions, Caught(e, t, reply))
    else RolledBack(e, t, Caught(e, t, reply) * reply.stuck)
  }

  /** scheduleInternalStep */
  function Schedule(e: Engine, t: Tid, action: Action, reply: Reply): Engine {
    if reply.NoThread? then e
    else if t in e.hidden then
      e.(hidden := e.hidden[t := e.hidden[t] + [action]])
    else if t !in e.threads then
      TakeUserStep(e, t)
    else
      Arm(TakeUserStep(e, t), t, TakenActions(e, t, action), reply)
  }

  /** The first half of completeInternalStep: the actions leave the map before they run. */
  function BeginCompletion(e: Engine, t: Tid): Engine {
    e.(hidden := e.hidden - {t}, statuses := e.statuses - {t},
       trap := if t in e.threads then e.trap - {t} else e.trap)
  }

  /** The second half, after the actions have run; ResumeThread fails for the threads of `stuck`. */
  function EndCompletion(e: Engine, t: Tid, stuck: set<Tid>): Engine {
    if t !in e.listed then e
    else e.(suspend := Resumed(e.suspend, e.listed[t] - stuck), listed := e.listed - {t})
  }

  /** debugStep: refused while a step of the same thread is registered. */
  function RequestStep(e: Engine, t: Tid, token: Token, status: Status, systemId: nat): Engine {
    if t in e.steps then e
    else e.(steps := e.steps[t := token], stepIds := e.stepIds[t := systemId],
            statuses := if t in e.statuses then e.statuses else e.statuses[t := status])
  }

  /** The DebugLoop branch that hands a finished user step to the callback queue. */
  function FinishStep(e: Engine, t: Tid): Engine {
    DropUserStep(e, t).(statuses := e.statuses - {t})
  }

  /** A create event names the thread. */
  function Start(e: Engine, t: Tid): Engine {
    e.(threads := e.threads + {t})
  }

  /** ExitThread's erasures. */
  function Exit(e: Engine, t: Tid): Engine {
    DropUserStep(e, t).(threads := e.threads - {t}, hidden := e.hidden - {t},
                        listed := e.listed - {t}, statuses := e.statuses - {t})
  }

  // ---- Invariants -------------------------------------------------------

  function Holders(e: Engine, u: Tid): set<Tid> {
    set t | t in e.listed && u in e.listed[t]
  }

  /** Each thread is suspended once per pending hidden step that lists it, over its base count. */
  ghost predicate Conserved(e: Engine, base: map<Tid, nat>) {
    && e.suspend.Keys == base.Keys
    && forall u | u in base :: e.suspend[u] == base[u] + |Holders(e, u)|
  }

  /** A user step callback that moved into a hidden step sits right behind the first action. */
  ghost predicate UserStepsSecond(hidden: map<Tid, seq<Action>>) {
    forall t, i | t in hidden && 0 <= i < |hidden[t]| && hidden[t][i].UserStep? :: i == 1
  }

  /** Exactly the threads with a pending hidden step single-step, and exactly these continue as handled. */
  ghost predicate PendingForm(e: Engine, completing: set<Tid>) {
    && e.hidden.Keys <= e.threads
    && e.listed.Keys == e.hidden.Keys + completing
    && e.hidden.Keys !! completing
    && e.trap == e.hidden.Keys
    && e.hidden.Keys <= e.statuses.Keys
    && (forall t | t in e.statuses :: e.statuses[t].GoHandled? <==> t in e.hidden)
  }

  /** `completing` is the thread whose actions are running, if any. */
  ghost predicate WellFormed(e: Engine, completing: set<Tid>) {
    && e.steps.Keys == e.stepIds.Keys
    && PendingForm(e, completing)
    && (forall t | t in e.listed :: e.listed[t] <= e.threads - {t})
    && UserStepsSecond(e.hidden)
  }

  /** Every peer of a thread with a pending hidden step is suspended on its behalf. */
  ghost predicate Isolated(e: Engine) {
    forall t | t in e.listed :: e.listed[t] == e.threads - {t}
  }

  /** The system grants everything the hidden step asks for. */
  predicate Grants(e: Engine, reply: Reply) {
    reply.Reply? && e.threads <= reply.canSuspend && reply.flagSet
  }

  lemma HeldThreadsAreSuspended(e: Engine, base: map<Tid, nat>, u: Tid)
    requires Conserved(e, base) && u in base && Holders(e, u) != {}
    ensures e.suspend[u] > 0
  {
  }

  /** With nothing pending every count is back at its base. */
  lemma IdleCountsAreBase(e: Engine, base: map<Tid, nat>)
    requires Conserved(e, base) && e.listed == map[]
    ensures e.suspend == base
  {
  }

  /** A completed hidden step whose peers all resume leaves the engine as it was before, but for the status of its
      own thread. */
  lemma CompletionUndoesArm(e: Engine, t: Tid, actions: seq<Action>, peers: set<Tid>)
    requires t in e.threads && t !in e.hidden && t !in e.listed && t !in e.trap
    ensures EndCompletion(BeginCompletion(Armed(e, t, actions, peers), t), t, {}) == e.(statuses := e.statuses - {t})
  {
    ResumeUndoesSuspend(e.suspend, peers, {});
    assert peers * {} == {} && peers - {} == peers;
  }

  lemma ArmedKeepsCounts(e: Engine, base: map<Tid, nat>, t: Tid, actions: seq<Action>, peers: set<Tid>)
    requires Conserved(e, base) && t !in e.listed
    ensures Conserved(Armed(e, t, actions, peers), base)
  {
    var e' := Armed(e, t, actions, peers);
    forall u | u in base ensures e'.suspend[u] == base[u] + |Holders(e', u)| {
      if u in peers {
        assert Holders(e', u) == Holders(e, u) + {t};
      } else {
        assert Holders(e', u) == Holders(e, u);
      }
    }
  }

  lemma RollbackKeepsCounts(e: Engine, base: map<Tid, nat>, t: Tid, left: set<Tid>)
    requires Conserved(e, base) && t !in e.listed
    ensures Conserved(RolledBack(e, t, left), Suspended(base, left))
  {
    assert forall u :: Holders(RolledBack(e, t, left), u) == Holders(e, u);
  }

  /** Whatever the system answers, the count equation survives; a refused resume in the rollback
      counts as a base suspension from then on. */
  lemma ScheduleKeepsCounts(e: Engine, base: map<Tid, nat>, t: Tid, action: Action, reply: Reply)
    requires Conserved(e, base) && (t !in e.hidden ==> t !in e.listed)
    ensures Conserved(Schedule(e, t, action, reply), Suspended(base, LeftBehind(e, t, reply)))
  {
    var taken := TakeUserStep(e, t);
    ResumeUndoesSuspend(base, {}, {});
    assert forall u :: Holders(taken, u) == Holders(e, u);
    if reply.Reply? {
      if t in e.hidden {
        var e' := Schedule(e, t, action, reply);
        assert forall u :: Holders(e', u) == Holders(e, u);
      } else if t in e.threads {
        ArmedKeepsCounts(taken, base, t, TakenActions(e, t, action), Caught(e, t, reply));
        RollbackKeepsCounts(taken, base, t, Caught(e, t, reply) * reply.stuck);
      }
    }
  }

  lemma ArmedKeepsForm(e: Engine, t: Tid, actions: seq<Action>, peers: set<Tid>)
    requires WellFormed(e, {}) && t in e.threads && t !in e.hidden && peers <= e.threads - {t}
    requires forall i | 0 <= i < |actions| && actions[i].UserStep? :: i == 1
    ensures WellFormed(Armed(e, t, actions, peers), {})
    ensures Isolated(e) && peers == e.threads - {t} ==> Isolated(Armed(e, t, actions, peers))
  {
  }

  lemma RollbackKeepsForm(e: Engine, t: Tid, left: set<Tid>)
    requires WellFormed(e, {}) && t !in e.hidden
    ensures WellFormed(RolledBack(e, t, left), {})
  {
  }

  lemma ChainKeepsUserSteps(hidden: map<Tid, seq<Action>>, t: Tid, action: Action)
    requires UserStepsSecond(hidden) && t in hidden && !action.UserStep?
    ensures UserStepsSecond(hidden[t := hidden[t] + [action]])
  {
  }

  lemma TakingKeepsForm(e: Engine, t: Tid)
    requires WellFormed(e, {})
    ensures WellFormed(TakeUserStep(e, t), {}) && (Isolated(e) ==> Isolated(TakeUserStep(e, t)))
  {
  }

  lemma ScheduleKeepsForm(e: Engine, t: Tid, action: Action, reply: Reply)
    requires WellFormed(e, {}) && !action.UserStep?
    ensures WellFormed(Schedule(e, t, action, reply), {})
    ensures Isolated(e) && Grants(e, reply) ==> Isolated(Schedule(e, t, action, reply))
  {
    if t in e.hidden {
      ChainKeepsUserSteps(e.hidden, t, action);
    } else if t in e.threads && reply.Reply? {
      TakingKeepsForm(e, t);
      ArmedKeepsForm(TakeUserStep(e, t), t, TakenActions(e, t, action), Caught(e, t, reply));
      RollbackKeepsForm(TakeUserStep(e, t), t, Caught(e, t, reply) * reply.stuck);
    }
  }

  /** No queue of pending actions loses anything. */
  lemma ScheduleKeepsQueue(e: Engine, t: Tid, action: Action, reply: Reply, u: Tid)
    requires u in e.hidden
    ensures u in Schedule(e, t, action, reply).hidden && e.hidden[u] <= Schedule(e, t, action, reply).hidden[u]
  {
    if reply.Reply? && t in e.hidden && t == u {
      assert Schedule(e, t, action, reply).hidden[u] == e.hidden[u] + [action];
    }
  }

  lemma BeginKeepsForm(e: Engine, base: map<Tid, nat>, t: Tid)
    requires WellFormed(e, {}) && t in e.hidden && Conserved(e, base)
    ensures WellFormed(BeginCompletion(e, t), {t}) && Conserved(BeginCompletion(e, t), base)
  {
  }

  lemma EndKeepsCounts(e: Engine, base: map<Tid, nat>, t: Tid, stuck: set<Tid>)
    requires Conserved(e, base)
    ensures Conserved(EndCompletion(e, t, stuck), Suspended(base, if t in e.listed then e.listed[t] * stuck else {}))
  {
    var e' := EndCompletion(e, t, stuck);
    var left := if t in e.listed then e.listed[t] * stuck else {};
    forall u | u in base ensures e'.suspend[u] == Suspended(base, left)[u] + |Holders(e', u)| {
      if t in Holders(e, u) {
        assert Holders(e', u) == Holders(e, u) - {t};
      } else {
        assert Holders(e', u) == Holders(e, u);
      }
    }
  }

  lemma EndKeepsForm(e: Engine, t: Tid, stuck: set<Tid>)
    requires WellFormed(e, {t})
    ensures WellFormed(EndCompletion(e, t, stuck), {})
  {
  }

  lemma RequestKeepsForm(e: Engine, base: map<Tid, nat>, completing: set<Tid>,
                         t: Tid, token: Token, status: Status, systemId: nat)
    requires WellFormed(e, completing) && Conserved(e, base) && !status.GoHandled?
    ensures WellFormed(RequestStep(e, t, token, status, systemId), completing)
    ensures Conserved(RequestStep(e, t, token, status, systemId), base)
  {
  }

  lemma FinishKeepsForm(e: Engine, base: map<Tid, nat>, t: Tid)
    requires WellFormed(e, {}) && Conserved(e, base) && t !in e.hidden
    ensures WellFormed(FinishStep(e, t), {}) && Conserved(FinishStep(e, t), base)
  {
  }

  /** A new thread joins at any time; only the isolation of a hidden step that is pending then is lost. */
  lemma StartKeepsForm(e: Engine, base: map<Tid, nat>, t: Tid)
    requires WellFormed(e, {}) && Conserved(e, base)
    ensures WellFormed(Start(e, t), {}) && Conserved(Start(e, t), base)
    ensures Isolated(e) ==> (Isolated(Start(e, t)) <==> t in e.threads || e.listed == map[])
  {
    var e' := Start(e, t);
    assert forall u :: Holders(e', u) == Holders(e, u);
    if Isolated(e) && t !in e.threads && e.listed != map[] {
      var u :| u in e.listed;
      assert e.listed[u] == e.threads - {u} && t in e'.threads - {u};
    }
  }

  lemma NoListNoHolders(e: Engine)
    requires e.listed == map[]
    ensures forall u :: Holders(e, u) == {}
  {
  }

  lemma ExitKeepsForm(e: Engine, base: map<Tid, nat>, t: Tid)
    requires WellFormed(e, {}) && Conserved(e, base) && e.hidden == map[]
    ensures WellFormed(Exit(e, t), {}) && Conserved(Exit(e, t), base) && Exit(e, t).listed == map[]
  {
    assert e.listed.Keys == {};
    assert e.listed == map[];
    NoListNoHolders(e);
    NoListNoHolders(Exit(e, t));
  }

  // ---- User steps and their statuses ------------------------------------

  /** A registered user step has a status that asks the engine to step, and no hidden step that would erase it. */
  ghost predicate NoneStranded(e: Engine) {
    forall t | t in e.steps :: t !in e.hidden && t in e.statuses
  }

  lemma TakingStrandsNone(e: Engine, t: Tid)
    requires NoneStranded(e)
    ensures NoneStranded(TakeUserStep(e, t)) && t !in TakeUserStep(e, t).steps
  {
  }

  lemma ArmedStrandsNone(e: Engine, t: Tid, actions: seq<Action>, peers: set<Tid>, left: set<Tid>)
    requires NoneStranded(e) && t !in e.steps
    ensures NoneStranded(Armed(e, t, actions, peers)) && NoneStranded(RolledBack(e, t, left))
  {
  }

  lemma ScheduleStrandsNone(e: Engine, t: Tid, action: Action, reply: Reply)
    requires NoneStranded(e)
    ensures NoneStranded(Schedule(e, t, action, reply))
  {
    if reply.Reply? && t !in e.hidden {
      TakingStrandsNone(e, t);
      ArmedStrandsNone(TakeUserStep(e, t), t, TakenActions(e, t, action), Caught(e, t, reply),
                       Caught(e, t, reply) * reply.stuck);
    }
  }

  lemma CompletionStrandsNone(e: Engine, t: Tid, stuck: set<Tid>)
    requires NoneStranded(e)
    ensures t in e.hidden ==> NoneStranded(BeginCompletion(e, t))
    ensures NoneStranded(EndCompletion(e, t, stuck))
    ensures NoneStranded(FinishStep(e, t)) && NoneStranded(Start(e, t)) && NoneStranded(Exit(e, t))
  {
  }

  /** A request strands its step exactly when the thread has a hidden step pending at that moment. */
  lemma RequestStrandsNoneIff(e: Engine, t: Tid, token: Token, status: Status, systemId: nat)
    requires NoneStranded(e) && t !in e.steps
    ensures NoneStranded(RequestStep(e, t, token, status, systemId)) <==> t !in e.hidden
  {
    var e' := RequestStep(e, t, token, status, systemId);
    assert t in e'.steps;
  }

  ghost predicate StepHasStatus(e: Engine, t: Tid) {
    t in e.steps ==> t in e.statuses
  }

  /** completeInternalStep, which does nothing for a thread without a hidden step. */
  function Completed(e: Engine, t: Tid): Engine {
    if t in e.hidden then EndCompletion(BeginCompletion(e, t), t, {}) else e
  }

  /** The harm itself: after the completion the step is registered without a status, so nothing asks the
      engine to step, exactly when it was requested while the hidden step was pending. */
  lemma RequestOutlivesCompletionIff(e: Engine, t: Tid, token: Token, status: Status, systemId: nat)
    requires t !in e.steps
    ensures StepHasStatus(Completed(RequestStep(e, t, token, status, systemId), t), t) <==> t !in e.hidden
  {
  }

  /** A run that reaches that state: two watched pages under one instruction, and a step requested
      from the second callback. */
  lemma SecondHitStrandsUserStep(e: Engine, t: Tid, p: int, q: int, token: Token)
    requires WellFormed(e, {}) && t in e.threads && t !in e.hidden && t !in e.steps
    ensures
      var all := Reply(e.threads, true, {});
      var first := Schedule(e, t, RearmPage(p), all);
      var second := Schedule(RequestStep(first, t, token, StepIntoStatus, 0), t, RearmPage(q), all);
      var end := Completed(second, t);
      second.hidden[t] == [RearmPage(p), RearmPage(q)] && t in end.steps && !StepHasStatus(end, t)
  {
  }

  /** What debugStep leaves behind, thread by thread: the request is registered for its own thread with its system
      id, an execution status that is there already stays, and a request during another step changes nothing. */
  lemma RequestStoresStep(e: Engine, t: Tid, token: Token, status: Status, systemId: nat, u: Tid)
    ensures var n := RequestStep(e, t, token, status, systemId);
      && (t in e.steps ==> n == e)
      && t in n.steps && (t in e.steps ==> n == e)
      && (t !in e.steps ==> n.steps[t] == token && t in n.stepIds && n.stepIds[t] == systemId)
      && (t !in e.steps ==> t in n.statuses && n.statuses[t] == if t in e.statuses then e.statuses[t] else status)
      && (u != t ==> SameSteps(e, n, u))
  {
  }

  /** Nothing that belongs to thread `u` differs. */
  predicate SameSteps(e: Engine, n: Engine, u: Tid) {
    && (u in n.steps <==> u in e.steps) && (u in e.steps ==> n.steps[u] == e.steps[u])
    && (u in n.stepIds <==> u in e.stepIds) && (u in e.stepIds ==> n.stepIds[u] == e.stepIds[u])
    && (u in n.statuses <==> u in e.statuses) && (u in e.statuses ==> n.statuses[u] == e.statuses[u])
    && (u in n.hidden <==> u in e.hidden) && (u in e.hidden ==> n.hidden[u] == e.hidden[u])
    && (u in n.listed <==> u in e.listed) && (u in e.listed ==> n.listed[u] == e.listed[u])
    && (u in n.threads <==> u in e.threads) && (u in n.trap <==> u in e.trap)
  }

  /** A thread that exits is in no table any more; no other thread's entries move and nobody is resumed. */
  lemma ExitForgetsThread(e: Engine, t: Tid, u: Tid)
    ensures var n := Exit(e, t);
      && t !in n.threads && t !in n.steps && t !in n.stepIds && t !in n.statuses && t !in n.hidden && t !in n.listed
      && n.suspend == e.suspend
      && (u != t ==> SameSteps(e, n, u))
  {
  }

  // ---- The status the target continues with ------------------------------

  predicate IsLowest(statuses: map<Tid, Status>, u: Tid) {
    u in statuses && forall v | v in statuses :: u <= v
  }

  /** finishDebugEvent, for an event that counts as handled: the status asked for during the event, or else
      that of the thread with the lowest index, whichever thread raised the event. */
  ghost predicate ContinuesWith(e: Engine, asked: Option<Status>, status: Status) {
    if asked.Some? then status == asked.value
    else if e.statuses == map[] then status.GoHandled?
    else exists u :: IsLowest(e.statuses, u) && e.statuses[u] == status
  }

  lemma LowestWithNew(statuses: map<Tid, Status>, t: Tid, status: Status, u: Tid)
    ensures IsLowest(statuses[t := status], u) <==>
            (u < t && IsLowest(statuses, u)) || (u == t && forall v | v in statuses :: t <= v)
  {
    assert t in statuses[t := status];
    assert forall v | v in statuses :: v in statuses[t := status];
  }

  lemma LowestExists(statuses: map<Tid, Status>)
    requires statuses != map[]
    ensures exists u :: IsLowest(statuses, u)
  {
    var u := LowestOf(statuses.Keys);
    assert IsLowest(statuses, u);
  }

  lemma {:induction false} LowestOf(s: set<Tid>) returns (u: Tid)
    requires s != {}
    ensures u in s && forall v: Tid | v in s :: u <= v
    decreases s
  {
    u :| u in s;
    if s != {u} {
      var v := LowestOf(s - {u});
      assert forall w | w in s :: w == u || w in s - {u};
      u := if u <= v then u else v;
    }
  }

  /** A guard fault or a breakpoint whose thread steps under the trap flag must be continued as handled. It is exactly
      when its callback asked for no step and no thread of lower index decides with a user step of its own. */
  lemma StepContinuesHandledIff(e: Engine, t: Tid, action: Action, reply: Reply, asked: Option<Status>)
    requires WellFormed(e, {}) && t in e.threads && t !in e.hidden && Grants(e, reply)
    ensures ContinuesWith(Schedule(e, t, action, reply), asked, GoHandled) <==>
            asked == Some(GoHandled) ||
            (asked.None? && forall u: Tid | u < t && IsLowest(e.statuses, u) :: u in e.hidden)
  {
    var n := Schedule(e, t, action, reply);
    assert n.statuses == e.statuses[t := GoHandled] && t in n.statuses;
    LowestExists(n.statuses);
    var u :| IsLowest(n.statuses, u);
    LowestWithNew(e.statuses, t, GoHandled, u);
    forall v | IsLowest(n.statuses, v) ensures v == u {
    }
    if u == t {
      assert n.statuses[u].GoHandled?;
    }
  }

  /** Every execution status belongs to a registered user step or to a pending hidden one. */
  predicate StatusesNamed(e: Engine) {
    e.statuses.Keys <= e.steps.Keys + e.hidden.Keys
  }

  /** A refused trap flag, or a thread without a handle, forgets the user step but not its status: the engine is
      asked to step on at every later event, with nobody waiting for it. Nothing else leaves a status behind. */
  lemma ScheduleLeavesNoStaleStatusIff(e: Engine, t: Tid, action: Action, reply: Reply)
    requires StatusesNamed(e)
    ensures StatusesNamed(Schedule(e, t, action, reply)) <==>
            t !in e.steps || t !in e.statuses || reply.NoThread? || t in e.hidden || (t in e.threads && reply.flagSet)
  {
    if reply.Reply? && t in e.threads && t !in e.hidden {
      assert reply.flagSet ==> t in Schedule(e, t, action, reply).hidden;
    } else if reply.Reply? && t in e.hidden {
      assert Schedule(e, t, action, reply).hidden.Keys == e.hidden.Keys;
    }
  }

  // ---- Where the code loses something -----------------------------------

  /** A thread exit keeps the suspend counts in balance exactly when that thread had suspended nobody:
      ExitThread forgets the list without resuming it. */
  lemma ExitKeepsCountsIff(e: Engine, base: map<Tid, nat>, t: Tid)
    requires Conserved(e, base) && (t in e.listed ==> e.listed[t] <= base.Keys)
    ensures Conserved(Exit(e, t), base) <==> t !in e.listed || e.listed[t] == {}
  {
    var e' := Exit(e, t);
    forall u | u in base ensures t in Holders(e, u) ==> Holders(e', u) == Holders(e, u) - {t}
      ensures t !in Holders(e, u) ==> Holders(e', u) == Holders(e, u)
    {
    }
    if t in e.listed && e.listed[t] != {} {
      var u :| u in e.listed[t];
      assert t in Holders(e, u) && |Holders(e', u)| < |Holders(e, u)|;
      assert e'.suspend[u] != base[u] + |Holders(e', u)|;
    } else {
      assert forall u | u in base :: t !in Holders(e, u);
    }
  }

  /** The peers of a hidden step are all held exactly when the system suspends every one of them: a refused
      suspension is skipped without an error. */
  lemma ArmIsolatesIff(e: Engine, t: Tid, actions: seq<Action>, reply: Reply)
    requires Isolated(e) && reply.Reply? && reply.flagSet
    ensures Isolated(Arm(e, t, actions, reply)) <==> e.threads - {t} <= reply.canSuspend
  {
    var e' := Arm(e, t, actions, reply);
    assert e'.listed[t] == (e.threads - {t}) * reply.canSuspend;
    if Isolated(e') {
      assert e'.listed[t] == e.threads - {t};
    } else {
      assert forall u | u in e.listed :: e.listed[u] == e.threads - {u};
    }
  }

  predicate HasAction(e: Engine, t: Tid, action: Action) {
    t in e.hidden && action in e.hidden[t]
  }

  /** A re-arm is queued exactly when it was before, or the current thread can be read and has a hidden step already
      or is known and takes the trap flag; otherwise the exposed page or the restored patch has nobody left
      to arm it. */
  lemma ScheduleKeepsActionIff(e: Engine, t: Tid, action: Action, reply: Reply)
    ensures HasAction(Schedule(e, t, action, reply), t, action) <==>
            HasAction(e, t, action) || (reply.Reply? && (t in e.hidden || (t in e.threads && reply.flagSet)))
  {
    var e' := Schedule(e, t, action, reply);
    if reply.NoThread? {
    } else if t in e.hidden {
      assert e'.hidden[t][|e.hidden[t]|] == action;
    } else if t in e.threads && reply.flagSet {
      assert e'.hidden[t][0] == action;
    }
  }

  /** A granted schedule puts the thread under the trap flag with its action queued. */
  lemma GrantedStepIsPending(e: Engine, t: Tid, action: Action, reply: Reply)
    requires WellFormed(e, {}) && t in e.threads && !action.UserStep? && Grants(e, reply)
    ensures HasAction(Schedule(e, t, action, reply), t, action) && t in Schedule(e, t, action, reply).trap
  {
    ScheduleKeepsActionIff(e, t, action, reply);
    ScheduleKeepsForm(e, t, action, reply);
  }

  ghost predicate Awaits(e: Engine, token: Token) {
    || (exists t :: t in e.steps && e.steps[t] == token)
    || (exists t, i :: t in e.hidden && 0 <= i < |e.hidden[t]| && e.hidden[t][i] == UserStep(token))
  }

  lemma DroppedStepIsForgotten(e: Engine, e': Engine, t: Tid)
    requires t in e.steps && e'.hidden == e.hidden && e'.steps == e.steps - {t}
    requires forall u | u in e.steps && u != t :: e.steps[u] != e.steps[t]
    requires forall u, i | u in e.hidden && 0 <= i < |e.hidden[u]| :: e.hidden[u][i] != UserStep(e.steps[t])
    ensures !Awaits(e', e.steps[t])
  {
  }

  /** A registered user step survives scheduling exactly when nothing is scheduled because the current thread cannot
      be read, or the thread already has a hidden step, or it is known and takes the trap flag; on the other
      exits the callback is forgotten. */
  lemma ScheduleKeepsUserStepIff(e: Engine, t: Tid, action: Action, reply: Reply)
    requires WellFormed(e, {}) && t in e.steps && !action.UserStep?
    requires forall u | u in e.steps && u != t :: e.steps[u] != e.steps[t]
    requires forall u, i | u in e.hidden && 0 <= i < |e.hidden[u]| :: e.hidden[u][i] != UserStep(e.steps[t])
    ensures Awaits(Schedule(e, t, action, reply), e.steps[t]) <==>
            reply.NoThread? || t in e.hidden || (t in e.threads && reply.flagSet)
  {
    var e' := Schedule(e, t, action, reply);
    if reply.NoThread? || t in e.hidden {
      assert t in e'.steps && e'.steps[t] == e.steps[t];
    } else if t in e.threads && reply.flagSet {
      assert e'.hidden[t][1] == UserStep(e.steps[t]);
    } else {
      DroppedStepIsForgotten(e, e', t);
    }
  }
}

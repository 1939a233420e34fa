/** The hidden-step functions over mutable tables: the suspend and resume loops,
    the trap flag and the status map. */
module StepScheduler {
  import opened Common
  import opened StepEngine

  function AsSet<T>(s: seq<T>): set<T> { set x | x in s }

  lemma SuspendMore(suspend: map<Tid, nat>, peers: set<Tid>, u: Tid)
    requires u in suspend && u !in peers
    ensures Suspended(suspend, peers)[u := Suspended(suspend, peers)[u] + 1] == Suspended(suspend, peers + {u})
  {
  }

  lemma ResumeMore(suspend: map<Tid, nat>, peers: set<Tid>, u: Tid)
    requires u in suspend && u !in peers
    ensures suspend[u] > 0 ==>
      Resumed(suspend, peers)[u := (suspend[u] - 1) as nat] == Resumed(suspend, peers + {u})
    ensures suspend[u] == 0 ==> Resumed(suspend, peers) == Resumed(suspend, peers + {u})
  {
  }

  lemma PeerStep(peers: seq<Tid>, k: nat)
    requires NoRepeats(peers) && k < |peers|
    ensures peers[k] in AsSet(peers) && peers[k] !in AsSet(peers[..k])
    ensures AsSet(peers[..k + 1]) == AsSet(peers[..k]) + {peers[k]}
  {
  }

  function AsSets(listed: map<Tid, seq<Tid>>): map<Tid, set<Tid>> {
    map t | t in listed :: AsSet(listed[t])
  }

  lemma AsSetsFollows(listed: map<Tid, seq<Tid>>, t: Tid, peers: seq<Tid>)
    ensures AsSets(listed[t := peers]) == AsSets(listed)[t := AsSet(peers)]
    ensures AsSets(listed - {t}) == AsSets(listed) - {t}
  {
  }

  ghost predicate ListsKnown(listed: map<Tid, seq<Tid>>, known: set<Tid>) {
    forall t | t in listed :: NoRepeats(listed[t]) && AsSet(listed[t]) <= known
  }

  class Scheduler {
    var threads: set<Tid>
    var hidden: map<Tid, seq<Action>>
    var listed: map<Tid, seq<Tid>>
    var steps: map<Tid, Token>
    var stepIds: map<Tid, nat>
    var statuses: map<Tid, Status>
    var nextStatus: Option<Status>         // asked for during the event in hand
    var suspend: map<Tid, nat>
    var trap: set<Tid>
    ghost var refusals: nat                // how often an engine or system call has failed

    function View(): Engine
      reads this
    {
      Engine(threads, hidden, AsSets(listed), steps, stepIds, statuses, suspend, trap)
    }

    ghost predicate Valid()
      reads this
    {
      threads <= suspend.Keys && ListsKnown(listed, suspend.Keys)
    }

    constructor (threads: set<Tid>, suspend: map<Tid, nat>)
      requires threads <= suspend.Keys
      ensures Valid() && View() == Engine(threads, map[], map[], map[], map[], map[], suspend, {})
    {
      this.threads, this.suspend := threads, suspend;
      hidden, listed, steps, stepIds, statuses, trap := map[], map[], map[], map[], map[], {};
      nextStatus, refusals := None, 0;
    }

    /** The loop that suspends every other known thread; a thread that refuses is skipped. */
    method SuspendPeers(t: Tid) returns (peers: seq<Tid>, ghost willing: set<Tid>)
      requires threads <= suspend.Keys
      modifies this`suspend, this`refusals
      ensures NoRepeats(peers) && AsSet(peers) == (threads - {t}) * willing
      ensures suspend == Suspended(old(suspend), AsSet(peers))
      ensures refusals >= old(refusals) && (refusals == old(refusals) ==> threads <= willing)
    {
      peers, willing := [], {t};
      ghost var before := suspend;
      var rest := threads - {t};
      assert Suspended(before, AsSet(peers)) == before;
      while rest != {}
        invariant rest <= threads - {t}
        invariant NoRepeats(peers) && AsSet(peers) == (threads - {t} - rest) * willing
        invariant willing <= threads + {t} - rest
        invariant suspend == Suspended(before, AsSet(peers))
        invariant refusals >= old(refusals) && (refusals == old(refusals) ==> threads - rest <= willing)
        decreases rest
      {
        var other :| other in rest;
        var refused: bool := *;
        if !refused {
          SuspendMore(before, AsSet(peers), other);
          assert AsSet(peers + [other]) == AsSet(peers) + {other};
          assert forall i | 0 <= i < |peers| :: peers[i] in AsSet(peers);
          suspend := suspend[other := suspend[other] + 1];
          peers := peers + [other];
          willing := willing + {other};
        } else {
          refusals := refusals + 1;
        }
        rest := rest - {other};
      }
    }

    /** The resume loop, whose results nobody looks at; `stuck` are the threads that stay suspended. */
    method ResumeAll(peers: seq<Tid>) returns (ghost stuck: set<Tid>)
      requires NoRepeats(peers) && AsSet(peers) <= suspend.Keys
      modifies this`suspend, this`refusals
      ensures suspend == Resumed(old(suspend), AsSet(peers) - stuck)
      ensures refusals >= old(refusals) && (refusals == old(refusals) ==> stuck == {})
    {
      ghost var before := suspend;
      stuck := {};
      assert Resumed(before, AsSet(peers[..0]) - stuck) == before;
      for k := 0 to |peers|
        invariant suspend == Resumed(before, AsSet(peers[..k]) - stuck) && stuck <= AsSet(peers[..k])
        invariant refusals >= old(refusals) && (refusals == old(refusals) ==> stuck == {})
      {
        PeerStep(peers, k);
        var refused: bool := *;
        if refused {
          assert AsSet(peers[..k + 1]) - (stuck + {peers[k]}) == AsSet(peers[..k]) - stuck;
          stuck := stuck + {peers[k]};
          refusals := refusals + 1;
        } else {
          ResumeMore(before, AsSet(peers[..k]) - stuck, peers[k]);
          assert AsSet(peers[..k + 1]) - stuck == AsSet(peers[..k]) - stuck + {peers[k]};
          if suspend[peers[k]] > 0 {
            suspend := suspend[peers[k] := suspend[peers[k]] - 1];
          }
        }
      }
      assert peers[..|peers|] == peers;
    }

    /** The trap flag could not be set: the peers are resumed and their list goes. */
    method RollBack(t: Tid, peers: seq<Tid>) returns (ghost stuck: set<Tid>)
      requires Valid() && NoRepeats(peers) && AsSet(peers) <= suspend.Keys
      modifies this`listed, this`suspend, this`refusals
      ensures Valid() && refusals >= old(refusals)
      ensures suspend == Resumed(old(suspend), AsSet(peers) - stuck)
      ensures AsSets(listed) == AsSets(old(listed)) - {t}
    {
      AsSetsFollows(listed, t, peers);
      stuck := ResumeAll(peers);
      listed := listed - {t};
    }

    /** The trap flag is set: the actions and the list of the peers are stored. */
    method StoreStep(t: Tid, actions: seq<Action>, peers: seq<Tid>)
      requires Valid() && NoRepeats(peers) && AsSet(peers) <= suspend.Keys
      modifies this`hidden, this`listed, this`statuses, this`trap
      ensures Valid() && hidden == old(hidden)[t := actions] && statuses == old(statuses)[t := GoHandled]
      ensures trap == old(trap) + {t} && AsSets(listed) == AsSets(old(listed))[t := AsSet(peers)]
    {
      AsSetsFollows(listed, t, peers);
      hidden := hidden[t := actions];
      statuses := statuses[t := GoHandled];
      trap := trap + {t};
      listed := listed[t := peers];
    }

    /** The second part of scheduleInternalStep. */
    method ArmHiddenStep(t: Tid, actions: seq<Action>) returns (ghost reply: Reply)
      requires Valid() && t !in listed
      modifies this`hidden, this`listed, this`statuses, this`suspend, this`trap, this`refusals
      ensures reply.Reply? && Valid() && View() == Arm(old(View()), t, actions, reply)
      ensures refusals >= old(refusals) && (refusals == old(refusals) ==> Grants(old(View()), reply))
    {
      ghost var before := suspend;
      var peers;
      ghost var willing;
      peers, willing := SuspendPeers(t);
      var refused: bool := *;
      if refused {
        refusals := refusals + 1;
        ghost var stuck := RollBack(t, peers);
        ResumeUndoesSuspend(before, AsSet(peers), stuck);
        reply := Reply(willing, false, stuck);
      } else {
        StoreStep(t, actions, peers);
        reply := Reply(willing, true, {});
      }
    }

    /** scheduleInternalStep; what the engine and the system answered is the result. */
    method ScheduleInternalStep(t: Tid, action: Action) returns (ghost reply: Reply)
      requires Valid() && (t !in hidden ==> t !in listed)
      modifies this`hidden, this`listed, this`steps, this`stepIds, this`statuses, this`suspend, this`trap, this`refusals
      ensures Valid() && View() == Schedule(old(View()), t, action, reply)
      ensures refusals >= old(refusals) && (refusals == old(refusals) ==> Grants(old(View()), reply))
    {
      var unreadable: bool := *;
      if unreadable {
        refusals := refusals + 1;
        return NoThread;
      }
      reply := Reply(threads, true, {});
      if t in hidden {
        hidden := hidden[t := hidden[t] + [action]];
        return;
      }
      var actions := [action];
      if t in steps {
        actions := actions + [UserStep(steps[t])];
        steps := steps - {t};
        stepIds := stepIds - {t};
      }
      assert actions == TakenActions(old(View()), t, action);
      assert View() == TakeUserStep(old(View()), t);
      if t in threads {
        reply := ArmHiddenStep(t, actions);
      }
    }

    /** The part of completeInternalStep before the actions run; they come back in order. */
    method BeginCompleting(t: Tid) returns (found: bool, actions: seq<Action>)
      modifies this`hidden, this`statuses, this`trap, this`nextStatus
      ensures found <==> t in old(hidden)
      ensures found ==> actions == old(hidden)[t] && nextStatus == Some(GoHandled)
      ensures found ==> View() == BeginCompletion(old(View()), t)
      ensures found && t in threads ==> t !in trap
      ensures found ==> t !in hidden && t !in statuses && forall u | u != t :: u in trap <==> u in old(trap)
      ensures !found ==> View() == old(View()) && nextStatus == old(nextStatus)
    {
      found, actions := t in hidden, [];
      if found {
        if t in threads {
          trap := trap - {t};
        }
        actions := hidden[t];
        hidden := hidden - {t};
        statuses := statuses - {t};
        nextStatus := Some(GoHandled);
      }
    }

    /** The part of completeInternalStep after the actions have run. */
    method EndCompleting(t: Tid) returns (ghost stuck: set<Tid>)
      requires Valid()
      modifies this`listed, this`suspend, this`refusals
      ensures Valid() && View() == EndCompletion(old(View()), t, stuck)
      ensures refusals >= old(refusals) && (refusals == old(refusals) ==> stuck == {})
    {
      stuck := {};
      if t in listed {
        AsSetsFollows(listed, t, []);
        stuck := ResumeAll(listed[t]);
        listed := listed - {t};
      }
    }

    /** debugStep once the pause lock is held. */
    method DebugStep(t: Tid, token: Token, status: Status, systemId: nat) returns (accepted: bool)
      modifies this`steps, this`stepIds, this`statuses, this`nextStatus
      ensures accepted <==> t !in old(steps)
      ensures View() == RequestStep(old(View()), t, token, status, systemId)
      ensures accepted ==> steps == old(steps)[t := token] && stepIds == old(stepIds)[t := systemId]
      ensures accepted ==> statuses == if t in old(statuses) then old(statuses) else old(statuses)[t := status]
      ensures !accepted ==> View() == old(View())
      ensures nextStatus == if accepted then Some(status) else old(nextStatus)
    {
      if t in steps {
        return false;
      }
      nextStatus := Some(status);
      steps := steps[t := token];
      stepIds := stepIds[t := systemId];
      if t !in statuses {
        statuses := statuses[t := status];
      }
      accepted := true;
    }

    /** The DebugLoop branch for a stop without an event callback: an internal step goes first. */
    method TakeFinishedStep(t: Tid) returns (found: bool, token: Token, systemId: nat)
      requires t !in hidden
      modifies this`steps, this`stepIds, this`statuses
      ensures found <==> t in old(steps)
      ensures found ==> token == old(steps)[t] && (t in old(stepIds) ==> systemId == old(stepIds)[t])
      ensures found ==> View() == FinishStep(old(View()), t)
      ensures found ==> t !in steps && t !in stepIds && t !in statuses
      ensures !found ==> View() == old(View())
    {
      found, token, systemId := t in steps, 0, 0;
      if found {
        token := steps[t];
        if t in stepIds {
          systemId := stepIds[t];
        }
        steps, stepIds, statuses := steps - {t}, stepIds - {t}, statuses - {t};
      }
    }

    /** finishDebugEvent after a handled event in a live session. */
    method FinishEvent() returns (status: Status)
      modifies this`nextStatus
      ensures ContinuesWith(View(), old(nextStatus), status) && nextStatus == Some(status)
    {
      status := GoHandled;
      if nextStatus.Some? {
        return nextStatus.value;
      }
      if statuses != map[] {
        var lowest := Least(statuses.Keys);
        assert IsLowest(statuses, lowest);
        status := statuses[lowest];
      }
      nextStatus := Some(status);
    }

    /** The index map gains the thread of a create event. */
    method AddThread(t: Tid)
      requires Valid() && t in suspend
      modifies this`threads
      ensures Valid() && View() == Start(old(View()), t)
    {
      threads := threads + {t};
    }

    /** The erasures of ExitThread. */
    method ForgetThread(t: Tid)
      requires Valid()
      modifies this`threads, this`hidden, this`listed, this`steps, this`stepIds, this`statuses
      ensures Valid() && View() == Exit(old(View()), t)
    {
      AsSetsFollows(listed, t, []);
      threads := threads - {t};
      steps, stepIds := steps - {t}, stepIds - {t};
      hidden, listed, statuses := hidden - {t}, listed - {t}, statuses - {t};
    }
  }
}

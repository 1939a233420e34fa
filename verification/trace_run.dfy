/** Running a recorded trace forward and backward: runTtd over an integer timeline. */
module TraceRun {
  import opened Common

  datatype ExceptionEvent = ExceptionEvent(position: int, code: nat)

  datatype Outcome =
    | Stopped
    | Interrupted
    | WatchHit(position: int)
    | ExceptionHit(event: ExceptionEvent)
    | ProcessExit
    | ReverseBoundary

  /** The run ended because another thread asked for it. */
  predicate Asked(outcome: Outcome) {
    outcome.Stopped? || outcome.Interrupted?
  }

  const REVERSE_BOUND: nat := 0x1000_0000
  const FALLBACK_STEPS: nat := 1_000_000

  function Max(a: int, b: int): int { if a < b then b else a }

  function Min(a: int, b: int): int { if a < b then a else b }

  // ---- The nearest recorded exception -----------------------------------

  /** Strictly between the current position and the limit, seen in the direction of travel. */
  predicate Between(reverse: bool, p: int, limit: int, q: int) {
    if reverse then limit < q < p else p < q < limit
  }

  /** The selection loop of runTtd: a later event wins only when strictly nearer. */
  function Nearest(events: seq<ExceptionEvent>, reverse: bool, p: int, limit: int): Option<ExceptionEvent> {
    if events == [] then None
    else
      var best := Nearest(events[..|events| - 1], reverse, p, limit);
      if Between(reverse, p, LimitOf(best, limit), events[|events| - 1].position)
      then Some(events[|events| - 1]) else best
  }

  function LimitOf(best: Option<ExceptionEvent>, limit: int): int {
    if best.Some? then best.value.position else limit
  }

  lemma {:induction false} NearestMeaning(events: seq<ExceptionEvent>, reverse: bool, p: int, limit: int)
    ensures var n := Nearest(events, reverse, p, limit);
      && (n.Some? ==> n.value in events && Between(reverse, p, limit, n.value.position))
      && (n.Some? ==> forall e | e in events && Between(reverse, p, limit, e.position) ::
            if reverse then e.position <= n.value.position else n.value.position <= e.position)
      && (n.None? ==> forall e | e in events :: !Between(reverse, p, limit, e.position))
  {
    if events != [] {
      NearestMeaning(events[..|events| - 1], reverse, p, limit);
      assert events == events[..|events| - 1] + [events[|events| - 1]];
    }
  }

  /** Going back, the choice is the greatest recorded position after `first` and before `p`, if there is any. */
  lemma NearestBefore(events: seq<ExceptionEvent>, p: int, first: int)
    ensures var n := Nearest(events, true, p, first);
      && (n.Some? <==> exists e :: e in events && first < e.position < p)
      && (n.Some? ==> n.value in events && first < n.value.position < p)
      && forall e | e in events && first < e.position < p :: e.position <= n.value.position
  {
    NearestMeaning(events, true, p, first);
  }

  /** Going forward, the least one after `p` and before `last`. */
  lemma NearestAfter(events: seq<ExceptionEvent>, p: int, last: int)
    ensures var n := Nearest(events, false, p, last);
      && (n.Some? <==> exists e :: e in events && p < e.position < last)
      && (n.Some? ==> n.value in events && p < n.value.position < last)
      && forall e | e in events && p < e.position < last :: n.value.position <= e.position
  {
    NearestMeaning(events, false, p, last);
  }

  /** Of several exceptions at the chosen position the one listed first is reported. */
  lemma {:induction false} FirstListedWins(events: seq<ExceptionEvent>, reverse: bool, p: int, limit: int)
    ensures var n := Nearest(events, reverse, p, limit);
      n.Some? ==> exists i :: 0 <= i < |events| && events[i] == n.value &&
                              forall j | 0 <= j < i :: events[j].position != n.value.position
  {
    if events != [] {
      var rest := events[..|events| - 1];
      FirstListedWins(rest, reverse, p, limit);
      NearestMeaning(rest, reverse, p, limit);
      var best, n := Nearest(rest, reverse, p, limit), Nearest(events, reverse, p, limit);
      if n.Some? && n == best {
        var i :| 0 <= i < |rest| && rest[i] == n.value && forall j | 0 <= j < i :: rest[j].position != n.value.position;
        assert events[i] == n.value && forall j | 0 <= j < i :: events[j] == rest[j];
      } else if n.Some? {
        var last := |events| - 1;
        forall j | 0 <= j < last ensures events[j].position != n.value.position {
          assert events[j] == rest[j] && rest[j] in rest;
        }
        assert events[last] == n.value;
      }
    }
  }

  // ---- One run, with no watchpoint and no request to stop ----------------

  function ForwardStop(events: seq<ExceptionEvent>, p: int, last: int): int {
    var n := Nearest(events, false, p, last);
    if n.Some? then n.value.position else if p < last then last - 1 else p
  }

  /** `reach` is how far back one reverse run can get on this replay runtime. */
  function ReverseStop(events: seq<ExceptionEvent>, p: int, first: int, reach: nat): int {
    Max(LimitOf(Nearest(events, true, p, first), first), p - reach)
  }

  /** The exception positions that successive forward runs from `p` stop at. */
  function Stops(events: seq<ExceptionEvent>, p: int, last: int): seq<int>
    decreases last - p
  {
    var n := Nearest(events, false, p, last);
    NearestMeaning(events, false, p, last);
    if n.None? then [] else [n.value.position] + Stops(events, n.value.position, last)
  }

  /** `k` forward runs from `p`. */
  function AfterRuns(events: seq<ExceptionEvent>, p: int, last: int, k: nat): int
    decreases k
  {
    if k == 0 then p else AfterRuns(events, ForwardStop(events, p, last), last, k - 1)
  }

  /** Successive runs stop at every later exception position once, in increasing order. */
  lemma {:induction false} StopsAreTheLaterExceptions(events: seq<ExceptionEvent>, p: int, last: int)
    ensures forall i, j | 0 <= i < j < |Stops(events, p, last)| :: Stops(events, p, last)[i] < Stops(events, p, last)[j]
    ensures forall q :: q in Stops(events, p, last) <==> exists e :: e in events && e.position == q && p < q < last
    decreases last - p
  {
    var n := Nearest(events, false, p, last);
    NearestMeaning(events, false, p, last);
    if n.Some? {
      StopsAreTheLaterExceptions(events, n.value.position, last);
      assert n.value in events;
      var rest := Stops(events, n.value.position, last);
      forall i, j | 0 <= i < j < |Stops(events, p, last)|
        ensures Stops(events, p, last)[i] < Stops(events, p, last)[j]
      {
        assert rest[j - 1] in rest;
      }
    }
  }

  /** The k-th run reaches the k-th stop; the run after the last stop parks one before the end,
      and from there every further run comes back to the same position. */
  lemma {:induction false} RunsVisitStopsThenPark(events: seq<ExceptionEvent>, p: int, last: int, k: nat)
    requires p < last
    ensures var stops := Stops(events, p, last);
      AfterRuns(events, p, last, k) ==
        if k == 0 then p else if k <= |stops| then stops[k - 1] else last - 1
    decreases last - p, k
  {
    if k > 0 {
      var n := Nearest(events, false, p, last);
      NearestMeaning(events, false, p, last);
      if n.Some? {
        RunsVisitStopsThenPark(events, n.value.position, last, k - 1);
      } else {
        ParkedStaysParked(events, last, k - 1);
        StopsAreTheLaterExceptions(events, p, last);
      }
    }
  }

  lemma {:induction false} ParkedStaysParked(events: seq<ExceptionEvent>, last: int, k: nat)
    ensures AfterRuns(events, last - 1, last, k) == last - 1
    decreases k
  {
    if k > 0 {
      NearestMeaning(events, false, last - 1, last);
      ParkedStaysParked(events, last, k - 1);
    }
  }

  /** A run from the very end has nowhere to go and parks nowhere. */
  lemma EndStaysEnd(events: seq<ExceptionEvent>, last: int)
    ensures ForwardStop(events, last, last) == last
  {
    NearestAfter(events, last, last);
  }

  ghost predicate IsLastBefore(events: seq<ExceptionEvent>, p: int, first: int, q: int) {
    first < q < p && forall e | e in events && first < e.position < p :: e.position <= q
  }

  /** A reverse run goes back to the greatest of the start, the reach and the recorded positions between the start
      and here. So it never passes an exception, and stops at the nearest one exactly when that is within reach. */
  lemma ReverseStopsAtExceptionIff(events: seq<ExceptionEvent>, p: int, first: int, reach: nat)
    requires first <= p && 0 < reach
    ensures var stop := ReverseStop(events, p, first, reach);
      && first <= stop <= p && p - stop <= reach && (first < p ==> stop < p)
      && (forall e | e in events && first < e.position < p :: e.position <= stop)
      && (stop == first || stop == p - reach || exists e :: e in events && first < e.position < p && e.position == stop)
      && (forall e | e in events && IsLastBefore(events, p, first, e.position) ::
            stop == e.position <==> p - e.position <= reach)
  {
    NearestBefore(events, p, first);
  }

  /** The positions that successive reverse runs from `p` stop at, down to the start of the recording. */
  function BackTrail(events: seq<ExceptionEvent>, p: int, first: int, reach: nat): seq<int>
    requires 0 < reach
    decreases p - first
  {
    if p <= first then []
    else
      ReverseStopsAtExceptionIff(events, p, first, reach);
      var stop := ReverseStop(events, p, first, reach);
      [stop] + BackTrail(events, stop, first, reach)
  }

  /** Why a reverse run from `p` may end at `q`. */
  ghost predicate StopsFor(events: seq<ExceptionEvent>, p: int, first: int, reach: nat, q: int) {
    q == first || q == p - reach || exists e :: e in events && e.position == q
  }

  /** Successive reverse runs go strictly back, meet every earlier exception once and end at the start; they stop
      nowhere else but where the reach of one run ends. */
  lemma {:induction false} TrailMeetsEarlierExceptions(events: seq<ExceptionEvent>, p: int, first: int, reach: nat)
    requires first <= p && 0 < reach
    ensures var trail := BackTrail(events, p, first, reach);
      && (forall i, j | 0 <= i < j < |trail| :: trail[i] > trail[j])
      && (forall q | q in trail :: first <= q < p)
      && (forall e | e in events && first < e.position < p :: e.position in trail)
      && (first < p ==> trail != [] && trail[|trail| - 1] == first)
      && (forall i, j | 0 <= i && j == i + 1 < |trail| :: StopsFor(events, trail[i], first, reach, trail[j]))
      && (first < p ==> StopsFor(events, p, first, reach, trail[0]))
    decreases p - first
  {
    if first < p {
      ReverseStopsAtExceptionIff(events, p, first, reach);
      var stop := ReverseStop(events, p, first, reach);
      TrailMeetsEarlierExceptions(events, stop, first, reach);
      var rest, trail := BackTrail(events, stop, first, reach), BackTrail(events, p, first, reach);
      assert trail == [stop] + rest;
      forall i, j | 0 <= i < j < |trail| ensures trail[i] > trail[j] {
        assert rest[j - 1] in rest;
      }
      forall i, j | 0 <= i && j == i + 1 < |trail| ensures StopsFor(events, trail[i], first, reach, trail[j]) {
        if i > 0 {
          assert trail[i] == rest[i - 1] && trail[j] == rest[j - 1];
        }
      }
    }
  }

  /** `k` reverse runs from `p`. */
  function AfterReverseRuns(events: seq<ExceptionEvent>, p: int, first: int, reach: nat, k: nat): int
    decreases k
  {
    if k == 0 then p else AfterReverseRuns(events, ReverseStop(events, p, first, reach), first, reach, k - 1)
  }

  /** The k-th reverse run reaches the k-th stop; from the start every further one stays there. */
  lemma {:induction false} ReverseRunsVisitTrail(events: seq<ExceptionEvent>, p: int, first: int, reach: nat, k: nat)
    requires first <= p && 0 < reach
    ensures var trail := BackTrail(events, p, first, reach);
      AfterReverseRuns(events, p, first, reach, k) ==
        if k == 0 then p else if k <= |trail| then trail[k - 1] else first
    decreases k
  {
    if k > 0 {
      ReverseStopsAtExceptionIff(events, p, first, reach);
      ReverseRunsVisitTrail(events, ReverseStop(events, p, first, reach), first, reach, k - 1);
      if first < p {
        TrailMeetsEarlierExceptions(events, p, first, reach);
      }
    }
  }

  // ---- The run as the adapter performs it -------------------------------

  /** `hits` are the positions at which an accepted watchpoint fires. A sparse runtime treats a long
      reverse replay as one of zero length. */
  class ReplaySession {
    const first: int
    const last: int
    const exceptions: seq<ExceptionEvent>
    const hits: set<int>
    const sparse: bool
    var position: int
    var watch: Option<int>
    var exitBoundary: Option<int>
    var stopRequested: bool
    var interruptRequested: bool
    ghost var requests: nat                // how often another thread has asked for a stop or an interrupt

    constructor (first: int, last: int, exceptions: seq<ExceptionEvent>, hits: set<int>, sparse: bool)
      requires first <= last
      ensures this.first == first && this.last == last && this.exceptions == exceptions
      ensures this.hits == hits && this.sparse == sparse && position == first && Valid()
      ensures !stopRequested && !interruptRequested
    {
      this.first, this.last, this.exceptions, this.hits, this.sparse := first, last, exceptions, hits, sparse;
      position, watch, exitBoundary, stopRequested, interruptRequested := first, None, None, false, false;
      requests := 0;
    }

    predicate Valid()
      reads this
    {
      first <= position <= last
    }

    predicate Undisturbed()
      reads this
    {
      !stopRequested && !interruptRequested
    }

    ghost predicate NoHit(lo: int, hi: int) {
      forall q | lo <= q <= hi :: q !in hits
    }

    /** How far back one run can get: one long replay, or the bounded single-step fallback. */
    function Reach(): nat { if sparse then FALLBACK_STEPS else REVERSE_BOUND }

    /** The first hit met when moving from `from` to `to`, the starting point excluded. */
    method FirstHit(from: int, to: int) returns (hit: Option<int>)
      ensures hit.None? ==> NoHit(Min(from + 1, to), Max(from - 1, to)) || from == to
      ensures hit.Some? ==> hit.value in hits
      ensures hit.Some? && from <= to ==> from < hit.value <= to && NoHit(from + 1, hit.value - 1)
      ensures hit.Some? && to <= from ==> to <= hit.value < from && NoHit(hit.value + 1, from - 1)
    {
      var q := from;
      while q != to
        invariant if from <= to then from <= q <= to && NoHit(from + 1, q) else to <= q <= from && NoHit(q, from - 1)
        decreases if from <= to then to - q else q - to
      {
        q := if from < to then q + 1 else q - 1;
        if q in hits {
          return Some(q);
        }
      }
      hit := None;
    }

    /** Requests only accumulate, and each one is counted. */
    twostate predicate MoreRequests()
      reads this
    {
      && (old(stopRequested) ==> stopRequested) && (old(interruptRequested) ==> interruptRequested)
      && requests >= old(requests)
      && (requests == old(requests) ==>
            stopRequested == old(stopRequested) && interruptRequested == old(interruptRequested))
    }

    /** Another thread may ask for a stop or an interrupt at any time. */
    method Listen()
      modifies this`stopRequested, this`interruptRequested, this`requests
      ensures MoreRequests()
    {
      var stop: bool, interrupt: bool := *, *;
      if stop || interrupt {
        requests := requests + 1;
      }
      stopRequested := stopRequested || stop;
      interruptRequested := interruptRequested || interrupt;
    }

    method Anywhere(from: int, to: int) returns (q: int)
      ensures Min(from, to) <= q <= Max(from, to)
    {
      q := *;
      if q < Min(from, to) || Max(from, to) < q {
        q := from;
      }
    }

    /** One call of the replay engine. It stops at the first hit on the way, and the cursor may then
        still stand short of the position the hit is reported for. A hit at the current position may be
        reported again without any movement, and an interrupted replay may stop anywhere on the way. */
    method Replay(reverse: bool, limit: int, maxSteps: nat) returns (steps: nat)
      requires Valid() && first <= limit <= last && maxSteps > 0
      requires if reverse then limit <= position else position <= limit
      modifies this`position, this`watch, this`stopRequested, this`interruptRequested, this`requests
      ensures MoreRequests()
      ensures Valid()
      ensures steps == if reverse then old(position) - position else position - old(position)
      ensures if reverse then limit <= position && old(position) - position <= maxSteps
              else position <= limit && position - old(position) <= maxSteps
      ensures watch.Some? ==> watch.value in hits
      ensures watch.Some? && watch.value == old(position) ==> steps == 0
      ensures watch.Some? && watch.value != old(position) ==>
        if reverse then limit <= watch.value <= position && old(position) - watch.value <= maxSteps &&
                        watch.value < old(position) && NoHit(watch.value + 1, old(position) - 1)
        else position <= watch.value <= limit && watch.value - old(position) <= maxSteps &&
             old(position) < watch.value && NoHit(old(position) + 1, watch.value - 1)
      ensures watch.None? ==> if reverse then NoHit(position, old(position) - 1) else NoHit(old(position) + 1, position)
      ensures watch.None? && reverse && sparse && maxSteps > 1 ==> position == old(position)
      ensures watch.None? && Undisturbed() && !(reverse && sparse && maxSteps > 1) ==>
        position == if reverse then Max(limit, old(position) - maxSteps) else Min(limit, old(position) + maxSteps)
    {
      Listen();
      watch, steps := None, 0;
      var stale: bool := *;
      if position in hits && stale {
        watch := Some(position);
        return;
      }
      if reverse && sparse && maxSteps > 1 {
        return;
      }
      var from := position;
      var end := if reverse then Max(limit, position - maxSteps) else Min(limit, position + maxSteps);
      if stopRequested || interruptRequested {
        end := Anywhere(from, end);
      }
      watch := FirstHit(from, end);
      if watch.Some? {
        end := Anywhere(from, watch.value);
      }
      position := end;
      steps := if reverse then from - end else end - from;
    }

    /** The loop over the recorded exceptions. */
    method FindNearest(reverse: bool, limit: int) returns (best: Option<ExceptionEvent>)
      ensures best == Nearest(exceptions, reverse, position, limit)
    {
      best := None;
      for i := 0 to |exceptions|
        invariant best == Nearest(exceptions[..i], reverse, position, limit)
      {
        assert exceptions[..i + 1][..i] == exceptions[..i];
        if Between(reverse, position, LimitOf(best, limit), exceptions[i].position) {
          best := Some(exceptions[i]);
        }
      }
      assert exceptions[..|exceptions|] == exceptions;
    }

    /** Where a run has got to after its replay calls; the cursor may stand short of the hit it reports. */
    ghost predicate Arrived(reverse: bool, start: int, limit: int)
      reads this
    {
      && (if reverse then limit <= position <= start else start <= position <= limit)
      && (watch.Some? ==>
            watch.value in hits && (watch.value == start || FirstOnTheWay(reverse, start, limit, watch.value)))
      && (watch.None? ==> if reverse then NoHit(position, start - 1) else NoHit(start + 1, position))
      && (watch.None? && Undisturbed() ==> position == if reverse then Max(limit, start - Reach()) else limit)
    }

    ghost predicate FirstOnTheWay(reverse: bool, start: int, limit: int, q: int) {
      if reverse then limit <= q < start && NoHit(q + 1, start - 1)
      else start < q <= limit && NoHit(start + 1, q - 1)
    }

    /** At most two replay calls: a stale report of the current position is ignored once. */
    method Attempt(reverse: bool, limit: int) returns (steps: nat)
      requires Valid() && first <= limit <= last
      requires if reverse then limit <= position else position <= limit
      modifies this`position, this`watch, this`stopRequested, this`interruptRequested, this`requests
      ensures MoreRequests()
      ensures Valid()
      ensures reverse && sparse && watch.None? ==> steps == 0 && position == old(position)
      ensures !(reverse && sparse && watch.None?) ==> Arrived(reverse, old(position), limit)
      ensures steps == 0 && watch.Some? ==> watch.value == old(position) == position
      ensures watch.None? ==> steps == if reverse then old(position) - position else position - old(position)
    {
      var start := position;
      steps := 0;
      var attempt := 0;
      while attempt < 2
        invariant MoreRequests()
        invariant 0 <= attempt <= 2 && position == start && steps == 0 && Valid()
        invariant attempt > 0 ==> watch == Some(start) && start in hits
      {
        // Forward replay is unbounded; the length of the timeline is as good as no bound.
        steps := Replay(reverse, limit, if reverse then REVERSE_BOUND else last - first + 1);
        if steps != 0 || watch.None? {
          return;
        }
        if watch.value != start {
          position := watch.value;
          steps := 1;
          return;
        }
        attempt := attempt + 1;
      }
    }

    /** The bounded single-step fallback of a reverse run. */
    method StepBack(limit: int) returns (total: nat)
      requires Valid() && first <= limit <= position
      requires !sparse && Undisturbed() ==> position == limit
      modifies this`position, this`watch, this`stopRequested, this`interruptRequested, this`requests
      ensures MoreRequests()
      ensures Valid() && Arrived(true, old(position), limit)
      ensures watch.None? ==> total == old(position) - position
    {
      ghost var start := position;
      total, watch := 0, None;
      var i := 0;
      while i < FALLBACK_STEPS
        invariant MoreRequests()
        invariant 0 <= i <= FALLBACK_STEPS && Valid() && limit <= position <= start && watch.None?
        invariant total == start - position && NoHit(position, start - 1)
        invariant Undisturbed() ==> position == Max(limit, start - i)
        decreases FALLBACK_STEPS - i
      {
        if stopRequested || interruptRequested {
          break;
        }
        var one := Replay(true, limit, 1);
        if one == 0 && watch.None? {
          break;
        }
        total := total + one;
        if watch.Some? {
          break;
        }
        i := i + 1;
        if position <= limit {
          break;
        }
      }
    }

    function Bound(reverse: bool): int { if reverse then first else last }

    function NearestException(reverse: bool, p: int): Option<ExceptionEvent> {
      Nearest(exceptions, reverse, p, Bound(reverse))
    }

    /** The replay part of runTtd: where the cursor ends, and the hit it ended at. */
    method Travel(reverse: bool, limit: int) returns (steps: nat)
      requires Valid() && first <= limit <= last
      requires if reverse then limit <= position else position <= limit
      modifies this`position, this`watch, this`stopRequested, this`interruptRequested, this`requests
      ensures MoreRequests()
      ensures Valid() && Arrived(reverse, old(position), limit)
      ensures watch.Some? ==> position == watch.value
      ensures watch.None? ==> steps == if reverse then old(position) - position else position - old(position)
    {
      steps := Attempt(reverse, limit);
      if reverse && steps == 0 && watch.None? {
        steps := StepBack(limit);
      }
      if watch.Some? && position != watch.value {
        position := watch.value;
        if steps == 0 {
          steps := 1;
        }
      }
    }

    /** A forward run that met nothing stands at the exit event; one step back shows the full context. */
    method Park()
      requires Valid()
      modifies this`position, this`watch, this`exitBoundary, this`stopRequested, this`interruptRequested, this`requests
      ensures MoreRequests()
      ensures Valid() && old(position) - 1 <= position <= old(position) && watch.None?
      ensures hits == {} && Undisturbed() && first < old(position) ==>
        position == old(position) - 1 && exitBoundary == Some(position)
    {
      var back := Replay(true, first, 1);
      if back != 0 {
        exitBoundary := Some(position);
      }
      watch := None;
    }

    /** Going from `p` to `now` the cursor has left the exception at `q` behind, one at either end of the
        recording excepted. */
    predicate Passes(reverse: bool, p: int, now: int, q: int) {
      if reverse then first < q && now < q < p else q < last && p < q < now
    }

    /** runTtd. It never passes the nearest recorded exception in its direction; without hits and
        requests it ends exactly where ForwardStop and ReverseStop say. */
    method RunTtd(reverse: bool) returns (outcome: Outcome, moved: bool)
      requires Valid()
      modifies this`position, this`watch, this`exitBoundary, this`stopRequested, this`interruptRequested, this`requests
      ensures Valid()
      ensures if reverse then first <= position <= old(position) else old(position) <= position <= last
      ensures forall e | e in exceptions :: !Passes(reverse, old(position), position, e.position)
      ensures outcome.Stopped? <==> stopRequested
      ensures old(stopRequested) ==> outcome.Stopped?
      ensures old(interruptRequested) ==> outcome.Stopped? || outcome.Interrupted?
      ensures old(Undisturbed()) && Asked(outcome) ==> requests > old(requests)
      ensures !outcome.Stopped? ==> Undisturbed()
      ensures outcome.Stopped? || outcome.Interrupted? || outcome.WatchHit? || outcome.ExceptionHit? ==> moved
      ensures !moved ==> position == old(position)
      ensures outcome.ReverseBoundary? ==> (moved <==> position != old(position))
      ensures var limit := LimitOf(NearestException(reverse, old(position)), Bound(reverse));
        outcome.WatchHit? ==>
          && outcome.position in hits && position == outcome.position
          && (position == old(position) || FirstOnTheWay(reverse, old(position), limit, position))
      ensures var limit := LimitOf(NearestException(reverse, old(position)), Bound(reverse));
        !Asked(outcome) && !outcome.WatchHit? ==>
          if reverse then NoHit(position, old(position) - 1) else NoHit(old(position) + 1, limit)
      ensures outcome.ExceptionHit? ==>
        && NearestException(reverse, old(position)) == Some(outcome.event) && position == outcome.event.position
        && outcome.event in exceptions
        && if reverse then first < position < old(position) else old(position) < position < last
      ensures !Asked(outcome) && hits == {} && !reverse ==>
        && position == ForwardStop(exceptions, old(position), last)
        && (NearestException(false, old(position)).Some? <==> outcome.ExceptionHit?)
        && (!outcome.ExceptionHit? ==> outcome.ProcessExit?)
        && (outcome.ProcessExit? && old(position) < last ==> exitBoundary == Some(last - 1))
      ensures !Asked(outcome) && hits == {} && reverse ==>
        && position == ReverseStop(exceptions, old(position), first, Reach())
        && (outcome.ExceptionHit? <==> NearestException(true, old(position)).Some? &&
                                       position == NearestException(true, old(position)).value.position)
        && (!outcome.ExceptionHit? ==> outcome.ReverseBoundary?)
    {
      var start := position;
      watch := None;
      var nearest := FindNearest(reverse, Bound(reverse));
      if reverse {
        NearestBefore(exceptions, start, first);
      } else {
        NearestAfter(exceptions, start, last);
      }
      var limit := LimitOf(nearest, Bound(reverse));
      var steps := Travel(reverse, limit);
      var hit := watch;
      var exceptionHit := nearest.Some? && position == nearest.value.position;
      if !reverse && steps != 0 && hit.None? && !exceptionHit && !stopRequested && !interruptRequested {
        Park();
      }
      watch := None;
      if stopRequested {
        return Stopped, true;
      }
      if interruptRequested {
        interruptRequested := false;
        return Interrupted, true;
      }
      if hit.Some? {
        return WatchHit(hit.value), true;
      }
      if exceptionHit {
        return ExceptionHit(nearest.value), true;
      }
      outcome := if reverse then ReverseBoundary else ProcessExit;
      moved := steps != 0;
    }
  }
}

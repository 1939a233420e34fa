/** Thread and module events that follow the replay cursor from position to position. */
module TraceTimeline {
  import opened Common

  datatype TimelineEvent =
    | CreateThread(thread: nat)
    | ExitThread(thread: nat)
    | LoadModule(base: nat, path: string)
    | UnloadModule(base: nat, path: string)

  /** What a listener believes after the events it has seen. */
  datatype Belief = Belief(threads: set<nat>, modules: map<nat, string>)

  function Learn(b: Belief, ev: TimelineEvent): Belief {
    match ev
    case CreateThread(t) => b.(threads := b.threads + {t})
    case ExitThread(t) => b.(threads := b.threads - {t})
    case LoadModule(base, path) => b.(modules := b.modules[base := path])
    case UnloadModule(base, path) => b.(modules := b.modules - {base})
  }

  function LearnAll(b: Belief, events: seq<TimelineEvent>): Belief
    decreases |events|
  {
    if events == [] then b else LearnAll(Learn(b, events[0]), events[1..])
  }

  lemma {:induction false} LearnAllConcat(b: Belief, first: seq<TimelineEvent>, rest: seq<TimelineEvent>)
    ensures LearnAll(b, first + rest) == LearnAll(LearnAll(b, first), rest)
    decreases |first|
  {
    if first == [] {
      assert first + rest == rest;
    } else {
      assert (first + rest)[1..] == first[1..] + rest;
      LearnAllConcat(Learn(b, first[0]), first[1..], rest);
    }
  }

  ghost predicate Loads(delta: seq<TimelineEvent>, base: nat) {
    exists path :: LoadModule(base, path) in delta
  }

  ghost predicate Unloads(delta: seq<TimelineEvent>, base: nat) {
    exists path :: UnloadModule(base, path) in delta
  }

  /** `delta` holds an event for each difference between two positions and for nothing else. */
  ghost predicate IsDelta(threads: set<nat>, bases: set<nat>, threads': set<nat>, bases': set<nat>,
                          delta: seq<TimelineEvent>) {
    && (forall t :: CreateThread(t) in delta <==> t in threads' - threads)
    && (forall t :: ExitThread(t) in delta <==> t in threads - threads')
    && (forall base :: Loads(delta, base) <==> base in bases' - bases)
    && (forall base :: Unloads(delta, base) <==> base in bases - bases')
  }

  lemma {:induction false} LearnedThread(b: Belief, delta: seq<TimelineEvent>, t: nat)
    requires !(CreateThread(t) in delta && ExitThread(t) in delta)
    ensures t in LearnAll(b, delta).threads <==>
            CreateThread(t) in delta || (t in b.threads && ExitThread(t) !in delta)
    decreases |delta|
  {
    if delta != [] {
      assert delta == [delta[0]] + delta[1..];
      LearnedThread(Learn(b, delta[0]), delta[1..], t);
    }
  }

  lemma {:induction false} LearnedBase(b: Belief, delta: seq<TimelineEvent>, base: nat)
    requires !(Loads(delta, base) && Unloads(delta, base))
    ensures base in LearnAll(b, delta).modules <==>
            Loads(delta, base) || (base in b.modules && !Unloads(delta, base))
    ensures !Loads(delta, base) && !Unloads(delta, base) && base in b.modules ==>
            LearnAll(b, delta).modules[base] == b.modules[base]
    decreases |delta|
  {
    if delta != [] {
      assert delta == [delta[0]] + delta[1..];
      var rest := delta[1..];
      assert Loads(delta, base) <==> (delta[0].LoadModule? && delta[0].base == base) || Loads(rest, base) by {
        if delta[0].LoadModule? && delta[0].base == base { assert LoadModule(base, delta[0].path) in delta; }
        if path :| LoadModule(base, path) in rest { assert LoadModule(base, path) in delta; }
      }
      assert Unloads(delta, base) <==> (delta[0].UnloadModule? && delta[0].base == base) || Unloads(rest, base) by {
        if delta[0].UnloadModule? && delta[0].base == base { assert UnloadModule(base, delta[0].path) in delta; }
        if path :| UnloadModule(base, path) in rest { assert UnloadModule(base, path) in delta; }
      }
      LearnedBase(Learn(b, delta[0]), rest, base);
    }
  }

  /** A listener that knew one position knows the next one after the delta. */
  lemma DeltaTeaches(b: Belief, threads': set<nat>, bases': set<nat>, delta: seq<TimelineEvent>)
    requires IsDelta(b.threads, b.modules.Keys, threads', bases', delta)
    ensures LearnAll(b, delta).threads == threads' && LearnAll(b, delta).modules.Keys == bases'
  {
    forall t: nat ensures t in LearnAll(b, delta).threads <==> t in threads' {
      LearnedThread(b, delta, t);
    }
    forall base ensures base in LearnAll(b, delta).modules <==> base in bases' {
      LearnedBase(b, delta, base);
    }
  }

  lemma {:induction false} LearnedPath(b: Belief, delta: seq<TimelineEvent>, base: nat, path: string)
    requires Loads(delta, base) && !Unloads(delta, base)
    requires forall p | LoadModule(base, p) in delta :: p == path
    ensures base in LearnAll(b, delta).modules && LearnAll(b, delta).modules[base] == path
    decreases |delta|
  {
    assert delta == [delta[0]] + delta[1..];
    var rest := delta[1..];
    assert forall p | UnloadModule(base, p) in rest :: UnloadModule(base, p) in delta;
    assert forall p | LoadModule(base, p) in rest :: LoadModule(base, p) in delta;
    if Loads(rest, base) {
      LearnedPath(Learn(b, delta[0]), rest, base, path);
    } else {
      var p :| LoadModule(base, p) in delta;
      assert delta[0] == LoadModule(base, path);
      LearnedBase(Learn(b, delta[0]), rest, base);
    }
  }

  /** Only bases are compared, so an image that takes the place of another at the same base is not announced:
      the listener's module map is the new one exactly when no base kept by the move changed its path. */
  lemma PathsFollowIff(b: Belief, threads': set<nat>, modules': map<nat, string>, delta: seq<TimelineEvent>)
    requires IsDelta(b.threads, b.modules.Keys, threads', modules'.Keys, delta)
    requires forall base, path | LoadModule(base, path) in delta :: base in modules' && path == modules'[base]
    ensures LearnAll(b, delta).modules == modules' <==>
            forall base | base in b.modules && base in modules' :: b.modules[base] == modules'[base]
  {
    DeltaTeaches(b, threads', modules'.Keys, delta);
    forall base | base in modules'
      ensures LearnAll(b, delta).modules[base] == if base in b.modules then b.modules[base] else modules'[base]
    {
      if base in b.modules {
        LearnedBase(b, delta, base);
      } else {
        LearnedPath(b, delta, base, modules'[base]);
      }
    }
    if forall base | base in b.modules && base in modules' :: b.modules[base] == modules'[base] {
      assert forall base | base in modules' :: LearnAll(b, delta).modules[base] == modules'[base];
    }
  }

  /** The threads a thread list names: null entries are skipped. */
  function Named(listed: seq<Option<nat>>): set<nat> {
    set o | o in listed && o.Some? :: o.value
  }

  /** No base is listed twice, as for the images of one process at one position. */
  ghost predicate DistinctBases(listed: seq<(nat, string)>) {
    forall i, j | 0 <= i < j < |listed| :: listed[i].0 != listed[j].0
  }

  lemma ListedOnce(listed: seq<(nat, string)>, base: nat, p: string, q: string)
    requires DistinctBases(listed) && (base, p) in listed && (base, q) in listed
    ensures p == q
  {
  }

  lemma BaseIsNew(listed: seq<(nat, string)>, i: nat)
    requires DistinctBases(listed) && i < |listed|
    ensures listed[i].0 !in set m | m in listed[..i] :: m.0
  {
  }

  lemma LoadsMore(loaded: seq<TimelineEvent>, base: nat, path: string)
    ensures Loads(loaded + [LoadModule(base, path)], base)
    ensures forall b | Loads(loaded, b) :: Loads(loaded + [LoadModule(base, path)], b)
  {
    assert LoadModule(base, path) in loaded + [LoadModule(base, path)];
    forall b | Loads(loaded, b) ensures Loads(loaded + [LoadModule(base, path)], b) {
      var p :| LoadModule(b, p) in loaded;
      assert LoadModule(b, p) in loaded + [LoadModule(base, path)];
    }
  }

  /** One refresh: what is active at the new position, and the events it queued. */
  datatype Move = Move(threads: set<nat>, bases: set<nat>, delta: seq<TimelineEvent>)

  ghost predicate Connected(threads: set<nat>, bases: set<nat>, moves: seq<Move>)
    decreases |moves|
  {
    moves == [] ||
    (IsDelta(threads, bases, moves[0].threads, moves[0].bases, moves[0].delta) &&
     Connected(moves[0].threads, moves[0].bases, moves[1..]))
  }

  function Announced(moves: seq<Move>): seq<TimelineEvent>
    decreases |moves|
  {
    if moves == [] then [] else moves[0].delta + Announced(moves[1..])
  }

  /** Over any sequence of cursor moves, the queued events tell the bootstrap listener exactly
      the threads and module bases of the last position. */
  lemma {:induction false} MovesTeach(b: Belief, moves: seq<Move>)
    requires Connected(b.threads, b.modules.Keys, moves) && moves != []
    ensures var end := LearnAll(b, Announced(moves));
      end.threads == moves[|moves| - 1].threads && end.modules.Keys == moves[|moves| - 1].bases
    decreases |moves|
  {
    var next := LearnAll(b, moves[0].delta);
    DeltaTeaches(b, moves[0].threads, moves[0].bases, moves[0].delta);
    LearnAllConcat(b, moves[0].delta, Announced(moves[1..]));
    if |moves| > 1 {
      MovesTeach(next, moves[1..]);
    } else {
      assert Announced(moves[1..]) == [];
    }
  }

  // ---- The refresh over mutable tables ----------------------------------

  class Timeline {
    var threads: set<nat>
    var modules: map<nat, string>
    var queue: seq<TimelineEvent>

    constructor (threads: set<nat>, modules: map<nat, string>)
      ensures this.threads == threads && this.modules == modules && queue == []
    {
      this.threads, this.modules, queue := threads, modules, [];
    }

    /** The thread half of refreshTtdTimeline; a null entry of the thread list is skipped. */
    method RefreshThreads(listed: seq<Option<nat>>) returns (ghost delta: seq<TimelineEvent>)
      modifies this`threads, this`queue
      ensures threads == Named(listed)
      ensures queue == old(queue) + delta
      ensures forall ev :: ev in delta <==>
        (ev.CreateThread? && ev.thread in threads - old(threads)) ||
        (ev.ExitThread? && ev.thread in old(threads) - threads)
      ensures NoRepeats(delta)
    {
      ghost var before := threads;
      var active: set<nat> := {};
      delta := [];
      for i := 0 to |listed|
        invariant active == Named(listed[..i])
        invariant threads == before + active && queue == old(queue) + delta
        invariant forall ev :: ev in delta <==> ev.CreateThread? && ev.thread in active - before
        invariant NoRepeats(delta)
      {
        assert listed[..i + 1] == listed[..i] + [listed[i]];
        if listed[i].Some? {
          var t := listed[i].value;
          active := active + {t};
          if t !in threads {
            assert CreateThread(t) !in delta;
            threads := threads + {t};
            queue := queue + [CreateThread(t)];
            delta := delta + [CreateThread(t)];
          }
        }
      }
      assert listed[..|listed|] == listed;
      var terminated := threads - active;
      while terminated != {}
        invariant terminated <= before - active && threads == active + terminated
        invariant queue == old(queue) + delta
        invariant forall ev :: ev in delta <==>
          (ev.CreateThread? && ev.thread in active - before) ||
          (ev.ExitThread? && ev.thread in before - active - terminated)
        invariant NoRepeats(delta)
        decreases terminated
      {
        var t :| t in terminated;
        assert ExitThread(t) !in delta;
        queue := queue + [ExitThread(t)];
        delta := delta + [ExitThread(t)];
        threads := threads - {t};
        terminated := terminated - {t};
      }
    }

    /** The second module loop: every base of the last position that is absent now is announced as unloaded. */
    method AnnounceUnloads(current: map<nat, string>) returns (ghost gone: seq<TimelineEvent>)
      modifies this`queue
      ensures queue == old(queue) + gone
      ensures forall ev :: ev in gone <==>
        ev.UnloadModule? && ev.base in modules && ev.base !in current && ev.path == modules[ev.base]
      ensures NoRepeats(gone)
    {
      gone := [];
      var last := modules;
      var rest := last.Keys;
      while rest != {}
        invariant rest <= last.Keys && queue == old(queue) + gone
        invariant forall ev :: ev in gone <==>
          ev.UnloadModule? && ev.base in last && ev.base !in rest && ev.base !in current && ev.path == modules[ev.base]
        invariant NoRepeats(gone)
        decreases rest
      {
        var base := Least(rest);
        if base !in current {
          queue := queue + [UnloadModule(base, modules[base])];
          gone := gone + [UnloadModule(base, modules[base])];
        }
        rest := rest - {base};
      }
    }

    /** The first module loop: every base that is new is announced with its path. */
    method AnnounceLoads(listed: seq<(nat, string)>)
      returns (current: map<nat, string>, ghost loaded: seq<TimelineEvent>)
      modifies this`queue
      ensures current.Keys == set m | m in listed :: m.0
      ensures forall base | base in current :: (base, current[base]) in listed
      ensures queue == old(queue) + loaded
      ensures forall ev | ev in loaded ::
        ev.LoadModule? && ev.base in current.Keys - modules.Keys && (ev.base, ev.path) in listed
      ensures forall base | base in current.Keys - modules.Keys :: Loads(loaded, base)
      ensures DistinctBases(listed) ==> NoRepeats(loaded)
    {
      current, loaded := map[], [];
      for i := 0 to |listed|
        invariant current.Keys == set m | m in listed[..i] :: m.0
        invariant forall base | base in current :: (base, current[base]) in listed
        invariant queue == old(queue) + loaded
        invariant forall ev | ev in loaded ::
          ev.LoadModule? && ev.base in current.Keys - modules.Keys && (ev.base, ev.path) in listed
        invariant forall base | base in current.Keys - modules.Keys :: Loads(loaded, base)
        invariant DistinctBases(listed) ==> NoRepeats(loaded)
      {
        assert listed[..i + 1] == listed[..i] + [listed[i]];
        var (base, path) := listed[i];
        if DistinctBases(listed) {
          BaseIsNew(listed, i);
          assert LoadModule(base, path) !in loaded;
        }
        current := current[base := path];
        if base !in modules {
          LoadsMore(loaded, base, path);
          queue := queue + [LoadModule(base, path)];
          loaded := loaded + [LoadModule(base, path)];
        }
      }
      assert listed[..|listed|] == listed;
    }

    /** The module half of refreshTtdTimeline. */
    method RefreshModules(listed: seq<(nat, string)>) returns (ghost delta: seq<TimelineEvent>)
      modifies this`modules, this`queue
      ensures modules.Keys == set m | m in listed :: m.0
      ensures queue == old(queue) + delta
      ensures forall base | base in modules :: (base, modules[base]) in listed
      ensures forall ev | ev in delta :: ev.LoadModule? || ev.UnloadModule?
      ensures forall ev | ev in delta && ev.LoadModule? :: (ev.base, ev.path) in listed
      ensures forall base :: Loads(delta, base) <==> base in modules.Keys - old(modules.Keys)
      ensures forall base, path :: UnloadModule(base, path) in delta <==>
        base in old(modules) && base !in modules && path == old(modules)[base]
      ensures DistinctBases(listed) ==> NoRepeats(delta)
    {
      var current;
      ghost var loaded;
      current, loaded := AnnounceLoads(listed);
      ghost var gone := AnnounceUnloads(current);
      delta := loaded + gone;
      forall base ensures Loads(delta, base) <==> Loads(loaded, base) {
        if path :| LoadModule(base, path) in loaded { assert LoadModule(base, path) in delta; }
      }
      if DistinctBases(listed) {
        NoRepeatsConcat(loaded, gone);
      }
      modules := current;
    }

    /** refreshTtdTimeline: the queue gains exactly the differences to the last position. */
    method Refresh(listedThreads: seq<Option<nat>>, listedModules: seq<(nat, string)>)
      returns (ghost delta: seq<TimelineEvent>)
      modifies this
      ensures threads == Named(listedThreads)
      ensures modules.Keys == set m | m in listedModules :: m.0
      ensures queue == old(queue) + delta
      ensures IsDelta(old(threads), old(modules.Keys), threads, modules.Keys, delta)
      ensures forall base | base in modules :: (base, modules[base]) in listedModules
      ensures DistinctBases(listedModules) ==>
        forall base, path | LoadModule(base, path) in delta :: base in modules && path == modules[base]
      ensures DistinctBases(listedModules) ==> NoRepeats(delta)
    {
      ghost var before := modules;
      ghost var first := RefreshThreads(listedThreads);
      ghost var second := RefreshModules(listedModules);
      delta := first + second;
      forall base
        ensures Loads(delta, base) <==> Loads(second, base)
        ensures Unloads(delta, base) <==> base in before.Keys - modules.Keys
      {
        if path :| LoadModule(base, path) in second { assert LoadModule(base, path) in delta; }
        if base in before && base !in modules { assert UnloadModule(base, before[base]) in delta; }
        if path :| LoadModule(base, path) in delta { assert LoadModule(base, path) in second; }
      }
      if DistinctBases(listedModules) {
        NoRepeatsConcat(first, second);
        forall base, path | LoadModule(base, path) in delta ensures base in modules && path == modules[base] {
          assert LoadModule(base, path) in second && Loads(second, base);
          ListedOnce(listedModules, base, path, modules[base]);
        }
      }
    }
  }
}

/** Watchpoints in a recorded trace: the replay filter, the event queue and the cursor's registrations. */
module TraceWatch {
  import opened Common

  /** The data access types of the replay engine, in the order of their numbers. */
  datatype AccessType =
    | Read | Write | Execute | CodeFetch | Overwrite | DataMismatch | NewData | RedundantData

  datatype WatchKind = AnyAccess | ReadAccess | WriteAccess | ExecuteAccess

  /** A software breakpoint record; affinity 0 is no affinity. */
  datatype CodeBreak = CodeBreak(offset: int, oneShot: bool, affinity: nat)

  datatype MemoryBreak = MemoryBreak(start: int, size: nat, kind: WatchKind, restoreOnHit: bool)

  datatype Hit = Hit(address: int, access: AccessType, thread: nat)

  datatype Watchpoint = Watchpoint(address: int, size: nat, mask: set<AccessType>)

  datatype Queued = CodeEvent(id: nat) | MemoryEvent(id: nat)

  datatype Tables = Tables(code: map<nat, CodeBreak>, memory: map<nat, MemoryBreak>, cursor: multiset<Watchpoint>)

  function Mask(kind: WatchKind): set<AccessType> {
    match kind
    case ReadAccess => {Read}
    case WriteAccess => {Write}
    case ExecuteAccess => {Execute}
    case AnyAccess => {Read, Write, Execute}
  }

  function CodeWatch(b: CodeBreak): Watchpoint { Watchpoint(b.offset, 1, {Execute}) }

  function MemoryWatch(b: MemoryBreak): Watchpoint { Watchpoint(b.start, b.size, Mask(b.kind)) }

  /** ttdMemoryBreakpointMatches */
  predicate MemoryMatches(b: MemoryBreak, address: int, access: AccessType) {
    && b.start <= address && address - b.start < b.size
    && match b.kind
       case AnyAccess => true
       case ReadAccess => access.Read?
       case WriteAccess => access.Write?
       case ExecuteAccess => !access.Read? && !access.Write?   // every number above that of Write
  }

  /** The accesses that some watchpoint of the adapter is registered for. */
  predicate Ordinary(access: AccessType) {
    access.Read? || access.Write? || access.Execute?
  }

  predicate Covers(w: Watchpoint, address: int, access: AccessType) {
    w.address <= address < w.address + w.size && access in w.mask
  }

  /** A breakpoint's own test accepts every access it registers for. The two agree at an address of the breakpoint
      exactly for reads, writes and executions, or when the breakpoint watches reads or writes only: the test of
      the others also takes code fetches and the like, for which nothing is registered. */
  lemma MatchesAsRegisteredIff(b: MemoryBreak, address: int, access: AccessType)
    ensures Covers(MemoryWatch(b), address, access) ==> MemoryMatches(b, address, access)
    ensures (MemoryMatches(b, address, access) <==> Covers(MemoryWatch(b), address, access)) <==>
            Ordinary(access) || b.kind.ReadAccess? || b.kind.WriteAccess? || !(b.start <= address < b.start + b.size)
  {
  }

  /** The kinds by name: what each one registers for and what its own test accepts at an address of the
      breakpoint. The numbers above that of a write count as executions in the test. */
  lemma KindMeaning(b: MemoryBreak, address: int, access: AccessType)
    requires b.start <= address < b.start + b.size
    ensures Covers(MemoryWatch(b), address, access) <==>
      && (access == Read || access == Write || access == Execute)
      && (b.kind == ReadAccess ==> access == Read) && (b.kind == WriteAccess ==> access == Write)
      && (b.kind == ExecuteAccess ==> access == Execute)
    ensures MemoryMatches(b, address, access) <==>
      && (b.kind == ReadAccess ==> access == Read) && (b.kind == WriteAccess ==> access == Write)
      && (b.kind == ExecuteAccess ==> access != Read && access != Write)
  {
  }

  predicate CodeMatches(b: CodeBreak, hit: Hit) {
    b.offset == hit.address && (b.affinity == 0 || b.affinity == hit.thread)
  }

  predicate CodeAnswers(t: Tables, id: nat, hit: Hit) {
    id in t.code && CodeMatches(t.code[id], hit)
  }

  predicate MemoryAnswers(t: Tables, id: nat, hit: Hit) {
    id in t.memory && MemoryMatches(t.memory[id], hit.address, hit.access)
  }

  /** Some record wants this hit. */
  ghost predicate Wanted(t: Tables, hit: Hit) {
    (exists id :: CodeAnswers(t, id, hit)) || (exists id :: MemoryAnswers(t, id, hit))
  }

  // ---- The cursor's registrations follow the tables ----------------------

  function CodeOwners(code: map<nat, CodeBreak>, w: Watchpoint): set<nat> {
    set id | id in code && CodeWatch(code[id]) == w
  }

  function MemoryOwners(memory: map<nat, MemoryBreak>, w: Watchpoint): set<nat> {
    set id | id in memory && MemoryWatch(memory[id]) == w
  }

  ghost predicate RegisteredAt(t: Tables, w: Watchpoint) {
    t.cursor[w] == |CodeOwners(t.code, w)| + |MemoryOwners(t.memory, w)|
  }

  /** Each watchpoint is registered once per record that asks for it. */
  ghost predicate Registered(t: Tables) {
    forall w :: RegisteredAt(t, w)
  }

  function AddCode(t: Tables, id: nat, b: CodeBreak): Tables {
    t.(code := t.code[id := b], cursor := t.cursor + multiset{CodeWatch(b)})
  }

  function DropCode(t: Tables, id: nat): Tables
    requires id in t.code
  {
    t.(code := t.code - {id}, cursor := t.cursor - multiset{CodeWatch(t.code[id])})
  }

  function AddMemory(t: Tables, id: nat, b: MemoryBreak): Tables {
    t.(memory := t.memory[id := b], cursor := t.cursor + multiset{MemoryWatch(b)})
  }

  function DropMemory(t: Tables, id: nat): Tables
    requires id in t.memory
  {
    t.(memory := t.memory - {id}, cursor := t.cursor - multiset{MemoryWatch(t.memory[id])})
  }

  /** Adding enters one record, dropping takes one out, and the other table is left alone. */
  lemma RecordsMeaning(t: Tables, id: nat, b: CodeBreak, m: MemoryBreak)
    ensures AddCode(t, id, b).code == t.code[id := b] && AddCode(t, id, b).memory == t.memory
    ensures AddMemory(t, id, m).memory == t.memory[id := m] && AddMemory(t, id, m).code == t.code
    ensures id in t.code ==> DropCode(t, id).code == t.code - {id} && DropCode(t, id).memory == t.memory
    ensures id in t.memory ==> DropMemory(t, id).memory == t.memory - {id} && DropMemory(t, id).code == t.code
  {
  }

  lemma CodeOwnersAdd(code: map<nat, CodeBreak>, id: nat, b: CodeBreak, w: Watchpoint)
    requires id !in code
    ensures |CodeOwners(code[id := b], w)| == |CodeOwners(code, w)| + if w == CodeWatch(b) then 1 else 0
  {
    var more := if w == CodeWatch(b) then {id} else {};
    assert CodeOwners(code[id := b], w) == CodeOwners(code, w) + more;
  }

  lemma MemoryOwnersAdd(memory: map<nat, MemoryBreak>, id: nat, b: MemoryBreak, w: Watchpoint)
    requires id !in memory
    ensures |MemoryOwners(memory[id := b], w)| == |MemoryOwners(memory, w)| + if w == MemoryWatch(b) then 1 else 0
  {
    var more := if w == MemoryWatch(b) then {id} else {};
    assert MemoryOwners(memory[id := b], w) == MemoryOwners(memory, w) + more;
  }

  lemma AddCodeKeepsRegistered(t: Tables, id: nat, b: CodeBreak)
    requires Registered(t) && id !in t.code
    ensures Registered(AddCode(t, id, b))
  {
    forall w ensures RegisteredAt(AddCode(t, id, b), w) {
      assert RegisteredAt(t, w);
      CodeOwnersAdd(t.code, id, b, w);
    }
  }

  /** A record's watchpoint is there to be removed. */
  lemma OwnedIsRegistered(t: Tables)
    requires Registered(t)
    ensures forall id | id in t.code :: t.cursor[CodeWatch(t.code[id])] > 0
    ensures forall id | id in t.memory :: t.cursor[MemoryWatch(t.memory[id])] > 0
  {
    forall id | id in t.code ensures t.cursor[CodeWatch(t.code[id])] > 0 {
      assert RegisteredAt(t, CodeWatch(t.code[id])) && id in CodeOwners(t.code, CodeWatch(t.code[id]));
    }
    forall id | id in t.memory ensures t.cursor[MemoryWatch(t.memory[id])] > 0 {
      assert RegisteredAt(t, MemoryWatch(t.memory[id])) && id in MemoryOwners(t.memory, MemoryWatch(t.memory[id]));
    }
  }

  lemma DropCodeKeepsRegistered(t: Tables, id: nat)
    requires Registered(t) && id in t.code
    ensures Registered(DropCode(t, id))
  {
    OwnedIsRegistered(t);
    forall w ensures RegisteredAt(DropCode(t, id), w) {
      assert RegisteredAt(t, w);
      if w == CodeWatch(t.code[id]) {
        assert CodeOwners(t.code - {id}, w) == CodeOwners(t.code, w) - {id};
      } else {
        assert CodeOwners(t.code - {id}, w) == CodeOwners(t.code, w);
      }
    }
  }

  lemma AddMemoryKeepsRegistered(t: Tables, id: nat, b: MemoryBreak)
    requires Registered(t) && id !in t.memory
    ensures Registered(AddMemory(t, id, b))
  {
    forall w ensures RegisteredAt(AddMemory(t, id, b), w) {
      assert RegisteredAt(t, w);
      MemoryOwnersAdd(t.memory, id, b, w);
    }
  }

  lemma DropMemoryKeepsRegistered(t: Tables, id: nat)
    requires Registered(t) && id in t.memory
    ensures Registered(DropMemory(t, id))
  {
    OwnedIsRegistered(t);
    forall w ensures RegisteredAt(DropMemory(t, id), w) {
      assert RegisteredAt(t, w);
      if w == MemoryWatch(t.memory[id]) {
        assert MemoryOwners(t.memory - {id}, w) == MemoryOwners(t.memory, w) - {id};
      } else {
        assert MemoryOwners(t.memory - {id}, w) == MemoryOwners(t.memory, w);
      }
    }
  }

  // ---- Which hits can reach the filter ----------------------------------

  /** The cursor reports a hit only for a registered watchpoint. */
  ghost predicate Deliverable(t: Tables, hit: Hit) {
    exists w :: w in t.cursor && Covers(w, hit.address, hit.access)
  }

  lemma DeliverableIff(t: Tables, hit: Hit)
    requires Registered(t)
    ensures Deliverable(t, hit) <==>
            (exists id :: id in t.code && t.code[id].offset == hit.address && hit.access.Execute?) ||
            (Ordinary(hit.access) && exists id :: MemoryAnswers(t, id, hit))
  {
    OwnedIsRegistered(t);
    if Deliverable(t, hit) {
      var w :| w in t.cursor && Covers(w, hit.address, hit.access);
      assert RegisteredAt(t, w);
      if CodeOwners(t.code, w) != {} {
        var id :| id in CodeOwners(t.code, w);
        assert id in t.code && t.code[id].offset == hit.address && hit.access.Execute?;
      } else {
        assert |CodeOwners(t.code, w)| == 0 && MemoryOwners(t.memory, w) != {};
        var id :| id in MemoryOwners(t.memory, w);
        MatchesAsRegisteredIff(t.memory[id], hit.address, hit.access);
        assert MemoryAnswers(t, id, hit);
      }
    }
    if id :| id in t.code && t.code[id].offset == hit.address && hit.access.Execute? {
      assert Covers(CodeWatch(t.code[id]), hit.address, hit.access) && CodeWatch(t.code[id]) in t.cursor;
    }
    if id :| MemoryAnswers(t, id, hit) && Ordinary(hit.access) {
      MatchesAsRegisteredIff(t.memory[id], hit.address, hit.access);
      assert MemoryWatch(t.memory[id]) in t.cursor;
    }
  }

  /** The filter drops exactly the deliverable executions that only other threads' temporaries asked for. */
  lemma DroppedHitsIff(t: Tables, hit: Hit)
    requires Registered(t) && Deliverable(t, hit)
    ensures !Wanted(t, hit) <==>
            hit.access.Execute? && (forall id :: !MemoryAnswers(t, id, hit)) &&
            forall id | id in t.code && t.code[id].offset == hit.address ::
              t.code[id].affinity != 0 && t.code[id].affinity != hit.thread
  {
    DeliverableIff(t, hit);
    if !Wanted(t, hit) {
      forall id | id in t.code && t.code[id].offset == hit.address
        ensures t.code[id].affinity != 0 && t.code[id].affinity != hit.thread
      {
        assert !CodeAnswers(t, id, hit);
      }
    }
  }

  ghost predicate DataCovered(t: Tables, offset: int) {
    exists id :: id in t.memory && !t.memory[id].kind.ExecuteAccess? &&
                 t.memory[id].start <= offset < t.memory[id].start + t.memory[id].size
  }

  /** The address test of the queue ignores the access type, so a data access at the address of a code
      breakpoint is reported as that breakpoint. It can happen exactly when a memory breakpoint that
      watches data covers the address. */
  lemma CodeEventsAreExecutionsIff(t: Tables, id: nat)
    requires Registered(t) && id in t.code
    ensures (forall hit | Deliverable(t, hit) && CodeAnswers(t, id, hit) :: hit.access.Execute?) <==>
            !DataCovered(t, t.code[id].offset)
  {
    var b := t.code[id];
    if DataCovered(t, b.offset) {
      var m :| m in t.memory && !t.memory[m].kind.ExecuteAccess? &&
               t.memory[m].start <= b.offset < t.memory[m].start + t.memory[m].size;
      var hit := Hit(b.offset, if t.memory[m].kind.WriteAccess? then Write else Read, b.affinity);
      assert MemoryAnswers(t, m, hit);
      DeliverableIff(t, hit);
      assert CodeAnswers(t, id, hit) && !hit.access.Execute?;
    } else {
      forall hit | Deliverable(t, hit) && CodeAnswers(t, id, hit) ensures hit.access.Execute? {
        DeliverableIff(t, hit);
      }
    }
  }

  // ---- The callbacks over mutable tables --------------------------------

  class WatchTables {
    var code: map<nat, CodeBreak>
    var memory: map<nat, MemoryBreak>
    var cursor: multiset<Watchpoint>
    var nextCode: nat
    var nextMemory: nat
    ghost var refusals: nat                // how often the cursor has refused a watchpoint

    function View(): Tables
      reads this
    {
      Tables(code, memory, cursor)
    }

    ghost predicate Valid()
      reads this
    {
      Registered(View()) && (forall id | id in code :: id < nextCode) && (forall id | id in memory :: id < nextMemory)
    }

    constructor ()
      ensures Valid() && View() == Tables(map[], map[], multiset{})
    {
      code, memory, cursor, nextCode, nextMemory, refusals := map[], map[], multiset{}, 0x8000_0000, 1, 0;
      new;
      forall w ensures RegisteredAt(View(), w) {
        assert CodeOwners(code, w) == {} && MemoryOwners(memory, w) == {};
      }
    }

    /** ttdMemoryWatchpointCallback: two loops, one for each table, and two flags. */
    method Accept(hit: Hit) returns (accepted: bool)
      ensures accepted <==> Wanted(View(), hit)
    {
      var registeredWatchpoint, acceptedWatchpoint := false, false;
      var rest := code.Keys;
      while rest != {}
        invariant rest <= code.Keys && (acceptedWatchpoint ==> registeredWatchpoint)
        invariant acceptedWatchpoint <==> exists id :: id !in rest && CodeAnswers(View(), id, hit)
        decreases rest
      {
        var id :| id in rest;
        if code[id].offset == hit.address {
          registeredWatchpoint := true;
          if code[id].affinity == 0 || code[id].affinity == hit.thread {
            assert CodeAnswers(View(), id, hit);
            acceptedWatchpoint := true;
          }
        }
        rest := rest - {id};
      }
      var others := memory.Keys;
      while others != {}
        invariant others <= memory.Keys && (acceptedWatchpoint ==> registeredWatchpoint)
        invariant acceptedWatchpoint <==>
          (exists id :: CodeAnswers(View(), id, hit)) || (exists id :: id !in others && MemoryAnswers(View(), id, hit))
        decreases others
      {
        var id :| id in others;
        if MemoryMatches(memory[id], hit.address, hit.access) {
          assert MemoryAnswers(View(), id, hit);
          registeredWatchpoint, acceptedWatchpoint := true, true;
        }
        others := others - {id};
      }
      accepted := registeredWatchpoint && acceptedWatchpoint;
    }

    /** The first loop of queueTtdWatchpointHit, in id order. */
    method FindCode(hit: Hit) returns (found: bool, id: nat)
      ensures found <==> exists i :: CodeAnswers(View(), i, hit)
      ensures found ==> CodeAnswers(View(), id, hit) && forall i | CodeAnswers(View(), i, hit) :: id <= i
    {
      var rest := code.Keys;
      while rest != {}
        invariant rest <= code.Keys
        invariant forall i | CodeAnswers(View(), i, hit) :: i in rest
        decreases rest
      {
        id := Least(rest);
        if CodeMatches(code[id], hit) {
          assert CodeAnswers(View(), id, hit);
          return true, id;
        }
        rest := rest - {id};
      }
      found, id := false, 0;
    }

    /** The second loop, over the memory breakpoints. */
    method FindMemory(hit: Hit) returns (found: bool, id: nat)
      ensures found <==> exists i :: MemoryAnswers(View(), i, hit)
      ensures found ==> MemoryAnswers(View(), id, hit) && forall i | MemoryAnswers(View(), i, hit) :: id <= i
    {
      var rest := memory.Keys;
      while rest != {}
        invariant rest <= memory.Keys
        invariant forall i | MemoryAnswers(View(), i, hit) :: i in rest
        decreases rest
      {
        id := Least(rest);
        if MemoryMatches(memory[id], hit.address, hit.access) {
          assert MemoryAnswers(View(), id, hit);
          return true, id;
        }
        rest := rest - {id};
      }
      found, id := false, 0;
    }

    method RetireCode(id: nat)
      requires Valid() && id in code
      modifies this`code, this`cursor
      ensures Valid() && View() == if old(code)[id].oneShot then DropCode(old(View()), id) else old(View())
    {
      if code[id].oneShot {
        DropCodeKeepsRegistered(View(), id);
        cursor := cursor - multiset{CodeWatch(code[id])};
        code := code - {id};
      }
    }

    method RetireMemory(id: nat)
      requires Valid() && id in memory
      modifies this`memory, this`cursor
      ensures Valid() && View() == if old(memory)[id].restoreOnHit then old(View()) else DropMemory(old(View()), id)
    {
      if !memory[id].restoreOnHit {
        var removed := RemoveById(id);
      }
    }

    /** queueTtdWatchpointHit: it queues an event exactly when the filter would accept the hit, for the
        matching record with the least id, code before memory, and retires a one-shot record. */
    method QueueHit(hit: Hit) returns (queued: Option<Queued>)
      requires Valid()
      modifies this`code, this`memory, this`cursor
      ensures Valid()
      ensures queued.Some? <==> Wanted(old(View()), hit)
      ensures queued.Some? && queued.value.CodeEvent? ==>
        && CodeAnswers(old(View()), queued.value.id, hit)
        && (forall id | CodeAnswers(old(View()), id, hit) :: queued.value.id <= id)
        && View() == if old(code)[queued.value.id].oneShot then DropCode(old(View()), queued.value.id) else old(View())
      ensures queued.Some? && queued.value.MemoryEvent? ==>
        && MemoryAnswers(old(View()), queued.value.id, hit)
        && (forall id :: !CodeAnswers(old(View()), id, hit))
        && (forall id | MemoryAnswers(old(View()), id, hit) :: queued.value.id <= id)
        && View() == if old(memory)[queued.value.id].restoreOnHit then old(View())
                     else DropMemory(old(View()), queued.value.id)
      ensures queued.None? ==> View() == old(View())
    {
      var found, id := FindCode(hit);
      if found {
        RetireCode(id);
        return Some(CodeEvent(id));
      }
      found, id := FindMemory(hit);
      if found {
        RetireMemory(id);
        return Some(MemoryEvent(id));
      }
      queued := None;
    }

    /** The trace branch of removeMemoryBreakpointById; a registered watchpoint can be removed. */
    method RemoveById(id: nat) returns (ok: bool)
      requires Valid()
      modifies this`memory, this`cursor
      ensures Valid() && (ok <==> id in old(memory))
      ensures View() == if ok then DropMemory(old(View()), id) else old(View())
    {
      if id !in memory {
        return false;
      }
      OwnedIsRegistered(View());
      DropMemoryKeepsRegistered(View(), id);
      ok := RemoveWatchpoint(MemoryWatch(memory[id]));
      if ok {
        memory := memory - {id};
      }
    }

    /** The cursor refuses to remove what it does not hold. */
    method RemoveWatchpoint(w: Watchpoint) returns (ok: bool)
      modifies this`cursor
      ensures ok <==> w in old(cursor)
      ensures cursor == old(cursor) - multiset{w}
    {
      ok := w in cursor;
      cursor := cursor - multiset{w};
    }

    method AddWatchpoint(w: Watchpoint) returns (ok: bool)
      modifies this`cursor, this`refusals
      ensures refusals >= old(refusals) && (ok <==> refusals == old(refusals))
      ensures cursor == if ok then old(cursor) + multiset{w} else old(cursor)
    {
      var refused: bool := *;
      ok := !refused;
      if ok {
        cursor := cursor + multiset{w};
      } else {
        refusals := refusals + 1;
      }
    }

    /** addTtdSoftwareBreakpoint, after the caller has looked for an existing record. */
    method AddCodeBreak(b: CodeBreak) returns (ok: bool)
      requires Valid()
      modifies this`code, this`cursor, this`nextCode, this`refusals
      ensures Valid() && refusals >= old(refusals) && (ok <==> refusals == old(refusals))
      ensures View() == if ok then AddCode(old(View()), old(nextCode), b) else old(View())
    {
      AddCodeKeepsRegistered(View(), nextCode, b);
      ok := AddWatchpoint(CodeWatch(b));
      if ok {
        code := code[nextCode := b];
        nextCode := nextCode + 1;
      }
    }

    /** The trace branch of SetMemoryBPXEx; the id is spent even when the cursor refuses. */
    method AddMemoryBreak(b: MemoryBreak) returns (ok: bool)
      requires Valid()
      modifies this`memory, this`cursor, this`nextMemory, this`refusals
      ensures Valid() && refusals >= old(refusals) && (ok <==> refusals == old(refusals))
      ensures View() == if ok then AddMemory(old(View()), old(nextMemory), b) else old(View())
    {
      AddMemoryKeepsRegistered(View(), nextMemory, b);
      var id := nextMemory;
      nextMemory := nextMemory + 1;
      ok := AddWatchpoint(MemoryWatch(b));
      if ok {
        memory := memory[id := b];
      }
    }

    /** Watchpoint first, record second; a registered watchpoint can be removed. */
    method RemoveCode(id: nat)
      requires Valid() && id in code
      modifies this`code, this`cursor
      ensures Valid() && View() == DropCode(old(View()), id)
    {
      OwnedIsRegistered(View());
      DropCodeKeepsRegistered(View(), id);
      var ok := RemoveWatchpoint(CodeWatch(code[id]));
      if ok {
        code := code - {id};
      }
    }

    /** The trace branch of DeleteBPX. */
    method DeleteCodeBreak(address: int) returns (ok: bool)
      requires Valid()
      modifies this`code, this`cursor
      ensures Valid()
      ensures ok <==> exists id :: id in old(code) && old(code)[id].offset == address
      ensures ok ==> exists id ::
        id in old(code) && old(code)[id].offset == address && View() == DropCode(old(View()), id)
      ensures !ok ==> View() == old(View())
    {
      var rest := code.Keys;
      while rest != {}
        invariant rest <= code.Keys && View() == old(View())
        invariant forall id | id in code && code[id].offset == address :: id in rest
        decreases rest
      {
        var id := Least(rest);
        if code[id].offset == address {
          RemoveCode(id);
          return true;
        }
        rest := rest - {id};
      }
      ok := false;
    }
  }
}

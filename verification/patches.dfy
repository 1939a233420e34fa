/** Adapter-owned code patches: INT3, long INT3 and UD2 software breakpoints and
    hardware-execute breakpoints, which are installed as INT3 as well. */
module Patches {
  import opened Target

  datatype Encoding = Int3 | LongInt3 | Ud2

  datatype Kind = Software | HardwareExecute

  const INT3: seq<Byte> := [0xCC]
  const LONG_INT3: seq<Byte> := [0xCD, 0x03]
  const UD2: seq<Byte> := [0x0F, 0x0B]

  /** What a caller asks for; `bytes` is one of the three trap encodings. */
  datatype Request = Request(offset: int, kind: Kind, oneShot: bool, bytes: seq<Byte>)

  datatype Patch = Patch(request: Request, saved: seq<Byte>)

  /** `installed` records which live patches are currently written in the target. */
  datatype Code = Code(live: map<nat, Patch>, installed: set<nat>, nextId: nat, retired: set<int>, memory: Memory)

  predicate Spans(r: Request, a: int) {
    r.offset <= a < r.offset + |r.bytes|
  }

  predicate SpansLive(c: Code, id: nat, a: int) {
    id in c.live && Spans(c.live[id].request, a)
  }

  function TrapBytes(e: Encoding): seq<Byte> {
    match e
    case Int3 => INT3
    case LongInt3 => LONG_INT3
    case Ud2 => UD2
  }

  predicate IsEncoded(r: Request) {
    r.bytes == INT3 || r.bytes == LONG_INT3 || r.bytes == UD2
  }

  // ---- Invariant --------------------------------------------------------

  ghost predicate Disjoint(c: Code) {
    forall i, j, a | SpansLive(c, i, a) && SpansLive(c, j, a) :: i == j
  }

  ghost predicate SavedIsLogical(c: Code, logical: Memory) {
    forall id, a | SpansLive(c, id, a) ::
      a in logical && a - c.live[id].request.offset < |c.live[id].saved| &&
      c.live[id].saved[a - c.live[id].request.offset] == logical[a]
  }

  ghost predicate InstalledIsWritten(c: Code) {
    forall id, a | id in c.installed && SpansLive(c, id, a) ::
      a in c.memory && c.memory[a] == c.live[id].request.bytes[a - c.live[id].request.offset]
  }

  ghost predicate InstalledAt(c: Code, a: int) {
    exists id :: id in c.installed && SpansLive(c, id, a)
  }

  /** `logical` is the memory the target would have if no breakpoint had ever been set. */
  ghost predicate Sound(c: Code, logical: Memory) {
    && c.memory.Keys == logical.Keys
    && c.installed <= c.live.Keys
    && (forall id | id in c.live :: id < c.nextId && |c.live[id].saved| == |c.live[id].request.bytes|)
    && Disjoint(c)
    && SavedIsLogical(c, logical)
    && InstalledIsWritten(c)
    && (forall a | a in logical && c.memory[a] != logical[a] :: InstalledAt(c, a))
  }

  // ---- Specification of the operations ----------------------------------

  predicate CanSet(c: Code, r: Request) {
    Mapped(c.memory, r.offset, |r.bytes|)
  }

  ghost predicate FitsBeside(c: Code, r: Request) {
    forall id, a | SpansLive(c, id, a) :: !Spans(r, a)
  }

  function Set(c: Code, r: Request): Code
    requires CanSet(c, r)
  {
    Code(c.live[c.nextId := Patch(r, Fetch(c.memory, r.offset, |r.bytes|))],
         c.installed + {c.nextId},
         c.nextId + 1,
         if r.kind.Software? then c.retired - {r.offset} else c.retired,
         Store(c.memory, r.offset, r.bytes))
  }

  predicate Restorable(c: Code, id: nat) {
    id in c.live && Mapped(c.memory, c.live[id].request.offset, |c.live[id].saved|)
  }

  /** writeNativeBreakpointBytes(info, false) */
  function Restore(c: Code, id: nat): Code
    requires Restorable(c, id)
  {
    c.(installed := c.installed - {id}, memory := Store(c.memory, c.live[id].request.offset, c.live[id].saved))
  }

  function Retire(c: Code, id: nat): Code
    requires id in c.live
  {
    c.(live := c.live - {id}, installed := c.installed - {id}, retired := c.retired + {c.live[id].request.offset})
  }

  function Delete(c: Code, id: nat): Code
    requires Restorable(c, id)
  {
    Retire(Restore(c, id), id)
  }

  /** The native-breakpoint branch of the exception handler, up to the user callback. */
  function Fire(c: Code, id: nat): Code
    requires Restorable(c, id)
  {
    if c.live[id].request.oneShot then Delete(c, id) else Restore(c, id)
  }

  predicate Rearmable(c: Code, id: nat) {
    id in c.live ==> Mapped(c.memory, c.live[id].request.offset, |c.live[id].request.bytes|)
  }

  /** The re-arm action; the record may be gone by the time it runs. */
  function Rearm(c: Code, id: nat): Code
    requires Rearmable(c, id)
  {
    if id !in c.live then c
    else c.(installed := c.installed + {id},
            memory := Store(c.memory, c.live[id].request.offset, c.live[id].request.bytes))
  }

  /** What a removal of all patches leaves at `a`: the saved byte of the patch there, written or not. */
  ghost function SavedAt(c: Code, a: int): Byte
    requires a in c.memory
  {
    if id: nat :| SpansLive(c, id, a) && a - c.live[id].request.offset < |c.live[id].saved|
    then c.live[id].saved[a - c.live[id].request.offset]
    else c.memory[a]
  }

  /** The native half of RemoveAllBreakPoints. */
  ghost function Emptied(c: Code): Code {
    Code(map[], {}, c.nextId, {}, map a | a in c.memory :: SavedAt(c, a))
  }

  // ---- What each operation does to the records ----------------------------

  /** Record `i` is in both tables or in neither, and is the same. */
  predicate SameRecord(c: Code, n: Code, i: nat) {
    && (i in n.live <==> i in c.live) && (i in c.live ==> n.live[i] == c.live[i])
    && (i in n.installed <==> i in c.installed)
  }

  /** A new record takes the next id, remembers the bytes it replaces and revives a software address. */
  lemma SetMeaning(c: Code, r: Request, i: nat, a: int)
    requires CanSet(c, r)
    ensures var n := Set(c, r); var id := c.nextId;
      && id in n.live && id in n.installed && n.live[id].request == r && n.nextId == id + 1
      && (i != id ==> SameRecord(c, n, i))
      && (a in n.retired <==> a in c.retired && !(r.kind.Software? && a == r.offset))
      && (Spans(r, a) ==> a in n.memory && n.memory[a] == r.bytes[a - r.offset])
      && |n.live[id].saved| == |r.bytes| && (Spans(r, a) ==> n.live[id].saved[a - r.offset] == c.memory[a])
  {
  }

  /** A deleted record is gone and its address retired; no other record moves. */
  lemma DeleteMeaning(c: Code, id: nat, i: nat, a: int)
    requires Restorable(c, id)
    ensures var n := Delete(c, id);
      && id !in n.live && id !in n.installed && n.nextId == c.nextId
      && (i != id ==> SameRecord(c, n, i))
      && (a in n.retired <==> a in c.retired || a == c.live[id].request.offset)
  {
  }

  /** A hit takes the patch out of memory. Its record survives exactly when it is not one-shot, and exactly a
      one-shot address is retired; no other record moves. */
  lemma FireMeaning(c: Code, id: nat, i: nat, a: int)
    requires Restorable(c, id)
    ensures var n := Fire(c, id); var r := c.live[id].request;
      && (id in n.live <==> !r.oneShot) && (!r.oneShot ==> n.live[id] == c.live[id])
      && id !in n.installed && n.nextId == c.nextId
      && (i != id ==> SameRecord(c, n, i))
      && (a in n.retired <==> a in c.retired || (r.oneShot && a == r.offset))
  {
  }

  /** After the hit the target reads the logical bytes where the patch was, and what it read before elsewhere. */
  lemma FiredPatchIsOut(c: Code, id: nat, logical: Memory, a: int)
    requires Sound(c, logical) && id in c.live && a in logical
    ensures Restorable(c, id) && a in Fire(c, id).memory
    ensures Fire(c, id).memory[a] == if Spans(c.live[id].request, a) then logical[a] else c.memory[a]
  {
    assert forall b | Spans(c.live[id].request, b) :: SpansLive(c, id, b);
  }

  /** A re-arm writes the patch again and touches nothing else; without its record it does nothing. */
  lemma RearmMeaning(c: Code, id: nat, i: nat, a: int)
    requires Rearmable(c, id)
    ensures var n := Rearm(c, id);
      && n.live == c.live && n.retired == c.retired && n.nextId == c.nextId && n.memory.Keys == c.memory.Keys
      && (i in n.installed <==> i in c.installed || (i == id && id in c.live))
      && (a in c.memory && SpansLive(c, id, a) ==>
            n.memory[a] == c.live[id].request.bytes[a - c.live[id].request.offset])
      && (a in c.memory && !SpansLive(c, id, a) ==> n.memory[a] == c.memory[a])
  {
  }

  // ---- The operations keep the logical memory ---------------------------

  lemma SetSpans(c: Code, r: Request, logical: Memory)
    requires Sound(c, logical) && CanSet(c, r) && FitsBeside(c, r)
    ensures forall id, a :: SpansLive(Set(c, r), id, a) <==> SpansLive(c, id, a) || (id == c.nextId && Spans(r, a))
    ensures Disjoint(Set(c, r))
    ensures forall a | Spans(r, a) :: a in logical && c.memory[a] == logical[a]
  {
  }

  /** What the new record saves is the logical memory, because nothing was installed there. */
  lemma NewPatchSavesLogical(c: Code, r: Request, logical: Memory, a: int)
    requires Sound(c, logical) && CanSet(c, r) && FitsBeside(c, r) && Spans(r, a)
    ensures a in logical && Fetch(c.memory, r.offset, |r.bytes|)[a - r.offset] == logical[a]
  {
    assert !InstalledAt(c, a);
    assert Fetch(c.memory, r.offset, |r.bytes|)[a - r.offset] == c.memory[r.offset + (a - r.offset)];
  }

  lemma SetSavesLogical(c: Code, r: Request, logical: Memory)
    requires Sound(c, logical) && CanSet(c, r) && FitsBeside(c, r)
    ensures SavedIsLogical(Set(c, r), logical)
  {
    var c' := Set(c, r);
    forall id, a | SpansLive(c', id, a)
      ensures a in logical && a - c'.live[id].request.offset < |c'.live[id].saved|
      ensures c'.live[id].saved[a - c'.live[id].request.offset] == logical[a]
    {
      if id == c.nextId {
        NewPatchSavesLogical(c, r, logical, a);
      } else {
        assert SpansLive(c, id, a) && c'.live[id] == c.live[id];
      }
    }
  }

  lemma SetWritesBytes(c: Code, r: Request, logical: Memory)
    requires Sound(c, logical) && CanSet(c, r) && FitsBeside(c, r)
    ensures InstalledIsWritten(Set(c, r))
  {
    var c' := Set(c, r);
    SetSpans(c, r, logical);
    forall id, a | id in c'.installed && SpansLive(c', id, a)
      ensures a in c'.memory && c'.memory[a] == c'.live[id].request.bytes[a - c'.live[id].request.offset]
    {
      if id == c.nextId {
        assert Spans(r, a) && c'.memory[a] == r.bytes[a - r.offset];
      } else {
        assert SpansLive(c, id, a) && !Spans(r, a);
        assert c'.memory[a] == c.memory[a] && c'.live[id] == c.live[id];
      }
    }
  }

  lemma SetKeepsSound(c: Code, r: Request, logical: Memory)
    requires Sound(c, logical) && CanSet(c, r) && FitsBeside(c, r)
    ensures Sound(Set(c, r), logical)
  {
    var c' := Set(c, r);
    SetSpans(c, r, logical);
    SetSavesLogical(c, r, logical);
    SetWritesBytes(c, r, logical);
    forall a | a in logical && c'.memory[a] != logical[a] ensures InstalledAt(c', a) {
      if Spans(r, a) {
        assert SpansLive(c', c.nextId, a);
      } else {
        var id :| id in c.installed && SpansLive(c, id, a);
        assert SpansLive(c', id, a);
      }
    }
  }

  lemma RestoreKeepsSound(c: Code, id: nat, logical: Memory)
    requires Sound(c, logical) && id in c.live
    ensures Restorable(c, id) && Sound(Restore(c, id), logical)
  {
    assert forall a | Spans(c.live[id].request, a) :: SpansLive(c, id, a) && a in logical;
    var c' := Restore(c, id);
    assert forall i, a :: SpansLive(c', i, a) <==> SpansLive(c, i, a);
    forall a | a in logical && c'.memory[a] != logical[a] ensures InstalledAt(c', a) {
      assert !SpansLive(c, id, a);
      var i :| i in c.installed && SpansLive(c, i, a);
      assert i in c'.installed && SpansLive(c', i, a);
    }
  }

  lemma RetireKeepsSound(c: Code, id: nat, logical: Memory)
    requires Sound(c, logical) && id in c.live && id !in c.installed
    ensures Sound(Retire(c, id), logical)
  {
    var c' := Retire(c, id);
    assert forall i, a :: SpansLive(c', i, a) <==> i != id && SpansLive(c, i, a);
    forall a | a in logical && c'.memory[a] != logical[a] ensures InstalledAt(c', a) {
      var i :| i in c.installed && SpansLive(c, i, a);
      assert i in c'.installed && SpansLive(c', i, a);
    }
  }

  lemma DeleteKeepsSound(c: Code, id: nat, logical: Memory)
    requires Sound(c, logical) && id in c.live
    ensures Restorable(c, id) && Sound(Delete(c, id), logical)
  {
    RestoreKeepsSound(c, id, logical);
    RetireKeepsSound(Restore(c, id), id, logical);
  }

  lemma FireKeepsSound(c: Code, id: nat, logical: Memory)
    requires Sound(c, logical) && id in c.live
    ensures Restorable(c, id) && Sound(Fire(c, id), logical)
    ensures id in Fire(c, id).live <==> !c.live[id].request.oneShot
  {
    RestoreKeepsSound(c, id, logical);
    DeleteKeepsSound(c, id, logical);
  }

  lemma RearmKeepsSound(c: Code, id: nat, logical: Memory)
    requires Sound(c, logical)
    ensures Rearmable(c, id) && Sound(Rearm(c, id), logical)
  {
    if id in c.live {
      assert forall a | Spans(c.live[id].request, a) :: SpansLive(c, id, a) && a in logical;
      var c' := Rearm(c, id);
      assert forall i, a :: SpansLive(c', i, a) <==> SpansLive(c, i, a);
      forall i, a | i in c'.installed && SpansLive(c', i, a)
        ensures a in c'.memory && c'.memory[a] == c'.live[i].request.bytes[a - c'.live[i].request.offset]
      {
        assert SpansLive(c, i, a) && (SpansLive(c, id, a) ==> i == id);
      }
      assert Disjoint(c') && SavedIsLogical(c', logical);
      forall a | a in logical && c'.memory[a] != logical[a] ensures InstalledAt(c', a) {
        if SpansLive(c, id, a) {
          assert SpansLive(c', id, a);
        } else {
          var i :| i in c.installed && SpansLive(c, i, a);
          assert i in c'.installed && SpansLive(c', i, a);
        }
      }
    }
  }

  /** Nothing installed: the target reads as if no breakpoint had ever been set. */
  lemma NothingInstalledRestoresMemory(c: Code, logical: Memory)
    requires Sound(c, logical) && c.installed == {}
    ensures c.memory == logical
  {
    forall a | a in logical ensures c.memory[a] == logical[a] {
      assert !InstalledAt(c, a);
    }
  }

  lemma NothingLiveRestoresMemory(c: Code, logical: Memory)
    requires Sound(c, logical) && c.live == map[]
    ensures c.memory == logical
  {
    assert c.installed <= c.live.Keys == {};
    NothingInstalledRestoresMemory(c, logical);
  }

  /** Removing every patch gives the logical memory, in the middle of a hidden step as well. */
  lemma EmptiedIsLogical(c: Code, logical: Memory)
    requires Sound(c, logical)
    ensures Emptied(c).memory == logical && Sound(Emptied(c), logical)
  {
    forall a | a in logical ensures SavedAt(c, a) == logical[a] {
      if id: nat :| SpansLive(c, id, a) && a - c.live[id].request.offset < |c.live[id].saved| {
      } else {
        assert !InstalledAt(c, a);
      }
    }
  }

  lemma StoreOver(m: Memory, r: Request, saved: seq<Byte>)
    requires Mapped(m, r.offset, |r.bytes|) && |saved| == |r.bytes|
    requires forall a | Spans(r, a) :: m[a] == r.bytes[a - r.offset]
    ensures Store(Store(m, r.offset, saved), r.offset, r.bytes) == m
  {
  }

  /** A persistent breakpoint that fires and is armed again leaves records and memory exactly as they were. */
  lemma RearmUndoesFire(c: Code, id: nat, logical: Memory)
    requires Sound(c, logical) && id in c.installed && !c.live[id].request.oneShot
    ensures Restorable(c, id) && Rearmable(Fire(c, id), id) && Rearm(Fire(c, id), id) == c
  {
    var r := c.live[id].request;
    forall a | Spans(r, a) ensures a in c.memory && c.memory[a] == r.bytes[a - r.offset] {
      assert SpansLive(c, id, a);
    }
    StoreOver(c.memory, r, c.live[id].saved);
  }

  // ---- Routing a trap ----------------------------------------------------

  /** The addresses at which the processor reports a patch: its offset, or one later for a long INT3. */
  predicate Matches(r: Request, address: int) {
    r.offset == address || (r.bytes == LONG_INT3 && r.offset + 1 == address)
  }

  predicate MatchesLive(c: Code, id: nat, address: int) {
    id in c.live && Matches(c.live[id].request, address)
  }

  ghost predicate Encoded(c: Code) {
    forall id | id in c.live :: IsEncoded(c.live[id].request)
  }

  /** The processor reports a fired patch at its first byte, a CD 03 at its second byte too, and the report leads
      back to its own record. */
  lemma TrapFindsItsRecord(c: Code, id: nat, address: int, j: nat)
    requires Encoded(c) && Disjoint(c) && id in c.live
    requires var r := c.live[id].request; address == r.offset || (r.bytes == [0xCD, 0x03] && address == r.offset + 1)
    ensures MatchesLive(c, j, address) <==> j == id
  {
    if MatchesLive(c, j, address) {
      MatchUnique(c, id, j, address);
    }
  }

  lemma MatchesMeaning(r: Request, e: Encoding, address: int)
    requires r.bytes == TrapBytes(e)
    ensures Matches(r, address) <==> address == r.offset || (e.LongInt3? && address == r.offset + 1)
  {
    assert INT3[0] != LONG_INT3[0] && UD2[0] != LONG_INT3[0];
  }

  /** The three encodings by name. */
  lemma EncodingBytes(r: Request)
    ensures TrapBytes(Int3) == [0xCC] && TrapBytes(LongInt3) == [0xCD, 0x03] && TrapBytes(Ud2) == [0x0F, 0x0B]
    ensures IsEncoded(r) <==> exists e :: r.bytes == TrapBytes(e)
  {
    if IsEncoded(r) {
      var e := if r.bytes == INT3 then Int3 else if r.bytes == LONG_INT3 then LongInt3 else Ud2;
      assert r.bytes == TrapBytes(e);
    }
  }

  lemma MatchIsSpan(c: Code, id: nat, address: int)
    requires Encoded(c) && MatchesLive(c, id, address)
    ensures SpansLive(c, id, address)
  {
    assert |INT3| == 1 && |LONG_INT3| == 2 && |UD2| == 2;
  }

  /** With disjoint patches at most one record answers a reported address, so the
      order in which the table is searched does not matter. */
  lemma MatchUnique(c: Code, i: nat, j: nat, address: int)
    requires Encoded(c) && Disjoint(c) && MatchesLive(c, i, address) && MatchesLive(c, j, address)
    ensures i == j
  {
    MatchIsSpan(c, i, address);
    MatchIsSpan(c, j, address);
  }

  /** Memory departs from the logical one only inside an installed patch, and there it is the patch. */
  lemma DeparturesAreInstalledPatches(c: Code, logical: Memory, a: int)
    requires Sound(c, logical) && a in logical && c.memory[a] != logical[a]
    ensures exists id :: id in c.installed && SpansLive(c, id, a) &&
                         c.memory[a] == c.live[id].request.bytes[a - c.live[id].request.offset]
  {
  }

  /** The byte of patch `id` at `a` is the one in memory. */
  predicate ReadsPatch(c: Code, id: nat, a: int) {
    SpansLive(c, id, a) && a in c.memory && c.memory[a] == c.live[id].request.bytes[a - c.live[id].request.offset]
  }

  lemma InstalledReadsPatch(c: Code, logical: Memory, id: nat, a: int)
    requires Sound(c, logical) && id in c.installed && SpansLive(c, id, a)
    ensures ReadsPatch(c, id, a)
  {
  }

  // ---- Overlapping patches ----------------------------------------------

  lemma StoreBack(m: Memory, r: Request)
    requires Mapped(m, r.offset, |r.bytes|)
    ensures Store(Store(m, r.offset, r.bytes), r.offset, Fetch(m, r.offset, |r.bytes|)) == m
  {
  }

  ghost predicate AllSettable(c: Code, requests: seq<Request>) {
    forall i | 0 <= i < |requests| :: CanSet(c, requests[i])
  }

  ghost predicate IdsBelowNext(c: Code) {
    forall id | id in c.live :: id < c.nextId
  }

  /** Sets every request in order, overlapping or not, then deletes them newest first:
      records and memory come back exactly. */
  ghost function Unwound(c: Code, requests: seq<Request>): (n: Code)
    requires AllSettable(c, requests) && IdsBelowNext(c)
    ensures n.live == c.live && n.memory == c.memory
    decreases |requests|
  {
    if requests == [] then c
    else
      var s := Set(c, requests[0]);
      StoreBack(c.memory, requests[0]);
      assert s.live - {c.nextId} == c.live;
      Delete(Unwound(s, requests[1..]), c.nextId)
  }

  /** Memory after setting `r` then `q` and restoring `r` then `q`. */
  ghost function RestoredOldestFirst(m: Memory, r: Request, q: Request): (m': Memory)
    requires Mapped(m, r.offset, |r.bytes|) && Mapped(m, q.offset, |q.bytes|)
    ensures m'.Keys == m.Keys
  {
    var m1 := Store(m, r.offset, r.bytes);
    var m2 := Store(m1, q.offset, q.bytes);
    var m3 := Store(m2, r.offset, Fetch(m, r.offset, |r.bytes|));
    Store(m3, q.offset, Fetch(m1, q.offset, |q.bytes|))
  }

  lemma OldestFirstAt(m: Memory, r: Request, q: Request, a: int)
    requires Mapped(m, r.offset, |r.bytes|) && Mapped(m, q.offset, |q.bytes|) && a in m
    ensures RestoredOldestFirst(m, r, q)[a] ==
            if Spans(r, a) && Spans(q, a) then r.bytes[a - r.offset] else m[a]
  {
    var m1 := Store(m, r.offset, r.bytes);
    var m2 := Store(m1, q.offset, q.bytes);
    var m3 := Store(m2, r.offset, Fetch(m, r.offset, |r.bytes|));
    assert m1[a] == if Spans(r, a) then r.bytes[a - r.offset] else m[a];
    assert m2[a] == if Spans(q, a) then q.bytes[a - q.offset] else m1[a];
    assert m3[a] == if Spans(r, a) then m[a] else m2[a];
  }

  /** Deleting the older of the last two patches leaves the younger one restorable. */
  lemma BothRestorable(c: Code, r: Request, q: Request)
    requires IdsBelowNext(c) && CanSet(c, r) && CanSet(c, q)
    ensures CanSet(Set(c, r), q)
    ensures var s := Set(Set(c, r), q);
      && Restorable(s, c.nextId) && Restorable(Delete(s, c.nextId), c.nextId + 1)
      && Delete(s, c.nextId).live[c.nextId + 1] == s.live[c.nextId + 1]
  {
  }

  ghost function DeletedOldestFirst(c: Code, r: Request, q: Request): (m: Memory)
    requires IdsBelowNext(c) && CanSet(c, r) && CanSet(c, q)
    ensures m == RestoredOldestFirst(c.memory, r, q)
  {
    BothRestorable(c, r, q);
    var s := Set(Set(c, r), q);
    Delete(Delete(s, c.nextId), c.nextId + 1).memory
  }

  ghost predicate AgreesOnOverlap(m: Memory, r: Request, q: Request) {
    forall a | Spans(r, a) && Spans(q, a) :: a in m && m[a] == r.bytes[a - r.offset]
  }

  lemma RestoredOldestFirstIff(m: Memory, end: Memory, r: Request, q: Request)
    requires m.Keys == end.Keys
    requires forall a | Spans(r, a) :: a in m
    requires forall a | a in m :: end[a] == if Spans(r, a) && Spans(q, a) then r.bytes[a - r.offset] else m[a]
    ensures end == m <==> AgreesOnOverlap(m, r, q)
  {
    if AgreesOnOverlap(m, r, q) {
      assert forall a | a in m :: end[a] == m[a];
    } else {
      var a :| Spans(r, a) && Spans(q, a) && !(a in m && m[a] == r.bytes[a - r.offset]);
      assert end[a] != m[a];
    }
  }

  /** Deleting the older of two patches first gives the memory back exactly when the older patch
      agrees with the memory wherever the two overlap. */
  lemma OldestFirstRestoresIff(c: Code, r: Request, q: Request)
    requires IdsBelowNext(c) && CanSet(c, r) && CanSet(c, q)
    ensures DeletedOldestFirst(c, r, q) == c.memory <==> AgreesOnOverlap(c.memory, r, q)
  {
    var end := RestoredOldestFirst(c.memory, r, q);
    forall a | a in c.memory
      ensures end[a] == if Spans(r, a) && Spans(q, a) then r.bytes[a - r.offset] else c.memory[a]
    {
      OldestFirstAt(c.memory, r, q, a);
    }
    RestoredOldestFirstIff(c.memory, end, r, q);
  }

  /** A long INT3 with an INT3 on its second byte: removed oldest first, a stray byte stays behind. */
  lemma OverlapLeavesStrayByte(c: Code)
    requires c == Code(map[], {}, 0, {}, map[0x1000 := 0x90, 0x1001 := 0x90])
    ensures var r, q := Request(0x1000, Software, false, LONG_INT3), Request(0x1001, Software, false, INT3);
      CanSet(c, r) && CanSet(c, q) && IdsBelowNext(c) && DeletedOldestFirst(c, r, q)[0x1001] == 0x03
  {
  }
}

/** The exported operations on adapter-owned patches, over mutable tables and target memory. */
module NativeBreakpoints {
  import opened Target
  import opened Patches

  /** The type bits of SetBPX's second argument. */
  datatype TypeBits = UseDefault | Selected(encoding: Encoding) | Unknown

  datatype WriteResult = Done | NotWritten | NotFlushed

  datatype Route = Fired(id: nat) | RestoreFailed | Suppressed | Unhandled

  ghost predicate HardwareAt(c: Code, a: int) {
    exists id :: SpansLive(c, id, a) && c.live[id].request.kind.HardwareExecute?
  }

  ghost predicate SoftwareAmong(c: Code, ids: set<nat>, a: int) {
    exists id :: id in ids && SpansLive(c, id, a) && c.live[id].request.kind.Software?
  }

  lemma SetIsValid(c: Code, r: Request, e: Encoding, logical: Memory)
    requires CanSet(c, r) && r.bytes == TrapBytes(e)
    ensures Sound(c, logical) && Encoded(c) && FitsBeside(c, r) ==> Sound(Set(c, r), logical) && Encoded(Set(c, r))
  {
    EncodingBytes(r);
    if Sound(c, logical) && Encoded(c) && FitsBeside(c, r) {
      SetKeepsSound(c, r, logical);
    }
  }

  class BreakpointTable {
    var live: map<nat, Patch>
    var nextId: nat
    var retired: set<int>
    var memory: Memory
    var defaultEncoding: Encoding
    var debugging: bool
    var instructionPointer: int
    ghost var installed: set<nat>
    ghost var refusals: nat                // how often a write or a cache flush has failed

    ghost function View(): Code
      reads this
    {
      Code(live, installed, nextId, retired, memory)
    }

    ghost predicate Valid(logical: Memory)
      reads this
    {
      Sound(View(), logical) && Encoded(View())
    }

    constructor (memory: Memory)
      ensures Valid(memory) && live == map[] && installed == {}
      ensures this.memory == memory
    {
      live, nextId, retired, this.memory := map[], 0x8000_0000, {}, memory;
      defaultEncoding, debugging, instructionPointer, installed, refusals := Int3, true, 0, {}, 0;
    }

    /** WriteProcessMemory then FlushInstructionCache. */
    method WriteBytes(start: int, bytes: seq<Byte>) returns (result: WriteResult)
      modifies this`memory, this`refusals
      ensures refusals >= old(refusals)
      ensures result.Done? <==> Mapped(old(memory), start, |bytes|) && refusals == old(refusals)
      ensures result.NotWritten? ==> memory == old(memory)
      ensures !result.NotWritten? ==>
        Mapped(old(memory), start, |bytes|) && memory == Store(old(memory), start, bytes)
    {
      var refused: bool, unflushed: bool := *, *;
      var mapped := IsMapped(start, |bytes|);
      if refused || unflushed {
        refusals := refusals + 1;
      }
      if refused || !mapped {
        return NotWritten;
      }
      memory := Store(memory, start, bytes);
      result := if unflushed then NotFlushed else Done;
    }

    method IsMapped(start: int, size: nat) returns (mapped: bool)
      ensures mapped <==> Mapped(memory, start, size)
    {
      mapped := true;
      var k := 0;
      while k < size
        invariant 0 <= k <= size
        invariant mapped <==> Mapped(memory, start, k)
      {
        mapped := mapped && start + k in memory;
        k := k + 1;
      }
    }

    method SoftwareAt(address: int) returns (found: bool, hit: nat)
      ensures found <==> exists id ::
        id in live && live[id].request.kind.Software? && live[id].request.offset == address
      ensures found ==> hit in live && live[hit].request.kind.Software? && live[hit].request.offset == address
    {
      hit := 0;
      var rest := live.Keys;
      while rest != {}
        invariant rest <= live.Keys
        invariant forall id | id in live && id !in rest ::
          !(live[id].request.kind.Software? && live[id].request.offset == address)
        decreases rest
      {
        var id :| id in rest;
        if live[id].request.kind.Software? && live[id].request.offset == address {
          return true, id;
        }
        rest := rest - {id};
      }
      found := false;
    }

    /** SetBPX in a live session. `result` tells what became of the patch write. */
    method SetBpx(address: int, hasCallback: bool, bits: TypeBits, oneShot: bool, ghost logical: Memory)
      returns (ok: bool, ghost request: Request, ghost result: WriteResult)
      modifies this`live, this`nextId, this`retired, this`memory, this`refusals, this`installed
      ensures request.offset == address && request.oneShot == oneShot && request.kind.Software?
      ensures request.bytes == TrapBytes(if bits.Selected? then bits.encoding else defaultEncoding)
      ensures refusals >= old(refusals)
      ensures ok <==> refusals == old(refusals) && CanSet(old(View()), request) &&
                      address != 0 && hasCallback && debugging && !bits.Unknown? &&
                      forall id | id in old(live) && old(live)[id].request.kind.Software? ::
                        old(live)[id].request.offset != address
      ensures ok ==> View() == Set(old(View()), request)
      ensures ok && old(Valid(logical)) && FitsBeside(old(View()), request) ==> Valid(logical)
      ensures ok ==> old(nextId) in live && live[old(nextId)].request == request && address !in retired
      ensures ok ==> forall k | 0 <= k < |request.bytes| ::
        address + k in memory && memory[address + k] == request.bytes[k]
      ensures !ok ==> live == old(live) && retired == old(retired) && installed == old(installed)
      ensures !ok && !result.NotFlushed? ==> memory == old(memory)
      ensures result.NotFlushed? ==> CanSet(old(View()), request) && memory == Set(old(View()), request).memory
    {
      var encoding := if bits.Selected? then bits.encoding else defaultEncoding;
      var r := Request(address, Software, oneShot, TrapBytes(encoding));
      ok, request, result := false, r, NotWritten;
      if address == 0 || !hasCallback || !debugging {
        return;
      }
      var found, existing := SoftwareAt(address);
      if found || bits.Unknown? {
        return;
      }
      var mapped := IsMapped(address, |r.bytes|);
      if !mapped {
        return;
      }
      var saved := Fetch(memory, address, |r.bytes|);
      var id := nextId;
      nextId := nextId + 1;
      var written := WriteBytes(address, r.bytes);
      result := written;
      if !written.Done? {
        return;
      }
      retired := retired - {address};
      live := live[id := Patch(r, saved)];
      installed := installed + {id};
      ok := true;
      SetIsValid(old(View()), r, encoding, logical);
    }

    /** SetHardwareBreakPoint for execute access, after the debug-register slot has been chosen. */
    method SetExecute(address: int) returns (ok: bool, ghost result: WriteResult)
      modifies this`live, this`nextId, this`memory, this`refusals, this`installed
      ensures var r := Request(address, HardwareExecute, false, INT3);
        && refusals >= old(refusals)
        && (ok <==> CanSet(old(View()), r) && refusals == old(refusals))
        && (ok ==> View() == Set(old(View()), r))
      ensures !ok ==> live == old(live) && installed == old(installed)
      ensures !ok && !result.NotFlushed? ==> memory == old(memory)
    {
      result := NotWritten;
      var r := Request(address, HardwareExecute, false, INT3);
      var id := nextId;
      nextId := nextId + 1;
      var mapped := IsMapped(address, |r.bytes|);
      if !mapped {
        return false, NotWritten;
      }
      var saved := Fetch(memory, address, |r.bytes|);
      var written := WriteBytes(address, r.bytes);
      result := written;
      ok := written.Done?;
      if ok {
        live := live[id := Patch(r, saved)];
        installed := installed + {id};
      }
    }

    /** writeNativeBreakpointBytes(info, false) */
    method RestoreBytes(id: nat, ghost logical: Memory) returns (ok: bool)
      requires Valid(logical) && id in live
      modifies this`memory, this`refusals, this`installed
      ensures Valid(logical)
      ensures refusals >= old(refusals) && (ok <==> refusals == old(refusals))
      ensures ok ==> Restorable(old(View()), id) && View() == Restore(old(View()), id)
    {
      RestoreKeepsSound(View(), id, logical);
      var written := WriteBytes(live[id].request.offset, live[id].saved);
      ok := written.Done?;
      if !written.NotWritten? {
        installed := installed - {id};
      }
    }

    /** DeleteBPX in a live session; a failed restore keeps the record. */
    method DeleteBpx(address: int, ghost logical: Memory) returns (ok: bool, ghost id: nat)
      requires Valid(logical)
      modifies this`live, this`retired, this`memory, this`refusals, this`installed
      ensures Valid(logical)
      ensures refusals >= old(refusals)
      ensures ok <==> refusals == old(refusals) && exists i ::
        i in old(live) && old(live)[i].request.kind.Software? && old(live)[i].request.offset == address
      ensures ok ==> Restorable(old(View()), id) && View() == Delete(old(View()), id)
      ensures ok ==> old(live)[id].request.offset == address && old(live)[id].request.kind.Software?
      ensures !ok ==> live == old(live) && retired == old(retired)
      ensures (forall i | i in old(live) && old(live)[i].request.kind.Software? ::
                 old(live)[i].request.offset != address) ==> !ok && memory == old(memory)
    {
      var found, hit := SoftwareAt(address);
      id := hit;
      if !found {
        return false, hit;
      }
      ok := RestoreBytes(hit, logical);
      if ok {
        RetireKeepsSound(View(), hit, logical);
        retired := retired + {address};
        live := live - {hit};
        installed := installed - {hit};
      }
    }

    /** What the exception handler does to the record it has found, up to the user callback. */
    method FireRecord(id: nat, ghost logical: Memory) returns (ok: bool)
      requires Valid(logical) && id in live
      modifies this`live, this`retired, this`memory, this`refusals, this`installed, this`instructionPointer
      ensures Valid(logical)
      ensures refusals >= old(refusals) && (ok <==> refusals == old(refusals))
      ensures ok ==> Restorable(old(View()), id) && View() == Fire(old(View()), id)
      ensures ok ==> instructionPointer == old(live)[id].request.offset
      ensures ok ==> forall a | Spans(old(live)[id].request, a) ::
        a in memory && a in logical && memory[a] == logical[a]
      ensures !ok ==> live == old(live) && retired == old(retired)
    {
      forall a | Spans(live[id].request, a) ensures a in logical && a in Fire(View(), id).memory
        ensures Fire(View(), id).memory[a] == logical[a]
      {
        assert SpansLive(View(), id, a);
        FiredPatchIsOut(View(), id, logical, a);
      }
      ok := RestoreBytes(id, logical);
      if !ok {
        return;
      }
      var offset := live[id].request.offset;
      instructionPointer := offset;
      if live[id].request.oneShot {
        RetireKeepsSound(View(), id, logical);
        retired := retired + {offset};
        live := live - {id};
        installed := installed - {id};
      }
    }

    /** The search and the first half of the native-breakpoint exception handler. */
    method HandleTrap(address: int, ghost logical: Memory) returns (route: Route)
      requires Valid(logical)
      modifies this`live, this`retired, this`memory, this`refusals, this`installed, this`instructionPointer
      ensures Valid(logical)
      ensures route.Fired? ==>
        && MatchesLive(old(View()), route.id, address)
        && Restorable(old(View()), route.id)
        && View() == Fire(old(View()), route.id)
        && instructionPointer == old(live)[route.id].request.offset
      ensures route.Fired? ==> var r := old(live)[route.id].request;
        && live == (if r.oneShot then old(live) - {route.id} else old(live))
        && retired == (if r.oneShot then old(retired) + {r.offset} else old(retired))
        && forall a | Spans(r, a) :: a in memory && a in logical && memory[a] == logical[a]
      ensures route.Fired? ==> forall id | MatchesLive(old(View()), id, address) :: id == route.id
      ensures refusals >= old(refusals) && (route.RestoreFailed? <==> refusals > old(refusals))
      ensures (exists id :: MatchesLive(old(View()), id, address)) <==> route.Fired? || route.RestoreFailed?
      ensures route.Suppressed? <==>
        (forall id :: !MatchesLive(old(View()), id, address)) &&
        (address in retired || (address != 0 && address - 1 in retired))
      ensures !route.Fired? ==> live == old(live) && retired == old(retired)
    {
      var rest := live.Keys;
      while rest != {}
        invariant rest <= live.Keys
        invariant forall id | id in live && id !in rest :: !Matches(live[id].request, address)
        decreases rest
      {
        var id :| id in rest;
        if Matches(live[id].request, address) {
          assert MatchesLive(old(View()), id, address);
          forall i | MatchesLive(old(View()), i, address) ensures i == id {
            MatchUnique(View(), i, id, address);
          }
          var ok := FireRecord(id, logical);
          if !ok {
            return RestoreFailed;
          }
          return Fired(id);
        }
        rest := rest - {id};
      }
      if address in retired || (address != 0 && address - 1 in retired) {
        return Suppressed;
      }
      route := Unhandled;
    }

    /** The re-arm closure queued behind the hidden step. */
    method RearmBytes(id: nat, ghost logical: Memory) returns (result: WriteResult)
      requires Valid(logical)
      modifies this`memory, this`refusals, this`installed
      ensures Valid(logical)
      ensures refusals >= old(refusals) && (result.Done? <==> refusals == old(refusals))
      ensures Rearmable(old(View()), id)
      ensures View() == if result.NotWritten? then old(View()) else Rearm(old(View()), id)
    {
      RearmKeepsSound(View(), id, logical);
      result := Done;
      if id in live {
        result := WriteBytes(live[id].request.offset, live[id].request.bytes);
        if !result.NotWritten? {
          installed := installed + {id};
        }
      }
    }

    /** RemoveAllBreakPoints for native records: a complete pass restores the target's memory. */
    method RemoveAll(ghost logical: Memory) returns (ok: bool)
      requires Valid(logical)
      modifies this`live, this`retired, this`memory, this`refusals, this`installed
      ensures Valid(logical)
      ensures refusals >= old(refusals) && (ok <==> refusals == old(refusals))
      ensures ok ==> View() == Emptied(old(View())) && memory == logical
      ensures !ok ==> live == old(live)
    {
      var rest := live.Keys;
      while rest != {}
        invariant Valid(logical) && live == old(live) && rest <= live.Keys && installed <= rest
        invariant refusals == old(refusals)
        decreases rest
      {
        var id :| id in rest;
        ok := RestoreBytes(id, logical);
        if !ok {
          return;
        }
        rest := rest - {id};
      }
      NothingInstalledRestoresMemory(View(), logical);
      EmptiedIsLogical(old(View()), logical);
      live, installed, retired := map[], {}, {};
      ok := true;
    }

    /** MemoryReadSafe once the session checks have passed: a raw read, then the saved bytes of every
        software patch laid over it. Table order, partial overlaps at either end and patches that
        are out for a hidden step make no difference. */
    method MemoryReadSafe(start: int, buffer: array<Byte>, ghost logical: Memory) returns (ok: bool)
      requires Valid(logical) && start + buffer.Length <= ADDRESS_LIMIT
      modifies buffer
      ensures ok ==> forall k | 0 <= k < buffer.Length ::
        && start + k in logical
        && buffer[k] == if HardwareAt(View(), start + k) then memory[start + k] else logical[start + k]
      ensures !ok ==> !Mapped(memory, start, buffer.Length)
    {
      ok := IsMapped(start, buffer.Length);
      if !ok {
        return;
      }
      var i := 0;
      while i < buffer.Length
        invariant 0 <= i <= buffer.Length
        invariant forall k | 0 <= k < i :: buffer[k] == memory[start + k]
      {
        buffer[i] := memory[start + i];
        i := i + 1;
      }
      ghost var done: set<nat> := {};
      var rest := live.Keys;
      while rest != {}
        invariant rest <= live.Keys && done == live.Keys - rest
        invariant forall k | 0 <= k < buffer.Length ::
          buffer[k] == if SoftwareAmong(View(), done, start + k) then logical[start + k] else memory[start + k]
        decreases rest
      {
        var id :| id in rest;
        if live[id].request.kind.Software? {
          OverlaySaved(start, buffer, live[id]);
          assert forall a :: SoftwareAmong(View(), done + {id}, a) <==>
            SoftwareAmong(View(), done, a) || SpansLive(View(), id, a);
        } else {
          assert forall a :: SoftwareAmong(View(), done + {id}, a) <==> SoftwareAmong(View(), done, a);
        }
        done := done + {id};
        rest := rest - {id};
      }
      forall k | 0 <= k < buffer.Length
        ensures start + k in logical
        ensures buffer[k] == if HardwareAt(View(), start + k) then memory[start + k] else logical[start + k]
      {
        OverlayIsLogical(View(), logical, start + k);
      }
    }

    /** The body of the overlay loop: copy the intersection of the patch and the read. */
    method OverlaySaved(start: int, buffer: array<Byte>, p: Patch)
      requires |p.saved| == |p.request.bytes|
      modifies buffer
      ensures forall k | 0 <= k < buffer.Length ::
        buffer[k] == if Spans(p.request, start + k) then p.saved[start + k - p.request.offset] else old(buffer[k])
    {
      var from := if start < p.request.offset then p.request.offset else start;
      var end := p.request.offset + |p.saved|;
      var to := if start + buffer.Length < end then start + buffer.Length else end;
      if to <= from {
        return;
      }
      var a := from;
      while a < to
        invariant from <= a <= to
        invariant forall k | 0 <= k < buffer.Length ::
          buffer[k] == if from <= start + k < a then p.saved[start + k - p.request.offset] else old(buffer[k])
      {
        buffer[a - start] := p.saved[a - p.request.offset];
        a := a + 1;
      }
    }
  }

  lemma OverlayIsLogical(c: Code, logical: Memory, a: int)
    requires Sound(c, logical) && a in c.memory
    ensures SoftwareAmong(c, c.live.Keys, a) ==> !HardwareAt(c, a)
    ensures !SoftwareAmong(c, c.live.Keys, a) && !HardwareAt(c, a) ==> c.memory[a] == logical[a]
  {
  }
}

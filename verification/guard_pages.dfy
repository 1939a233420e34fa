/** Page-guard memory breakpoints in live sessions: the breakpoint table, the
    reference-counted page table, and the page protections of the target. */
module GuardPages {
  import opened Common
  import opened Target

  datatype AccessKind = AnyAccess | ReadAccess | WriteAccess | ExecuteAccess

  datatype Watch = Watch(id: nat, start: int, size: int, access: AccessKind, restoreOnHit: bool)

  datatype PageRecord = PageRecord(originalProtect: Protection, ids: set<nat>)

  /** The page table beside the target's protections; `protection` holds exactly the committed pages. */
  datatype Table = Table(pages: map<int, PageRecord>, protection: map<int, Protection>)

  datatype Guard = Guard(watches: map<nat, Watch>, nextId: nat, table: Table)

  predicate InRange(w: Watch) {
    0 < w.start && 0 < w.size && w.start + w.size < ADDRESS_LIMIT
  }

  function CoveredPages(w: Watch): set<int> {
    set p | PageOf(w.start) <= p <= PageOf(w.start + w.size - 1) && Aligned(p)
  }

  /** The page span is exactly the pages of the watched bytes. */
  lemma CoveredPagesMeaning(w: Watch, p: int)
    requires InRange(w)
    ensures p in CoveredPages(w) <==> exists a :: w.start <= a < w.start + w.size && PageOf(a) == p
  {
    var last := w.start + w.size - 1;
    if p in CoveredPages(w) {
      var a := if p < w.start then w.start else p;
      if p <= last {
        PageOfUnique(a, p);
        assert w.start <= a < w.start + w.size && PageOf(a) == p;
      } else {
        assert false;
      }
    }
  }

  predicate AccessMatches(kind: AccessKind, accessType: nat) {
    match kind
    case AnyAccess => true
    case ReadAccess => accessType == 0
    case WriteAccess => accessType == 1
    case ExecuteAccess => accessType == 8
  }

  /** The candidate test of the guard-fault handler. */
  predicate Reports(w: Watch, address: int, accessType: nat) {
    w.start <= address && address - w.start < w.size && AccessMatches(w.access, accessType)
  }

  /** The access codes of the exception record: 0 reads, 1 writes, 8 executes. */
  lemma ReportsMeaning(w: Watch, address: int, accessType: nat)
    ensures Reports(w, address, accessType) <==>
      && w.start <= address < w.start + w.size
      && (w.access.AnyAccess? || (w.access.ReadAccess? && accessType == 0) ||
          (w.access.WriteAccess? && accessType == 1) || (w.access.ExecuteAccess? && accessType == 8))
  {
  }

  predicate Answers(watches: map<nat, Watch>, id: nat, address: int, accessType: nat) {
    id in watches && Reports(watches[id], address, accessType)
  }

  /** The breakpoint that a guard fault reports: the matching one with the least id. */
  ghost predicate IsHit(watches: map<nat, Watch>, address: int, accessType: nat, hit: Option<nat>) {
    match hit
    case None => forall id :: !Answers(watches, id, address, accessType)
    case Some(h) =>
      Answers(watches, h, address, accessType) && forall id | Answers(watches, id, address, accessType) :: h <= id
  }

  lemma {:induction false} HitExists(watches: map<nat, Watch>, id: nat, address: int, accessType: nat)
    requires Answers(watches, id, address, accessType)
    ensures exists h: nat :: h <= id && IsHit(watches, address, accessType, Some(h))
    decreases id
  {
    if IsHit(watches, address, accessType, Some(id)) {
    } else {
      var i: nat :| Answers(watches, i, address, accessType) && i < id;
      HitExists(watches, i, address, accessType);
    }
  }

  // ---- Invariants -------------------------------------------------------

  function Owners(watches: map<nat, Watch>, p: int): set<nat> {
    set id | id in watches && p in CoveredPages(watches[id])
  }

  /** Id 0 is never given out: the fault handler takes it for no hit. */
  ghost predicate TablesAgree(g: Guard) {
    && 0 < g.nextId
    && (forall id | id in g.watches :: 0 < g.watches[id].id == id < g.nextId && InRange(g.watches[id]))
    && (forall p :: p in g.table.pages <==> Owners(g.watches, p) != {})
    && (forall p | p in g.table.pages :: g.table.pages[p].ids == Owners(g.watches, p))
  }

  /** Protections differ from `base` at most by a guard bit on a tabled page. */
  ghost predicate ProtectionOk(t: Table, base: map<int, Protection>) {
    && t.protection.Keys == base.Keys
    && t.pages.Keys <= base.Keys
    && (forall p | p in base :: !base[p].guarded)
    && (forall p | p in base && p !in t.pages :: t.protection[p] == base[p])
    && (forall p | p in t.pages ::
          t.pages[p].originalProtect == base[p] &&
          (t.protection[p] == base[p] || t.protection[p] == Guarded(base[p])))
  }

  ghost predicate Valid(g: Guard, base: map<int, Protection>) {
    TablesAgree(g) && ProtectionOk(g.table, base)
  }

  predicate Exposed(t: Table, p: int) {
    p in t.pages && p in t.protection && !t.protection[p].guarded
  }

  ghost predicate AllArmed(t: Table) {
    forall p | p in t.pages :: !Exposed(t, p)
  }

  // ---- Specification of the table operations ----------------------------

  /** Registers breakpoint `id` on the pages `touched`; the new pages among `armed` get their guard. */
  function Attach(t: Table, id: nat, touched: set<int>, armed: set<int>): Table
    requires touched <= t.pages.Keys + t.protection.Keys
  {
    Table(
      map p | p in t.pages.Keys + touched ::
        if p !in t.pages then PageRecord(t.protection[p], {id})
        else if p in touched then t.pages[p].(ids := t.pages[p].ids + {id})
        else t.pages[p],
      map p | p in t.protection ::
        if p in armed && p !in t.pages then Guarded(t.protection[p]) else t.protection[p])
  }

  predicate LastOwner(t: Table, id: nat, p: int) {
    p in t.pages && t.pages[p].ids - {id} == {}
  }

  /** Withdraws breakpoint `id` from the pages `touched`; pages left without owner lose their guard. */
  function Detach(t: Table, id: nat, touched: set<int>): Table {
    Table(
      map p | p in t.pages && !(p in touched && LastOwner(t, id, p)) ::
        if p in touched then t.pages[p].(ids := t.pages[p].ids - {id}) else t.pages[p],
      map p | p in t.protection ::
        if p in touched && LastOwner(t, id, p) then t.pages[p].originalProtect else t.protection[p])
  }

  predicate CanAdd(g: Guard, w: Watch) {
    && InRange(w) && w.id == g.nextId
    && CoveredPages(w) <= g.table.pages.Keys + g.table.protection.Keys
  }

  function Add(g: Guard, w: Watch): Guard
    requires CanAdd(g, w)
  {
    Guard(g.watches[w.id := w], g.nextId + 1, Attach(g.table, w.id, CoveredPages(w), CoveredPages(w)))
  }

  function Remove(g: Guard, id: nat): Guard
    requires id in g.watches
  {
    Guard(g.watches - {id}, g.nextId, Detach(g.table, id, CoveredPages(g.watches[id])))
  }

  /** What the guard-fault handler does before the callback: a breakpoint without restoreOnHit goes at once. */
  function Reported(g: Guard, hit: Option<nat>): Guard {
    if hit.Some? && hit.value in g.watches && !g.watches[hit.value].restoreOnHit then Remove(g, hit.value) else g
  }

  /** removeAllMemoryBreakpoints */
  function Cleared(g: Guard): Guard {
    Guard(map[], g.nextId, Table(map[],
      map p | p in g.table.protection ::
        if p in g.table.pages then g.table.pages[p].originalProtect else g.table.protection[p]))
  }

  /** protectMemoryBreakpointPage when VirtualProtectEx succeeds; a page outside the table is left alone. */
  function Protect(t: Table, p: int, guarded: bool): Table {
    if p !in t.pages || p !in t.protection then t
    else t.(protection := t.protection[p :=
      if guarded then Guarded(t.pages[p].originalProtect) else t.pages[p].originalProtect])
  }

  /** MemoryReadUnsafe: each tabled page in the range is exposed for the read and guarded afterwards. */
  function Reguard(t: Table, range: set<int>): Table {
    t.(protection := map p | p in t.protection ::
         if p in range && p in t.pages then Guarded(t.pages[p].originalProtect) else t.protection[p])
  }

  function SpanPages(start: int, size: nat): set<int> {
    set p | PageOf(start) <= p <= PageOf(start + size - 1) && Aligned(p)
  }

  lemma SpanPagesMeaning(start: int, size: nat, p: int)
    requires size > 0
    ensures p in SpanPages(start, size) <==> exists a :: start <= a < start + size && PageOf(a) == p
  {
    if p in SpanPages(start, size) {
      var a := if p < start then start else p;
      PageOfUnique(a, p);
      assert start <= a < start + size && PageOf(a) == p;
    }
  }

  // ---- What each operation does to the breakpoints -----------------------

  /** A breakpoint can be added when its bytes lie in the address space and their pages are committed. */
  lemma CanAddMeaning(g: Guard, w: Watch)
    ensures CanAdd(g, w) <==>
      && 0 < w.start && 0 < w.size && w.start + w.size < ADDRESS_LIMIT && w.id == g.nextId
      && (forall a | w.start <= a < w.start + w.size :: PageOf(a) in g.table.pages || PageOf(a) in g.table.protection)
  {
    if InRange(w) {
      forall p ensures p in CoveredPages(w) <==> exists a :: w.start <= a < w.start + w.size && PageOf(a) == p {
        CoveredPagesMeaning(w, p);
      }
      forall a | w.start <= a < w.start + w.size ensures PageOf(a) in CoveredPages(w) {
      }
    }
  }

  /** Adding enters one breakpoint under the next id and removing takes one out; the others stay as they are. */
  lemma WatchesMeaning(g: Guard, w: Watch, id: nat)
    ensures CanAdd(g, w) ==> Add(g, w).watches == g.watches[g.nextId := w] && Add(g, w).nextId == g.nextId + 1
    ensures id in g.watches ==> Remove(g, id).watches == g.watches - {id} && Remove(g, id).nextId == g.nextId
    ensures Cleared(g).watches == map[] && Cleared(g).nextId == g.nextId
  {
  }

  /** The breakpoint a fault reports survives exactly when it restores itself; no other one goes. */
  lemma ReportedMeaning(g: Guard, hit: Option<nat>, id: nat)
    ensures var n := Reported(g, hit).watches;
      && (id in n <==> id in g.watches && !(hit == Some(id) && !g.watches[id].restoreOnHit))
      && (id in n ==> n[id] == g.watches[id])
  {
  }

  // ---- The operations keep the invariants -------------------------------

  lemma AddKeepsTables(g: Guard, w: Watch)
    requires TablesAgree(g) && CanAdd(g, w)
    ensures TablesAgree(Add(g, w))
  {
    var g' := Add(g, w);
    forall p
      ensures p in g'.table.pages <==> Owners(g'.watches, p) != {}
      ensures p in g'.table.pages ==> g'.table.pages[p].ids == Owners(g'.watches, p)
    {
      var covered := if p in CoveredPages(w) then {w.id} else {};
      assert Owners(g'.watches, p) == Owners(g.watches, p) + covered;
    }
  }

  lemma AddKeepsValid(g: Guard, w: Watch, base: map<int, Protection>)
    requires Valid(g, base) && CanAdd(g, w)
    ensures Valid(Add(g, w), base)
    ensures forall p :: Exposed(Add(g, w).table, p) <==> Exposed(g.table, p)
  {
    AddKeepsTables(g, w);
  }

  lemma RemoveKeepsTables(g: Guard, id: nat)
    requires TablesAgree(g) && id in g.watches
    ensures TablesAgree(Remove(g, id))
  {
    var g' := Remove(g, id);
    forall p
      ensures p in g'.table.pages <==> Owners(g'.watches, p) != {}
      ensures p in g'.table.pages ==> g'.table.pages[p].ids == Owners(g'.watches, p)
    {
      assert Owners(g'.watches, p) == Owners(g.watches, p) - {id};
      assert p in g.table.pages && p !in CoveredPages(g.watches[id]) ==> id !in g.table.pages[p].ids;
      assert p !in g.table.pages ==> Owners(g.watches, p) == {};
    }
  }

  lemma RemoveKeepsValid(g: Guard, id: nat, base: map<int, Protection>)
    requires Valid(g, base) && id in g.watches
    ensures Valid(Remove(g, id), base)
    ensures forall p :: Exposed(Remove(g, id).table, p) <==> p in Remove(g, id).table.pages && Exposed(g.table, p)
  {
    RemoveKeepsTables(g, id);
  }

  lemma ProtectKeepsValid(g: Guard, p: int, guarded: bool, base: map<int, Protection>)
    requires Valid(g, base)
    ensures Valid(g.(table := Protect(g.table, p, guarded)), base)
    ensures Exposed(Protect(g.table, p, guarded), p) <==> p in g.table.pages && !guarded
    ensures forall q | q != p :: Exposed(Protect(g.table, p, guarded), q) <==> Exposed(g.table, q)
  {
  }

  /** Exposing a guarded page and guarding it again gives the table back. */
  lemma GuardUndoesExpose(t: Table, p: int, base: map<int, Protection>)
    requires ProtectionOk(t, base) && p in t.pages && !Exposed(t, p)
    ensures Protect(Protect(t, p, false), p, false) == Protect(t, p, false)
    ensures Protect(Protect(t, p, false), p, true) == t
  {
    assert Protect(Protect(t, p, false), p, true).protection == t.protection;
  }

  lemma ReguardKeepsValid(g: Guard, range: set<int>, base: map<int, Protection>)
    requires Valid(g, base)
    ensures Valid(g.(table := Reguard(g.table, range)), base)
    ensures forall p :: Exposed(Reguard(g.table, range), p) <==> Exposed(g.table, p) && p !in range
  {
  }

  /** A debugger read is invisible exactly when it touches no page that a hidden step holds open. */
  lemma ReadKeepsProtectionsIff(t: Table, range: set<int>, base: map<int, Protection>)
    requires ProtectionOk(t, base)
    ensures Reguard(t, range) == t <==> forall p | p in range :: !Exposed(t, p)
  {
    if forall p | p in range :: !Exposed(t, p) {
      forall p | p in t.protection ensures Reguard(t, range).protection[p] == t.protection[p] {
        assert p in range ==> !Exposed(t, p);
      }
      assert Reguard(t, range).protection == t.protection;
    } else {
      var p :| p in range && Exposed(t, p);
      assert Reguard(t, range).protection[p] != t.protection[p];
    }
  }

  /** The page table is a function of the breakpoint table: two histories that leave
      the same breakpoints leave the same pages with the same owners. */
  lemma PageTableDetermined(g: Guard, h: Guard, base: map<int, Protection>)
    requires Valid(g, base) && Valid(h, base) && g.watches == h.watches
    ensures g.table.pages == h.table.pages
    ensures AllArmed(g.table) && AllArmed(h.table) ==> g.table == h.table
  {
    forall p
      ensures p in g.table.pages <==> p in h.table.pages
      ensures p in g.table.pages ==> g.table.pages[p] == h.table.pages[p]
    {
      assert p in g.table.pages <==> Owners(g.watches, p) != {};
    }
    if AllArmed(g.table) && AllArmed(h.table) {
      forall p | p in base ensures g.table.protection[p] == h.table.protection[p] {
        assert p in g.table.pages ==> !Exposed(g.table, p) && !Exposed(h.table, p);
      }
    }
  }

  /** Undoing a registration on the same pages gives the earlier pages and protections back,
      whichever of the new pages had already been armed. */
  lemma DetachUndoesAttach(t: Table, id: nat, touched: set<int>, armed: set<int>)
    requires touched <= t.pages.Keys + t.protection.Keys && armed <= touched
    requires forall p | p in t.pages :: t.pages[p].ids != {} && id !in t.pages[p].ids
    ensures Detach(Attach(t, id, touched, armed), id, touched) == t
  {
  }

  lemma TablesHaveOwners(g: Guard)
    requires TablesAgree(g)
    ensures forall p | p in g.table.pages :: g.table.pages[p].ids != {} && g.nextId !in g.table.pages[p].ids
  {
  }

  lemma RemoveUndoesAdd(g: Guard, w: Watch)
    requires TablesAgree(g) && CanAdd(g, w)
    ensures Remove(Add(g, w), w.id) == g.(nextId := g.nextId + 1)
  {
    TablesHaveOwners(g);
    DetachUndoesAttach(g.table, w.id, CoveredPages(w), CoveredPages(w));
    assert g.watches[w.id := w] - {w.id} == g.watches;
  }

  /** With no hidden step pending, a page carries a guard bit exactly when some breakpoint covers it. */
  lemma GuardedExactlyWhenCovered(g: Guard, base: map<int, Protection>, p: int)
    requires Valid(g, base) && AllArmed(g.table) && p in base
    ensures g.table.protection[p].guarded <==> exists id :: id in g.watches && p in CoveredPages(g.watches[id])
    ensures g.table.protection[p].access == base[p].access
  {
    assert p in g.table.pages <==> Owners(g.watches, p) != {};
    if p in g.table.pages {
      var id :| id in Owners(g.watches, p);
      assert id in g.watches && p in CoveredPages(g.watches[id]);
      assert !Exposed(g.table, p);
    }
    if id :| id in g.watches && p in CoveredPages(g.watches[id]) {
      assert id in Owners(g.watches, p);
    }
  }

  /** Removing every breakpoint restores the initial protections, in the middle of a hidden step as well. */
  lemma ClearedIsBase(g: Guard, base: map<int, Protection>)
    requires Valid(g, base)
    ensures Cleared(g).table == Table(map[], base) && Valid(Cleared(g), base)
  {
    var n := Cleared(g).table;
    assert n.protection.Keys == base.Keys;
    forall p | p in base ensures n.protection[p] == base[p] {
    }
    assert n.protection == base;
    assert forall p :: Owners(map[], p) == {};
  }

  lemma EmptyTableRestoresBase(g: Guard, base: map<int, Protection>)
    requires Valid(g, base) && g.watches == map[]
    ensures g.table == Table(map[], base)
  {
    forall p ensures p !in g.table.pages {
      assert Owners(g.watches, p) == {};
    }
    assert g.table.pages.Keys == {};
    assert forall p | p in base :: g.table.protection[p] == base[p];
  }
}

/** The exported page-guard operations, page by page over mutable tables. Any
    VirtualProtectEx call may fail; the contracts say what survives a failure. */
module MemoryBreakpoints {
  import opened Common
  import opened Target
  import opened GuardPages

  function CoveredBelow(w: Watch, limit: int): set<int> {
    set p | p in CoveredPages(w) && p < limit
  }

  lemma CoveredBelowStep(w: Watch, page: int)
    requires page in CoveredPages(w)
    ensures CoveredBelow(w, page + PAGE_SIZE) == CoveredBelow(w, page) + {page} && page !in CoveredBelow(w, page)
  {
  }

  lemma CoveredBelowEnds(w: Watch)
    ensures CoveredBelow(w, PageOf(w.start)) == {}
    ensures CoveredBelow(w, PageOf(w.start + w.size - 1) + PAGE_SIZE) == CoveredPages(w)
  {
  }

  /** Registers one page; a page that was not tabled gets its guard when `armed`. */
  function AttachOne(t: Table, id: nat, page: int, armed: bool): Table
    requires page in t.pages.Keys + t.protection.Keys
  {
    if page in t.pages then
      t.(pages := t.pages[page := t.pages[page].(ids := t.pages[page].ids + {id})])
    else
      Table(t.pages[page := PageRecord(t.protection[page], {id})],
            if armed then t.protection[page := Guarded(t.protection[page])] else t.protection)
  }

  lemma AttachStep(t: Table, id: nat, touched: set<int>, armed: set<int>, page: int, arm: bool)
    requires touched + {page} <= t.pages.Keys + t.protection.Keys && page !in touched && armed <= touched
    requires page in t.pages ==> arm
    ensures page in Attach(t, id, touched, armed).pages <==> page in t.pages
    ensures page in Attach(t, id, touched, armed).protection <==> page in t.protection
    ensures AttachOne(Attach(t, id, touched, armed), id, page, arm) ==
            Attach(t, id, touched + {page}, if arm then armed + {page} else armed)
  {
  }

  lemma AttachNothing(t: Table, id: nat)
    ensures Attach(t, id, {}, {}) == t
  {
  }

  /** `now` has the pages, and perhaps the protections too, that detaching `done` gives: one page more. */
  lemma DetachMore(t: Table, now: Table, id: nat, done: set<int>, page: int)
    requires page !in done && now.pages == Detach(t, id, done).pages
    ensures Detach(now, id, {page}).pages == Detach(t, id, done + {page}).pages
    ensures now == Detach(t, id, done) ==> Detach(now, id, {page}) == Detach(t, id, done + {page})
  {
  }

  lemma DetachNothing(t: Table, id: nat)
    ensures Detach(t, id, {}) == t
  {
  }

  /** The agreement of the tables does not depend on the protections. */
  lemma TablesStillAgree(g: Guard, h: Guard)
    requires TablesAgree(g) && g.watches == h.watches && g.table.pages == h.table.pages && g.nextId <= h.nextId
    ensures TablesAgree(h)
  {
  }

  class PageWatcher {
    var watches: map<nat, Watch>
    var pages: map<int, PageRecord>
    var nextId: nat
    var protection: map<int, Protection>
    var paused: bool
    var hasProcess: bool
    ghost var refusals: nat                // how often a VirtualProtectEx call has failed
    ghost var undoRefusals: nat            // and how often in the undo loop of an add

    function Tables(): Table
      reads this
    {
      Table(pages, protection)
    }

    function View(): Guard
      reads this
    {
      Guard(watches, nextId, Tables())
    }

    ghost predicate Consistent()
      reads this
    {
      TablesAgree(View()) && pages.Keys <= protection.Keys
    }

    constructor (protection: map<int, Protection>)
      ensures View() == Guard(map[], 1, Table(map[], protection)) && Consistent()
    {
      this.watches, this.pages, this.nextId, this.protection := map[], map[], 1, protection;
      this.paused, this.hasProcess, this.refusals, this.undoRefusals := false, false, 0, 0;
    }

    /** The system call: it changes exactly one page, or it refuses. */
    method VirtualProtect(page: int, value: Protection) returns (ok: bool)
      modifies this`protection, this`refusals
      ensures ok <==> page in old(protection) && refusals == old(refusals)
      ensures protection == if ok then old(protection)[page := value] else old(protection)
      ensures old(refusals) <= refusals <= old(refusals) + 1
    {
      var refused: bool := *;
      ok := page in protection && !refused;
      if ok {
        protection := protection[page := value];
      } else {
        refusals := refusals + 1;
      }
    }

    method ProtectPage(page: int, guarded: bool) returns (ok: bool)
      modifies this`protection, this`refusals
      ensures ok <==> page in pages && hasProcess && page in old(protection) && refusals == old(refusals)
      ensures old(refusals) <= refusals <= old(refusals) + 1
      ensures Tables() == if ok then Protect(old(Tables()), page, guarded) else old(Tables())
    {
      if page !in pages || !hasProcess {
        return false;
      }
      var value := if guarded then Guarded(pages[page].originalProtect) else pages[page].originalProtect;
      ok := VirtualProtect(page, value);
    }

    /** Withdraws `id` from one page, restoring and dropping the page with its last owner. */
    method DropOwner(page: int, id: nat) returns (ok: bool)
      requires pages.Keys <= protection.Keys
      modifies this`pages, this`protection, this`refusals
      ensures refusals >= old(refusals) && (hasProcess ==> (ok <==> refusals == old(refusals)))
      ensures pages == Detach(old(Tables()), id, {page}).pages
      ensures ok ==> Tables() == Detach(old(Tables()), id, {page})
      ensures pages.Keys <= protection.Keys
    {
      ok := true;
      ghost var t := Tables();
      if page in pages {
        pages := pages[page := pages[page].(ids := pages[page].ids - {id})];
        if pages[page].ids == {} {
          ok := ProtectPage(page, false);
          pages := map p | p in pages && p != page :: pages[p];
        }
      }
      assert pages == Detach(t, id, {page}).pages;
      assert ok ==> protection == Detach(t, id, {page}).protection;
    }

    /** One more page of a withdrawal that started from the tables `t` and has dealt with `done`. */
    method DropNext(page: int, id: nat, ghost t: Table, ghost done: set<int>) returns (ok: bool)
      requires pages.Keys <= protection.Keys && page !in done && pages == Detach(t, id, done).pages
      modifies this`pages, this`protection, this`refusals
      ensures refusals >= old(refusals) && (hasProcess ==> (ok <==> refusals == old(refusals)))
      ensures pages == Detach(t, id, done + {page}).pages
      ensures ok && old(Tables()) == Detach(t, id, done) ==> Tables() == Detach(t, id, done + {page})
      ensures pages.Keys <= protection.Keys
    {
      DetachMore(t, Tables(), id, done, page);
      ok := DropOwner(page, id);
    }

    /** The loop of removeMemoryBreakpointById. */
    method DropOwnerEverywhere(w: Watch) returns (ok: bool)
      requires InRange(w) && pages.Keys <= protection.Keys
      modifies this`pages, this`protection, this`refusals
      ensures refusals >= old(refusals) && (hasProcess ==> (ok <==> refusals == old(refusals)))
      ensures pages == Detach(old(Tables()), w.id, CoveredPages(w)).pages
      ensures ok ==> Tables() == Detach(old(Tables()), w.id, CoveredPages(w))
      ensures pages.Keys <= protection.Keys
    {
      ghost var t := Tables();
      var page, last := PageOf(w.start), PageOf(w.start + w.size - 1);
      ok := true;
      ghost var done: set<int> := {};
      CoveredBelowEnds(w);
      DetachNothing(t, w.id);
      while true
        invariant Aligned(page) && PageOf(w.start) <= page <= last
        invariant done == CoveredBelow(w, page)
        invariant refusals >= old(refusals) && (hasProcess ==> (ok <==> refusals == old(refusals)))
        invariant pages == Detach(t, w.id, done).pages
        invariant ok ==> Tables() == Detach(t, w.id, done)
        invariant pages.Keys <= protection.Keys
        decreases last - page
      {
        var dropped := DropNext(page, w.id, t, done);
        ok := dropped && ok;
        CoveredBelowStep(w, page);
        done := done + {page};
        if page == last {
          break;
        }
        AlignedGap(page, last);
        page := page + PAGE_SIZE;
      }
    }

    /** removeMemoryBreakpointById. The tables are cleaned whatever the system calls answer;
        the protections are too when all of them succeed. */
    method RemoveById(id: nat) returns (ok: bool)
      requires Consistent()
      modifies this`watches, this`pages, this`protection, this`refusals
      ensures Consistent()
      ensures refusals >= old(refusals)
      ensures hasProcess ==> (ok <==> id in old(watches) && refusals == old(refusals))
      ensures id !in old(watches) ==> !ok && View() == old(View())
      ensures id in old(watches) ==>
        && watches == Remove(old(View()), id).watches
        && pages == Remove(old(View()), id).table.pages
        && (ok ==> View() == Remove(old(View()), id))
    {
      if id !in watches {
        return false;
      }
      RemoveKeepsTables(View(), id);
      ok := DropOwnerEverywhere(watches[id]);
      watches := watches - {id};
    }

    /** removeAllMemoryBreakpoints: it ends with empty tables, and with the original protections
        when every system call succeeded. */
    method RemoveAll(ghost base: map<int, Protection>) returns (ok: bool)
      requires Valid(View(), base)
      modifies this`watches, this`pages, this`protection, this`refusals
      ensures watches == map[] && pages == map[]
      ensures refusals >= old(refusals) && (hasProcess ==> (ok <==> refusals == old(refusals)))
      ensures ok ==> protection == base && View() == Cleared(old(View()))
    {
      ok := true;
      ClearedIsBase(View(), base);
      while watches != map[]
        invariant Consistent()
        invariant refusals >= old(refusals) && (hasProcess ==> (ok <==> refusals == old(refusals)))
        invariant ok ==> Valid(View(), base)
        decreases |watches|
      {
        var id :| id in watches;
        ghost var g := View();
        var removed := RemoveById(id);
        ok := removed && ok;
        assert watches.Keys == g.watches.Keys - {id};
        assert |watches.Keys| < |g.watches.Keys|;
        if ok {
          RemoveKeepsValid(g, id, base);
        }
      }
      if ok {
        EmptyTableRestoresBase(View(), base);
      }
      forall p ensures p !in pages {
        assert Owners(watches, p) == {};
      }
      assert pages.Keys == {};
    }

    method FindWatch(start: int, size: int) returns (found: bool, hit: nat)
      ensures found <==> exists id :: id in watches && watches[id].start == start && watches[id].size == size
      ensures found ==> hit in watches && watches[hit].start == start && watches[hit].size == size
    {
      hit := 0;
      var rest := watches.Keys;
      while rest != {}
        invariant rest <= watches.Keys
        invariant forall id | id in watches.Keys - rest :: watches[id].start != start || watches[id].size != size
        decreases rest
      {
        var id :| id in rest;
        if watches[id].start == start && watches[id].size == size {
          return true, id;
        }
        rest := rest - {id};
      }
      found := false;
    }

    method RemoveMemoryBpx(start: int, size: int) returns (ok: bool)
      requires Consistent()
      modifies this`watches, this`pages, this`protection, this`refusals
      ensures Consistent()
      ensures refusals >= old(refusals)
      ensures hasProcess ==> (ok <==> paused && refusals == old(refusals) && start != 0 && size != 0 && exists id ::
        id in old(watches) && old(watches)[id].start == start && old(watches)[id].size == size)
      ensures ok ==> paused && exists id ::
        && id in old(watches) && old(watches)[id].start == start && old(watches)[id].size == size
        && View() == Remove(old(View()), id)
      ensures (!paused || forall id | id in old(watches) ::
                 old(watches)[id].start != start || old(watches)[id].size != size) ==>
              !ok && View() == old(View())
    {
      if start == 0 || size == 0 || !paused {
        return false;
      }
      var found, id := FindWatch(start, size);
      if !found {
        return false;
      }
      ok := RemoveById(id);
    }

    /** One turn of the forward loop of SetMemoryBPXEx: a page already tabled only gains an owner. */
    method RegisterPage(page: int, id: nat) returns (armed: bool)
      requires page in pages.Keys + protection.Keys && pages.Keys <= protection.Keys
      modifies this`pages, this`protection, this`refusals
      ensures page in old(pages) ==> armed
      ensures armed ==> refusals == old(refusals)
      ensures hasProcess && refusals == old(refusals) ==> armed
      ensures old(refusals) <= refusals <= old(refusals) + 1
      ensures Tables() == AttachOne(old(Tables()), id, page, armed)
      ensures pages.Keys <= protection.Keys
    {
      if page in pages {
        pages := pages[page := pages[page].(ids := pages[page].ids + {id})];
        return true;
      }
      pages := pages[page := PageRecord(protection[page], {id})];
      armed := ProtectPage(page, true);
    }

    /** One more page of a registration that started from the tables `t` and has dealt with `all`. */
    method RegisterNext(page: int, id: nat, ghost t: Table, ghost all: set<int>) returns (armed: bool)
      requires all + {page} <= t.pages.Keys + t.protection.Keys && page !in all
      requires Tables() == Attach(t, id, all, all) && pages.Keys <= protection.Keys
      modifies this`pages, this`protection, this`refusals
      ensures armed ==> refusals == old(refusals)
      ensures hasProcess && refusals == old(refusals) ==> armed
      ensures old(refusals) <= refusals <= old(refusals) + 1
      ensures Tables() == Attach(t, id, all + {page}, if armed then all + {page} else all)
      ensures pages.Keys <= protection.Keys
    {
      AttachStep(t, id, all, all, page, true);
      if page !in t.pages {
        AttachStep(t, id, all, all, page, false);
      }
      armed := RegisterPage(page, id);
    }

    /** The forward loop of SetMemoryBPXEx. On failure the last page may be tabled without its guard. */
    method RegisterPages(w: Watch) returns (ok: bool, touched: seq<int>, ghost all: set<int>, ghost armed: set<int>)
      requires InRange(w) && pages.Keys <= protection.Keys
      modifies this`pages, this`protection, this`refusals
      ensures Lists(touched, all)
      ensures all <= CoveredPages(w) && all <= old(pages.Keys + protection.Keys) && armed <= all
      ensures Tables() == Attach(old(Tables()), w.id, all, armed)
      ensures ok ==> all == CoveredPages(w) == armed
      ensures hasProcess ==> (ok <==> CoveredPages(w) <= old(pages.Keys + protection.Keys) && refusals == old(refusals))
      ensures old(refusals) <= refusals <= old(refusals) + 1
      ensures pages.Keys <= protection.Keys
    {
      touched, all, armed := [], {}, {};
      var page, last := PageOf(w.start), PageOf(w.start + w.size - 1);
      ghost var t := Tables();
      CoveredBelowEnds(w);
      AttachNothing(t, w.id);
      while true
        invariant Aligned(page) && PageOf(w.start) <= page <= last
        invariant all == CoveredBelow(w, page) && armed == all && Lists(touched, all)
        invariant all <= t.pages.Keys + t.protection.Keys
        invariant refusals == old(refusals)
        invariant Tables() == Attach(t, w.id, all, armed)
        invariant pages.Keys <= protection.Keys
        decreases last - page
      {
        CoveredBelowStep(w, page);
        // VirtualQueryEx answers with a committed page for exactly the keys of `protection`.
        if page !in pages && page !in protection {
          assert page in CoveredPages(w);
          return false, touched, all, armed;
        }
        ListsMore(touched, all, page);
        var guarded := RegisterNext(page, w.id, t, all);
        touched, all := touched + [page], all + {page};
        if !guarded {
          return false, touched, all, armed;
        }
        armed := all;
        if page == last {
          assert all == CoveredPages(w);
          return true, touched, all, armed;
        }
        AlignedGap(page, last);
        page := page + PAGE_SIZE;
      }
    }

    /** The undo loop of SetMemoryBPXEx. */
    method RollBack(id: nat, touched: seq<int>, ghost all: set<int>) returns (undone: bool)
      requires Lists(touched, all) && pages.Keys <= protection.Keys
      modifies this`pages, this`protection, this`refusals
      ensures pages == Detach(old(Tables()), id, all).pages
      ensures undone ==> Tables() == Detach(old(Tables()), id, all)
      ensures refusals >= old(refusals) && (hasProcess ==> (undone <==> refusals == old(refusals)))
      ensures pages.Keys <= protection.Keys
    {
      ghost var t := Tables();
      ghost var done: set<int> := {};
      undone := true;
      DetachNothing(t, id);
      for k := 0 to |touched|
        invariant Lists(touched[..k], done)
        invariant pages == Detach(t, id, done).pages
        invariant undone ==> Tables() == Detach(t, id, done)
        invariant refusals >= old(refusals) && (hasProcess ==> (undone <==> refusals == old(refusals)))
        invariant pages.Keys <= protection.Keys
      {
        assert touched[..k + 1] == touched[..k] + [touched[k]];
        assert touched[k] !in touched[..k];
        var ok := DropNext(touched[k], id, t, done);
        undone := ok && undone;
        ListsMore(touched[..k], done, touched[k]);
        done := done + {touched[k]};
      }
      assert touched[..|touched|] == touched;
      ListsSame(touched, done, all);
    }

    /** The undo loop after a failed forward loop that started from the tables `t`. */
    method TakeBack(id: nat, touched: seq<int>, ghost t: Table, ghost all: set<int>, ghost armed: set<int>)
      requires Lists(touched, all) && pages.Keys <= protection.Keys && hasProcess && armed <= all
      requires all <= t.pages.Keys + t.protection.Keys && Tables() == Attach(t, id, all, armed)
      requires forall p | p in t.pages :: t.pages[p].ids != {} && id !in t.pages[p].ids
      modifies this`pages, this`protection, this`refusals, this`undoRefusals
      ensures pages == t.pages && pages.Keys <= protection.Keys
      ensures 0 <= undoRefusals - old(undoRefusals) == refusals - old(refusals)
      ensures undoRefusals == old(undoRefusals) ==> protection == t.protection
    {
      DetachUndoesAttach(t, id, all, armed);
      ghost var asked := refusals;
      var undone := RollBack(id, touched, all);
      undoRefusals := undoRefusals + (refusals - asked);
    }

    /** The part of SetMemoryBPXEx that enters the record and its pages, or takes both back. */
    method Install(w: Watch) returns (ok: bool)
      requires hasProcess && InRange(w) && 0 < w.id && w.id + 1 == nextId
      requires TablesAgree(Guard(watches, w.id, Tables())) && pages.Keys <= protection.Keys
      modifies this`watches, this`pages, this`protection, this`refusals, this`undoRefusals
      ensures Consistent() && refusals >= old(refusals) && undoRefusals >= old(undoRefusals)
      ensures ok <==> CoveredPages(w) <= old(pages.Keys + protection.Keys) && refusals == old(refusals)
      ensures ok ==> watches == old(watches)[w.id := w]
      ensures ok ==> Tables() == Attach(old(Tables()), w.id, CoveredPages(w), CoveredPages(w))
      ensures !ok ==> watches == old(watches) && pages == old(pages)
      ensures undoRefusals - old(undoRefusals) <= refusals - old(refusals)
      ensures !ok && undoRefusals == old(undoRefusals) ==> protection == old(protection)
    {
      ghost var g := Guard(watches, w.id, Tables());
      watches := watches[w.id := w];
      var touched;
      ghost var all, armed;
      ok, touched, all, armed := RegisterPages(w);
      if ok {
        AddKeepsTables(g, w);
      } else {
        TablesHaveOwners(g);
        TakeBack(w.id, touched, g.table, all, armed);
        watches := watches - {w.id};
        assert watches == g.watches;
        TablesStillAgree(g, View());
      }
    }

    /** SetMemoryBPXEx after the breakpoint type has been accepted. A failed call leaves the tables as they
        were, and the protections too when no call of the rollback was refused. */
    method SetMemoryBpx(start: int, size: int, access: AccessKind, restoreOnHit: bool, hasCallback: bool)
      returns (ok: bool)
      requires Consistent()
      modifies this`watches, this`pages, this`nextId, this`protection, this`refusals, this`undoRefusals
      ensures Consistent() && refusals >= old(refusals)
      ensures var w := Watch(old(nextId), start, size, access, restoreOnHit);
        && (ok <==> CanAdd(old(View()), w) && paused && hasProcess && hasCallback && refusals == old(refusals) &&
                    forall id | id in old(watches) :: old(watches)[id].start != start || old(watches)[id].size != size)
        && (ok ==> View() == Add(old(View()), w))
      ensures !ok ==> watches == old(watches) && pages == old(pages) && old(nextId) <= nextId <= old(nextId) + 1
      ensures old(undoRefusals) <= undoRefusals && undoRefusals - old(undoRefusals) <= refusals - old(refusals)
      ensures !ok && undoRefusals == old(undoRefusals) ==> protection == old(protection)
    {
      if start <= 0 || size <= 0 || start + size >= ADDRESS_LIMIT || !hasCallback || !paused || !hasProcess {
        return false;
      }
      var duplicate, existing := FindWatch(start, size);
      if duplicate {
        return false;
      }
      var w := Watch(nextId, start, size, access, restoreOnHit);
      nextId := nextId + 1;
      ok := Install(w);
    }

    /** The first loop of MemoryReadUnsafe: exposes the tabled pages of the span and lists them. */
    method ExposeSpan(start: int, size: nat) returns (exposed: seq<int>, ghost clean: bool)
      requires 0 <= start && 0 < size && start + size <= ADDRESS_LIMIT
      modifies this`protection, this`refusals
      ensures protection.Keys == old(protection.Keys)
      ensures forall p | p in protection && p !in exposed :: protection[p] == old(protection)[p]
      ensures forall p | p in exposed :: p in pages
      ensures clean ==> forall p | p in pages :: p in exposed <==> p in SpanPages(start, size)
      ensures refusals >= old(refusals)
      ensures hasProcess && refusals == old(refusals) && pages.Keys <= protection.Keys ==> clean
    {
      ghost var t := Tables();
      var page, last := PageOf(start), PageOf(start + size - 1);
      exposed, clean := [], true;
      while true
        invariant Aligned(page) && PageOf(start) <= page <= last
        invariant protection.Keys == t.protection.Keys
        invariant forall p | p in protection && p !in exposed :: protection[p] == t.protection[p]
        invariant forall p | p in exposed :: p in pages
        invariant clean ==> forall p | p in pages :: p in exposed <==> p in SpanPages(start, size) && p < page
        invariant refusals >= old(refusals)
        invariant hasProcess && refusals == old(refusals) && pages.Keys <= protection.Keys ==> clean
        decreases last - page
      {
        if page in pages {
          var ok := ProtectPage(page, false);
          if ok {
            exposed := exposed + [page];
          } else {
            clean := false;
          }
        }
        if page == last {
          break;
        }
        AlignedGap(page, last);
        assert forall p | Aligned(p) && page < p :: page + PAGE_SIZE <= p;
        page := page + PAGE_SIZE;
      }
    }

    /** The second loop of MemoryReadUnsafe. */
    method GuardAgain(exposed: seq<int>) returns (ghost clean: bool)
      requires forall p | p in exposed :: p in pages
      modifies this`protection, this`refusals
      ensures protection.Keys == old(protection.Keys)
      ensures forall p | p in protection && p !in exposed :: protection[p] == old(protection)[p]
      ensures clean ==> forall p | p in protection && p in exposed ::
        protection[p] == Guarded(pages[p].originalProtect)
      ensures refusals >= old(refusals)
      ensures hasProcess && refusals == old(refusals) && pages.Keys <= protection.Keys ==> clean
    {
      clean := true;
      for k := 0 to |exposed|
        invariant protection.Keys == old(protection.Keys)
        invariant forall p | p in protection && p !in exposed :: protection[p] == old(protection)[p]
        invariant clean ==> forall p | p in exposed[..k] && p in protection ::
          p in pages && protection[p] == Guarded(pages[p].originalProtect)
        invariant refusals >= old(refusals)
        invariant hasProcess && refusals == old(refusals) && pages.Keys <= protection.Keys ==> clean
      {
        assert exposed[k] in exposed;
        assert exposed[..k + 1] == exposed[..k] + [exposed[k]];
        var ok := ProtectPage(exposed[k], true);
        clean := clean && ok;
      }
      assert exposed[..|exposed|] == exposed;
    }

    /** The page part of a raw debugger read of a non-empty range: expose, read, guard again. */
    method ReadAround(start: int, size: nat)
      requires Consistent() && 0 <= start && 0 < size && start + size <= ADDRESS_LIMIT
      modifies this`protection, this`refusals
      ensures Consistent()
      ensures hasProcess && refusals == old(refusals) ==> Tables() == Reguard(old(Tables()), SpanPages(start, size))
    {
      ghost var t := Tables();
      var exposed;
      ghost var clean;
      exposed, clean := ExposeSpan(start, size);
      ghost var again := GuardAgain(exposed);
      clean := clean && again;
      if clean {
        forall p | p in t.protection
          ensures protection[p] == Reguard(t, SpanPages(start, size)).protection[p]
        {
          if p in t.pages {
            assert p in exposed <==> p in SpanPages(start, size);
          } else {
            assert p !in exposed;
          }
        }
        assert protection == Reguard(t, SpanPages(start, size)).protection;
      }
    }

    /** Which breakpoint a guard fault reports: the search among the ids of the faulting page finds the least
        matching one of all breakpoints. */
    method SelectHit(address: int, accessType: nat) returns (hit: Option<nat>)
      requires TablesAgree(View())
      ensures IsHit(watches, address, accessType, hit)
    {
      hit := None;
      var page := PageOf(address);
      forall id | Answers(watches, id, address, accessType)
        ensures page in pages && id in pages[page].ids
      {
        CoveredPagesMeaning(watches[id], page);
        assert id in Owners(watches, page);
      }
      if page !in pages {
        return;
      }
      var rest := pages[page].ids;
      assert forall id | id in rest :: id in Owners(watches, page);
      while rest != {}
        invariant rest <= pages[page].ids
        invariant forall id | Answers(watches, id, address, accessType) :: id in rest
        decreases rest
      {
        var id := Least(rest);
        if Reports(watches[id], address, accessType) {
          assert Answers(watches, id, address, accessType);
          return Some(id);
        }
        rest := rest - {id};
      }
    }

    /** dispatchMemoryBreakpointException up to the user callback; `hit` names the breakpoint whose callback runs. */
    method BeginFault(address: int, accessType: nat) returns (handled: bool, hit: Option<nat>)
      requires Consistent()
      modifies this`watches, this`pages, this`protection, this`refusals
      ensures Consistent() && refusals >= old(refusals)
      ensures handled <==> PageOf(address) in old(pages)
      ensures IsHit(old(watches), address, accessType, hit) && hit != Some(0)
      ensures watches == Reported(old(View()), hit).watches && pages == Reported(old(View()), hit).table.pages
      ensures hasProcess && refusals == old(refusals) ==> View() == Reported(old(View()), hit)
    {
      hit := SelectHit(address, accessType);
      handled := PageOf(address) in pages;
      if hit.Some? && !watches[hit.value].restoreOnHit {
        var removed := RemoveById(hit.value);
      }
    }

    /** The part after the callback: a page that still has an owner is exposed for one instruction, and its re-arm is
        to be scheduled. */
    method EndFault(address: int) returns (rearm: bool)
      requires Consistent()
      modifies this`protection, this`refusals
      ensures Consistent() && refusals >= old(refusals)
      ensures rearm <==> PageOf(address) in pages
      ensures hasProcess && refusals == old(refusals) ==> Tables() == Protect(old(Tables()), PageOf(address), false)
    {
      rearm := PageOf(address) in pages;
      if rearm {
        var exposed := ProtectPage(PageOf(address), false);
      }
    }
  }

  /** `touched` names the pages `all`, each once. */
  ghost predicate Lists(touched: seq<int>, all: set<int>) {
    NoRepeats(touched) && forall p :: p in touched <==> p in all
  }

  lemma ListsSame(touched: seq<int>, all: set<int>, some: set<int>)
    requires Lists(touched, all) && Lists(touched, some)
    ensures all == some
  {
    assert forall p | p in all :: p in touched && p in some;
    assert forall p | p in some :: p in touched && p in all;
  }

  lemma ListsMore(touched: seq<int>, all: set<int>, page: int)
    requires Lists(touched, all) && page !in all
    ensures Lists(touched + [page], all + {page})
  {
  }
}

/** The handle registry: which native handles the adapter opened and must close, which it only borrows
    from debug events, and the maps between engine indices and handles. */
module Handles {
  import opened SyntheticHandles
  import opened Common

  datatype Kind = Process | Thread

  datatype Entry = Entry(kind: Kind, systemId: nat, native: Handle, callerOwned: bool)

  // ---- Index maps -------------------------------------------------------

  /** DebugIdMap holds one such pair for processes and one for threads. A handle may have an index without
      being the handle of that index: these are the handles a caller opened. */
  datatype IdMap = IdMap(byIndex: map<nat, Handle>, indexOf: map<Handle, nat>)

  function Bind(m: IdMap, index: nat, h: Handle): IdMap {
    IdMap(m.byIndex[index := h], m.indexOf[h := index])
  }

  function Name(m: IdMap, index: nat, h: Handle): IdMap {
    m.(indexOf := m.indexOf[h := index])
  }

  function Leave(m: IdMap, index: nat): IdMap {
    if index in m.byIndex then IdMap(m.byIndex - {index}, m.indexOf - {m.byIndex[index]}) else m
  }

  function Forget(m: IdMap, h: Handle): IdMap {
    m.(indexOf := m.indexOf - {h})
  }

  /** Handle-to-index is a left inverse of index-to-handle. */
  ghost predicate LeftInverse(m: IdMap) {
    forall i | i in m.byIndex :: m.byIndex[i] in m.indexOf && m.indexOf[m.byIndex[i]] == i
  }

  lemma BindKeepsInverseIff(m: IdMap, index: nat, h: Handle)
    requires LeftInverse(m)
    ensures LeftInverse(Bind(m, index, h)) <==> forall i | i in m.byIndex && i != index :: m.byIndex[i] != h
  {
    var n := Bind(m, index, h);
    if LeftInverse(n) {
      forall i | i in m.byIndex && i != index ensures m.byIndex[i] != h {
        assert n.byIndex[i] == m.byIndex[i];
      }
    }
  }

  lemma NameKeepsInverseIff(m: IdMap, index: nat, h: Handle)
    requires LeftInverse(m)
    ensures LeftInverse(Name(m, index, h)) <==> forall i | i in m.byIndex && i != index :: m.byIndex[i] != h
  {
  }

  /** Leaving needs nothing: in a left inverse no two indices share a handle. */
  lemma LeaveKeepsInverse(m: IdMap, index: nat)
    requires LeftInverse(m)
    ensures LeftInverse(Leave(m, index))
  {
  }

  /** TitanCloseHandle drops the index of the closed handle, which is harmless only for a handle no index names. */
  lemma ForgetKeepsInverseIff(m: IdMap, h: Handle)
    requires LeftInverse(m)
    ensures LeftInverse(Forget(m, h)) <==> forall i | i in m.byIndex :: m.byIndex[i] != h
  {
  }

  // ---- The registry ------------------------------------------------------

  /** `granted` and `closed` count, per handle value, the native opens the system granted to the adapter
      and the CloseHandle calls it accepted. */
  datatype Book = Book(
    entries: map<Handle, Entry>,
    processes: IdMap,
    threads: IdMap,
    serial: nat,
    granted: multiset<Handle>,
    closed: multiset<Handle>)

  const NO_IDS := IdMap(map[], map[])

  function Blank(): Book {
    Book(map[], NO_IDS, NO_IDS, 1, multiset{}, multiset{})
  }

  function Ids(b: Book, kind: Kind): IdMap {
    if kind.Process? then b.processes else b.threads
  }

  function WithIds(b: Book, kind: Kind, ids: IdMap): Book {
    if kind.Process? then b.(processes := ids) else b.(threads := ids)
  }

  predicate Usable(h: Handle) {
    h != NULL_HANDLE && h != INVALID_HANDLE
  }

  function Register(b: Book, h: Handle, e: Entry): Book {
    if Usable(h) then b.(entries := b.entries[h := e]) else b
  }

  /** TitanOpenProcess, TitanOpenThread and the other calls that obtain a native handle in a live session. */
  function Open(b: Book, kind: Kind, systemId: nat, h: Handle): Book {
    Register(if Usable(h) then b.(granted := b.granted + multiset{h}) else b, h, Entry(kind, systemId, h, true))
  }

  /** A live create event: the handle belongs to the engine. */
  function Arrive(b: Book, kind: Kind, index: nat, systemId: nat, h: Handle): Book {
    Register(WithIds(b, kind, Bind(Ids(b, kind), index, h)), h, Entry(kind, systemId, h, false))
  }

  function CreateSynthetic(b: Book, kind: Kind, systemId: nat, callerOwned: bool): Book {
    Register(b.(serial := (b.serial + 1) % WORD), Synthetic(b.serial), Entry(kind, systemId, NULL_HANDLE, callerOwned))
  }

  /** A replayed thread or process that becomes active gets a synthetic handle. */
  function ArriveSynthetic(b: Book, kind: Kind, index: nat, systemId: nat): Book {
    var made := CreateSynthetic(b, kind, systemId, false);
    WithIds(made, kind, Bind(Ids(made, kind), index, Synthetic(b.serial)))
  }

  /** Opening a replayed thread or process creates a synthetic handle the caller owns. */
  function OpenSynthetic(b: Book, kind: Kind, index: nat, systemId: nat): Book {
    var made := CreateSynthetic(b, kind, systemId, true);
    WithIds(made, kind, Name(Ids(made, kind), index, Synthetic(b.serial)))
  }

  /** The exit events, and the terminated threads of a timeline refresh. */
  function Depart(b: Book, kind: Kind, index: nat): Book {
    var ids := Ids(b, kind);
    if index in ids.byIndex && ids.byIndex[index] != NULL_HANDLE then
      WithIds(b, kind, Leave(ids, index)).(entries := b.entries - {ids.byIndex[index]})
    else
      b
  }

  predicate Closable(b: Book, h: Handle) {
    h in b.entries && b.entries[h].callerOwned
  }

  /** TitanCloseHandle; `accepted` is the answer of the system to CloseHandle. */
  function Close(b: Book, h: Handle, accepted: bool): Book {
    if Closable(b, h) && (b.entries[h].native == NULL_HANDLE || accepted) then
      b.(entries := b.entries - {h},
         processes := Forget(b.processes, h),
         threads := Forget(b.threads, h),
         closed := if b.entries[h].native == NULL_HANDLE then b.closed else b.closed + multiset{b.entries[h].native})
    else
      b
  }

  /** `h` is a native handle the adapter opened and has not closed. */
  predicate Owed(b: Book, h: Handle) {
    h in b.entries && b.entries[h].callerOwned && b.entries[h].native == h
  }

  function Debts(b: Book): set<Handle> {
    set h | h in b.entries && Owed(b, h)
  }

  /** The close count when the entries of `rest` have not been visited yet. */
  function Paid(b: Book, refused: set<Handle>, rest: set<Handle>): multiset<Handle> {
    b.closed + multiset(Debts(b) - refused - rest)
  }

  /** The end of a session: closeCallerOwnedTitanHandles and the reset of the index maps. */
  function EndSession(b: Book, refused: set<Handle>): Book {
    b.(entries := map[], processes := NO_IDS, threads := NO_IDS, closed := Paid(b, refused, {}))
  }

  // ---- What each operation does to the tables ------------------------------

  predicate SameIndexOf(m: IdMap, n: IdMap, h: Handle) {
    (h in n.indexOf <==> h in m.indexOf) && (h in m.indexOf ==> n.indexOf[h] == m.indexOf[h])
  }

  /** Nothing the registry knows about the handle `h` differs. */
  predicate SameHandle(b: Book, n: Book, h: Handle) {
    && (h in n.entries <==> h in b.entries) && (h in b.entries ==> n.entries[h] == b.entries[h])
    && SameIndexOf(b.processes, n.processes, h) && SameIndexOf(b.threads, n.threads, h)
  }

  predicate IsEntry(b: Book, h: Handle, e: Entry) {
    h in b.entries && b.entries[h] == e
  }

  /** Index and handle find each other. */
  predicate Linked(m: IdMap, index: nat, h: Handle) {
    index in m.byIndex && m.byIndex[index] == h && h in m.indexOf && m.indexOf[h] == index
  }

  /** A handle the adapter opens is entered as the caller's, with itself as the native handle to close; null and
      INVALID_HANDLE_VALUE are not entered. No other handle and no index moves. */
  lemma OpenMeaning(b: Book, kind: Kind, systemId: nat, h: Handle, other: Handle)
    ensures var n := Open(b, kind, systemId, h);
      && (h != 0 && h != 0xFFFF_FFFF_FFFF_FFFF ==>
            IsEntry(n, h, Entry(kind, systemId, h, true)) && n.granted == b.granted + multiset{h})
      && (h == 0 || h == 0xFFFF_FFFF_FFFF_FFFF ==> n == b)
      && (other != h ==> SameHandle(b, n, other)) && n.closed == b.closed
      && n.processes == b.processes && n.threads == b.threads
  {
  }

  /** A handle from a create event is entered as the engine's, under its index, whether native or synthetic. */
  lemma ArriveMeaning(b: Book, kind: Kind, index: nat, systemId: nat, h: Handle, other: Handle)
    requires Usable(h)
    ensures var n := Arrive(b, kind, index, systemId, h);
      && IsEntry(n, h, Entry(kind, systemId, h, false)) && Linked(Ids(n, kind), index, h)
      && (other != h ==> SameHandle(b, n, other)) && n.granted == b.granted && n.closed == b.closed
    ensures var n := ArriveSynthetic(b, kind, index, systemId); var s := Synthetic(b.serial);
      && IsEntry(n, s, Entry(kind, systemId, NULL_HANDLE, false)) && Linked(Ids(n, kind), index, s)
      && (other != s ==> SameHandle(b, n, other)) && n.granted == b.granted && n.closed == b.closed
  {
    SyntheticIsUsable(b.serial);
  }

  /** The serials start at 1. */
  lemma FirstSyntheticHandle(kind: Kind, index: nat, systemId: nat)
    ensures Linked(Ids(ArriveSynthetic(Blank(), kind, index, systemId), kind), index, 0xFFFF_8000_0000_0013)
    ensures IsEntry(ArriveSynthetic(Blank(), kind, index, systemId), 0xFFFF_8000_0000_0013,
                    Entry(kind, systemId, 0, false))
  {
    ArriveMeaning(Blank(), kind, index, systemId, 4, 0);
  }

  /** A synthetic handle that a caller opens can be closed by the caller, knows its index, and does not take the
      index over from the handle that has it. */
  lemma OpenSyntheticMeaning(b: Book, kind: Kind, index: nat, systemId: nat, other: Handle)
    ensures var n := OpenSynthetic(b, kind, index, systemId); var s := Synthetic(b.serial);
      && IsEntry(n, s, Entry(kind, systemId, NULL_HANDLE, true)) && Closable(n, s)
      && s in Ids(n, kind).indexOf && Ids(n, kind).indexOf[s] == index && Ids(n, kind).byIndex == Ids(b, kind).byIndex
      && (other != s ==> SameHandle(b, n, other)) && n.granted == b.granted && n.closed == b.closed
  {
    SyntheticIsUsable(b.serial);
  }

  /** A departing thread or process leaves both maps and the registry, and takes nobody with it. */
  lemma DepartMeaning(b: Book, kind: Kind, index: nat, other: Handle)
    requires Inv(b)
    ensures var n := Depart(b, kind, index);
      && index !in Ids(n, kind).byIndex && n.closed == b.closed
      && (index in Ids(b, kind).byIndex ==> var h := Ids(b, kind).byIndex[index];
            && h !in n.entries && h !in n.processes.indexOf && h !in n.threads.indexOf
            && (other != h ==> SameHandle(b, n, other)))
      && (index !in Ids(b, kind).byIndex ==> n == b)
  {
  }

  /** A close that goes through forgets the handle everywhere; every other call changes nothing. */
  lemma CloseMeaning(b: Book, h: Handle, accepted: bool, other: Handle)
    ensures var n := Close(b, h, accepted); var owned := h in b.entries && b.entries[h].callerOwned;
      && (owned && (accepted || b.entries[h].native == NULL_HANDLE) ==>
            && h !in n.entries && h !in n.processes.indexOf && h !in n.threads.indexOf
            && n.closed == b.closed + (if b.entries[h].native == NULL_HANDLE then multiset{}
                                       else multiset{b.entries[h].native}))
      && (!owned || (!accepted && b.entries[h].native != NULL_HANDLE) ==> n == b)
      && (other != h ==> SameHandle(b, n, other))
      && n.processes.byIndex == b.processes.byIndex && n.threads.byIndex == b.threads.byIndex
  {
  }

  /** The end of a session forgets every handle and every index, and goes on counting synthetic handles. */
  lemma EndMeaning(b: Book, refused: set<Handle>, h: Handle, index: nat)
    ensures var n := EndSession(b, refused);
      && h !in n.entries && h !in n.processes.indexOf && h !in n.threads.indexOf
      && index !in n.processes.byIndex && index !in n.threads.byIndex && n.serial == b.serial
  {
  }

  // ---- Runs ---------------------------------------------------------------

  datatype Event =
    | Opens(kind: Kind, systemId: nat, h: Handle)
    | Arrives(kind: Kind, index: nat, systemId: nat, h: Handle)
    | ArrivesSynthetic(kind: Kind, index: nat, systemId: nat)
    | OpensSynthetic(kind: Kind, index: nat, systemId: nat)
    | Departs(kind: Kind, index: nat)
    | Closes(h: Handle, accepted: bool)
    | Ends(refused: set<Handle>)

  function Next(b: Book, ev: Event): Book {
    match ev
    case Opens(kind, systemId, h) => Open(b, kind, systemId, h)
    case Arrives(kind, index, systemId, h) => Arrive(b, kind, index, systemId, h)
    case ArrivesSynthetic(kind, index, systemId) => ArriveSynthetic(b, kind, index, systemId)
    case OpensSynthetic(kind, index, systemId) => OpenSynthetic(b, kind, index, systemId)
    case Departs(kind, index) => Depart(b, kind, index)
    case Closes(h, accepted) => Close(b, h, accepted)
    case Ends(refused) => EndSession(b, refused)
  }

  /** A handle value the system may return now: a multiple of four that is not in use. */
  predicate FreshNative(b: Book, h: Handle) {
    Usable(h) && h % 4 == 0 && h !in b.entries
  }

  /** What the system and the engine guarantee of an event. */
  predicate Possible(b: Book, ev: Event) {
    match ev
    case Opens(_, _, h) => Usable(h) ==> FreshNative(b, h)
    case Arrives(_, _, _, h) => FreshNative(b, h)
    case ArrivesSynthetic(_, _, _) => b.serial < SYNTHETIC_PERIOD
    case OpensSynthetic(_, _, _) => b.serial < SYNTHETIC_PERIOD
    case _ => true
  }

  ghost predicate Balanced(b: Book) {
    forall h :: b.granted[h] == b.closed[h] + (if Owed(b, h) then 1 else 0)
  }

  /** The value of the next synthetic handle while fewer than 2^43 have been made; all earlier ones are below it. */
  function Mark(serial: nat): Handle {
    0xFFFF_8000_0000_0003 + 16 * serial
  }

  ghost predicate WellKeyed(b: Book) {
    && 0 < b.serial <= SYNTHETIC_PERIOD
    && forall h | h in b.entries ::
         && Usable(h)
         && (b.entries[h].native == NULL_HANDLE ==> h < Mark(b.serial))
         && (b.entries[h].native != NULL_HANDLE ==> b.entries[h].native == h && h % 4 == 0)
  }

  /** Every index names a registered handle, and one that no caller may close. */
  ghost predicate Borrowed(b: Book, ids: IdMap) {
    forall i | i in ids.byIndex :: ids.byIndex[i] in b.entries && !b.entries[ids.byIndex[i]].callerOwned
  }

  /** A handle with an index is registered, and of that kind. */
  ghost predicate NoStaleIndex(b: Book, kind: Kind) {
    forall h | h in Ids(b, kind).indexOf :: h in b.entries && b.entries[h].kind == kind
  }

  ghost predicate Inv(b: Book) {
    && Balanced(b)
    && WellKeyed(b)
    && NoStaleIndex(b, Process) && NoStaleIndex(b, Thread)
    && LeftInverse(b.processes) && LeftInverse(b.threads)
    && Borrowed(b, b.processes) && Borrowed(b, b.threads)
    && (forall i, j | i in b.processes.byIndex && j in b.threads.byIndex ::
          b.processes.byIndex[i] != b.threads.byIndex[j])
  }

  /** No live handle is overwritten by a new synthetic one. */
  lemma NextSyntheticIsNew(b: Book)
    requires WellKeyed(b) && b.serial < SYNTHETIC_PERIOD
    ensures Synthetic(b.serial) !in b.entries
    ensures Usable(Synthetic(b.serial)) && Synthetic(b.serial) == Mark(b.serial)
  {
  }

  lemma SyntheticKeepsKeys(b: Book, kind: Kind, systemId: nat, callerOwned: bool)
    requires WellKeyed(b) && b.serial < SYNTHETIC_PERIOD
    ensures WellKeyed(CreateSynthetic(b, kind, systemId, callerOwned))
  {
  }

  /** Opening a value the adapter already owes would lose one close. */
  lemma OpenKeepsBalanceIff(b: Book, kind: Kind, systemId: nat, h: Handle)
    requires Balanced(b) && Usable(h)
    ensures Balanced(Open(b, kind, systemId, h)) <==> !Owed(b, h)
  {
  }

  /** A create event overwrites the entry of its handle: it forgets a close when that entry was owed. */
  lemma ArriveKeepsBalanceIff(b: Book, kind: Kind, index: nat, systemId: nat, h: Handle)
    requires Balanced(b) && Usable(h)
    ensures Balanced(Arrive(b, kind, index, systemId, h)) <==> !Owed(b, h)
  {
  }

  /** A new handle is registered before an index is given to it. */
  lemma NewKeepsIndices(b: Book, kind: Kind, index: nat, systemId: nat, h: Handle)
    requires NoStaleIndex(b, Process) && NoStaleIndex(b, Thread)
    ensures FreshNative(b, h) ==>
      var n := Open(b, kind, systemId, h); NoStaleIndex(n, Process) && NoStaleIndex(n, Thread)
    ensures FreshNative(b, h) ==>
      var n := Arrive(b, kind, index, systemId, h); NoStaleIndex(n, Process) && NoStaleIndex(n, Thread)
  {
  }

  lemma SyntheticKeepsIndices(b: Book, kind: Kind, index: nat, systemId: nat)
    requires NoStaleIndex(b, Process) && NoStaleIndex(b, Thread)
    requires Usable(Synthetic(b.serial)) && Synthetic(b.serial) !in b.entries
    ensures var n := ArriveSynthetic(b, kind, index, systemId); NoStaleIndex(n, Process) && NoStaleIndex(n, Thread)
    ensures var n := OpenSynthetic(b, kind, index, systemId); NoStaleIndex(n, Process) && NoStaleIndex(n, Thread)
  {
  }

  lemma OpenKeepsInv(b: Book, kind: Kind, systemId: nat, h: Handle)
    requires Inv(b) && (Usable(h) ==> FreshNative(b, h))
    ensures Inv(Open(b, kind, systemId, h))
  {
    if Usable(h) {
      NewKeepsIndices(b, kind, 0, systemId, h);
      OpenKeepsBalanceIff(b, kind, systemId, h);
    } else {
      assert Open(b, kind, systemId, h) == b;
    }
  }

  lemma ArriveKeepsInv(b: Book, kind: Kind, index: nat, systemId: nat, h: Handle)
    requires Inv(b) && FreshNative(b, h)
    ensures Inv(Arrive(b, kind, index, systemId, h))
  {
    ArriveKeepsBalanceIff(b, kind, index, systemId, h);
    NewKeepsIndices(b, kind, index, systemId, h);
    BindKeepsInverseIff(Ids(b, kind), index, h);
  }

  lemma ArriveSyntheticKeepsInv(b: Book, kind: Kind, index: nat, systemId: nat)
    requires Inv(b) && b.serial < SYNTHETIC_PERIOD
    ensures Inv(ArriveSynthetic(b, kind, index, systemId))
    ensures Debts(ArriveSynthetic(b, kind, index, systemId)) == Debts(b)
  {
    var n := ArriveSynthetic(b, kind, index, systemId);
    NextSyntheticIsNew(b);
    SyntheticKeepsKeys(b, kind, systemId, false);
    SyntheticKeepsIndices(b, kind, index, systemId);
    BindKeepsInverseIff(Ids(b, kind), index, Synthetic(b.serial));
    assert forall h :: Owed(n, h) <==> Owed(b, h);
  }

  lemma OpenSyntheticKeepsInv(b: Book, kind: Kind, index: nat, systemId: nat)
    requires Inv(b) && b.serial < SYNTHETIC_PERIOD
    ensures Inv(OpenSynthetic(b, kind, index, systemId))
  {
    var n := OpenSynthetic(b, kind, index, systemId);
    NextSyntheticIsNew(b);
    SyntheticKeepsKeys(b, kind, systemId, true);
    SyntheticKeepsIndices(b, kind, index, systemId);
    NameKeepsInverseIff(Ids(b, kind), index, Synthetic(b.serial));
    assert forall h :: Owed(n, h) <==> Owed(b, h);
  }

  lemma DepartKeepsInv(b: Book, kind: Kind, index: nat)
    requires Inv(b)
    ensures Inv(Depart(b, kind, index)) && Debts(Depart(b, kind, index)) == Debts(b)
  {
    var n := Depart(b, kind, index);
    LeaveKeepsInverse(Ids(b, kind), index);
    assert forall h :: Owed(n, h) <==> Owed(b, h);
  }

  lemma CloseKeepsInv(b: Book, h: Handle, accepted: bool)
    requires Inv(b)
    ensures Inv(Close(b, h, accepted))
  {
  }

  /** The balance after a session: only the closes the system refused are still owed, and nothing remembers them. */
  lemma EndSettles(b: Book, refused: set<Handle>)
    requires Balanced(b)
    ensures var n := EndSession(b, refused);
      forall h :: n.granted[h] == n.closed[h] + (if Owed(b, h) && h in refused then 1 else 0)
  {
  }

  predicate Due(b: Book, refused: set<Handle>, h: Handle)
    requires h in b.entries
  {
    b.entries[h].callerOwned && b.entries[h].native != NULL_HANDLE && b.entries[h].native !in refused
  }

  lemma PaymentStep(b: Book, refused: set<Handle>, rest: set<Handle>, h: Handle)
    requires WellKeyed(b) && h in b.entries && h in rest
    ensures Paid(b, refused, rest - {h}) ==
            if Due(b, refused, h) then Paid(b, refused, rest) + multiset{b.entries[h].native}
            else Paid(b, refused, rest)
  {
  }

  lemma NothingPaid(b: Book, refused: set<Handle>)
    ensures Paid(b, refused, b.entries.Keys) == b.closed
  {
  }

  /** Every native handle of the session is closed exactly when the system accepts every close. */
  lemma EndKeepsBalanceIff(b: Book, refused: set<Handle>)
    requires Balanced(b)
    ensures Balanced(EndSession(b, refused)) <==> Debts(b) !! refused
  {
  }

  /** The system accepts the closes of an end of session. */
  predicate Accepted(b: Book, ev: Event) {
    ev.Ends? ==> Debts(b) !! ev.refused
  }

  lemma NextKeepsInv(b: Book, ev: Event)
    requires Inv(b) && Possible(b, ev) && Accepted(b, ev)
    ensures Inv(Next(b, ev))
  {
    match ev
    case Opens(kind, systemId, h) => OpenKeepsInv(b, kind, systemId, h);
    case Arrives(kind, index, systemId, h) => ArriveKeepsInv(b, kind, index, systemId, h);
    case ArrivesSynthetic(kind, index, systemId) => ArriveSyntheticKeepsInv(b, kind, index, systemId);
    case OpensSynthetic(kind, index, systemId) => OpenSyntheticKeepsInv(b, kind, index, systemId);
    case Departs(kind, index) => DepartKeepsInv(b, kind, index);
    case Closes(h, accepted) => CloseKeepsInv(b, h, accepted);
    case Ends(refused) => EndKeepsBalanceIff(b, refused);
  }

  function After(b: Book, events: seq<Event>): Book
    decreases |events|
  {
    if events == [] then b else After(Next(b, events[0]), events[1..])
  }

  ghost predicate Run(b: Book, events: seq<Event>)
    decreases |events|
  {
    events == [] ||
    (Possible(b, events[0]) && Accepted(b, events[0]) && Run(Next(b, events[0]), events[1..]))
  }

  lemma {:induction false} RunAppend(b: Book, events: seq<Event>, ev: Event)
    ensures After(b, events + [ev]) == Next(After(b, events), ev)
    ensures Run(b, events + [ev]) <==>
            Run(b, events) && Possible(After(b, events), ev) && Accepted(After(b, events), ev)
    decreases |events|
  {
    if events == [] {
      assert [ev][1..] == [];
    } else {
      assert (events + [ev])[1..] == events[1..] + [ev];
      RunAppend(Next(b, events[0]), events[1..], ev);
    }
  }

  /** How often a run obtained the native handle value `h`. */
  function Obtained(events: seq<Event>, h: Handle): nat
    decreases |events|
  {
    if events == [] then 0
    else (if events[0].Opens? && events[0].h == h && Usable(h) then 1 else 0) + Obtained(events[1..], h)
  }

  lemma {:induction false} RunKeepsInv(b: Book, events: seq<Event>, h: Handle)
    requires Inv(b) && Run(b, events)
    ensures Inv(After(b, events))
    ensures After(b, events).granted[h] == b.granted[h] + Obtained(events, h)
    decreases |events|
  {
    if events != [] {
      NextKeepsInv(b, events[0]);
      RunKeepsInv(Next(b, events[0]), events[1..], h);
    }
  }

  /** Whole sessions, any number of them: a handle value has been closed as often as it was obtained, except
      for the one open that is still registered. So no handle is closed twice or while it is not open, a handle
      the adapter never opened is never closed, and an ended session has closed every handle it opened. */
  lemma HandlesClosedOnce(events: seq<Event>, h: Handle)
    requires Run(Blank(), events)
    ensures var b := After(Blank(), events);
      && b.closed[h] + (if Owed(b, h) then 1 else 0) == Obtained(events, h)
      && (events != [] && events[|events| - 1].Ends? ==> b.closed[h] == Obtained(events, h))
  {
    RunKeepsInv(Blank(), events, h);
    if events != [] && events[|events| - 1].Ends? {
      LastIsEnd(Blank(), events);
    }
  }

  lemma {:induction false} LastIsEnd(b: Book, events: seq<Event>)
    requires events != [] && events[|events| - 1].Ends?
    ensures After(b, events).entries == map[]
    decreases |events|
  {
    if |events| > 1 {
      LastIsEnd(Next(b, events[0]), events[1..]);
    } else {
      assert After(Next(b, events[0]), events[1..]) == Next(b, events[0]);
    }
  }

  /** In every reachable registry an index and its handle find each other, and the handle is not a caller's. */
  lemma IndexedHandlesAreBorrowed(events: seq<Event>, kind: Kind, index: nat)
    requires Run(Blank(), events) && index in Ids(After(Blank(), events), kind).byIndex
    ensures var b := After(Blank(), events); var ids := Ids(b, kind); var h := ids.byIndex[index];
      && h in ids.indexOf && ids.indexOf[h] == index
      && h in b.entries && !Closable(b, h)
  {
    RunKeepsInv(Blank(), events, 0);
  }

  /** In every reachable registry a handle that still has an index is registered, with the kind of its map. */
  lemma IndexedHandlesAreRegistered(events: seq<Event>, kind: Kind, h: Handle)
    requires Run(Blank(), events) && h in Ids(After(Blank(), events), kind).indexOf
    ensures var b := After(Blank(), events); h in b.entries && b.entries[h].kind == kind
  {
    RunKeepsInv(Blank(), events, 0);
  }

  // ---- The registry over mutable tables -----------------------------------

  function Indices(active: seq<(nat, nat)>): set<nat> {
    set a | a in active :: a.0
  }

  lemma IndicesGrow(active: seq<(nat, nat)>, i: nat)
    requires i < |active|
    ensures Indices(active[..i + 1]) == Indices(active[..i]) + {active[i].0}
  {
    assert active[..i + 1] == active[..i] + [active[i]];
  }

  class HandleRegistry {
    var entries: map<Handle, Entry>
    var processes: IdMap
    var threads: IdMap
    var nextSynthetic: nat
    var granted: multiset<Handle>
    var closed: multiset<Handle>

    constructor ()
      ensures View() == Blank()
    {
      entries, processes, threads := map[], NO_IDS, NO_IDS;
      nextSynthetic, granted, closed := 1, multiset{}, multiset{};
    }

    ghost function View(): Book
      reads this
    {
      Book(entries, processes, threads, nextSynthetic, granted, closed)
    }

    /** What a refresh of the threads must leave alone. */
    ghost function Elsewhere(): (IdMap, multiset<Handle>, multiset<Handle>, set<Handle>)
      reads this
    {
      (processes, granted, closed, Debts(View()))
    }

    /** registerTitanHandle */
    method Add(h: Handle, kind: Kind, systemId: nat, callerOwned: bool, native: Handle)
      modifies this`entries
      ensures View() == Register(old(View()), h, Entry(kind, systemId, native, callerOwned))
    {
      if h == NULL_HANDLE || h == INVALID_HANDLE {
        return;
      }
      entries := entries[h := Entry(kind, systemId, native, callerOwned)];
    }

    /** createSyntheticTitanHandle */
    method Create(kind: Kind, systemId: nat, callerOwned: bool) returns (h: Handle)
      modifies this`entries, this`nextSynthetic
      ensures h == Synthetic(old(nextSynthetic))
      ensures View() == CreateSynthetic(old(View()), kind, systemId, callerOwned)
    {
      var serial := nextSynthetic;
      nextSynthetic := (nextSynthetic + 1) % WORD;
      ComposedIsSynthetic(serial);
      h := Compose(0xFFFF_8000_0000_0000, 0x7FFF_FFFF_FFFF, serial);
      Add(h, kind, systemId, callerOwned, NULL_HANDLE);
    }

    /** TitanCloseHandle */
    method CloseHandle(h: Handle, accepted: bool) returns (ok: bool)
      modifies this
      ensures ok <==>
        h in old(entries) && old(entries)[h].callerOwned && (old(entries)[h].native == NULL_HANDLE || accepted)
      ensures View() == Close(old(View()), h, accepted)
    {
      if h !in entries || !entries[h].callerOwned {
        return false;
      }
      var native := entries[h].native;
      ok := native == NULL_HANDLE || accepted;
      if ok {
        if native != NULL_HANDLE {
          closed := closed + multiset{native};
        }
        processes := processes.(indexOf := processes.indexOf - {h});
        threads := threads.(indexOf := threads.indexOf - {h});
        entries := entries - {h};
      }
    }

    /** One round of the closing loop, which goes on whether the system accepts the close or not. */
    method Pay(entry: Entry, refused: set<Handle>)
      modifies this`closed
      ensures closed == if entry.callerOwned && entry.native != NULL_HANDLE && entry.native !in refused
                        then old(closed) + multiset{entry.native} else old(closed)
    {
      if entry.callerOwned && entry.native != NULL_HANDLE && entry.native !in refused {
        closed := closed + multiset{entry.native};
      }
    }

    /** The loop of closeCallerOwnedTitanHandles. */
    method PayAll(refused: set<Handle>)
      requires WellKeyed(View())
      modifies this`closed
      ensures closed == Paid(old(View()), refused, {})
    {
      ghost var before := View();
      NothingPaid(before, refused);
      var rest := entries.Keys;
      while rest != {}
        invariant rest <= before.entries.Keys
        invariant closed == Paid(before, refused, rest)
        decreases rest
      {
        var h := Least(rest);
        PaymentStep(before, refused, rest, h);
        Pay(entries[h], refused);
        rest := rest - {h};
      }
    }

    /** closeCallerOwnedTitanHandles and the reset of the index maps that follows it. */
    method CloseCallerOwned(refused: set<Handle>)
      requires WellKeyed(View())
      modifies this
      ensures View() == EndSession(old(View()), refused)
    {
      PayAll(refused);
      entries := map[];
      processes, threads := NO_IDS, NO_IDS;
    }

    /** The handle half of a thread exit. */
    method ThreadLeaves(index: nat)
      modifies this
      ensures View() == Depart(old(View()), Thread, index)
    {
      var h := NULL_HANDLE;
      if index in threads.byIndex {
        h := threads.byIndex[index];
      }
      if h != NULL_HANDLE {
        threads := threads.(indexOf := threads.indexOf - {h});
        threads := threads.(byIndex := threads.byIndex - {index});
        entries := entries - {h};
      }
    }

    method Greet(index: nat, systemId: nat)
      requires Inv(View()) && nextSynthetic < SYNTHETIC_PERIOD
      modifies this
      ensures View() == ArriveSynthetic(old(View()), Thread, index, systemId) && Inv(View())
      ensures nextSynthetic == old(nextSynthetic) + 1 && Elsewhere() == old(Elsewhere())
      ensures threads.byIndex == old(threads.byIndex)[index := Synthetic(old(nextSynthetic))]
    {
      ArriveSyntheticKeepsInv(View(), Thread, index, systemId);
      var token := Create(Thread, systemId, false);
      threads := Bind(threads, index, token);
    }

    method Dismiss(index: nat)
      requires Inv(View()) && index in threads.byIndex
      modifies this
      ensures View() == Depart(old(View()), Thread, index) && Inv(View())
      ensures Elsewhere() == old(Elsewhere()) && threads.byIndex == old(threads.byIndex) - {index}
    {
      DepartKeepsInv(View(), Thread, index);
      var h := threads.byIndex[index];
      threads := threads.(byIndex := threads.byIndex - {index});
      threads := threads.(indexOf := threads.indexOf - {h});
      entries := entries - {h};
    }

    /** One round of the first thread loop. */
    method Meet(index: nat, systemId: nat)
      requires Inv(View()) && nextSynthetic < SYNTHETIC_PERIOD
      modifies this
      ensures Inv(View()) && Elsewhere() == old(Elsewhere())
      ensures old(nextSynthetic) <= nextSynthetic <= old(nextSynthetic) + 1
      ensures threads.byIndex.Keys == old(threads.byIndex.Keys) + {index}
      ensures forall t | t in old(threads.byIndex) :: threads.byIndex[t] == old(threads.byIndex)[t]
    {
      if index !in threads.byIndex {
        Greet(index, systemId);
      }
    }

    /** The first thread loop of refreshTtdTimeline: a thread without a handle gets a synthetic one. */
    method AddActive(active: seq<(nat, nat)>) returns (indices: set<nat>)
      requires Inv(View()) && nextSynthetic + |active| <= SYNTHETIC_PERIOD
      modifies this
      ensures Inv(View()) && Elsewhere() == old(Elsewhere())
      ensures indices == Indices(active)
      ensures threads.byIndex.Keys == old(threads.byIndex.Keys) + indices
      ensures forall t | t in old(threads.byIndex) :: threads.byIndex[t] == old(threads.byIndex)[t]
    {
      indices := {};
      for i := 0 to |active|
        invariant Inv(View()) && Elsewhere() == old(Elsewhere())
        invariant nextSynthetic + |active| - i <= SYNTHETIC_PERIOD
        invariant indices == Indices(active[..i])
        invariant threads.byIndex.Keys == old(threads.byIndex.Keys) + indices
        invariant forall t | t in old(threads.byIndex) :: threads.byIndex[t] == old(threads.byIndex)[t]
      {
        IndicesGrow(active, i);
        var (index, systemId) := active[i];
        indices := indices + {index};
        Meet(index, systemId);
      }
      assert active[..|active|] == active;
    }

    /** The thread bookkeeping of refreshTtdTimeline: first the new threads get handles, then the
        terminated ones lose theirs. Threads that stay keep their handle. */
    method RefreshThreads(active: seq<(nat, nat)>)
      requires Inv(View()) && nextSynthetic + |active| <= SYNTHETIC_PERIOD
      modifies this
      ensures Inv(View()) && Elsewhere() == old(Elsewhere())
      ensures threads.byIndex.Keys == Indices(active)
      ensures forall t | t in old(threads.byIndex) && t in threads.byIndex ::
        threads.byIndex[t] == old(threads.byIndex)[t]
    {
      var indices := AddActive(active);
      var terminated := threads.byIndex.Keys - indices;
      while terminated != {}
        invariant Inv(View()) && Elsewhere() == old(Elsewhere())
        invariant threads.byIndex.Keys == indices + terminated && terminated !! indices
        invariant forall t | t in old(threads.byIndex) && t in threads.byIndex ::
          threads.byIndex[t] == old(threads.byIndex)[t]
        decreases terminated
      {
        var index := Least(terminated);
        Dismiss(index);
        terminated := terminated - {index};
      }
    }
  }
}

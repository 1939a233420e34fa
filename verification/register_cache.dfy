/** The register write-back cache and the scope that borrows another thread's registers. */
module RegisterCache {
  import opened Common

  type Tid = nat
  type Register = nat

  /** The engine's register files and current thread beside the adapter's cache of the current one. */
  datatype Cpu = Cpu(regs: map<Tid, seq<nat>>, current: Tid, values: seq<nat>, changed: seq<bool>)

  datatype ReadOutcome = Fresh | Stale | Unexpected

  ghost predicate Shaped(c: Cpu, count: nat) {
    && c.current in c.regs
    && |c.values| == |c.changed| == count
    && forall t | t in c.regs :: |c.regs[t]| == count
  }

  /** What thread `t` will hold once every pending write has reached it. */
  function LogicalFile(c: Cpu, t: Tid): seq<nat>
    requires t in c.regs && |c.values| == |c.changed| == |c.regs[t]|
  {
    if t != c.current then c.regs[t]
    else seq(|c.values|, i requires 0 <= i < |c.values| => if c.changed[i] then c.values[i] else c.regs[t][i])
  }

  function Logical(c: Cpu): map<Tid, seq<nat>>
    requires c.current in c.regs && |c.values| == |c.changed| == |c.regs[c.current]|
  {
    c.regs[c.current := LogicalFile(c, c.current)]
  }

  /** Every cached value that is not a pending write is the current thread's own. */
  ghost predicate Coherent(c: Cpu, count: nat) {
    Shaped(c, count) && forall i | 0 <= i < count && !c.changed[i] :: c.values[i] == c.regs[c.current][i]
  }

  /** The file map with one cell of thread `t` replaced. */
  function SetCell(files: map<Tid, seq<nat>>, t: Tid, i: nat, v: nat): map<Tid, seq<nat>> {
    if t in files && i < |files[t]| then files[t := files[t][..i] + [v] + files[t][i + 1..]] else files
  }

  /** Exactly the addressed cell holds the new value; no thread and no register comes or goes. */
  lemma SetCellMeaning(files: map<Tid, seq<nat>>, t: Tid, i: nat, v: nat, u: Tid, j: nat)
    requires t in files && i < |files[t]| && u in files && j < |files[u]|
    ensures var n := SetCell(files, t, i, v);
      && n.Keys == files.Keys && |n[u]| == |files[u]|
      && n[u][j] == if u == t && j == i then v else files[u][j]
  {
  }

  // ---- Register widths ---------------------------------------------------

  function Modulus(width: nat): nat {
    match width
    case 8 => 0x100
    case 16 => 0x1_0000
    case 32 => 0x1_0000_0000
    case 64 => 0x1_0000_0000_0000_0000
    case _ => 0
  }

  predicate IntegerWidth(width: nat) {
    width == 8 || width == 16 || width == 32 || width == 64
  }

  /** An integer register of `width` bits holds the numbers below two to the power of the width; no other
      register can be assigned. */
  lemma ModulusMeaning(width: nat)
    ensures Modulus(width) == if IntegerWidth(width) then Power2(width) else 0
  {
    assert Power2(0) == 1;
    Power2Plus4(0); Power2Plus4(4); Power2Plus4(8); Power2Plus4(12); Power2Plus4(16); Power2Plus4(20); Power2Plus4(24);
    Power2Plus4(28); Power2Plus4(32); Power2Plus4(36); Power2Plus4(40); Power2Plus4(44); Power2Plus4(48);
    Power2Plus4(52); Power2Plus4(56); Power2Plus4(60);
  }

  /** A value that fits is stored as it is. */
  lemma FittingIsKept(width: nat, v: nat)
    requires IntegerWidth(width) && v < Power2(width)
    ensures Modulus(width) != 0 && v % Modulus(width) == v
  {
    ModulusMeaning(width);
    SmallRemainder(v, Modulus(width));
  }

  lemma SmallRemainder(v: nat, m: nat)
    requires v < m
    ensures v % m == v
  {
  }

  predicate Clean(c: Cpu) {
    forall i | 0 <= i < |c.changed| :: !c.changed[i]
  }

  // ---- Cache operations as functions ------------------------------------

  function Flushed(c: Cpu, ok: bool): Cpu
    requires c.current in c.regs && |c.values| == |c.changed| == |c.regs[c.current]|
  {
    if Clean(c) || !ok then c
    else c.(regs := Logical(c), changed := seq(|c.changed|, i => false))
  }

  /** Read replaces the values and leaves the pending marks alone. Only E_UNEXPECTED counts as a
      failure; any other refusal goes unnoticed and leaves the old values in place. */
  function ReadBack(c: Cpu, outcome: ReadOutcome): Cpu
    requires c.current in c.regs
  {
    if outcome.Fresh? then c.(values := c.regs[c.current]) else c
  }

  function Selected(c: Cpu, t: Tid, ok: bool): Cpu {
    if ok then c.(current := t) else c
  }

  function Assigned(c: Cpu, i: nat, v: nat): Cpu
    requires i < |c.values| == |c.changed|
  {
    c.(values := c.values[i := v], changed := c.changed[i := true])
  }

  lemma FlushedKeepsLogical(c: Cpu, ok: bool, count: nat)
    requires Coherent(c, count)
    ensures Coherent(Flushed(c, ok), count) && Logical(Flushed(c, ok)) == Logical(c)
    ensures Flushed(c, ok).current == c.current
    ensures ok ==> Clean(Flushed(c, ok)) && Flushed(c, ok).regs == Logical(c)
  {
    var f := Flushed(c, ok);
    if Clean(c) {
      assert LogicalFile(c, c.current) == c.regs[c.current];
    }
    assert LogicalFile(f, f.current) == LogicalFile(c, c.current);
    assert Logical(f) == Logical(c);
  }

  /** Switching after a flush and reading the new thread's registers changes no logical value. */
  lemma SwitchKeepsLogical(c: Cpu, t: Tid, count: nat)
    requires Coherent(c, count) && t in c.regs
    ensures var s := ReadBack(Selected(c, t, true), Fresh);
      Coherent(s, count) && Logical(s) == c.regs && (Clean(c) ==> Clean(s) && Logical(s) == Logical(c))
  {
    var s := ReadBack(Selected(c, t, true), Fresh);
    assert LogicalFile(s, t) == s.regs[t];
    assert Logical(s) == c.regs;
    if Clean(c) {
      assert LogicalFile(c, c.current) == c.regs[c.current];
      assert Logical(c) == c.regs;
    }
  }

  lemma AssignedSetsOneCell(c: Cpu, i: nat, v: nat, count: nat)
    requires Coherent(c, count) && i < count
    ensures Coherent(Assigned(c, i, v), count)
    ensures Logical(Assigned(c, i, v)) == SetCell(Logical(c), c.current, i, v)
  {
    var a := Assigned(c, i, v);
    var before := LogicalFile(c, c.current);
    assert LogicalFile(a, a.current) == before[..i] + [v] + before[i + 1..];
  }

  /** Leaving a scope: flush, select the previous thread, read. When the flush fails, its pending marks
      outlive the switch; whether they then name foreign values is up to the read. */
  function Left(c: Cpu, previous: Tid, flushOk: bool, selectOk: bool, outcome: ReadOutcome): Cpu
    requires c.current in c.regs && previous in c.regs && |c.values| == |c.changed| == |c.regs[c.current]|
  {
    if selectOk then ReadBack(Selected(Flushed(c, flushOk), previous, true), outcome) else Flushed(c, flushOk)
  }

  /** A write meant for the borrowed thread reaches the previous one exactly when it stayed pending, the previous
      thread was selected again without re-reading its registers, and the two values differ. */
  lemma LeavingKeepsPreviousIff(c: Cpu, previous: Tid, flushOk: bool, selectOk: bool, outcome: ReadOutcome, count: nat)
    requires Coherent(c, count) && previous in c.regs && previous != c.current
    ensures Shaped(Left(c, previous, flushOk, selectOk, outcome), count)
    ensures LogicalFile(Left(c, previous, flushOk, selectOk, outcome), previous) == c.regs[previous] <==>
            !selectOk || outcome.Fresh? || flushOk ||
            forall i | 0 <= i < count && c.changed[i] :: c.values[i] == c.regs[previous][i]
  {
    var l := Left(c, previous, flushOk, selectOk, outcome);
    var file := LogicalFile(l, previous);
    assert l.regs[previous] == c.regs[previous];
    if selectOk && !outcome.Fresh? && !flushOk {
      forall i | 0 <= i < count ensures file[i] == if c.changed[i] then c.values[i] else c.regs[previous][i] {
      }
      if file == c.regs[previous] {
        assert forall i | 0 <= i < count && c.changed[i] :: c.values[i] == file[i];
      }
    }
  }

  // ---- Whole sequences of accesses --------------------------------------

  /** What the engine answers when a scope is entered: to the flush and to the selection of the thread. */
  datatype Entry = Entry(flushOk: bool, selectOk: bool)

  /** A call on the cache with the answers it gets; `i` is a register index. */
  datatype Access =
    | GetRegister(t: Tid, i: nat, entry: Entry, leaveOk: bool)
    | SetRegister(t: Tid, i: nat, v: nat, entry: Entry, setOk: bool, leaveOk: bool)
    | SetPointer(i: nat, v: nat)
    | Resume(ok: bool)

  datatype Write = Write(t: Tid, i: nat, v: nat)

  predicate Enters(c: Cpu, t: Tid, entry: Entry) {
    t == c.current || ((Clean(c) || entry.flushOk) && entry.selectOk)
  }

  function Entered(c: Cpu, t: Tid, entry: Entry): Cpu
    requires c.current in c.regs && t in c.regs && |c.values| == |c.changed| == |c.regs[c.current]|
  {
    if t == c.current then c
    else if Enters(c, t, entry) then ReadBack(Selected(Flushed(c, entry.flushOk), t, true), Fresh)
    else Flushed(c, entry.flushOk)
  }

  ghost predicate Proper(c: Cpu, a: Access, count: nat) {
    match a
    case GetRegister(t, i, entry, leaveOk) => t in c.regs && i < count
    case SetRegister(t, i, v, entry, setOk, leaveOk) => t in c.regs && i < count
    case SetPointer(i, v) => i < count
    case Resume(ok) => true
  }

  /** The writes of the plain thread-by-register map that an access amounts to: one or none. */
  function Writes(c: Cpu, a: Access): seq<Write> {
    match a
    case SetRegister(t, i, v, entry, setOk, leaveOk) =>
      if Enters(c, t, entry) && (t == c.current || setOk || leaveOk) then [Write(t, i, v)] else []
    case SetPointer(i, v) => [Write(c.current, i, v)]
    case _ => []
  }

  /** A thread's registers can be borrowed exactly when it is selected already, or the engine selects it and no pending
      write is refused on the way. */
  lemma EntersIff(c: Cpu, t: Tid, entry: Entry)
    ensures Enters(c, t, entry) <==>
            t == c.current || (entry.selectOk && (entry.flushOk || forall i | 0 <= i < |c.changed| :: !c.changed[i]))
  {
  }

  lemma EnteredKeepsLogical(c: Cpu, t: Tid, entry: Entry, count: nat)
    requires Coherent(c, count) && t in c.regs
    ensures Coherent(Entered(c, t, entry), count) && Logical(Entered(c, t, entry)) == Logical(c)
    ensures Enters(c, t, entry) ==> Entered(c, t, entry).current == t
    ensures Enters(c, t, entry) && t != c.current ==> Clean(Entered(c, t, entry))
    ensures !Enters(c, t, entry) ==> Entered(c, t, entry).current == c.current
  {
    if t != c.current {
      FlushedKeepsLogical(c, entry.flushOk, count);
      if Enters(c, t, entry) {
        SwitchKeepsLogical(Flushed(c, entry.flushOk), t, count);
      }
    }
  }

  /** Inside the scope the cached value of a register is the thread's logical one. */
  lemma EnteredSeesLogical(c: Cpu, t: Tid, i: nat, entry: Entry, count: nat)
    requires Coherent(c, count) && t in c.regs && i < count && Enters(c, t, entry)
    ensures t in Logical(c) && i < |Logical(c)[t]| && i < |Entered(c, t, entry).values|
    ensures Entered(c, t, entry).values[i] == Logical(c)[t][i]
  {
    EnteredKeepsLogical(c, t, entry, count);
    var e := Entered(c, t, entry);
    assert LogicalFile(e, t)[i] == e.values[i];
    assert Logical(e)[t] == LogicalFile(e, t);
  }

  lemma LeftKeepsDelivered(c: Cpu, previous: Tid, ok: bool, count: nat)
    requires Coherent(c, count) && previous in c.regs
    ensures var l := Left(c, previous, ok, true, Fresh);
      && Coherent(l, count) && l.current == previous
      && Logical(l) == if ok || Clean(c) then Logical(c) else c.regs
  {
    FlushedKeepsLogical(c, ok, count);
    SwitchKeepsLogical(Flushed(c, ok), previous, count);
  }

  /** What the caller of a get sees. */
  function Answered(c: Cpu, a: Access): nat
    requires a.GetRegister? && a.t in c.regs && c.current in c.regs
    requires |c.values| == |c.changed| == |c.regs[c.current]| == |c.regs[a.t]| && a.i < |c.values|
  {
    if Enters(c, a.t, a.entry) then Entered(c, a.t, a.entry).values[a.i] else 0
  }

  function ServedGet(c: Cpu, t: Tid, entry: Entry, leaveOk: bool): Cpu
    requires c.current in c.regs && t in c.regs && |c.values| == |c.changed| == |c.regs[c.current]| == |c.regs[t]|
  {
    var e := Entered(c, t, entry);
    if e.current == c.current then e else Left(e, c.current, leaveOk, true, Fresh)
  }

  function ServedSet(c: Cpu, t: Tid, i: nat, v: nat, entry: Entry, setOk: bool, leaveOk: bool): Cpu
    requires c.current in c.regs && t in c.regs && |c.values| == |c.changed| == |c.regs[c.current]| == |c.regs[t]|
    requires i < |c.values|
  {
    if !Enters(c, t, entry) then Entered(c, t, entry)
    else
      var f := Flushed(Assigned(Entered(c, t, entry), i, v), setOk);
      if t == c.current then f else Left(f, c.current, leaveOk, true, Fresh)
  }

  function Served(c: Cpu, a: Access, count: nat): Cpu
    requires Shaped(c, count) && Proper(c, a, count)
  {
    match a
    case GetRegister(t, i, entry, leaveOk) => ServedGet(c, t, entry, leaveOk)
    case SetRegister(t, i, v, entry, setOk, leaveOk) => ServedSet(c, t, i, v, entry, setOk, leaveOk)
    case SetPointer(i, v) => Assigned(c, i, v)
    case Resume(ok) => Flushed(c, ok)
  }

  function Applied(files: map<Tid, seq<nat>>, writes: seq<Write>): map<Tid, seq<nat>>
    decreases |writes|
  {
    if writes == [] then files
    else Applied(SetCell(files, writes[0].t, writes[0].i, writes[0].v), writes[1..])
  }

  lemma AppliedOne(files: map<Tid, seq<nat>>, w: Write)
    ensures Applied(files, [w]) == SetCell(files, w.t, w.i, w.v)
  {
  }

  /** One access turned the cache `c` into `d`: that is what `writes` do to the plain map, and the selected
      thread is the same. */
  ghost predicate Refines(c: Cpu, d: Cpu, writes: seq<Write>, count: nat)
    requires Coherent(c, count)
  {
    && Coherent(d, count) && d.current == c.current && d.regs.Keys == c.regs.Keys
    && Logical(d) == Applied(Logical(c), writes)
  }

  lemma GetRefines(c: Cpu, t: Tid, entry: Entry, leaveOk: bool, count: nat)
    requires Coherent(c, count) && t in c.regs
    ensures Refines(c, ServedGet(c, t, entry, leaveOk), [], count)
  {
    EnteredKeepsLogical(c, t, entry, count);
    LeftKeepsDelivered(Entered(c, t, entry), c.current, leaveOk, count);
  }

  lemma SetRefines(c: Cpu, a: Access, count: nat)
    requires Coherent(c, count) && Proper(c, a, count) && a.SetRegister?
    ensures Refines(c, Served(c, a, count), Writes(c, a), count)
  {
    EnteredKeepsLogical(c, a.t, a.entry, count);
    if Enters(c, a.t, a.entry) {
      var e := Entered(c, a.t, a.entry);
      var written := Assigned(e, a.i, a.v);
      AssignedSetsOneCell(e, a.i, a.v, count);
      FlushedKeepsLogical(written, a.setOk, count);
      AppliedOne(Logical(c), Write(a.t, a.i, a.v));
      if a.t != c.current {
        FlushedKeepsLogical(e, true, count);
        LeftKeepsDelivered(Flushed(written, a.setOk), c.current, a.leaveOk, count);
      }
    }
  }

  /** One access on the cache is that access on the plain map; the selected thread comes back. */
  lemma ServedRefines(c: Cpu, a: Access, count: nat)
    requires Coherent(c, count) && Proper(c, a, count)
    ensures Refines(c, Served(c, a, count), Writes(c, a), count)
  {
    match a {
      case GetRegister(t, i, entry, leaveOk) => GetRefines(c, t, entry, leaveOk, count);
      case SetRegister(t, i, v, entry, setOk, leaveOk) => SetRefines(c, a, count);
      case SetPointer(i, v) =>
        AssignedSetsOneCell(c, i, v, count);
        AppliedOne(Logical(c), Write(c.current, i, v));
      case Resume(ok) => FlushedKeepsLogical(c, ok, count);
    }
  }

  /** A get after a set that reached its thread returns the value for the register that was set, and for every other
      register of every thread what the plain map held before, whatever flushes fail in between. */
  lemma WrittenIsRead(c: Cpu, put: Access, get: Access, count: nat)
    requires Coherent(c, count) && put.SetRegister? && get.GetRegister?
    requires Proper(c, put, count) && Proper(c, get, count) && Writes(c, put) != []
    ensures var d := Served(c, put, count);
      && Shaped(d, count) && Proper(d, get, count) && get.t in Logical(c) && get.i < |Logical(c)[get.t]|
      && Answered(d, get) ==
           if !Enters(d, get.t, get.entry) then 0
           else if get.t == put.t && get.i == put.i then put.v else Logical(c)[get.t][get.i]
  {
    var d := Served(c, put, count);
    SetRefines(c, put, count);
    AppliedOne(Logical(c), Write(put.t, put.i, put.v));
    SetCellMeaning(Logical(c), put.t, put.i, put.v, get.t, get.i);
    if Enters(d, get.t, get.entry) {
      EnteredSeesLogical(d, get.t, get.i, get.entry, count);
    }
  }

  ghost predicate AllProper(c: Cpu, accesses: seq<Access>, count: nat) {
    forall k | 0 <= k < |accesses| :: Proper(c, accesses[k], count)
  }

  function ServedAll(c: Cpu, accesses: seq<Access>, count: nat): Cpu
    requires Coherent(c, count) && AllProper(c, accesses, count)
    decreases |accesses|
  {
    if accesses == [] then c
    else
      ServedRefines(c, accesses[0], count);
      ServedAll(Served(c, accesses[0], count), accesses[1..], count)
  }

  function WritesAll(c: Cpu, accesses: seq<Access>, count: nat): seq<Write>
    requires Coherent(c, count) && AllProper(c, accesses, count)
    decreases |accesses|
  {
    if accesses == [] then []
    else
      ServedRefines(c, accesses[0], count);
      Writes(c, accesses[0]) + WritesAll(Served(c, accesses[0], count), accesses[1..], count)
  }

  lemma {:induction false} AppliedConcat(files: map<Tid, seq<nat>>, first: seq<Write>, rest: seq<Write>)
    ensures Applied(files, first + rest) == Applied(Applied(files, first), rest)
    decreases |first|
  {
    if first == [] {
      assert first + rest == rest;
    } else {
      assert (first + rest)[0] == first[0] && (first + rest)[1..] == first[1..] + rest;
      AppliedConcat(SetCell(files, first[0].t, first[0].i, first[0].v), first[1..], rest);
    }
  }

  /** Any sequence of gets and sets on any threads, whatever flushes and selections answer, is the same sequence of
      writes on one plain map, and a successful flush at its end delivers all of them. */
  lemma {:induction false} CacheRefinesPlainMap(c: Cpu, accesses: seq<Access>, count: nat)
    requires Coherent(c, count) && AllProper(c, accesses, count)
    ensures var end := ServedAll(c, accesses, count);
      && Refines(c, end, WritesAll(c, accesses, count), count)
      && Clean(Flushed(end, true))
      && Flushed(end, true).regs == Applied(Logical(c), WritesAll(c, accesses, count))
    decreases |accesses|
  {
    if accesses != [] {
      ServedRefines(c, accesses[0], count);
      var d := Served(c, accesses[0], count);
      CacheRefinesPlainMap(d, accesses[1..], count);
      AppliedConcat(Logical(c), Writes(c, accesses[0]), WritesAll(d, accesses[1..], count));
    }
    FlushedKeepsLogical(ServedAll(c, accesses, count), true, count);
  }

  /** And every get of the sequence returns what the plain map holds at that moment: the cell after all the writes
      before it, or 0 when the thread could not be borrowed. */
  lemma GetsReturnPlainMap(c: Cpu, accesses: seq<Access>, k: nat, count: nat)
    requires Coherent(c, count) && AllProper(c, accesses, count) && k < |accesses| && accesses[k].GetRegister?
    ensures AllProper(c, accesses[..k], count)
    ensures var a := accesses[k]; var now := ServedAll(c, accesses[..k], count);
      var plain := Applied(Logical(c), WritesAll(c, accesses[..k], count));
      && Shaped(now, count) && Proper(now, a, count) && a.t in plain && a.i < |plain[a.t]|
      && Answered(now, a) == if Enters(now, a.t, a.entry) then plain[a.t][a.i] else 0
  {
    assert AllProper(c, accesses[..k], count) by {
      assert forall j | 0 <= j < k :: accesses[..k][j] == accesses[j];
    }
    CacheRefinesPlainMap(c, accesses[..k], count);
    var a, now := accesses[k], ServedAll(c, accesses[..k], count);
    assert Proper(c, a, count);
    assert a.t in now.regs;
    if Enters(now, a.t, a.entry) {
      EnteredSeesLogical(now, a.t, a.i, a.entry, count);
    }
  }

  // ---- The cache over mutable fields ------------------------------------

  class Cache {
    const widths: seq<nat>                 // 0 for a register that is no integer
    const indexOf: map<Register, nat>      // aliases share an index
    const threadOf: map<int, Tid>          // thread handles
    var regs: map<Tid, seq<nat>>
    var current: Tid
    var values: seq<nat>
    var changed: seq<bool>
    ghost var faulted: bool                // some read or thread selection has failed
    ghost var refusals: nat                // how often an engine call has failed

    function View(): Cpu
      reads this
    {
      Cpu(regs, current, values, changed)
    }

    ghost predicate WellShaped()
      reads this
    {
      && Shaped(View(), |widths|)
      && (forall r | r in indexOf :: indexOf[r] < |widths|)
      && (forall h | h in threadOf :: threadOf[h] in regs)
    }

    ghost predicate Valid()
      reads this
    {
      WellShaped() && (!faulted ==> Coherent(View(), |widths|))
    }

    predicate Assignable(register: Register) {
      register in indexOf && indexOf[register] < |widths| && Modulus(widths[indexOf[register]]) != 0
    }

    /** The register holds integers, and `v` is one of them. */
    predicate Fits(register: Register, v: nat) {
      register in indexOf && indexOf[register] < |widths| && IntegerWidth(widths[indexOf[register]])
      && v < Power2(widths[indexOf[register]])
    }

    ghost function Registers(): map<Tid, seq<nat>>
      requires Valid()
      reads this
    {
      Logical(View())
    }

    constructor (widths: seq<nat>, indexOf: map<Register, nat>, threadOf: map<int, Tid>,
                 regs: map<Tid, seq<nat>>, current: Tid)
      requires current in regs && forall t | t in regs :: |regs[t]| == |widths|
      requires forall r | r in indexOf :: indexOf[r] < |widths|
      requires forall h | h in threadOf :: threadOf[h] in regs
      ensures Valid() && !faulted && Registers() == regs
    {
      this.widths, this.indexOf, this.threadOf := widths, indexOf, threadOf;
      this.regs, this.current, this.values := regs, current, regs[current];
      changed, faulted, refusals := seq(|widths|, i => false), false, 0;
      new;
      assert LogicalFile(View(), current) == regs[current];
    }

    method Flush() returns (ok: bool)
      requires Valid()
      modifies this`regs, this`changed, this`refusals
      ensures refusals >= old(refusals) && (ok <==> refusals == old(refusals))
      ensures Valid() && View() == Flushed(old(View()), ok)
      ensures old(Clean(View())) ==> ok
      ensures !faulted ==> Registers() == old(Registers())
      ensures ok ==> Clean(View())
      ensures ok && !faulted ==> regs == Registers()
    {
      if !faulted {
        FlushedKeepsLogical(View(), true, |widths|);
        FlushedKeepsLogical(View(), false, |widths|);
      }
      var indices: seq<nat> := [];
      for i := 0 to |changed|
        invariant forall j | 0 <= j < i :: changed[j] <==> j in indices
        invariant forall j | j in indices :: j < i
      {
        if changed[i] {
          indices := indices + [i];
        }
      }
      if indices == [] {
        return true;
      }
      assert !Clean(View()) by { assert changed[indices[0]] by { assert indices[0] in indices; } }
      var refused: bool := *;
      if refused {
        refusals := refusals + 1;
        return false;
      }
      ghost var target := Logical(View());
      var file, pending := regs[current], values;
      file := seq(|file|, i requires 0 <= i < |file| && |pending| == |file| =>
        if i in indices then pending[i] else file[i]);
      assert file == target[current];
      regs := regs[current := file];
      changed := seq(|changed|, i => false);
      ok := true;
    }

    method Read() returns (ok: bool, ghost outcome: ReadOutcome)
      requires WellShaped()
      modifies this`values, this`faulted, this`refusals
      ensures refusals >= old(refusals) && (outcome.Fresh? <==> refusals == old(refusals))
      ensures Valid()
      ensures View() == ReadBack(old(View()), outcome) && ok == !outcome.Unexpected?
      ensures faulted == (old(faulted) || !outcome.Fresh?)
    {
      var refused: bool, unexpected: bool := *, *;
      if refused {
        faulted, refusals := true, refusals + 1;
        return !unexpected, if unexpected then Unexpected else Stale;
      }
      values := regs[current];
      ok, outcome := true, Fresh;
    }

    method SelectThread(t: Tid) returns (ok: bool)
      requires t in regs
      modifies this`current, this`refusals
      ensures refusals >= old(refusals) && (ok <==> refusals == old(refusals))
      ensures View() == Selected(old(View()), t, ok)
    {
      var refused: bool := *;
      ok := !refused;
      if ok {
        current := t;
      } else {
        refusals := refusals + 1;
      }
    }

    method SetValue(register: Register, v: nat) returns (ok: bool)
      requires Valid()
      modifies this`values, this`changed
      ensures Valid()
      ensures ok <==> Assignable(register)
      ensures View() == if ok then Assigned(old(View()), indexOf[register], v % Modulus(widths[indexOf[register]]))
                        else old(View())
      ensures ok && !faulted ==>
        Registers() == SetCell(old(Registers()), current, indexOf[register], v % Modulus(widths[indexOf[register]]))
      ensures ok && Fits(register, v) ==> values[indexOf[register]] == v
    {
      if Fits(register, v) {
        FittingIsKept(widths[indexOf[register]], v);
      }
      if register !in indexOf {
        return false;
      }
      var i := indexOf[register];
      var modulus := Modulus(widths[i]);
      if modulus == 0 {
        return false;
      }
      if !faulted {
        AssignedSetsOneCell(View(), i, v % modulus, |widths|);
      }
      values := values[i := v % modulus];
      changed := changed[i := true];
      ok := true;
    }

    method GetValue(register: Register) returns (v: nat)
      requires Valid()
      ensures !faulted && Assignable(register) ==> v == Registers()[current][indexOf[register]]
      ensures !Assignable(register) ==> v == 0
    {
      if register !in indexOf || Modulus(widths[indexOf[register]]) == 0 {
        return 0;
      }
      v := values[indexOf[register]];
    }

    /** The constructor of DebugThreadScope. */
    method EnterScope(handle: int) returns (valid: bool, switched: bool, previous: Tid, ghost entry: Entry)
      requires Valid()
      modifies this`regs, this`current, this`values, this`changed, this`faulted, this`refusals
      ensures Valid() && previous == old(current) && (old(faulted) ==> faulted) && refusals >= old(refusals)
      ensures refusals == old(refusals) ==> faulted == old(faulted) && (valid <==> handle in threadOf)
      ensures !faulted ==> Registers() == old(Registers())
      ensures switched ==> handle in threadOf
      ensures current == if switched then threadOf[handle] else old(current)
      ensures valid ==> handle in threadOf && current == threadOf[handle]
      ensures switched && !faulted ==> regs == Registers()
      ensures regs.Keys == old(regs.Keys)
      ensures handle !in threadOf ==> !valid && View() == old(View())
      ensures handle in threadOf && !faulted ==>
        && View() == Entered(old(View()), threadOf[handle], entry)
        && (valid <==> Enters(old(View()), threadOf[handle], entry))
        && (switched <==> valid && threadOf[handle] != old(current))
    {
      previous, valid, switched, entry := current, false, false, Entry(true, true);
      if handle !in threadOf {
        return;
      }
      var requested := threadOf[handle];
      if requested != current {
        var flushed := Flush();
        entry := Entry(flushed, true);
        if !flushed {
          return;
        }
        if !faulted {
          SwitchKeepsLogical(View(), requested, |widths|);
        }
        var ok := SelectThread(requested);
        entry := Entry(true, ok);
        if !ok {
          return;
        }
        switched := true;
        var read;
        ghost var outcome;
        read, outcome := Read();
        if !read {
          return;
        }
      }
      valid := true;
    }

    /** The destructor of DebugThreadScope; the result of its flush is ignored. A write that the
        flush could not deliver is dropped when the previous thread's registers are read back. */
    method LeaveScope(switched: bool, previous: Tid) returns (ghost leaveOk: bool)
      requires Valid() && previous in regs && (!switched ==> current == previous)
      modifies this`regs, this`current, this`values, this`changed, this`faulted, this`refusals
      ensures Valid() && (old(faulted) ==> faulted) && refusals >= old(refusals)
      ensures refusals == old(refusals) ==> faulted == old(faulted)
      ensures !faulted ==> current == previous
      ensures !faulted ==> Registers() == if switched then regs else old(Registers())
      ensures !faulted && switched ==> regs == old(Registers()) || regs == old(regs)
      ensures regs.Keys == old(regs.Keys)
      ensures !switched ==> View() == old(View())
      ensures !faulted && switched ==> View() == Left(old(View()), previous, leaveOk, true, Fresh)
    {
      leaveOk := true;
      if !switched {
        return;
      }
      var flushed := Flush();
      leaveOk := flushed;
      if !faulted {
        SwitchKeepsLogical(View(), previous, |widths|);
      }
      var ok := SelectThread(previous);
      if !ok {
        faulted := true;
        return;
      }
      var read;
      ghost var outcome;
      read, outcome := Read();
    }

    /** GetContextDataEx in a live session: a read of the plain thread-by-register map. */
    method GetContextData(handle: int, register: Register) returns (v: nat, ghost valid: bool, ghost access: Access)
      requires Valid()
      modifies this`regs, this`current, this`values, this`changed, this`faulted, this`refusals
      ensures Valid() && (old(faulted) ==> faulted) && refusals >= old(refusals)
      ensures refusals == old(refusals) ==> faulted == old(faulted) && (valid <==> handle in threadOf)
      ensures !faulted ==> Registers() == old(Registers()) && current == old(current)
      ensures valid ==> handle in threadOf
      ensures !faulted && valid && Assignable(register) ==> v == old(Registers())[threadOf[handle]][indexOf[register]]
      ensures !valid ==> v == 0
      ensures !faulted && handle in threadOf && Assignable(register) ==>
        && access.GetRegister? && access.t == threadOf[handle] && access.i == indexOf[register]
        && View() == Served(old(View()), access, |widths|) && v == Answered(old(View()), access)
    {
      var entered, switched, previous;
      ghost var entry;
      entered, switched, previous, entry := EnterScope(handle);
      v, valid := 0, entered;
      if entered {
        v := GetValue(register);
      }
      ghost var files := if !faulted then Registers() else regs;
      ghost var leaveOk := LeaveScope(switched, previous);
      assert !faulted ==> files == old(Registers());
      access := if handle in threadOf && register in indexOf
                then GetRegister(threadOf[handle], indexOf[register], entry, leaveOk) else Resume(true);
    }

    /** SetContextDataEx in a live session: a write of one cell of the same map. Whatever fails on the
        way, no other cell changes and the selected thread is restored. */
    method SetContextData(handle: int, register: Register, v: nat) returns (ok: bool, ghost access: Access)
      requires Valid()
      modifies this`regs, this`current, this`values, this`changed, this`faulted, this`refusals
      ensures Valid() && (old(faulted) ==> faulted) && refusals >= old(refusals)
      ensures refusals == old(refusals) ==>
        faulted == old(faulted) && (ok <==> handle in threadOf && Assignable(register))
      ensures !faulted ==> current == old(current)
      ensures ok ==> handle in threadOf && Assignable(register)
      ensures !faulted && handle in threadOf && Assignable(register) ==>
        && access.SetRegister? && access.t == threadOf[handle] && access.i == indexOf[register]
        && access.v == v % Modulus(widths[indexOf[register]])
        && View() == Served(old(View()), access, |widths|)
      ensures !faulted && (ok || Registers() != old(Registers())) ==>
        && handle in threadOf && Assignable(register)
        && Registers() == SetCell(old(Registers()), threadOf[handle], indexOf[register],
                                  v % Modulus(widths[indexOf[register]]))
      ensures !faulted && ok && Fits(register, v) ==>
        Registers()[threadOf[handle]][indexOf[register]] == v
    {
      if Fits(register, v) {
        FittingIsKept(widths[indexOf[register]], v);
      }
      var entered, switched, previous;
      ghost var entry;
      entered, switched, previous, entry := EnterScope(handle);
      ghost var setOk, leaveOk := true, true;
      ok := entered;
      if entered {
        ok := SetValue(register, v);
        if ok {
          ok := Flush();
          setOk := ok;
        }
      }
      leaveOk := LeaveScope(switched, previous);
      access := if handle in threadOf && Assignable(register)
                then SetRegister(threadOf[handle], indexOf[register], v % Modulus(widths[indexOf[register]]),
                                 entry, setOk, leaveOk)
                else Resume(true);
    }

    /** The flush before the target resumes: nothing stays pending and the engine holds every logical value. */
    method FlushBeforeResume() returns (ok: bool)
      requires Valid()
      modifies this`regs, this`changed, this`refusals
      ensures Valid() && refusals >= old(refusals) && (ok <==> refusals == old(refusals))
      ensures ok && !faulted ==> Clean(View()) && regs == old(Registers())
    {
      ok := Flush();
    }

    /** setCurrentInstructionPointer: the write stays in the cache. */
    method SetInstructionPointer(register: Register, address: nat)
      requires Valid()
      modifies this`values, this`changed
      ensures Valid() && regs == old(regs)
      ensures !faulted && Assignable(register) ==>
        Registers() == SetCell(old(Registers()), current, indexOf[register],
                               address % Modulus(widths[indexOf[register]]))
      ensures !faulted && Fits(register, address) ==> Registers()[current][indexOf[register]] == address
    {
      if Fits(register, address) {
        FittingIsKept(widths[indexOf[register]], address);
      }
      var ok := SetValue(register, address);
    }
  }
}

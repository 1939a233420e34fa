/** The memory map of a recorded process: MemoryQuerySafe in a trace session, and the walk that
    queries it region by region. */
module TraceMap {
  import opened Common
  import opened Target

  const MAXIMUM_ADDRESS := 0x0000_8000_0000_0000

  datatype Backing = Image | Private | Free

  datatype Range = Range(start: int, end: int, backing: Backing)

  datatype Region = Region(base: int, size: int, backing: Backing)

  datatype ModuleInfo = ModuleInfo(base: int, size: nat)

  /** `tib` holds the stack base and the stack limit when the thread's NT_TIB can be read. */
  datatype ThreadInfo = ThreadInfo(teb: int, tib: Option<(int, int)>)

  predicate In(r: Range, a: int) { r.start <= a < r.end }

  function RegionOf(r: Range): Region { Region(r.start, r.end - r.start, r.backing) }

  // ---- The known ranges, in the order the query looks at them -----------

  function ModuleRange(m: ModuleInfo): seq<Range> {
    if m.size == 0 then [] else [Range(m.base, m.base + m.size, Image)]
  }

  function StackRange(t: ThreadInfo): seq<Range> {
    if t.teb != 0 && t.tib.Some? && t.tib.value.1 != 0 && t.tib.value.0 > t.tib.value.1
    then [Range(t.tib.value.1, t.tib.value.0, Private)] else []
  }

  function TebRange(t: ThreadInfo): seq<Range> {
    if t.teb != 0 then [Range(PageOf(t.teb), PageOf(t.teb) + PAGE_SIZE, Private)] else []
  }

  /** The ranges of the first `n` modules. */
  function ModuleRanges(modules: seq<ModuleInfo>, n: nat): seq<Range>
    requires n <= |modules|
  {
    if n == 0 then [] else ModuleRanges(modules, n - 1) + ModuleRange(modules[n - 1])
  }

  /** The ranges of the first `n` threads, stack before TEB. */
  function ThreadRanges(threads: seq<ThreadInfo>, n: nat): seq<Range>
    requires n <= |threads|
  {
    if n == 0 then []
    else ThreadRanges(threads, n - 1) + StackRange(threads[n - 1]) + TebRange(threads[n - 1])
  }

  predicate IsModuleRange(m: ModuleInfo, r: Range) {
    m.size != 0 && r.start == m.base && r.end == m.base + m.size && r.backing.Image?
  }

  /** The stack lies between the limit and the base of the thread's NT_TIB. */
  predicate IsStackRange(t: ThreadInfo, r: Range) {
    && t.teb != 0 && t.tib.Some? && 0 != t.tib.value.1 < t.tib.value.0
    && r.start == t.tib.value.1 && r.end == t.tib.value.0 && r.backing.Private?
  }

  predicate IsTebRange(t: ThreadInfo, r: Range) {
    t.teb != 0 && Aligned(r.start) && r.start <= t.teb < r.end == r.start + PAGE_SIZE && r.backing.Private?
  }

  /** The known ranges are those of the modules that are not empty ... */
  lemma {:induction false} ModuleRangesMeaning(modules: seq<ModuleInfo>, n: nat, r: Range)
    requires n <= |modules|
    ensures r in ModuleRanges(modules, n) <==> exists i :: 0 <= i < n && IsModuleRange(modules[i], r)
  {
    if n > 0 {
      ModuleRangesMeaning(modules, n - 1, r);
      assert r in ModuleRange(modules[n - 1]) <==> IsModuleRange(modules[n - 1], r);
    }
  }

  /** ... and the stack and the TEB page of every thread that has them. */
  lemma {:induction false} ThreadRangesMeaning(threads: seq<ThreadInfo>, n: nat, r: Range)
    requires n <= |threads|
    ensures r in ThreadRanges(threads, n) <==>
            exists i :: 0 <= i < n && (IsStackRange(threads[i], r) || IsTebRange(threads[i], r))
  {
    if n > 0 {
      ThreadRangesMeaning(threads, n - 1, r);
      var t := threads[n - 1];
      if IsTebRange(t, r) {
        PageOfUnique(t.teb, r.start);
      }
      assert r in StackRange(t) + TebRange(t) <==> IsStackRange(t, r) || IsTebRange(t, r);
    }
  }

  // ---- The query as a function of the ranges ----------------------------

  /** The first of the first `n` ranges that holds `a`. */
  function FirstAmong(ranges: seq<Range>, n: nat, a: int): Option<Range>
    requires n <= |ranges|
  {
    if n == 0 then None
    else
      var earlier := FirstAmong(ranges, n - 1, a);
      if earlier.Some? then earlier
      else if In(ranges[n - 1], a) then Some(ranges[n - 1]) else None
  }

  function FirstIn(ranges: seq<Range>, a: int): Option<Range> {
    FirstAmong(ranges, |ranges|, a)
  }

  /** The least start above `a` among the first `n` ranges, or the end of the address space. */
  function NextAmong(ranges: seq<Range>, n: nat, a: int): int
    requires n <= |ranges|
  {
    if n == 0 then MAXIMUM_ADDRESS
    else
      var earlier := NextAmong(ranges, n - 1, a);
      if a < ranges[n - 1].start < earlier then ranges[n - 1].start else earlier
  }

  function NextStart(ranges: seq<Range>, a: int): int {
    NextAmong(ranges, |ranges|, a)
  }

  /** `readable` are the addresses at which the cursor can supply a byte. */
  function Query(ranges: seq<Range>, readable: set<int>, a: int): Region {
    var found := FirstIn(ranges, a);
    if found.Some? then RegionOf(found.value)
    else if a in readable then Region(PageOf(a), PAGE_SIZE, Private)
    else
      var gap := (NextStart(ranges, a) - PageOf(a)) % ADDRESS_LIMIT;
      Region(PageOf(a), if gap < PAGE_SIZE then PAGE_SIZE else gap, Free)
  }

  lemma {:induction false} FirstAmongMeaning(ranges: seq<Range>, n: nat, a: int)
    requires n <= |ranges|
    ensures var f := FirstAmong(ranges, n, a);
      && (f.Some? ==> f.value in ranges && In(f.value, a))
      && (f.None? ==> forall i | 0 <= i < n :: !In(ranges[i], a))
  {
    if n > 0 {
      FirstAmongMeaning(ranges, n - 1, a);
    }
  }

  lemma FirstInMeaning(ranges: seq<Range>, a: int)
    ensures FirstIn(ranges, a).Some? ==> FirstIn(ranges, a).value in ranges && In(FirstIn(ranges, a).value, a)
    ensures FirstIn(ranges, a).None? ==> forall r | r in ranges :: !In(r, a)
  {
    FirstAmongMeaning(ranges, |ranges|, a);
  }

  lemma {:induction false} NextAmongMeaning(ranges: seq<Range>, n: nat, a: int)
    requires n <= |ranges| && a < MAXIMUM_ADDRESS
    ensures var next := NextAmong(ranges, n, a);
      && a < next <= MAXIMUM_ADDRESS
      && (forall i | 0 <= i < n && a < ranges[i].start :: next <= ranges[i].start)
      && (next == MAXIMUM_ADDRESS || exists i :: 0 <= i < n && ranges[i].start == next)
  {
    if n > 0 {
      NextAmongMeaning(ranges, n - 1, a);
    }
  }

  lemma NextStartMeaning(ranges: seq<Range>, a: int)
    requires a < MAXIMUM_ADDRESS
    ensures a < NextStart(ranges, a) <= MAXIMUM_ADDRESS
    ensures forall r | r in ranges && a < r.start :: NextStart(ranges, a) <= r.start
    ensures NextStart(ranges, a) == MAXIMUM_ADDRESS || exists r :: r in ranges && r.start == NextStart(ranges, a)
  {
    NextAmongMeaning(ranges, |ranges|, a);
  }

  /** Every answer contains the queried address, whatever the ranges look like. */
  lemma QueryContainsAddress(ranges: seq<Range>, readable: set<int>, a: int)
    requires 0 <= a < MAXIMUM_ADDRESS
    ensures var r := Query(ranges, readable, a); r.base <= a < r.base + r.size
  {
    FirstInMeaning(ranges, a);
    NextStartMeaning(ranges, a);
  }

  /** Of the ranges that hold the address the one listed first answers. */
  lemma {:induction false} FirstListedAnswers(ranges: seq<Range>, n: nat, a: int, i: nat)
    requires i < n <= |ranges| && In(ranges[i], a) && forall j | 0 <= j < i :: !In(ranges[j], a)
    ensures FirstAmong(ranges, n, a) == Some(ranges[i])
    decreases n
  {
    FirstAmongMeaning(ranges, n - 1, a);
    if i < n - 1 {
      FirstListedAnswers(ranges, n - 1, a, i);
    } else if FirstAmong(ranges, n - 1, a).Some? {
      FirstAmongStops(ranges, n - 1, a);
    }
  }

  lemma {:induction false} FirstAmongStops(ranges: seq<Range>, n: nat, a: int)
    requires n <= |ranges| && FirstAmong(ranges, n, a).Some?
    ensures exists j :: 0 <= j < n && In(ranges[j], a)
  {
    if FirstAmong(ranges, n - 1, a).Some? {
      FirstAmongStops(ranges, n - 1, a);
    }
  }

  predicate Unknown(ranges: seq<Range>, a: int) {
    forall r | r in ranges :: !In(r, a)
  }

  /** What the backing of an answer says: an address is reported free exactly when no known range holds it and the
      cursor has no byte there, and a readable one outside every range is its own private page. */
  lemma QueryMeaning(ranges: seq<Range>, readable: set<int>, a: int)
    requires forall r | r in ranges :: !r.backing.Free?
    ensures Query(ranges, readable, a).backing.Free? <==> Unknown(ranges, a) && a !in readable
    ensures Unknown(ranges, a) && a in readable ==> Query(ranges, readable, a) == Region(PageOf(a), PAGE_SIZE, Private)
    ensures !Unknown(ranges, a) ==> exists r :: r in ranges && In(r, a) && Query(ranges, readable, a) == RegionOf(r)
  {
    FirstInMeaning(ranges, a);
  }

  /** A free region begins at its page and is the gap to the next known start above the address, or one page when
      that is nearer. */
  lemma FreeRegionMeaning(ranges: seq<Range>, readable: set<int>, a: int)
    requires 0 <= a < MAXIMUM_ADDRESS && Unknown(ranges, a) && a !in readable
    ensures var r := Query(ranges, readable, a); var end := r.base + r.size;
      && r.base == PageOf(a) && r.size >= PAGE_SIZE
      && (r.size > PAGE_SIZE ==> forall q | q in ranges && a < q.start :: end <= q.start)
      && (r.size > PAGE_SIZE && end != MAXIMUM_ADDRESS ==> exists q :: q in ranges && q.start == end)
      && (r.size == PAGE_SIZE ==> MAXIMUM_ADDRESS <= end || exists q :: q in ranges && a < q.start <= end)
  {
    FirstInMeaning(ranges, a);
    NextStartMeaning(ranges, a);
    var gap := NextStart(ranges, a) - PageOf(a);
    assert gap % ADDRESS_LIMIT == gap;
  }

  /** An answer begins at the queried address exactly when that is the start of the range it falls in, or
      is page-aligned outside every range. Otherwise the walk sees part of a region twice. */
  lemma QueryStartsAtAddressIff(ranges: seq<Range>, readable: set<int>, a: int)
    requires 0 <= a < MAXIMUM_ADDRESS
    ensures Query(ranges, readable, a).base == a <==>
            if FirstIn(ranges, a).Some? then FirstIn(ranges, a).value.start == a else Aligned(a)
  {
  }

  // ---- The walk ---------------------------------------------------------

  /** Queries from `a` on, each time moving to the end of the answer. */
  function Walk(ranges: seq<Range>, readable: set<int>, a: int): seq<Region>
    requires 0 <= a
    decreases MAXIMUM_ADDRESS - a
  {
    if a >= MAXIMUM_ADDRESS then []
    else
      QueryContainsAddress(ranges, readable, a);
      var r := Query(ranges, readable, a);
      [r] + Walk(ranges, readable, r.base + r.size)
  }

  /** Non-empty ranges of the address space that do not overlap, wherever they begin and end. */
  ghost predicate Separate(ranges: seq<Range>) {
    && (forall r | r in ranges :: 0 <= r.start < r.end <= MAXIMUM_ADDRESS && !r.backing.Free?)
    && (forall i, j | 0 <= i < j < |ranges| :: ranges[i].end <= ranges[j].start || ranges[j].end <= ranges[i].start)
  }

  /** Consecutive regions that cover [from, to) without gap or overlap. */
  ghost predicate Tiles(regions: seq<Region>, from: int, to: int)
    decreases |regions|
  {
    if regions == [] then from == to
    else regions[0].base == from && regions[0].size > 0 && Tiles(regions[1..], from + regions[0].size, to)
  }

  ghost predicate Shows(regions: seq<Region>, ranges: seq<Range>) {
    forall q | q in ranges :: RegionOf(q) in regions
  }

  /** What the walk is for: the regions tile the space and each known range is one of them. */
  ghost predicate Exact(regions: seq<Region>, ranges: seq<Range>) {
    Tiles(regions, 0, MAXIMUM_ADDRESS) && Shows(regions, ranges)
  }

  // ---- When the walk is exact ----------------------------------------------

  ghost predicate IsStart(ranges: seq<Range>, a: int) {
    exists r :: r in ranges && r.start == a
  }

  ghost predicate IsEnd(ranges: seq<Range>, a: int) {
    exists r :: r in ranges && r.end == a
  }

  /** The walk can go on from where a range ends. */
  ghost predicate EndMeets(ranges: seq<Range>, end: int) {
    end == MAXIMUM_ADDRESS || Aligned(end) || IsStart(ranges, end)
  }

  /** A page below `start` at which the cursor supplies nothing, with no range from there to `start`: the walk
      leaves that page straight for `start`. */
  ghost predicate Springboard(ranges: seq<Range>, readable: set<int>, start: int, p: int) {
    && Aligned(p) && 0 <= p && p + PAGE_SIZE <= start && p !in readable
    && forall q | q in ranges :: q.end <= p || start <= q.start
  }

  /** The walk can arrive where a range starts. */
  ghost predicate StartMeets(ranges: seq<Range>, readable: set<int>, start: int) {
    Aligned(start) || IsEnd(ranges, start) || exists p :: Springboard(ranges, readable, start, p)
  }

  ghost predicate Meets(ranges: seq<Range>, readable: set<int>) {
    && (forall r | r in ranges :: EndMeets(ranges, r.end))
    && (forall r | r in ranges :: StartMeets(ranges, readable, r.start))
  }

  lemma DisjointRanges(ranges: seq<Range>, r: Range, q: Range)
    requires Separate(ranges) && r in ranges && q in ranges && r != q
    ensures r.end <= q.start || q.end <= r.start
  {
    var i :| 0 <= i < |ranges| && ranges[i] == r;
    var j :| 0 <= j < |ranges| && ranges[j] == q;
    assert i < j || j < i;
  }

  /** `next` is the first start above `a`, and a step from `a` reaches it without crossing it. */
  ghost predicate Clear(ranges: seq<Range>, readable: set<int>, a: int, next: int) {
    && Aligned(a) && a < next && next == NextStart(ranges, a)
    && (forall r | r in ranges :: !In(r, a))
    && (Aligned(next) || exists p :: a <= p && Springboard(ranges, readable, next, p))
  }

  /** The addresses the walk visits when all is well. */
  ghost predicate Station(ranges: seq<Range>, readable: set<int>, a: int) {
    0 <= a && (a == MAXIMUM_ADDRESS || IsStart(ranges, a) || Clear(ranges, readable, a, NextStart(ranges, a)))
  }

  /** An aligned address at or after the end of every range before it is clear. */
  lemma AlignedIsStation(ranges: seq<Range>, readable: set<int>, a: int)
    requires Separate(ranges) && Meets(ranges, readable) && Aligned(a) && 0 <= a <= MAXIMUM_ADDRESS
    requires a == 0 || IsEnd(ranges, a)
    ensures Station(ranges, readable, a)
  {
    if a < MAXIMUM_ADDRESS && !IsStart(ranges, a) {
      forall r | r in ranges ensures !In(r, a) {
        if f :| f in ranges && f.end == a && f != r {
          DisjointRanges(ranges, f, r);
        }
      }
      NextStartMeaning(ranges, a);
      var next := NextStart(ranges, a);
      if !Aligned(next) {
        var r :| r in ranges && r.start == next;
        NoEndBetween(ranges, a, next);
        var p :| Springboard(ranges, readable, next, p);
        if a != 0 {
          var f :| f in ranges && f.end == a;
          assert f.end <= p || next <= f.start;
        }
        assert a <= p && Springboard(ranges, readable, next, p);
      }
    }
  }

  /** No range ends at the first start above an address outside every range. */
  lemma NoEndBetween(ranges: seq<Range>, a: int, next: int)
    requires Separate(ranges) && 0 <= a < MAXIMUM_ADDRESS && next == NextStart(ranges, a)
    requires forall r | r in ranges :: !In(r, a)
    ensures !IsEnd(ranges, next)
  {
    NextStartMeaning(ranges, a);
  }

  /** A step from a clear address: a readable page, or the whole gap. */
  lemma ClearStep(ranges: seq<Range>, readable: set<int>, a: int, next: int)
    requires Separate(ranges) && 0 <= a < MAXIMUM_ADDRESS && Clear(ranges, readable, a, next)
    ensures var r := Query(ranges, readable, a);
      && r.base == a && r.size == (if a in readable then PAGE_SIZE else next - a) && PAGE_SIZE <= next - a
  {
    FirstInMeaning(ranges, a);
    NextStartMeaning(ranges, a);
    if Aligned(next) {
      AlignedGap(a, next);
    }
    assert (next - a) % ADDRESS_LIMIT == next - a;
  }

  lemma PageIsStation(ranges: seq<Range>, readable: set<int>, a: int, next: int)
    requires Separate(ranges) && 0 <= a < MAXIMUM_ADDRESS && Clear(ranges, readable, a, next)
    requires a in readable && a + PAGE_SIZE <= next
    ensures Station(ranges, readable, a + PAGE_SIZE)
  {
    var b := a + PAGE_SIZE;
    NextStartMeaning(ranges, a);
    if b < next {
      NextStartMeaning(ranges, b);
      forall r | r in ranges ensures !In(r, b) && (b < r.start ==> next <= r.start) {
        assert !In(r, a) && (a < r.start ==> next <= r.start);
      }
      assert NextStart(ranges, b) == next;
      if !Aligned(next) {
        var p :| a <= p && Springboard(ranges, readable, next, p);
        assert a != p;
        AlignedGap(a, p);
        assert b <= p && Springboard(ranges, readable, next, p);
      }
    }
  }

  /** One step leads from station to station and skips no range. */
  lemma StationStep(ranges: seq<Range>, readable: set<int>, a: int)
    requires Separate(ranges) && Meets(ranges, readable) && a < MAXIMUM_ADDRESS && Station(ranges, readable, a)
    ensures var r := Query(ranges, readable, a);
      && r.base == a < a + r.size <= MAXIMUM_ADDRESS
      && Station(ranges, readable, a + r.size)
      && forall q | q in ranges && a <= q.start :: r == RegionOf(q) || a + r.size <= q.start
  {
    FirstInMeaning(ranges, a);
    NextStartMeaning(ranges, a);
    if IsStart(ranges, a) {
      var s :| s in ranges && s.start == a;
      var f := FirstIn(ranges, a).value;
      if f != s {
        DisjointRanges(ranges, f, s);
      }
      forall q | q in ranges && a <= q.start && q != s ensures s.end <= q.start {
        DisjointRanges(ranges, s, q);
      }
      assert EndMeets(ranges, s.end) && IsEnd(ranges, s.end);
      if Aligned(s.end) {
        AlignedIsStation(ranges, readable, s.end);
      }
    } else {
      var next := NextStart(ranges, a);
      ClearStep(ranges, readable, a, next);
      forall q | q in ranges && a <= q.start ensures next <= q.start {
        assert !In(q, a);
      }
      if a in readable {
        PageIsStation(ranges, readable, a, next);
      }
    }
  }

  lemma WalkSteps(ranges: seq<Range>, readable: set<int>, a: int)
    requires 0 <= a < MAXIMUM_ADDRESS
    ensures var r := Query(ranges, readable, a);
      && r.base + r.size > a
      && Walk(ranges, readable, a) == [r] + Walk(ranges, readable, r.base + r.size)
  {
    QueryContainsAddress(ranges, readable, a);
  }

  lemma TilesCons(r: Region, rest: seq<Region>, from: int, to: int)
    ensures Tiles([r] + rest, from, to) <==> r.base == from && r.size > 0 && Tiles(rest, from + r.size, to)
  {
    assert ([r] + rest)[1..] == rest;
  }

  lemma {:induction false} StationsTile(ranges: seq<Range>, readable: set<int>, a: int)
    requires Separate(ranges) && Meets(ranges, readable) && a <= MAXIMUM_ADDRESS && Station(ranges, readable, a)
    ensures Tiles(Walk(ranges, readable, a), a, MAXIMUM_ADDRESS)
    ensures forall q | q in ranges && a <= q.start :: RegionOf(q) in Walk(ranges, readable, a)
    decreases MAXIMUM_ADDRESS - a
  {
    if a < MAXIMUM_ADDRESS {
      StationStep(ranges, readable, a);
      var r := Query(ranges, readable, a);
      StationsTile(ranges, readable, a + r.size);
      var rest := Walk(ranges, readable, a + r.size);
      WalkSteps(ranges, readable, a);
      TilesCons(r, rest, a, MAXIMUM_ADDRESS);
      forall q | q in ranges && a <= q.start ensures RegionOf(q) in [r] + rest {
        if r != RegionOf(q) {
          assert RegionOf(q) in rest;
        }
      }
    }
  }

  lemma {:induction false} TilesIncrease(regions: seq<Region>, from: int, to: int)
    requires Tiles(regions, from, to)
    ensures forall i | 0 <= i < |regions| :: from <= regions[i].base
    ensures forall i, j | 0 <= i < j < |regions| :: regions[i].base + regions[i].size <= regions[j].base
    decreases |regions|
  {
    if regions != [] {
      TilesIncrease(regions[1..], from + regions[0].size, to);
      forall i | 0 < i < |regions| ensures regions[i] == regions[1..][i - 1] {
      }
    }
  }

  /** Consecutive regions of a tiling touch, and the last one ends where the tiling does. */
  lemma {:induction false} TilesTouch(w: seq<Region>, from: int, to: int)
    requires Tiles(w, from, to)
    ensures w != [] ==> w[0].base == from && w[|w| - 1].base + w[|w| - 1].size == to
    ensures forall i | 0 <= i < |w| - 1 :: w[i].base + w[i].size == w[i + 1].base
    decreases |w|
  {
    if w != [] {
      TilesTouch(w[1..], from + w[0].size, to);
      forall i | 0 <= i < |w| - 1 ensures w[i].base + w[i].size == w[i + 1].base {
        if i > 0 {
          assert w[i] == w[1..][i - 1] && w[i + 1] == w[1..][i];
        }
      }
    }
  }

  /** In a walk that tiles, each region is the answer for its own base. */
  ghost predicate OwnAnswers(w: seq<Region>, ranges: seq<Range>, readable: set<int>) {
    forall i | 0 <= i < |w| :: 0 <= w[i].base < MAXIMUM_ADDRESS && w[i] == Query(ranges, readable, w[i].base)
  }

  lemma {:induction false} WalkAnswers(ranges: seq<Range>, readable: set<int>, a: int)
    requires 0 <= a && Tiles(Walk(ranges, readable, a), a, MAXIMUM_ADDRESS)
    ensures OwnAnswers(Walk(ranges, readable, a), ranges, readable)
    decreases MAXIMUM_ADDRESS - a
  {
    if a < MAXIMUM_ADDRESS {
      WalkSteps(ranges, readable, a);
      var r := Query(ranges, readable, a);
      TilesCons(r, Walk(ranges, readable, r.base + r.size), a, MAXIMUM_ADDRESS);
      WalkAnswers(ranges, readable, a + r.size);
    }
  }

  /** An address from which a tiling walk goes on is aligned or a start. */
  lemma EndNeeded(ranges: seq<Range>, readable: set<int>, b: int)
    requires 0 <= b < MAXIMUM_ADDRESS && Query(ranges, readable, b).base == b
    ensures EndMeets(ranges, b)
  {
    QueryStartsAtAddressIff(ranges, readable, b);
    FirstInMeaning(ranges, b);
  }

  /** The walk can only have arrived at an unaligned start that is nobody's end by a jump over a gap. */
  lemma JumpNeeded(ranges: seq<Range>, readable: set<int>, a: int, q: Range)
    requires Separate(ranges) && q in ranges && 0 <= a < MAXIMUM_ADDRESS
    requires Query(ranges, readable, a).base == a && a + Query(ranges, readable, a).size == q.start
    requires !Aligned(q.start) && !IsEnd(ranges, q.start)
    ensures Springboard(ranges, readable, q.start, a)
  {
    QueryStartsAtAddressIff(ranges, readable, a);
    FirstInMeaning(ranges, a);
    NextStartMeaning(ranges, a);
    var next := NextStart(ranges, a);
    assert FirstIn(ranges, a).None? && a !in readable;
    assert (next - a) % ADDRESS_LIMIT == next - a;
    assert next == q.start;
    forall t | t in ranges ensures t.end <= a || q.start <= t.start {
      assert !In(t, a);
    }
  }

  lemma ExactMeets(ranges: seq<Range>, readable: set<int>, w: seq<Region>, q: Range)
    requires Separate(ranges) && q in ranges && RegionOf(q) in w
    requires Tiles(w, 0, MAXIMUM_ADDRESS) && OwnAnswers(w, ranges, readable)
    ensures EndMeets(ranges, q.end) && StartMeets(ranges, readable, q.start)
  {
    TilesTouch(w, 0, MAXIMUM_ADDRESS);
    var i :| 0 <= i < |w| && w[i] == RegionOf(q);
    if i + 1 < |w| {
      EndNeeded(ranges, readable, w[i + 1].base);
    }
    if !Aligned(q.start) && !IsEnd(ranges, q.start) {
      assert i > 0;
      JumpNeeded(ranges, readable, w[i - 1].base, q);
    }
  }

  lemma MeetsIsExact(ranges: seq<Range>, readable: set<int>)
    requires Separate(ranges) && Meets(ranges, readable)
    ensures Exact(Walk(ranges, readable, 0), ranges)
  {
    AlignedIsStation(ranges, readable, 0);
    StationsTile(ranges, readable, 0);
  }

  /** For any disjoint non-empty ranges the walk from 0 tiles the address space and shows every range with its exact
      bounds if and only if every range ends page-aligned, at another's start or at the end of the space, and
      every range starts page-aligned, at another's end, or above an unreadable page of the gap before it. */
  lemma WalkExactIff(ranges: seq<Range>, readable: set<int>)
    requires Separate(ranges)
    ensures Exact(Walk(ranges, readable, 0), ranges) <==> Meets(ranges, readable)
  {
    if Meets(ranges, readable) {
      MeetsIsExact(ranges, readable);
    }
    if Exact(Walk(ranges, readable, 0), ranges) {
      WalkAnswers(ranges, readable, 0);
      forall q | q in ranges ensures EndMeets(ranges, q.end) && StartMeets(ranges, readable, q.start) {
        ExactMeets(ranges, readable, Walk(ranges, readable, 0), q);
      }
    }
  }

  /** In particular for page-aligned ranges, whatever is readable: each occurs exactly once. */
  lemma WholeWalk(ranges: seq<Range>, readable: set<int>, q: Range)
    requires Separate(ranges) && q in ranges
    requires forall r | r in ranges :: Aligned(r.start) && Aligned(r.end)
    ensures var w := Walk(ranges, readable, 0);
      && Tiles(w, 0, MAXIMUM_ADDRESS)
      && (exists i :: 0 <= i < |w| && w[i] == RegionOf(q))
      && (forall i, j | 0 <= i < |w| && 0 <= j < |w| && w[i] == RegionOf(q) == w[j] :: i == j)
  {
    WalkExactIff(ranges, readable);
    ShownOnce(Walk(ranges, readable, 0), RegionOf(q));
  }

  /** In a tiling no region of positive size occurs twice. */
  lemma ShownOnce(w: seq<Region>, r: Region)
    requires Tiles(w, 0, MAXIMUM_ADDRESS) && r.size > 0
    ensures forall i, j | 0 <= i < |w| && 0 <= j < |w| && w[i] == r == w[j] :: i == j
  {
    TilesIncrease(w, 0, MAXIMUM_ADDRESS);
  }

  lemma SingleRange(m: Range, a: int)
    ensures FirstIn([m], a) == if In(m, a) then Some(m) else None
    ensures NextStart([m], a) == if a < m.start < MAXIMUM_ADDRESS then m.start else MAXIMUM_ADDRESS
  {
    assert FirstAmong([m], 0, a).None? && NextAmong([m], 0, a) == MAXIMUM_ADDRESS;
    assert FirstIn([m], a) == FirstAmong([m], 1, a) && NextStart([m], a) == NextAmong([m], 1, a);
  }

  /** A module that ends in the middle of a page, with a gap after it: the gap's region begins at the page start and
      covers the module a second time. */
  lemma UnalignedEndOverlaps(m: Range)
    requires m == Range(0x1000, 0x1800, Image)
    ensures var w := Walk([m], {}, 0);
      && |w| > 2 && w[1] == RegionOf(m) && w[2].base == m.start
      && !Tiles(w, 0, MAXIMUM_ADDRESS)
  {
    var w := Walk([m], {}, 0);
    SingleRange(m, 0);
    SingleRange(m, 0x1000);
    SingleRange(m, 0x1800);
    WalkSteps([m], {}, 0);
    WalkSteps([m], {}, 0x1000);
    WalkSteps([m], {}, 0x1800);
    if Tiles(w, 0, MAXIMUM_ADDRESS) {
      TilesIncrease(w, 0, MAXIMUM_ADDRESS);
    }
  }

  // ---- The query as the adapter runs it ---------------------------------

  lemma {:induction false} FirstAmongPrefix(p: seq<Range>, s: seq<Range>, n: nat, a: int)
    requires p <= s && n <= |p|
    ensures FirstAmong(s, n, a) == FirstAmong(p, n, a)
  {
    if n > 0 {
      FirstAmongPrefix(p, s, n - 1, a);
    }
  }

  lemma {:induction false} FirstAmongStays(ranges: seq<Range>, n: nat, m: nat, a: int)
    requires n <= m <= |ranges| && FirstAmong(ranges, n, a).Some?
    ensures FirstAmong(ranges, m, a) == FirstAmong(ranges, n, a)
    decreases m - n
  {
    if n < m {
      FirstAmongStays(ranges, n, m - 1, a);
    }
  }

  /** A hit in the list so far is the hit of every longer list. */
  lemma FirstInPrefix(p: seq<Range>, s: seq<Range>, a: int)
    requires p <= s && FirstIn(p, a).Some?
    ensures FirstIn(s, a) == FirstIn(p, a)
  {
    FirstAmongPrefix(p, s, |p|, a);
    FirstAmongStays(s, |p|, |s|, a);
  }

  lemma FirstInAppend(ranges: seq<Range>, r: Range, a: int)
    ensures FirstIn(ranges + [r], a) ==
            if FirstIn(ranges, a).Some? then FirstIn(ranges, a) else if In(r, a) then Some(r) else None
  {
    FirstAmongPrefix(ranges, ranges + [r], |ranges|, a);
  }

  lemma FirstInConcat(ranges: seq<Range>, more: seq<Range>, a: int)
    requires |more| <= 1
    ensures FirstIn(ranges + more, a) ==
            if FirstIn(ranges, a).Some? then FirstIn(ranges, a)
            else if more != [] && In(more[0], a) then Some(more[0]) else None
  {
    if more == [] {
      assert ranges + more == ranges;
    } else {
      assert more == [more[0]];
      FirstInAppend(ranges, more[0], a);
    }
  }

  /** Stack first, TEB second: where the search stands after one thread. */
  lemma SearchTwo(seen: seq<Range>, stack: seq<Range>, teb: seq<Range>, a: int)
    requires |stack| <= 1 && |teb| <= 1 && FirstIn(seen, a).None?
    ensures FirstIn(seen + stack, a) == if stack != [] && In(stack[0], a) then Some(stack[0]) else None
    ensures FirstIn(seen + stack + teb, a) ==
            if stack != [] && In(stack[0], a) then Some(stack[0])
            else if teb != [] && In(teb[0], a) then Some(teb[0]) else None
  {
    FirstInConcat(seen, stack, a);
    FirstInConcat(seen + stack, teb, a);
  }

  lemma {:induction false} ModuleRangesGrow(modules: seq<ModuleInfo>, k: nat, n: nat)
    requires k <= n <= |modules|
    ensures ModuleRanges(modules, k) <= ModuleRanges(modules, n)
    decreases n - k
  {
    if k < n {
      ModuleRangesGrow(modules, k, n - 1);
    }
  }

  lemma {:induction false} ThreadRangesGrow(threads: seq<ThreadInfo>, k: nat, n: nat)
    requires k <= n <= |threads|
    ensures ThreadRanges(threads, k) <= ThreadRanges(threads, n)
    decreases n - k
  {
    if k < n {
      ThreadRangesGrow(threads, k, n - 1);
    }
  }

  class RecordedProcess {
    const modules: seq<ModuleInfo>
    const threads: seq<ThreadInfo>
    const readable: set<int>

    constructor (modules: seq<ModuleInfo>, threads: seq<ThreadInfo>, readable: set<int>)
      ensures this.modules == modules && this.threads == threads && this.readable == readable
    {
      this.modules, this.threads, this.readable := modules, threads, readable;
    }

    ghost function KnownModules(): seq<Range> {
      ModuleRanges(modules, |modules|)
    }

    ghost function KnownThreads(): seq<Range> {
      ThreadRanges(threads, |threads|)
    }

    lemma KnownAreNotFree()
      ensures forall r | r in KnownModules() + KnownThreads() :: !r.backing.Free?
    {
      forall r | r in KnownModules() + KnownThreads() ensures !r.backing.Free? {
        ModuleRangesMeaning(modules, |modules|, r);
        ThreadRangesMeaning(threads, |threads|, r);
      }
    }

    /** The body of the module loop; a module of size 0 is skipped. */
    method SearchModule(m: ModuleInfo, a: int, seen: seq<Range>) returns (hit: Option<Range>, ranges: seq<Range>)
      requires FirstIn(seen, a).None?
      ensures ranges == seen + ModuleRange(m) && hit == FirstIn(ranges, a)
    {
      FirstInConcat(seen, ModuleRange(m), a);
      hit, ranges := None, seen;
      if m.size != 0 {
        var r := Range(m.base, m.base + m.size, Image);
        ranges := seen + [r];
        if In(r, a) {
          hit := Some(r);
        }
      }
    }

    /** The module loop: the ranges seen, and the first one that holds the address. */
    method SearchModules(a: int) returns (hit: Option<Range>, ranges: seq<Range>)
      ensures hit == FirstIn(KnownModules(), a)
      ensures hit.None? ==> ranges == KnownModules()
    {
      ranges := [];
      for k := 0 to |modules|
        invariant ranges == ModuleRanges(modules, k) && FirstIn(ranges, a).None?
      {
        hit, ranges := SearchModule(modules[k], a, ranges);
        if hit.Some? {
          ModuleRangesGrow(modules, k + 1, |modules|);
          FirstInPrefix(ranges, KnownModules(), a);
          return;
        }
      }
      hit := None;
    }

    /** The body of the thread loop: first the stack, then the TEB. */
    method SearchThread(t: ThreadInfo, a: int, seen: seq<Range>) returns (hit: Option<Range>, ranges: seq<Range>)
      requires FirstIn(seen, a).None?
      ensures hit == FirstIn(seen + StackRange(t) + TebRange(t), a)
      ensures hit.None? ==> ranges == seen + StackRange(t) + TebRange(t)
    {
      SearchTwo(seen, StackRange(t), TebRange(t), a);
      ranges := seen + StackRange(t);
      if StackRange(t) != [] && In(StackRange(t)[0], a) {
        return Some(StackRange(t)[0]), ranges;
      }
      ranges := ranges + TebRange(t);
      if TebRange(t) != [] && In(TebRange(t)[0], a) {
        return Some(TebRange(t)[0]), ranges;
      }
      hit := None;
    }

    lemma ThreadStep(before: seq<Range>, k: nat)
      requires k < |threads|
      ensures before + ThreadRanges(threads, k + 1) ==
              before + ThreadRanges(threads, k) + StackRange(threads[k]) + TebRange(threads[k])
    {
    }

    lemma KeepsHit(a: int, before: seq<Range>, k: nat)
      requires k < |threads| && FirstIn(before + ThreadRanges(threads, k + 1), a).Some?
      ensures FirstIn(before + KnownThreads(), a) == FirstIn(before + ThreadRanges(threads, k + 1), a)
    {
      ThreadRangesGrow(threads, k + 1, |threads|);
      FirstInPrefix(before + ThreadRanges(threads, k + 1), before + KnownThreads(), a);
    }

    /** The thread loop continues the list with the stack and TEB of every thread. */
    method SearchThreads(a: int, before: seq<Range>) returns (hit: Option<Range>, ranges: seq<Range>)
      requires FirstIn(before, a).None?
      ensures hit == FirstIn(before + KnownThreads(), a)
      ensures hit.None? ==> ranges == before + KnownThreads()
    {
      ranges := before;
      for k := 0 to |threads|
        invariant ranges == before + ThreadRanges(threads, k) && FirstIn(ranges, a).None?
      {
        ThreadStep(before, k);
        hit, ranges := SearchThread(threads[k], a, ranges);
        if hit.Some? {
          KeepsHit(a, before, k);
          return;
        }
      }
      hit := None;
    }

    /** The first start above `a` in the sorted list is the least one in the unsorted list. */
    method NextKnownStart(ranges: seq<Range>, a: int) returns (next: int)
      ensures next == NextStart(ranges, a)
    {
      next := MAXIMUM_ADDRESS;
      for k := 0 to |ranges|
        invariant next == NextAmong(ranges, k, a)
      {
        if a < ranges[k].start < next {
          next := ranges[k].start;
        }
      }
    }

    /** MemoryQuerySafe in a trace session. */
    method MemoryQuery(a: int) returns (r: Region)
      ensures r == Query(KnownModules() + KnownThreads(), readable, a)
      ensures r.backing.Free? <==> Unknown(KnownModules() + KnownThreads(), a) && a !in readable
      ensures Unknown(KnownModules() + KnownThreads(), a) && a in readable ==>
        r == Region(PageOf(a), PAGE_SIZE, Private)
    {
      KnownAreNotFree();
      QueryMeaning(KnownModules() + KnownThreads(), readable, a);
      var hit, ranges := SearchModules(a);
      if hit.Some? {
        FirstInPrefix(KnownModules(), KnownModules() + KnownThreads(), a);
        return RegionOf(hit.value);
      }
      hit, ranges := SearchThreads(a, ranges);
      if hit.Some? {
        return RegionOf(hit.value);
      }
      if a in readable {
        return Region(PageOf(a), PAGE_SIZE, Private);
      }
      var next := NextKnownStart(ranges, a);
      var gap := (next - PageOf(a)) % ADDRESS_LIMIT;
      r := Region(PageOf(a), if gap < PAGE_SIZE then PAGE_SIZE else gap, Free);
    }
  }
}

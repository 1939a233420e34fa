/** The debuggee as the adapter sees it: a byte-addressed memory and a per-page
    protection map. Everything the operating system does is reduced to these two maps. */
module Target {

  const PAGE_SIZE := 0x1000
  const ADDRESS_LIMIT := 0x1_0000_0000_0000_0000

  type Byte = b: int | 0 <= b < 256

  /** The value passed to VirtualProtectEx, with PAGE_GUARD split off as `guarded`. */
  datatype Protection = Protection(access: nat, guarded: bool)

  function Guarded(p: Protection): Protection { p.(guarded := true) }

  predicate Aligned(a: int) { a % PAGE_SIZE == 0 }

  function PageOf(a: int): (p: int)
    ensures Aligned(p) && p <= a < p + PAGE_SIZE
  {
    a - a % PAGE_SIZE
  }

  /** PageOf is the only aligned address whose page contains `a`. */
  lemma PageOfUnique(a: int, p: int)
    requires Aligned(p) && p <= a < p + PAGE_SIZE
    ensures PageOf(a) == p
  {
  }

  /** Two aligned addresses that differ are at least one page apart. */
  lemma AlignedGap(p: int, q: int)
    requires Aligned(p) && Aligned(q) && p < q
    ensures p + PAGE_SIZE <= q
  {
  }

  type Memory = map<int, Byte>

  predicate Mapped(m: Memory, start: int, size: nat) {
    forall a | start <= a < start + size :: a in m
  }

  function Fetch(m: Memory, start: int, size: nat): (bytes: seq<Byte>)
    requires Mapped(m, start, size)
    ensures |bytes| == size
    ensures forall k | 0 <= k < size :: bytes[k] == m[start + k]
  {
    if size == 0 then [] else Fetch(m, start, size - 1) + [m[start + size - 1]]
  }

  /** WriteProcessMemory: all of `bytes`, and nothing else. */
  function Store(m: Memory, start: int, bytes: seq<Byte>): (m': Memory)
    requires Mapped(m, start, |bytes|)
    ensures m'.Keys == m.Keys
    ensures forall a {:trigger m'[a]} | a in m ::
      m'[a] == if start <= a < start + |bytes| then bytes[a - start] else m[a]
  {
    map a | a in m :: if start <= a < start + |bytes| then bytes[a - start] else m[a]
  }
}

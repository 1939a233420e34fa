/** Synthetic process and thread handles: a tag in the upper and lower bits around a serial number. */
module SyntheticHandles {
  import opened Common

  type Handle = nat

  const NULL_HANDLE: Handle := 0
  const INVALID_HANDLE: Handle := 0xFFFF_FFFF_FFFF_FFFF
  const WORD: nat := 0x1_0000_0000_0000_0000
  const WORD_32: nat := 0x1_0000_0000

  /** Serials this far apart share a handle on x64: the mask keeps 47 bits of the serial, but the upper
      four land on bits that the tag has already set. */
  const SYNTHETIC_PERIOD: nat := 0x0800_0000_0000
  const SYNTHETIC_PERIOD_32: nat := 0x0100_0000

  // ---- Bitwise operators on unbounded naturals ---------------------------

  function BitAnd(a: nat, b: nat): nat {
    if a == 0 || b == 0 then 0 else 2 * BitAnd(a / 2, b / 2) + (if a % 2 == 1 && b % 2 == 1 then 1 else 0)
  }

  function BitOr(a: nat, b: nat): nat {
    if a == 0 then b else if b == 0 then a
    else 2 * BitOr(a / 2, b / 2) + (if a % 2 == 1 || b % 2 == 1 then 1 else 0)
  }

  function ShiftLeft(a: nat, n: nat): nat {
    a * Power2(n)
  }

  /** The expression of createSyntheticTitanHandle; the tag and the mask depend on the word size. */
  function Compose(tag: nat, mask: nat, serial: nat): Handle {
    BitOr(BitOr(tag, ShiftLeft(BitAnd(serial, mask), 4)), 3)
  }

  /** What the expression amounts to on x64: the tag, the low 43 bits of the serial from bit 4 up, and 3. */
  function Synthetic(serial: nat): Handle {
    0xFFFF_8000_0000_0003 + 16 * (serial % SYNTHETIC_PERIOD)
  }

  /** On x86: the low 24 bits. */
  function Synthetic32(serial: nat): Handle {
    0xF000_0003 + 16 * (serial % SYNTHETIC_PERIOD_32)
  }

  lemma SmallMultiple(d: int, m: int)
    requires -m < d * m < m
    ensures d == 0
  {
  }

  lemma RemainderUnique(a: nat, m: nat, q: nat, r: nat)
    requires m > 0 && a == q * m + r && r < m
    ensures a % m == r
  {
    var d: int := a / m - q;
    assert d * m == r - a % m;
    SmallMultiple(d, m);
  }

  lemma HalfRemainder(a: nat, p: nat)
    requires p > 0
    ensures a % (2 * p) == 2 * (a / 2 % p) + a % 2
  {
    var q, r := a / 2 / p, a / 2 % p;
    assert q * (2 * p) == 2 * (q * p);
    RemainderUnique(a, 2 * p, q, 2 * r + a % 2);
  }

  lemma AndHalves(a: nat, b: nat)
    ensures BitAnd(a, b) == 2 * BitAnd(a / 2, b / 2) + (if a % 2 == 1 && b % 2 == 1 then 1 else 0)
  {
  }

  /** A mask of `n` ones keeps the remainder. */
  lemma {:induction false} MaskIsRemainder(a: nat, n: nat, mask: nat)
    requires mask + 1 == Power2(n)
    ensures BitAnd(a, mask) == a % Power2(n)
    decreases n
  {
    if n > 0 {
      var p := Power2(n - 1);
      MaskIsRemainder(a / 2, n - 1, mask / 2);
      assert BitAnd(a / 2, mask / 2) == a / 2 % p;
      HalfRemainder(a, p);
      AndHalves(a, mask);
    }
  }

  lemma OrHalves(a: nat, b: nat)
    ensures BitOr(a, b) == 2 * BitOr(a / 2, b / 2) + (if a % 2 == 1 || b % 2 == 1 then 1 else 0)
  {
  }

  lemma OrSplitStep(a: nat, b: nat, c: nat, d: nat, or: nat)
    requires BitOr(a + b / 2, c + d / 2) == or + BitOr(b / 2, d / 2)
    ensures BitOr(2 * a + b, 2 * c + d) == 2 * or + BitOr(b, d)
  {
  }

  lemma Doubled(a: nat, n: nat)
    requires n > 0
    ensures a * Power2(n) == 2 * (a * Power2(n - 1))
  {
  }

  /** Or works separately above and below any bit; `x`, `y` and `z` are the upper parts of the operands and
      of the result. */
  lemma {:induction false} OrSplits(n: nat, a: nat, b: nat, c: nat, d: nat, x: nat, y: nat, z: nat)
    requires b < Power2(n) && d < Power2(n)
    requires x == a * Power2(n) && y == c * Power2(n) && z == BitOr(a, c) * Power2(n)
    ensures BitOr(x + b, y + d) == z + BitOr(b, d)
    decreases n
  {
    if n > 0 {
      Doubled(a, n);
      Doubled(c, n);
      Doubled(BitOr(a, c), n);
      OrSplits(n - 1, a, b / 2, c, d / 2, x / 2, y / 2, z / 2);
      OrSplitStep(x / 2, b, y / 2, d, z / 2);
    }
  }

  /** A run of ones absorbs everything below its length. */
  lemma {:induction false} OnesAbsorb(n: nat, c: nat)
    requires c < Power2(n)
    ensures BitOr(Power2(n) - 1, c) == Power2(n) - 1
    decreases n
  {
    if n > 0 {
      var p := Power2(n - 1);
      assert (2 * p - 1) / 2 == p - 1 && (2 * p - 1) % 2 == 1;
      OnesAbsorb(n - 1, c / 2);
      OrHalves(Power2(n) - 1, c);
    }
  }

  lemma Powers()
    ensures Power2(4) == 16 && Power2(17) == 0x2_0000 && Power2(24) == 0x0100_0000 && Power2(28) == 0x1000_0000
    ensures Power2(47) == 0x8000_0000_0000
  {
    assert Power2(0) == 1 && Power2(1) == 2 && Power2(3) == 8;
    Power2Plus4(0); Power2Plus4(4); Power2Plus4(8); Power2Plus4(12); Power2Plus4(16); Power2Plus4(20); Power2Plus4(24);
    Power2Plus4(1); Power2Plus4(5); Power2Plus4(9); Power2Plus4(13);
    Power2Plus4(3); Power2Plus4(7); Power2Plus4(11); Power2Plus4(15); Power2Plus4(19); Power2Plus4(23);
    Power2Plus4(27); Power2Plus4(31); Power2Plus4(35); Power2Plus4(39); Power2Plus4(43);
  }

  lemma FourBits(a: nat)
    requires a % 16 == 0
    ensures BitOr(a, 3) == a + 3
  {
    assert Power2(4) == 16;
    OrSplits(4, a / 16, 0, 0, 3, a, 0, a);
  }

  lemma OrBelowOnes(n: nat, k: nat, high: nat, low: nat, tag: nat, x: nat)
    requires tag == (Power2(k) - 1) * Power2(n) && x == high * Power2(n) && high < Power2(k) && low < Power2(n)
    ensures BitOr(tag, x + low) == tag + low
  {
    OnesAbsorb(k, high);
    OrSplits(n, Power2(k) - 1, 0, high, low, tag, x, tag);
  }

  lemma ShiftByFour(a: nat)
    ensures ShiftLeft(a, 4) == 16 * a
  {
  }

  lemma ComposeValue(tag: nat, mask: nat, serial: nat, low: nat)
    requires BitOr(tag, 16 * BitAnd(serial, mask)) == tag + low && tag % 16 == 0 && low % 16 == 0
    ensures Compose(tag, mask, serial) == tag + low + 3
  {
    ShiftByFour(BitAnd(serial, mask));
    var body := BitOr(tag, 16 * BitAnd(serial, mask));
    assert body % 16 == 0;
    FourBits(body);
  }

  lemma WrapKeepsRemainder(a: nat, period: nat, turns: nat)
    requires period > 0 && turns > 0
    ensures a % (period * turns) % period == a % period
  {
    var word := period * turns;
    var q, r := a / word, a % word % period;
    assert a == word * q + a % word;
    assert word * q == (turns * q) * period;
    RemainderUnique(a, period, turns * q + a % word / period, r);
  }

  /** The upper bits of the shifted serial vanish in the ones of the tag. */
  lemma TagAbsorbs(high: nat, low: nat)
    requires high < 0x2_0000 && low < 0x8000_0000_0000
    ensures BitOr(0xFFFF_8000_0000_0000, 0x8000_0000_0000 * high + low) == 0xFFFF_8000_0000_0000 + low
  {
    Powers();
    OrBelowOnes(47, 17, high, low, 0xFFFF_8000_0000_0000, 0x8000_0000_0000 * high);
  }

  lemma TagIsAbove(low: nat)
    requires low < 0x1000_0000
    ensures BitOr(0xF000_0000, low) == 0xF000_0000 + low
  {
    Powers();
    OrBelowOnes(28, 4, 0, low, 0xF000_0000, 0);
  }

  lemma Kept(serial: nat)
    ensures BitAnd(serial, 0x7FFF_FFFF_FFFF) == serial % 0x8000_0000_0000
    ensures BitAnd(serial, 0x00FF_FFFF) == serial % 0x0100_0000
  {
    Powers();
    MaskIsRemainder(serial, 47, 0x7FFF_FFFF_FFFF);
    MaskIsRemainder(serial, 24, 0x00FF_FFFF);
  }

  lemma SplitKept(serial: nat, kept: nat)
    requires kept == serial % 0x8000_0000_0000
    ensures kept == SYNTHETIC_PERIOD * (kept / SYNTHETIC_PERIOD) + serial % SYNTHETIC_PERIOD
    ensures kept / SYNTHETIC_PERIOD < 16
  {
  }

  /** The bitwise expression with the x64 constants is the arithmetic form for every serial. */
  lemma ComposedIsSynthetic(serial: nat)
    ensures Compose(0xFFFF_8000_0000_0000, 0x7FFF_FFFF_FFFF, serial) == Synthetic(serial)
  {
    var kept, low: nat := BitAnd(serial, 0x7FFF_FFFF_FFFF), serial % SYNTHETIC_PERIOD;
    Kept(serial);
    SplitKept(serial, kept);
    TagAbsorbs(kept / SYNTHETIC_PERIOD, 16 * low);
    ComposeValue(0xFFFF_8000_0000_0000, 0x7FFF_FFFF_FFFF, serial, 16 * low);
  }

  lemma ComposedIsSynthetic32(serial: nat)
    ensures Compose(0xF000_0000, 0x00FF_FFFF, serial) == Synthetic32(serial)
  {
    var low: nat := serial % SYNTHETIC_PERIOD_32;
    Kept(serial);
    TagIsAbove(16 * low);
    ComposeValue(0xF000_0000, 0x00FF_FFFF, serial, 16 * low);
  }

  lemma EqualRemainders(a: nat, d: nat, period: nat)
    requires period > 0
    ensures (a + d) % period == a % period <==> d % period == 0
  {
    var q := (a + d) / period - a / period - d / period;
    assert q * period == a % period + d % period - (a + d) % period;
    if (a + d) % period == a % period {
      SmallMultiple(q, period);
    } else if d % period == 0 {
      SmallMultiple(q, period);
    }
  }

  /** `distance` creations later, with the counter wrapping at the word size, the handle is the same
      exactly when the distance is a multiple of 2^43. */
  lemma SyntheticRepeatsIff(serial: nat, distance: nat)
    ensures Synthetic(serial) == Synthetic((serial + distance) % WORD) <==> distance % SYNTHETIC_PERIOD == 0
  {
    WrapKeepsRemainder(serial + distance, SYNTHETIC_PERIOD, 0x20_0000);
    EqualRemainders(serial, distance, SYNTHETIC_PERIOD);
  }

  lemma Synthetic32RepeatsIff(serial: nat, distance: nat)
    ensures Synthetic32(serial) == Synthetic32((serial + distance) % WORD_32) <==> distance % SYNTHETIC_PERIOD_32 == 0
  {
    WrapKeepsRemainder(serial + distance, SYNTHETIC_PERIOD_32, 0x100);
    EqualRemainders(serial, distance, SYNTHETIC_PERIOD_32);
  }

  lemma LowBitsSet(tag: nat, r: nat)
    requires tag % 16 == 3
    ensures (tag + 16 * r) % 4 == 3
  {
  }

  /** A synthetic handle is never null or INVALID_HANDLE_VALUE, fits a word, and is no OS handle:
      those are multiples of four. */
  lemma SyntheticIsUsable(serial: nat)
    ensures NULL_HANDLE < Synthetic(serial) < INVALID_HANDLE && Synthetic(serial) % 4 == 3
    ensures NULL_HANDLE < Synthetic32(serial) < 0xFFFF_FFFF && Synthetic32(serial) % 4 == 3
  {
    LowBitsSet(0xFFFF_8000_0000_0003, serial % SYNTHETIC_PERIOD);
    LowBitsSet(0xF000_0003, serial % SYNTHETIC_PERIOD_32);
  }
}

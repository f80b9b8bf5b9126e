/** timer_calibrate: two loops that search, bit by bit, for the number of busy-wait loops
    that fit in one timer tick. Assignment 4 has the search as intended; Assignment 3's
    version tests each bit against the top bit alone. */
module Calibrate {
  const UINT_SIZE := 0x1_0000_0000

  // ---------- Bits ----------

  predicate IsPow2(n: nat) {
    n == 1 || (n > 0 && n % 2 == 0 && IsPow2(n / 2))
  }

  lemma HalfOfPower(n: nat)
    requires IsPow2(n) && n > 1
    ensures n % 2 == 0 && IsPow2(n / 2)
  {}

  lemma TwicePower(n: nat)
    requires IsPow2(n)
    ensures n > 0 && IsPow2(2 * n)
  {}

  /** C's bitwise or. */
  function Or(a: nat, b: nat): nat
    decreases a + b
  {
    if a + b == 0 then 0
    else 2 * Or(a / 2, b / 2) + if a % 2 == 1 || b % 2 == 1 then 1 else 0
  }

  /** The largest power of two no greater than n. */
  function HighBit(n: nat): (p: nat)
    ensures n > 0 ==> 0 < p <= n
  {
    if n < 2 then 1 else 2 * HighBit(n / 2)
  }

  lemma {:induction false} HighBitIsLargest(n: nat)
    requires n > 0
    ensures IsPow2(HighBit(n)) && HighBit(n) <= n < 2 * HighBit(n)
  {
    if n >= 2 {
      HighBitIsLargest(n / 2);
    }
  }

  lemma {:induction false} PowersDouble(a: nat, b: nat)
    requires IsPow2(a) && IsPow2(b) && a < b
    ensures b % 2 == 0 && 2 * a <= b
  {
    if a > 1 {
      PowersDouble(a / 2, b / 2);
    }
  }

  lemma HighBitUnique(n: nat, p: nat)
    requires IsPow2(p) && p <= n < 2 * p
    ensures HighBit(n) == p
  {
    HighBitIsLargest(n);
    if HighBit(n) < p {
      PowersDouble(HighBit(n), p);
    } else if p < HighBit(n) {
      PowersDouble(p, HighBit(n));
    }
  }

  lemma {:induction false} OrZero(a: nat)
    ensures Or(a, 0) == a
  {
    if a > 0 {
      OrZero(a / 2);
    }
  }

  /** The bits of a up to and including bit are all 0. */
  predicate Clear(a: nat, bit: nat)
    requires bit > 0
  {
    a % 2 == 0 && (bit == 1 || Clear(a / 2, bit / 2))
  }

  /** Setting a bit below all set bits adds it, and leaves the lower bits clear. */
  lemma {:induction false} OrNewBit(a: nat, bit: nat)
    requires IsPow2(bit) && Clear(a, bit)
    ensures Or(a, bit) == a + bit
    ensures bit > 1 ==> Clear(a, bit / 2) && Clear(a + bit, bit / 2)
  {
    if bit == 1 {
      OrZero(a / 2);
    } else {
      OrNewBit(a / 2, bit / 2);
    }
  }

  lemma {:induction false} PowerIsClear(p: nat, bit: nat)
    requires IsPow2(p) && IsPow2(bit) && bit < p
    ensures Clear(p, bit)
  {
    if bit > 1 {
      PowerIsClear(p / 2, bit / 2);
    }
  }

  // ---------- The search ----------

  /** too_many_loops on this machine: more than limit loops last longer than a tick. */
  predicate TooManyLoops(loops: nat, limit: nat) {
    loops > limit
  }

  /** The first loop: the largest power of two within the limit, but at least 1024. It
      fails its assertion if doubling carries the 32-bit counter to 0. */
  method FindHighBit(limit: nat) returns (ok: bool, loops: nat)
    ensures ok <==> limit < 0x8000_0000
    ensures ok ==> IsPow2(loops) && 1024 <= loops < UINT_SIZE && limit < 2 * loops
    ensures ok ==> loops == if limit < 1024 then 1024 else HighBit(limit)
  {
    loops := 1024;
    PowerOf1024();
    hide IsPow2, HighBit, Doubled;
    while !TooManyLoops(Doubled(loops), limit)
      invariant IsPow2(loops) && 1024 <= loops <= 0x8000_0000 && (loops == 1024 || loops <= limit)
      decreases UINT_SIZE - loops
    {
      PowerStep(loops);
      loops := Doubled(loops);
      if loops == 0 {
        return false, loops;
      }
    }
    PowerStep(loops);
    ok := true;
    if limit >= 1024 {
      HighBitUnique(limit, loops);
    }
  }

  /** loops << 1 on 32 bits. */
  function Doubled(loops: nat): nat {
    loops * 2 % UINT_SIZE
  }

  lemma Times32(n: nat)
    requires IsPow2(n)
    ensures IsPow2(32 * n)
  {
    hide IsPow2;
    TwicePower(n);
    TwicePower(2 * n);
    TwicePower(4 * n);
    TwicePower(8 * n);
    TwicePower(16 * n);
  }

  lemma TopBit()
    ensures IsPow2(0x8000_0000)
  {
    Times32(0x2);
    Times32(0x40);
    Times32(0x800);
    Times32(0x1_0000);
    Times32(0x20_0000);
    Times32(0x400_0000);
  }

  lemma PowerOf1024()
    ensures IsPow2(1024)
  {}

  /** Doubling a 32-bit power of two either carries out to 0 or stays exact. */
  lemma PowerStep(p: nat)
    requires IsPow2(p) && p <= 0x8000_0000
    ensures IsPow2(2 * p) && (p == 0x8000_0000 || 2 * p <= 0x8000_0000)
    ensures Doubled(p) == if p == 0x8000_0000 then 0 else 2 * p
  {
    if p < 0x8000_0000 {
      TopBit();
      PowersDouble(p, 0x8000_0000);
    }
  }

  /** Assignment 4: each of the next nine bits is kept if the loops with it still fit. */
  method TimerCalibrate(limit: nat) returns (ok: bool, loops: nat)
    ensures ok <==> limit < 0x8000_0000
    ensures ok && limit >= 1024 ==> loops <= limit < loops + HighBit(limit) / 512
    ensures ok && limit < 1024 ==> loops == 1024
  {
    ok, loops := FindHighBit(limit);
    if !ok {
      return;
    }
    var highBit := loops;
    var testBit := highBit / 2;
    LastBit(highBit);
    PowerIsClear(highBit, testBit);
    HighBitIsLargest(if limit > 0 then limit else 1);
    while testBit != highBit / 1024
      invariant IsPow2(testBit) && highBit / 1024 <= testBit
      invariant Clear(loops, testBit)
      invariant if limit < 1024 then loops == 1024 else loops <= limit < loops + 2 * testBit
      decreases testBit
    {
      PowersDouble(highBit / 1024, testBit);
      OrNewBit(loops, testBit);
      if !TooManyLoops(Or(loops, testBit), limit) {
        loops := Or(loops, testBit);
      }
      testBit := testBit / 2;
    }
  }

  lemma Halves(p: nat)
    requires IsPow2(p) && p >= 32
    ensures IsPow2(p / 16) && IsPow2(p / 32) && p % 32 == 0
  {
    hide IsPow2;
    HalfOfPower(p);
    HalfOfPower(p / 2);
    HalfOfPower(p / 2 / 2);
    HalfOfPower(p / 2 / 2 / 2);
    HalfOfPower(p / 2 / 2 / 2 / 2);
    assert p / 2 / 2 / 2 / 2 == p / 16 && p / 16 / 2 == p / 32;
  }

  lemma LastBit(p: nat)
    requires IsPow2(p) && p >= 1024
    ensures IsPow2(p / 1024) && IsPow2(p / 512) && IsPow2(p / 2)
    ensures p / 1024 <= p / 2 < p && 2 * (p / 1024) == p / 512 && 2 * (p / 2) == p
  {
    Halves(p);
    Halves(p / 32);
    assert p / 32 / 32 == p / 1024 && p / 32 / 16 == p / 512;
  }

  // ---------- The search with each bit tested on its own ----------

  /** d >> k for u == 2^k. */
  function ShiftedBy(d: nat, u: nat): nat {
    if u <= 1 then d else ShiftedBy(d / 2, u / 2)
  }

  function NextNineBits(limit: nat): nat
    requires limit > 0
  {
    ShiftedBy(limit - HighBit(limit), HighBit(limit) / 512)
  }

  /** Assignment 3: a bit is kept if the top bit with this bit alone still fits. The result
      reaches beyond the limit unless the nine bits below the limit's top bit read, as a
      number, 2^k - 1; it never falls short by HighBit(limit) / 512 or more. */
  method TimerCalibrateSeparately(limit: nat) returns (ok: bool, loops: nat)
    ensures ok <==> limit < 0x8000_0000
    ensures ok && limit >= 1024 ==> limit < loops + HighBit(limit) / 512
    ensures ok && limit >= 1024 ==> (loops <= limit <==> IsPow2(NextNineBits(limit) + 1))
    ensures ok && limit < 1024 ==> loops == 1024
  {
    ok, loops := FindHighBit(limit);
    if !ok {
      return;
    }
    var highBit := loops;
    var testBit := highBit / 2;
    SeparateStart(highBit, limit);
    hide Clear, Or, IsPow2, HighBit, OnesFrom, Separate, NextNineBits;
    while testBit != highBit / 1024
      invariant Separate(highBit, limit, loops, testBit)
      decreases testBit
    {
      SeparateStep(highBit, limit, loops, testBit);
      if !TooManyLoops(Or(highBit, testBit), limit) {
        loops := Or(loops, testBit);
      }
      testBit := testBit / 2;
    }
    SeparateEnd(highBit, limit, loops);
  }

  /** The loop once the bits above testBit have been tested. */
  ghost predicate Separate(highBit: nat, limit: nat, loops: nat, testBit: nat) {
    && IsPow2(highBit) && highBit >= 1024 && (limit < 1024 ==> highBit == 1024)
    && (limit >= 1024 ==> highBit == HighBit(limit) && highBit <= limit)
    && 0 < testBit && IsPow2(testBit) && highBit / 1024 <= testBit < highBit
    && Clear(loops, testBit)
    && loops == highBit + OnesFrom(limit - highBit, 2 * testBit)
  }

  lemma SeparateStart(highBit: nat, limit: nat)
    requires IsPow2(highBit) && 1024 <= highBit && limit < 2 * highBit
    requires highBit == if limit < 1024 then 1024 else HighBit(limit)
    ensures Separate(highBit, limit, highBit, highBit / 2)
  {
    LastBit(highBit);
    PowerIsClear(highBit, highBit / 2);
  }

  lemma SeparateStep(highBit: nat, limit: nat, loops: nat, testBit: nat)
    requires Separate(highBit, limit, loops, testBit) && testBit != highBit / 1024
    ensures Or(highBit, testBit) == highBit + testBit && Or(loops, testBit) == loops + testBit
    ensures Separate(highBit, limit, if highBit + testBit <= limit then loops + testBit else loops, testBit / 2)
    ensures testBit > 0
  {
    LastBit(highBit);
    PowersDouble(highBit / 1024, testBit);
    PowerIsClear(highBit, testBit);
    OrNewBit(highBit, testBit);
    OrNewBit(loops, testBit);
    NextOne(limit - highBit, testBit);
    hide Or, Clear, OnesFrom, HighBit;
  }

  lemma SeparateEnd(highBit: nat, limit: nat, loops: nat)
    requires highBit >= 1024 && Separate(highBit, limit, loops, highBit / 1024)
    ensures limit >= 1024 ==> limit < loops + HighBit(limit) / 512
    ensures limit >= 1024 ==> (loops <= limit <==> IsPow2(NextNineBits(limit) + 1))
    ensures limit < 1024 ==> loops == 1024
  {
    LastBit(highBit);
    hide Clear, Or;
    if limit >= 1024 {
      AllOnes(limit - highBit, highBit / 512);
      hide OnesFrom, ShiftedBy, IsPow2, HighBit;
    }
  }

  /** The sum of the powers of two from last up to d's highest bit. */
  ghost function OnesFrom(d: int, last: nat): int {
    if d < last then 0 else 2 * HighBit(d) - last
  }

  lemma NextOne(d: int, bit: nat)
    requires IsPow2(bit)
    ensures OnesFrom(d, bit) == OnesFrom(d, 2 * bit) + if bit <= d then bit else 0
  {
    if bit <= d < 2 * bit {
      HighBitUnique(d, bit);
    }
  }

  lemma PowerOne()
    ensures IsPow2(1)
  {}

  lemma AllOnesBase(d: nat)
    ensures d < OnesFrom(d, 1) + 1
    ensures OnesFrom(d, 1) <= d <==> IsPow2(d + 1)
  {
    hide HighBit, IsPow2;
    if d == 0 {
      PowerOne();
    } else {
      HighBitIsLargest(d);
      TwicePower(HighBit(d));
      if IsPow2(d + 1) {
        PowersDouble(HighBit(d), d + 1);
      }
    }
  }

  lemma {:induction false} AllOnes(d: nat, u: nat)
    requires IsPow2(u)
    ensures d < OnesFrom(d, u) + u
    ensures OnesFrom(d, u) <= d <==> IsPow2(ShiftedBy(d, u) + 1)
  {
    if u == 1 {
      AllOnesBase(d);
    } else {
      AllOnes(d / 2, u / 2);
      hide IsPow2;
    }
  }

  /** One tick is worth 1280 loops, but the search reports more. */
  method SearchOvershoots() returns (ok: bool, loops: nat)
    ensures ok && loops > 1280
  {
    ok, loops := TimerCalibrateSeparately(1280);
    NineBitsOf1280();
    hide NextNineBits, IsPow2;
  }

  lemma NineBitsOf1280()
    ensures NextNineBits(1280) == 128 && !IsPow2(129)
  {
    assert HighBit(1280) == 1024 by {
      PowerOf1024();
      HighBitUnique(1280, 1024);
    }
    hide HighBit;
    assert ShiftedBy(256, 2) == 128;
  }
}

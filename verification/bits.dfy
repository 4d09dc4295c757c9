// Shifts of 128-bit integers. `Shl` drops what leaves the top, as `u128 << n` does; `Scale` is the
// unbounded shift it agrees with while nothing is lost.
module Bits {
  import opened Radix

  const TWO_128: nat := 0x1_0000_0000_0000_0000_0000_0000_0000_0000

  function Shr(v: nat, n: nat): nat {
    if n == 0 then v else Shr(v / 2, n - 1)
  }

  function Scale(v: nat, n: nat): nat {
    if n == 0 then v else 2 * Scale(v, n - 1)
  }

  function Shl(v: nat, n: nat): nat {
    if n == 0 then v else 2 * Shl(v, n - 1) % TWO_128
  }

  /** `v & ((1 << n) - 1)`. */
  function LowBits(v: nat, n: nat): nat {
    if n == 0 then 0 else 2 * LowBits(v / 2, n - 1) + v % 2
  }

  /** `v` followed by the low `n` bits of `r`. */
  function Append(v: nat, r: nat, n: nat): nat {
    if n == 0 then v else 2 * Append(v, r / 2, n - 1) + r % 2
  }

  lemma {:induction false} ShlExact(v: nat, n: nat)
    requires Scale(v, n) < TWO_128
    ensures Shl(v, n) == Scale(v, n)
  {
    if n > 0 { ShlExact(v, n - 1); }
  }

  lemma DoubleWraps(x: nat)
    requires x < TWO_128
    ensures 2 * x % TWO_128 == if 2 * x < TWO_128 then 2 * x else 2 * x - TWO_128
  {
  }

  lemma SameLowDigit(a: int, m: int)
    ensures (a - 32 * m) % 32 == a % 32
  {
  }

  lemma ShlTwice(v: nat)
    ensures Shl(v, 2) == 2 * (2 * v % TWO_128) % TWO_128
  {
    assert Shl(v, 1) == 2 * Shl(v, 0) % TWO_128;
  }

  /** What leaves the top does not disturb the low digit. */
  lemma ShlLowDigit(v: nat)
    requires v < TWO_128
    ensures Shl(v, 2) % 32 == 4 * v % 32
  {
    hide Shl;
    var step := 0x800_0000_0000_0000_0000_0000_0000_0000;
    assert TWO_128 == 32 * step;
    ShlTwice(v);
    DoubleWraps(v);
    var once := 2 * v % TWO_128;
    DoubleWraps(once);
    var lost := (if 2 * v < TWO_128 then 0 else 2 * step) + (if 2 * once < TWO_128 then 0 else step);
    assert Shl(v, 2) == 4 * v - 32 * lost;
    SameLowDigit(4 * v, lost);
  }

  lemma {:induction false} ShrShr(v: nat, m: nat, n: nat)
    ensures Shr(v, m + n) == Shr(Shr(v, m), n)
  {
    if m > 0 { ShrShr(v / 2, m - 1, n); }
  }

  lemma {:induction false} ScaleScale(v: nat, m: nat, n: nat)
    ensures Scale(v, m + n) == Scale(Scale(v, m), n)
  {
    if n > 0 { ScaleScale(v, m, n - 1); }
  }

  lemma {:induction false} ShrScale(v: nat, n: nat)
    ensures Shr(Scale(v, n), n) == v
  {
    if n > 0 { ShrScale(v, n - 1); }
  }

  lemma {:induction false} ScaleBounds(v: nat, m: nat, n: nat)
    ensures v < Scale(1, m) <==> Scale(v, n) < Scale(1, m + n)
  {
    if n > 0 { ScaleBounds(v, m, n - 1); }
  }

  lemma {:induction false} ShrBounds(v: nat, m: nat, n: nat)
    requires v < Scale(1, m + n)
    ensures Shr(v, n) < Scale(1, m)
  {
    if n > 0 { ShrBounds(v / 2, m, n - 1); }
  }

  lemma {:induction false} AppendIsShiftOr(v: nat, r: nat, n: nat)
    ensures Append(v, r, n) == Scale(v, n) + LowBits(r, n)
  {
    if n > 0 { AppendIsShiftOr(v, r / 2, n - 1); }
  }

  lemma {:induction false} AppendBounds(v: nat, r: nat, m: nat, n: nat)
    requires v < Scale(1, m)
    ensures Append(v, r, n) < Scale(1, m + n)
  {
    if n > 0 { AppendBounds(v, r / 2, m, n - 1); }
  }

  lemma {:induction false} ShrAppend(v: nat, r: nat, n: nat, k: nat)
    requires k <= n
    ensures Shr(Append(v, r, n), k) == Append(v, Shr(r, k), n - k)
  {
    if k > 0 { ShrAppend(v, r / 2, n - 1, k - 1); }
  }

  lemma {:induction false} LowBitsSmall(v: nat, n: nat)
    requires v < Scale(1, n)
    ensures LowBits(v, n) == v
  {
    if n > 0 { LowBitsSmall(v / 2, n - 1); }
  }

  lemma {:induction false} LowBitsAppend(v: nat, r: nat, n: nat)
    ensures LowBits(Append(v, r, n), n) == LowBits(r, n)
  {
    if n > 0 { LowBitsAppend(v, r / 2, n - 1); }
  }

  lemma {:induction false} DropIsShr(v: nat, k: nat)
    ensures Drop(32, v, k) == Shr(v, 5 * k)
  {
    if k > 0 {
      DropIsShr(v / 32, k - 1);
      ShrByFive(v);
      ShrShr(v, 5, 5 * (k - 1));
    }
  }

  lemma ShrByFive(v: nat)
    ensures Shr(v, 5) == v / 32
  {
    assert Shr(v, 5) == Shr(v / 2 / 2, 3) == Shr(v / 2 / 2 / 2 / 2, 1);
  }

  /** The small shifts, spelled out. */
  lemma SmallShifts(v: nat)
    ensures Scale(v, 0) == v && Scale(v, 2) == 4 * v && Scale(v, 3) == 8 * v && Scale(v, 5) == 32 * v
    ensures Shr(v, 0) == v && Shr(v, 2) == v / 4
  {
    assert Scale(v, 2) == 2 * Scale(v, 1);
    assert Scale(v, 5) == 4 * Scale(v, 3);
    assert Shr(v, 2) == Shr(v / 2, 1) == Shr(v / 2 / 2, 0);
  }

  lemma {:induction false} RaiseIsScale(v: nat, k: nat)
    ensures Raise(32, v, k) == Scale(v, 5 * k)
  {
    if k > 0 {
      RaiseIsScale(v, k - 1);
      var x := 5 * (k - 1);
      assert Scale(v, x + 5) == 4 * Scale(v, x + 3) == 16 * Scale(v, x + 1);
    }
  }

  lemma {:induction false} PowIsScale(k: nat)
    ensures Pow(32, k) == Scale(1, 5 * k)
  {
    if k > 0 {
      PowIsScale(k - 1);
      var x := 5 * (k - 1);
      assert Scale(1, x + 5) == 4 * Scale(1, x + 3) == 16 * Scale(1, x + 1);
    }
  }

  lemma ScaleBySixteen(v: nat, n: nat)
    ensures Scale(v, n + 16) == 65536 * Scale(v, n)
  {
    assert Scale(v, n + 16) == 4 * Scale(v, n + 14) == 16 * Scale(v, n + 12) == 64 * Scale(v, n + 10);
    assert Scale(v, n + 10) == 4 * Scale(v, n + 8) == 16 * Scale(v, n + 6) == 64 * Scale(v, n + 4);
    assert Scale(v, n + 4) == 4 * Scale(v, n + 2);
  }

  lemma PowByEight(n: nat)
    ensures Pow(16, n + 8) == 0x1_0000_0000 * Pow(16, n)
  {
    assert Pow(16, n + 8) == 0x100 * Pow(16, n + 6) == 0x1_0000 * Pow(16, n + 4);
    assert Pow(16, n + 4) == 0x100 * Pow(16, n + 2);
  }

  function Words(k: nat): nat { if k == 0 then 1 else 0x1_0000 * Words(k - 1) }

  lemma {:induction false} ScaleOfWords(k: nat)
    ensures Scale(1, 16 * k) == Words(k)
  {
    if k > 0 {
      ScaleOfWords(k - 1);
      ScaleBySixteen(1, 16 * (k - 1));
    }
  }

  lemma {:induction false} PowOfWords(k: nat)
    ensures Pow(16, 8 * k) == Words(2 * k)
  {
    if k > 0 {
      PowOfWords(k - 1);
      PowByEight(8 * (k - 1));
    }
  }

  lemma Powers(n: nat)
    ensures n == 128 ==> Scale(1, n) == TWO_128
    ensures n == 32 ==> Pow(16, n) == TWO_128
  {
    ScaleOfWords(8);
    PowOfWords(4);
    assert Words(8) == TWO_128;
  }
}

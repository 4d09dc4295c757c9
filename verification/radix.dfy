// Positional notation, most significant digit first. Path segments, public ids, ULIDs and UUIDs
// are fixed-width runs of digits; counters in names and cache keys are shortest numerals.
module Radix {

  /** The bases the program prints numbers in. */
  type Base = b: nat | b == 10 || b == 16 || b == 32 witness 10

  /** All digits of `v` but the last: `v >> 5` at base 32, `v >> 4` at base 16. */
  function High(b: Base, v: nat): nat {
    if b == 10 then v / 10 else if b == 16 then v / 16 else v / 32
  }

  /** The last digit of `v`: `v & 31` at base 32. */
  function Low(b: Base, v: nat): (d: nat)
    ensures d < b
  {
    if b == 10 then v % 10 else if b == 16 then v % 16 else v % 32
  }

  /** One more digit at the bottom: `(v << 5) | d` at base 32. */
  function Push(b: Base, v: nat, d: nat): nat {
    if b == 10 then 10 * v + d else if b == 16 then 16 * v + d else 32 * v + d
  }

  function Pow(b: Base, n: nat): nat {
    if n == 0 then 1 else Push(b, Pow(b, n - 1), 0)
  }

  predicate AreDigits(b: Base, ds: seq<nat>) {
    forall i :: 0 <= i < |ds| ==> ds[i] < b
  }

  /** What folding the digits in from the left computes. */
  function Value(b: Base, ds: seq<nat>): nat {
    if |ds| == 0 then 0 else Push(b, Value(b, ds[..|ds| - 1]), ds[|ds| - 1])
  }

  /** The low `w` digits of `v`. */
  function Digits(b: Base, v: nat, w: nat): (ds: seq<nat>)
    ensures |ds| == w && AreDigits(b, ds)
  {
    if w == 0 then [] else Digits(b, High(b, v), w - 1) + [Low(b, v)]
  }

  /** The shortest numeral of `v`, as integer formatting prints it. */
  function Numeral(b: Base, v: nat): (ds: seq<nat>)
    ensures |ds| > 0 && AreDigits(b, ds)
    decreases v
  {
    if v < b then [v] else Numeral(b, High(b, v)) + [Low(b, v)]
  }

  /** `v` with its last `k` digits removed. */
  function Drop(b: Base, v: nat, k: nat): nat {
    if k == 0 then v else Drop(b, High(b, v), k - 1)
  }

  /** `v` with `k` zero digits appended. */
  function Raise(b: Base, v: nat, k: nat): nat {
    if k == 0 then v else Push(b, Raise(b, v, k - 1), 0)
  }

  // ---- values and digits are inverse --------------------------------------------------------

  lemma {:induction false} ValueBound(b: Base, ds: seq<nat>)
    requires AreDigits(b, ds)
    ensures Value(b, ds) < Pow(b, |ds|)
  {
    if |ds| > 0 { ValueBound(b, ds[..|ds| - 1]); }
  }

  lemma {:induction false} DigitsOfValue(b: Base, ds: seq<nat>)
    requires AreDigits(b, ds)
    ensures Digits(b, Value(b, ds), |ds|) == ds
  {
    if |ds| > 0 {
      var init := ds[..|ds| - 1];
      DigitsOfValue(b, init);
      assert ds == init + [ds[|ds| - 1]];
    }
  }

  lemma {:induction false} ValueOfDigits(b: Base, v: nat, w: nat)
    requires v < Pow(b, w)
    ensures Value(b, Digits(b, v, w)) == v
  {
    if w > 0 {
      ValueOfDigits(b, High(b, v), w - 1);
      assert Digits(b, v, w)[..w - 1] == Digits(b, High(b, v), w - 1);
    }
  }

  lemma {:induction false} ValueOfNumeral(b: Base, v: nat)
    ensures Value(b, Numeral(b, v)) == v
  {
    var ds := Numeral(b, v);
    if v < b {
      assert ds[..0] == [];
    } else {
      ValueOfNumeral(b, High(b, v));
      assert ds[..|ds| - 1] == Numeral(b, High(b, v));
    }
  }

  lemma {:induction false} ValueOfZeros(b: Base, ds: seq<nat>, k: nat)
    ensures Value(b, ds + seq(k, _ => 0)) == Raise(b, Value(b, ds), k)
  {
    var zs := seq(k, _ => 0);
    if k == 0 {
      assert ds + zs == ds;
    } else {
      assert (ds + zs)[..|ds + zs| - 1] == ds + seq(k - 1, _ => 0);
      ValueOfZeros(b, ds, k - 1);
    }
  }

  /** Truncating the text drops digits of the number. */
  lemma {:induction false} DigitsPrefix(b: Base, v: nat, w: nat, k: nat)
    ensures Digits(b, v, w + k)[..w] == Digits(b, Drop(b, v, k), w)
  {
    if k == 0 {
      assert Digits(b, v, w)[..w] == Digits(b, v, w);
    } else {
      DigitsPrefix(b, High(b, v), w, k - 1);
      assert Digits(b, v, w + k)[..w] == Digits(b, High(b, v), w + k - 1)[..w];
    }
  }

  /** The digit at position `i`, as a shift and a mask read it. */
  lemma {:induction false} DigitAt(b: Base, v: nat, w: nat, i: nat)
    requires i < w
    ensures Digits(b, v, w)[i] == Low(b, Drop(b, v, w - 1 - i))
  {
    if i < w - 1 { DigitAt(b, High(b, v), w - 1, i); }
  }

  // ---- order --------------------------------------------------------------------------------

  /** Lexicographic order of sequences of numbers; a proper prefix comes first. */
  predicate Below(x: seq<nat>, y: seq<nat>) {
    |y| > 0 && (|x| == 0 || x[0] < y[0] || (x[0] == y[0] && Below(x[1..], y[1..])))
  }

  lemma {:induction false} BelowBySuffix(x: seq<nat>, y: seq<nat>, c: nat, d: nat)
    requires |x| == |y|
    ensures Below(x + [c], y + [d]) <==> Below(x, y) || (x == y && c < d)
  {
    if |x| == 0 {
      assert x + [c] == [c] && y + [d] == [d];
    } else {
      assert (x + [c])[1..] == x[1..] + [c] && (y + [d])[1..] == y[1..] + [d];
      BelowBySuffix(x[1..], y[1..], c, d);
      assert x == [x[0]] + x[1..] && y == [y[0]] + y[1..];
    }
  }

  /** At equal width, lexicographic order of digits is numeric order. */
  lemma {:induction false} BelowIsNumeric(b: Base, x: seq<nat>, y: seq<nat>)
    requires |x| == |y| && AreDigits(b, x) && AreDigits(b, y)
    ensures Below(x, y) <==> Value(b, x) < Value(b, y)
    ensures x == y <==> Value(b, x) == Value(b, y)
  {
    DigitsOfValue(b, x);
    DigitsOfValue(b, y);
    if |x| > 0 {
      var x', y' := x[..|x| - 1], y[..|y| - 1];
      assert x == x' + [x[|x| - 1]] && y == y' + [y[|y| - 1]];
      BelowBySuffix(x', y', x[|x| - 1], y[|y| - 1]);
      BelowIsNumeric(b, x', y');
    }
  }
}

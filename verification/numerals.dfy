// Integers as formatting prints them: shortest decimal or lower-case hexadecimal numerals.
module Numerals {
  import opened Radix

  function HexSymbol(d: nat): char
    requires d < 16
  {
    if d < 10 then '0' + d as char else 'a' + (d - 10) as char
  }

  /** A natural number printed in base 10 or 16. */
  function Print(b: Base, v: nat): (s: string)
    requires b <= 16
    ensures |s| == |Numeral(b, v)|
  {
    var ds := Numeral(b, v);
    seq(|ds|, i requires 0 <= i < |ds| => HexSymbol(ds[i]))
  }

  function PrintInt(v: int): string {
    if v < 0 then "-" + Print(10, -v) else Print(10, v)
  }

  lemma PrintCharacters(b: Base, v: nat)
    requires b <= 16
    ensures '/' !in Print(b, v) && '?' !in Print(b, v) && '-' !in Print(b, v)
  {
    var ds, s := Numeral(b, v), Print(b, v);
    forall i | 0 <= i < |s| ensures s[i] != '/' && s[i] != '?' && s[i] != '-' {
      assert s[i] == HexSymbol(ds[i]);
    }
  }

  lemma PrintIsInjective(b: Base, v: nat, w: nat)
    requires b <= 16 && Print(b, v) == Print(b, w)
    ensures v == w
  {
    hide Numeral;
    var x, y := Numeral(b, v), Numeral(b, w);
    forall i | 0 <= i < |x| ensures x[i] == y[i] {
      assert HexSymbol(x[i]) == Print(b, v)[i] == Print(b, w)[i] == HexSymbol(y[i]);
    }
    assert x == y;
    ValueOfNumeral(b, v);
    ValueOfNumeral(b, w);
  }

  lemma PrintIntIsInjective(v: int, w: int)
    ensures '/' !in PrintInt(v)
    ensures PrintInt(v) == PrintInt(w) ==> v == w
  {
    hide Print;
    var m, n: nat := if v < 0 then -v else v, if w < 0 then -w else w;
    PrintCharacters(10, m);
    PrintCharacters(10, n);
    if PrintInt(v) == PrintInt(w) {
      if v < 0 { assert '-' in PrintInt(v) by { assert PrintInt(v)[0] == '-'; } }
      if w < 0 { assert '-' in PrintInt(w) by { assert PrintInt(w)[0] == '-'; } }
      if v < 0 { assert PrintInt(v)[1..] == Print(10, m) && PrintInt(w)[1..] == Print(10, n); }
      PrintIsInjective(10, m, n);
    }
  }

  lemma {:induction false} NumeralLength(b: Base, v: nat, k: nat)
    requires k > 0 && v < Pow(b, k)
    ensures |Numeral(b, v)| <= k
  {
    if v >= b && k > 1 { NumeralLength(b, High(b, v), k - 1); }
  }
}

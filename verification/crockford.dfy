// Crockford base32 digits. Paths print them in upper case and public ids in lower case; both
// alphabets ascend in ASCII, which is what makes string order numeric order.
module Crockford {
  import opened Radix
  import opened Text

  const UPPER: string := "0123456789ABCDEFGHJKMNPQRSTVWXYZ"
  const LOWER: string := "0123456789abcdefghjkmnpqrstvwxyz"

  /** The alphabets in closed form: ten numerals, then the letters without i, l, o and u. */
  function Letter(first: char, d: nat): char
    requires 10 <= d < 32 && first in {'A', 'a'}
  {
    first + ((if d < 18 then d - 10 else if d < 20 then d - 9 else if d < 22 then d - 8
              else if d < 27 then d - 7 else d - 6) as char)
  }

  function Symbol(first: char, d: nat): char
    requires d < 32 && first in {'A', 'a'}
  {
    if d < 10 then '0' + d as char else Letter(first, d)
  }

  lemma AlphabetsInClosedForm()
    ensures |UPPER| == 32 && |LOWER| == 32
    ensures forall d: nat :: d < 32 ==> UPPER[d] == Symbol('A', d) && LOWER[d] == Symbol('a', d)
  {
  }

  /** The digit a letter of the alphabet starting at `first` stands for, if any. */
  function Index(first: char, c: char): int
    requires first in {'A', 'a'}
  {
    if '0' <= c <= '9' then (c - '0') as int
    else if !(first <= c <= first + 25 as char) then -1
    else
      var k := (c - first) as int;
      if k < 8 then k + 10 else if k == 8 then -1 else if k < 11 then k + 9
      else if k == 11 then -1 else if k < 14 then k + 8 else if k == 14 then -1
      else if k < 20 then k + 7 else if k == 20 then -1 else k + 6
  }

  /** Digits of either alphabet round trip through their letters, in both directions. */
  lemma IndexInvertsSymbol(first: char, d: nat, c: char)
    requires first in {'A', 'a'}
    ensures d < 32 ==> Index(first, Symbol(first, d)) == d
    ensures -1 <= Index(first, c) < 32
    ensures Index(first, c) >= 0 ==> Symbol(first, Index(first, c)) == c
  {
  }

  lemma SymbolAscends(first: char, d: nat, e: nat)
    requires first in {'A', 'a'} && d < 32 && e < 32
    ensures Symbol(first, d) < Symbol(first, e) <==> d < e
  {
  }

  /** A run of digits as text. */
  function Spell(first: char, ds: seq<nat>): (s: string)
    requires first in {'A', 'a'} && AreDigits(32, ds)
    ensures |s| == |ds|
    ensures forall i :: 0 <= i < |s| ==> s[i] == Symbol(first, ds[i])
  {
    seq(|ds|, i requires 0 <= i < |ds| => Symbol(first, ds[i]))
  }

  lemma {:induction false} SpellOrder(first: char, x: seq<nat>, y: seq<nat>)
    requires first in {'A', 'a'} && AreDigits(32, x) && AreDigits(32, y)
    ensures Less(Spell(first, x), Spell(first, y)) <==> Below(x, y)
    ensures Spell(first, x) == Spell(first, y) <==> x == y
  {
    var s, t := Spell(first, x), Spell(first, y);
    if s == t {
      forall i | 0 <= i < |x| ensures x[i] == y[i] {
        assert s[i] == t[i];
        IndexInvertsSymbol(first, x[i], s[i]);
        IndexInvertsSymbol(first, y[i], t[i]);
      }
    }
    if |x| > 0 && |y| > 0 {
      SymbolAscends(first, x[0], y[0]);
      SymbolAscends(first, y[0], x[0]);
      assert s[1..] == Spell(first, x[1..]) && t[1..] == Spell(first, y[1..]);
      SpellOrder(first, x[1..], y[1..]);
    }
  }
}

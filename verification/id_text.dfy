// Reading public ids from text and exchanging them with ULIDs and UUIDs (crates/core/src/id.rs).
module IdText {
  import opened Common
  import opened Text
  import opened Radix
  import opened Crockford
  import opened Bits
  import opened PublicId
  import opened Numerals

  datatype Decoded = Digit(d: nat) | Skip | Invalid

  /** Either case, the transcription rescues for I, L and O, and ignored grouping hyphens. */
  function Decode(c: char): (r: Decoded)
    ensures r.Digit? ==> r.d < 32
  {
    IndexInvertsSymbol('a', 0, c);
    IndexInvertsSymbol('A', 0, c);
    if c == '-' then Skip
    else if c in "iIlL" then Digit(1)
    else if c in "oO" then Digit(0)
    else if Index('a', c) >= 0 then Digit(Index('a', c))
    else if Index('A', c) >= 0 then Digit(Index('A', c))
    else Invalid
  }

  /** The characters that read as the digit `d`: its letter in either alphabet, O for 0, and I and L
      for 1. A hyphen is skipped, and nothing else is read. */
  lemma DecodesCharacters(c: char, d: nat)
    requires d < 32
    ensures Decode(c) == Digit(d) <==>
              c == LOWER[d] || c == UPPER[d] || (d == 0 && c in "oO") || (d == 1 && c in "iIlL")
    ensures Decode(c) == Skip <==> c == '-'
  {
    hide LOWER, UPPER;
    AlphabetsInClosedForm();
    IndexInvertsSymbol('a', d, c);
    IndexInvertsSymbol('A', d, c);
  }

  /** The digits read so far, or the first character that cannot be read, or one digit too many. */
  datatype Scan = Read(ds: seq<nat>) | Bad(c: char) | Overlong

  function ScanFrom(s: string, ds: seq<nat>, max: nat): (r: Scan)
    requires AreDigits(32, ds) && |ds| <= max
    ensures r.Read? ==> AreDigits(32, r.ds) && |ds| <= |r.ds| <= max
  {
    if |s| == 0 then Read(ds)
    else match Decode(s[0])
      case Skip => ScanFrom(s[1..], ds, max)
      case Invalid => Bad(s[0])
      case Digit(d) => if |ds| >= max then Overlong else ScanFrom(s[1..], ds + [d], max)
  }

  /** What parsing makes of a string: the first problem met, or the canonical id. */
  function Parsed(s: string): Result<Id, IdError> {
    match ScanFrom(s, [], MAX_CHARS)
    case Bad(c) => Err(BadCharacter(c))
    case Overlong => Err(WrongLength(MAX_CHARS + 1))
    case Read(ds) =>
      if |ds| < MIN_CHARS then Err(WrongLength(|ds|))
      else if |ds| == MAX_CHARS && ds[MAX_CHARS - 1] % 4 != 0 then Err(ReservedBitsSet)
      else Ok(IdOf(ds))
  }

  lemma ScanUnfolds(s: string, i: nat, ds: seq<nat>)
    requires AreDigits(32, ds) && |ds| <= MAX_CHARS && i <= |s|
    ensures ScanFrom(s[i..], ds, MAX_CHARS) ==
              if i == |s| then Read(ds)
              else match Decode(s[i])
                case Skip => ScanFrom(s[i + 1..], ds, MAX_CHARS)
                case Invalid => Bad(s[i])
                case Digit(d) => if |ds| >= MAX_CHARS then Overlong else ScanFrom(s[i + 1..], ds + [d], MAX_CHARS)
  {
    hide Decode;
    if i < |s| { assert s[i..][0] == s[i] && s[i..][1..] == s[i + 1..]; }
  }

  lemma SpellOneMore(ds: seq<nat>, d: nat)
    requires AreDigits(32, ds) && d < 32
    ensures Spell('a', ds + [d]) == Spell('a', ds) + [LOWER[d]]
  {
    AlphabetsInClosedForm();
  }

  method Parse(s: string) returns (r: Result<Id, IdError>)
    ensures r == Parsed(s)
  {
    hide Decode, Places, IsId, ScanFrom, LOWER, Spell;
    var out := "";
    ghost var ds: seq<nat> := [];
    var i := 0;
    assert s[0..] == s && Spell('a', ds) == out;
    AlphabetsInClosedForm();
    while i < |s|
      invariant 0 <= i <= |s| && AreDigits(32, ds) && |ds| <= MAX_CHARS && out == Spell('a', ds)
      invariant ScanFrom(s, [], MAX_CHARS) == ScanFrom(s[i..], ds, MAX_CHARS)
    {
      ScanUnfolds(s, i, ds);
      match Decode(s[i]) {
        case Skip =>
        case Invalid => return Err(BadCharacter(s[i]));
        case Digit(d) =>
          if |out| >= MAX_CHARS { return Err(WrongLength(|out| + 1)); }
          SpellOneMore(ds, d);
          out := out + [LOWER[d]];
          ds := ds + [d];
      }
      i := i + 1;
    }
    ScanUnfolds(s, i, ds);
    if |out| < MIN_CHARS { return Err(WrongLength(|out|)); }
    var reserved := ReservedBits(|out|);
    if reserved > 0 {
      var last := Index('a', out[|out| - 1]);
      IndexInvertsSymbol('a', ds[|out| - 1], 'a');
      if last % 4 != 0 { return Err(ReservedBitsSet); }
    }
    assert out == IdOf(ds);
    r := Ok(out);
  }

  // ---- spellings that read back -------------------------------------------------------------

  /** `s` spells the digits `ds`: hyphens aside, character by character. */
  predicate Spells(s: string, ds: seq<nat>) {
    if |s| == 0 then |ds| == 0
    else match Decode(s[0])
      case Skip => Spells(s[1..], ds)
      case Invalid => false
      case Digit(d) => |ds| > 0 && ds[0] == d && Spells(s[1..], ds[1..])
  }

  lemma {:induction false} ScanOfSpelling(s: string, done: seq<nat>, ds: seq<nat>, max: nat)
    requires AreDigits(32, done) && |done| + |ds| <= max && Spells(s, ds)
    ensures ScanFrom(s, done, max) == Read(done + ds)
  {
    if |s| == 0 {
      assert done + ds == done;
    } else {
      match Decode(s[0]) {
        case Skip => ScanOfSpelling(s[1..], done, ds, max);
        case Digit(d) =>
          assert done + ds == done + [d] + ds[1..];
          ScanOfSpelling(s[1..], done + [d], ds[1..], max);
      }
    }
  }

  /** Anything that spells an id's digits parses to that id. */
  lemma SpellingParses(s: string, x: Id)
    requires Spells(s, Places(x))
    ensures Parsed(s) == Ok(x)
  {
    ScanOfSpelling(s, [], Places(x), MAX_CHARS);
    assert [] + Places(x) == Places(x);
  }

  /** What the scan reads is spelled out by the string. */
  lemma {:induction false} ScanSpells(s: string, done: seq<nat>, max: nat)
    requires AreDigits(32, done) && |done| <= max
    ensures var r := ScanFrom(s, done, max);
            r.Read? ==> done <= r.ds && Spells(s, r.ds[|done|..]) && |r.ds| <= |done| + |s|
  {
    hide Decode;
    var r := ScanFrom(s, done, max);
    if |s| > 0 {
      match Decode(s[0]) {
        case Skip => ScanSpells(s[1..], done, max);
        case Digit(d) =>
          if |done| < max {
            ScanSpells(s[1..], done + [d], max);
            if r.Read? {
              assert r.ds[|done|] == (done + [d])[|done|] == d;
              assert r.ds[|done|..][1..] == r.ds[|done| + 1..];
            }
          }
        case Invalid =>
      }
    }
  }

  lemma {:induction false} SpellingLength(s: string, ds: seq<nat>)
    requires Spells(s, ds)
    ensures |ds| <= |s| && AreDigits(32, ds)
  {
    hide Decode;
    if |s| > 0 {
      match Decode(s[0]) {
        case Skip => SpellingLength(s[1..], ds);
        case Digit(d) =>
          SpellingLength(s[1..], ds[1..]);
          assert ds == [d] + ds[1..];
      }
    }
  }

  /** A string parses to an id exactly when it spells the id's digits: in either case, with grouping
      hyphens anywhere and the transcription confusions, and in no other way. */
  lemma ParsesExactlySpellings(s: string, x: Id)
    ensures Parsed(s) == Ok(x) <==> Spells(s, Places(x))
  {
    hide Decode, Spells, ScanFrom;
    if Spells(s, Places(x)) { SpellingParses(s, x); }
    ScanSpells(s, [], MAX_CHARS);
    var r := ScanFrom(s, [], MAX_CHARS);
    if Parsed(s) == Ok(x) {
      assert x == IdOf(r.ds) && r.ds[0..] == r.ds;
    }
  }

  function Upper(s: string): string {
    seq(|s|, i requires 0 <= i < |s| => if 'a' <= s[i] <= 'z' then s[i] - 32 as char else s[i])
  }

  /** A hyphen before every fourth character but the first, from the `i`-th character on. */
  function Grouped(s: string, i: nat): string
    requires i <= |s|
    decreases |s| - i
  {
    if i == |s| then ""
    else Hyphen(i) + [s[i]] + Grouped(s, i + 1)
  }

  function Hyphen(i: nat): string {
    if i > 0 && i % 4 == 0 then "-" else ""
  }

  method EncodeGrouped(x: Id) returns (out: string)
    ensures out == Grouped(x, 0)
    ensures GroupsFirst(out, x, |x|)
  {
    hide IsId, Grouped, GroupsFirst;
    out := "";
    assert "" + Grouped(x, 0) == Grouped(x, 0);
    var i := 0;
    while i < |x|
      invariant 0 <= i <= |x| && Grouped(x, 0) == out + Grouped(x, i)
    {
      GroupedUnfolds(x, i);
      GroupedStep(out, Hyphen(i), x[i], Grouped(x, i + 1));
      ghost var before := out;
      if i > 0 && i % 4 == 0 { out := out + "-"; }
      assert out == before + Hyphen(i);
      out := out + [x[i]];
      i := i + 1;
    }
    GroupedUnfolds(x, |x|);
    assert out + "" == out;
    GroupedShape(x);
  }

  /** The first `n` characters of `s` in groups of four, a hyphen between one group and the next. */
  predicate GroupsFirst(out: string, s: string, n: nat)
    requires n <= |s|
  {
    && |out| == (if n == 0 then 0 else n + (n - 1) / 4)
    && (forall j :: 0 <= j < n ==> out[j + j / 4] == s[j])
    && forall k :: 0 < k < n && 4 * k < n ==> out[5 * k - 1] == '-'
  }

  lemma {:induction false} GroupedHead(s: string, n: nat) returns (head: string)
    requires n <= |s|
    ensures Grouped(s, 0) == head + Grouped(s, n) && GroupsFirst(head, s, n)
  {
    hide GroupsFirst, Grouped, Hyphen;
    if n == 0 {
      NothingInGroups(s);
      head := "";
      assert "" + Grouped(s, 0) == Grouped(s, 0);
    } else {
      var before := GroupedHead(s, n - 1);
      head := OneMoreGrouped(before, s, n);
    }
  }

  lemma NothingInGroups(s: string)
    ensures GroupsFirst("", s, 0)
  {
  }

  lemma OneMoreGrouped(before: string, s: string, n: nat) returns (head: string)
    requires 0 < n <= |s| && Grouped(s, 0) == before + Grouped(s, n - 1) && GroupsFirst(before, s, n - 1)
    ensures Grouped(s, 0) == head + Grouped(s, n) && GroupsFirst(head, s, n)
  {
    hide Grouped, GroupsFirst, Hyphen;
    head := before + Hyphen(n - 1) + [s[n - 1]];
    GroupedUnfolds(s, n - 1);
    GroupedStep(before, Hyphen(n - 1), s[n - 1], Grouped(s, n));
    OneMoreInGroups(before, head, s, n);
  }

  lemma OneMoreInGroups(before: string, head: string, s: string, n: nat)
    requires 0 < n <= |s| && GroupsFirst(before, s, n - 1) && head == before + Hyphen(n - 1) + [s[n - 1]]
    ensures GroupsFirst(head, s, n)
  {
    assert before <= head;
    forall j | 0 <= j < n ensures j + j / 4 < |head| && head[j + j / 4] == s[j] {
      if j < n - 1 { assert before[j + j / 4] == s[j]; }
    }
    forall k | 0 < k && 4 * k < n ensures head[5 * k - 1] == '-' {
      if 4 * k < n - 1 { assert before[5 * k - 1] == '-'; }
    }
  }

  /** All of a string in groups of four. */
  lemma GroupedShape(s: string)
    ensures GroupsFirst(Grouped(s, 0), s, |s|)
  {
    hide GroupsFirst;
    var head := GroupedHead(s, |s|);
    assert head + "" == head;
  }

  lemma GroupedUnfolds(s: string, i: nat)
    requires i <= |s|
    ensures Grouped(s, i) == if i == |s| then "" else Hyphen(i) + [s[i]] + Grouped(s, i + 1)
  {
  }

  lemma GroupedStep(out: string, hyphen: string, c: char, rest: string)
    ensures out + (hyphen + [c] + rest) == out + hyphen + [c] + rest
  {
  }

  lemma DecodeLetter(d: nat)
    requires d < 32
    ensures Decode(Symbol('a', d)) == Digit(d)
    ensures Decode(Symbol('A', d)) == Digit(d)
    ensures Symbol('A', d) == if d < 10 then Symbol('a', d) else Symbol('a', d) - 32 as char
  {
  }

  lemma {:induction false} LettersSpell(first: char, ds: seq<nat>)
    requires first in {'A', 'a'} && AreDigits(32, ds)
    ensures Spells(Spell(first, ds), ds)
  {
    if |ds| > 0 {
      DecodeLetter(ds[0]);
      LettersSpell(first, ds[1..]);
      assert Spell(first, ds)[1..] == Spell(first, ds[1..]);
    }
  }

  lemma SpellsAfterHyphen(rest: string, ds: seq<nat>)
    requires Spells(rest, ds)
    ensures Spells("-" + rest, ds)
  {
    assert ("-" + rest)[1..] == rest;
  }

  lemma SpellsAfterLetter(d: nat, rest: string, ds: seq<nat>)
    requires d < 32 && Spells(rest, ds)
    ensures Spells([Symbol('a', d)] + rest, [d] + ds)
  {
    DecodeLetter(d);
    assert ([Symbol('a', d)] + rest)[1..] == rest && ([d] + ds)[1..] == ds;
  }

  lemma {:induction false} GroupedSpells(s: string, ds: seq<nat>, i: nat)
    requires i <= |s| == |ds| && AreDigits(32, ds) && s == Spell('a', ds)
    ensures Spells(Grouped(s, i), ds[i..])
    decreases |s| - i
  {
    GroupedUnfolds(s, i);
    assert Spells("", []);
    hide Grouped, Spells, Decode, Hyphen;
    if i < |s| {
      GroupedSpells(s, ds, i + 1);
      SpellsAfterLetter(ds[i], Grouped(s, i + 1), ds[i + 1..]);
      assert ds[i..] == [ds[i]] + ds[i + 1..];
      MaybeHyphen(i, s[i], Grouped(s, i + 1), ds[i..]);
    } else {
      assert ds[i..] == [];
    }
  }

  lemma MaybeHyphen(i: nat, c: char, rest: string, ds: seq<nat>)
    requires Spells([c] + rest, ds)
    ensures Spells(Hyphen(i) + [c] + rest, ds)
  {
    hide Decode, Spells;
    assert Hyphen(i) + [c] + rest == Hyphen(i) + ([c] + rest);
    if i > 0 && i % 4 == 0 {
      SpellsAfterHyphen([c] + rest, ds);
    } else {
      assert "" + ([c] + rest) == [c] + rest;
    }
  }

  lemma UpperIsUpperAlphabet(ds: seq<nat>)
    requires AreDigits(32, ds)
    ensures Upper(Spell('a', ds)) == Spell('A', ds)
  {
    forall i | 0 <= i < |ds| ensures Upper(Spell('a', ds))[i] == Spell('A', ds)[i] { DecodeLetter(ds[i]); }
  }

  /** The canonical text, its upper case and its grouped form all parse to the id itself. */
  lemma TextRoundTrip(x: Id)
    ensures Parsed(x) == Ok(x)
    ensures Parsed(Upper(x)) == Ok(x)
    ensures Parsed(Grouped(x, 0)) == Ok(x)
  {
    var ds := Places(x);
    LettersSpell('a', ds);
    SpellingParses(x, x);
    LettersSpell('A', ds);
    UpperIsUpperAlphabet(ds);
    SpellingParses(Upper(x), x);
    GroupedSpells(x, ds, 0);
    assert ds[0..] == ds;
    SpellingParses(Grouped(x, 0), x);
  }

  // ---- ULIDs --------------------------------------------------------------------------------

  /** The payload aligned to the top of 128 bits, zero-extending narrower ids. */
  function Aligned(x: Id): (p: nat)
    ensures p < TWO_128
  {
    AlignedIsScale(x);
    Shl(ToU128(x), MAX_PAYLOAD_BITS - PayloadBits(|x|))
  }

  lemma AlignedIsScale(x: Id)
    ensures var k := MAX_PAYLOAD_BITS - PayloadBits(|x|);
            Shl(ToU128(x), k) == Scale(ToU128(x), k) < TWO_128
    ensures 4 * Scale(ToU128(x), MAX_PAYLOAD_BITS - PayloadBits(|x|)) == Raise(32, Number(x), MAX_CHARS - |x|)
  {
    hide Scale, Shl, Raise, ToU128, Places, Spell;
    var payload, w := ToU128(x), |x|;
    var k := 128 - PayloadBits(w);
    Powers(128);
    ScaleBounds(payload, PayloadBits(w), k);
    ShlExact(payload, k);
    RaiseIsScale(Number(x), 26 - w);
    AlignedTwice(payload, ReservedBits(w), 5 * (26 - w), k);
  }

  lemma AlignedTwice(payload: nat, a: nat, b: nat, k: nat)
    requires a + b == k + 2
    ensures 4 * Scale(payload, k) == Scale(Scale(payload, a), b)
  {
    hide Scale;
    ScaleScale(payload, a, b);
    ScaleScale(payload, k, 2);
    SmallShifts(Scale(payload, k));
  }

  method ToUlid(x: Id) returns (out: string)
    ensures out == Spell('A', Digits(32, Aligned(x), MAX_CHARS))
  {
    hide Scale, Shl, Shr, Drop, Digits, Aligned, ToU128, IsId;
    var p := Aligned(x);
    ghost var ds := Digits(32, p, MAX_CHARS);
    AlphabetsInClosedForm();
    out := "";
    var c := 0;
    while c < MAX_CHARS
      invariant 0 <= c <= MAX_CHARS && |out| == c
      invariant forall i :: 0 <= i < c ==> out[i] == Symbol('A', ds[i])
    {
      DigitAt(32, p, MAX_CHARS, c);
      DropIsShr(p, MAX_CHARS - 1 - c);
      var digit := Shr(p, 5 * (MAX_CHARS - 1 - c)) % 32;
      out := out + [UPPER[digit]];
      c := c + 1;
    }
    assert out == Spell('A', ds);
  }

  /** Twenty-six digits of any spelling whose number fits in 128 bits. */
  function UlidImported(s: string): Result<Id, IdError> {
    match ScanFrom(s, [], |s|)
    case Bad(c) => Err(BadCharacter(c))
    case Overlong => Err(WrongLength(|s|))
    case Read(ds) =>
      if |ds| != MAX_CHARS then Err(WrongLength(|ds|))
      else if ds[0] >= 8 then Err(ValueTooWide(ds[0]))
      else Ok(FromPayload(Value(32, ds), MAX_CHARS))
  }

  method FromUlid(s: string) returns (r: Result<Id, IdError>)
    ensures r == UlidImported(s)
  {
    var digits: seq<nat> := [];
    var i := 0;
    while i < |s|
      invariant 0 <= i <= |s| && AreDigits(32, digits) && |digits| <= i
      invariant ScanFrom(s, [], |s|) == ScanFrom(s[i..], digits, |s|)
    {
      assert s[i..][0] == s[i] && s[i..][1..] == s[i + 1..];
      match Decode(s[i]) {
        case Skip =>
        case Invalid => return Err(BadCharacter(s[i]));
        case Digit(d) => digits := digits + [d];
      }
      i := i + 1;
    }
    if |digits| != MAX_CHARS { return Err(WrongLength(|digits|)); }
    if digits[0] >= 8 { return Err(ValueTooWide(digits[0])); }
    r := Ok(FromPayload(Value(32, digits), MAX_CHARS));
  }

  /** The strings imported as ULIDs are those that spell 26 digits, the first below 8. */
  lemma UlidsAreSpellings(s: string, x: Id)
    ensures UlidImported(s) == Ok(x) <==>
              exists ds: seq<nat> :: |ds| == MAX_CHARS && Spells(s, ds) && ds[0] < 8 && x == FromPayload(Value(32, ds), MAX_CHARS)
  {
    hide Decode, Spells, ScanFrom, Value, FromPayload;
    ScanSpells(s, [], |s|);
    var r := ScanFrom(s, [], |s|);
    if r.Read? { assert r.ds[0..] == r.ds; }
    forall ds: seq<nat> | |ds| == MAX_CHARS && Spells(s, ds) ensures r == Read(ds) {
      SpellingLength(s, ds);
      ScanOfSpelling(s, [], ds, |s|);
      assert [] + ds == ds;
    }
    if UlidImported(s) == Ok(x) {
      assert |r.ds| == MAX_CHARS && Spells(s, r.ds) && r.ds[0] < 8 && x == FromPayload(Value(32, r.ds), MAX_CHARS);
    }
  }

  lemma UlidDigits(p: nat)
    requires p < TWO_128
    ensures var ds := Digits(32, p, MAX_CHARS);
            Value(32, ds) == p && ds[0] < 8
  {
    hide Scale, Drop, Shr, Pow, Digits;
    Powers(128);
    PowIsScale(26);
    ScaleMonotone(1, 128, 130);
    ValueOfDigits(32, p, 26);
    DigitAt(32, p, 26, 0);
    DropIsShr(p, 25);
    ShrBounds(p, 3, 125);
    SmallShifts(1);
  }

  /** A ULID reads back as a 26-character id that has the original as a prefix: for an id that is
      already 26 characters wide, the same id. */
  lemma UlidRoundTrip(x: Id)
    ensures var r := UlidImported(Spell('A', Digits(32, Aligned(x), MAX_CHARS)));
            && r.Ok? && |r.value| == MAX_CHARS && x <= r.value
            && (|x| == MAX_CHARS ==> r.value == x)
  {
    hide Scale, Shl, Raise, Digits, ToU128;
    var p := Aligned(x);
    var ds := Digits(32, p, MAX_CHARS);
    UlidDigits(p);
    LettersSpell('A', ds);
    ScanOfSpelling(Spell('A', ds), [], ds, MAX_CHARS);
    assert [] + ds == ds;
    WidenedHasPrefix(x);
  }

  lemma WidenedHasPrefix(x: Id)
    ensures x <= FromPayload(Aligned(x), MAX_CHARS)
    ensures |x| == MAX_CHARS ==> FromPayload(Aligned(x), MAX_CHARS) == x
  {
    hide Scale, Shl, Raise, Digits, ToU128, Aligned, Value;
    var wide, k := FromPayload(Aligned(x), MAX_CHARS), MAX_CHARS - |x|;
    AlignedIsScale(x);
    SmallShifts(Aligned(x));
    assert Aligned(x) == Shl(ToU128(x), 128 - PayloadBits(|x|)) by { AlignedIs(x); }
    DigitsPrefix(32, Raise(32, Number(x), k), |x|, k);
    DropOfRaise(Number(x), k);
    DigitsOfValue(32, Places(x));
    PrefixOfPlaces(wide, x);
  }

  lemma AlignedIs(x: Id)
    ensures Aligned(x) == Shl(ToU128(x), MAX_PAYLOAD_BITS - PayloadBits(|x|))
  {
  }

  lemma {:induction false} DropOfRaise(v: nat, k: nat)
    ensures Drop(32, Raise(32, v, k), k) == v
  {
    if k > 0 { DropOfRaise(v, k - 1); }
  }

  // ---- UUIDs --------------------------------------------------------------------------------

  function HexValue(c: char): int {
    if '0' <= c <= '9' then (c - '0') as int
    else if 'a' <= c <= 'f' then (c - 'a') as int + 10
    else if 'A' <= c <= 'F' then (c - 'A') as int + 10
    else -1
  }

  function Hex(ds: seq<nat>): (s: string)
    requires AreDigits(16, ds)
    ensures |s| == |ds|
  {
    seq(|ds|, i requires 0 <= i < |ds| => HexSymbol(ds[i]))
  }

  /** Thirty-two hexadecimal digits in groups of 8, 4, 4, 4 and 12. */
  function ToUuid(x: Id): string {
    var h := Hex(Digits(16, Aligned(x), 32));
    h[0..8] + "-" + h[8..12] + "-" + h[12..16] + "-" + h[16..20] + "-" + h[20..32]
  }

  /** Hyphens stand after the 8th, 12th, 16th and 20th digit, and the digits are those of the payload
      aligned to 128 bits, the highest first. */
  lemma UuidShape(x: Id)
    ensures var u, ds := ToUuid(x), Digits(16, Aligned(x), 32);
            && |u| == 36 && u[8] == u[13] == u[18] == u[23] == '-'
            && Aligned(x) == Value(16, ds) && |ds| == 32
            && forall k :: 0 <= k < 32 ==>
                 u[if k < 8 then k else if k < 12 then k + 1 else if k < 16 then k + 2 else if k < 20 then k + 3 else k + 4]
                   == "0123456789abcdef"[ds[k]]
  {
    hide Aligned, Digits, Pow, HexSymbol, Value;
    Powers(32);
    ValueOfDigits(16, Aligned(x), 32);
    var u, ds := ToUuid(x), Digits(16, Aligned(x), 32);
    var h := Hex(ds);
    assert u == h[0..8] + "-" + h[8..12] + "-" + h[12..16] + "-" + h[16..20] + "-" + h[20..32];
    forall k | 0 <= k < 32 ensures h[k] == "0123456789abcdef"[ds[k]] { HexLetter(ds[k]); }
  }

  lemma HexLetter(d: nat)
    requires d < 16
    ensures HexSymbol(d) == "0123456789abcdef"[d]
  {
  }

  /** Every character that reads as a hexadecimal digit, by its value. */
  const READ_AS_HEX: seq<string> := [
    "0", "1", "2", "3", "4", "5", "6", "7", "8", "9", "aA", "bB", "cC", "dD", "eE", "fF"]

  lemma HexReadsCharacters(c: char, d: nat)
    requires d < 16
    ensures HexValue(c) == d <==> c in READ_AS_HEX[d]
  {
  }

  /** Hyphens anywhere are ignored; the 33rd digit is one too many. */
  function ScanHex(s: string, ds: seq<nat>): (r: Scan)
    requires AreDigits(16, ds) && |ds| <= 32
    ensures r.Read? ==> AreDigits(16, r.ds) && |r.ds| <= 32
  {
    if |s| == 0 then Read(ds)
    else if s[0] == '-' then ScanHex(s[1..], ds)
    else if HexValue(s[0]) < 0 then Bad(s[0])
    else if |ds| == 32 then Overlong
    else ScanHex(s[1..], ds + [HexValue(s[0])])
  }

  function UuidImported(s: string): Result<Id, IdError> {
    match ScanHex(s, [])
    case Bad(c) => Err(BadCharacter(c))
    case Overlong => Err(WrongLength(33))
    case Read(ds) =>
      if |ds| != 32 then Err(WrongLength(|ds|)) else Ok(FromPayload(Value(16, ds), MAX_CHARS))
  }

  method FromUuid(s: string) returns (r: Result<Id, IdError>)
    ensures r == UuidImported(s)
  {
    var payload, n, i := 0, 0, 0;
    ghost var ds: seq<nat> := [];
    while i < |s|
      invariant 0 <= i <= |s| && AreDigits(16, ds) && n == |ds| <= 32 && payload == Value(16, ds)
      invariant ScanHex(s, []) == ScanHex(s[i..], ds)
    {
      assert s[i..][0] == s[i] && s[i..][1..] == s[i + 1..];
      if s[i] != '-' {
        var d := HexValue(s[i]);
        if d < 0 { return Err(BadCharacter(s[i])); }
        n := n + 1;
        if n > 32 { return Err(WrongLength(n)); }
        assert (ds + [d])[..|ds|] == ds;
        payload := 16 * payload + d;
        ds := ds + [d];
      }
      i := i + 1;
    }
    if n != 32 { return Err(WrongLength(n)); }
    r := Ok(FromPayload(payload, MAX_CHARS));
  }

  /** `s` spells hexadecimal digits: hyphens aside, character by character, in either case. */
  predicate SpellsHex(s: string, ds: seq<nat>) {
    if |s| == 0 then |ds| == 0
    else if s[0] == '-' then SpellsHex(s[1..], ds)
    else |ds| > 0 && HexValue(s[0]) == ds[0] && SpellsHex(s[1..], ds[1..])
  }

  lemma {:induction false} HexScanSpells(s: string, done: seq<nat>)
    requires AreDigits(16, done) && |done| <= 32
    ensures var r := ScanHex(s, done);
            r.Read? ==> done <= r.ds && SpellsHex(s, r.ds[|done|..])
  {
    hide HexValue;
    var r := ScanHex(s, done);
    if |s| > 0 && s[0] == '-' {
      HexScanSpells(s[1..], done);
    } else if |s| > 0 && HexValue(s[0]) >= 0 && |done| < 32 {
      HexDigit(s[0]);
      var d: nat := HexValue(s[0]);
      HexScanSpells(s[1..], done + [d]);
      if r.Read? {
        assert r.ds[|done|] == (done + [d])[|done|] == d;
        assert r.ds[|done|..][1..] == r.ds[|done| + 1..];
      }
    }
  }

  lemma HexDigit(c: char)
    ensures HexValue(c) < 16
  {
  }

  lemma {:induction false} HexScanOfSpelling(s: string, done: seq<nat>, ds: seq<nat>)
    requires AreDigits(16, done) && |done| + |ds| <= 32 && SpellsHex(s, ds)
    ensures AreDigits(16, ds) && ScanHex(s, done) == Read(done + ds)
  {
    hide HexValue;
    if |s| == 0 {
      assert done + ds == done;
    } else if s[0] == '-' {
      HexScanOfSpelling(s[1..], done, ds);
    } else {
      HexDigit(s[0]);
      HexScanOfSpelling(s[1..], done + [ds[0]], ds[1..]);
      assert done + ds == done + [ds[0]] + ds[1..] && ds == [ds[0]] + ds[1..];
    }
  }

  /** The strings imported as UUIDs are those that spell 32 hexadecimal digits. */
  lemma UuidsAreSpellings(s: string, x: Id)
    ensures UuidImported(s) == Ok(x) <==>
              exists ds: seq<nat> :: |ds| == 32 && SpellsHex(s, ds) && x == FromPayload(Value(16, ds), MAX_CHARS)
  {
    hide HexValue, SpellsHex, ScanHex, Value, FromPayload;
    HexScanSpells(s, []);
    var r := ScanHex(s, []);
    if r.Read? { assert r.ds[0..] == r.ds; }
    forall ds: seq<nat> | |ds| == 32 && SpellsHex(s, ds) ensures r == Read(ds) {
      HexScanOfSpelling(s, [], ds);
      assert [] + ds == ds;
    }
    if UuidImported(s) == Ok(x) {
      assert |r.ds| == 32 && SpellsHex(s, r.ds) && x == FromPayload(Value(16, r.ds), MAX_CHARS);
    }
  }

  /** A run of hexadecimal text, then the rest. */
  lemma {:induction false} ScanHexRun(done: seq<nat>, ds: seq<nat>, rest: string)
    requires AreDigits(16, done) && AreDigits(16, ds) && |done| + |ds| <= 32
    ensures ScanHex(Hex(ds) + rest, done) == ScanHex(rest, done + ds)
    decreases |ds|
  {
    if |ds| == 0 {
      assert Hex(ds) + rest == rest && done + ds == done;
    } else {
      var s := Hex(ds) + rest;
      assert HexValue(HexSymbol(ds[0])) == ds[0];
      assert s[1..] == Hex(ds[1..]) + rest;
      assert done + [ds[0]] + ds[1..] == done + ds;
      ScanHexRun(done + [ds[0]], ds[1..], rest);
    }
  }

  lemma ScanHexGroup(done: seq<nat>, ds: seq<nat>, rest: string)
    requires AreDigits(16, done) && AreDigits(16, ds) && |done| + |ds| <= 32
    ensures ScanHex(Hex(ds) + ("-" + rest), done) == ScanHex(rest, done + ds)
  {
    ScanHexRun(done, ds, "-" + rest);
    assert ("-" + rest)[1..] == rest;
  }

  /** A group at a time, a UUID reads back as its thirty-two digits. */
  lemma ScanOfUuid(ds: seq<nat>)
    requires AreDigits(16, ds) && |ds| == 32
    ensures var h := Hex(ds);
            ScanHex(h[0..8] + "-" + h[8..12] + "-" + h[12..16] + "-" + h[16..20] + "-" + h[20..32], []) == Read(ds)
  {
    var h := Hex(ds);
    HexSlices(ds);
    hide Hex, ScanHex;
    var e := h[20..32];
    var d := h[16..20] + ("-" + e);
    var c := h[12..16] + ("-" + d);
    var b := h[8..12] + ("-" + c);
    assert h[0..8] + "-" + h[8..12] + "-" + h[12..16] + "-" + h[16..20] + "-" + e == h[0..8] + ("-" + b);
    ScanHexGroup([], ds[0..8], b);
    assert [] + ds[0..8] == ds[..8];
    ScanHexGroup(ds[..8], ds[8..12], c);
    assert ds[..8] + ds[8..12] == ds[..12];
    ScanHexGroup(ds[..12], ds[12..16], d);
    assert ds[..12] + ds[12..16] == ds[..16];
    ScanHexGroup(ds[..16], ds[16..20], e);
    assert ds[..16] + ds[16..20] == ds[..20];
    ScanHexRun(ds[..20], ds[20..32], "");
    assert e + "" == e && ds[..20] + ds[20..32] == ds;
    ScanHexEnd(ds);
  }

  lemma ScanHexEnd(ds: seq<nat>)
    requires AreDigits(16, ds) && |ds| <= 32
    ensures ScanHex("", ds) == Read(ds)
  {
  }

  lemma HexSlices(ds: seq<nat>)
    requires AreDigits(16, ds) && |ds| == 32
    ensures var h := Hex(ds);
            && h[0..8] == Hex(ds[0..8]) && h[8..12] == Hex(ds[8..12]) && h[12..16] == Hex(ds[12..16])
            && h[16..20] == Hex(ds[16..20]) && h[20..32] == Hex(ds[20..32])
  {
  }

  /** A UUID reads back as the 26-character id that has the original as a prefix. */
  lemma UuidRoundTrip(x: Id)
    ensures var r := UuidImported(ToUuid(x));
            && r.Ok? && |r.value| == MAX_CHARS && x <= r.value
            && (|x| == MAX_CHARS ==> r.value == x)
  {
    hide Aligned, Digits, Hex, Pow;
    var p := Aligned(x);
    ScanOfUuid(Digits(16, p, 32));
    Powers(32);
    ValueOfDigits(16, p, 32);
    WidenedHasPrefix(x);
  }

  /** Every 128-bit integer survives the trip out through either format and back. */
  lemma PayloadsSurvive(payload: nat)
    requires payload < TWO_128
    ensures var x := FromPayload(payload, MAX_CHARS);
            && UlidImported(Spell('A', Digits(32, Aligned(x), MAX_CHARS))) == Ok(x)
            && UuidImported(ToUuid(x)) == Ok(x)
            && ToU128(x) == payload
  {
    Powers(128);
    var x := FromPayload(payload, MAX_CHARS);
    PayloadRoundTrip(payload, MAX_CHARS);
    UlidRoundTrip(x);
    UuidRoundTrip(x);
  }
}

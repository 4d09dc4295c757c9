// Variable-width, time-sortable public ids (crates/core/src/id.rs). An id is held as its
// canonical text; `Places` reads the text as base32 digits.
module PublicId {
  import opened Common
  import opened Text
  import opened Radix
  import opened Crockford
  import opened Bits

  const MIN_CHARS: nat := 16
  const MAX_CHARS: nat := 26
  const MAX_PAYLOAD_BITS: nat := 128
  const TIMESTAMP_BITS: nat := 48
  const MAX_TIMESTAMP_MS: nat := 0xFFFF_FFFF_FFFF

  datatype IdError =
    | TimestampOutOfRange(ms: nat)
    | WrongLength(chars: nat)
    | BadCharacter(c: char)
    | ValueTooWide(value: nat)
    | ReservedBitsSet

  /** Spare low bits: zero below 26 characters, two at 26. */
  function ReservedBits(chars: nat): nat {
    if 5 * chars > MAX_PAYLOAD_BITS then 5 * chars - MAX_PAYLOAD_BITS else 0
  }

  function PayloadBits(chars: nat): nat {
    if 5 * chars > MAX_PAYLOAD_BITS then MAX_PAYLOAD_BITS else 5 * chars
  }

  function Places(s: string): (ds: seq<nat>)
    ensures |ds| == |s| && AreDigits(32, ds)
  {
    seq(|s|, i requires 0 <= i < |s| =>
      IndexInvertsSymbol('a', 0, s[i]);
      if Index('a', s[i]) >= 0 then Index('a', s[i]) else 0)
  }

  predicate IsDigitRun(ds: seq<nat>) {
    && MIN_CHARS <= |ds| <= MAX_CHARS && AreDigits(32, ds)
    && (|ds| == MAX_CHARS ==> ds[MAX_CHARS - 1] % 4 == 0)
  }

  /** Lower-case alphabet characters of a supported width, reserved bits zero. */
  predicate IsId(s: string) {
    IsDigitRun(Places(s)) && Spell('a', Places(s)) == s
  }

  type Id = s: string | IsId(s) witness IdOf(seq(16, _ => 0))

  function IdOf(ds: seq<nat>): (s: string)
    requires IsDigitRun(ds)
    ensures IsId(s) && Places(s) == ds && s == Spell('a', ds)
  {
    var s := Spell('a', ds);
    assert Places(s) == ds by {
      forall i | 0 <= i < |ds| ensures Places(s)[i] == ds[i] { IndexInvertsSymbol('a', ds[i], s[i]); }
    }
    s
  }

  /** The digits of an id as one number; `payload << reserved`. */
  function Number(x: Id): nat {
    Value(32, Places(x))
  }

  lemma NumberDeterminesId(x: Id, y: Id)
    requires |x| == |y| && Number(x) == Number(y)
    ensures x == y
  {
    BelowIsNumeric(32, Places(x), Places(y));
  }

  // ---- integers -----------------------------------------------------------------------------

  function FromPayload(payload: nat, chars: nat): (x: Id)
    requires MIN_CHARS <= chars <= MAX_CHARS
    ensures |x| == chars && Places(x) == Digits(32, Scale(payload, ReservedBits(chars)), chars)
  {
    var v := Scale(payload, ReservedBits(chars));
    assert chars == MAX_CHARS ==> ReservedBits(chars) == 2 && v == 2 * Scale(payload, 1) == 4 * payload;
    IdOf(Digits(32, v, chars))
  }

  /** Each character is a shift and a mask; at 26 characters the last one shifts the other way. */
  method Render(payload: nat, chars: nat) returns (out: string)
    requires payload < TWO_128 && MIN_CHARS <= chars <= MAX_CHARS
    ensures out == FromPayload(payload, chars)
  {
    var reserved := ReservedBits(chars);
    ghost var ds := Digits(32, Scale(payload, reserved), chars);
    AlphabetsInClosedForm();
    out := "";
    var c := 0;
    while c < chars
      invariant 0 <= c <= chars && |out| == c
      invariant forall i :: 0 <= i < c ==> out[i] == Symbol('a', ds[i])
    {
      var hi := 5 * (chars - 1 - c);
      RenderedDigit(payload, chars, c);
      var digit := (if hi >= reserved then Shr(payload, hi - reserved) else Shl(payload, reserved - hi)) % 32;
      out := out + [LOWER[digit]];
      c := c + 1;
    }
    assert out == Spell('a', ds);
  }

  lemma RenderedDigit(payload: nat, chars: nat, c: nat)
    requires payload < TWO_128 && MIN_CHARS <= chars <= MAX_CHARS && c < chars
    ensures var reserved, hi := ReservedBits(chars), 5 * (chars - 1 - c);
            (if hi >= reserved then Shr(payload, hi - reserved) else Shl(payload, reserved - hi)) % 32
              == Digits(32, Scale(payload, reserved), chars)[c]
  {
    hide Scale, Shr, Shl, Drop, Digits;
    var reserved, hi := ReservedBits(chars), 5 * (chars - 1 - c);
    var v := Scale(payload, reserved);
    DigitAt(32, v, chars, c);
    DropIsShr(v, chars - 1 - c);
    if hi >= reserved {
      ShrShr(v, reserved, hi - reserved);
      ShrScale(payload, reserved);
    } else {
      assert hi == 0 && reserved == 2;
      ShlLowDigit(payload);
      SmallShifts(payload);
      SmallShifts(v);
    }
  }

  /** All but the last character, then the last without its reserved bits. */
  function ToU128(x: Id): (payload: nat)
    ensures Scale(payload, ReservedBits(|x|)) == Number(x)
    ensures payload < Scale(1, PayloadBits(|x|)) <= TWO_128
  {
    var ds, reserved := Places(x), ReservedBits(|x|);
    var head, last := Value(32, ds[..|ds| - 1]), ds[|ds| - 1];
    ToU128IsExact(ds);
    Shl(head, 5 - reserved) + Shr(last, reserved)
  }

  lemma ToU128IsExact(ds: seq<nat>)
    requires IsDigitRun(ds)
    ensures var reserved, head, last := ReservedBits(|ds|), Value(32, ds[..|ds| - 1]), ds[|ds| - 1];
            var payload := Shl(head, 5 - reserved) + Shr(last, reserved);
            && Scale(payload, reserved) == Value(32, ds)
            && payload < Scale(1, PayloadBits(|ds|)) <= TWO_128
  {
    hide Scale, Shl, Shr, Value;
    var n := |ds|;
    var reserved, head, last := ReservedBits(n), Value(32, ds[..n - 1]), ds[n - 1];
    HeadBound(ds);
    Powers(128);
    ScaleMonotone(1, PayloadBits(n), 128);
    SmallShifts(head);
    SmallShifts(last);
    SmallShifts(8 * head + last / 4);
    SmallShifts(32 * head + last);
    ShlExact(head, 5 - reserved);
  }

  lemma HeadBound(ds: seq<nat>)
    requires IsDigitRun(ds)
    ensures var head, v := Value(32, ds[..|ds| - 1]), Value(32, ds);
            if |ds| == MAX_CHARS then 4 * (8 * head + ds[|ds| - 1] / 4) == v && 8 * head + ds[|ds| - 1] / 4 < Scale(1, 128)
            else v == 32 * head + ds[|ds| - 1] && v < Scale(1, PayloadBits(|ds|))
  {
    hide Scale, Pow;
    ValueBound(32, ds);
    PowIsScale(|ds|);
    if |ds| == MAX_CHARS {
      var payload := 8 * Value(32, ds[..|ds| - 1]) + ds[|ds| - 1] / 4;
      SmallShifts(payload);
      ScaleBounds(payload, 128, 2);
    }
  }

  lemma {:induction false} ScaleMonotone(v: nat, m: nat, n: nat)
    requires m <= n
    ensures Scale(v, m) <= Scale(v, n)
  {
    if m < n { ScaleMonotone(v, m, n - 1); }
  }

  function FromU128(payload: nat, chars: nat): Result<Id, IdError> {
    if !(MIN_CHARS <= chars <= MAX_CHARS) then Err(WrongLength(chars))
    else if PayloadBits(chars) < 128 && payload >= Scale(1, PayloadBits(chars)) then Err(ValueTooWide(payload))
    else Ok(FromPayload(payload, chars))
  }

  lemma PayloadRoundTrip(payload: nat, chars: nat)
    requires MIN_CHARS <= chars <= MAX_CHARS && payload < Scale(1, PayloadBits(chars))
    ensures Number(FromPayload(payload, chars)) == Scale(payload, ReservedBits(chars))
    ensures ToU128(FromPayload(payload, chars)) == payload
  {
    var x, reserved := FromPayload(payload, chars), ReservedBits(chars);
    PowIsScale(chars);
    ScaleBounds(payload, PayloadBits(chars), reserved);
    ValueOfDigits(32, Scale(payload, reserved), chars);
    ShrScale(payload, reserved);
    ShrScale(ToU128(x), reserved);
  }

  /** At every width the integer form is lossless in both directions, and exactly the integers of
      the width's payload bits have one. */
  lemma IntegerRoundTrip(x: Id, payload: nat, chars: nat)
    requires payload < TWO_128
    ensures FromU128(ToU128(x), |x|) == Ok(x)
    ensures FromU128(payload, chars).Ok? <==>
              MIN_CHARS <= chars <= MAX_CHARS && payload < Scale(1, PayloadBits(chars))
    ensures FromU128(payload, chars).Ok? ==> ToU128(FromU128(payload, chars).value) == payload
  {
    Powers(128);
    PayloadRoundTrip(ToU128(x), |x|);
    NumberDeterminesId(FromPayload(ToU128(x), |x|), x);
    if FromU128(payload, chars).Ok? { PayloadRoundTrip(payload, chars); }
  }

  // ---- timestamps and randomness ------------------------------------------------------------

  function RandomBits(chars: nat): Result<nat, IdError> {
    if MIN_CHARS <= chars <= MAX_CHARS then Ok(PayloadBits(chars) - TIMESTAMP_BITS) else Err(WrongLength(chars))
  }

  function WithWidth(ms: nat, random: nat, chars: nat): Result<Id, IdError> {
    if ms > MAX_TIMESTAMP_MS then Err(TimestampOutOfRange(ms))
    else match RandomBits(chars)
      case Err(e) => Err(e)
      case Ok(bits) => Ok(FromPayload(Shl(ms, bits) + LowBits(random, bits), chars))
  }

  function Timestamp(x: Id): nat {
    Shr(ToU128(x), PayloadBits(|x|) - TIMESTAMP_BITS)
  }

  function Random(x: Id): nat {
    LowBits(ToU128(x), PayloadBits(|x|) - TIMESTAMP_BITS)
  }

  lemma Scale48()
    ensures Scale(1, 48) == MAX_TIMESTAMP_MS + 1
  {
    ScaleOfWords(3);
  }

  /** Packing a timestamp and its random bits never loses a bit. */
  lemma PackedPayload(ms: nat, random: nat, bits: nat)
    requires ms <= MAX_TIMESTAMP_MS && bits <= 80
    ensures Shl(ms, bits) + LowBits(random, bits) == Append(ms, random, bits) < Scale(1, TIMESTAMP_BITS + bits)
  {
    Scale48();
    Powers(128);
    ScaleMonotone(1, 48 + bits, 128);
    ScaleBounds(ms, 48, bits);
    ShlExact(ms, bits);
    AppendIsShiftOr(ms, random, bits);
    AppendBounds(ms, random, 48, bits);
  }

  /** A fresh id gives back its timestamp and the random bits its width has room for. */
  lemma FieldsRoundTrip(ms: nat, random: nat, chars: nat)
    requires ms <= MAX_TIMESTAMP_MS && MIN_CHARS <= chars <= MAX_CHARS
    ensures var r := WithWidth(ms, random, chars);
            && r.Ok? && |r.value| == chars
            && Timestamp(r.value) == ms
            && Random(r.value) == LowBits(random, PayloadBits(chars) - TIMESTAMP_BITS)
  {
    hide Scale, Shr, Shl, LowBits, Append, IsId, FromPayload, ToU128;
    var bits := PayloadBits(chars) - TIMESTAMP_BITS;
    PackedPayload(ms, random, bits);
    PayloadRoundTrip(Append(ms, random, bits), chars);
    ShrAppend(ms, random, bits, bits);
    NoBits(ms, Shr(random, bits));
    LowBitsAppend(ms, random, bits);
  }

  lemma NoBits(v: nat, r: nat)
    ensures Append(v, r, 0) == v
  {
  }

  lemma HeadIsShift(x: Id, k: nat)
    requires k <= |x|
    ensures Value(32, Places(x)[..k]) == Shr(Number(x), 5 * (|x| - k))
  {
    hide Scale, Shr, Drop, Pow, Spell;
    var ds, v, n := Places(x), Number(x), |x|;
    DigitsOfValue(32, ds);
    DigitsPrefix(32, v, k, n - k);
    DropIsShr(v, n - k);
    ValueBound(32, ds);
    PowIsScale(n);
    PowIsScale(k);
    ShrBounds(v, 5 * k, 5 * (n - k));
    ValueOfDigits(32, Shr(v, 5 * (n - k)), k);
  }

  /** At any width the first ten characters hold the timestamp above two more bits. */
  lemma TimestampInHead(x: Id)
    ensures Timestamp(x) == Value(32, Places(x)[..10]) / 4
  {
    hide Scale, Shr, ToU128, Places, Spell;
    var v, n, reserved := Number(x), |x|, ReservedBits(|x|);
    HeadIsShift(x, 10);
    ShrScale(ToU128(x), reserved);
    ShrShr(v, reserved, PayloadBits(n) - 48);
    ShrShr(v, 5 * (n - 10), 2);
    SmallShifts(Shr(v, 5 * (n - 10)));
  }

  /** Ids of any two widths sort as text in the order of their timestamps. */
  lemma TextOrderIsTimeOrder(x: Id, y: Id)
    requires Timestamp(x) < Timestamp(y)
    ensures Less(x, y)
  {
    var dx, dy := Places(x), Places(y);
    TimestampInHead(x);
    TimestampInHead(y);
    BelowIsNumeric(32, dx[..10], dy[..10]);
    BelowByHeads(dx[..10], dy[..10], dx[10..], dy[10..]);
    assert dx == dx[..10] + dx[10..] && dy == dy[..10] + dy[10..];
    SpellOrder('a', dx, dy);
  }

  lemma {:induction false} BelowByHeads(x: seq<nat>, y: seq<nat>, s: seq<nat>, t: seq<nat>)
    requires |x| == |y| && Below(x, y)
    ensures Below(x + s, y + t)
  {
    assert (x + s)[1..] == x[1..] + s && (y + t)[1..] == y[1..] + t;
    if x[0] == y[0] { BelowByHeads(x[1..], y[1..], s, t); }
  }

  /** The 16-character id of the top 32 random bits is a literal prefix of every wider id with
      the same timestamp and randomness. */
  lemma NarrowIdIsPrefix(ms: nat, random: nat, chars: nat)
    requires ms <= MAX_TIMESTAMP_MS && MIN_CHARS <= chars <= MAX_CHARS
    ensures var wide := WithWidth(ms, random, chars);
            var narrow := WithWidth(ms, Shr(random, PayloadBits(chars) - 80), MIN_CHARS);
            wide.Ok? && narrow.Ok? && narrow.value <= wide.value
  {
    hide Scale, Shr, Shl, LowBits, Append, Drop, IsId, Digits;
    var bits, reserved, k := PayloadBits(chars) - 48, ReservedBits(chars), chars - 16;
    var payload, top := Append(ms, random, bits), Append(ms, Shr(random, bits - 32), 32);
    var v := Scale(payload, reserved);
    PackedPayload(ms, random, bits);
    PackedPayload(ms, Shr(random, bits - 32), 32);
    DigitsPrefix(32, v, 16, k);
    DropIsShr(v, k);
    ShrScale(payload, reserved);
    ShrShr(v, reserved, bits - 32);
    ShrAppend(ms, random, bits, bits - 32);
    SmallShifts(top);
    var wide, narrow := FromPayload(payload, chars), FromPayload(top, 16);
    assert Places(wide)[..16] == Places(narrow);
    PrefixOfPlaces(wide, narrow);
  }

  lemma PrefixOfPlaces(wide: Id, narrow: Id)
    requires |narrow| <= |wide| && Places(wide)[..|narrow|] == Places(narrow)
    ensures narrow <= wide
  {
    forall i | 0 <= i < |narrow| ensures narrow[i] == wide[i] {
      assert Places(wide)[..|narrow|][i] == Places(wide)[i];
      assert Spell('a', Places(narrow))[i] == Spell('a', Places(wide))[i];
    }
  }
}

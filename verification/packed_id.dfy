// The packed-integer twin of public ids (crates/bench-wasm/src/packed.rs): two machine words in
// place of a string. `Packed` says which packed value stands for an id; everything below shows
// that computing on the packed form gives what computing on the text gives.
module PackedIds {
  import opened Common
  import opened Text
  import opened Radix
  import opened Crockford
  import opened Bits
  import opened PublicId
  import opened IdText

  const TWO_64: nat := 0x1_0000_0000_0000_0000

  datatype PackedId = PackedId(bits: nat, width: nat)

  function Packed(x: Id): PackedId {
    PackedId(ToU128(x), |x|)
  }

  /** What a parser of texts becomes when it answers in packed form without an error kind. */
  function PackedResult(r: Result<Id, IdError>): Option<PackedId> {
    match r
    case Ok(x) => Some(Packed(x))
    case Err(_) => None
  }

  /** Unlike the text form this accepts any timestamp; the shift drops what does not fit. */
  function New(ms: nat, random: nat, width: nat): Option<PackedId> {
    if !(MIN_CHARS <= width <= MAX_CHARS) then None
    else
      var bits := PayloadBits(width) - TIMESTAMP_BITS;
      var masked := if bits >= 128 then random else LowBits(random, bits);
      Some(PackedId(Shl(ms, bits) + masked, width))
  }

  method Parse(s: string) returns (r: Option<PackedId>)
    ensures r == PackedResult(Parsed(s))
  {
    hide Value, Shl, Shr, ToU128, Spell, Decode, IsId;
    var digits := new nat[MAX_CHARS](_ => 0);
    var width, i := 0, 0;
    ghost var ds: seq<nat> := [];
    while i < |s|
      invariant 0 <= i <= |s| && width <= MAX_CHARS && digits[..width] == ds && AreDigits(32, ds)
      invariant ScanFrom(s, [], MAX_CHARS) == ScanFrom(s[i..], ds, MAX_CHARS)
    {
      assert s[i..][0] == s[i] && s[i..][1..] == s[i + 1..];
      match Decode(s[i]) {
        case Skip =>
        case Invalid => return None;
        case Digit(d) =>
          if width >= MAX_CHARS { return None; }
          digits[width] := d;
          width := width + 1;
          ds := ds + [d];
      }
      i := i + 1;
    }
    if width < MIN_CHARS { return None; }
    var reserved, last := ReservedBits(width), digits[width - 1];
    LowTwoBits(last);
    if LowBits(last, reserved) != 0 { return None; }
    var head := Value(32, digits[..width - 1]);
    r := Some(PackedId(Shl(head, 5 - reserved) + Shr(last, reserved), width));
    assert ds[..width - 1] == digits[..width - 1];
    PackedDigits(ds);
  }

  lemma LowTwoBits(v: nat)
    ensures LowBits(v, 0) == 0 && LowBits(v, 2) == v % 4
  {
    LowBit(v / 2);
    assert v % 4 == 2 * (v / 2 % 2) + v % 2;
  }

  lemma LowBit(v: nat)
    ensures LowBits(v, 1) == v % 2
  {
    assert LowBits(v / 2, 0) == 0;
  }

  lemma PackedDigits(ds: seq<nat>)
    requires IsDigitRun(ds)
    ensures var reserved := ReservedBits(|ds|);
            Packed(IdOf(ds)).bits == Shl(Value(32, ds[..|ds| - 1]), 5 - reserved) + Shr(ds[|ds| - 1], reserved)
    ensures |IdOf(ds)| == |ds|
  {
    hide Value, Shl, Shr;
  }

  method Encode(p: PackedId) returns (out: string)
    requires p.bits < TWO_128 && MIN_CHARS <= p.width <= MAX_CHARS
    ensures out == FromPayload(p.bits, p.width)
  {
    hide Scale, Shl, Shr, Digits, IsId;
    var w, reserved := p.width, ReservedBits(p.width);
    ghost var ds := Digits(32, Scale(p.bits, reserved), w);
    AlphabetsInClosedForm();
    out := "";
    var c := 0;
    while c < w
      invariant 0 <= c <= w && |out| == c
      invariant forall i :: 0 <= i < c ==> out[i] == Symbol('a', ds[i])
    {
      var hi := 5 * (w - 1 - c);
      RenderedDigit(p.bits, w, c);
      var digit := (if hi >= reserved then Shr(p.bits, hi - reserved) else Shl(p.bits, reserved - hi)) % 32;
      out := out + [LOWER[digit]];
      c := c + 1;
    }
    SpellOfPlaces(FromPayload(p.bits, w));
    assert out == Spell('a', ds);
  }

  lemma SpellOfPlaces(x: Id)
    ensures x == Spell('a', Places(x))
  {
  }

  function TimestampMs(p: PackedId): nat
    requires MIN_CHARS <= p.width
  {
    Shr(p.bits, PayloadBits(p.width) - TIMESTAMP_BITS) % TWO_64
  }

  /** Packing loses nothing: the packed form of an id encodes back to its text, holds its
      timestamp, and stands for no other id. */
  lemma PackingIsFaithful(x: Id, y: Id)
    ensures FromPayload(Packed(x).bits, Packed(x).width) == x
    ensures TimestampMs(Packed(x)) == Timestamp(x)
    ensures Packed(x) == Packed(y) <==> x == y
  {
    hide Scale, Shr, Shl, ToU128, IsId;
    Powers(128);
    IntegerRoundTrip(x, 0, 0);
    IntegerRoundTrip(y, 0, 0);
    PackedTimestamp(x);
  }

  lemma PackedTimestamp(x: Id)
    ensures TimestampMs(Packed(x)) == Timestamp(x)
  {
    hide Scale, Shr, Shl, ToU128, Places, Spell;
    Scale48();
    ShrBounds(ToU128(x), 48, PayloadBits(|x|) - 48);
  }

  /** A fresh packed id is the fresh text id exactly when the timestamp is in range; the text
      form refuses a later one and the packed form does not. */
  lemma NewAgrees(ms: nat, random: nat, width: nat)
    ensures (New(ms, random, width) == PackedResult(WithWidth(ms, random, width)))
        <==> (!(MIN_CHARS <= width <= MAX_CHARS) || ms <= MAX_TIMESTAMP_MS)
  {
    hide Scale, Shr, Shl, LowBits, Append, ToU128;
    if MIN_CHARS <= width <= MAX_CHARS && ms <= MAX_TIMESTAMP_MS {
      var bits := PayloadBits(width) - TIMESTAMP_BITS;
      PackedPayload(ms, random, bits);
      PayloadRoundTrip(Append(ms, random, bits), width);
    }
  }

  // ---- order --------------------------------------------------------------------------------

  /** Left-aligned to 128 bits. */
  function Normalized(p: PackedId): nat
    requires p.width <= MAX_CHARS
  {
    Shl(p.bits, MAX_PAYLOAD_BITS - PayloadBits(p.width))
  }

  datatype Ordering = Before | Same | After

  function CompareInts(m: nat, n: nat): Ordering {
    if m < n then Before else if m == n then Same else After
  }

  function Cmp(p: PackedId, q: PackedId): Ordering
    requires p.width <= MAX_CHARS && q.width <= MAX_CHARS
  {
    match CompareInts(Normalized(p), Normalized(q))
    case Same => CompareInts(p.width, q.width)
    case other => other
  }

  function CompareText(s: string, t: string): Ordering {
    if Less(s, t) then Before else if s == t then Same else After
  }

  function Zeros(n: nat): seq<nat> {
    seq(n, _ => 0)
  }

  lemma {:induction false} ZerosAreLeast(ds: seq<nat>, n: nat)
    requires |ds| == n
    ensures !Below(ds, Zeros(n))
    ensures Below(Zeros(n), ds) || ds == Zeros(n)
  {
    if n > 0 {
      ZerosAreLeast(ds[1..], n - 1);
      assert Zeros(n)[1..] == Zeros(n - 1);
      assert ds == [ds[0]] + ds[1..] && Zeros(n) == [0] + Zeros(n - 1);
    }
  }

  /** Padding with zero digits keeps the order, except that a run and its padding fall together
      and are told apart by length. */
  lemma {:induction false} PaddedOrder(x: seq<nat>, y: seq<nat>, n: nat)
    requires |x| <= n && |y| <= n
    ensures var xs, ys := x + Zeros(n - |x|), y + Zeros(n - |y|);
            Below(x, y) <==> Below(xs, ys) || (xs == ys && |x| < |y|)
  {
    var xs, ys := x + Zeros(n - |x|), y + Zeros(n - |y|);
    if |x| == 0 {
      assert xs == Zeros(n);
      ZerosAreLeast(ys, n);
    } else if |y| == 0 {
      assert ys == Zeros(n);
      ZerosAreLeast(xs, n);
    } else {
      PaddedOrder(x[1..], y[1..], n - 1);
      var xs', ys' := x[1..] + Zeros(n - |x|), y[1..] + Zeros(n - |y|);
      assert xs == [x[0]] + xs' && ys == [y[0]] + ys';
      assert xs[1..] == xs' && ys[1..] == ys';
    }
  }

  lemma NormalizedIsPadded(x: Id)
    ensures 4 * Normalized(Packed(x)) == Value(32, Places(x) + Zeros(MAX_CHARS - |x|))
  {
    hide Scale, Shl, Raise, ToU128, Places, Spell;
    AlignedIsScale(x);
    ValueOfZeros(32, Places(x), MAX_CHARS - |x|);
  }

  /** Comparing packed ids of any two widths is comparing their texts. */
  lemma OrderIsTextOrder(x: Id, y: Id)
    ensures Cmp(Packed(x), Packed(y)) == CompareText(x, y)
  {
    hide Value, Normalized, Below, ToU128;
    var dx, dy := Places(x), Places(y);
    var px, py := dx + Zeros(MAX_CHARS - |x|), dy + Zeros(MAX_CHARS - |y|);
    NormalizedIsPadded(x);
    NormalizedIsPadded(y);
    BelowIsNumeric(32, px, py);
    PaddedOrder(dx, dy, MAX_CHARS);
    SpellOrder('a', dx, dy);
    if px == py && |x| == |y| {
      assert dx == px[..|x|] == py[..|y|] == dy;
    }
  }
}

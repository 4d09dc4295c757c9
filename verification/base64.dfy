// Base64 and base64url (crates/core/src/encoding.rs; sections 4 and 5 of RFC 4648).
module Base64 {
  import opened Common

  type Byte = b: nat | b < 256

  const CAPITALS: string := "ABCDEFGHIJKLMNOPQRSTUVWXYZ"
  const SMALL: string := "abcdefghijklmnopqrstuvwxyz"
  const NUMERALS: string := "0123456789"
  const STD: string := CAPITALS + SMALL + NUMERALS + "+/"
  const URL: string := CAPITALS + SMALL + NUMERALS + "-_"
  const PAD: char := '='
  const TWO_32: nat := 0x1_0000_0000

  /** The sextet a character of either alphabet stands for. */
  function Sextet(c: char): (r: Option<nat>)
    ensures r.Some? ==> r.value < 64
  {
    if 'A' <= c <= 'Z' then Some((c - 'A') as nat)
    else if 'a' <= c <= 'z' then Some((c - 'a') as nat + 26)
    else if '0' <= c <= '9' then Some((c - '0') as nat + 52)
    else if c == '-' || c == '+' then Some(62)
    else if c == '_' || c == '/' then Some(63)
    else None
  }

  /** Both tables list the characters in the order of the sextets they stand for. */
  predicate IsTable(table: string) {
    |table| == 64 && forall v: nat :: v < 64 ==> Sextet(table[v]) == Some(v)
  }

  lemma TablesInOrder()
    ensures IsTable(STD) && IsTable(URL)
  {
    RunsInOrder();
    hide CAPITALS, SMALL, NUMERALS;
    TableOf("+/");
    TableOf("-_");
  }

  lemma RunsInOrder()
    ensures |CAPITALS| == 26 && forall i :: 0 <= i < 26 ==> CAPITALS[i] == 'A' + i as char
    ensures |SMALL| == 26 && forall i :: 0 <= i < 26 ==> SMALL[i] == 'a' + i as char
    ensures |NUMERALS| == 10 && forall i :: 0 <= i < 10 ==> NUMERALS[i] == '0' + i as char
  {
  }

  lemma SextetOfRun(i: nat)
    ensures i < 26 ==> Sextet('A' + i as char) == Some(i) && Sextet('a' + i as char) == Some(i + 26)
    ensures i < 10 ==> Sextet('0' + i as char) == Some(i + 52)
  {
  }

  lemma TableOf(last: string)
    requires |last| == 2 && Sextet(last[0]) == Some(62) && Sextet(last[1]) == Some(63)
    ensures IsTable(CAPITALS + SMALL + NUMERALS + last)
  {
    RunsInOrder();
    hide CAPITALS, SMALL, NUMERALS, Sextet;
    var table := CAPITALS + SMALL + NUMERALS + last;
    forall v: nat | v < 64 ensures Sextet(table[v]) == Some(v) {
      Piece(CAPITALS, SMALL, NUMERALS, last, v);
      SextetOfRun(if v < 26 then v else if v < 52 then v - 26 else v - 52);
    }
  }

  lemma Piece(a: string, b: string, c: string, d: string, v: nat)
    requires |a| == 26 && |b| == 26 && |c| == 10 && |d| == 2 && v < 64
    ensures (a + b + c + d)[v] ==
              if v < 26 then a[v] else if v < 52 then b[v - 26] else if v < 62 then c[v - 52] else d[v - 62]
  {
  }

  // ---- encoding -----------------------------------------------------------------------------

  /** Up to three bytes at the top of 24 bits. */
  function Word(chunk: seq<Byte>): nat
    requires 1 <= |chunk| <= 3
  {
    0x10000 * (chunk[0] as int)
    + (if |chunk| > 1 then 0x100 * (chunk[1] as int) else 0)
    + (if |chunk| > 2 then chunk[2] else 0)
  }

  /** `n >> (18 - 6 * i)`, low six bits. */
  function Digit(n: nat, i: nat): (d: nat)
    requires i < 4
    ensures d < 64
  {
    (if i == 0 then n / 0x40000 else if i == 1 then n / 0x1000 else if i == 2 then n / 0x40 else n) % 64
  }

  /** The characters of a chunk of `len` bytes from the `i`-th on. */
  function Quad(table: string, n: nat, len: nat, pad: bool, i: nat): string
    requires |table| == 64 && i <= 4
    decreases 4 - i
  {
    if i == 4 then ""
    else Place(table, n, len, pad, i) + Quad(table, n, len, pad, i + 1)
  }

  /** A digit for every byte and one more; past those, padding if asked for. */
  function Place(table: string, n: nat, len: nat, pad: bool, i: nat): string
    requires |table| == 64 && i < 4
  {
    if i <= len then [table[Digit(n, i)]] else if pad then [PAD] else ""
  }

  function ChunkOf(bytes: seq<Byte>): (chunk: seq<Byte>)
    requires |bytes| > 0
    ensures 1 <= |chunk| <= 3 && |chunk| <= |bytes| && chunk <= bytes
  {
    if |bytes| < 3 then bytes else bytes[..3]
  }

  function Encoded(table: string, bytes: seq<Byte>, pad: bool): string
    requires |table| == 64
  {
    if |bytes| == 0 then ""
    else
      var chunk := ChunkOf(bytes);
      Quad(table, Word(chunk), |chunk|, pad, 0) + Encoded(table, bytes[|chunk|..], pad)
  }

  method EncodeWith(table: string, bytes: seq<Byte>, pad: bool) returns (out: string)
    requires |table| == 64
    ensures out == Encoded(table, bytes, pad)
  {
    hide Quad, Word;
    out := "";
    var at := 0;
    assert bytes[0..] == bytes;
    Regroup("", Encoded(table, bytes, pad), "");
    while at < |bytes|
      invariant 0 <= at <= |bytes| && Encoded(table, bytes, pad) == out + Encoded(table, bytes[at..], pad)
    {
      var chunk := ChunkOf(bytes[at..]);
      ghost var rest := bytes[at..][|chunk|..];
      Regroup(out, Quad(table, Word(chunk), |chunk|, pad, 0), Encoded(table, rest, pad));
      out := PushChunk(table, chunk, pad, out);
      assert rest == bytes[at + |chunk|..];
      at := at + |chunk|;
    }
    Regroup(out, "", "");
  }

  /** The inner loop, over the four characters of a chunk. */
  method PushChunk(table: string, chunk: seq<Byte>, pad: bool, before: string) returns (out: string)
    requires |table| == 64 && 1 <= |chunk| <= 3
    ensures out == before + Quad(table, Word(chunk), |chunk|, pad, 0)
  {
    hide Digit, Word;
    var n := Word(chunk);
    out := before;
    var i := 0;
    while i < 4
      invariant 0 <= i <= 4 && before + Quad(table, n, |chunk|, pad, 0) == out + Quad(table, n, |chunk|, pad, i)
    {
      ghost var piece := if i <= |chunk| then [table[Digit(n, i)]] else if pad then [PAD] else "";
      Regroup(out, piece, Quad(table, n, |chunk|, pad, i + 1));
      if i <= |chunk| {
        out := out + [table[Digit(n, i)]];
      } else if pad {
        out := out + [PAD];
      }
      i := i + 1;
    }
    Regroup(out, "", "");
  }

  lemma Regroup(a: string, b: string, c: string)
    ensures a + (b + c) == a + b + c
    ensures a + "" == a
  {
  }

  // ---- decoding -----------------------------------------------------------------------------

  function TrimPad(s: string): string {
    if |s| > 0 && s[|s| - 1] == PAD then TrimPad(s[..|s| - 1]) else s
  }

  /** `1 << bits` for the bit counts the loop can hold. */
  function Room(bits: nat): nat {
    if bits == 0 then 1 else if bits == 2 then 4 else if bits == 4 then 16 else 64
  }

  predicate Holding(acc: nat, bits: nat) {
    bits in {0, 2, 4, 6} && acc < Room(bits)
  }

  /** One character: the new accumulator and bit count, and the byte completed if there is one. */
  function Shift(acc: nat, bits: nat, v: nat): (r: (nat, nat, seq<Byte>))
    requires Holding(acc, bits) && v < 64
    ensures Holding(r.0, r.1)
  {
    var wide := 64 * acc + v;
    if bits == 0 then (wide, 6, [])
    else (wide % Room(bits - 2), bits - 2, [wide / Room(bits - 2)])
  }

  function DecodedFrom(s: string, acc: nat, bits: nat): Option<seq<Byte>>
    requires Holding(acc, bits)
  {
    if |s| == 0 then Some([])
    else match Sextet(s[0])
      case None => None
      case Some(v) =>
        var (acc', bits', done) := Shift(acc, bits, v);
        match DecodedFrom(s[1..], acc', bits')
        case None => None
        case Some(rest) => Some(done + rest)
  }

  function Decoded(s: string): Option<seq<Byte>> {
    DecodedFrom(TrimPad(s), 0, 0)
  }

  method Decode(s: string) returns (r: Option<seq<Byte>>)
    ensures r == Decoded(s)
  {
    hide Sextet, TrimPad, Shift;
    var t := TrimPad(s);
    var out: seq<Byte> := [];
    var acc: nat, bits: nat, i: nat := 0, 0, 0;
    assert t[0..] == t;
    Joined(out, [], DecodedFrom(t, 0, 0));
    while i < |t|
      invariant 0 <= i <= |t| && Holding(acc, bits)
      invariant DecodedFrom(t, 0, 0) ==
        match DecodedFrom(t[i..], acc, bits) case None => None case Some(rest) => Some(out + rest)
    {
      assert t[i..][0] == t[i] && t[i..][1..] == t[i + 1..];
      var v := Sextet(t[i]);
      if v.None? { return None; }
      ghost var before, step := out, Shift(acc, bits, v.value);
      ShiftNeverWraps(acc, bits, v.value);
      acc := 64 * acc % TWO_32 + v.value;
      bits := bits + 6;
      if bits >= 8 {
        bits := bits - 8;
        out := out + [acc / Room(bits)];
        acc := acc % Room(bits);
      }
      assert (acc, bits) == (step.0, step.1) && out == before + step.2;
      Joined(before, step.2, DecodedFrom(t[i + 1..], acc, bits));
      i := i + 1;
    }
    Joined(out, [], None);
    r := Some(out);
  }

  /** The accumulator stays far below 32 bits, so shifting it loses nothing. */
  lemma ShiftNeverWraps(acc: nat, bits: nat, v: nat)
    requires Holding(acc, bits) && v < 64
    ensures var wide, left := 64 * acc % TWO_32 + v, bits + 6 - 8;
            Shift(acc, bits, v) ==
              if bits + 6 >= 8 then (wide % Room(left), left, [wide / Room(left)]) else (wide, bits + 6, [])
    ensures bits + 6 >= 8 ==> (64 * acc % TWO_32 + v) / Room(bits - 2) < 256
  {
    assert 64 * acc < TWO_32;
  }

  lemma Joined(a: seq<Byte>, b: seq<Byte>, rest: Option<seq<Byte>>)
    ensures rest.Some? ==> a + (b + rest.value) == a + b + rest.value && [] + rest.value == rest.value
    ensures a + [] == a
  {
  }

  // ---- round trips --------------------------------------------------------------------------

  lemma OneMore(c: char, v: nat, rest: string, acc: nat, bits: nat)
    requires Holding(acc, bits) && Sextet(c) == Some(v)
    ensures var (acc', bits', done) := Shift(acc, bits, v);
            DecodedFrom([c] + rest, acc, bits) ==
              match DecodedFrom(rest, acc', bits') case None => None case Some(more) => Some(done + more)
  {
    assert ([c] + rest)[1..] == rest;
  }

  lemma LowSix(high: nat, low: nat)
    requires low < 64
    ensures (64 * high + low) / 64 == high && (64 * high + low) % 64 == low
  {
  }

  lemma GroupDigits(a: Byte, b: Byte, c: Byte)
    ensures var n := 0x10000 * a + 0x100 * b + c;
            && Digit(n, 0) == a / 4
            && Digit(n, 1) == 16 * (a % 4) + b / 16
            && Digit(n, 2) == 4 * (b % 16) + c / 64
            && Digit(n, 3) == c % 64
  {
    var n := 0x10000 * a + 0x100 * b + c;
    assert n / 0x40000 == a / 4;
    assert n / 0x1000 == 64 * (a / 4) + (16 * (a % 4) + b / 16);
    assert n / 0x40 == 64 * (16 * a + b / 16) + (4 * (b % 16) + c / 64);
    assert n == 64 * (1024 * a + 4 * b + c / 64) + c % 64;
    LowSix(a / 4, 16 * (a % 4) + b / 16);
    LowSix(16 * a + b / 16, 4 * (b % 16) + c / 64);
    LowSix(1024 * a + 4 * b + c / 64, c % 64);
  }

  lemma ShiftSecond(a: Byte, b: Byte)
    ensures Shift(a / 4, 6, 16 * (a % 4) + b / 16) == (b / 16, 4, [a])
  {
    assert 64 * (a / 4) + (16 * (a % 4) + b / 16) == 16 * a + b / 16;
  }

  lemma ShiftThird(b: Byte, c: Byte)
    ensures Shift(b / 16, 4, 4 * (b % 16) + c / 64) == (c / 64, 2, [b])
  {
    assert 64 * (b / 16) + (4 * (b % 16) + c / 64) == 4 * b + c / 64;
  }

  /** The arithmetic of a full group: four sextets make the three bytes they were cut from. */
  lemma GroupBytes(a: Byte, b: Byte, c: Byte)
    ensures var n := 0x10000 * a + 0x100 * b + c;
            var d0, d1, d2, d3 := Digit(n, 0), Digit(n, 1), Digit(n, 2), Digit(n, 3);
            && Shift(0, 0, d0) == (d0, 6, [])
            && Shift(d0, 6, d1) == (b / 16, 4, [a])
            && Shift(b / 16, 4, d2) == (c / 64, 2, [b])
            && Shift(c / 64, 2, d3) == (0, 0, [c])
  {
    hide Digit;
    GroupDigits(a, b, c);
    ShiftSecond(a, b);
    ShiftThird(b, c);
    assert 64 * (c / 64) + c % 64 == c;
  }

  lemma DecodesGroup(table: string, a: Byte, b: Byte, c: Byte, rest: string)
    requires IsTable(table)
    ensures var n := 0x10000 * a + 0x100 * b + c;
            DecodedFrom([table[Digit(n, 0)]] + ([table[Digit(n, 1)]] + ([table[Digit(n, 2)]] + ([table[Digit(n, 3)]] + rest))), 0, 0)
              == match DecodedFrom(rest, 0, 0) case None => None case Some(more) => Some([a, b, c] + more)
  {
    hide DecodedFrom, Digit, Shift, Sextet;
    var n := 0x10000 * a + 0x100 * b + c;
    var d0, d1, d2, d3 := Digit(n, 0), Digit(n, 1), Digit(n, 2), Digit(n, 3);
    var r3 := [table[d3]] + rest;
    var r2 := [table[d2]] + r3;
    var r1 := [table[d1]] + r2;
    GroupBytes(a, b, c);
    OneMore(table[d3], d3, rest, c / 64, 2);
    OneMore(table[d2], d2, r3, b / 16, 4);
    OneMore(table[d1], d1, r2, d0, 6);
    OneMore(table[d0], d0, r1, 0, 0);
    if DecodedFrom(rest, 0, 0).Some? { ThreeMore(a, b, c, DecodedFrom(rest, 0, 0).value); }
  }

  lemma ThreeMore(a: Byte, b: Byte, c: Byte, more: seq<Byte>)
    ensures [] + ([a] + ([b] + ([c] + more))) == [a, b, c] + more
  {
  }

  function Pads(k: nat): string {
    if k == 0 then "" else Pads(k - 1) + [PAD]
  }

  /** A chunk's characters, spelled out: one more than its bytes, then any padding. */
  lemma QuadForm(table: string, n: nat, len: nat, pad: bool)
    requires |table| == 64 && 1 <= len <= 3
    ensures var d0, d1, d2, d3 := table[Digit(n, 0)], table[Digit(n, 1)], table[Digit(n, 2)], table[Digit(n, 3)];
            Quad(table, n, len, pad, 0) ==
              (if len == 1 then [d0, d1] else if len == 2 then [d0, d1, d2] else [d0, d1, d2, d3])
              + Pads(if pad then 3 - len else 0)
  {
    hide Digit, Quad, Place;
    FourPlaces(table, n, len, pad);
    var p2, p3 := Place(table, n, len, pad, 2), Place(table, n, len, pad, 3);
    assert Pads(1) == [PAD] && Pads(2) == [PAD] + [PAD];
    PlaceIs(table, n, len, pad, 0);
    PlaceIs(table, n, len, pad, 1);
    PlaceIs(table, n, len, pad, 2);
    PlaceIs(table, n, len, pad, 3);
  }

  lemma PlaceIs(table: string, n: nat, len: nat, pad: bool, i: nat)
    requires |table| == 64 && i < 4
    ensures Place(table, n, len, pad, i) == if i <= len then [table[Digit(n, i)]] else if pad then [PAD] else ""
  {
  }

  lemma FourPlaces(table: string, n: nat, len: nat, pad: bool)
    requires |table| == 64
    ensures Quad(table, n, len, pad, 0) == Place(table, n, len, pad, 0) + Place(table, n, len, pad, 1)
                                           + Place(table, n, len, pad, 2) + Place(table, n, len, pad, 3)
  {
    hide Digit, Place;
    var p2, p3 := Place(table, n, len, pad, 2), Place(table, n, len, pad, 3);
    assert Quad(table, n, len, pad, 4) == "";
    assert Quad(table, n, len, pad, 3) == p3;
    assert Quad(table, n, len, pad, 2) == p2 + p3;
    assert Quad(table, n, len, pad, 1) == Place(table, n, len, pad, 1) + (p2 + p3);
  }

  lemma EndOfText(acc: nat, bits: nat)
    requires Holding(acc, bits)
    ensures DecodedFrom("", acc, bits) == Some([])
  {
  }

  lemma DecodesTail(table: string, chunk: seq<Byte>)
    requires IsTable(table) && 1 <= |chunk| <= 2
    ensures DecodedFrom(Quad(table, Word(chunk), |chunk|, false, 0), 0, 0) == Some(chunk)
  {
    hide Digit, Shift, Quad, DecodedFrom;
    var a, b: Byte := chunk[0], if |chunk| == 2 then chunk[1] else 0;
    var n := Word(chunk);
    assert n == 0x10000 * (a as int) + 0x100 * (b as int) + 0;
    var d0, d1, d2 := Digit(n, 0), Digit(n, 1), Digit(n, 2);
    QuadForm(table, n, |chunk|, false);
    GroupBytes(a, b, 0);
    if |chunk| == 2 {
      EndOfText(0, 2);
      OneMore(table[d2], d2, "", b / 16, 4);
      assert [table[d2]] + "" == [table[d2]];
      OneMore(table[d1], d1, [table[d2]], d0, 6);
      OneMore(table[d0], d0, [table[d1]] + [table[d2]], 0, 0);
      assert [table[d0]] + ([table[d1]] + [table[d2]]) == Quad(table, n, 2, false, 0);
      assert chunk == [] + ([a] + ([b] + []));
    } else {
      EndOfText(b / 16, 4);
      OneMore(table[d1], d1, "", d0, 6);
      assert [table[d1]] + "" == [table[d1]];
      OneMore(table[d0], d0, [table[d1]], 0, 0);
      assert [table[d0]] + [table[d1]] == Quad(table, n, 1, false, 0);
      assert chunk == [] + ([a] + []);
    }
  }

  lemma {:induction false} DecodesEncoded(table: string, bytes: seq<Byte>)
    requires IsTable(table)
    ensures DecodedFrom(Encoded(table, bytes, false), 0, 0) == Some(bytes)
  {
    hide Digit, Quad, IsTable, DecodedFrom, Word;
    TableSize(table);
    if |bytes| > 0 {
      var chunk := ChunkOf(bytes);
      var rest := Encoded(table, bytes[|chunk|..], false);
      if |chunk| < 3 {
        DecodesTail(table, chunk);
        Regroup(Quad(table, Word(chunk), |chunk|, false, 0), "", "");
      } else {
        DecodesEncoded(table, bytes[3..]);
        FullGroup(table, chunk, rest);
        assert [chunk[0], chunk[1], chunk[2]] + bytes[3..] == bytes;
      }
    } else {
      EndOfText(0, 0);
    }
  }

  lemma FullGroup(table: string, chunk: seq<Byte>, rest: string)
    requires IsTable(table) && |chunk| == 3
    ensures DecodedFrom(Quad(table, Word(chunk), 3, false, 0) + rest, 0, 0)
              == match DecodedFrom(rest, 0, 0) case None => None case Some(more) => Some([chunk[0], chunk[1], chunk[2]] + more)
  {
    hide Digit, Quad, DecodedFrom;
    var n := Word(chunk);
    QuadForm(table, n, 3, false);
    DecodesGroup(table, chunk[0], chunk[1], chunk[2], rest);
    var d0, d1, d2, d3 := table[Digit(n, 0)], table[Digit(n, 1)], table[Digit(n, 2)], table[Digit(n, 3)];
    assert [d0] + ([d1] + ([d2] + ([d3] + rest))) == Quad(table, n, 3, false, 0) + rest;
  }

  lemma TableSize(table: string)
    requires IsTable(table)
    ensures |table| == 64
  {
  }

  lemma PadIsNoSextet()
    ensures Sextet(PAD) == None
  {
  }

  /** Padding comes at the very end and nowhere else. */
  lemma {:induction false} PaddedForm(table: string, bytes: seq<Byte>) returns (k: nat)
    requires IsTable(table)
    ensures Encoded(table, bytes, true) == Encoded(table, bytes, false) + Pads(k)
    ensures PAD !in Encoded(table, bytes, false)
  {
    hide Digit, Quad, Word, Sextet;
    PadIsNoSextet();
    k := 0;
    if |bytes| > 0 {
      var chunk := ChunkOf(bytes);
      var n := Word(chunk);
      QuadForm(table, n, |chunk|, true);
      QuadForm(table, n, |chunk|, false);
      assert forall i | 0 <= i < 4 :: Sextet(table[Digit(n, i)]).Some?;
      var plain := Quad(table, n, |chunk|, false, 0);
      if |chunk| < 3 {
        k := 3 - |chunk|;
        Regroup(plain, "", "");
        Regroup(Quad(table, n, |chunk|, true, 0), "", "");
      } else {
        k := PaddedForm(table, bytes[3..]);
        Regroup(plain, Encoded(table, bytes[3..], false), Pads(k));
      }
    }
  }

  lemma {:induction false} TrimPads(s: string, k: nat)
    requires PAD !in s
    ensures TrimPad(s + Pads(k)) == s
  {
    if k == 0 {
      assert s + Pads(0) == s;
    } else {
      assert (s + Pads(k))[..|s| + |Pads(k - 1)|] == s + Pads(k - 1);
      TrimPads(s, k - 1);
    }
  }

  /** Decoding undoes both encodings of every byte sequence: padded with the standard alphabet and
      unpadded with the URL-safe one. */
  lemma RoundTrip(bytes: seq<Byte>)
    ensures Decoded(Encoded(STD, bytes, true)) == Some(bytes)
    ensures Decoded(Encoded(URL, bytes, false)) == Some(bytes)
  {
    TablesInOrder();
    hide STD, URL, IsTable, Encoded, DecodedFrom;
    TableSize(STD);
    TableSize(URL);
    var k := PaddedForm(STD, bytes);
    TrimPads(Encoded(STD, bytes, false), k);
    DecodesEncoded(STD, bytes);
    k := PaddedForm(URL, bytes);
    TrimPads(Encoded(URL, bytes, false), 0);
    Regroup(Encoded(URL, bytes, false), "", "");
    DecodesEncoded(URL, bytes);
  }

  /** Text decodes exactly when, padding aside, every character is in one of the alphabets. */
  lemma {:induction false} DecodesAlphabets(s: string, acc: nat, bits: nat)
    requires Holding(acc, bits)
    ensures DecodedFrom(s, acc, bits).Some? <==> forall i :: 0 <= i < |s| ==> Sextet(s[i]).Some?
    ensures DecodedFrom(s, acc, bits).Some? ==> |DecodedFrom(s, acc, bits).value| == (bits + 6 * |s|) / 8
  {
    if |s| > 0 && Sextet(s[0]).Some? {
      var step := Shift(acc, bits, Sextet(s[0]).value);
      DecodesAlphabets(s[1..], step.0, step.1);
      assert s == [s[0]] + s[1..];
    }
  }
}

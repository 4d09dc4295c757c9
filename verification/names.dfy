// Hacker News author names to usernames (crates/hn-import/src/names.rs): rewriting may collide,
// and two accounts must never end up as one user.
module ImportedNames {
  import opened Collections
  import opened Common
  import opened Naming
  import opened Numerals
  import opened Radix
  import TreePath

  const MAX_CHARS: nat := 24
  const TOMBSTONE: string := "hn-anon"

  function Trimmed(s: string): (r: string)
    ensures |r| <= |s|
  {
    if |s| > 0 && IsSeparator(s[|s| - 1]) then Trimmed(s[..|s| - 1]) else s
  }

  // ---- folding one name ---------------------------------------------------------------------

  /** Reads `hn` from position `i` with `folded` written so far. */
  function Folded(hn: string, i: nat, folded: string, afterSeparator: bool): string
    requires i <= |hn|
    decreases |hn| - i
  {
    if i == |hn| then folded
    else
      var c := LowerChar(hn[i]);
      if IsLetter(c) || IsDigit(c) then Folded(hn, i + 1, folded + [c], false)
      else if afterSeparator || folded == "" then Folded(hn, i + 1, folded, afterSeparator)
      else Folded(hn, i + 1, folded + [if IsSeparator(c) then c else '-'], true)
  }

  /** The fold of a name, cut to length. */
  function Stem(hn: string): string {
    Trimmed(Take(Folded(hn, 0, "", false), MAX_CHARS))
  }

  function Sanitized(hn: string): string {
    var folded := Stem(hn);
    match Validated(folded, USERNAME)
    case Ok(name) => name
    case Err(_) =>
      match Validated("hn-" + Trimmed(Take(folded, MAX_CHARS - 3)), USERNAME)
      case Ok(name) => name
      case Err(_) => TOMBSTONE
  }

  method Sanitize(hn: string) returns (r: string)
    ensures r == Sanitized(hn)
  {
    hide Validated;
    var folded, prevSep, i := "", false, 0;
    while i < |hn|
      invariant 0 <= i <= |hn| && Folded(hn, 0, "", false) == Folded(hn, i, folded, prevSep)
    {
      var c := LowerChar(hn[i]);
      var isSep := !(IsLetter(c) || IsDigit(c));
      var keep := if !isSep || IsSeparator(c) then c else '-';
      if !(isSep && (prevSep || folded == "")) {
        folded := folded + [keep];
        prevSep := isSep;
      }
      i := i + 1;
    }
    folded := Trimmed(Take(folded, MAX_CHARS));
    var name := Validate(folded, USERNAME);
    if name.Ok? { return name.value; }
    var prefixed := "hn-" + Trimmed(Take(folded, MAX_CHARS - 3));
    name := Validate(prefixed, USERNAME);
    r := if name.Ok? then name.value else TOMBSTONE;
  }

  /** Whatever the HN name, folding it gives a username that validates as it stands. */
  lemma SanitizedIsAName(hn: string)
    ensures Validated(Sanitized(hn), USERNAME) == Ok(Sanitized(hn))
    ensures IsName(Sanitized(hn), USERNAME)
  {
    hide Validated, IsName, Folded;
    var folded := Stem(hn);
    ValidatedIsName(folded, USERNAME);
    ValidatedIsName("hn-" + Trimmed(Take(folded, MAX_CHARS - 3)), USERNAME);
    TombstoneIsAName();
    ValidatedIsName(Sanitized(hn), USERNAME);
  }

  lemma {:induction false} FoldingKeepsNames(hn: string, i: nat)
    requires i <= |hn| && WellSeparated(Lower(hn))
    ensures var name := Lower(hn);
            Folded(hn, i, name[..i], i > 0 && IsSeparator(name[i - 1])) == name
    decreases |hn| - i
  {
    var name := Lower(hn);
    if i == |hn| {
      assert name[..i] == name;
    } else {
      FoldingKeepsNames(hn, i + 1);
      assert name[..i + 1] == name[..i] + [name[i]] && NameCharacter(name[i]);
    }
  }

  /** A name that is a username already, case aside, is kept. */
  lemma OrdinaryNamesPass(hn: string)
    requires IsName(Lower(hn), USERNAME)
    ensures Sanitized(hn) == Lower(hn)
  {
    hide IsReserved, FirstFault;
    FoldingKeepsNames(hn, 0);
    assert Lower(hn)[..0] == "";
    LowerTwice(hn);
    ValidatedIsName(Lower(hn), USERNAME);
  }

  predicate StartsLikeTombstone(s: string) {
    |s| >= 2 && s[0] == 'h' && s[1] == 'n'
  }

  lemma TombstoneIsAName()
    ensures Validated(TOMBSTONE, USERNAME) == Ok(TOMBSTONE)
  {
    hide Leet, Validated;
    assert Lower(TOMBSTONE) == TOMBSTONE;
    assert HasLetter(TOMBSTONE) by { assert IsLetter(TOMBSTONE[0]); }
    assert WellSeparated(TOMBSTONE);
    LeetTombstone(TOMBSTONE);
    NoneReserved(TOMBSTONE);
    NoneReserved(Leet(TOMBSTONE));
    ValidatedIsName(TOMBSTONE, USERNAME);
  }

  lemma LeetTombstone(s: string)
    requires StartsLikeTombstone(s)
    ensures StartsLikeTombstone(Leet(s))
  {
    var rest := s[1..];
    assert Leet(s) == ['h'] + Leet(rest) && Leet(rest) == ['n'] + Leet(rest[1..]);
  }

  lemma NoneReserved(s: string)
    requires StartsLikeTombstone(s)
    ensures s !in USERNAME.reserved
  {
  }

  // ---- which form is used -------------------------------------------------------------------

  predicate IsPlain(c: char) { IsLetter(LowerChar(c)) || IsDigit(LowerChar(c)) }

  /** There is an ASCII letter or digit at or after position `i`. */
  predicate HasPlain(hn: string, i: nat) {
    exists j :: i <= j < |hn| && IsPlain(hn[j])
  }

  /** The start of a name: its characters, no separator first and no two in a row. */
  predicate StartsName(s: string) {
    && (forall i :: 0 <= i < |s| ==> NameCharacter(s[i]))
    && (|s| > 0 ==> !IsSeparator(s[0]))
    && forall i :: 0 < i < |s| ==> !(IsSeparator(s[i - 1]) && IsSeparator(s[i]))
  }

  lemma {:induction false} FoldingStartsName(hn: string, i: nat, folded: string, afterSeparator: bool)
    requires i <= |hn| && StartsName(folded) && (afterSeparator <==> |folded| > 0 && IsSeparator(folded[|folded| - 1]))
    ensures var r := Folded(hn, i, folded, afterSeparator);
            StartsName(r) && folded <= r && (r == "" <==> folded == "" && !HasPlain(hn, i))
    decreases |hn| - i
  {
    if i < |hn| {
      var c := LowerChar(hn[i]);
      if IsLetter(c) || IsDigit(c) {
        FoldingStartsName(hn, i + 1, folded + [c], false);
      } else if afterSeparator || folded == "" {
        FoldingStartsName(hn, i + 1, folded, afterSeparator);
      } else {
        FoldingStartsName(hn, i + 1, folded + [if IsSeparator(c) then c else '-'], true);
      }
    }
  }

  /** The letters and digits of a string, in lower case. */
  function Plain(s: string): string {
    if |s| == 0 then ""
    else Plain(s[..|s| - 1]) + if IsPlain(s[|s| - 1]) then [LowerChar(s[|s| - 1])] else ""
  }

  lemma PlainOneMore(s: string, c: char)
    ensures Plain(s + [c]) == Plain(s) + if IsPlain(c) then [LowerChar(c)] else ""
  {
    assert (s + [c])[..|s|] == s;
  }

  /** Folding keeps every letter and digit, in order and in lower case. */
  lemma {:induction false} FoldingKeepsPlain(hn: string, i: nat, folded: string, afterSeparator: bool)
    requires i <= |hn| && Plain(folded) == Plain(hn[..i])
    ensures Plain(Folded(hn, i, folded, afterSeparator)) == Plain(hn)
    decreases |hn| - i
  {
    hide Plain;
    if i == |hn| {
      assert hn[..i] == hn;
    } else {
      var c := LowerChar(hn[i]);
      var kept := if IsLetter(c) || IsDigit(c) || IsSeparator(c) then c else '-';
      assert hn[..i + 1] == hn[..i] + [hn[i]];
      PlainOneMore(hn[..i], hn[i]);
      PlainOneMore(folded, kept);
      if IsLetter(c) || IsDigit(c) {
        FoldingKeepsPlain(hn, i + 1, folded + [kept], false);
      } else if afterSeparator || folded == "" {
        FoldingKeepsPlain(hn, i + 1, folded, afterSeparator);
      } else {
        FoldingKeepsPlain(hn, i + 1, folded + [kept], true);
      }
    }
  }

  lemma {:induction false} TrimmedName(s: string)
    requires StartsName(s)
    ensures Trimmed(s) <= s && StartsName(Trimmed(s)) && WellSeparated(Trimmed(s))
    ensures Trimmed(s) == "" <==> s == ""
  {
    if |s| > 0 && IsSeparator(s[|s| - 1]) { TrimmedName(s[..|s| - 1]); }
  }

  lemma CutName(s: string, n: nat)
    requires StartsName(s) && n > 0
    ensures var f := Trimmed(Take(s, n));
            && StartsName(f) && WellSeparated(f) && |f| <= n && Lower(f) == f
            && (f == "" <==> s == "") && f <= s
  {
    TrimmedName(Take(s, n));
  }

  lemma StemIsWellSeparated(hn: string)
    ensures StartsName(Stem(hn)) && WellSeparated(Stem(hn)) && |Stem(hn)| <= MAX_CHARS && Lower(Stem(hn)) == Stem(hn)
    ensures Stem(hn) == "" <==> !HasPlain(hn, 0)
    ensures exists rest :: Plain(hn) == Plain(Stem(hn)) + rest
  {
    assert StartsName("");
    hide Folded, StartsName;
    FoldingStartsName(hn, 0, "", false);
    CutName(Folded(hn, 0, "", false), MAX_CHARS);
    assert hn[..0] == "";
    FoldingKeepsPlain(hn, 0, "", false);
    var folded := Folded(hn, 0, "", false);
    assert Stem(hn) <= folded;
    PlainOfPrefix(Stem(hn), folded);
  }

  lemma {:induction false} PlainOfPrefix(s: string, t: string)
    requires s <= t
    ensures exists rest :: Plain(t) == Plain(s) + rest
    decreases |t|
  {
    if |t| == |s| {
      assert s == t && Plain(t) == Plain(s) + "";
    } else {
      PlainOfPrefix(s, t[..|t| - 1]);
      var rest :| Plain(t[..|t| - 1]) == Plain(s) + rest;
      assert Plain(t) == Plain(s) + (rest + if IsPlain(t[|t| - 1]) then [LowerChar(t[|t| - 1])] else "");
    }
  }

  /** Prefixed, whatever is left of a name is a username. */
  lemma PrefixedIsAName(stem: string)
    requires WellSeparated(stem) && 0 < |stem| <= MAX_CHARS - 3
    ensures Validated("hn-" + stem, USERNAME) == Ok("hn-" + stem)
  {
    hide Leet, Validated;
    var name := "hn-" + stem;
    assert forall i :: 3 <= i < |name| ==> name[i] == stem[i - 3];
    assert Lower(name) == name;
    assert IsLetter(name[0]);
    LeetTombstone(name);
    NoneReserved(name);
    NoneReserved(Leet(name));
    ValidatedIsName(name, USERNAME);
  }

  /** A name without a letter or digit becomes the tombstone. Any other keeps its fold, if that has two
      characters and a letter and is not reserved; if not, the fold gets the prefix. */
  lemma SanitizedByCase(hn: string)
    ensures var stem := Stem(hn);
            Sanitized(hn) ==
              if !HasPlain(hn, 0) then "hn-anon"
              else if |stem| >= 2 && HasLetter(stem) && !IsReserved(stem, USERNAME.reserved) then stem
              else "hn-" + Trimmed(Take(stem, 21))
  {
    hide Validated, IsReserved, HasLetter, Folded, StartsName, WellSeparated, HasPlain;
    var stem := Stem(hn);
    StemIsWellSeparated(hn);
    ValidatedIsName(stem, USERNAME);
    CutName(stem, MAX_CHARS - 3);
    if stem != "" {
      PrefixedIsAName(Trimmed(Take(stem, MAX_CHARS - 3)));
    } else {
      PrefixAlone();
    }
  }

  lemma PrefixAlone()
    ensures Validated("", USERNAME).Err? && Validated("hn-" + Trimmed(Take("", 21)), USERNAME).Err?
  {
    hide IsReserved, HasLetter;
    var name := "hn-" + Trimmed(Take("", 21));
    assert name == "hn-" && Lower(name)[2] == '-';
    ValidatedIsName(name, USERNAME);
  }

  // ---- suffixes -----------------------------------------------------------------------------

  const MAX_SUFFIX: nat := 0x7FFF_FFFF    // the counter is an `i32`

  /** The candidate tried after a collision, numbered `n`. */
  function Suffixed(base: string, n: nat): (s: string)
    requires n <= MAX_SUFFIX
    ensures |s| <= MAX_CHARS
  {
    ShortCounter(n);
    Trimmed(Take(base, MAX_CHARS - 1 - |Print(10, n)|)) + "-" + Print(10, n)
  }

  lemma ShortCounter(n: nat)
    requires n <= MAX_SUFFIX
    ensures |Print(10, n)| <= 10
  {
    assert Pow(10, 4) == 10_000 && Pow(10, 8) == 1_0000_0000 && Pow(10, 10) == 100_0000_0000;
    NumeralLength(10, n, 10);
  }

  /** Different counters give different candidates, because the counter can be read back. */
  lemma SuffixesDiffer(base: string, m: nat, n: nat)
    requires m <= MAX_SUFFIX && n <= MAX_SUFFIX && Suffixed(base, m) == Suffixed(base, n)
    ensures m == n
  {
    hide Print;
    var stemM, stemN := Trimmed(Take(base, MAX_CHARS - 1 - |Print(10, m)|)), Trimmed(Take(base, MAX_CHARS - 1 - |Print(10, n)|));
    PrintCharacters(10, m);
    PrintCharacters(10, n);
    assert Suffixed(base, m) == stemM + ['-'] + Print(10, m) && Suffixed(base, n) == stemN + ['-'] + Print(10, n);
    TreePath.LastIndexAfter(stemM, Print(10, m), '-');
    TreePath.LastIndexAfter(stemN, Print(10, n), '-');
    assert Suffixed(base, m)[|stemM| + 1..] == Print(10, m) && Suffixed(base, n)[|stemN| + 1..] == Print(10, n);
    PrintIsInjective(10, m, n);
  }

  /** The names tried for an account, in order: its folded form, then suffixes from 2 up. */
  function Candidate(base: string, k: nat): string
    requires k < MAX_SUFFIX
  {
    if k == 0 then base else Suffixed(base, k + 1)
  }

  function SuffixesUpTo(base: string, n: nat): set<string>
    requires n <= MAX_SUFFIX
  {
    set k | 2 <= k <= n :: Suffixed(base, k)
  }

  lemma {:induction false} SuffixCount(base: string, n: nat)
    requires 2 <= n <= MAX_SUFFIX
    ensures |SuffixesUpTo(base, n)| == n - 1
  {
    hide Suffixed, Print;
    var last := Suffixed(base, n);
    if n == 2 {
      assert SuffixesUpTo(base, n) == {last};
    } else {
      SuffixCount(base, n - 1);
      var before := SuffixesUpTo(base, n - 1);
      if last in before {
        var k :| 2 <= k <= n - 1 && last == Suffixed(base, k);
        SuffixesDiffer(base, n, k);
      }
      assert SuffixesUpTo(base, n) == before + {last};
    }
  }

  // ---- the table ----------------------------------------------------------------------------

  /** The two maps are each other's inverse. */
  ghost predicate Inverse(byHn: map<string, string>, taken: map<string, string>) {
    && (forall hn :: hn in byHn ==> byHn[hn] in taken && taken[byHn[hn]] == hn)
    && forall name :: name in taken ==> taken[name] in byHn && byHn[taken[name]] == name
  }

  lemma InverseIsInjective(byHn: map<string, string>, taken: map<string, string>, a: string, b: string)
    requires Inverse(byHn, taken) && a in byHn && b in byHn
    ensures byHn[a] == byHn[b] <==> a == b
  {
  }

  lemma FirstCandidate(base: string)
    ensures Candidate(base, 0) == base
  {
  }

  lemma NextCandidate(base: string, n: nat)
    requires 2 <= n <= MAX_SUFFIX
    ensures Candidate(base, n - 1) == Suffixed(base, n)
  {
  }

  lemma InverseExtends(byHn: map<string, string>, taken: map<string, string>, hn: string, name: string)
    requires Inverse(byHn, taken) && hn !in byHn && name !in taken
    ensures Inverse(byHn[hn := name], taken[name := hn])
  {
  }

  /** A name already held is held for somebody else. */
  lemma HeldByAnother(byHn: map<string, string>, taken: map<string, string>, hn: string, name: string)
    requires Inverse(byHn, taken) && hn !in byHn && name in taken
    ensures taken[name] != hn
  {
  }

  /** However many suffixes have been tried in vain, each one is a different name in the table. */
  lemma TriedAreTaken(taken: map<string, string>, base: string, n: nat)
    requires 2 <= n <= MAX_SUFFIX
    requires forall k :: 0 <= k <= n - 2 ==> Candidate(base, k) in taken
    ensures n - 2 <= |taken|
  {
    hide Suffixed, Print;
    if n > 2 {
      forall s | s in SuffixesUpTo(base, n - 1) ensures s in taken {
        var k :| 2 <= k <= n - 1 && s == Suffixed(base, k);
        assert s == Candidate(base, k - 1);
      }
      SuffixCount(base, n - 1);
      SubsetSize(SuffixesUpTo(base, n - 1), taken.Keys);
    }
  }

  lemma IsFirstFree(taken: map<string, string>, base: string, k: nat, name: string)
    requires k < MAX_SUFFIX && name == Candidate(base, k) && name !in taken
    requires forall j :: 0 <= j < k ==> Candidate(base, j) in taken
    ensures FirstFree(taken, base, k, name)
  {
  }

  class Names {
    var byHn: map<string, string>
    var taken: map<string, string>
    var rewritten: nat

    ghost predicate Valid()
      reads this
    {
      Inverse(byHn, taken) && "" in byHn && byHn[""] == TOMBSTONE
    }

    constructor ()
      ensures Valid() && byHn == map["" := TOMBSTONE] && taken == map[TOMBSTONE := ""] && rewritten == 0
    {
      byHn, taken, rewritten := map["" := TOMBSTONE], map[TOMBSTONE := ""], 0;
    }

    /** The name is the first candidate nobody holds; a repeated account gets the name it has. */
    method Resolve(hn: string) returns (name: string)
      requires Valid() && |taken| < MAX_SUFFIX - 2
      modifies this
      ensures Valid() && hn in byHn && byHn[hn] == name
      ensures hn in old(byHn) ==> byHn == old(byHn) && taken == old(taken) && rewritten == old(rewritten)
      ensures hn !in old(byHn) ==>
        && name !in old(taken)
        && byHn == old(byHn)[hn := name] && taken == old(taken)[name := hn]
        && rewritten == old(rewritten) + (if name == Lower(hn) then 0 else 1)
        && exists k :: FirstFree(old(taken), Sanitized(hn), k, name)
    {
      if hn in byHn { return byHn[hn]; }
      hide Sanitized, Inverse, FirstFree;
      var base := Sanitize(hn);
      name := TryCandidates(base, hn);
      if name in taken { HeldByAnother(byHn, taken, hn, name); }
      InverseExtends(byHn, taken, hn, name);
      if name != Lower(hn) { rewritten := rewritten + 1; }
      taken := taken[name := hn];
      byHn := byHn[hn := name];
    }

    /** The loop of `Resolve`: on to the next suffix while somebody else holds the candidate. */
    method TryCandidates(base: string, hn: string) returns (candidate: string)
      requires |taken| < MAX_SUFFIX - 2
      ensures candidate in taken ==> taken[candidate] == hn
      ensures candidate !in taken ==> exists k :: FirstFree(taken, base, k, candidate)
    {
      hide Suffixed, Print, Candidate;
      candidate := base;
      var n := 2;
      FirstCandidate(base);
      while candidate in taken && taken[candidate] != hn
        invariant 2 <= n <= |taken| + 3
        invariant candidate == Candidate(base, n - 2)
        invariant forall k :: 0 <= k < n - 2 ==> Candidate(base, k) in taken
        decreases |taken| + 3 - n
      {
        TriedAreTaken(taken, base, n);
        NextCandidate(base, n);
        candidate := Suffixed(base, n);
        n := n + 1;
      }
      if candidate !in taken { IsFirstFree(taken, base, n - 2, candidate); }
    }
  }

  predicate FirstFree(taken: map<string, string>, base: string, k: nat, name: string) {
    && k < MAX_SUFFIX && name == Candidate(base, k) && name !in taken
    && forall j :: 0 <= j < k ==> Candidate(base, j) in taken
  }

  // ---- a whole import -----------------------------------------------------------------------

  /** Every author of an import in turn: two authors get the same name only if they are the same
      account, a name is given once and for all, and only authorless posts get the tombstone. */
  method ResolveAll(names: Names, authors: seq<string>) returns (r: seq<string>)
    requires names.Valid() && |names.taken| + |authors| < MAX_SUFFIX - 2
    modifies names
    ensures names.Valid() && |r| == |authors|
    ensures forall i, j :: 0 <= i < |r| && 0 <= j < |r| ==> (r[i] == r[j] <==> authors[i] == authors[j])
    ensures forall i :: 0 <= i < |r| ==> (r[i] == TOMBSTONE <==> authors[i] == "")
    ensures forall hn :: hn in old(names.byHn) ==> hn in names.byHn && names.byHn[hn] == old(names.byHn)[hn]
  {
    r := [];
    var i := 0;
    while i < |authors|
      invariant 0 <= i <= |authors| && |r| == i
      invariant names.Valid() && |names.taken| <= |old(names.taken)| + i
      invariant forall hn :: hn in old(names.byHn) ==> hn in names.byHn && names.byHn[hn] == old(names.byHn)[hn]
      invariant forall k :: 0 <= k < i ==> authors[k] in names.byHn && names.byHn[authors[k]] == r[k]
    {
      var name := names.Resolve(authors[i]);
      r := r + [name];
      i := i + 1;
    }
  }

  /** What a new account may be called: its folded name, which is a valid username, or the start of
      that name, a hyphen and a counter from 2 up, no longer than a username may be. */
  lemma CandidatesFit(hn: string, k: nat)
    requires k < MAX_SUFFIX
    ensures var base, name := Sanitized(hn), Candidate(Sanitized(hn), k);
            && |name| <= MAX_CHARS
            && (k == 0 ==> name == base && IsName(name, USERNAME))
            && (k > 0 ==> exists n :: 0 <= n <= |base| && name == base[..n] + "-" + Print(10, k + 1))
  {
    hide Sanitized, IsName, Print;
    var base := Sanitized(hn);
    SanitizedIsAName(hn);
    NameFits(base);
    if k > 0 {
      ShortCounter(k + 1);
      TrimmedIsPrefix(Take(base, MAX_CHARS - 1 - |Print(10, k + 1)|));
      var n := |Trimmed(Take(base, MAX_CHARS - 1 - |Print(10, k + 1)|))|;
      assert Candidate(base, k) == base[..n] + "-" + Print(10, k + 1);
    }
  }

  lemma NameFits(s: string)
    requires IsName(s, USERNAME)
    ensures |s| <= MAX_CHARS
  {
  }

  lemma {:induction false} TrimmedIsPrefix(s: string)
    ensures Trimmed(s) <= s
  {
    if |s| > 0 && IsSeparator(s[|s| - 1]) { TrimmedIsPrefix(s[..|s| - 1]); }
  }
}

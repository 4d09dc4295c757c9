// The character rules shared by usernames and space names (crates/core/src/naming.rs, username.rs
// and space_key.rs).
module Naming {
  import opened Common

  /** `min` is at least one; `reserved` holds lower-case words. */
  datatype Rules = Rules(min: nat, max: nat, reserved: set<string>)

  datatype NameError =
    | WrongLength(chars: nat)
    | BadCharacter(c: char)
    | EdgeSeparator(c: char)
    | DoubleSeparator
    | Reserved(name: string)
    | NoLetter

  const USERNAME: Rules := Rules(2, 24, {
    "about", "admin", "administrator", "anonymous", "api", "deleted", "everyone", "ghost", "guest",
    "help", "me", "mod", "moderator", "notespace", "null", "official", "root", "security",
    "settings", "staff", "support", "system", "undefined", "unknown"})

  const SPACE_NAME: Rules := Rules(2, 32, {
    "about", "admin", "all", "api", "edit", "feed", "help", "new", "notespace", "null", "rss",
    "search", "settings", "undefined"})

  function LowerChar(c: char): char {
    if 'A' <= c <= 'Z' then c + 32 as char else c
  }

  function Lower(s: string): (r: string)
    ensures |r| == |s|
  {
    seq(|s|, i requires 0 <= i < |s| => LowerChar(s[i]))
  }

  predicate IsLetter(c: char) { 'a' <= c <= 'z' }
  predicate IsDigit(c: char) { '0' <= c <= '9' }
  predicate IsSeparator(c: char) { c == '-' || c == '_' }

  /** Digits that pass for letters, separators dropped. */
  function Leet(s: string): string {
    if |s| == 0 then ""
    else
      var rest := Leet(s[1..]);
      if IsSeparator(s[0]) then rest else [LeetChar(LowerChar(s[0]))] + rest
  }

  function LeetChar(c: char): char {
    if c == '0' then 'o' else if c == '1' then 'i' else if c == '3' then 'e' else if c == '4' then 'a'
    else if c == '5' then 's' else if c == '7' then 't' else if c == '8' then 'b' else c
  }

  predicate IsReserved(s: string, list: set<string>) {
    s in list || Leet(s) in list
  }

  // ---- scanning -----------------------------------------------------------------------------

  /** The first character that breaks a rule, reading from position `i`. */
  function FirstFault(s: string, i: nat, afterSeparator: bool): Option<NameError>
    requires i <= |s|
    decreases |s| - i
  {
    if i == |s| then None
    else
      var c := LowerChar(s[i]);
      if IsLetter(c) || IsDigit(c) then FirstFault(s, i + 1, false)
      else if !IsSeparator(c) then Some(BadCharacter(s[i]))
      else if i == 0 || i == |s| - 1 then Some(EdgeSeparator(s[i]))
      else if afterSeparator then Some(DoubleSeparator)
      else FirstFault(s, i + 1, true)
  }

  predicate HasLetter(s: string) {
    exists i :: 0 <= i < |s| && IsLetter(s[i])
  }

  function Validated(s: string, rules: Rules): Result<string, NameError> {
    if !(rules.min <= |s| <= rules.max) then Err(WrongLength(|s|))
    else match FirstFault(s, 0, false)
      case Some(e) => Err(e)
      case None =>
        if !HasLetter(Lower(s)) then Err(NoLetter)
        else if IsReserved(Lower(s), rules.reserved) then Err(Reserved(Lower(s)))
        else Ok(Lower(s))
  }

  method Validate(input: string, rules: Rules) returns (r: Result<string, NameError>)
    ensures r == Validated(input, rules)
  {
    var n := |input|;
    if !(rules.min <= n <= rules.max) { return Err(WrongLength(n)); }
    var out, prevSep, hasLetter, i := "", false, false, 0;
    while i < n
      invariant 0 <= i <= n && out == Lower(input)[..i] && hasLetter == HasLetter(out)
      invariant FirstFault(input, 0, false) == FirstFault(input, i, prevSep)
    {
      var c := LowerChar(input[i]);
      var isSep := IsSeparator(c);
      if IsLetter(c) {
        hasLetter := true;
      } else if IsDigit(c) {
      } else if isSep {
        if i == 0 || i == n - 1 { return Err(EdgeSeparator(input[i])); }
        if prevSep { return Err(DoubleSeparator); }
      } else {
        return Err(BadCharacter(input[i]));
      }
      prevSep := isSep;
      assert (out + [c])[|out|] == c && forall j :: 0 <= j < |out| ==> (out + [c])[j] == out[j];
      out := out + [c];
      i := i + 1;
    }
    assert out == Lower(input);
    if !hasLetter { return Err(NoLetter); }
    if IsReserved(out, rules.reserved) { return Err(Reserved(out)); }
    r := Ok(out);
  }

  // ---- what a name looks like ---------------------------------------------------------------

  predicate NameCharacter(c: char) {
    IsLetter(c) || IsDigit(c) || IsSeparator(c)
  }

  predicate WellSeparated(s: string) {
    && (forall i :: 0 <= i < |s| ==> NameCharacter(s[i]))
    && (|s| > 0 ==> !IsSeparator(s[0]) && !IsSeparator(s[|s| - 1]))
    && forall i :: 0 < i < |s| ==> !(IsSeparator(s[i - 1]) && IsSeparator(s[i]))
  }

  predicate IsName(s: string, rules: Rules) {
    rules.min <= |s| <= rules.max && WellSeparated(s) && HasLetter(s) && !IsReserved(s, rules.reserved)
  }

  lemma {:induction false} FaultlessFrom(s: string, i: nat, afterSeparator: bool)
    requires i <= |s|
    ensures var t := Lower(s);
            FirstFault(s, i, afterSeparator).None? <==>
              && (forall j :: i <= j < |t| ==> NameCharacter(t[j]))
              && (forall j :: i <= j < |t| && (j == 0 || j == |t| - 1) ==> !IsSeparator(t[j]))
              && (i < |t| && afterSeparator ==> !IsSeparator(t[i]))
              && (forall j :: i < j < |t| ==> !(IsSeparator(t[j - 1]) && IsSeparator(t[j])))
    decreases |s| - i
  {
    if i < |s| {
      var t := Lower(s);
      var c := t[i];
      FaultlessFrom(s, i + 1, IsSeparator(c));
      if IsSeparator(c) && i + 1 < |t| && IsSeparator(t[i + 1]) {
        assert FirstFault(s, i + 1, true).Some?;
      }
    }
  }

  lemma LowerTwice(s: string)
    ensures Lower(Lower(s)) == Lower(s)
  {
  }

  /** Validation accepts a string exactly when its lower-case form is a name, and yields that
      form: it folds case and nothing else. */
  lemma ValidatedIsName(s: string, rules: Rules)
    ensures Validated(s, rules).Ok? <==> IsName(Lower(s), rules)
    ensures Validated(s, rules).Ok? ==> Validated(s, rules).value == Lower(s)
    ensures Validated(s, rules).Ok? ==> Validated(Lower(s), rules) == Ok(Lower(s))
  {
    hide IsReserved, HasLetter;
    FaultlessFrom(s, 0, false);
    FaultlessFrom(Lower(s), 0, false);
    LowerTwice(s);
  }
}

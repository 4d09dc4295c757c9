// Keys of the edge cache (crates/core/src/cache_key.rs). Every part that can change what a page
// says is in the key, and no two choices of parts share one.
module CacheKey {
  import opened Common
  import opened Separated
  import opened Radix
  import opened Crockford
  import opened PublicId
  import opened Numerals

  const MAX_HOST: nat := 253

  predicate HostCharacter(c: char) {
    'a' <= c <= 'z' || 'A' <= c <= 'Z' || '0' <= c <= '9' || c == '.' || c == '-' || c == ':'
  }

  predicate IsHostname(host: string) {
    0 < |host| <= MAX_HOST && forall i :: 0 <= i < |host| ==> HostCharacter(host[i])
  }

  datatype Parts = Parts(host: string, thread: Id, version: int, revision: nat, after: Option<string>)

  function ThreadKey(k: Parts): Option<string> {
    if !IsHostname(k.host) then None
    else
      var page := "https://" + k.host + "/t/" + k.thread + "/v" + PrintInt(k.version) + "/r" + Print(16, k.revision);
      match k.after
      case Some(cursor) => Some(page + "?after=" + cursor)
      case None => Some(page)
  }

  // ---- reading a key back -------------------------------------------------------------------

  lemma IdCharacters(x: Id)
    ensures '/' !in x
  {
    var ds := Places(x);
    assert x == Spell('a', ds);
    forall i | 0 <= i < |x| ensures x[i] != '/' { assert x[i] == Symbol('a', ds[i]); }
  }

  function Query(after: Option<string>): string {
    match after case Some(cursor) => "?after=" + cursor case None => ""
  }

  /** The key as nested cuts at separators. */
  lemma KeyCuts(k: Parts)
    requires ThreadKey(k).Some?
    ensures ThreadKey(k).value ==
              "https://" + (k.host + "/" + ("t/" + (k.thread + "/" + ("v" + (PrintInt(k.version) + "/" + ("r" + (Print(16, k.revision) + Query(k.after))))))))
    ensures '/' !in k.host
  {
    hide PrintInt, Print, IsId;
    var v, r, q := PrintInt(k.version), Print(16, k.revision), Query(k.after);
    var page := "https://" + k.host + "/t/" + k.thread + "/v" + v + "/r" + r;
    assert ThreadKey(k).value == page + q;
    assert "/t/" == "/" + "t/" && "/v" == "/" + "v" && "/r" == "/" + "r";
    assert page + q == "https://" + (k.host + "/" + ("t/" + (k.thread + "/" + ("v" + (v + "/" + ("r" + (r + q)))))));
  }

  lemma QueryCut(r: string, a: Option<string>)
    ensures r + Query(a) == if a.Some? then r + ['?'] + ("after=" + a.value) else r
    ensures a.Some? ==> '?' in r + Query(a)
  {
    if a.Some? {
      assert Query(a) == ['?'] + ("after=" + a.value);
      assert (r + Query(a))[|r|] == '?';
    }
  }

  lemma SameQuery(r: string, s: string, a: Option<string>, b: Option<string>)
    requires '?' !in r && '?' !in s && r + Query(a) == s + Query(b)
    ensures r == s && a == b
  {
    hide Query;
    QueryCut(r, a);
    QueryCut(s, b);
    if a.Some? && b.Some? {
      SameHead(r, s, '?', "after=" + a.value, "after=" + b.value);
      SameTail("after=", a.value, b.value);
    }
  }

  /** Two pages share a key only if they are the same page: same host, thread, version, template
      revision and cursor, whatever characters the cursor has. */
  lemma KeysAreInjective(k: Parts, l: Parts)
    requires ThreadKey(k).Some? && ThreadKey(k) == ThreadKey(l)
    ensures k == l
  {
    hide PrintInt, Print, IsId, ThreadKey, Query;
    KeyCuts(k);
    KeyCuts(l);
    var vk, rk := PrintInt(k.version), Print(16, k.revision) + Query(k.after);
    var vl, rl := PrintInt(l.version), Print(16, l.revision) + Query(l.after);
    var versionK, versionL := vk + "/" + ("r" + rk), vl + "/" + ("r" + rl);
    var threadK, threadL := k.thread + "/" + ("v" + versionK), l.thread + "/" + ("v" + versionL);
    var hostK, hostL := k.host + "/" + ("t/" + threadK), l.host + "/" + ("t/" + threadL);
    SameTail("https://", hostK, hostL);
    SameHead(k.host, l.host, '/', "t/" + threadK, "t/" + threadL);
    SameTail("t/", threadK, threadL);
    IdCharacters(k.thread);
    IdCharacters(l.thread);
    SameHead(k.thread, l.thread, '/', "v" + versionK, "v" + versionL);
    SameTail("v", versionK, versionL);
    PrintIntIsInjective(k.version, l.version);
    PrintIntIsInjective(l.version, k.version);
    SameHead(vk, vl, '/', "r" + rk, "r" + rl);
    SameTail("r", rk, rl);
    PrintCharacters(16, k.revision);
    PrintCharacters(16, l.revision);
    SameQuery(Print(16, k.revision), Print(16, l.revision), k.after, l.after);
    PrintIsInjective(16, k.revision, l.revision);
  }
}

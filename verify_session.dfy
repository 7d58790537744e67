/** The two pieces of the session-integrity script (verify_session.js) that
    compute something: `parseCookies`, which turns the Set-Cookie headers of
    a response into a name-to-value map, and the rule that makes a tampered
    copy of a session cookie. The HTTP client and the test driver are not
    part of this model; `decodeURI` is a parameter. */
module VerifySession {
  import opened Common
  import opened Text

  /** `cookie.split(';')[0]`: the name=value pair before any attributes. */
  function PairOf(cookie: string): string
  {
    Split(cookie, ';')[0]
  }

  /** `parts.shift().trim()` with `parts = pair.split('=')`. */
  function CookieKey(cookie: string): string
  {
    Trim(Split(PairOf(cookie), '=')[0])
  }

  /** `decodeURI(parts.join('='))` for the parts after the first. */
  function CookieValue(cookie: string, decode: string -> string): string
  {
    decode(Join(Split(PairOf(cookie), '=')[1..], '='))
  }

  /** The map after the cookies of `cookies` have been stored in order. */
  function ParsedCookies(cookies: seq<string>, decode: string -> string): map<string, string>
  {
    if cookies == [] then map[]
    else ParsedCookies(cookies[..|cookies| - 1], decode)[CookieKey(cookies[|cookies| - 1]) := CookieValue(cookies[|cookies| - 1], decode)]
  }

  /** `parseCookies`: `header` is the `set-cookie` header list, None when the
      response has none. */
  method ParseCookies(header: Option<seq<string>>, decode: string -> string) returns (list: map<string, string>)
    ensures header.None? ==> list == map[]
    ensures header.Some? ==> list == ParsedCookies(header.value, decode)
  {
    list := map[];
    if header.None? {
      return;
    }
    var cookies := header.value;
    var i := 0;
    while i < |cookies|
      invariant 0 <= i <= |cookies|
      invariant list == ParsedCookies(cookies[..i], decode)
    {
      var cookie := cookies[i];
      list := list[CookieKey(cookie) := CookieValue(cookie, decode)];
      assert cookies[..i + 1][..i] == cookies[..i];
      i := i + 1;
    }
    assert cookies[..i] == cookies;
  }

  /** The keys of the map are exactly the keys of the cookies. */
  lemma {:induction false} ParsedKeys(cookies: seq<string>, decode: string -> string)
    ensures forall k :: k in ParsedCookies(cookies, decode) <==> exists i :: 0 <= i < |cookies| && CookieKey(cookies[i]) == k
    decreases |cookies|
  {
    if cookies != [] {
      var init := cookies[..|cookies| - 1];
      ParsedKeys(init, decode);
      assert forall i :: 0 <= i < |init| ==> init[i] == cookies[i];
    }
  }

  /** A cookie whose key no later cookie repeats gives the value stored under
      that key: a later cookie with the same key overwrites an earlier one. */
  lemma {:induction false} LastCookieWins(cookies: seq<string>, decode: string -> string, i: nat)
    requires i < |cookies|
    requires forall j :: i < j < |cookies| ==> CookieKey(cookies[j]) != CookieKey(cookies[i])
    ensures CookieKey(cookies[i]) in ParsedCookies(cookies, decode)
    ensures ParsedCookies(cookies, decode)[CookieKey(cookies[i])] == CookieValue(cookies[i], decode)
    decreases |cookies|
  {
    var last := |cookies| - 1;
    if i < last {
      var init := cookies[..last];
      assert init[i] == cookies[i];
      assert forall j :: i < j < |init| ==> init[j] == cookies[j];
      LastCookieWins(init, decode, i);
      assert CookieKey(cookies[last]) != CookieKey(cookies[i]);
    }
  }

  /** Only the text before the first ';' is read: the key is the trimmed text
      before the first '=' of that pair, and the value is everything after
      that '=', further '=' signs included, decoded. A pair without '='
      has the empty value. */
  lemma PairFields(cookie: string, decode: string -> string)
    ensures PairOf(cookie) == cookie[..IndexOf(cookie, ';')]
    ensures var pair := PairOf(cookie);
      && CookieKey(cookie) == Trim(pair[..IndexOf(pair, '=')])
      && ('=' in pair ==> CookieValue(cookie, decode) == decode(pair[IndexOf(pair, '=') + 1..]))
      && ('=' !in pair ==> CookieValue(cookie, decode) == decode(""))
  {
    SplitAtFirst(cookie, ';');
    var pair := PairOf(cookie);
    SplitAtFirst(pair, '=');
    if '=' in pair {
      var k := IndexOf(pair, '=');
      assert Split(pair, '=')[1..] == Split(pair[k + 1..], '=');
      JoinSplit(pair[k + 1..], '=');
    } else {
      assert pair[..|pair|] == pair;
    }
  }

  /** The tamper rule as written: a value with a '.' gets its last character
      replaced by 'X', any other value gets "tampered" appended. */
  function TamperAsWritten(v: string): (t: string)
    ensures '.' in v ==> |t| == |v| && t[..|v| - 1] == v[..|v| - 1] && t[|v| - 1] == 'X'
    ensures '.' !in v ==> t == v + "tampered"
  {
    if '.' in v then v[..|v| - 1] + "X" else v + "tampered"
  }

  /** A signed value that already ends in 'X' comes out of the rule as it
      went in, so the "tampered" request carries the valid cookie. */
  lemma TamperAsWrittenCanMissTheChange()
    ensures TamperAsWritten("s%3A1.abcX") == "s%3A1.abcX"
  {
    assert '.' in "s%3A1.abcX" by { assert "s%3A1.abcX"[5] == '.'; }
  }

  /** The rule as intended: the last character of a signed value is replaced
      by a different one ('X', or 'Y' if it already was 'X'). */
  function Tamper(v: string): (t: string)
    ensures '.' in v ==> |t| == |v| && t[..|v| - 1] == v[..|v| - 1] && t[|v| - 1] != v[|v| - 1]
    ensures '.' !in v ==> t == v + "tampered"
  {
    if '.' in v then v[..|v| - 1] + (if v[|v| - 1] == 'X' then "Y" else "X") else v + "tampered"
  }

  /** The tampered value always differs from the original. */
  lemma TamperChanges(v: string)
    ensures Tamper(v) != v
  {
    if '.' !in v {
      assert |Tamper(v)| == |v| + 8;
    }
  }
}

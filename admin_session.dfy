/**
 * The client-side session check of `hooks/use-admin-session.ts`: the
 * administrator counts as signed in when one of the `;`-separated entries
 * of `document.cookie`, trimmed, starts with `stellar-admin-session=`.
 *
 * `document.cookie` is the parameter of `CheckSession`.
 */
module AdminSession {
  import opened Wrappers
  import opened Text
  import opened Constants

  /** `${SESSION_COOKIE_NAME}=`. */
  function SessionPrefix(): string {
    SessionCookieName + "="
  }

  /** `c.trim().startsWith(prefix)`: the test `find` applies to each entry. */
  predicate Matches(c: string, prefix: string) {
    StartsWith(Trim(c), prefix)
  }

  /** `Array.prototype.find`: the first entry that passes `test`. */
  function Find(cookies: seq<string>, test: string -> bool): (r: Option<string>)
    ensures r.Some? <==> exists i :: 0 <= i < |cookies| && test(cookies[i])
    ensures r.Some? ==> exists i :: 0 <= i < |cookies| && cookies[i] == r.value && test(r.value)
                                  && forall j :: 0 <= j < i ==> !test(cookies[j])
  {
    if cookies == [] then None
    else if test(cookies[0]) then Some(cookies[0])
    else
      var r := Find(cookies[1..], test);
      assert forall i :: 1 <= i < |cookies| ==> cookies[i] == cookies[1..][i - 1];
      r
  }

  /** Searching two lists one after the other finds something exactly when searching either does. */
  lemma FindConcat(p: seq<string>, q: seq<string>, test: string -> bool)
    ensures Find(p + q, test).Some? <==> Find(p, test).Some? || Find(q, test).Some?
  {
    var pq := p + q;
    if Find(pq, test).Some? {
      var i :| 0 <= i < |pq| && test(pq[i]);
      if i < |p| {
        assert pq[i] == p[i];
      } else {
        assert pq[i] == q[i - |p|];
      }
    }
    if Find(p, test).Some? {
      var i :| 0 <= i < |p| && test(p[i]);
      assert pq[i] == p[i];
    }
    if Find(q, test).Some? {
      var i :| 0 <= i < |q| && test(q[i]);
      assert pq[|p| + i] == q[i];
    }
  }

  /** The test `find` applies, for a given prefix. */
  function EntryTest(prefix: string): string -> bool {
    c => Matches(c, prefix)
  }

  /** `!!x` for a string or undefined: only a non-empty string is truthy. */
  predicate Truthy(x: Option<string>) {
    x.Some? && x.value != []
  }

  /** Whether the entries of `cookie` hold one that starts with `prefix` once trimmed. */
  predicate HasCookie(cookie: string, prefix: string) {
    Truthy(Find(Split(cookie, ';'), EntryTest(prefix)))
  }

  /** The value `checkSession` gives `isAuthenticated`. */
  predicate HasSession(cookie: string) {
    HasCookie(cookie, SessionPrefix())
  }

  /** For a non-empty prefix a found entry is never the empty string: `!!` only asks whether one was found. */
  lemma FoundIsTruthy(cookies: seq<string>, prefix: string)
    requires prefix != []
    ensures Truthy(Find(cookies, EntryTest(prefix))) <==> Find(cookies, EntryTest(prefix)).Some?
  {
    var r := Find(cookies, EntryTest(prefix));
    if r.Some? {
      assert |Trim(r.value)| >= |prefix|;
    }
  }

  /** Signed in exactly when some entry, trimmed, starts with the prefix. */
  lemma HasCookieIff(cookie: string, prefix: string)
    requires prefix != []
    ensures HasCookie(cookie, prefix) <==>
      exists i :: 0 <= i < |Split(cookie, ';')| && StartsWith(Trim(Split(cookie, ';')[i]), prefix)
  {
    var entries := Split(cookie, ';');
    var test := EntryTest(prefix);
    FoundIsTruthy(entries, prefix);
    assert forall i :: 0 <= i < |entries| ==> (test(entries[i]) <==> StartsWith(Trim(entries[i]), prefix));
  }

  /** Where the entry stands in the cookie string does not matter. */
  lemma {:induction false} PositionIrrelevant(a: string, b: string, prefix: string)
    requires prefix != []
    ensures HasCookie(a + ";" + b, prefix) <==> HasCookie(a, prefix) || HasCookie(b, prefix)
  {
    var pa, pb := Split(a, ';'), Split(b, ';');
    SplitConcat(a, b, ';');
    assert a + ";" + b == a + [';'] + b;
    FindConcat(pa, pb, EntryTest(prefix));
    FoundIsTruthy(pa + pb, prefix);
    FoundIsTruthy(pa, prefix);
    FoundIsTruthy(pb, prefix);
  }

  /** An empty cookie string holds no entry with a non-empty prefix. */
  lemma EmptyCookie(prefix: string)
    requires prefix != []
    ensures !HasCookie("", prefix)
  {
    assert Split("", ';') == [[]];
    assert !Matches([], prefix);
  }

  /** A text that starts with a non-blank character keeps its start when trimmed, up to its last non-blank one. */
  lemma {:induction false} TrimKeepsStart(x: string, k: nat)
    requires k < |x| && !IsSpace(x[0]) && !IsSpace(x[k])
    ensures TrimOffset(x) == 0 && |Trim(x)| > k && Trim(x)[..k + 1] == x[..k + 1]
  {
    var r := Trim(x);
    var t := TrimOffset(x);
    assert t == 0;
    assert forall i :: |r| <= i < |x| ==> IsSpace(x[i]) by {
      forall i | |r| <= i < |x| ensures IsSpace(x[i]) {
        assert x[i] == x[|r|..][i - |r|];
      }
    }
  }

  /** An entry `prefix value`, with any blanks before it, counts whatever the value, even empty. */
  lemma {:induction false} AnyValueCounts(w: string, prefix: string, v: string)
    requires AllSpace(w)
    requires prefix != [] && !IsSpace(prefix[0]) && !IsSpace(prefix[|prefix| - 1])
    ensures Matches(w + prefix + v, prefix)
  {
    var x := prefix + v;
    assert w + prefix + v == w + x;
    TrimAfterSpace(w, x);
    TrimKeepsStart(x, |prefix| - 1);
    assert x[..|prefix|] == prefix;
  }

  /** A cookie whose name only begins with the session name, such as `stellar-admin-session2`, does not count. */
  lemma {:induction false} LongerNameRejected(name: string, n: string, rest: string)
    requires name != [] && !IsSpace(name[0])
    requires n != [] && !IsSpace(n[0]) && n[0] != '='
    ensures !Matches(name + n + rest, name + "=")
  {
    var x := name + n + rest;
    var k := |name|;
    assert x[0] == name[0] && x[k] == n[0];
    TrimKeepsStart(x, k);
    assert Trim(x)[k] == x[k];
    assert (name + "=")[k] == '=';
  }

  /** Facts about the session cookie's prefix that the lemmas above ask for. */
  lemma SessionPrefixShape()
    ensures SessionPrefix() != [] && SessionPrefix()[0] == 's' && SessionPrefix()[|SessionPrefix()| - 1] == '='
    ensures SessionPrefix() == SessionCookieName + "=" && SessionCookieName[0] == 's'
    ensures ';' !in SessionPrefix()
  {
  }

  /** Signed in exactly when some entry of `document.cookie`, trimmed, starts with `stellar-admin-session=`. */
  lemma SessionIff(cookie: string)
    ensures HasSession(cookie) <==>
      exists i :: 0 <= i < |Split(cookie, ';')| && StartsWith(Trim(Split(cookie, ';')[i]), SessionCookieName + "=")
  {
    SessionPrefixShape();
    HasCookieIff(cookie, SessionPrefix());
  }

  /** The session entry is found wherever it stands among the cookies. */
  lemma SessionPositionIrrelevant(a: string, b: string)
    ensures HasSession(a + ";" + b) <==> HasSession(a) || HasSession(b)
  {
    SessionPrefixShape();
    PositionIrrelevant(a, b, SessionPrefix());
  }

  /** An empty `document.cookie` signs nobody in. */
  lemma NoCookieNoSession()
    ensures !HasSession("")
  {
    SessionPrefixShape();
    EmptyCookie(SessionPrefix());
  }

  /** A cookie string that is one entry `prefix value` holds that entry, whatever the value. */
  lemma SingleEntry(w: string, prefix: string, v: string)
    requires AllSpace(w) && ';' !in w + prefix + v
    requires prefix != [] && !IsSpace(prefix[0]) && !IsSpace(prefix[|prefix| - 1])
    ensures HasCookie(w + prefix + v, prefix)
  {
    AnyValueCounts(w, prefix, v);
    SplitWithoutSeparator(w + prefix + v, ';');
    FoundIsTruthy([w + prefix + v], prefix);
  }

  /** `stellar-admin-session=` with an empty value, alone in the cookie, signs in. */
  lemma EmptyValueCounts()
    ensures HasSession(SessionPrefix())
  {
    var p := SessionPrefix();
    SessionPrefixShape();
    assert [] + p + [] == p;
    SingleEntry([], p, []);
  }

  /** A longer cookie name that begins with the session name, such as `stellar-admin-session2=x`, does not sign in. */
  lemma LongerSessionNameRejected(n: string, rest: string)
    requires n != [] && !IsSpace(n[0]) && n[0] != '='
    ensures !Matches(SessionCookieName + n + rest, SessionPrefix())
  {
    SessionPrefixShape();
    LongerNameRejected(SessionCookieName, n, rest);
  }

  class Session {
    var isAuthenticated: bool
    var isLoading: bool

    /** The `useState` initial values: not signed in, still loading. */
    constructor ()
      ensures !isAuthenticated && isLoading
    {
      isAuthenticated := false;
      isLoading := true;
    }

    /** `checkSession`. */
    method CheckSession(cookie: string)
      modifies this
      ensures isAuthenticated == HasSession(cookie)
      ensures !isLoading
    {
      var cookies := Split(cookie, ';');
      var sessionCookie := Find(cookies, EntryTest(SessionPrefix()));
      isAuthenticated := Truthy(sessionCookie);
      isLoading := false;
    }
  }
}

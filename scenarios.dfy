/** End-to-end cases of one request/response exchange, and the two general facts they
    rest on: the session id a `Cookie: _session_id=<v>` header carries, and the id a
    `Set-Cookie: _session_id=<v>...` header sets. */
module Scenarios {
  import opened Wrappers
  import opened RackQuery
  import opened Request
  import opened Context
  import SessionIdPattern

  /** A request whose `Cookie` header is the single pair `_session_id=<v>` carries `v`. */
  lemma SessionCookieHeader(v: string)
    requires NoSeparator(v)
    ensures RequestCookieSessionId(map[HttpCookie := Str(SessionKey + "=" + v)]) == Some(v)
  {
    var env := map[HttpCookie := Str(SessionKey + "=" + v)];
    var s := SessionKey + "=" + v;
    assert NoSeparator(s) by {
      assert forall k :: 0 <= k < |SessionKey| + 1 ==> s[k] == (SessionKey + "=")[k];
      assert forall k :: |SessionKey| + 1 <= k < |s| ==> s[k] == v[k - |SessionKey| - 1];
    }
    SplitNoSeparator(s);
    assert '=' !in SessionKey;
    SplitPairOfAssignment(SessionKey, v);
    var pairs := HeaderPairs(NoUnescape, CookieHeader(env));
    assert Pairs(NoUnescape, [s]) == [DecodePair(NoUnescape, SplitPair(s))] + Pairs(NoUnescape, [s][1..]);
    assert pairs == [(SessionKey, Some(v))];
    assert Occurrences(pairs, SessionKey) == [Some(v)] by {
      assert pairs[1..] == [];
    }
  }

  /** A `Set-Cookie` text that starts with `_session_id=<v>`, `v` a non-empty run of
      non-`;` characters ending the text or followed by `;`, sets `v`. */
  lemma SessionSetCookie(v: string, attributes: string)
    requires |v| > 0 && ';' !in v
    requires attributes == [] || attributes[0] == ';'
    ensures NewSessionIdOf(Response(200, map[SetCookie := SessionIdPattern.Prefix + v + attributes], [])) == Some(v)
  {
    var s := SessionIdPattern.Prefix + v + attributes;
    var p := |SessionIdPattern.Prefix|;
    assert s[..p] == SessionIdPattern.Prefix;
    assert s[p] == v[0];
    assert SessionIdPattern.LeftmostMatch(s, 0);
    assert s[p..p + |v|] == v;
    assert SessionIdPattern.CaptureAt(s, p, v);
    SessionIdPattern.MatchIs(s, 0, v);
  }

  const App: Value := Str("shop")
  const OwnerKey: string := "current_user_id"

  /** A session id as a server writes it: non-empty, no `;` or `,`. */
  predicate PlainId(v: string) {
    |v| > 0 && NoSeparator(v)
  }

  /** The env of a request sending `Cookie: _session_id=<v>`. */
  function CookieEnv(v: string): Env {
    map[HttpCookie := Str(SessionKey + "=" + v)]
  }

  /** A response sending `Set-Cookie: _session_id=<v><attributes>`. */
  function SetCookieResponse(v: string, attributes: string): Response {
    Response(200, map[SetCookie := SessionIdPattern.Prefix + v + attributes], [])
  }

  lemma PlainIdSetCookie(v: string)
    requires PlainId(v)
    ensures NewSessionIdOf(SetCookieResponse(v, "; Path=/")) == Some(v)
    ensures NewSessionIdOf(SetCookieResponse(v, "")) == Some(v)
  {
    assert ';' !in v by {
      assert forall k :: 0 <= k < |v| ==> v[k] != ';';
    }
    SessionSetCookie(v, "; Path=/");
    SessionSetCookie(v, "");
  }

  lemma PlainIdCookie(v: string)
    requires PlainId(v)
    ensures RequestCookieSessionId(CookieEnv(v)) == Some(v)
  {
    SessionCookieHeader(v);
  }

  /** Scenario A: `Cookie: _session_id=<v>`, no `Set-Cookie`: nothing is recorded. */
  lemma ScenarioA(v: string)
    ensures Detect(map[], RequestCookieSessionId(CookieEnv(v)), CookieEnv(v), OwnerKey, Response(200, map[], []), App) == map[]
  {
  }

  /** Scenario B: no `Cookie` header, `Set-Cookie: _session_id=<v>; Path=/`: the record
      of the new session, with the owner `unknown`. */
  lemma ScenarioB(v: string)
    requires PlainId(v)
    ensures Detect(map[], RequestCookieSessionId(map[]), map[], OwnerKey, SetCookieResponse(v, "; Path=/"), App)
      == map[ContextIdKey := Str(v), OwnerIdKey := Str("unknown"), ContextStatusKey := Str("unknown"),
              ContextTypeKey := Str("session_cookie"), AppIdKey := App]
  {
    PlainIdSetCookie(v);
    ParseAbsentHeader(NoUnescape);
    assert CookieHeader(map[]) == None;
  }

  /** Scenario C: the response re-sends the id of the request: nothing is recorded. */
  lemma ScenarioC(v: string)
    requires PlainId(v)
    ensures Detect(map[], RequestCookieSessionId(CookieEnv(v)), CookieEnv(v), OwnerKey, SetCookieResponse(v, "; Path=/"), App) == map[]
  {
    PlainIdCookie(v);
    PlainIdSetCookie(v);
    ResentCookieNoRecord(map[], RequestCookieSessionId(CookieEnv(v)), CookieEnv(v), OwnerKey, SetCookieResponse(v, "; Path=/"), App);
  }

  /** Scenario D: a different id is set: it becomes the record's `context_id`. */
  lemma ScenarioD(old_id: string, new_id: string)
    requires PlainId(old_id) && PlainId(new_id) && old_id != new_id
    ensures var r := Detect(map[], RequestCookieSessionId(CookieEnv(old_id)), CookieEnv(old_id), OwnerKey, SetCookieResponse(new_id, ""), App);
      r.Keys == RecordKeys && r[ContextIdKey] == Str(new_id)
  {
    var current, response := RequestCookieSessionId(CookieEnv(old_id)), SetCookieResponse(new_id, "");
    PlainIdCookie(old_id);
    PlainIdSetCookie(new_id);
    assert IsNewSession(NewSessionIdOf(response), current);
    RecordOnNewSession(map[], current, CookieEnv(old_id), OwnerKey, response, App);
  }

  /** The pattern is not anchored: a longer cookie name ending in `_session_id` matches. */
  lemma UnanchoredMatch()
    ensures SessionIdPattern.Match("x_session_id=abc") == Some("abc")
  {
    var s := "x_session_id=abc";
    assert s[1..13] == SessionIdPattern.Prefix;
    assert !SessionIdPattern.MatchesAt(s, 0) by {
      assert s[0] == 'x' && SessionIdPattern.Prefix[0] == '_';
    }
    assert SessionIdPattern.LeftmostMatch(s, 1);
    assert SessionIdPattern.CaptureAt(s, 13, "abc");
    SessionIdPattern.MatchIs(s, 1, "abc");
  }

  /** An empty `_session_id=` is skipped; the search goes on to the next occurrence. */
  lemma EmptyAssignmentSkipped()
    ensures SessionIdPattern.Match("_session_id=;_session_id=b") == Some("b")
  {
    var s := "_session_id=;_session_id=b";
    assert s[13..25] == SessionIdPattern.Prefix by {
      forall k | 0 <= k < 12 ensures s[13 + k] == SessionIdPattern.Prefix[k] {
        assert s[13 + k] == s[k];
      }
    }
    assert !SessionIdPattern.MatchesAt(s, 0) by {
      assert s[12] == ';';
    }
    assert forall j :: 1 <= j < 13 ==> !SessionIdPattern.MatchesAt(s, j) by {
      forall j | 1 <= j < 13 ensures !SessionIdPattern.MatchesAt(s, j) {
        assert s[j + 11] != '=';
        assert SessionIdPattern.Prefix[11] == '=';
        assert s[j..j + 12][11] == s[j + 11];
      }
    }
    assert SessionIdPattern.LeftmostMatch(s, 13);
    assert SessionIdPattern.CaptureAt(s, 25, "b");
    SessionIdPattern.MatchIs(s, 13, "b");
  }

  /** The header `name=value<sep>_session_id=<v>` as two joined pieces. */
  lemma TwoCookieHeader(name: string, value: string, sep: string, v: string)
    ensures JoinWith(Assignments([name, SessionKey], [value, v]), [sep]) == name + "=" + value + sep + SessionKey + "=" + v
  {
    var pieces := Assignments([name, SessionKey], [value, v]);
    assert pieces == [name + "=" + value, SessionKey + "=" + v];
    assert JoinWith(pieces, [sep]) == pieces[0] + sep + JoinWith(pieces[1..], []);
  }

  /** A session cookie after another cookie, whatever the separator text between them
      (`;` or `,`, with or without spaces), is still found, raw. */
  lemma SessionAmongOtherCookies(name: string, value: string, sep: string, v: string)
    requires name != SessionKey && '=' !in name && NoSeparator(name) && NoSeparator(value)
    requires SeparatorText(sep) && NoSeparator(v)
    ensures RequestCookieSessionId(map[HttpCookie := Str(name + "=" + value + sep + SessionKey + "=" + v)]) == Some(v)
  {
    var names, values := [name, SessionKey], [value, v];
    var header := name + "=" + value + sep + SessionKey + "=" + v;
    TwoCookieHeader(name, value, sep, v);
    assert '=' !in SessionKey && NoSeparator(SessionKey);
    assert CookieSyntax(names, values);
    assert SeparatorTexts([sep]);
    LiteralFirstWins(names, values, [sep], 1);
    LookupIsFirstValue(NoUnescape, Some(header), SessionKey);
  }

  /** An empty header value is a value: the parsed store is not consulted. */
  lemma EmptySessionValueNoFallback()
    ensures CookieSessionId(NoUnescape, map[HttpCookie := Str("_session_id="),
                                            DispatchCookies := Jar(map[SessionKey := "stored"])]) == Some("")
  {
    var env := map[HttpCookie := Str("_session_id="), DispatchCookies := Jar(map[SessionKey := "stored"])];
    var env1 := map[HttpCookie := Str(SessionKey + "=" + "")];
    assert SessionKey + "=" + "" == "_session_id=";
    SessionCookieHeader("");
    assert CookieHeader(env) == CookieHeader(env1);
  }

  /** With no header value the parsed store's value is used. */
  lemma FallbackToDispatchCookies()
    ensures CookieSessionId(NoUnescape, map[DispatchCookies := Jar(map[SessionKey := "stored"])]) == Some("stored")
  {
    ParseAbsentHeader(NoUnescape);
    var env := map[DispatchCookies := Jar(map[SessionKey := "stored"])];
    assert CookieHeader(env) == None;
    assert HeaderPairs(NoUnescape, None) == [];
  }

  /** A client of the class: the record of scenario B is written, and a second `call`
      on the same instance without a `Set-Cookie` keeps it. */
  method TwoCallsOnOneInstance() {
    var retriever := new CookieSessionRetriever(map[], App, OwnerKey);
    var id := "xyz789";
    assert PlainId(id);
    var first := retriever.Call(200, map[SetCookie := "_session_id=" + id + "; Path=/"], []);
    ScenarioB(id);
    assert first[ContextIdKey] == Str(id);
    var second := retriever.Call(200, map[], []);
    NoSetCookieNoRecord(first, RequestCookieSessionId(map[]), map[], OwnerKey, Response(200, map[], []), App);
    assert second == first;
  }
}

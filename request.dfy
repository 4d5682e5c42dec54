/** The request side: `ContextRequestMiddleware::Request::CookieSessionIdRetriever`,
    which reads the session id a request carries in its `Cookie` header, falling back to
    the cookie store a framework may already have parsed into the Rack env. */
module Request {
  import opened Wrappers
  import opened RackQuery

  /** The values this core reads from a Rack env: `nil`, a string, or a parsed cookie
      store (`action_dispatch.cookies`), looked up by cookie name. */
  datatype Value = Nil | Str(s: string) | Jar(cookies: map<string, string>)

  /** The Rack env of one request. */
  type Env = map<string, Value>

  const HttpCookie: string := "HTTP_COOKIE"
  const DispatchCookies: string := "action_dispatch.cookies"
  const SessionKey: string := "_session_id"

  /** What Rack and the framework guarantee of the two entries read here: the raw
      `Cookie` header is a string (or absent), the parsed store is a store (or absent). */
  predicate WellFormedEnv(env: Env) {
    && (HttpCookie in env ==> !env[HttpCookie].Jar?)
    && (DispatchCookies in env ==> !env[DispatchCookies].Str?)
  }

  /** The unescaper the class actually hands to the parser. The class defines no
      `unescape`, so the call raises `NoMethodError`, which the `rescue` swallows. */
  function NoUnescape(token: string): Option<string> {
    None
  }

  /** `env[HTTP_COOKIE]`, with `nil` and a missing entry both read as no header. */
  function CookieHeader(env: Env): (header: Option<string>)
    requires WellFormedEnv(env)
    ensures header.Some? <==> HttpCookie in env && env[HttpCookie].Str?
    ensures header.Some? ==> env[HttpCookie] == Str(header.value)
  {
    if HttpCookie in env && env[HttpCookie].Str? then Some(env[HttpCookie].s) else None
  }

  /** `parse_cookies_header`: the parsed hash with every array flattened to its first
      element. Every name of the header is a key, and its value is the first value the
      header gives it that is not `nil` (a piece without `=` gives `nil`). */
  function ParseCookiesHeader(unescape: Unescaper, header: Option<string>): (cookies: map<string, Option<string>>)
    ensures cookies.Keys == Names(HeaderPairs(unescape, header))
    ensures forall k :: k in cookies ==> cookies[k] == FirstValue(Occurrences(HeaderPairs(unescape, header), k))
  {
    var params := ParseQuery(unescape, header);
    map k | k in params :: Head(params[k])
  }

  /** `parse_cookies`: the cookies of the `HTTP_COOKIE` entry. */
  function ParseCookies(unescape: Unescaper, env: Env): (cookies: map<string, Option<string>>)
    requires WellFormedEnv(env)
    ensures cookies.Keys == Names(HeaderPairs(unescape, CookieHeader(env)))
    ensures HttpCookie !in env || env[HttpCookie] == Nil ==> cookies == map[]
  {
    ParseAbsentHeader(unescape);
    ParseCookiesHeader(unescape, CookieHeader(env))
  }

  /** `hash['_session_id']` on a Ruby hash: `nil` for a missing key. */
  function Lookup(cookies: map<string, Option<string>>, key: string): Option<string> {
    if key in cookies then cookies[key] else None
  }

  /** `(env['action_dispatch.cookies'] || {})['_session_id']`. */
  function DispatchSessionId(env: Env): (id: Option<string>)
    requires WellFormedEnv(env)
    ensures id.Some? <==> DispatchCookies in env && env[DispatchCookies].Jar? && SessionKey in env[DispatchCookies].cookies
    ensures id.Some? ==> id.value == env[DispatchCookies].cookies[SessionKey]
  {
    if DispatchCookies in env && env[DispatchCookies].Jar? && SessionKey in env[DispatchCookies].cookies
    then Some(env[DispatchCookies].cookies[SessionKey])
    else None
  }

  /** `call`: the header's `_session_id` when it has one that is not `nil` (the empty
      string counts), otherwise the parsed store's. */
  function CookieSessionId(unescape: Unescaper, env: Env): (id: Option<string>)
    requires WellFormedEnv(env)
    ensures var fromHeader := FirstValue(Occurrences(HeaderPairs(unescape, CookieHeader(env)), SessionKey));
      && (fromHeader.Some? ==> id == fromHeader)
      && (fromHeader.None? ==> id == DispatchSessionId(env))
  {
    LookupIsFirstValue(unescape, CookieHeader(env), SessionKey);
    var fromHeader := Lookup(ParseCookies(unescape, env), SessionKey);
    if fromHeader.Some? then fromHeader else DispatchSessionId(env)
  }

  // ---------------------------------------------------------------------------
  // Lemmas

  /** Looking a name up in the parse gives its first non-`nil` value, or `nil`. */
  lemma LookupIsFirstValue(unescape: Unescaper, header: Option<string>, key: string)
    ensures Lookup(ParseCookiesHeader(unescape, header), key) == FirstValue(Occurrences(HeaderPairs(unescape, header), key))
  {
    var pairs := HeaderPairs(unescape, header);
    if key !in ParseCookiesHeader(unescape, header) {
      OccurrencesOfAbsentName(pairs, key);
    }
  }

  /** With no `Cookie` header the parse is empty. */
  lemma ParseAbsentHeader(unescape: Unescaper)
    ensures ParseCookiesHeader(unescape, None) == map[]
  {
    assert Split("") == [""];
    assert HeaderPairs(unescape, None) == [];
  }

  /** `parse_cookies` reads nothing of the env but its `HTTP_COOKIE` entry. */
  lemma ParseReadsOnlyCookieHeader(unescape: Unescaper, env1: Env, env2: Env)
    requires WellFormedEnv(env1) && WellFormedEnv(env2)
    requires HttpCookie in env1 <==> HttpCookie in env2
    requires HttpCookie in env1 ==> env1[HttpCookie] == env2[HttpCookie]
    ensures ParseCookies(unescape, env1) == ParseCookies(unescape, env2)
  {
  }

  /** A name that occurs once in the header maps to the value it was given there. */
  lemma UniqueNameKeepsItsValue(unescape: Unescaper, header: Option<string>, i: nat)
    requires i < |HeaderPairs(unescape, header)|
    requires var pairs := HeaderPairs(unescape, header);
      forall j :: 0 <= j < |pairs| && j != i ==> pairs[j].0 != pairs[i].0
    ensures var pairs := HeaderPairs(unescape, header);
      pairs[i].0 in ParseCookiesHeader(unescape, header)
      && ParseCookiesHeader(unescape, header)[pairs[i].0] == pairs[i].1
  {
    var pairs := HeaderPairs(unescape, header);
    assert pairs[i].0 in Names(pairs);
    OccurrencesOfUniqueName(pairs, i);
    var v := pairs[i].1;
    assert FirstValue([v]) == v by {
      assert [v][1..] == [];
    }
  }

  /** A repeated name keeps the value of its first occurrence that has one; later
      values are dropped. */
  lemma FirstOccurrenceWins(unescape: Unescaper, header: Option<string>, i: nat)
    requires i < |HeaderPairs(unescape, header)|
    requires HeaderPairs(unescape, header)[i].1.Some?
    requires var pairs := HeaderPairs(unescape, header);
      forall j :: 0 <= j < i && pairs[j].0 == pairs[i].0 ==> pairs[j].1.None?
    ensures var pairs := HeaderPairs(unescape, header);
      ParseCookiesHeader(unescape, header)[pairs[i].0] == pairs[i].1
  {
    var pairs := HeaderPairs(unescape, header);
    assert pairs[i].0 in Names(pairs);
    FirstValueAtIndex(pairs, i);
  }

  /** With the class's own unescaper every token is kept raw. */
  lemma {:induction false} RawTokensKept(pieces: seq<string>)
    ensures Pairs(NoUnescape, pieces) == RawPairs(pieces)
  {
    if pieces != [] {
      RawTokensKept(pieces[1..]);
      if pieces[0] != [] {
        var p := SplitPair(pieces[0]);
        assert Decode(NoUnescape, p.0) == p.0;
        assert DecodePair(NoUnescape, p) == p;
      }
    }
  }

  /** The `name=value` pieces of a header. */
  function Assignments(names: seq<string>, values: seq<string>): (pieces: seq<string>)
    requires |names| == |values|
    ensures |pieces| == |names|
    ensures forall i :: 0 <= i < |names| ==> pieces[i] == names[i] + "=" + values[i]
  {
    if names == [] then [] else [names[0] + "=" + values[0]] + Assignments(names[1..], values[1..])
  }

  /** Cookies a header can carry literally: names free of `=`, names and values free of
      separators, and no name after the first starting with a space. Names may repeat. */
  predicate CookieSyntax(names: seq<string>, values: seq<string>) {
    && |names| == |values| >= 1
    && (forall i :: 0 <= i < |names| ==> '=' !in names[i] && NoSeparator(names[i]) && NoSeparator(values[i]))
    && (forall i :: 1 <= i < |names| ==> names[i] == [] || names[i][0] != ' ')
  }

  predicate DistinctNames(names: seq<string>) {
    forall i, j :: 0 <= i < j < |names| ==> names[i] != names[j]
  }

  /** A `name=value` piece holds a separator only where its name or value does. */
  lemma AssignmentPiece(name: string, value: string)
    requires '=' !in name && NoSeparator(name) && NoSeparator(value)
    ensures NoSeparator(name + "=" + value)
    ensures (name + "=" + value)[0] == if name == [] then '=' else name[0]
    ensures SplitPair(name + "=" + value) == (name, Some(value))
  {
    var piece := name + "=" + value;
    forall k | 0 <= k < |piece| ensures piece[k] !in Separators {
      if k < |name| {
        assert piece[k] == name[k];
      } else if k > |name| {
        assert piece[k] == value[k - |name| - 1];
      }
    }
    SplitPairOfAssignment(name, value);
  }

  lemma CookiePiecesJoinable(names: seq<string>, values: seq<string>)
    requires CookieSyntax(names, values)
    ensures Joinable(Assignments(names, values))
    ensures forall i :: 0 <= i < |names| ==> SplitPair(Assignments(names, values)[i]) == (names[i], Some(values[i]))
  {
    var pieces := Assignments(names, values);
    forall i | 0 <= i < |names|
      ensures NoSeparator(pieces[i])
      ensures SplitPair(pieces[i]) == (names[i], Some(values[i]))
      ensures i >= 1 ==> pieces[i] == [] || pieces[i][0] != ' '
    {
      AssignmentPiece(names[i], values[i]);
    }
  }

  /** The pairs of a header written as `name=value` pieces joined by separators are
      those names and values, raw and in order. */
  lemma CookieHeaderPairs(names: seq<string>, values: seq<string>, seps: seq<string>)
    requires CookieSyntax(names, values)
    requires |seps| + 1 == |names| && SeparatorTexts(seps)
    ensures var pairs := HeaderPairs(NoUnescape, Some(JoinWith(Assignments(names, values), seps)));
      && |pairs| == |names|
      && forall i :: 0 <= i < |names| ==> pairs[i] == (names[i], Some(values[i]))
  {
    var pieces := Assignments(names, values);
    CookiePiecesJoinable(names, values);
    SplitJoin(pieces, seps);
    var pairs := Pairs(NoUnescape, pieces);
    assert forall i :: 0 <= i < |pieces| ==> pieces[i] != [] by {
      forall i | 0 <= i < |pieces| ensures pieces[i] != [] {
        assert |pieces[i]| == |names[i]| + 1 + |values[i]|;
      }
    }
    forall i | 0 <= i < |names| ensures pairs[i] == (names[i], Some(values[i])) {
      var p := SplitPair(pieces[i]);
      assert Decode(NoUnescape, p.0) == p.0;
      assert Decode(NoUnescape, values[i]) == values[i];
    }
  }

  /** When no name repeats, every name maps to the value written with it. */
  lemma DistinctNamesKeepTheirValues(unescape: Unescaper, header: Option<string>)
    requires var pairs := HeaderPairs(unescape, header);
      forall i, j :: 0 <= i < j < |pairs| ==> pairs[i].0 != pairs[j].0
    ensures var pairs := HeaderPairs(unescape, header);
      forall i :: 0 <= i < |pairs| ==>
        pairs[i].0 in ParseCookiesHeader(unescape, header) && ParseCookiesHeader(unescape, header)[pairs[i].0] == pairs[i].1
  {
    var pairs := HeaderPairs(unescape, header);
    forall i | 0 <= i < |pairs|
      ensures pairs[i].0 in ParseCookiesHeader(unescape, header) && ParseCookiesHeader(unescape, header)[pairs[i].0] == pairs[i].1
    {
      assert forall j :: 0 <= j < |pairs| && j != i ==> pairs[j].0 != pairs[i].0;
      UniqueNameKeepsItsValue(unescape, header, i);
    }
  }

  lemma NamesOfPairs(pairs: seq<Pair>, names: seq<string>)
    requires |pairs| == |names| && forall i :: 0 <= i < |names| ==> pairs[i].0 == names[i]
    ensures Names(pairs) == (set i | 0 <= i < |names| :: names[i])
  {
    forall n | n in Names(pairs) ensures n in (set i | 0 <= i < |names| :: names[i]) {
      var i :| 0 <= i < |pairs| && pairs[i].0 == n;
      assert names[i] == n;
    }
    forall i | 0 <= i < |names| ensures names[i] in Names(pairs) {
      assert pairs[i].0 == names[i];
    }
  }

  /** A header that literally writes the cookies `names[i]=values[i]`, separated by `;`
      or `,` and any spaces, parses to exactly those cookies, each with its raw,
      undecoded value. */
  lemma ParseLiteralCookies(names: seq<string>, values: seq<string>, seps: seq<string>)
    requires CookieSyntax(names, values) && DistinctNames(names)
    requires |seps| + 1 == |names| && SeparatorTexts(seps)
    ensures var cookies := ParseCookiesHeader(NoUnescape, Some(JoinWith(Assignments(names, values), seps)));
      && cookies.Keys == (set i | 0 <= i < |names| :: names[i])
      && forall i :: 0 <= i < |names| ==> cookies[names[i]] == Some(values[i])
  {
    var header := Some(JoinWith(Assignments(names, values), seps));
    var pairs := HeaderPairs(NoUnescape, header);
    CookieHeaderPairs(names, values, seps);
    DistinctNamesKeepTheirValues(NoUnescape, header);
    NamesOfPairs(pairs, names);
  }

  /** In a literal header, a name repeated later keeps the value written at its first
      occurrence; later values are dropped. */
  lemma LiteralFirstWins(names: seq<string>, values: seq<string>, seps: seq<string>, i: nat)
    requires CookieSyntax(names, values)
    requires |seps| + 1 == |names| && SeparatorTexts(seps)
    requires i < |names| && forall j :: 0 <= j < i ==> names[j] != names[i]
    ensures var cookies := ParseCookiesHeader(NoUnescape, Some(JoinWith(Assignments(names, values), seps)));
      names[i] in cookies && cookies[names[i]] == Some(values[i])
  {
    var header := Some(JoinWith(Assignments(names, values), seps));
    var pairs := HeaderPairs(NoUnescape, header);
    CookieHeaderPairs(names, values, seps);
    assert pairs[i].0 in Names(pairs);
    FirstOccurrenceWins(NoUnescape, header, i);
  }
}

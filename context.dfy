/** The response side: `ContextRequestMiddleware::Context::CookieSessionRetriever`.
    After the application has answered, it decides whether the exchange has just set a
    new session cookie and, if so, writes a five-field context record into its `data`. */
module Context {
  import opened Wrappers
  import opened RackQuery
  import opened Request
  import SessionIdPattern

  /** The response `call` receives: status, headers and body. Only the `Set-Cookie`
      header is read. */
  datatype Response = Response(status: int, headers: map<string, string>, body: seq<string>)

  const SetCookie: string := "Set-Cookie"

  /** The symbols used as keys of `data`: the five of the record (`:context_id`, ...)
      and any other a caller put there through the `data=` writer. */
  datatype Key = ContextIdKey | OwnerIdKey | ContextStatusKey | ContextTypeKey | AppIdKey | OtherKey(name: string)

  const RecordKeys: set<Key> := {ContextIdKey, OwnerIdKey, ContextStatusKey, ContextTypeKey, AppIdKey}

  const ContextStatus: string := "unknown"
  const ContextType: string := "session_cookie"
  const UnknownOwner: string := "unknown"

  /** A Ruby value from an optional string: the string, or `nil`. */
  function ToValue(o: Option<string>): Value {
    match o
    case Some(s) => Str(s)
    case None => Nil
  }

  /** `@response.headers.fetch('Set-Cookie', nil)`. */
  function SetCookieHeader(response: Response): (header: Option<string>)
    ensures header.Some? <==> SetCookie in response.headers
    ensures header.Some? ==> header.value == response.headers[SetCookie]
  {
    if SetCookie in response.headers then Some(response.headers[SetCookie]) else None
  }

  /** The session id the response sets, if its `Set-Cookie` text matches the pattern. */
  function NewSessionIdOf(response: Response): (id: Option<string>)
    ensures SetCookie !in response.headers ==> id == None
    ensures id.Some? <==>
      && SetCookie in response.headers
      && exists i :: SessionIdPattern.MatchesAt(response.headers[SetCookie], i)
    ensures id.Some? ==> id == SessionIdPattern.Match(response.headers[SetCookie])
    ensures id.Some? ==> |id.value| > 0 && ';' !in id.value
  {
    match SetCookieHeader(response)
    case None => None
    case Some(text) => SessionIdPattern.Match(text)
  }

  /** The session id the request arrived with; `Cookie#cookie_session_id` is read as the
      request-side retriever with the class's own (failing) unescape. The id is therefore
      the header's raw, undecoded `_session_id` text when it has one. */
  function RequestCookieSessionId(env: Env): (id: Option<string>)
    requires WellFormedEnv(env)
    ensures var fromHeader := FirstValue(Occurrences(RawPairs(Split(CookieHeader(env).GetOr(""))), SessionKey));
      && (fromHeader.Some? ==> id == fromHeader)
      && (fromHeader.None? ==> id == DispatchSessionId(env))
  {
    RawTokensKept(Split(CookieHeader(env).GetOr("")));
    CookieSessionId(NoUnescape, env)
  }

  /** `context_changed?`: a session id is set, and it is not the one the request had. */
  predicate IsNewSession(newId: Option<string>, current: Option<string>) {
    newId.Some? && newId != current
  }

  /** `env.fetch(key, default)`: the entry when the key is present, even if it is `nil`. */
  function FromEnv(env: Env, key: string, default: Value): (v: Value)
    ensures key in env ==> v == env[key]
    ensures key !in env ==> v == default
  {
    if key in env then env[key] else default
  }

  /** The five fields written when a new session is detected: `context_status` is always
      `unknown` and `context_type` always `session_cookie`. */
  function ContextRecord(id: string, owner: Value, appId: Value): (r: map<Key, Value>)
    ensures r.Keys == RecordKeys
    ensures r[ContextIdKey] == Str(id) && r[OwnerIdKey] == owner && r[AppIdKey] == appId
    ensures r[ContextStatusKey] == Str("unknown") && r[ContextTypeKey] == Str("session_cookie")
  {
    map[ContextIdKey := Str(id), OwnerIdKey := owner, ContextStatusKey := Str(ContextStatus),
        ContextTypeKey := Str(ContextType), AppIdKey := appId]
  }

  /** What one `call` does to `data`, given the session id the request arrived with:
      with a new session, the five fields are written over whatever `data` held;
      otherwise `data` is left as it is. */
  function Detect(data: map<Key, Value>, current: Option<string>, env: Env, ownerKey: string, response: Response, appId: Value): (r: map<Key, Value>)
    ensures !IsNewSession(NewSessionIdOf(response), current) ==> r == data
    ensures IsNewSession(NewSessionIdOf(response), current) ==>
      r.Keys == data.Keys + RecordKeys && r[ContextIdKey] == Str(NewSessionIdOf(response).value)
  {
    var newId := NewSessionIdOf(response);
    if IsNewSession(newId, current)
    then data + ContextRecord(newId.value, FromEnv(env, ownerKey, Str(UnknownOwner)), appId)
    else data
  }

  /** Writing the five fields one after the other, as `call` does, is writing the record. */
  lemma WriteRecord(data: map<Key, Value>, id: string, owner: Value, appId: Value)
    ensures data[ContextIdKey := Str(id)][OwnerIdKey := owner][ContextStatusKey := Str(ContextStatus)]
      [ContextTypeKey := Str(ContextType)][AppIdKey := appId] == data + ContextRecord(id, owner, appId)
  {
  }

  class CookieSessionRetriever {
    /** `@request`: the Rack env of the request. */
    const request: Env
    /** `ContextRequestMiddleware.app_id`. */
    const appId: Value
    /** `ContextRequestMiddleware.session_owner_id`: the env key holding the owner. */
    const ownerKey: string

    /** `data` (an `attr_accessor`, so callers may also assign it). */
    var data: map<Key, Value>
    /** `@response`, `nil` until the first `call`. */
    var response: Option<Response>
    /** `@session_id`, the memo `new_session_id` and `session_id` write. */
    var sessionId: Option<string>

    predicate Valid() {
      WellFormedEnv(request)
    }

    constructor (request: Env, appId: Value, ownerKey: string)
      requires WellFormedEnv(request)
      ensures Valid()
      ensures this.request == request && this.appId == appId && this.ownerKey == ownerKey
      ensures data == map[] && response == None && sessionId == None
    {
      this.request := request;
      this.appId := appId;
      this.ownerKey := ownerKey;
      data := map[];
      response := None;
      sessionId := None;
    }

    /** `call(status, header, body)`: store the response, write the record when the
        session changed, and return `data`. */
    method Call(status: int, headers: map<string, string>, body: seq<string>) returns (result: map<Key, Value>)
      requires Valid()
      modifies this
      ensures Valid()
      ensures response == Some(Response(status, headers, body))
      ensures data == Detect(old(data), RequestCookieSessionId(request), request, ownerKey, Response(status, headers, body), appId)
      ensures result == data
      ensures var newId := NewSessionIdOf(Response(status, headers, body));
        sessionId == if newId.Some? then newId else old(sessionId)
    {
      response := Some(Response(status, headers, body));
      ghost var before := data;
      ghost var newId := NewSessionIdOf(response.value);
      var changed := ContextChanged();
      if changed {
        var id := SessionId();
        assert id == newId;
        var d := data;
        d := d[ContextIdKey := ToValue(id)];
        d := d[OwnerIdKey := OwnerId()];
        d := d[ContextStatusKey := Str(ContextStatus)];
        d := d[ContextTypeKey := Str(ContextType)];
        d := d[AppIdKey := appId];
        WriteRecord(before, newId.value, OwnerId(), appId);
        data := d;
      }
      result := data;
    }

    /** `owner_id`: the env entry under the owner key, even `nil`, else `unknown`. */
    function OwnerId(): (owner: Value)
      ensures ownerKey in request ==> owner == request[ownerKey]
      ensures ownerKey !in request ==> owner == Str("unknown")
    {
      FromEnv(request, ownerKey, Str(UnknownOwner))
    }

    /** `context_changed?`; each of its two calls of `new_session_id` writes the memo. */
    method ContextChanged() returns (changed: bool)
      requires Valid() && response.Some?
      modifies this`sessionId
      ensures changed == IsNewSession(NewSessionIdOf(response.value), RequestCookieSessionId(request))
      ensures var newId := NewSessionIdOf(response.value);
        sessionId == if newId.Some? then newId else old(sessionId)
    {
      var first := NewSessionId();
      if first.None? {
        return false;
      }
      var again := NewSessionId();
      changed := again != RequestCookieSessionId(request);
    }

    /** `new_session_id`: the id the `Set-Cookie` text sets, remembered in `@session_id`
        when there is one. */
    method NewSessionId() returns (id: Option<string>)
      requires response.Some?
      modifies this`sessionId
      ensures id == NewSessionIdOf(response.value)
      ensures sessionId == if id.Some? then id else old(sessionId)
    {
      var newSession: Option<string> := None;
      var header := SetCookieHeader(response.value);
      if header.Some? {
        newSession := SessionIdPattern.Match(header.value);
      }
      if newSession.Some? {
        sessionId := newSession;
      }
      id := newSession;
    }

    /** `session_id`: the new id if there is one, else the remembered one, else the
        request's (`@session_id ||= request_cookie_session_id`). */
    method SessionId() returns (id: Option<string>)
      requires Valid() && response.Some?
      modifies this`sessionId
      ensures var newId := NewSessionIdOf(response.value);
        sessionId == if newId.Some? then newId
                     else if old(sessionId).Some? then old(sessionId)
                     else RequestCookieSessionId(request)
      ensures id == sessionId
    {
      var _ := NewSessionId();
      if sessionId.None? {
        sessionId := RequestCookieSessionId(request);
      }
      id := sessionId;
    }
  }

  // ---------------------------------------------------------------------------
  // Lemmas

  /** A session change happens exactly when the `Set-Cookie` text matches the pattern
      and the id it sets differs from the request's. */
  lemma ChangedIff(current: Option<string>, response: Response)
    ensures IsNewSession(NewSessionIdOf(response), current) <==>
      && SetCookie in response.headers
      && (exists i :: SessionIdPattern.MatchesAt(response.headers[SetCookie], i))
      && SessionIdPattern.Match(response.headers[SetCookie]) != current
  {
  }

  /** Without a `Set-Cookie` header nothing is written. */
  lemma NoSetCookieNoRecord(data: map<Key, Value>, current: Option<string>, env: Env, ownerKey: string, response: Response, appId: Value)
    requires SetCookie !in response.headers
    ensures Detect(data, current, env, ownerKey, response, appId) == data
  {
  }

  /** A response that re-sends the id the request already had writes nothing. */
  lemma ResentCookieNoRecord(data: map<Key, Value>, current: Option<string>, env: Env, ownerKey: string, response: Response, appId: Value)
    requires NewSessionIdOf(response) == current
    ensures Detect(data, current, env, ownerKey, response, appId) == data
  {
  }

  /** On a new session the record holds exactly the five fields: the new id, the owner
      (the env entry for the owner key even when `nil`, else `unknown`), the two fixed
      literals and the app id; it is written over `data`, whose other keys stay. */
  lemma RecordOnNewSession(data: map<Key, Value>, current: Option<string>, env: Env, ownerKey: string, response: Response, appId: Value)
    requires IsNewSession(NewSessionIdOf(response), current)
    ensures var r := Detect(data, current, env, ownerKey, response, appId);
      && r.Keys == data.Keys + RecordKeys
      && r[ContextIdKey] == Str(NewSessionIdOf(response).value)
      && r[OwnerIdKey] == (if ownerKey in env then env[ownerKey] else Str("unknown"))
      && r[ContextStatusKey] == Str("unknown")
      && r[ContextTypeKey] == Str("session_cookie")
      && r[AppIdKey] == appId
      && (forall k :: k in data && k !in RecordKeys ==> r[k] == data[k])
  {
  }

  /** A fresh instance's record is non-empty exactly when the session changed, and then
      holds the five fields and nothing else. */
  lemma FreshRecordIffChanged(current: Option<string>, env: Env, ownerKey: string, response: Response, appId: Value)
    ensures var r := Detect(map[], current, env, ownerKey, response, appId);
      && (r != map[] <==> IsNewSession(NewSessionIdOf(response), current))
      && (r != map[] ==> r.Keys == RecordKeys)
  {
    var r := Detect(map[], current, env, ownerKey, response, appId);
    if IsNewSession(NewSessionIdOf(response), current) {
      assert ContextIdKey in r;
    }
  }

  /** `call` never removes a key of `data`, and writes no key outside the five. */
  lemma DetectKeepsData(data: map<Key, Value>, current: Option<string>, env: Env, ownerKey: string, response: Response, appId: Value)
    ensures var r := Detect(data, current, env, ownerKey, response, appId);
      && data.Keys <= r.Keys <= data.Keys + RecordKeys
      && (forall k :: k in data && k !in RecordKeys ==> r[k] == data[k])
  {
  }
}

# Cookie session context detection, modelled in Dafny

This project models the logic of `context-request-middleware`, a Rack middleware
helper that decides whether an HTTP exchange has just started a new cookie session.
When it has, the helper builds a five-field context record.

The two core classes:

- `ContextRequestMiddleware::Request::CookieSessionIdRetriever` (request side) reads
  the session id the request carries. It parses the raw `Cookie` header into a
  name → value hash and takes its `_session_id`. When that is `nil`, it falls back to
  the cookie store a framework may already have put in the env
  (`action_dispatch.cookies`).
- `ContextRequestMiddleware::Context::CookieSessionRetriever` (response side)
  searches the response's `Set-Cookie` text with `/_session_id=([^;]+)/`. A session
  change happens exactly when that search finds an id and the id differs from the
  request's. On a change, `call` writes `context_id`, `owner_id`, `context_status`,
  `context_type` and `app_id` into the instance's `data` hash; it returns `data`.

Files and modules:

- `wrappers.dfy` (`Wrappers`): `Option`, standing for Ruby's `nil`-or-value.
- `rack_query.dfy` (`RackQuery`): the header splitting and folding that
  `Rack::Utils.parse_query(header, ';,')` performs. The split is proved to invert
  joining pieces with separator texts, and the other way round. The module also holds
  a reference definition of "the first non-`nil` value of each name" and the lemmas
  that connect the fold to it.
- `request.dfy` (`Request`): `CookieSessionIdRetriever` as pure functions
  (`ParseCookiesHeader`, `ParseCookies`, `CookieSessionId`). The Rack env is a map to
  `Value` (`nil`, a string, or a parsed cookie store).
- `session_id_pattern.dfy` (`SessionIdPattern`): the one regular expression, as a
  leftmost search and a maximal `[^;]+` run. It is specified by `LeftmostMatch` and
  `CaptureAt`.
- `context.dfy` (`Context`): class `CookieSessionRetriever`. It keeps the fields
  `data`, `response` (`@response`) and `sessionId` (the `@session_id` memo), and its
  methods `Call`, `ContextChanged`, `NewSessionId` and `SessionId` update them.
  `Detect` is the value-level specification of one `call`. It takes the request's
  session id as a value; `Call` passes it the request-side result. Lemmas about
  `Detect` state the detection rule.
- `scenarios.dfy` (`Scenarios`): end-to-end exchanges A–D for every well-formed
  session id, concrete pattern cases, and a client that calls one instance twice.

Design points:

- The configuration values `ContextRequestMiddleware.app_id` and
  `ContextRequestMiddleware.session_owner_id` are constructor parameters of the class.
- The request's session id is computed with the request-side model:
  `CookieSessionId(NoUnescape, env)`.
- `unescape` is a parameter of type `string -> Option<string>`, where `None` means
  "raised". The class defines no `unescape` method, so in the source the call raises
  `NoMethodError` and the `rescue` keeps the raw token. `NoUnescape` (always `None`)
  models this, and the detector uses it.
- Rack's fold stores a repeated name's values as an array only once a non-`nil` value
  is stored: `if cur = params[k]` treats a stored `nil` as absent and overwrites it.
  Flattening (`Array === v ? v.first : v`) therefore yields the first non-`nil` value
  of the name (`FirstValue`), or `nil` when every occurrence lacks `=`. Read as "first
  occurrence wins", this holds only when the first occurrence carries a `=`.
- `data` belongs to the instance, so a second `call` on the same instance keeps what
  the first wrote (`DetectKeepsData`, `TwoCallsOnOneInstance`).
- The owner id is `@request.env.fetch(key, 'unknown')`: a present key wins even when
  its value is `nil`.

## Model

| member | source | states |
|---|---|---|
| RackQuery.FirstIndexOf | lib/context_request_middleware/request/cookie_session_id_retriever.rb:32 | the index found is the first character of the given set; none is found exactly when no character belongs to it |
| RackQuery.SkipSpaces | lib/context_request_middleware/request/cookie_session_id_retriever.rb:32 | the ` *` of the split pattern, which swallows the spaces after a separator; its own contract only bounds the length, and `SkipSpacesSpec` states what is kept and dropped |
| RackQuery.SkipSpacesSpec | lib/context_request_middleware/request/cookie_session_id_retriever.rb:32 | the kept text is a suffix that does not start with a space, and every dropped character is a space |
| RackQuery.Split | lib/context_request_middleware/request/cookie_session_id_retriever.rb:32 | `split(/[;,] */)` gives at least one piece, the first a prefix of the text, and no piece holds a separator; `JoinSplit` and `SplitJoin` pin it down completely |
| RackQuery.Separated | lib/context_request_middleware/request/cookie_session_id_retriever.rb:32 | the separator texts `Split` cuts out, in order; their properties are stated by `JoinSplit` |
| RackQuery.SplitCons | lib/context_request_middleware/request/cookie_session_id_retriever.rb:32 | splitting `p + sep + rest`, for a separator-free `p` and a separator text `sep`, gives `p` and then the pieces of `rest`, with `sep` as the separator cut out |
| RackQuery.SplitJoin | lib/context_request_middleware/request/cookie_session_id_retriever.rb:32 | pieces joined with any separator texts (`;` or `,` followed by any spaces) split back into exactly those pieces and separators, as long as no piece holds a separator and no later piece starts with a space |
| RackQuery.JoinSplit | lib/context_request_middleware/request/cookie_session_id_retriever.rb:32 | every text is its pieces rejoined with the separators cut out of it; the pieces are joinable and each separator is a `;` or `,` followed by spaces, so with `SplitJoin` the split is the one such decomposition of the text |
| RackQuery.SplitPair | lib/context_request_middleware/request/cookie_session_id_retriever.rb:32 | a piece is cut at its first `=`: the name holds no `=` and name `=` value rebuilds the piece; no `=` gives a `nil` value and the whole piece as name |
| RackQuery.SplitPairOfAssignment | lib/context_request_middleware/request/cookie_session_id_retriever.rb:32 | cutting `name=value` gives back `name` and `value` when the name holds no `=` |
| RackQuery.Decode | lib/context_request_middleware/request/cookie_session_id_retriever.rb:32 | `unescape(s) rescue s`: a failing unescape keeps the raw token; with the class's own unescape see `Request.RawTokensKept` |
| RackQuery.DecodePair | lib/context_request_middleware/request/cookie_session_id_retriever.rb:32 | a name and an optional value, each passed through `unescape(s) rescue s`; a missing value stays `nil` |
| RackQuery.Pairs | lib/context_request_middleware/request/cookie_session_id_retriever.rb:32 | at most one pair per piece; a list of empty pieces gives no pair; when no piece is empty, pair `i` is the decoded name and value of piece `i`; the general case is `PairsOne` with `PairsAppend` |
| RackQuery.PairsOne | lib/context_request_middleware/request/cookie_session_id_retriever.rb:32 | one empty piece gives no pair; any other piece gives its decoded name and value |
| RackQuery.PairsAppend | lib/context_request_middleware/request/cookie_session_id_retriever.rb:32 | the pieces are handled one at a time and in order: the pairs of `a + b` are the pairs of `a` followed by those of `b` |
| RackQuery.HeaderPairs | lib/context_request_middleware/request/cookie_session_id_retriever.rb:32 | the pairs of `(qs \|\| '')`: a `nil` header is the empty text, which is split, its empty pieces skipped, each other piece cut at its first `=` and decoded |
| RackQuery.Store | lib/context_request_middleware/request/cookie_session_id_retriever.rb:32 | one step of the fold (`if cur = params[k]` then append, else assign); its effect is stated by `StoreStepAt` and `StoreStepOther` |
| RackQuery.StoreStepAt | lib/context_request_middleware/request/cookie_session_id_retriever.rb:32 | after storing a pair, its name's flattened value is the first non-`nil` value given to that name so far, and an array it holds starts with a non-`nil` value |
| RackQuery.StoreStepOther | lib/context_request_middleware/request/cookie_session_id_retriever.rb:32 | storing a pair leaves every other name's entry as it was |
| RackQuery.StoreStep | lib/context_request_middleware/request/cookie_session_id_retriever.rb:32 | one step of the fold keeps its invariant: keys are the names seen so far, each flattened value is the name's first non-`nil` value, arrays start from a non-`nil` value |
| RackQuery.StoreAll | lib/context_request_middleware/request/cookie_session_id_retriever.rb:32 | the keys of the folded hash are exactly the names of the pairs |
| RackQuery.StoreAllFirstValue | lib/context_request_middleware/request/cookie_session_id_retriever.rb:32-33 | the fold's keys are exactly the names in the header; each name's flattened value is its first non-`nil` value; an array only ever starts from a non-`nil` value |
| RackQuery.ParseQuery | lib/context_request_middleware/request/cookie_session_id_retriever.rb:32 | the parsed hash keeps the fold invariant for the header's pairs: its keys are their names and each flattened value is the name's first non-`nil` value |
| RackQuery.Head | lib/context_request_middleware/request/cookie_session_id_retriever.rb:33 | `Array === v ? v.first : v`: an array gives its first element, a scalar itself |
| RackQuery.FirstValueAtIndex | lib/context_request_middleware/request/cookie_session_id_retriever.rb:27-33 | the value at a name's first occurrence that has a value comes before all later ones |
| RackQuery.OccurrencesOfUniqueName | lib/context_request_middleware/request/cookie_session_id_retriever.rb:33 | a name that occurs once has exactly that one value |
| Request.NoUnescape | lib/context_request_middleware/request/cookie_session_id_retriever.rb:32 | the class defines no `unescape` of its own, so the call raises and the rescue keeps the raw token: the unescaper always fails |
| Request.Lookup | lib/context_request_middleware/request/cookie_session_id_retriever.rb:18 | `parse(...)['_session_id']`: the flattened value of that name, or `nil` when the name is absent |
| Request.CookieHeader | lib/context_request_middleware/request/cookie_session_id_retriever.rb:22-23 | the header is the `HTTP_COOKIE` string; a `nil` or missing entry means no header |
| Request.ParseCookiesHeader | lib/context_request_middleware/request/cookie_session_id_retriever.rb:26-34 | the keys are exactly the decoded names of the header, and each value is a scalar: the first non-`nil` value that name was given |
| Request.ParseCookies | lib/context_request_middleware/request/cookie_session_id_retriever.rb:22-24 | the keys are the names of the `HTTP_COOKIE` header's pairs; a missing or `nil` entry parses to an empty hash |
| Request.LookupIsFirstValue | lib/context_request_middleware/request/cookie_session_id_retriever.rb:18 | `parse(...)['_session_id']` is the first non-`nil` value of that name, or `nil` when it is absent |
| Request.ParseAbsentHeader | lib/context_request_middleware/request/cookie_session_id_retriever.rb:23 | an absent `Cookie` header parses to an empty hash |
| Request.ParseReadsOnlyCookieHeader | lib/context_request_middleware/request/cookie_session_id_retriever.rb:22-23 | two envs with the same `HTTP_COOKIE` entry parse alike |
| Request.UniqueNameKeepsItsValue | lib/context_request_middleware/request/cookie_session_id_retriever.rb:32-33 | a name occurring once in the header maps to the value written there |
| Request.FirstOccurrenceWins | lib/context_request_middleware/request/cookie_session_id_retriever.rb:27-33 | a repeated name keeps the value of its first occurrence that has one |
| Request.RawTokensKept | lib/context_request_middleware/request/cookie_session_id_retriever.rb:32 | with the class's own failing unescape the parsed pairs are exactly the raw, undecoded splits of the non-empty pieces |
| Request.CookieHeaderPairs | lib/context_request_middleware/request/cookie_session_id_retriever.rb:32 | a header written as `name=value` pieces joined by separator texts yields exactly those names and values, raw and in order |
| Request.DistinctNamesKeepTheirValues | lib/context_request_middleware/request/cookie_session_id_retriever.rb:32-33 | when no name repeats, every name of the header maps to the value written with it |
| Request.ParseLiteralCookies | lib/context_request_middleware/request/cookie_session_id_retriever.rb:26-34 | a header that literally writes distinct cookies `name=value`, separated by `;` or `,` and any spaces, parses to exactly those cookies with their raw values |
| Request.LiteralFirstWins | lib/context_request_middleware/request/cookie_session_id_retriever.rb:26-34 | in a header that literally writes cookies `name=value`, names possibly repeated, each name maps to the value written at its first occurrence |
| Request.DispatchSessionId | lib/context_request_middleware/request/cookie_session_id_retriever.rb:19 | the fallback is the store's `_session_id` when the store is present and has it, else `nil` |
| Request.CookieSessionId | lib/context_request_middleware/request/cookie_session_id_retriever.rb:17-20 | the result is the header's first non-`nil` `_session_id` value (the empty string included) whenever there is one; the parsed store is consulted only otherwise |
| SessionIdPattern.RunEnd | lib/context_request_middleware/context/cookie_session_retriever.rb:55 | the run ends at the first `;` or at the end of the text, with no `;` before it |
| SessionIdPattern.Search | lib/context_request_middleware/context/cookie_session_retriever.rb:55 | the position found is a match with no match before it; none is found exactly when there is no match |
| SessionIdPattern.Match | lib/context_request_middleware/context/cookie_session_retriever.rb:55-56 | an id is found exactly when the unanchored pattern matches somewhere; it is the capture at the leftmost match: non-empty, free of `;`, ending at a `;` or the end |
| SessionIdPattern.LeftmostUnique | lib/context_request_middleware/context/cookie_session_retriever.rb:55 | there is only one leftmost match |
| SessionIdPattern.CaptureUnique | lib/context_request_middleware/context/cookie_session_retriever.rb:55 | the maximal `[^;]+` run from a position is unique |
| SessionIdPattern.MatchIs | lib/context_request_middleware/context/cookie_session_retriever.rb:55-56 | a leftmost match and its capture determine the result |
| SessionIdPattern.NoPrefixNoMatch | lib/context_request_middleware/context/cookie_session_retriever.rb:55-56 | text where the pattern matches nowhere gives `nil` |
| Context.SetCookieHeader | lib/context_request_middleware/context/cookie_session_retriever.rb:70-72 | there is a header exactly when the response has `Set-Cookie`, and then it is that header's text |
| Context.NewSessionIdOf | lib/context_request_middleware/context/cookie_session_retriever.rb:53-57 | without a `Set-Cookie` header there is no new id; an id exists exactly when the header matches the pattern, and then it is the pattern's capture in that header: non-empty and free of `;` |
| Context.RequestCookieSessionId | lib/context_request_middleware/context/cookie_session_retriever.rb:66-68 | the request's id is the first non-`nil` raw, undecoded `_session_id` value of its `Cookie` header, and the parsed store's only when there is none |
| Context.IsNewSession | lib/context_request_middleware/context/cookie_session_retriever.rb:49 | `new_session_id && new_session_id != request_cookie_session_id`; `ChangedIff` states it in terms of the response |
| Context.FromEnv | lib/context_request_middleware/context/cookie_session_retriever.rb:74-76 | a present key gives its entry, even `nil`; a missing key gives the default |
| Context.ContextRecord | lib/context_request_middleware/context/cookie_session_retriever.rb:39-45 | the record has exactly the five keys; `context_status` is `unknown`, `context_type` is `session_cookie`, and the id, owner and app id are the given ones |
| Context.Detect | lib/context_request_middleware/context/cookie_session_retriever.rb:23-30 | without a new session `data` is unchanged; with one, `data` gains exactly the five record keys and `context_id` is the new id |
| Context.WriteRecord | lib/context_request_middleware/context/cookie_session_retriever.rb:24-28 | the five writes, in order, overlay the record on `data` |
| Context.CookieSessionRetriever.constructor | lib/context_request_middleware/context/cookie_session_retriever.rb:16-19 | a new instance keeps the request and starts with empty `data`, no response and no remembered id |
| Context.CookieSessionRetriever.Call | lib/context_request_middleware/context/cookie_session_retriever.rb:21-31 | stores the response, sets `data` to `Detect` of the old `data` and the request's session id, and returns the new `data`; the memo holds the new id when one was found |
| Context.CookieSessionRetriever.OwnerId | lib/context_request_middleware/context/cookie_session_retriever.rb:35-37 | the env entry under the owner key, even when `nil`; `unknown` when the key is missing |
| Context.CookieSessionRetriever.ContextChanged | lib/context_request_middleware/context/cookie_session_retriever.rb:48-50 | true exactly when a new id was found and differs from the request's |
| Context.CookieSessionRetriever.NewSessionId | lib/context_request_middleware/context/cookie_session_retriever.rb:53-57 | returns the id the `Set-Cookie` text sets, and remembers it only when there is one |
| Context.CookieSessionRetriever.SessionId | lib/context_request_middleware/context/cookie_session_retriever.rb:59-64 | prefers the new id, then the remembered one, then the request's |
| Context.ChangedIff | lib/context_request_middleware/context/cookie_session_retriever.rb:48-50 | a change happens iff there is a `Set-Cookie` header, the pattern matches in it, and the extracted id differs from the request's |
| Context.NoSetCookieNoRecord | lib/context_request_middleware/context/cookie_session_retriever.rb:23 | without `Set-Cookie`, `call` leaves `data` unchanged |
| Context.ResentCookieNoRecord | lib/context_request_middleware/context/cookie_session_retriever.rb:49 | a `Set-Cookie` that re-sends the request's id leaves `data` unchanged |
| Context.RecordOnNewSession | lib/context_request_middleware/context/cookie_session_retriever.rb:23-45 | on a change the record holds the new id, the owner (env entry even if `nil`, else `unknown`), `unknown`, `session_cookie` and the app id; the other keys of `data` stay |
| Context.FreshRecordIffChanged | lib/context_request_middleware/context/cookie_session_retriever.rb:18-30 | on a fresh instance, the record is non-empty exactly when the session changed, and then has exactly the five keys |
| Context.DetectKeepsData | lib/context_request_middleware/context/cookie_session_retriever.rb:23-30 | `call` never removes a key and writes none outside the five |
| Scenarios.SessionCookieHeader | lib/context_request_middleware/request/cookie_session_id_retriever.rb:17-34 | `Cookie: _session_id=<v>` yields `v` |
| Scenarios.SessionAmongOtherCookies | lib/context_request_middleware/request/cookie_session_id_retriever.rb:17-34 | `Cookie: <name>=<value><sep>_session_id=<v>` yields the raw `v`, for any separator text `sep`: `;` or `,`, with or without spaces |
| Scenarios.SessionSetCookie | lib/context_request_middleware/context/cookie_session_retriever.rb:53-57 | `Set-Cookie: _session_id=<v>` with `v` ending at `;` or at the end sets `v` |
| Scenarios.ScenarioA | lib/context_request_middleware/context/cookie_session_retriever.rb:21-31 | a session cookie and no `Set-Cookie`: empty record |
| Scenarios.ScenarioB | lib/context_request_middleware/context/cookie_session_retriever.rb:21-31 | no cookie, a new `Set-Cookie` id: the full record with owner `unknown` |
| Scenarios.ScenarioC | lib/context_request_middleware/context/cookie_session_retriever.rb:21-31 | the same id re-sent: empty record |
| Scenarios.ScenarioD | lib/context_request_middleware/context/cookie_session_retriever.rb:21-31 | a different id set: a record with exactly the five keys whose `context_id` is the new id |
| Scenarios.UnanchoredMatch | lib/context_request_middleware/context/cookie_session_retriever.rb:55 | `x_session_id=abc` also matches |
| Scenarios.EmptyAssignmentSkipped | lib/context_request_middleware/context/cookie_session_retriever.rb:55 | an `_session_id=` followed by `;` is skipped in favour of a later one |
| Scenarios.EmptySessionValueNoFallback | lib/context_request_middleware/request/cookie_session_id_retriever.rb:18-19 | an empty header value is returned; the store is not consulted |
| Scenarios.FallbackToDispatchCookies | lib/context_request_middleware/request/cookie_session_id_retriever.rb:18-19 | without a header value the store's `_session_id` is returned |

## Left out

- `Rack::Response.new` and its header storage are reduced to a `Response` value. Its
  headers are a map with an optional `"Set-Cookie"` entry. Case-insensitive header
  lookup, Rack 3's lower-case names and array-valued `Set-Cookie` headers are not
  modelled.
- Percent-decoding is not modelled. `unescape` is a parameter that may fail, and the
  class's actual one always fails (`NoUnescape`).
- Rack's parameter limits are not modelled. Depending on the version, Rack raises
  once the key space or the parameter count of one header is exceeded.
- `Split` keeps the empty pieces that Ruby's `String#split` drops (trailing ones, and
  the single piece of `""`). The fold skips every empty piece, so the parsed hash is
  the same.
- `ContextRequestMiddleware::Cookie#cookie_session_id` is not part of this model. It
  is taken to be the request-side retriever applied to the request.
- `ActiveSupport::Configurable` and the module-level configuration are not modelled.
  `app_id` and `session_owner_id` are constructor parameters, and the owner key is
  a string.
- Request.CookieSessionId: requires `WellFormedEnv`, meaning the `HTTP_COOKIE` entry
  is a string or `nil` and `action_dispatch.cookies` is a store or `nil`. Rack and
  the framework guarantee both. Other values, which would make Ruby raise or index a
  string, are not modelled.
- Ruby's general regular-expression engine is not modelled; only the one fixed
  pattern is. String encodings, whose errors could make `match` raise, are not
  modelled either.
- Scenarios.ScenarioB: it and the other end-to-end scenarios are stated for ids that
  are non-empty and free of `;` and `,`, which is the form servers write. They are
  not stated for the literal ids of one example.
- Context.CookieSessionRetriever.constructor: `request` is a copy of the env taken
  when the instance is built. The source keeps `@request` and reads the live
  `@request.env` on every `call`: for the owner id (`from_env`) and for the request's
  cookie session id. Changes the application makes to the env after `initialize`, or
  between two calls, are therefore not modelled.
- Context.CookieSessionRetriever.Call: `data` is a map value, so the identity of the
  returned Hash is not modelled. In the source `call` returns the instance's own
  Hash: a later `call` changes every earlier result, and a caller writing into the
  result writes into `data`.
- The outer middleware, message publishing and concurrency are outside these two
  classes.

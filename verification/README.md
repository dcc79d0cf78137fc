# app-session: a Dafny model of the session layer

This project models the session layer of the `app-session` PHP package and
proves properties of the model. The layer has three parts:

- **`DataContainer`** is the change-tracked, ordered key/value map of one
  session. Values set into it are normalised through a JSON round trip.
  `hasChanged` compares the current array with the one given at construction
  using PHP's `!==`, which also compares order.
- **`AbstractSession`** is the session facade. `LazySession` creates its
  container through a factory on first data access. `Session` takes a
  container, or an array to wrap in one, when it is built.
- **`PhpSessionPersistence`** works on top of PHP's session extension. It:
  - reads the session id from the request's Cookie header;
  - builds the session;
  - when the request ends, writes the data back: only when it changed, or
    when a regenerated session has data to carry to its new id;
  - adds a `Set-Cookie` header and the cache headers of the configured
    cache limiter to the response.

The session extension becomes an abstract store (`SessionExt`) with these
parts:

- a status: disabled, none or active;
- the current session id;
- `$_SESSION`;
- the data the save handler keeps per id;
- a set of ids whose `session_start` fails;
- the `session.*` ini settings.

Each step of `startSession`, `createDataContainer` and `writeAndClose` is a
pure transition function on that store's state. The methods that drive the
store are proved against those functions. The lemmas prove properties of the
functions.

Modules, from the bottom up:

| module | file | models |
|---|---|---|
| `Wrappers` | `wrappers.dfy` | `Option`, `Result`, and the three failures: sessions disabled, an invalid `$data` argument, and a value `json_encode` cannot encode |
| `JsonValues` | `json_values.dfy` | PHP values and `extractSerializableValue` |
| `AssocLists` | `assoc_lists.dfy` | ordered PHP arrays with string keys: lookup, assignment, `unset` |
| `Containers` | `containers.dfy` | `DataContainer` |
| `PhpStrings` | `php_strings.dfy` | `urlencode`/`urldecode`, `bin2hex`, `explode`/`implode`, the cookie `preg_split`, `filter_var` for booleans |
| `Http` | `http.dfy` | PSR-7 header maps |
| `SessionExt` | `session_ext.dfy` | the session extension |
| `ContainerFactory` | `container_factory.dfy` | `startSession`, `createDataContainer`, the lazy session's factory closure |
| `Sessions` | `sessions.dfy` | `AbstractSession`, `LazySession`, `Session` |
| `Persistence` | `persistence.dfy` | the rest of `PhpSessionPersistence` |

Dafny has no inheritance here, so `AbstractSession` is one class with two
constructors. `LazySession` builds a session that holds a factory.
`Session` builds one that holds a container. The ghost field `factoryCalls`
counts the containers the factory has produced, and the class invariant ties
it to the container field: it is 0 while there is no container and 1 once
there is one.

Some behaviours of the code are easy to misread, and the model follows the code in each:

- The cookie value is cut at its second `=`, because `explode('=')` splits at
  every `=` and only `parts[1]` is kept. It is not the whole text after the
  first `=`.
- The cookie's domain, path, `secure` and `httponly` flags, and its default
  lifetime are read from the ini settings each time a cookie line is built.
  Only the cache limiter and the cache expiry are captured in the
  constructor.
- A request without an id does not open the store. Its container wraps
  `$_SESSION ?? []` as it is at that moment, so it is not always empty.
- `hasChanged` is order-sensitive. Unsetting a key that is not the last one
  and then setting it back to its old value leaves `hasChanged` true.
- `DataContainer.php` declares `strict_types=1`. So when `json_encode`
  fails and returns false, `json_decode(false, true)` raises a TypeError.
  `set` then raises and stores nothing; the value does not become null.

## Model

| member | source | states |
|---|---|---|
| `JsonValues.SerializableIsNormalize` | src/App/Session/DataContainer.php:73-76 | The value `set` stores is the JSON normalisation of the value given. Scalars and null pass through unchanged. There is no value to store exactly when the value cannot be encoded; otherwise the value stored is plain JSON data. |
| `JsonValues.NormalizeIsJsonData` | src/App/Session/DataContainer.php:111-114 | `json_decode(json_encode(v), true)` yields a value exactly when `v` can be encoded, and that value is JSON data: objects become arrays. Otherwise the call raises. |
| `JsonValues.NormalizeFixesJsonData` | src/App/Session/DataContainer.php:111-114 | The round trip leaves plain JSON data unchanged. |
| `JsonValues.NormalizeIdempotent` | src/App/Session/DataContainer.php:111-114 | Normalising twice is normalising once. |
| `JsonValues.DecodedIsJsonData` | src/App/Session/DataContainer.php:111-114 | Decoding an encodable value, objects included, yields JSON data. |
| `JsonValues.DecodedFixesJsonData` | src/App/Session/DataContainer.php:111-114 | JSON data is encodable, and decoding leaves it unchanged. |
| `AssocLists.LookupPresent` | src/App/Session/DataContainer.php:63-66 | A key has an entry exactly when it is one of the array's keys. |
| `AssocLists.LookupPut` | src/App/Session/DataContainer.php:73-76 | After `$data[$k] = $v`, key `k` reads `v`. Every other key reads what it read before. |
| `AssocLists.PutKeys` | src/App/Session/DataContainer.php:73-77 | Assignment adds `k` to the key set and keeps the keys distinct. |
| `AssocLists.LookupRemove` | src/App/Session/DataContainer.php:82-83 | After `unset($data[$k])`, `k` is absent. Every other key reads what it read before. |
| `AssocLists.RemoveKeys` | src/App/Session/DataContainer.php:82-83 | `unset` removes exactly `k` from the key set and keeps the keys distinct. |
| `AssocLists.PutPresentKeepsOrder` | src/App/Session/DataContainer.php:73-76 | Assigning to an existing key keeps the length and every key's position. |
| `AssocLists.PutAbsentAppends` | src/App/Session/DataContainer.php:73-76 | Assigning to a new key appends the entry at the end. |
| `AssocLists.PutSameValue` | src/App/Session/DataContainer.php:73-76 | Assigning a key the value it already holds leaves the array identical. |
| `AssocLists.RemoveAt` | src/App/Session/DataContainer.php:82 | `unset` of the key at position `i` cuts exactly that entry out. |
| `AssocLists.RemoveAbsent` | src/App/Session/DataContainer.php:82 | `unset` of an absent key leaves the array identical. |
| `AssocLists.UnsetThenResetAppends` | src/App/Session/DataContainer.php:71-84 | Unsetting the key at position `i` and setting it back to its value moves that entry to the end. |
| `AssocLists.UnsetThenResetReorders` | src/App/Session/DataContainer.php:97-100 | That unset-then-reset gives back an array `===` the original exactly when the key was the last one. Otherwise `hasChanged` becomes true. |
| `Containers.DataContainer.constructor` | src/App/Session/DataContainer.php:50-56 | `data` and `originalData` are the array given, or empty for null. The key set matches the data. `hasChanged()` is false. |
| `Containers.DataContainer.Get` | src/App/Session/DataContainer.php:58-61 | Returns the default for an absent key and for a stored null (`??`). Otherwise returns the stored value. |
| `Containers.DataContainer.Has` | src/App/Session/DataContainer.php:63-66 | True exactly when the key has an entry, a stored null included. |
| `Containers.DataContainer.ToArray` | src/App/Session/DataContainer.php:92-95 | Returns the data itself. Its keys are distinct, they are the presence set, and it has an entry exactly for the keys `has` reports. |
| `Containers.DataContainer.HasChanged` | src/App/Session/DataContainer.php:97-100 | An unchanged container has its keys in the order it was built with, and each key reads the value it was built with. |
| `Containers.HasChangedExactly` | src/App/Session/DataContainer.php:97-100 | `hasChanged()` is true exactly when some key reads a value other than the one it was built with, or the keys stand in another order. |
| `AssocLists.SameArray` | src/App/Session/DataContainer.php:99 | Two arrays with distinct keys are `===` exactly when their keys stand in the same order and every key reads the same value. |
| `Containers.UnsetThenResetHasChanged` | src/App/Session/DataContainer.php:71-100 | After unsetting the key at position `i` and setting it back to its value, every key reads its original value. Yet `hasChanged()` is true exactly when that key was not the last one. |
| `Containers.DataContainer.Set` | src/App/Session/DataContainer.php:71-78 | Raises the TypeError exactly when the value cannot be encoded, and then changes nothing. Otherwise it stores the normalised value; a scalar or null is stored as it is. After a store:<br>• `has(k)` holds and `get(k, d)` returns the stored value, or `d` when that value is null.<br>• Every other key is unchanged.<br>• An existing key keeps its position.<br>• Re-setting a key to its current value changes nothing, `hasChanged` included. |
| `Containers.DataContainer.Unset` | src/App/Session/DataContainer.php:80-84 | Removes the key from the data and from the presence set. `has(k)` is false, and `k` is not in `toArray()`. Every other key is unchanged. |
| `Containers.DataContainer.Clear` | src/App/Session/DataContainer.php:86-90 | Empties the data and the presence set, so `has` is false for every key. `hasChanged()` is true exactly when the original data was not empty. |
| `PhpStrings.Bin2Hex` | src/App/Session/Persistence/Ext/PhpSessionPersistence.php:250 | `bin2hex` gives two lower-case hex digits per byte. |
| `PhpStrings.Bin2HexAt` | src/App/Session/Persistence/Ext/PhpSessionPersistence.php:250 | The two digits at position `2i` are the high and low nibble of byte `i`. |
| `PhpStrings.Bin2HexInjective` | src/App/Session/Persistence/Ext/PhpSessionPersistence.php:250 | Different byte strings have different hex forms. |
| `PhpStrings.UrlEncode` | src/App/Session/Persistence/Ext/PhpSessionPersistence.php:318 | `urlencode` output consists only of letters, digits, `-_.`, `+` and `%`. |
| `PhpStrings.UrlDecodeEncode` | src/App/Session/Persistence/Ext/PhpSessionPersistence.php:318 | `urldecode(urlencode(s)) == s` for every byte string. |
| `PhpStrings.UrlEncodeUnreserved` | src/App/Session/Persistence/Ext/PhpSessionPersistence.php:318 | A string of letters, digits and `-_.` (a generated id, for one) is left unchanged by `urlencode`. |
| `PhpStrings.Split` | src/App/Session/Persistence/Ext/PhpSessionPersistence.php:272 | `explode` gives at least one piece, and no piece contains the separator. |
| `PhpStrings.JoinSplit` | src/App/Session/Persistence/Ext/PhpSessionPersistence.php:272 | `implode($sep, explode($sep, $s)) == $s`. |
| `PhpStrings.SplitWithoutSeparator` | src/App/Session/Persistence/Ext/PhpSessionPersistence.php:272 | A string without the separator explodes to itself alone. |
| `PhpStrings.SplitAt` | src/App/Session/Persistence/Ext/PhpSessionPersistence.php:272 | Exploding `p . sep . rest` gives `p`, then the pieces of `rest`, when `p` has no separator. |
| `PhpStrings.SplitJoinFirst` | src/App/Session/Persistence/Ext/PhpSessionPersistence.php:350 | The first `;`-piece of a `"; "`-joined line is its first part, when that part has no `;`. |
| `PhpStrings.SplitCookies` | src/App/Session/Persistence/Ext/PhpSessionPersistence.php:269 | `preg_split('/\s*;\s*/')` gives one piece per `;`-piece of the line. No piece holds a `;`. No piece but the first starts with white space, and no piece but the last ends with it. |
| `PhpStrings.SplitCookiesPieces` | src/App/Session/Persistence/Ext/PhpSessionPersistence.php:269 | Cookie `i` is the `i`-th `;`-piece of the line with only white space cut off: from its start unless it is the first piece, from its end unless it is the last. With the edge clauses of `SplitCookies`, this fixes each piece exactly. |
| `PhpStrings.CookiePiece` | src/App/Session/Persistence/Ext/PhpSessionPersistence.php:269 | A `;`-piece loses exactly the white space next to its `;`s: what is cut is all white space, and what is kept does not start or end with white space on a trimmed side. |
| `PhpStrings.TrimLeftCutsSpace` | src/App/Session/Persistence/Ext/PhpSessionPersistence.php:269 | The leading `\s*` removed before a piece is nothing but white space. |
| `PhpStrings.TrimRightCutsSpace` | src/App/Session/Persistence/Ext/PhpSessionPersistence.php:269 | The trailing `\s*` removed after a piece is nothing but white space. |
| `PhpStrings.SplitCookiesJoin` | src/App/Session/Persistence/Ext/PhpSessionPersistence.php:269 | Cookies joined by `"; "` split back into the same cookies, when none holds a `;` or starts or ends with white space. |
| `PhpStrings.SplitJoin` | src/App/Session/Persistence/Ext/PhpSessionPersistence.php:272 | `explode($sep, implode($sep, $parts))` gives the parts back, when no part holds the separator. |
| `PhpStrings.FilterBool` | src/App/Session/Persistence/Ext/PhpSessionPersistence.php:338-339 | With `FILTER_NULL_ON_FAILURE`, the result is true exactly for `1`, `true`, `on` and `yes`, and false exactly for `0`, `false`, `off`, `no` and the empty string. Values are compared without case after trimming space, `\t`, `\n`, `\r` and `\v` from both ends; anything else gives null. |
| `Http.GetHeaderLine` | src/App/Session/Persistence/Ext/PhpSessionPersistence.php:262 | An absent header gives the empty line. A header with one value gives that value. Splitting the line of comma-free values at its commas gives the values back. |
| `Http.WithHeader` | src/App/Session/Persistence/Ext/PhpSessionPersistence.php:364 | `withHeader` replaces the header's values with the one value. Every other header is unchanged. |
| `Http.WithAddedHeader` | src/App/Session/Persistence/Ext/PhpSessionPersistence.php:303-306 | `withAddedHeader` appends one value to the header's values. Every other header is unchanged. |
| `SessionExt.SessionExtension.SessionStart` | src/App/Session/Persistence/Ext/PhpSessionPersistence.php:235-236 | `session_start` is the `Start` transition:<br>• it fails for a refused id;<br>• otherwise it loads the stored data into `$_SESSION`;<br>• it stays open unless `read_and_close` is set. |
| `SessionExt.SessionExtension.SessionWriteClose` | src/App/Session/Persistence/Ext/PhpSessionPersistence.php:200-201 | `session_write_close` stores `$_SESSION` for an active session and closes it. Otherwise it does nothing. |
| `SessionExt.SessionExtension.SetSessionId` | src/App/Session/Persistence/Ext/PhpSessionPersistence.php:235 | `session_id($id)` changes only the current id. |
| `SessionExt.SessionExtension.AssignSuperglobal` | src/App/Session/Persistence/Ext/PhpSessionPersistence.php:196 | `$_SESSION = $data` changes only `$_SESSION`. |
| `ContainerFactory.StartSessionSpec` | src/App/Session/Persistence/Ext/PhpSessionPersistence.php:214-243 | `startSession` raises exactly when sessions are disabled. Otherwise:<br>• It reuses an open session with the same id and changes nothing.<br>• It writes and closes a session open under another id.<br>• It returns true exactly for an id the handler accepts, which then becomes active (or is closed at once with `read_and_close`) with the stored data in `$_SESSION`.<br>• On false it restores the previous id, leaving no session open and `$_SESSION` as it was.<br>• No stored data is lost. |
| `ContainerFactory.StartSession` | src/App/Session/Persistence/Ext/PhpSessionPersistence.php:214-243 | The method's result and the extension's new state are those of `StartSessionSpec`. |
| `ContainerFactory.OpenForRead` | src/App/Session/Persistence/Ext/PhpSessionPersistence.php:151-157 | The store is opened only for a truthy id, so `''` and `"0"` leave it untouched. It is opened with `read_and_close` set to the non-locking flag, so a non-locking open leaves no session active. |
| `ContainerFactory.CreateDataContainer` | src/App/Session/Persistence/Ext/PhpSessionPersistence.php:151-160 | The store changes as `OpenForRead` says. On success the result is a fresh, unchanged container holding `$_SESSION ?? []`. The only failure is disabled sessions. |
| `Sessions.AbstractSession.LazySession` | src/App/Session/LazySession.php:49-54 | Keeps the id, the new flag and the factory. It does not call the factory: there is no container, `factoryCalls` is 0 and `hasChanged()` is false. There is no lifetime and the session is not regenerated. |
| `Sessions.AbstractSession.Session` | src/App/Session/Session.php:32-37 | A container argument is kept as the same object. There is no lifetime and the session is not regenerated. |
| `Sessions.NewSession` | src/App/Session/Session.php:32-47 | A container argument is kept as the same object. An array is wrapped in a fresh container, so `hasChanged()` is false and its data is the array. Any other argument fails, and only that case fails. |
| `Sessions.AbstractSession.Data` | src/App/Session/LazySession.php:58-65 | With a container present, it returns that container and changes nothing. Otherwise the factory opens the store as `OpenForRead` says. On success it stores and returns the fresh container, and `factoryCalls` becomes 1. On failure there is still no container, and the only failure is disabled sessions. |
| `Sessions.AbstractSession.Get` | src/App/Session/AbstractSession.php:83-86 | Behaves as `data()`, then returns the container's `get` on the data seen, which it does not change. |
| `Sessions.AbstractSession.Has` | src/App/Session/AbstractSession.php:88-91 | Behaves as `data()`, then returns the container's `has`. |
| `Sessions.AbstractSession.Set` | src/App/Session/AbstractSession.php:93-96 | Behaves as `data()`, so it fails when sessions are disabled. With a container, it fails exactly when the value cannot be encoded, and then the data is the data seen. On success the data is the data seen with the normalised value assigned. |
| `Sessions.AbstractSession.Unset` | src/App/Session/AbstractSession.php:98-101 | Behaves as `data()`; then the container's data is the data seen with the key removed. |
| `Sessions.AbstractSession.Clear` | src/App/Session/AbstractSession.php:103-106 | Behaves as `data()`; then the container's data is empty. |
| `Sessions.AbstractSession.ToArray` | src/App/Session/AbstractSession.php:108-111 | Behaves as `data()`, then returns the container's data, unchanged and with distinct keys. |
| `Sessions.AbstractSession.JsonSerialize` | src/App/Session/AbstractSession.php:148-151 | The same as `toArray()`. |
| `Sessions.AbstractSession.HasChanged` | src/App/Session/AbstractSession.php:113-121 | A lazy session whose factory has not run has not changed, and asking does not run it. Otherwise the session has changed exactly when some key reads another value than its container was built with, or the keys stand in another order. |
| `Sessions.AbstractSession.Regenerate` | src/App/Session/AbstractSession.php:123-126 | Sets `isRegenerated`, and changes nothing else. The flag is set whatever it was before, and no method clears it. |
| `Sessions.AbstractSession.PersistFor` | src/App/Session/AbstractSession.php:133-136 | The lifetime becomes the value given, and nothing else changes. |
| `Persistence.FirstCookie` | src/App/Session/Persistence/Ext/PhpSessionPersistence.php:271-279 | Finds nothing exactly when no cookie's decoded name matches. Otherwise it returns the decoded second `=`-piece of the first cookie that matches. |
| `Persistence.RequestSessionId` | src/App/Session/Persistence/Ext/PhpSessionPersistence.php:256-280 | `''` when the Cookie header is absent or empty, or when no cookie of the split line has the session name. Otherwise it is the value of the first cookie with that name. |
| `Persistence.CookieName` | src/App/Session/Persistence/Ext/PhpSessionPersistence.php:272-273 | A cookie's name is the url-decoded text before its first `=`, or the whole cookie when it has no `=`. |
| `Persistence.CookieValue` | src/App/Session/Persistence/Ext/PhpSessionPersistence.php:272-275 | A cookie's value is `''` when it has no `=`. Otherwise it is the url-decoded text from the first `=` to the next `=` or the end. |
| `Persistence.PhpSessionPersistence.GetSessionIdFromRequest` | src/App/Session/Persistence/Ext/PhpSessionPersistence.php:256-280 | The loop returns `RequestSessionId` for the session name in the ini settings. |
| `Persistence.CookieValueStopsAtEquals` | src/App/Session/Persistence/Ext/PhpSessionPersistence.php:272-275 | For `n=v=w`, the name is `urldecode(n)` and the value is `urldecode(v)`: the value is cut at its second `=`. |
| `Persistence.CookieWithoutValue` | src/App/Session/Persistence/Ext/PhpSessionPersistence.php:272-275 | A cookie without `=` has the value `''`, which is falsy, so the session is new. |
| `Persistence.GenerateId` | src/App/Session/Persistence/Ext/PhpSessionPersistence.php:248-251 | A generated id has 32 lower-case hex characters. It is truthy and unchanged by `urlencode`. |
| `Persistence.GenerateIdInjective` | src/App/Session/Persistence/Ext/PhpSessionPersistence.php:248-251 | Different random bytes give different ids. |
| `Persistence.PhpSessionPersistence.constructor` | src/App/Session/Persistence/Ext/PhpSessionPersistence.php:124-131 | Keeps the two flags, and captures the cache limiter and the cache expiry from the ini settings. |
| `Persistence.PhpSessionPersistence.InitializeSessionFromRequest` | src/App/Session/Persistence/Ext/PhpSessionPersistence.php:133-149 | The id is the request id when truthy, else a generated one, and the session is new exactly when the request id is falsy. There is no lifetime and the session is not regenerated. A lazy session leaves the store untouched and holds a factory for the request id. An eager session opens the store as `OpenForRead` says and holds the data read. |
| `Persistence.ToArraySpec` | src/App/Session/Persistence/Ext/PhpSessionPersistence.php:193 | `toArray()` in `writeAndClose` returns the existing container's data without touching the store. A lazy session with no container opens the store for its request id and returns what it reads. The only failure is disabled sessions, and no stored data is lost. |
| `Persistence.WriteBackSpec` | src/App/Session/Persistence/Ext/PhpSessionPersistence.php:194-201 | Fails only when sessions are disabled. Otherwise it leaves no session open, and stores the data under the id unless the handler refuses that id. |
| `Persistence.WriteAndCloseSpec` | src/App/Session/Persistence/Ext/PhpSessionPersistence.php:188-202 | An unchanged, unregenerated session is only closed. Otherwise the stored data is the data seen after `toArray()` with the session data written under the id exactly when:<br>• the session changed, or it is regenerated with data;<br>• and the handler accepts the id.<br>No session stays open, and the only failure is disabled sessions. |
| `Persistence.ShouldWrite` | src/App/Session/Persistence/Ext/PhpSessionPersistence.php:191-194 | `writeAndClose` writes exactly when the session changed, or it is regenerated and has data. |
| `Persistence.PhpSessionPersistence.WriteAndClose` | src/App/Session/Persistence/Ext/PhpSessionPersistence.php:188-202 | The method's result and the extension's new state are those of `WriteAndCloseSpec`, and it does not touch the session's lifetime or regeneration flag. |
| `Persistence.PhpSessionPersistence.WriteBack` | src/App/Session/Persistence/Ext/PhpSessionPersistence.php:194-201 | The method's result and the extension's new state are those of `WriteBackSpec`. |
| `Persistence.WriteAndCloseKeepsOtherSessions` | src/App/Session/Persistence/Ext/PhpSessionPersistence.php:188-202 | Writing back never changes or deletes the data stored under any id other than the one written. |
| `Persistence.RegeneratedDataMovesToNewId` | src/App/Session/Persistence/Ext/PhpSessionPersistence.php:164-201 | Covers a regenerated session that is not otherwise changed, with sessions enabled and a new id the handler accepts. It holds whether the session is open under the old id or not, and whether the container was loaded earlier or is created by `toArray()` now:<br>• every id other than the new one, the old one included, keeps what the store holds for it once closed;<br>• data is written under the new id;<br>• with no data, nothing is written. |
| `Persistence.SetCookieExpiry` | src/App/Session/Persistence/Ext/PhpSessionPersistence.php:321-325 | `Expires` and `Max-Age` are sent exactly when the effective lifetime is positive. The effective lifetime is the override, else `session.cookie_lifetime`. |
| `Persistence.SetCookieDomainAndPath` | src/App/Session/Persistence/Ext/PhpSessionPersistence.php:327-333 | `Domain` and `Path` are sent exactly when their settings are truthy. |
| `Persistence.SetCookieFlags` | src/App/Session/Persistence/Ext/PhpSessionPersistence.php:335-348 | `Secure` and `HttpOnly` are sent exactly when their settings are true for `FILTER_VALIDATE_BOOLEAN`. |
| `Persistence.PhpSessionPersistence.CreateSetCookieHeaderLine` | src/App/Session/Persistence/Ext/PhpSessionPersistence.php:315-351 | The parts built up step by step, joined by `"; "`, are the line of `SetCookieParts` for the ini settings read at the call. |
| `Persistence.CookieRoundTrip` | src/App/Session/Persistence/Ext/PhpSessionPersistence.php:318 | The Set-Cookie text before its first `;` is the pair. When a later request sends that pair first in its Cookie header, whatever follows it, the session id read back is the id that was sent. |
| `Persistence.PairReadsBack` | src/App/Session/Persistence/Ext/PhpSessionPersistence.php:318 | The `urlencode(name)=urlencode(id)` pair reads back as the session name and the id, for byte strings. |
| `Persistence.AddSessionCookie` | src/App/Session/Persistence/Ext/PhpSessionPersistence.php:292-310 | When a lifetime is set, or the session is new or regenerated, exactly one Set-Cookie value (the cookie line) is appended. Otherwise the response is unchanged. No other header changes. |
| `Persistence.NoCookieKeepsClientId` | src/App/Session/Persistence/Ext/PhpSessionPersistence.php:292-310 | When no cookie is sent, the session is persisted under the id the client already holds, and no lifetime was set. A regenerated session always sends a cookie, carrying its new id. |
| `Persistence.LastModified` | src/App/Session/Persistence/Ext/PhpSessionPersistence.php:426-430 | `Last-Modified` is false exactly when neither modification time is known. It is the script's time when that is known, and otherwise the class file's. |
| `Persistence.CacheHeaders` | src/App/Session/Persistence/Ext/PhpSessionPersistence.php:376-418 | An unsupported limiter gives no headers. A supported one sends `Cache-Control`; there `max-age` is 60 × cache expiry, except for `nocache`. Names are distinct, and only the four cache headers appear:<br>• `Last-Modified`: every mode except `nocache`.<br>• `Expires`: the past date for `nocache` and `private`, now + max-age for `public`, none for `private_no_expire`.<br>• `Pragma`: only for `nocache`. |
| `Persistence.NocacheIgnoresExpire` | src/App/Session/Persistence/Ext/PhpSessionPersistence.php:383-390 | The `nocache` headers do not depend on the cache expiry, the clock or the modification times. |
| `Persistence.ApplyHeaders` | src/App/Session/Persistence/Ext/PhpSessionPersistence.php:362-366 | After the loop, each header carries the last non-false value given for it. A header given no such value is unchanged. |
| `Persistence.WithCacheHeaders` | src/App/Session/Persistence/Ext/PhpSessionPersistence.php:353-369 | The response is unchanged when the limiter is empty or unsupported, or when it already has a cache header. Otherwise it gains a `Cache-Control` header. |
| `Persistence.HasCacheHeadersMeans` | src/App/Session/Persistence/Ext/PhpSessionPersistence.php:435-443 | A response already has cache headers exactly when it carries one of the four cache headers. |
| `Persistence.PhpSessionPersistence.AddCacheHeaders` | src/App/Session/Persistence/Ext/PhpSessionPersistence.php:353-369 | The loop returns `WithCacheHeaders` for the captured limiter and expiry. |
| `Persistence.WithHeaders` | src/App/Session/Persistence/Ext/PhpSessionPersistence.php:362-366 | The loop's result is `ApplyHeaders`: each header carries the last non-false value given for it, and every other header is unchanged. |
| `Persistence.CacheHeadersIdempotent` | src/App/Session/Persistence/Ext/PhpSessionPersistence.php:353-369 | Adding the cache headers twice gives the same response as adding them once. |
| `Persistence.CacheHeadersKeepOtherHeaders` | src/App/Session/Persistence/Ext/PhpSessionPersistence.php:362-366 | Headers other than the four cache headers are never touched. |
| `Persistence.PhpSessionPersistence.PersistSession` | src/App/Session/Persistence/Ext/PhpSessionPersistence.php:162-176 | The id is the session's own, or a new one when the session was regenerated. The store changes as `WriteAndCloseSpec` says for that id and the session as passed in. On success the response is the input with the session cookie added, then the cache headers. The session's lifetime and regeneration flag are not changed. |
| `Persistence.PersistedId` | src/App/Session/Persistence/Ext/PhpSessionPersistence.php:164-168 | The session's id is kept unless it was regenerated. A regenerated session gets a new id: 32 lower-case hex characters, truthy and unchanged by `urlencode`. |

## Left out

- Floating-point numbers are not among the modelled values. `JSON_PRESERVE_ZERO_FRACTION`, JSON depth limits and invalid UTF-8 are also left out. A resource stands for every value `json_encode` cannot encode.
- Integer array keys are modelled as strings. PHP's conversion of numeric string keys to integers is left out.
- `stdClass` results and object identity are left out, because the normalisation decodes objects as arrays.
- `SessionContainer`, the type named in `AbstractSession.php`, `LazySession.php` and `Session.php`, is taken to be `DataContainer`. The source that defines it is not part of this model.
- Line 41 of `Session.php` omits `new`, so PHP raises an `Error` rather than the intended `InvalidArgumentException`. `Sessions.NewSession` models both as the one failure `InvalidSessionData`.
- The session extension is reduced to the state it shares with this code. The options passed to `session_start`, other than `read_and_close`, are left out. So are file locking and lock contention between concurrent requests, and id validation. The handler's failures are a fixed set of refused ids.
- `random_bytes`, `time()`, `gmdate`, `getlastmod` and `filemtime` are parameters. The random bytes are 16 bytes. The date formatter is a function from a timestamp to a string. The two modification times are integers, with 0 for false.
- The `(int)` casts of ini values are left out: the integer ini settings are given as integers.
- `60 * cache_expire` is an unbounded integer. When the product overflows, PHP turns it into a float; the model leaves that out.
- Header names are stored lower-cased, as PSR-7 looks them up. The spelling a message was given is not kept.
- `getHeaderLine` joins a header's values with `,`, as PSR-7 implementations do. Whitespace after the comma is left out.
- `urlencode` of a character above 255 uses its low byte. PHP strings are bytes, so this case does not arise there. The round-trip lemmas require byte strings.
- `getId`, `isNew`, `isRegenerated` and `getLifetime` are the fields themselves; `id` and `isNew` are constants. `getInfo` is a deprecated debug helper and is left out.
- `Sessions.AbstractSession.Data`: `factoryCalls` counts the containers the factory produced. A factory call that raises leaves the store and the session as they were, and it is not counted.
- An eager session's container never holds the session extension (`Owns`). The model does not cover a container that aliases the extension.
- `SessionMiddleware`, `SessionMiddlewareFactory`, `PhpSessionPersistenceFactory`, `ConfigProvider` and `SessionPersistenceInterface` are wiring and declarations, with no logic of their own.

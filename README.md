# Media proxy controller and port fallback, in Dafny

This project models the core of a small Express service that downloads media from
Facebook and Instagram. The core is the media-proxy controller
(`controllers/facebookInstaController.js`) and the start-up port rule of `index.js`:

- the filename sanitiser and the name given to a downloaded attachment;
- the reading of upstream header hints from a media URL's `token` query parameter, a JWS
  compact serialisation (section 7.1 of RFC 7515) whose second segment is base64url
  (section 5 of RFC 4648); the signature is never checked;
- the URL resolver, which returns its input on every path;
- the upstream request headers: defaults overlaid by the token headers of the raw URL, then
  by those of the resolved URL;
- the best-effort purge of the scratch downloads directory and the guard that runs it at
  most once per file response;
- the response decisions of the three handlers (`/download`, `/file`, `/stream`);
- the default port and the retry on the next port while the current one is in use.

Modules, one per concern:

| file | module | what it holds |
|---|---|---|
| `wrappers.dfy` | `Wrappers` | `Option` and `Result` |
| `js_values.dfy` | `JsValues` | parsed JSON values, JavaScript truthiness, `typeof x === "object" && x`, the own properties an object spread copies |
| `path_posix.dfy` | `PathPosix` | Node's POSIX `path.basename` and `path.extname` |
| `filename.dfy` | `Filename` | `sanitizeFilename` and the attachment name |
| `sanitize_groups.dfy` | `SanitizeGroups` | where the sanitiser puts its hyphens: the name's word groups joined by single hyphens |
| `token_headers.dfy` | `TokenHeaders` | `split`, the base64url rewrite, `decodeJwtPayload`, `parseTokenHeaders`, `resolveMediaUrl`, `buildUpstreamHeaders` |
| `cleanup.dfy` | `Cleanup` | `cleanupDownloadsDir` as a class over an in-memory directory, and the `finalizeCleanup` guard as a class driven by response events |
| `handlers.dfy` | `Handlers` | the three handlers as functions from query values and collaborator outcomes to responses |
| `startup.dfy` | `Startup` | `DEFAULT_PORT`, `MAX_PORT_RETRIES` and `startServer` |

Library calls are parameters. The WHATWG URL parser and the chain of base64 decoding, UTF-8
decoding and `JSON.parse` are fields of `TokenHeaders.Codecs`; `None` stands for a throw. The
upstream fetch and the extraction service are fields of `Handlers.Collaborators`. The listen
call of start-up is a function from a port to its outcome.

Behaviours of the code that the model keeps and states:

- No `.` survives the sanitiser, so `path.extname(safeBase)` is always `""` and the `replace`
  on line 128 changes nothing. The extension always comes from the URL's basename, or is
  `.mp4`. So `filename=My Clip!!.mov` for `https://example.com/clip` gives `My-Clip-mov.mp4`,
  and a URL ending in `/video.mp4` with no filename gives `video-mp4.mp4`
  (`SanitizeGroups.SanitizeJoinsGroups` with `Filename.AttachmentName` for the first,
  `Filename.UrlDottedName` for the second).
- A client name that sanitises to `""` falls back to `"media"`.
- A token needs at least two dot-separated parts.
- The stream handler never parses the URL itself. A media URL that does not parse ends in a
  500 "Failed to stream media." once the fetch rejects it; the file handler answers the same
  URL with 400 "Invalid mediaUrl." (`Handlers.UnparsableUrlDiffers`).
- The 400 body of `/download` is `{ error }` with no `success` field.

## Model

| member | source | states |
|---|---|---|
| Filename.ReplaceRuns | controllers/facebookInstaController.js:10-11 | the output is empty exactly when the input is; every output character is a hyphen or a character of the input outside the replaced class; when the class holds the hyphen, the output has no two hyphens in a row |
| SanitizeGroups.ReplaceRunsAppend | controllers/facebookInstaController.js:10-11 | when no run of class characters crosses the boundary between two strings, the replacement of their concatenation is the concatenation of their replacements |
| SanitizeGroups.ReplaceRunsOneRun | controllers/facebookInstaController.js:10-11 | a maximal non-empty run of class characters between `a` and `b` becomes exactly one hyphen between the replacements of `a` and `b` |
| SanitizeGroups.TwoPassesCollapseNonWord | controllers/facebookInstaController.js:10-11 | the first two replacements together turn each maximal run of characters other than letters, digits and `_` into one hyphen |
| Filename.ReplaceRunsKeepsWordChars | controllers/facebookInstaController.js:10-11 | a replacement whose class holds no letter, digit or `_` keeps those characters, in order |
| Filename.ReplaceRunsIdentity | controllers/facebookInstaController.js:10-11 | a string whose class characters are single hyphens is left unchanged |
| Filename.TrimHyphens | controllers/facebookInstaController.js:12 | the result is the input with at most one leading and at most one trailing hyphen removed: an infix starting after a leading `-`, one character shorter exactly when the input ends in `-`; it keeps the content characters and the allowed charset, and leaves no edge hyphen once no double hyphen is present |
| Filename.Sanitize | controllers/facebookInstaController.js:8-12 | the result holds only ASCII letters, digits, `_` and `-`, has no `--`, no leading or trailing `-`, no `.`, and keeps the input's letters, digits and `_` in order |
| Filename.SanitizeFixesSanitized | controllers/facebookInstaController.js:8-12 | an already sanitised name is returned unchanged |
| Filename.SanitizeIdempotent | controllers/facebookInstaController.js:8-12 | sanitising twice equals sanitising once |
| Filename.SanitizeEmptyIff | controllers/facebookInstaController.js:8-12 | the result is `""` exactly when the input has no letter, digit or `_` |
| Filename.SanitizeDotted | controllers/facebookInstaController.js:8-12 | the dot of `a.b` (two words) becomes a hyphen: `a-b` |
| SanitizeGroups.WordPrefix | controllers/facebookInstaController.js:8-12 | the leading run of letters, digits and `_`: a prefix of the input, all word characters, maximal, and non-empty when the input starts with one |
| SanitizeGroups.SanitizeJoinsGroups | controllers/facebookInstaController.js:8-12 | the sanitised name is the name's maximal runs of letters, digits and `_`, in order, joined by single hyphens: every run of other characters between two groups becomes one `-` and such runs at the edges vanish |
| PathPosix.Basename | controllers/facebookInstaController.js:125 | `path.basename`: the result has no `/`, is a suffix of the path without trailing slashes, and is preceded there by `/` unless it is all of it |
| PathPosix.SegmentExtension | controllers/facebookInstaController.js:127 | the extension of one segment is empty or starts with its only dot, and is a suffix of the segment; it is empty exactly when the segment is empty, has no dot after its first character, or is `..` |
| PathPosix.Extname | controllers/facebookInstaController.js:127 | `path.extname`: empty, or one leading dot and no other; empty when the basename has no dot |
| PathPosix.ExtnameOfBasename | controllers/facebookInstaController.js:127 | `path.extname` is a suffix of `path.basename`, and empty exactly when the basename is empty, has no dot after its first character, or is `..` |
| Filename.BasenameUnderRoot | controllers/facebookInstaController.js:125 | the basename of `/name` is `name` for a name without `/` |
| Filename.ExtnameDotted | controllers/facebookInstaController.js:127 | the extension of `a.b` (two words) is `.b` |
| Filename.OriginalBase | controllers/facebookInstaController.js:125 | the URL's basename or `"media"`: never empty, never holds `/` |
| Filename.SafeBase | controllers/facebookInstaController.js:126 | never empty, sanitised, no dot; the sanitised client name when that is non-empty, `"media"` when a non-empty client name sanitises to `""`, the sanitised URL basename or `"media"` when no name is given |
| Filename.NoDotNoExtension | controllers/facebookInstaController.js:127-128 | a name with no dot has an empty extension |
| Filename.ReplaceEmptyPattern | controllers/facebookInstaController.js:128 | replacing the empty pattern by `""` leaves the string unchanged |
| Filename.IndexOf | controllers/facebookInstaController.js:128 | the index `String.prototype.replace` uses for a string pattern: the first occurrence, `None` exactly when the pattern occurs nowhere, 0 for the empty pattern |
| Filename.ReplaceFirst | controllers/facebookInstaController.js:128 | `replace` with a string pattern and a replacement holding no `$`: the input unchanged when the pattern does not occur; otherwise the first occurrence replaced by the replacement literally and the rest kept |
| Filename.UrlExtension | controllers/facebookInstaController.js:127 | the chosen extension is never empty and has exactly one dot, at its start |
| Filename.AttachmentName | controllers/facebookInstaController.js:125-128 | the final name is the safe base followed by the extension of the URL's basename or `.mp4`: the client name never supplies the extension |
| Filename.RequestedDottedName | controllers/facebookInstaController.js:125-128 | a requested `a.b` gives `a-b` followed by the URL's extension |
| Filename.UrlDottedName | controllers/facebookInstaController.js:125-128 | with no requested name, a URL path `/a.b` gives `a-b.b` |
| TokenHeaders.Split | controllers/facebookInstaController.js:35 | at least one part, no part holds the separator, joining the parts gives the input back, and there is one part exactly when the separator is absent |
| TokenHeaders.SplitJoin | controllers/facebookInstaController.js:35 | splitting a join of separator-free parts gives the parts back |
| TokenHeaders.SecondSegment | controllers/facebookInstaController.js:35-38 | the second part of `header.payload` or `header.payload.signature` is the payload |
| TokenHeaders.StandardBase64 | controllers/facebookInstaController.js:38-41 | length is a multiple of 4 and less than 4 over the segment's; `-` and `_` become `+` and `/`, other characters stay, and the padding is `=` |
| TokenHeaders.DecodeJwtPayload | controllers/facebookInstaController.js:33-44 | a token without a dot gives `null`; the function throws only for a token with a dot |
| TokenHeaders.DecodesPayloadOnly | controllers/facebookInstaController.js:33-44 | for `header.payload[.signature]`, the outcome depends only on decoding the rewritten payload: it throws exactly when that decoding fails and otherwise returns the decoded value |
| TokenHeaders.ParseTokenHeaders | controllers/facebookInstaController.js:46-61 | the result is always a non-null object; `{}` when the URL does not parse, has no or an empty token, or the token has no dot |
| TokenHeaders.TokenHeadersFromPayload | controllers/facebookInstaController.js:46-61 | for a token `header.payload[.signature]`: `{}` when decoding throws or `headers` is missing or not an object, and `payload.headers` unchanged when it is an object or array |
| TokenHeaders.ResolveMediaUrl | controllers/facebookInstaController.js:63-81 | the media URL is returned unchanged on every path, `/render.php` included |
| JsValues.DecimalRoundTrip | controllers/facebookInstaController.js:84-87 | reading back the decimal spelling of an index gives the index, so distinct array indices spread to distinct keys |
| JsValues.IndexEntries | controllers/facebookInstaController.js:84-87 | spreading an array gives each element under its decimal index and no other key |
| JsValues.OwnEntries | controllers/facebookInstaController.js:84-87 | spreading an object copies its fields; spreading an array copies its elements by index and adds no key other than an index of the array |
| TokenHeaders.BuildUpstreamHeaders | controllers/facebookInstaController.js:83-94 | keys are exactly the defaults' and both token header sets'; a resolved-URL header wins over a raw-URL one, which wins over a default; keys match case-sensitively |
| TokenHeaders.NoTokenMeansDefaults | controllers/facebookInstaController.js:83-94 | with no usable token on either URL the headers are exactly `User-Agent`, `Accept` and `Referer` with their default values |
| Cleanup.Purged | controllers/facebookInstaController.js:14-31 | an entry is removed exactly when it is a regular file whose stat and unlink succeed; every other entry stays with its kind |
| Cleanup.PurgeIdempotent | controllers/facebookInstaController.js:14-31 | a second purge removes nothing more |
| Cleanup.DownloadsDir.Purge | controllers/facebookInstaController.js:14-31 | a missing or unreadable directory is left alone; a listable one ends as `Purged` of its old entries; the failing entries and the status are unchanged |
| Cleanup.CleanupGuard.constructor | controllers/facebookInstaController.js:138 | `cleaned` starts false, both listeners attached, no event seen |
| Cleanup.CleanupGuard.FinalizeCleanup | controllers/facebookInstaController.js:139-143 | a second call changes nothing; a first call sets `cleaned` and purges the directory once |
| Cleanup.CleanupGuard.Emit | controllers/facebookInstaController.js:144-145 | after any event the guard's invariant holds: at most one purge, and one as soon as `finish` or `close` has been emitted; the directory is unchanged unless this event runs the first purge, which leaves its status and failing entries and ends it as `Purged` of the old entries when listable |
| Cleanup.CleanupGuard.EmitAll | controllers/facebookInstaController.js:138-145 | over any sequence of events there is at most one purge, and there is one exactly when `finish` or `close` is among the events; the directory keeps its status and failing entries, ends as `Purged` of its old entries (when listable) if the first purge happened during the sequence, and is otherwise unchanged |
| Handlers.FileRequest | controllers/facebookInstaController.js:118-136 | no request when the URL does not parse; otherwise a GET of the parsed URL's serialisation with the merged headers and at most 5 redirects |
| Handlers.FileHeaders | controllers/facebookInstaController.js:147-151 | `Content-Disposition` names the attachment; `Content-Type` is upstream's or `application/octet-stream`; `Content-Length` is copied exactly when upstream's is non-empty; nothing else is set |
| Handlers.Piping | controllers/facebookInstaController.js:153-161 | a stream error before the headers are sent gives 500 with the handler's fixed message; after them the response is ended; otherwise the body is piped with status 200 |
| Handlers.FileAnswer | controllers/facebookInstaController.js:130-164 | never 400; the cleanup listeners are attached exactly when upstream answered; any JSON body is one of the two fixed failure messages |
| Handlers.HandleMediaFileDownload | controllers/facebookInstaController.js:111-165 | 400 exactly when `mediaUrl` is missing or does not parse, with the two fixed bodies; cleanup is armed only after a parse and an upstream answer |
| Handlers.FileDownloadUpstream | controllers/facebookInstaController.js:130-164 | a rejected fetch gives 500 "Failed to download media."; an answer arms cleanup and pipes under the attachment headers |
| Handlers.FileErrorsAreFixed | controllers/facebookInstaController.js:111-165 | every JSON body of the file handler is one of its four fixed error messages: nothing from upstream leaks |
| Handlers.StreamRequest | controllers/facebookInstaController.js:175-182 | the stream handler fetches the media URL as given, with headers merged from it twice and at most 5 redirects |
| Handlers.StreamHeaders | controllers/facebookInstaController.js:184-194 | `Content-Type` is upstream's or `application/octet-stream`; `Content-Length` and `Accept-Ranges` are copied exactly when upstream's are non-empty; nothing else is set |
| Handlers.HandleMediaStream | controllers/facebookInstaController.js:167-208 | 400 exactly when `mediaUrl` is missing; a rejected fetch gives 500 "Failed to stream media."; an answer is piped under the stream headers; any JSON body is one of two fixed errors |
| Handlers.UnparsableUrlDiffers | controllers/facebookInstaController.js:167-208 | for a URL that does not parse, the file handler answers 400 "Invalid mediaUrl." while the stream handler answers 500 "Failed to stream media." once the fetch rejects it |
| Handlers.HandleFacebookInstaDownload | controllers/facebookInstaController.js:96-109 | a missing `url` gives 400 `{ error }` with no `success` field; a result gives 200 `{ success: true, data }`; a failure gives 500 with the failure's message |
| Startup.DefaultPort | index.js:41 | the number in `PORT` unless it is 0 or NaN, else 3000; never 0 |
| Startup.StartFrom | index.js:44-65 | from a port and attempt, the final port lies within the retries left, every earlier port was in use, the run is listening exactly when the final port listens, the fallback message is chosen exactly when at least one retry was made, and any exit has status 1 and is on the last port when that port was in use |
| Startup.StartServer | index.js:42-68 | the loop's outcome equals the recursive rule; at most 6 ports, from the default up, are tried; ports before the final one were all in use; exit status 1 |

## Left out

- URL parsing (`new URL`, `searchParams.get`) is a parameter; its serialisation rules are not modelled.
- Base64 byte decoding, UTF-8 decoding and `JSON.parse` are one abstract partial function; Node's lenient base64 decoder is not modelled.
- The axios GET, redirect following, piping bytes and the Express `req`/`res` objects: upstream outcomes are abstract values and the body is recorded only as how it ends.
- Header values that Express's `res.json` recomputes (`Content-Type`, `Content-Length` of a JSON error sent after headers were set) are not modelled; the response keeps the headers the handler set.
- Query values that Express parses as arrays or objects are not modelled; a query value is a string or absent.
- The extraction service (`services/facebookInstaService`) is not part of this model; its result or failure message is a parameter.
- The real file system: the directory is an in-memory map from name to entry kind plus the set of names whose stat or unlink throws; `readdirSync`'s order is not modelled, since the result does not depend on it.
- Filename.ReplaceFirst: the `$` patterns of a replacement string (`$&`, `$$`, `` $` ``, `$'`) are not expanded; the replacement is inserted literally, which agrees with the source's one call, whose replacement is "".
- Races between concurrent purges of overlapping requests are not modelled.
- Cleanup.CleanupGuard: the listeners are attached only after the upstream request resolves (`controllers/facebookInstaController.js` lines 132-145); a `close` emitted while that request is pending is never heard, so that response's purge never runs. The guard's constructor stands for the moment of attachment, and events before it are not modelled.
- Startup.DefaultPort: `Number(process.env.PORT)` is a parameter that is NaN or an integer; fractional, negative or out-of-range port numbers and listen's own validation of them are not modelled.
- Startup.StartServer: the guard on index.js line 67 is not modelled: the server is not started when the file is imported as a module or when `VERCEL` is `"1"`, and the model always starts it.
- Startup.StartServer: the `listen` callback and `error` event are one result per port; console messages are reduced to the `onFallback` flag, and `process.exit(1)` to an `Exited` outcome.
- JSON numbers are reals; object key order and property enumeration order are not modelled.
- Strings are sequences of Unicode scalar values where JavaScript sees UTF-16 code units. The sanitiser's result is the same either way, since both halves of a surrogate pair lie outside the allowed class; the padding length of a token segment holding characters outside the Basic Multilingual Plane would differ.
- `routes/facebookInsta.js` and index.js's Express setup, CORS, logging, root route, 404 and error middleware are plumbing with nothing to state.

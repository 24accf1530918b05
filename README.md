# Integrity store and client state machine

A Dafny model of a small data-integrity demonstrator. A server keeps one
piece of text, the SHA-256 digest of that text, and an append-only history
of every `{data, hash}` pair it has stored. A browser client shows the
text. It can submit an edit, simulate tampering, and recover the newest
version from the history.

Modules:

- `JsString` (`js_string.dfy`) models the JavaScript built-ins the code
  relies on:
  - the whitespace set shared by the regular-expression `\s` and
    `String.prototype.trim` (ECMA-262 WhiteSpace plus LineTerminator);
  - `trim()`;
  - `length`, which counts UTF-16 code units.
- `Server` (`server.dfy`) models `server/src/app.ts`:
  - `sanitizeInput`, written as a character filter followed by a trim;
  - the POST validation, `Check`;
  - the `database` object as a pure value `StoreState`, with one POST as
    `Step` and a run of POSTs as `Run`;
  - the class `Store`, whose fields `data`, `hash` and `versions` the POST
    handler updates in place, and whose methods are proved against `Step`.
- `Client` (`client.dfy`) models `client/src/App.tsx`:
  - the class `App` holds the four React state cells;
  - one method per handler;
  - a round-trip method `TamperAndRecover` that runs against a `Store`.
- `Wrappers` (`wrappers.dfy`) holds `Option`.

SHA-256 becomes a parameter `digest: string -> string`, given to the
`Store` when it is created. Every property holds for any such function.

The store's invariant is `Consistent`:
- every history entry satisfies `hash == digest(data)`;
- when the history is not empty, its newest entry is the current record;
- before any accepted write, the current record is still the initial
  `("", "")`.

The current record meets the hash invariant only once one write has been
accepted, because initially `hash == ""`. Stored text may be empty: the
blank check looks at the raw input, so `"!!!"` is accepted and stores `""`.

The intended workflow caches a trusted hash across page loads, compares
hashes on verification and recovers only while tampered. The model follows
what the code does instead:

- `getData` always replaces `originalHash`, not only on the first load.
- `verifyData` never compares hashes.
- Recovery is offered in every state, not only while tampered.
- No hash is cached in local storage.
- After a POST the client reloads the whole record with GET `/`. It does
  not read the hash from the POST response.

## Model

| member | source | states |
|---|---|---|
| JsString.TrimStartSpec | server/src/app.ts:24 | the leading part of `trim()` drops exactly the whitespace prefix: the result is a suffix of the input, everything removed is whitespace, and the result does not start with whitespace |
| JsString.TrimEndSpec | server/src/app.ts:24 | the trailing part of `trim()` drops exactly the whitespace suffix: the result is a prefix of the input, everything removed is whitespace, and the result does not end with whitespace |
| JsString.TrimSlice | server/src/app.ts:24 | `trim()` returns the slice `s[lo..hi]`, with only whitespace outside the slice and no whitespace at either end of the result |
| JsString.TrimEmptyIff | server/src/app.ts:44 | `s.trim() === ""` holds exactly when every character of `s` is whitespace |
| JsString.JsLength | server/src/app.ts:49 | JavaScript `length` counts UTF-16 code units, so it lies between the number of characters and twice that number |
| JsString.JsLengthBmp | server/src/app.ts:49 | for text inside the Basic Multilingual Plane, `length` equals the number of characters |
| Server.StripDisallowed | server/src/app.ts:24 | after the global replace, every character belongs to `[a-zA-Z0-9\s]`, and the result is no longer than the input |
| Server.StripIndices | server/src/app.ts:24 | the result of the replace is an order-preserving subsequence of its input |
| Server.StripCounts | server/src/app.ts:24 | the replace keeps every occurrence of each allowed character and removes every occurrence of each other character |
| Server.StripAllowedIdentity | server/src/app.ts:24 | the replace leaves unchanged any string that lies entirely inside the class |
| Server.NothingAllowedStripsToEmpty | server/src/app.ts:24 | a string with no character of the class is replaced by the empty string |
| Server.SanitizeOutput | server/src/app.ts:23-25 | every character of `sanitizeInput(s)` is an ASCII letter, an ASCII digit or whitespace; the result has no leading or trailing whitespace; it is at most as long as `s` |
| Server.SanitizeSubsequence | server/src/app.ts:23-25 | `sanitizeInput(s)` is an order-preserving subsequence of `s`, shown by strictly increasing positions of `s` |
| Server.SanitizeIdempotent | server/src/app.ts:23-25 | `sanitizeInput(sanitizeInput(s)) == sanitizeInput(s)` |
| Server.SanitizeKeepsAlnum | server/src/app.ts:23-25 | every ASCII letter and digit occurs in `sanitizeInput(s)` exactly as often as in `s` |
| Server.CheckSpec | server/src/app.ts:44-53 | a body is accepted exactly when it is a string that is not blank and at most 100 code units long; a non-string or blank body gets "Invalid data: must be a non-empty string"; a non-blank string over 100 code units gets "Invalid data: must be less than 100 characters" |
| Server.PunctuationOnlyInput | server/src/app.ts:44-56 | both checks look at the raw input: 1 to 100 `!` are accepted and sanitise to `""`; 101 or more are refused as too long, even though sanitising them would leave nothing |
| Server.Step | server/src/app.ts:56-63 | a rejected POST changes nothing; an accepted POST sets `data` to the sanitised input and `hash` to its digest, appends exactly that record, and keeps every earlier entry |
| Server.StepConsistent | server/src/app.ts:56-63 | every POST keeps the store invariant |
| Server.RunConsistent | server/src/app.ts:56-63 | every sequence of POSTs keeps the store invariant |
| Server.RunHistory | server/src/app.ts:59-63 | after a run of POSTs, the history is the earlier history followed by one record per accepted body, in request order, each with its digest |
| Server.FromInitial | server/src/app.ts:9-63 | from process start, after n accepted writes the history holds exactly n entries, the i-th being the i-th accepted sanitised text with its digest, each entry's hash the digest of its text, the newest entry equal to the current record; with no accepted write, the current record is still `("", "")` |
| Server.AppendOnly | server/src/app.ts:63 | the history after the first k requests is a prefix of the history after all of them |
| Server.Store.constructor | server/src/app.ts:9-13 | the store starts with `data == ""`, `hash == ""` and empty `versions`, and it is consistent |
| Server.Store.GetCurrent | server/src/app.ts:32-34 | GET `/` returns the current record and changes nothing; after a write, the record carries its digest and equals the newest history entry; before any write, it is `("", "")` |
| Server.Store.GetHistory | server/src/app.ts:71-73 | GET `/history` returns `versions` unchanged and in order, every entry carrying the digest of its text |
| Server.Store.Post | server/src/app.ts:40-66 | POST `/` moves the store to `Step` of its old state and keeps the invariant; it answers Ok or the matching error, and on an error changes nothing |
| Client.InputErrorSpec | client/src/App.tsx:41-52 | `validateInput` refuses undefined, empty or whitespace-only input with "Data cannot be empty!" before looking at its length; it refuses a non-blank input longer than 100 code units with "Data too long. Must be less than 100 characters."; it passes everything else |
| Client.ClientMirrorsServer | client/src/App.tsx:41-52 | the client refuses exactly the strings the server refuses, for the same reason |
| Client.App.constructor | client/src/App.tsx:6-9 | the four state cells start as `""`, `""`, `""` and `false` |
| Client.App.GetData | client/src/App.tsx:15-23 | after a reload, the app shows the fetched record and trusts its hash, with `tampered` false and no message |
| Client.App.ValidateInput | client/src/App.tsx:41-52 | returns true exactly when the input passes; sets only `errorMessage`, to `""` on success and to the matching message otherwise |
| Client.App.UpdateData | client/src/App.tsx:25-38 | invalid data sends nothing: the store and the shown data, hash and tamper flag are untouched, and only the message is set. Valid data is posted; the store takes its `Step`, and the app shows the sanitised text with the store's digest, which is also the newest history entry, with `tampered` false and no message |
| Client.App.VerifyData | client/src/App.tsx:55-64 | the stub always reports the data as verified and changes no state |
| Client.App.RecoverData | client/src/App.tsx:67-80 | with a non-empty history, the app shows the newest entry's text and hash, clears `tampered` and reports success; with an empty history, data, hash and tamper flag are unchanged and the message is "No previous versions available." |
| Client.App.SimulateTamperedData | client/src/App.tsx:83-87 | appends `_something` to `data`, which therefore changes; `originalHash` stays as it was; sets `tampered` and the warning message |
| Client.LoadThenTamper | client/src/App.tsx:15-87 | after loading from a store with at least one version and then tampering, the trusted hash is still the digest of the stored text while the shown text is the stored text plus `_something`, so it differs; the store is untouched |
| Client.TamperAndRecover | client/src/App.tsx:15-87 | loading from a store with at least one version, then tampering, then recovering leaves the app showing the store's current text with its digest as the trusted hash, not tampered, and leaves the store untouched |

## Left out

- SHA-256 and its hex encoding (server/utilities/utils.ts, client/src/utilities/utils.ts) are replaced by an arbitrary function `digest`, so no lemma relies on properties of the real hash.
- server/app.ts is an earlier skeleton that the modelled server replaces. It is not part of this model.
- Express wiring, CORS, JSON parsing, `app.listen` and HTTP status codes are not modelled. A response is only Ok or BadRequest with its message.
- `fetch`, asynchrony and network failures are not modelled. Fetched responses are method parameters. `UpdateData` calls the `Store` directly, and the POST response is discarded, as in the source.
- React rendering, `useEffect` (which calls `getData` on mount), the `onChange` binding and `alert` are not modelled. React's batching of state updates is not modelled either: each setter takes effect at once.
- Concurrent requests racing on the shared `database` are not modelled. Requests are handled one at a time.
- Lone UTF-16 surrogates are not modelled: Dafny characters are Unicode scalar values. For every other string, filtering by code unit and filtering by character give the same result, because the class contains no surrogate.
- The response of GET `/` and GET `/history` is assumed to have string fields, since the server only ever sends strings.
- `verifyData` never compares hashes, so the model adds no hash comparison. `LoadThenTamper` only states that, after tampering, the shown text and the trusted hash no longer belong together.
- There is no concrete lemma that `"Hello, World! <script>"` sanitises to `"Hello World script"`. The general sanitiser lemmas cover what that example would show.
- The model does not prove that the initial record `("", "")` breaks the hash invariant: that depends on the value of SHA-256 on `""`, and `digest` is arbitrary.

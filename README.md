# Site-info tool: handler and Basic-authentication gate

This project models the two request handlers of the site-info tool and proves properties of them in Dafny.

- **The site-info endpoint** (`functions/api/site-info.js`) works as follows:
  - It answers a CORS preflight and refuses every method but POST.
  - It reads `{ url }` from the JSON body, rejects a missing or unparsable address, and sends one HEAD request to the address.
  - It answers with a flat report: the five fixed entries, then the server software, the allow-listed response headers under their display names, and the Cloudflare connection facts. Any exception becomes a 500 `{ error }` answer.
- **The Basic-authentication gate** (`functions/tools/site-info/_middleware.js`) sits in front of the tool:
  - It splits the `Authorization` header.
  - It decodes the credential with `atob` and `TextDecoder`, then compares the user name and password with the configured pair or the defaults.
  - It hands the request on, answers with one fixed 401, or throws when `atob` rejects the text.

Modules:

- `Wrappers`: `Option` and `Result`.
- `Strings`: the JavaScript string operations the handlers use:
  - `split` on one character and `join`;
  - `indexOf`;
  - `replace` of the first occurrence;
  - ASCII upper-casing;
  - the decimal text of an integral number.
- `Base64`: `atob` as the WHATWG "forgiving-base64 decode", and the RFC 4648 (section 4) encoder a client uses.
- `Utf8`: `TextDecoder.decode` as the WHATWG UTF-8 decoder, with U+FFFD replacement and byte-order-mark removal. It also holds the UTF-8 encoder.
- `JsonValues`: parsed JSON values. An object is an ordered member list. Assigning to a key appends it, or overwrites it in place.
- `Http`: the response record.
- `BasicAuth`: the middleware.
- `SiteReport`: the display-name rule, the report as a specification function, and the imperative assembly of the report, proved equal to that function.
- `SiteInfo`: the handler. `Handle` is its specification function. `OnRequest` is the imperative handler, proved equal to it.

The handler's surroundings are parameters:

- the outcome of `request.json()`;
- the URL parser (`new URL`);
- the network (`fetch`);
- the elapsed time between the two `Date.now()` readings;
- the `Authorization` header and the two environment variables.

## Model

| member | source | states |
|---|---|---|
| SiteInfo.Handle | functions/api/site-info.js:1-143 | Every answer carries the three CORS headers. OPTIONS gives the preflight with no probe. Any method other than OPTIONS and POST gives 405 "Method not allowed" with no probe. A HEAD request is sent exactly when the method is POST and the body is accepted, and it goes to the parsed address. The status is 200 exactly for a preflight or a successful fetch. |
| SiteInfo.OnRequest | functions/api/site-info.js:1-143 | The step-by-step handler, which builds the report with `BuildReport`, gives the same answer and the same outgoing request as `Handle`. |
| SiteInfo.Validate | functions/api/site-info.js:29-54 | The body is accepted exactly when `request.json()` succeeded, the value is not null, `url` is present and truthy, and the parser accepts it. The parsed address is the target. A failed parse of the body gives 500 with its message. A null body gives 500. A missing or falsy `url` gives 400 "URL is required". An unparsable one gives 400 "Invalid URL". |
| SiteInfo.UrlField | functions/api/site-info.js:30 | Destructuring finds `url` exactly when the body is an object with a member of that name. |
| SiteInfo.ServerError | functions/api/site-info.js:129-141 | The catch answer is 500 with the error's message, or with "Failed to fetch site information" when the message is empty. |
| SiteInfo.ResponseKinds | functions/api/site-info.js:12-141 | Every answer has one of three forms: a 200 preflight with no body and the CORS headers; a 200 `{ success: true, … }` with the JSON headers; or a 400, 405 or 500 `{ error }` answer with a non-empty message and the JSON headers. |
| SiteInfo.ErrorMessages | functions/api/site-info.js:19-141 | Every answer other than a 200 is 400, 405 or 500 and carries an `{ error }` object with a non-empty message. |
| SiteInfo.UrlRequiredFirst | functions/api/site-info.js:32-40 | A missing or falsy `url` gives 400 "URL is required" and no request. The parser and the network are not consulted. |
| SiteInfo.InvalidUrlNotFetched | functions/api/site-info.js:43-54 | A `url` the parser rejects gives 400 "Invalid URL", and the network is not consulted. |
| SiteInfo.ServedReport | functions/api/site-info.js:56-128 | For any body whose `url` member is truthy and parses and whose HEAD request answers, the answer is 200 `{ success: true, info }`. `info` is the report of that answer and has no repeated names. The request went to the address with the tool's user agent. |
| SiteInfo.LastUrlWins | functions/api/site-info.js:30 | Whatever members precede it, a body ending in `url: u` is answered exactly as `{ url: u }` is. |
| SiteInfo.FetchFailure | functions/api/site-info.js:58-63 | For any body whose `url` member is truthy and parses, a failed fetch gives 500 with its message, or with the fallback text. |
| SiteReport.DisplayNameCharacterised | functions/api/site-info.js:102-104 | The display name of a header equals `r` exactly when `r` has the same length and upper-cases the first character and each character after a '-', keeping every other character. |
| SiteReport.DisplayNameIsTitleCase | functions/api/site-info.js:102-104 | Splitting on '-', upper-casing each word's first character and joining gives the title-cased form of the header. |
| SiteReport.DisplayNameShape | functions/api/site-info.js:102-104 | The display name keeps the length, upper-cases the first character, and has '-' and ' ' exactly where the header has them. |
| SiteReport.DisplayNameKeepsHyphens | functions/api/site-info.js:102-104 | The display name keeps the length and the number of '-'. |
| SiteReport.DisplayNameIdempotent | functions/api/site-info.js:102-104 | The display name of a display name is itself. |
| SiteReport.DisplayNameOfWords | functions/api/site-info.js:102-104 | The first word is capitalised and the rest of the name is treated the same way. |
| SiteReport.EtagExample | functions/api/site-info.js:89 | "etag" is shown as "Etag". |
| SiteReport.XFrameOptionsExample | functions/api/site-info.js:91 | "x-frame-options" is shown as "X-Frame-Options". |
| SiteReport.DisplayNameInjective | functions/api/site-info.js:102-105 | Different lower-case header names get different display names. |
| SiteReport.HeaderValue | functions/api/site-info.js:76 | A header value is present exactly when the response has that header. |
| SiteReport.PortText | functions/api/site-info.js:69 | The port is never empty. An explicit port is kept. Without one, the port is "443" exactly for "https:" and "80" otherwise. |
| SiteReport.ProtocolIsScheme | functions/api/site-info.js:70 | For a protocol "scheme:", the shown protocol is the scheme without its colon. |
| SiteReport.ResponseTimeReadsBack | functions/api/site-info.js:64-71 | The response time is decimal digits followed by "ms", and the digits read back as the measured milliseconds. |
| SiteReport.FixedEntries | functions/api/site-info.js:67-73 | The report starts with exactly the five fixed names, in order. |
| SiteReport.CandidatesKeys | functions/api/site-info.js:76-120 | The conditional entries are tried in this order: server software, the fourteen allow-listed headers under their display names, TLS version, TLS cipher, data center. |
| SiteReport.ReportEntries | functions/api/site-info.js:67-120 | The report is the five fixed entries followed by one entry per present value, under that entry's name and in the order tried. |
| SiteReport.ReportKeysDistinct | functions/api/site-info.js:67-120 | The 23 names a report can hold are pairwise different. |
| SiteReport.ReportDistinctKeys | functions/api/site-info.js:67-120 | No name occurs twice in a report, so no assignment overwrites an earlier one. |
| SiteReport.ReportFixedLookup | functions/api/site-info.js:67-73 | Every fixed name is in the report with its value. |
| SiteReport.ReportLookup | functions/api/site-info.js:76-120 | A conditional name is in the report exactly when its value is present and non-empty, and then holds that value. |
| SiteReport.ReportOtherKeys | functions/api/site-info.js:67-120 | No other name is ever in the report. |
| SiteReport.SelectedEntries | functions/api/site-info.js:76-120 | The conditional entries kept are those whose value is present, in the order tried. |
| SiteReport.AddHeaders | functions/api/site-info.js:99-107 | The `forEach` loop over any list of distinct new names appends exactly the present headers, in list order, under their display names. |
| SiteReport.AddCfFields | functions/api/site-info.js:110-120 | The `cf` block appends the present TLS version, TLS cipher and data center, in that order, and nothing without `cf`. |
| SiteReport.BuildReport | functions/api/site-info.js:67-120 | Building the object step by step gives exactly the report. |
| BasicAuth.OnRequest | functions/tools/site-info/_middleware.js:2-37 | The request is handed on exactly when the guards grant it. The middleware throws exactly when `atob` rejects the credential. Every other outcome is the fixed 401. |
| BasicAuth.MissingHeaderRejected | functions/tools/site-info/_middleware.js:11-15 | An absent or empty `Authorization` header gets the fixed 401. |
| BasicAuth.EmptyEnvironmentUsesDefaults | functions/tools/site-info/_middleware.js:7-8 | An unset or empty variable falls back to "admin" and "password". |
| BasicAuth.SchemeMustBeBasic | functions/tools/site-info/_middleware.js:18-23 | A header whose first space-separated piece is not exactly "Basic" is rejected. |
| BasicAuth.BasicParts | functions/tools/site-info/_middleware.js:18 | "Basic " followed by a space-free credential splits into the scheme and the credential, and anything after a second space is dropped. |
| BasicAuth.TrailingTextIgnored | functions/tools/site-info/_middleware.js:18 | Text after a second space does not change the outcome. |
| BasicAuth.BearerRejected | functions/tools/site-info/_middleware.js:21-23 | A "Bearer" header gets the fixed 401. |
| BasicAuth.MissingCredentialThrows | functions/tools/site-info/_middleware.js:18-26 | "Basic" with no credential passes the text "undefined" to `atob`, which throws. |
| BasicAuth.CredentialsMatchPair | functions/tools/site-info/_middleware.js:28-33 | For a decoded "u:p", the check passes exactly when both fields equal the expected ones. |
| BasicAuth.CredentialsMatchIgnoresRest | functions/tools/site-info/_middleware.js:28 | Only the first two ':'-separated fields count. |
| BasicAuth.CredentialsMatchNeedsColon | functions/tools/site-info/_middleware.js:28-33 | Text without ':' has no password and never passes. |
| BasicAuth.BasicHeaderRoundTrip | functions/tools/site-info/_middleware.js:18-36 | The header a client builds from a user name and password is handed on exactly when the pair, after byte-order-mark removal, matches the expected pair. Otherwise it gets the fixed 401. It never throws. |
| BasicAuth.ForwardedIffCredentialsMatch | functions/tools/site-info/_middleware.js:18-36 | For a user name without a leading U+FEFF, the request is handed on exactly when both fields match. |
| BasicAuth.PasswordTruncatedAtColon | functions/tools/site-info/_middleware.js:28-33 | A password containing ':' is judged by its part before the first ':'. |
| BasicAuth.CredentialWithoutColonRejected | functions/tools/site-info/_middleware.js:26-33 | An encoded credential without ':' is always rejected. |
| BasicAuth.HeaderOutcome | functions/tools/site-info/_middleware.js:18-36 | A client-built header from a user name and the text after the first ':' is handed on exactly when the decoded text, with any leading byte order mark removed, passes the credential check. Otherwise it gets the fixed 401. |
| BasicAuth.EncodedHeader | functions/tools/site-info/_middleware.js:18-36 | "Basic " plus the padded encoding of any bytes never throws. It is handed on exactly when the bytes' UTF-8 decoding passes the credential check, and gets the fixed 401 otherwise. |
| Base64.AtobEncode | functions/tools/site-info/_middleware.js:26 | `atob` decodes every standard padded encoding back to its bytes. |
| Base64.AtobLengthOneMod4 | functions/tools/site-info/_middleware.js:26 | `atob` rejects whitespace-free text whose length is 1 modulo 4. |
| Base64.AtobUndefined | functions/tools/site-info/_middleware.js:26 | `atob` rejects the text "undefined". |
| Base64.DecodeEncodeUnpadded | functions/tools/site-info/_middleware.js:26 | Decoding the unpadded encoding of any bytes gives those bytes back. |
| Base64.RemovePaddingOfEncode | functions/tools/site-info/_middleware.js:26 | Removing the padding of an encoding leaves the unpadded encoding. |
| Base64.UnpaddedLength | functions/tools/site-info/_middleware.js:26 | The unpadded encoding has four characters per three bytes, plus 0, 2 or 3 for the remainder. |
| Utf8.DecodeEncode | functions/tools/site-info/_middleware.js:27 | UTF-8 decoding inverts UTF-8 encoding. |
| Utf8.TextDecodeEncode | functions/tools/site-info/_middleware.js:27 | `TextDecoder.decode` of an encoded text gives the text without a leading byte order mark. |
| Utf8.StrayByteReplaced | functions/tools/site-info/_middleware.js:27 | A byte that cannot start a sequence decodes to U+FFFD and consumes one byte. |
| Strings.JoinSplit | functions/api/site-info.js:102-104 | Joining the pieces of a split gives the text back. |
| Strings.SplitJoin | functions/api/site-info.js:102-104 | Splitting a join of separator-free pieces gives the pieces back. |
| Strings.SplitCount | functions/tools/site-info/_middleware.js:18-28 | A split gives one piece more than there are separators. |
| Strings.RemoveFirstOf | functions/api/site-info.js:70 | `replace(':', '')` removes exactly the first ':'. |
| Strings.NatTextValue | functions/api/site-info.js:71 | The decimal text of a number is digits without a leading zero and reads back as the number. |
| JsonValues.Get | functions/api/site-info.js:30 | Reading a name finds a value exactly when the object has a member of that name, and the value is one held under that name. |
| JsonValues.Put | functions/api/site-info.js:76-120 | Assigning a new name appends it. Assigning an existing name keeps the order of names. |
| JsonValues.GetLast | functions/api/site-info.js:30 | The member appended last is the one a read of its name finds, whatever comes before it. |
| JsonValues.GetCons | functions/api/site-info.js:30 | Reading from a member followed by others finds the last occurrence among the others, else the leading member. |
| JsonValues.PutGet | functions/api/site-info.js:76-120 | With distinct names, reading a name after assigning it gives the assigned value. |
| JsonValues.PutOthers | functions/api/site-info.js:76-120 | Assigning one name leaves the read of every other name unchanged. |

## Left out

- `fetch`, `Date.now()` and `request.json()` are parameters. The network, the clock and JSON text parsing are not modelled, and neither is the text `JSON.stringify` writes.
- The WHATWG URL parser is a parameter (`parseUrl`). `href`, `protocol`, `hostname` and `port` are taken as it gives them, including its string conversion of a non-string `url`.
- The `Headers` object is a map from lower-case names to values. Case-insensitive lookup and the joining of repeated headers are the platform's work and are not modelled.
- Upper-casing is ASCII only. `toUpperCase` on other letters (for example 'ß' becoming "SS") is not modelled. The allow-listed names are all ASCII.
- Text is a sequence of Unicode scalar values, not of UTF-16 code units.
- Error messages the engine writes are not modelled. The `TypeError` text for a null body is one fixed constant, and `atob`'s exception is named by its type.
- `Status Code` is the status as a JSON number. Number formatting is not modelled.
- `next()` is the `Next` outcome. What the rest of the application does with the request is not part of this model.
- The preflight uses the default status 200, as the code does.

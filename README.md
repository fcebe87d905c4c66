# CORS Anywhere server entry point, modelled in Dafny

This is a model of the request and response hooks that the CORS Anywhere
server entry point (`server.js`) hands to the proxy library. It covers:

- `parseEnvList`: reads a comma-separated origin blacklist or whitelist
  from an environment variable's text.
- `parseUrlParams`: turns a query string into a dictionary. A bare `name`
  maps to the boolean `true`. `name=value` maps to
  `decodeURIComponent(value)`.
- `getRequestUrl`: picks the proxy target.
  - It reads the query of the inbound URL (the text after the first `?`
    and before the second).
  - It uses the `url` parameter when that is truthy, otherwise
    `download`. When that value is falsy too, it uses the URL without
    its leading `/`.
- `responseHeadersHandler`: adds a forced-download header on a proxied
  response. It acts when the original request carried truthy `download`
  and `filename` parameters. The header is
  `content-disposition: attachment; filename="E"; filename*=UTF-8''E`,
  where `E` is `encodeURI(filename)`.
- The two ECMAScript library functions the hooks rely on:
  - `encodeURI`, defined in ECMA-262 ("URI Handling Functions") through
    the abstract operation `Encode`
  - `decodeURIComponent`, defined there through the abstract operation
    `Decode`, including every `URIError` that `Decode` raises: a malformed escape, a bad UTF-8 lead or
    continuation octet, an overlong form, a surrogate, or a value above
    U+10FFFF.

Files:

- `strings.dfy` (module `Strings`):
  - `Option` and `Result`
  - JavaScript's `split` for a one-character separator, with its inverse
    `join`
  - `filter(Boolean)` over strings
- `uri.dfy` (module `UriCoding`): `EncodeURI` and `DecodeURIComponent`
  over Unicode scalar values. It proves that decoding undoes encoding, and
  which characters the encoder can emit.
- `server.dfy` (module `Server`): the four hooks.
  - `ParseUrlParams` is a method with the source's loop. It is proved
    against the function `UrlParams`.
  - `ResponseHeadersHandler` is a method that updates a `ResponseHeaders`
    object in place. It is specified by the function `DispositionUpdate`.
  - A thrown `URIError` is the `Err` case of a `Result` (or the `Some`
    case of the thrown-error out-parameter).
- `scenarios.dfy` (module `Scenarios`): whole requests stated as lemmas.
  Each is stated for arbitrary parameter text wherever possible.

Several JavaScript details are modelled explicitly:

- The `requestUrl ? … : …` and `params[...] && …` tests use JavaScript
  truthiness. An absent parameter and the empty string are falsy. The flag
  `true` and any non-empty string are truthy.
- `params['__proto__'] = …` on a plain object leaves the object's own keys
  unchanged. The model therefore never stores that name (`ProtoKey`).
- `encodeURI(true)` encodes `String(true)`, which is the text `"true"`.
- `split(/=/)` returns every `=`-piece, but the code reads only `parts[0]`
  and `parts[1]` (server.js:29, 33). The text after a second `=` is
  therefore ignored.
- `encodeURI` leaves `;`, `,`, `'`, `(`, `)`, `*`, `/`, `?`, `:`, `@` and
  `=` unescaped. A filename such as `a;b` therefore reaches the
  `filename*=UTF-8''…` parameter with these characters bare
  (`Scenarios.SemicolonKeptInFilename`).
- A later segment with the same name overwrites an earlier one.

## Model

| member | source | states |
|---|---|---|
| Server.ParseEnvList | server.js:13-18 | The result is empty exactly when the variable is missing or empty. Otherwise the pieces contain no comma and joined with commas give back the variable's text. |
| Strings.JoinSplit | server.js:17 | Joining the pieces of `split(d)` with `d` gives back the input, so no text is lost. |
| Strings.SplitJoin | server.js:17 | Splitting a join of separator-free pieces gives back exactly those pieces. |
| Strings.Split | server.js:17 | `s.split(d)` for a one-character separator (also used at server.js:27, 28 and 72). There is always at least one piece. `Strings.JoinSplit`, `Strings.SplitJoin`, `Strings.SplitHead` and `Strings.SplitPiecesFree` characterise the pieces. |
| Strings.NonEmpty | server.js:27 | `filter(Boolean)`: at most as many pieces, none of them empty. A string is kept exactly when it is a non-empty input piece. |
| Strings.SplitHead | server.js:29 | `split(d)[0]` is the text before the first `d`. There is a second piece exactly when `d` occurs. |
| Server.SegmentName | server.js:29 | A segment's name never contains `=`. `Server.SegmentFields` states which text it is. |
| Server.SegmentParam | server.js:30-34 | What one segment assigns. Its properties are stated in `Server.SegmentFields`, `Server.SegmentOfPair`, `Server.SegmentOfFlag` and `Server.SegmentDropsAfterSecondEquals`. |
| Server.Collect | server.js:26-36 | The dictionary after the segments in order never holds `__proto__`. `Server.CollectErr`, `Server.CollectKeys` and `Server.CollectLastWins` state the rest. |
| Server.UrlParams | server.js:24-37 | The value `parseUrlParams` returns. `Server.ParseUrlParams` is proved to compute it, and `Server.UrlParamsKeys`, `Server.UrlParamsSkipsEmpty` and `Server.UrlParamsOnlyAmpersands` describe it. |
| Server.Query | server.js:72-73 | The query read from a URL never contains `?`. `Server.QueryBetweenMarks` and `Server.QueryAbsent` state which text it is. |
| Server.Truthy | server.js:74 | JavaScript truthiness of a parameter, also tested at server.js:76 and 83: an absent parameter and `""` are falsy. `Server.GetRequestUrl` and `Server.DispositionUpdateSets` state its effect. |
| Server.DispositionUpdate | server.js:80-86 | The header the hook writes, if any. `Server.DispositionUpdateSets` and `Server.DispositionUpdateSkips` state when it is written and what it holds. |
| UriCoding.EncodeURI | server.js:84 | `encodeURI(s)` is at least as long as `s` and at most 12 characters per input character. `UriCoding.DecodeEncodeURI`, `UriCoding.EncodeURIAlphabet` and `UriCoding.EncodeURIUnescapedText` state what it produces. |
| UriCoding.DecodeURIComponent | server.js:33 | A successful decoding is never longer than its input. `UriCoding.DecodeEncodeURI`, `UriCoding.DecodeWithoutPercent`, `UriCoding.DecodeAsciiEscape` and `UriCoding.TruncatedEscapeFails` state what it accepts and produces. |
| Scenarios.SemicolonKeptInFilename | server.js:84-85 | A filename `a;b` is written as `encodeURI(a);encodeURI(b)`, so the `;` stays bare in both header parameters. |
| Server.ParseUrlParams | server.js:24-37 | The loop fills the dictionary segment by segment. Its result equals `UrlParams(str)`: the dictionary, or `URIError` when any segment fails to decode. |
| Server.SegmentFields | server.js:28-34 | A segment's name is its text before the first `=`. With no `=` the segment assigns `true`. Otherwise it assigns the decoding of the text between the first and second `=`, or fails when that text is malformed. |
| Server.SegmentDropsAfterSecondEquals | server.js:28-33 | `name=value=tail` assigns exactly what `name=value` assigns. |
| Server.CollectErr | server.js:33 | Parsing fails exactly when some segment's value fails to decode. |
| Server.CollectKeys | server.js:27-35 | The keys are exactly the names of the segments, less `__proto__`. |
| Server.CollectLastWins | server.js:27-35 | The value under a name is what the last segment with that name assigns. |
| Server.UrlParamsKeys | server.js:27-31 | The keys of `parseUrlParams(str)` are exactly the `=`-prefixes of the non-empty `&`-pieces of `str`, other than `__proto__`. |
| Server.UrlParamsSkipsEmpty | server.js:27 | Empty segments are skipped: `a&&b` parses exactly like `a&b`. |
| Server.UrlParamsOnlyAmpersands | server.js:27 | A query made only of `&` characters, including the empty query, gives the empty dictionary. |
| Server.UrlParamsOfSegments | server.js:27-35 | For non-empty, `&`-free segments, parsing their `&`-join assigns exactly those segments in order. |
| Server.SegmentOfPair | server.js:28-33 | `name=value` assigns the decoding of `value` to `name`. |
| Server.SegmentOfFlag | server.js:28-31 | A bare `name` assigns the flag `true`. |
| Server.UrlParamsOfTwoPairs | server.js:24-37 | `n1=v1&n2=v2` maps `n2` to the decoding of `v2` unless `n2` is `__proto__`. It maps `n1` to the decoding of `v1` unless `n1` is `__proto__` or the two names coincide. |
| Server.DropFirst | server.js:76 | `slice(1)`: the input is its first character followed by the result, and the empty string stays empty. |
| Server.GetRequestUrl | server.js:71-77 | The hook throws exactly when the query fails to parse. A truthy `url` parameter is the target. Otherwise a truthy `download` parameter is the target. Otherwise the target is the URL without its first character. |
| Server.QueryBetweenMarks | server.js:72 | Only the text between the first and second `?` is read as the query. |
| Server.QueryAbsent | server.js:72-73 | A URL without `?` has the empty query. |
| Server.GetRequestUrlPathSuffix | server.js:72-76 | A URL without a query is proxied to its path minus the leading `/`. |
| Server.GetRequestUrlEmptyTarget | server.js:74-76 | The target is the empty string only for a URL of at most one character. A target taken from the parameters is never empty. |
| Server.ResponseHeadersHandler | server.js:78-88 | It throws exactly when the original URL's query fails to decode. Otherwise it writes `DispositionUpdate`'s value under `content-disposition` when there is one. Every other header is left unchanged. |
| Server.DispositionUpdateSets | server.js:80-85 | Given a request with an original URL whose query parses, the header is written exactly when `download` and `filename` are both truthy. Its value is `attachment; filename="E"; filename*=UTF-8''E` with `E = encodeURI(String(filename))`. `E` contains no space and no `"`, and decodes back to the filename. |
| Server.DispositionUpdateSkips | server.js:80-83 | Without an original URL, nothing is written. The hook fails only when the original URL's query fails to decode. |
| UriCoding.DecodeEncodeURI | server.js:84 | `decodeURIComponent(encodeURI(s)) == s` for every string of scalar values. |
| UriCoding.EncodeURIInjective | server.js:84 | Distinct filenames give distinct encoded header values. |
| UriCoding.EncodeURIAlphabet | server.js:84-85 | Every character of `encodeURI`'s output is in the unescaped set or is the `%` of an escape. In particular it contains no space and no `"`, so it cannot break out of the quoted `filename` parameter. |
| UriCoding.EncodeURIUnescapedText | server.js:84 | Text made only of unescaped characters is left as it is. |
| UriCoding.DecodeWithoutPercent | server.js:33 | A value without `%` decodes to itself. |
| UriCoding.DecodeAsciiEscape | server.js:33 | An escape `%XY` of an octet below `0x80`, written as `encodeURI` writes it, decodes to the single character with that code. The rest of the text is then decoded as before. |
| UriCoding.TruncatedEscapeFails | server.js:33 | A value whose last character is `%` raises `URIError`, whatever precedes it. |
| Scenarios.TargetFromUrlParameter | server.js:72-74 | `/?url=v` is proxied to the decoding of `v` whenever that is non-empty. |
| Scenarios.TargetFromPath | server.js:76 | `/http://example.com/a` is proxied to `http://example.com/a`. |
| Scenarios.TargetFromDownload | server.js:74 | `/?download=t&filename=n` is proxied to the decoding of `t`. |
| Scenarios.BareUrlFlag | server.js:31 | `/?url` makes the target the boolean `true`, not a string. |
| Scenarios.UrlWinsOverDownload | server.js:74 | A truthy `url` is chosen over `download`, whichever of the two comes first in the query. |
| Scenarios.EmptyUrlFallsThrough | server.js:74 | An empty `url=` is falsy, so `download` is used. |
| Scenarios.ForcedDownload | server.js:83-85 | `/?download=t&filename=n` writes the attachment header for the decoded filename, encoded again with `encodeURI`. |
| Scenarios.ForcedDownloadOfSpacedName | server.js:84-85 | `filename=a b` gives `a%20b` in both parts of the header. |
| Scenarios.FilenameFlagReadsTrue | server.js:84-85 | A bare `filename` flag writes the header with the filename `true`. |

## Left out

- `nw.js` (the Windows service wrapper) is not part of this model.
  - It only installs and starts the server through the operating system.
- Reading `HOST`, `PORT` and the `CORSANYWHERE_*` environment variables
  is not modelled (server.js:2-4, 10-11, 40).
  - The variable's text is `ParseEnvList`'s parameter, and `None` stands
    for an unset variable.
- The rate limiter and the proxy library (`lib/rate-limit`,
  `lib/cors-anywhere`) are not part of this model.
  - Neither are the option literals passed to it (server.js:43-70:
    header removal, redirects, `xfwd`, the added
    `access-control-allow-origin`).
  - Neither is the HTTP server started by `.listen` with its console
    message (server.js:89-91).
- Strings are sequences of Unicode scalar values, not UTF-16 code units.
  - A character outside the Basic Multilingual Plane is one `char` here
    where JavaScript sees a surrogate pair. The octets `encodeURI` emits
    for it are the same.
  - A lone surrogate, for which `encodeURI` throws `URIError`, cannot
    occur in the model. `EncodeURI` is therefore total.
- UriCoding.DecodeURIComponent reports every failure as `None`.
  - It does not say which check of ECMA-262's `Decode` operation failed
    first, or produce the error message.
  - The source never inspects the error: the throw propagates out of the
    hook.
- Server.ResponseHeadersHandler: header values are modelled as strings.
  - Node may hold a multi-valued header (such as `set-cookie`) as an
    array. The hook never reads any header, and writes only this one
    string value.
- Server.ResponseHeadersHandler: the original URL is an `Option<string>`.
  - `None` and `""` are the falsy cases of `req.originUrl`. A non-string
    `originUrl` is not modelled.
- Server.GetRequestUrl: `req.url` is assumed to be a string, as Node's
  request object guarantees.
- `getRequestUrl` does not pass the filename to the header hook.
  - `responseHeadersHandler` parses the query of `req.originUrl` again
    (server.js:81-82), and the model follows the code.
- `req.originUrl` is tested (server.js:80).
  - Its absence is modelled as `None`, which writes nothing.
- Property lookup through the object prototype (`params['constructor']`
  and the like) is not modelled.
  - The hooks only read `url`, `download` and `filename`, which no plain
    object inherits.

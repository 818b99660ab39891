# Byte-range serving in `Static`

A Dafny model of the partial-content logic of the `Static` file server
(`Static/Static.swift`). When a request arrives, the server:

- reads the HTTP `Range` header: the single-range subset of section 2.1 of RFC 7233;
- resolves the requested range against the file size;
- picks the content type from the file extension;
- shapes the response: status, header list, and the slice of the file to send.

The range code in the Swift file is an unfinished stub. `parseRange`
returns the empty range `0..<0` for a header without the `bytes=` prefix
(lines 122-127) and `0..<fileSize` otherwise (line 163).
`normalizeHeaderValue` is the identity, and the empty `switch` at lines
131-135 does not compile. The algorithm it was
meant to hold survives as commented-out Objective-C reference code, from
GCDWebServer. This model follows that reference code:

- the parse at lines 136-160;
- the clamp at lines 170-185;
- `GCDWebServerNormalizeHeaderValue` at lines 188-198.

Modules, one per component:

- `Text`: ASCII case folding, `componentsSeparatedByString` (`Split`, with
  its inverse `Join`), `integerValue` (`IntegerValue`), and `String(n)`
  (`NatToString`, with `DigitsValue` as its inverse).
- `Headers`: `NormalizeHeaderValue`.
- `ByteRanges`: the reference parse (`ParseByteRange`). It gives an
  NSRange-like pair whose location NSUIntegerMax marks a suffix request,
  or, with length 0, a header that did not parse. The module also holds the
  specification of the clamp (`Resolve`: serve exactly the requested
  positions that exist) and the imperative `ParseRange`, which clamps the
  pair in place as the reference does.
- `Mime`: `MimeForExtension`, which reassigns `mimeType` step by step. The
  system UTType database is a function parameter `system`.
- `Responder`: the response-shaping function `Respond` and the
  `Content-Range` value with its parser `ParseContentRange`.
- `StaticServer`: the class `Static` with its request `log`, and the
  imperative `HandleFile`.
- `Scenarios`: worked requests against a 10000-byte file.

In the resolution, `Whole` means no usable byte range, `Partial` a
satisfiable one, and `Unsatisfiable` the reference's `return nil`. The
Swift `handleFile` computes an optional range `ra` with `parseRange`
(line 71) and answers 206 when it is present. The model passes `ra` only for `Partial`, matching the
reference's `hasByteRange` flag. So the whole-file fallback and an
unsatisfiable range both reach `handleFile` as nil.

Where the reference code departs from RFC 7233 or leaves only a TODO, the model follows the code:

- An unsatisfiable range (for example `bytes=10000-20000` on a 10000-byte
  file) gets a 200 with the whole file, not a 416. The source only has a
  TODO for the 416.
- A closed range written backwards (`bytes=500-100`) falls through to the
  open-range branch and is served from 500 to the end (`DescendingRangeReadsAsOpen`).
  Section 2.1 of RFC 7233 calls it invalid.
- Non-numeric text reads as 0, as `integerValue` gives. So `bytes=x-9` is the closed range 0-9.
- `bytes=-0` is not a usable range, so the whole file is served.

## Model

| member | source | states |
|---|---|---|
| `Headers.NormalizeHeaderValue` | Static/Static.swift:188-198 | same length; every character before the first `;` is lower-cased, every character from it on is kept |
| `Headers.NormalizeLowersOnlyBeforeSemicolon` | Static/Static.swift:190-195 | no upper-case letter is left before the first `;`; the suffix from `;` is unchanged; with no `;` the whole value is lower-cased |
| `Headers.NormalizePreservesPrefixEnd` | Static/Static.swift:190-192 | normalising keeps the first `;` at the same position |
| `Headers.NormalizeIdempotent` | Static/Static.swift:188-198 | normalising twice equals normalising once |
| `Headers.NormalizeWithoutUpper` | Static/Static.swift:194 | a value with no upper-case letter is unchanged |
| `Text.IntegerValue` | Static/Static.swift:142-144 | `integerValue` is never above NSIntegerMax, and is 0 for text that does not start with a digit |
| `Text.IntegerValueOfNatToString` | Static/Static.swift:142-144 | `integerValue` reads back the decimal text of every number up to NSIntegerMax |
| `Text.DigitsValueOfNatToString` | Static/Static.swift:80 | the decimal text `String(n)` reads back as `n` |
| `Text.NatToString` | Static/Static.swift:80 | `String(n)` is a non-empty string of digits with no leading zero |
| `Text.LowerChar` | Static/Static.swift:192-194 | the result is never an upper-case letter; a character is kept exactly when it is not upper-case; an upper-case letter moves to its lower-case partner, 32 code points on |
| `Text.Lower` | Static/Static.swift:192-194 | same length; no upper-case letter is left; every other character is kept; each upper-case letter becomes its lower-case partner (also `lowercased()` at line 103) |
| `Text.IndexOf` | Static/Static.swift:190 | `rangeOfString:` finds the first occurrence: the found position holds the character and no earlier one does |
| `Text.Split` | Static/Static.swift:137-139 | `componentsSeparatedByString` gives at least one part, and no part holds the separator |
| `Text.JoinSplit` | Static/Static.swift:137-139 | joining the parts with the separator gives back the original string |
| `Text.SplitJoin` | Static/Static.swift:137-139 | splitting a join of separator-free parts gives back those parts |
| `ByteRanges.ParseByteRange` | Static/Static.swift:136-157 | the parsed location is either the NSUIntegerMax marker or at most NSIntegerMax, so an open or closed range never looks like a suffix request |
| `ByteRanges.ParseValidIff` | Static/Static.swift:136-158 | a usable range comes out exactly when the header is present, starts with `bytes=` after normalising, holds no `,`, has exactly two `-` parts, and either the first part is non-empty or the second is positive |
| `ByteRanges.NoValidRangeServesWholeFile` | Static/Static.swift:136-140 | a missing header, another unit, several ranges, or not exactly two `-` parts give the invalid marker, and the whole file `[0, fileSize)` is served |
| `ByteRanges.SeveralRanges` | Static/Static.swift:137-138 | `bytes=x,y` gives the invalid marker for every `x` and `y` |
| `ByteRanges.RangeOfParts` | Static/Static.swift:141-154 | the pair is usable exactly when the start is non-empty or the end reads as positive; a non-empty start is the location; `a-b` with `a <= b` ends at byte `b`; `a-` and `a-b` with `b < a` get length NSUIntegerMax; an empty start gives the suffix marker with length `n` (the invalid marker when `n` is 0) |
| `ByteRanges.IsValidByteRange` | Static/Static.swift:170 | a range is unusable exactly when it is the marker `(NSUIntegerMax, 0)` |
| `ByteRanges.CapitalisedUnit` | Static/Static.swift:188-198 | every spelling of the unit that lower-cases to `bytes=` (`Bytes=`, `BYTES=`, `bYtEs=`), followed by any text, parses exactly as `bytes=` followed by that text |
| `ByteRanges.ParseSeesNormalisedHeader` | Static/Static.swift:188-198 | parsing a header and parsing its normalised form give the same range, for every header |
| `ByteRanges.LetterCaseIgnored` | Static/Static.swift:188-198 | two headers without `;` that are equal once lower-cased parse to the same range |
| `ByteRanges.ClosedRange` | Static/Static.swift:145-147 | `a-b` with `a <= b` parses to location `a`, length `b-a+1`; it is unsatisfiable exactly when `a >= fileSize`; otherwise it is served from `a` through the last byte `min(b, fileSize-1)` |
| `ByteRanges.ResolveClosed` | Static/Static.swift:172-174 | clamping a closed range keeps its start and cuts its last byte to the end of the file |
| `ByteRanges.OpenRange` | Static/Static.swift:148-150 | `a-` parses to location `a`, length NSUIntegerMax; clamped, its length is `fileSize - min(a, fileSize)`; a zero length is unsatisfiable |
| `ByteRanges.SuffixRange` | Static/Static.swift:151-153 | `-n` with `n > 0` parses to the suffix marker with length `n`; it is served as the final `min(n, fileSize)` bytes, ending exactly at `fileSize`; it is unsatisfiable only for an empty file |
| `ByteRanges.DescendingRangeReadsAsOpen` | Static/Static.swift:145-150 | `a-b` with `b < a` falls to the open-range branch and parses as `a-` |
| `ByteRanges.Resolve` | Static/Static.swift:170-185 | the whole file `[0, fileSize)` exactly for an unusable range; a served range is non-empty and ends by `fileSize`; only a usable range can be unsatisfiable |
| `ByteRanges.ResolveServesRequestedPositions` | Static/Static.swift:172-181 | a served range covers exactly the requested positions that lie in `[0, fileSize)`; an unsatisfiable range requests none of them |
| `ByteRanges.ClampRange` | Static/Static.swift:170-185 | the in-place rewrite of location and length, with nil for a zero length, equals `Resolve` |
| `ByteRanges.ParseRange` | Static/Static.swift:136-185 | the parse followed by the in-place clamp equals `Resolve` of the parsed range; a served range is non-empty and ends by `fileSize`; the whole file is served exactly when the parsed range is invalid |
| `ByteRanges.ResolvedRangeWithinFile` | Static/Static.swift:172-181 | for every header: a served range has `location < fileSize` and `location + length <= fileSize`; only a usable range can be unsatisfiable; the fallback is `[0, fileSize)` |
| `Mime.MimeForExtension` | Static/Static.swift:100-118 | an empty extension gives `application/octet-stream`; otherwise, for the lower-cased extension, an override wins, then the built-in table, then the system lookup, then `application/octet-stream` |
| `Mime.CssIsTextCss` | Static/Static.swift:101-107 | without an override, `css` and `CSS` are `text/css`, whatever the system database says |
| `Responder.ContentRangeValue` | Static/Static.swift:77 | the emitted `Content-Range` starts with `bytes ` and parses back to first position `offset`, last position `offset+size-1`, and total `fileSize` |
| `Responder.ContentRangeFormatRoundTrip` | Static/Static.swift:77 | `bytes first-last/total` written with `String(n)` parses back to `first`, `last` and `total`, for all numbers |
| `Responder.BaseHeadersLookup` | Static/Static.swift:66-70 | the three starting headers carry `ContentType` and neither `Content-Range` nor `ContentLength` |
| `Responder.Respond` | Static/Static.swift:61-80 | a non-regular file gets no response. With a range: status `206`, offset and size from the range, `Content-Range` naming exactly those bytes, `ContentLength` = size. Without one: `200 OK`, offset 0, size `fileSize`, no `Content-Range`, `ContentLength` = `fileSize` |
| `StaticServer.RangeArgument` | Static/Static.swift:71-73 | `handleFile` is given a range exactly when the resolution is a satisfiable byte range, and then that range; the whole-file fallback and an unsatisfiable range give nil |
| `StaticServer.ServedSliceWithinFile` | Static/Static.swift:73-80 | for every header, the slice read lies inside the file, `ContentLength` reads back as its size, and the status is 206 exactly when the header resolved to a byte range |
| `StaticServer.ServePartialContent` | Static/Static.swift:73-79 | a regular file whose header resolves to a byte range gets a 206 for exactly that slice |
| `StaticServer.ServeWholeFile` | Static/Static.swift:65-80 | a regular file whose header resolves to no byte range gets `200 OK` for the whole file |
| `StaticServer.Static.constructor` | Static/Static.swift:29-32 | a new server has the given base path and port and an empty log |
| `StaticServer.Static.HandleFile` | Static/Static.swift:51-98 | the response is the specified one. The log gains one entry (path, file size, no range) only when a response was started and the file opened; otherwise it is unchanged |
| `Scenarios.SecondFiveHundredResponse` | Static/Static.swift:145-147 | `bytes=500-999` on 10000 bytes: 206, offset 500, size 500, `bytes 500-999/10000` |
| `Scenarios.FromNinetyFiveHundredResponse` | Static/Static.swift:148-150 | `bytes=9500-` on 10000 bytes: 206, `bytes 9500-9999/10000` |
| `Scenarios.FinalFiveHundredResponse` | Static/Static.swift:151-153 | `bytes=-500` on 10000 bytes: 206, `bytes 9500-9999/10000` |
| `Scenarios.PastTheEndResolves` | Static/Static.swift:179-181 | `bytes=10000-20000` on 10000 bytes is unsatisfiable |
| `Scenarios.PastTheEndResponse` | Static/Static.swift:73-80 | that unsatisfiable request gets `200 OK` for the whole file, with no `Content-Range` |
| `Scenarios.TwoRangesResponse` | Static/Static.swift:137-138 | `bytes=0-99,200-299`: `200 OK`, `ContentLength` 10000 |
| `Scenarios.NoHeaderResponse` | Static/Static.swift:136-184 | a missing header resolves to the whole file and, passed to the response shaping, gets `200 OK`, offset 0, size 10000, `ContentLength` 10000; the empty value gets the same response from `Serve` |
| `Scenarios.UnitIsCaseInsensitive` | Static/Static.swift:145-147 | `Bytes=500-999`, `BYTES=500-999` and every other spelling of the unit followed by `500-999` parse to location 500, length 500 |

## Left out

- The live stubs, whose behaviour is not modelled: `parseRange` returning `0..<0` for a header without the `bytes=` prefix and `0..<fileSize` otherwise, and the identity `normalizeHeaderValue`. The source has these defects, named here rather than reproduced:
  - line 71 passes `range: ""` under a wrong argument label (`HandleFile` passes the request's header);
  - the empty `switch` at 131-135;
  - the `Range<Int>`/`UInt64` mismatch at 163;
  - the `%ly` conversion at line 77 (`ContentRangeValue` uses `%lu`).
- `start()`, the Embassy event loop and `DefaultHTTPServer` (lines 34-49): network I/O and a loop that runs forever. Their force-unwrap of `HTTP_RANGE` is not modelled either.
- Filesystem access (lines 55-57, 83-85): `attributesOfItem`, `FileHandle`, `seek`, `readData` and `sendBody`. `HandleFile` takes their results as inputs instead: the attributes (absent when the call throws) and whether the file opened. The bytes sent are not modelled, only the offset and size of the slice. `FileHandle` opens the relative `path` rather than `absolutePath`, and the model does not capture that.
- The UTType/CoreServices calls and their retain/release (lines 110-114): foreign calls, stood in for by the `system` parameter. `handleFile` passes the whole path where an extension is expected (line 67), and the model keeps that as written.
- The request timestamps (`CFAbsoluteTime`, lines 14-15, 54, 88-89): floating-point clock readings. `StaticRequest` is modelled without them.
- `GWS_LOG_WARNING` (line 159): logging only.
- A 416 response with `Content-Range: bytes */<size>`: the source has only a TODO (line 180).
- `Text.IntegerValue`: does not skip leading whitespace or a `+` sign as Foundation's `integerValue` does. It reads leading ASCII digits, gives 0 when there are none, and saturates at NSIntegerMax. A `-` sign cannot occur, because the parts come from splitting on `-`.
- `Text.Lower`: lower-cases ASCII letters only. Foundation's `lowercaseString` uses full Unicode case mapping.
- `Responder.Respond`: requires `1 <= offset + size <= 2^64-1`. Outside that range the UInt64 expression `offset + size - 1` at line 77 traps. Every range that `ParseRange` resolves meets the requirement.
- Concurrency: appends to `log` from concurrent requests are not modelled; `HandleFile` runs one request at a time.

# Signed cookies and the request context of the `middleware` package

This project models `context.go` of the `middleware` package, a martini
middleware. For every request it builds a `Context` that carries:

- the form parameters, copied into `Params`;
- a `Data` map for templates;
- the response headers.

The `Context` offers helpers that set headers, set cookies, choose a content
type and report an error page. The centre of the file is a signed-cookie
codec:

- `SetSecureCookie` writes `base64(value) | decimal(now) | hex(HMAC-SHA1(secret, base64(value) ++ decimal(now)))`.
- `GetSecureCookie` takes the first request cookie with the wanted name. It
  splits the value, recomputes the signature, enforces a 31-day window and
  decodes the value.

The model is split into these modules:

- `GoBytes` (bytes.dfy): bytes, plus `strings.SplitN` and `strings.Join` on `|`.
- `Base64` (base64.dfy): standard padded base64 as in section 4 of RFC 4648.
  The decoder skips `\r` and `\n`, as Go's streaming decoder does.
- `Hex` (hex.dfy): the `%02x` rendering of the digest.
- `Strconv` (strconv.dfy):
  - `FormatInt(n, 10)`;
  - all of `ParseInt(s, 0, 64)`: sign, base prefixes, `_` separators, and clamping on overflow.
- `SecureCookie` (cookie.dfy): the signer, the writer's value, and the
  reader's decision as pure functions. It also holds the properties of the
  codec: round trip, signature check, freshness window, first match, and the
  crash on a short value.
- `Web` (context.dfy): the `Context` class. Its fields are `params`, `data`
  and `header`, which its methods update. `GetSecureCookie` is a loop proved
  against `SecureCookie.Lookup`. Each method has a pure function beside it
  that carries the lemmas.

HMAC-SHA1 is a parameter `mac` of function type, so every codec property holds
for any keyed function. The same goes for:

- the current time `now`, and its RFC 1123 text;
- the mime table;
- the rendering of a cookie as a `Set-Cookie` line.

Points worth knowing about the code:

- **What is signed.** The signature covers the base64 text of the value, not
  the raw bytes. The writer signs `buf.Bytes()` (context.go:334-336), and the
  reader signs `parts[0]` (context.go:353).
- **Short values.** A cookie value with fewer than two `|` is not rejected.
  `parts[1]` or `parts[2]` is then out of range (context.go:350-351). The
  model returns the outcome `Panic`.
- **Empty secret.** An empty secret disables only the writer
  (context.go:326-328). The reader has no such guard. A value signed under the
  empty key is still accepted.
- **Error message in `Handle`.** `Handle` stores the error message under
  `martini.Dev != martini.Prod` (context.go:91). That condition compares two
  different constants, so it always holds. The model stores the message in
  every environment.

## Model

| member | source | states |
|---|---|---|
| GoBytes.SplitN | context.go:347 | no ensures of its own; `SplitNCount`, `SplitNJoin`, `SplitNPipeFree` and `SplitThree` state its properties |
| GoBytes.Join | context.go:337 | no ensures of its own; `SplitNJoin` and `JoinSplit3` tie it to `SplitN` |
| GoBytes.SplitNCount | context.go:347 | `SplitN` on pipe yields between one and n parts |
| GoBytes.SplitNJoin | context.go:337 | joining the parts of `SplitN` with a pipe gives back the original text |
| GoBytes.SplitNPipeFree | context.go:347 | every part of `SplitN` but a last part that stopped the split holds no pipe |
| GoBytes.SplitJoin3 | context.go:337 | splitting three joined fields, the first two holding no pipe, returns exactly those fields |
| GoBytes.JoinSplit3 | context.go:337-351 | the three fields the writer joins are exactly the three parts the reader's split returns, when the first two hold no pipe |
| GoBytes.SplitThree | context.go:347-351 | a three-way split means the value is the first two pipe-free parts and the rest, joined by a pipe |
| GoBytes.PipeAfterFreePrefix | context.go:347 | the first pipe after a pipe-free prefix is the separator following it |
| Base64.SextetOfChar | context.go:330 | every alphabet character decodes to the 6-bit value it encodes |
| Base64.Encode | context.go:329-333 | a non-empty input encodes to at least one 4-character group |
| Base64.EncodeEncoded | context.go:329-333 | the encoder's output uses only the alphabet and `=` |
| Base64.StripNewlinesEncoded | context.go:363-366 | the decoder's newline skipping leaves encoder output unchanged |
| Base64.FullRoundTrip | context.go:329-366 | a full 3-byte group decodes back to its bytes |
| Base64.TwoRoundTrip | context.go:329-366 | a 2-byte tail with one `=` decodes back to its bytes |
| Base64.OneRoundTrip | context.go:329-366 | a 1-byte tail with `==` decodes back to its byte |
| Base64.DecodeFull | context.go:363-366 | a full group decodes to exactly three bytes |
| Base64.EncodeGroups | context.go:329-366 | decoding the groups of an encoding gives back the input |
| Base64.ShortGroups | context.go:329-366 | one to three bytes encode to a single padded group that decodes back to them |
| Base64.EncodeGroupsStep | context.go:329-366 | if the bytes after the first three round-trip, so does the whole input |
| Base64.DecodeGroupsCons | context.go:363-366 | decoding concatenated groups concatenates their bytes |
| Base64.Decode | context.go:363-366 | no ensures of its own; `DecodeEncode` states that it inverts `Encode` |
| Base64.DecodeEncode | context.go:329-366 | decoding what the writer encoded returns the original value |
| Base64.EncodePipeFree | context.go:329-337 | base64 text never contains the separator pipe |
| Hex.DigitRoundTrip | context.go:306 | each lower-case hex digit reads back as its value |
| Hex.Hex | context.go:306 | `%02x` writes two characters per digest byte |
| Hex.UnhexHex | context.go:306 | the hex text determines the digest: reading it back gives the digest |
| Hex.HexInjective | context.go:306 | different digests render to different hex text |
| Hex.HexPipeFree | context.go:306 | hex text holds only hex digits, so it has no pipe |
| Strconv.Wrap64 | context.go:319-359 | `int64` wrap-around is the identity on in-range results |
| Strconv.FormatInt | context.go:335 | no ensures of its own; `ParseFormat` states that `ParseInt` reads it back, and `FormatPipeFree` that it holds no pipe |
| Strconv.FormatNat | context.go:335 | decimal digits only, without a leading zero unless the number is 0 |
| Strconv.ParseUint | context.go:357 | the value fits `uint64`; a range error gives the maximum, a syntax error 0 |
| Strconv.ParseInt | context.go:357 | a syntax error leaves the value 0 |
| Strconv.DecValueFormat | context.go:335 | the digits `FormatInt` writes have the value of the number |
| Strconv.DecValuePrefix | context.go:357 | a prefix of a digit string has no larger value |
| Strconv.ScanDecimal | context.go:357 | the digit loop over decimal text yields its value when it fits |
| Strconv.ParseUintFormat | context.go:335-357 | unsigned decimal text parses back to the number without error |
| Strconv.ParseFormat | context.go:335-357 | the timestamp the writer formats is the timestamp the reader parses, with no error |
| Strconv.NonNumericParsesToZero | context.go:357 | text whose first byte is not a digit, a sign or `_` is a syntax error with value 0; for any syntax error the value is 0 by `ParseInt`'s ensures |
| Strconv.FormatPipeFree | context.go:335-337 | decimal text never contains a pipe |
| SecureCookie.CookieSig | context.go:300-308 | the signature is the hex of the MAC, keyed by the secret, over the value followed by the timestamp, and holds no pipe |
| SecureCookie.NewCookie | context.go:313-322 | name and value are kept; age 0 expires at 2^31-1, otherwise at `now + age` |
| SecureCookie.SignedValue | context.go:329-337 | the written value splits into the base64 text, the decimal time and the signature over those two |
| SecureCookie.SecureCookieFor | context.go:324-338 | the writer produces no cookie exactly when the secret is empty; otherwise it produces a cookie with the given name whose first field is the base64 text |
| SecureCookie.Verify | context.go:347-367 | a matched cookie never reads as missing; the reader crashes exactly when the value has fewer than three fields |
| SecureCookie.Lookup | context.go:342-369 | no ensures of its own; `FirstMatchDecides` and `NoCookieIffNoName` state that the first cookie with the name decides and that no match gives "no cookie" |
| SecureCookie.RoundTrip | context.go:329-367 | a value written at `t0` and read no later than 31 days after is accepted with the original bytes |
| SecureCookie.FirstMatchDecides | context.go:342-369 | the first cookie with the name decides, and cookies after it are ignored |
| SecureCookie.NoCookieIffNoName | context.go:342-369 | the result is "no cookie" exactly when no cookie has the name |
| SecureCookie.RoundTripThroughRequest | context.go:324-370 | among any other cookies, the first one with the name, as written, is read back as the original value |
| SecureCookie.ShortValuePanics | context.go:347-351 | a value with no pipe or exactly one crashes the reader |
| SecureCookie.SignatureCheck | context.go:300-355 | a three-field value is rejected as forged exactly when its third field is not the recomputed signature |
| SecureCookie.FreshnessWindow | context.go:357-361 | a correctly signed value is expired exactly when `now - 31 days` (`int64`) exceeds its timestamp |
| SecureCookie.WindowBoundary | context.go:357-361 | a timestamp exactly 31 days old is accepted, and a future timestamp is never rejected |
| SecureCookie.NonNumericTimestamp | context.go:357-361 | a validly signed timestamp whose first byte is not a digit, a sign or `_` reads as 0, and is expired exactly when `now` is more than 31 days past the epoch |
| SecureCookie.AcceptedIsSigned | context.go:347-367 | an accepted value has three fields, and its third field is the hex of the MAC over the first two |
| SecureCookie.CrossSecretRejected | context.go:336-355 | a value written under one secret is rejected under a secret whose MAC differs |
| SecureCookie.TamperedPayloadRejected | context.go:353-355 | replacing the payload and timestamp of a signed value by any whose MAC differs gets it rejected |
| Web.HeaderSet | context.go:289 | the key's only value becomes the new one; other headers are unchanged |
| Web.HeaderAdd | context.go:291 | the new value goes after the key's existing values; other headers are unchanged |
| Web.HeaderGetAfterUpdate | context.go:287-293 | after a replace the header reads as the new value; after an append it reads as the old first value, if any |
| Web.HeaderSetIdempotent | context.go:289 | replacing with the same value twice is the same as once |
| Web.WebTime | context.go:214-220 | a trailing `UTC` becomes `GMT`, the rest of the text and its length are kept; other text is unchanged |
| Web.WebTimeIdempotent | context.go:214-220 | the result never ends in `UTC`, so applying it again changes nothing |
| Web.Extension | context.go:274-276 | the extension looked up always starts with `.` |
| Web.ContentTypeFor | context.go:269-278 | text containing `/` is used verbatim; otherwise the type is the table's entry for the dotted extension, or empty when the table has none |
| Web.LeadingDotOptional | context.go:274-277 | `json` and `.json` select the same content type |
| Web.ErrorFlag | context.go:49-70 | a missing `HasError` reads as false; it reads true only for a stored `true`; a non-boolean entry panics |
| Web.ErrorMessage | context.go:57-59 | the stored string is returned exactly when `ErrorMsg` holds a string; otherwise the type assertion panics |
| Web.HandleData | context.go:88-104 | description, status and title are stored, and the error when there is one; every other entry is kept |
| Web.TitleFor | context.go:98-105 | no ensures of its own; `TitleInjective` states that different statuses get different titles |
| Web.TemplateName | context.go:106 | no ensures of its own; `TemplateByTens` states which statuses share a template |
| Web.TitleInjective | context.go:98-105 | different statuses get different titles |
| Web.TemplateByTens | context.go:106 | two statuses share a template exactly when their truncated tens agree |
| Web.ErrMsgAfterHandlePanics | context.go:57-94 | after `Handle` records an error, `GetErrMsg` panics, since the stored entry is an error and not a string |
| Web.CopyForm | context.go:199-204 | `Params` has exactly the form's keys, each mapped to the field's first value |
| Web.Context.constructor | context.go:186-207 | fresh `Params` from the form, empty `Data`, and `Date` and default `Content-Type` headers set |
| Web.Context.SetHeader | context.go:287-293 | `unique` replaces the header's values, otherwise appends; nothing else changes |
| Web.Context.SetCookie | context.go:296-298 | always appends one `Set-Cookie` header with the cookie's text |
| Web.Context.SetSecureCookie | context.go:324-339 | with an empty secret the headers are unchanged; otherwise one `Set-Cookie` for the signed cookie is appended |
| Web.Context.GetSecureCookie | context.go:341-370 | the loop returns the first name match's decision, and "no cookie" exactly when no cookie has the name |
| Web.Context.ContentType | context.go:269-283 | returns the chosen type and sets `Content-Type` only when the choice is non-empty |
| Web.Context.HasApiError | context.go:49-55 | returns the `HasError` flag, false when missing, a panic for a non-boolean |
| Web.Context.HasError | context.go:62-70 | returns the `HasError` flag, false when missing, a panic for a non-boolean |
| Web.Context.GetErrMsg | context.go:57-59 | returns the stored string message, or a panic for anything else |
| Web.Context.Handle | context.go:88-107 | updates `Data` as `HandleData` states, and returns the template `status/<status/10>x` |

## Left out

- Template compilation and rendering are not modelled: `renderer`, `HTML`,
  `compile`, `prepareOptions`, `prepareCharset` and the environment switch
  (context.go:73-75, 164-176). Their code is not part of this model.
  `Handle` returns the template name instead of rendering it.
- Martini dependency injection (`mc.Map`) and logging (`log.Error`) are
  framework plumbing and are left out.
- Response I/O is left out: `WriteString`, `Abort`, `Redirect`, the status
  helpers, `ServeFile`, `ServeContent` and `Query`. These only pass through
  to `net/http`.
- HMAC-SHA1 is an arbitrary keyed function `mac`. No property depends on
  the hash.
- `time.Now`, RFC 1123 formatting, `Cookie.String()` and
  `mime.TypeByExtension` are parameters: `now`, `date`, `render` and
  `mimeTypes`.
- `http.Header` canonicalises key spelling. The model keys headers by the
  exact text.
- `Request.Cookies()` parsing and `ParseForm` are left out. The model is
  given the cookies in order and the parsed form.
- Go's base64 decoder has output of its own on malformed input after a
  valid signature. That output is not modelled. The reader then returns
  `AcceptedUndecodable`, which is Go's `(partial value, true)`.
- Only `string` and `bool` entries of `Data` are modelled, plus the numbers
  and errors `Handle` stores. Other dynamic types are not.
- Web.Context.SetSecureCookie: one `now` serves as both the timestamp and
  the base of the expiry. The source reads the clock twice, once in
  `NewCookie` (context.go:319) and once for the timestamp (context.go:335).
- Hex.Hex: an empty digest renders as "" where Go's `%02x` writes two
  spaces. HMAC-SHA1 always yields 20 bytes, so the signer never meets this
  case. `SecureCookie.CookieSig` therefore equals Go's signature only for
  a non-empty MAC output, which HMAC-SHA1 always gives.
- Web.CopyForm: requires every form field to have at least one value, as
  `url.Values` from `ParseForm` always does. The source's `v[0]` would
  panic otherwise.
- SecureCookie.RoundTrip: the window is stated away from `int64`
  wrap-around (`now >= MinInt64 + 31 days`). Near the minimum `int64`, the
  subtraction wraps, and `FreshnessWindow` states the exact condition.
- example/example.go only wires the middleware into a martini application.
  It has no logic of its own.

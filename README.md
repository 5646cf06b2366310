# Capability links of the QR-code service, in Dafny

The service hands out short-lived "capability links" of the form
`/v1/qr?u=<target>&exp=<unix>&sig=<base64url>`. A holder of such a link may
fetch a QR image of `target` until the Unix time `exp`; no state is kept on
the server, because `sig` is the HMAC-SHA256 of `target ‖ '\n' ‖ exp` under a
process-wide secret and is checked by recomputation. Links are minted on
`/v1/sign?u=<target>&ttl=<seconds>`, which sits behind an
`Authorization: Bearer <token>` gate. Targets must pass a small URL policy
(http or https, a host, not `localhost`) both when minting and when verifying.

This project models that scheme and proves its properties:

- `basics.dfy` (module `Basics`): byte strings (Go strings are byte
  sequences), ASCII literals and ASCII case folding.
- `base64url.dfy` (module `Base64Url`): `base64.RawURLEncoding`, the URL-safe
  alphabet of section 5 of RFC 4648 without the padding of section 3.2,
  encoder and lenient decoder, with the round trip, the lengths and the
  decoder's accepted alternative spellings.
- `decimal.dfy` (module `Decimal`): `strconv.ParseInt(s, 10, 64)` and
  `strconv.FormatInt(n, 10)`, with their round trip over the 64-bit range and
  the canonical form of the formatter's output.
- `target_policy.dfy` (module `TargetPolicy`): `validateTargetURL`.
- `token.dfy` (module `Token`): `sign` and `secureEqual`.
- `handlers.dfy` (module `Handlers`): the guard chains of `qrHandler`
  (verify), `signHandler` (mint) and `requireBearer`, the status and message
  of each error answer, and the end-to-end properties: a minted link
  verifies until its expiry, the expiry is inclusive, and the signature
  binds the target and the literal expiry text.

Everything is a function of explicit inputs. The current time is a
parameter `now` (Unix seconds). HMAC-SHA256 is a parameter
`mac: (Bytes, Bytes) -> Digest` whose results are 32 bytes long. `url.Parse`
is a parameter `parse: Bytes -> ParsedUrl`, where a `ParsedUrl` is either a
parse error with its text or the scheme, `Host` and `Hostname()` of the URL.
A query value that is absent is the empty string, as `q.Get` returns it.

Some behaviour of the code is worth stating outright:

- Expired and forged links both answer 401, with different messages
  ("expired" and "bad signature"), so a caller can tell them apart
  (`ExpiredAndBadSigDistinguishable`).
- A signature that is not valid base64 makes `secureEqual` return false, so
  it is answered as a bad signature (401), and only after the expiry and
  target checks.
- The guards of `qrHandler` run in a fixed order: expiry, then the target
  policy, then the signature.
- The decoder is Go's lenient one. It skips `\r` and `\n` anywhere in the
  input and ignores the two spare bits of the last symbol of a 43-character
  signature, so every signature has further spellings that are accepted
  (`SpareBitsIgnored`, `LineBreakIgnored`, `SignatureSpellingsAccepted`).
  This gives no forgery: every such spelling decodes to the same digest.

## Model

| member | source | states |
|---|---|---|
| `Base64Url.Encode` | main.go:152 | the encoding of n bytes has (4n+2)/3 symbols, all from `A-Z a-z 0-9 - _` (no padding) |
| `Base64Url.Symbol` | main.go:152 | each sextet is spelled by a symbol of the URL-safe alphabet that decodes back to it |
| `Base64Url.SymbolValue` | main.go:156-157 | a byte has a value exactly when it is in the URL-safe alphabet |
| `Base64Url.Pack` | main.go:152 | the sextets of n bytes number ceil(4n/3): three times their count lies between 4n and 4n+2 |
| `Base64Url.PackLength` | main.go:152 | four sextets per three bytes, rounded up, so a 32-byte digest takes 43 symbols |
| `Base64Url.Values` | main.go:156-157 | reading symbols fails exactly when some byte is outside the alphabet; otherwise each value is that of its symbol |
| `Base64Url.Unpack` | main.go:156-157 | reassembling bytes fails exactly when one sextet is left over (length 1 modulo 4) |
| `Base64Url.StripLineBreaks` | main.go:156-157 | the decoder's input has no CR or LF left, and input without them is unchanged |
| `Base64Url.DecodeString` | main.go:156-157 | decoding succeeds exactly when, after CR and LF are dropped, every byte is a symbol and the length is not 1 modulo 4 |
| `Base64Url.DecodedLength` | main.go:156-157 | a successful decode yields three bytes per four symbols, rounded down |
| `Base64Url.UnpackPack` | main.go:152 | unpacking the sextets of any byte string gives the bytes back |
| `Base64Url.DecodeEncode` | main.go:152 | decoding the encoding of any byte string gives it back |
| `Base64Url.PackTwoTrailing` | main.go:152 | for 3m+2 bytes the last sextet carries two spare bits that the encoder sets to zero |
| `Base64Url.UnpackIgnoresSpareBits` | main.go:156-157 | the decoder does not look at the spare bits of a final partial group |
| `Base64Url.SpareBitsIgnored` | main.go:156-157 | for 3m+2 bytes, adding 1, 2 or 3 to the last symbol's value gives three strings, different from the encoding and from one another, that decode to the same bytes |
| `Base64Url.RespellingsDistinct` | main.go:156-157 | different amounts added to the last symbol give different strings |
| `Base64Url.LineBreakIgnored` | main.go:156-157 | inserting CR or LF anywhere does not change the decoding |
| `Decimal.Digits` | main.go:132 | the decimal digits of a natural number: non-empty, no leading zero, and of value exactly that number |
| `Decimal.ParseInt` | main.go:76 | an accepted string is an optional sign then digits, and its value lies in the signed 64-bit range |
| `Decimal.FormatInt` | main.go:132 | `strconv.FormatInt(n, 10)` is never empty and starts with `-` exactly when n is negative |
| `Decimal.FormatIntCanonical` | main.go:132 | `FormatInt` writes no sign and no leading zero for n >= 0, and `-` then canonical digits for n < 0 |
| `Decimal.ParseFormat` | main.go:132 | parsing the formatted number gives it back over the whole 64-bit range |
| `Decimal.CanonicalUnique` | main.go:132 | a canonical digit string is the formatted value of what it denotes, so the format is the only canonical spelling |
| `Decimal.ParsedHasNoNewLine` | main.go:76 | no string that parses contains a line feed |
| `Decimal.NonCanonicalSpellings` | main.go:76 | a leading `+` or `0` gives a different text with the same parsed value |
| `TargetPolicy.CheckParsed` | main.go:164-181 | accepted exactly when the parse succeeded, the scheme is `http` or `https`, the host is non-empty and the hostname is not `localhost` in any case; otherwise the first failing rule in that order is the reason |
| `TargetPolicy.ValidateTargetUrl` | main.go:164-181 | a raw target is accepted exactly when it parses to an http or https URL with a host whose hostname is not `localhost` in any case; a parse error is returned with the parser's own message |
| `TargetPolicy.ErrorText` | main.go:166-179 | a parse error is reported with the parser's text; each policy rule has its own fixed non-empty message |
| `TargetPolicy.PolicyMessagesDistinct` | main.go:169-179 | the three policy messages differ pairwise, so the message names the rule that failed |
| `Basics.Lower` | main.go:176 | lower-casing keeps the length and leaves no upper-case ASCII letter; it folds ASCII only (see Left out) |
| `TargetPolicy.LowerIsLocalhost` | main.go:176-177 | the lower-cased hostname equals `localhost` exactly when the hostname is `localhost` up to ASCII case |
| `TargetPolicy.LoopbackLiteralAccepted` | main.go:176-180 | the loopback rule is literal: `http://127.0.0.1` passes the policy |
| `Token.NewHasher` | main.go:148 | a fresh MAC holds the secret as its key and no message bytes yet |
| `Token.Sum` | main.go:152 | the sum is the MAC of the key and every byte written |
| `Token.Write` | main.go:149-151 | a write keeps the key and appends exactly the written bytes to the message |
| `Token.WritesConcatenate` | main.go:148-152 | three writes and a sum give the MAC of the three pieces concatenated |
| `Token.MacInput` | main.go:149-151 | the signed message is the target, then one line feed, then the expiry text |
| `Token.MacInputInjective` | main.go:149-151 | when expiry texts hold no line feed, equal messages mean equal targets and equal expiry texts |
| `Token.Sign` | main.go:147-153 | a signature is exactly the unpadded URL-safe encoding of the MAC of target, line feed, expiry text: 43 symbols of the alphabet that decode to that MAC |
| `Token.SecureEqual` | main.go:155-162 | false when either string fails to decode; otherwise true exactly when the decoded bytes are equal |
| `Token.LengthMismatchUnequal` | main.go:161 | decoded values of different lengths never compare equal |
| `Token.MatchesSignIff` | main.go:91-92 | a presented signature matches exactly when it decodes to the MAC of the presented target and expiry text |
| `Token.SecureEqualEncodings` | main.go:155-162 | two encodings compare equal exactly when the encoded bytes are equal |
| `Token.SignatureSpellings` | main.go:152-161 | each signature has three other spellings, different from it and from one another, that compare equal to it |
| `Handlers.ExpiryOf` | main.go:76-80 | an expiry is accepted exactly when it parses as a 64-bit integer and is positive |
| `Handlers.Verify` | main.go:71-95 | missing value, then bad expiry, then `now > exp`, then target policy, then signature; each outcome holds exactly when the earlier guards pass and its own fails, and render is reached exactly when all pass |
| `Handlers.VerifyError` | main.go:71-94 | expired and bad signature answer 401, every other failure 400 |
| `Handlers.TtlOf` | main.go:120-124 | a ttl is accepted exactly when it parses and lies in 1..86400 |
| `Handlers.Issue` | main.go:131-133 | the link's expiry text is `FormatInt(now + ttl)` and its signature is exactly `sign` of the target and that text, which decodes to their MAC |
| `Handlers.Mint` | main.go:116-133 | missing value, then ttl bounds, then target policy; a minted link carries the target, `FormatInt(now + ttl)` and exactly the signature `sign` computes over those two |
| `Handlers.MintError` | main.go:116-128 | every refusal of the mint handler answers 400 |
| `Handlers.Gate` | main.go:44-59 | no header is refused as missing, a non-empty header other than `"Bearer " + token` as unauthorized, and exactly that header is admitted |
| `Handlers.SignEndpoint` | main.go:36 | `/v1/sign` runs the mint handler exactly when the gate admits the request, and otherwise answers with the gate's refusal |
| `Handlers.GateError` | main.go:49-56 | every refusal of the bearer gate answers 401 |
| `Handlers.GateAdmitsExactly` | main.go:44-59 | the mint handler is reached exactly when the header equals `"Bearer " + token`; an empty header is refused as missing |
| `Handlers.MintThenVerify` | main.go:76-133 | a link minted at `now` verifies, with the same secret and parser, at every time up to `now + ttl` |
| `Handlers.ExpiryInclusive` | main.go:81-84 | a link is not expired at its expiry second and is expired one second later |
| `Handlers.ExpiredStaysExpired` | main.go:81-84 | once expired, a link stays expired at every later time |
| `Handlers.TamperedSignatureRejected` | main.go:91-95 | a signature whose bytes differ from the expected MAC in any bit never reaches render |
| `Handlers.SignatureBindsLink` | main.go:91-95 | for expiry texts that parse, two links differing in target, expiry text or both have different signed messages, and once the earlier guards pass a signature minted for one link admits the other exactly when the MACs of the two messages coincide |
| `Handlers.VerifyDependsOnPresentedMessage` | main.go:91 | verification uses the MAC only at the message built from the presented target and expiry text |
| `Handlers.SignatureSpellingsAccepted` | main.go:91-95 | a good signature with a line break inserted, or with any of the three other values in the spare bits of its last symbol, also reaches render |
| `Handlers.ExpiredAndBadSigDistinguishable` | main.go:81-94 | expired and bad-signature answers share status 401 but their messages differ |

## Left out

- Process start-up, `.env` and environment loading, the `/v1/qr` route and `ListenAndServe` (main.go:20-34, 38-40): configuration and I/O. The secret and the bearer token are plain parameters; only the wrapping of the mint handler in the gate (main.go:36) is modelled, as `SignEndpoint`.
- QR encoding and writing the image (main.go:97-105): a foreign library and output. The outcome `Render(target)` stands for it, so a failure of the encoder (500) is not modelled.
- Building the signed path with `url.QueryEscape` and `fmt.Sprintf`, and writing it (main.go:135-142): the minted `Link` holds the three unescaped query values.
- HMAC-SHA256: a parameter `mac` with 32-byte results. Unforgeability and collision resistance cannot be proved here. `SignatureBindsLink` therefore states acceptance of a foreign signature as equivalent to a collision of the MACs of two different messages.
- `url.Parse` and `URL.Hostname()`: a parameter `parse`. How they lower-case the scheme, split host and port and reject syntax is theirs. So no claim is made about which raw strings are syntax errors.
- `r.URL.Query()`, `q.Get` and `r.Header.Get`: the query values and the `Authorization` value are parameters, and an absent value is the empty string.
- `time.Now()`: the parameter `now`, in whole seconds. `Time.Add` saturating on 64-bit overflow is not modelled: the expiry is the unbounded sum `now + ttl`.
- `Handlers.MintThenVerify`: assumes `0 <= now <= MaxInt64 - 86400`. Before the epoch `now + ttl` can be non-positive, and the minted link is then refused as "invalid exp".
- `Token.SecureEqual`: `hmac.Equal` compares in constant time. Timing cannot be expressed, so the model uses plain equality. The bearer gate's comparison (main.go:54) is modelled the same way.
- `Basics.Lower`: folds ASCII letters only, where `strings.ToLower` folds Unicode. For the only comparison made, against `localhost`, the two agree: the only non-ASCII code points that Go's `unicode.ToLower` maps to ASCII letters are the Kelvin sign U+212A, which lowers to `k`, and U+0130 (capital I with dot above), which lowers to `i`, and neither `k` nor `i` occurs in `localhost`.
- `http.Error` also appends a newline and sets headers; `HttpError` keeps only the status and the message.

# Sunvoy session and signed-request core, in Dafny

This project models the core of `index.ts`, a script that does four things:

- It logs in to a cookie-session web application, or reuses a cookie saved by an earlier run.
- It scrapes six hidden per-user fields from the tokens page.
- It signs those fields with an HMAC checkcode.
- It posts the signed request to the settings API.

The model covers four parts of the script:

- **Canonical request signer** (`createSignedRequest`).
  - Adds the clock in whole seconds as `timestamp`.
  - Sorts the keys in UTF-16 code-unit order.
  - Percent-encodes the values as `encodeURIComponent` does, following the Encode operation of ECMA-262 section 19.2.6 with the triplets of RFC 3986 section 2.1.
  - Joins the pairs with `&` and `=`.
  - Signs the result with HMAC-SHA1 under the secret `mys3cr3t`, written as upper-case hex.
  - Modules: `Signer`, built on `Unicode`, `UriComponent`, `JsObject`, `KeySort` and `Text`.
- **Hidden-field scrape.** Six expressions of the form `id="NAME"\s+value="([^"]+)"`, modelled as one leftmost-match scanner (module `FieldScraper`). Module `SettingsRequest` feeds the six results into the signer as the script does.
- **Nonce extraction** (`extractNonceFromHtml`). Two regular expressions, each modelled as a scanner that follows the backtracking order literally (module `NonceExtractor`).
  - Both start at the leftmost possible position.
  - Each greedy `[^>]*` is tried longest first.
  - The `i` flag is modelled as ASCII case folding.
- **Reuse-or-login step** at the start of `loginAndFetchUsers`, together with `loadAuth` and `isCookieValid` (module `Session`).
  - `Session.Plan` is a pure specification of the step.
  - `Session.Client` is a class whose state is the credential file and the log of requests sent.
  - `Client.Authenticate` runs the step in the order the script does and is proved equal to the plan.

The model takes its inputs as parameters:

- the clock reading in milliseconds;
- the HMAC-SHA1 primitive, a function returning 20 bytes;
- the HTML of the login and tokens pages;
- the outcome of the cookie probe;
- the `set-cookie` header of the login response.

Regular-expression positions count characters, while JavaScript counts UTF-16 code units. The two give the same matches here, because every match boundary is next to an ASCII literal or at the end of a greedy run.

### Behaviour a reader might expect but the script does not have

- **Nonce extraction is less tolerant than its two-stage shape suggests.** Stage 1 tolerates missing quotes and any letter case, but stage 2 needs quotes around both `nonce` and the value and is case-sensitive; both stages need `name` before `value`. Stage 1 only picks the first candidate element, so a later element that would qualify is never tried. `NonceExtractor.FirstCandidateDecides` proves this on a two-element page.
- **An incomplete scrape is not rejected.** The script signs a missing field as the text `undefined` (`SettingsRequest.FixedShape`).
- **A corrupt credential file aborts the run** instead of leading to a fresh login: `JSON.parse` throws and the run ends (`Session.CorruptFileAborts`).
- **The login page's status is not checked.** Its body is scanned for a nonce whatever the HTTP status.

## Model

| member | source | states |
|---|---|---|
| Signer.Timestamp | index.ts:140 | the timestamp t is the clock rounded down to whole seconds: t*1000 <= nowMs < t*1000 + 1000 |
| Signer.DecimalRoundTrip | index.ts:141 | the timestamp's decimal text reads back as the timestamp |
| Signer.DecimalUnencoded | index.ts:141-142 | the timestamp text is made of unreserved characters, so encoding leaves it unchanged |
| JsObject.Set | index.ts:141 | the spread `{...t, timestamp}` keeps distinct keys and adds or overrides exactly that key; an existing key keeps its place and a new key goes last; every other key keeps its value |
| JsObject.Keys | index.ts:142 | `Object.keys` lists every property's key, one per property, in order |
| Signer.WithTimestamp | index.ts:141 | the object to sign has the input's keys plus `timestamp`, whose value is the decimal timestamp; every other key keeps its value |
| KeySort.Insert | index.ts:142 | inserting a key into a sorted list keeps it strictly sorted and adds exactly that key |
| KeySort.Sort | index.ts:142 | the sorted keys are strictly ascending in code-unit order and a permutation of the input |
| KeySort.ChainSorted | index.ts:142 | ascending neighbours make the whole list strictly ascending |
| KeySort.SortedUnique | index.ts:142 | two strictly sorted lists of the same keys are equal, so the order of the input is irrelevant |
| KeySort.SortPermutationInvariant | index.ts:142 | sorting two arrangements of the same distinct keys gives the same list |
| Unicode.KeyLessIrreflexive | index.ts:142 | the default sort order never puts a key before itself |
| Unicode.KeyLessTransitive | index.ts:142 | the default sort order is transitive |
| Unicode.KeyLessTotal | index.ts:142 | any two different keys are ordered one way or the other |
| Unicode.KeyLessAsymmetric | index.ts:142 | two keys are never each before the other |
| Unicode.Utf16Injective | index.ts:142 | different strings have different code-unit sequences, so the order separates every two keys |
| Unicode.Utf16Append | index.ts:142 | the code units of a concatenation are the concatenated code units |
| Unicode.KeyLessAt | index.ts:142 | keys that agree up to position i and differ in a BMP character there are ordered by that character |
| Unicode.Utf8CharRoundTrip | index.ts:142 | every character's UTF-8 bytes decode back to that character |
| Signer.SortedKeys | index.ts:142 | `Object.keys(i).sort()` holds exactly the object's keys, strictly ascending |
| UriComponent.UpperHexDigit | index.ts:142 | the digit of a triplet is upper-case hex and has the intended value |
| UriComponent.Triplet | index.ts:142 | a byte is written as `%` and two upper-case hex digits that spell its value |
| UriComponent.EncodeHasNoSeparators | index.ts:142 | an encoded value never holds `&` or `=` |
| UriComponent.EncodeIdentity | index.ts:142 | encoding leaves a string unchanged exactly when all of it is unreserved |
| UriComponent.DecodeEncode | index.ts:142 | percent-decoding an encoded value gives back the value, for every string |
| Signer.Entries | index.ts:142 | one entry per sorted key, pairing the key with `String` of its value |
| Signer.SerializeRoundTrip | index.ts:142 | splitting on `&`, then on the first `=`, then decoding gives back every entry in order |
| Signer.CanonicalRoundTrip | index.ts:142 | the canonical string reads back as the object's sorted entries, and they denote the object's key/value map |
| Signer.CanonicalDependsOnContent | index.ts:141-142 | objects with the same keys and values give the same canonical string, whatever their insertion order |
| Signer.Hex | index.ts:145 | the hex digest has two digits per byte |
| Signer.CheckcodeHex | index.ts:145 | the checkcode is 40 upper-case hex digits that hex-decode to the digest |
| Signer.CreateSignedRequest | index.ts:139-152 | the payload is the canonical string of the input plus `timestamp`, the checkcode hex-decodes to the HMAC of its UTF-8 bytes under the secret's UTF-8 bytes, and `fullPayload` is `payload&checkcode=checkcode` |
| Signer.TimestampField | index.ts:140-141 | `timestamp` is always signed, carries the decimal clock in seconds and overrides an input `timestamp`; the other keys keep their values |
| Signer.SignedPayloadRoundTrip | index.ts:142 | the payload reads back with keys strictly ascending, each once, recovering the signed key/value map |
| Signer.FullPayloadRoundTrip | index.ts:149 | the full payload reads back as the payload's entries followed by the pair `checkcode` |
| Signer.InsertionOrderIrrelevant | index.ts:141-142 | two inputs with the same keys and values give the same signed request |
| FieldScraper.SkipSpace | index.ts:74 | `\s+` consumes the maximal whitespace run |
| FieldScraper.SkipUnquoted | index.ts:74 | `[^"]+` consumes the maximal run of characters other than `"` |
| FieldScraper.MatchAt | index.ts:74 | a match at a position yields a non-empty value without `"` |
| FieldScraper.Extract | index.ts:74-79 | a scraped value is non-empty and holds no `"` |
| FieldScraper.MatchAtSound | index.ts:74 | what the scanner finds at a position is an occurrence of the pattern there |
| FieldScraper.MatchAtComplete | index.ts:74 | every occurrence of the pattern is found at its position, with its value |
| FieldScraper.OccurrenceUnique | index.ts:74 | at one position the whitespace run and the value are determined |
| FieldScraper.ExtractLeftmost | index.ts:74-79 | a scraped value comes from an occurrence, and no occurrence starts earlier |
| FieldScraper.ExtractAbsent | index.ts:74-79 | nothing is scraped exactly when the page holds no occurrence |
| SettingsRequest.Fields | index.ts:82-89 | the object literal has one property per field name, in order, holding that field |
| SettingsRequest.ScrapedFields | index.ts:82-89 | the signed object has exactly the six field keys, each once, each holding its scrape result |
| SettingsRequest.SortedDistinct | index.ts:142 | a strictly sorted key list holds no key twice |
| SettingsRequest.OnlySignedOrder | index.ts:142 | the only strictly sorted arrangement of the seven keys is access_token, apiuser, language, openId, operateId, timestamp, userId |
| SettingsRequest.SettingsKeys | index.ts:82-89 | the keys this script signs always sort into that order |
| SettingsRequest.SettingsEntries | index.ts:82-89 | the seven signed entries pair each key with its field text, and `timestamp` with the decimal timestamp |
| SettingsRequest.MissingPiece | index.ts:82-89 | a field the scrape missed is signed as `key=undefined` |
| SettingsRequest.SerializedPieces | index.ts:142 | splitting the canonical string on `&` gives one `key=value` piece per entry |
| SettingsRequest.FixedShape | index.ts:82-89 | the signed payload always has seven pairs in that key order: encoded field texts, `undefined` for a missing field, and `timestamp` sixth |
| NonceExtractor.TolerantLitAt | index.ts:132 | under the `i` flag a lower-case pattern literal matches exactly where each character is the literal's own or, for a letter, its ASCII capital |
| NonceExtractor.StrictLitAt | index.ts:134 | without the `i` flag a pattern literal matches only verbatim |
| NonceExtractor.GtFrom | index.ts:132 | a `[^>]*` run stops at the first `>` |
| NonceExtractor.GtFromBound | index.ts:132 | a `[^>]*` run can end at j exactly when there is no `>` before j |
| NonceExtractor.Head | index.ts:132 | the `name=…nonce` part matches within a `>`-free span |
| NonceExtractor.Tail | index.ts:132 | the `value=` part yields a capture of value characters; in stage 2 it is non-empty and quoted on both sides |
| NonceExtractor.LastValue | index.ts:132 | the longest-first `[^>]*` before `value=` yields a well-formed capture |
| NonceExtractor.LastName | index.ts:132 | the longest-first `[^>]*` before `name=` yields a well-formed capture |
| NonceExtractor.MatchAt | index.ts:132 | a match at s yields a well-formed capture |
| NonceExtractor.FirstMatch | index.ts:132 | the reported start is where the expression matches |
| NonceExtractor.MatchAtSound | index.ts:132 | a match at s is an occurrence and comes first in backtracking order (last `name=`, then last `value=`) |
| NonceExtractor.MatchAtComplete | index.ts:132 | every occurrence makes the expression match at its start |
| NonceExtractor.FirstMatchLeftmost | index.ts:132 | nothing matches before the first match |
| NonceExtractor.FirstMatchNone | index.ts:132 | the search fails exactly when the expression matches at no start |
| NonceExtractor.FirstMatchSound | index.ts:132-134 | the first match is an occurrence at the leftmost start that has one, chosen in backtracking order |
| NonceExtractor.FirstMatchAbsent | index.ts:132-134 | either expression fails exactly when the text holds no occurrence |
| NonceExtractor.Stage1Found | index.ts:132-133 | the fragment is the leftmost occurrence's text, in backtracking order, and holds no `>` |
| NonceExtractor.Stage1Absent | index.ts:132-133 | stage 1 finds nothing exactly when the page holds no occurrence |
| NonceExtractor.Stage2 | index.ts:134-135 | a stage-2 capture is non-empty and holds no quote |
| NonceExtractor.Stage2Found | index.ts:134-135 | a stage-2 capture is the value of the fragment's leftmost strictly quoted `name="nonce" … value="v"` site |
| NonceExtractor.Stage2NeedsQuote | index.ts:134-135 | stage 2 never matches a text without quotes |
| NonceExtractor.NonceSiteShift | index.ts:133-134 | a site inside the fragment is a site of the page |
| NonceExtractor.ExtractNonce | index.ts:131-136 | a nonce is non-empty and holds no `"` or `'` |
| NonceExtractor.ExtractNonceSite | index.ts:131-136 | a nonce comes from a `>`-free span of the page in stage 1's fragment: `<input`, then `name=` with quoted `nonce`, then `value=` with the quoted nonce |
| NonceExtractor.ExtractNonceAbsent | index.ts:131-136 | without such a site, with `name` before `value` and quotes, there is no nonce |
| NonceExtractor.FirstCandidateDecides | index.ts:131-136 | on `<input name=nonce value=x><input name='nonce' value='y'>` the result is absent, though the second element is a valid site |
| Session.Client.constructor | index.ts:15 | the run starts from the credential file with no requests sent |
| Session.Client.SaveAuth | index.ts:155-160 | the credential file now holds the cookie; nothing else changes |
| Session.Client.Send | index.ts:18-42 | one request is appended to the log; the file is unchanged |
| Session.Client.Authenticate | index.ts:15-49 | the result, the requests sent and the new credential file are those of `Plan` for the old file and the responses |
| Session.ReuseExactly | index.ts:15-20 | the saved cookie is reused exactly when it is a non-empty string and the probe is 2xx; then only the probe is sent and the file is unchanged |
| Session.ProbeFailureMeansLogin | index.ts:179-181 | a probe that threw never leads to reuse |
| Session.CorruptFileAborts | index.ts:165 | an unreadable credential file aborts before any request and is left as it is |
| Session.MissingNonceAborts | index.ts:29-30 | without reuse and without a nonce, the run aborts with no login POST and no write |
| Session.LoginSavesCookie | index.ts:33-48 | without reuse and with a nonce, the login form is posted with that nonce, and the `set-cookie` value (or `""`) becomes the cookie, is saved, and loads back |
| Session.EmptyCookieNotReused | index.ts:45-48 | a login without a `set-cookie` header saves `""`, which the next run never reuses |

## Left out

- HTTP transport. The requests are not issued; their outcomes are inputs. This covers every `fetch`, the headers, `redirect: 'manual'` and reading response bodies.
- Rejected `fetch` calls other than the probe are not modelled. These are the login page and the login POST; they end the run through the top-level `catch`.
- The requests after the reuse-or-login step are not modelled: the users API, the tokens page and the settings POST. The tokens page's HTML is the input of the scrape.
- The JSON body of the settings request is not modelled. `JSON.stringify` omits undefined fields there.
- The login form is kept as its three fields. Its `application/x-www-form-urlencoded` serialisation by `URLSearchParams` is not modelled.
- File-system and JSON persistence are not modelled. The credential file is an abstract value: absent, a stored cookie (or none), or corrupt.
- The `savedAt` field is not modelled. It comes from the clock and is never read back.
- Session.LoadAuth: a cookie field holding a non-string JSON value is not modelled. Arrays, objects, `true` and non-zero numbers are truthy, so the script would probe with them; `false` and `0` are falsy and lead to login. The model covers strings, a missing field and `null`.
- Logging, `process.exit` and the output file are not modelled. Those are process concerns.
- The `throw error(...)` on a missing nonce is modelled as an abort.
- HMAC-SHA1 is a parameter returning 20 bytes; nothing is proved about its internals. `Date.now()` is a parameter.
- Signer.Timestamp: the clock is an exact integer, and `Math.floor(Date.now() / 1e3)` is modelled as exact integer division. It does not model floating-point rounding, which has no effect for clock values below 2^43 ms.
- Signer.Decimal: renders every integer in plain decimal. JavaScript switches to exponent notation from 10^21, which no clock reading reaches.
- Signer.UpperCase: upper-cases only `a`-`z`. It is applied only to hex digits, where this equals `toUpperCase`.
- JsObject.Keys: keeps insertion order, while `Object.keys` lists integer-like keys first. Only the sorted list is used, and it does not depend on that order.
- `encodeURIComponent` throws `URIError` on a lone surrogate. A string here cannot hold one, so that error path does not arise.

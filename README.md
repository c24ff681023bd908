# Escher request signing (Java), modelled in Dafny

Escher is an HMAC request-signing scheme in the style of AWS Signature
Version 4. A client signs an HTTP request, or presigns a URL, with a secret
shared with the server. The server reads the authorization header back.

This project models the three core classes of the Java library.

- **`Helper`** (modules `Text`, `Sorting`, `Helper`) builds the signed input:
  - the canonical form of a request: method, path, sorted query entries, sorted header lines, sorted signed-header names and the body digest;
  - the string to sign;
  - the signing key, a left fold of HMAC over the `/`-segments of the credential scope;
  - the lower-case hex signature;
  - the authorization header text;
  - the TreeMap of presigning parameters.

  Two parts of `Helper` update a local variable step by step, and they are methods:
  - `calculateSigningKey` folds HMAC over the scope segments in a loop, with loop invariants;
  - `calculateSigningParams` makes five successive `put`s into a TreeMap and is proved against `SigningParams`.

  Everything else is a function.
- **`AuthElements.parseHeader`** (modules `Scanner`, `AuthElements`) matches the whole header text against one anchored regular expression with seven groups. The expression is a sequence of literals and character-class runs, matched by a greedy scanner that is proved to agree with the regular expression. The result is the seven fields, or the "Malformed authorization header" error.
- **`Escher`** (module `EscherFacade`) is the facade. It is a class with the configuration fields, the defaults, and chained setters. Its methods are:
  - `signRequest`, over a mutable `EscherRequest` class: the date header is added, the request is signed, then the authorization header is added;
  - `presignUrl`: five vendor-prefixed parameters in TreeMap order, then the signature over that URL as the last parameter;
  - `authenticate`: the last header of each role wins, errors come in a fixed order, and the result is the parsed key id.

  Each method is proved against a specification function of the configuration.

Code the library calls but which is not part of this model becomes a parameter:
- `Hmac.sign` and `Hmac.hash` are the `Hmac` record of function values. `hash` takes no algorithm, as at `Helper.java:23` and `:66`.
- `URLEncoder.encode`, `new URI(url)`, `URIBuilder.build().toString()`, `PresignUrlDummyEscherRequest` and `SimpleDateFormat.parse` are the `Platform` record.

The facade calls an instance-style `Helper(config)`, which is not part of this model. The model calls the static operations of `Helper.java` with the same configuration values. `AuthHeader.parse` (`Escher.java:121`) is not part of this model either; it is taken to be `AuthElements.parseHeader`.

Case mapping is ASCII-only. Dates are UTC field records.

## Model

| member | source | states |
|---|---|---|
| Text.TrimIgnoresPadding | src/main/java/com/emarsys/escher/Helper.java:40 | `trim` removes any run of characters at or below U+0020 from both ends: blank padding around a value never changes its trimmed form |
| Text.TrimIsInfix | src/main/java/com/emarsys/escher/Helper.java:40 | the trimmed value is the one infix whose surroundings are blank and whose two end characters are not |
| Text.ReduceIsJoin | src/main/java/com/emarsys/escher/Helper.java:57-59 | `reduce(byJoiningWith(sep))` yields nothing on an empty stream and otherwise the elements with `sep` between neighbours |
| Text.ToLowerJoin | src/main/java/com/emarsys/escher/Helper.java:98 | lower-casing the `;`-joined names equals joining the lower-cased names |
| Text.JoinPieces | src/main/java/com/emarsys/escher/Helper.java:57-59 | joining the pieces of a text between separators gives the text back |
| Text.PiecesOfJoin | src/main/java/com/emarsys/escher/Helper.java:57-59 | cutting a join at its separator gives the parts back when no part holds the separator |
| Text.SplitIgnoresTrailingSeparator | src/main/java/com/emarsys/escher/Helper.java:73 | `split` drops trailing empty pieces, so a trailing separator changes the result exactly when the text is empty |
| Text.SplitJoin | src/main/java/com/emarsys/escher/AuthElements.java:33 | `split` undoes a join of parts that are free of the separator when the last part is non-empty; empty parts before it are kept |
| Text.ZeroPadRoundTrip | src/main/java/com/emarsys/escher/Helper.java:81-92 | zero padding renders exactly `width` digits of any number below 10^width, and those digits read back as the number |
| Text.LowerCasedHexBinary | src/main/java/com/emarsys/escher/Helper.java:104 | `printHexBinary(...).toLowerCase()` is base16 with lower-case digits |
| Text.LowerHexRoundTrip | src/main/java/com/emarsys/escher/Helper.java:104 | lower-case base16 decodes back to the bytes it encodes |
| Text.ParseLowerHexExact | src/main/java/com/emarsys/escher/Helper.java:104 | a text that decodes is the lower-case encoding of what it decodes to, so the encoding is injective and exact |
| Sorting.Sort | src/main/java/com/emarsys/escher/Helper.java:31 | `sorted()` returns an ascending (`String.compareTo`) permutation of its input |
| Sorting.SortedUnique | src/main/java/com/emarsys/escher/Helper.java:41 | two ascending permutations of the same multiset of strings are equal, so any sort gives the one result |
| Sorting.SortIgnoresOrder | src/main/java/com/emarsys/escher/Helper.java:51 | permuted inputs sort to the same sequence |
| Sorting.MapPermutation | src/main/java/com/emarsys/escher/Helper.java:30 | mapping a permutation gives a permutation of the mapped entries, with duplicates kept |
| Sorting.Put | src/main/java/com/emarsys/escher/Helper.java:114-119 | a TreeMap `put` keeps keys strictly ascending, adds the key, maps it to the value and leaves every other key's value alone |
| Sorting.EntriesUnique | src/main/java/com/emarsys/escher/Helper.java:114 | two ascending entry lists that map every key alike are the same list, so a TreeMap's iteration order is fixed by its contents |
| Helper.DateLayout | src/main/java/com/emarsys/escher/Helper.java:81-92 | for years 1 to 9999, the short date is 8 digits reading back as year, month and day; the long date is those 8 digits, `T`, 6 digits reading back as hour, minute and second, and `Z` (16 characters) |
| Helper.HeaderLineNormalizes | src/main/java/com/emarsys/escher/Helper.java:40 | names equal ignoring case and equal trimmed values give the same canonical line; conversely, for names free of `:`, the same line means names equal ignoring case and equal trimmed values |
| Helper.CanonicalHeaderEntries | src/main/java/com/emarsys/escher/Helper.java:37-54 | every header contributes exactly one line and one lower-cased name, duplicates kept; lines and names are ascending; the joined text splits back into them; no headers give "" |
| Helper.CanonicalQueryEntries | src/main/java/com/emarsys/escher/Helper.java:27-34 | every parsed query pair contributes one `name=encode(value)` entry, duplicates kept; entries are ascending; the `&`-join splits back into them; no pairs give "" |
| Helper.CanonicalizeIgnoresOrder | src/main/java/com/emarsys/escher/Helper.java:16-44 | the canonical request is the same for any permutation of the header list and of the query pairs |
| Helper.CanonicalRequestLines | src/main/java/com/emarsys/escher/Helper.java:16-24 | the canonical request's lines are method, path, query, one line per header in sorted order, an empty line, the signed-header list and the body digest |
| Helper.StringToSignLines | src/main/java/com/emarsys/escher/Helper.java:62-67 | the string to sign has four lines: `prefix-HMAC-algo`, the long date, short date `/` scope, and the digest of the canonical request |
| Helper.FoldKeyAppend | src/main/java/com/emarsys/escher/Helper.java:73-75 | folding HMAC over two runs of segments is folding the second run over the key the first run produced |
| Helper.SigningKeyIgnoresTrailingSlash | src/main/java/com/emarsys/escher/Helper.java:70-78 | a trailing `/` on a non-empty credential scope leaves the signing key unchanged |
| Helper.CalculateSigningKey | src/main/java/com/emarsys/escher/Helper.java:70-78 | the loop returns the left fold of `HMAC(hashAlgo, key, segment)` over the `/`-segments, starting from `HMAC(hashAlgo, prefix + secret, shortDate)` |
| Helper.CalculateSignature | src/main/java/com/emarsys/escher/Helper.java:103-105 | the signature is `[0-9a-f]` only, twice as long as the HMAC output, and decodes back to that HMAC |
| Helper.CalculateAuthHeader | src/main/java/com/emarsys/escher/Helper.java:95-100 | fails with `NoSuchElementException` iff the signed-header list is empty; otherwise the layout with the caller's names in the caller's order, `;`-joined and lower-cased, neither sorted nor deduplicated |
| Helper.CalculateSigningParams | src/main/java/com/emarsys/escher/Helper.java:113-122 | the five `put`s leave the keys ascending: Algorithm, Credentials, Date, Expires, SignedHeaders=`host` |
| Helper.SigningParamsOrder | src/main/java/com/emarsys/escher/Helper.java:113-122 | an ascending map holding exactly those five keys is that one list, whatever the order of the `put`s |
| Scanner.Span | src/main/java/com/emarsys/escher/AuthElements.java:22 | a `+` run takes the longest prefix of the class's characters |
| Scanner.Match | src/main/java/com/emarsys/escher/AuthElements.java:22-25 | a match returns groups that fit their classes, one per group of the pattern, and that render the whole text |
| Scanner.MatchRender | src/main/java/com/emarsys/escher/AuthElements.java:22-25 | for a delimited pattern, the text of any fitting groups is matched and gives those groups back |
| Scanner.MatchExactly | src/main/java/com/emarsys/escher/AuthElements.java:22-25 | the scanner accepts a text iff some fitting groups render it, and then returns exactly those groups, as `Matcher.matches` does for the anchored expression |
| Scanner.MatchExtends | src/main/java/com/emarsys/escher/AuthElements.java:22-25 | when a delimited pattern ends in a run and both `t` and `t + e` match, `e` is made of the run's characters |
| AuthElements.HeaderPatternFacts | src/main/java/com/emarsys/escher/AuthElements.java:22 | the token pattern is delimited, captures seven groups, renders the header layout and fits exactly the groups of the expression's classes |
| AuthElements.ParseHeaderAccepts | src/main/java/com/emarsys/escher/AuthElements.java:20-41 | `parseHeader` succeeds iff the text is the layout of seven in-class fields, and then returns those fields with the signed-header group split at `;` |
| AuthElements.ParseHeaderFailure | src/main/java/com/emarsys/escher/AuthElements.java:37-38 | every rejection is "Malformed authorization header" |
| AuthElements.CapturesUnique | src/main/java/com/emarsys/escher/AuthElements.java:22-34 | the groups are unambiguous: two in-class choices whose layouts are the same text are the same choice |
| AuthElements.ParsedFields | src/main/java/com/emarsys/escher/AuthElements.java:28-34 | on success, each field is of its class (prefix `\w+`, algorithm `[A-Z0-9,]+`, key id `[\w-]+`, date 8 digits, scope `[\w-/]+`, signature `[0-9a-f]+`), and the signed-header names hold only letters and `-`, the last non-empty |
| AuthElements.SplitOfNonSeparators | src/main/java/com/emarsys/escher/AuthElements.java:33 | splitting the signed-header group gives names free of `;`, made of the group's characters, with trailing empty names dropped |
| AuthElements.ParseHeaderOf | src/main/java/com/emarsys/escher/AuthElements.java:20-41 | rendering well-formed elements and parsing the text gives the elements back |
| AuthElements.ParseAuthHeader | src/main/java/com/emarsys/escher/AuthElements.java:20-41 | parsing what `calculateAuthHeader` wrote from in-class inputs (signed-header names of letters and `-`, only the last required non-empty) returns the prefix, algorithm, key id, short date, scope, lower-cased names and signature |
| AuthElements.ParseSignedAuthHeader | src/main/java/com/emarsys/escher/AuthElements.java:20-41 | with the signature from `calculateSignature` of a non-empty HMAC, the header parses back and its signature decodes to that HMAC |
| AuthElements.AcceptedEnding | src/main/java/com/emarsys/escher/AuthElements.java:22 | an accepted header ends in a lower-case hex digit |
| AuthElements.NonHexEndingRejected | src/main/java/com/emarsys/escher/AuthElements.java:22-38 | any text ending in anything but a lower-case hex digit is rejected |
| AuthElements.SignatureExtension | src/main/java/com/emarsys/escher/AuthElements.java:22-34 | text appended to an accepted header is accepted iff it is all lower-case hex digits, and then only the signature grows by it |
| AuthElements.TrailingTextRejected | src/main/java/com/emarsys/escher/AuthElements.java:22-38 | text appended to an accepted header that holds any character other than a lower-case hex digit is rejected |
| AuthElements.AcceptedSignatureIsLowercase | src/main/java/com/emarsys/escher/AuthElements.java:22 | if a header ending in `, Signature=` and hex digits of either case is accepted, those digits are lower-case |
| AuthElements.UppercaseSignatureRejected | src/main/java/com/emarsys/escher/AuthElements.java:22-38 | a signature with an upper-case hex digit is rejected |
| AuthElements.AcceptedCredentialFirst | src/main/java/com/emarsys/escher/AuthElements.java:22 | in an accepted header the first space is followed by `Credential=` |
| AuthElements.CredentialNotFirstRejected | src/main/java/com/emarsys/escher/AuthElements.java:22-38 | a header whose first space is not followed by `Credential=` is rejected |
| AuthElements.AcceptedMarkers | src/main/java/com/emarsys/escher/AuthElements.java:22 | an accepted header contains `-HMAC-`, ` Credential=`, `, SignedHeaders=` and `, Signature=` |
| AuthElements.MissingFieldRejected | src/main/java/com/emarsys/escher/AuthElements.java:22-38 | a header missing any of the four field markers is rejected |
| AuthElements.MarkerPlaces | src/main/java/com/emarsys/escher/AuthElements.java:22 | an accepted header holds ` Credential=`, `, SignedHeaders=` and `, Signature=` each at exactly one position, in that order |
| AuthElements.AcceptedMarkersOnce | src/main/java/com/emarsys/escher/AuthElements.java:22 | in an accepted header each of those three markers occurs only once |
| AuthElements.AcceptedMarkerOrder | src/main/java/com/emarsys/escher/AuthElements.java:22 | in an accepted header every credential marker precedes every signed-headers marker, which precedes every signature marker |
| AuthElements.ReorderedFieldsRejected | src/main/java/com/emarsys/escher/AuthElements.java:22-38 | a header with any two of those markers out of order, wherever they stand, is rejected |
| AuthElements.RepeatedFieldRejected | src/main/java/com/emarsys/escher/AuthElements.java:22-38 | a header with one of those markers at two positions is rejected |
| EscherFacade.Signature | src/main/java/com/emarsys/escher/Escher.java:71-76 | the private pipeline's result is lower-case hex of the HMAC, under the signing key, of the string to sign of the canonical request |
| EscherFacade.SignatureIgnoresOrder | src/main/java/com/emarsys/escher/Escher.java:71-76 | requests that differ only in the order of their headers or query pairs get the same signature |
| EscherFacade.SignedRequestLayout | src/main/java/com/emarsys/escher/Escher.java:32-44 | a signed request is the original headers, then the date header `(dateHeaderName, longDate(now))`, then the auth header, whose signature is computed over the request with the date header and without the auth header |
| EscherFacade.DateHeaderSigned | src/main/java/com/emarsys/escher/Escher.java:36-38 | the date header's canonical line is among the signed header lines |
| EscherFacade.LastWithRoleFinds | src/main/java/com/emarsys/escher/Escher.java:94-99 | the scan finds a header for a role iff one matches, after `_`→`-` and ignoring case, and then it is the last matching header in list order |
| EscherFacade.LastWithRoleSnoc | src/main/java/com/emarsys/escher/Escher.java:94-99 | one more header replaces the kept header exactly when it plays the role |
| EscherFacade.AuthenticationOutcome | src/main/java/com/emarsys/escher/Escher.java:89-123 | errors come in the fixed order (host, date header, auth header, "Invalid date format", malformed header); success returns the key id of the last auth header; the clock skew plays no part |
| EscherFacade.SignThenAuthenticate | src/main/java/com/emarsys/escher/Escher.java:89-122 | a request with a host header, signed by `signRequest` with in-class fields, is accepted by `authenticate`, which returns the access key id |
| EscherFacade.SignedAuthHeader | src/main/java/com/emarsys/escher/Escher.java:39-41 | the last header of a signed request is the auth header; it parses back to the key id, and the headers before it are the dated request's |
| EscherFacade.VendorParamsSnoc | src/main/java/com/emarsys/escher/Escher.java:56 | each entry of the map adds one `X-<vendorKey>-<key>` parameter at the end |
| EscherFacade.PresignedQuery | src/main/java/com/emarsys/escher/Escher.java:55-62 | a presigned URI keeps the original parameters, then exactly the five vendor-prefixed parameters in TreeMap order, then `X-<vendorKey>-Signature`, which is lower-case hex over the URI made of everything before it |
| EscherFacade.EscherRequest.AddHeader | src/main/java/com/emarsys/escher/Escher.java:41 | the header is appended and nothing else of the request changes |
| EscherFacade.Escher.constructor | src/main/java/com/emarsys/escher/Escher.java:18-29 | a new object has the given scope and the defaults ESR, Escher, SHA256, X-Escher-Auth, X-Escher-Date and 900 |
| EscherFacade.Escher.SetAlgoPrefix | src/main/java/com/emarsys/escher/Escher.java:126-129 | changes only the algorithm prefix and returns the same object |
| EscherFacade.Escher.SetVendorKey | src/main/java/com/emarsys/escher/Escher.java:132-135 | changes only the vendor key and returns the same object |
| EscherFacade.Escher.SetHashAlgo | src/main/java/com/emarsys/escher/Escher.java:138-141 | changes only the hash algorithm and returns the same object |
| EscherFacade.Escher.SetCurrentTime | src/main/java/com/emarsys/escher/Escher.java:144-147 | changes only the current time and returns the same object |
| EscherFacade.Escher.SetAuthHeaderName | src/main/java/com/emarsys/escher/Escher.java:150-153 | changes only the auth header name and returns the same object |
| EscherFacade.Escher.SetDateHeaderName | src/main/java/com/emarsys/escher/Escher.java:156-159 | changes only the date header name and returns the same object |
| EscherFacade.Escher.SetClockSkew | src/main/java/com/emarsys/escher/Escher.java:162-165 | changes only the clock skew and returns the same object |
| EscherFacade.Escher.CalculateSignature | src/main/java/com/emarsys/escher/Escher.java:71-76 | computes the configuration's signature of the request, which is lower-case hex |
| EscherFacade.Escher.SignRequest | src/main/java/com/emarsys/escher/Escher.java:32-44 | on success returns the same request, now the signed request; the one modelled failure is an empty signed-header list, and the date header has then already been added (HMAC failures are under Left out) |
| EscherFacade.Escher.PresignUrl | src/main/java/com/emarsys/escher/Escher.java:47-68 | with HMAC and the digest taken to be total, fails with the URI error iff the URL does not parse, and otherwise returns the built presigned URI |
| EscherFacade.Escher.Authenticate | src/main/java/com/emarsys/escher/Escher.java:89-123 | the single pass over the headers gives the answer `AuthenticationOutcome` describes; the key database is not consulted |

## Left out

- `Hmac.sign` and `Hmac.hash` (HMAC and the digest) are not interpreted. They are function-valued fields of `Helper.Hmac`, and the facade receives them through `EscherFacade.Platform`. They are total: the `EscherException` they can raise (for instance for an unsupported hash algorithm) is not modelled, so `canonicalize`, `calculateStringToSign`, `calculateSigningKey` and `calculateSignature` (`Helper.java:16`, `:62`, `:70`, `:103`) never fail here.
- EscherFacade.Escher.SignRequest: an `EscherException` from `Hmac` during signing (for instance an unsupported hash algorithm) is not modelled, because sign and hash are taken to be total; the contract's only failure is the empty signed-header list.
- EscherFacade.Escher.PresignUrl: an `EscherException` from `Hmac` (for instance an unsupported hash algorithm) is not modelled, because sign and hash are taken to be total; the contract's only failure is an unparsable URL.
- `URLEncodedUtils.parse`, `URLEncoder.encode`, `java.net.URI`, `URIBuilder` and `PresignUrlDummyEscherRequest` are not interpreted:
  - a request carries its decoded query pairs;
  - a URI is its location plus its parameter list;
  - the encoder, the URI parser, `build().toString()` and the dummy request are `Platform` functions.
- `SimpleDateFormat` formatting is modelled as zero-padded UTC fields. The lenient parse in `authenticate` is the `Platform.parsesAsLongDate` predicate.
- The clock is not modelled: `new Date()` is a parameter of the constructor.
- `toLowerCase` and `equalsIgnoreCase` are ASCII-only. Full Unicode case mapping is not modelled.
- `Config`, the instance-style `Helper(config)`, `AuthHeader`, `EscherException` and the unseen `addDateHeader`/`addAuthHeader` are not part of this model:
  - the facade calls the static operations with the same values;
  - `AuthHeader.parse` is taken to be `AuthElements.parseHeader`;
  - adding a header is taken to append it to the request's header list;
  - `addDateHeader` is taken to append `(dateHeaderName, longDate(currentTime))` and `addAuthHeader` to append `(authHeaderName, header)` (`EscherFacade.DateHeader`, `EscherFacade.Escher.SignRequest`). `SignedRequestLayout`, `DateHeaderSigned`, `SignedAuthHeader` and `SignThenAuthenticate` rest on this.
- EscherFacade.Escher.PresignUrl: a `URISyntaxException` raised by `URIBuilder.build()` is not modelled; only `new URI(url)` can fail.
- Helper.DateLayout: the digit-by-digit layout is stated for years 1 to 9999, where `yyyy` renders exactly four digits. Other years render as many digits as they need, and no layout is stated for them.
- Sorting.Le: strings are sequences of Unicode scalar values ordered by code point. Java's `String.compareTo` (used by `sorted()` at `Helper.java:31`, `:41`, `:51` and by the TreeMap) compares UTF-16 code units. The two orders agree only while no string holds a character above U+FFFF. Unpaired surrogates cannot be represented.
- `Escher.UNSIGNED_PAYLOAD` (`Escher.java:16`) is not read by any modelled code. It stands for the body of the presigning dummy request, and that request is the `Platform.dummyRequest` function here.
- `clockSkew` is stored by its setter but never read, so there is no expiry check to model.
- `keyDb` is accepted by `authenticate` but never read. No signature is recomputed or compared there.
- `HelperTestWithTestData.java` is a data-driven test whose fixture files are not part of this model. It is not modelled.

The model does not capture concurrency or Java object identity beyond the two classes.

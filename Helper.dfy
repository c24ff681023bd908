/** Helper.java: the canonical form of a request, the string to sign, the
    signing-key chain, the signature, the authorization header text and the
    presigning parameters. Every operation is a static method of the Java
    class; here the stream pipelines and concatenations are functions, and the
    two operations that update a local variable step by step (the key chain
    and the TreeMap of presigning parameters) are methods. */
module Helper {
  import opened Results
  import opened Text
  import opened Sorting

  const NewLine: char := '\n'

  type int32 = x: int | -0x8000_0000 <= x < 0x8000_0000

  /** The key argument of `Hmac.sign`: the prefixed secret as text, or the
      bytes of an earlier HMAC. */
  datatype Key = TextKey(text: string) | RawKey(bytes: seq<byte>)

  /** The class `Hmac`, which is not part of this model: `sign(hashAlgo, key,
      message)` is the keyed hash and `hash(text)` the hex digest. `hash`
      takes no algorithm because the Java calls pass none. */
  datatype Hmac = Hmac(sign: (string, Key, string) -> seq<byte>, hash: string -> string)

  datatype Header = Header(name: string, value: string)

  /** A query parameter as `URLEncodedUtils.parse` returns it (decoded). */
  datatype Param = Param(name: string, value: string)

  /** What canonicalisation reads of a request: the method, the path of its
      URI, its query parameters in URI order, its headers in request order and
      its body. */
  datatype Request = Request(verb: string, path: string, query: seq<Param>, headers: seq<Header>, body: string)

  /** The fields of a `java.util.Date` read in the UTC time zone. */
  datatype DateTime = DateTime(year: nat, month: nat, day: nat, hour: nat, minute: nat, second: nat)

  /** A date of the years 1 to 9999, the range in which "yyyy" renders
      exactly four digits. */
  predicate InRange(d: DateTime) {
    1 <= d.year <= 9999 && 1 <= d.month <= 12 && 1 <= d.day <= 31
    && d.hour <= 23 && d.minute <= 59 && d.second <= 59
  }

  // ---------------------------------------------------------------------
  // Formatters
  // ---------------------------------------------------------------------

  /** `algorithm(algoPrefix, hashAlgo)`. */
  function Algorithm(algoPrefix: string, hashAlgo: string): string {
    algoPrefix + "-HMAC-" + hashAlgo
  }

  /** `shortDate(date)`: "yyyyMMdd" in UTC. */
  function ShortDate(d: DateTime): string {
    ZeroPad(d.year, 4) + ZeroPad(d.month, 2) + ZeroPad(d.day, 2)
  }

  /** `longDate(date)`: "yyyyMMdd'T'HHmmss'Z'" in UTC. */
  function LongDate(d: DateTime): string {
    ZeroPad(d.year, 4) + ZeroPad(d.month, 2) + ZeroPad(d.day, 2) + "T"
    + ZeroPad(d.hour, 2) + ZeroPad(d.minute, 2) + ZeroPad(d.second, 2) + "Z"
  }

  /** `credentials(accessKeyId, date, credentialScope)`. */
  function Credentials(accessKeyId: string, date: DateTime, credentialScope: string): string {
    accessKeyId + "/" + ShortDate(date) + "/" + credentialScope
  }

  /** The long date is the short date, `T`, six digits of time and `Z`; for
      a date in range the short date has 8 digits that read back as year,
      month and day, and the long date has 16 characters. */
  lemma DateLayout(d: DateTime)
    requires InRange(d)
    ensures |ShortDate(d)| == 8 && AllDigits(ShortDate(d))
    ensures DecimalValue(ShortDate(d)[..4]) == d.year
    ensures DecimalValue(ShortDate(d)[4..6]) == d.month
    ensures DecimalValue(ShortDate(d)[6..]) == d.day
    ensures |LongDate(d)| == 16 && LongDate(d)[..8] == ShortDate(d)
    ensures LongDate(d)[8] == 'T' && LongDate(d)[15] == 'Z'
    ensures AllDigits(LongDate(d)[9..15])
    ensures DecimalValue(LongDate(d)[9..11]) == d.hour
    ensures DecimalValue(LongDate(d)[11..13]) == d.minute
    ensures DecimalValue(LongDate(d)[13..15]) == d.second
  {
    ZeroPadRoundTrip(d.year, 4);
    ZeroPadRoundTrip(d.month, 2);
    ZeroPadRoundTrip(d.day, 2);
    ZeroPadRoundTrip(d.hour, 2);
    ZeroPadRoundTrip(d.minute, 2);
    ZeroPadRoundTrip(d.second, 2);
    var s := ShortDate(d);
    var l := LongDate(d);
    assert s[..4] == ZeroPad(d.year, 4);
    assert s[4..6] == ZeroPad(d.month, 2);
    assert s[6..] == ZeroPad(d.day, 2);
    assert l == s + "T" + ZeroPad(d.hour, 2) + ZeroPad(d.minute, 2) + ZeroPad(d.second, 2) + "Z";
    assert l[9..11] == ZeroPad(d.hour, 2);
    assert l[11..13] == ZeroPad(d.minute, 2);
    assert l[13..15] == ZeroPad(d.second, 2);
  }

  lemma LongDateHasNoNewLine(d: DateTime)
    ensures NewLine !in LongDate(d) && NewLine !in ShortDate(d)
  {
    var parts := [ZeroPad(d.year, 4), ZeroPad(d.month, 2), ZeroPad(d.day, 2), ZeroPad(d.hour, 2), ZeroPad(d.minute, 2), ZeroPad(d.second, 2)];
    assert forall k :: 0 <= k < |parts| ==> NewLine !in parts[k];
  }

  // ---------------------------------------------------------------------
  // Canonicalisation
  // ---------------------------------------------------------------------

  /** One query entry: the name as parsed and the value re-encoded with
      `URLEncoder.encode` (given as `encode`). */
  function QueryEntry(p: Param, encode: string -> string): string {
    p.name + "=" + encode(p.value)
  }

  function QueryEntries(query: seq<Param>, encode: string -> string): seq<string> {
    MapSeq((p: Param) => QueryEntry(p, encode), query)
  }

  /** `canonicalizeQueryParameters`: the entries sorted and joined by `&`. */
  function CanonicalizeQueryParameters(query: seq<Param>, encode: string -> string): string {
    Join(Sort(QueryEntries(query, encode)), '&')
  }

  /** One canonical header line: lower-cased name, `:`, trimmed value. */
  function HeaderLine(h: Header): string {
    ToLower(h.name) + ":" + Trim(h.value)
  }

  function HeaderName(h: Header): string {
    ToLower(h.name)
  }

  /** `canonicalizeHeaders`: the header lines sorted and joined by a new
      line. */
  function CanonicalizeHeaders(headers: seq<Header>): string {
    Join(Sort(MapSeq(HeaderLine, headers)), NewLine)
  }

  /** `signedHeaders`: the lower-cased names sorted and joined by `;`. */
  function SignedHeaders(headers: seq<Header>): string {
    Join(Sort(MapSeq(HeaderName, headers)), ';')
  }

  /** `canonicalize(request)`; `encode` is `URLEncoder.encode`. */
  function Canonicalize(hmac: Hmac, encode: string -> string, r: Request): string {
    r.verb + [NewLine]
    + r.path + [NewLine]
    + CanonicalizeQueryParameters(r.query, encode) + [NewLine]
    + CanonicalizeHeaders(r.headers) + [NewLine]
    + [NewLine]
    + SignedHeaders(r.headers) + [NewLine]
    + hmac.hash(r.body)
  }

  /** Two headers whose names are equal ignoring case and whose values are
      equal after trimming give the same canonical line; conversely, when
      neither name holds `:`, the same line means names equal ignoring case
      and equal trimmed values. */
  lemma HeaderLineNormalizes(h1: Header, h2: Header)
    ensures EqualsIgnoreCase(h1.name, h2.name) && Trim(h1.value) == Trim(h2.value)
        ==> HeaderLine(h1) == HeaderLine(h2)
    ensures ':' !in h1.name && ':' !in h2.name && HeaderLine(h1) == HeaderLine(h2)
        ==> EqualsIgnoreCase(h1.name, h2.name) && Trim(h1.value) == Trim(h2.value)
  {
    if ':' !in h1.name && ':' !in h2.name && HeaderLine(h1) == HeaderLine(h2) {
      SameHeaderLine(h1, h2);
    }
  }

  lemma SameHeaderLine(h1: Header, h2: Header)
    requires ':' !in h1.name && ':' !in h2.name && HeaderLine(h1) == HeaderLine(h2)
    ensures ToLower(h1.name) == ToLower(h2.name) && Trim(h1.value) == Trim(h2.value)
  {
    NoColonInLower(h1.name);
    NoColonInLower(h2.name);
    CutAtFirst(ToLower(h1.name), Trim(h1.value), ToLower(h2.name), Trim(h2.value), ':');
  }

  lemma NoColonInLower(name: string)
    requires ':' !in name
    ensures ':' !in ToLower(name)
  {
    var n := ToLower(name);
    assert forall k :: 0 <= k < |n| ==> n[k] == LowerChar(name[k]);
  }

  /** Header lines, signed-header names and query entries: every element
      contributes exactly one entry (duplicates are kept), the entries come in
      ascending order, and splitting the joined text at its separator gives
      them back when no entry holds the separator. No headers give "". */
  lemma CanonicalHeaderEntries(headers: seq<Header>)
    ensures headers == [] ==> CanonicalizeHeaders(headers) == "" && SignedHeaders(headers) == ""
    ensures var lines := Sort(MapSeq(HeaderLine, headers));
      && Sorted(lines) && multiset(lines) == multiset(MapSeq(HeaderLine, headers)) && |lines| == |headers|
      && (headers != [] && (forall k :: 0 <= k < |lines| ==> NewLine !in lines[k])
          ==> Pieces(CanonicalizeHeaders(headers), NewLine) == lines)
    ensures var names := Sort(MapSeq(HeaderName, headers));
      && Sorted(names) && multiset(names) == multiset(MapSeq(HeaderName, headers)) && |names| == |headers|
      && (headers != [] && (forall k :: 0 <= k < |names| ==> ';' !in names[k])
          ==> Pieces(SignedHeaders(headers), ';') == names)
  {
    var lines := Sort(MapSeq(HeaderLine, headers));
    var names := Sort(MapSeq(HeaderName, headers));
    assert |lines| == |multiset(lines)| == |headers|;
    assert |names| == |multiset(names)| == |headers|;
    if headers != [] && (forall k :: 0 <= k < |lines| ==> NewLine !in lines[k]) {
      PiecesOfJoin(lines, NewLine);
    }
    if headers != [] && (forall k :: 0 <= k < |names| ==> ';' !in names[k]) {
      PiecesOfJoin(names, ';');
    }
  }

  lemma CanonicalQueryEntries(query: seq<Param>, encode: string -> string)
    ensures var entries := Sort(QueryEntries(query, encode));
      && Sorted(entries) && multiset(entries) == multiset(QueryEntries(query, encode)) && |entries| == |query|
      && (query == [] ==> CanonicalizeQueryParameters(query, encode) == "")
      && (query != [] && (forall k :: 0 <= k < |entries| ==> '&' !in entries[k])
          ==> Pieces(CanonicalizeQueryParameters(query, encode), '&') == entries)
  {
    var entries := Sort(QueryEntries(query, encode));
    assert |entries| == |multiset(entries)| == |query|;
    if query != [] && (forall k :: 0 <= k < |entries| ==> '&' !in entries[k]) {
      PiecesOfJoin(entries, '&');
    }
  }

  /** The canonical request does not depend on the order of the header list
      or of the query parameters: every component is sorted before joining. */
  lemma CanonicalizeIgnoresOrder(hmac: Hmac, encode: string -> string, r1: Request, r2: Request)
    requires r1.verb == r2.verb && r1.path == r2.path && r1.body == r2.body
    requires multiset(r1.query) == multiset(r2.query)
    requires multiset(r1.headers) == multiset(r2.headers)
    ensures Canonicalize(hmac, encode, r1) == Canonicalize(hmac, encode, r2)
  {
    MapPermutation((p: Param) => QueryEntry(p, encode), r1.query, r2.query);
    SortIgnoresOrder(QueryEntries(r1.query, encode), QueryEntries(r2.query, encode));
    MapPermutation(HeaderLine, r1.headers, r2.headers);
    SortIgnoresOrder(MapSeq(HeaderLine, r1.headers), MapSeq(HeaderLine, r2.headers));
    MapPermutation(HeaderName, r1.headers, r2.headers);
    SortIgnoresOrder(MapSeq(HeaderName, r1.headers), MapSeq(HeaderName, r2.headers));
  }

  /** The lines of the canonical request: method, path, query, one line per
      header, an empty line, the signed-header list and the body digest, when
      none of these holds a new line itself. */
  lemma CanonicalRequestLines(hmac: Hmac, encode: string -> string, r: Request)
    requires r.headers != []
    requires NewLine !in r.verb && NewLine !in r.path && NewLine !in hmac.hash(r.body)
    requires NewLine !in CanonicalizeQueryParameters(r.query, encode)
    requires NewLine !in SignedHeaders(r.headers)
    requires forall h :: h in r.headers ==> NewLine !in HeaderLine(h)
    ensures Pieces(Canonicalize(hmac, encode, r), NewLine)
         == [r.verb, r.path, CanonicalizeQueryParameters(r.query, encode)]
          + Sort(MapSeq(HeaderLine, r.headers))
          + ["", SignedHeaders(r.headers), hmac.hash(r.body)]
  {
    var q := CanonicalizeQueryParameters(r.query, encode);
    var hs := CanonicalizeHeaders(r.headers);
    var sh := SignedHeaders(r.headers);
    var d := hmac.hash(r.body);
    var lines := Sort(MapSeq(HeaderLine, r.headers));
    HeaderLinePieces(r.headers);
    var tail := [NewLine] + sh + [NewLine] + d;
    TailLines(sh, d);
    var rest3 := hs + [NewLine] + tail;
    PiecesAround(hs, tail, NewLine);
    assert Pieces(rest3, NewLine) == lines + ["", sh, d];
    var rest2 := q + [NewLine] + rest3;
    PiecesCons(q, rest3, NewLine);
    var rest1 := r.path + [NewLine] + rest2;
    PiecesCons(r.path, rest2, NewLine);
    PiecesCons(r.verb, rest1, NewLine);
    assert Pieces(r.verb + [NewLine] + rest1, NewLine) == [r.verb] + ([r.path] + ([q] + (lines + ["", sh, d])));
    Regroup(r.verb, r.path, q, lines, ["", sh, d]);
    CanonicalizeShape(hmac, encode, r);
  }

  /** Sorted entries free of the separator are the pieces of their join. */
  lemma PiecesOfSortedJoin(raw: seq<string>, sep: char)
    requires raw != []
    requires forall k :: 0 <= k < |raw| ==> sep !in raw[k]
    ensures Pieces(Join(Sort(raw), sep), sep) == Sort(raw)
  {
    var sorted := Sort(raw);
    assert |sorted| == |multiset(sorted)| == |raw|;
    forall k | 0 <= k < |sorted| ensures sep !in sorted[k] {
      assert sorted[k] in multiset(raw);
    }
    PiecesOfJoin(sorted, sep);
  }

  lemma HeaderLinePieces(headers: seq<Header>)
    requires headers != []
    requires forall h :: h in headers ==> NewLine !in HeaderLine(h)
    ensures Pieces(CanonicalizeHeaders(headers), NewLine) == Sort(MapSeq(HeaderLine, headers))
  {
    var raw := MapSeq(HeaderLine, headers);
    forall k | 0 <= k < |raw| ensures NewLine !in raw[k] {
      assert headers[k] in headers;
    }
    PiecesOfSortedJoin(raw, NewLine);
  }

  lemma Regroup<T>(a: T, b: T, c: T, xs: seq<T>, ys: seq<T>)
    ensures [a] + ([b] + ([c] + (xs + ys))) == [a, b, c] + xs + ys
  {
  }

  lemma TailLines(sh: string, d: string)
    requires NewLine !in sh && NewLine !in d
    ensures Pieces([NewLine] + sh + [NewLine] + d, NewLine) == ["", sh, d]
  {
    PiecesCons(sh, d, NewLine);
    PiecesWithoutSeparator(d, NewLine);
    PiecesCons([], sh + [NewLine] + d, NewLine);
    assert [] + [NewLine] + (sh + [NewLine] + d) == [NewLine] + sh + [NewLine] + d;
  }

  lemma CanonicalizeShape(hmac: Hmac, encode: string -> string, r: Request)
    ensures Canonicalize(hmac, encode, r)
         == r.verb + [NewLine] + (r.path + [NewLine] + (CanonicalizeQueryParameters(r.query, encode) + [NewLine]
            + (CanonicalizeHeaders(r.headers) + [NewLine] + ([NewLine] + SignedHeaders(r.headers) + [NewLine] + hmac.hash(r.body)))))
  {
    SevenLines(r.verb, r.path, CanonicalizeQueryParameters(r.query, encode), CanonicalizeHeaders(r.headers),
               SignedHeaders(r.headers), hmac.hash(r.body));
  }

  lemma SevenLines(a: string, b: string, c: string, d: string, e: string, f: string)
    ensures a + [NewLine] + b + [NewLine] + c + [NewLine] + d + [NewLine] + [NewLine] + e + [NewLine] + f
         == a + [NewLine] + (b + [NewLine] + (c + [NewLine] + (d + [NewLine] + ([NewLine] + e + [NewLine] + f))))
  {
  }

  // ---------------------------------------------------------------------
  // String to sign, signing key, signature
  // ---------------------------------------------------------------------

  /** `calculateStringToSign`. */
  function CalculateStringToSign(hmac: Hmac, credentialScope: string, canonicalizedRequest: string,
                                 date: DateTime, hashAlgo: string, algoPrefix: string): string
  {
    Algorithm(algoPrefix, hashAlgo) + [NewLine]
    + LongDate(date) + [NewLine]
    + ShortDate(date) + "/" + credentialScope + [NewLine]
    + hmac.hash(canonicalizedRequest)
  }

  /** The string to sign has four lines: the algorithm, the long date, the
      short date with the scope, and the digest of the canonical request. */
  lemma StringToSignLines(hmac: Hmac, credentialScope: string, canonicalizedRequest: string,
                          date: DateTime, hashAlgo: string, algoPrefix: string)
    requires NewLine !in Algorithm(algoPrefix, hashAlgo) && NewLine !in credentialScope
    requires NewLine !in hmac.hash(canonicalizedRequest)
    ensures Pieces(CalculateStringToSign(hmac, credentialScope, canonicalizedRequest, date, hashAlgo, algoPrefix), NewLine)
         == [Algorithm(algoPrefix, hashAlgo), LongDate(date), ShortDate(date) + "/" + credentialScope,
             hmac.hash(canonicalizedRequest)]
  {
    var a := Algorithm(algoPrefix, hashAlgo);
    var l := LongDate(date);
    var sc := ShortDate(date) + "/" + credentialScope;
    var d := hmac.hash(canonicalizedRequest);
    LongDateHasNoNewLine(date);
    assert NewLine !in sc;
    FourLines(a, l, ShortDate(date), credentialScope, d);
    FourPieces(a, l, sc, d);
  }

  lemma FourPieces(a: string, l: string, sc: string, d: string)
    requires NewLine !in a && NewLine !in l && NewLine !in sc && NewLine !in d
    ensures Pieces(a + [NewLine] + (l + [NewLine] + (sc + [NewLine] + d)), NewLine) == [a, l, sc, d]
  {
    var rest2 := sc + [NewLine] + d;
    var rest1 := l + [NewLine] + rest2;
    PiecesCons(a, rest1, NewLine);
    PiecesCons(l, rest2, NewLine);
    PiecesCons(sc, d, NewLine);
    PiecesWithoutSeparator(d, NewLine);
  }

  lemma FourLines(a: string, l: string, s: string, scope: string, d: string)
    ensures a + [NewLine] + l + [NewLine] + s + "/" + scope + [NewLine] + d
         == a + [NewLine] + (l + [NewLine] + ((s + "/" + scope) + [NewLine] + d))
  {
  }

  /** The left fold of `Hmac.sign` over the scope segments. */
  function FoldKey(hmac: Hmac, hashAlgo: string, key: seq<byte>, parts: seq<string>): seq<byte>
    decreases |parts|
  {
    if parts == [] then key
    else FoldKey(hmac, hashAlgo, hmac.sign(hashAlgo, RawKey(key), parts[0]), parts[1..])
  }

  /** The key `calculateSigningKey` derives: HMAC of the short date under the
      prefixed secret, then HMAC of each `/`-segment of the scope in turn. */
  function SigningKey(hmac: Hmac, secret: string, date: DateTime, credentialScope: string,
                      hashAlgo: string, algoPrefix: string): seq<byte>
  {
    FoldKey(hmac, hashAlgo, hmac.sign(hashAlgo, TextKey(algoPrefix + secret), ShortDate(date)),
            Split(credentialScope, '/'))
  }

  /** Folding over two runs of segments is folding the second over the
      result of the first. */
  lemma {:induction false} FoldKeyAppend(hmac: Hmac, hashAlgo: string, key: seq<byte>, a: seq<string>, b: seq<string>)
    ensures FoldKey(hmac, hashAlgo, key, a + b) == FoldKey(hmac, hashAlgo, FoldKey(hmac, hashAlgo, key, a), b)
    decreases |a|
  {
    if a == [] {
      assert a + b == b;
    } else {
      assert (a + b)[0] == a[0] && (a + b)[1..] == a[1..] + b;
      FoldKeyAppend(hmac, hashAlgo, hmac.sign(hashAlgo, RawKey(key), a[0]), a[1..], b);
    }
  }

  /** A trailing `/` on a non-empty scope leaves the key unchanged. */
  lemma SigningKeyIgnoresTrailingSlash(hmac: Hmac, secret: string, date: DateTime, credentialScope: string,
                                       hashAlgo: string, algoPrefix: string)
    requires credentialScope != ""
    ensures SigningKey(hmac, secret, date, credentialScope + "/", hashAlgo, algoPrefix)
         == SigningKey(hmac, secret, date, credentialScope, hashAlgo, algoPrefix)
  {
    SplitIgnoresTrailingSeparator(credentialScope, '/');
  }

  /** `calculateSigningKey`. */
  method CalculateSigningKey(hmac: Hmac, secret: string, date: DateTime, credentialScope: string,
                             hashAlgo: string, algoPrefix: string) returns (key: seq<byte>)
    ensures key == SigningKey(hmac, secret, date, credentialScope, hashAlgo, algoPrefix)
  {
    key := hmac.sign(hashAlgo, TextKey(algoPrefix + secret), ShortDate(date));
    ghost var first := key;
    var parts := Split(credentialScope, '/');
    for i := 0 to |parts|
      invariant key == FoldKey(hmac, hashAlgo, first, parts[..i])
    {
      FoldKeyStep(hmac, hashAlgo, first, parts, i);
      key := hmac.sign(hashAlgo, RawKey(key), parts[i]);
    }
    assert parts[..|parts|] == parts;
  }

  /** One more segment folded in. */
  lemma FoldKeyStep(hmac: Hmac, hashAlgo: string, first: seq<byte>, parts: seq<string>, i: nat)
    requires i < |parts|
    ensures FoldKey(hmac, hashAlgo, first, parts[..i + 1])
         == hmac.sign(hashAlgo, RawKey(FoldKey(hmac, hashAlgo, first, parts[..i])), parts[i])
  {
    var k := FoldKey(hmac, hashAlgo, first, parts[..i]);
    FoldKeyAppend(hmac, hashAlgo, first, parts[..i], [parts[i]]);
    assert parts[..i + 1] == parts[..i] + [parts[i]];
    assert FoldKey(hmac, hashAlgo, k, [parts[i]]) == FoldKey(hmac, hashAlgo, hmac.sign(hashAlgo, RawKey(k), parts[i]), []);
  }

  /** `calculateSignature`: the HMAC of the string to sign under the signing
      key, as lower-case base16; it decodes back to the HMAC bytes. */
  function CalculateSignature(hmac: Hmac, hashAlgo: string, signingKey: seq<byte>, stringToSign: string): (r: string)
    ensures AllLowerHex(r)
    ensures |r| == 2 * |hmac.sign(hashAlgo, RawKey(signingKey), stringToSign)|
    ensures ParseLowerHex(r) == Some(hmac.sign(hashAlgo, RawKey(signingKey), stringToSign))
  {
    var mac := hmac.sign(hashAlgo, RawKey(signingKey), stringToSign);
    LowerCasedHexBinary(mac);
    LowerHexRoundTrip(mac);
    ToLower(PrintHexBinary(mac))
  }

  // ---------------------------------------------------------------------
  // Authorization header and presigning parameters
  // ---------------------------------------------------------------------

  /** `calculateAuthHeader`. The signed-header names are reduced with `;`
      and then lower-cased; `Optional.get` on the reduction of an empty list
      throws. */
  function CalculateAuthHeader(accessKeyId: string, date: DateTime, credentialScope: string, hashAlgo: string,
                               algoPrefix: string, signedHeaders: seq<string>, signature: string): (r: Result<string>)
    ensures r.Failure? <==> signedHeaders == []
    ensures r.Failure? ==> r.error == NoSuchElement
    ensures r.Success? ==>
      r.value == Algorithm(algoPrefix, hashAlgo) + " Credential=" + Credentials(accessKeyId, date, credentialScope)
                 + ", SignedHeaders=" + Join(MapLower(signedHeaders), ';') + ", Signature=" + signature
  {
    ReduceIsJoin(signedHeaders, ';');
    ToLowerJoin(signedHeaders, ';');
    match Reduce(signedHeaders, ';')
    case None => Failure(NoSuchElement)
    case Some(joined) =>
      Success(Algorithm(algoPrefix, hashAlgo) + " Credential=" + Credentials(accessKeyId, date, credentialScope)
              + ", SignedHeaders=" + ToLower(joined) + ", Signature=" + signature)
  }

  /** The presigning parameters in the order a TreeMap iterates them. */
  function SigningParams(algoPrefix: string, hashAlgo: string, accessKeyId: string, date: DateTime,
                         credentialScope: string, expires: int32): Entries
  {
    [("Algorithm", Algorithm(algoPrefix, hashAlgo)),
     ("Credentials", Credentials(accessKeyId, date, credentialScope)),
     ("Date", LongDate(date)),
     ("Expires", IntToString(expires)),
     ("SignedHeaders", "host")]
  }

  /** `calculateSigningParams`: five successive `put`s into a TreeMap, whose
      entries then come in ascending key order, whatever the order of the
      `put`s. */
  method CalculateSigningParams(algoPrefix: string, hashAlgo: string, accessKeyId: string, date: DateTime,
                                credentialScope: string, expires: int32) returns (params: Entries)
    ensures KeysAscending(params)
    ensures params == SigningParams(algoPrefix, hashAlgo, accessKeyId, date, credentialScope, expires)
  {
    var algorithm, credentials := Algorithm(algoPrefix, hashAlgo), Credentials(accessKeyId, date, credentialScope);
    var longDate, expiresText := LongDate(date), IntToString(expires);
    params := [];
    params := Put(params, "SignedHeaders", "host");
    params := Put(params, "Expires", expiresText);
    assert Lookup(params, "SignedHeaders") == Some("host");
    params := Put(params, "Algorithm", algorithm);
    assert Lookup(params, "SignedHeaders") == Some("host") && Lookup(params, "Expires") == Some(expiresText);
    params := Put(params, "Credentials", credentials);
    assert Lookup(params, "SignedHeaders") == Some("host") && Lookup(params, "Expires") == Some(expiresText);
    assert Lookup(params, "Algorithm") == Some(algorithm);
    params := Put(params, "Date", longDate);
    assert Lookup(params, "SignedHeaders") == Some("host") && Lookup(params, "Expires") == Some(expiresText);
    assert Lookup(params, "Algorithm") == Some(algorithm) && Lookup(params, "Credentials") == Some(credentials);
    SigningParamsOrder(params, algorithm, credentials, longDate, expiresText);
  }

  /** The only ascending arrangement of the five presigning parameters. */
  lemma SigningParamsOrder(params: Entries, algorithm: string, credentials: string, date: string, expires: string)
    requires KeysAscending(params)
    requires forall key ::
      (key != "SignedHeaders" && key != "Expires" && key != "Algorithm" && key != "Credentials" && key != "Date")
      ==> Lookup(params, key) == None
    requires Lookup(params, "SignedHeaders") == Some("host")
    requires Lookup(params, "Expires") == Some(expires)
    requires Lookup(params, "Algorithm") == Some(algorithm)
    requires Lookup(params, "Credentials") == Some(credentials)
    requires Lookup(params, "Date") == Some(date)
    ensures params == [("Algorithm", algorithm), ("Credentials", credentials), ("Date", date),
                       ("Expires", expires), ("SignedHeaders", "host")]
  {
    var t4: Entries := [("SignedHeaders", "host")];
    var t3 := [("Expires", expires)] + t4;
    var t2 := [("Date", date)] + t3;
    var t1 := [("Credentials", credentials)] + t2;
    var t := [("Algorithm", algorithm)] + t1;
    assert KeysAscending(t);
    forall key ensures Lookup(t, key) == Lookup(params, key) {
      assert Lookup(t4, key) == if key == "SignedHeaders" then Some("host") else None by {
        assert t4[1..] == [];
      }
      assert Lookup(t3, key) == if key == "Expires" then Some(expires) else Lookup(t4, key) by {
        assert t3[1..] == t4;
      }
      assert Lookup(t2, key) == if key == "Date" then Some(date) else Lookup(t3, key) by {
        assert t2[1..] == t3;
      }
      assert Lookup(t1, key) == if key == "Credentials" then Some(credentials) else Lookup(t2, key) by {
        assert t1[1..] == t2;
      }
      assert Lookup(t, key) == if key == "Algorithm" then Some(algorithm) else Lookup(t1, key) by {
        assert t[1..] == t1;
      }
    }
    EntriesUnique(t, params);
  }

}

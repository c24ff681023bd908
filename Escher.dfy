/** Escher.java: the facade a caller configures and then asks to sign a
    request, presign a URL or authenticate a request. Its configuration is a
    class whose setters update one field and return the object itself; the
    three operations are methods proved against specification functions of
    the configuration, and the lemmas below relate those functions to each
    other and to the parser of the authorization header.

    The Java facade calls an instance-style helper built from a `Config`
    object; here it calls the static operations of `Helper` with the same
    configuration values. `AuthHeader.parse` is taken to be
    `AuthElements.parseHeader`. */
module EscherFacade {
  import opened Results
  import opened Text
  import opened Sorting
  import opened Helper
  import opened Scanner
  import opened AuthElements

  /** A URI as `URIBuilder` sees it: everything but the query, which is not
      interpreted here, and the query parameters in order. */
  datatype Uri = Uri(location: string, query: seq<Param>)

  /** The library code the facade calls and this model does not interpret:
      the HMAC and digest, `URLEncoder.encode`, `new URI(url)` (`None` when
      it throws `URISyntaxException`), `URIBuilder.build().toString()`, the
      request `PresignUrlDummyEscherRequest` makes of a URI, and whether
      `SimpleDateFormat.parse` with the long date format accepts a text. */
  datatype Platform = Platform(
    hmac: Hmac,
    urlEncode: string -> string,
    parseUri: string -> Option<Uri>,
    buildUri: Uri -> string,
    dummyRequest: Uri -> Request,
    parsesAsLongDate: string -> bool)

  /** The configuration fields of an `Escher` object. */
  datatype Settings = Settings(
    credentialScope: string,
    algoPrefix: string,
    vendorKey: string,
    hashAlgo: string,
    currentTime: DateTime,
    authHeaderName: string,
    dateHeaderName: string,
    clockSkew: int32)

  // ---------------------------------------------------------------------
  // The signing pipeline (the private `calculateSignature`)
  // ---------------------------------------------------------------------

  /** The signature of a request under the configuration: canonical form,
      string to sign, signing key, then the lower-case hex HMAC. */
  function Signature(s: Settings, p: Platform, r: Request, secret: string): (sig: string)
    ensures AllLowerHex(sig)
    ensures ParseLowerHex(sig)
         == Some(p.hmac.sign(s.hashAlgo, RawKey(SigningKey(p.hmac, secret, s.currentTime, s.credentialScope, s.hashAlgo, s.algoPrefix)),
                             CalculateStringToSign(p.hmac, s.credentialScope, Canonicalize(p.hmac, p.urlEncode, r),
                                                   s.currentTime, s.hashAlgo, s.algoPrefix)))
  {
    var canonical := Canonicalize(p.hmac, p.urlEncode, r);
    var stringToSign := CalculateStringToSign(p.hmac, s.credentialScope, canonical, s.currentTime, s.hashAlgo, s.algoPrefix);
    var key := SigningKey(p.hmac, secret, s.currentTime, s.credentialScope, s.hashAlgo, s.algoPrefix);
    CalculateSignature(p.hmac, s.hashAlgo, key, stringToSign)
  }

  /** Requests that differ only in the order of their headers or of their
      query parameters have the same signature. */
  lemma SignatureIgnoresOrder(s: Settings, p: Platform, r1: Request, r2: Request, secret: string)
    requires r1.verb == r2.verb && r1.path == r2.path && r1.body == r2.body
    requires multiset(r1.query) == multiset(r2.query)
    requires multiset(r1.headers) == multiset(r2.headers)
    ensures Signature(s, p, r1, secret) == Signature(s, p, r2, secret)
  {
    CanonicalizeIgnoresOrder(p.hmac, p.urlEncode, r1, r2);
  }

  // ---------------------------------------------------------------------
  // signRequest
  // ---------------------------------------------------------------------

  /** The date header `addDateHeader` appends. */
  function DateHeader(s: Settings): Header {
    Header(s.dateHeaderName, LongDate(s.currentTime))
  }

  /** The request with the date header appended. */
  function Dated(s: Settings, r: Request): Request {
    r.(headers := r.headers + [DateHeader(s)])
  }

  /** What `signRequest` makes of a request: the date header is appended,
      the result is signed, and the authorization header carrying that
      signature is appended after it. An empty signed-header list fails once
      the date header is in place. */
  function SignedRequest(s: Settings, p: Platform, r: Request, accessKeyId: string, secret: string,
                         signedHeaders: seq<string>): Result<Request>
  {
    var dated := Dated(s, r);
    match AuthHeaderFor(s, p, dated, accessKeyId, secret, signedHeaders)
    case Failure(e) => Failure(e)
    case Success(authHeader) => Success(dated.(headers := dated.headers + [Header(s.authHeaderName, authHeader)]))
  }

  /** The authorization header for a request: its signature put into the
      header layout. */
  function AuthHeaderFor(s: Settings, p: Platform, r: Request, accessKeyId: string, secret: string,
                         signedHeaders: seq<string>): Result<string>
  {
    CalculateAuthHeader(accessKeyId, s.currentTime, s.credentialScope, s.hashAlgo, s.algoPrefix,
                        signedHeaders, Signature(s, p, r, secret))
  }

  /** A signed request is the original with two headers added, the date
      header and then the authorization header, which carries the signature
      of the request without it: dropping it gives back exactly the request
      that was signed. */
  lemma SignedRequestLayout(s: Settings, p: Platform, r: Request, accessKeyId: string, secret: string,
                            signedHeaders: seq<string>)
    requires signedHeaders != []
    ensures var signed := SignedRequest(s, p, r, accessKeyId, secret, signedHeaders);
      && signed.Success?
      && var hs := signed.value.headers;
      && |hs| == |r.headers| + 2
      && hs[..|r.headers|] == r.headers
      && hs[|r.headers|] == Header(s.dateHeaderName, LongDate(s.currentTime))
      && hs[|r.headers| + 1].name == s.authHeaderName
      && var input := signed.value.(headers := hs[..|r.headers| + 1]);
      && input == Dated(s, r)
      && hs[|r.headers| + 1].value
         == Algorithm(s.algoPrefix, s.hashAlgo) + " Credential=" + Credentials(accessKeyId, s.currentTime, s.credentialScope)
            + ", SignedHeaders=" + Join(MapLower(signedHeaders), ';') + ", Signature=" + Signature(s, p, input, secret)
  {
    var dated := Dated(s, r);
    var signature := Signature(s, p, dated, secret);
    var authHeader := CalculateAuthHeader(accessKeyId, s.currentTime, s.credentialScope, s.hashAlgo, s.algoPrefix,
                                          signedHeaders, signature);
    var a := Header(s.authHeaderName, authHeader.value);
    TwoAppended(r.headers, DateHeader(s), a);
    assert SignedRequest(s, p, r, accessKeyId, secret, signedHeaders) == Success(dated.(headers := dated.headers + [a]));
  }

  lemma TwoAppended(headers: seq<Header>, d: Header, a: Header)
    ensures var hs := headers + [d] + [a];
      |hs| == |headers| + 2 && hs[..|headers|] == headers && hs[|headers|] == d && hs[|headers| + 1] == a
      && hs[..|headers| + 1] == headers + [d]
  {
    var hs := headers + [d] + [a];
    assert hs[..|headers| + 1] == headers + [d];
  }

  /** The date header is part of the signed input: its canonical line is
      among the sorted header lines of the request that is signed. */
  lemma DateHeaderSigned(s: Settings, r: Request)
    ensures HeaderLine(DateHeader(s)) in Sort(MapSeq(HeaderLine, Dated(s, r).headers))
  {
    var lines := MapSeq(HeaderLine, Dated(s, r).headers);
    assert lines[|r.headers|] == HeaderLine(DateHeader(s));
    assert HeaderLine(DateHeader(s)) in multiset(lines);
  }

  // ---------------------------------------------------------------------
  // authenticate
  // ---------------------------------------------------------------------

  /** A header plays a role when its name, with `_` replaced by `-`, equals
      the role's name ignoring case. */
  predicate HasRole(h: Header, role: string) {
    EqualsIgnoreCase(ReplaceChar(h.name, '_', '-'), role)
  }

  predicate Present(headers: seq<Header>, role: string) {
    exists i :: 0 <= i < |headers| && HasRole(headers[i], role)
  }

  /** Header `i` is the last one to play the role. */
  predicate LastAt(headers: seq<Header>, role: string, i: int) {
    0 <= i < |headers| && HasRole(headers[i], role)
    && forall j :: i < j < |headers| ==> !HasRole(headers[j], role)
  }

  /** The header the scan of `authenticate` keeps for a role: the last one
      that plays it. */
  function LastWithRole(headers: seq<Header>, role: string): Option<Header>
    decreases |headers|
  {
    if headers == [] then None
    else if HasRole(headers[|headers| - 1], role) then Some(headers[|headers| - 1])
    else LastWithRole(headers[..|headers| - 1], role)
  }

  /** The scan finds a header exactly when one plays the role, and then it
      finds the last one. */
  lemma {:induction false} LastWithRoleFinds(headers: seq<Header>, role: string)
    ensures LastWithRole(headers, role).None? <==> !Present(headers, role)
    ensures Present(headers, role) ==> exists i :: LastAt(headers, role, i)
    ensures forall i :: LastAt(headers, role, i) ==> LastWithRole(headers, role) == Some(headers[i])
    decreases |headers|
  {
    if headers != [] {
      var n := |headers| - 1;
      var init, h := headers[..n], headers[n];
      assert headers == init + [h];
      LastWithRoleFinds(init, role);
      LastWithRoleSnoc(init, h, role);
      PresentSnoc(init, h, role);
      forall i | 0 <= i <= n
        ensures LastAt(headers, role, i) <==> (i == n && HasRole(h, role)) || (i < n && !HasRole(h, role) && LastAt(init, role, i))
      {
        LastAtSnoc(init, h, role, i);
      }
      if HasRole(h, role) {
        assert LastAt(headers, role, n);
      } else if Present(init, role) {
        var i :| LastAt(init, role, i);
        assert LastAt(headers, role, i);
      }
    }
  }

  lemma PresentSnoc(headers: seq<Header>, h: Header, role: string)
    ensures Present(headers + [h], role) <==> Present(headers, role) || HasRole(h, role)
  {
    var hs := headers + [h];
    if Present(hs, role) && !HasRole(h, role) {
      var k :| 0 <= k < |hs| && HasRole(hs[k], role);
      assert hs[k] == headers[k];
    }
    if Present(headers, role) {
      var k :| 0 <= k < |headers| && HasRole(headers[k], role);
      assert hs[k] == headers[k];
    }
    assert hs[|headers|] == h;
  }

  lemma LastAtSnoc(headers: seq<Header>, h: Header, role: string, i: int)
    requires 0 <= i <= |headers|
    ensures LastAt(headers + [h], role, i)
        <==> (i == |headers| && HasRole(h, role)) || (i < |headers| && !HasRole(h, role) && LastAt(headers, role, i))
  {
    var hs := headers + [h];
    assert hs[|headers|] == h;
    assert forall j :: 0 <= j < |headers| ==> hs[j] == headers[j];
  }

  lemma LastWithRoleSnoc(headers: seq<Header>, h: Header, role: string)
    ensures LastWithRole(headers + [h], role) == if HasRole(h, role) then Some(h) else LastWithRole(headers, role)
  {
    assert (headers + [h])[..|headers|] == headers;
  }

  /** What `authenticate` answers for a list of headers: the first missing
      role among host, date and authorization header, else a date the long
      date format rejects, else the parser's error, else the key id of the
      authorization header. The key database and the clock skew are not
      read, and no signature is computed. */
  function Authentication(s: Settings, p: Platform, headers: seq<Header>): Result<string> {
    var host := LastWithRole(headers, "host");
    var date := LastWithRole(headers, s.dateHeaderName);
    var auth := LastWithRole(headers, s.authHeaderName);
    if host.None? then Failure(EscherException("Missing header: host"))
    else if date.None? then Failure(EscherException("Missing header: " + s.dateHeaderName))
    else if auth.None? then Failure(EscherException("Missing header: " + s.authHeaderName))
    else if !p.parsesAsLongDate(date.value.value) then Failure(EscherException("Invalid date format"))
    else
      match ParseHeader(auth.value.value)
      case Failure(e) => Failure(e)
      case Success(elements) => Success(elements.accessKeyId)
  }

  /** The outcome of `authenticate` in terms of the header list itself: the
      errors in their fixed order, and on success the key id parsed from the
      last authorization header, read only after the last date header was
      accepted. The clock skew plays no part. */
  lemma AuthenticationOutcome(s: Settings, p: Platform, headers: seq<Header>, skew: int32)
    ensures !Present(headers, "host") ==>
      Authentication(s, p, headers) == Failure(EscherException("Missing header: host"))
    ensures Present(headers, "host") && !Present(headers, s.dateHeaderName) ==>
      Authentication(s, p, headers) == Failure(EscherException("Missing header: " + s.dateHeaderName))
    ensures Present(headers, "host") && Present(headers, s.dateHeaderName) && !Present(headers, s.authHeaderName) ==>
      Authentication(s, p, headers) == Failure(EscherException("Missing header: " + s.authHeaderName))
    ensures forall i, k | Present(headers, "host") && LastAt(headers, s.dateHeaderName, i) && LastAt(headers, s.authHeaderName, k) ::
      Authentication(s, p, headers)
      == if !p.parsesAsLongDate(headers[i].value) then Failure(EscherException("Invalid date format"))
         else if ParseHeader(headers[k].value).Failure? then Failure(MalformedHeader)
         else Success(ParseHeader(headers[k].value).value.accessKeyId)
    ensures Authentication(s, p, headers).Success? ==>
      exists k :: LastAt(headers, s.authHeaderName, k) && ParseHeader(headers[k].value).Success?
                  && Authentication(s, p, headers).value == ParseHeader(headers[k].value).value.accessKeyId
    ensures Authentication(s.(clockSkew := skew), p, headers) == Authentication(s, p, headers)
  {
    LastWithRoleFinds(headers, "host");
    LastWithRoleFinds(headers, s.dateHeaderName);
    LastWithRoleFinds(headers, s.authHeaderName);
  }

  /** A request signed by `signRequest` and then given to `authenticate`
      under the same configuration yields the key id it was signed with,
      when it carried a host header, the configured header names hold no
      `_` and differ, the fields suit the header grammar and the date header
      parses as a long date. */
  lemma SignThenAuthenticate(s: Settings, p: Platform, r: Request, accessKeyId: string, secret: string,
                             signedHeaders: seq<string>)
    requires Present(r.headers, "host")
    requires '_' !in s.authHeaderName && '_' !in s.dateHeaderName
    requires !EqualsIgnoreCase(s.authHeaderName, s.dateHeaderName)
    requires s.algoPrefix != [] && AllIn(s.algoPrefix, Word)
    requires s.hashAlgo != [] && AllIn(s.hashAlgo, HashAlgoChars)
    requires accessKeyId != [] && AllIn(accessKeyId, KeyIdChars)
    requires InRange(s.currentTime)
    requires s.credentialScope != [] && AllIn(s.credentialScope, ScopeChars)
    requires HeaderNamesFit(signedHeaders)
    requires Signature(s, p, Dated(s, r), secret) != []
    requires p.parsesAsLongDate(LongDate(s.currentTime))
    ensures var signed := SignedRequest(s, p, r, accessKeyId, secret, signedHeaders);
      signed.Success? && Authentication(s, p, signed.value.headers) == Success(accessKeyId)
  {
    SignedAuthHeader(s, p, r, accessKeyId, secret, signedHeaders);
    var hs := SignedRequest(s, p, r, accessKeyId, secret, signedHeaders).value.headers;
    var a := hs[|hs| - 1];
    assert hs == Dated(s, r).headers + [a];
    RolesAfterSigning(s, r, a);
    AuthenticationOf(s, p, hs, DateHeader(s), a);
  }

  /** The authorization header `signRequest` appends parses back to the key
      id it was given. */
  lemma SignedAuthHeader(s: Settings, p: Platform, r: Request, accessKeyId: string, secret: string,
                         signedHeaders: seq<string>)
    requires s.algoPrefix != [] && AllIn(s.algoPrefix, Word)
    requires s.hashAlgo != [] && AllIn(s.hashAlgo, HashAlgoChars)
    requires accessKeyId != [] && AllIn(accessKeyId, KeyIdChars)
    requires InRange(s.currentTime)
    requires s.credentialScope != [] && AllIn(s.credentialScope, ScopeChars)
    requires HeaderNamesFit(signedHeaders)
    requires Signature(s, p, Dated(s, r), secret) != []
    ensures var signed := SignedRequest(s, p, r, accessKeyId, secret, signedHeaders);
      && signed.Success?
      && var hs := signed.value.headers;
      && hs != [] && hs[..|hs| - 1] == Dated(s, r).headers
      && hs[|hs| - 1].name == s.authHeaderName
      && ParseHeader(hs[|hs| - 1].value).Success?
      && ParseHeader(hs[|hs| - 1].value).value.accessKeyId == accessKeyId
  {
    AuthHeaderParses(s, p, Dated(s, r), accessKeyId, secret, signedHeaders);
    var dated := Dated(s, r);
    var a := Header(s.authHeaderName, AuthHeaderFor(s, p, dated, accessKeyId, secret, signedHeaders).value);
    var hs := dated.headers + [a];
    assert hs[..|hs| - 1] == dated.headers;
  }

  lemma AuthHeaderParses(s: Settings, p: Platform, r: Request, accessKeyId: string, secret: string,
                         signedHeaders: seq<string>)
    requires s.algoPrefix != [] && AllIn(s.algoPrefix, Word)
    requires s.hashAlgo != [] && AllIn(s.hashAlgo, HashAlgoChars)
    requires accessKeyId != [] && AllIn(accessKeyId, KeyIdChars)
    requires InRange(s.currentTime)
    requires s.credentialScope != [] && AllIn(s.credentialScope, ScopeChars)
    requires HeaderNamesFit(signedHeaders)
    requires Signature(s, p, r, secret) != []
    ensures var header := AuthHeaderFor(s, p, r, accessKeyId, secret, signedHeaders);
      header.Success? && ParseHeader(header.value).Success?
      && ParseHeader(header.value).value.accessKeyId == accessKeyId
  {
    var signature := Signature(s, p, r, secret);
    assert AllIn(signature, Scanner.LowerHex) by {
      assert forall k :: 0 <= k < |signature| ==> IsLowerHexDigit(signature[k]);
    }
    ParseAuthHeader(accessKeyId, s.currentTime, s.credentialScope, s.hashAlgo, s.algoPrefix, signedHeaders, signature);
  }

  /** After the two headers are appended, the host header is still found,
      and the date and authorization headers are the appended ones. */
  lemma RolesAfterSigning(s: Settings, r: Request, a: Header)
    requires Present(r.headers, "host")
    requires '_' !in s.authHeaderName && '_' !in s.dateHeaderName
    requires !EqualsIgnoreCase(s.authHeaderName, s.dateHeaderName)
    requires a.name == s.authHeaderName
    ensures var hs := Dated(s, r).headers + [a];
      && LastWithRole(hs, "host").Some?
      && LastWithRole(hs, s.dateHeaderName) == Some(DateHeader(s))
      && LastWithRole(hs, s.authHeaderName) == Some(a)
  {
    var d := DateHeader(s);
    ReplaceAbsent(s.authHeaderName, '_', '-');
    ReplaceAbsent(s.dateHeaderName, '_', '-');
    assert HasRole(a, s.authHeaderName) && !HasRole(a, s.dateHeaderName) && HasRole(d, s.dateHeaderName);
    LastWithRoleFinds(r.headers, "host");
    LastWithRoleSnoc(r.headers, d, "host");
    LastWithRoleSnoc(r.headers, d, s.dateHeaderName);
    LastWithRoleSnoc(r.headers + [d], a, "host");
    LastWithRoleSnoc(r.headers + [d], a, s.dateHeaderName);
    LastWithRoleSnoc(r.headers + [d], a, s.authHeaderName);
  }

  lemma AuthenticationOf(s: Settings, p: Platform, headers: seq<Header>, d: Header, a: Header)
    requires LastWithRole(headers, "host").Some?
    requires LastWithRole(headers, s.dateHeaderName) == Some(d)
    requires LastWithRole(headers, s.authHeaderName) == Some(a)
    requires p.parsesAsLongDate(d.value) && ParseHeader(a.value).Success?
    ensures Authentication(s, p, headers) == Success(ParseHeader(a.value).value.accessKeyId)
  {
  }

  lemma ReplaceAbsent(s: string, from: char, to: char)
    requires from !in s
    ensures ReplaceChar(s, from, to) == s
  {
  }

  // ---------------------------------------------------------------------
  // presignUrl
  // ---------------------------------------------------------------------

  /** The query parameter `presignUrl` adds for a signing parameter. */
  function VendorParam(vendorKey: string, entry: (string, string)): Param {
    Param("X-" + vendorKey + "-" + entry.0, entry.1)
  }

  function VendorParams(vendorKey: string, entries: Entries): (r: seq<Param>)
    ensures |r| == |entries|
  {
    seq(|entries|, i requires 0 <= i < |entries| => VendorParam(vendorKey, entries[i]))
  }

  lemma VendorParamsSnoc(vendorKey: string, entries: Entries, i: nat)
    requires i < |entries|
    ensures VendorParams(vendorKey, entries[..i + 1]) == VendorParams(vendorKey, entries[..i]) + [VendorParam(vendorKey, entries[i])]
  {
  }

  /** The URI before the signature: the five signing parameters appended,
      in the TreeMap's order, to the query the URL already had. */
  function Unsigned(s: Settings, u: Uri, accessKeyId: string, expires: int32): Uri {
    u.(query := u.query
       + VendorParams(s.vendorKey, SigningParams(s.algoPrefix, s.hashAlgo, accessKeyId, s.currentTime, s.credentialScope, expires)))
  }

  /** The presigned URI: the unsigned one with the signature of its dummy
      request appended as the last parameter. */
  function PresignedUri(s: Settings, p: Platform, u: Uri, accessKeyId: string, secret: string, expires: int32): Uri {
    var unsigned := Unsigned(s, u, accessKeyId, expires);
    var signature := Signature(s, p, p.dummyRequest(unsigned), secret);
    unsigned.(query := unsigned.query + [Param("X-" + s.vendorKey + "-" + "Signature", signature)])
  }

  function Presigned(s: Settings, p: Platform, url: string, accessKeyId: string, secret: string, expires: int32): Result<string> {
    match p.parseUri(url)
    case None => Failure(InvalidUri(url))
    case Some(u) => Success(p.buildUri(PresignedUri(s, p, u, accessKeyId, secret, expires)))
  }

  /** The query of a presigned URI: the original parameters, then exactly
      the five vendor-prefixed signing parameters in ascending key order,
      then the signature, which is lower-case hex computed over the URI made
      of everything before it. */
  lemma PresignedQuery(s: Settings, p: Platform, u: Uri, accessKeyId: string, secret: string, expires: int32)
    ensures var presigned := PresignedUri(s, p, u, accessKeyId, secret, expires);
      var q := presigned.query;
      var n := |u.query|;
      && presigned.location == u.location
      && |q| == n + 6
      && q[..n] == u.query
      && q[n..n + 5] == [Param("X-" + s.vendorKey + "-" + "Algorithm", Algorithm(s.algoPrefix, s.hashAlgo)),
                         Param("X-" + s.vendorKey + "-" + "Credentials", Credentials(accessKeyId, s.currentTime, s.credentialScope)),
                         Param("X-" + s.vendorKey + "-" + "Date", LongDate(s.currentTime)),
                         Param("X-" + s.vendorKey + "-" + "Expires", IntToString(expires)),
                         Param("X-" + s.vendorKey + "-" + "SignedHeaders", "host")]
      && q[n + 5].name == "X-" + s.vendorKey + "-" + "Signature"
      && q[n + 5].value == Signature(s, p, p.dummyRequest(presigned.(query := q[..n + 5])), secret)
      && AllLowerHex(q[n + 5].value)
  {
    var presigned := PresignedUri(s, p, u, accessKeyId, secret, expires);
    var unsigned := Unsigned(s, u, accessKeyId, expires);
    var params := SigningParams(s.algoPrefix, s.hashAlgo, accessKeyId, s.currentTime, s.credentialScope, expires);
    var vendor := VendorParams(s.vendorKey, params);
    var last := Param("X-" + s.vendorKey + "-" + "Signature", Signature(s, p, p.dummyRequest(unsigned), secret));
    QueryLayout(u.query, vendor, last);
    assert presigned.query == u.query + vendor + [last];
    assert presigned.(query := u.query + vendor) == unsigned;
    VendorSigningParams(s.vendorKey, params);
  }

  lemma QueryLayout(base: seq<Param>, vendor: seq<Param>, last: Param)
    requires |vendor| == 5
    ensures var q := base + vendor + [last];
      && |q| == |base| + 6
      && q[..|base|] == base
      && q[|base|..|base| + 5] == vendor
      && q[|base| + 5] == last
      && q[..|base| + 5] == base + vendor
  {
    var q := base + vendor + [last];
    assert q[..|base| + 5] == base + vendor;
  }

  lemma VendorSigningParams(vendorKey: string, params: Entries)
    requires |params| == 5
    ensures VendorParams(vendorKey, params)
         == [VendorParam(vendorKey, params[0]), VendorParam(vendorKey, params[1]), VendorParam(vendorKey, params[2]),
             VendorParam(vendorKey, params[3]), VendorParam(vendorKey, params[4])]
  {
  }

  // ---------------------------------------------------------------------
  // The facade's objects
  // ---------------------------------------------------------------------

  /** The parts of an `EscherRequest` the facade reads and changes;
      `addDateHeader` and `addAuthHeader` append to its header list. */
  class EscherRequest {
    var verb: string
    var path: string
    var query: seq<Param>
    var headers: seq<Header>
    var body: string

    constructor(r: Request)
      ensures Snapshot() == r
    {
      verb, path, query, headers, body := r.verb, r.path, r.query, r.headers, r.body;
    }

    function Snapshot(): Request
      reads this
    {
      Request(verb, path, query, headers, body)
    }

    method AddHeader(h: Header)
      modifies this
      ensures Snapshot() == old(Snapshot()).(headers := old(headers) + [h])
    {
      headers := headers + [h];
    }
  }

  class Escher {
    var credentialScope: string
    var algoPrefix: string
    var vendorKey: string
    var hashAlgo: string
    var currentTime: DateTime
    var authHeaderName: string
    var dateHeaderName: string
    var clockSkew: int32

    function Current(): Settings
      reads this
    {
      Settings(credentialScope, algoPrefix, vendorKey, hashAlgo, currentTime, authHeaderName, dateHeaderName, clockSkew)
    }

    /** `new Escher(credentialScope)`; `now` is the time `new Date()` reads. */
    constructor(credentialScope: string, now: DateTime)
      ensures Current() == Settings(credentialScope, "ESR", "Escher", "SHA256", now, "X-Escher-Auth", "X-Escher-Date", 900)
    {
      this.credentialScope := credentialScope;
      algoPrefix := "ESR";
      vendorKey := "Escher";
      hashAlgo := "SHA256";
      currentTime := now;
      authHeaderName := "X-Escher-Auth";
      dateHeaderName := "X-Escher-Date";
      clockSkew := 900;
    }

    method SetAlgoPrefix(value: string) returns (self: Escher)
      modifies this
      ensures self == this && Current() == old(Current()).(algoPrefix := value)
    {
      algoPrefix := value;
      self := this;
    }

    method SetVendorKey(value: string) returns (self: Escher)
      modifies this
      ensures self == this && Current() == old(Current()).(vendorKey := value)
    {
      vendorKey := value;
      self := this;
    }

    method SetHashAlgo(value: string) returns (self: Escher)
      modifies this
      ensures self == this && Current() == old(Current()).(hashAlgo := value)
    {
      hashAlgo := value;
      self := this;
    }

    method SetCurrentTime(value: DateTime) returns (self: Escher)
      modifies this
      ensures self == this && Current() == old(Current()).(currentTime := value)
    {
      currentTime := value;
      self := this;
    }

    method SetAuthHeaderName(value: string) returns (self: Escher)
      modifies this
      ensures self == this && Current() == old(Current()).(authHeaderName := value)
    {
      authHeaderName := value;
      self := this;
    }

    method SetDateHeaderName(value: string) returns (self: Escher)
      modifies this
      ensures self == this && Current() == old(Current()).(dateHeaderName := value)
    {
      dateHeaderName := value;
      self := this;
    }

    method SetClockSkew(value: int32) returns (self: Escher)
      modifies this
      ensures self == this && Current() == old(Current()).(clockSkew := value)
    {
      clockSkew := value;
      self := this;
    }

    /** The private `calculateSignature`. */
    method CalculateSignature(p: Platform, request: Request, secret: string) returns (signature: string)
      ensures signature == Signature(Current(), p, request, secret)
      ensures AllLowerHex(signature)
    {
      var canonicalizedRequest := Canonicalize(p.hmac, p.urlEncode, request);
      var stringToSign := CalculateStringToSign(p.hmac, credentialScope, canonicalizedRequest, currentTime, hashAlgo, algoPrefix);
      var signingKey := CalculateSigningKey(p.hmac, secret, currentTime, credentialScope, hashAlgo, algoPrefix);
      signature := Helper.CalculateSignature(p.hmac, hashAlgo, signingKey, stringToSign);
    }

    /** `signRequest`: the request gets the date header, is signed, and gets
        the authorization header; an empty signed-header list fails after
        the date header was added. */
    method SignRequest(p: Platform, request: EscherRequest, accessKeyId: string, secret: string,
                       signedHeaders: seq<string>) returns (r: Result<EscherRequest>)
      modifies request
      ensures match SignedRequest(Current(), p, old(request.Snapshot()), accessKeyId, secret, signedHeaders)
        case Success(signed) => r == Success(request) && request.Snapshot() == signed
        case Failure(e) => r == Failure(e) && request.Snapshot() == Dated(Current(), old(request.Snapshot()))
    {
      request.AddHeader(Header(dateHeaderName, LongDate(currentTime)));
      var signature := CalculateSignature(p, request.Snapshot(), secret);
      var authHeader := CalculateAuthHeader(accessKeyId, currentTime, credentialScope, hashAlgo, algoPrefix,
                                            signedHeaders, signature);
      if authHeader.Failure? {
        return Failure(authHeader.error);
      }
      request.AddHeader(Header(authHeaderName, authHeader.value));
      return Success(request);
    }

    /** `presignUrl`: a URL that is not a URI fails; otherwise the signing
        parameters are appended one by one, the resulting URI is signed and
        the signature is appended last. */
    method PresignUrl(p: Platform, url: string, accessKeyId: string, secret: string, expires: int32)
      returns (r: Result<string>)
      ensures r.Failure? <==> p.parseUri(url).None?
      ensures r.Failure? ==> r.error == InvalidUri(url)
      ensures r == Presigned(Current(), p, url, accessKeyId, secret, expires)
    {
      var uri := p.parseUri(url);
      if uri.None? {
        return Failure(InvalidUri(url));
      }
      var builder := uri.value;
      var params := CalculateSigningParams(algoPrefix, hashAlgo, accessKeyId, currentTime, credentialScope, expires);
      for i := 0 to |params|
        invariant builder == uri.value.(query := uri.value.query + VendorParams(vendorKey, params[..i]))
      {
        VendorParamsSnoc(vendorKey, params, i);
        builder := builder.(query := builder.query + [Param("X-" + vendorKey + "-" + params[i].0, params[i].1)]);
      }
      assert params[..|params|] == params;
      var request := p.dummyRequest(builder);
      var signature := CalculateSignature(p, request, secret);
      builder := builder.(query := builder.query + [Param("X-" + vendorKey + "-" + "Signature", signature)]);
      return Success(p.buildUri(builder));
    }

    /** `authenticate`: one pass over the headers keeps the last header of
        each role; the key database is not consulted. */
    method Authenticate(p: Platform, request: EscherRequest, keyDb: map<string, string>) returns (r: Result<string>)
      ensures r == Authentication(Current(), p, request.headers)
    {
      var hostHeader: Option<Header> := None;
      var authHeader: Option<Header> := None;
      var dateHeader: Option<Header> := None;
      var headers := request.headers;
      for i := 0 to |headers|
        invariant hostHeader == LastWithRole(headers[..i], "host")
        invariant authHeader == LastWithRole(headers[..i], authHeaderName)
        invariant dateHeader == LastWithRole(headers[..i], dateHeaderName)
      {
        assert headers[..i + 1] == headers[..i] + [headers[i]];
        LastWithRoleSnoc(headers[..i], headers[i], "host");
        LastWithRoleSnoc(headers[..i], headers[i], authHeaderName);
        LastWithRoleSnoc(headers[..i], headers[i], dateHeaderName);
        var fieldName := ReplaceChar(headers[i].name, '_', '-');
        if EqualsIgnoreCase(fieldName, "host") {
          hostHeader := Some(headers[i]);
        }
        if EqualsIgnoreCase(fieldName, authHeaderName) {
          authHeader := Some(headers[i]);
        }
        if EqualsIgnoreCase(fieldName, dateHeaderName) {
          dateHeader := Some(headers[i]);
        }
      }
      assert headers[..|headers|] == headers;
      if hostHeader.None? {
        return Failure(EscherException("Missing header: host"));
      }
      if dateHeader.None? {
        return Failure(EscherException("Missing header: " + dateHeaderName));
      }
      if authHeader.None? {
        return Failure(EscherException("Missing header: " + authHeaderName));
      }
      if !p.parsesAsLongDate(dateHeader.value.value) {
        return Failure(EscherException("Invalid date format"));
      }
      var parsed := ParseHeader(authHeader.value.value);
      if parsed.Failure? {
        return Failure(parsed.error);
      }
      return Success(parsed.value.accessKeyId);
    }
  }
}

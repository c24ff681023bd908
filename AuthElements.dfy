/** AuthElements.java: the fields of an authorization header and
    `parseHeader`, which matches the whole header text against one regular
    expression and splits its signed-header group at `;`. */
module AuthElements {
  import opened Results
  import opened Text
  import opened Scanner
  import opened Helper

  /** The parsed header. `credentialDate` is the eight-digit short date. */
  datatype AuthElements = AuthElements(
    algoPrefix: string,
    hashAlgo: string,
    accessKeyId: string,
    credentialDate: string,
    credentialScope: string,
    signedHeaders: seq<string>,
    signature: string)

  /** The pattern
      `^(\w+)-HMAC-([A-Z0-9,]+) Credential=([\w\-]+)/(\d{8})/([\w\-/]+),
      SignedHeaders=([A-Za-z\-;]+), Signature=([0-9a-f]+)$`
      with its seven named groups in order. */
  const HeaderPattern: seq<Token> := HeadPart + (ScopePart + SignaturePart)

  /** `(\w+)-HMAC-([A-Z0-9,]+) Credential=([\w\-]+)` */
  const HeadPart: seq<Token> := [Run(Word), Lit("-HMAC-"), Run(HashAlgoChars), Lit(" Credential="), Run(KeyIdChars)]
  /** `/(\d{8})/([\w\-/]+), SignedHeaders=` */
  const ScopePart: seq<Token> := [Lit("/"), Exact(Digit, 8), Lit("/"), Run(ScopeChars), Lit(", SignedHeaders=")]
  /** `([A-Za-z\-;]+), Signature=([0-9a-f]+)` */
  const SignaturePart: seq<Token> := [Run(HeaderListChars), Lit(", Signature="), Run(LowerHex)]

  const MalformedHeader: Error := EscherException("Malformed authorization header")

  /** `parseHeader(text)`. */
  function ParseHeader(text: string): Result<AuthElements> {
    match Match(HeaderPattern, text)
    case None => Failure(MalformedHeader)
    case Some(g) =>
      if |g| == 7 then
        Success(AuthElements(g[0], g[1], g[2], g[3], g[4], Split(g[5], ';'), g[6]))
      else Failure(MalformedHeader)
  }

  // ---------------------------------------------------------------------
  // The pattern, group by group
  // ---------------------------------------------------------------------

  /** The header text a choice of the seven groups stands for. */
  function HeaderText(g: seq<string>): string
    requires |g| == 7
  {
    Layout(g[0], g[1], g[2], g[3], g[4], g[5], g[6])
  }

  function Layout(prefix: string, algo: string, keyId: string, date: string, scope: string,
                  list: string, sig: string): string
  {
    prefix + "-HMAC-" + algo + " Credential=" + keyId + "/" + date + "/" + scope
    + ", SignedHeaders=" + list + ", Signature=" + sig
  }

  /** Each group is made of its class's characters, the date has eight
      digits and every other group is non-empty. */
  predicate GroupsFit(g: seq<string>) {
    |g| == 7
    && g[0] != [] && AllIn(g[0], Word)
    && g[1] != [] && AllIn(g[1], HashAlgoChars)
    && g[2] != [] && AllIn(g[2], KeyIdChars)
    && |g[3]| == 8 && AllIn(g[3], Digit)
    && g[4] != [] && AllIn(g[4], ScopeChars)
    && g[5] != [] && AllIn(g[5], HeaderListChars)
    && g[6] != [] && AllIn(g[6], LowerHex)
  }

  // The pattern is proved segment by segment, from the end.

  lemma SignaturePartFacts(c: seq<string>)
    requires |c| == 2
    ensures Delimited(SignaturePart) && Captures(SignaturePart) == 2
    ensures Render(SignaturePart, c) == c[0] + ", Signature=" + c[1]
    ensures Fits(SignaturePart, c) <==>
      c[0] != [] && AllIn(c[0], HeaderListChars) && c[1] != [] && AllIn(c[1], LowerHex)
  {
    var p0: seq<Token> := [Run(LowerHex)];
    assert Delimited(p0);
    FitsGroup(Run(LowerHex), [], c[1], []);
    RenderGroup(Run(LowerHex), [], c[1], []);
    var p1 := [Lit(", Signature=")] + p0;
    DelimitedCons(Lit(", Signature="), p0);
    FitsLit(", Signature=", p0, [c[1]]);
    RenderLit(", Signature=", p0, [c[1]]);
    DelimitedCons(Run(HeaderListChars), p1);
    FitsGroup(Run(HeaderListChars), p1, c[0], [c[1]]);
    RenderGroup(Run(HeaderListChars), p1, c[0], [c[1]]);
    assert SignaturePart == [Run(HeaderListChars)] + p1;
    assert c == [c[0]] + [c[1]];
  }

  lemma ScopePartDelimited()
    ensures Delimited(ScopePart + SignaturePart) && Captures(ScopePart + SignaturePart) == 4
  {
    var s := SignaturePart;
    SignaturePartFacts(["", ""]);
    DelimitedCons(Lit(", SignedHeaders="), s);
    FitsLit(", SignedHeaders=", s, []);
    var p1 := [Lit(", SignedHeaders=")] + s;
    DelimitedCons(Run(ScopeChars), p1);
    FitsGroup(Run(ScopeChars), p1, "", []);
    var p2 := [Run(ScopeChars)] + p1;
    DelimitedCons(Lit("/"), p2);
    FitsLit("/", p2, []);
    var p3 := [Lit("/")] + p2;
    DelimitedCons(Exact(Digit, 8), p3);
    FitsGroup(Exact(Digit, 8), p3, "", []);
    var p4 := [Exact(Digit, 8)] + p3;
    DelimitedCons(Lit("/"), p4);
    FitsLit("/", p4, []);
    ScopeCons();
  }

  lemma ScopePartRender(c: seq<string>)
    requires |c| == 4
    ensures Render(ScopePart + SignaturePart, c)
         == "/" + (c[0] + ("/" + (c[1] + (", SignedHeaders=" + Render(SignaturePart, c[2..])))))
  {
    var s := SignaturePart;
    var t := c[2..];
    var p1 := [Lit(", SignedHeaders=")] + s;
    RenderLit(", SignedHeaders=", s, t);
    var p2 := [Run(ScopeChars)] + p1;
    RenderGroup(Run(ScopeChars), p1, c[1], t);
    var p3 := [Lit("/")] + p2;
    RenderLit("/", p2, c[1..]);
    var p4 := [Exact(Digit, 8)] + p3;
    RenderGroup(Exact(Digit, 8), p3, c[0], c[1..]);
    RenderLit("/", p4, c);
    ScopeCons();
    assert c[1..] == [c[1]] + t && c == [c[0]] + c[1..];
  }

  lemma ScopePartFits(c: seq<string>)
    requires |c| == 4
    ensures Fits(ScopePart + SignaturePart, c) <==>
      |c[0]| == 8 && AllIn(c[0], Digit) && c[1] != [] && AllIn(c[1], ScopeChars) && Fits(SignaturePart, c[2..])
  {
    var s := SignaturePart;
    var t := c[2..];
    var p1 := [Lit(", SignedHeaders=")] + s;
    FitsLit(", SignedHeaders=", s, t);
    var p2 := [Run(ScopeChars)] + p1;
    FitsGroup(Run(ScopeChars), p1, c[1], t);
    var p3 := [Lit("/")] + p2;
    FitsLit("/", p2, c[1..]);
    var p4 := [Exact(Digit, 8)] + p3;
    FitsGroup(Exact(Digit, 8), p3, c[0], c[1..]);
    FitsLit("/", p4, c);
    ScopeCons();
    assert c[1..] == [c[1]] + t && c == [c[0]] + c[1..];
  }

  lemma HeadDelimited()
    ensures Delimited(HeaderPattern) && Captures(HeaderPattern) == 7
  {
    var s := ScopePart + SignaturePart;
    ScopePartDelimited();
    DelimitedCons(Run(KeyIdChars), s);
    FitsGroup(Run(KeyIdChars), s, "", []);
    var p1 := [Run(KeyIdChars)] + s;
    DelimitedCons(Lit(" Credential="), p1);
    FitsLit(" Credential=", p1, []);
    var p2 := [Lit(" Credential=")] + p1;
    DelimitedCons(Run(HashAlgoChars), p2);
    FitsGroup(Run(HashAlgoChars), p2, "", []);
    var p3 := [Run(HashAlgoChars)] + p2;
    DelimitedCons(Lit("-HMAC-"), p3);
    FitsLit("-HMAC-", p3, []);
    var p4 := [Lit("-HMAC-")] + p3;
    DelimitedCons(Run(Word), p4);
    FitsGroup(Run(Word), p4, "", []);
    HeadCons(s);
  }

  lemma HeadRender(g: seq<string>)
    requires |g| == 7
    ensures Render(HeaderPattern, g)
         == g[0] + ("-HMAC-" + (g[1] + (" Credential=" + (g[2] + Render(ScopePart + SignaturePart, g[3..])))))
  {
    var s := ScopePart + SignaturePart;
    var t := g[3..];
    RenderGroup(Run(KeyIdChars), s, g[2], t);
    var p1 := [Run(KeyIdChars)] + s;
    RenderLit(" Credential=", p1, g[2..]);
    var p2 := [Lit(" Credential=")] + p1;
    RenderGroup(Run(HashAlgoChars), p2, g[1], g[2..]);
    var p3 := [Run(HashAlgoChars)] + p2;
    RenderLit("-HMAC-", p3, g[1..]);
    var p4 := [Lit("-HMAC-")] + p3;
    RenderGroup(Run(Word), p4, g[0], g[1..]);
    HeadCons(s);
    GroupsCons(g);
  }

  lemma HeadFits(g: seq<string>)
    requires |g| == 7
    ensures Fits(HeaderPattern, g) <==>
      g[0] != [] && AllIn(g[0], Word) && g[1] != [] && AllIn(g[1], HashAlgoChars)
      && g[2] != [] && AllIn(g[2], KeyIdChars) && Fits(ScopePart + SignaturePart, g[3..])
  {
    var s := ScopePart + SignaturePart;
    var t := g[3..];
    FitsGroup(Run(KeyIdChars), s, g[2], t);
    var p1 := [Run(KeyIdChars)] + s;
    FitsLit(" Credential=", p1, g[2..]);
    var p2 := [Lit(" Credential=")] + p1;
    FitsGroup(Run(HashAlgoChars), p2, g[1], g[2..]);
    var p3 := [Run(HashAlgoChars)] + p2;
    FitsLit("-HMAC-", p3, g[1..]);
    var p4 := [Lit("-HMAC-")] + p3;
    FitsGroup(Run(Word), p4, g[0], g[1..]);
    HeadCons(s);
    GroupsCons(g);
  }

  lemma ScopeCons()
    ensures ScopePart + SignaturePart
         == [Lit("/")] + ([Exact(Digit, 8)] + ([Lit("/")] + ([Run(ScopeChars)] + ([Lit(", SignedHeaders=")] + SignaturePart))))
  {
  }

  lemma HeadCons(s: seq<Token>)
    ensures HeadPart + s
         == [Run(Word)] + ([Lit("-HMAC-")] + ([Run(HashAlgoChars)] + ([Lit(" Credential=")] + ([Run(KeyIdChars)] + s))))
  {
  }

  lemma GroupsCons(g: seq<string>)
    requires |g| == 7
    ensures g[2..] == [g[2]] + g[3..] && g[1..] == [g[1]] + g[2..] && g == [g[0]] + g[1..]
  {
  }

  lemma HeaderPatternFacts(g: seq<string>)
    requires |g| == 7
    ensures Delimited(HeaderPattern) && Captures(HeaderPattern) == 7
    ensures Render(HeaderPattern, g) == HeaderText(g)
    ensures Fits(HeaderPattern, g) <==> GroupsFit(g)
  {
    HeadDelimited();
    HeadRender(g);
    HeadFits(g);
    var t := g[3..];
    ScopePartRender(t);
    ScopePartFits(t);
    assert t[2..] == g[5..];
    SignaturePartFacts(g[5..]);
    HeaderTextNested(g);
  }

  lemma HeaderTextNested(g: seq<string>)
    requires |g| == 7
    ensures HeaderText(g)
         == g[0] + ("-HMAC-" + (g[1] + (" Credential=" + (g[2] + ("/" + (g[3] + ("/" + (g[4]
            + (", SignedHeaders=" + (g[5] + ", Signature=" + g[6]))))))))))
  {
  }

  /** `parseHeader` accepts a text exactly when it is the header layout with
      seven suitable groups filled in, and it then returns those groups, the
      signed-header group split at `;`. */
  lemma ParseHeaderAccepts(text: string)
    ensures ParseHeader(text).Success? <==> exists g :: GroupsFit(g) && HeaderText(g) == text
    ensures forall g :: GroupsFit(g) && HeaderText(g) == text ==>
      ParseHeader(text) == Success(AuthElements(g[0], g[1], g[2], g[3], g[4], Split(g[5], ';'), g[6]))
  {
    HeaderPatternFacts(["", "", "", "", "", "", ""]);
    MatchExactly(HeaderPattern, text);
    forall g | GroupsFit(g) && HeaderText(g) == text
      ensures ParseHeader(text) == Success(AuthElements(g[0], g[1], g[2], g[3], g[4], Split(g[5], ';'), g[6]))
    {
      HeaderPatternFacts(g);
    }
    if ParseHeader(text).Success? {
      var g := Match(HeaderPattern, text).value;
      HeaderPatternFacts(g);
      assert GroupsFit(g) && HeaderText(g) == text;
    }
  }

  /** Every rejection is the one exception. */
  lemma ParseHeaderFailure(text: string)
    ensures ParseHeader(text).Failure? ==> ParseHeader(text).error == MalformedHeader
  {
  }

  /** The groups are unambiguous: two suitable choices of the seven groups
      that lay out the same text are the same choice. */
  lemma CapturesUnique(g1: seq<string>, g2: seq<string>)
    requires GroupsFit(g1) && GroupsFit(g2)
    requires HeaderText(g1) == HeaderText(g2)
    ensures g1 == g2
  {
    HeaderPatternFacts(g1);
    HeaderPatternFacts(g2);
    MatchExactly(HeaderPattern, HeaderText(g1));
  }

  /** The seven groups behind an accepted header. */
  lemma ParsedGroups(text: string) returns (g: seq<string>)
    requires ParseHeader(text).Success?
    ensures GroupsFit(g) && HeaderText(g) == text
    ensures ParseHeader(text) == Success(AuthElements(g[0], g[1], g[2], g[3], g[4], Split(g[5], ';'), g[6]))
  {
    ParseHeaderAccepts(text);
    g :| GroupsFit(g) && HeaderText(g) == text;
  }

  /** What a successful parse promises about its fields: each is made of its
      class's characters, the date has eight digits, and the signed-header
      names hold only letters and `-` and do not end in an empty name (a
      group made only of `;` gives no names at all). */
  lemma ParsedFields(text: string)
    requires ParseHeader(text).Success?
    ensures var e := ParseHeader(text).value;
      && e.algoPrefix != [] && AllIn(e.algoPrefix, Word)
      && e.hashAlgo != [] && AllIn(e.hashAlgo, HashAlgoChars)
      && e.accessKeyId != [] && AllIn(e.accessKeyId, KeyIdChars)
      && |e.credentialDate| == 8 && AllIn(e.credentialDate, Digit)
      && e.credentialScope != [] && AllIn(e.credentialScope, ScopeChars)
      && (e.signedHeaders != [] ==> e.signedHeaders[|e.signedHeaders| - 1] != [])
      && (forall i :: 0 <= i < |e.signedHeaders| ==> AllIn(e.signedHeaders[i], HeaderListChars) && ';' !in e.signedHeaders[i])
      && e.signature != [] && AllIn(e.signature, LowerHex)
  {
    var g := ParsedGroups(text);
    var e := ParseHeader(text).value;
    assert e.signedHeaders == Split(g[5], ';');
    SplitOfNonSeparators(g[5]);
  }

  /** Splitting a non-empty header list at `;`: some names, each made of
      the list's characters, the last one non-empty. */
  lemma SplitOfNonSeparators(s: string)
    requires s != [] && AllIn(s, HeaderListChars)
    ensures var r := Split(s, ';');
      && (forall i :: 0 <= i < |r| ==> AllIn(r[i], HeaderListChars) && ';' !in r[i])
      && (r != [] ==> r[|r| - 1] != [])
  {
    var r := Split(s, ';');
    forall i | 0 <= i < |r| ensures AllIn(r[i], HeaderListChars) && ';' !in r[i] {
      forall k | 0 <= k < |r[i]| ensures InClass(r[i][k], HeaderListChars) {
        var j :| 0 <= j < |s| && s[j] == r[i][k];
      }
    }
  }

  // ---------------------------------------------------------------------
  // Writing a header and reading it back
  // ---------------------------------------------------------------------

  /** A signed-header name the pattern can carry: letters and `-`. */
  predicate HeaderNameFits(h: string) {
    AllIn(h, HeaderListChars) && ';' !in h
  }

  /** A signed-header list whose `;`-join the pattern carries and `split`
      gives back: at least one name, each fitting, the last non-empty (an
      empty name elsewhere survives the round trip). */
  predicate HeaderNamesFit(names: seq<string>) {
    names != [] && names[|names| - 1] != [] && forall i :: 0 <= i < |names| ==> HeaderNameFits(names[i])
  }

  /** Elements whose header text `parseHeader` reads back unchanged. */
  predicate WellFormed(e: AuthElements) {
    && e.algoPrefix != [] && AllIn(e.algoPrefix, Word)
    && e.hashAlgo != [] && AllIn(e.hashAlgo, HashAlgoChars)
    && e.accessKeyId != [] && AllIn(e.accessKeyId, KeyIdChars)
    && |e.credentialDate| == 8 && AllIn(e.credentialDate, Digit)
    && e.credentialScope != [] && AllIn(e.credentialScope, ScopeChars)
    && HeaderNamesFit(e.signedHeaders)
    && e.signature != [] && AllIn(e.signature, LowerHex)
  }

  /** The header text of the elements, the signed headers joined by `;`. */
  function HeaderOf(e: AuthElements): string {
    HeaderText([e.algoPrefix, e.hashAlgo, e.accessKeyId, e.credentialDate, e.credentialScope,
                Join(e.signedHeaders, ';'), e.signature])
  }

  lemma {:induction false} JoinFits(parts: seq<string>)
    requires HeaderNamesFit(parts)
    ensures Join(parts, ';') != [] && AllIn(Join(parts, ';'), HeaderListChars)
    decreases |parts|
  {
    if |parts| > 1 {
      JoinFits(parts[1..]);
      assert HeaderNameFits(parts[0]);
      var j := Join(parts, ';');
      assert j == parts[0] + [';'] + Join(parts[1..], ';');
      forall k | 0 <= k < |j| ensures InClass(j[k], HeaderListChars) {
        if k < |parts[0]| {
          assert j[k] == parts[0][k];
        } else if k > |parts[0]| {
          assert j[k] == Join(parts[1..], ';')[k - |parts[0]| - 1];
        }
      }
    } else {
      assert HeaderNameFits(parts[0]);
    }
  }

  /** Rendering well-formed elements and parsing the text gives them back. */
  lemma ParseHeaderOf(e: AuthElements)
    requires WellFormed(e)
    ensures ParseHeader(HeaderOf(e)) == Success(e)
  {
    var g := [e.algoPrefix, e.hashAlgo, e.accessKeyId, e.credentialDate, e.credentialScope,
              Join(e.signedHeaders, ';'), e.signature];
    JoinFits(e.signedHeaders);
    assert GroupsFit(g);
    ParseHeaderAccepts(HeaderOf(e));
    SplitJoin(e.signedHeaders, ';');
  }

  /** What `parseHeader` returns for a header that `calculateAuthHeader`
      wrote: the prefix, algorithm, key id, short date, scope, lower-cased
      signed-header names and signature it was given. */
  lemma ParseAuthHeader(accessKeyId: string, date: DateTime, credentialScope: string, hashAlgo: string,
                        algoPrefix: string, signedHeaders: seq<string>, signature: string)
    requires algoPrefix != [] && AllIn(algoPrefix, Word)
    requires hashAlgo != [] && AllIn(hashAlgo, HashAlgoChars)
    requires accessKeyId != [] && AllIn(accessKeyId, KeyIdChars)
    requires InRange(date)
    requires credentialScope != [] && AllIn(credentialScope, ScopeChars)
    requires HeaderNamesFit(signedHeaders)
    requires signature != [] && AllIn(signature, LowerHex)
    ensures var header := CalculateAuthHeader(accessKeyId, date, credentialScope, hashAlgo, algoPrefix, signedHeaders, signature);
      header.Success?
      && ParseHeader(header.value)
         == Success(AuthElements(algoPrefix, hashAlgo, accessKeyId, ShortDate(date), credentialScope,
                                 MapLower(signedHeaders), signature))
  {
    var lowered := MapLower(signedHeaders);
    forall i | 0 <= i < |lowered| ensures HeaderNameFits(lowered[i]) {
      LowerKeepsName(signedHeaders[i]);
    }
    assert |lowered[|lowered| - 1]| == |signedHeaders[|signedHeaders| - 1]|;
    DateLayout(date);
    var e := AuthElements(algoPrefix, hashAlgo, accessKeyId, ShortDate(date), credentialScope, lowered, signature);
    assert WellFormed(e);
    ParseHeaderOf(e);
    AuthHeaderLayout(Algorithm(algoPrefix, hashAlgo), algoPrefix, hashAlgo, accessKeyId, ShortDate(date),
                     credentialScope, Join(lowered, ';'), signature);
  }

  lemma AuthHeaderLayout(algorithm: string, algoPrefix: string, hashAlgo: string, accessKeyId: string, shortDate: string,
                         credentialScope: string, list: string, signature: string)
    requires algorithm == algoPrefix + "-HMAC-" + hashAlgo
    ensures algorithm + " Credential=" + (accessKeyId + "/" + shortDate + "/" + credentialScope)
            + ", SignedHeaders=" + list + ", Signature=" + signature
         == HeaderText([algoPrefix, hashAlgo, accessKeyId, shortDate, credentialScope, list, signature])
  {
  }

  lemma LowerKeepsName(h: string)
    requires HeaderNameFits(h)
    ensures HeaderNameFits(ToLower(h))
  {
    var l := ToLower(h);
    assert forall k :: 0 <= k < |l| ==> l[k] == LowerChar(h[k]);
    assert forall k :: 0 <= k < |h| ==> InClass(h[k], HeaderListChars) && h[k] != ';';
  }

  /** The signature `calculateSignature` produces from a non-empty HMAC
      fits the header, so the whole header round-trips. */
  lemma ParseSignedAuthHeader(hmac: Hmac, signingKey: seq<byte>, stringToSign: string,
                              accessKeyId: string, date: DateTime, credentialScope: string, hashAlgo: string,
                              algoPrefix: string, signedHeaders: seq<string>)
    requires hmac.sign(hashAlgo, RawKey(signingKey), stringToSign) != []
    requires algoPrefix != [] && AllIn(algoPrefix, Word)
    requires hashAlgo != [] && AllIn(hashAlgo, HashAlgoChars)
    requires accessKeyId != [] && AllIn(accessKeyId, KeyIdChars)
    requires InRange(date)
    requires credentialScope != [] && AllIn(credentialScope, ScopeChars)
    requires HeaderNamesFit(signedHeaders)
    ensures var signature := CalculateSignature(hmac, hashAlgo, signingKey, stringToSign);
      var header := CalculateAuthHeader(accessKeyId, date, credentialScope, hashAlgo, algoPrefix, signedHeaders, signature);
      header.Success? && ParseHeader(header.value).Success?
      && ParseHeader(header.value).value.signature == signature
      && ParseLowerHex(ParseHeader(header.value).value.signature) == Some(hmac.sign(hashAlgo, RawKey(signingKey), stringToSign))
  {
    var signature := CalculateSignature(hmac, hashAlgo, signingKey, stringToSign);
    assert AllIn(signature, LowerHex) by {
      assert forall k :: 0 <= k < |signature| ==> IsLowerHexDigit(signature[k]);
    }
    ParseAuthHeader(accessKeyId, date, credentialScope, hashAlgo, algoPrefix, signedHeaders, signature);
  }

  // ---------------------------------------------------------------------
  // Texts that are rejected
  // ---------------------------------------------------------------------

  /** An accepted header ends in a lower-case hex digit. */
  lemma AcceptedEnding(text: string)
    ensures ParseHeader(text).Success? ==> text != [] && InClass(text[|text| - 1], LowerHex)
  {
    if ParseHeader(text).Success? {
      var g := ParsedGroups(text);
      GroupsEnding(g);
    }
  }

  /** The header text of suitable groups ends in the last signature digit. */
  lemma GroupsEnding(g: seq<string>)
    requires GroupsFit(g)
    ensures var t := HeaderText(g); t != [] && InClass(t[|t| - 1], LowerHex)
  {
    var sig := g[6];
    LayoutEndsWithSignature(g[0], g[1], g[2], g[3], g[4], g[5], sig);
    var t := HeaderText(g);
    assert t[|t| - 1] == (", Signature=" + sig)[12 + |sig| - 1] == sig[|sig| - 1];
  }

  /** A text ending in anything but a lower-case hex digit (a new line, a
      space, a comma) is rejected, whatever comes before it. */
  lemma NonHexEndingRejected(text: string, extra: string)
    requires extra != [] && !InClass(extra[|extra| - 1], LowerHex)
    ensures ParseHeader(text + extra) == Failure(MalformedHeader)
  {
    AcceptedEnding(text + extra);
  }

  /** Text appended to an accepted header is accepted exactly when it is
      made of lower-case hex digits: the signature group then grows by it
      and nothing else changes. */
  lemma SignatureExtension(text: string, extra: string)
    requires ParseHeader(text).Success?
    ensures ParseHeader(text + extra).Success? <==> AllIn(extra, LowerHex)
    ensures AllIn(extra, LowerHex) ==>
      ParseHeader(text + extra) == Success(ParseHeader(text).value.(signature := ParseHeader(text).value.signature + extra))
  {
    if AllIn(extra, LowerHex) {
      HexExtensionAccepted(text, extra);
    }
    if ParseHeader(text + extra).Success? {
      ExtensionIsHex(text, extra);
    }
  }

  /** Any text after an accepted header that holds a character other than a
      lower-case hex digit makes it malformed. */
  lemma TrailingTextRejected(text: string, extra: string)
    requires ParseHeader(text).Success?
    requires exists k :: 0 <= k < |extra| && !InClass(extra[k], LowerHex)
    ensures ParseHeader(text + extra) == Failure(MalformedHeader)
  {
    SignatureExtension(text, extra);
  }

  lemma HexExtensionAccepted(text: string, extra: string)
    requires ParseHeader(text).Success? && AllIn(extra, LowerHex)
    ensures ParseHeader(text + extra)
      == Success(ParseHeader(text).value.(signature := ParseHeader(text).value.signature + extra))
  {
    var g := ParsedGroups(text);
    var h := ExtendedGroups(g, extra);
    ParseHeaderAccepts(text + extra);
    assert ParseHeader(text + extra) == Success(AuthElements(h[0], h[1], h[2], h[3], h[4], Split(h[5], ';'), h[6]));
  }

  /** The groups of a header whose signature has grown by `extra`. */
  lemma ExtendedGroups(g: seq<string>, extra: string) returns (h: seq<string>)
    requires GroupsFit(g) && AllIn(extra, LowerHex)
    ensures GroupsFit(h) && HeaderText(h) == HeaderText(g) + extra
    ensures h[0] == g[0] && h[1] == g[1] && h[2] == g[2] && h[3] == g[3] && h[4] == g[4] && h[5] == g[5]
    ensures h[6] == g[6] + extra
  {
    h := g[..6] + [g[6] + extra];
    assert h[6] == g[6] + extra;
    forall i | 0 <= i < |g[6] + extra| ensures InClass((g[6] + extra)[i], LowerHex) {
      if i >= |g[6]| {
        assert (g[6] + extra)[i] == extra[i - |g[6]|];
      }
    }
    LayoutAppend(g[0], g[1], g[2], g[3], g[4], g[5], g[6], extra);
  }

  lemma LayoutAppend(prefix: string, algo: string, keyId: string, date: string, scope: string,
                     list: string, sig: string, extra: string)
    ensures Layout(prefix, algo, keyId, date, scope, list, sig) + extra
         == Layout(prefix, algo, keyId, date, scope, list, sig + extra)
  {
  }

  lemma ExtensionIsHex(text: string, extra: string)
    requires ParseHeader(text).Success? && ParseHeader(text + extra).Success?
    ensures AllIn(extra, LowerHex)
  {
    HeaderPatternFacts(["", "", "", "", "", "", ""]);
    HeaderPatternLast();
    MatchExtends(HeaderPattern, text, extra);
  }

  /** The pattern ends in the signature's hex run. */
  lemma HeaderPatternLast()
    ensures HeaderPattern != [] && HeaderPattern[|HeaderPattern| - 1] == Run(LowerHex)
  {
    assert |HeaderPattern| == 13;
  }

  predicate IsHexDigitAnyCase(c: char) {
    '0' <= c <= '9' || 'a' <= c <= 'f' || 'A' <= c <= 'F'
  }

  /** The header layout ends with `, Signature=` and its signature. */
  lemma LayoutEndsWithSignature(prefix: string, algo: string, keyId: string, date: string, scope: string,
                                list: string, sig: string)
    ensures var t := Layout(prefix, algo, keyId, date, scope, list, sig);
      |", Signature=" + sig| <= |t| && t[|t| - |", Signature=" + sig|..] == ", Signature=" + sig
  {
    var front := prefix + "-HMAC-" + algo + " Credential=" + keyId + "/" + date + "/" + scope + ", SignedHeaders=" + list;
    assert Layout(prefix, algo, keyId, date, scope, list, sig) == front + (", Signature=" + sig);
  }

  /** If a header ending in `, Signature=` and a run of hex digits of either
      case is accepted, the run is lower-case. */
  lemma AcceptedSignatureIsLowercase(front: string, sig: string)
    requires forall k :: 0 <= k < |sig| ==> IsHexDigitAnyCase(sig[k])
    ensures ParseHeader(front + ", Signature=" + sig).Success? ==> AllIn(sig, LowerHex)
  {
    var text := front + ", Signature=" + sig;
    if ParseHeader(text).Success? {
      var g := ParsedGroups(text);
      GroupsSignature(front, sig, g);
    }
  }

  lemma GroupsSignature(front: string, sig: string, g: seq<string>)
    requires forall k :: 0 <= k < |sig| ==> IsHexDigitAnyCase(sig[k])
    requires GroupsFit(g) && HeaderText(g) == front + ", Signature=" + sig
    ensures AllIn(sig, LowerHex)
  {
    var text := front + ", Signature=" + sig;
    LayoutEndsWithSignature(g[0], g[1], g[2], g[3], g[4], g[5], g[6]);
    EndsWith(front, ", Signature=", sig);
    SameEnding(text, sig, g[6]);
  }

  lemma EndsWith(front: string, marker: string, e: string)
    ensures var text := front + marker + e;
      |marker + e| <= |text| && text[|text| - |marker + e|..] == marker + e
  {
    var text := front + marker + e;
    assert text == front + (marker + e);
  }

  /** A hex run of either case that ends a text after the signature marker,
      where a lower-case signature also does, is lower-case. */
  lemma SameEnding(text: string, sig: string, parsed: string)
    requires forall k :: 0 <= k < |sig| ==> IsHexDigitAnyCase(sig[k])
    requires AllIn(parsed, LowerHex)
    requires |", Signature=" + sig| <= |text| && text[|text| - |", Signature=" + sig|..] == ", Signature=" + sig
    requires |", Signature=" + parsed| <= |text| && text[|text| - |", Signature=" + parsed|..] == ", Signature=" + parsed
    ensures AllIn(sig, LowerHex)
  {
    SuffixLength(text, ", Signature=", sig, parsed);
    EndingIs(text, ", Signature=", sig);
    EndingIs(text, ", Signature=", parsed);
    var n, m := |text| - |sig|, |text| - |parsed|;
    assert sig == parsed[n - m..] by { assert text[n..] == text[m..][n - m..]; }
    forall k | 0 <= k < |sig| ensures InClass(sig[k], LowerHex) {
      assert sig[k] == parsed[n - m + k];
    }
  }

  /** The text after a marker at the end of a text is that ending. */
  lemma EndingIs(text: string, marker: string, e: string)
    requires |marker + e| <= |text| && text[|text| - |marker + e|..] == marker + e
    ensures text[|text| - |e|..] == e
  {
    assert text[|text| - |e|..] == text[|text| - |marker + e|..][|marker|..];
  }

  /** Two endings of a text that follow the same marker: the one free of
      the marker's last character is the shorter. */
  lemma SuffixLength(text: string, marker: string, s1: string, s2: string)
    requires marker != []
    requires |marker + s1| <= |text| && text[|text| - |marker + s1|..] == marker + s1
    requires |marker + s2| <= |text| && text[|text| - |marker + s2|..] == marker + s2
    requires marker[|marker| - 1] !in s1
    ensures |s1| <= |s2|
  {
    EndingChars(text, marker, s1);
    EndingChars(text, marker, s2);
  }

  lemma EndingChars(text: string, marker: string, e: string)
    requires marker != []
    requires |marker + e| <= |text| && text[|text| - |marker + e|..] == marker + e
    ensures text[|text| - |e| - 1] == marker[|marker| - 1]
    ensures forall i :: |text| - |e| <= i < |text| ==> text[i] in e
  {
    var n := |text| - |marker + e|;
    assert text[|text| - |e| - 1] == text[n..][|marker| - 1];
    forall i | |text| - |e| <= i < |text| ensures text[i] in e {
      assert text[i] == text[n..][i - n] == e[i - n - |marker|];
    }
  }

  /** A signature written with an upper-case hex digit is rejected. */
  lemma UppercaseSignatureRejected(front: string, sig: string, k: nat)
    requires forall i :: 0 <= i < |sig| ==> IsHexDigitAnyCase(sig[i])
    requires k < |sig| && 'A' <= sig[k] <= 'F'
    ensures ParseHeader(front + ", Signature=" + sig) == Failure(MalformedHeader)
  {
    AcceptedSignatureIsLowercase(front, sig);
  }

  /** An accepted header starts with a run free of spaces followed by
      ` Credential=`: the credential comes first. */
  lemma AcceptedCredentialFirst(front: string, rest: string)
    requires ' ' !in front
    ensures ParseHeader(front + " " + rest).Success? ==> |rest| >= 11 && rest[..11] == "Credential="
  {
    var text := front + " " + rest;
    if ParseHeader(text).Success? {
      var g := ParsedGroups(text);
      var head := g[0] + "-HMAC-" + g[1];
      NoSpaceInHead(g[0], g[1]);
      var tail := LayoutAfterSpace(g[0], g[1], g[2], g[3], g[4], g[5], g[6]);
      assert text == front + [' '] + rest;
      CutAtFirst(front, rest, head, tail, ' ');
    }
  }

  lemma NoSpaceInHead(prefix: string, algo: string)
    requires AllIn(prefix, Word) && AllIn(algo, HashAlgoChars)
    ensures ' ' !in prefix + "-HMAC-" + algo
  {
    var h := prefix + "-HMAC-" + algo;
    forall i | 0 <= i < |h| ensures h[i] != ' ' {
      if i < |prefix| {
        assert h[i] == prefix[i];
      } else if i >= |prefix| + 6 {
        assert h[i] == algo[i - |prefix| - 6];
      }
    }
  }

  /** What follows the first space of the layout: `Credential=` and the
      rest. */
  lemma LayoutAfterSpace(prefix: string, algo: string, keyId: string, date: string, scope: string,
                         list: string, sig: string) returns (tail: string)
    ensures Layout(prefix, algo, keyId, date, scope, list, sig) == prefix + "-HMAC-" + algo + [' '] + tail
    ensures |tail| >= 11 && tail[..11] == "Credential="
  {
    var rest := keyId + "/" + date + "/" + scope + ", SignedHeaders=" + list + ", Signature=" + sig;
    tail := "Credential=" + rest;
    LayoutRegroup(prefix + "-HMAC-" + algo + " Credential=", rest, prefix, algo, keyId, date, scope, list, sig);
    SpaceBeforeCredential(prefix + "-HMAC-" + algo, rest);
  }

  lemma SpaceBeforeCredential(head: string, rest: string)
    ensures head + " Credential=" + rest == head + [' '] + ("Credential=" + rest)
  {
  }

  /** A header whose first space is not followed by `Credential=` (for
      instance `SignedHeaders=` first) is rejected. */
  lemma CredentialNotFirstRejected(front: string, rest: string)
    requires ' ' !in front
    requires !(|rest| >= 11 && rest[..11] == "Credential=")
    ensures ParseHeader(front + " " + rest) == Failure(MalformedHeader)
  {
    AcceptedCredentialFirst(front, rest);
  }

  /** `marker` occurs in `text` at position `i`. */
  predicate IsAt(text: string, marker: string, i: int) {
    0 <= i <= |text| - |marker| && text[i..i + |marker|] == marker
  }

  /** `marker` occurs in `text`. */
  predicate Contains(text: string, marker: string) {
    exists i :: 0 <= i <= |text| && IsAt(text, marker, i)
  }

  /** An accepted header holds all four field markers. */
  lemma AcceptedMarkers(text: string)
    ensures ParseHeader(text).Success? ==>
      Contains(text, "-HMAC-") && Contains(text, " Credential=")
      && Contains(text, ", SignedHeaders=") && Contains(text, ", Signature=")
  {
    if ParseHeader(text).Success? {
      var g := ParsedGroups(text);
      LayoutMarkers(g[0], g[1], g[2], g[3], g[4], g[5], g[6]);
    }
  }

  lemma LayoutMarkers(prefix: string, algo: string, keyId: string, date: string, scope: string,
                      list: string, sig: string)
    ensures var t := Layout(prefix, algo, keyId, date, scope, list, sig);
      Contains(t, "-HMAC-") && Contains(t, " Credential=") && Contains(t, ", SignedHeaders=") && Contains(t, ", Signature=")
  {
    var t := Layout(prefix, algo, keyId, date, scope, list, sig);
    var tail := algo + " Credential=" + keyId + "/" + date + "/" + scope + ", SignedHeaders=" + list + ", Signature=" + sig;
    LayoutRegroup(prefix + "-HMAC-", tail, prefix, algo, keyId, date, scope, list, sig);
    MarkerAt(prefix, "-HMAC-", tail);
    var b := prefix + "-HMAC-" + algo;
    tail := keyId + "/" + date + "/" + scope + ", SignedHeaders=" + list + ", Signature=" + sig;
    LayoutRegroup(b + " Credential=", tail, prefix, algo, keyId, date, scope, list, sig);
    MarkerAt(b, " Credential=", tail);
    var c := b + " Credential=" + keyId + "/" + date + "/" + scope;
    tail := list + ", Signature=" + sig;
    LayoutRegroup(c + ", SignedHeaders=", tail, prefix, algo, keyId, date, scope, list, sig);
    MarkerAt(c, ", SignedHeaders=", tail);
    var d := c + ", SignedHeaders=" + list;
    MarkerAt(d, ", Signature=", sig);
  }

  /** The layout read as a front and a tail, whichever field boundary
      separates them. */
  lemma LayoutRegroup(front: string, tail: string, prefix: string, algo: string, keyId: string, date: string,
                      scope: string, list: string, sig: string)
    requires
      || (front == prefix + "-HMAC-"
          && tail == algo + " Credential=" + keyId + "/" + date + "/" + scope + ", SignedHeaders=" + list + ", Signature=" + sig)
      || (front == prefix + "-HMAC-" + algo + " Credential="
          && tail == keyId + "/" + date + "/" + scope + ", SignedHeaders=" + list + ", Signature=" + sig)
      || (front == prefix + "-HMAC-" + algo + " Credential=" + keyId + "/" + date + "/" + scope + ", SignedHeaders="
          && tail == list + ", Signature=" + sig)
    ensures Layout(prefix, algo, keyId, date, scope, list, sig) == front + tail
  {
  }

  lemma MarkerAt(front: string, marker: string, tail: string)
    ensures Contains(front + marker + tail, marker)
  {
    var t := front + marker + tail;
    assert t[|front|..|front| + |marker|] == marker;
    assert IsAt(t, marker, |front|);
  }

  /** A header missing a field marker is rejected. */
  lemma MissingFieldRejected(text: string)
    requires !Contains(text, "-HMAC-") || !Contains(text, " Credential=")
          || !Contains(text, ", SignedHeaders=") || !Contains(text, ", Signature=")
    ensures ParseHeader(text) == Failure(MalformedHeader)
  {
    AcceptedMarkers(text);
  }

  // ---------------------------------------------------------------------
  // Where the field markers of an accepted header lie
  // ---------------------------------------------------------------------

  /** The three markers that start with or hold a space. */
  const CredentialMarker: string := " Credential="
  const SignedHeadersMarker: string := ", SignedHeaders="
  const SignatureMarker: string := ", Signature="

  /** Each field marker occurs exactly once in an accepted header. */
  lemma AcceptedMarkersOnce(text: string)
    requires ParseHeader(text).Success?
    ensures forall a, b :: IsAt(text, CredentialMarker, a) && IsAt(text, CredentialMarker, b) ==> a == b
    ensures forall a, b :: IsAt(text, SignedHeadersMarker, a) && IsAt(text, SignedHeadersMarker, b) ==> a == b
    ensures forall a, b :: IsAt(text, SignatureMarker, a) && IsAt(text, SignatureMarker, b) ==> a == b
  {
    var c, j, i := MarkerPlaces(text);
  }

  /** In an accepted header the credential comes before the signed headers,
      and the signed headers before the signature. */
  lemma AcceptedMarkerOrder(text: string)
    requires ParseHeader(text).Success?
    ensures forall c, j :: IsAt(text, CredentialMarker, c) && IsAt(text, SignedHeadersMarker, j) ==> c < j
    ensures forall j, i :: IsAt(text, SignedHeadersMarker, j) && IsAt(text, SignatureMarker, i) ==> j < i
    ensures forall c, i :: IsAt(text, CredentialMarker, c) && IsAt(text, SignatureMarker, i) ==> c < i
  {
    var c, j, i := MarkerPlaces(text);
  }

  /** Two fields out of order, wherever they stand (the signature before the
      signed headers, the signed headers before the credential), make the
      header malformed. */
  lemma ReorderedFieldsRejected(text: string, c: int, j: int, i: int)
    requires || (IsAt(text, SignedHeadersMarker, j) && IsAt(text, CredentialMarker, c) && j < c)
             || (IsAt(text, SignatureMarker, i) && IsAt(text, SignedHeadersMarker, j) && i < j)
             || (IsAt(text, SignatureMarker, i) && IsAt(text, CredentialMarker, c) && i < c)
    ensures ParseHeader(text) == Failure(MalformedHeader)
  {
    if ParseHeader(text).Success? {
      AcceptedMarkerOrder(text);
    }
  }

  /** A field marker written twice makes the header malformed. */
  lemma RepeatedFieldRejected(text: string, marker: string, a: int, b: int)
    requires marker == CredentialMarker || marker == SignedHeadersMarker || marker == SignatureMarker
    requires IsAt(text, marker, a) && IsAt(text, marker, b) && a != b
    ensures ParseHeader(text) == Failure(MalformedHeader)
  {
    if ParseHeader(text).Success? {
      AcceptedMarkersOnce(text);
    }
  }

  /** The one place of each marker in an accepted header. */
  lemma MarkerPlaces(text: string) returns (c: int, j: int, i: int)
    requires ParseHeader(text).Success?
    ensures c < j < i
    ensures forall k :: IsAt(text, CredentialMarker, k) <==> k == c
    ensures forall k :: IsAt(text, SignedHeadersMarker, k) <==> k == j
    ensures forall k :: IsAt(text, SignatureMarker, k) <==> k == i
  {
    var g := ParsedGroups(text);
    var h := g[0] + "-HMAC-" + g[1];
    var m := g[2] + "/" + g[3] + "/" + g[4];
    NoSpaceInHead(g[0], g[1]);
    NoSpaceInScope(g[2], g[3], g[4]);
    NoSpaceIn(g[5], HeaderListChars);
    NoSpaceIn(g[6], LowerHex);
    LayoutSpaced(g[0], g[1], g[2], g[3], g[4], g[5], g[6]);
    c, j, i := SpacedMarkers(h, m, g[5], g[6]);
  }

  /** The layout with its fields grouped around the three marker spaces. */
  function Spaced(h: string, a: string, b: string, z: string): string {
    h + " " + a + " " + b + " " + z
  }

  lemma LayoutSpaced(prefix: string, algo: string, keyId: string, date: string, scope: string,
                     list: string, sig: string)
    ensures Layout(prefix, algo, keyId, date, scope, list, sig)
         == Spaced(prefix + "-HMAC-" + algo, "Credential=" + (keyId + "/" + date + "/" + scope) + ",",
                   "SignedHeaders=" + list + ",", "Signature=" + sig)
  {
    var h := prefix + "-HMAC-" + algo;
    var m := keyId + "/" + date + "/" + scope;
    assert Layout(prefix, algo, keyId, date, scope, list, sig)
        == h + CredentialMarker + m + SignedHeadersMarker + list + SignatureMarker + sig;
    MarkersSpaced(h, m, list, sig);
  }

  lemma MarkersSpaced(h: string, m: string, l: string, s: string)
    ensures h + CredentialMarker + m + SignedHeadersMarker + l + SignatureMarker + s
         == Spaced(h, "Credential=" + m + ",", "SignedHeaders=" + l + ",", "Signature=" + s)
  {
    assert CredentialMarker == " " + "Credential=";
    assert SignedHeadersMarker == "," + " " + "SignedHeaders=";
    assert SignatureMarker == "," + " " + "Signature=";
  }

  /** The three markers of the spaced layout, and no others. */
  lemma SpacedMarkers(h: string, m: string, l: string, s: string) returns (c: int, j: int, i: int)
    requires ' ' !in h && ' ' !in m && ' ' !in l && ' ' !in s
    ensures var t := Spaced(h, "Credential=" + m + ",", "SignedHeaders=" + l + ",", "Signature=" + s);
      && c < j < i
      && (forall k :: IsAt(t, CredentialMarker, k) <==> k == c)
      && (forall k :: IsAt(t, SignedHeadersMarker, k) <==> k == j)
      && (forall k :: IsAt(t, SignatureMarker, k) <==> k == i)
  {
    var a := "Credential=" + m + ",";
    var b := "SignedHeaders=" + l + ",";
    var z := "Signature=" + s;
    var t := Spaced(h, a, b, z);
    assert ' ' !in a && ' ' !in b && ' ' !in z;
    c := |h|;
    j := |h| + |a|;
    i := |h| + 1 + |a| + |b|;
    SpacedOccurrences(h, a, b, z, m, l, s);
    SpacesOfSpaced(h, a, b, z);
    assert MarkerSpaces(t, c, j, i);
    OnlyCredentialAt(t, c, j, i);
    OnlySignedHeadersAt(t, c, j, i);
    OnlySignatureAt(t, c, j, i);
  }

  /** The three markers stand at `c`, `j` and `i`, the text holds no other
      space than theirs, and the characters after the spaces tell them
      apart. */
  predicate MarkerSpaces(t: string, c: int, j: int, i: int) {
    && IsAt(t, CredentialMarker, c) && IsAt(t, SignedHeadersMarker, j) && IsAt(t, SignatureMarker, i)
    && (forall q :: 0 <= q < |t| && t[q] == ' ' ==> q == c || q == j + 1 || q == i + 1)
  }

  lemma OnlyCredentialAt(t: string, c: int, j: int, i: int)
    requires MarkerSpaces(t, c, j, i)
    ensures forall k :: IsAt(t, CredentialMarker, k) <==> k == c
  {
    MarkerChar(t, SignedHeadersMarker, j, 2);
    MarkerChar(t, SignatureMarker, i, 2);
    forall k | IsAt(t, CredentialMarker, k) ensures k == c {
      MarkerChar(t, CredentialMarker, k, 0);
      MarkerChar(t, CredentialMarker, k, 1);
    }
  }

  lemma OnlySignedHeadersAt(t: string, c: int, j: int, i: int)
    requires MarkerSpaces(t, c, j, i)
    ensures forall k :: IsAt(t, SignedHeadersMarker, k) <==> k == j
  {
    MarkerChar(t, CredentialMarker, c, 1);
    MarkerChar(t, SignatureMarker, i, 6);
    forall k | IsAt(t, SignedHeadersMarker, k) ensures k == j {
      MarkerChar(t, SignedHeadersMarker, k, 1);
      MarkerChar(t, SignedHeadersMarker, k, 2);
      MarkerChar(t, SignedHeadersMarker, k, 6);
    }
  }

  lemma OnlySignatureAt(t: string, c: int, j: int, i: int)
    requires MarkerSpaces(t, c, j, i)
    ensures forall k :: IsAt(t, SignatureMarker, k) <==> k == i
  {
    MarkerChar(t, CredentialMarker, c, 1);
    MarkerChar(t, SignedHeadersMarker, j, 6);
    forall k | IsAt(t, SignatureMarker, k) ensures k == i {
      MarkerChar(t, SignatureMarker, k, 1);
      MarkerChar(t, SignatureMarker, k, 2);
      MarkerChar(t, SignatureMarker, k, 6);
    }
  }

  /** Where the three markers of the spaced layout stand. */
  lemma SpacedOccurrences(h: string, a: string, b: string, z: string, m: string, l: string, s: string)
    requires a == "Credential=" + m + "," && b == "SignedHeaders=" + l + "," && z == "Signature=" + s
    ensures var t := Spaced(h, a, b, z);
      && IsAt(t, CredentialMarker, |h|)
      && IsAt(t, SignedHeadersMarker, |h| + |a|)
      && IsAt(t, SignatureMarker, |h| + 1 + |a| + |b|)
  {
    CredentialAt(h, a, b, z, m);
    SignedHeadersAt(h, a, b, z, m, l);
    SignatureAt(h, a, b, z, s);
  }

  lemma CredentialAt(h: string, a: string, b: string, z: string, m: string)
    requires a == "Credential=" + m + ","
    ensures IsAt(Spaced(h, a, b, z), CredentialMarker, |h|)
  {
    var rest := m + "," + " " + b + " " + z;
    assert " " + a == CredentialMarker + (m + ",");
    assert Spaced(h, a, b, z) == h + CredentialMarker + rest;
    MarkerAt(h, CredentialMarker, rest);
  }

  lemma SignedHeadersAt(h: string, a: string, b: string, z: string, m: string, l: string)
    requires a == "Credential=" + m + "," && b == "SignedHeaders=" + l + ","
    ensures IsAt(Spaced(h, a, b, z), SignedHeadersMarker, |h| + |a|)
  {
    var front := h + " " + "Credential=" + m;
    var rest := l + "," + " " + z;
    assert a + " " + b == "Credential=" + m + SignedHeadersMarker + (l + ",");
    assert Spaced(h, a, b, z) == front + SignedHeadersMarker + rest;
    MarkerAt(front, SignedHeadersMarker, rest);
  }

  lemma SignatureAt(h: string, a: string, b: string, z: string, s: string)
    requires |b| >= 1 && b[|b| - 1] == ',' && z == "Signature=" + s
    ensures IsAt(Spaced(h, a, b, z), SignatureMarker, |h| + 1 + |a| + |b|)
  {
    var front := h + " " + a + " " + b[..|b| - 1];
    assert b == b[..|b| - 1] + ",";
    assert b + " " + z == b[..|b| - 1] + SignatureMarker + s;
    assert Spaced(h, a, b, z) == front + SignatureMarker + s;
    MarkerAt(front, SignatureMarker, s);
  }

  /** A character of a marker found at position `k`. */
  lemma MarkerChar(t: string, marker: string, k: int, d: int)
    requires IsAt(t, marker, k) && 0 <= d < |marker|
    ensures t[k + d] == marker[d]
  {
    assert t[k..k + |marker|][d] == t[k + d];
  }

  /** The spaced layout holds a space only at its three marker spaces. */
  lemma SpacesOfSpaced(h: string, a: string, b: string, z: string)
    requires ' ' !in h && ' ' !in a && ' ' !in b && ' ' !in z
    ensures var t := Spaced(h, a, b, z);
      forall q :: 0 <= q < |t| && t[q] == ' ' ==> q == |h| || q == |h| + 1 + |a| || q == |h| + 2 + |a| + |b|
  {
    var t := Spaced(h, a, b, z);
    forall q | 0 <= q < |t| && q != |h| && q != |h| + 1 + |a| && q != |h| + 2 + |a| + |b|
      ensures t[q] != ' '
    {
      if q < |h| {
        assert t[q] == h[q];
      } else if q < |h| + 1 + |a| {
        assert t[q] == a[q - |h| - 1];
      } else if q < |h| + 2 + |a| + |b| {
        assert t[q] == b[q - |h| - 2 - |a|];
      } else {
        assert t[q] == z[q - |h| - 3 - |a| - |b|];
      }
    }
  }

  lemma NoSpaceIn(s: string, k: CharClass)
    requires AllIn(s, k) && k != HashAlgoChars
    ensures ' ' !in s
  {
    forall i | 0 <= i < |s| ensures s[i] != ' ' {
      assert InClass(s[i], k);
    }
  }

  lemma NoSpaceInScope(keyId: string, date: string, scope: string)
    requires AllIn(keyId, KeyIdChars) && AllIn(date, Digit) && AllIn(scope, ScopeChars)
    ensures ' ' !in keyId + "/" + date + "/" + scope
  {
    NoSpaceIn(keyId, KeyIdChars);
    NoSpaceIn(date, Digit);
    NoSpaceIn(scope, ScopeChars);
  }
}

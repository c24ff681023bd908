/** The part of `java.util.regex` that the authorization-header pattern
    uses: a fixed sequence of literals and character-class runs, matched
    against the whole text (`Matcher.matches`), with one captured group per
    run. A pattern in which every `+` run is followed by a literal whose first
    character lies outside the run's class (or ends the pattern) has at most
    one way to match, and the scanner below finds it greedily. */
module Scanner {
  import opened Results

  /** The character classes of the header pattern; `\w` is `[A-Za-z0-9_]`
      and `\d` is `[0-9]` (Java's defaults, without Unicode classes). */
  datatype CharClass =
    | Word              // \w
    | HashAlgoChars     // [A-Z0-9,]
    | KeyIdChars        // [\w\-]
    | Digit             // \d
    | ScopeChars        // [\w\-/]
    | HeaderListChars   // [A-Za-z\-;]
    | LowerHex          // [0-9a-f]

  predicate IsWordChar(c: char) {
    'A' <= c <= 'Z' || 'a' <= c <= 'z' || '0' <= c <= '9' || c == '_'
  }

  predicate InClass(c: char, k: CharClass) {
    match k
    case Word => IsWordChar(c)
    case HashAlgoChars => 'A' <= c <= 'Z' || '0' <= c <= '9' || c == ','
    case KeyIdChars => IsWordChar(c) || c == '-'
    case Digit => '0' <= c <= '9'
    case ScopeChars => IsWordChar(c) || c == '-' || c == '/'
    case HeaderListChars => 'A' <= c <= 'Z' || 'a' <= c <= 'z' || c == '-' || c == ';'
    case LowerHex => '0' <= c <= '9' || 'a' <= c <= 'f'
  }

  predicate AllIn(s: string, k: CharClass) {
    forall i :: 0 <= i < |s| ==> InClass(s[i], k)
  }

  /** One element of a pattern: literal text, a `+` run of a class, or a
      class repeated exactly `count` times. */
  datatype Token = Lit(text: string) | Run(cls: CharClass) | Exact(cls: CharClass, count: nat)

  /** The number of groups a pattern captures. */
  function Captures(g: seq<Token>): nat
    decreases |g|
  {
    if g == [] then 0 else (if g[0].Lit? then 0 else 1) + Captures(g[1..])
  }

  /** The captured texts suit the pattern: one per run or repetition, each
      made of the class's characters, a run non-empty and a repetition of
      the exact length. */
  predicate Fits(g: seq<Token>, caps: seq<string>)
    decreases |g|
  {
    if g == [] then caps == []
    else match g[0]
      case Lit(_) => Fits(g[1..], caps)
      case Run(k) => caps != [] && caps[0] != [] && AllIn(caps[0], k) && Fits(g[1..], caps[1..])
      case Exact(k, n) => caps != [] && |caps[0]| == n && AllIn(caps[0], k) && Fits(g[1..], caps[1..])
  }

  /** The text a pattern stands for once its groups are filled in. */
  function Render(g: seq<Token>, caps: seq<string>): string
    decreases |g|
  {
    if g == [] then []
    else if g[0].Lit? then g[0].text + Render(g[1..], caps)
    else if caps == [] then Render(g[1..], [])
    else caps[0] + Render(g[1..], caps[1..])
  }

  /** Every run is last or is followed by a non-empty literal that starts
      outside the run's class, so a greedy run can never eat what follows. */
  predicate Delimited(g: seq<Token>) {
    forall i :: 0 <= i < |g| - 1 && g[i].Run? ==>
      g[i + 1].Lit? && g[i + 1].text != [] && !InClass(g[i + 1].text[0], g[i].cls)
  }

  /** The length of the longest prefix of `t` in class `k`. */
  function Span(t: string, k: CharClass): (n: nat)
    ensures n <= |t| && AllIn(t[..n], k)
    ensures n == |t| || !InClass(t[n], k)
    decreases |t|
  {
    if t == [] || !InClass(t[0], k) then 0
    else
      var n := 1 + Span(t[1..], k);
      assert forall i :: 1 <= i < n ==> t[..n][i] == t[1..][..n - 1][i - 1];
      n
  }

  /** Match the whole of `t` against the pattern, greedily; the groups on
      success. */
  function Match(g: seq<Token>, t: string): (r: Option<seq<string>>)
    ensures r.Some? ==> Fits(g, r.value) && Render(g, r.value) == t && |r.value| == Captures(g)
    decreases |g|
  {
    if g == [] then (if t == [] then Some([]) else None)
    else match g[0]
      case Lit(x) =>
        if |x| <= |t| && t[..|x|] == x then
          var r := Match(g[1..], t[|x|..]);
          assert r.Some? ==> t == x + t[|x|..];
          r
        else None
      case Run(k) =>
        var n := Span(t, k);
        if n == 0 then None
        else
          (match Match(g[1..], t[n..])
           case None => None
           case Some(rest) =>
             GroupThenRest(g, t, n, rest);
             Some([t[..n]] + rest))
      case Exact(k, c) =>
        if c <= |t| && AllIn(t[..c], k) then
          (match Match(g[1..], t[c..])
           case None => None
           case Some(rest) =>
             GroupThenRest(g, t, c, rest);
             Some([t[..c]] + rest))
        else None
  }

  /** A group taken from the front of the text, followed by a match of the
      rest of the pattern against the rest of the text. */
  lemma GroupThenRest(g: seq<Token>, t: string, n: nat, rest: seq<string>)
    requires g != [] && !g[0].Lit? && n <= |t| && AllIn(t[..n], g[0].cls)
    requires if g[0].Run? then n > 0 else n == g[0].count
    requires Fits(g[1..], rest) && Render(g[1..], rest) == t[n..] && |rest| == Captures(g[1..])
    ensures Fits(g, [t[..n]] + rest) && Render(g, [t[..n]] + rest) == t
    ensures |[t[..n]] + rest| == Captures(g)
  {
    assert t == t[..n] + t[n..];
    assert ([t[..n]] + rest)[1..] == rest;
  }

  lemma DelimitedTail(g: seq<Token>)
    requires Delimited(g) && g != []
    ensures Delimited(g[1..])
  {
    forall i | 0 <= i < |g[1..]| - 1 && g[1..][i].Run?
      ensures g[1..][i + 1].Lit? && g[1..][i + 1].text != [] && !InClass(g[1..][i + 1].text[0], g[1..][i].cls)
    {
      assert g[1..][i] == g[i + 1] && g[1..][i + 1] == g[i + 2];
    }
  }

  /** Rendering a pattern whose first token is a literal starts with that
      literal. */
  lemma RenderStartsWithLiteral(g: seq<Token>, caps: seq<string>)
    requires g != [] && g[0].Lit?
    ensures Render(g, caps) == g[0].text + Render(g[1..], caps)
  {
  }

  /** The scanner finds every filling of a delimited pattern: the text a
      pattern stands for is matched, and its groups are given back. */
  lemma {:induction false} MatchRender(g: seq<Token>, caps: seq<string>)
    requires Delimited(g) && Fits(g, caps)
    ensures Match(g, Render(g, caps)) == Some(caps)
    decreases |g|
  {
    if g != [] {
      DelimitedTail(g);
      var t := Render(g, caps);
      match g[0]
      case Lit(x) =>
        assert t == x + Render(g[1..], caps);
        assert t[..|x|] == x && t[|x|..] == Render(g[1..], caps);
        MatchRender(g[1..], caps);
      case Run(k) =>
        var c := caps[0];
        var rest := Render(g[1..], caps[1..]);
        assert t == c + rest;
        MatchRender(g[1..], caps[1..]);
        SpanOfRun(c, rest, k, g);
        assert t[..|c|] == c && t[|c|..] == rest;
        assert caps == [c] + caps[1..];
      case Exact(k, n) =>
        var c := caps[0];
        var rest := Render(g[1..], caps[1..]);
        assert t == c + rest;
        MatchRender(g[1..], caps[1..]);
        assert t[..n] == c && t[n..] == rest;
        assert caps == [c] + caps[1..];
    }
  }

  /** A non-empty run of the class followed by the rest of a delimited
      pattern's text spans exactly the run. */
  lemma SpanOfRun(c: string, rest: string, k: CharClass, g: seq<Token>)
    requires g != [] && g[0] == Run(k) && Delimited(g)
    requires c != [] && AllIn(c, k)
    requires exists caps :: rest == Render(g[1..], caps)
    ensures Span(c + rest, k) == |c|
  {
    var caps :| rest == Render(g[1..], caps);
    SpanAt(c + rest, k, |c|);
    if |g| > 1 {
      assert g[1].Lit? && g[1].text != [] && !InClass(g[1].text[0], k);
      RenderStartsWithLiteral(g[1..], caps);
      assert rest[0] == g[1].text[0];
      assert (c + rest)[|c|] == rest[0];
    } else {
      assert rest == [];
    }
  }

  lemma {:induction false} SpanAt(t: string, k: CharClass, n: nat)
    requires n <= |t| && AllIn(t[..n], k) && (n == |t| || !InClass(t[n], k))
    ensures Span(t, k) == n
    decreases n
  {
    if n > 0 {
      assert t[..n][0] == t[0];
      assert t[1..][..n - 1] == t[..n][1..];
      SpanAt(t[1..], k, n - 1);
    }
  }

  /** A pattern made of delimited tokens accepts a text exactly when the
      text is the pattern with some suitable groups filled in, and those
      groups are then the ones returned. */
  lemma MatchExactly(g: seq<Token>, t: string)
    requires Delimited(g)
    ensures Match(g, t).Some? <==> exists caps :: Fits(g, caps) && Render(g, caps) == t
    ensures forall caps :: Fits(g, caps) && Render(g, caps) == t ==> Match(g, t) == Some(caps)
  {
    MatchComplete(g, t);
    if Match(g, t).Some? {
      var caps := Match(g, t).value;
      assert Fits(g, caps) && Render(g, caps) == t;
      assert exists c :: Fits(g, c) && Render(g, c) == t;
    } else {
      assert !exists c :: Fits(g, c) && Render(g, c) == t;
    }
  }

  lemma MatchComplete(g: seq<Token>, t: string)
    requires Delimited(g)
    ensures forall caps :: Fits(g, caps) && Render(g, caps) == t ==> Match(g, t) == Some(caps)
  {
    forall caps | Fits(g, caps) && Render(g, caps) == t ensures Match(g, t) == Some(caps) {
      MatchRender(g, caps);
    }
  }

  /** When a pattern ends in a run, text appended to a matched text is
      matched only if it is made of the run's characters: every earlier run
      stops at the same delimiter as before. */
  lemma {:induction false} MatchExtends(g: seq<Token>, t: string, e: string)
    requires Delimited(g) && g != [] && g[|g| - 1].Run?
    requires Match(g, t).Some? && Match(g, t + e).Some?
    ensures AllIn(e, g[|g| - 1].cls)
    decreases |g|
  {
    DelimitedTail(g);
    var te := t + e;
    if |g| > 1 {
      LastOfTail(g);
    }
    match g[0]
    case Lit(x) =>
      LitStep(g, t);
      LitStep(g, te);
      DropAppended(t, e, |x|);
      MatchExtends(g[1..], t[|x|..], e);
    case Run(k) =>
      RunStep(g, t);
      RunStep(g, te);
      var n := Span(t, k);
      if |g| == 1 {
        EmptyMatch(t[n..]);
        EmptyMatch(te[Span(te, k)..]);
        RunToEnd(t, e, k);
      } else {
        LitStep(g[1..], t[n..]);
        SameSpan(t, e, k);
        DropAppended(t, e, n);
        MatchExtends(g[1..], t[n..], e);
      }
    case Exact(k, c) =>
      ExactStep(g, t);
      ExactStep(g, te);
      DropAppended(t, e, c);
      MatchExtends(g[1..], t[c..], e);
  }

  lemma LastOfTail(g: seq<Token>)
    requires |g| > 1
    ensures g[1..][|g[1..]| - 1] == g[|g| - 1]
  {
  }

  lemma DropAppended(t: string, e: string, n: nat)
    requires n <= |t|
    ensures (t + e)[n..] == t[n..] + e && (t + e)[..n] == t[..n]
  {
  }

  lemma EmptyMatch(t: string)
    requires Match([], t).Some?
    ensures t == []
  {
  }

  /** A match that starts with a literal consumes it and matches the rest. */
  lemma LitStep(g: seq<Token>, t: string)
    requires g != [] && g[0].Lit? && Match(g, t).Some?
    ensures |g[0].text| <= |t| && t[..|g[0].text|] == g[0].text
    ensures Match(g[1..], t[|g[0].text|..]).Some?
  {
  }

  /** A match that starts with a run takes the longest non-empty run. */
  lemma RunStep(g: seq<Token>, t: string)
    requires g != [] && g[0].Run? && Match(g, t).Some?
    ensures Span(t, g[0].cls) > 0 && Match(g[1..], t[Span(t, g[0].cls)..]).Some?
  {
  }

  lemma ExactStep(g: seq<Token>, t: string)
    requires g != [] && g[0].Exact? && Match(g, t).Some?
    ensures g[0].count <= |t| && Match(g[1..], t[g[0].count..]).Some?
  {
  }

  /** A run that reaches the end of `t` and of `t + e` covers `e`. */
  lemma RunToEnd(t: string, e: string, k: CharClass)
    requires Span(t, k) == |t| && Span(t + e, k) == |t + e|
    ensures AllIn(e, k)
  {
    var te := t + e;
    forall i | 0 <= i < |e| ensures InClass(e[i], k) {
      assert e[i] == te[..|te|][|t| + i];
    }
  }

  /** A run that stops inside `t` stops at the same place in `t + e`. */
  lemma SameSpan(t: string, e: string, k: CharClass)
    requires Span(t, k) < |t|
    ensures Span(t + e, k) == Span(t, k)
  {
    var n := Span(t, k);
    DropAppended(t, e, n);
    assert (t + e)[n] == t[n];
    SpanAt(t + e, k, n);
  }

  // ---------------------------------------------------------------------
  // One token at a time
  // ---------------------------------------------------------------------

  lemma RenderLit(x: string, g: seq<Token>, caps: seq<string>)
    ensures Render([Lit(x)] + g, caps) == x + Render(g, caps)
  {
    assert ([Lit(x)] + g)[1..] == g;
  }

  lemma RenderGroup(t: Token, g: seq<Token>, c: string, caps: seq<string>)
    requires !t.Lit?
    ensures Render([t] + g, [c] + caps) == c + Render(g, caps)
  {
    assert ([t] + g)[1..] == g && ([c] + caps)[1..] == caps;
  }

  lemma FitsLit(x: string, g: seq<Token>, caps: seq<string>)
    ensures Fits([Lit(x)] + g, caps) == Fits(g, caps)
    ensures Captures([Lit(x)] + g) == Captures(g)
  {
    assert ([Lit(x)] + g)[1..] == g;
  }

  lemma FitsGroup(t: Token, g: seq<Token>, c: string, caps: seq<string>)
    requires !t.Lit?
    ensures Fits([t] + g, [c] + caps) <==>
      AllIn(c, t.cls) && (if t.Run? then c != [] else |c| == t.count) && Fits(g, caps)
    ensures Captures([t] + g) == 1 + Captures(g)
  {
    assert ([t] + g)[1..] == g && ([c] + caps)[1..] == caps;
  }

  /** Putting a token in front of a delimited pattern keeps it delimited
      when the token is not a run, or is a run followed by a literal that
      starts outside its class. */
  lemma DelimitedCons(t: Token, g: seq<Token>)
    requires Delimited(g)
    requires t.Run? ==> g == [] || (g[0].Lit? && g[0].text != [] && !InClass(g[0].text[0], t.cls))
    ensures Delimited([t] + g)
  {
    var h := [t] + g;
    forall i | 0 <= i < |h| - 1 && h[i].Run?
      ensures h[i + 1].Lit? && h[i + 1].text != [] && !InClass(h[i + 1].text[0], h[i].cls)
    {
      if i > 0 {
        assert h[i] == g[i - 1] && h[i + 1] == g[i];
      }
    }
  }
}

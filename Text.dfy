/** The string operations of the Java library that the signing code relies
    on, in the form the model needs them: ASCII case mapping, `String.trim`,
    joining by a separator (a stream reduction), `String.split` on a single
    character, decimal rendering of numbers and hexadecimal rendering of
    bytes. */
module Text {
  import opened Results

  type byte = b: int | 0 <= b < 256

  // ---------------------------------------------------------------------
  // Case mapping (Java's toLowerCase and equalsIgnoreCase, ASCII only)
  // ---------------------------------------------------------------------

  function LowerChar(c: char): char {
    if 'A' <= c <= 'Z' then (c as int + 32) as char else c
  }

  function ToLower(s: string): (r: string)
    ensures |r| == |s|
  {
    seq(|s|, i requires 0 <= i < |s| => LowerChar(s[i]))
  }

  /** `a.equalsIgnoreCase(b)` for ASCII text. */
  predicate EqualsIgnoreCase(a: string, b: string) {
    ToLower(a) == ToLower(b)
  }

  /** `s.replace(from, to)` for single characters. */
  function ReplaceChar(s: string, from: char, to: char): (r: string)
    ensures |r| == |s|
  {
    seq(|s|, i requires 0 <= i < |s| => if s[i] == from then to else s[i])
  }

  lemma ToLowerConcat(a: string, b: string)
    ensures ToLower(a + b) == ToLower(a) + ToLower(b)
  {
    assert forall i :: 0 <= i < |a + b| ==> ToLower(a + b)[i] == (ToLower(a) + ToLower(b))[i];
  }

  // ---------------------------------------------------------------------
  // String.trim: strips every character at or below U+0020 from both ends
  // ---------------------------------------------------------------------

  predicate Blank(c: char) {
    c <= ' '
  }

  predicate AllBlank(s: string) {
    forall i :: 0 <= i < |s| ==> Blank(s[i])
  }

  function TrimLeading(s: string): (r: string)
    ensures |r| <= |s| && r == s[|s| - |r|..]
    ensures AllBlank(s[..|s| - |r|])
    ensures r == [] || !Blank(r[0])
    decreases |s|
  {
    if s != [] && Blank(s[0]) then TrimLeading(s[1..]) else s
  }

  function TrimTrailing(s: string): (r: string)
    ensures |r| <= |s| && r == s[..|r|]
    ensures AllBlank(s[|r|..])
    ensures r == [] || !Blank(r[|r| - 1])
    decreases |s|
  {
    if s != [] && Blank(s[|s| - 1]) then
      var p := s[..|s| - 1];
      var r := TrimTrailing(p);
      assert p[..|r|] == s[..|r|];
      assert forall i :: 0 <= i < |s| - |r| ==> s[|r|..][i] == if i < |p| - |r| then p[|r|..][i] else s[|s| - 1];
      r
    else s
  }

  /** `s.trim()`. */
  function Trim(s: string): (r: string) {
    TrimTrailing(TrimLeading(s))
  }

  lemma {:induction false} TrimLeadingAt(s: string, i: nat)
    requires i <= |s| && AllBlank(s[..i]) && (i == |s| || !Blank(s[i]))
    ensures TrimLeading(s) == s[i..]
    decreases i
  {
    if i > 0 {
      assert Blank(s[0]) by { assert s[..i][0] == s[0]; }
      assert s[1..][..i - 1] == s[..i][1..];
      TrimLeadingAt(s[1..], i - 1);
      assert s[1..][i - 1..] == s[i..];
    }
  }

  lemma {:induction false} TrimTrailingAt(s: string, j: nat)
    requires j <= |s| && AllBlank(s[j..]) && (j == 0 || !Blank(s[j - 1]))
    ensures TrimTrailing(s) == s[..j]
    decreases |s| - j
  {
    if j < |s| {
      assert Blank(s[|s| - 1]) by { assert s[j..][|s| - 1 - j] == s[|s| - 1]; }
      var s' := s[..|s| - 1];
      assert s'[j..] == s[j..][..|s| - 1 - j];
      TrimTrailingAt(s', j);
      assert s'[..j] == s[..j];
    }
  }

  /** Trim is characterised by its result: the one infix whose surroundings
      are blank and whose two ends are not. */
  lemma TrimIsInfix(s: string, i: nat, j: nat)
    requires i <= j <= |s|
    requires AllBlank(s[..i]) && AllBlank(s[j..])
    requires i == j || (!Blank(s[i]) && !Blank(s[j - 1]))
    ensures Trim(s) == s[i..j]
  {
    if i == j {
      TrimAllBlank(s, i);
    } else {
      TrimLeadingAt(s, i);
      InfixTail(s, i, j);
      TrimTrailingAt(s[i..], j - i);
    }
  }

  lemma InfixTail(s: string, i: nat, j: nat)
    requires i < j <= |s| && AllBlank(s[j..]) && !Blank(s[j - 1])
    ensures var t := s[i..];
      j - i <= |t| && AllBlank(t[j - i..]) && !Blank(t[j - i - 1]) && t[..j - i] == s[i..j]
  {
    var t := s[i..];
    assert t[j - i..] == s[j..];
  }

  lemma TrimAllBlank(s: string, i: nat)
    requires i <= |s| && AllBlank(s[..i]) && AllBlank(s[i..])
    ensures Trim(s) == []
  {
    assert s == s[..i] + s[i..];
    AllBlankConcat(s[..i], s[i..]);
    TrimLeadingAt(s, |s|);
  }

  lemma AllBlankConcat(a: string, b: string)
    requires AllBlank(a) && AllBlank(b)
    ensures AllBlank(a + b)
  {
    assert forall k :: 0 <= k < |a + b| ==> (a + b)[k] == if k < |a| then a[k] else b[k - |a|];
  }

  /** Blank padding around a value does not survive trimming. */
  lemma TrimIgnoresPadding(a: string, v: string, b: string)
    requires AllBlank(a) && AllBlank(b)
    ensures Trim(a + v + b) == Trim(v)
  {
    var front, back := TrimParts(v);
    PaddedInfix(a, front, Trim(v), back, b);
  }

  /** A text is its trimmed form with blank text on either side. */
  lemma TrimParts(v: string) returns (front: string, back: string)
    ensures v == front + (Trim(v) + back)
    ensures AllBlank(front) && AllBlank(back)
    ensures Trim(v) == [] || (!Blank(Trim(v)[0]) && !Blank(Trim(v)[|Trim(v)| - 1]))
  {
    front, back := Parts(v, TrimLeading(v), TrimTrailing(TrimLeading(v)));
  }

  /** Cutting blank text off the front, then off the back. */
  lemma Parts(v: string, l: string, t: string) returns (front: string, back: string)
    requires |l| <= |v| && l == v[|v| - |l|..] && AllBlank(v[..|v| - |l|]) && (l == [] || !Blank(l[0]))
    requires |t| <= |l| && t == l[..|t|] && AllBlank(l[|t|..]) && (t == [] || !Blank(t[|t| - 1]))
    ensures v == front + (t + back) && AllBlank(front) && AllBlank(back)
    ensures t == [] || (!Blank(t[0]) && !Blank(t[|t| - 1]))
  {
    SplitAt(v, |v| - |l|);
    SplitAt(l, |t|);
    front, back := v[..|v| - |l|], l[|t|..];
    if t != [] {
      assert t[0] == l[0];
    }
  }

  lemma SplitAt(s: string, k: nat)
    requires k <= |s|
    ensures s == s[..k] + s[k..]
  {
  }

  lemma TrimOfBlank(s: string)
    requires AllBlank(s)
    ensures Trim(s) == []
  {
    assert s[..|s|] == s;
    TrimLeadingAt(s, |s|);
  }

  /** A middle whose ends are not blank, with blank text on both sides,
      trims to the middle. */
  lemma PaddedInfix(a: string, front: string, t: string, back: string, b: string)
    requires AllBlank(a) && AllBlank(front) && AllBlank(back) && AllBlank(b)
    requires t == [] || (!Blank(t[0]) && !Blank(t[|t| - 1]))
    ensures Trim(a + (front + (t + back)) + b) == t
  {
    var pre := a + front;
    var post := back + b;
    var s := a + (front + (t + back)) + b;
    assert s == pre + t + post;
    AllBlankConcat(a, front);
    AllBlankConcat(back, b);
    if t == [] {
      assert s == pre + post;
      AllBlankConcat(pre, post);
      TrimOfBlank(s);
    } else {
      var lo, hi := |pre|, |pre| + |t|;
      assert s[..lo] == pre && s[lo..hi] == t && s[hi..] == post;
      TrimIsInfix(s, lo, hi);
    }
  }

  // ---------------------------------------------------------------------
  // Joining (stream reduction with a separator)
  // ---------------------------------------------------------------------

  /** The parts with the separator between neighbours; no parts give "". */
  function Join(parts: seq<string>, sep: char): string
    decreases |parts|
  {
    if |parts| == 0 then ""
    else if |parts| == 1 then parts[0]
    else parts[0] + [sep] + Join(parts[1..], sep)
  }

  /** `stream.reduce((s1, s2) -> s1 + sep + s2)`: the left-to-right
      reduction the Java code performs, absent on an empty stream. */
  function Reduce(parts: seq<string>, sep: char): Option<string>
    decreases |parts|
  {
    if |parts| == 0 then None
    else if |parts| == 1 then Some(parts[0])
    else
      var front := Reduce(parts[..|parts| - 1], sep);
      Some(front.value + [sep] + parts[|parts| - 1])
  }

  lemma {:induction false} JoinSnoc(parts: seq<string>, x: string, sep: char)
    requires |parts| >= 1
    ensures Join(parts + [x], sep) == Join(parts, sep) + [sep] + x
    decreases |parts|
  {
    if |parts| > 1 {
      JoinSnoc(parts[1..], x, sep);
      assert (parts + [x])[1..] == parts[1..] + [x];
    }
  }

  /** The reduction yields `Join` on a non-empty stream and nothing on an
      empty one, so `reduce(...).orElseGet(() -> "")` is `Join`. */
  lemma {:induction false} ReduceIsJoin(parts: seq<string>, sep: char)
    ensures Reduce(parts, sep) == if parts == [] then None else Some(Join(parts, sep))
    decreases |parts|
  {
    if |parts| > 1 {
      var front := parts[..|parts| - 1];
      ReduceIsJoin(front, sep);
      JoinSnoc(front, parts[|parts| - 1], sep);
      assert front + [parts[|parts| - 1]] == parts;
    }
  }

  lemma {:induction false} ToLowerJoin(parts: seq<string>, sep: char)
    requires !('A' <= sep <= 'Z')
    ensures ToLower(Join(parts, sep)) == Join(MapLower(parts), sep)
    decreases |parts|
  {
    if |parts| > 1 {
      ToLowerJoin(parts[1..], sep);
      ToLowerConcat(parts[0] + [sep], Join(parts[1..], sep));
      ToLowerConcat(parts[0], [sep]);
      assert MapLower(parts)[1..] == MapLower(parts[1..]);
    }
  }

  function MapLower(parts: seq<string>): (r: seq<string>)
    ensures |r| == |parts|
  {
    seq(|parts|, i requires 0 <= i < |parts| => ToLower(parts[i]))
  }

  // ---------------------------------------------------------------------
  // Splitting on one character
  // ---------------------------------------------------------------------

  /** Every piece between separators, empty ones included. */
  function Pieces(s: string, sep: char): (r: seq<string>)
    ensures |r| >= 1
    ensures forall i, k :: 0 <= i < |r| && 0 <= k < |r[i]| ==> r[i][k] != sep && r[i][k] in s
    decreases |s|
  {
    if s == [] then [[]]
    else
      var rest := Pieces(s[1..], sep);
      if s[0] == sep then [[]] + rest else [[s[0]] + rest[0]] + rest[1..]
  }

  lemma {:induction false} PiecesWithoutSeparator(s: string, sep: char)
    requires sep !in s
    ensures Pieces(s, sep) == [s]
    decreases |s|
  {
    if s != [] {
      PiecesWithoutSeparator(s[1..], sep);
      assert [s[0]] + s[1..] == s;
    }
  }

  /** A separator cuts the text into the pieces before it and the pieces
      after it. */
  lemma {:induction false} PiecesAround(a: string, b: string, sep: char)
    ensures Pieces(a + [sep] + b, sep) == Pieces(a, sep) + Pieces(b, sep)
    decreases |a|
  {
    var s := a + [sep] + b;
    if a == [] {
      assert s[1..] == b;
    } else {
      assert s[1..] == a[1..] + [sep] + b;
      PiecesAround(a[1..], b, sep);
    }
  }

  /** A leading piece free of the separator is the first piece. */
  lemma PiecesCons(a: string, b: string, sep: char)
    requires sep !in a
    ensures Pieces(a + [sep] + b, sep) == [a] + Pieces(b, sep)
  {
    PiecesAround(a, b, sep);
    PiecesWithoutSeparator(a, sep);
  }

  /** Text cut at the first occurrence of a separator: the part before it
      and the part after it are determined. */
  lemma CutAtFirst(a1: string, b1: string, a2: string, b2: string, sep: char)
    requires sep !in a1 && sep !in a2
    requires a1 + [sep] + b1 == a2 + [sep] + b2
    ensures a1 == a2 && b1 == b2
  {
    var l := a1 + [sep] + b1;
    assert l[|a1|] == sep;
    assert l[|a2|] == sep;
    assert |a1| == |a2|;
    assert a1 == l[..|a1|] && a2 == l[..|a2|];
    assert b1 == l[|a1| + 1..] && b2 == l[|a2| + 1..];
  }

  lemma {:induction false} PiecesTrailingSeparator(s: string, sep: char)
    ensures Pieces(s + [sep], sep) == Pieces(s, sep) + [[]]
    decreases |s|
  {
    if s == [] {
      assert Pieces([sep], sep) == [[]] + Pieces([], sep);
    } else {
      assert (s + [sep])[1..] == s[1..] + [sep];
      PiecesTrailingSeparator(s[1..], sep);
    }
  }

  /** Joining the pieces gives the text back. */
  lemma {:induction false} JoinPieces(s: string, sep: char)
    ensures Join(Pieces(s, sep), sep) == s
    decreases |s|
  {
    if s != [] {
      var rest := Pieces(s[1..], sep);
      JoinPieces(s[1..], sep);
      if s[0] == sep {
        assert ([[]] + rest)[1..] == rest;
      } else {
        var r := [[s[0]] + rest[0]] + rest[1..];
        if |rest| > 1 {
          assert r[1..] == rest[1..];
          assert Join(rest, sep) == rest[0] + [sep] + Join(rest[1..], sep);
        }
      }
    }
  }

  /** Splitting the joined parts gives the parts back when no part holds the
      separator. */
  lemma {:induction false} PiecesOfJoin(parts: seq<string>, sep: char)
    requires |parts| >= 1
    requires forall i :: 0 <= i < |parts| ==> sep !in parts[i]
    ensures Pieces(Join(parts, sep), sep) == parts
    decreases |parts|
  {
    if |parts| == 1 {
      PiecesWithoutSeparator(parts[0], sep);
    } else {
      var rest := Join(parts[1..], sep);
      assert Join(parts, sep) == parts[0] + [sep] + rest;
      PiecesOfJoin(parts[1..], sep);
      PiecesAround(parts[0], rest, sep);
      PiecesWithoutSeparator(parts[0], sep);
      assert parts == [parts[0]] + parts[1..];
    }
  }

  function DropTrailingEmpty(xs: seq<string>): (r: seq<string>)
    ensures |r| <= |xs| && r == xs[..|r|]
    ensures forall i :: |r| <= i < |xs| ==> xs[i] == []
    ensures r == [] || r[|r| - 1] != []
    decreases |xs|
  {
    if xs != [] && xs[|xs| - 1] == [] then DropTrailingEmpty(xs[..|xs| - 1]) else xs
  }

  /** `s.split(sep)` for a separator that is not a regex metacharacter: the
      text itself when the separator does not occur (so "" gives [""]),
      otherwise the pieces without the trailing empty ones. */
  function Split(s: string, sep: char): (r: seq<string>)
    ensures forall i, k :: 0 <= i < |r| && 0 <= k < |r[i]| ==> r[i][k] != sep && r[i][k] in s
    ensures r == [] || r[|r| - 1] != [] || s == []
  {
    if sep !in s then [s] else DropTrailingEmpty(Pieces(s, sep))
  }

  /** A trailing separator changes nothing, except on the empty text, which
      splits into one empty part while the lone separator splits into none. */
  lemma SplitIgnoresTrailingSeparator(s: string, sep: char)
    ensures Split(s + [sep], sep) == Split(s, sep) <==> s != []
  {
    var t := s + [sep];
    assert sep in t by { assert t[|s|] == sep; }
    PiecesTrailingSeparator(s, sep);
    assert Pieces(t, sep)[..|Pieces(s, sep)|] == Pieces(s, sep);
    if sep in s {
      assert DropTrailingEmpty(Pieces(t, sep)) == DropTrailingEmpty(Pieces(s, sep));
    } else {
      PiecesWithoutSeparator(s, sep);
      assert Pieces(t, sep) == [s, []];
      if s == [] {
        assert DropTrailingEmpty([[], []]) == [];
        assert Split(s, sep) == [[]];
      } else {
        assert [s, []][..1] == [s];
        assert DropTrailingEmpty([s, []]) == [s];
      }
    }
  }

  /** Split undoes Join when every part is free of the separator and the
      last part is non-empty (an empty part before it is kept). */
  lemma SplitJoin(parts: seq<string>, sep: char)
    requires |parts| >= 1 && parts[|parts| - 1] != []
    requires forall i :: 0 <= i < |parts| ==> sep !in parts[i]
    ensures Split(Join(parts, sep), sep) == parts
  {
    PiecesOfJoin(parts, sep);
    if |parts| > 1 {
      assert Join(parts, sep)[|parts[0]|] == sep;
    }
  }

  // ---------------------------------------------------------------------
  // Decimal numbers (Integer.toString and the zero padding of dates)
  // ---------------------------------------------------------------------

  predicate IsDigit(c: char) {
    '0' <= c <= '9'
  }

  predicate AllDigits(s: string) {
    forall i :: 0 <= i < |s| ==> IsDigit(s[i])
  }

  function DigitChar(d: nat): (c: char)
    requires d < 10
  {
    ('0' as int + d) as char
  }

  function Pow10(n: nat): nat {
    if n == 0 then 1 else 10 * Pow10(n - 1)
  }

  /** Decimal digits of n, without leading zeros. */
  function Decimal(n: nat): (r: string)
    ensures r != [] && AllDigits(r)
    decreases n
  {
    if n < 10 then [DigitChar(n)] else Decimal(n / 10) + [DigitChar(n % 10)]
  }

  function Zeros(k: nat): (r: string)
    ensures |r| == k
  {
    seq(k, _ => '0')
  }

  /** n in decimal, left-padded with zeros to at least `width` digits (the
      "yyyy", "MM", ... fields of SimpleDateFormat). */
  function ZeroPad(n: nat, width: nat): (r: string)
    ensures AllDigits(r)
  {
    var d := Decimal(n);
    if |d| < width then Zeros(width - |d|) + d else d
  }

  /** `Integer.toString(i)`. */
  function IntToString(i: int): string {
    if i < 0 then "-" + Decimal(-i) else Decimal(i)
  }

  /** The value of a string of decimal digits. */
  function DecimalValue(s: string): nat
    requires AllDigits(s)
    decreases |s|
  {
    if s == [] then 0 else DecimalValue(s[..|s| - 1]) * 10 + (s[|s| - 1] as int - '0' as int)
  }

  lemma {:induction false} DecimalLength(n: nat, w: nat)
    requires 1 <= w && n < Pow10(w)
    ensures |Decimal(n)| <= w
    decreases w
  {
    if n >= 10 {
      assert w >= 2;
      assert n / 10 < Pow10(w - 1);
      DecimalLength(n / 10, w - 1);
    }
  }

  lemma {:induction false} DecimalValueOfDecimal(n: nat)
    ensures DecimalValue(Decimal(n)) == n
    decreases n
  {
    if n >= 10 {
      var d := Decimal(n);
      assert d[..|d| - 1] == Decimal(n / 10);
      DecimalValueOfDecimal(n / 10);
    }
  }

  lemma {:induction false} DecimalValueIgnoresZeros(k: nat, s: string)
    requires AllDigits(s)
    ensures DecimalValue(Zeros(k) + s) == DecimalValue(s)
    decreases |s|
  {
    var t := Zeros(k) + s;
    if s == [] {
      assert t == Zeros(k);
      ZerosValue(k);
    } else {
      assert t[..|t| - 1] == Zeros(k) + s[..|s| - 1];
      DecimalValueIgnoresZeros(k, s[..|s| - 1]);
    }
  }

  lemma {:induction false} ZerosValue(k: nat)
    ensures DecimalValue(Zeros(k)) == 0
    decreases k
  {
    if k > 0 {
      assert Zeros(k)[..k - 1] == Zeros(k - 1);
      ZerosValue(k - 1);
    }
  }

  /** Zero padding renders exactly `width` digits of every number below
      10^width, and reading the digits back gives the number. */
  lemma ZeroPadRoundTrip(n: nat, width: nat)
    requires 1 <= width && n < Pow10(width)
    ensures |ZeroPad(n, width)| == width
    ensures DecimalValue(ZeroPad(n, width)) == n
  {
    DecimalLength(n, width);
    DecimalValueOfDecimal(n);
    if |Decimal(n)| < width {
      DecimalValueIgnoresZeros(width - |Decimal(n)|, Decimal(n));
    }
  }

  // ---------------------------------------------------------------------
  // Hexadecimal (base16, section 8 of RFC 4648)
  // ---------------------------------------------------------------------

  predicate IsLowerHexDigit(c: char) {
    '0' <= c <= '9' || 'a' <= c <= 'f'
  }

  predicate AllLowerHex(s: string) {
    forall i :: 0 <= i < |s| ==> IsLowerHexDigit(s[i])
  }

  /** The digit of value d < 16 in base16, with upper- or lower-case letters. */
  function HexDigit(d: nat, upper: bool): char
    requires d < 16
  {
    if d < 10 then ('0' as int + d) as char
    else if upper then ('A' as int + d - 10) as char
    else ('a' as int + d - 10) as char
  }

  /** `DatatypeConverter.printHexBinary`: two upper-case digits per byte. */
  function PrintHexBinary(bytes: seq<byte>): (r: string)
    ensures |r| == 2 * |bytes|
  {
    if bytes == [] then ""
    else [HexDigit(bytes[0] / 16, true), HexDigit(bytes[0] % 16, true)] + PrintHexBinary(bytes[1..])
  }

  /** Base16 with lower-case digits. */
  function LowerHex(bytes: seq<byte>): (r: string)
    ensures |r| == 2 * |bytes|
    ensures AllLowerHex(r)
  {
    if bytes == [] then ""
    else [HexDigit(bytes[0] / 16, false), HexDigit(bytes[0] % 16, false)] + LowerHex(bytes[1..])
  }

  function HexDigitValue(c: char): nat
    requires IsLowerHexDigit(c)
  {
    if c <= '9' then c as int - '0' as int else c as int - 'a' as int + 10
  }

  /** Reads lower-case base16 back into bytes; odd length or another
      character is rejected. */
  function ParseLowerHex(s: string): Option<seq<byte>>
    decreases |s|
  {
    if s == [] then Some([])
    else if |s| == 1 || !IsLowerHexDigit(s[0]) || !IsLowerHexDigit(s[1]) then None
    else
      match ParseLowerHex(s[2..])
      case None => None
      case Some(rest) => Some([HexDigitValue(s[0]) * 16 + HexDigitValue(s[1])] + rest)
  }

  /** printHexBinary followed by toLowerCase is lower-case base16. */
  lemma {:induction false} LowerCasedHexBinary(bytes: seq<byte>)
    ensures ToLower(PrintHexBinary(bytes)) == LowerHex(bytes)
    decreases |bytes|
  {
    if bytes != [] {
      var b := bytes[0];
      var u := [HexDigit(b / 16, true), HexDigit(b % 16, true)];
      LowerCasedHexBinary(bytes[1..]);
      ToLowerConcat(u, PrintHexBinary(bytes[1..]));
      assert ToLower(u) == [HexDigit(b / 16, false), HexDigit(b % 16, false)];
    }
  }

  /** Lower-case base16 decodes to the bytes it encodes. */
  lemma {:induction false} LowerHexRoundTrip(bytes: seq<byte>)
    ensures ParseLowerHex(LowerHex(bytes)) == Some(bytes)
    decreases |bytes|
  {
    if bytes != [] {
      var s := LowerHex(bytes);
      var b := bytes[0];
      assert s[2..] == LowerHex(bytes[1..]);
      LowerHexRoundTrip(bytes[1..]);
      assert s[0] == HexDigit(b / 16, false) && s[1] == HexDigit(b % 16, false);
      assert HexDigitValue(s[0]) * 16 + HexDigitValue(s[1]) == b;
      assert [b] + bytes[1..] == bytes;
    }
  }

  /** Every text that decodes is the lower-case encoding of what it decodes
      to: the encoding is onto the well-formed texts. */
  lemma {:induction false} ParseLowerHexExact(s: string, bytes: seq<byte>)
    requires ParseLowerHex(s) == Some(bytes)
    ensures LowerHex(bytes) == s
    decreases |s|
  {
    if s != [] {
      var rest := ParseLowerHex(s[2..]).value;
      ParseLowerHexExact(s[2..], rest);
      assert bytes == [HexDigitValue(s[0]) * 16 + HexDigitValue(s[1])] + rest;
      var b := bytes[0];
      assert b / 16 == HexDigitValue(s[0]);
      assert b % 16 == HexDigitValue(s[1]);
      assert bytes[1..] == rest;
    }
  }
}

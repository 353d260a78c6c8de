/** Stripping, numbers and quoted keys of the restricted TOML reader, character by character. */
module MiniTomlScalars {
  import opened Ordering
  import opened Text
  import opened MiniToml
  import opened MiniTomlTheorems
  import opened MiniTomlLines

  // ----- Stripping ---------------------------------------------------------------------------

  /** A blank, one of the characters 9 to 13, or one of the characters 28 to 31. */
  predicate Spacing(c: char) {
    c == ' ' || 9 <= c as int <= 13 || 28 <= c as int <= 31
  }

  predicate AllSpacing(s: string) {
    forall c :: c in s ==> Spacing(c)
  }

  predicate FreeEdges(r: string) {
    r == "" || (!Spacing(r[0]) && !Spacing(r[|r| - 1]))
  }

  lemma SpacingExact(c: char)
    ensures Spacing(c) <==> PySpace(c)
  {
  }

  lemma {:induction false} LeftStripped(s: string) returns (a: string)
    ensures s == a + LStrip(s) && AllSpacing(a) && (LStrip(s) == "" || !Spacing(LStrip(s)[0]))
  {
    a := "";
    if s != "" && PySpace(s[0]) {
      var b := LeftStripped(s[1..]);
      a := [s[0]] + b;
    }
  }

  lemma {:induction false} RightStripped(s: string) returns (b: string)
    ensures s == RStrip(s) + b && AllSpacing(b) && (RStrip(s) == "" || !Spacing(RStrip(s)[|RStrip(s)| - 1]))
  {
    b := "";
    if s != "" && PySpace(s[|s| - 1]) {
      var c := RightStripped(s[..|s| - 1]);
      b := c + [s[|s| - 1]];
    }
  }

  lemma SpacingBlank(s: string)
    requires AllSpacing(s)
    ensures Blank(s)
  {
    forall c | c in s ensures PySpace(c) { SpacingExact(c); }
  }

  lemma StripsTo(a: string, r: string, b: string)
    requires AllSpacing(a) && AllSpacing(b) && FreeEdges(r)
    ensures Strip(a + (r + b)) == r
  {
    SpacingBlank(a);
    SpacingBlank(b);
    if r == "" {
      assert a + ("" + b) == (a + b) + "";
      LStripBlank(a + b, "");
    } else {
      SpacingExact(r[0]);
      SpacingExact(r[|r| - 1]);
      assert (r + b)[0] == r[0];
      LStripBlank(a, r + b);
      RStripBlank(r, b);
    }
  }

  lemma StripLeaves(s: string) returns (a: string, b: string)
    ensures s == a + (Strip(s) + b) && AllSpacing(a) && AllSpacing(b) && FreeEdges(Strip(s))
  {
    a := LeftStripped(s);
    var t := LStrip(s);
    b := RightStripped(t);
    if Strip(s) != "" { assert Strip(s)[0] == t[0]; }
  }

  ghost predicate Surrounded(s: string, r: string) {
    exists a, b :: s == a + (r + b) && AllSpacing(a) && AllSpacing(b)
  }

  /** Stripping takes the spacing from both ends and nothing else. */
  lemma StripExact(s: string, r: string)
    ensures Strip(s) == r <==> FreeEdges(r) && Surrounded(s, r)
  {
    var a0, b0 := StripLeaves(s);
    if FreeEdges(r) && Surrounded(s, r) {
      var a, b :| s == a + (r + b) && AllSpacing(a) && AllSpacing(b);
      StripsTo(a, r, b);
    }
  }

  // ----- Integers ------------------------------------------------------------------------------

  predicate Figure(c: char) {
    '0' <= c <= '9'
  }

  predicate Figures(s: string) {
    s != "" && forall c :: c in s ==> Figure(c)
  }

  predicate AllFigures(groups: seq<string>) {
    groups != [] && forall g :: g in groups ==> Figures(g)
  }

  function Flat(groups: seq<string>): string {
    if groups == [] then "" else groups[0] + Flat(groups[1..])
  }

  predicate Sign(s: string) {
    s == "" || s == "+" || s == "-"
  }

  lemma FiguresPlain(g: string)
    requires Figures(g)
    ensures PyDigits(g) && '_' !in g && DropUnderscores(g) == g
  {
    assert g[0] in g && g[|g| - 1] in g;
    NothingDropped(g);
  }

  lemma {:induction false} DropConcat(a: string, b: string)
    ensures DropUnderscores(a + b) == DropUnderscores(a) + DropUnderscores(b)
  {
    if a == "" {
      assert a + b == b;
    } else {
      TailAppend(a, b);
      DropConcat(a[1..], b);
    }
  }

  lemma DigitsAround(g: string, r: string)
    requires Figures(g) && PyDigits(r)
    ensures PyDigits(g + (['_'] + r))
  {
    FiguresPlain(g);
    var s := g + (['_'] + r);
    assert s[0] == g[0] && s[|s| - 1] == r[|r| - 1];
    forall k | 0 <= k < |g| ensures s[k] != '_' { assert s[k] == g[k] && g[k] in g; }
    assert s[|g| + 1] == r[0];
    forall k | |g| + 1 < k < |s| && s[k] == '_' ensures s[k - 1] != '_' {
      assert s[k] == r[k - |g| - 1] && s[k - 1] == r[k - |g| - 2];
    }
  }

  lemma DropJoined(g: string, r: string)
    requires Figures(g)
    ensures DropUnderscores(g + (['_'] + r)) == g + DropUnderscores(r)
  {
    FiguresPlain(g);
    DropConcat(g, ['_'] + r);
    assert (['_'] + r)[1..] == r;
  }

  lemma {:induction false} GroupsRead(groups: seq<string>)
    requires AllFigures(groups)
    ensures PyDigits(Join(groups, '_')) && DropUnderscores(Join(groups, '_')) == Flat(groups)
  {
    if |groups| == 1 {
      FiguresPlain(groups[0]);
      assert Flat(groups[1..]) == "";
    } else {
      GroupsRead(groups[1..]);
      DigitsAround(groups[0], Join(groups[1..], '_'));
      DropJoined(groups[0], Join(groups[1..], '_'));
    }
  }

  lemma FirstGroup(t: string, i: nat)
    requires PyDigits(t) && i == FirstIndex(t, '_') && i < |t|
    ensures Figures(t[..i]) && PyDigits(t[i + 1..])
  {
    var g, r := t[..i], t[i + 1..];
    assert i > 0 && i < |t| - 1;
    forall c | c in g ensures Figure(c) {
      var k :| 0 <= k < i && g[k] == c;
      assert t[k] in t;
    }
    assert t[i + 1] in t && t[i + 1] != '_';
    forall k | 0 < k < |r| && r[k] == '_' ensures r[k - 1] != '_' { assert t[i + 1 + k] == r[k]; }
  }

  lemma {:induction false} GroupsExist(t: string) returns (groups: seq<string>)
    requires PyDigits(t)
    ensures AllFigures(groups) && t == Join(groups, '_')
    decreases |t|
  {
    var i := FirstIndex(t, '_');
    if i == |t| {
      groups := [t];
      forall c | c in t ensures Figure(c) {
        var k :| 0 <= k < |t| && t[k] == c;
      }
    } else {
      FirstGroup(t, i);
      var rest := GroupsExist(t[i + 1..]);
      groups := [t[..i]] + rest;
      assert groups[1..] == rest;
    }
  }

  lemma UnsignedGroups(groups: seq<string>)
    requires AllFigures(groups)
    ensures Unsigned(Join(groups, '_')) == Some(DigitsValue(Flat(groups)))
    ensures IsDigit(Join(groups, '_')[0])
  {
    GroupsRead(groups);
  }

  function Signed(sign: string, n: nat): int {
    if sign == "-" then 0 - n else n
  }

  lemma SignedParses(sign: string, t: string)
    requires Sign(sign) && PyDigits(t)
    ensures ParseInt(sign + t) == Some(Signed(sign, DigitsValue(DropUnderscores(t))))
    ensures Tidy(sign + t) && (IsDigit((sign + t)[0]) || (sign + t)[0] == '+' || (sign + t)[0] == '-')
  {
    var p := sign + t;
    if sign == "" {
      assert p == t;
    } else {
      assert p[1..] == t;
    }
    assert p[|p| - 1] == t[|t| - 1];
  }

  lemma ScalarParses(p: string)
    requires Tidy(p) && (IsDigit(p[0]) || p[0] == '+' || p[0] == '-')
    ensures ParseValue(p) == match ParseInt(p) case Some(n) => Int(n) case None => Bare(p)
  {
    TidyStrip(p);
    assert "true"[0] == 't' && "false"[0] == 'f';
  }

  /** Groups of figures joined by single underscores, with or without a sign, are read as the number
      their figures write. */
  lemma NumeralReads(sign: string, groups: seq<string>)
    requires Sign(sign) && AllFigures(groups)
    ensures ParseValue(sign + Join(groups, '_')) ==
            Int(Signed(sign, DigitsValue(Flat(groups))))
  {
    GroupsRead(groups);
    SignedParses(sign, Join(groups, '_'));
    ScalarParses(sign + Join(groups, '_'));
  }

  /** One figure writes its distance from '0'; one more behind a number makes ten of it and adds. */
  lemma DecimalReads(t: string, c: char)
    requires Figures(t) && Figure(c)
    ensures ParseValue([c]) == Int(c as int - 48)
    ensures ParseValue(t).Int? && ParseValue(t + [c]) == Int(10 * ParseValue(t).n + (c as int - 48))
  {
    PlainNumeral([c]);
    PlainNumeral(t);
    PlainNumeral(t + [c]);
    assert (t + [c])[..|t|] == t;
    assert DigitsValue([c]) == DigitValue(c) by { assert [c][..0] == ""; }
  }

  lemma PlainNumeral(t: string)
    requires Figures(t)
    ensures ParseValue(t) == Int(DigitsValue(t))
  {
    NumeralReads("", [t]);
    assert Flat([t]) == t by { assert Flat([t][1..]) == ""; }
    assert "" + Join([t], '_') == t;
  }

  ghost predicate Numeral(t: string) {
    exists sign, groups :: Sign(sign) && AllFigures(groups) && t == sign + Join(groups, '_')
  }

  lemma IntIsScalar(t: string)
    requires Tidy(t) && ParseValue(t).Int?
    ensures ParseInt(t).Some?
  {
    TidyStrip(t);
  }

  /** Nothing else is read as an integer. */
  lemma IntExact(t: string)
    requires t != "" && FreeEdges(t)
    ensures ParseValue(t).Int? <==> Numeral(t)
  {
    SpacingExact(t[0]);
    SpacingExact(t[|t| - 1]);
    if ParseValue(t).Int? {
      IntIsScalar(t);
      var sign := if t[0] == '+' then "+" else if t[0] == '-' then "-" else "";
      var rest := t[|sign|..];
      assert t == sign + rest;
      assert PyDigits(rest);
      var groups := GroupsExist(rest);
      assert Sign(sign) && AllFigures(groups) && t == sign + Join(groups, '_');
    }
    if Numeral(t) {
      var sign, groups :| Sign(sign) && AllFigures(groups) && t == sign + Join(groups, '_');
      NumeralReads(sign, groups);
    }
  }

  /** A text that opens none of the other forms is one of the two truth values, a number, or itself. */
  lemma WordReads(t: string)
    requires t != "" && FreeEdges(t)
    requires t[0] != '#' && !(t[0] == t[|t| - 1] && (t[0] == '"' || t[0] == '\''))
             && !(t[0] == '[' && t[|t| - 1] == ']')
    ensures t == "true" ==> ParseValue(t) == Bool(true)
    ensures t == "false" ==> ParseValue(t) == Bool(false)
    ensures t != "true" && t != "false" && !Numeral(t) ==> ParseValue(t) == Bare(t)
  {
    SpacingExact(t[0]);
    SpacingExact(t[|t| - 1]);
    TidyStrip(t);
    IntExact(t);
  }

  // ----- Quoted keys -----------------------------------------------------------------------------

  /** The key of a piece may stand between double quotes, which are not part of it; then it may hold
      blanks and brackets. */
  lemma QuotedKey(k: string, text: string)
    requires '=' !in k && (k == "" || (k[0] != '"' && k[|k| - 1] != '"')) && Tidy(text)
    ensures var piece := ("\"" + (k + "\"")) + (" = " + text);
            '=' in piece && KeyText(piece) == k && ValueText(piece) == text
  {
    var q := "\"" + (k + "\"");
    var piece := q + (" = " + text);
    assert piece[|q| + 1] == '=';
    forall i | 0 <= i < |q| ensures piece[i] != '=' {
      assert piece[i] == q[i];
      assert 0 < i <= |k| ==> q[i] == k[i - 1] && k[i - 1] in k;
    }
    assert FirstIndex(piece, '=') == |q| + 1;
    assert piece[..|q| + 1] == q + " ";
    BlankBehind(q);
    QuotesStripped(k);
    assert piece[|q| + 2..] == " " + text;
    StripBlank(text);
  }

  lemma BlankBehind(q: string)
    requires Tidy(q)
    ensures Strip(q + " ") == q
  {
    assert (q + " ")[..|q|] == q;
    assert LStrip(q + " ") == q + " ";
    assert RStrip(q + " ") == RStrip(q);
  }

  lemma QuotesStripped(k: string)
    requires k == "" || (k[0] != '"' && k[|k| - 1] != '"')
    ensures StripQuotes("\"" + (k + "\"")) == k
  {
    var q := "\"" + (k + "\"");
    assert q[0] == '"' && q[1..] == k + "\"";
    assert LStripQuotes(q) == LStripQuotes(k + "\"");
    if k == "" {
      assert LStripQuotes("\"") == LStripQuotes("\""[1..]);
      assert LStripQuotes("") == "";
    } else {
      assert LStripQuotes(k + "\"") == k + "\"";
      assert (k + "\"")[..|k|] == k;
      assert RStripQuotes(k + "\"") == RStripQuotes(k);
    }
  }

  // ----- Brackets that are not looked at ----------------------------------------------------------

  /** The last character of an inline table is taken for its brace, whatever it is, */
  lemma TableLastChar(inner: string, c: char, d: char)
    ensures ParseElement("{" + (inner + [c])) == ParseElement("{" + (inner + [d]))
  {
    assert Inner("{" + (inner + [c])) == inner == Inner("{" + (inner + [d]));
  }

  /** the last character of a header for its bracket, */
  lemma HeaderLastChar(body: string, c: char, d: char)
    ensures HeaderPath("[" + (body + [c])) == HeaderPath("[" + (body + [d]))
  {
    assert Inner("[" + (body + [c])) == body == Inner("[" + (body + [d]));
  }

  /** and a piece of a table that assigns nothing is passed over. */
  lemma PieceSkipped(pieces: seq<string>, piece: string, room: nat)
    requires '=' !in piece && forall p :: p in pieces + [piece] ==> |p| < room
    ensures ParseEntries(pieces + [piece], room) == ParseEntries(pieces, room)
  {
    assert (pieces + [piece])[..|pieces|] == pieces;
  }
}

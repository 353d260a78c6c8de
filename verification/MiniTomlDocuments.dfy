/** Documents: assignments, headers and nested tables read back from their printed lines. */
module MiniTomlDocuments {
  import opened Ordering
  import opened MiniToml
  import opened MiniTomlTheorems
  import opened MiniTomlLines
  import MiniTomlScalars

  // ----- One element per line -----------------------------------------------------------------

  function Leading(items: seq<string>): (r: seq<string>)
    ensures |r| == |items| && forall i :: 0 <= i < |r| ==> r[i] == " " + items[i]
  {
    if items == [] then [] else [" " + items[0]] + Leading(items[1..])
  }

  /** The text of an array printed one element per line, each with its comma, and the bracket
      on a line of its own. */
  function SpreadText(items: seq<string>): string {
    "[" + (Join(Leading(items) + [" "], ',') + "]")
  }

  /** The lines of such an array behind the opening bracket. */
  function SpreadChunks(items: seq<string>, around: seq<Around>): (r: seq<Chunk>)
    requires |around| == |items| + 1
    ensures |r| == |items| + 1
    ensures forall i :: 0 <= i < |r| ==> r[i] == Chunk(if i < |items| then items[i] + "," else "]", around[i])
  {
    if items == [] then [Chunk("]", around[0])]
    else [Chunk(items[0] + ",", around[0])] + SpreadChunks(items[1..], around[1..])
  }

  lemma {:induction false} SpacedSpread(acc: string, items: seq<string>, around: seq<Around>)
    requires |around| == |items| + 1
    ensures Spaced(acc, SpreadChunks(items, around)) == acc + (Join(Leading(items) + [" "], ',') + "]")
    decreases |items|
  {
    var cs := SpreadChunks(items, around);
    if items == [] {
      assert cs[1..] == [];
      assert Leading(items) + [" "] == [" "];
    } else {
      var e, rest := items[0], Join(Leading(items[1..]) + [" "], ',');
      assert cs[1..] == SpreadChunks(items[1..], around[1..]);
      var next := acc + (" " + (e + ","));
      SpacedSpread(next, items[1..], around[1..]);
      var all := Leading(items) + [" "];
      assert all[0] == " " + e && all[1..] == Leading(items[1..]) + [" "];
      assert next + (rest + "]") == acc + (((" " + e) + ([','] + rest)) + "]");
    }
  }

  lemma {:induction false} TrimmedLeading(items: seq<string>)
    requires forall p :: p in items ==> Tidy(p)
    ensures Trimmed(Leading(items) + [" "]) == items
    decreases |items|
  {
    var all := Leading(items) + [" "];
    if items == [] {
      assert all == [" "] && [" "][1..] == [];
      assert Strip(" ") == "";
    } else {
      assert all[0] == " " + items[0] && all[1..] == Leading(items[1..]) + [" "];
      StripBlank(items[0]);
      TrimmedLeading(items[1..]);
      assert items == [items[0]] + items[1..];
    }
  }

  /** Blanks around a text do not change its items. */
  lemma ItemsStripped(s: string)
    ensures Items(Strip(s)) == Items(s)
  {
    ItemsLeft(s);
    ItemsRight(LStrip(s));
  }

  lemma {:induction false} ItemsLeft(s: string)
    ensures Items(LStrip(s)) == Items(s)
    decreases |s|
  {
    if s != "" && PySpace(s[0]) {
      ItemsLeft(s[1..]);
      var rest := Pieces(START, s[1..]);
      assert Pieces(START, s) == PrependFirst(s[0], rest);
      StripLeft(s[0], rest[0]);
    }
  }

  lemma StripLeft(c: char, x: string)
    requires PySpace(c)
    ensures Strip([c] + x) == Strip(x)
  {
    assert ([c] + x)[1..] == x;
  }

  function AttachLast(pieces: seq<string>, c: char): seq<string>
    requires pieces != []
  {
    pieces[..|pieces| - 1] + [pieces[|pieces| - 1] + [c]]
  }

  lemma PushEmpty(st: Scan, c: char)
    requires c != ','
    ensures Pieces(st, [c]) == [[c]]
  {
    assert [c][1..] == "";
    assert Pieces(Next(st, c), "") == [""];
    assert [c] + "" == [c];
  }

  lemma AttachPrepend(a: char, rest: seq<string>, c: char)
    requires rest != []
    ensures PrependFirst(a, AttachLast(rest, c)) == AttachLast(PrependFirst(a, rest), c)
  {
    if |rest| == 1 { AppendAssociative([a], rest[0], [c]); }
  }

  lemma AttachSecond(rest: seq<string>, c: char)
    requires rest != []
    ensures AttachLast([""] + rest, c) == [""] + AttachLast(rest, c)
  {
  }

  lemma {:induction false} PiecesPush(st: Scan, s: string, c: char)
    requires c != ','
    ensures Pieces(st, s + [c]) == AttachLast(Pieces(st, s), c)
    decreases |s|
  {
    if s == "" {
      assert s + [c] == [c];
      PushEmpty(st, c);
      assert AttachLast([""], c) == [[c]];
    } else {
      TailAppend(s, [c]);
      if Stops(Comma, st, s[0]) {
        PiecesPush(st, s[1..], c);
        AttachSecond(Pieces(st, s[1..]), c);
      } else {
        PiecesPush(Next(st, s[0]), s[1..], c);
        AttachPrepend(s[0], Pieces(Next(st, s[0]), s[1..]), c);
      }
    }
  }

  lemma {:induction false} StripRight(x: string, c: char)
    requires PySpace(c)
    ensures Strip(x + [c]) == Strip(x)
    decreases |x|
  {
    if x != "" && PySpace(x[0]) {
      TailAppend(x, [c]);
      StripRight(x[1..], c);
    } else if x != "" {
      assert LStrip(x + [c]) == x + [c];
      assert (x + [c])[..|x|] == x;
    } else {
      assert "" + [c] == [c] && [c][1..] == "";
    }
  }

  lemma {:induction false} ItemsRight(s: string)
    ensures Items(RStrip(s)) == Items(s)
    decreases |s|
  {
    if s != "" && PySpace(s[|s| - 1]) {
      var init, c := s[..|s| - 1], s[|s| - 1];
      SplitLast(s);
      ItemsRight(init);
      PiecesPush(START, init, c);
      var pieces := Pieces(START, init);
      var front, last := pieces[..|pieces| - 1], pieces[|pieces| - 1];
      SplitLast(pieces);
      TrimmedPush(front, last);
      TrimmedPush(front, last + [c]);
      StripRight(last, c);
    }
  }

  lemma LeadingClosed(items: seq<string>)
    requires forall p :: p in items ==> Solid(p)
    ensures forall p :: p in Leading(items) + [" "] ==> Closed(p)
  {
    forall p | p in Leading(items) + [" "] ensures Closed(p) {
      NeutralPasses(0, " ");
      if p != " " {
        var i :| 0 <= i < |items| && p == Leading(items)[i];
        assert items[i] in items;
        assert Passes(0, items[i]);
        PassesConcat(0, " ", items[i]);
      }
    }
  }

  lemma InsideSpread(items: seq<string>)
    requires forall p :: p in items ==> Solid(p)
    ensures Items(Strip(Inner(SpreadText(items)))) == items
  {
    var all := Leading(items) + [" "];
    var j := Join(all, ',');
    assert Inner(SpreadText(items)) == j;
    ItemsStripped(j);
    LeadingClosed(items);
    PiecesOfJoin(all);
    TrimmedLeading(items);
  }

  lemma {:induction false} ShorterThanJoin(pieces: seq<string>)
    ensures forall i :: 0 <= i < |pieces| ==> |pieces[i]| <= |Join(pieces, ',')|
  {
    if |pieces| > 1 { ShorterThanJoin(pieces[1..]); }
  }

  lemma SpreadRoom(items: seq<string>)
    ensures forall i :: 0 <= i < |items| ==> |items[i]| < |SpreadText(items)|
  {
    var all := Leading(items) + [" "];
    ShorterThanJoin(all);
    forall i | 0 <= i < |items| ensures |items[i]| < |SpreadText(items)| {
      assert all[i] == " " + items[i];
    }
  }

  lemma SpreadTidy(items: seq<string>)
    ensures Strip(SpreadText(items)) == SpreadText(items) && Wrapped(SpreadText(items), '[', ']')
  {
    TidyStrip(SpreadText(items));
  }

  /** A bracketed text is read as the array of its items. */
  lemma WrappedParses(text: string, items: seq<string>)
    requires Strip(text) == text && Wrapped(text, '[', ']') && Items(Strip(Inner(text))) == items
    requires forall i :: 0 <= i < |items| ==> |items[i]| < |text|
    ensures ParseValue(text) == Array(ParseElements(items, |text|))
  {
  }

  lemma ItemsRead(values: seq<Value>, text: string)
    requires PrintableAll(values) && forall i :: 0 <= i < |values| ==> |PrintAll(values)[i]| < |text|
    ensures ParseElements(PrintAll(values), |text|) == values
  {
    RoundTripAll(values, |text|);
  }

  /** An array printed one element per line reads back. */
  lemma SpreadParses(values: seq<Value>)
    requires PrintableAll(values)
    ensures ParseValue(SpreadText(PrintAll(values))) == Array(values)
  {
    var items := PrintAll(values);
    var text := SpreadText(items);
    PrintAllSolid(values);
    SpreadTidy(items);
    InsideSpread(items);
    SpreadRoom(items);
    WrappedParses(text, items);
    ItemsRead(values, text);
  }

  lemma SpreadGood(items: seq<string>, around: seq<Around>)
    requires |around| == |items| + 1
    requires (forall p :: p in items ==> Solid(p)) && forall a :: a in around ==> GoodAround(a)
    ensures GoodChunks(SpreadChunks(items, around))
    ensures RunsOn("[", SpreadChunks(items, around)) && Ends("[", SpreadChunks(items, around))
  {
    var cs := SpreadChunks(items, around);
    forall c | c in cs ensures GoodChunk(c) {
      var i :| 0 <= i < |cs| && c == cs[i];
      assert around[i] in around;
      if i < |items| {
        assert items[i] in items;
        SolidQuiet(items[i]);
        CommaQuiet();
        QuietConcat(items[i], ",");
      } else {
        BracketQuiet();
      }
    }
  }

  lemma CommaQuiet()
    ensures Quiet(",")
  {
    assert ","[1..] == "";
  }

  lemma BracketQuiet()
    ensures Quiet("]") && Quiet("[")
  {
    assert "]"[1..] == "" && "["[1..] == "";
  }

  /** In any state of the reader, an array printed one element per line assigns its value. */
  lemma SpreadAssigns(a: Around, key: string, values: seq<Value>, around: seq<Around>, lines: seq<string>,
                      root: seq<Entry>, cur: seq<string>)
    requires GoodAround(a) && PlainKey(key) && PrintableAll(values)
    requires |around| == |values| + 1 && forall b :: b in around ==> GoodAround(b)
    ensures ReadLines([Framed(a, KeyLine(key, "["))]
                      + (Physical(SpreadChunks(PrintAll(values), around)) + lines), root, cur) ==
            match Assign(root, cur, key, Array(values))
            case None => Raised
            case Some(next) => ReadLines(lines, next, cur)
  {
    var items := PrintAll(values);
    PrintAllSolid(values);
    SpreadGood(items, around);
    BracketQuiet();
    BrokenAssigns(a, key, "[", SpreadChunks(items, around), lines, root, cur);
    SpacedSpread("[", items, around);
    SpreadParses(values);
  }

  // ----- An array that is misread ---------------------------------------------------------------

  function Quoted(t: string): string {
    Enclosed('"', t)
  }

  /** An array whose inner bracket is not closed holds bare text. */
  lemma UnclosedItem(t: string)
    requires '"' !in t
    ensures ParseValue("[[" + (Quoted(t) + "]")) == Array([Bare("[" + Quoted(t))])
  {
    var q := Quoted(t);
    var open := "[" + q;
    var text := "[[" + (q + "]");
    StrSolid('"', t);
    assert Tidy(open) && Tidy(text);
    TidyStrip(text);
    assert Inner(text) == open;
    TidyStrip(open);
    OpenItem(q);
    OneElement(open, |text|);
    BareText(open);
  }

  lemma OneElement(e: string, room: nat)
    requires |e| < room
    ensures ParseElements([e], room) == [ParseElement(e)]
  {
    assert [e][..0] == [];
    assert ParseElements([], room) == [];
  }

  /** One open bracket in front of a text keeps it a single item. */
  lemma OpenItem(q: string)
    requires Solid(q)
    ensures Items("[" + q) == ["[" + q]
  {
    var open := "[" + q;
    assert open[1..] == q && Passes(1, q);
    assert NeverStops(Comma, START, open);
    PiecesConcat(START, open, "");
    assert open + "" == open;
    assert Pieces(After(START, open), "") == [""];
    AttachHead(open, []);
    assert [open] + [] == [open];
    TrimmedTidy([open]);
  }

  lemma NotANumber(t: string)
    requires t != "" && t[0] == '['
    ensures ParseInt(t) == None
  {
  }

  lemma NotAWord(t: string)
    requires t != "" && t[0] == '['
    ensures t != "true" && t != "false"
  {
    assert "true"[0] == 't' && "false"[0] == 'f';
  }

  lemma ScalarText(t: string)
    requires Tidy(t) && t[0] != '#' && t[0] != '"' && t[0] != '\'' && !Wrapped(t, '[', ']')
    ensures ParseValue(t) == ParseScalar(t)
  {
    TidyStrip(t);
  }

  lemma BareScalar(t: string)
    requires t != "" && t[0] == '['
    ensures ParseScalar(t) == Bare(t)
  {
    NotANumber(t);
    NotAWord(t);
  }

  lemma BareText(t: string)
    requires Tidy(t) && t[0] == '[' && t[|t| - 1] != ']'
    ensures ParseValue(t) == Bare(t)
  {
    ScalarText(t);
    BareScalar(t);
  }

  /** Two lines that together spell an array of two arrays assign something else: the first
      line ends in a bracket, so the value is cut there and the second line is dropped. */
  lemma InnerBracketCuts(key: string, s: string, t: string)
    requires PlainKey(key) && '"' !in s && '"' !in t && '=' !in t
    ensures var first, second := "[[" + (Quoted(s) + "]"), ", [" + (Quoted(t) + "]]");
            ReadLines([KeyLine(key, first), second], [], []) ==
            Parsed([Entry(key, Array([Bare("[" + Quoted(s))]))])
  {
    var first, second := "[[" + (Quoted(s) + "]"), ", [" + (Quoted(t) + "]]");
    var plain := Around("", "");
    var lines := [KeyLine(key, first), second];
    FirstQuiet(s);
    KeyLineReads(plain, key, first);
    assert Framed(plain, KeyLine(key, first)) == KeyLine(key, first);
    assert lines[1..] == [second];
    ContinuedStop([second], first);
    UnclosedItem(s);
    SecondSkipped(t, [Entry(key, ParseValue(first))], []);
    assert Assign([], [], key, ParseValue(first)) == Some([Entry(key, ParseValue(first))]);
    assert [second][0..] == [second];
  }

  lemma FirstQuiet(s: string)
    requires '"' !in s
    ensures Quiet("[[" + (Quoted(s) + "]"))
  {
    var q := Quoted(s);
    StrSolid('"', s);
    SolidQuiet(q);
    BracketQuiet();
    QuietConcat("[", "[");
    assert "[" + "[" == "[[";
    QuietConcat(q, "]");
    QuietConcat("[[", q + "]");
  }

  lemma SecondQuiet(t: string)
    requires '"' !in t
    ensures Quiet(", [" + (Quoted(t) + "]]"))
  {
    StrSolid('"', t);
    SolidQuiet(Quoted(t));
    BracketQuiet();
    CommaQuiet();
    NeutralPasses(0, " ");
    QuietConcat(" ", "[");
    QuietConcat(",", " [");
    assert "," + (" " + "[") == ", [";
    QuietConcat("]", "]");
    assert "]" + "]" == "]]";
    QuietConcat(Quoted(t), "]]");
    QuietConcat(", [", Quoted(t) + "]]");
  }

  /** A line that is no header and assigns nothing is skipped. */
  lemma LoneLineSkipped(line: string, root: seq<Entry>, cur: seq<string>)
    requires Logical(line) == line && line != "" && line[0] == ',' && '=' !in line
    ensures ReadLines([line], root, cur) == Parsed(root)
  {
    var lines: seq<string> := [line];
    assert lines[1..] == [];
  }

  lemma SecondLogical(t: string)
    requires '"' !in t
    ensures var second := ", [" + (Quoted(t) + "]]"); Logical(second) == second
  {
    var second := ", [" + (Quoted(t) + "]]");
    SecondQuiet(t);
    CommentDropped(Around("", ""), second);
    assert Framed(Around("", ""), second) == second;
  }

  lemma SecondSkipped(t: string, root: seq<Entry>, cur: seq<string>)
    requires '"' !in t && '=' !in t
    ensures ReadLines([", [" + (Quoted(t) + "]]")], root, cur) == Parsed(root)
  {
    var second := ", [" + (Quoted(t) + "]]");
    SecondLogical(t);
    assert second[0] == ',' && '=' !in second;
    LoneLineSkipped(second, root, cur);
  }

  function OneArray(t: string): string {
    "[" + (Quoted(t) + "]")
  }

  lemma OnePrinted(v: Value)
    requires PrintableElement(v)
    ensures PrintableAll([v]) && PrintAll([v]) == [Print(v)]
  {
    assert [v][..0] == [] && [v][0] == v;
    assert PrintableAll([]) && PrintAll([]) == [];
    assert [] + [Print(v)] == [Print(v)];
  }

  lemma OneArrayReads(t: string)
    requires '"' !in t
    ensures Solid(OneArray(t)) && ParseElement(OneArray(t)) == Array([Str(t)])
  {
    var v := Array([Str(t)]);
    OnePrinted(Str(t));
    assert Padded([Quoted(t)]) == [Quoted(t)];
    assert Print(v) == OneArray(t);
    PrintSolid(v);
    RoundTrip(v);
  }

  lemma PairItems(a: string, b: string)
    requires Solid(a) && Solid(b)
    ensures Items(Strip((a + " ") + ([','] + (" " + b)))) == [a, b]
  {
    var pieces := [a + " ", " " + b];
    assert pieces[1..] == [" " + b];
    assert Join(pieces, ',') == (a + " ") + ([','] + (" " + b));
    ItemsStripped(Join(pieces, ','));
    assert Passes(0, a) && Passes(0, b);
    NeutralPasses(0, " ");
    PassesConcat(0, a, " ");
    PassesConcat(0, " ", b);
    PiecesOfJoin(pieces);
    StripRight(a, ' ');
    TidyStrip(a);
    StripBlank(b);
    assert [" " + b][1..] == [];
    assert Trimmed([" " + b]) == [b];
  }

  lemma OneLineText(s: string, t: string)
    ensures ("[[" + (Quoted(s) + "]")) + (" " + (", [" + (Quoted(t) + "]]"))) ==
            "[" + (((OneArray(s) + " ") + ([','] + (" " + OneArray(t)))) + "]")
  {
    var q, r := Quoted(s), Quoted(t);
    assert "[[" + (q + "]") == "[" + OneArray(s);
    assert ", [" + (r + "]]") == "," + (" " + (OneArray(t) + "]"));
  }

  lemma ListText(inner: string)
    ensures Strip("[" + (inner + "]")) == "[" + (inner + "]") && Inner("[" + (inner + "]")) == inner
  {
    TidyStrip("[" + (inner + "]"));
  }

  /** On one line the same text is the array of the two arrays. */
  lemma OneLineWhole(s: string, t: string)
    requires '"' !in s && '"' !in t
    ensures ParseValue(("[[" + (Quoted(s) + "]")) + (" " + (", [" + (Quoted(t) + "]]")))) ==
            Array([Array([Str(s)]), Array([Str(t)])])
  {
    var a, b := OneArray(s), OneArray(t);
    OneArrayReads(s);
    OneArrayReads(t);
    OneLineText(s, t);
    var inner := (a + " ") + ([','] + (" " + b));
    ListText(inner);
    PairItems(a, b);
    TwoElements(a, b, |"[" + (inner + "]")|);
  }

  lemma TwoElements(a: string, b: string, room: nat)
    requires |a| < room && |b| < room
    ensures ParseElements([a, b], room) == [ParseElement(a), ParseElement(b)]
  {
    assert [a, b][..1] == [a];
    OneElement(a, room);
  }

  // ----- One-line assignments -----------------------------------------------------------------------

  lemma FinishedValue(v: Value, lines: seq<string>)
    requires Printable(v)
    ensures Continued(lines, Print(v)) == (Print(v), 0)
  {
    match v
    case Int(n) => IntEdges(n);
    case Bool(b) =>
    case Str(s) =>
    case Array(items) =>
  }

  /** In any state of the reader, a printed "key = value" line, indented and commented or not,
      assigns its value at its key. */
  lemma LineAssigns(a: Around, key: string, value: Value, rest: seq<string>, root: seq<Entry>, cur: seq<string>)
    requires GoodAround(a) && PlainKey(key) && Printable(value)
    ensures ReadLines([Framed(a, KeyLine(key, Print(value)))] + rest, root, cur) ==
            match Assign(root, cur, key, value)
            case None => Raised
            case Some(next) => ReadLines(rest, next, cur)
  {
    PrintSolid(value);
    SolidQuiet(Print(value));
    KeyLineReads(a, key, Print(value));
    FinishedValue(value, rest);
    RoundTrip(value);
    assert ([Framed(a, KeyLine(key, Print(value)))] + rest)[1..] == rest;
    assert rest[0..] == rest;
  }

  // ----- Headers --------------------------------------------------------------------------------------

  predicate Segment(s: string) {
    PlainKey(s) && '.' !in s
  }

  lemma {:induction false} JoinChars(parts: seq<string>)
    requires forall p :: p in parts ==> Segment(p)
    ensures forall c :: c in Join(parts, '.') ==> Neutral(c) && !PySpace(c)
    ensures parts != [] ==> Join(parts, '.') != ""
  {
    if parts != [] {
      assert Segment(parts[0]);
      JoinChars(parts[1..]);
    }
  }

  lemma {:induction false} StripSegments(parts: seq<string>)
    requires forall p :: p in parts ==> Segment(p)
    ensures StripAll(parts) == parts
  {
    if parts != [] {
      var p := parts[0];
      assert Segment(p) && p[0] in p && p[|p| - 1] in p;
      TidyStrip(p);
      StripSegments(parts[1..]);
    }
  }

  lemma HeaderSolid(body: string)
    requires body != "" && forall c :: c in body ==> Neutral(c) && !PySpace(c)
    ensures Solid("[" + (body + "]")) && Strip(body) == body
  {
    forall e: nat ensures Passes(e, "[" + (body + "]")) {
      NeutralPasses(e + 1, body);
      BracketPasses(e, '[', body, ']');
    }
    assert body[0] in body && body[|body| - 1] in body;
    TidyStrip(body);
  }

  function Header(path: seq<string>): string {
    "[" + (Join(path, '.') + "]")
  }

  ghost predicate GoodPath(path: seq<string>) {
    forall p :: p in path ==> Segment(p)
  }

  lemma HeaderReads(a: Around, path: seq<string>)
    requires path != [] && GoodAround(a) && GoodPath(path)
    ensures Logical(Framed(a, Header(path))) == Header(path) && Header(path)[1] != '['
            && HeaderPath(Header(path)) == path
  {
    var body := Join(path, '.');
    JoinChars(path);
    HeaderSolid(body);
    SolidQuiet(Header(path));
    CommentDropped(a, Header(path));
    assert Neutral(body[0]) by { assert body[0] in body; }
    assert Header(path)[1] == body[0];
    assert Inner(Header(path)) == body;
    SplitJoin(path, '.');
    StripSegments(path);
  }

  /** In any state of the reader, a "[a.b.c]" header opens the table at that path and makes it
      the current one. */
  lemma HeaderOpens(a: Around, path: seq<string>, rest: seq<string>, root: seq<Entry>, cur: seq<string>)
    requires path != [] && GoodAround(a) && GoodPath(path)
    ensures ReadLines([Framed(a, Header(path))] + rest, root, cur) ==
            match OpenTable(root, path)
            case None => Raised
            case Some(next) => ReadLines(rest, next, path)
  {
    HeaderReads(a, path);
    assert ([Framed(a, Header(path))] + rest)[1..] == rest;
  }

  lemma {:induction false} StripAllAt(parts: seq<string>)
    ensures forall i :: 0 <= i < |parts| ==> StripAll(parts)[i] == Strip(parts[i])
  {
    if parts != [] { StripAllAt(parts[1..]); }
  }

  lemma BlankedStrip(b: string, body: string, c: string)
    requires Blank(b) && Blank(c) && Tidy(body)
    ensures Strip(b + (body + c)) == body
  {
    LStripBlank(b, body + c);
    RStripBlank(body, c);
  }

  /** Blanks inside the brackets and around the dots of a header are not part of the path. */
  lemma HeaderStripped(b: string, parts: seq<string>, c: string)
    requires parts != [] && Blank(b) && Blank(c) && (forall p :: p in parts ==> '.' !in p) && Tidy(Join(parts, '.'))
    ensures var path := HeaderPath("[" + ((b + (Join(parts, '.') + c)) + "]"));
            |path| == |parts| && forall i :: 0 <= i < |parts| ==> path[i] == Strip(parts[i])
  {
    var body := b + (Join(parts, '.') + c);
    assert Inner("[" + (body + "]")) == body;
    BlankedStrip(b, Join(parts, '.'), c);
    SplitJoin(parts, '.');
    StripAllAt(parts);
  }

  lemma QuotedKeyQuiet(key: string, text: string)
    requires '"' !in key && Solid(text)
    ensures Quiet(KeyLine(Quoted(key), text)) && Tidy(KeyLine(Quoted(key), text))
  {
    StrSolid('"', key);
    SolidQuiet(Quoted(key));
    SolidQuiet(text);
    NeutralPasses(0, " = ");
    QuietConcat(" = ", text);
    QuietConcat(Quoted(key), " = " + text);
  }

  lemma QuotedKeyReads(key: string, text: string)
    requires '=' !in key && '"' !in key && Solid(text)
    ensures var line := KeyLine(Quoted(key), text);
            && Logical(line) == line && line[0] == '"' && '=' in line
            && KeyText(line) == key && ValueText(line) == text
  {
    var plain, line := Around("", ""), KeyLine(Quoted(key), text);
    QuotedKeyQuiet(key, text);
    CommentDropped(plain, line);
    assert Framed(plain, line) == line;
    assert key != "" ==> key[0] in key && key[|key| - 1] in key;
    MiniTomlScalars.QuotedKey(key, text);
    assert "\"" + (key + "\"") == Quoted(key);
  }

  lemma AssignmentReads(line: string, rest: seq<string>, root: seq<Entry>, cur: seq<string>)
    requires Logical(line) == line && line != "" && line[0] != '#' && line[0] != '[' && '=' in line
    requires Continued(rest, ValueText(line)) == (ValueText(line), 0)
    ensures ReadLines([line] + rest, root, cur) ==
            match Assign(root, cur, KeyText(line), ParseValue(ValueText(line)))
            case None => Raised
            case Some(next) => ReadLines(rest, next, cur)
  {
    assert ([line] + rest)[1..] == rest;
    assert rest[0..] == rest;
  }

  /** In any state of the reader, a key between double quotes assigns as the text it encloses. */
  lemma QuotedKeyAssigns(key: string, value: Value, rest: seq<string>, root: seq<Entry>, cur: seq<string>)
    requires '=' !in key && '"' !in key && Printable(value)
    ensures ReadLines([KeyLine(Quoted(key), Print(value))] + rest, root, cur) ==
            match Assign(root, cur, key, value)
            case None => Raised
            case Some(next) => ReadLines(rest, next, cur)
  {
    PrintSolid(value);
    QuotedKeyReads(key, Print(value));
    FinishedValue(value, rest);
    RoundTrip(value);
    AssignmentReads(KeyLine(Quoted(key), Print(value)), rest, root, cur);
  }
}

/** The restricted value reader inverts printing, at every nesting depth. */
module MiniTomlTheorems {
  import opened Ordering
  import opened Text
  import opened MiniToml

  // ----- Scanning composes ------------------------------------------------------------------

  function After(st: Scan, s: string): Scan
    decreases |s|
  {
    if s == "" then st else After(Next(st, s[0]), s[1..])
  }

  predicate NeverStops(k: Stop, st: Scan, s: string)
    decreases |s|
  {
    s == "" || (!Stops(k, st, s[0]) && NeverStops(k, Next(st, s[0]), s[1..]))
  }

  lemma {:induction false} ScanConcat(k: Stop, st: Scan, a: string, b: string)
    ensures After(st, a + b) == After(After(st, a), b)
    ensures NeverStops(k, st, a + b) <==> NeverStops(k, st, a) && NeverStops(k, After(st, a), b)
    decreases |a|
  {
    if a == "" {
      assert a + b == b;
    } else {
      TailAppend(a, b);
      ScanConcat(k, Next(st, a[0]), a[1..], b);
    }
  }

  lemma {:induction false} PiecesConcat(st: Scan, a: string, b: string)
    requires NeverStops(Comma, st, a)
    ensures Pieces(st, a + b) == Attach(a, Pieces(After(st, a), b))
    decreases |a|
  {
    if a == "" {
      assert a + b == b;
      AttachNothing(Pieces(st, b));
    } else {
      TailAppend(a, b);
      PiecesConcat(Next(st, a[0]), a[1..], b);
      var rest := Pieces(After(st, a), b);
      assert [a[0]] + (a[1..] + rest[0]) == a + rest[0];
    }
  }

  // ----- Splitting is exact -----------------------------------------------------------------------

  /** Joining the pieces with commas gives the text back. */
  lemma {:induction false} JoinPieces(st: Scan, s: string)
    ensures Join(Pieces(st, s), ',') == s
    decreases |s|
  {
    if s != "" {
      var rest := Pieces(if Stops(Comma, st, s[0]) then st else Next(st, s[0]), s[1..]);
      assert [s[0]] + s[1..] == s;
      if Stops(Comma, st, s[0]) {
        JoinPieces(st, s[1..]);
        assert ([""] + rest)[1..] == rest;
        assert "" + ([','] + s[1..]) == s;
      } else {
        JoinPieces(Next(st, s[0]), s[1..]);
        JoinPrepend(s[0], rest);
      }
    }
  }

  lemma JoinPrepend(c: char, pieces: seq<string>)
    requires pieces != []
    ensures Join(PrependFirst(c, pieces), ',') == [c] + Join(pieces, ',')
  {
    var r := PrependFirst(c, pieces);
    assert r[1..] == pieces[1..];
    if |pieces| > 1 {
      assert ([c] + pieces[0]) + ([','] + Join(pieces[1..], ',')) ==
             [c] + (pieces[0] + ([','] + Join(pieces[1..], ',')));
    }
  }

  /** Quote-closed, bracket-balanced, no comma at the top level. */
  predicate Closed(p: string) {
    After(START, p) == START && NeverStops(Comma, START, p)
  }

  lemma WholePiece(p: string)
    requires Closed(p)
    ensures Pieces(START, p) == [p]
  {
    PiecesConcat(START, p, "");
    assert p + "" == p;
    AttachHead(p, []);
  }

  /** Splitting undoes joining closed pieces. */
  lemma {:induction false} PiecesOfJoin(pieces: seq<string>)
    requires pieces != [] && forall p :: p in pieces ==> Closed(p)
    ensures Pieces(START, Join(pieces, ',')) == pieces
  {
    var p, rest := pieces[0], pieces[1..];
    assert pieces == [p] + rest && Closed(p);
    if rest == [] {
      WholePiece(p);
    } else {
      PiecesOfJoin(rest);
      var tail := [','] + Join(rest, ',');
      PiecesConcat(START, p, tail);
      assert tail[1..] == Join(rest, ',');
      AttachHead(p, rest);
    }
  }

  predicate Tidy(p: string) {
    p != "" && !PySpace(p[0]) && !PySpace(p[|p| - 1])
  }

  lemma TidyStrip(p: string)
    requires Tidy(p)
    ensures Strip(p) == p
  {
  }

  lemma {:induction false} TrimmedTidy(items: seq<string>)
    requires forall p :: p in items ==> Tidy(p)
    ensures Trimmed(items) == items
  {
    if items != [] {
      TidyStrip(items[0]);
      TrimmedTidy(items[1..]);
      assert items == [items[0]] + items[1..];
    }
  }

  /** `_split_items` of the comma-join of trimmed closed items returns those items. */
  lemma ItemsOfJoin(items: seq<string>)
    requires forall p :: p in items ==> Closed(p) && Tidy(p)
    ensures Items(Join(items, ',')) == items
  {
    if items == [] {
      assert Trimmed([""]) == [] by { assert [""][1..] == []; }
    } else {
      PiecesOfJoin(items);
      TrimmedTidy(items);
    }
  }

  // ----- Texts that stand anywhere ------------------------------------------------------------------

  /** Read outside quotes at depth `d`, the text comes back to depth `d`, and nothing in it
      ends a piece or starts a comment. */
  predicate Passes(d: nat, p: string) {
    && After(Scan(d, None), p) == Scan(d, None)
    && NeverStops(Comma, Scan(d, None), p)
    && NeverStops(Hash, Scan(d, None), p)
  }

  ghost predicate PassesFrom(d: nat, p: string) {
    forall e: nat :: d <= e ==> Passes(e, p)
  }

  lemma PassesConcat(d: nat, a: string, b: string)
    requires Passes(d, a) && Passes(d, b)
    ensures Passes(d, a + b)
  {
    ScanConcat(Comma, Scan(d, None), a, b);
    ScanConcat(Hash, Scan(d, None), a, b);
  }

  predicate Neutral(c: char) {
    c !in "\"'{}[],#"
  }

  lemma {:induction false} NeutralPasses(d: nat, p: string)
    requires forall c :: c in p ==> Neutral(c)
    ensures Passes(d, p)
    decreases |p|
  {
    if p != "" {
      assert Neutral(p[0]);
      NeutralPasses(d, p[1..]);
    }
  }

  predicate Quote(q: char) {
    q == '"' || q == '\''
  }

  function Enclosed(q: char, s: string): string {
    [q] + (s + [q])
  }

  lemma {:induction false} QuotedRun(k: Stop, d: nat, q: char, s: string)
    requires q !in s
    ensures After(Scan(d, Some(q)), s) == Scan(d, Some(q)) && NeverStops(k, Scan(d, Some(q)), s)
    decreases |s|
  {
    if s != "" { QuotedRun(k, d, q, s[1..]); }
  }

  lemma QuotedStops(k: Stop, d: nat, q: char, s: string)
    requires Quote(q) && q !in s
    ensures After(Scan(d, None), Enclosed(q, s)) == Scan(d, None)
    ensures NeverStops(k, Scan(d, None), Enclosed(q, s))
  {
    var st := Scan(d, Some(q));
    QuotedRun(k, d, q, s);
    ScanConcat(k, st, s, [q]);
    assert Enclosed(q, s)[1..] == s + [q];
    assert After(st, [q]) == Scan(d, None) by { assert [q][1..] == ""; }
    assert NeverStops(k, st, [q]) by { assert [q][1..] == ""; }
  }

  lemma QuotedPasses(d: nat, q: char, s: string)
    requires Quote(q) && q !in s
    ensures Passes(d, Enclosed(q, s))
  {
    QuotedStops(Comma, d, q, s);
    QuotedStops(Hash, d, q, s);
  }

  predicate Brackets(open: char, close: char) {
    (open == '[' && close == ']') || (open == '{' && close == '}')
  }

  lemma BracketStops(k: Stop, d: nat, open: char, inner: string, close: char)
    requires Brackets(open, close) && Passes(d + 1, inner)
    ensures After(Scan(d, None), [open] + (inner + [close])) == Scan(d, None)
    ensures NeverStops(k, Scan(d, None), [open] + (inner + [close]))
  {
    var st := Scan(d + 1, None);
    ScanConcat(k, st, inner, [close]);
    assert ([open] + (inner + [close]))[1..] == inner + [close];
    assert After(st, [close]) == Scan(d, None) by { assert [close][1..] == ""; }
    assert NeverStops(k, st, [close]) by { assert [close][1..] == ""; }
  }

  lemma BracketPasses(d: nat, open: char, inner: string, close: char)
    requires Brackets(open, close) && Passes(d + 1, inner)
    ensures Passes(d, [open] + (inner + [close]))
  {
    BracketStops(Comma, d, open, inner, close);
    BracketStops(Hash, d, open, inner, close);
  }

  lemma CommaPasses(d: nat)
    requires d > 0
    ensures Passes(d, [','])
  {
    assert [','][1..] == "";
  }

  lemma {:induction false} JoinPasses(d: nat, pieces: seq<string>)
    requires d > 0 && forall p :: p in pieces ==> Passes(d, p)
    ensures Passes(d, Join(pieces, ','))
  {
    if |pieces| > 1 {
      JoinPasses(d, pieces[1..]);
      CommaPasses(d);
      PassesConcat(d, [','], Join(pieces[1..], ','));
      PassesConcat(d, pieces[0], [','] + Join(pieces[1..], ','));
    }
  }

  // ----- Printing ----------------------------------------------------------------------------------

  function IntText(n: int): string {
    if n < 0 then "-" + Digits(-n) else Digits(n)
  }

  /** A blank after every separating comma. */
  function Padded(items: seq<string>): (r: seq<string>)
    ensures |r| == |items|
    ensures forall i :: 0 <= i < |r| ==> r[i] == if i == 0 then items[i] else " " + items[i]
  {
    if items == [] then [] else if |items| == 1 then items
      else Padded(items[..|items| - 1]) + [" " + items[|items| - 1]]
  }

  function Listed(open: char, items: seq<string>, close: char): string {
    [open] + (Join(Padded(items), ',') + [close])
  }

  /** A text is printed between double quotes, or single ones when it holds a double one. */
  function QuoteFor(s: string): char {
    if '"' in s then '\'' else '"'
  }

  function Print(v: Value): string
    decreases v
  {
    match v
    case Int(n) => IntText(n)
    case Bool(b) => if b then "true" else "false"
    case Str(s) => Enclosed(QuoteFor(s), s)
    case Bare(t) => t
    case Array(items) => Listed('[', PrintAll(items), ']')
    case Table(entries) => Listed('{', PrintEntries(entries), '}')
  }

  function PrintAll(items: seq<Value>): (r: seq<string>)
    ensures |r| == |items|
    decreases items
  {
    if items == [] then [] else PrintAll(items[..|items| - 1]) + [Print(items[|items| - 1])]
  }

  function PrintEntry(e: Entry): string
    decreases e
  {
    e.key + (" = " + Print(e.value))
  }

  function PrintEntries(entries: seq<Entry>): (r: seq<string>)
    ensures |r| == |entries|
    decreases entries
  {
    if entries == [] then [] else PrintEntries(entries[..|entries| - 1]) + [PrintEntry(entries[|entries| - 1])]
  }

  /** A key that needs no quoting. */
  predicate PlainKey(k: string) {
    k != "" && forall c :: c in k ==> Neutral(c) && c != '=' && !PySpace(c)
  }

  /** Integers, booleans, strings without one of the two quotes, and arrays of these or of inline
      tables, nested to any depth; the keys of a table are plain and distinct. */
  predicate Printable(v: Value)
    decreases v, 0
  {
    match v
    case Int(_) => true
    case Bool(_) => true
    case Str(s) => '"' !in s || '\'' !in s
    case Bare(_) => false
    case Array(items) => PrintableAll(items)
    case Table(_) => false
  }

  predicate PrintableElement(v: Value)
    decreases v, 1
  {
    if v.Table? then PrintableEntries(v.entries) else Printable(v)
  }

  predicate PrintableAll(items: seq<Value>)
    decreases items
  {
    items == [] || (PrintableAll(items[..|items| - 1]) && PrintableElement(items[|items| - 1]))
  }

  predicate PrintableEntries(entries: seq<Entry>)
    decreases entries
  {
    entries == [] ||
    var init, e := entries[..|entries| - 1], entries[|entries| - 1];
    && PrintableEntries(init)
    && PlainKey(e.key) && Printable(e.value)
    && (forall d :: d in init ==> d.key != e.key)
  }

  // ----- Printed texts stand anywhere ---------------------------------------------------------------

  ghost predicate Solid(p: string) {
    Tidy(p) && PassesFrom(0, p)
  }

  lemma NeutralSolid(p: string)
    requires Tidy(p) && forall c :: c in p ==> Neutral(c)
    ensures Solid(p)
  {
    forall e: nat ensures Passes(e, p) { NeutralPasses(e, p); }
  }

  lemma IntSolid(n: int)
    ensures Solid(IntText(n))
  {
    var p := IntText(n);
    forall c | c in p ensures Neutral(c) && !PySpace(c) {
      assert c == '-' || IsDigit(c);
    }
    assert p[0] in p && p[|p| - 1] in p;
    NeutralSolid(p);
  }

  lemma StrSolid(q: char, s: string)
    requires Quote(q) && q !in s
    ensures Solid(Enclosed(q, s))
  {
    forall e: nat ensures Passes(e, Enclosed(q, s)) { QuotedPasses(e, q, s); }
  }

  lemma PadPasses(d: nat, items: seq<string>)
    requires d > 0 && forall p :: p in items ==> Solid(p)
    ensures Passes(d, Join(Padded(items), ','))
  {
    forall p | p in Padded(items) ensures Passes(d, p) {
      var i :| 0 <= i < |items| && p == Padded(items)[i];
      assert items[i] in items;
      assert Passes(d, items[i]);
      NeutralPasses(d, " ");
      PassesConcat(d, " ", items[i]);
    }
    JoinPasses(d, Padded(items));
  }

  lemma ListedSolid(open: char, items: seq<string>, close: char)
    requires Brackets(open, close) && forall p :: p in items ==> Solid(p)
    ensures Solid(Listed(open, items, close))
  {
    forall e: nat ensures Passes(e, Listed(open, items, close)) {
      PadPasses(e + 1, items);
      BracketPasses(e, open, Join(Padded(items), ','), close);
    }
  }

  lemma EntrySolid(key: string, text: string)
    requires PlainKey(key) && Solid(text)
    ensures Solid(key + (" = " + text))
  {
    forall e: nat ensures Passes(e, key + (" = " + text)) {
      NeutralPasses(e, key);
      NeutralPasses(e, " = ");
      PassesConcat(e, " = ", text);
      PassesConcat(e, key, " = " + text);
    }
    assert key[0] in key;
  }

  lemma {:induction false} PrintSolid(v: Value)
    requires PrintableElement(v)
    ensures Solid(Print(v))
    decreases v
  {
    match v
    case Int(n) => IntSolid(n);
    case Bool(b) => NeutralSolid(Print(v));
    case Str(s) => StrSolid(QuoteFor(s), s);
    case Array(items) =>
      PrintAllSolid(items);
      ListedSolid('[', PrintAll(items), ']');
    case Table(entries) =>
      PrintEntriesSolid(entries);
      ListedSolid('{', PrintEntries(entries), '}');
  }

  lemma {:induction false} PrintAllSolid(items: seq<Value>)
    requires PrintableAll(items)
    ensures forall p :: p in PrintAll(items) ==> Solid(p)
    decreases items
  {
    if items != [] {
      PrintAllSolid(items[..|items| - 1]);
      PrintSolid(items[|items| - 1]);
    }
  }

  lemma {:induction false} PrintEntriesSolid(entries: seq<Entry>)
    requires PrintableEntries(entries)
    ensures forall p :: p in PrintEntries(entries) ==> Solid(p)
    decreases entries
  {
    if entries != [] {
      var e := entries[|entries| - 1];
      PrintEntriesSolid(entries[..|entries| - 1]);
      PrintSolid(e.value);
      EntrySolid(e.key, Print(e.value));
    }
  }

  // ----- Reading printed text ----------------------------------------------------------------------------

  lemma StripBlank(p: string)
    requires Tidy(p)
    ensures Strip(" " + p) == p
  {
    assert (" " + p)[1..] == p;
    TidyStrip(p);
  }

  lemma {:induction false} TrimmedPadded(items: seq<string>)
    requires forall p :: p in items ==> Tidy(p)
    ensures Trimmed(Padded(items)) == items
  {
    if |items| == 1 {
      TrimmedTidy(items);
    } else if items != [] {
      var init, x := items[..|items| - 1], items[|items| - 1];
      SplitLast(items);
      TrimmedPadded(init);
      TrimmedPush(Padded(init), " " + x);
      StripBlank(x);
    }
  }

  lemma PaddedItems(items: seq<string>)
    requires forall p :: p in items ==> Solid(p)
    ensures Items(Join(Padded(items), ',')) == items
  {
    if items == [] {
      assert Trimmed([""]) == [] by { assert [""][1..] == []; }
    } else {
      forall p | p in Padded(items) ensures Closed(p) {
        var i :| 0 <= i < |items| && p == Padded(items)[i];
        assert items[i] in items;
        assert Passes(0, items[i]);
        NeutralPasses(0, " ");
        PassesConcat(0, " ", items[i]);
      }
      PiecesOfJoin(Padded(items));
      TrimmedPadded(items);
    }
  }

  lemma {:induction false} JoinEdges(pieces: seq<string>)
    requires pieces != [] && pieces[0] != "" && pieces[|pieces| - 1] != ""
    ensures var j := Join(pieces, ','); var last := pieces[|pieces| - 1];
            j != "" && j[0] == pieces[0][0] && j[|j| - 1] == last[|last| - 1]
  {
    if |pieces| == 2 {
      assert pieces[1..] == [pieces[1]];
    } else if |pieces| > 2 {
      TailEdges(pieces);
    }
  }

  lemma {:induction false} TailEdges(pieces: seq<string>)
    requires |pieces| > 1 && pieces[0] != "" && pieces[|pieces| - 1] != ""
    ensures var j := Join(pieces, ','); var last := pieces[|pieces| - 1];
            |j| >= 2 && j[0] == pieces[0][0] && j[|j| - 1] == last[|last| - 1]
  {
    var rest := Join(pieces[1..], ',');
    var j := Join(pieces, ',');
    if |pieces| == 2 {
      assert pieces[1..] == [pieces[1]];
    } else {
      LastOfJoin(pieces[1..]);
    }
    assert j == pieces[0] + ([','] + rest);
    assert j[|j| - 1] == rest[|rest| - 1];
  }

  lemma {:induction false} LastOfJoin(pieces: seq<string>)
    requires pieces != [] && pieces[|pieces| - 1] != ""
    ensures var j := Join(pieces, ','); var last := pieces[|pieces| - 1];
            j != "" && j[|j| - 1] == last[|last| - 1]
  {
    if |pieces| > 1 {
      LastOfJoin(pieces[1..]);
    }
  }

  lemma JoinTidy(items: seq<string>)
    requires items != [] && forall p :: p in items ==> Tidy(p)
    ensures Strip(Join(Padded(items), ',')) == Join(Padded(items), ',')
  {
    var last := items[|items| - 1];
    assert items[0] in items && last in items;
    JoinEdges(Padded(items));
    TidyStrip(Join(Padded(items), ','));
  }

  /** The inside of a printed list comes back as its items. */
  lemma InsideListed(open: char, items: seq<string>, close: char)
    requires forall p :: p in items ==> Solid(p)
    ensures Items(Strip(Inner(Listed(open, items, close)))) == items
  {
    var j := Join(Padded(items), ',');
    assert Inner(Listed(open, items, close)) == j;
    PaddedItems(items);
    if items != [] {
      JoinTidy(items);
    }
  }

  lemma {:induction false} NothingDropped(s: string)
    requires '_' !in s
    ensures DropUnderscores(s) == s
  {
    if s != "" { NothingDropped(s[1..]); }
  }

  lemma DigitsParse(n: nat)
    ensures Unsigned(Digits(n)) == Some(n) && Digits(n)[0] != '-' && Digits(n)[0] != '+'
  {
    var d := Digits(n);
    assert d[0] in d && d[|d| - 1] in d;
    DigitsRoundTrip(n);
    NothingDropped(d);
  }

  lemma NegativeParses(n: int)
    requires n < 0
    ensures ParseInt("-" + Digits(-n)) == Some(n)
  {
    var d := Digits(-n);
    DigitsParse(-n);
    assert ("-" + d)[0] == '-' && ("-" + d)[1..] == d;
  }

  lemma IntTextParses(n: int)
    ensures ParseInt(IntText(n)) == Some(n)
  {
    if n < 0 { NegativeParses(n); } else { DigitsParse(n); }
  }

  lemma IntEdges(n: int)
    ensures var p := IntText(n); p != "" && (p[0] == '-' || IsDigit(p[0]))
  {
    var d := Digits(if n < 0 then -n else n);
    assert d[0] in d;
  }

  lemma IntParses(n: int)
    ensures ParseValue(IntText(n)) == Int(n)
  {
    var p := IntText(n);
    IntSolid(n);
    TidyStrip(p);
    IntEdges(n);
    IntTextParses(n);
    assert p[0] != 't' && p[0] != 'f';
  }

  /** Between two quotes of one kind, any text is read as it stands. */
  lemma StrParses(q: char, s: string)
    requires q == '"' || q == '\''
    ensures ParseValue([q] + (s + [q])) == Str(s)
  {
    var p := [q] + (s + [q]);
    TidyStrip(p);
    assert Inner(p) == s;
  }

  lemma EntryParses(key: string, text: string)
    requires PlainKey(key) && Tidy(text)
    ensures var piece := key + (" = " + text);
            '=' in piece && KeyText(piece) == key && ValueText(piece) == text
  {
    var piece := key + (" = " + text);
    assert piece[|key| + 1] == '=';
    assert forall i :: 0 <= i < |key| ==> piece[i] == key[i] && key[i] in key;
    assert FirstIndex(piece, '=') == |key| + 1;
    assert piece[..|key| + 1] == key + " ";
    assert key[0] in key && key[|key| - 1] in key;
    TidyStrip(key);
    assert LStrip(key + " ") == key + " ";
    assert (key + " ")[..|key|] == key;
    assert piece[|key| + 2..] == " " + text;
    StripBlank(text);
  }

  lemma {:induction false} PutNew(entries: seq<Entry>, key: string, value: Value)
    requires forall e :: e in entries ==> e.key != key
    ensures Put(entries, key, value) == entries + [Entry(key, value)]
  {
    if entries != [] {
      assert entries == [entries[0]] + entries[1..];
      PutNew(entries[1..], key, value);
    }
  }

  /** Parsing the printed text of a value gives the value back. */
  lemma {:induction false} RoundTrip(v: Value)
    requires Printable(v)
    ensures ParseValue(Print(v)) == v
    decreases v, 0
  {
    match v
    case Int(n) => IntParses(n);
    case Bool(b) => PrintSolid(v); TidyStrip(Print(v));
    case Str(s) => StrParses(QuoteFor(s), s);
    case Array(items) =>
      var text := Print(v);
      PrintSolid(v);
      TidyStrip(text);
      PrintAllSolid(items);
      InsideListed('[', PrintAll(items), ']');
      RoundTripAll(items, |text|);
  }

  lemma {:induction false} RoundTripElement(v: Value)
    requires PrintableElement(v)
    ensures ParseElement(Print(v)) == v
    decreases v, 1
  {
    PrintSolid(v);
    if v.Table? {
      PrintEntriesSolid(v.entries);
      InsideListed('{', PrintEntries(v.entries), '}');
      RoundTripEntries(v.entries, |Print(v)|);
    } else {
      RoundTrip(v);
      FirstChar(v);
    }
  }

  lemma FirstChar(v: Value)
    requires Printable(v)
    ensures Print(v) != "" && Print(v)[0] != '{'
  {
    match v
    case Int(n) =>
      var d := Digits(if n < 0 then -n else n);
      assert d[0] in d && IsDigit(d[0]);
    case Bool(b) =>
    case Str(s) =>
    case Array(items) =>
  }

  lemma {:induction false} RoundTripAll(items: seq<Value>, room: nat)
    requires PrintableAll(items)
    requires forall i :: 0 <= i < |items| ==> |PrintAll(items)[i]| < room
    ensures ParseElements(PrintAll(items), room) == items
    decreases items, 0
  {
    if items != [] {
      var init, x := items[..|items| - 1], items[|items| - 1];
      SplitLast(items);
      assert PrintAll(items)[..|items| - 1] == PrintAll(init);
      forall i | 0 <= i < |init| ensures |PrintAll(init)[i]| < room { assert PrintAll(init)[i] == PrintAll(items)[i]; }
      RoundTripAll(init, room);
      RoundTripElement(x);
    }
  }

  lemma {:induction false} RoundTripEntries(entries: seq<Entry>, room: nat)
    requires PrintableEntries(entries)
    requires forall i :: 0 <= i < |entries| ==> |PrintEntries(entries)[i]| < room
    ensures ParseEntries(PrintEntries(entries), room) == entries
    decreases entries, 0
  {
    if entries != [] {
      var init, e := entries[..|entries| - 1], entries[|entries| - 1];
      SplitLast(entries);
      assert PrintEntries(entries)[..|entries| - 1] == PrintEntries(init);
      forall i | 0 <= i < |init|
        ensures |PrintEntries(init)[i]| < room
      {
        assert PrintEntries(init)[i] == PrintEntries(entries)[i];
      }
      RoundTripEntries(init, room);
      PrintSolid(e.value);
      EntryParses(e.key, Print(e.value));
      RoundTrip(e.value);
      PutNew(init, e.key, e.value);
    }
  }
}

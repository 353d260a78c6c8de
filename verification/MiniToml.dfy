/** The restricted TOML reader of the entropy gate, for interpreters without a TOML parser. */
module MiniToml {
  import opened Ordering
  import opened Text

  /** `Bare` is the text of anything that is not a string, array, boolean or integer: a float
      literal, or a word the reader hands back as it stands. `Table` keeps the insertion order
      of a Python dict. */
  datatype Value =
    | Int(n: int)
    | Bool(b: bool)
    | Str(s: string)
    | Bare(text: string)
    | Array(items: seq<Value>)
    | Table(entries: seq<Entry>)

  datatype Entry = Entry(key: string, value: Value)

  // ----- Stripping -----------------------------------------------------------------------

  predicate PySpace(c: char) {
    c == ' ' || '\t' <= c <= '\r' || '\U{1c}' <= c <= '\U{1f}'
  }

  function LStrip(s: string): (r: string)
    ensures |r| <= |s|
  {
    if s != "" && PySpace(s[0]) then LStrip(s[1..]) else s
  }

  function RStrip(s: string): (r: string)
    ensures |r| <= |s|
  {
    if s != "" && PySpace(s[|s| - 1]) then RStrip(s[..|s| - 1]) else s
  }

  function Strip(s: string): (r: string)
    ensures |r| <= |s|
  {
    RStrip(LStrip(s))
  }

  function LStripQuotes(s: string): string {
    if s != "" && s[0] == '"' then LStripQuotes(s[1..]) else s
  }

  function RStripQuotes(s: string): string {
    if s != "" && s[|s| - 1] == '"' then RStripQuotes(s[..|s| - 1]) else s
  }

  function StripQuotes(s: string): string {
    RStripQuotes(LStripQuotes(s))
  }

  /** `s[1:-1]`. */
  function Inner(s: string): (r: string)
    ensures |s| >= 2 ==> |r| == |s| - 2
    ensures |r| <= |s| && (s != "" ==> |r| < |s|)
  {
    if |s| < 2 then "" else s[1..|s| - 1]
  }

  // ----- Scanning -------------------------------------------------------------------------

  /** Where a scan stands: the bracket depth and the open quote. */
  datatype Scan = Scan(depth: int, quote: Option<char>)

  const START: Scan := Scan(0, None)

  function Next(st: Scan, c: char): Scan {
    if st.quote.Some? then (if c == st.quote.value then Scan(st.depth, None) else st)
    else if c == '"' || c == '\'' then Scan(st.depth, Some(c))
    else if c == '{' || c == '[' then Scan(st.depth + 1, None)
    else if c == '}' || c == ']' then Scan(st.depth - 1, None)
    else st
  }

  /** What ends a piece: a top-level comma, or an unquoted '#'. */
  datatype Stop = Comma | Hash

  predicate Stops(k: Stop, st: Scan, c: char) {
    st.quote.None? && if k == Comma then c == ',' && st.depth == 0 else c == '#'
  }

  function PrependFirst(c: char, pieces: seq<string>): (r: seq<string>)
    requires pieces != []
    ensures |r| == |pieces|
  {
    [[c] + pieces[0]] + pieces[1..]
  }

  predicate AtMost(pieces: seq<string>, n: nat) {
    forall i :: 0 <= i < |pieces| ==> |pieces[i]| <= n
  }

  /** The pieces of a text between its top-level commas. */
  function Pieces(st: Scan, s: string): (r: seq<string>)
    ensures r != []
    ensures AtMost(r, |s|)
    decreases |s|
  {
    if s == "" then [""]
    else if Stops(Comma, st, s[0]) then [""] + Pieces(st, s[1..])
    else PrependFirst(s[0], Pieces(Next(st, s[0]), s[1..]))
  }

  /** The pieces stripped, the blank ones dropped. */
  function Trimmed(pieces: seq<string>): seq<string> {
    if pieces == [] then []
    else (if Strip(pieces[0]) == "" then [] else [Strip(pieces[0])]) + Trimmed(pieces[1..])
  }

  lemma {:induction false} TrimmedAtMost(pieces: seq<string>, n: nat)
    requires AtMost(pieces, n)
    ensures AtMost(Trimmed(pieces), n)
  {
    if pieces != [] { TrimmedAtMost(pieces[1..], n); }
  }

  /** The items of a comma-separated text. */
  function Items(s: string): (r: seq<string>)
    ensures AtMost(r, |s|)
  {
    TrimmedAtMost(Pieces(START, s), |s|);
    Trimmed(Pieces(START, s))
  }

  function Uncommented(st: Scan, s: string): string
    decreases |s|
  {
    if s == "" || Stops(Hash, st, s[0]) then "" else [s[0]] + Uncommented(Next(st, s[0]), s[1..])
  }

  // ----- Scalars ----------------------------------------------------------------------------

  /** What `int()` takes: digits, single underscores between them. */
  predicate PyDigits(s: string) {
    && s != "" && IsDigit(s[0]) && IsDigit(s[|s| - 1])
    && (forall c :: c in s ==> IsDigit(c) || c == '_')
    && (forall i :: 0 < i < |s| && s[i] == '_' ==> s[i - 1] != '_')
  }

  function DropUnderscores(s: string): string {
    if s == "" then "" else (if s[0] == '_' then "" else [s[0]]) + DropUnderscores(s[1..])
  }

  function Unsigned(s: string): Option<int> {
    if PyDigits(s) then Some(DigitsValue(DropUnderscores(s))) else None
  }

  function ParseInt(v: string): Option<int> {
    if v == "" then None
    else if v[0] == '-' then (match Unsigned(v[1..]) case None => None case Some(n) => Some(-n))
    else if v[0] == '+' then Unsigned(v[1..])
    else Unsigned(v)
  }

  function ParseScalar(v: string): Value {
    if v == "true" || v == "false" then Bool(v == "true")
    else match ParseInt(v) case Some(n) => Int(n) case None => Bare(v)
  }

  predicate Wrapped(v: string, open: char, close: char) {
    v != "" && v[0] == open && v[|v| - 1] == close
  }

  // ----- Values --------------------------------------------------------------------------------

  /** `table[k] = v` on an insertion-ordered table. */
  function Put(entries: seq<Entry>, key: string, value: Value): seq<Entry> {
    if entries == [] then [Entry(key, value)]
    else if entries[0].key == key then [Entry(key, value)] + entries[1..]
    else [entries[0]] + Put(entries[1..], key, value)
  }

  function KeyText(piece: string): string {
    StripQuotes(Strip(piece[..FirstIndex(piece, '=')]))
  }

  function ValueText(piece: string): (r: string)
    ensures piece != "" ==> |r| < |piece|
  {
    var i := FirstIndex(piece, '=');
    if i < |piece| then Strip(piece[i + 1..]) else ""
  }

  /** `_mini_value`. */
  function ParseValue(text: string): Value
    decreases |text|, 1, 0
  {
    var v := Strip(text);
    if v != "" && v[0] == '#' then Str("")
    else if Wrapped(v, '"', '"') || Wrapped(v, '\'', '\'') then Str(Inner(v))
    else if Wrapped(v, '[', ']') then Array(ParseElements(Items(Strip(Inner(v))), |text|))
    else ParseScalar(v)
  }

  function ParseElements(elems: seq<string>, room: nat): seq<Value>
    requires forall i :: 0 <= i < |elems| ==> |elems[i]| < room
    decreases room, 0, |elems|
  {
    if elems == [] then [] else ParseElements(elems[..|elems| - 1], room) + [ParseElement(elems[|elems| - 1])]
  }

  function ParseElement(elem: string): Value
    decreases |elem|, 2, 0
  {
    if elem != "" && elem[0] == '{' then Table(ParseEntries(Items(Strip(Inner(elem))), |elem|))
    else ParseValue(elem)
  }

  function ParseEntries(pieces: seq<string>, room: nat): seq<Entry>
    requires forall i :: 0 <= i < |pieces| ==> |pieces[i]| < room
    decreases room, 0, |pieces|
  {
    if pieces == [] then []
    else
      var rest, piece := ParseEntries(pieces[..|pieces| - 1], room), pieces[|pieces| - 1];
      if '=' in piece then Put(rest, KeyText(piece), ParseValue(ValueText(piece))) else rest
  }

  // ----- The reader's loops ------------------------------------------------------------------

  lemma AttachNothing(pieces: seq<string>)
    requires pieces != []
    ensures Attach("", pieces) == pieces
  {
    assert "" + pieces[0] == pieces[0];
  }

  lemma AttachHead(buf: string, rest: seq<string>)
    ensures Attach(buf, [""] + rest) == [buf] + rest
  {
    assert buf + "" == buf;
    assert ([""] + rest)[1..] == rest;
  }

  lemma PiecesStep(items: seq<string>, buf: string, st: Scan, s: string)
    requires s != ""
    ensures Stops(Comma, st, s[0]) ==>
              items + Attach(buf, Pieces(st, s)) == (items + [buf]) + Attach("", Pieces(st, s[1..]))
    ensures !Stops(Comma, st, s[0]) ==>
              items + Attach(buf, Pieces(st, s)) == items + Attach(buf + [s[0]], Pieces(Next(st, s[0]), s[1..]))
  {
    if Stops(Comma, st, s[0]) {
      var rest := Pieces(st, s[1..]);
      AttachHead(buf, rest);
      AttachNothing(rest);
      AppendAssociative(items, [buf], rest);
    } else {
      var rest := Pieces(Next(st, s[0]), s[1..]);
      assert buf + ([s[0]] + rest[0]) == (buf + [s[0]]) + rest[0];
    }
  }

  /** A text in front of the first piece. */
  function Attach(buf: string, pieces: seq<string>): seq<string>
    requires pieces != []
  {
    [buf + pieces[0]] + pieces[1..]
  }

  /** `_split_items`. */
  method SplitItems(s: string) returns (items: seq<string>)
    ensures items == Items(s)
  {
    var raw: seq<string>, buf: string, depth, quote: Option<char> := [], "", 0, None;
    AttachNothing(Pieces(START, s));
    assert s[0..] == s;
    for i := 0 to |s|
      invariant raw + Attach(buf, Pieces(Scan(depth, quote), s[i..])) == Pieces(START, s)
    {
      var c := s[i];
      assert s[i..][0] == c && s[i..][1..] == s[i + 1..];
      PiecesStep(raw, buf, Scan(depth, quote), s[i..]);
      if quote.Some? {
        buf := buf + [c];
        if c == quote.value { quote := None; }
      } else if c == '"' || c == '\'' {
        quote := Some(c);
        buf := buf + [c];
      } else if c == '{' || c == '[' {
        depth := depth + 1;
        buf := buf + [c];
      } else if c == '}' || c == ']' {
        depth := depth - 1;
        buf := buf + [c];
      } else if c == ',' && depth == 0 {
        raw := raw + [buf];
        buf := "";
      } else {
        buf := buf + [c];
      }
    }
    AttachHead(buf, []);
    assert s[|s|..] == "" && raw + [buf] == Pieces(START, s);
    TrimmedPush(raw, buf);
    if Strip(buf) != "" {
      raw := raw + [buf];
    }
    items := TrimAll(raw);
  }

  lemma {:induction false} TrimmedPush(pieces: seq<string>, last: string)
    ensures Trimmed(pieces + [last]) == Trimmed(pieces) + if Strip(last) == "" then [] else [Strip(last)]
  {
    if pieces == [] {
      assert [last][1..] == [];
    } else {
      TrimmedPush(pieces[1..], last);
      assert (pieces + [last])[1..] == pieces[1..] + [last];
    }
  }

  /** The closing comprehension: strip every item, keep those that are not blank. */
  method TrimAll(raw: seq<string>) returns (items: seq<string>)
    ensures items == Trimmed(raw)
  {
    items := [];
    for i := 0 to |raw|
      invariant items == Trimmed(raw[..i])
    {
      assert raw[..i + 1] == raw[..i] + [raw[i]];
      TrimmedPush(raw[..i], raw[i]);
      if Strip(raw[i]) != "" {
        items := items + [Strip(raw[i])];
      }
    }
    assert raw[..|raw|] == raw;
  }

  lemma {:induction false} DepthFree(st: Scan, t: Scan, s: string)
    requires st.quote == t.quote
    ensures Uncommented(st, s) == Uncommented(t, s)
    decreases |s|
  {
    if s != "" && !Stops(Hash, st, s[0]) {
      DepthFree(Next(st, s[0]), Next(t, s[0]), s[1..]);
    }
  }

  /** `_strip_comment`. */
  method StripComment(line: string) returns (r: string)
    ensures r == RStrip(Uncommented(START, line))
  {
    var out: string, quote: Option<char> := "", None;
    for i := 0 to |line|
      invariant Uncommented(START, line) == out + Uncommented(Scan(0, quote), line[i..])
    {
      var c := line[i];
      assert line[i..][0] == c && line[i..][1..] == line[i + 1..];
      ghost var st := Scan(0, quote);
      ghost var rest := Uncommented(Next(st, c), line[i + 1..]);
      assert !Stops(Hash, st, c) ==> out + ([c] + rest) == (out + [c]) + rest;
      if quote.Some? {
        out := out + [c];
        if c == quote.value { quote := None; }
        continue;
      }
      if c == '"' || c == '\'' {
        quote := Some(c);
        out := out + [c];
        continue;
      }
      if c == '#' {
        assert out + "" == out;
        break;
      }
      out := out + [c];
      DepthFree(Next(st, c), Scan(0, quote), line[i + 1..]);
    }
    assert Uncommented(START, line) == out by {
      assert out + "" == out;
    }
    r := RStrip(out);
  }

  method MiniElements(elems: seq<string>, ghost room: nat) returns (out: seq<Value>)
    requires forall i :: 0 <= i < |elems| ==> |elems[i]| < room
    ensures out == ParseElements(elems, room)
    decreases room, 0
  {
    out := [];
    for i := 0 to |elems|
      invariant out == ParseElements(elems[..i], room)
    {
      assert elems[..i + 1][..i] == elems[..i];
      var elem := elems[i];
      var value: Value;
      if elem != "" && elem[0] == '{' {
        var pieces := SplitItems(Strip(Inner(elem)));
        var entries := MiniEntries(pieces, |elem|);
        value := Table(entries);
      } else {
        value := MiniValue(elem);
      }
      out := out + [value];
    }
    assert elems[..|elems|] == elems;
  }

  method MiniEntries(pieces: seq<string>, ghost room: nat) returns (table: seq<Entry>)
    requires forall i :: 0 <= i < |pieces| ==> |pieces[i]| < room
    ensures table == ParseEntries(pieces, room)
    decreases room, 0
  {
    table := [];
    for i := 0 to |pieces|
      invariant table == ParseEntries(pieces[..i], room)
    {
      assert pieces[..i + 1][..i] == pieces[..i];
      var piece := pieces[i];
      if '=' in piece {
        var value := MiniValue(ValueText(piece));
        table := Put(table, KeyText(piece), value);
      }
    }
    assert pieces[..|pieces|] == pieces;
  }

  /** `_mini_value`, with its loops over elements and table pieces. */
  method MiniValue(text: string) returns (value: Value)
    ensures value == ParseValue(text)
    decreases |text|, 1
  {
    var v := Strip(text);
    if v != "" && v[0] == '#' {
      return Str("");
    }
    if Wrapped(v, '"', '"') || Wrapped(v, '\'', '\'') {
      return Str(Inner(v));
    }
    if Wrapped(v, '[', ']') {
      var elems := SplitItems(Strip(Inner(v)));
      var items := MiniElements(elems, |text|);
      return Array(items);
    }
    return ParseScalar(v);
  }

  // ----- Documents --------------------------------------------------------------------------------

  /** What reading a document gives: the root table, or an exception. */
  datatype Outcome = Parsed(root: seq<Entry>) | Raised

  function Get(entries: seq<Entry>, key: string): Option<Value> {
    if entries == [] then None else if entries[0].key == key then Some(entries[0].value) else Get(entries[1..], key)
  }

  /** The chain of `setdefault` calls a "[a.b.c]" header makes. A value on the way that is not
      a table raises; one at the end does not, yet. */
  function OpenTable(root: seq<Entry>, path: seq<string>): Option<seq<Entry>>
    requires path != []
    decreases |path|
  {
    var child := Get(root, path[0]);
    if |path| == 1 then Some(if child.Some? then root else Put(root, path[0], Table([])))
    else if child.Some? && !child.value.Table? then None
    else
      match OpenTable(if child.Some? then child.value.entries else [], path[1..])
      case None => None
      case Some(sub) => Some(Put(root, path[0], Table(sub)))
  }

  /** `cur[k] = v`, where `cur` is the table the last header opened. */
  function Assign(root: seq<Entry>, path: seq<string>, key: string, value: Value): Option<seq<Entry>>
    decreases |path|
  {
    if path == [] then Some(Put(root, key, value))
    else
      var child := Get(root, path[0]);
      if child.None? || !child.value.Table? then None
      else
        match Assign(child.value.entries, path[1..], key, value)
        case None => None
        case Some(sub) => Some(Put(root, path[0], Table(sub)))
  }

  function Logical(line: string): string {
    Strip(RStrip(Uncommented(START, line)))
  }

  function StripAll(parts: seq<string>): (r: seq<string>)
    ensures |r| == |parts|
  {
    if parts == [] then [] else [Strip(parts[0])] + StripAll(parts[1..])
  }

  /** The path of a "[a.b.c]" header. */
  function HeaderPath(line: string): (r: seq<string>)
    ensures r != []
  {
    StripAll(Split(Strip(Inner(line)), '.'))
  }

  predicate Unfinished(v: string) {
    v != "" && v[0] == '[' && v[|v| - 1] != ']'
  }

  /** An array that does not end on its line takes in the following lines, up to the first at
      which the text so far ends in a bracket. */
  function Continued(lines: seq<string>, v: string): (r: (string, nat))
    ensures r.1 <= |lines|
  {
    if lines == [] || !Unfinished(v) then (v, 0)
    else
      var (text, n) := Continued(lines[1..], v + (" " + Logical(lines[0])));
      (text, n + 1)
  }

  function ReadLines(lines: seq<string>, root: seq<Entry>, cur: seq<string>): Outcome
    decreases |lines|
  {
    if lines == [] then Parsed(root)
    else
      var line, rest := Logical(lines[0]), lines[1..];
      if line == "" || line[0] == '#' then ReadLines(rest, root, cur)
      else if |line| >= 2 && line[0] == '[' && line[1] == '[' then Raised
      else if line[0] == '[' then
        var path := HeaderPath(line);
        match OpenTable(root, path)
        case None => Raised
        case Some(next) => ReadLines(rest, next, path)
      else if '=' !in line then ReadLines(rest, root, cur)
      else
        var (text, n) := Continued(rest, ValueText(line));
        match Assign(root, cur, KeyText(line), ParseValue(text))
        case None => Raised
        case Some(next) => ReadLines(rest[n..], next, cur)
  }

  lemma ContinuedStep(lines: seq<string>, v: string)
    requires lines != [] && Unfinished(v)
    ensures Continued(lines, v).0 == Continued(lines[1..], v + (" " + Logical(lines[0]))).0
    ensures Continued(lines, v).1 == 1 + Continued(lines[1..], v + (" " + Logical(lines[0]))).1
  {
  }

  lemma ContinuedStop(lines: seq<string>, v: string)
    requires lines == [] || !Unfinished(v)
    ensures Continued(lines, v) == (v, 0)
  {
  }

  method ReadValue(lines: seq<string>, start: nat, first: string) returns (text: string, next: nat)
    requires start <= |lines|
    ensures start <= next <= |lines|
    ensures (text, next - start) == Continued(lines[start..], first)
  {
    ghost var (whole, taken) := Continued(lines[start..], first);
    ghost var rest: seq<string> := lines[start..];
    text, next := first, start;
    while next < |lines| && Unfinished(text)
      invariant start <= next <= |lines| && rest == lines[next..]
      invariant whole == Continued(rest, text).0
      invariant taken == next - start + Continued(rest, text).1
      decreases |lines| - next
    {
      ContinuedStep(rest, text);
      assert rest[0] == lines[next];
      rest := rest[1..];
      var more := StripComment(lines[next]);
      text := text + (" " + Strip(more));
      next := next + 1;
    }
    ContinuedStop(rest, text);
  }

  /** `_mini_toml`, on the lines of the text. */
  method MiniToml(lines: seq<string>) returns (result: Outcome)
    ensures result == ReadLines(lines, [], [])
  {
    var root: seq<Entry>, cur: seq<string>, i := [], [], 0;
    ghost var rest: seq<string> := lines;
    while i < |lines|
      invariant i <= |lines| && rest == lines[i..]
      invariant ReadLines(lines, [], []) == ReadLines(rest, root, cur)
      decreases |lines| - i
    {
      assert rest[0] == lines[i] && rest[1..] == lines[i + 1..];
      rest := rest[1..];
      var line := StripComment(lines[i]);
      line := Strip(line);
      i := i + 1;
      if line == "" || line[0] == '#' {
        continue;
      }
      if |line| >= 2 && line[0] == '[' && line[1] == '[' {
        return Raised;
      }
      if line[0] == '[' {
        var next := OpenTable(root, HeaderPath(line));
        if next.None? {
          return Raised;
        }
        root, cur := next.value, HeaderPath(line);
        continue;
      }
      if '=' !in line {
        continue;
      }
      var text, after := ReadValue(lines, i, ValueText(line));
      assert rest[after - i..] == lines[after..];
      rest := lines[after..];
      i := after;
      var value := MiniValue(text);
      var next := Assign(root, cur, KeyText(line), value);
      if next.None? {
        return Raised;
      }
      root := next.value;
    }
    return Parsed(root);
  }
}

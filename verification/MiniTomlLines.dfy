/** Physical lines: indentation, comments, and arrays that run over several lines. */
module MiniTomlLines {
  import opened Ordering
  import opened MiniToml
  import opened MiniTomlTheorems

  // ----- Indentation and comments ----------------------------------------------------------

  predicate Blank(s: string) {
    forall c :: c in s ==> PySpace(c)
  }

  /** Blanks, or blanks and a comment. */
  predicate Trailer(t: string) {
    Blank(t) || exists i :: 0 <= i < |t| && t[i] == '#' && Blank(t[..i])
  }

  /** What stands around the text of a line. */
  datatype Around = Around(indent: string, trailer: string)

  predicate GoodAround(a: Around) {
    Blank(a.indent) && Trailer(a.trailer)
  }

  function Framed(a: Around, text: string): string {
    a.indent + (text + a.trailer)
  }

  /** The text closes its quotes and hides every '#' inside them. */
  predicate Quiet(p: string) {
    After(START, p).quote == None && NeverStops(Hash, START, p)
  }

  lemma {:induction false} UncommentedPrefix(st: Scan, a: string, b: string)
    requires NeverStops(Hash, st, a)
    ensures Uncommented(st, a + b) == a + Uncommented(After(st, a), b)
    decreases |a|
  {
    if a == "" {
      assert a + b == b;
    } else {
      TailAppend(a, b);
      UncommentedPrefix(Next(st, a[0]), a[1..], b);
      assert [a[0]] + (a[1..] + Uncommented(After(st, a), b)) == a + Uncommented(After(st, a), b);
    }
  }

  lemma {:induction false} BlankComment(gap: string, comment: string)
    requires Blank(gap)
    ensures Uncommented(START, gap + ("#" + comment)) == gap
    decreases |gap|
  {
    if gap == "" {
      assert gap + ("#" + comment) == "#" + comment;
    } else {
      assert PySpace(gap[0]);
      TailAppend(gap, "#" + comment);
      BlankComment(gap[1..], comment);
    }
  }

  lemma {:induction false} BlankScan(gap: string)
    requires Blank(gap)
    ensures After(START, gap) == START && NeverStops(Hash, START, gap) && Uncommented(START, gap) == gap
    decreases |gap|
  {
    if gap != "" {
      assert PySpace(gap[0]);
      BlankScan(gap[1..]);
      assert [gap[0]] + gap[1..] == gap;
    }
  }

  lemma TrailerGap(t: string)
    requires Trailer(t)
    ensures Blank(Uncommented(START, t))
  {
    if Blank(t) {
      BlankScan(t);
    } else {
      var i :| 0 <= i < |t| && t[i] == '#' && Blank(t[..i]);
      assert t == t[..i] + ("#" + t[i + 1..]);
      BlankComment(t[..i], t[i + 1..]);
    }
  }

  lemma {:induction false} RStripBlank(p: string, gap: string)
    requires (p == "" || !PySpace(p[|p| - 1])) && Blank(gap)
    ensures RStrip(p + gap) == p
    decreases |gap|
  {
    if gap == "" {
      assert p + gap == p;
    } else {
      var init := gap[..|gap| - 1];
      assert gap[|gap| - 1] in gap;
      assert (p + gap)[..|p + gap| - 1] == p + init;
      RStripBlank(p, init);
    }
  }

  lemma {:induction false} LStripBlank(gap: string, p: string)
    requires (p == "" || !PySpace(p[0])) && Blank(gap)
    ensures LStrip(gap + p) == p
    decreases |gap|
  {
    if gap == "" {
      assert gap + p == p;
    } else {
      assert PySpace(gap[0]);
      TailAppend(gap, p);
      LStripBlank(gap[1..], p);
    }
  }

  lemma StripFramed(indent: string, p: string, gap: string)
    requires Blank(indent) && Blank(gap) && (p == "" || Tidy(p))
    ensures Strip(RStrip(indent + (p + gap))) == p
  {
    if p == "" {
      assert indent + ("" + gap) == "" + (indent + gap);
      RStripBlank("", indent + gap);
    } else {
      AppendAssociative(indent, p, gap);
      RStripBlank(indent + p, gap);
      LStripBlank(indent, p);
      assert p + "" == p;
      RStripBlank(p, "");
    }
  }

  /** Indentation, trailing blanks and a comment leave no trace of themselves: what is read of a
      line is its text. */
  lemma CommentDropped(a: Around, p: string)
    requires GoodAround(a) && Quiet(p) && (p == "" || Tidy(p))
    ensures Logical(Framed(a, p)) == p
  {
    BlankScan(a.indent);
    UncommentedPrefix(START, a.indent, p + a.trailer);
    UncommentedPrefix(START, p, a.trailer);
    DepthFree(After(START, p), START, a.trailer);
    TrailerGap(a.trailer);
    StripFramed(a.indent, p, Uncommented(START, a.trailer));
  }

  /** The text stops at the first '#' outside quotes, and only there. */
  lemma {:induction false} UncommentedExact(st: Scan, s: string)
    ensures var r := Uncommented(st, s);
            r <= s && NeverStops(Hash, st, r) && (r == s || Stops(Hash, After(st, r), s[|r|]))
    decreases |s|
  {
    if s != "" && !Stops(Hash, st, s[0]) {
      UncommentedExact(Next(st, s[0]), s[1..]);
      var r := Uncommented(Next(st, s[0]), s[1..]);
      assert ([s[0]] + r)[1..] == r;
      assert [s[0]] + s[1..] == s;
    }
  }

  lemma {:induction false} HashDepthFree(st: Scan, t: Scan, s: string)
    requires st.quote == t.quote
    ensures NeverStops(Hash, st, s) <==> NeverStops(Hash, t, s)
    ensures After(st, s).quote == After(t, s).quote
    decreases |s|
  {
    if s != "" { HashDepthFree(Next(st, s[0]), Next(t, s[0]), s[1..]); }
  }

  lemma QuietConcat(a: string, b: string)
    requires Quiet(a) && Quiet(b)
    ensures Quiet(a + b)
  {
    ScanConcat(Hash, START, a, b);
    HashDepthFree(After(START, a), START, b);
  }

  lemma SolidQuiet(p: string)
    requires Solid(p)
    ensures Quiet(p)
  {
    assert Passes(0, p);
  }

  // ----- Arrays over several lines -------------------------------------------------------------

  /** One further line of an array: its text, or nothing, and what stands around it. */
  datatype Chunk = Chunk(text: string, around: Around)

  predicate GoodChunk(c: Chunk) {
    GoodAround(c.around) && Quiet(c.text) && (c.text == "" || Tidy(c.text))
  }

  ghost predicate GoodChunks(cs: seq<Chunk>) {
    forall c :: c in cs ==> GoodChunk(c)
  }

  function Physical(cs: seq<Chunk>): (r: seq<string>)
    ensures |r| == |cs|
  {
    if cs == [] then [] else [Framed(cs[0].around, cs[0].text)] + Physical(cs[1..])
  }

  /** The one-line form: the texts of the lines, a blank between each two. */
  function Spaced(v: string, cs: seq<Chunk>): string
    decreases |cs|
  {
    if cs == [] then v else Spaced(v + (" " + cs[0].text), cs[1..])
  }

  predicate EndsBracket(t: string) {
    t != "" && t[|t| - 1] == ']'
  }

  /** No line before the last ends in a bracket. */
  ghost predicate RunsOn(v: string, cs: seq<Chunk>) {
    (cs != [] ==> !EndsBracket(v)) && forall i :: 0 <= i < |cs| - 1 ==> !EndsBracket(cs[i].text)
  }

  /** The last line ends in a bracket. */
  predicate Ends(v: string, cs: seq<Chunk>) {
    if cs == [] then EndsBracket(v) else EndsBracket(cs[|cs| - 1].text)
  }

  lemma {:induction false} RunsThrough(v: string, cs: seq<Chunk>, lines: seq<string>)
    requires v != "" && v[0] == '[' && GoodChunks(cs) && RunsOn(v, cs) && Ends(v, cs)
    ensures Continued(Physical(cs) + lines, v) == (Spaced(v, cs), |cs|)
    decreases |cs|
  {
    var all := Physical(cs) + lines;
    if cs == [] {
      ContinuedStop(all, v);
    } else {
      var c, rest := cs[0], cs[1..];
      assert all[0] == Framed(c.around, c.text) && all[1..] == Physical(rest) + lines;
      assert GoodChunk(c);
      CommentDropped(c.around, c.text);
      ContinuedStep(all, v);
      var next := v + (" " + c.text);
      assert EndsBracket(next) <==> EndsBracket(c.text);
      assert forall i :: 0 <= i < |rest| ==> rest[i] == cs[i + 1];
      RunsThrough(next, rest, lines);
    }
  }

  lemma {:induction false} PhysicalSplit(cs: seq<Chunk>, j: nat, lines: seq<string>)
    requires j <= |cs|
    ensures Physical(cs) + lines == Physical(cs[..j]) + (Physical(cs[j..]) + lines)
    decreases j
  {
    if j == 0 {
      assert cs[..0] == [] && cs[0..] == cs;
    } else {
      PhysicalSplit(cs[1..], j - 1, lines);
      assert cs[..j][1..] == cs[1..][..j - 1] && cs[1..][j - 1..] == cs[j..];
      var head := [Framed(cs[0].around, cs[0].text)];
      AppendAssociative(head, Physical(cs[1..]), lines);
      AppendAssociative(head, Physical(cs[1..][..j - 1]), Physical(cs[j..]) + lines);
    }
  }

  /** The array stops at the first line that ends in a bracket, whatever follows. */
  lemma StopsEarly(v: string, cs: seq<Chunk>, j: nat, lines: seq<string>)
    requires v != "" && v[0] == '[' && GoodChunks(cs) && j <= |cs| && RunsOn(v, cs[..j]) && Ends(v, cs[..j])
    ensures Continued(Physical(cs) + lines, v) == (Spaced(v, cs[..j]), j)
  {
    PhysicalSplit(cs, j, lines);
    RunsThrough(v, cs[..j], Physical(cs[j..]) + lines);
  }

  lemma {:induction false} FirstEnd(v: string, cs: seq<Chunk>) returns (j: nat)
    requires !RunsOn(v, cs)
    ensures j < |cs| && RunsOn(v, cs[..j]) && Ends(v, cs[..j])
    decreases |cs|
  {
    var init := cs[..|cs| - 1];
    if RunsOn(v, init) {
      j := |init|;
      assert cs[..j] == init;
      if init == [] { assert EndsBracket(v); }
    } else {
      j := FirstEnd(v, init);
      assert init[..j] == cs[..j];
    }
  }

  /** The reader takes the array from all its lines exactly when no line before the last ends
      in a bracket. */
  lemma TakesAllIff(v: string, cs: seq<Chunk>, lines: seq<string>)
    requires v != "" && v[0] == '[' && GoodChunks(cs) && Ends(v, cs)
    ensures Continued(Physical(cs) + lines, v) == (Spaced(v, cs), |cs|) <==> RunsOn(v, cs)
  {
    if RunsOn(v, cs) {
      RunsThrough(v, cs, lines);
    } else {
      var j := FirstEnd(v, cs);
      StopsEarly(v, cs, j, lines);
    }
  }

  // ----- What such lines assign -----------------------------------------------------------------

  function KeyLine(key: string, v: string): string {
    key + (" = " + v)
  }

  lemma KeyLineReads(a: Around, key: string, v: string)
    requires GoodAround(a) && PlainKey(key) && Tidy(v) && Quiet(v)
    ensures var line := Logical(Framed(a, KeyLine(key, v)));
            && line != "" && line[0] != '#' && line[0] != '[' && '=' in line
            && KeyText(line) == key && ValueText(line) == v
  {
    NeutralPasses(0, key);
    NeutralPasses(0, " = ");
    QuietConcat(" = ", v);
    QuietConcat(key, " = " + v);
    assert key[0] in key && KeyLine(key, v)[0] == key[0];
    CommentDropped(a, KeyLine(key, v));
    EntryParses(key, v);
  }

  /** In any state of the reader, the lines of an array assign the value of the text taken. */
  lemma BrokenAssigns(a: Around, key: string, v: string, cs: seq<Chunk>, lines: seq<string>, root: seq<Entry>,
                      cur: seq<string>)
    requires GoodAround(a) && PlainKey(key) && Tidy(v) && v[0] == '[' && Quiet(v)
    requires GoodChunks(cs) && RunsOn(v, cs) && Ends(v, cs)
    ensures ReadLines([Framed(a, KeyLine(key, v))] + (Physical(cs) + lines), root, cur) ==
            match Assign(root, cur, key, ParseValue(Spaced(v, cs)))
            case None => Raised
            case Some(next) => ReadLines(lines, next, cur)
  {
    var rest := Physical(cs) + lines;
    assert ([Framed(a, KeyLine(key, v))] + rest)[1..] == rest;
    KeyLineReads(a, key, v);
    RunsThrough(v, cs, lines);
    assert rest[|cs|..] == lines;
  }

  lemma {:induction false} SpacedShape(v: string, cs: seq<Chunk>)
    requires v != "" && Quiet(v) && GoodChunks(cs) && Ends(v, cs)
    ensures Quiet(Spaced(v, cs)) && Spaced(v, cs) != "" && Spaced(v, cs)[0] == v[0] && EndsBracket(Spaced(v, cs))
    decreases |cs|
  {
    if cs != [] {
      var c := cs[0];
      assert GoodChunk(c);
      NeutralPasses(0, " ");
      QuietConcat(" ", c.text);
      QuietConcat(v, " " + c.text);
      assert cs[1..] != [] ==> cs[1..][|cs| - 2] == cs[|cs| - 1];
      SpacedShape(v + (" " + c.text), cs[1..]);
    }
  }

  /** An array broken over lines reads as its one-line form when no line before the last ends
      in a bracket. */
  lemma BrokenIsOneLine(a: Around, b: Around, key: string, v: string, cs: seq<Chunk>, lines: seq<string>,
                        root: seq<Entry>, cur: seq<string>)
    requires GoodAround(a) && GoodAround(b) && PlainKey(key) && Tidy(v) && v[0] == '[' && Quiet(v)
    requires GoodChunks(cs) && RunsOn(v, cs) && Ends(v, cs)
    ensures ReadLines([Framed(a, KeyLine(key, v))] + (Physical(cs) + lines), root, cur) ==
            ReadLines([Framed(b, KeyLine(key, Spaced(v, cs)))] + lines, root, cur)
  {
    SpacedShape(v, cs);
    BrokenAssigns(a, key, v, cs, lines, root, cur);
    BrokenAssigns(b, key, Spaced(v, cs), [], lines, root, cur);
    assert Physical([]) + lines == lines;
  }

  /** Otherwise the array is cut at the first line that ends in a bracket, and the lines behind
      it are read as lines of their own. */
  lemma BrokenIsCut(a: Around, key: string, v: string, cs: seq<Chunk>, lines: seq<string>, root: seq<Entry>,
                    cur: seq<string>)
    returns (j: nat)
    requires GoodAround(a) && PlainKey(key) && Tidy(v) && v[0] == '[' && Quiet(v)
    requires GoodChunks(cs) && !RunsOn(v, cs)
    ensures j < |cs| && Ends(v, cs[..j])
    ensures ReadLines([Framed(a, KeyLine(key, v))] + (Physical(cs) + lines), root, cur) ==
            match Assign(root, cur, key, ParseValue(Spaced(v, cs[..j])))
            case None => Raised
            case Some(next) => ReadLines(Physical(cs[j..]) + lines, next, cur)
  {
    j := FirstEnd(v, cs);
    PhysicalSplit(cs, j, lines);
    BrokenAssigns(a, key, v, cs[..j], Physical(cs[j..]) + lines, root, cur);
  }

  /** A line that is blank behind its comment is skipped, and so is one that is neither a header nor
      an assignment. */
  lemma LineSkipped(line: string, rest: seq<string>, root: seq<Entry>, cur: seq<string>)
    requires var text := Logical(line); text == "" || (text[0] != '[' && '=' !in text)
    ensures ReadLines([line] + rest, root, cur) == ReadLines(rest, root, cur)
  {
    assert ([line] + rest)[1..] == rest;
  }

  /** The header of an array of tables raises. */
  lemma DoubleBracketRaises(line: string, rest: seq<string>, root: seq<Entry>, cur: seq<string>)
    requires "[[" <= Logical(line)
    ensures ReadLines([line] + rest, root, cur) == Raised
  {
    assert Logical(line)[0] == "[["[0] && Logical(line)[1] == "[["[1];
  }

  /** When no line ends in a bracket, the array takes every line there is. */
  lemma {:induction false} TakesToTheEnd(v: string, cs: seq<Chunk>)
    requires v != "" && v[0] == '[' && GoodChunks(cs) && RunsOn(v, cs) && !Ends(v, cs)
    ensures Continued(Physical(cs), v) == (Spaced(v, cs), |cs|)
    decreases |cs|
  {
    var all := Physical(cs);
    if cs == [] {
      ContinuedStop(all, v);
    } else {
      var c, rest := cs[0], cs[1..];
      assert all[0] == Framed(c.around, c.text) && all[1..] == Physical(rest);
      assert GoodChunk(c);
      CommentDropped(c.around, c.text);
      ContinuedStep(all, v);
      var next := v + (" " + c.text);
      assert EndsBracket(next) <==> EndsBracket(c.text);
      assert forall i :: 0 <= i < |rest| ==> rest[i] == cs[i + 1];
      TakesToTheEnd(next, rest);
    }
  }
}

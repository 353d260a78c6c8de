/** What the path normalizer and the trimmer do to a text. */
module PathText {
  import opened AnchorModel

  predicate EdgeSpace(s: string) {
    s != "" && GoSpace(s[|s| - 1])
  }

  lemma TrimShorter(s: string)
    ensures |TrimLeft(s)| <= |s| && |TrimRight(s)| <= |s|
    ensures |TrimLeft(s)| == |s| ==> TrimLeft(s) == s && (s == "" || !GoSpace(s[0]))
    ensures |TrimRight(s)| == |s| ==> TrimRight(s) == s && !EdgeSpace(s)
  {
    TrimLeftShorter(s);
    TrimRightShorter(s);
  }

  lemma {:induction false} TrimLeftShorter(s: string)
    ensures |TrimLeft(s)| <= |s|
    ensures |TrimLeft(s)| == |s| ==> TrimLeft(s) == s && (s == "" || !GoSpace(s[0]))
  {
    if s != "" && GoSpace(s[0]) { TrimLeftShorter(s[1..]); }
  }

  lemma {:induction false} TrimRightShorter(s: string)
    ensures |TrimRight(s)| <= |s|
    ensures |TrimRight(s)| == |s| ==> TrimRight(s) == s && !EdgeSpace(s)
  {
    if s != "" && GoSpace(s[|s| - 1]) { TrimRightShorter(s[..|s| - 1]); }
  }

  lemma {:induction false} DropDotSlashShorter(s: string)
    ensures |DropDotSlash(s)| <= |s|
    ensures |DropDotSlash(s)| == |s| ==> DropDotSlash(s) == s
  {
    if |s| >= 2 && s[0] == '.' && s[1] == '/' { DropDotSlashShorter(s[2..]); }
  }

  lemma NormalizeShorter(p: string)
    ensures |NormalizePath(p)| <= |TrimSpace(Slashes(p))| <= |p|
  {
    TrimShorter(Slashes(p));
    TrimShorter(TrimLeft(Slashes(p)));
    DropDotSlashShorter(TrimSpace(Slashes(p)));
  }

  /** A path the normalizer keeps has no space at either edge. */
  lemma NormalizedHasNoEdges(p: string)
    requires NormalizePath(p) == p
    ensures TrimLeft(p) == p && !EdgeSpace(p) && (p == "" || !GoSpace(p[0]))
  {
    NormalizeShorter(p);
    TrimShorter(Slashes(p));
    TrimShorter(TrimLeft(Slashes(p)));
    DropDotSlashShorter(TrimSpace(Slashes(p)));
    assert Slashes(p) == p;
  }

  lemma {:induction false} NoEdgeTrims(s: string)
    requires s == "" || (!GoSpace(s[0]) && !EdgeSpace(s))
    ensures TrimSpace(s) == s
  {
  }

  lemma {:induction false} TrimRightIs(s: string)
    ensures TrimRight(s) <= s && !EdgeSpace(TrimRight(s))
    ensures forall i :: |TrimRight(s)| <= i < |s| ==> GoSpace(s[i])
  {
    if s != "" && GoSpace(s[|s| - 1]) { TrimRightIs(s[..|s| - 1]); }
  }

  lemma {:induction false} TrimLeftIs(s: string)
    ensures |TrimLeft(s)| <= |s| && TrimLeft(s) == s[|s| - |TrimLeft(s)|..]
    ensures TrimLeft(s) == "" || !GoSpace(TrimLeft(s)[0])
  {
    if s != "" && GoSpace(s[0]) { TrimLeftIs(s[1..]); }
  }

  /** A text that starts with a printing character keeps its start. */
  lemma TrimRightAfter(a: string, b: string)
    requires a != "" && !EdgeSpace(a)
    ensures TrimRight(a + b) == a + TrimRight(b)
    decreases |b|
  {
    if b == "" {
      assert a + b == a;
    } else if GoSpace(b[|b| - 1]) {
      assert (a + b)[..|a + b| - 1] == a + b[..|b| - 1];
      TrimRightAfter(a, b[..|b| - 1]);
    }
  }

  lemma {:induction false} DropDotSlashIs(s: string)
    ensures |DropDotSlash(s)| <= |s| && DropDotSlash(s) == s[|s| - |DropDotSlash(s)|..]
    ensures !("./" <= DropDotSlash(s))
  {
    if |s| >= 2 && s[0] == '.' && s[1] == '/' { DropDotSlashIs(s[2..]); }
  }

  // ----- When a normalized path is normal -----------------------------------------------------

  /** The text before the last step of the normalizer. */
  function Undotted(raw: string): string {
    DropDotSlash(TrimSpace(Slashes(raw)))
  }

  /** Only one leading slash goes: the result still starts with one exactly when two stood
      there. */
  lemma SlashKept(raw: string)
    ensures "/" <= NormalizePath(raw) <==> "//" <= Undotted(raw)
    ensures NormalizePath("//a") == "/a"
  {
    var p := Undotted(raw);
    if "//" <= p { assert p[0] == '/' && p[1] == '/'; }
    assert Slashes("//a") == "//a";
    NoEdgeTrims("//a");
  }

  lemma SuffixChar(t: string, r: string, c: char)
    requires |r| <= |t| && r == t[|t| - |r|..] && c in r
    ensures c in t
  {
  }

  lemma TrimmedChar(s: string, c: char)
    requires c in TrimSpace(s)
    ensures c in s
  {
    TrimLeftIs(s);
    TrimRightIs(TrimLeft(s));
    assert c in TrimLeft(s);
    SuffixChar(s, TrimLeft(s), c);
  }

  lemma NormalizedIsSuffix(raw: string)
    ensures var t, r := TrimSpace(Slashes(raw)), NormalizePath(raw);
            |r| <= |t| && r == t[|t| - |r|..]
  {
    DropDotSlashIs(TrimSpace(Slashes(raw)));
  }

  /** No backslash and no trailing space is left. */
  lemma NormalizedTail(raw: string)
    ensures '\\' !in NormalizePath(raw) && !EdgeSpace(NormalizePath(raw))
  {
    var t, r := TrimSpace(Slashes(raw)), NormalizePath(raw);
    NormalizedIsSuffix(raw);
    TrimRightIs(TrimLeft(Slashes(raw)));
    forall c | c in r ensures c != '\\' {
      SuffixChar(t, r, c);
      TrimmedChar(Slashes(raw), c);
    }
    assert r != "" ==> r[|r| - 1] == t[|t| - 1];
  }

  lemma {:induction false} NoBackslash(s: string)
    requires '\\' !in s
    ensures Slashes(s) == s
  {
    assert forall i :: 0 <= i < |s| ==> s[i] in s;
  }

  predicate PlainStart(r: string) {
    r == "" || !(r[0] == '/' || GoSpace(r[0]) || "./" <= r)
  }

  lemma PlainIsFixed(r: string)
    requires '\\' !in r && !EdgeSpace(r) && PlainStart(r)
    ensures NormalizePath(r) == r
  {
    NoBackslash(r);
    NoEdgeTrims(r);
    assert |r| >= 2 && r[0] == '.' && r[1] == '/' ==> "./" <= r;
  }

  lemma FixedIsPlain(r: string)
    requires NormalizePath(r) == r
    ensures PlainStart(r) && '\\' !in r && !EdgeSpace(r)
  {
    NormalizedHasNoEdges(r);
    NormalizedTail(r);
    DropDotSlashIs(TrimSpace(Slashes(r)));
    NormalizeShorter(r);
  }

  /** Normalizing is idempotent on a path exactly when its result starts with neither '/', nor
      "./", nor a space. */
  lemma NormalizeFixedIff(raw: string)
    ensures NormalizePath(NormalizePath(raw)) == NormalizePath(raw) <==> PlainStart(NormalizePath(raw))
  {
    var r := NormalizePath(raw);
    NormalizedTail(raw);
    if PlainStart(r) {
      PlainIsFixed(r);
    } else if NormalizePath(r) == r {
      FixedIsPlain(r);
    }
  }

  /** A prefix of a normalized path normalizes to itself without its trailing spaces. */
  lemma PrefixNormalizes(path: string, s: string)
    requires NormalizePath(path) == path && s <= path
    ensures NormalizePath(s) == TrimRight(s)
    ensures TrimRight(s) == "" <==> s == ""
  {
    FixedIsPlain(path);
    TrimRightIs(s);
    var t := TrimRight(s);
    assert forall c :: c in s ==> c in path;
    NoBackslash(s);
    if s != "" {
      assert s[0] == path[0];
      assert !GoSpace(s[0]);
      assert "./" <= t ==> "./" <= path;
      NoBackslash(t);
      PlainIsFixed(t);
      TrimmedNormalizes(s);
    }
  }

  lemma TrimmedNormalizes(s: string)
    requires s != "" && !GoSpace(s[0]) && '\\' !in s
    ensures NormalizePath(s) == NormalizePath(TrimRight(s))
  {
    var t := TrimRight(s);
    TrimRightIs(s);
    NoBackslash(s);
    NoBackslash(t);
    assert t != "" && t[0] == s[0];
    NoEdgeTrims(t);
  }

  // ----- What the normalizer drops, one step at a time --------------------------------------------

  predicate White(c: char) {
    c == ' ' || 9 <= c as int <= 13 || c as int == 0x85 || c as int == 0xA0
  }

  /** A backslash reads as a slash. */
  lemma NormalizeBackslash(a: string, b: string)
    ensures NormalizePath(a + ("\\" + b)) == NormalizePath(a + ("/" + b))
  {
    assert Slashes(a + ("\\" + b)) == Slashes(a + ("/" + b));
  }

  /** White space at either end goes. */
  lemma NormalizeWhite(c: char, s: string)
    requires White(c)
    ensures NormalizePath([c] + s) == NormalizePath(s)
    ensures NormalizePath(s + [c]) == NormalizePath(s)
  {
    assert Slashes([c] + s) == [c] + Slashes(s) && Slashes(s + [c]) == Slashes(s) + [c];
    assert ([c] + Slashes(s))[1..] == Slashes(s);
    TrimBothEnds(Slashes(s), c);
  }

  lemma {:induction false} TrimBothEnds(s: string, c: char)
    requires GoSpace(c)
    ensures TrimSpace(s + [c]) == TrimSpace(s)
    decreases |s|
  {
    if s == "" {
      assert "" + [c] == [c] && [c][1..] == "";
    } else if GoSpace(s[0]) {
      assert (s + [c])[1..] == s[1..] + [c];
      TrimBothEnds(s[1..], c);
    } else {
      assert TrimLeft(s + [c]) == s + [c];
      assert (s + [c])[..|s|] == s;
    }
  }

  /** A leading "./" goes; a blank behind it then stays. */
  lemma NormalizeDot(s: string)
    requires '\\' !in s && !EdgeSpace(s)
    ensures NormalizePath("./" + s) == if s != "" && White(s[0]) then s else NormalizePath(s)
  {
    var t := "./" + s;
    forall c | c in t ensures c != '\\' {}
    NoBackslash(t);
    NoBackslash(s);
    assert t[2..] == s;
    NoEdgeTrims(t);
    if s != "" && White(s[0]) {
      assert DropDotSlash(s) == s;
    } else {
      NoEdgeTrims(s);
    }
  }

  /** One leading slash goes, and nothing else of a clean text. */
  lemma NormalizeSlash(s: string)
    requires '\\' !in s && !EdgeSpace(s)
    ensures NormalizePath("/" + s) == s
  {
    var t := "/" + s;
    forall c | c in t ensures c != '\\' {}
    NoBackslash(t);
    NoEdgeTrims(t);
    assert t[1..] == s;
  }

  /** A text with none of these is its own normal form. */
  lemma NormalizePlain(s: string)
    requires '\\' !in s
    requires s != "" ==> !White(s[0]) && !White(s[|s| - 1]) && s[0] != '/'
    requires |s| >= 2 ==> s[0] != '.' || s[1] != '/'
    ensures NormalizePath(s) == s
  {
    PlainIsFixed(s);
  }
}

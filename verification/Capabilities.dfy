/** The attacker capability vocabulary: canonical labels and their kinds.

Strings are ASCII; the whitespace set is Python's on that range.
*/
module Capabilities {
  import opened Ordering

  predicate IsSpace(c: char) {
    c == ' ' || ('\t' <= c <= '\r') || ('\U{1c}' <= c <= '\U{1f}')
  }

  function LowerChar(c: char): char {
    if 'A' <= c <= 'Z' then (c as int + 32) as char else c
  }

  function Lower(s: string): (r: string)
    ensures |r| == |s|
    ensures forall i :: 0 <= i < |s| ==> r[i] == LowerChar(s[i])
  {
    if s == "" then "" else [LowerChar(s[0])] + Lower(s[1..])
  }

  function DashesToSpaces(s: string): (r: string)
    ensures |r| == |s|
    ensures forall i :: 0 <= i < |s| ==> r[i] == if s[i] == '-' then ' ' else s[i]
  {
    if s == "" then "" else [if s[0] == '-' then ' ' else s[0]] + DashesToSpaces(s[1..])
  }

  /** The length of the leading run of non-space characters. */
  function WordLength(s: string): (n: nat)
    ensures n <= |s|
    ensures forall i :: 0 <= i < n ==> !IsSpace(s[i])
    ensures n < |s| ==> IsSpace(s[n])
  {
    if s == "" || IsSpace(s[0]) then 0 else 1 + WordLength(s[1..])
  }

  ghost predicate IsWord(w: string) {
    w != "" && forall i :: 0 <= i < |w| ==> !IsSpace(w[i])
  }

  /** Python's `str.split()`: the maximal runs of non-space characters. */
  function Fields(s: string): (r: seq<string>)
    ensures forall w :: w in r ==> IsWord(w)
    decreases |s|
  {
    if s == "" then []
    else if IsSpace(s[0]) then Fields(s[1..])
    else
      var n := WordLength(s);
      [s[..n]] + Fields(s[n..])
  }

  function Words(raw: string): seq<string> {
    Fields(DashesToSpaces(Lower(raw)))
  }

  function NormalizeLabel(raw: string): string {
    Join(Words(raw), '_')
  }

  // ----- Canonical form ------------------------------------------------------

  ghost predicate CanonicalChar(c: char) {
    !IsSpace(c) && c != '-' && LowerChar(c) == c
  }

  ghost predicate Canonical(s: string) {
    forall i :: 0 <= i < |s| ==> CanonicalChar(s[i])
  }

  lemma {:induction false} FieldsDrawFrom(s: string)
    ensures forall w, i :: w in Fields(s) && 0 <= i < |w| ==> w[i] in s
    decreases |s|
  {
    if s != "" {
      if IsSpace(s[0]) {
        FieldsDrawFrom(s[1..]);
      } else {
        FieldsDrawFrom(s[WordLength(s)..]);
      }
    }
  }

  lemma {:induction false} JoinCanonical(items: seq<string>)
    requires forall w :: w in items ==> Canonical(w)
    ensures Canonical(Join(items, '_'))
  {
    if |items| > 1 {
      JoinCanonical(items[1..]);
      assert Canonical(items[0]);
    } else if |items| == 1 {
      assert Canonical(items[0]);
    }
  }

  lemma WordsCanonical(raw: string)
    ensures forall w :: w in Words(raw) ==> w != "" && Canonical(w)
  {
    var text := DashesToSpaces(Lower(raw));
    FieldsDrawFrom(text);
    forall w, i | w in Words(raw) && 0 <= i < |w| ensures CanonicalChar(w[i]) {
      assert IsWord(w);
      assert w[i] in text;
    }
  }

  /** A label with no space, dash or capital is its own canonical form. */
  lemma CanonicalFixed(s: string)
    requires Canonical(s)
    ensures Words(s) == if s == "" then [] else [s]
    ensures NormalizeLabel(s) == s
  {
    var text := DashesToSpaces(Lower(s));
    assert forall i :: 0 <= i < |s| ==> CanonicalChar(s[i]);
    assert text == s;
    if s != "" {
      assert CanonicalChar(s[0]);
      assert WordLength(s) == |s| by {
        assert forall i :: 0 <= i < |s| ==> !IsSpace(s[i]);
      }
      assert s[..|s|] == s && Fields(s[|s|..]) == [];
    }
  }

  /** Canonical labels are exactly the outputs of the normalizer, and normalizing twice
      is normalizing once. */
  lemma NormalizeIdempotent(raw: string)
    ensures Canonical(NormalizeLabel(raw))
    ensures NormalizeLabel(NormalizeLabel(raw)) == NormalizeLabel(raw)
  {
    WordsCanonical(raw);
    JoinCanonical(Words(raw));
    CanonicalFixed(NormalizeLabel(raw));
  }

  /** A label is its own normal form exactly when it is canonical. */
  lemma CanonicalExact(s: string)
    ensures NormalizeLabel(s) == s <==> Canonical(s)
  {
    if Canonical(s) { CanonicalFixed(s); }
    NormalizeIdempotent(s);
  }

  // ----- The normal form, read off the characters -----------------------------------------------

  /** A character that stands between words: a blank, a control blank or a dash. */
  predicate Separator(c: char) {
    c == ' ' || c == '-' || 9 <= c as int <= 13 || 28 <= c as int <= 31
  }

  /** The text with every capital replaced by its small letter. */
  function Folded(s: string): (r: string)
    ensures |r| == |s|
    ensures forall i :: 0 <= i < |s| ==>
              if 'A' <= s[i] <= 'Z' then r[i] as int == s[i] as int + 32 else r[i] == s[i]
  {
    seq(|s|, i requires 0 <= i < |s| => if 'A' <= s[i] <= 'Z' then (s[i] as int + 32) as char else s[i])
  }

  lemma FlatOfWord(w: string)
    requires forall c :: c in w ==> !Separator(c)
    ensures DashesToSpaces(Lower(w)) == Folded(w) && (w != "" ==> IsWord(Folded(w)))
  {
    forall i | 0 <= i < |w| ensures Lower(w)[i] == Folded(w)[i] != '-' && !IsSpace(Folded(w)[i]) {
      assert w[i] in w;
      FoldedChar(w[i]);
    }
    NoDashes(Lower(w));
    assert Lower(w) == Folded(w);
  }

  lemma NoDashes(s: string)
    requires forall i :: 0 <= i < |s| ==> s[i] != '-'
    ensures DashesToSpaces(s) == s
  {
  }

  lemma FoldedChar(c: char)
    requires !Separator(c)
    ensures LowerChar(c) != '-' && !IsSpace(LowerChar(c))
    ensures if 'A' <= c <= 'Z' then LowerChar(c) as int == c as int + 32 else LowerChar(c) == c
  {
  }

  lemma FieldsOfOne(w: string)
    requires IsWord(w)
    ensures Fields(w) == [w]
  {
    assert WordLength(w) == |w|;
    assert w[..|w|] == w && Fields(w[|w|..]) == [];
  }

  lemma FieldsOfWord(w: string, rest: string)
    requires IsWord(w) && (rest == "" || IsSpace(rest[0]))
    ensures Fields(w + rest) == [w] + Fields(rest)
  {
    var s := w + rest;
    assert s[0] == w[0];
    var n := WordLength(s);
    assert n == |w| by {
      assert forall i :: 0 <= i < |w| ==> s[i] == w[i];
      assert |w| < |s| ==> s[|w|] == rest[0];
    }
    assert s[..n] == w && s[n..] == rest;
  }

  /** A blank cuts a text in two that are split by themselves. */
  lemma {:induction false} FieldsCut(a: string, sp: char, b: string)
    requires IsSpace(sp)
    ensures Fields(a + ([sp] + b)) == Fields(a) + Fields(b)
    decreases |a|
  {
    if a == "" {
      assert a + ([sp] + b) == [sp] + b;
      assert ([sp] + b)[1..] == b;
    } else if IsSpace(a[0]) {
      TailAppend(a, [sp] + b);
      FieldsCut(a[1..], sp, b);
    } else {
      var n := WordLength(a);
      FieldsCut(a[n..], sp, b);
      assert a == a[..n] + a[n..];
      AppendAssociative(a[..n], a[n..], [sp] + b);
      FieldsOfWord(a[..n], a[n..] + ([sp] + b));
      AppendAssociative([a[..n]], Fields(a[n..]), Fields(b));
    }
  }

  lemma {:induction false} LowerConcat(a: string, b: string)
    ensures Lower(a + b) == Lower(a) + Lower(b)
  {
    if a == "" {
      assert a + b == b;
    } else {
      TailAppend(a, b);
      LowerConcat(a[1..], b);
      AppendAssociative([LowerChar(a[0])], Lower(a[1..]), Lower(b));
    }
  }

  lemma {:induction false} DashesConcat(a: string, b: string)
    ensures DashesToSpaces(a + b) == DashesToSpaces(a) + DashesToSpaces(b)
  {
    if a == "" {
      assert a + b == b;
    } else {
      TailAppend(a, b);
      DashesConcat(a[1..], b);
      AppendAssociative([if a[0] == '-' then ' ' else a[0]], DashesToSpaces(a[1..]), DashesToSpaces(b));
    }
  }

  /** What `NormalizeLabel` splits into words. */
  function Flat(raw: string): string {
    DashesToSpaces(Lower(raw))
  }

  lemma FlatConcat(a: string, b: string)
    ensures Flat(a + b) == Flat(a) + Flat(b)
  {
    LowerConcat(a, b);
    DashesConcat(Lower(a), Lower(b));
  }

  lemma FlatSeparator(c: char)
    requires Separator(c)
    ensures |Flat([c])| == 1 && IsSpace(Flat([c])[0])
  {
  }

  /** A separator cuts a spelling in two whose words follow each other. */
  lemma WordsCut(a: string, c: char, b: string)
    requires Separator(c)
    ensures Words(a + ([c] + b)) == Words(a) + Words(b)
  {
    FlatConcat(a, [c] + b);
    FlatConcat([c], b);
    FlatSeparator(c);
    assert Flat([c]) == [Flat([c])[0]];
    FieldsCut(Flat(a), Flat([c])[0], Flat(b));
  }

  lemma {:induction false} JoinWords(a: seq<string>, b: seq<string>)
    requires a != [] && b != []
    ensures Join(a + b, '_') == Join(a, '_') + (['_'] + Join(b, '_'))
    decreases |a|
  {
    if |a| == 1 {
      assert (a + b)[1..] == b && (a + b)[0] == a[0];
    } else {
      TailAppend(a, b);
      JoinWords(a[1..], b);
      AppendAssociative(['_'], Join(a[1..], '_'), ['_'] + Join(b, '_'));
      AppendAssociative(a[0], ['_'] + Join(a[1..], '_'), ['_'] + Join(b, '_'));
    }
  }

  lemma NoWordsEmpty(raw: string)
    ensures NormalizeLabel(raw) == "" <==> Words(raw) == []
  {
    if Words(raw) != [] {
      assert IsWord(Words(raw)[0]);
    }
  }

  /** A spelling without separators is normalized by folding its capitals, and by nothing else. */
  lemma NormalizeWord(w: string)
    requires forall c :: c in w ==> !Separator(c)
    ensures NormalizeLabel(w) == Folded(w)
  {
    FlatOfWord(w);
    if w != "" {
      FieldsOfOne(Folded(w));
    }
  }

  /** At any separator the normal forms of the two sides are joined by one underscore; a side
      without a word leaves no trace. With `NormalizeWord` this determines the normal form of
      every spelling. */
  lemma NormalizeSplits(a: string, c: char, b: string)
    requires Separator(c)
    ensures var x, y := NormalizeLabel(a), NormalizeLabel(b);
            NormalizeLabel(a + ([c] + b)) == if x == "" then y else if y == "" then x else x + (['_'] + y)
  {
    WordsCut(a, c, b);
    NoWordsEmpty(a);
    NoWordsEmpty(b);
    if Words(a) == [] {
      assert Words(a) + Words(b) == Words(b);
    } else if Words(b) == [] {
      assert Words(a) + Words(b) == Words(a);
    } else {
      JoinWords(Words(a), Words(b));
    }
  }

  /** The second spelling differs from the first only in small letters for capitals and in blanks
      for dashes. */
  predicate Respelled(a: string, b: string) {
    && |a| == |b|
    && forall i :: 0 <= i < |a| ==>
         || a[i] == b[i]
         || ('A' <= a[i] <= 'Z' && b[i] as int == a[i] as int + 32)
         || (a[i] == '-' && b[i] == ' ')
  }

  /** Case and dashes make no difference. */
  lemma RespelledAlike(a: string, b: string)
    requires Respelled(a, b)
    ensures NormalizeLabel(a) == NormalizeLabel(b)
  {
    assert Flat(a) == Flat(b);
  }

  /** A normal form holds no capital, no dash and no blank. */
  lemma NormalCharacters(raw: string, c: char)
    requires c in NormalizeLabel(raw)
    ensures !('A' <= c <= 'Z') && !Separator(c)
  {
    NormalizeIdempotent(raw);
    var n := NormalizeLabel(raw);
    var i :| 0 <= i < |n| && n[i] == c;
    assert CanonicalChar(n[i]);
  }

  /** The position of the first separator, or the length of the text. */
  function FirstCut(raw: string): (k: nat)
    ensures k <= |raw| && (k < |raw| ==> Separator(raw[k]))
    ensures forall j :: 0 <= j < k ==> !Separator(raw[j])
  {
    if raw == "" || Separator(raw[0]) then 0 else 1 + FirstCut(raw[1..])
  }

  /** The folded words of a spelling, cut further at underscores. */
  function Pieces(raw: string): seq<string>
    decreases |raw|
  {
    var k := FirstCut(raw);
    if k < |raw| then Pieces(raw[..k]) + Pieces(raw[k + 1..])
    else if raw == "" then []
    else Split(Folded(raw), '_')
  }

  lemma PiecesAppend(x: string, y: string)
    ensures (if x == "" then [] else Split(x, '_')) + (if y == "" then [] else Split(y, '_')) ==
            var n := if x == "" then y else if y == "" then x else x + (['_'] + y);
            if n == "" then [] else Split(n, '_')
  {
    SplitConcat(x, y, '_');
  }

  lemma {:induction false} PiecesRead(raw: string)
    ensures Pieces(raw) == if NormalizeLabel(raw) == "" then [] else Split(NormalizeLabel(raw), '_')
    decreases |raw|
  {
    var k := FirstCut(raw);
    if k < |raw| {
      assert raw == raw[..k] + ([raw[k]] + raw[k + 1..]);
      PiecesRead(raw[..k]);
      PiecesRead(raw[k + 1..]);
      NormalizeSplits(raw[..k], raw[k], raw[k + 1..]);
      PiecesAppend(NormalizeLabel(raw[..k]), NormalizeLabel(raw[k + 1..]));
    } else {
      NormalizeWord(raw);
    }
  }

  /** Two spellings have the same normal form exactly when they have the same folded words, up to
      where the words are joined by underscores. */
  lemma NormalizeIdentifies(a: string, b: string)
    ensures NormalizeLabel(a) == NormalizeLabel(b) <==> Pieces(a) == Pieces(b)
  {
    PiecesRead(a);
    PiecesRead(b);
    JoinSplit(NormalizeLabel(a), '_');
    JoinSplit(NormalizeLabel(b), '_');
  }

  // ----- Label lists -----------------------------------------------------------

  predicate Blank(s: string) {
    forall i :: 0 <= i < |s| ==> IsSpace(s[i])
  }

  function LabelSet(values: seq<string>): set<string> {
    set v | v in values && !Blank(v) :: NormalizeLabel(v)
  }

  lemma LabelIsNormal(values: seq<string>, cap: string)
    requires cap in LabelSet(values)
    ensures NormalizeLabel(cap) == cap
  {
    var v :| v in values && cap == NormalizeLabel(v);
    NormalizeIdempotent(v);
  }

  lemma LabelSetPush(values: seq<string>, v: string)
    ensures LabelSet(values + [v]) == LabelSet(values) + if Blank(v) then {} else {NormalizeLabel(v)}
  {
  }

  /** A label other than the empty one is listed exactly when some value normalizes to it. */
  lemma LabelListed(values: seq<string>, cap: string)
    requires cap != ""
    ensures cap in LabelSet(values) <==> exists v :: v in values && NormalizeLabel(v) == cap
  {
    forall v | Blank(v) ensures NormalizeLabel(v) == "" { BlankIsEmpty(v); }
  }

  lemma {:induction false} BlankIsEmpty(v: string)
    requires forall c :: c in v ==> Separator(c)
    ensures NormalizeLabel(v) == ""
  {
    if v != "" {
      BlankIsEmpty(v[1..]);
      assert v == "" + ([v[0]] + v[1..]);
      NormalizeWord("");
      NormalizeSplits("", v[0], v[1..]);
    }
  }

  /** `NormalizeLabels`: drop blank values, normalize, keep first occurrences, sort. */
  method NormalizeLabels(values: seq<string>) returns (out: seq<string>)
    ensures out == SetKeys(LabelSet(values))
  {
    var seen: set<string> := {};
    out := [];
    for i := 0 to |values|
      invariant seen == SetOf(out) == LabelSet(values[..i])
      invariant Distinct(out)
    {
      var v := values[i];
      LabelSetPush(values[..i], v);
      assert values[..i + 1] == values[..i] + [v];
      if !Blank(v) {
        var n := NormalizeLabel(v);
        if n !in seen {
          seen := seen + {n};
          SetOfPush(out, n);
          out := out + [n];
        }
      }
    }
    assert values[..|values|] == values;
    SortedListing(out);
    out := SortStrings(out);
    SetKeysUnique(out, LabelSet(values));
  }

  lemma SideKept(a: string, c: char, b: string)
    requires Separator(c) && (NormalizeLabel(a) != "" || NormalizeLabel(b) != "")
    ensures NormalizeLabel(a + ([c] + b)) != ""
  {
    NormalizeSplits(a, c, b);
  }

  lemma CutParts(v: string, k: nat)
    requires k < |v|
    ensures v == v[..k] + ([v[k]] + v[k + 1..])
  {
  }

  lemma {:induction false} EmptyIsBlank(v: string, i: nat)
    requires i < |v| && !Separator(v[i])
    ensures NormalizeLabel(v) != ""
    decreases |v|
  {
    var k := FirstCut(v);
    if k < |v| {
      CutParts(v, k);
      if i < k { EmptyIsBlank(v[..k], i); } else { EmptyIsBlank(v[k + 1..], i - k - 1); }
      SideKept(v[..k], v[k], v[k + 1..]);
    } else {
      NormalizeWord(v);
    }
  }

  /** The normalized list drops blank values only: a value of dashes and blanks, with a dash,
      survives as the empty label. */
  lemma EmptyLabelKept(values: seq<string>)
    ensures "" in LabelSet(values) <==> exists v :: v in values && '-' in v && forall c :: c in v ==> Separator(c)
    ensures "" in LabelSet(["-"])
  {
    forall v ensures NormalizeLabel(v) == "" <==> forall c :: c in v ==> Separator(c) {
      if forall c :: c in v ==> Separator(c) {
        BlankIsEmpty(v);
      } else {
        var c :| c in v && !Separator(c);
        var i :| 0 <= i < |v| && v[i] == c;
        EmptyIsBlank(v, i);
      }
    }
    forall v: string | forall c :: c in v ==> Separator(c) ensures Blank(v) <==> '-' !in v { BlankOrDash(v); }
    assert '-' in "-";
    BlankIsEmpty("-");
    assert "-" in ["-"] && !Blank("-");
  }

  lemma BlankOrDash(v: string)
    requires forall c :: c in v ==> Separator(c)
    ensures Blank(v) <==> '-' !in v
  {
    forall i | 0 <= i < |v| ensures IsSpace(v[i]) <==> v[i] != '-' { assert v[i] in v; }
  }

  // ----- Roles -------------------------------------------------------------------

  function RoleLabel(role: string): string {
    NormalizeLabel("role " + role)
  }

  predicate IsRoleLabel(raw: string) {
    var n := NormalizeLabel(raw);
    "role_" <= n && |n| > |"role_"|
  }

  function RoleFromLabel(raw: string): Option<string> {
    if IsRoleLabel(raw) then Some(NormalizeLabel(raw)[|"role_"|..]) else None
  }

  lemma RolePrefix()
    ensures Flat("role ") == "role" + [' ']
  {
    var s := "role ";
    assert |Flat(s)| == 5;
    assert Flat(s)[0] == 'r' && Flat(s)[1] == 'o' && Flat(s)[2] == 'l' && Flat(s)[3] == 'e' && Flat(s)[4] == ' ';
  }

  lemma RoleWords(role: string)
    ensures Words("role " + role) == ["role"] + Words(role)
  {
    FlatConcat("role ", role);
    RolePrefix();
    AppendAssociative("role", [' '], Flat(role));
    FieldsOfWord("role", [' '] + Flat(role));
    assert ([' '] + Flat(role))[1..] == Flat(role);
  }

  /** A label is a role's exactly when its normal form is "role_" and something. */
  lemma RoleLabelExact(raw: string)
    ensures IsRoleLabel(raw) <==> exists id :: id != "" && NormalizeLabel(raw) == "role_" + id
  {
    var n := NormalizeLabel(raw);
    if IsRoleLabel(raw) {
      assert n == "role_" + n[5..];
    }
  }

  /** A role survives the trip through its label exactly when its name is not empty. */
  lemma RoleRoundTrip(role: string)
    ensures RoleFromLabel(RoleLabel(role)) ==
            if NormalizeLabel(role) == "" then None else Some(NormalizeLabel(role))
  {
    RoleWords(role);
    NormalizeIdempotent("role " + role);
    if Words(role) == [] {
      assert RoleLabel(role) == "role";
    } else {
      assert IsWord(Words(role)[0]);
      assert (["role"] + Words(role))[1..] == Words(role);
      assert RoleLabel(role) == "role" + (['_'] + NormalizeLabel(role));
      assert RoleLabel(role)[5..] == NormalizeLabel(role);
      assert NormalizeLabel(role) != "";
    }
  }

  // ----- Kinds ---------------------------------------------------------------------

  /** The kinds in the order `kind_of` tries them, each with its starter vocabulary. */
  const TAXONOMY: seq<(string, seq<string>)> := [
    ("authority",
     ["call_any_entry_point", "hold_governor", "hold_pauser", "hold_oracle_updater", "set_implementation",
      "grant_role"]),
    ("state",
     ["write_accounting_state", "force_liquidation", "skip_initialization", "reopen_closed_position",
      "control_protocol_pause"]),
    ("market", ["move_spot_price", "control_perceived_asset_price", "access_flash_liquidity", "manipulate_pool_depth"]),
    ("asset", ASSETS),
    ("information", ["read_private_state", "front_run_internal_call"]),
    ("execution", ["trigger_callback", "delegatecall_attacker_code", "reenter_victim"]),
    ("timing", ["act_within_cooldown", "win_auction", "cross_epoch_boundary"]),
    ("liveness", ["liveness_loss"])]

  const ASSETS: seq<string> := ["withdraw_unbacked_assets", "extract_protocol_liquidity", "retain_extracted_funds",
                                "drain_treasury", "steal_pending_rewards"]

  /** The first kind from position `k` on whose vocabulary carries the label. */
  function KindFrom(norm: string, k: nat): Option<string>
    requires k <= |TAXONOMY|
    decreases |TAXONOMY| - k
  {
    if k == |TAXONOMY| then None
    else if norm in TAXONOMY[k].1 then Some(TAXONOMY[k].0)
    else KindFrom(norm, k + 1)
  }

  function KindOf(raw: string): Option<string> {
    if IsRoleLabel(raw) then Some("authority") else KindFrom(NormalizeLabel(raw), 0)
  }

  predicate IsTerminal(raw: string) {
    KindOf(raw) == Some("asset") || KindOf(raw) == Some("liveness")
  }

  predicate IsLivenessTerminal(raw: string) {
    KindOf(raw) == Some("liveness")
  }

  lemma KindFromLater(norm: string, k: nat)
    requires 4 <= k <= 8
    ensures KindFrom(norm, k) != Some("asset")
    ensures KindFrom(norm, k) == Some("liveness") ==> norm == "liveness_loss"
    decreases 8 - k
  {
    if k < 8 { KindFromLater(norm, k + 1); }
  }

  lemma KindFromAsset(norm: string)
    requires norm in ASSETS
    ensures KindFrom(norm, 0) == Some("asset")
  {
    forall k | 0 <= k < 3 ensures norm !in TAXONOMY[k].1 {}
    assert KindFrom(norm, 3) == KindFrom(norm, 2) == KindFrom(norm, 1) == KindFrom(norm, 0);
  }

  lemma KindFromLiveness()
    ensures KindFrom("liveness_loss", 0) == Some("liveness")
  {
    var n := "liveness_loss";
    forall k | 0 <= k < 7 ensures n !in TAXONOMY[k].1 {}
    assert KindFrom(n, 7) == KindFrom(n, 6) == KindFrom(n, 5) == KindFrom(n, 4) == KindFrom(n, 3) == KindFrom(n, 2) ==
           KindFrom(n, 1) == KindFrom(n, 0);
  }

  /** The terminal labels are the six asset and liveness spellings, in any spelling that
      normalizes to one of them. */
  lemma TerminalLabels(raw: string)
    ensures IsTerminal(raw) <==> NormalizeLabel(raw) in ASSETS + ["liveness_loss"]
    ensures IsLivenessTerminal(raw) <==> NormalizeLabel(raw) == "liveness_loss"
  {
    var n := NormalizeLabel(raw);
    if n in ASSETS {
      KindFromAsset(n);
      assert n[0] != 'r' || n[1] == 'e';
    } else if n == "liveness_loss" {
      KindFromLiveness();
      assert n[0] == 'l';
    } else {
      KindFromLater(n, 4);
      assert KindFrom(n, 0) != Some("asset") && KindFrom(n, 0) != Some("liveness");
    }
  }

  /** The six spellings, one by one. */
  lemma SixTerminals(raw: string)
    ensures var n := NormalizeLabel(raw);
            && (IsLivenessTerminal(raw) <==> n == "liveness_loss")
            && (IsTerminal(raw) <==>
                n == "liveness_loss" || n == "withdraw_unbacked_assets" || n == "extract_protocol_liquidity"
                || n == "retain_extracted_funds" || n == "drain_treasury" || n == "steal_pending_rewards")
  {
    var n := NormalizeLabel(raw);
    TerminalLabels(raw);
    ListedAssets(n);
  }

  lemma ListedAssets(n: string)
    ensures n in ASSETS + ["liveness_loss"] <==>
            n == "liveness_loss" || n == "withdraw_unbacked_assets" || n == "extract_protocol_liquidity"
            || n == "retain_extracted_funds" || n == "drain_treasury" || n == "steal_pending_rewards"
  {
    var all := ASSETS + ["liveness_loss"];
    assert all[0] == "withdraw_unbacked_assets" && all[1] == "extract_protocol_liquidity"
           && all[2] == "retain_extracted_funds";
    assert all[3] == "drain_treasury" && all[4] == "steal_pending_rewards" && all[5] == "liveness_loss" && |all| == 6;
  }
}

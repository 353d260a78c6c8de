/** Go's string order, its sorts and its sorted set listings.

`Leq` is byte order on strings.  `Sort` stands for both `sort.Strings` and
`sort.SliceStable`: a stable sort by any total preorder.  `SetKeys` is the sorted
key list every `map[string]struct{}` of the source is read through.
*/
module Ordering {

  datatype Option<+T> = None | Some(value: T)

  // ----- Orders ----------------------------------------------------------

  ghost predicate TotalPreorder<T(!new)>(le: (T, T) -> bool) {
    && (forall a, b :: le(a, b) || le(b, a))
    && (forall a, b, c :: le(a, b) && le(b, c) ==> le(a, c))
  }

  ghost predicate SortedBy<T>(le: (T, T) -> bool, s: seq<T>) {
    forall i, j :: 0 <= i < j < |s| ==> le(s[i], s[j])
  }

  predicate Leq(a: string, b: string) {
    a == [] || (b != [] && (a[0] < b[0] || (a[0] == b[0] && Leq(a[1..], b[1..]))))
  }

  lemma {:induction false} LeqTotal(a: string, b: string)
    ensures Leq(a, b) || Leq(b, a)
    ensures Leq(a, b) && Leq(b, a) ==> a == b
  {
    if a != [] && b != [] && a[0] == b[0] {
      LeqTotal(a[1..], b[1..]);
    }
  }

  lemma {:induction false} LeqTransitive(a: string, b: string, c: string)
    requires Leq(a, b) && Leq(b, c)
    ensures Leq(a, c)
  {
    if a != [] && a[0] == b[0] && b[0] == c[0] {
      LeqTransitive(a[1..], b[1..], c[1..]);
    }
  }

  /** The first difference decides, and a beginning of a text comes before it. */
  lemma {:induction false} LeqExact(a: string, b: string)
    ensures Leq(a, b) <==>
            a <= b || exists i :: 0 <= i < |a| && i < |b| && a[..i] == b[..i] && a[i] as int < b[i] as int
    decreases |a|
  {
    if a != [] && b != [] && a[0] == b[0] {
      LeqExact(a[1..], b[1..]);
      assert a == [a[0]] + a[1..] && b == [b[0]] + b[1..];
      if i :| 0 <= i < |a[1..]| && i < |b[1..]| && a[1..][..i] == b[1..][..i] && a[1..][i] as int < b[1..][i] as int {
        assert a[..i + 1] == [a[0]] + a[1..][..i] && b[..i + 1] == [b[0]] + b[1..][..i];
        assert a[i + 1] == a[1..][i] && b[i + 1] == b[1..][i];
      }
      if i :| 0 <= i < |a| && i < |b| && a[..i] == b[..i] && a[i] as int < b[i] as int {
        assert i > 0;
        LaterDifference(a, b, i);
      }
    } else if a != [] && b != [] {
      assert a[..0] == b[..0];
      forall i | 0 < i < |a| && i < |b| ensures a[..i] != b[..i] { assert a[..i][0] != b[..i][0]; }
    }
  }

  lemma LaterDifference(a: string, b: string, i: nat)
    requires 0 < i < |a| && i < |b| && a[..i] == b[..i] && a[i] as int < b[i] as int
    ensures exists j :: 0 <= j < |a[1..]| && j < |b[1..]| && a[1..][..j] == b[1..][..j]
                        && a[1..][j] as int < b[1..][j] as int
  {
    assert a[1..][..i - 1] == a[..i][1..] && b[1..][..i - 1] == b[..i][1..];
    assert a[1..][i - 1] == a[i] && b[1..][i - 1] == b[i];
  }

  lemma LeqIsTotalOrder()
    ensures TotalPreorder(Leq) && Antisymmetric(Leq)
  {
    forall a, b ensures Leq(a, b) || Leq(b, a) ensures Leq(a, b) && Leq(b, a) ==> a == b {
      LeqTotal(a, b);
    }
    forall a, b, c | Leq(a, b) && Leq(b, c) ensures Leq(a, c) { LeqTransitive(a, b, c); }
  }

  // ----- Stable sort -----------------------------------------------------

  function Insert<T>(le: (T, T) -> bool, x: T, s: seq<T>): (r: seq<T>) {
    if s == [] then [x]
    else if le(x, s[0]) then [x] + s
    else [s[0]] + Insert(le, x, s[1..])
  }

  function Sort<T>(le: (T, T) -> bool, s: seq<T>): (r: seq<T>) {
    if s == [] then [] else Insert(le, s[0], Sort(le, s[1..]))
  }

  lemma {:induction false} InsertContents<T>(le: (T, T) -> bool, x: T, s: seq<T>)
    ensures multiset(Insert(le, x, s)) == multiset{x} + multiset(s)
    ensures |Insert(le, x, s)| == |s| + 1
  {
    if s != [] {
      assert s == [s[0]] + s[1..];
      InsertContents(le, x, s[1..]);
    }
  }

  lemma {:induction false} InsertSorted<T(!new)>(le: (T, T) -> bool, x: T, s: seq<T>)
    requires TotalPreorder(le) && SortedBy(le, s)
    ensures SortedBy(le, Insert(le, x, s))
  {
    if s != [] && !le(x, s[0]) {
      InsertSorted(le, x, s[1..]);
      InsertContents(le, x, s[1..]);
      var r := Insert(le, x, s[1..]);
      forall k | 0 <= k < |r| ensures le(s[0], r[k]) {
        assert r[k] in multiset(r);
        assert r[k] == x || r[k] in s[1..];
      }
    }
  }

  /** A sort keeps exactly the elements it was given and puts them in order. */
  lemma {:induction false} SortCorrect<T(!new)>(le: (T, T) -> bool, s: seq<T>)
    requires TotalPreorder(le)
    ensures multiset(Sort(le, s)) == multiset(s)
    ensures |Sort(le, s)| == |s|
    ensures SortedBy(le, Sort(le, s))
  {
    if s != [] {
      assert s == [s[0]] + s[1..];
      SortCorrect(le, s[1..]);
      InsertContents(le, s[0], Sort(le, s[1..]));
      InsertSorted(le, s[0], Sort(le, s[1..]));
    }
  }

  ghost function TiedOne<T>(le: (T, T) -> bool, x: T, a: T): seq<T> {
    if le(x, a) && le(a, x) then [a] else []
  }

  /** The elements of a list that compare equal to `x`, in order. */
  ghost function TiedWith<T>(le: (T, T) -> bool, x: T, s: seq<T>): seq<T> {
    if s == [] then [] else TiedOne(le, x, s[0]) + TiedWith(le, x, s[1..])
  }

  lemma TiedCons<T>(le: (T, T) -> bool, x: T, a: T, s: seq<T>)
    ensures TiedWith(le, x, [a] + s) == TiedOne(le, x, a) + TiedWith(le, x, s)
  {
    assert ([a] + s)[1..] == s;
  }

  lemma OneTies<T>(a: seq<T>, b: seq<T>, rest: seq<T>)
    requires a == [] || b == []
    ensures a + (b + rest) == b + (a + rest)
  {
    AppendAssociative(a, b, rest);
    AppendAssociative(b, a, rest);
  }

  lemma NotBothTied<T>(le: (T, T) -> bool, x: T, y: T, z: T)
    requires !le(y, z) && (le(y, x) && le(x, z) ==> le(y, z))
    ensures TiedOne(le, x, z) == [] || TiedOne(le, x, y) == []
  {
  }

  lemma {:induction false} InsertTied<T>(le: (T, T) -> bool, x: T, y: T, s: seq<T>)
    requires forall z :: z in s && le(y, x) && le(x, z) ==> le(y, z)
    ensures TiedWith(le, x, Insert(le, y, s)) == TiedOne(le, x, y) + TiedWith(le, x, s)
  {
    if s == [] {
      TiedCons(le, x, y, []);
    } else if le(y, s[0]) {
      TiedCons(le, x, y, s);
    } else {
      assert s[0] in s;
      NotBothTied(le, x, y, s[0]);
      InsertTied(le, x, y, s[1..]);
      TiedCons(le, x, s[0], Insert(le, y, s[1..]));
      OneTies(TiedOne(le, x, s[0]), TiedOne(le, x, y), TiedWith(le, x, s[1..]));
    }
  }

  /** The sort is stable: elements that compare equal keep their order. */
  lemma {:induction false} SortStable<T(!new)>(le: (T, T) -> bool, x: T, s: seq<T>)
    requires TotalPreorder(le)
    ensures TiedWith(le, x, Sort(le, s)) == TiedWith(le, x, s)
  {
    if s != [] {
      SortStable(le, x, s[1..]);
      InsertTied(le, x, s[0], Sort(le, s[1..]));
    }
  }

  ghost predicate Antisymmetric<T(!new)>(le: (T, T) -> bool) {
    forall a, b :: le(a, b) && le(b, a) ==> a == b
  }

  lemma SortedHeadLeast<T>(le: (T, T) -> bool, a: seq<T>, x: T)
    requires SortedBy(le, a) && x in a
    ensures x == a[0] || le(a[0], x)
  {
  }

  lemma MultisetTail<T>(a: seq<T>)
    requires a != []
    ensures multiset(a[1..]) == multiset(a) - multiset{a[0]}
  {
    assert a == [a[0]] + a[1..];
  }

  /** If no two listed elements tie, a sorted listing is determined by its contents. */
  lemma {:induction false} SortedUnique<T(!new)>(le: (T, T) -> bool, a: seq<T>, b: seq<T>)
    requires forall x, y :: x in a && y in a && le(x, y) && le(y, x) ==> x == y
    requires SortedBy(le, a) && SortedBy(le, b) && multiset(a) == multiset(b)
    ensures a == b
  {
    assert |multiset(a)| == |a| == |b|;
    if a != [] {
      assert a[0] in multiset(b) && b[0] in multiset(a);
      SortedHeadLeast(le, a, b[0]);
      SortedHeadLeast(le, b, a[0]);
      assert a[0] == b[0];
      MultisetTail(a);
      MultisetTail(b);
      SortedUnique(le, a[1..], b[1..]);
    }
  }

  // ----- Distinct sequences and set listings --------------------------------

  ghost predicate Distinct<T>(s: seq<T>) {
    forall i, j :: 0 <= i < j < |s| ==> s[i] != s[j]
  }

  lemma SplitLast<T>(s: seq<T>)
    requires s != []
    ensures s == s[..|s| - 1] + [s[|s| - 1]]
  {
  }

  lemma AppendAssociative<T>(a: seq<T>, b: seq<T>, c: seq<T>)
    ensures (a + b) + c == a + (b + c)
  {
  }

  function SetOf<T>(s: seq<T>): set<T> {
    set x | x in s
  }

  lemma {:induction false} DistinctMultiset<T>(s: seq<T>)
    requires Distinct(s)
    ensures multiset(s) == multiset(SetOf(s))
    ensures |SetOf(s)| == |s|
  {
    if s != [] {
      var init, x := s[..|s| - 1], s[|s| - 1];
      assert s == init + [x];
      DistinctMultiset(init);
      assert SetOf(s) == SetOf(init) + {x};
      assert x !in init;
    }
  }

  lemma RepeatCounts<T>(t: seq<T>, i: nat, j: nat)
    requires i < j < |t|
    ensures t[i] == t[j] ==> multiset(t)[t[i]] >= 2
  {
    assert t == t[..i] + [t[i]] + t[i + 1..j] + [t[j]] + t[j + 1..];
  }

  /** A rearrangement of a distinct list is distinct and lists the same set. */
  lemma DistinctByMultiset<T>(s: seq<T>, t: seq<T>)
    requires Distinct(s) && multiset(s) == multiset(t)
    ensures Distinct(t) && SetOf(t) == SetOf(s) && |t| == |s|
  {
    DistinctMultiset(s);
    assert |multiset(s)| == |s| && |multiset(t)| == |t|;
    forall x ensures x in s <==> x in t {
      assert x in multiset(s) <==> x in multiset(t);
    }
    forall i, j | 0 <= i < j < |t| ensures t[i] != t[j] {
      RepeatCounts(t, i, j);
    }
  }

  lemma SetOfAppend<T>(s: seq<T>, t: seq<T>)
    ensures SetOf(s + t) == SetOf(s) + SetOf(t)
  {
  }

  lemma SetOfCons<T>(x: T, s: seq<T>)
    ensures SetOf([x] + s) == {x} + SetOf(s)
  {
    SetOfAppend([x], s);
    assert SetOf([x]) == {x};
  }

  ghost predicate LeqAt(s: seq<string>, i: nat, j: nat)
    requires i < |s| && j < |s|
  {
    Leq(s[i], s[j])
  }

  ghost predicate Increasing(s: seq<string>) {
    forall i: nat, j: nat {:trigger LeqAt(s, i, j)} :: i < j < |s| ==> LeqAt(s, i, j)
  }

  lemma IncreasingIsSorted(s: seq<string>)
    ensures Increasing(s) <==> SortedBy(Leq, s)
  {
    if Increasing(s) {
      forall i, j | 0 <= i < j < |s| ensures Leq(s[i], s[j]) { assert LeqAt(s, i, j); }
    }
  }

  /** The increasing rearrangement of a list. */
  ghost function Ascending(s: seq<string>): (r: seq<string>)
    ensures multiset(r) == multiset(s) && |r| == |s|
  {
    LeqIsTotalOrder();
    SortCorrect(Leq, s);
    IncreasingIsSorted(Sort(Leq, s));
    var r :| multiset(r) == multiset(s) && Increasing(r);
    assert |multiset(r)| == |r| && |multiset(s)| == |s|;
    r
  }

  lemma AscendingUnique(s: seq<string>, r: seq<string>)
    requires multiset(r) == multiset(s) && Increasing(r)
    ensures r == Ascending(s)
  {
    LeqIsTotalOrder();
    IncreasingIsSorted(r);
    IncreasingIsSorted(Ascending(s));
    SortedUnique(Leq, r, Ascending(s));
  }

  /** `sort.Strings`. */
  method SortStrings(s: seq<string>) returns (r: seq<string>)
    ensures r == Ascending(s)
  {
    LeqIsTotalOrder();
    SortCorrect(Leq, s);
    r := Sort(Leq, s);
    IncreasingIsSorted(r);
    AscendingUnique(s, r);
  }

  lemma AscendingByContents(s: seq<string>, t: seq<string>)
    ensures Ascending(s) == Ascending(t) <==> multiset(s) == multiset(t)
  {
    if multiset(s) == multiset(t) {
      AscendingUnique(t, Ascending(s));
    }
  }

  ghost predicate Listing(r: seq<string>, s: set<string>) {
    SetOf(r) == s && |r| == |s| && Increasing(r)
  }

  /** Listing a set in any order and sorting is listing it in increasing order. */
  lemma SortedListing(items: seq<string>)
    requires Distinct(items)
    ensures Listing(Ascending(items), SetOf(items))
  {
    DistinctByMultiset(items, Ascending(items));
    DistinctMultiset(Ascending(items));
  }

  /** Appending a new element keeps a list distinct. */
  lemma SetOfPush<T>(s: seq<T>, x: T)
    ensures SetOf(s + [x]) == SetOf(s) + {x}
    ensures Distinct(s) && x !in SetOf(s) ==> Distinct(s + [x])
  {
  }

  /** Every finite set can be listed without repeats. */
  lemma {:induction false} SetListed<T>(s: set<T>) returns (items: seq<T>)
    ensures Distinct(items) && SetOf(items) == s
  {
    if s == {} {
      items := [];
    } else {
      var x :| x in s;
      items := SetListed(s - {x});
      SetOfCons(x, items);
      assert x !in SetOf(items);
      items := [x] + items;
    }
  }

  lemma ListingExists(s: set<string>) returns (items: seq<string>)
    ensures Distinct(items) && SetOf(items) == s
    ensures Listing(Ascending(items), s)
  {
    items := SetListed(s);
    SortedListing(items);
  }

  /** The keys of a set in increasing order. */
  ghost function SetKeys(s: set<string>): (r: seq<string>)
    ensures SetOf(r) == s
    ensures |r| == |s|
  {
    assert exists r :: Listing(r, s) by { var items := ListingExists(s); }
    var r :| Listing(r, s);
    r
  }

  lemma {:induction false} DistinctByCount<T>(s: seq<T>)
    ensures |SetOf(s)| <= |s|
    ensures |SetOf(s)| == |s| ==> Distinct(s)
  {
    if s != [] {
      var init, x := s[..|s| - 1], s[|s| - 1];
      assert s == init + [x];
      SetOfAppend(init, [x]);
      assert SetOf([x]) == {x};
      DistinctByCount(init);
      if x in init {
        assert x in SetOf(init);
        assert SetOf(s) == SetOf(init);
      }
    }
  }

  lemma SetKeysSorted(s: set<string>)
    ensures Distinct(SetKeys(s)) && Increasing(SetKeys(s))
  {
    DistinctByCount(SetKeys(s));
  }

  lemma SetKeysUnique(r: seq<string>, s: set<string>)
    requires Listing(r, s)
    ensures r == SetKeys(s)
  {
    LeqIsTotalOrder();
    var k := SetKeys(s);
    DistinctByCount(r);
    DistinctByCount(k);
    DistinctMultiset(r);
    DistinctMultiset(k);
    IncreasingIsSorted(r);
    IncreasingIsSorted(k);
    SortedUnique(Leq, r, k);
  }

  /** `setKeys`: collect the keys of a map in whatever order it yields them, then sort. */
  method SortedKeys(s: set<string>) returns (r: seq<string>)
    ensures r == SetKeys(s)
  {
    var items, rest := [], s;
    while rest != {}
      invariant Distinct(items) && SetOf(items) + rest == s && SetOf(items) !! rest
      decreases rest
    {
      var x :| x in rest;
      SetOfPush(items, x);
      items := items + [x];
      rest := rest - {x};
    }
    r := SortStrings(items);
    SortedListing(items);
    SetKeysUnique(r, s);
  }

  // ----- Joining with a separator ---------------------------------------------

  function Join(items: seq<string>, sep: char): (r: string) {
    if items == [] then ""
    else if |items| == 1 then items[0]
    else items[0] + ([sep] + Join(items[1..], sep))
  }

  /** `strings.Split` on one separator: empty pieces are kept. */
  function Split(s: string, sep: char): (r: seq<string>)
    ensures |r| > 0
    ensures forall p :: p in r ==> sep !in p
  {
    if s == "" then [""]
    else
      var rest := Split(s[1..], sep);
      if s[0] == sep then [""] + rest
      else [[s[0]] + rest[0]] + rest[1..]
  }

  lemma SplitCons(c: char, s: string, sep: char)
    ensures Split([c] + s, sep) ==
            if c == sep then [""] + Split(s, sep) else [[c] + Split(s, sep)[0]] + Split(s, sep)[1..]
  {
    assert ([c] + s)[1..] == s;
  }

  lemma TailAppend<T>(x: seq<T>, y: seq<T>)
    requires x != []
    ensures x + y == [x[0]] + (x[1..] + y)
    ensures (x + y)[0] == x[0] && (x + y)[1..] == x[1..] + y
  {
  }

  /** Splitting a text around one separator is splitting its two sides. */
  lemma {:induction false} SplitConcat(a: string, b: string, sep: char)
    ensures Split(a + ([sep] + b), sep) == Split(a, sep) + Split(b, sep)
  {
    SplitCons(sep, b, sep);
    if a == "" {
      assert a + ([sep] + b) == [sep] + b;
    } else {
      SplitConcat(a[1..], b, sep);
      TailAppend(a, [sep] + b);
      TailAppend(a, "");
      SplitCons(a[0], a[1..] + ([sep] + b), sep);
      SplitCons(a[0], a[1..], sep);
      assert [a[0]] + a[1..] == a;
      TailAppend(Split(a[1..], sep), Split(b, sep));
      if a[0] == sep {
        AppendAssociative([""], Split(a[1..], sep), Split(b, sep));
      } else {
        AppendAssociative([[a[0]] + Split(a[1..], sep)[0]], Split(a[1..], sep)[1..], Split(b, sep));
      }
    }
  }

  lemma {:induction false} SplitWhole(a: string, sep: char)
    requires sep !in a
    ensures Split(a, sep) == [a]
  {
    if a != "" {
      SplitWhole(a[1..], sep);
      assert [a[0]] + a[1..] == a;
    }
  }

  /** Splitting undoes joining: a join of separator-free pieces loses nothing. */
  lemma {:induction false} SplitJoin(items: seq<string>, sep: char)
    requires items != []
    requires forall s :: s in items ==> sep !in s
    ensures Split(Join(items, sep), sep) == items
  {
    if |items| == 1 {
      SplitWhole(items[0], sep);
    } else {
      SplitWhole(items[0], sep);
      SplitConcat(items[0], Join(items[1..], sep), sep);
      SplitJoin(items[1..], sep);
    }
  }

  /** Joining undoes splitting. */
  lemma {:induction false} JoinSplit(s: string, sep: char)
    ensures Join(Split(s, sep), sep) == s
  {
    if s != "" {
      JoinSplit(s[1..], sep);
      var rest := Split(s[1..], sep);
      if s[0] == sep {
        assert ([""] + rest)[1..] == rest;
        assert "" + ([sep] + s[1..]) == s;
      } else {
        var r := [[s[0]] + rest[0]] + rest[1..];
        assert r[1..] == rest[1..];
        assert [s[0]] + s[1..] == s;
        if |rest| > 1 {
          assert Join(r, sep) == [s[0]] + (rest[0] + ([sep] + Join(rest[1..], sep)));
        }
      }
    }
  }
}

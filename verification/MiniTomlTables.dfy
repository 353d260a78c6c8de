/** Nested tables: a document of headers, assignments and spread arrays reads back as the table
    it was printed from. */
module MiniTomlTables {
  import opened Ordering
  import opened MiniToml
  import opened MiniTomlTheorems
  import opened MiniTomlLines
  import opened MiniTomlDocuments

  // ----- Tables at a path ----------------------------------------------------------------------

  /** The table at a path, when there is one. */
  function At(root: seq<Entry>, path: seq<string>): Option<seq<Entry>>
    decreases |path|
  {
    if path == [] then Some(root)
    else
      match Get(root, path[0])
      case None => None
      case Some(v) => if v.Table? then At(v.entries, path[1..]) else None
  }

  /** The root with the table at a path replaced. */
  function PutAt(root: seq<Entry>, path: seq<string>, entries: seq<Entry>): seq<Entry>
    requires At(root, path).Some?
    decreases |path|
  {
    if path == [] then entries
    else Put(root, path[0], Table(PutAt(Get(root, path[0]).value.entries, path[1..], entries)))
  }

  lemma {:induction false} GetPut(es: seq<Entry>, k: string, v: Value)
    ensures Get(Put(es, k, v), k) == Some(v)
  {
    if es != [] && es[0].key != k { GetPut(es[1..], k, v); }
  }

  lemma {:induction false} PutPut(es: seq<Entry>, k: string, v: Value, w: Value)
    ensures Put(Put(es, k, v), k, w) == Put(es, k, w)
  {
    if es != [] && es[0].key != k { PutPut(es[1..], k, v, w); }
  }

  lemma {:induction false} PutSame(es: seq<Entry>, k: string, v: Value)
    requires Get(es, k) == Some(v)
    ensures Put(es, k, v) == es
  {
    if es[0].key != k { PutSame(es[1..], k, v); }
  }

  lemma {:induction false} GetFresh(es: seq<Entry>, k: string)
    requires forall e :: e in es ==> e.key != k
    ensures Get(es, k) == None
  {
    if es != [] { GetFresh(es[1..], k); }
  }

  lemma {:induction false} PutAtSame(root: seq<Entry>, path: seq<string>)
    requires At(root, path).Some?
    ensures PutAt(root, path, At(root, path).value) == root
    decreases |path|
  {
    if path != [] {
      PutAtSame(Get(root, path[0]).value.entries, path[1..]);
      PutSame(root, path[0], Get(root, path[0]).value);
    }
  }

  lemma {:induction false} AtPutAt(root: seq<Entry>, path: seq<string>, es: seq<Entry>)
    requires At(root, path).Some?
    ensures At(PutAt(root, path, es), path) == Some(es)
    decreases |path|
  {
    if path != [] {
      var sub := Get(root, path[0]).value.entries;
      AtPutAt(sub, path[1..], es);
      GetPut(root, path[0], Table(PutAt(sub, path[1..], es)));
    }
  }

  lemma {:induction false} PutAtPutAt(root: seq<Entry>, path: seq<string>, es: seq<Entry>, fs: seq<Entry>)
    requires At(root, path).Some?
    ensures At(PutAt(root, path, es), path).Some?
    ensures PutAt(PutAt(root, path, es), path, fs) == PutAt(root, path, fs)
    decreases |path|
  {
    AtPutAt(root, path, es);
    if path != [] {
      var sub := Get(root, path[0]).value.entries;
      PutAtPutAt(sub, path[1..], es, fs);
      GetPut(root, path[0], Table(PutAt(sub, path[1..], es)));
      PutPut(root, path[0], Table(PutAt(sub, path[1..], es)), Table(PutAt(sub, path[1..], fs)));
    }
  }

  /** An assignment changes the current table and nothing else. */
  lemma {:induction false} AssignAt(root: seq<Entry>, path: seq<string>, key: string, value: Value)
    requires At(root, path).Some?
    ensures Assign(root, path, key, value) == Some(PutAt(root, path, Put(At(root, path).value, key, value)))
    decreases |path|
  {
    if path != [] {
      AssignAt(Get(root, path[0]).value.entries, path[1..], key, value);
    }
  }

  /** A header under an open table adds an empty table to it. */
  lemma {:induction false} OpenAt(root: seq<Entry>, path: seq<string>, name: string)
    requires At(root, path).Some? && forall e :: e in At(root, path).value ==> e.key != name
    ensures OpenTable(root, path + [name]) == Some(PutAt(root, path, At(root, path).value + [Entry(name, Table([]))]))
    decreases |path|
  {
    var full := path + [name];
    if path == [] {
      assert full == [name];
      GetFresh(root, name);
      PutNew(root, name, Table([]));
    } else {
      assert full[0] == path[0] && full[1..] == path[1..] + [name];
      OpenAt(Get(root, path[0]).value.entries, path[1..], name);
    }
  }

  /** A header whose name is there already changes nothing, whatever its value. */
  lemma {:induction false} OpenAgain(root: seq<Entry>, path: seq<string>, name: string)
    requires At(root, path).Some? && Get(At(root, path).value, name).Some?
    ensures OpenTable(root, path + [name]) == Some(root)
    decreases |path|
  {
    var full := path + [name];
    if path == [] {
      assert full == [name];
    } else {
      assert full[0] == path[0] && full[1..] == path[1..] + [name];
      OpenAgain(Get(root, path[0]).value.entries, path[1..], name);
      PutSame(root, path[0], Get(root, path[0]).value);
    }
  }

  /** The tables a header opens below one another. */
  function Nested(names: seq<string>): Value
    decreases |names|
  {
    Table(if names == [] then [] else [Entry(names[0], Nested(names[1..]))])
  }

  lemma {:induction false} OpenFresh(root: seq<Entry>, names: seq<string>)
    requires names != [] && Get(root, names[0]).None?
    ensures OpenTable(root, names) == Some(Put(root, names[0], Nested(names[1..])))
    decreases |names|
  {
    if |names| == 1 {
      assert names[1..] == [];
    } else {
      OpenFresh([], names[1..]);
      assert Put([], names[1], Nested(names[2..])) == [Entry(names[1], Nested(names[2..]))];
      assert names[1..][1..] == names[2..];
    }
  }

  /** A header opens every table its path still lacks. */
  lemma {:induction false} OpenDeep(root: seq<Entry>, path: seq<string>, names: seq<string>)
    requires names != [] && At(root, path).Some? && Get(At(root, path).value, names[0]).None?
    ensures OpenTable(root, path + names) ==
            Some(PutAt(root, path, Put(At(root, path).value, names[0], Nested(names[1..]))))
    decreases |path|
  {
    var full := path + names;
    if path == [] {
      assert full == names;
      OpenFresh(root, names);
    } else {
      assert full[0] == path[0] && full[1..] == path[1..] + names;
      OpenDeep(Get(root, path[0]).value.entries, path[1..], names);
    }
  }

  /** It raises when a name before its last carries a value that is no table. */
  lemma {:induction false} OpenBlocked(root: seq<Entry>, path: seq<string>, name: string, more: seq<string>)
    requires more != [] && At(root, path).Some?
    requires var v := Get(At(root, path).value, name); v.Some? && !v.value.Table?
    ensures OpenTable(root, path + ([name] + more)) == None
    decreases |path|
  {
    var full := path + ([name] + more);
    if path == [] {
      assert full == [name] + more;
    } else {
      assert full[0] == path[0] && full[1..] == path[1..] + ([name] + more);
      OpenBlocked(Get(root, path[0]).value.entries, path[1..], name, more);
    }
  }

  /** An assignment raises exactly when there is no table at the current path. */
  lemma {:induction false} AssignIff(root: seq<Entry>, path: seq<string>, key: string, value: Value)
    ensures Assign(root, path, key, value).Some? <==> At(root, path).Some?
    decreases |path|
  {
    if path != [] {
      var child := Get(root, path[0]);
      if child.Some? && child.value.Table? { AssignIff(child.value.entries, path[1..], key, value); }
    }
  }

  /** A table below a path is an entry of the table at the path. */
  lemma {:induction false} AtBelow(root: seq<Entry>, path: seq<string>, name: string)
    requires At(root, path).Some?
    ensures At(root, path + [name]) == At(At(root, path).value, [name])
    decreases |path|
  {
    var full := path + [name];
    if path == [] {
      assert full == [name];
    } else {
      assert full[0] == path[0] && full[1..] == path[1..] + [name];
      AtBelow(Get(root, path[0]).value.entries, path[1..], name);
    }
  }

  lemma {:induction false} PutBelow(root: seq<Entry>, path: seq<string>, name: string, es: seq<Entry>)
    requires At(root, path).Some? && At(root, path + [name]).Some?
    ensures PutAt(root, path + [name], es) == PutAt(root, path, Put(At(root, path).value, name, Table(es)))
    decreases |path|
  {
    var full := path + [name];
    if path == [] {
      assert full == [name] && full[1..] == [];
    } else {
      assert full[0] == path[0] && full[1..] == path[1..] + [name];
      PutBelow(Get(root, path[0]).value.entries, path[1..], name, es);
    }
  }

  // ----- Printed documents -------------------------------------------------------------------------

  /** One assignment: on a line of its own, or an array with one element per line. */
  datatype Item =
    | OneLine(key: string, value: Value, around: Around)
    | Spread(key: string, values: seq<Value>, around: Around, rows: seq<Around>)

  /** A table: its assignments, then its subtables, each under a header. */
  datatype Node = Node(items: seq<Item>, children: seq<Child>)

  datatype Child = Child(name: string, around: Around, node: Node)

  function EntryOf(i: Item): Entry {
    match i
    case OneLine(key, value, _) => Entry(key, value)
    case Spread(key, values, _, _) => Entry(key, Array(values))
  }

  function ItemEntries(items: seq<Item>): seq<Entry> {
    if items == [] then [] else [EntryOf(items[0])] + ItemEntries(items[1..])
  }

  /** The table a document stands for. */
  function Meaning(n: Node): seq<Entry>
    decreases n
  {
    ItemEntries(n.items) + ChildEntries(n.children)
  }

  function ChildEntries(children: seq<Child>): seq<Entry>
    decreases children
  {
    if children == [] then []
    else [Entry(children[0].name, Table(Meaning(children[0].node)))] + ChildEntries(children[1..])
  }

  predicate GoodItem(i: Item) {
    && PlainKey(i.key) && GoodAround(i.around)
    && match i
       case OneLine(_, value, _) => Printable(value)
       case Spread(_, values, _, rows) =>
         PrintableAll(values) && |rows| == |values| + 1 && forall a :: a in rows ==> GoodAround(a)
  }

  function ItemLines(i: Item): seq<string>
    requires GoodItem(i)
  {
    match i
    case OneLine(key, value, around) => [Framed(around, KeyLine(key, Print(value)))]
    case Spread(key, values, around, rows) =>
      [Framed(around, KeyLine(key, "["))] + Physical(SpreadChunks(PrintAll(values), rows))
  }

  /** No key of the list is taken, and none comes twice. */
  predicate FreshItems(items: seq<Item>, taken: set<string>) {
    items == [] || (GoodItem(items[0]) && items[0].key !in taken && FreshItems(items[1..], taken + {items[0].key}))
  }

  function AllItemLines(items: seq<Item>, taken: set<string>): seq<string>
    requires FreshItems(items, taken)
  {
    if items == [] then [] else ItemLines(items[0]) + AllItemLines(items[1..], taken + {items[0].key})
  }

  function Keys(es: seq<Entry>): set<string> {
    set e | e in es :: e.key
  }

  predicate GoodNode(n: Node)
    decreases n
  {
    FreshItems(n.items, {}) && FreshChildren(n.children, Keys(ItemEntries(n.items)))
  }

  predicate FreshChildren(children: seq<Child>, taken: set<string>)
    decreases children
  {
    children == [] ||
    var c := children[0];
    && Segment(c.name) && GoodAround(c.around) && c.name !in taken
    && GoodNode(c.node) && FreshChildren(children[1..], taken + {c.name})
  }

  function NodeLines(n: Node, path: seq<string>): seq<string>
    requires GoodNode(n)
    decreases n
  {
    AllItemLines(n.items, {}) + ChildLines(n.children, Keys(ItemEntries(n.items)), path)
  }

  function ChildLines(children: seq<Child>, taken: set<string>, path: seq<string>): seq<string>
    requires FreshChildren(children, taken)
    decreases children
  {
    if children == [] then []
    else
      var c := children[0];
      ([Framed(c.around, Header(path + [c.name]))] + NodeLines(c.node, path + [c.name]))
      + ChildLines(children[1..], taken + {c.name}, path)
  }

  // ----- Reading them back ---------------------------------------------------------------------------

  lemma ItemAssigns(i: Item, rest: seq<string>, root: seq<Entry>, path: seq<string>)
    requires GoodItem(i) && At(root, path).Some?
    ensures ReadLines(ItemLines(i) + rest, root, path) ==
            ReadLines(rest, PutAt(root, path, Put(At(root, path).value, i.key, EntryOf(i).value)), path)
  {
    AssignAt(root, path, i.key, EntryOf(i).value);
    match i
    case OneLine(key, value, around) => LineAssigns(around, key, value, rest, root, path);
    case Spread(key, values, around, rows) =>
      SpreadAssigns(around, key, values, rows, rest, root, path);
      AppendAssociative([Framed(around, KeyLine(key, "["))], Physical(SpreadChunks(PrintAll(values), rows)), rest);
  }

  lemma KeysPush(es: seq<Entry>, e: Entry)
    ensures Keys(es + [e]) == Keys(es) + {e.key}
  {
  }

  lemma {:induction false} ItemsRead(items: seq<Item>, taken: set<string>, rest: seq<string>, root: seq<Entry>,
                                     path: seq<string>)
    requires FreshItems(items, taken) && At(root, path).Some? && Keys(At(root, path).value) == taken
    ensures ReadLines(AllItemLines(items, taken) + rest, root, path) ==
            ReadLines(rest, PutAt(root, path, At(root, path).value + ItemEntries(items)), path)
    decreases |items|
  {
    var es := At(root, path).value;
    if items == [] {
      assert [] + rest == rest && es + [] == es;
      PutAtSame(root, path);
    } else {
      var i, later := items[0], AllItemLines(items[1..], taken + {items[0].key});
      var e := EntryOf(i);
      AppendAssociative(ItemLines(i), later, rest);
      ItemAssigns(i, later + rest, root, path);
      forall d | d in es ensures d.key != i.key { assert d.key in taken; }
      PutNew(es, i.key, e.value);
      var next := PutAt(root, path, es + [e]);
      AtPutAt(root, path, es + [e]);
      KeysPush(es, e);
      ItemsRead(items[1..], taken + {i.key}, rest, next, path);
      AppendAssociative(es, [e], ItemEntries(items[1..]));
      PutAtPutAt(root, path, es + [e], (es + [e]) + ItemEntries(items[1..]));
    }
  }

  /** Nothing follows, or a header does, so the table that was current does not matter. */
  ghost predicate HeaderNext(lines: seq<string>) {
    lines == [] || (Logical(lines[0]) != "" && Logical(lines[0])[0] == '[')
  }

  lemma CurrentForgotten(lines: seq<string>, root: seq<Entry>, a: seq<string>, b: seq<string>)
    requires HeaderNext(lines)
    ensures ReadLines(lines, root, a) == ReadLines(lines, root, b)
  {
  }

  lemma ChildLinesHeader(children: seq<Child>, taken: set<string>, path: seq<string>, rest: seq<string>)
    requires FreshChildren(children, taken) && GoodPath(path) && HeaderNext(rest)
    ensures HeaderNext(ChildLines(children, taken, path) + rest)
  {
    if children == [] {
      assert [] + rest == rest;
    } else {
      var c := children[0];
      HeaderReads(c.around, path + [c.name]);
      assert (ChildLines(children, taken, path) + rest)[0] == Framed(c.around, Header(path + [c.name]));
    }
  }

  lemma {:induction false} NodeReads(n: Node, rest: seq<string>, root: seq<Entry>, path: seq<string>)
    requires GoodNode(n) && GoodPath(path) && At(root, path) == Some([]) && HeaderNext(rest)
    ensures ReadLines(NodeLines(n, path) + rest, root, path) == ReadLines(rest, PutAt(root, path, Meaning(n)), path)
    decreases n, 1
  {
    var entries := ItemEntries(n.items);
    var below := ChildLines(n.children, Keys(entries), path);
    AppendAssociative(AllItemLines(n.items, {}), below, rest);
    assert Keys([]) == {};
    ItemsRead(n.items, {}, below + rest, root, path);
    assert [] + entries == entries;
    var next := PutAt(root, path, entries);
    AtPutAt(root, path, entries);
    ChildrenRead(n.children, Keys(entries), rest, next, path);
    PutAtPutAt(root, path, entries, entries + ChildEntries(n.children));
  }

  lemma {:induction false} ChildrenRead(children: seq<Child>, taken: set<string>, rest: seq<string>, root: seq<Entry>,
                                        path: seq<string>)
    requires FreshChildren(children, taken) && GoodPath(path) && HeaderNext(rest)
    requires At(root, path).Some? && Keys(At(root, path).value) == taken
    ensures ReadLines(ChildLines(children, taken, path) + rest, root, path) ==
            ReadLines(rest, PutAt(root, path, At(root, path).value + ChildEntries(children)), path)
    decreases children, 0
  {
    var es := At(root, path).value;
    if children == [] {
      assert [] + rest == rest && es + [] == es;
      PutAtSame(root, path);
    } else {
      var c := children[0];
      var later := ChildLines(children[1..], taken + {c.name}, path);
      var e := Entry(c.name, Table(Meaning(c.node)));
      AppendAssociative([Framed(c.around, Header(path + [c.name]))] + NodeLines(c.node, path + [c.name]), later, rest);
      ChildLinesHeader(children[1..], taken + {c.name}, path, rest);
      ChildReads(c, later + rest, root, path);
      var next := PutAt(root, path, es + [e]);
      CurrentForgotten(later + rest, next, path + [c.name], path);
      AtPutAt(root, path, es + [e]);
      KeysPush(es, e);
      ChildrenRead(children[1..], taken + {c.name}, rest, next, path);
      AppendAssociative(es, [e], ChildEntries(children[1..]));
      PutAtPutAt(root, path, es + [e], (es + [e]) + ChildEntries(children[1..]));
    }
  }

  /** One subtable: its header opens it, its lines fill it. */
  lemma {:induction false} ChildReads(c: Child, rest: seq<string>, root: seq<Entry>, path: seq<string>)
    requires Segment(c.name) && GoodAround(c.around) && GoodNode(c.node) && GoodPath(path) && HeaderNext(rest)
    requires At(root, path).Some? && c.name !in Keys(At(root, path).value)
    ensures ReadLines(([Framed(c.around, Header(path + [c.name]))] + NodeLines(c.node, path + [c.name]))
                      + rest, root, path) ==
            ReadLines(rest, PutAt(root, path, At(root, path).value + [Entry(c.name, Table(Meaning(c.node)))]),
                      path + [c.name])
    decreases c, 2
  {
    var es, full := At(root, path).value, path + [c.name];
    forall e | e in es ensures e.key != c.name { assert e.key in Keys(es); }
    AppendAssociative([Framed(c.around, Header(full))], NodeLines(c.node, full), rest);
    HeaderOpens(c.around, full, NodeLines(c.node, full) + rest, root, path);
    OpenAt(root, path, c.name);
    var under := PutAt(root, path, es + [Entry(c.name, Table([]))]);
    OpenedTable(root, path, c.name);
    NodeReads(c.node, rest, under, full);
    FilledTable(root, path, c.name, Meaning(c.node));
  }

  lemma OpenedTable(root: seq<Entry>, path: seq<string>, name: string)
    requires At(root, path).Some? && forall e :: e in At(root, path).value ==> e.key != name
    ensures At(PutAt(root, path, At(root, path).value + [Entry(name, Table([]))]), path + [name]) == Some([])
  {
    var es := At(root, path).value;
    AtPutAt(root, path, es + [Entry(name, Table([]))]);
    AtBelow(PutAt(root, path, es + [Entry(name, Table([]))]), path, name);
    PutNew(es, name, Table([]));
    GetPut(es, name, Table([]));
    assert [name][1..] == [];
  }

  lemma FilledTable(root: seq<Entry>, path: seq<string>, name: string, fill: seq<Entry>)
    requires At(root, path).Some? && forall e :: e in At(root, path).value ==> e.key != name
    ensures var es := At(root, path).value; var under := PutAt(root, path, es + [Entry(name, Table([]))]);
            At(under, path + [name]).Some?
            && PutAt(under, path + [name], fill) == PutAt(root, path, es + [Entry(name, Table(fill))])
  {
    var es := At(root, path).value;
    var under := PutAt(root, path, es + [Entry(name, Table([]))]);
    OpenedTable(root, path, name);
    AtPutAt(root, path, es + [Entry(name, Table([]))]);
    PutBelow(under, path, name, fill);
    PutNew(es, name, Table([]));
    PutPut(es, name, Table([]), Table(fill));
    PutNew(es, name, Table(fill));
    PutAtPutAt(root, path, es + [Entry(name, Table([]))], es + [Entry(name, Table(fill))]);
  }

  /** A printed document reads back as the table it was printed from: assignments on one line or
      spread over several, indented and commented or not, under headers nested to any depth. */
  lemma DocumentRoundTrip(n: Node)
    requires GoodNode(n)
    ensures ReadLines(NodeLines(n, []), [], []) == Parsed(Meaning(n))
  {
    NodeReads(n, [], [], []);
    assert NodeLines(n, []) + [] == NodeLines(n, []);
  }
}

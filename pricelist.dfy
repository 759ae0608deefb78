/** `PriceList` of pricelist.py: the outline of the sheet becomes nested
    lists (`splitter`, `cleanup`), the lists become the group tree
    (`_group_maker`), the tree is copied into one page per keyword group
    (`_create_pages`), and a page is laid out as rows (`compose_items`). */
module PriceList {
  import opened Values
  import Outline
  import opened Items
  import opened Tree
  import opened Pages

  /** A row of the worksheet: openpyxl always hands over at least one cell. */
  type SheetRow = r: Row | |r| > 0 witness [None]

  /** `worksheet[n]`: the cells of row `n`. */
  type Cells = nat -> SheetRow

  // ---------------------------------------------------------------------
  // What `_group_maker` builds

  /** `_group_maker(row_list)`: element 0 names the header row; every later
      element must be a list, which becomes a sub-group when it holds a list
      and otherwise one item per row number. */
  function Build(l: seq<Outline.Clean>, cells: Cells, cols: ColumnNames, kw: seq<seq<string>>): Result<Node>
    decreases l, 1
  {
    if l == [] then Ok(Group(None, []))
    else if l[0].List? then Err(BadRowIndex)
    else
      match BuildMembers(l[1..], cells, cols, kw)
      case Err(e) => Err(e)
      case Ok(ms) => Ok(Group(cells(l[0].row)[0], ms))
  }

  /** The members made from `s`, the first exception in order winning. */
  function BuildMembers(s: seq<Outline.Clean>, cells: Cells, cols: ColumnNames, kw: seq<seq<string>>)
    : Result<seq<Node>>
    decreases s, 0
  {
    if s == [] then Ok([])
    else
      match BuildMembers(s[..|s| - 1], cells, cols, kw)
      case Err(e) => Err(e)
      case Ok(ms) =>
        match BuildElement(s[|s| - 1], cells, cols, kw)
        case Err(e) => Err(e)
        case Ok(ns) => Ok(ms + ns)
  }

  /** One later element of `row_list`: a bare row number cannot be iterated. */
  function BuildElement(e: Outline.Clean, cells: Cells, cols: ColumnNames, kw: seq<seq<string>>)
    : Result<seq<Node>>
    decreases e, 2
  {
    if e.Row? then Err(NotIterable)
    else if Outline.HasList(e.items) then
      match Build(e.items, cells, cols, kw)
      case Err(err) => Err(err)
      case Ok(g) => Ok([g])
    else BuildItems(e.items, cells, cols, kw)
  }

  /** The items made from a list of row numbers, in order. */
  function BuildItems(items: seq<Outline.Clean>, cells: Cells, cols: ColumnNames, kw: seq<seq<string>>)
    : Result<seq<Node>>
    requires !Outline.HasList(items)
  {
    if items == [] then Ok([])
    else
      var n := |items|;
      assert !items[n - 1].List?;
      NoListPrefix(items, n - 1);
      match BuildItems(items[..n - 1], cells, cols, kw)
      case Err(e) => Err(e)
      case Ok(ms) =>
        match ItemSpec(cells(items[n - 1].row), cols, kw)
        case Err(e) => Err(e)
        case Ok(item) => Ok(ms + [Leaf(item.0, item.1)])
  }

  lemma NoListPrefix(items: seq<Outline.Clean>, j: nat)
    requires j <= |items| && !Outline.HasList(items)
    ensures !Outline.HasList(items[..j])
  {
  }

  lemma GoodScopePrefix(s: seq<Outline.Clean>, j: nat)
    requires j <= |s| && Outline.GoodScope(s)
    ensures Outline.GoodScope(s[..j])
  {
    forall k | 0 <= k < j
      ensures s[..j][k].List? && (Outline.HasList(s[..j][k].items) ==> Outline.GoodGroup(s[..j][k].items))
    {
      assert s[..j][k] == s[k];
    }
  }

  lemma {:induction false} BuildMembersErrStays(s: seq<Outline.Clean>, j: nat, cells: Cells, cols: ColumnNames, kw: seq<seq<string>>)
    requires j <= |s| && BuildMembers(s[..j], cells, cols, kw).Err?
    ensures BuildMembers(s, cells, cols, kw) == BuildMembers(s[..j], cells, cols, kw)
    decreases |s| - j
  {
    if j < |s| {
      assert s[..j + 1][..j] == s[..j];
      BuildMembersErrStays(s, j + 1, cells, cols, kw);
    } else {
      assert s[..j] == s;
    }
  }

  lemma {:induction false} BuildItemsErrStays(s: seq<Outline.Clean>, j: nat, cells: Cells, cols: ColumnNames, kw: seq<seq<string>>)
    requires j <= |s| && !Outline.HasList(s) && !Outline.HasList(s[..j])
    requires BuildItems(s[..j], cells, cols, kw).Err?
    ensures BuildItems(s, cells, cols, kw) == BuildItems(s[..j], cells, cols, kw)
    decreases |s| - j
  {
    if j < |s| {
      assert s[..j + 1][..j] == s[..j];
      NoListPrefix(s, j + 1);
      BuildItemsErrStays(s, j + 1, cells, cols, kw);
    } else {
      assert s[..j] == s;
    }
  }

  // ---------------------------------------------------------------------
  // The builder

  /** `_group_maker(row_list, parent)`: a fresh group whose parent is
      `parent`, built as `Build` says, or the exception it raises. */
  method GroupMaker(rowList: seq<Outline.Clean>, parent: ItemGroup?, cells: Cells, cols: ColumnNames, kw: seq<seq<string>>)
    returns (r: Result<ItemGroup>)
    decreases rowList
    ensures r.Ok? <==> Build(rowList, cells, cols, kw).Ok?
    ensures r.Ok? ==> fresh(r.value.Repr) && r.value.Valid() && r.value.ParentsOk()
    ensures r.Ok? ==> r.value.parent == parent && r.value.model == Build(rowList, cells, cols, kw).value
    ensures r.Err? ==> r.error == Build(rowList, cells, cols, kw).error
  {
    var g := new ItemGroup();
    if parent != null {
      g.SetParent(parent);
    }
    var row := 0;
    while row < |rowList|
      invariant 0 <= row <= |rowList|
      invariant fresh(g.Repr) && g.Valid() && g.ParentsOk() && g.parent == parent
      invariant row == 0 ==> g.model == Group(None, [])
      invariant row > 0 ==> rowList[0].Row? && g.header == cells(rowList[0].row)[0]
      invariant row > 0 ==> BuildMembers(rowList[1..row], cells, cols, kw).Ok?
      invariant row > 0 ==> g.model == Group(g.header, BuildMembers(rowList[1..row], cells, cols, kw).value)
    {
      if row == 0 {
        if rowList[0].List? {
          return Err(BadRowIndex);
        }
        g.SetHeader(cells(rowList[0].row));
        g.model := Group(g.header, []);
        assert rowList[1..1] == [];
      } else {
        var err := AddElement(g, rowList[row], cells, cols, kw);
        if err.Some? {
          MembersStop(rowList, row, cells, cols, kw);
          return Err(err.value);
        }
        MembersGrow(rowList, row, cells, cols, kw);
      }
      row := row + 1;
    }
    if rowList != [] {
      assert rowList[1..|rowList|] == rowList[1..];
    }
    r := Ok(g);
  }

  /** A later element that builds extends the members built so far. */
  lemma MembersGrow(rowList: seq<Outline.Clean>, row: nat, cells: Cells, cols: ColumnNames, kw: seq<seq<string>>)
    requires 0 < row < |rowList|
    requires BuildMembers(rowList[1..row], cells, cols, kw).Ok? && BuildElement(rowList[row], cells, cols, kw).Ok?
    ensures BuildMembers(rowList[1..row + 1], cells, cols, kw) ==
      Ok(BuildMembers(rowList[1..row], cells, cols, kw).value + BuildElement(rowList[row], cells, cols, kw).value)
  {
    var s := rowList[1..row + 1];
    assert s[..|s| - 1] == rowList[1..row] && s[|s| - 1] == rowList[row];
  }

  /** A later element that fails stops `_group_maker` with its error. */
  lemma MembersStop(rowList: seq<Outline.Clean>, row: nat, cells: Cells, cols: ColumnNames, kw: seq<seq<string>>)
    requires 0 < row < |rowList| && rowList[0].Row?
    requires BuildMembers(rowList[1..row], cells, cols, kw).Ok? && BuildElement(rowList[row], cells, cols, kw).Err?
    ensures Build(rowList, cells, cols, kw) == Err(BuildElement(rowList[row], cells, cols, kw).error)
  {
    var s := rowList[1..];
    TailPrefixes(rowList, row);
    assert BuildMembers(s[..row], cells, cols, kw).Err?;
    BuildMembersErrStays(s, row, cells, cols, kw);
  }

  lemma TailPrefixes(rowList: seq<Outline.Clean>, row: nat)
    requires 0 < row < |rowList|
    ensures rowList[1..][..row] == rowList[1..row + 1]
    ensures rowList[1..][..row][..row - 1] == rowList[1..row]
  {
    var s := rowList[1..];
    assert forall k :: 0 <= k < row ==> s[..row][k] == rowList[1..row + 1][k];
    assert forall k :: 0 <= k < row - 1 ==> s[..row][..row - 1][k] == rowList[1..row][k];
  }

  /** One pass of the loop of `_group_maker` past the header: the element
      becomes a sub-group of `g` or a run of items of `g`. */
  method AddElement(g: ItemGroup, e: Outline.Clean, cells: Cells, cols: ColumnNames, kw: seq<seq<string>>)
    returns (err: Option<Error>)
    requires g.Valid() && g.ParentsOk()
    modifies g`children, g`model, g`Repr
    decreases e
    ensures g.Valid() && g.ParentsOk() && old(g.Repr) <= g.Repr && fresh(g.Repr - old(g.Repr))
    ensures err.None? <==> BuildElement(e, cells, cols, kw).Ok?
    ensures err.None? ==> g.model == Group(g.header, old(g.model.children) + BuildElement(e, cells, cols, kw).value)
    ensures err.Some? ==> err.value == BuildElement(e, cells, cols, kw).error
  {
    if e.Row? {
      return Some(NotIterable);
    }
    if Outline.HasList(e.items) {
      var sub := GroupMaker(e.items, g, cells, cols, kw);
      if sub.Err? {
        return Some(sub.error);
      }
      g.ValidChildren();
      g.Adopt(GroupM(sub.value), sub.value.model);
      err := None;
    } else {
      err := AddItems(g, e.items, cells, cols, kw);
    }
  }

  /** The inner loop of `_group_maker` on a list of row numbers: every row
      becomes an item, made by `_make_item`, appended to `g`. */
  method AddItems(g: ItemGroup, items: seq<Outline.Clean>, cells: Cells, cols: ColumnNames, kw: seq<seq<string>>)
    returns (err: Option<Error>)
    requires g.Valid() && g.ParentsOk() && !Outline.HasList(items)
    modifies g`children, g`model, g`Repr
    ensures g.Valid() && g.ParentsOk() && g.Repr == old(g.Repr)
    ensures err.None? <==> BuildItems(items, cells, cols, kw).Ok?
    ensures err.None? ==> g.model == Group(g.header, old(g.model.children) + BuildItems(items, cells, cols, kw).value)
    ensures err.Some? ==> err.value == BuildItems(items, cells, cols, kw).error
  {
    ghost var ms0 := g.model.children;
    var j := 0;
    assert items[..0] == [];
    assert ms0 + [] == ms0;
    while j < |items|
      invariant 0 <= j <= |items|
      invariant g.Valid() && g.ParentsOk() && g.Repr == old(g.Repr)
      invariant !Outline.HasList(items[..j])
      invariant BuildItems(items[..j], cells, cols, kw).Ok?
      invariant g.model == Group(g.header, ms0 + BuildItems(items[..j], cells, cols, kw).value)
    {
      assert items[..j + 1][..j] == items[..j];
      assert !items[j].List?;
      NoListPrefix(items, j + 1);
      var made := MakeItem(cells(items[j].row), cols, kw);
      if made.Err? {
        BuildItemsErrStays(items, j + 1, cells, cols, kw);
        return Some(made.error);
      }
      var item := made.value;
      g.ValidChildren();
      g.Adopt(ItemM(item), Leaf(item.props, item.pages));
      j := j + 1;
    }
    assert items[..|items|] == items;
    err := None;
  }

  // ---------------------------------------------------------------------
  // Reading the outline

  /** The nested list `_parse_groups` hands to `_group_maker`: `splitter`
      on the outline, `cleanup`, and the root header row 1 put in front.
      An empty outline stops `splitter` at `x[0]`. */
  function RowList(levels: seq<Outline.Entry>): Result<seq<Outline.Clean>> {
    if levels == [] then Err(EmptyOutline)
    else Ok([Outline.Row(1)] + Outline.Cleanup(Outline.Splitter(levels, 0)))
  }

  /** `_parse_groups` on the outline `levels` (one pair per sheet row from
      row 3 on). */
  method ParseGroups(levels: seq<Outline.Entry>, cells: Cells, cols: ColumnNames, kw: seq<seq<string>>)
    returns (r: Result<ItemGroup>)
    ensures r.Ok? <==> RowList(levels).Ok? && Build(RowList(levels).value, cells, cols, kw).Ok?
    ensures r.Ok? ==> fresh(r.value.Repr) && r.value.Valid() && r.value.ParentsOk() && r.value.parent == null
    ensures r.Ok? ==> r.value.model == Build(RowList(levels).value, cells, cols, kw).value
    ensures r.Err? && levels == [] ==> r.error == EmptyOutline
    ensures r.Err? && levels != [] ==> r.error == Build(RowList(levels).value, cells, cols, kw).error
  {
    if levels == [] {
      return Err(EmptyOutline);
    }
    var groups := [Outline.Row(1)] + Outline.Cleanup(Outline.Splitter(levels, 0));
    r := GroupMaker(groups, null, cells, cols, kw);
  }

  /** An exception that only a row's cells can cause. */
  predicate ItemError(e: Error) {
    e.MissingColumn? || e.MissingName? || e.NameNotText?
  }

  /** The lists `splitter` and `cleanup` produce are always of the form
      `_group_maker` expects: building stops, if at all, only on an item. */
  lemma OutlineBuilds(levels: seq<Outline.Entry>, cells: Cells, cols: ColumnNames, kw: seq<seq<string>>)
    requires levels != []
    ensures Build(RowList(levels).value, cells, cols, kw).Err? ==>
      ItemError(Build(RowList(levels).value, cells, cols, kw).error)
  {
    Outline.SplitterShape(levels, 0);
    var l := RowList(levels).value;
    assert l[1..] == Outline.Cleanup(Outline.Splitter(levels, 0));
    GoodBuild(l, cells, cols, kw);
  }

  lemma {:induction false} GoodBuild(l: seq<Outline.Clean>, cells: Cells, cols: ColumnNames, kw: seq<seq<string>>)
    requires Outline.GoodGroup(l)
    ensures Build(l, cells, cols, kw).Err? ==> ItemError(Build(l, cells, cols, kw).error)
    decreases l, 1
  {
    GoodMembers(l[1..], cells, cols, kw);
  }

  lemma {:induction false} GoodMembers(s: seq<Outline.Clean>, cells: Cells, cols: ColumnNames, kw: seq<seq<string>>)
    requires Outline.GoodScope(s)
    ensures BuildMembers(s, cells, cols, kw).Err? ==> ItemError(BuildMembers(s, cells, cols, kw).error)
    decreases s, 0
  {
    if s != [] {
      var n := |s|;
      GoodScopePrefix(s, n - 1);
      GoodMembers(s[..n - 1], cells, cols, kw);
      assert s[n - 1].List?;
      if Outline.HasList(s[n - 1].items) {
        GoodBuild(s[n - 1].items, cells, cols, kw);
      } else {
        ItemsErrors(s[n - 1].items, cells, cols, kw);
      }
    }
  }

  lemma {:induction false} ItemsErrors(items: seq<Outline.Clean>, cells: Cells, cols: ColumnNames, kw: seq<seq<string>>)
    requires !Outline.HasList(items)
    ensures BuildItems(items, cells, cols, kw).Err? ==> ItemError(BuildItems(items, cells, cols, kw).error)
    decreases |items|
  {
    if items != [] {
      var n := |items|;
      NoListPrefix(items, n - 1);
      ItemsErrors(items[..n - 1], cells, cols, kw);
      var row := cells(items[n - 1].row);
      match FieldMap(row, cols)
      case Err(e) =>
        assert e.MissingColumn? by { FieldMapErrKind(row, cols); }
      case Ok(_) =>
    }
  }

  /** The only exception the field mapping raises is the unnamed column. */
  lemma {:induction false} FieldMapErrKind(row: Row, cols: ColumnNames)
    ensures FieldMap(row, cols).Err? ==> FieldMap(row, cols).error.MissingColumn?
    decreases |row|
  {
    if row != [] {
      FieldMapErrKind(row[..|row| - 1], cols);
    }
  }

  // ---------------------------------------------------------------------
  // The pages

  /** `_create_pages`: page `i` gets its own deep copy of the tree, sieved
      for page `i` and raised; the pages share no group. */
  method CreatePages(groups: ItemGroup, kw: seq<seq<string>>) returns (pages: seq<Page>)
    requires groups.Valid() && groups.ParentsOk()
    ensures |pages| == |kw|
    ensures forall i :: 0 <= i < |kw| ==>
      pages[i].index == i && pages[i].name == Join(kw[i], '\\') && fresh(pages[i].groups.Repr)
    ensures forall i :: 0 <= i < |kw| ==>
      pages[i].groups.Valid() && pages[i].groups.model == Raise(Sifted(groups.model, i))
    ensures forall i, j :: 0 <= i < j < |kw| ==> pages[i].groups.Repr !! pages[j].groups.Repr
  {
    pages := [];
    var i := 0;
    while i < |kw|
      invariant 0 <= i <= |kw| && |pages| == i
      invariant forall k :: 0 <= k < i ==>
        pages[k].index == k && pages[k].name == Join(kw[k], '\\') && fresh(pages[k].groups.Repr)
      invariant forall k :: 0 <= k < i ==>
        pages[k].groups.Valid() && pages[k].groups.model == Raise(Sifted(groups.model, k))
      invariant forall a, b :: 0 <= a < b < i ==> pages[a].groups.Repr !! pages[b].groups.Repr
    {
      var page := MakePage(groups, i, kw[i]);
      pages := pages + [page];
      i := i + 1;
    }
  }

  /** One pass of the loop of `_create_pages`: page `index` over a fresh
      deep copy of `groups`; `groups` itself is left as it was. */
  method MakePage(groups: ItemGroup, index: int, keywords: seq<string>) returns (page: Page)
    requires groups.Valid() && groups.ParentsOk()
    ensures page.index == index && page.name == Join(keywords, '\\') && fresh(page.groups.Repr)
    ensures page.groups.Valid() && page.groups.model == Raise(Sifted(groups.model, index))
  {
    var copy := groups.Clone(groups.parent);
    page := new Page(index, keywords, copy);
  }

  // ---------------------------------------------------------------------
  // The rows of a page

  /** The row of an item: one cell per column name, the item's value for
      that name or nothing. */
  function ItemRow(props: map<Value, Value>, cols: seq<Value>): seq<Option<Value>> {
    seq(|cols|, j requires 0 <= j < |cols| => if cols[j] in props then Some(props[cols[j]]) else None)
  }

  /** `compose_items` on the members `cs` of a group: a sub-group gives a
      one-cell row with its header followed by its own rows, an item gives
      its row. */
  function Compose(cs: seq<Node>, cols: seq<Value>): seq<seq<Option<Value>>>
    decreases cs, 0
  {
    if cs == [] then [] else ComposeOne(cs[0], cols) + Compose(cs[1..], cols)
  }

  function ComposeOne(n: Node, cols: seq<Value>): seq<seq<Option<Value>>>
    decreases n, 1
  {
    match n
    case Group(h, cs) => [[h]] + Compose(cs, cols)
    case Leaf(props, _) => [ItemRow(props, cols)]
  }

  /** Every tree below the members `cs`, in pre-order (groups before their
      members). */
  function Flat(cs: seq<Node>): seq<Node>
    decreases cs, 0
  {
    if cs == [] then [] else FlatOne(cs[0]) + Flat(cs[1..])
  }

  function FlatOne(n: Node): seq<Node>
    decreases n, 1
  {
    match n
    case Group(_, cs) => [n] + Flat(cs)
    case Leaf(_, _) => [n]
  }

  /** The row one tree contributes for itself. */
  function RowFor(n: Node, cols: seq<Value>): seq<Option<Value>> {
    match n
    case Group(h, _) => [h]
    case Leaf(props, _) => ItemRow(props, cols)
  }

  function RowsFor(ns: seq<Node>, cols: seq<Value>): (r: seq<seq<Option<Value>>>)
    ensures |r| == |ns|
  {
    if ns == [] then [] else [RowFor(ns[0], cols)] + RowsFor(ns[1..], cols)
  }

  /** Only the items, in order. */
  function LeafNodes(ns: seq<Node>): seq<Node> {
    if ns == [] then [] else (if ns[0].Leaf? then [ns[0]] else []) + LeafNodes(ns[1..])
  }

  lemma {:induction false} RowsForAppend(a: seq<Node>, b: seq<Node>, cols: seq<Value>)
    ensures RowsFor(a + b, cols) == RowsFor(a, cols) + RowsFor(b, cols)
    decreases |a|
  {
    if a == [] {
      assert a + b == b;
    } else {
      var head := [RowFor(a[0], cols)];
      assert (a + b)[0] == a[0] && (a + b)[1..] == a[1..] + b;
      calc {
        RowsFor(a + b, cols);
        head + RowsFor(a[1..] + b, cols);
        { RowsForAppend(a[1..], b, cols); }
        head + (RowsFor(a[1..], cols) + RowsFor(b, cols));
        (head + RowsFor(a[1..], cols)) + RowsFor(b, cols);
      }
    }
  }

  lemma {:induction false} LeafNodesAppend(a: seq<Node>, b: seq<Node>)
    ensures LeafNodes(a + b) == LeafNodes(a) + LeafNodes(b)
    decreases |a|
  {
    if a == [] {
      assert a + b == b;
    } else {
      var head := if a[0].Leaf? then [a[0]] else [];
      assert (a + b)[0] == a[0] && (a + b)[1..] == a[1..] + b;
      calc {
        LeafNodes(a + b);
        head + LeafNodes(a[1..] + b);
        { LeafNodesAppend(a[1..], b); }
        head + (LeafNodes(a[1..]) + LeafNodes(b));
        (head + LeafNodes(a[1..])) + LeafNodes(b);
      }
    }
  }

  lemma {:induction false} ComposeAppend(a: seq<Node>, b: seq<Node>, cols: seq<Value>)
    ensures Compose(a + b, cols) == Compose(a, cols) + Compose(b, cols)
    decreases |a|
  {
    if a == [] {
      assert a + b == b;
    } else {
      var head := ComposeOne(a[0], cols);
      assert (a + b)[0] == a[0] && (a + b)[1..] == a[1..] + b;
      calc {
        Compose(a + b, cols);
        head + Compose(a[1..] + b, cols);
        { ComposeAppend(a[1..], b, cols); }
        head + (Compose(a[1..], cols) + Compose(b, cols));
        (head + Compose(a[1..], cols)) + Compose(b, cols);
      }
    }
  }

  /** The rows are those of the trees below the group in pre-order: one row
      per group and per item, so a page has one row per tree below its root. */
  lemma {:induction false} ComposeFlat(cs: seq<Node>, cols: seq<Value>)
    ensures Compose(cs, cols) == RowsFor(Flat(cs), cols)
    decreases cs, 0
  {
    if cs != [] {
      ComposeOneFlat(cs[0], cols);
      ComposeFlat(cs[1..], cols);
      RowsForAppend(FlatOne(cs[0]), Flat(cs[1..]), cols);
    }
  }

  lemma {:induction false} ComposeOneFlat(n: Node, cols: seq<Value>)
    ensures ComposeOne(n, cols) == RowsFor(FlatOne(n), cols)
    decreases n, 1
  {
    match n
    case Group(h, cs) =>
      ComposeFlat(cs, cols);
      RowsForAppend([n], Flat(cs), cols);
      assert RowsFor([n], cols) == [[h]] + RowsFor([], cols);
    case Leaf(props, _) =>
      assert RowsFor([n], cols) == [ItemRow(props, cols)] + RowsFor([], cols);
  }

  /** The items of the pre-order are the items of the tree, in order. */
  lemma {:induction false} FlatLeaves(cs: seq<Node>)
    ensures LeafNodes(Flat(cs)) == LeavesOf(cs)
    decreases cs, 0
  {
    if cs != [] {
      FlatOneLeaves(cs[0]);
      FlatLeaves(cs[1..]);
      LeafNodesAppend(FlatOne(cs[0]), Flat(cs[1..]));
    }
  }

  lemma {:induction false} FlatOneLeaves(n: Node)
    ensures LeafNodes(FlatOne(n)) == Leaves(n)
    decreases n, 1
  {
    match n
    case Group(_, cs) =>
      FlatLeaves(cs);
      LeafNodesAppend([n], Flat(cs));
      assert LeafNodes([n]) == [] + LeafNodes([]);
    case Leaf(_, _) =>
      assert LeafNodes([n]) == [n] + LeafNodes([]);
  }

  /** The output row of an item made from the sheet row `row`: cell `j`
      is filled exactly when some filled cell of `row` lies in a column the
      header names `cols[j]`, and then it holds the right-most such cell. */
  lemma ItemRowCells(row: Row, names: ColumnNames, cols: seq<Value>)
    requires FieldMap(row, names).Ok?
    ensures var r := ItemRow(FieldMap(row, names).value, cols);
      |r| == |cols| &&
      (forall j :: 0 <= j < |cols| ==>
        (r[j].Some? <==> exists i :: 0 <= i < |row| && row[i].Some? && i + 1 in names && names[i + 1] == cols[j])) &&
      (forall j, i ::
        (0 <= j < |cols| && 0 <= i < |row| && row[i].Some? && i + 1 in names && names[i + 1] == cols[j] &&
         forall i' :: i < i' < |row| && row[i'].Some? && i' + 1 in names ==> names[i' + 1] != cols[j]) ==>
        r[j] == row[i])
  {
    FieldMapKeys(row, names);
    var r := ItemRow(FieldMap(row, names).value, cols);
    forall j, i | 0 <= j < |cols| && 0 <= i < |row| && row[i].Some? && i + 1 in names && names[i + 1] == cols[j] &&
        (forall i' :: i < i' < |row| && row[i'].Some? && i' + 1 in names ==> names[i' + 1] != cols[j])
      ensures r[j] == row[i]
    {
      FieldMapLastWins(row, names, i);
    }
  }

  /** The inner loop of `compose_items` on an item: one cell per column
      name, `props.get(name)`. */
  method MakeItemRow(props: map<Value, Value>, cols: seq<Value>) returns (row: seq<Option<Value>>)
    ensures row == ItemRow(props, cols)
  {
    row := [];
    var c := 0;
    while c < |cols|
      invariant 0 <= c <= |cols|
      invariant row == ItemRow(props, cols[..c])
    {
      assert cols[..c + 1][..c] == cols[..c];
      if cols[c] in props {
        row := row + [Some(props[cols[c]])];
      } else {
        row := row + [None];
      }
      assert row == ItemRow(props, cols[..c + 1]);
      c := c + 1;
    }
    assert cols[..|cols|] == cols;
  }

  /** `compose_items(group, cols)` on the objects: the loops as written. */
  method ComposeItems(group: ItemGroup, cols: seq<Value>) returns (rows: seq<seq<Option<Value>>>)
    requires group.Valid()
    decreases group.Repr
    ensures rows == Compose(group.model.children, cols)
  {
    group.ValidChildren();
    MirrorsFacts(group.Repr - {group}, group.children, group.model.children);
    ghost var ms := group.model.children;
    rows := [];
    var i := 0;
    while i < |group.children|
      invariant 0 <= i <= |group.children|
      invariant rows == Compose(ms[..i], cols)
    {
      assert ms[..i + 1] == ms[..i] + [ms[i]];
      ComposeAppend(ms[..i], [ms[i]], cols);
      assert Compose([ms[i]], cols) == ComposeOne(ms[i], cols) + Compose([], cols);
      match group.children[i] {
      case GroupM(g) =>
        rows := rows + [[g.header]];
        var sub := ComposeItems(g, cols);
        rows := rows + sub;
      case ItemM(item) =>
        var row := MakeItemRow(item.props, cols);
        rows := rows + [row];
      }
      i := i + 1;
    }
    assert ms[..|group.children|] == ms;
  }
}

/** What `_group_maker` puts into the tree and what `compose_items` then
    writes: the outline list names one slot per sub-list header and per item
    row, in pre-order, and the trees below the root, and the rows of the
    page, follow those slots one for one. */
module Content {
  import opened Values
  import Outline
  import opened Items
  import opened Tree
  import opened PriceList

  /** One tree below the root as the outline list names it: a sub-group
      headed by row `row`, or the item made from row `row`. */
  datatype Slot = HeaderSlot(row: nat) | ItemSlot(row: nat)

  /** The slots of the members made from `s`, in pre-order. */
  function MemberSlots(s: seq<Outline.Clean>): seq<Slot>
    decreases s, 0
  {
    if s == [] then [] else MemberSlots(s[..|s| - 1]) + ElementSlots(s[|s| - 1])
  }

  function ElementSlots(e: Outline.Clean): seq<Slot>
    decreases e, 2
  {
    if e.Row? then []
    else if Outline.HasList(e.items) then GroupSlots(e.items)
    else ItemSlots(e.items)
  }

  /** A sub-group's list: its header row, then the slots of its members. */
  function GroupSlots(l: seq<Outline.Clean>): seq<Slot>
    decreases l, 1
  {
    if l == [] || l[0].List? then [] else [HeaderSlot(l[0].row)] + MemberSlots(l[1..])
  }

  function ItemSlots(items: seq<Outline.Clean>): seq<Slot>
    requires !Outline.HasList(items)
  {
    if items == [] then []
    else
      var n := |items|;
      assert !items[n - 1].List?;
      NoListPrefix(items, n - 1);
      ItemSlots(items[..n - 1]) + [ItemSlot(items[n - 1].row)]
  }

  function SlotRows(ss: seq<Slot>): seq<nat> {
    seq(|ss|, k requires 0 <= k < |ss| => ss[k].row)
  }

  /** Tree `n` is what slot `s` names: a group headed by the first cell of
      the slot's row, or the item `_make_item` makes from that row. */
  predicate FillsSlot(n: Node, s: Slot, cells: Cells, cols: ColumnNames, kw: seq<seq<string>>) {
    match s
    case HeaderSlot(r) => n.Group? && n.header == cells(r)[0]
    case ItemSlot(r) => n.Leaf? && ItemSpec(cells(r), cols, kw) == Ok((n.props, n.pages))
  }

  predicate Fills(ns: seq<Node>, ss: seq<Slot>, cells: Cells, cols: ColumnNames, kw: seq<seq<string>>) {
    |ns| == |ss| && forall k :: 0 <= k < |ns| ==> FillsSlot(ns[k], ss[k], cells, cols, kw)
  }

  lemma FillsAppend(a: seq<Node>, sa: seq<Slot>, b: seq<Node>, sb: seq<Slot>,
                    cells: Cells, cols: ColumnNames, kw: seq<seq<string>>)
    requires Fills(a, sa, cells, cols, kw) && Fills(b, sb, cells, cols, kw)
    ensures Fills(a + b, sa + sb, cells, cols, kw)
  {
    forall k | 0 <= k < |a + b|
      ensures FillsSlot((a + b)[k], (sa + sb)[k], cells, cols, kw)
    {
      if k < |a| {
        assert (a + b)[k] == a[k] && (sa + sb)[k] == sa[k];
      } else {
        assert (a + b)[k] == b[k - |a|] && (sa + sb)[k] == sb[k - |a|];
      }
    }
  }

  lemma {:induction false} FlatAppend(a: seq<Node>, b: seq<Node>)
    ensures Flat(a + b) == Flat(a) + Flat(b)
    decreases |a|
  {
    if a == [] {
      assert a + b == b;
    } else {
      var head := FlatOne(a[0]);
      assert (a + b)[0] == a[0] && (a + b)[1..] == a[1..] + b;
      calc {
        Flat(a + b);
        head + Flat(a[1..] + b);
        { FlatAppend(a[1..], b); }
        head + (Flat(a[1..]) + Flat(b));
        (head + Flat(a[1..])) + Flat(b);
      }
    }
  }

  lemma {:induction false} BuildItemsFills(items: seq<Outline.Clean>, cells: Cells, cols: ColumnNames, kw: seq<seq<string>>)
    requires !Outline.HasList(items) && BuildItems(items, cells, cols, kw).Ok?
    ensures Fills(Flat(BuildItems(items, cells, cols, kw).value), ItemSlots(items), cells, cols, kw)
    decreases |items|
  {
    if items != [] {
      var n := |items|;
      var leaf := BuildItemsSnoc(items, cells, cols, kw);
      var ms := BuildItems(items[..n - 1], cells, cols, kw).value;
      BuildItemsFills(items[..n - 1], cells, cols, kw);
      FlatAppend(ms, [leaf]);
      assert Flat([leaf]) == FlatOne(leaf) + Flat([]);
      FillsAppend(Flat(ms), ItemSlots(items[..n - 1]), [leaf], [ItemSlot(items[n - 1].row)], cells, cols, kw);
    }
  }

  /** The last row of a list of rows gives the last item. */
  lemma BuildItemsSnoc(items: seq<Outline.Clean>, cells: Cells, cols: ColumnNames, kw: seq<seq<string>>)
    returns (leaf: Node)
    requires !Outline.HasList(items) && items != [] && BuildItems(items, cells, cols, kw).Ok?
    ensures !items[|items| - 1].List? && !Outline.HasList(items[..|items| - 1])
    ensures BuildItems(items[..|items| - 1], cells, cols, kw).Ok?
    ensures leaf.Leaf? && ItemSpec(cells(items[|items| - 1].row), cols, kw) == Ok((leaf.props, leaf.pages))
    ensures BuildItems(items, cells, cols, kw).value == BuildItems(items[..|items| - 1], cells, cols, kw).value + [leaf]
    ensures ItemSlots(items) == ItemSlots(items[..|items| - 1]) + [ItemSlot(items[|items| - 1].row)]
  {
    var n := |items|;
    assert !items[n - 1].List?;
    NoListPrefix(items, n - 1);
    var item := ItemSpec(cells(items[n - 1].row), cols, kw).value;
    leaf := Leaf(item.0, item.1);
  }

  lemma {:induction false} BuildMembersFills(s: seq<Outline.Clean>, cells: Cells, cols: ColumnNames, kw: seq<seq<string>>)
    requires BuildMembers(s, cells, cols, kw).Ok?
    ensures Fills(Flat(BuildMembers(s, cells, cols, kw).value), MemberSlots(s), cells, cols, kw)
    decreases s, 0
  {
    if s != [] {
      var last := s[|s| - 1];
      var ms := BuildMembers(s[..|s| - 1], cells, cols, kw).value;
      var ns := BuildElement(last, cells, cols, kw).value;
      BuildMembersFills(s[..|s| - 1], cells, cols, kw);
      BuildElementFills(last, cells, cols, kw);
      FlatAppend(ms, ns);
      FillsAppend(Flat(ms), MemberSlots(s[..|s| - 1]), Flat(ns), ElementSlots(last), cells, cols, kw);
    }
  }

  lemma {:induction false} BuildElementFills(e: Outline.Clean, cells: Cells, cols: ColumnNames, kw: seq<seq<string>>)
    requires BuildElement(e, cells, cols, kw).Ok?
    ensures Fills(Flat(BuildElement(e, cells, cols, kw).value), ElementSlots(e), cells, cols, kw)
    decreases e, 2
  {
    if Outline.HasList(e.items) {
      var g := Build(e.items, cells, cols, kw).value;
      BuildGroupFills(e.items, cells, cols, kw);
      assert Flat([g]) == FlatOne(g) + Flat([]);
    } else {
      BuildItemsFills(e.items, cells, cols, kw);
    }
  }

  lemma {:induction false} BuildGroupFills(l: seq<Outline.Clean>, cells: Cells, cols: ColumnNames, kw: seq<seq<string>>)
    requires Build(l, cells, cols, kw).Ok? && l != []
    ensures Fills(FlatOne(Build(l, cells, cols, kw).value), GroupSlots(l), cells, cols, kw)
    decreases l, 1
  {
    var g := Build(l, cells, cols, kw).value;
    BuildMembersFills(l[1..], cells, cols, kw);
    FillsAppend([g], [HeaderSlot(l[0].row)], Flat(g.children), MemberSlots(l[1..]), cells, cols, kw);
  }

  /** What `_group_maker` builds from `row_list`: the root is headed by the
      first cell of row `row_list[0]`, and the trees below it, in pre-order,
      are one per slot of the list: a group headed by its row's first cell
      for every sub-list, the item of its row for every row of a list
      without sub-lists. */
  lemma BuildContent(l: seq<Outline.Clean>, cells: Cells, cols: ColumnNames, kw: seq<seq<string>>)
    requires Build(l, cells, cols, kw).Ok? && l != []
    ensures l[0].Row? && Build(l, cells, cols, kw).value.header == cells(l[0].row)[0]
    ensures Fills(Flat(Build(l, cells, cols, kw).value.children), MemberSlots(l[1..]), cells, cols, kw)
  {
    BuildMembersFills(l[1..], cells, cols, kw);
  }

  lemma {:induction false} RowsForAt(ns: seq<Node>, cols: seq<Value>)
    ensures forall k :: 0 <= k < |ns| ==> RowsFor(ns, cols)[k] == RowFor(ns[k], cols)
    decreases |ns|
  {
    if ns != [] {
      RowsForAt(ns[1..], cols);
      assert forall k :: 0 < k < |ns| ==> RowsFor(ns, cols)[k] == RowsFor(ns[1..], cols)[k - 1];
    }
  }

  /** From the outline list to the rows of `compose_items`: one row per
      slot, in order; a sub-group's row holds the first cell of its header
      row, an item's row holds the fields `_make_item` found in its row,
      under the column names `names`. */
  lemma BuiltRows(l: seq<Outline.Clean>, cells: Cells, cols: ColumnNames, kw: seq<seq<string>>, names: seq<Value>)
    requires Build(l, cells, cols, kw).Ok? && l != []
    ensures var rows := Compose(Build(l, cells, cols, kw).value.children, names);
      var ss := MemberSlots(l[1..]);
      |rows| == |ss| &&
      forall k :: 0 <= k < |ss| ==>
        (ss[k].HeaderSlot? ==> rows[k] == [cells(ss[k].row)[0]]) &&
        (ss[k].ItemSlot? ==>
           ItemSpec(cells(ss[k].row), cols, kw).Ok? &&
           rows[k] == ItemRow(ItemSpec(cells(ss[k].row), cols, kw).value.0, names))
  {
    var t := Build(l, cells, cols, kw).value;
    BuildContent(l, cells, cols, kw);
    ComposeFlat(t.children, names);
    RowsForAt(Flat(t.children), names);
  }

  lemma {:induction false} ItemSlotsRows(items: seq<Outline.Clean>)
    requires !Outline.HasList(items)
    ensures SlotRows(ItemSlots(items)) == Outline.FlatRows(items)
    decreases |items|
  {
    if items != [] {
      var n := |items|;
      assert !items[n - 1].List?;
      NoListPrefix(items, n - 1);
      ItemSlotsRows(items[..n - 1]);
      Outline.FlatRowsAppend(items[..n - 1], [items[n - 1]]);
      assert items[..n - 1] + [items[n - 1]] == items;
      assert Outline.FlatRows([items[n - 1]]) == [items[n - 1].row] + Outline.FlatRows([]);
    }
  }

  lemma SlotRowsAppend(a: seq<Slot>, b: seq<Slot>)
    ensures SlotRows(a + b) == SlotRows(a) + SlotRows(b)
  {
  }

  lemma {:induction false} MemberSlotsRows(s: seq<Outline.Clean>)
    requires Outline.GoodScope(s)
    ensures SlotRows(MemberSlots(s)) == Outline.FlatRows(s)
    decreases s, 0
  {
    if s != [] {
      var n := |s|;
      var last := s[n - 1];
      GoodScopePrefix(s, n - 1);
      MemberSlotsRows(s[..n - 1]);
      ElementSlotsRows(last);
      SlotRowsAppend(MemberSlots(s[..n - 1]), ElementSlots(last));
      Outline.FlatRowsAppend(s[..n - 1], [last]);
      assert s[..n - 1] + [last] == s;
      assert Outline.FlatRows([last]) == Outline.FlatRows(last.items) + Outline.FlatRows([]);
    }
  }

  lemma {:induction false} ElementSlotsRows(e: Outline.Clean)
    requires e.List? && (Outline.HasList(e.items) ==> Outline.GoodGroup(e.items))
    ensures SlotRows(ElementSlots(e)) == Outline.FlatRows(e.items)
    decreases e, 2
  {
    if Outline.HasList(e.items) {
      GroupSlotsRows(e.items);
    } else {
      ItemSlotsRows(e.items);
    }
  }

  lemma {:induction false} GroupSlotsRows(l: seq<Outline.Clean>)
    requires Outline.GoodGroup(l)
    ensures SlotRows(GroupSlots(l)) == Outline.FlatRows(l)
    decreases l, 1
  {
    MemberSlotsRows(l[1..]);
    SlotRowsAppend([HeaderSlot(l[0].row)], MemberSlots(l[1..]));
  }

  /** On the list `_parse_groups` hands over, the slots are exactly the
      outline's row numbers after the top header, in order: every row but
      the first yields one tree of the group, and so one row of `compose_items`. */
  lemma OutlineSlots(levels: seq<Outline.Entry>)
    requires levels != []
    ensures var l := RowList(levels).value;
      SlotRows(MemberSlots(l[1..])) == Outline.FlatRows(Outline.Cleanup(Outline.Splitter(levels, 0)))
  {
    Outline.SplitterShape(levels, 0);
    var l := RowList(levels).value;
    assert l[1..] == Outline.Cleanup(Outline.Splitter(levels, 0));
    MemberSlotsRows(l[1..]);
  }
}

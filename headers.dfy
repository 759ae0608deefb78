/** `Header` of pricelist.py: the column-name map read from the first two
    sheet rows, the page keywords, and the column list used for output. */
module Headers {
  import opened Values
  import opened Items

  /** The price column's header, which `parse_header` skips. */
  const Price: Value := Text("Цена")

  /** The description column, which the output moves to the end. */
  const Description: Value := Text("Описание")

  /** One keyword group per page, in page order (`_set_keywords`). */
  const Keywords: seq<seq<string>> := [
    ["Xiaomi", "Redmi"], ["iPhone", "iPh"], ["Huawei"], ["Samsung"],
    ["Realme", "Oppo"], ["Meizu"], ["Nokia"], ["ZTE"], ["SONY"],
    ["LENOVO"], ["onePlus"], ["LeEco"], ["Разборка телефонов", "Б/У"], ["SSD"], ["Остальное"]]

  /** No keyword holds a backslash, so every page name, the keywords of its
      group joined with a backslash, splits back into those keywords; and
      every page has a keyword, so `_make_item` always reads an item's name. */
  lemma KeywordPageNames()
    ensures forall p :: 0 <= p < |Keywords| ==> SplitOn(Join(Keywords[p], '\\'), '\\') == Keywords[p]
    ensures AnyKeyword(Keywords)
  {
    forall p | 0 <= p < |Keywords|
      ensures SplitOn(Join(Keywords[p], '\\'), '\\') == Keywords[p]
    {
      JoinSplit(Keywords[p], '\\');
    }
    assert |Keywords[0]| > 0;
  }

  /** A header cell is recorded when it is truthy and is not the price column. */
  predicate Counts(cell: Option<Value>) {
    cell.Some? && Truthy(cell.value) && cell.value != Price
  }

  /** The recorded cells of one row, left to right, as (column, value). */
  function RowCells(row: Row): seq<(nat, Value)>
    decreases |row|
  {
    if row == [] then []
    else
      var n := |row|;
      RowCells(row[..n - 1]) + (if Counts(row[n - 1]) then [(n, row[n - 1].value)] else [])
  }

  /** The recorded cells of all rows, in the order `parse_header` visits them. */
  function HeaderCells(rows: seq<Row>): seq<(nat, Value)>
    decreases |rows|
  {
    if rows == [] then [] else HeaderCells(rows[..|rows| - 1]) + RowCells(rows[|rows| - 1])
  }

  /** Storing `cells` one by one into a dictionary whose keys, in insertion
      order, are `order`: a new key goes to the end, an existing key keeps
      its place and takes the new value. */
  function Absorb(order: seq<nat>, cols: map<nat, Value>, cells: seq<(nat, Value)>)
    : (seq<nat>, map<nat, Value>)
    decreases |cells|
  {
    if cells == [] then (order, cols)
    else
      var n := |cells|;
      var prev := Absorb(order, cols, cells[..n - 1]);
      var c := cells[n - 1].0;
      (if c in prev.1 then prev.0 else prev.0 + [c], prev.1[c := cells[n - 1].1])
  }

  /** One more cell of a row. */
  lemma RowCellsSnoc(row: Row, j: nat)
    requires j < |row|
    ensures RowCells(row[..j + 1]) ==
      RowCells(row[..j]) + (if Counts(row[j]) then [(j + 1, row[j].value)] else [])
  {
    assert row[..j + 1][..j] == row[..j];
  }

  /** Storing one more cell. */
  lemma AbsorbSnoc(order: seq<nat>, cols: map<nat, Value>, cells: seq<(nat, Value)>, cell: (nat, Value))
    ensures var prev := Absorb(order, cols, cells);
      Absorb(order, cols, cells + [cell]) ==
        (if cell.0 in prev.1 then prev.0 else prev.0 + [cell.0], prev.1[cell.0 := cell.1])
  {
    assert (cells + [cell])[..|cells|] == cells;
  }

  /** `Header._col_dict`: the column map with its insertion order kept
      beside it, since the output list follows that order. */
  class Header {
    var order: seq<nat>
    var cols: map<nat, Value>

    /** The insertion order lists every key of the map exactly once. */
    ghost predicate Valid()
      reads this
    {
      Distinct(order) && forall c :: c in cols <==> c in order
    }

    constructor ()
      ensures Valid() && order == [] && cols == map[]
    {
      order := [];
      cols := map[];
    }

    /** `parse_header(*rows)`: every recorded cell `j` of every row is stored
        under column `j + 1`, a later row overwriting an earlier one. */
    method ParseHeader(rows: seq<Row>)
      requires Valid()
      modifies this
      ensures Valid()
      ensures (order, cols) == Absorb(old(order), old(cols), HeaderCells(rows))
    {
      ghost var order0, cols0 := order, cols;
      var r := 0;
      while r < |rows|
        invariant 0 <= r <= |rows|
        invariant (order, cols) == Absorb(order0, cols0, HeaderCells(rows[..r]))
        invariant Valid()
      {
        var row := rows[r];
        assert rows[..r + 1][..r] == rows[..r];
        ghost var prev := HeaderCells(rows[..r]);
        ParseRow(row);
        AbsorbAppend(order0, cols0, prev, RowCells(row));
        assert rows[..r + 1][r] == row;
        r := r + 1;
      }
      assert rows[..|rows|] == rows;
    }

    /** The inner loop of `parse_header`: the recorded cells of one row go
        into the map, left to right. */
    method ParseRow(row: Row)
      requires Valid()
      modifies this
      ensures Valid()
      ensures (order, cols) == Absorb(old(order), old(cols), RowCells(row))
    {
      ghost var order0, cols0 := order, cols;
      assert row[..0] == [];
      var j := 0;
      while j < |row|
        invariant 0 <= j <= |row|
        invariant (order, cols) == Absorb(order0, cols0, RowCells(row[..j]))
      {
        ghost var before := RowCells(row[..j]);
        RowCellsSnoc(row, j);
        if Counts(row[j]) {
          AbsorbSnoc(order0, cols0, before, (j + 1, row[j].value));
          if j + 1 !in cols {
            order := order + [j + 1];
          }
          cols := cols[j + 1 := row[j].value];
          assert (order, cols) == Absorb(order0, cols0, RowCells(row[..j + 1]));
        } else {
          assert RowCells(row[..j + 1]) == before + [];
          assert RowCells(row[..j + 1]) == before;
        }
        j := j + 1;
      }
      assert row[..|row|] == row;
      AbsorbKeys(order0, cols0, RowCells(row));
    }

    /** `get_col_headers_cleaned`: the column names in insertion order with
        every 'Описание' taken out and, if there was one, put back once at
        the end. */
    method CleanedColumns() returns (clean: seq<Value>)
      requires Valid()
      ensures clean == Cleaned(NamesInOrder(order, cols))
    {
      ghost var names := NamesInOrder(order, cols);
      clean := [];
      var description := false;
      var i := 0;
      while i < |order|
        invariant 0 <= i <= |order|
        invariant clean == DropValue(names[..i], Description)
        invariant description <==> Description in names[..i]
      {
        assert names[..i + 1] == names[..i] + [cols[order[i]]];
        DropValueAppend(names[..i], [cols[order[i]]], Description);
        var value := cols[order[i]];
        if value == Description {
          description := true;
        } else {
          clean := clean + [value];
        }
        i := i + 1;
      }
      assert names[..|order|] == names;
      if description {
        clean := clean + [Description];
      }
    }
  }

  /** The dictionary's values, read in insertion order. */
  function NamesInOrder(order: seq<nat>, cols: map<nat, Value>): seq<Value>
    requires forall k :: 0 <= k < |order| ==> order[k] in cols
  {
    seq(|order|, k requires 0 <= k < |order| => cols[order[k]])
  }

  /** After `parse_header`, `_col_dict.items()` yields every column of the
      dictionary once: one name per column, and the names are exactly the
      dictionary's values. */
  lemma NamesListed(order: seq<nat>, cols: map<nat, Value>, cells: seq<(nat, Value)>)
    requires Distinct(order) && forall c :: c in cols <==> c in order
    ensures var (o, m) := Absorb(order, cols, cells);
      (forall k :: 0 <= k < |o| ==> o[k] in m) &&
      |NamesInOrder(o, m)| == |o| && Distinct(o) && (forall c :: c in m <==> c in o) &&
      forall v :: v in NamesInOrder(o, m) <==> exists c :: c in m && m[c] == v
  {
    AbsorbKeys(order, cols, cells);
    var (o, m) := Absorb(order, cols, cells);
    forall v | v in m.Values
      ensures v in NamesInOrder(o, m)
    {
      var c :| c in m && m[c] == v;
      var k :| 0 <= k < |o| && o[k] == c;
      assert NamesInOrder(o, m)[k] == v;
    }
  }

  /** `vs` with every occurrence of `x` removed. */
  function DropValue(vs: seq<Value>, x: Value): seq<Value> {
    if vs == [] then [] else (if vs[0] == x then [] else [vs[0]]) + DropValue(vs[1..], x)
  }

  function Cleaned(vs: seq<Value>): seq<Value> {
    DropValue(vs, Description) + (if Description in vs then [Description] else [])
  }

  // ---------------------------------------------------------------------
  // Which cells are recorded

  lemma {:induction false} RowCellsSpec(row: Row)
    ensures forall x :: x in RowCells(row) <==>
      exists j :: 0 <= j < |row| && Counts(row[j]) && x == (j + 1, row[j].value)
    ensures forall a, b :: 0 <= a < b < |RowCells(row)| ==> RowCells(row)[a].0 < RowCells(row)[b].0
    ensures forall a :: 0 <= a < |RowCells(row)| ==> 1 <= RowCells(row)[a].0 <= |row|
    decreases |row|
  {
    if row != [] {
      var n := |row|;
      RowCellsSpec(row[..n - 1]);
      assert forall j :: 0 <= j < n - 1 ==> row[..n - 1][j] == row[j];
    }
  }

  /** The map receives a cell's value exactly when some header row has a
      truthy, non-price value in that cell. */
  lemma {:induction false} HeaderCellsSpec(rows: seq<Row>)
    ensures forall x :: x in HeaderCells(rows) <==>
      exists r :: 0 <= r < |rows| && x in RowCells(rows[r])
    decreases |rows|
  {
    if rows != [] {
      var n := |rows|;
      HeaderCellsSpec(rows[..n - 1]);
      assert forall r :: 0 <= r < n - 1 ==> rows[..n - 1][r] == rows[r];
    }
  }

  // ---------------------------------------------------------------------
  // What storing into the dictionary promises

  /** Storing two runs of cells is storing the first, then the second. */
  lemma {:induction false} AbsorbAppend(order: seq<nat>, cols: map<nat, Value>, a: seq<(nat, Value)>, b: seq<(nat, Value)>)
    ensures Absorb(order, cols, a + b) ==
      Absorb(Absorb(order, cols, a).0, Absorb(order, cols, a).1, b)
    decreases |b|
  {
    if b == [] {
      assert a + b == a;
    } else {
      var n := |b|;
      AbsorbAppend(order, cols, a, b[..n - 1]);
      assert (a + b)[..|a + b| - 1] == a + b[..n - 1];
    }
  }

  lemma {:induction false} AbsorbKeys(order: seq<nat>, cols: map<nat, Value>, cells: seq<(nat, Value)>)
    requires Distinct(order) && forall c :: c in cols <==> c in order
    ensures var (o, m) := Absorb(order, cols, cells);
      Distinct(o) && (forall c :: c in m <==> c in o) && |order| <= |o| && o[..|order|] == order &&
      forall c :: c in m <==> c in cols || exists k :: 0 <= k < |cells| && cells[k].0 == c
    decreases |cells|
  {
    if cells != [] {
      var n := |cells|;
      AbsorbKeys(order, cols, cells[..n - 1]);
      assert forall k :: 0 <= k < n - 1 ==> cells[..n - 1][k] == cells[k];
      var prev := Absorb(order, cols, cells[..n - 1]);
      if cells[n - 1].0 !in prev.1 {
        assert (prev.0 + [cells[n - 1].0])[..|order|] == prev.0[..|order|];
      }
    }
  }

  /** Each column ends up with the value of its last recorded cell. */
  lemma {:induction false} AbsorbLastWins(order: seq<nat>, cols: map<nat, Value>, cells: seq<(nat, Value)>, k: nat)
    requires k < |cells|
    requires forall k' :: k < k' < |cells| ==> cells[k'].0 != cells[k].0
    ensures cells[k].0 in Absorb(order, cols, cells).1
    ensures Absorb(order, cols, cells).1[cells[k].0] == cells[k].1
    decreases |cells|
  {
    var n := |cells|;
    if k < n - 1 {
      assert forall k' :: k < k' < n - 1 ==> cells[..n - 1][k'] == cells[k'];
      AbsorbLastWins(order, cols, cells[..n - 1], k);
    }
  }

  /** A column no cell mentions keeps the value it had. */
  lemma {:induction false} AbsorbUntouched(order: seq<nat>, cols: map<nat, Value>, cells: seq<(nat, Value)>, c: nat)
    requires c in cols && forall k :: 0 <= k < |cells| ==> cells[k].0 != c
    ensures c in Absorb(order, cols, cells).1 && Absorb(order, cols, cells).1[c] == cols[c]
    decreases |cells|
  {
    if cells != [] {
      var n := |cells|;
      assert forall k :: 0 <= k < n - 1 ==> cells[..n - 1][k] == cells[k];
      AbsorbUntouched(order, cols, cells[..n - 1], c);
    }
  }

  /** The insertion order is not the column order: a name first met in the
      second header row comes after every name of the first row, even when
      its column lies further left. */
  lemma InsertionNotColumnOrder()
    ensures Absorb([], map[], HeaderCells([[None, Some(Text("B"))], [Some(Text("A")), None]])).0 == [2, 1]
  {
    ExampleRowCells();
    var rows: seq<Row> := [[None, Some(Text("B"))], [Some(Text("A")), None]];
    assert rows[..1] == [rows[0]] && rows[..1][..0] == [];
    assert HeaderCells(rows) == [(2, Text("B")), (1, Text("A"))];
    ExampleAbsorb();
  }

  /** The recorded cells of the two rows of the example above. */
  lemma ExampleRowCells()
    ensures RowCells([None, Some(Text("B"))]) == [(2, Text("B"))]
    ensures RowCells([Some(Text("A")), None]) == [(1, Text("A"))]
  {
    var b, a := Text("B"), Text("A");
    assert b != Price && a != Price by {
      assert b.s[0] != Price.s[0] && a.s[0] != Price.s[0];
    }
    var r1: Row := [None, Some(b)];
    var r2: Row := [Some(a), None];
    assert r1[..1] == [None] && r1[..1][..0] == [];
    assert r2[..1] == [Some(a)] && r2[..1][..0] == [];
  }

  /** Absorbing column 2 and then column 1 lists them in that order. */
  lemma ExampleAbsorb()
    ensures Absorb([], map[], [(2, Text("B")), (1, Text("A"))]).0 == [2, 1]
  {
    var cells: seq<(nat, Value)> := [(2, Text("B")), (1, Text("A"))];
    var one: seq<(nat, Value)> := [(2, Text("B"))];
    assert cells[..1] == one && one[..0] == [];
    var empty: map<nat, Value> := map[];
    assert Absorb([], empty, one[..0]) == ([], empty);
    var first := Absorb([], empty, one);
    assert first.0 == [2] && 1 !in first.1;
  }

  // ---------------------------------------------------------------------
  // What the cleaned column list promises

  lemma {:induction false} DropValueAppend(a: seq<Value>, b: seq<Value>, x: Value)
    ensures DropValue(a + b, x) == DropValue(a, x) + DropValue(b, x)
    decreases |a|
  {
    if a == [] {
      assert a + b == b;
    } else {
      var head := if a[0] == x then [] else [a[0]];
      assert (a + b)[0] == a[0] && (a + b)[1..] == a[1..] + b;
      calc {
        DropValue(a + b, x);
        head + DropValue(a[1..] + b, x);
        { DropValueAppend(a[1..], b, x); }
        head + (DropValue(a[1..], x) + DropValue(b, x));
        (head + DropValue(a[1..], x)) + DropValue(b, x);
      }
    }
  }

  lemma {:induction false} DropValueAbsent(vs: seq<Value>, x: Value)
    ensures x !in DropValue(vs, x)
    decreases |vs|
  {
    if vs != [] { DropValueAbsent(vs[1..], x); }
  }

  lemma {:induction false} DropValueCount(vs: seq<Value>, x: Value, v: Value)
    requires v != x
    ensures multiset(DropValue(vs, x))[v] == multiset(vs)[v]
    decreases |vs|
  {
    if vs != [] {
      DropValueCount(vs[1..], x, v);
      assert vs == [vs[0]] + vs[1..];
      assert multiset(vs) == multiset([vs[0]]) + multiset(vs[1..]);
      var head := if vs[0] == x then [] else [vs[0]];
      assert multiset(DropValue(vs, x)) == multiset(head) + multiset(DropValue(vs[1..], x));
    }
  }

  lemma {:induction false} DropValueSubseq(vs: seq<Value>, x: Value)
    ensures IsSubseq(DropValue(vs, x), vs)
    decreases |vs|
  {
    if vs != [] {
      DropValueSubseq(vs[1..], x);
      var d := DropValue(vs, x);
      if vs[0] != x {
        assert d[0] == vs[0] && d[1..] == DropValue(vs[1..], x);
      } else {
        assert d == DropValue(vs[1..], x);
      }
    }
  }

  /** The output columns keep every other name, with its multiplicity and
      in order; 'Описание' appears exactly once, as the last column, when
      the header had it at all, and not otherwise. */
  lemma CleanedSpec(vs: seq<Value>)
    ensures Description in Cleaned(vs) <==> Description in vs
    ensures Description in vs ==>
      |Cleaned(vs)| > 0 && Cleaned(vs)[|Cleaned(vs)| - 1] == Description &&
      Description !in Cleaned(vs)[..|Cleaned(vs)| - 1]
    ensures forall v :: v != Description ==> multiset(Cleaned(vs))[v] == multiset(vs)[v]
    ensures IsSubseq(DropValue(vs, Description), Cleaned(vs)[..|DropValue(vs, Description)|])
    ensures IsSubseq(DropValue(vs, Description), vs)
  {
    DropValueAbsent(vs, Description);
    DropValueSubseq(vs, Description);
    forall v | v != Description
      ensures multiset(Cleaned(vs))[v] == multiset(vs)[v]
    {
      DropValueCount(vs, Description, v);
    }
    var d := DropValue(vs, Description);
    assert Cleaned(vs)[..|d|] == d;
    SubseqRefl(d);
    if Description in vs {
      assert Cleaned(vs)[..|Cleaned(vs)| - 1] == d;
    }
  }
}

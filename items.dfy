/** `Item` of pricelist.py: `_make_item` maps the filled cells of a row onto
    the column names of the header, then tags the item with every page whose
    keywords occur in its name, or with the last page when none does. */
module Items {
  import opened Values

  /** An item of the price list. `_make_item` fills it once, while it is
      built, and nothing changes it afterwards, so its fields are constants.
      `pages` holds the page indices (the source keeps them under 'page'). */
  class Item {
    const props: map<Value, Value>
    const pages: seq<int>

    constructor (props: map<Value, Value>, pages: seq<int>)
      ensures this.props == props && this.pages == pages
    {
      this.props := props;
      this.pages := pages;
    }
  }

  /** The cells of one sheet row; cell `i` lies in column `i + 1`. */
  type Row = seq<Option<Value>>

  /** The header's column map: column number to column name. */
  type ColumnNames = map<nat, Value>

  /** The field that names an item. */
  const NameField: Value := Text("Номенклатура")

  /** The first loop of `_make_item`: every filled cell is stored under the
      name of its column, a later cell overwriting an earlier one of the
      same name; a filled cell in a column without a name raises KeyError. */
  function FieldMap(row: Row, cols: ColumnNames): Result<map<Value, Value>>
    decreases |row|
  {
    if row == [] then Ok(map[])
    else
      var n := |row|;
      match FieldMap(row[..n - 1], cols)
      case Err(e) => Err(e)
      case Ok(m) =>
        if row[n - 1].None? then Ok(m)
        else if n !in cols then Err(MissingColumn(n))
        else Ok(m[cols[n] := row[n - 1].value])
  }

  /** `any(brand_name.lower() in name.lower() for brand_name in keywords)`. */
  predicate MatchesPage(name: string, keywords: seq<string>) {
    exists k :: 0 <= k < |keywords| && Contains(Lower(name), Lower(keywords[k]))
  }

  /** The page indices below `n` whose keywords match `name`, in order. */
  function MatchedPages(name: string, kw: seq<seq<string>>, n: nat): seq<int>
    requires n <= |kw|
  {
    if n == 0 then []
    else MatchedPages(name, kw, n - 1) + (if MatchesPage(name, kw[n - 1]) then [n - 1] else [])
  }

  /** The pages of an item called `name`: the matched ones, or else the
      last page alone (`len(keywords) - 1`, which is -1 for no pages). */
  function Classify(name: string, kw: seq<seq<string>>): seq<int> {
    var m := MatchedPages(name, kw, |kw|);
    if m == [] then [|kw| - 1] else m
  }

  /** Some page has a keyword, so the name is looked up at least once. */
  predicate AnyKeyword(kw: seq<seq<string>>) {
    exists p :: 0 <= p < |kw| && |kw[p]| > 0
  }

  /** What `_make_item` leaves in an item (its fields and its pages), or the
      exception it raises. The name is read only while a keyword is tested,
      so a missing or non-text name goes unnoticed when no page has one. */
  function ItemSpec(row: Row, cols: ColumnNames, kw: seq<seq<string>>)
    : Result<(map<Value, Value>, seq<int>)>
  {
    match FieldMap(row, cols)
    case Err(e) => Err(e)
    case Ok(m) =>
      if !AnyKeyword(kw) then Ok((m, [|kw| - 1]))
      else if NameField !in m then Err(MissingName)
      else if !m[NameField].Text? then Err(NameNotText)
      else Ok((m, Classify(m[NameField].s, kw)))
  }

  /** `Item(item_row)`, that is `_make_item`: the two loops as written. */
  method MakeItem(row: Row, cols: ColumnNames, kw: seq<seq<string>>) returns (r: Result<Item>)
    ensures r.Ok? <==> ItemSpec(row, cols, kw).Ok?
    ensures r.Ok? ==> fresh(r.value)
    ensures r.Ok? ==> r.value.props == ItemSpec(row, cols, kw).value.0
    ensures r.Ok? ==> r.value.pages == ItemSpec(row, cols, kw).value.1
    ensures r.Err? ==> r.error == ItemSpec(row, cols, kw).error
  {
    var fields := FillFields(row, cols);
    if fields.Err? {
      return Err(fields.error);
    }
    var props := fields.value;
    var pages: seq<int> := [];
    var p := 0;
    while p < |kw|
      invariant 0 <= p <= |kw|
      invariant AnyKeyword(kw[..p]) ==> NameField in props && props[NameField].Text?
      invariant AnyKeyword(kw[..p]) ==> pages == MatchedPages(props[NameField].s, kw, p)
      invariant !AnyKeyword(kw[..p]) ==> pages == []
    {
      var found := PageMatches(props, kw[p]);
      if found.Err? {
        assert AnyKeyword(kw) by { assert |kw[p]| > 0; }
        return Err(found.error);
      }
      AnyKeywordStep(kw, p);
      if !AnyKeyword(kw[..p]) && |kw[p]| > 0 {
        NoKeywordNoMatch(props[NameField].s, kw, p);
      }
      if found.value {
        pages := pages + [p];
      }
      p := p + 1;
    }
    assert kw[..|kw|] == kw;
    if pages == [] {
      pages := [|kw| - 1];
    }
    var item := new Item(props, pages);
    r := Ok(item);
  }

  /** The first loop of `_make_item`: the item's fields, or the KeyError of
      the first filled cell whose column has no name. */
  method FillFields(row: Row, cols: ColumnNames) returns (r: Result<map<Value, Value>>)
    ensures r == FieldMap(row, cols)
  {
    var props: map<Value, Value> := map[];
    var i := 0;
    while i < |row|
      invariant 0 <= i <= |row|
      invariant FieldMap(row[..i], cols) == Ok(props)
    {
      assert row[..i + 1][..i] == row[..i];
      if row[i].Some? {
        if i + 1 !in cols {
          FieldMapErrStays(row, cols, i + 1);
          assert row[..|row|] == row;
          return Err(MissingColumn(i + 1));
        }
        props := props[cols[i + 1] := row[i].value];
      }
      i := i + 1;
    }
    assert row[..|row|] == row;
    r := Ok(props);
  }

  /** The `any(...)` test of one page: it stops at the first keyword found
      in the name, and it reads the name only when there is a keyword. */
  method PageMatches(props: map<Value, Value>, keywords: seq<string>) returns (r: Result<bool>)
    ensures |keywords| == 0 ==> r == Ok(false)
    ensures |keywords| > 0 && NameField !in props ==> r == Err(MissingName)
    ensures |keywords| > 0 && NameField in props && !props[NameField].Text? ==> r == Err(NameNotText)
    ensures |keywords| > 0 && NameField in props && props[NameField].Text? ==>
      r == Ok(MatchesPage(props[NameField].s, keywords))
  {
    var found := false;
    var k := 0;
    while k < |keywords| && !found
      invariant 0 <= k <= |keywords|
      invariant k > 0 ==> NameField in props && props[NameField].Text?
      invariant k > 0 ==> (found <==> exists j :: 0 <= j < k && Contains(Lower(props[NameField].s), Lower(keywords[j])))
      invariant k == 0 ==> !found
    {
      if NameField !in props {
        return Err(MissingName);
      }
      if !props[NameField].Text? {
        return Err(NameNotText);
      }
      found := Contains(Lower(props[NameField].s), Lower(keywords[k]));
      k := k + 1;
    }
    r := Ok(found);
  }

  lemma {:induction false} NoKeywordNoMatch(name: string, kw: seq<seq<string>>, p: nat)
    requires p <= |kw| && !AnyKeyword(kw[..p])
    ensures MatchedPages(name, kw, p) == []
    decreases p
  {
    if p > 0 {
      assert kw[..p][p - 1] == kw[p - 1];
      assert kw[..p - 1] == kw[..p][..p - 1];
      NoKeywordNoMatch(name, kw, p - 1);
    }
  }

  lemma AnyKeywordStep(kw: seq<seq<string>>, p: nat)
    requires p < |kw|
    ensures AnyKeyword(kw[..p + 1]) <==> AnyKeyword(kw[..p]) || |kw[p]| > 0
  {
    assert kw[..p + 1][p] == kw[p];
    if AnyKeyword(kw[..p + 1]) && !(|kw[p]| > 0) {
      var q :| 0 <= q < p + 1 && |kw[..p + 1][q]| > 0;
      assert kw[..p][q] == kw[q];
    }
    if AnyKeyword(kw[..p]) {
      var q :| 0 <= q < p && |kw[..p][q]| > 0;
      assert kw[..p + 1][q] == kw[q];
    }
  }

  /** Once a prefix of the row raises, the whole row raises the same way. */
  lemma {:induction false} FieldMapErrStays(row: Row, cols: ColumnNames, j: nat)
    requires j <= |row| && FieldMap(row[..j], cols).Err?
    ensures FieldMap(row, cols) == FieldMap(row[..j], cols)
    decreases |row| - j
  {
    if j < |row| {
      assert row[..j + 1][..j] == row[..j];
      FieldMapErrStays(row, cols, j + 1);
    } else {
      assert row[..j] == row;
    }
  }

  // ---------------------------------------------------------------------
  // What the field map promises

  /** The cells are mapped without an exception exactly when every filled
      cell lies in a named column. */
  lemma {:induction false} FieldMapOk(row: Row, cols: ColumnNames)
    ensures FieldMap(row, cols).Ok? <==>
      forall i :: 0 <= i < |row| && row[i].Some? ==> i + 1 in cols
    decreases |row|
  {
    if row != [] {
      var n := |row|;
      FieldMapOk(row[..n - 1], cols);
      assert forall i :: 0 <= i < n - 1 ==> row[..n - 1][i] == row[i];
    }
  }

  /** The KeyError names the first filled cell whose column has no name. */
  lemma {:induction false} FieldMapFirstMissing(row: Row, cols: ColumnNames)
    requires FieldMap(row, cols).Err?
    ensures FieldMap(row, cols).error.MissingColumn?
    ensures var c := FieldMap(row, cols).error.column;
      1 <= c <= |row| && row[c - 1].Some? && c !in cols &&
      forall i :: 0 <= i < c - 1 && row[i].Some? ==> i + 1 in cols
    decreases |row|
  {
    var n := |row|;
    assert forall i :: 0 <= i < n - 1 ==> row[..n - 1][i] == row[i];
    if FieldMap(row[..n - 1], cols).Err? {
      FieldMapFirstMissing(row[..n - 1], cols);
    } else {
      FieldMapOk(row[..n - 1], cols);
    }
  }

  /** On success, the field names are exactly the names of the filled columns. */
  lemma {:induction false} FieldMapKeys(row: Row, cols: ColumnNames)
    requires FieldMap(row, cols).Ok?
    ensures forall i :: 0 <= i < |row| && row[i].Some? ==> i + 1 in cols && cols[i + 1] in FieldMap(row, cols).value
    ensures forall key :: key in FieldMap(row, cols).value ==>
      exists i :: 0 <= i < |row| && row[i].Some? && i + 1 in cols && cols[i + 1] == key
    decreases |row|
  {
    if row != [] {
      var n := |row|;
      var pre := row[..n - 1];
      FieldMapKeys(pre, cols);
      assert forall i :: 0 <= i < n - 1 ==> pre[i] == row[i];
    }
  }

  /** On success, each field holds the value of the last filled cell in a
      column of that name: a later cell overwrites an earlier one. */
  lemma {:induction false} FieldMapLastWins(row: Row, cols: ColumnNames, i: nat)
    requires FieldMap(row, cols).Ok?
    requires i < |row| && row[i].Some? && i + 1 in cols
    requires forall j :: i < j < |row| && row[j].Some? && j + 1 in cols ==> cols[j + 1] != cols[i + 1]
    ensures cols[i + 1] in FieldMap(row, cols).value
    ensures FieldMap(row, cols).value[cols[i + 1]] == row[i].value
    decreases |row|
  {
    var n := |row|;
    var pre := row[..n - 1];
    if i < n - 1 {
      assert pre[i] == row[i];
      assert forall j :: i < j < |pre| ==> pre[j] == row[j];
      FieldMapLastWins(pre, cols, i);
    }
  }

  // ---------------------------------------------------------------------
  // What the classification promises

  lemma {:induction false} MatchedPagesSpec(name: string, kw: seq<seq<string>>, n: nat)
    requires n <= |kw|
    ensures forall p :: p in MatchedPages(name, kw, n) <==> 0 <= p < n && MatchesPage(name, kw[p])
    ensures forall a, b :: 0 <= a < b < |MatchedPages(name, kw, n)| ==>
      MatchedPages(name, kw, n)[a] < MatchedPages(name, kw, n)[b]
    ensures forall a :: 0 <= a < |MatchedPages(name, kw, n)| ==> MatchedPages(name, kw, n)[a] < n
  {
    if n > 0 { MatchedPagesSpec(name, kw, n - 1); }
  }

  /** An item lands on page `p` exactly when one of the keywords of page `p`
      occurs in its name, ignoring case; an item that matches no page lands on
      the last page alone. The pages come in increasing order, and there is
      always at least one. */
  lemma ClassifySpec(name: string, kw: seq<seq<string>>)
    ensures |Classify(name, kw)| > 0
    ensures forall p :: p in Classify(name, kw) <==>
      (0 <= p < |kw| && MatchesPage(name, kw[p])) ||
      (p == |kw| - 1 && forall q :: 0 <= q < |kw| ==> !MatchesPage(name, kw[q]))
    ensures forall a, b :: 0 <= a < b < |Classify(name, kw)| ==>
      Classify(name, kw)[a] < Classify(name, kw)[b]
  {
    MatchedPagesSpec(name, kw, |kw|);
    if MatchedPages(name, kw, |kw|) == [] {
      forall q | 0 <= q < |kw| ensures !MatchesPage(name, kw[q]) {
        assert q !in MatchedPages(name, kw, |kw|);
      }
    } else {
      var p0 := MatchedPages(name, kw, |kw|)[0];
      assert p0 in MatchedPages(name, kw, |kw|);
    }
  }

  /** With configured keywords, a missing name or a name that is not text
      stops the run; so does a filled cell in an unnamed column. */
  lemma ItemSpecErrors(row: Row, cols: ColumnNames, kw: seq<seq<string>>)
    ensures ItemSpec(row, cols, kw).Ok? <==>
      FieldMap(row, cols).Ok? &&
      (AnyKeyword(kw) ==>
        NameField in FieldMap(row, cols).value && FieldMap(row, cols).value[NameField].Text?)
    ensures ItemSpec(row, cols, kw).Ok? ==> |ItemSpec(row, cols, kw).value.1| > 0
  {
    if ItemSpec(row, cols, kw).Ok? && AnyKeyword(kw) {
      ClassifySpec(FieldMap(row, cols).value[NameField].s, kw);
    }
  }
}

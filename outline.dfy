/** The outline decoder of pricelist.py: `splitter` turns the sheet's
    (outline level, row number) pairs into nested lists by depth transitions,
    and `cleanup` strips every pair down to its row number. */
module Outline {
  import opened Values

  /** One data row: its outline level and its row number in the sheet. */
  datatype Entry = Entry(depth: nat, row: nat)

  /** An element of a list `splitter` returns: a row pair or a nested list. */
  datatype Split = Pair(entry: Entry) | Sub(items: seq<Split>)

  /** An element of a list `cleanup` returns: a row number or a nested list. */
  datatype Clean = Row(row: nat) | List(items: seq<Clean>)

  /** `set([a[0] for a in s])`. */
  function Depths(s: seq<Entry>): set<nat> {
    set e | e in s :: e.depth
  }

  /** The test `len(set([a[0] for a in x[1:]])) == 1`. */
  predicate OneDepth(s: seq<Entry>) {
    |Depths(s)| == 1
  }

  /** One distinct depth means a non-empty slice at a single depth. */
  lemma OneDepthIff(s: seq<Entry>)
    ensures OneDepth(s) <==> |s| > 0 && forall k :: 0 <= k < |s| ==> s[k].depth == s[0].depth
  {
    if |s| > 0 && forall k :: 0 <= k < |s| ==> s[k].depth == s[0].depth {
      assert Depths(s) == {s[0].depth};
    }
    if OneDepth(s) {
      var d :| d in Depths(s);
      assert |Depths(s) - {d}| == 0;
      assert |s| > 0;
      forall k | 0 <= k < |s| ensures s[k].depth == s[0].depth {
        assert s[k].depth in Depths(s) && s[0].depth in Depths(s);
      }
    }
  }

  function MaxDepth(x: seq<Entry>): (m: nat)
    requires |x| > 0
    ensures forall k :: 0 <= k < |x| ==> x[k].depth <= m
  {
    if |x| == 1 then x[0].depth
    else var m := MaxDepth(x[1..]); if x[0].depth > m then x[0].depth else m
  }

  /** The inner `for y in range(j, len(x))` search: the first index from `j`
      on whose depth is `base`, or `|x|` when there is none. */
  function NextBase(x: seq<Entry>, j: nat, base: nat): (y: nat)
    requires j <= |x|
    ensures j <= y <= |x|
    ensures y < |x| ==> x[y].depth == base
    ensures forall k :: j <= k < y ==> x[k].depth != base
    decreases |x| - j
  {
    if j == |x| || x[j].depth == base then j else NextBase(x, j + 1, base)
  }

  /** A same-depth run of entries, each as a pair of its own. */
  function AsLeaves(s: seq<Entry>): seq<Split> {
    seq(|s|, k requires 0 <= k < |s| => Pair(s[k]))
  }

  /** `splitter(x, base)`. `x[0]` is read unguarded, so `x` may not be empty.
      The pair `x[0]` is kept as a header when it is shallower than `base`;
      then either the rest of `x`, when it sits at one depth, is appended as
      one flat list, or every entry at depth `base` opens a scope that reaches
      to the next entry at depth `base`, decoded at `base + 1`. */
  function Splitter(x: seq<Entry>, base: nat): (r: seq<Split>)
    requires |x| > 0
    ensures x[0].depth < base ==> |r| > 0 && r[0] == Pair(x[0])
    ensures forall k :: 0 <= k < |r| && (0 < k || base <= x[0].depth) ==> r[k].Sub?
    decreases |x|, MaxDepth(x) - base, |x| + 1
  {
    (if x[0].depth < base then [Pair(x[0])] else [])
    + (if OneDepth(x[1..]) then [Sub(AsLeaves(x[1..]))] else Scopes(x, 0, base))
  }

  /** The `for i in range(len(x))` loop of `splitter`, from index `i` on. */
  function Scopes(x: seq<Entry>, i: nat, base: nat): (r: seq<Split>)
    requires |x| > 0 && i <= |x|
    ensures |r| <= |x| - i
    ensures forall k :: 0 <= k < |r| ==> r[k].Sub?
    decreases |x|, MaxDepth(x) - base, |x| - i
  {
    if i == |x| then []
    else
      (if x[i].depth == base
       then
         var y := NextBase(x, i + 1, base);
         assert i == 0 && y == |x| ==> x[i..y] == x;
         [Sub(Splitter(x[i..y], base + 1))]
       else [])
      + Scopes(x, i + 1, base)
  }

  /** `cleanup(x)`: every pair becomes its row number, the nesting stays. */
  function Cleanup(x: seq<Split>): (r: seq<Clean>)
    ensures |r| == |x|
    ensures forall k :: 0 <= k < |x| && x[k].Pair? ==> r[k] == Row(x[k].entry.row)
    ensures forall k :: 0 <= k < |x| && x[k].Sub? ==> r[k].List? && |r[k].items| == |x[k].items|
  {
    if x == [] then []
    else
      (match x[0]
       case Pair(e) => [Row(e.row)]
       case Sub(items) => [List(Cleanup(items))])
      + Cleanup(x[1..])
  }

  // ---------------------------------------------------------------------
  // Reading the nested lists back

  /** The pairs of `r` in pre-order. */
  function Flatten(r: seq<Split>): seq<Entry> {
    if r == [] then []
    else
      (match r[0]
       case Pair(e) => [e]
       case Sub(items) => Flatten(items))
      + Flatten(r[1..])
  }

  /** The row numbers of `c` in pre-order. */
  function FlatRows(c: seq<Clean>): seq<nat> {
    if c == [] then []
    else
      (match c[0]
       case Row(n) => [n]
       case List(items) => FlatRows(items))
      + FlatRows(c[1..])
  }

  function RowsOf(s: seq<Entry>): seq<nat> {
    seq(|s|, k requires 0 <= k < |s| => s[k].row)
  }

  /** The nesting of a list with its elements forgotten. */
  datatype Shape = Dot | Nest(items: seq<Shape>)

  function SplitShape(r: seq<Split>): seq<Shape> {
    if r == [] then []
    else (match r[0] case Pair(_) => [Dot] case Sub(items) => [Nest(SplitShape(items))]) + SplitShape(r[1..])
  }

  function CleanShape(c: seq<Clean>): seq<Shape> {
    if c == [] then []
    else (match c[0] case Row(_) => [Dot] case List(items) => [Nest(CleanShape(items))]) + CleanShape(c[1..])
  }

  // ---------------------------------------------------------------------
  // Facts about sequences

  lemma {:induction false} FlattenAppend(a: seq<Split>, b: seq<Split>)
    ensures Flatten(a + b) == Flatten(a) + Flatten(b)
    decreases |a|
  {
    if a == [] {
      assert a + b == b;
    } else {
      var head := match a[0] case Pair(e) => [e] case Sub(items) => Flatten(items);
      assert (a + b)[0] == a[0] && (a + b)[1..] == a[1..] + b;
      calc {
        Flatten(a + b);
        head + Flatten(a[1..] + b);
        { FlattenAppend(a[1..], b); }
        head + (Flatten(a[1..]) + Flatten(b));
        (head + Flatten(a[1..])) + Flatten(b);
      }
    }
  }

  lemma {:induction false} FlattenPairs(s: seq<Entry>)
    ensures Flatten(AsLeaves(s)) == s
    decreases |s|
  {
    if s != [] {
      assert AsLeaves(s) == [Pair(s[0])] + AsLeaves(s[1..]);
      FlattenAppend([Pair(s[0])], AsLeaves(s[1..]));
      FlattenPairs(s[1..]);
    }
  }

  /** The indices from `i` on whose entries sit at depth `base`. */
  function BaseAt(x: seq<Entry>, i: nat, base: nat): seq<nat>
    requires i <= |x|
    decreases |x| - i
  {
    if i == |x| then [] else (if x[i].depth == base then [i] else []) + BaseAt(x, i + 1, base)
  }

  lemma {:induction false} BaseAtSpec(x: seq<Entry>, i: nat, base: nat)
    requires i <= |x|
    ensures forall k :: k in BaseAt(x, i, base) <==> i <= k < |x| && x[k].depth == base
    ensures forall a, b :: 0 <= a < b < |BaseAt(x, i, base)| ==> BaseAt(x, i, base)[a] < BaseAt(x, i, base)[b]
    decreases |x| - i
  {
    if i < |x| {
      BaseAtSpec(x, i + 1, base);
      var t := BaseAt(x, i + 1, base);
      var h: seq<nat> := if x[i].depth == base then [i] else [];
      assert BaseAt(x, i, base) == h + t;
      forall a, b | 0 <= a < b < |h + t| ensures (h + t)[a] < (h + t)[b] {
        assert (h + t)[b] == t[b - |h|] && t[b - |h|] in t;
        if a >= |h| {
          assert (h + t)[a] == t[a - |h|];
        }
      }
    }
  }

  /** The scope that the depth-`base` entry at `b` opens: `x[b..y]` decoded
      at `base + 1`, where `y` is the next depth-`base` index or the end. */
  function ScopeAt(x: seq<Entry>, b: nat, base: nat): Split
    requires b < |x|
  {
    Sub(Splitter(x[b..NextBase(x, b + 1, base)], base + 1))
  }

  /** The loop of `splitter` emits one scope per depth-`base` index `b`, in
      increasing order, and that scope decodes `x[b..y]` at `base + 1`, where
      `y` is the next depth-`base` index or the end of `x`. */
  lemma {:induction false} ScopesAt(x: seq<Entry>, i: nat, base: nat)
    requires |x| > 0 && i <= |x|
    ensures |Scopes(x, i, base)| == |BaseAt(x, i, base)|
    ensures forall j :: 0 <= j < |BaseAt(x, i, base)| ==>
      BaseAt(x, i, base)[j] < |x| && Scopes(x, i, base)[j] == ScopeAt(x, BaseAt(x, i, base)[j], base)
    decreases |x| - i
  {
    if i < |x| {
      ScopesAt(x, i + 1, base);
      ScopesUnfold(x, i, base);
      var bs, ss := BaseAt(x, i + 1, base), Scopes(x, i + 1, base);
      if x[i].depth == base {
        assert BaseAt(x, i, base) == [i] + bs;
        forall j | 0 < j < |BaseAt(x, i, base)|
          ensures BaseAt(x, i, base)[j] == bs[j - 1] && Scopes(x, i, base)[j] == ss[j - 1]
        {
        }
      }
    }
  }

  /** One pass of the loop of `splitter`. */
  lemma ScopesUnfold(x: seq<Entry>, i: nat, base: nat)
    requires |x| > 0 && i < |x|
    ensures Scopes(x, i, base) ==
      (if x[i].depth == base then [ScopeAt(x, i, base)] else []) + Scopes(x, i + 1, base)
  {
  }

  /** Scanning from `j` finds nothing when no depth-`base` entry lies before `y`. */
  lemma {:induction false} ScopesSkip(x: seq<Entry>, j: nat, y: nat, base: nat)
    requires |x| > 0 && j <= y <= |x|
    requires forall k :: j <= k < y ==> x[k].depth != base
    ensures Scopes(x, j, base) == Scopes(x, y, base)
    decreases y - j
  {
    if j < y {
      ScopesUnfold(x, j, base);
      ScopesSkip(x, j + 1, y, base);
    }
  }

  /** Read in pre-order, the pairs `splitter` returns are `x` with some
      entries left out and the others in their original order. */
  lemma {:induction false} SplitterSubseq(x: seq<Entry>, base: nat)
    requires |x| > 0
    ensures IsSubseq(Flatten(Splitter(x, base)), x)
    decreases |x|, MaxDepth(x) - base, |x| + 2
  {
    var tail := if OneDepth(x[1..]) then [Sub(AsLeaves(x[1..]))] else Scopes(x, 0, base);
    SplitterFlatten(x, base);
    RestSubseq(x, base);
    if x[0].depth < base {
      assert x == [x[0]] + x[1..];
      SubseqRefl([x[0]]);
      SubseqConcat([x[0]], [x[0]], Flatten(tail), x[1..]);
    } else {
      assert Flatten(Splitter(x, base)) == Flatten(tail);
    }
  }

  /** The pairs of `splitter(x, base)`: the header, if kept, then the rest. */
  lemma SplitterFlatten(x: seq<Entry>, base: nat)
    requires |x| > 0
    ensures Flatten(Splitter(x, base)) ==
      (if x[0].depth < base then [x[0]] else []) +
      Flatten(if OneDepth(x[1..]) then [Sub(AsLeaves(x[1..]))] else Scopes(x, 0, base))
  {
    var head := if x[0].depth < base then [Pair(x[0])] else [];
    var tail := if OneDepth(x[1..]) then [Sub(AsLeaves(x[1..]))] else Scopes(x, 0, base);
    FlattenAppend(head, tail);
    if x[0].depth < base {
      FlattenAppend([Pair(x[0])], []);
    }
  }

  /** What `splitter(x, base)` returns after the header is drawn from `x`,
      and from `x[1..]` when the header is kept. */
  lemma {:induction false} RestSubseq(x: seq<Entry>, base: nat)
    requires |x| > 0
    ensures var tail := if OneDepth(x[1..]) then [Sub(AsLeaves(x[1..]))] else Scopes(x, 0, base);
      IsSubseq(Flatten(tail), x) && (x[0].depth < base ==> IsSubseq(Flatten(tail), x[1..]))
    decreases |x|, MaxDepth(x) - base, |x| + 1
  {
    var tail := if OneDepth(x[1..]) then [Sub(AsLeaves(x[1..]))] else Scopes(x, 0, base);
    if OneDepth(x[1..]) {
      FlattenAppend([Sub(AsLeaves(x[1..]))], []);
      FlattenPairs(x[1..]);
      assert Flatten(tail) == x[1..];
      SubseqRefl(x[1..]);
      SubseqDropFront(Flatten(tail), x, 1);
    } else {
      ScopesSubseq(x, 0, base);
      assert x[0..] == x;
      if x[0].depth < base {
        ScopesSkip(x, 0, 1, base);
        ScopesSubseq(x, 1, base);
      }
    }
  }

  lemma {:induction false} ScopesSubseq(x: seq<Entry>, i: nat, base: nat)
    requires |x| > 0 && i <= |x|
    ensures IsSubseq(Flatten(Scopes(x, i, base)), x[i..])
    decreases |x|, MaxDepth(x) - base, |x| - i
  {
    if i == |x| {
    } else if x[i].depth == base {
      var y := NextBase(x, i + 1, base);
      assert i == 0 && y == |x| ==> x[i..y] == x;
      var inner := Splitter(x[i..y], base + 1);
      SplitterSubseq(x[i..y], base + 1);
      ScopesSkip(x, i + 1, y, base);
      ScopesSubseq(x, y, base);
      ScopeStep(x, i, y, inner, Scopes(x, y, base));
      assert Scopes(x, i, base) == [Sub(inner)] + Scopes(x, y, base);
    } else {
      ScopesSubseq(x, i + 1, base);
      assert Scopes(x, i, base) == Scopes(x, i + 1, base);
      assert x[i..][1..] == x[i + 1..];
      SubseqDropFront(Flatten(Scopes(x, i, base)), x[i..], 1);
    }
  }

  /** One step of `ScopesSubseq`: a scope over `x[i..y]` followed by the
      scopes over `x[y..]`. */
  lemma ScopeStep(x: seq<Entry>, i: nat, y: nat, inner: seq<Split>, rest: seq<Split>)
    requires i <= y <= |x|
    requires IsSubseq(Flatten(inner), x[i..y]) && IsSubseq(Flatten(rest), x[y..])
    ensures IsSubseq(Flatten([Sub(inner)] + rest), x[i..])
  {
    FlattenAppend([Sub(inner)], rest);
    FlattenAppend([Sub(inner)], []);
    assert Flatten([Sub(inner)]) == Flatten(inner);
    SubseqConcat(Flatten(inner), x[i..y], Flatten(rest), x[y..]);
    assert x[i..y] + x[y..] == x[i..];
  }

  /** Since the rows of the sheet are distinct, so are the rows `splitter`
      keeps: no row is emitted twice. */
  lemma SplitterNoRepeats(x: seq<Entry>, base: nat)
    requires |x| > 0 && Distinct(x)
    ensures Distinct(Flatten(Splitter(x, base)))
  {
    SplitterSubseq(x, base);
    SubseqDistinct(Flatten(Splitter(x, base)), x);
  }

  /** A list `_group_maker` can build a group from: a row number first (the
      header), then nested lists only, each either a flat list of rows or
      itself such a group. */
  predicate GoodGroup(l: seq<Clean>) {
    |l| > 0 && l[0].Row? && GoodScope(l[1..])
  }

  predicate GoodScope(s: seq<Clean>)
    decreases s, 0
  {
    forall k :: 0 <= k < |s| ==>
      s[k].List? && (HasList(s[k].items) ==> GoodGroup(s[k].items))
  }

  predicate HasList(s: seq<Clean>) {
    exists k :: 0 <= k < |s| && s[k].List?
  }

  lemma {:induction false} CleanupAppend(a: seq<Split>, b: seq<Split>)
    ensures Cleanup(a + b) == Cleanup(a) + Cleanup(b)
    decreases |a|
  {
    if a == [] {
      assert a + b == b;
    } else {
      assert (a + b)[0] == a[0] && (a + b)[1..] == a[1..] + b;
      CleanupAppend(a[1..], b);
    }
  }

  lemma {:induction false} CleanupPairs(s: seq<Entry>)
    ensures !HasList(Cleanup(AsLeaves(s)))
    ensures |Cleanup(AsLeaves(s))| == |s|
    decreases |s|
  {
    if s != [] {
      assert AsLeaves(s) == [Pair(s[0])] + AsLeaves(s[1..]);
      CleanupAppend([Pair(s[0])], AsLeaves(s[1..]));
      CleanupPairs(s[1..]);
      var c := Cleanup(AsLeaves(s));
      assert c == [Row(s[0].row)] + Cleanup(AsLeaves(s[1..]));
      forall k | 0 <= k < |c| ensures !c[k].List? {
        if k > 0 { assert c[k] == Cleanup(AsLeaves(s[1..]))[k - 1]; }
      }
    }
  }

  lemma GoodScopeAppend(a: seq<Clean>, b: seq<Clean>)
    requires GoodScope(a) && GoodScope(b)
    ensures GoodScope(a + b)
  {
    forall k | 0 <= k < |a + b|
      ensures (a + b)[k].List? && (HasList((a + b)[k].items) ==> GoodGroup((a + b)[k].items))
    {
      if k >= |a| { assert (a + b)[k] == b[k - |a|]; }
    }
  }

  /** The decoded tail of every scope (the part after the optional header)
      consists of nested lists a group can be built from; and when the first
      pair is shallower than `base` it leads as the header row, so the whole
      result is a group. */
  lemma {:induction false} SplitterShape(x: seq<Entry>, base: nat)
    requires |x| > 0
    ensures x[0].depth < base ==> GoodGroup(Cleanup(Splitter(x, base)))
    ensures x[0].depth < base ==> Cleanup(Splitter(x, base))[0] == Row(x[0].row)
    ensures x[0].depth >= base ==> GoodScope(Cleanup(Splitter(x, base)))
    decreases |x|, MaxDepth(x) - base, |x| + 1
  {
    var head := if x[0].depth < base then [Pair(x[0])] else [];
    var tail := if OneDepth(x[1..]) then [Sub(AsLeaves(x[1..]))] else Scopes(x, 0, base);
    CleanupAppend(head, tail);
    if OneDepth(x[1..]) {
      CleanupPairs(x[1..]);
      CleanupAppend([Sub(AsLeaves(x[1..]))], []);
      assert Cleanup(tail) == [List(Cleanup(AsLeaves(x[1..])))];
    } else {
      ScopesShape(x, 0, base);
    }
    assert GoodScope(Cleanup(tail));
    if x[0].depth < base {
      CleanupAppend([Pair(x[0])], []);
      assert Cleanup(head) == [Row(x[0].row)];
      var c := Cleanup(head) + Cleanup(tail);
      assert c[1..] == Cleanup(tail);
    } else {
      assert Cleanup(head) + Cleanup(tail) == Cleanup(tail);
    }
  }

  lemma {:induction false} ScopesShape(x: seq<Entry>, i: nat, base: nat)
    requires |x| > 0 && i <= |x|
    ensures GoodScope(Cleanup(Scopes(x, i, base)))
    decreases |x|, MaxDepth(x) - base, |x| - i
  {
    if i < |x| {
      ScopesShape(x, i + 1, base);
      ScopesUnfold(x, i, base);
      if x[i].depth == base {
        var here := [ScopeAt(x, i, base)];
        ScopeAtShape(x, i, base);
        CleanupAppend(here, Scopes(x, i + 1, base));
        GoodScopeAppend(Cleanup(here), Cleanup(Scopes(x, i + 1, base)));
      } else {
        assert Scopes(x, i, base) == Scopes(x, i + 1, base);
      }
    }
  }

  /** The scope opened at `i` cleans to a flat list or a group. */
  lemma {:induction false} ScopeAtShape(x: seq<Entry>, i: nat, base: nat)
    requires |x| > 0 && i < |x| && x[i].depth == base
    ensures GoodScope(Cleanup([ScopeAt(x, i, base)]))
    decreases |x|, MaxDepth(x) - base, 0
  {
    var y := NextBase(x, i + 1, base);
    assert i == 0 && y == |x| ==> x[i..y] == x;
    assert x[i..y][0] == x[i];
    SplitterShape(x[i..y], base + 1);
    var sc := Splitter(x[i..y], base + 1);
    assert Cleanup([Sub(sc)]) == [List(Cleanup(sc))] by {
      assert [Sub(sc)][1..] == [];
    }
  }

  /** Every scope that the loop of `splitter` opens is headed by the pair
      that opened it: scope `k` starts with the entry at the `k`-th
      depth-`base` index from `i` on. */
  lemma ScopesHeaded(x: seq<Entry>, i: nat, base: nat, k: nat)
    requires |x| > 0 && i <= |x| && k < |Scopes(x, i, base)|
    ensures Scopes(x, i, base)[k].Sub?
    ensures |Scopes(x, i, base)[k].items| > 0
    ensures k < |BaseAt(x, i, base)| && i <= BaseAt(x, i, base)[k] < |x|
    ensures Scopes(x, i, base)[k].items[0] == Pair(x[BaseAt(x, i, base)[k]])
    ensures x[BaseAt(x, i, base)[k]].depth == base
  {
    ScopesAt(x, i, base);
    BaseAtAt(x, i, base, k);
    var b := BaseAt(x, i, base)[k];
    var y := NextBase(x, b + 1, base);
    assert x[b..y][0] == x[b];
  }

  /** The `k`-th depth-`base` index from `i` on. */
  lemma BaseAtAt(x: seq<Entry>, i: nat, base: nat, k: nat)
    requires i <= |x| && k < |BaseAt(x, i, base)|
    ensures i <= BaseAt(x, i, base)[k] < |x| && x[BaseAt(x, i, base)[k]].depth == base
  {
    BaseAtSpec(x, i, base);
    assert BaseAt(x, i, base)[k] in BaseAt(x, i, base);
  }

  // ---------------------------------------------------------------------
  // What cleanup promises

  /** `cleanup` replaces each pair by its row number and keeps the order. */
  lemma {:induction false} CleanupRows(x: seq<Split>)
    ensures FlatRows(Cleanup(x)) == RowsOf(Flatten(x))
    decreases x
  {
    if x != [] {
      CleanupRows(x[1..]);
      match x[0]
      case Pair(e) =>
      case Sub(items) => CleanupRows(items);
      RowsAppend(Flatten([x[0]]), Flatten(x[1..]));
      FlattenAppend([x[0]], x[1..]);
      FlattenAppend([x[0]], []);
      assert [x[0]] + x[1..] == x;
    }
  }

  lemma {:induction false} FlatRowsAppend(a: seq<Clean>, b: seq<Clean>)
    ensures FlatRows(a + b) == FlatRows(a) + FlatRows(b)
    decreases |a|
  {
    if a == [] {
      assert a + b == b;
    } else {
      var head := match a[0] case Row(n) => [n] case List(items) => FlatRows(items);
      assert (a + b)[0] == a[0] && (a + b)[1..] == a[1..] + b;
      calc {
        FlatRows(a + b);
        head + FlatRows(a[1..] + b);
        { FlatRowsAppend(a[1..], b); }
        head + (FlatRows(a[1..]) + FlatRows(b));
        (head + FlatRows(a[1..])) + FlatRows(b);
      }
    }
  }

  lemma RowsAppend(a: seq<Entry>, b: seq<Entry>)
    ensures RowsOf(a + b) == RowsOf(a) + RowsOf(b)
  {
  }

  /** `cleanup` keeps the nesting exactly. */
  lemma {:induction false} CleanupShape(x: seq<Split>)
    ensures CleanShape(Cleanup(x)) == SplitShape(x)
    decreases x
  {
    if x != [] {
      CleanupShape(x[1..]);
      match x[0]
      case Pair(e) =>
      case Sub(items) => CleanupShape(items);
    }
  }

  // ---------------------------------------------------------------------
  // Rows that are dropped

  /** When everything after the first row sits at one depth, the first row
      is dropped at the top level: its pair is not shallower than 0. */
  lemma TopHeaderDropped()
    ensures Splitter([Entry(0, 3), Entry(1, 4), Entry(1, 5)], 0)
         == [Sub([Pair(Entry(1, 4)), Pair(Entry(1, 5))])]
  {
    var x := [Entry(0, 3), Entry(1, 4), Entry(1, 5)];
    assert x[1..] == [Entry(1, 4), Entry(1, 5)];
    OneDepthIff(x[1..]);
    assert AsLeaves(x[1..]) == [Pair(Entry(1, 4)), Pair(Entry(1, 5))];
  }

  /** A row deeper than `base` that precedes the first row at `base` belongs
      to no scope and is dropped: row 3 below is lost. */
  lemma LeadingDeeperRowDropped()
    ensures Splitter([Entry(1, 3), Entry(0, 4), Entry(1, 5)], 0)
         == [Sub([Pair(Entry(0, 4)), Sub([Pair(Entry(1, 5))])])]
  {
    var x := [Entry(1, 3), Entry(0, 4), Entry(1, 5)];
    assert x[1..] == [Entry(0, 4), Entry(1, 5)];
    OneDepthIff(x[1..]);
    assert x[1..][1].depth != x[1..][0].depth;
    assert !OneDepth(x[1..]);
    var s := x[1..3];
    assert NextBase(x, 2, 0) == 3;
    assert s == [Entry(0, 4), Entry(1, 5)];
    assert s[1..] == [Entry(1, 5)];
    OneDepthIff(s[1..]);
    assert AsLeaves(s[1..]) == [Pair(Entry(1, 5))];
    assert Splitter(s, 1) == [Pair(Entry(0, 4)), Sub([Pair(Entry(1, 5))])];
    assert Scopes(x, 2, 0) == [];
    assert Scopes(x, 0, 0) == Scopes(x, 1, 0);
  }
}

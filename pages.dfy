/** `PriceListPage` of pricelist.py: one page of the price list, made from a
    copy of the group tree by `sift_groups`, which first sieves out the items
    that are not on the page and the groups left empty, then runs `raiser`. */
module Pages {
  import opened Values
  import opened Items
  import opened Tree

  // ---------------------------------------------------------------------
  // What `sieve` computes

  /** A member that `sieve` keeps once the member itself has been sieved:
      an item on page `p`, or a group that still has members. */
  predicate Keeps(n: Node, p: int) {
    if n.Leaf? then p in n.pages else n.children != []
  }

  /** `sieve` on a group for page `p`: every sub-group is sieved, then the
      members that are not kept are removed, the rest staying in order. */
  function Sifted(t: Node, p: int): Node
    decreases t, 1
  {
    match t
    case Leaf(_, _) => t
    case Group(h, cs) => Group(h, Kept(SiftAll(cs, p), p))
  }

  function SiftAll(cs: seq<Node>, p: int): (r: seq<Node>)
    ensures |r| == |cs|
    decreases cs, 0
  {
    if cs == [] then [] else [Sifted(cs[0], p)] + SiftAll(cs[1..], p)
  }

  function Kept(ss: seq<Node>, p: int): seq<Node> {
    if ss == [] then [] else (if Keeps(ss[0], p) then [ss[0]] else []) + Kept(ss[1..], p)
  }

  /** The items of a list that are on page `p`, in order. */
  function OnPage(ls: seq<Node>, p: int): seq<Node> {
    if ls == [] then []
    else (if ls[0].Leaf? && p in ls[0].pages then [ls[0]] else []) + OnPage(ls[1..], p)
  }

  /** The shape a page tree has: every item below the root is on page `p`
      and no group below the root is empty. */
  predicate Pruned(t: Node, p: int)
    decreases t
  {
    match t
    case Leaf(_, _) => true
    case Group(_, cs) => forall k :: 0 <= k < |cs| ==> Keeps(cs[k], p) && Pruned(cs[k], p)
  }

  lemma {:induction false} SiftAllAt(cs: seq<Node>, p: int)
    ensures forall k :: 0 <= k < |cs| ==> SiftAll(cs, p)[k] == Sifted(cs[k], p)
    decreases |cs|
  {
    if cs != [] {
      SiftAllAt(cs[1..], p);
      assert forall k :: 0 < k < |cs| ==> SiftAll(cs, p)[k] == SiftAll(cs[1..], p)[k - 1];
    }
  }

  lemma {:induction false} KeptSpec(ss: seq<Node>, p: int)
    ensures forall x :: x in Kept(ss, p) <==> x in ss && Keeps(x, p)
    decreases |ss|
  {
    if ss != [] {
      KeptSpec(ss[1..], p);
      assert ss == [ss[0]] + ss[1..];
    }
  }

  lemma {:induction false} KeptAppend(a: seq<Node>, b: seq<Node>, p: int)
    ensures Kept(a + b, p) == Kept(a, p) + Kept(b, p)
    decreases |a|
  {
    if a == [] {
      assert a + b == b;
    } else {
      var head := if Keeps(a[0], p) then [a[0]] else [];
      assert (a + b)[0] == a[0] && (a + b)[1..] == a[1..] + b;
      calc {
        Kept(a + b, p);
        head + Kept(a[1..] + b, p);
        { KeptAppend(a[1..], b, p); }
        head + (Kept(a[1..], p) + Kept(b, p));
        (head + Kept(a[1..], p)) + Kept(b, p);
      }
    }
  }

  lemma {:induction false} OnPageAppend(a: seq<Node>, b: seq<Node>, p: int)
    ensures OnPage(a + b, p) == OnPage(a, p) + OnPage(b, p)
    decreases |a|
  {
    if a == [] {
      assert a + b == b;
    } else {
      var head := if a[0].Leaf? && p in a[0].pages then [a[0]] else [];
      assert (a + b)[0] == a[0] && (a + b)[1..] == a[1..] + b;
      calc {
        OnPage(a + b, p);
        head + OnPage(a[1..] + b, p);
        { OnPageAppend(a[1..], b, p); }
        head + (OnPage(a[1..], p) + OnPage(b, p));
        (head + OnPage(a[1..], p)) + OnPage(b, p);
      }
    }
  }

  lemma {:induction false} LeavesOfAppend(a: seq<Node>, b: seq<Node>)
    ensures LeavesOf(a + b) == LeavesOf(a) + LeavesOf(b)
    decreases |a|
  {
    if a == [] {
      assert a + b == b;
    } else {
      var head := Leaves(a[0]);
      assert (a + b)[0] == a[0] && (a + b)[1..] == a[1..] + b;
      calc {
        LeavesOf(a + b);
        head + LeavesOf(a[1..] + b);
        { LeavesOfAppend(a[1..], b); }
        head + (LeavesOf(a[1..]) + LeavesOf(b));
        (head + LeavesOf(a[1..])) + LeavesOf(b);
      }
    }
  }

  /** After `sieve` a group holds exactly the items on the page that it held
      before, in their old order. */
  lemma {:induction false} SiftedLeaves(t: Node, p: int)
    requires t.Group?
    ensures Leaves(Sifted(t, p)) == OnPage(Leaves(t), p)
    decreases t, 1
  {
    SiftAllLeaves(t.children, p);
  }

  lemma {:induction false} SiftAllLeaves(cs: seq<Node>, p: int)
    ensures LeavesOf(Kept(SiftAll(cs, p), p)) == OnPage(LeavesOf(cs), p)
    decreases cs, 0
  {
    if cs != [] {
      var c, s := cs[0], Sifted(cs[0], p);
      var head: seq<Node> := if Keeps(s, p) then [s] else [];
      assert Kept(SiftAll(cs, p), p) == head + Kept(SiftAll(cs[1..], p), p);
      LeavesOfAppend(head, Kept(SiftAll(cs[1..], p), p));
      OnPageAppend(Leaves(c), LeavesOf(cs[1..]), p);
      SiftAllLeaves(cs[1..], p);
      if c.Leaf? {
        assert OnPage([c], p) == head;
        assert LeavesOf([c]) == [c] + LeavesOf([]);
        assert LeavesOf(head) == head;
      } else {
        SiftedLeaves(c, p);
        if Keeps(s, p) {
          assert LeavesOf([s]) == Leaves(s) + LeavesOf([]);
        } else {
          assert Leaves(s) == LeavesOf([]);
        }
      }
    }
  }

  /** What `sieve` leaves has the page shape. */
  lemma {:induction false} SiftedPruned(t: Node, p: int)
    ensures Pruned(Sifted(t, p), p)
    decreases t
  {
    if t.Group? {
      var ss := SiftAll(t.children, p);
      SiftAllAt(t.children, p);
      KeptSpec(ss, p);
      var ks := Kept(ss, p);
      forall k | 0 <= k < |ks| ensures Keeps(ks[k], p) && Pruned(ks[k], p) {
        assert ks[k] in ss;
        var j :| 0 <= j < |ss| && ss[j] == ks[k];
        SiftedPruned(t.children[j], p);
      }
    }
  }

  /** `raiser` keeps the page shape: a member that wrapped a non-empty group
      takes over that group's members, so it does not become empty. */
  lemma {:induction false} RaisePruned(t: Node, p: int)
    requires Pruned(t, p)
    ensures Pruned(Raise(t), p)
    decreases t, 1
  {
    if t.Group? {
      forall k | 0 <= k < |t.children|
        ensures Keeps(RaiseChild(t.children[k]), p) && Pruned(RaiseChild(t.children[k]), p)
      {
        RaiseChildPruned(t.children[k], p);
      }
    }
  }

  lemma {:induction false} RaiseChildPruned(e: Node, p: int)
    requires Keeps(e, p) && Pruned(e, p)
    ensures Keeps(RaiseChild(e), p) && Pruned(RaiseChild(e), p)
    decreases e, 0
  {
    if e.Group? && |e.children| == 1 && e.children[0].Group? {
      var g := e.children[0];
      RaisePruned(g, p);
      assert |Raise(g).children| == |g.children| > 0;
    }
  }

  /** A page holds exactly the items on it, in the order of the price list,
      with no empty group below the root. */
  lemma PageContents(t: Node, p: int)
    requires t.Group?
    ensures Leaves(Raise(Sifted(t, p))) == OnPage(Leaves(t), p)
    ensures Pruned(Raise(Sifted(t, p)), p)
  {
    SiftedLeaves(t, p);
    RaiseLeaves(Sifted(t, p));
    SiftedPruned(t, p);
    RaisePruned(Sifted(t, p), p);
  }

  // ---------------------------------------------------------------------
  // Selecting by a mask

  /** The elements of `xs` whose mark is `true`, in order. */
  function Select<T>(xs: seq<T>, m: seq<bool>): seq<T>
    requires |m| == |xs|
  {
    if xs == [] then []
    else Select(xs[..|xs| - 1], m[..|xs| - 1]) + (if m[|xs| - 1] then [xs[|xs| - 1]] else [])
  }

  /** The positions that are marked `true`, in increasing order. */
  function Picks(m: seq<bool>): seq<nat> {
    if m == [] then [] else Picks(m[..|m| - 1]) + (if m[|m| - 1] then [|m| - 1] else [])
  }

  lemma {:induction false} SelectPicks<T>(xs: seq<T>, m: seq<bool>)
    requires |m| == |xs|
    ensures |Select(xs, m)| == |Picks(m)|
    ensures forall j :: 0 <= j < |Picks(m)| ==> Picks(m)[j] < |xs| && Select(xs, m)[j] == xs[Picks(m)[j]]
    ensures forall a, b :: 0 <= a < b < |Picks(m)| ==> Picks(m)[a] < Picks(m)[b]
    decreases |xs|
  {
    if xs != [] {
      var n := |xs| - 1;
      SelectPicks(xs[..n], m[..n]);
    }
  }

  /** Keeping the marked members of a group, and what they stand for, keeps
      the group's invariant. */
  lemma MirrorsSelect(repr: set<object>, cs: seq<Member>, ms: seq<Node>, m: seq<bool>)
    requires Mirrors(repr, cs, ms) && |m| == |cs|
    ensures Mirrors(repr, Select(cs, m), Select(ms, m))
  {
    MirrorsFacts(repr, cs, ms);
    SelectPicks(cs, m);
    SelectPicks(ms, m);
    var sc, sm, f := Select(cs, m), Select(ms, m), Picks(m);
    forall k | 0 <= k < |sc| ensures MirrorAt(sc[k], sm[k]) {
      assert sc[k] == cs[f[k]] && sm[k] == ms[f[k]];
    }
    forall a, b | 0 <= a < b < |sc| ensures sc[a] != sc[b] {
      assert sc[a] == cs[f[a]] && sc[b] == cs[f[b]];
    }
  }

  /** The members of `cs` that are not in `gone`, in order. */
  function Minus(cs: seq<Member>, gone: set<Member>): seq<Member> {
    if cs == [] then []
    else Minus(cs[..|cs| - 1], gone) + (if cs[|cs| - 1] in gone then [] else [cs[|cs| - 1]])
  }

  lemma {:induction false} MinusNone(cs: seq<Member>)
    ensures Minus(cs, {}) == cs
    decreases |cs|
  {
    if cs != [] {
      MinusNone(cs[..|cs| - 1]);
    }
  }

  lemma {:induction false} WithoutAppend(a: seq<Member>, b: seq<Member>, el: Member)
    ensures Without(a + b, el) == Without(a, el) + Without(b, el)
    decreases |a|
  {
    if a == [] {
      assert a + b == b;
    } else {
      var head := if a[0] == el then [] else [a[0]];
      assert (a + b)[0] == a[0] && (a + b)[1..] == a[1..] + b;
      calc {
        Without(a + b, el);
        head + Without(a[1..] + b, el);
        { WithoutAppend(a[1..], b, el); }
        head + (Without(a[1..], el) + Without(b, el));
        (head + Without(a[1..], el)) + Without(b, el);
      }
    }
  }

  /** `remove_element` after removing a set of members removes one more. */
  lemma {:induction false} WithoutMinus(cs: seq<Member>, gone: set<Member>, el: Member)
    ensures Without(Minus(cs, gone), el) == Minus(cs, gone + {el})
    decreases |cs|
  {
    if cs != [] {
      var n := |cs| - 1;
      var last: seq<Member> := if cs[n] in gone then [] else [cs[n]];
      WithoutMinus(cs[..n], gone, el);
      WithoutAppend(Minus(cs[..n], gone), last, el);
      if last != [] {
        assert last[1..] == [];
      }
    }
  }

  lemma {:induction false} MinusSelect(cs: seq<Member>, gone: set<Member>, m: seq<bool>)
    requires |m| == |cs| && forall k :: 0 <= k < |cs| ==> (m[k] <==> cs[k] !in gone)
    ensures Minus(cs, gone) == Select(cs, m)
    decreases |cs|
  {
    if cs != [] {
      var n := |cs| - 1;
      MinusSelect(cs[..n], gone, m[..n]);
    }
  }

  lemma {:induction false} KeptSelect(ss: seq<Node>, p: int, m: seq<bool>)
    requires |m| == |ss| && forall k :: 0 <= k < |ss| ==> (m[k] <==> Keeps(ss[k], p))
    ensures Select(ss, m) == Kept(ss, p)
    decreases |ss|
  {
    if ss != [] {
      var n := |ss| - 1;
      KeptSelect(ss[..n], p, m[..n]);
      KeptAppend(ss[..n], [ss[n]], p);
      assert Kept([ss[n]], p) == (if Keeps(ss[n], p) then [ss[n]] else []) + Kept([], p);
      assert ss[..n] + [ss[n]] == ss;
    }
  }

  // ---------------------------------------------------------------------
  // The page

  /** A page: its index, its name (its keywords joined by a backslash) and
      its own copy of the groups, sieved for the page and then raised. */
  class Page {
    const index: int
    const name: string
    const groups: ItemGroup

    /** `PriceListPage(page_index, page_name, groups)` with `sift_groups`. */
    constructor (pageIndex: int, pageName: seq<string>, groups: ItemGroup)
      requires groups.Valid() && groups.ParentsOk()
      modifies groups.Repr
      ensures index == pageIndex && name == Join(pageName, '\\') && this.groups == groups
      ensures groups.Valid() && groups.model == Raise(Sifted(old(groups.model), pageIndex))
      ensures groups.Repr == old(groups.Repr) && groups.parent == old(groups.parent)
    {
      index := pageIndex;
      name := Join(pageName, '\\');
      this.groups := groups;
      new;
      var emptied := Sieve(groups, pageIndex);
      groups.Raiser();
    }
  }

  // ---------------------------------------------------------------------
  // The sieve

  /** `sieve(group)` for page `index`: sieves every sub-group, drops the
      items not on the page and the sub-groups the sieve left empty, and
      hands back the group itself exactly when it is left empty. */
  method Sieve(group: ItemGroup, index: int) returns (r: ItemGroup?)
    requires group.Valid() && group.ParentsOk()
    modifies group.Repr
    decreases group.Repr, 3
    ensures group.Valid() && group.ParentsOk() && group.model == Sifted(old(group.model), index)
    ensures group.Repr == old(group.Repr) && group.parent == old(group.parent) && group.header == old(group.header)
    ensures r == if group.children == [] then group else null
  {
    ghost var before := group.children;
    ghost var old0 := group.model.children;
    var marks := MarkAll(group, index);
    ghost var cur := group.model.children;
    ghost var mask := seq(|marks|, k requires 0 <= k < |marks| => marks[k].None?);
    Prune(group, marks);
    KeptSelect(cur, index, mask);
    if |group.children| == 0 {
      r := group;
    } else {
      r := null;
    }
  }

  /** The first loop of `sieve`: each member is looked at in turn, and
      marked for removal or not. */
  method MarkAll(group: ItemGroup, index: int) returns (marks: seq<Option<Member>>)
    requires group.Valid() && group.ParentsOk()
    modifies group.Repr
    decreases group.Repr, 2
    ensures group.Valid() && group.ParentsOk() && group.children == old(group.children)
    ensures group.Repr == old(group.Repr) && group.parent == old(group.parent) && group.header == old(group.header)
    ensures group.model.children == SiftAll(old(group.model.children), index)
    ensures |marks| == |group.children| == |group.model.children| && forall k :: 0 <= k < |marks| ==>
      marks[k] == if Keeps(group.model.children[k], index) then None else Some(group.children[k])
  {
    group.ValidChildren();
    ghost var before := group.children;
    ghost var old0 := group.model.children;
    marks := [];
    var i := 0;
    while i < |group.children|
      invariant 0 <= i <= |group.children| == |before|
      invariant group.Valid() && group.ParentsOk() && group.children == before
      invariant group.Repr == old(group.Repr) && group.parent == old(group.parent) && group.header == old(group.header)
      invariant |group.model.children| == |before|
      invariant forall k :: 0 <= k < |before| ==>
        group.model.children[k] == if k < i then Sifted(old0[k], index) else old0[k]
      invariant |marks| == i && forall k :: 0 <= k < i ==>
        marks[k] == if Keeps(group.model.children[k], index) then None else Some(before[k])
    {
      var mark := SieveAt(group, i, index);
      marks := marks + [mark];
      i := i + 1;
    }
    SiftAllAt(old0, index);
  }
  /** The second loop of `sieve` on a valid group, with the group's model
      following its members. */
  method Prune(group: ItemGroup, marks: seq<Option<Member>>)
    requires group.Valid() && group.ParentsOk() && |marks| == |group.children| == |group.model.children|
    requires forall k :: 0 <= k < |marks| && marks[k].Some? ==> marks[k].value == group.children[k]
    modifies group`children, group`model
    ensures group.Valid() && group.ParentsOk()
    ensures group.Repr == old(group.Repr) && group.parent == old(group.parent) && group.header == old(group.header)
    ensures group.children ==
      Select(old(group.children), seq(|marks|, k requires 0 <= k < |marks| => marks[k].None?))
    ensures group.model ==
      Group(group.header, Select(old(group.model.children), seq(|marks|, k requires 0 <= k < |marks| => marks[k].None?)))
  {
    group.ValidChildren();
    ghost var before := group.children;
    ghost var cur := group.model.children;
    ghost var mask := seq(|marks|, k requires 0 <= k < |marks| => marks[k].None?);
    MirrorsFacts(group.Repr - {group}, before, cur);
    assert forall k :: 0 <= k < |before| && before[k].GroupM? ==>
      before[k].group.parent == group && before[k].group.ParentsOk();
    RemoveMarked(group, marks);
    MirrorsSelect(group.Repr - {group}, before, cur, mask);
    group.model := Group(group.header, Select(cur, mask));
    assert group.Valid();
    forall k | 0 <= k < |before| && before[k].GroupM?
      ensures before[k].group.parent == group && before[k].group.Valid() && before[k].group.ParentsOk()
    {
      assert group !in before[k].group.Repr;
    }
    KeptParents(group, before, mask);
  }

  /** Keeping some members of a group whose sub-groups all point back to it
      keeps them pointing back. */
  lemma KeptParents(group: ItemGroup, before: seq<Member>, mask: seq<bool>)
    requires group.Valid() && |mask| == |before| && group.children == Select(before, mask)
    requires forall k :: 0 <= k < |before| && before[k].GroupM? ==>
      before[k].group.parent == group && before[k].group.Valid() && before[k].group.ParentsOk()
    ensures group.ParentsOk()
  {
    SelectPicks(before, mask);
    group.ValidChildren();
  }

  /** The second loop of `sieve`: every marked member is removed with
      `remove_element`; the unmarked ones stay, in order. */
  method RemoveMarked(group: ItemGroup, marks: seq<Option<Member>>)
    requires |marks| == |group.children|
    requires forall k :: 0 <= k < |marks| && marks[k].Some? ==> marks[k].value == group.children[k]
    requires forall a, b :: 0 <= a < b < |group.children| ==> group.children[a] != group.children[b]
    modifies group`children
    ensures group.children ==
      Select(old(group.children), seq(|marks|, k requires 0 <= k < |marks| => marks[k].None?))
  {
    ghost var before := group.children;
    ghost var gone: set<Member> := {};
    MinusNone(before);
    var j := 0;
    while j < |marks|
      invariant 0 <= j <= |marks|
      invariant forall k :: 0 <= k < |before| ==> (before[k] in gone <==> k < j && marks[k].Some?)
      invariant group.children == Minus(before, gone)
    {
      if marks[j].Some? {
        WithoutMinus(before, gone, marks[j].value);
        group.RemoveElement(marks[j].value);
        gone := gone + {marks[j].value};
      }
      j := j + 1;
    }
    MinusSelect(before, gone, seq(|marks|, k requires 0 <= k < |marks| => marks[k].None?));
  }

  /** One pass of the first loop of `sieve`, on the `i`-th member: an item
      is marked for removal when it is not on the page, a sub-group is
      sieved and marked when it is left empty. */
  method SieveAt(group: ItemGroup, i: nat, index: int) returns (mark: Option<Member>)
    requires group.Valid() && group.ParentsOk() && i < |group.children| == |group.model.children|
    modifies group`model, if group.children[i].GroupM? then group.children[i].group.Repr else {}
    decreases group.Repr, 1
    ensures group.Valid() && group.ParentsOk()
    ensures group.children == old(group.children) && group.Repr == old(group.Repr)
    ensures group.parent == old(group.parent) && group.header == old(group.header)
    ensures group.model ==
      Group(group.header, old(group.model.children)[i := Sifted(old(group.model.children)[i], index)])
    ensures mark == if Keeps(group.model.children[i], index) then None else Some(group.children[i])
  {
    group.ValidChildren();
    MirrorsFacts(group.Repr - {group}, group.children, group.model.children);
    var m := group.children[i];
    if m.ItemM? {
      assert group.model.children[i := group.model.children[i]] == group.model.children;
      mark := if index in m.item.pages then None else Some(m);
    } else {
      mark := SieveGroupAt(group, i, index);
    }
  }

  /** `SieveAt` on a member that is a group: the group is sieved in place
      and marked when it is left empty. */
  method SieveGroupAt(group: ItemGroup, i: nat, index: int) returns (mark: Option<Member>)
    requires group.Valid() && group.ParentsOk() && i < |group.children| == |group.model.children|
    requires group.children[i].GroupM?
    modifies group`model, group.children[i].group.Repr
    decreases group.Repr, 0
    ensures group.Valid() && group.ParentsOk()
    ensures group.children == old(group.children) && group.Repr == old(group.Repr)
    ensures group.parent == old(group.parent) && group.header == old(group.header)
    ensures group.model ==
      Group(group.header, old(group.model.children)[i := Sifted(old(group.model.children)[i], index)])
    ensures mark == if Keeps(group.model.children[i], index) then None else Some(group.children[i])
  {
    group.ValidChildren();
    MirrorsFacts(group.Repr - {group}, group.children, group.model.children);
    var m := group.children[i];
    var g := m.group;
    assert g.parent == group && g.ParentsOk();
    var r := Sieve(g, index);
    group.model := Group(group.header, group.model.children[i := g.model]);
    mark := if r == null then None else Some(m);
    forall k | 0 <= k < |group.children| && k != i
      ensures MirrorAt(group.children[k], group.model.children[k])
    {
      if group.children[k].GroupM? {
        assert group.children[k].group.Repr !! g.Repr;
      }
    }
    assert MirrorAt(group.children[i], group.model.children[i]);
    assert Mirrors(group.Repr - {group}, group.children, group.model.children);
    group.ValidChildren();
    forall k | 0 <= k < |group.children| && group.children[k].GroupM?
      ensures group.children[k].group.parent == group && group.children[k].group.ParentsOk()
    {
      if k != i {
        assert group.children[k].group.Repr !! g.Repr;
      }
    }
  }
}

/** `ItemGroup` of pricelist.py: a group of the price list holding items and
    sub-groups, together with the mutators the page projection uses and
    `raiser`, which splices out groups that only wrap another group. */
module Tree {
  import opened Values
  import opened Items

  /** The value a group tree stands for: a group with its header cell and
      its children, or an item with its fields and its pages. */
  datatype Node =
    | Group(header: Option<Value>, children: seq<Node>)
    | Leaf(props: map<Value, Value>, pages: seq<int>)

  /** A member of `children_list`: an item or a nested group. */
  datatype Member = ItemM(item: Item) | GroupM(group: ItemGroup)

  /** `[el for el in cs if el is not element]`. */
  function Without(cs: seq<Member>, el: Member): seq<Member> {
    if cs == [] then [] else (if cs[0] == el then [] else [cs[0]]) + Without(cs[1..], el)
  }

  // ---------------------------------------------------------------------
  // The group class

  /** Member `m` stands for `n`: an item for its fields and pages, a valid
      sub-group for its model. */
  ghost predicate MirrorAt(m: Member, n: Node)
    reads if m.GroupM? then {m.group} else {}, if m.GroupM? then m.group.Repr else {}
    decreases if m.GroupM? then m.group.Repr else {}, 1
  {
    if m.ItemM? then n == Leaf(m.item.props, m.item.pages)
    else m.group.Valid() && n == m.group.model
  }

  /** `cs` are the members of a group whose sub-groups lie in `repr`, and
      `ms` is what they stand for, one by one. Sub-groups own disjoint parts
      of `repr`, and no member occurs twice. */
  ghost predicate Mirrors(repr: set<object>, cs: seq<Member>, ms: seq<Node>)
    reads repr
    decreases repr, 2
  {
    |ms| == |cs| &&
    (forall k :: 0 <= k < |cs| ==>
      (cs[k].GroupM? ==> cs[k].group in repr && cs[k].group.Repr <= repr) && MirrorAt(cs[k], ms[k])) &&
    (forall a, b :: 0 <= a < b < |cs| ==> cs[a] != cs[b]) &&
    (forall a, b :: 0 <= a < b < |cs| && cs[a].GroupM? && cs[b].GroupM? ==>
      cs[a].group.Repr !! cs[b].group.Repr)
  }

  /** What `Mirrors` says of each member, unfolded. */
  lemma MirrorsFacts(repr: set<object>, cs: seq<Member>, ms: seq<Node>)
    requires Mirrors(repr, cs, ms)
    ensures |ms| == |cs|
    ensures forall k :: 0 <= k < |cs| ==> MirrorAt(cs[k], ms[k])
    ensures forall k :: 0 <= k < |cs| && cs[k].ItemM? ==> ms[k] == Leaf(cs[k].item.props, cs[k].item.pages)
    ensures forall k :: 0 <= k < |cs| && cs[k].GroupM? ==>
      cs[k].group in repr && cs[k].group.Repr <= repr && cs[k].group.Valid() && ms[k] == cs[k].group.model
  {
    forall k | 0 <= k < |cs| ensures MirrorAt(cs[k], ms[k]) { }
  }

  /** Appending a member whose sub-group lies outside `repr` keeps the
      mirror, over `repr` grown by that sub-group's footprint. */
  lemma MirrorsSnoc(repr: set<object>, extra: set<object>, cs: seq<Member>, ms: seq<Node>, m: Member, n: Node)
    requires Mirrors(repr, cs, ms) && MirrorAt(m, n) && m !in cs
    requires m.GroupM? ==> m.group in extra && m.group.Repr <= extra && extra !! repr
    ensures Mirrors(repr + extra, cs + [m], ms + [n])
  {
    var cs', ms' := cs + [m], ms + [n];
    forall k | 0 <= k < |cs'|
      ensures (cs'[k].GroupM? ==> cs'[k].group in repr + extra && cs'[k].group.Repr <= repr + extra)
      ensures MirrorAt(cs'[k], ms'[k])
    {
      if k < |cs| {
        assert cs'[k] == cs[k] && ms'[k] == ms[k];
      }
    }
    forall a, b | 0 <= a < b < |cs'| && cs'[a].GroupM? && cs'[b].GroupM?
      ensures cs'[a].group.Repr !! cs'[b].group.Repr
    {
      assert cs'[a] == cs[a];
      if b < |cs| {
        assert cs'[b] == cs[b];
      }
    }
  }

  class ItemGroup {
    var parent: ItemGroup?
    var header: Option<Value>
    var children: seq<Member>
    /** The tree this group stands for. */
    ghost var model: Node
    /** This group and every group below it. */
    ghost var Repr: set<object>

    ghost predicate Valid()
      reads this, Repr
      decreases Repr, 0
    {
      this in Repr && model.Group? && model.header == header &&
      Mirrors(Repr - {this}, children, model.children)
    }

    /** Every sub-group's `parent` is the group that holds it. */
    ghost predicate ParentsOk()
      requires Valid()
      reads this, Repr
      decreases Repr
    {
      ValidChildren();
      forall k :: 0 <= k < |children| && children[k].GroupM? ==>
        children[k].group.parent == this && children[k].group.ParentsOk()
    }

    /** The facts `Valid` keeps about each sub-group, one level down. */
    lemma ValidChildren()
      requires Valid()
      ensures model.Group? && |model.children| == |children|
      ensures forall k :: 0 <= k < |children| && children[k].GroupM? ==>
        children[k].group in Repr && children[k].group.Repr < Repr && children[k].group.Valid() &&
        children[k].group.model == model.children[k]
    {
      MirrorsFacts(Repr - {this}, children, model.children);
    }

    constructor ()
      ensures Valid() && ParentsOk() && fresh(Repr) && Repr == {this}
      ensures parent == null && header == None && children == [] && model == Group(None, [])
    {
      parent := null;
      header := None;
      children := [];
      model := Group(None, []);
      Repr := {this};
    }

    method SetParent(newParent: ItemGroup?)
      modifies this`parent
      ensures parent == newParent
    {
      parent := newParent;
    }

    /** `set_header(header_row)`: the value of the row's first cell. */
    method SetHeader(row: Row)
      requires |row| > 0
      modifies this`header
      ensures header == row[0]
    {
      header := row[0];
    }

    method AddChild(child: Member)
      modifies this`children
      ensures children == old(children) + [child]
    {
      children := children + [child];
    }

    method RemoveElement(element: Member)
      modifies this`children
      ensures children == Without(old(children), element)
    {
      children := Without(children, element);
    }

    /** Hands every child to the parent, in order, then empties the list.
        The moved groups keep their old `parent`. */
    method MoveChildrenToParent()
      requires parent != null && parent != this
      modifies parent`children, this`children
      ensures parent.children == old(parent.children) + old(children)
      ensures children == []
    {
      var i := 0;
      while i < |children|
        invariant 0 <= i <= |children|
        invariant children == old(children)
        invariant parent.children == old(parent.children) + children[..i]
      {
        assert children[..i + 1] == children[..i] + [children[i]];
        parent.AddChild(children[i]);
        i := i + 1;
      }
      assert children[..|children|] == children;
      children := [];
    }

    /** `add_child` on a valid group: the member and what it stands for are
        appended together, and a sub-group's footprint joins this one's. */
    method Adopt(m: Member, ghost n: Node)
      requires Valid() && ParentsOk() && MirrorAt(m, n) && m !in children
      requires m.GroupM? ==> m.group.Repr !! Repr && m.group.parent == this && m.group.ParentsOk()
      modifies this`children, this`model, this`Repr
      ensures Valid() && ParentsOk()
      ensures children == old(children) + [m] && model == Group(header, old(model.children) + [n])
      ensures Repr == old(Repr) + if m.GroupM? then m.group.Repr else {}
    {
      ghost var extra := if m.GroupM? then m.group.Repr else {};
      MirrorsSnoc(Repr - {this}, extra, children, model.children, m, n);
      AddChild(m);
      model := Group(header, model.children + [n]);
      Repr := Repr + extra;
      assert Repr - {this} == old(Repr) - {this} + extra;
      ValidChildren();
    }

    /** `copy.deepcopy` of this group, the copy's `parent` being `p`: fresh
        groups with the same headers, members and models. Items cannot
        change, so the copy may hold the same ones. The copy's parent links
        are accurate because the original's are: `deepcopy` would copy a
        stale link as it is. */
    method Clone(p: ItemGroup?) returns (c: ItemGroup)
      requires Valid() && ParentsOk()
      decreases Repr
      ensures fresh(c.Repr) && c.Valid() && c.ParentsOk()
      ensures c.model == model && c.parent == p && c.header == header
    {
      MirrorsFacts(Repr - {this}, children, model.children);
      c := new ItemGroup();
      c.parent := p;
      c.header := header;
      c.model := Group(header, []);
      var i := 0;
      while i < |children|
        invariant 0 <= i <= |children|
        invariant fresh(c.Repr) && c.Valid() && c.ParentsOk()
        invariant c.model == Group(header, model.children[..i]) && c.parent == p && c.header == header
        invariant |c.children| == i
        invariant forall k :: 0 <= k < i ==>
          (children[k].ItemM? ==> c.children[k] == children[k]) && (children[k].GroupM? ==> c.children[k].GroupM?)
      {
        assert model.children[..i + 1] == model.children[..i] + [model.children[i]];
        if children[i].ItemM? {
          c.Adopt(children[i], model.children[i]);
        } else {
          var d := children[i].group.Clone(c);
          c.Adopt(GroupM(d), model.children[i]);
        }
        i := i + 1;
      }
      assert model.children[..|children|] == model.children;
    }

    /** `raiser`: each direct child that holds exactly one member, a group,
        is first raised itself and then takes over that group's children. */
    method Raiser()
      requires Valid() && ParentsOk()
      modifies Repr
      decreases Repr, 3
      ensures Valid() && model == Raise(old(model))
      ensures Repr == old(Repr) && parent == old(parent) && header == old(header)
      ensures children == old(children)
    {
      ghost var cur := model.children;
      ghost var done: set<object> := {};
      var toRemove: seq<Member> := [];
      MirrorsFacts(Repr - {this}, children, cur);
      var i := 0;
      while i < |children|
        invariant 0 <= i <= |children|
        invariant children == old(children) && model == old(model) && Repr == old(Repr)
        invariant header == old(header) && parent == old(parent)
        invariant Mirrors(Repr - {this}, children, cur)
        invariant forall k :: 0 <= k < |children| ==>
          cur[k] == if k < i then RaiseChild(model.children[k]) else model.children[k]
        invariant forall k :: i <= k < |children| && children[k].GroupM? ==>
          children[k].group.Valid() && children[k].group.ParentsOk() && children[k].group.Repr !! done
        invariant forall t :: 0 <= t < |toRemove| ==> toRemove[t].GroupM? && toRemove[t].group in done
      {
        MirrorsFacts(Repr - {this}, children, cur);
        toRemove, cur, done := RaiseAt(i, toRemove, cur, done);
        forall k | i < k < |children| && children[k].GroupM?
          ensures children[k].group.Valid() && children[k].group.ParentsOk() && children[k].group.Repr !! done
        {
          if children[i].GroupM? {
            assert children[k].group.Repr !! children[i].group.Repr;
          }
        }
        i := i + 1;
      }
      assert cur == Raise(model).children;
      model := Raise(model);
    }

    /** The body of the loop in `raiser` for the `i`-th member: an item is
        skipped, a group is treated by `RaiseElement`. `cur` is what the
        members stand for so far; `done` covers the groups treated so far. */
    method RaiseAt(i: nat, toRemove: seq<Member>, ghost cur: seq<Node>, ghost done: set<object>)
      returns (out: seq<Member>, ghost cur': seq<Node>, ghost done': set<object>)
      requires this in Repr && i < |children| && Mirrors(Repr - {this}, children, cur)
      requires children[i].GroupM? ==>
        children[i].group.Valid() && children[i].group.ParentsOk() && children[i].group.Repr !! done
      requires forall t :: 0 <= t < |toRemove| ==> toRemove[t].GroupM? && toRemove[t].group in done
      modifies if children[i].GroupM? then children[i].group.Repr else {}
      decreases Repr, 2
      ensures Mirrors(Repr - {this}, children, cur') && cur' == cur[i := RaiseChild(cur[i])]
      ensures done' == done + if children[i].GroupM? then children[i].group.Repr else {}
      ensures children[i].GroupM? ==> children[i].group.Repr == old(children[i].group.Repr)
      ensures forall t :: 0 <= t < |out| ==> out[t].GroupM? && out[t].group in done'
    {
      MirrorsFacts(Repr - {this}, children, cur);
      out, cur', done' := toRemove, cur, done;
      if children[i].GroupM? {
        var e := children[i].group;
        out := e.RaiseElement(toRemove);
        cur' := cur[i := e.model];
        done' := done + e.Repr;
        forall k | 0 <= k < |children| && k != i ensures MirrorAt(children[k], cur'[k]) {
          if children[k].GroupM? {
            assert children[k].group.Repr !! e.Repr;
          }
        }
        assert MirrorAt(children[i], cur'[i]);
      } else {
        cur' := cur[i := RaiseChild(cur[i])];
      }
    }

    /** One pass of the loop in `raiser` with this group as `element`:
        record it when empty; when its only member is a group, raise that
        group, move its children here and record it; then remove every
        recorded member from this group's children. */
    method RaiseElement(toRemove: seq<Member>) returns (out: seq<Member>)
      requires Valid() && ParentsOk()
      requires forall t :: 0 <= t < |toRemove| ==> toRemove[t].GroupM? && toRemove[t].group !in Repr
      modifies Repr
      decreases Repr, 1
      ensures Valid() && model == RaiseChild(old(model))
      ensures Repr == old(Repr) && parent == old(parent) && header == old(header)
      ensures old(|children|) == 0 ==> out == toRemove + [GroupM(this)]
      ensures old(|children|) == 1 && old(children[0]).GroupM? ==> out == toRemove + [old(children[0])]
      ensures old(|children|) > 1 || (old(|children|) == 1 && old(children[0]).ItemM?) ==> out == toRemove
      ensures |toRemove| <= |out| && out[..|toRemove|] == toRemove
      ensures forall t :: |toRemove| <= t < |out| ==> out[t].GroupM? && out[t].group in Repr
    {
      MirrorsFacts(Repr - {this}, children, model.children);
      out := toRemove;
      if |children| == 0 {
        out := out + [GroupM(this)];
      }
      ghost var after := children;
      ghost var kids := model.children;
      if |children| == 1 && children[0].GroupM? {
        var g;
        g, after := LiftOnlyChild();
        kids := RaiseChild(old(model)).children;
        out := out + [GroupM(g)];
      }
      ghost var before := children;
      assert before == after || before == [out[|out| - 1]] + after;
      assert forall k :: 0 <= k < |before| && before[k].GroupM? ==> before[k].group in Repr;
      var j := 0;
      while j < |out|
        invariant 0 <= j <= |out|
        invariant children == if j <= |toRemove| then before else after
        modifies this`children
      {
        if j < |toRemove| {
          WithoutAbsent(before, out[j]);
        } else {
          WithoutAbsent(after, out[j]);
        }
        RemoveElement(out[j]);
        j := j + 1;
      }
      model := Group(header, kids);
    }

    /** The only member `g` of this group is a group: raise it and move its
        children here, after `g` itself. */
    method LiftOnlyChild() returns (g: ItemGroup, ghost kids: seq<Member>)
      requires Valid() && ParentsOk() && |children| == 1 && children[0].GroupM?
      modifies Repr
      decreases Repr, 0
      ensures g == old(children[0].group) && g in Repr
      ensures children == [GroupM(g)] + kids && GroupM(g) !in kids
      ensures Mirrors(Repr - {this}, kids, RaiseChild(old(model)).children)
      ensures Repr == old(Repr) && model == old(model) && parent == old(parent) && header == old(header)
    {
      ValidChildren();
      g := children[0].group;
      assert g.parent == this && g.ParentsOk();
      g.Raiser();
      kids := g.children;
      assert Mirrors(g.Repr - {g}, kids, g.model.children);
      assert forall k :: 0 <= k < |kids| ==> kids[k] != GroupM(g);
      g.MoveChildrenToParent();
      assert Mirrors(Repr - {this}, kids, g.model.children);
    }
  }

  // ---------------------------------------------------------------------
  // What `raiser` computes

  /** `raiser` on a group: every direct child is treated by `RaiseChild`;
      the group's own list keeps its length and its members. */
  function Raise(t: Node): Node
    decreases t, 1
  {
    match t
    case Leaf(_, _) => t
    case Group(h, cs) => Group(h, seq(|cs|, k requires 0 <= k < |cs| => RaiseChild(cs[k])))
  }

  /** A group whose only member is itself a group. */
  predicate Wraps(e: Node) {
    e.Group? && |e.children| == 1 && e.children[0].Group?
  }

  /** A group whose only member is a group `g` takes the children of `g`
      as they are after `g` has been raised; anything else stays. */
  function RaiseChild(e: Node): Node
    decreases e, 0
  {
    if Wraps(e) then
      Group(e.header, Raise(e.children[0]).children)
    else e
  }

  /** The items below a tree, in pre-order. */
  function Leaves(t: Node): seq<Node>
    decreases t, 1
  {
    match t
    case Leaf(_, _) => [t]
    case Group(_, cs) => LeavesOf(cs)
  }

  function LeavesOf(cs: seq<Node>): seq<Node>
    decreases cs, 0
  {
    if cs == [] then [] else Leaves(cs[0]) + LeavesOf(cs[1..])
  }

  /** Two child lists whose members have the same items one by one have the
      same items. */
  lemma {:induction false} LeavesOfPointwise(cs: seq<Node>, ds: seq<Node>)
    requires |cs| == |ds| && forall k :: 0 <= k < |cs| ==> Leaves(cs[k]) == Leaves(ds[k])
    ensures LeavesOf(cs) == LeavesOf(ds)
    decreases |cs|
  {
    if cs != [] { LeavesOfPointwise(cs[1..], ds[1..]); }
  }

  /** `raiser` loses, adds and reorders no item. */
  lemma {:induction false} RaiseLeaves(t: Node)
    ensures Leaves(Raise(t)) == Leaves(t)
    decreases t, 1
  {
    if t.Group? {
      var cs := t.children;
      forall k | 0 <= k < |cs| ensures Leaves(RaiseChild(cs[k])) == Leaves(cs[k]) {
        RaiseChildLeaves(cs[k]);
      }
      LeavesOfPointwise(Raise(t).children, cs);
    }
  }

  lemma {:induction false} RaiseChildLeaves(e: Node)
    ensures Leaves(RaiseChild(e)) == Leaves(e)
    decreases e, 0
  {
    if Wraps(e) {
      var g := e.children[0];
      RaiseLeaves(g);
      assert e.children[1..] == [];
      assert LeavesOf(e.children) == Leaves(g) + [];
    }
  }

  /** The direct children all stay, each with its header; an empty one in
      particular stays empty, since the removal targets the child's own list. */
  lemma RaiseKeepsChildren(t: Node)
    requires t.Group?
    ensures Raise(t).Group? && Raise(t).header == t.header
    ensures |Raise(t).children| == |t.children|
    ensures forall k :: 0 <= k < |t.children| ==>
      Raise(t).children[k].Group? == t.children[k].Group? &&
      (t.children[k].Group? ==> Raise(t).children[k].header == t.children[k].header)
    ensures forall k :: 0 <= k < |t.children| && t.children[k].Leaf? ==> Raise(t).children[k] == t.children[k]
    ensures forall k :: 0 <= k < |t.children| && t.children[k].Group? && t.children[k].children == [] ==>
      Raise(t).children[k] == t.children[k]
  {
  }

  /** The number of groups and items in a tree, itself included. */
  function Size(t: Node): nat
    decreases t, 1
  {
    match t
    case Leaf(_, _) => 1
    case Group(_, cs) => 1 + SizeOf(cs)
  }

  function SizeOf(cs: seq<Node>): nat
    decreases cs, 0
  {
    if cs == [] then 0 else Size(cs[0]) + SizeOf(cs[1..])
  }

  /** Members that are no larger one by one make a list no larger, and a
      strictly smaller one makes it strictly smaller. */
  lemma {:induction false} SizeOfPointwise(cs: seq<Node>, ds: seq<Node>)
    requires |cs| == |ds| && forall k :: 0 <= k < |cs| ==> Size(ds[k]) <= Size(cs[k])
    ensures SizeOf(ds) <= SizeOf(cs)
    ensures (exists k :: 0 <= k < |cs| && Size(ds[k]) < Size(cs[k])) ==> SizeOf(ds) < SizeOf(cs)
    decreases |cs|
  {
    if cs != [] {
      SizeOfPointwise(cs[1..], ds[1..]);
      if exists k :: 0 <= k < |cs| && Size(ds[k]) < Size(cs[k]) {
        var k :| 0 <= k < |cs| && Size(ds[k]) < Size(cs[k]);
        if k > 0 { assert Size(ds[1..][k - 1]) < Size(cs[1..][k - 1]); }
      }
    }
  }

  /** `raiser` never makes a tree larger. */
  lemma {:induction false} RaiseSize(t: Node)
    ensures Size(Raise(t)) <= Size(t)
    decreases t, 1
  {
    if t.Group? {
      var cs := t.children;
      forall k | 0 <= k < |cs| ensures Size(Raise(t).children[k]) <= Size(cs[k]) {
        RaiseChildSmaller(cs[k]);
      }
      SizeOfPointwise(cs, Raise(t).children);
    }
  }

  /** Raising a member never makes it larger, and a member that wraps a
      single group loses at least that group's own node. */
  lemma {:induction false} RaiseChildSmaller(e: Node)
    ensures Size(RaiseChild(e)) <= Size(e)
    ensures Wraps(e) ==> Size(RaiseChild(e)) < Size(e)
    decreases e, 0
  {
    if Wraps(e) {
      var g := e.children[0];
      RaiseSize(g);
      assert e.children[1..] == [];
      assert SizeOf(e.children) == Size(g) + SizeOf([]);
    }
  }

  /** `raiser` changes a group exactly when one of its direct members holds
      a single member that is a group, and then the tree shrinks: this is
      the only case that moves anything, and every such move removes a
      group. */
  lemma RaiseChanges(t: Node)
    requires t.Group?
    ensures Raise(t) == t <==> forall k :: 0 <= k < |t.children| ==> !Wraps(t.children[k])
    ensures Raise(t) != t ==> Size(Raise(t)) < Size(t)
  {
    var cs := t.children;
    var rs := Raise(t).children;
    forall k | 0 <= k < |cs| ensures Size(rs[k]) <= Size(cs[k]) && (Wraps(cs[k]) ==> Size(rs[k]) < Size(cs[k])) {
      RaiseChildSmaller(cs[k]);
    }
    if exists k :: 0 <= k < |cs| && Wraps(cs[k]) {
      var k :| 0 <= k < |cs| && Wraps(cs[k]);
      assert rs[k] != cs[k];
      SizeOfPointwise(cs, rs);
    } else {
      assert forall k :: 0 <= k < |cs| ==> rs[k] == RaiseChild(cs[k]) == cs[k];
      assert rs == cs;
    }
  }

  /** One pass collapses one level per pair only: for a chain of single
      groups E, G, G2 above an item, E is left holding G2 alone, so a second
      pass still changes the tree. */
  lemma RaiseNotIdempotent(item: Node)
    requires item.Leaf?
    ensures var g2 := Group(None, [item]);
      var t := Group(None, [Group(None, [Group(None, [g2])])]);
      Raise(t) == Group(None, [Group(None, [g2])]) && Raise(Raise(t)) != Raise(t)
  {
    var g2 := Group(None, [item]);
    var g := Group(None, [g2]);
    var e := Group(None, [g]);
    assert RaiseChild(g2) == g2;
    assert Raise(g) == Group(None, [g2]);
    assert RaiseChild(e) == Group(None, [g2]);
    assert Raise(Group(None, [e])) == Group(None, [Group(None, [g2])]);
    assert Raise(g2) == Group(None, [item]);
    assert RaiseChild(Group(None, [g2])) == Group(None, [item]);
    assert Raise(Raise(Group(None, [e]))).children[0] == Group(None, [item]);
  }

  // ---------------------------------------------------------------------
  // What removal promises

  /** Removal drops exactly the given member and keeps the rest in order. */
  lemma {:induction false} WithoutSpec(cs: seq<Member>, el: Member)
    ensures forall m :: m in Without(cs, el) <==> m in cs && m != el
    ensures IsSubseq(Without(cs, el), cs)
    decreases |cs|
  {
    if cs != [] {
      WithoutSpec(cs[1..], el);
      var w := Without(cs, el);
      if cs[0] != el {
        assert w[0] == cs[0] && w[1..] == Without(cs[1..], el);
      } else {
        assert w == Without(cs[1..], el);
      }
      assert cs == [cs[0]] + cs[1..];
    }
  }

  /** Removing a member that is not there changes nothing. */
  lemma {:induction false} WithoutAbsent(cs: seq<Member>, el: Member)
    requires el !in cs
    ensures Without(cs, el) == cs
    decreases |cs|
  {
    if cs != [] {
      WithoutAbsent(cs[1..], el);
      assert cs == [cs[0]] + cs[1..];
    }
  }
}

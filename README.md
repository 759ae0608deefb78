# PriceSheets price-list pipeline, in Dafny

PriceSheets reads a supplier's price list from a spreadsheet and republishes
it as one Google sheet per brand. This project models the middle of that
pipeline in `pricelist.py`, which is independent of the spreadsheet and the
network:

- **Outline decoder** (`outline.dfy`, module `Outline`). `splitter` turns
  the sheet's (outline level, row number) pairs into nested lists by depth
  transitions. `cleanup` then replaces every pair by its row number.
- **Column configuration** (`headers.dfy`, module `Headers`).
  `Header.parse_header` fills the column-name dictionary from the two header
  rows. `get_col_headers_cleaned` lists the names with the description
  column moved to the end. The keyword groups are the constant `Keywords`.
- **Items** (`items.dfy`, module `Items`). `Item._make_item` maps the filled
  cells of a row onto the column names. It then tags the item with every
  page whose keywords occur, case-insensitively, in the item's name, or else
  with the last page.
- **Group tree** (`tree.dfy`, module `Tree`). `ItemGroup` is a class with
  the fields `parent`, `header` and `children`. Its mutators are
  `remove_element`, `set_parent`, `set_header`, `add_child`,
  `move_children_to_parent` and `raiser`.
- **Pages** (`pages.dfy`, module `Pages`). A `PriceListPage` holds its own
  copy of the tree. `sieve` drops the items that are not on the page and the
  groups left empty, and `raiser` then splices out single-group wrappers.
- **Driver** (`pricelist.dfy`, module `PriceList`):
  - `_parse_groups` and `_group_maker` build the tree from the outline;
  - `_create_pages` makes one page per keyword group;
  - `compose_items` lays a page out as rows.

- **Tree contents** (`content.dfy`, module `Content`). The outline list
  names one slot per sub-list header and per item row, in pre-order. The
  trees `_group_maker` builds, and the rows `compose_items` writes, follow
  those slots one for one.

`values.dfy` (module `Values`) holds the shared cell values, the exceptions
and the string helpers.

The code is modelled in the form it has:

- **Classes.** `ItemGroup` is a class whose methods change its fields in
  place. Its ghost field `model` is the tree it stands for, as a `Node`
  value, and its ghost field `Repr` is its footprint. `Valid()` ties the two
  together. `Item` and `Header` are classes as well.
- **Methods against specification functions.** The loops (`_make_item`,
  `parse_header`, `sieve`, `raiser`, `_group_maker`, `_create_pages`,
  `compose_items`) are methods with loop invariants. Each is proved equal to
  a function of its inputs or its old state:
  - `ItemSpec` for `_make_item`;
  - `Absorb` for `parse_header`;
  - `Sifted` for `sieve`;
  - `Raise` for `raiser`;
  - `Build` for `_group_maker`;
  - `Compose` for `compose_items`.

  The lemmas then prove what the program promises about those functions.
- **Functions.** `splitter` and `cleanup` only compute, so they are
  functions.

Each exception the modelled code can raise is a value of `Error`, returned
in a `Result`:

- `KeyError` for a filled cell in a column without a name;
- `KeyError` for an item without a name;
- `AttributeError` for a name that is not text;
- `TypeError` for a bare row where a list is expected;
- the non-row index;
- the `IndexError` of `splitter` on an empty outline.

The quirks of the code are kept:

- `splitter` demands a non-empty list;
- rows can be dropped;
- `raiser` collapses one level per pair and does not reach a fixed point;
- `raiser` never removes an empty direct member: it adds such a member to
  its removal list, but then removes that list only from each member's own
  children;
- `move_children_to_parent` leaves the moved children's `parent` fields
  alone.

## Model

| member | source | states |
|---|---|---|
| Values.Lower | pricelist.py:198 | `.lower()` lower-cases each character on its own and keeps the length |
| Values.ContainsIff | pricelist.py:198 | the substring test `needle in hay` holds exactly when `needle` occurs at some offset of `hay` |
| Values.JoinSplit | pricelist.py:285 | splitting a page name made with `"\\".join` at the backslashes gives the keywords back, provided no keyword contains a backslash |
| Outline.OneDepthIff | pricelist.py:356 | `len(set(depths of x[1:])) == 1` holds exactly when the slice is non-empty and all its entries have the depth of the first |
| Outline.Splitter | pricelist.py:350-367 | `splitter(x, base)` keeps `x[0]` as the first element exactly when it is shallower than `base`; every other element it returns is a nested list |
| Outline.Scopes | pricelist.py:359-366 | the loop of `splitter` from index `i` on emits nested lists only, at most one per remaining entry |
| Outline.NextBase | pricelist.py:361-366 | the inner search finds the first index from `j` on at depth `base`, or the end of the list when there is none; no index it skips is at depth `base` |
| Outline.BaseAtSpec | pricelist.py:359-360 | the indices the loop of `splitter` opens scopes at are exactly those from `i` on at depth `base`, strictly increasing |
| Outline.ScopesAt | pricelist.py:359-366 | the loop emits exactly one element per depth-`base` index `b`, in increasing order: `splitter(x[b:y], base + 1)`, where `y` is the next depth-`base` index or the end |
| Outline.ScopesSkip | pricelist.py:359-360 | entries not at depth `base` open no scope |
| Outline.SplitterSubseq | pricelist.py:350-367 | read in pre-order, the pairs `splitter` returns are an order-preserving subsequence of its input |
| Outline.ScopesSubseq | pricelist.py:359-366 | the pairs the loop emits from index `i` on are an order-preserving subsequence of `x[i:]` |
| Outline.SplitterNoRepeats | pricelist.py:350-367 | when the input has no repeated pair, the output repeats none |
| Outline.ScopesHeaded | pricelist.py:359-366 | the `k`-th element the loop emits from `i` on is a non-empty nested list headed by the entry at the `k`-th depth-`base` index from `i` on: the pair that opened it |
| Outline.SplitterShape | pricelist.py:353-367 | if `x[0]` is shallower than `base`, the cleaned result is a group: `x[0]`'s row, then nested lists only, each flat or itself a group. Otherwise it is a run of such lists. So a recursive call always emits its first pair as the header |
| Outline.ScopesShape | pricelist.py:359-366 | the cleaned elements the loop emits are nested lists, each flat or a group |
| Outline.Cleanup | pricelist.py:339-348 | `cleanup` keeps the length of its input; a pair becomes its row number, and a nested list becomes a list of as many elements |
| Outline.CleanupRows | pricelist.py:339-348 | the row numbers `cleanup` returns, in pre-order, are the rows of the pairs it was given, in pre-order |
| Outline.CleanupShape | pricelist.py:339-348 | `cleanup` keeps the nesting of its input exactly |
| Outline.CleanupPairs | pricelist.py:339-348 | a flat list of pairs becomes a flat list of as many row numbers |
| Outline.TopHeaderDropped | pricelist.py:354-358 | a concrete outline whose top-level `x[0]` is lost, because `x[1:]` sits at one depth |
| Outline.LeadingDeeperRowDropped | pricelist.py:359-366 | a concrete outline whose deeper first entry, lying before the first depth-`base` entry, is lost |
| Items.Item.constructor | pricelist.py:185-188 | an item holds the fields and the pages it was made with |
| Items.MakeItem | pricelist.py:185-203 | the item is built exactly when `ItemSpec` succeeds, and then carries its fields and pages; otherwise it fails with `ItemSpec`'s error |
| Items.FillFields | pricelist.py:192-195 | the first loop of `_make_item` computes `FieldMap`: the fields, or the `KeyError` of a filled cell whose column has no name |
| Items.PageMatches | pricelist.py:197-199 | the `any(...)` of one page is false without reading the name when the page has no keyword. Otherwise it fails on a missing or non-text name, or is true exactly when some keyword occurs in the lower-cased name |
| Items.FieldMapOk | pricelist.py:192-195 | the field map exists exactly when every filled cell's column has a name |
| Items.FieldMapFirstMissing | pricelist.py:192-195 | the `KeyError` names the first filled cell whose column has no name |
| Items.FieldMapKeys | pricelist.py:192-195 | the keys of the field map are exactly the names of the columns of filled cells; empty cells add no key |
| Items.FieldMapLastWins | pricelist.py:192-195 | a filled cell's value is kept unless a later filled cell has the same column name |
| Items.MatchedPagesSpec | pricelist.py:197-199 | page `p` is listed exactly when some keyword of page `p` occurs in the lower-cased name; the list is strictly increasing |
| Items.ClassifySpec | pricelist.py:197-203 | the page list is never empty. It holds the matched pages, increasing, or exactly `len(keywords) - 1` when none matched |
| Items.ItemSpecErrors | pricelist.py:190-203 | an item is built exactly when every filled cell has a column name and, if some page has a keyword, the name field exists and is text; its page list is never empty |
| Headers.Header.constructor | pricelist.py:69-76 | a new configuration starts with an empty column dictionary |
| Headers.Header.ParseHeader | pricelist.py:78-84 | the column dictionary, with its insertion order, becomes the old one with every recorded cell of the rows stored in turn |
| Headers.Header.ParseRow | pricelist.py:80-83 | the same for the cells of one row |
| Headers.RowCellsSpec | pricelist.py:81-83 | the recorded cells of a row are exactly its truthy cells other than 'Цена', with their column numbers, in increasing column order |
| Headers.HeaderCellsSpec | pricelist.py:80-83 | the recorded cells of several rows are those of each row |
| Headers.AbsorbAppend | pricelist.py:80-83 | storing two runs of cells is storing the first and then the second |
| Headers.AbsorbKeys | pricelist.py:83 | the insertion order has no repeats, lists exactly the dictionary's keys and extends the old order; the keys are the old ones plus the stored columns |
| Headers.AbsorbLastWins | pricelist.py:83 | a column holds the value of the last cell stored under it |
| Headers.AbsorbUntouched | pricelist.py:83 | a column no stored cell names keeps its old value |
| Headers.InsertionNotColumnOrder | pricelist.py:78-84 | a concrete pair of header rows: a row-2 column left of a row-1 column is listed after it, so dictionary order is not column order |
| Headers.NamesListed | pricelist.py:103-108 | after `parse_header`, `_col_dict.items()` gives one name per column of the dictionary, the columns in insertion order without repeats; the names are exactly the dictionary's values |
| Headers.KeywordPageNames | pricelist.py:86-89 | no shipped keyword holds a backslash, so every page name splits back into its keyword group; every page has a keyword, so `_make_item` always reads an item's name |
| Headers.Header.CleanedColumns | pricelist.py:100-111 | the loop returns `Cleaned` of the names in insertion order |
| Headers.CleanedSpec | pricelist.py:100-111 | 'Описание' is in the result exactly when it is among the names, and then only once, as the last entry. Every other name keeps its count, and the others keep their order |
| Tree.ItemGroup.constructor | pricelist.py:222-225 | a new group has no parent, no header and no children |
| Tree.ItemGroup.SetParent | pricelist.py:236-237 | only `parent` changes, to the new parent |
| Tree.ItemGroup.SetHeader | pricelist.py:239-240 | the header becomes the value of the row's first cell |
| Tree.ItemGroup.AddChild | pricelist.py:245-250 | the member is appended to the children |
| Tree.ItemGroup.RemoveElement | pricelist.py:233-234 | the children become `Without(children, element)` |
| Tree.WithoutSpec | pricelist.py:233-234 | `remove_element` keeps exactly the members other than the element, in their order |
| Tree.WithoutAbsent | pricelist.py:233-234 | removing a member that is not there changes nothing |
| Tree.ItemGroup.MoveChildrenToParent | pricelist.py:252-256 | the parent's children grow by this group's children, in order, and this group's children become empty; no `parent` field changes |
| Tree.ItemGroup.Adopt | pricelist.py:245-250 | `add_child` on a valid group: the member and the tree it stands for are appended together, and the group stays valid |
| Tree.ItemGroup.Clone | pricelist.py:401 | `deepcopy` of a group whose parent links are accurate, as the master tree's are, gives fresh groups with the same header and the same tree, valid, with all parents pointing back |
| Tree.ItemGroup.Raiser | pricelist.py:258-276 | `raiser` turns the group's tree into `Raise` of it; the group keeps its own member list, header and parent |
| Tree.ItemGroup.RaiseAt | pricelist.py:262-275 | one pass of the loop of `raiser`: member `i` becomes `RaiseChild` of itself; every member queued for removal is a group already treated |
| Tree.ItemGroup.RaiseElement | pricelist.py:264-275 | on a member with no children, the member itself is queued, and removing it from itself changes nothing. A member whose only child is a group gets that child raised, its children moved up and the child queued. In every other case nothing is queued |
| Tree.ItemGroup.LiftOnlyChild | pricelist.py:268-272 | the only child is raised and its children moved up behind it, ready to be removed |
| Tree.RaiseLeaves | pricelist.py:258-276 | `raiser` loses no item and reorders none |
| Tree.RaiseChildLeaves | pricelist.py:264-275 | the same for one member |
| Tree.RaiseKeepsChildren | pricelist.py:258-276 | the group keeps every direct member, its position and kind. Items and empty groups are left as they are, and headers are kept |
| Tree.RaiseChanges | pricelist.py:258-276 | `raiser` changes a group exactly when one of its direct members holds a single member that is a group, and then the tree gets strictly smaller |
| Tree.RaiseSize | pricelist.py:258-276 | `raiser` never makes a tree larger |
| Tree.RaiseNotIdempotent | pricelist.py:258-276 | a concrete tree on which one `raiser` pass leaves a single-group wrapper, so a second pass changes the tree again |
| Pages.Page.constructor | pricelist.py:283-287 | the page keeps its index, its name is the keywords joined with a backslash, and its tree becomes `Raise(Sifted(tree, index))` |
| Pages.Sieve | pricelist.py:290-311 | `sieve` turns the group's tree into `Sifted` of it, keeps its footprint, and returns the group exactly when it has no children left |
| Pages.MarkAll | pricelist.py:292-303 | every member is sifted in turn, and exactly the members not kept are marked for removal |
| Pages.SieveAt | pricelist.py:293-303 | one pass: an item is marked when the page is not among its pages; a group is sifted and marked when it is left empty |
| Pages.SieveGroupAt | pricelist.py:299-301 | the pass on a member that is a group |
| Pages.RemoveMarked | pricelist.py:304-306 | the children become the unmarked ones, in order |
| Pages.Prune | pricelist.py:304-306 | the children and the tree lose the marked members together, and the group stays valid |
| Pages.KeptSpec | pricelist.py:304-306 | a member survives exactly when it is kept |
| Pages.WithoutMinus | pricelist.py:304-306 | removing the marked members one at a time removes the set of them |
| Pages.SiftedLeaves | pricelist.py:290-311 | the items left by `sieve` are exactly the items on the page, in their original order |
| Pages.SiftAllLeaves | pricelist.py:292-306 | the same for a list of members |
| Pages.SiftedPruned | pricelist.py:290-311 | after `sieve` every item below the root is on the page and no group below the root is empty |
| Pages.RaisePruned | pricelist.py:258-276 | `raiser` keeps that shape |
| Pages.PageContents | pricelist.py:289-314 | a page tree holds exactly the items on the page, in the original order, with no empty group below the root |
| PriceList.GroupMaker | pricelist.py:378-395 | `_group_maker` builds a fresh valid tree whose root has the given parent, and whose shape is `Build` of the list, exactly when `Build` succeeds; otherwise it fails with `Build`'s error |
| PriceList.AddElement | pricelist.py:388-394 | one later element becomes a sub-group or a run of items, appended to the group |
| PriceList.AddItems | pricelist.py:392-394 | every row of a list-free element becomes an item, appended in order |
| PriceList.GoodBuild | pricelist.py:378-395 | on a well-formed list, `_group_maker` fails only with an item's own error |
| PriceList.ItemsErrors | pricelist.py:392-394 | a run of bare rows fails only with an item's own error |
| PriceList.ParseGroups | pricelist.py:369-376 | `_parse_groups` builds the tree of `cleanup(splitter(outline))` with header row 1 in front; an empty outline fails |
| PriceList.OutlineBuilds | pricelist.py:374-376 | the list `_parse_groups` builds is always of the form `_group_maker` expects, so building can fail only on an item's cells |
| PriceList.CreatePages | pricelist.py:397-402 | one page per keyword group: page `i` has index `i` and the joined keywords as its name. Its own fresh tree is `Raise(Sifted(tree, i))`, and no two pages share a group |
| PriceList.MakePage | pricelist.py:401 | one page over a fresh copy of a tree whose parent links are accurate |
| PriceList.ComposeItems | pricelist.py:405-420 | `compose_items` returns `Compose` of the group's members |
| PriceList.ComposeFlat | pricelist.py:405-420 | the rows follow the nodes below the group in pre-order, one per node: a group gives its one-cell header row, an item its item row |
| PriceList.FlatLeaves | pricelist.py:405-420 | the items among those nodes are exactly the items of the tree, in order |
| Content.BuildContent | pricelist.py:378-395 | the root built from `row_list` is headed by the first cell of row `row_list[0]`, and the trees below it, in pre-order, are one per slot of the list: a group headed by its row's first cell for every sub-list, the item `_make_item` makes from its row for every row of a list without sub-lists |
| Content.OutlineSlots | pricelist.py:374-376 | on the list `_parse_groups` builds, the slots' rows are exactly the row numbers of `cleanup(splitter(outline))`, in order |
| Content.BuiltRows | pricelist.py:405-420 | `compose_items` on the tree `_group_maker` built gives one row per slot, in order: a sub-group's row holds the first cell of its header row, an item's row holds the fields made from its row under the column names |
| PriceList.MakeItemRow | pricelist.py:412-419 | the inner loop of `compose_items` builds exactly `ItemRow` of the item's fields, whose meaning `ItemRowCells` states |
| PriceList.ItemRowCells | pricelist.py:412-419 | for an item made from a sheet row, output cell `j` is filled exactly when some filled cell of that row lies in a column the header names `cols[j]`, and then it holds the right-most such cell |

## Left out

- Downloading the workbook and comparing it with the saved copy are left out: they are I/O through `requests` and `openpyxl`.
- The logger, the main block, and `PriceList.__init__`'s wiring are left out: process glue.
- `GoogleSpreadsheetEditor` and the formatting half of `send_pages` are left out: network calls, range strings, floating-point colours and sleeps.
- Reading each row's outline level is an input: `ParseGroups` takes the (level, row) pairs.
- Reading worksheet cells is an input of type `PriceList.Cells`. Every row has at least one cell, as openpyxl always provides.
- The header text with the current time, and the `@singleton` decorator, are left out. The column map and keywords are passed as values.
- Cell values are text or whole numbers only; floats, dates and other cell types are not modelled.
- Values.Lower: lower-cases only Latin and basic Cyrillic capitals, not the whole Unicode `str.lower`.
- The `TypeError` of `sieve` for a member that is neither `Item` nor `ItemGroup` cannot arise: a member is one of the two by type. The same goes for the skipped foreign member in `compose_items`.
- The `'page'` entry of an item's dictionary is a separate field, `Item.pages`. So a column that is itself named 'page' does not overwrite the page list as it would in the source.
- Tree.ItemGroup.AddChild: the tuple branch of `add_child`, which builds an `Item`, is modelled by `Items.MakeItem` called from `PriceList.AddItems` before the item is added.
- Tree.ItemGroup.MoveChildrenToParent: requires a parent, and one other than the group itself. On a root the source raises AttributeError, and on a group that is its own parent it loops forever; `raiser`, its only caller, calls it only on the only child of one of its members, and that child's parent is that member.
- Tree.ItemGroup.Clone: shares the items with the original instead of copying them, because items are never changed after they are built. The copy's root points to the original root's parent rather than a copy of it.
- Tree.ItemGroup.Raiser: does not promise that every group's `parent` field still points to the group holding it. `move_children_to_parent` leaves the moved groups pointing to the group they left, and the model keeps those stale pointers.
- Pages.Page.constructor: states the page's tree, not that the tree's `parent` fields are still accurate, for the same reason.
- `PriceList.send_pages` beyond `compose_items` (the header block and the per-row ranges) is left out: it is formatting for the sink.

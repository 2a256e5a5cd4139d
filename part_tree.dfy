/**
 * The tree model shown by the tree view: a root part whose column values are the
 * column headers, addressed from outside by (row, column, parent index) triples,
 * and changed only by appending a new part or removing a run of rows, each change
 * bracketed by begin/end notifications.
 */
module PartTree {
  import opened Parts
  import opened TreeShape

  /** Qt's `DisplayRole`: the only role the model answers. */
  const DisplayRole: int := 0

  datatype Orientation = Horizontal | Vertical

  /**
   * A QModelIndex: the default-constructed invalid index, or a (row, column) pair
   * pointing at a part. As in Qt, an index with a negative row or column is not valid.
   */
  datatype ModelIndex = Invalid | Idx(row: int, column: int, item: ModelPart) {
    predicate IsValid() {
      Idx? && row >= 0 && column >= 0
    }

    function Row(): int {
      if Idx? then row else -1
    }

    function Column(): int {
      if Idx? then column else -1
    }

    /** The part an index may be dereferenced to reach. */
    function Items(): set<ModelPart> {
      if IsValid() then {item} else {}
    }
  }

  /**
   * The notifications the model emits, in order, interleaved with the structural
   * changes they announce (`ChildAdded`, `ChildDeleted`), so that the log shows each
   * change sitting between its begin and end notifications.
   */
  datatype Event =
    | BeginInsertRows(parent: ModelIndex, first: int, last: int)
    | ChildAdded(under: ModelPart, child: ModelPart)
    | EndInsertRows
    | LayoutChanged
    | BeginRemoveRows(parent: ModelIndex, first: int, last: int)
    | ChildDeleted(child: ModelPart)
    | EndRemoveRows

  /** One `ChildDeleted` event per part of `gone`, in order. */
  function Deletions(gone: seq<ModelPart>): (events: seq<Event>)
    ensures |events| == |gone|
    ensures forall i :: 0 <= i < |gone| ==> events[i] == ChildDeleted(gone[i])
  {
    if gone == [] then [] else Deletions(gone[..|gone| - 1]) + [ChildDeleted(gone[|gone| - 1])]
  }

  /**
   * The live parts left when the subtrees of `gone` are deleted one after another
   * from `live`, ancestry as recorded in `anc`.
   */
  ghost function Surviving(live: set<ModelPart>, anc: Ancestry, gone: seq<ModelPart>): (survivors: set<ModelPart>)
    decreases |gone|
  {
    if gone == [] then live
    else
      var before := Surviving(live, anc, gone[..|gone| - 1]);
      before - Subtree(before, anc, gone[|gone| - 1])
  }

  /**
   * Deleting the subtrees of `gone` one after another leaves exactly the parts of `live`
   * that lie below none of them, whatever the order.
   */
  lemma {:induction false} SurvivingExactly(live: set<ModelPart>, anc: Ancestry, gone: seq<ModelPart>, n: ModelPart)
    ensures n in Surviving(live, anc, gone) <==> n in live && forall g :: g in gone ==> !(n in anc && g in anc[n])
    decreases |gone|
  {
    if gone != [] {
      var init := gone[..|gone| - 1];
      SurvivingExactly(live, anc, init, n);
      assert gone == init + [gone[|gone| - 1]];
    }
  }

  /** The number of rows a removal of `count` rows from `row` on takes out of a list of `n`. */
  function Taken(row: int, count: int, n: int): (taken: int)
  {
    if count <= 0 || n <= row then 0
    else if count <= n - row then count
    else n - row
  }

  /**
   * Removing `count` rows from `row` on, where `row` holds a child, removes as many rows
   * as there are, at most `count`: the earlier children stay put, and every later child,
   * among them the one that was at `row + count`, moves up by exactly that many places.
   */
  lemma RemovalShifts(kids: seq<ModelPart>, row: int, count: int)
    requires 0 <= row < |kids|
    ensures var t := Taken(row, count, |kids|);
            var rest := kids[..row] + kids[row + t..];
            && 0 <= t <= |kids| - row
            && (count <= 0 ==> t == 0)
            && (0 < count <= |kids| - row ==> t == count)
            && (count > |kids| - row ==> t == |kids| - row)
            && |rest| == |kids| - t
            && (forall j :: 0 <= j < row ==> rest[j] == kids[j])
            && (forall j :: row <= j < |rest| ==> rest[j] == kids[j + t])
            && (0 < count && row + count < |kids| ==> rest[row] == kids[row + count])
  {
  }

  /**
   * Removing no rows (`count <= 0`) at a row that holds a child leaves the list, the live
   * parts and the deletion log as they were, although the removal reports success.
   */
  lemma NothingTaken(live: set<ModelPart>, anc: Ancestry, kids: seq<ModelPart>, row: int, count: int)
    requires 0 <= row < |kids| && count <= 0
    ensures var end := row + Taken(row, count, |kids|);
            && kids[..row] + kids[end..] == kids
            && Surviving(live, anc, kids[row..end]) == live
            && Deletions(kids[row..end]) == []
  {
  }

  /**
   * One more pass of the removal loop when the row still holds a child: with the children
   * of `kids` from `row` up to `end` already gone, the child met is the one at `end`, taking
   * it out leaves the list without one more of the original children, and it extends the
   * deleted subtrees and the log by that child.
   */
  lemma RemovalStep(live: set<ModelPart>, anc: Ancestry, log: seq<Event>, kids: seq<ModelPart>, row: int, end: int)
    requires 0 <= row <= end < |kids|
    ensures var left := kids[..row] + kids[end..];
            && left[row] == kids[end]
            && left[..row] + left[row + 1..] == kids[..row] + kids[end + 1..]
    ensures var before := Surviving(live, anc, kids[row..end]);
            Surviving(live, anc, kids[row..end + 1]) == before - Subtree(before, anc, kids[end])
    ensures log + Deletions(kids[row..end]) + [ChildDeleted(kids[end])] == log + Deletions(kids[row..end + 1])
  {
    var left := kids[..row] + kids[end..];
    assert left[..row] + left[row + 1..] == kids[..row] + kids[end + 1..];
    assert kids[row..end + 1][..end - row] == kids[row..end];
  }

  /** The column headers the root part holds: the part name and its visibility. */
  const Headers: seq<Variant> := [Text("Part"), Text("Visible?")]

  class ModelPartList {
    var rootItem: ModelPart
    /** The live parts: the root and every part below it. */
    ghost var Repr: set<ModelPart>
    /**
     * For each live part, the set of its ancestors, the part itself included. Entries of
     * deleted parts stay behind and are never consulted again.
     */
    ghost var Anc: Ancestry
    /** The notifications emitted so far. */
    ghost var Log: seq<Event>

    /** The parent of every live part, as recorded alongside the parts (stale entries as in `Anc`). */
    ghost var Parents: TreeShape.Up
    /** The child list of every live part, as recorded alongside the parts. */
    ghost var Children: TreeShape.Down

    /** The recorded parents and child lists are the live parts' own. */
    ghost predicate Synced()
      reads this`Repr, this`Parents, this`Children, Repr`parentItem, Repr`childItems
    {
      && (forall n {:trigger n.parentItem} :: n in Repr && n in Parents ==> n.parentItem == Parents[n])
      && (forall n {:trigger n.childItems} :: n in Repr && n in Children ==> n.childItems == Children[n])
    }

    /**
     * The tree invariant: the live parts, their parent pointers and child lists form a
     * tree rooted at `rootItem` (see `IsTree`); no part is shared and no parent chain
     * loops. The root keeps the two column headers it was created with.
     */
    ghost predicate Valid()
      reads this`rootItem, this`Repr, this`Anc, this`Parents, this`Children, Repr`parentItem, Repr`childItems
      reads rootItem`itemData
    {
      IsTree(rootItem, Repr, Anc, Parents, Children) && Synced() && rootItem.itemData == Headers
    }

    /** An index the model may dereference: invalid, or pointing at a live part. */
    ghost predicate IndexIn(index: ModelIndex)
      reads this
    {
      index.IsValid() ==> index.item in Repr
    }

    /** A model whose root holds the two column headers, "Part" and "Visible?". */
    constructor(data: string)
      ensures Valid() && fresh(rootItem)
      ensures Repr == {rootItem} && rootItem.childItems == [] && Log == []
      ensures rootItem.itemData == Headers
      ensures forall p :: ColumnCount(p) == 2
    {
      rootItem := new ModelPart(Headers);
      Repr := {rootItem};
      Anc := map[rootItem := {rootItem}];
      Parents := map[rootItem := null];
      Children := map[rootItem := []];
      Log := [];
    }

    /** The part `parent` stands for: the part it points at when valid, else the root. */
    function Target(parent: ModelIndex): (target: ModelPart)
      reads this
    {
      if parent.IsValid() then parent.item else rootItem
    }

    /**
     * The number of columns, whatever `parent` is: one per header the root part holds,
     * every section past them having no header.
     */
    function ColumnCount(parent: ModelIndex): (n: int)
      reads this, rootItem
      ensures n == |rootItem.itemData|
      ensures forall s :: !(0 <= s < n) ==> HeaderData(s, Horizontal, DisplayRole) == Empty
    {
      rootItem.ColumnCount()
    }

    /**
     * The value shown at `index`: empty for an invalid index or a role other than
     * display, otherwise the indexed part's value in the index's column.
     */
    function Data(index: ModelIndex, role: int): (v: Variant)
      reads this, index.Items()
      ensures !index.IsValid() || role != DisplayRole ==> v == Empty
      ensures index.IsValid() && role == DisplayRole ==> v == index.item.Data(index.column)
    {
      if !index.IsValid() then Empty
      else if role != DisplayRole then Empty
      else index.item.Data(index.column)
    }

    /** The horizontal display header of `section`: the root part's value in that column. */
    function HeaderData(section: int, orientation: Orientation, role: int): (v: Variant)
      reads this, rootItem
      ensures orientation == Horizontal && role == DisplayRole && 0 <= section < |rootItem.itemData| ==> v == rootItem.itemData[section]
      ensures !(orientation == Horizontal && role == DisplayRole && 0 <= section < |rootItem.itemData|) ==> v == Empty
    {
      if orientation == Horizontal && role == DisplayRole then rootItem.Data(section) else Empty
    }

    /**
     * The number of rows directly under `parent`: none under an index past the first
     * column, the root's children under an invalid index, else the part's children.
     */
    function RowCount(parent: ModelIndex): (n: int)
      reads this, rootItem, parent.Items()
      ensures 0 <= n
      ensures parent.Column() > 0 ==> n == 0
      ensures parent.Column() <= 0 ==> n == |Target(parent).childItems|
    {
      if parent.Column() > 0 then 0
      else Target(parent).ChildCount()
    }

    /** Qt's `hasIndex`: (row, column) lies within the rows and columns under `parent`. */
    predicate HasIndex(row: int, column: int, parent: ModelIndex)
      reads this, rootItem, parent.Items()
    {
      0 <= row < RowCount(parent) && 0 <= column < ColumnCount(parent)
    }

    /** The part `index` looks up rows under: `parent` if it is valid and holds (row, column), else the root. */
    function IndexBase(row: int, column: int, parent: ModelIndex): (b: ModelPart)
      reads this, rootItem, parent.Items()
    {
      if !parent.IsValid() || !HasIndex(row, column, parent) then rootItem else parent.item
    }

    /**
     * The index of the child at `row` under `parent` (under the root when `parent` is
     * invalid or does not hold (row, column)), carrying the given row and column, or
     * the invalid index when there is no such child. Any index it returns points at a
     * live part that really sits at `row` below the base part.
     */
    function Index(row: int, column: int, parent: ModelIndex): (i: ModelIndex)
      requires Valid() && IndexIn(parent)
      reads this, Repr
      ensures i != Invalid <==> 0 <= row < |IndexBase(row, column, parent).childItems|
      ensures i != Invalid ==> i.row == row && i.column == column && i.item in Repr && i.item != rootItem
      ensures i != Invalid ==> i.item.parentItem == IndexBase(row, column, parent) && i.item.Row() == row
    {
      var base := IndexBase(row, column, parent);
      var child := base.Child(row);
      if child != null then
        ChildRow(base, row);
        Idx(row, column, child)
      else Invalid
    }

    /**
     * The index of the parent of the part `index` points at: invalid for an invalid
     * index and for children of the root, otherwise an index in column 0 whose row is
     * the parent's position among its own siblings. The source dereferences the
     * parent pointer, so the part must have one.
     */
    function Parent(index: ModelIndex): (p: ModelIndex)
      requires Valid() && IndexIn(index)
      requires index.IsValid() ==> index.item.parentItem != null
      reads this, Repr
      ensures !index.IsValid() ==> p == Invalid
      ensures index.IsValid() && index.item.parentItem == rootItem ==> p == Invalid
      ensures index.IsValid() && index.item.parentItem != rootItem ==>
                && p.IsValid() && p.column == 0 && p.item == index.item.parentItem && p.item in Repr
                && p.item.parentItem != null && p.row < |p.item.parentItem.childItems|
                && p.item.parentItem.childItems[p.row] == p.item
    {
      if !index.IsValid() then Invalid
      else
        var parentItem := index.item.ParentItem();
        if parentItem == rootItem then Invalid
        else
          RowIsPosition(index.item);
          RowIsPosition(parentItem);
          Idx(parentItem.Row(), 0, parentItem)
    }

    /** In a valid tree a live non-root part has a live parent, and its `Row` is its position in that parent's list. */
    lemma RowIsPosition(n: ModelPart)
      requires Valid() && n in Repr && n != rootItem
      ensures n.parentItem != null && n.parentItem in Repr
      ensures 0 <= n.Row() < |n.parentItem.childItems| && n.parentItem.childItems[n.Row()] == n
    {
      assert Parents[n] == n.parentItem;
      assert n in Children[n.parentItem];
    }

    /** `child(row)` followed by `row()` gives back `row`: the child is live, not the root, and its parent is the part asked. */
    lemma ChildRow(x: ModelPart, row: int)
      requires Valid() && x in Repr && 0 <= row < x.ChildCount()
      ensures x.Child(row) != null && x.Child(row) in Repr && x.Child(row) != rootItem
      ensures x.Child(row).ParentItem() == x && x.Child(row).Row() == row
    {
      var c := x.childItems[row];
      assert c in Children[x];
      assert Parents[c] == x;
      forall i | 0 <= i < row ensures x.childItems[i] != c {
        assert Children[x][i] != Children[x][row];
      }
    }

    /**
     * Looking up a child under the index of a non-root part (in column 0, at that part's
     * own row) and taking the parent of the result gives back that index; under the
     * invalid index, the parent of the result is the invalid index.
     */
    lemma ParentOfIndex(row: int, column: int, parent: ModelIndex)
      requires Valid() && IndexIn(parent)
      requires parent == Invalid || (parent.IsValid() && parent.item != rootItem && parent.column == 0 && parent.row == parent.item.Row())
      requires HasIndex(row, column, parent)
      ensures Index(row, column, parent) != Invalid
      ensures Parent(Index(row, column, parent)) == parent
    {
      var i := Index(row, column, parent);
      assert row < |Target(parent).childItems|;
    }

    /**
     * `index` quietly looks under the root when `parent` is valid but does not hold
     * (row, column): the answer is the one for the invalid parent.
     */
    lemma IndexFallsBackToRoot(row: int, column: int, parent: ModelIndex)
      requires Valid() && IndexIn(parent) && parent.IsValid() && !HasIndex(row, column, parent)
      ensures Index(row, column, parent) == Index(row, column, Invalid)
    {
    }

    /**
     * In a valid model there are two columns under every parent, headed "Part" and
     * "Visible?"; every other section, orientation or role has no header.
     */
    lemma HeaderValues(section: int, orientation: Orientation, role: int)
      requires Valid()
      ensures forall p :: ColumnCount(p) == 2
      ensures HeaderData(section, orientation, role) ==
                if orientation != Horizontal || role != DisplayRole then Empty
                else if section == 0 then Text("Part")
                else if section == 1 then Text("Visible?")
                else Empty
    {
    }

    /** In a valid model a cell under the root exists exactly when its row holds a child and its column is one of the two. */
    lemma RootCells(row: int, column: int)
      requires Valid()
      ensures HasIndex(row, column, Invalid) <==> 0 <= row < |rootItem.childItems| && 0 <= column < 2
    {
    }

    /**
     * What the view shows at a cell `index` hands out is the value the child at that row
     * holds in that column (nothing for a negative column, which makes the index invalid).
     */
    lemma DataOfIndex(row: int, column: int, parent: ModelIndex)
      requires Valid() && IndexIn(parent) && Index(row, column, parent) != Invalid
      ensures var child := IndexBase(row, column, parent).childItems[row];
              Data(Index(row, column, parent), DisplayRole) == if column < 0 then Empty else child.Data(column)
    {
    }

    /**
     * Edits one column of the non-root part `index` points at through `ModelPart.set`,
     * as the part options dialog does. The tree stays as it was, the edited cell then
     * shows the new value when the column exists, and every other cell of the part
     * shows what it showed before.
     */
    method SetPartData(index: ModelIndex, value: Variant)
      requires Valid() && IndexIn(index) && index.IsValid() && index.item != rootItem
      modifies index.item`itemData
      ensures Valid()
      ensures index.column < old(|index.item.itemData|) ==> Data(index, DisplayRole) == value
      ensures index.column >= old(|index.item.itemData|) ==> index.item.itemData == old(index.item.itemData)
      ensures forall c :: 0 <= c && c != index.column ==>
                Data(Idx(index.row, c, index.item), DisplayRole) == old(Data(Idx(index.row, c, index.item), DisplayRole))
    {
      index.item.Set(index.column, value);
    }

    /**
     * Appends a new part holding `data` below the part `parent` stands for (the root
     * when it is invalid, in which case `parent` is overwritten with an index to the
     * root). The insertion is announced at the row count `parent` reports, and the
     * returned index points at the new part but always carries row 0 and column 0.
     */
    method AppendChild(parent: ModelIndex, data: seq<Variant>) returns (parentOut: ModelIndex, child: ModelIndex)
      requires Valid() && IndexIn(parent)
      modifies this`Repr, this`Anc, this`Parents, this`Children, this`Log, Target(parent)`childItems
      ensures Valid()
      ensures parentOut == if parent.IsValid() then parent else Idx(0, 0, rootItem)
      ensures child.Idx? && child.row == 0 && child.column == 0 && fresh(child.item)
      ensures child.item.itemData == data && child.item.childItems == []
      ensures child.item.parentItem == Target(parent)
      ensures Target(parent).childItems == old(Target(parent).childItems) + [child.item]
      ensures Repr == old(Repr) + {child.item}
      ensures Log == old(Log) + [BeginInsertRows(parentOut, old(RowCount(parentOut)), old(RowCount(parentOut)))]
                              + [ChildAdded(Target(parent), child.item)] + [EndInsertRows, LayoutChanged]
    {
      var parentPart: ModelPart;
      parentOut := parent;
      if parent.IsValid() {
        parentPart := parent.item;
      } else {
        parentPart := rootItem;
        parentOut := Idx(0, 0, rootItem);
      }

      var first := RowCount(parentOut);
      Log := Log + [BeginInsertRows(parentOut, first, first)];

      var childPart := new ModelPart(data, parentPart);
      Adopt(parentPart, childPart);

      child := Idx(0, 0, childPart);

      Log := Log + [EndInsertRows, LayoutChanged];
    }

    /** Appends the new part `c` to the live part `p`; `c` and nothing else joins the model. */
    method Adopt(p: ModelPart, c: ModelPart)
      requires Valid() && p in Repr && c !in Repr && c.childItems == []
      modifies this`Repr, this`Anc, this`Parents, this`Children, this`Log, p`childItems, c`parentItem
      ensures Valid()
      ensures c.parentItem == p && p.childItems == old(p.childItems) + [c] && c.childItems == []
      ensures Repr == old(Repr) + {c}
      ensures Log == old(Log) + [ChildAdded(p, c)]
    {
      ghost var live, anc, up, down := Repr, Anc, Parents, Children;
      AppendKeepsTree(rootItem, live, anc, up, down, p, c);
      p.AppendChild(c);
      Repr := live + {c};
      Anc := anc[c := {c} + anc[p]];
      Parents := up[c := p];
      Children := down[p := down[p] + [c]][c := []];
      Log := Log + [ChildAdded(p, c)];
      forall n | n in Repr && n != c && n != p
        ensures n.parentItem == Parents[n] && n.childItems == Children[n]
      {
        assert n in live && n.parentItem == old(n.parentItem) && n.childItems == old(n.childItems);
      }
    }

    /**
     * Takes the child at `row` out of `parentItem`'s list and deletes it: the child and
     * its whole subtree leave the model. Does nothing when `row` is out of range.
     */
    method DeleteRow(parentItem: ModelPart, row: int) returns (child: ModelPart?)
      requires Valid() && parentItem in Repr
      modifies this`Repr, this`Children, this`Log, parentItem`childItems
      ensures Valid() && parentItem in Repr
      ensures child != null <==> 0 <= row < old(|parentItem.childItems|)
      ensures child == null ==> parentItem.childItems == old(parentItem.childItems) && Repr == old(Repr) && Log == old(Log)
      ensures child != null ==> child == old(parentItem.childItems[row])
      ensures child != null ==> parentItem.childItems == old(parentItem.childItems[..row] + parentItem.childItems[row + 1..])
      ensures child != null ==> Repr == old(Repr) - Subtree(old(Repr), Anc, child)
      ensures child != null ==> Log == old(Log) + [ChildDeleted(child)]
    {
      ghost var live, down := Repr, Children;
      child := parentItem.TakeChild(row);
      if child != null {
        assert down[parentItem][row] == child;
        Repr := live - Subtree(live, Anc, child);
        Children := down[parentItem := parentItem.childItems];
        Log := Log + [ChildDeleted(child)];
        RemoveKeepsTree(rootItem, live, Anc, Parents, down, parentItem, row, Repr, Children);
      }
    }

    /**
     * One pass of the loop in `RemoveRows`: takes the child now at `row` out of
     * `parentItem`'s list and deletes it. When the children of `kids` from `row` up to
     * `end` are already gone, afterwards the one at `end` is gone too, if there is one.
     */
    method RemoveNextRow(parentItem: ModelPart, row: int, ghost kids: seq<ModelPart>, ghost live: set<ModelPart>, ghost log: seq<Event>, ghost end: int)
      returns (ghost end': int)
      requires Valid() && parentItem in Repr && 0 <= row <= end <= |kids|
      requires parentItem.childItems == kids[..row] + kids[end..]
      requires Repr == Surviving(live, Anc, kids[row..end])
      requires Log == log + Deletions(kids[row..end])
      modifies this`Repr, this`Children, this`Log, parentItem`childItems
      ensures Valid() && parentItem in Repr
      ensures end' == if end < |kids| then end + 1 else end
      ensures parentItem.childItems == kids[..row] + kids[end'..]
      ensures Repr == Surviving(live, Anc, kids[row..end'])
      ensures Log == log + Deletions(kids[row..end'])
    {
      if end < |kids| {
        RemovalStep(live, Anc, log, kids, row, end);
      }
      var child := DeleteRow(parentItem, row);
      end' := if child != null then end + 1 else end;
    }

    /**
     * The loop of `RemoveRows`: takes the child at `row` out of `parentItem`'s list and
     * deletes it, `count` times over. Once the list runs out at `row` the remaining passes
     * do nothing, so exactly the children from `row` on that exist, at most `count`, are
     * deleted, in order, with their subtrees.
     */
    method DeleteRows(parentItem: ModelPart, row: int, count: int)
      requires Valid() && parentItem in Repr && 0 <= row < |parentItem.childItems|
      modifies this`Repr, this`Children, this`Log, parentItem`childItems
      ensures Valid()
      ensures var kids := old(parentItem.childItems);
              var end := row + Taken(row, count, |kids|);
              && parentItem.childItems == kids[..row] + kids[end..]
              && Repr == Surviving(old(Repr), Anc, kids[row..end])
              && Log == old(Log) + Deletions(kids[row..end])
    {
      ghost var kids, live, log := parentItem.childItems, Repr, Log;
      // The children of `kids` from `row` up to `end` have been deleted so far.
      ghost var end := row;
      var i := 0;
      while i < count
        invariant 0 <= i && (i <= count || i == 0)
        invariant end == row + Taken(row, i, |kids|) && row <= end <= |kids|
        invariant parentItem in Repr
        invariant parentItem.childItems == kids[..row] + kids[end..]
        invariant Repr == Surviving(live, Anc, kids[row..end])
        invariant Log == log + Deletions(kids[row..end])
        invariant Valid()
      {
        end := RemoveNextRow(parentItem, row, kids, live, log, end);
        i := i + 1;
      }
    }

    /**
     * Removes `count` rows from `row` on below the part `parent` stands for, deleting
     * each removed subtree. Only the first row is checked: when it is not there nothing
     * happens and the answer is false; otherwise the removal is announced for rows
     * `row .. row + count - 1`, only the rows that exist are removed, and the answer is true.
     */
    method RemoveRows(row: int, count: int, parent: ModelIndex := Invalid) returns (removed: bool)
      requires Valid() && IndexIn(parent)
      modifies this`Repr, this`Children, this`Log, Target(parent)`childItems
      ensures Valid()
      ensures removed == old(HasIndex(row, 0, parent))
      ensures !removed ==> Target(parent).childItems == old(Target(parent).childItems)
      ensures !removed ==> Repr == old(Repr) && Log == old(Log)
      ensures removed ==>
                var kids := old(Target(parent).childItems);
                var end := row + Taken(row, count, |kids|);
                && Target(parent).childItems == kids[..row] + kids[end..]
                && Repr == Surviving(old(Repr), Anc, kids[row..end])
                && Log == old(Log) + [BeginRemoveRows(parent, row, row + count - 1)] + Deletions(kids[row..end]) + [EndRemoveRows]
    {
      if !HasIndex(row, 0, parent) {
        return false;
      }

      Log := Log + [BeginRemoveRows(parent, row, row + count - 1)];
      var parentItem := if parent.IsValid() then parent.item else rootItem;
      DeleteRows(parentItem, row, count);
      Log := Log + [EndRemoveRows];
      return true;
    }
  }
}

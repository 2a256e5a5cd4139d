/**
 * The sample tree the main window starts with: a new part model whose root holds the
 * column headers, and under it three top-level parts "TopLevel i", each with five parts
 * "Item i,j", every part shown as visible ("true"). The parts are appended straight onto
 * the root part the model hands out, not through the model's `appendChild`, so no
 * insertion is announced; afterwards the model's record of the tree is read off the
 * parts themselves, and the result is a valid model.
 */
module SampleTree {
  import opened Parts
  import opened TreeShape
  import opened PartTree

  /** The decimal digit of `d`. */
  function Digit(d: int): (c: char)
    requires 0 <= d < 10
  {
    "0123456789"[d]
  }

  function TopName(i: int): (name: string)
    requires 0 <= i < 10
  {
    "TopLevel " + [Digit(i)]
  }

  function ItemName(i: int, j: int): (name: string)
    requires 0 <= i < 10 && 0 <= j < 10
  {
    "Item " + [Digit(i)] + "," + [Digit(j)]
  }

  /** The parts of a tree at most two levels deep: the root, its children and theirs. */
  ghost function TwoLevelParts(root: ModelPart): (parts: set<ModelPart>)
    reads root, root.childItems
  {
    {root} + (set t | t in root.childItems) + (set t, n | t in root.childItems && n in t.childItems :: n)
  }

  /**
   * `root` has no parent, every child of the root points back at it, every grandchild
   * points back at its parent and has no children, and no child list repeats a part.
   */
  ghost predicate TwoLevel(root: ModelPart)
    reads root, root.childItems, TwoLevelParts(root)
  {
    && root.parentItem == null
    && (forall i, j :: 0 <= i < j < |root.childItems| ==> root.childItems[i] != root.childItems[j])
    && (forall t :: t in root.childItems ==> t.parentItem == root)
    && (forall t, i, j :: t in root.childItems && 0 <= i < j < |t.childItems| ==> t.childItems[i] != t.childItems[j])
    && (forall t, n :: t in root.childItems && n in t.childItems ==> n.parentItem == t && n.childItems == [])
  }

  /** The parent of each of the parts `live`, read off the parts. */
  ghost function ParentsOf(live: set<ModelPart>): (up: Up)
    reads live
  {
    map n | n in live :: n.parentItem
  }

  /** The child list of each of the parts `live`, read off the parts. */
  ghost function ChildrenOf(live: set<ModelPart>): (down: Down)
    reads live
  {
    map n | n in live :: n.childItems
  }

  /** The ancestors of each of the parts `live` of a tree at most two levels below `root`. */
  ghost function AncestorsOf(root: ModelPart, live: set<ModelPart>): (anc: Ancestry)
    reads live
  {
    map n | n in live :: if n.parentItem == null then {n} else if n.parentItem == root then {n, root} else {n, n.parentItem, root}
  }

  /** Each part of a two-level tree is the root, a child of the root, or a childless grandchild. */
  lemma Level(root: ModelPart, n: ModelPart)
    requires TwoLevel(root) && n in TwoLevelParts(root)
    ensures n == root || n.parentItem == root || (n.parentItem != null && n.parentItem != root && n.parentItem.parentItem == root)
    ensures n == root ==> n.parentItem == null
    ensures n.parentItem == root ==> n != root && n in root.childItems
    ensures n.parentItem != null && n.parentItem != root ==>
              n != root && n.parentItem in root.childItems && n in n.parentItem.childItems && n.childItems == []
  {
    if n != root && n !in root.childItems {
      var t :| t in root.childItems && n in t.childItems;
    }
  }

  /** In a two-level tree every part but the root hangs one level below a live parent that lists it. */
  lemma ParentsClause(root: ModelPart)
    requires TwoLevel(root)
    ensures var live := TwoLevelParts(root);
            var anc, up, down := AncestorsOf(root, live), ParentsOf(live), ChildrenOf(live);
            forall n {:trigger up[n]} :: n in live && n != root ==>
              && up[n] != null && up[n] in live && n in down[up[n]]
              && n !in anc[up[n]] && anc[n] == {n} + anc[up[n]]
  {
    var live := TwoLevelParts(root);
    var anc, up, down := AncestorsOf(root, live), ParentsOf(live), ChildrenOf(live);
    forall n | n in live && n != root
      ensures && up[n] != null && up[n] in live && n in down[up[n]]
              && n !in anc[up[n]] && anc[n] == {n} + anc[up[n]]
    {
      Level(root, n);
      Level(root, root);
      if n.parentItem != root {
        Level(root, n.parentItem);
      }
    }
  }

  /** In a two-level tree every listed child is one of its parts and points back at its lister. */
  lemma ChildrenClause(root: ModelPart)
    requires TwoLevel(root)
    ensures var live := TwoLevelParts(root);
            var up, down := ParentsOf(live), ChildrenOf(live);
            forall n, c {:trigger c in down[n]} :: n in live && c in down[n] ==> c in live && up[c] == n
  {
    var live := TwoLevelParts(root);
    var up, down := ParentsOf(live), ChildrenOf(live);
    forall n, c | n in live && c in down[n] ensures c in live && up[c] == n {
      Level(root, n);
    }
  }

  /** In a two-level tree every recorded ancestor is one of its parts. */
  lemma AncestorsClause(root: ModelPart)
    requires TwoLevel(root)
    ensures var live := TwoLevelParts(root);
            var anc := AncestorsOf(root, live);
            forall n, a {:trigger a in anc[n]} :: n in live && a in anc[n] ==> a in live
  {
    var live := TwoLevelParts(root);
    var anc := AncestorsOf(root, live);
    forall n, a | n in live && a in anc[n] ensures a in live {
      Level(root, n);
    }
  }

  /** A two-level tree, with its record read off the parts, is a tree in the sense the model keeps. */
  lemma TwoLevelIsTree(root: ModelPart)
    requires TwoLevel(root)
    ensures var live := TwoLevelParts(root);
            IsTree(root, live, AncestorsOf(root, live), ParentsOf(live), ChildrenOf(live))
  {
    ParentsClause(root);
    ChildrenClause(root);
    AncestorsClause(root);
    Level(root, root);
    var live := TwoLevelParts(root);
    var down := ChildrenOf(live);
    forall n, i, j | n in live && 0 <= i < j < |down[n]| ensures down[n][i] != down[n][j] {
      Level(root, n);
    }
  }

  /**
   * Appends a new top-level part "TopLevel i" to `root` and then five new parts
   * "Item i,j" to it, in order.
   */
  method AddTopLevel(root: ModelPart, i: int) returns (top: ModelPart)
    requires 0 <= i < 10
    modifies root`childItems
    ensures fresh(top) && root.childItems == old(root.childItems) + [top]
    ensures root.itemData == old(root.itemData) && root.parentItem == old(root.parentItem)
    ensures top.parentItem == root && top.itemData == [Text(TopName(i)), Text("true")] && |top.childItems| == 5
    ensures forall l :: 0 <= l < 5 ==>
              var item := top.childItems[l];
              && fresh(item)
              && item.parentItem == top
              && item.itemData == [Text(ItemName(i, l)), Text("true")]
              && item.childItems == []
    ensures forall l, l' :: 0 <= l < l' < 5 ==> top.childItems[l] != top.childItems[l']
  {
    top := new ModelPart([Text(TopName(i)), Text("true")]);
    root.AppendChild(top);
    for j := 0 to 5
      modifies top
      invariant top.parentItem == root && top.itemData == [Text(TopName(i)), Text("true")]
      invariant |top.childItems| == j
      invariant forall l :: 0 <= l < j ==>
                  var item := top.childItems[l];
                  && fresh(item)
                  && item.parentItem == top
                  && item.itemData == [Text(ItemName(i, l)), Text("true")]
                  && item.childItems == []
      invariant forall l, l' :: 0 <= l < l' < j ==> top.childItems[l] != top.childItems[l']
    {
      var item := new ModelPart([Text(ItemName(i, j)), Text("true")]);
      top.AppendChild(item);
    }
  }

  /**
   * Builds the sample model: the part model is created, and the sample parts are
   * appended onto the root part it hands out. The root keeps the headers and has three
   * children in order, each has five children in order, every part points back at the
   * part that lists it, and the eighteen parts below the root are all different parts.
   * The model is valid, so everything proved about indexes and removal applies to it,
   * and it has announced nothing.
   */
  method Build() returns (m: ModelPartList)
    ensures fresh(m) && m.Valid() && m.Log == []
    ensures m.rootItem.itemData == Headers && m.rootItem.parentItem == null
    ensures |m.rootItem.childItems| == 3
    ensures forall k :: 0 <= k < 3 ==>
              var top := m.rootItem.childItems[k];
              && top.parentItem == m.rootItem
              && top.itemData == [Text(TopName(k)), Text("true")]
              && |top.childItems| == 5
    ensures forall k, l :: 0 <= k < 3 && 0 <= l < 5 ==>
              var item := m.rootItem.childItems[k].childItems[l];
              && item.parentItem == m.rootItem.childItems[k]
              && item.itemData == [Text(ItemName(k, l)), Text("true")]
              && item.childItems == []
    ensures forall k, k' :: 0 <= k < k' < 3 ==> m.rootItem.childItems[k] != m.rootItem.childItems[k']
    ensures forall k, l, k', l' :: 0 <= k < 3 && 0 <= l < 5 && 0 <= k' < 3 && 0 <= l' < 5 && (k, l) != (k', l') ==>
              m.rootItem.childItems[k].childItems[l] != m.rootItem.childItems[k'].childItems[l']
  {
    m := new ModelPartList("PartsList");
    AppendSample(m.rootItem);
    ghost var live, anc, up, down := ReadRecord(m.rootItem);
    Register(m, live, anc, up, down);
  }

  /** The record of a two-level tree, read off its parts: a tree in the sense the model keeps. */
  ghost method ReadRecord(root: ModelPart) returns (live: set<ModelPart>, anc: Ancestry, up: Up, down: Down)
    requires TwoLevel(root)
    ensures live == TwoLevelParts(root)
    ensures IsTree(root, live, anc, up, down)
    ensures forall n :: n in live ==> up[n] == n.parentItem && down[n] == n.childItems
  {
    TwoLevelIsTree(root);
    live := TwoLevelParts(root);
    anc, up, down := AncestorsOf(root, live), ParentsOf(live), ChildrenOf(live);
  }

  /**
   * Brings the model's record of the tree up to date with parts appended directly onto
   * its parts, given a record that matches them; nothing is announced.
   */
  ghost method Register(m: ModelPartList, live: set<ModelPart>, anc: Ancestry, up: Up, down: Down)
    requires IsTree(m.rootItem, live, anc, up, down) && m.rootItem.itemData == Headers
    requires forall n :: n in live ==> up[n] == n.parentItem && down[n] == n.childItems
    modifies m`Repr, m`Anc, m`Parents, m`Children
    ensures m.Valid() && m.Repr == live && m.Log == old(m.Log)
  {
    m.Repr, m.Anc, m.Parents, m.Children := live, anc, up, down;
  }

  /** The two loops of the main window: appends the sample parts below the new, childless `root`. */
  method AppendSample(root: ModelPart)
    requires root.itemData == Headers && root.parentItem == null && root.childItems == []
    modifies root`childItems
    ensures root.itemData == Headers && root.parentItem == null
    ensures |root.childItems| == 3
    ensures forall k :: 0 <= k < 3 ==>
              var top := root.childItems[k];
              && top.parentItem == root
              && top.itemData == [Text(TopName(k)), Text("true")]
              && |top.childItems| == 5
    ensures forall k, l :: 0 <= k < 3 && 0 <= l < 5 ==>
              var item := root.childItems[k].childItems[l];
              && item.parentItem == root.childItems[k]
              && item.itemData == [Text(ItemName(k, l)), Text("true")]
              && item.childItems == []
    ensures forall k, k' :: 0 <= k < k' < 3 ==> root.childItems[k] != root.childItems[k']
    ensures forall k, l, k', l' :: 0 <= k < 3 && 0 <= l < 5 && 0 <= k' < 3 && 0 <= l' < 5 && (k, l) != (k', l') ==>
              root.childItems[k].childItems[l] != root.childItems[k'].childItems[l']
    ensures TwoLevel(root)
  {
    for i := 0 to 3
      invariant root.itemData == Headers && root.parentItem == null
      invariant |root.childItems| == i
      invariant forall k :: 0 <= k < i ==>
                  var top := root.childItems[k];
                  && top.parentItem == root
                  && top.itemData == [Text(TopName(k)), Text("true")]
                  && |top.childItems| == 5
      invariant forall k, l :: 0 <= k < i && 0 <= l < 5 ==>
                  var item := root.childItems[k].childItems[l];
                  && item.parentItem == root.childItems[k]
                  && item.itemData == [Text(ItemName(k, l)), Text("true")]
                  && item.childItems == []
      invariant forall k, k' :: 0 <= k < k' < i ==> root.childItems[k] != root.childItems[k']
      invariant forall k, l, k', l' :: 0 <= k < i && 0 <= l < 5 && 0 <= k' < i && 0 <= l' < 5 && (k, l) != (k', l') ==>
                  root.childItems[k].childItems[l] != root.childItems[k'].childItems[l']
    {
      var top := AddTopLevel(root, i);
    }
    SampleIsTwoLevel(root);
  }

  /** The parts the sample appends form a two-level tree below the root. */
  lemma SampleIsTwoLevel(root: ModelPart)
    requires root.parentItem == null && |root.childItems| == 3
    requires forall k :: 0 <= k < 3 ==> root.childItems[k].parentItem == root && |root.childItems[k].childItems| == 5
    requires forall k, l :: 0 <= k < 3 && 0 <= l < 5 ==>
               root.childItems[k].childItems[l].parentItem == root.childItems[k] && root.childItems[k].childItems[l].childItems == []
    requires forall k, k' :: 0 <= k < k' < 3 ==> root.childItems[k] != root.childItems[k']
    requires forall k, l, l' :: 0 <= k < 3 && 0 <= l < l' < 5 ==> root.childItems[k].childItems[l] != root.childItems[k].childItems[l']
    ensures TwoLevel(root)
  {
    forall t, n | t in root.childItems && n in t.childItems ensures n.parentItem == t && n.childItems == [] {
      var k :| 0 <= k < 3 && root.childItems[k] == t;
    }
    forall t, i, j | t in root.childItems && 0 <= i < j < |t.childItems| ensures t.childItems[i] != t.childItems[j] {
      var k :| 0 <= k < 3 && root.childItems[k] == t;
    }
  }
}

/**
 * A single part of the assembled model: a node of the part tree that owns an
 * ordered list of children, points back to its parent, carries a row of column
 * values shown in the tree view ("Part", "Visible?"), and the display state of
 * the part (visibility, clip and shrink toggles, an RGB colour and the handles
 * of its mesh pipeline).
 */
module Parts {

  /** An unsigned 8-bit colour channel (`unsigned char`). */
  newtype Byte = x: int | 0 <= x < 256

  /** A stand-in for a QVariant: the default-constructed (empty) value, a string or a boolean. */
  datatype Variant = Empty | Text(s: string) | Flag(b: bool)

  /** A `vtkColor3<unsigned char>`. */
  datatype Colour = Colour(r: Byte, g: Byte, b: Byte)

  /** The colour every new part starts with. */
  const DefaultColour: Colour := Colour(100, 100, 100)

  datatype Option<T> = None | Some(value: T)

  /** A filter stage that can sit between the loaded file and the mapper. */
  datatype Stage = ClipByPlane | ShrinkCells

  /** What the actor was last told: its colour and its visibility. */
  datatype ActorProps = ActorProps(colour: Colour, visible: bool)

  /** The position of `x` in `s`, or -1 when `x` does not occur (`QList::indexOf`). */
  function IndexOf<T(==)>(s: seq<T>, x: T): (i: int)
    ensures -1 <= i < |s|
    ensures 0 <= i <==> x in s
    ensures 0 <= i ==> s[i] == x && x !in s[..i]
  {
    if s == [] then -1
    else if s[0] == x then 0
    else
      var j := IndexOf(s[1..], x);
      if j < 0 then -1
      else
        assert s[..j + 1] == [s[0]] + s[1..][..j];
        j + 1
  }

  /**
   * The filter stages `setFilter` places between the file and the mapper, in order:
   * a stage is present exactly when its toggle is on, none appears twice, and a clip
   * always runs before a shrink.
   */
  function SelectPipeline(clip: bool, shrink: bool): (stages: seq<Stage>)
    ensures ClipByPlane in stages <==> clip
    ensures ShrinkCells in stages <==> shrink
    ensures forall i, j :: 0 <= i < j < |stages| ==> stages[i] != stages[j]
    ensures forall i, j :: 0 <= i < |stages| && 0 <= j < |stages| && stages[i] == ClipByPlane && stages[j] == ShrinkCells ==> i < j
  {
    if clip && shrink then [ClipByPlane, ShrinkCells]
    else if clip then [ClipByPlane]
    else if shrink then [ShrinkCells]
    else []
  }

  class ModelPart {
    var childItems: seq<ModelPart>
    var itemData: seq<Variant>
    var parentItem: ModelPart?
    var isVisible: bool
    var clipFilter: bool
    var shrinkFilter: bool
    /** Whether an STL reader has been attached (`file` is non-null). */
    var file: bool
    /** The filter stages feeding the mapper, or None while there is no mapper. */
    var mapper: Option<seq<Stage>>
    /** The properties last pushed to the actor, or None while there is no actor. */
    var actor: Option<ActorProps>
    var colour: Colour

    /** A new part with the given column values and parent, not yet in any child list. */
    constructor(data: seq<Variant>, parent: ModelPart? := null)
      ensures itemData == data && parentItem == parent && childItems == []
      ensures isVisible && !clipFilter && !shrinkFilter
      ensures colour == DefaultColour
      ensures !file && mapper == None && actor == None
    {
      childItems := [];
      itemData := data;
      parentItem := parent;
      isVisible := true;
      clipFilter := false;
      shrinkFilter := false;
      file := false;
      mapper := None;
      actor := None;
      colour := DefaultColour;
    }

    /** Makes `item` this part's last child and this part its parent. */
    method AppendChild(item: ModelPart)
      modifies this`childItems, item`parentItem
      ensures item.parentItem == this
      ensures childItems == old(childItems) + [item]
      ensures ChildCount() == old(ChildCount()) + 1 && Child(ChildCount() - 1) == item
      ensures forall r :: 0 <= r < old(ChildCount()) ==> Child(r) == old(Child(r))
    {
      item.parentItem := this;
      childItems := childItems + [item];
    }

    /** The child at `row`, or null when `row` is out of range. */
    function Child(row: int): (c: ModelPart?)
      reads this
      ensures c != null <==> 0 <= row < |childItems|
      ensures c != null ==> c == childItems[row]
    {
      if row < 0 || row >= |childItems| then null else childItems[row]
    }

    /** The number of children: exactly the rows for which `Child` answers. */
    function ChildCount(): (n: int)
      reads this
      ensures 0 <= n
      ensures forall row :: 0 <= row < n <==> Child(row) != null
    {
      |childItems|
    }

    /**
     * The number of column values: the columns `0 .. n-1` are exactly those holding a
     * stored value, and every other column reads as empty.
     */
    function ColumnCount(): (n: int)
      reads this
      ensures n == |itemData|
      ensures forall column :: 0 <= column < n ==> Data(column) == itemData[column]
      ensures forall column :: !(0 <= column < n) ==> Data(column) == Empty
    {
      |itemData|
    }

    /** The value held in `column`, or the empty value when `column` is out of range. */
    function Data(column: int): (v: Variant)
      reads this
      ensures 0 <= column < |itemData| ==> v == itemData[column]
      ensures !(0 <= column < |itemData|) ==> v == Empty
    {
      if column < 0 || column >= |itemData| then Empty else itemData[column]
    }

    /** Replaces the value of `column`; does nothing when `column` is out of range. */
    method Set(column: int, value: Variant)
      modifies this`itemData
      ensures ColumnCount() == old(ColumnCount())
      ensures 0 <= column < ColumnCount() ==> Data(column) == value
      ensures forall c :: c != column ==> Data(c) == old(Data(c))
      ensures !(0 <= column < ColumnCount()) ==> itemData == old(itemData)
    {
      if column < 0 || column >= |itemData| {
        return;
      }
      itemData := itemData[column := value];
    }

    function ParentItem(): (p: ModelPart?)
      reads this
    {
      parentItem
    }

    /**
     * This part's position in its parent's child list (a scan by identity), 0 for a
     * part without a parent, and -1 when the parent does not list it.
     */
    function Row(): (r: int)
      reads this, parentItem
      ensures parentItem == null ==> r == 0
      ensures parentItem != null ==> (0 <= r <==> this in parentItem.childItems)
      ensures parentItem != null && 0 <= r ==> r < |parentItem.childItems| && parentItem.childItems[r] == this
      ensures parentItem != null && 0 <= r ==> this !in parentItem.childItems[..r]
      ensures parentItem != null && r < 0 ==> r == -1
    {
      if parentItem != null then IndexOf(parentItem.childItems, this) else 0
    }

    /**
     * When no child is listed twice, the child at `row` that points back at this part
     * reports `row` as its row: `child` and `row` undo each other.
     */
    lemma ChildRowRoundTrip(row: int)
      requires 0 <= row < |childItems| && childItems[row].parentItem == this
      requires forall i, j :: 0 <= i < j < |childItems| ==> childItems[i] != childItems[j]
      ensures Child(row) != null && Child(row).Row() == row
    {
    }

    method SetColour(R: Byte, G: Byte, B: Byte)
      modifies this`colour
      ensures GetColourR() == R && GetColourG() == G && GetColourB() == B
    {
      colour := Colour(R, G, B);
    }

    function GetColourR(): (r: Byte)
      reads this
    {
      colour.r
    }

    function GetColourG(): (g: Byte)
      reads this
    {
      colour.g
    }

    function GetColourB(): (b: Byte)
      reads this
    {
      colour.b
    }

    method SetVisible(visible: bool)
      modifies this`isVisible
      ensures Visible() == visible
    {
      isVisible := visible;
    }

    function Visible(): (on: bool)
      reads this
    {
      isVisible
    }

    /**
     * Attaches a mesh: the reader, a mapper fed straight from the file and an actor
     * showing the current colour and visibility. Reading the file is not modelled.
     */
    method LoadSTL()
      modifies this`file, this`mapper, this`actor
      ensures file
      ensures mapper == Some([])
      ensures actor == Some(ActorProps(colour, isVisible))
    {
      file := true;
      mapper := Some([]);
      actor := Some(ActorProps(colour, isVisible));
    }

    /**
     * Rebuilds the mapper input from the clip and shrink toggles and pushes the
     * current colour and visibility to the actor; does nothing before a file is loaded.
     */
    method SetFilter()
      modifies this`mapper, this`actor
      ensures !file ==> mapper == old(mapper) && actor == old(actor)
      ensures file ==> mapper == Some(SelectPipeline(clipFilter, shrinkFilter))
      ensures file ==> actor == Some(ActorProps(colour, isVisible))
    {
      if !file {
        return;
      }
      mapper := Some(SelectPipeline(clipFilter, shrinkFilter));
      actor := Some(ActorProps(colour, isVisible));
    }

    function Clip(): (on: bool)
      reads this
    {
      clipFilter
    }

    function Shrink(): (on: bool)
      reads this
    {
      shrinkFilter
    }

    method SetClip(clip: bool)
      modifies this`clipFilter
      ensures Clip() == clip
    {
      clipFilter := clip;
    }

    method SetShrink(shrink: bool)
      modifies this`shrinkFilter
      ensures Shrink() == shrink
    {
      shrinkFilter := shrink;
    }

    /**
     * Removes the child at `row` from the list and returns it (the caller now owns it),
     * later children moving up by one; returns null and changes nothing when `row`
     * is out of range. The removed child still points at this part.
     */
    method TakeChild(row: int) returns (c: ModelPart?)
      modifies this`childItems
      ensures c != null <==> 0 <= row < old(ChildCount())
      ensures c == null ==> childItems == old(childItems)
      ensures c != null ==> c == old(childItems)[row]
      ensures c != null ==> childItems == old(childItems)[..row] + old(childItems)[row + 1..]
      ensures c != null ==> ChildCount() == old(ChildCount()) - 1
    {
      if row < 0 || row >= |childItems| {
        return null;
      }
      c := childItems[row];
      childItems := childItems[..row] + childItems[row + 1..];
    }
  }
}

# Part tree of the group project viewer

The viewer shows a CAD assembly as a tree of parts. Each part (`ModelPart`) is a
node that owns an ordered list of child parts. It points back at its parent and
holds one value per tree-view column: the part name and its "Visible?" flag. It
also carries its display state: visibility, the clip and shrink toggles, an RGB
colour, and the handles of its mesh pipeline (STL reader, mapper, actor).

The tree model (`ModelPartList`) is the Qt item model over that tree. Its root part
holds the column headers. Views address it by (row, column, parent index). Parts
are added one at a time with `appendChild` and removed a run of rows at a time with
`removeRows`. Each change is bracketed by begin/end notifications.

The model has four modules:

- `Parts` (parts.dfy) is the part itself. It is a class whose methods update its
  fields in place: the child list, the parent pointer, the column values, the
  toggles, the colour and the pipeline.
- `TreeShape` (tree_shape.dfy) is the tree invariant over plain values:
  - the set of live parts;
  - each part's parent, child list and ancestor set.

  Its lemmas show that appending a new part keeps the invariant, and so does
  deleting a child's subtree.
- `PartTree` (part_tree.dfy) is the item model. It is a class that keeps these
  alongside the heap as ghost state:
  - the live parts;
  - the ancestry;
  - the parent and child maps;
  - a log of emitted notifications.

  Its `Valid()` invariant states that the live parts form a tree rooted at the root
  part, and every changing method preserves it. Removal runs the source's loop: it
  takes out the child at `row`, `count` times. Each step deletes that child's whole
  subtree. Its specification says which children go (the run of rows that exists,
  at most `count` of them) and which parts survive.
- `SampleTree` (sample_tree.dfy) is the sample tree the main window builds at start:
  three top-level parts of five parts each.

## Model

| member | source | states |
|---|---|---|
| Parts.IndexOf | GroupProject/ModelPart.cpp:125-131 | The position found is that of the first occurrence of the part; -1 exactly when the part is not listed. |
| Parts.SelectPipeline | GroupProject/ModelPart.cpp:278-320 | The filter stages between the file and the mapper are present exactly when their toggles are on. None repeats, and clip always precedes shrink. |
| Parts.ModelPart.constructor | GroupProject/ModelPart.cpp:29-35 | A new part holds the given values and parent and has no children. It is visible, both filters are off, the colour is (100,100,100), and there is no reader, mapper or actor. |
| Parts.ModelPart.AppendChild | GroupProject/ModelPart.cpp:48-54 | The item becomes the last child, with this part as its parent. The count grows by one and the earlier children keep their rows. |
| Parts.ModelPart.Child | GroupProject/ModelPart.cpp:61-67 | The child at the row, or null exactly when the row is out of range. |
| Parts.ModelPart.ChildCount | GroupProject/ModelPart.cpp:71-75 | The rows for which `child` answers are exactly 0 up to the count. |
| Parts.ModelPart.ColumnCount | GroupProject/ModelPart.cpp:80-84 | The count is the number of stored column values. The columns 0 up to the count read as the values stored there, and every other column reads as the empty value. |
| Parts.ModelPart.Data | GroupProject/ModelPart.cpp:90-99 | The value stored in the column, or the empty value when the column is out of range. |
| Parts.ModelPart.Set | GroupProject/ModelPart.cpp:106-113 | The column takes the new value when it is in range; every other column and the column count are unchanged. An out-of-range column changes nothing. |
| Parts.ModelPart.Row | GroupProject/ModelPart.cpp:125-131 | A part without a parent is at row 0. Otherwise the row is the part's first position in its parent's list, or -1 when the parent does not list it. |
| Parts.ModelPart.ChildRowRoundTrip | GroupProject/ModelPart.h:102-106 | In a list without repeats, the child at a row that points back at this part reports that row. |
| Parts.ModelPart.SetColour | GroupProject/ModelPart.cpp:138-173 | The three colour getters then return the channels set. |
| Parts.ModelPart.SetVisible | GroupProject/ModelPart.cpp:178-191 | `visible` then returns the flag set. |
| Parts.ModelPart.LoadSTL | GroupProject/ModelPart.cpp:197-221 | A reader is attached. The mapper is fed from the file with no filters, and the actor shows the part's colour and visibility. |
| Parts.ModelPart.SetFilter | GroupProject/ModelPart.cpp:272-329 | With no file loaded nothing changes. Otherwise the mapper gets the pipeline the toggles select, and the actor gets the current colour and visibility. |
| Parts.ModelPart.SetClip | GroupProject/ModelPart.cpp:333-349 | `clip` then returns the toggle set. |
| Parts.ModelPart.SetShrink | GroupProject/ModelPart.cpp:339-357 | `shrink` then returns the toggle set. |
| Parts.ModelPart.TakeChild | GroupProject/ModelPart.cpp:363-367 | In range: returns the child at the row, and the list loses exactly that entry, later children moving up. Out of range: returns null and changes nothing. |
| TreeShape.AncestorsNested | GroupProject/ModelPart.cpp:48-54 | In a tree built by appending, the ancestors of an ancestor of a part are ancestors of the part. |
| TreeShape.RootIsAncestor | GroupProject/ModelPartList.cpp:18-23 | Every live part hangs below the root part. |
| TreeShape.AppendKeepsTree | GroupProject/ModelPart.cpp:48-54 | Appending a new childless part to a live part keeps the parts a tree. |
| TreeShape.RemoveKeepsTree | GroupProject/ModelPart.cpp:363-367 | Taking a child out of a live part's list and dropping its subtree keeps the remaining parts a tree, with the parent and the root still live. |
| TreeShape.SubtreeOfChildren | GroupProject/ModelPart.cpp:40-42 | A part's subtree is the part plus the subtrees of its children, which is what deleting a part reaches. |
| PartTree.Deletions | GroupProject/ModelPartList.cpp:191-195 | One deletion per removed child, in order. |
| PartTree.SurvivingExactly | GroupProject/ModelPartList.cpp:191-195 | After deleting the subtrees of a run of children, a part survives exactly when it was live and lies below none of them. |
| PartTree.RemovalShifts | GroupProject/ModelPartList.cpp:191-195 | Taking out the child at a row `count` times removes `min(count, rows left)` children, or none for `count <= 0`. Earlier children keep their rows, and later ones move up by the number removed. |
| PartTree.NothingTaken | GroupProject/ModelPartList.cpp:183-199 | Removing `count <= 0` rows at a row that holds a child removes nothing: the list, the live parts and the deletion log stay as they were, although `removeRows` reports success. |
| PartTree.RemovalStep | GroupProject/ModelPartList.cpp:191-195 | One more pass meets the next original child. Removing it extends the removed run, the deleted subtrees and the deletion log by that child. |
| PartTree.ModelPartList.constructor | GroupProject/ModelPartList.cpp:18-23 | The model starts as a valid tree holding only a fresh root part, whose values are the headers "Part" and "Visible?". |
| PartTree.ModelPartList.ColumnCount | GroupProject/ModelPartList.cpp:36-40 | The same under every parent: the number of header values. Every section outside 0 up to it has no horizontal display header. |
| PartTree.ModelPartList.Data | GroupProject/ModelPartList.cpp:45-63 | Empty for an invalid index or a role other than display; otherwise the indexed part's value in the index's column. |
| PartTree.ModelPartList.DataOfIndex | GroupProject/ModelPartList.cpp:45-102 | A cell handed out by `index` shows the value that the child at that row of the base part holds in that column, or nothing for a negative column. |
| PartTree.ModelPartList.HeaderData | GroupProject/ModelPartList.cpp:78-83 | For a horizontal display header, the root part's value in the section; empty otherwise. |
| PartTree.ModelPartList.HeaderValues | GroupProject/ModelPartList.cpp:18-83 | In a valid model there are two columns under every parent. The horizontal display headers are "Part" for section 0 and "Visible?" for section 1. Every other section, orientation or role has no header. |
| PartTree.ModelPartList.RowCount | GroupProject/ModelPartList.cpp:124-135 | Zero past the first column. Otherwise the child count of the indexed part, or of the root for an invalid parent. |
| PartTree.ModelPartList.Index | GroupProject/ModelPartList.cpp:88-102 | A valid index exactly when the base part has a child at the row. The base part is the parent when that holds (row, column), else the root. The index carries the row and column asked for, and its part is live, not the root, and listed at that row under the base. |
| PartTree.ModelPartList.Parent | GroupProject/ModelPartList.cpp:108-119 | Invalid for an invalid index and for children of the root. Otherwise a column-0 index of the parent part, whose row is the parent's position among its siblings. |
| PartTree.ModelPartList.RowIsPosition | GroupProject/ModelPart.cpp:125-131 | In a valid tree a live non-root part has a live parent, and its row is its position in that parent's list. |
| PartTree.ModelPartList.ChildRow | GroupProject/ModelPart.cpp:61-67 | In a valid tree the child at a row is live and not the root. It points back at the part asked and reports that row. |
| PartTree.ModelPartList.ParentOfIndex | GroupProject/ModelPartList.cpp:88-119 | Under the root or under a part's own column-0 index, `parent(index(row, column, p))` gives back `p` for every cell that exists. |
| PartTree.ModelPartList.RootCells | GroupProject/ModelPartList.cpp:124-135 | In a valid model a cell under the root exists exactly when its row holds a top-level part and its column is 0 or 1. |
| PartTree.ModelPartList.IndexFallsBackToRoot | GroupProject/ModelPartList.cpp:88-102 | A valid parent that does not hold (row, column) is answered as if it were the invalid index, that is, under the root. |
| PartTree.ModelPartList.SetPartData | GroupProject/optiondialog.cpp:33-35 | Editing a column of a non-root part keeps the model valid. The edited cell then shows the new value when the column exists, and an out-of-range column changes nothing. Every other cell of the part shows what it showed before. |
| PartTree.ModelPartList.AppendChild | GroupProject/ModelPartList.cpp:152-175 | The tree stays valid. A fresh part with the data becomes the last child of the target part, and nothing else joins. An invalid parent is replaced by an index to the root. The log gains begin-insert at the parent's row count, the addition, end-insert and layout-changed. The returned index is the new part at (0, 0). |
| PartTree.ModelPartList.Adopt | GroupProject/ModelPart.cpp:48-54 | Appending a new part to a live part keeps the tree valid, and the new part is the only one that joins. |
| PartTree.ModelPartList.DeleteRow | GroupProject/ModelPartList.cpp:192-193 | One pass of the loop. In range: the child at the row leaves the list, its whole subtree leaves the model, the tree stays valid, and one deletion is logged. Out of range: nothing changes. |
| PartTree.ModelPartList.RemoveNextRow | GroupProject/ModelPartList.cpp:191-195 | One pass extends the run of deleted original children by the next one, if any, keeping the tree valid. |
| PartTree.ModelPartList.DeleteRows | GroupProject/ModelPartList.cpp:191-195 | After `count` passes, exactly the original children from the row on that exist, at most `count`, are gone in order, with their subtrees. The rest of the list closes up and the tree stays valid. |
| PartTree.ModelPartList.RemoveRows | GroupProject/ModelPartList.cpp:183-199 | Returns true exactly when the first row exists, and changes nothing otherwise. When true, the removal is announced for `row .. row + count - 1` and only the existing rows are removed, with their subtrees. The log is begin-remove, the deletions, then end-remove, and the tree stays valid. |
| SampleTree.AddTopLevel | GroupProject/mainwindow.cpp:22-37 | One pass of the outer loop adds a fresh "TopLevel i" part at the end of the root's list, with five fresh, distinct "Item i,j" children in order. The root's values and parent stay as they were. |
| SampleTree.AppendSample | GroupProject/mainwindow.cpp:20-38 | The two loops leave the root with three top-level parts in order, each with five parts in order. Every part points at the part that lists it, all eighteen parts are distinct, and the parts form a two-level tree. |
| SampleTree.SampleIsTwoLevel | GroupProject/mainwindow.cpp:22-38 | Three distinct top-level parts, each with five distinct childless parts, all pointing back at their lister, form a two-level tree below the root. |
| SampleTree.TwoLevelIsTree | GroupProject/mainwindow.cpp:20-38 | A two-level tree below the root, with its ancestry, parents and children read off the parts, satisfies the tree invariant the model keeps. |
| SampleTree.Build | GroupProject/mainwindow.cpp:16-38 | The model built at start is valid and holds the headers, with the sample tree below its root. It has announced nothing, because the parts were appended onto the root part directly. |

## Left out

- `VRRenderThread` is not part of this model. It only declares the VR rendering loop.
- The VTK pipeline is modelled only as which stages feed the mapper and which colour and visibility the actor was given. These are not modelled:
  - the clip plane's origin and normal;
  - the shrink factor;
  - the floating-point geometry;
  - reading the STL file. `loadSTL`'s file name is not modelled, and the file is assumed to be readable.
- `getActor` and `getNewActor` are left out: they hand out VTK objects, or build new ones, with no state of the part changing.
- `flags` and `getRootItem` are left out. The first returns Qt constants. The second is a plain accessor: `rootItem` is a field of the model class.
- The getters `ParentItem`, `GetColourR/G/B`, `Visible`, `Clip` and `Shrink` carry no contracts of their own. The setters' contracts state them.
- `HasIndex` models Qt's `hasIndex` as `0 <= row < rowCount(parent) && 0 <= column < columnCount(parent)`. This is an assumption about the Qt base class, whose source is not part of this model.
- `createIndex` and the begin/end notification calls become `ModelIndex` values and entries of the ghost log. Views listening to the signals are not modelled.
- Deleting a part (`delete`, and `qDeleteAll` in the destructor) is modelled as the part's whole subtree leaving the set of live parts. Dafny has no deallocation, so these are not modelled:
  - use after free;
  - a deleted child that still points at its old parent.

  The ghost maps keep stale entries for deleted parts; only live parts' entries are consulted.
- The destructor of `ModelPartList` is not modelled: it deletes the root and the whole tree at teardown.
- PartTree.ModelPartList.RemoveRows: `row + count - 1` is computed on unbounded integers, not on a 32-bit `int`, so overflow for huge `count` is not modelled.
- PartTree.ModelPartList.Parent: requires that the indexed part has a parent. `parent()` on an index to the root part dereferences a null parent in the source, so that call has no defined result to model.
- PartTree.ModelPartList.Index: requires a valid tree and a parent index to a live part. A dangling index is undefined behaviour in the source.
- SampleTree.Build: the main window appends the sample parts through `getRootItem` after the model is attached to the tree view (GroupProject/mainwindow.cpp:18-38). This bypasses the model's `appendChild`, so no insertion is announced and the view is never told about the rows. The model's record of the tree is not kept up to date step by step either. `Build` appends directly, logs nothing, and then reads the model's record off the finished parts. A view attached before the appends is not modelled.
- PartTree.ModelPartList.SetPartData: requires a non-root part, because a valid model keeps the headers in the root part. No call site of the options dialog's `setModelPart` is part of this model. `index` and `parent` never hand out an index to the root, except the index to the root that `appendChild` writes back into its parent argument. `ModelPart::set` itself accepts the root.
- PartTree.ModelPartList.RemoveRows: with `count <= 0` at a row that exists, it returns true, announces the rows `row .. row - 1` and removes nothing (see `PartTree.NothingTaken`). The header comment says "True if the rows were removed" (GroupProject/ModelPartList.h:125). Qt's `beginRemoveRows` expects the first row to be at most the last; Qt is not part of this model.
- The rest of the main window is not modelled: buttons, dialogs, the status bar and the option dialog. Only the sample tree it builds is modelled.

# PDF merger page: document list model

This project models the merge page of a small browser PDF toolkit
(`src/pages/pdfmerger.tsx`). The page keeps these pieces of state:

- the list of selected files (`pdfs`), each with a display name and a handle on its bytes;
- a parallel list of thumbnails;
- a one-slot reference holding the position of the entry being dragged;
- the name the merged file is offered under, `"merged.pdf"` by default.

Its handlers append a selection, remove an entry by position, sort by name,
move an entry by drag and drop, and merge. A merge copies every page of every
file, in list order, into one output document.

Modules:

- `Wrappers`: `Option`, where `None` is JavaScript's `null` or `undefined`.
- `StableSort`: a stable sort by a string key, for any comparator that is a total
  preorder. The comparator `leq(a, b)` stands for `a.localeCompare(b) <= 0`, and
  the collation itself is left abstract. The module proves the sort is a
  permutation, ordered and stable. It also proves that sorting an ordered list
  changes nothing and that sorting is idempotent. `SortUnique` shows that any
  ordered result that keeps equal names in input order is exactly `Sort`'s
  result. Section 23.1.3.30 of ECMA-262 (2023 edition) requires
  `Array.prototype.sort` to give such a result.
- `Splice`: `splice(i, 1)` and `splice(i, 0, x)` as in section 23.1.3.31 of
  ECMA-262. Each works in place on an array, shifting elements, and a start
  position past the end is clamped to the length. The module also has the
  remove-then-insert move that a drop performs, with its properties.
- `DocumentList`: the file entry type and the pure operations: appending a
  selection, the index filter used by removal, `findIndex` by name, and the
  sort's name-based thumbnail realignment. It also has an identity-based
  reference: entries and thumbnails are sorted together as rows. The
  realignment is proved equal to that reference when names are distinct.
- `MergeOrder`: the page order of a merge. The PDF engine is a partial function
  from a file's handle to its pages.
- `PdfMergerPage`: class `PdfMerger` holds the page's four pieces of state, with
  one method per handler. It also has two client scenarios:
  - sort then merge: `[B.pdf (2 pages), A.pdf (1 page)]`;
  - drag the third of `[X, Y, Z]` onto the first.

The code and the page's design intent differ in three places. The model
follows the code in each:

- **Thumbnail alignment.** The thumbnail list is meant to stay index-aligned
  with the file list, but selecting files never grows it. The class invariant
  is therefore `|thumbnails| <= |pdfs|`, not equality.
- **No previews.** No handler ever stores a preview, so every thumbnail
  present is `undefined`. The invariant says this too.
- **Duplicate names.** After a sort, each thumbnail is found by name: the first
  entry with the same name. It is not found by identity, so two files with one
  name both get the first file's thumbnail (`DuplicateNamesShareFirstThumbnail`).

## Model

| member | source | states |
|---|---|---|
| `DocumentList.Appended` | src/pages/pdfmerger.tsx:11-17 | a non-empty selection yields the old list as prefix followed by exactly the selected files in order (length grows by the selection size); a null or empty selection leaves the list unchanged |
| `DocumentList.FilterIndex` | src/pages/pdfmerger.tsx:24-25 | the index filter removes exactly position `index` (`s[..index] + s[index+1..]`) when it is a position of the list, and keeps the list unchanged for any other index, negative or too large |
| `DocumentList.FilterIndexRemovesOne` | src/pages/pdfmerger.tsx:24 | removing a valid position shortens the list by exactly one and takes exactly the targeted entry out of the multiset |
| `DocumentList.FilterIndexUndoesInsert` | src/pages/pdfmerger.tsx:24-25 | removing the position an entry was spliced in at restores the list |
| `DocumentList.FindIndexByName` | src/pages/pdfmerger.tsx:31 | the result is the first position whose name matches, or -1 exactly when no entry has that name |
| `DocumentList.ThumbAt` | src/pages/pdfmerger.tsx:32 | `thumbnails[index]`: the thumbnail at a position of the list, and `undefined` for any other index (the -1 of a failed `findIndex`, or a drag source past the end at line 84); a defined result is always an element of the list |
| `DocumentList.FirstMatchIsOwnPosition` | src/pages/pdfmerger.tsx:31 | with distinct names, the first match of an entry's name is that entry's own position |
| `DocumentList.SortByName` | src/pages/pdfmerger.tsx:29 | the sort button's order: the stable name sort of a copy, with the same length and multiset as the list; ordered, stable and unique by `SortSorted`, `SortStable` and `SortUnique` on `Sort` |
| `DocumentList.Realigned` | src/pages/pdfmerger.tsx:30-33 | the realigned thumbnail list has one element per sorted entry |
| `DocumentList.RealignedFollowsEntries` | src/pages/pdfmerger.tsx:29-36 | with distinct names, the sorted files and realigned thumbnails equal those from sorting entry-thumbnail rows together: each thumbnail moves with its own entry |
| `DocumentList.DuplicateNamesShareFirstThumbnail` | src/pages/pdfmerger.tsx:31-32 | two files named alike both receive the first one's thumbnail, while row sorting would keep both previews |
| `StableSort.Insert` | src/pages/pdfmerger.tsx:29 | one insertion step of the sort adds exactly one element; its multiset, order and placement before equal names are `InsertPermutation`, `InsertSorted` and `InsertPeers` |
| `StableSort.Sort` | src/pages/pdfmerger.tsx:29 | the stable sort by a name comparator keeps the length; that it is a permutation, ordered, stable and the only such result are `SortPermutation`, `SortSorted`, `SortStable` and `SortUnique` |
| `StableSort.InsertPermutation` | src/pages/pdfmerger.tsx:29 | one insertion step adds exactly the inserted element to the multiset |
| `StableSort.SortPermutation` | src/pages/pdfmerger.tsx:29 | the sorted list is a permutation of the input (same multiset and length) |
| `StableSort.InsertSorted` | src/pages/pdfmerger.tsx:29 | inserting into an ordered list keeps it ordered |
| `StableSort.SortSorted` | src/pages/pdfmerger.tsx:29 | the sorted list is ordered by the name comparator |
| `StableSort.InsertPeers` | src/pages/pdfmerger.tsx:29 | an insertion places the new element before every element whose name compares equal to it |
| `StableSort.SortStable` | src/pages/pdfmerger.tsx:29 | for every name, the entries comparing equal to it appear in the sorted list in their original relative order |
| `StableSort.SortOfSorted` | src/pages/pdfmerger.tsx:29 | sorting an already ordered list changes nothing |
| `StableSort.SortIdempotent` | src/pages/pdfmerger.tsx:29 | sorting twice equals sorting once |
| `StableSort.PeersMember` | src/pages/pdfmerger.tsx:29 | an element of a name's equal-class belongs to the list and compares equal to that name |
| `StableSort.SortedPeersDetermine` | src/pages/pdfmerger.tsx:29 | two ordered lists with the same order inside every equal-class are identical |
| `StableSort.SortUnique` | src/pages/pdfmerger.tsx:29 | every ordered, stable rearrangement of the input (what a conforming `Array.prototype.sort` returns) equals the modelled sort |
| `Splice.Clamp` | src/pages/pdfmerger.tsx:79-80 | a splice start within the list length is kept, and a start past the end becomes the length |
| `Splice.SpliceRemove` | src/pages/pdfmerger.tsx:79 | `splice(i, 1)`: one element shorter when `i` is a position, with every element before `i` kept and every later one shifted down by one; unchanged for `i` past the end |
| `Splice.SpliceInsert` | src/pages/pdfmerger.tsx:80 | `splice(i, 0, x)`: one element longer, `x` at `i` clamped to the length, the elements before it kept and the ones after it shifted up by one |
| `Splice.Moved` | src/pages/pdfmerger.tsx:78-80 | a drop's remove-then-insert: the dragged value is in the result, and the length is kept when the source is a position and grows by one otherwise; its other properties are `MovedInRange`, `MovedElements` and `MoveUndo` |
| `Splice.RemoveAt` | src/pages/pdfmerger.tsx:79 | `splice(start, 1)` in place leaves exactly the list without position `start`, or the list unchanged when `start` is past the end |
| `Splice.InsertAt` | src/pages/pdfmerger.tsx:80 | `splice(start, 0, x)` in place leaves the list with `x` inserted at `start` clamped to the length |
| `Splice.Move` | src/pages/pdfmerger.tsx:77-80 | copying, removing at `from` and inserting at `to` gives exactly the remove-then-insert move |
| `Splice.SpliceRemoveMultiset` | src/pages/pdfmerger.tsx:79 | removing an existing position takes exactly that element out of the multiset |
| `Splice.MovedInRange` | src/pages/pdfmerger.tsx:76-81 | moving an existing entry keeps length and multiset, puts it at the target, and deleting the target afterwards equals deleting the source before, so the other entries keep their relative order |
| `Splice.MovedElements` | src/pages/pdfmerger.tsx:83-87 | a move with any source position adds nothing but the dragged value, and grows the list by one only when the source position is past its end |
| `Splice.MoveUndo` | src/pages/pdfmerger.tsx:77-80 | dragging the moved entry back to its old position restores the list |
| `Splice.MoveLastToFront` | src/pages/pdfmerger.tsx:77-80 | `[X, Y, Z]` with the entry at 2 dropped at 0 becomes `[Z, X, Y]` |
| `MergeOrder.MergedPages` | src/pages/pdfmerger.tsx:46-54 | the output pages, defined when every listed file loads (`AllLoad`): every output page is a page of some listed document; count, split and placement are `MergedPagesCount`, `MergedPagesSplit` and `MergedPageAt` |
| `MergeOrder.PageCount` | src/pages/pdfmerger.tsx:49-53 | the total page count of the loaded documents is at least the page count of each of them |
| `MergeOrder.MergedPagesCount` | src/pages/pdfmerger.tsx:46-54 | the merged output has as many pages as the inputs together |
| `MergeOrder.MergedPagesSplit` | src/pages/pdfmerger.tsx:46-54 | the output for a list is the output for its first part followed by the output for the rest |
| `MergeOrder.MergedPageAt` | src/pages/pdfmerger.tsx:49-53 | page `p` of the document at position `i` is at offset (pages of the documents before `i`) + `p` of the output |
| `PdfMergerPage.PdfMerger.constructor` | src/pages/pdfmerger.tsx:6-9 | the page starts with no files, no thumbnails, no pending drag and the output name `"merged.pdf"` |
| `PdfMergerPage.PdfMerger.SelectFiles` | src/pages/pdfmerger.tsx:11-17 | the file list becomes the appended list, the thumbnails are not touched, and the invariant `|thumbnails| <= |pdfs|` with no preview stored is kept |
| `PdfMergerPage.PdfMerger.SetMergedPdfName` | src/pages/pdfmerger.tsx:19-21 | the output name becomes the field's value and nothing else changes |
| `PdfMergerPage.PdfMerger.RemovePdf` | src/pages/pdfmerger.tsx:23-26 | the same index filter is applied to files and thumbnails, and the invariant is kept |
| `PdfMergerPage.PdfMerger.SortPdfs` | src/pages/pdfmerger.tsx:28-37 | files become the stable name sort of the old files (a permutation of them), thumbnails become the name-based realignment, of length `|pdfs|` |
| `PdfMergerPage.PdfMerger.DragStart` | src/pages/pdfmerger.tsx:68-72 | the pending drag becomes the given position and nothing else changes |
| `PdfMergerPage.PdfMerger.Drop` | src/pages/pdfmerger.tsx:74-92 | with a pending drag from another position both lists get the same remove-then-insert (the thumbnail read out of range is `undefined`); otherwise both are unchanged; the pending drag is cleared in every case and the invariant is kept |
| `PdfMergerPage.PdfMerger.Merge` | src/pages/pdfmerger.tsx:39-66 | an empty list is rejected; if every file loads, the output is the concatenation of all pages in list order under the current output name; otherwise the result names the first file that fails to load and nothing is saved |
| `PdfMergerPage.SortTwoByName` | src/pages/pdfmerger.tsx:29 | two entries out of order by name are swapped by the sort |
| `PdfMergerPage.MergeTwo` | src/pages/pdfmerger.tsx:46-54 | merging a one-page document then a two-page one gives its page first, then the other's two |
| `PdfMergerPage.SortThenMerge` | src/pages/pdfmerger.tsx:28-66 | selecting B.pdf (2 pages) and A.pdf (1 page), sorting and merging offers `merged.pdf` with A's page, then B's two pages |
| `PdfMergerPage.DragLastToFront` | src/pages/pdfmerger.tsx:68-92 | selecting X, Y, Z, starting a drag at 2 and dropping on 0 gives Z, X, Y |

## Left out

- The PDF engine (`PDFDocument.create`, `load`, `getPageIndices`, `copyPages`, `addPage`, `save`) is outside the model. A document is its page sequence, a load is a partial function, and a copied page is modelled as the page itself.
- Serialisation is outside the model. `save` is taken to succeed, so a serialisation failure is not a modelled outcome.
- Reading a file's bytes (`arrayBuffer`) is outside the model; the handle stands for the bytes.
- The download itself is outside the model: the Blob, the object URL, and the anchor that is appended, clicked and removed. The model returns the name and the pages that would be offered.
- The success and error notifications are outside the model: `showAlert`'s DOM element, its 3-second `setTimeout`, and the `alert` on an empty list. These are I/O and timers.
- PdfMergerPage.PdfMerger.Merge: the source has no error handler. A file that fails to load ends the handler with an unhandled promise rejection and shows no message. The model only returns `LoadFailed` with the first failing position. Loads are sequential awaits, so their order is the list order.
- Asynchrony and React's state scheduling are outside the model. Each handler is one atomic state change.
- The thumbnail updater in the drop handler runs deferred and reads the drag reference with `draggedItem.current!`. React may run it after the reference is cleared. The model uses the drag position captured when the drop happens. If the updater runs after the reference is cleared, the source reads `newThumbnails[null]`, which is `undefined`, and `splice(null, 1)` removes position 0. Every stored thumbnail is `undefined`, so only the length can differ: with a non-empty thumbnail list and a drag source past its end, the source keeps the length while the model grows the list by one.
- PdfMergerPage.PdfMerger.Drop: requires the pending drag position to be a current position of the file list. Without a drag-end handler, a cancelled drag leaves a stale position. If the list then shrinks and something external is dropped on an entry, the source would insert `undefined` into the file list. That case is not modelled.
- `localeCompare` collation is outside the model. The comparator is any total preorder on names.
- The JSX rendering is outside the model, including the use of file names as React keys (duplicate names give duplicate keys).
- The drag-over handler and the `dataTransfer` settings are outside the model.
- `src/pages/index.tsx` and `src/pages/_app.tsx` are not part of this model. They hold a static landing page, metadata and a layout wrapper, with no list logic.

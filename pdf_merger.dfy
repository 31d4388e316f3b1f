/**
 * The merge page's state and its event handlers. The component keeps the
 * selected files, a thumbnail list that is only ever filtered, reordered or
 * rebuilt from itself, the position of an entry being dragged and the name
 * the merged file is offered under.
 */
module PdfMergerPage {
  import opened Wrappers
  import opened Splice
  import opened StableSort
  import opened DocumentList
  import opened MergeOrder

  const DefaultMergedName: string := "merged.pdf"

  class PdfMerger {
    var pdfs: seq<FileEntry>
    var thumbnails: seq<Thumbnail>
    var dragged: Option<nat>
    var mergedPdfName: string

    /**
     * What every handler keeps: the thumbnail list is never longer than the
     * file list (selecting files does not grow it, so the two need not have
     * the same length) and it never holds a preview, only `undefined`.
     */
    ghost predicate Valid()
      reads this
    {
      && |thumbnails| <= |pdfs|
      && forall k :: 0 <= k < |thumbnails| ==> thumbnails[k].None?
    }

    /** The pending drag names a listed entry, as from a drag start to its drop. */
    predicate DragInRange()
      reads this
    {
      dragged.Some? ==> dragged.value < |pdfs|
    }

    /** The initial state: nothing selected, nothing dragged, the default name. */
    constructor ()
      ensures Valid()
      ensures pdfs == [] && thumbnails == [] && dragged == None && mergedPdfName == DefaultMergedName
    {
      pdfs := [];
      thumbnails := [];
      dragged := None;
      mergedPdfName := DefaultMergedName;
    }

    /** A change of the file input; `files` is `None` for a null file list. */
    method SelectFiles(files: Option<seq<FileEntry>>)
      requires Valid()
      modifies this
      ensures Valid()
      ensures pdfs == Appended(old(pdfs), files)
      ensures thumbnails == old(thumbnails) && dragged == old(dragged) && mergedPdfName == old(mergedPdfName)
    {
      pdfs := Appended(pdfs, files);
    }

    /** An edit of the output name field. */
    method SetMergedPdfName(name: string)
      requires Valid()
      modifies this
      ensures Valid()
      ensures mergedPdfName == name
      ensures pdfs == old(pdfs) && thumbnails == old(thumbnails) && dragged == old(dragged)
    {
      mergedPdfName := name;
    }

    /** The remove button of the entry at `index`: the same filter on both lists. */
    method RemovePdf(index: int)
      requires Valid()
      modifies this
      ensures Valid()
      ensures pdfs == FilterIndex(old(pdfs), index)
      ensures thumbnails == FilterIndex(old(thumbnails), index)
      ensures dragged == old(dragged) && mergedPdfName == old(mergedPdfName)
    {
      pdfs := FilterIndex(pdfs, index);
      thumbnails := FilterIndex(thumbnails, index);
    }

    /** The sort button; `leq(a, b)` is `a.localeCompare(b) <= 0`. */
    method SortPdfs(leq: (string, string) -> bool)
      requires Valid()
      modifies this
      ensures Valid()
      ensures pdfs == SortByName(old(pdfs), leq)
      ensures multiset(pdfs) == multiset(old(pdfs))
      ensures thumbnails == Realigned(old(pdfs), pdfs, old(thumbnails))
      ensures |thumbnails| == |pdfs|
      ensures dragged == old(dragged) && mergedPdfName == old(mergedPdfName)
    {
      var sortedPdfs := SortByName(pdfs, leq);
      var sortedThumbnails := Realigned(pdfs, sortedPdfs, thumbnails);
      pdfs := sortedPdfs;
      thumbnails := sortedThumbnails;
    }

    /** The start of a drag of the entry at `index`. */
    method DragStart(index: nat)
      requires Valid()
      modifies this
      ensures Valid()
      ensures dragged == Some(index)
      ensures pdfs == old(pdfs) && thumbnails == old(thumbnails) && mergedPdfName == old(mergedPdfName)
    {
      dragged := Some(index);
    }

    /**
     * A drop on the entry at `index`: with a pending drag from another
     * position, both lists get the same remove-then-insert; in every case the
     * pending drag is cleared.
     */
    method Drop(index: nat)
      requires Valid() && DragInRange()
      modifies this
      ensures Valid()
      ensures dragged == None && mergedPdfName == old(mergedPdfName)
      ensures old(dragged).Some? && old(dragged).value != index ==>
                && pdfs == Moved(old(pdfs), old(dragged).value, index, old(pdfs)[old(dragged).value])
                && thumbnails == Moved(old(thumbnails), old(dragged).value, index,
                                       ThumbAt(old(thumbnails), old(dragged).value))
      ensures old(dragged).None? || old(dragged).value == index ==>
                pdfs == old(pdfs) && thumbnails == old(thumbnails)
    {
      if dragged.Some? && dragged.value != index {
        var from := dragged.value;
        var dragItem := pdfs[from];
        var newPdfs := Move(pdfs, from, index, dragItem);
        var dragThumbnail := ThumbAt(thumbnails, from);
        var newThumbnails := Move(thumbnails, from, index, dragThumbnail);
        MovedElements(pdfs, from, index, dragItem);
        MovedElements(thumbnails, from, index, dragThumbnail);
        pdfs := newPdfs;
        thumbnails := newThumbnails;
      }
      dragged := None;
    }

    /**
     * The merge button. Loads run in list order and stop at the first file the
     * engine rejects; only when all load is the output saved and offered for
     * download under the current output name.
     */
    method Merge(load: Handle -> Option<seq<Page>>) returns (out: MergeOutcome)
      ensures pdfs == [] ==> out == NothingSelected
      ensures pdfs != [] && AllLoad(pdfs, load) ==>
                out == Downloaded(mergedPdfName, MergedPages(pdfs, load))
      ensures pdfs != [] && !AllLoad(pdfs, load) ==>
                && out.LoadFailed? && out.index < |pdfs|
                && load(pdfs[out.index].handle).None?
                && AllLoad(pdfs[..out.index], load)
    {
      if |pdfs| == 0 {
        return NothingSelected;
      }
      var merged: seq<Page> := [];
      var i := 0;
      while i < |pdfs|
        invariant 0 <= i <= |pdfs|
        invariant AllLoad(pdfs[..i], load)
        invariant merged == MergedPages(pdfs[..i], load)
      {
        var source := load(pdfs[i].handle);
        if source.None? {
          return LoadFailed(i);
        }
        var pages := source.value;
        var k := 0;
        while k < |pages|
          invariant 0 <= k <= |pages|
          invariant merged == MergedPages(pdfs[..i], load) + pages[..k]
        {
          merged := merged + [pages[k]];
          k := k + 1;
        }
        assert pdfs[..i + 1][..i] == pdfs[..i];
        assert pages[..k] == pages;
        i := i + 1;
      }
      assert pdfs[..i] == pdfs;
      out := Downloaded(mergedPdfName, merged);
    }
  }

  /** The engine's view of the two files of `SortThenMerge`. */
  function SampleLoad(h: Handle): Option<seq<Page>> {
    if h == 1 then Some([Page(1, 0), Page(1, 1)])
    else if h == 2 then Some([Page(2, 0)])
    else None
  }

  /**
   * Selecting B.pdf (two pages) and A.pdf (one page), sorting and merging
   * gives A's page first, then B's two pages, under the default name.
   */
  method SortThenMerge(leq: (string, string) -> bool) returns (out: MergeOutcome)
    requires leq("A.pdf", "B.pdf") && !leq("B.pdf", "A.pdf")
    ensures out == Downloaded("merged.pdf", [Page(2, 0), Page(1, 0), Page(1, 1)])
  {
    var page := new PdfMerger();
    var b, a := FileEntry("B.pdf", 1), FileEntry("A.pdf", 2);
    page.SelectFiles(Some([b, a]));
    assert page.pdfs == [b, a];
    SortTwoByName(b, a, leq);
    page.SortPdfs(leq);
    assert page.pdfs == [a, b];
    MergeTwo(a, b);
    out := page.Merge(SampleLoad);
  }

  lemma SortTwoByName(x: FileEntry, y: FileEntry, leq: (string, string) -> bool)
    requires !leq(x.name, y.name)
    ensures SortByName([x, y], leq) == [y, x]
  {
    assert [x, y][1..] == [y];
    assert [y][1..] == [];
    assert Sort([y], NameOf, leq) == [y];
    assert !leq(NameOf(x), NameOf(y));
    assert Insert(x, [y], NameOf, leq) == [y] + Insert(x, [], NameOf, leq);
  }

  lemma MergeTwo(a: FileEntry, b: FileEntry)
    requires a.handle == 2 && b.handle == 1
    ensures AllLoad([a, b], SampleLoad)
    ensures MergedPages([a, b], SampleLoad) == [Page(2, 0), Page(1, 0), Page(1, 1)]
  {
    assert [a, b][..1] == [a];
    assert [a][..0] == [];
    assert MergedPages([a], SampleLoad) == [Page(2, 0)];
    assert MergedPages([a, b], SampleLoad) == MergedPages([a], SampleLoad) + SampleLoad(1).value;
  }

  /** Dragging the third of X, Y, Z onto the first gives Z, X, Y. */
  method DragLastToFront() returns (names: seq<string>)
    ensures names == ["Z.pdf", "X.pdf", "Y.pdf"]
  {
    var page := new PdfMerger();
    page.SelectFiles(Some([FileEntry("X.pdf", 1), FileEntry("Y.pdf", 2), FileEntry("Z.pdf", 3)]));
    page.DragStart(2);
    page.Drop(0);
    MoveLastToFront(FileEntry("X.pdf", 1), FileEntry("Y.pdf", 2), FileEntry("Z.pdf", 3));
    names := seq(|page.pdfs|, i requires 0 <= i < |page.pdfs| reads page => page.pdfs[i].name);
  }
}

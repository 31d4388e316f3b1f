/**
 * The page order of a merge. Each listed file is loaded as a document (the
 * PDF engine is represented by a partial function from a file's bytes to its
 * pages); the output receives every page of every document, document by
 * document in list order and page by page in document order.
 */
module MergeOrder {
  import opened Wrappers
  import opened DocumentList

  /** A page of a loaded document: the file it came from and its index there. */
  datatype Page = Page(source: Handle, index: nat)

  /** What a click on Merge leads to. */
  datatype MergeOutcome =
    | NothingSelected                                   // the alert asking for at least one file
    | LoadFailed(index: nat)                            // the engine rejected the file at this position
    | Downloaded(fileName: string, pages: seq<Page>)    // the saved output, offered under this name

  predicate AllLoad(s: seq<FileEntry>, load: Handle -> Option<seq<Page>>) {
    forall i :: 0 <= i < |s| ==> load(s[i].handle).Some?
  }

  /** Every page of every document of `s`, document after document. */
  function MergedPages(s: seq<FileEntry>, load: Handle -> Option<seq<Page>>): (r: seq<Page>)
    requires AllLoad(s, load)
    ensures forall p :: p in r ==> exists i :: 0 <= i < |s| && p in load(s[i].handle).value
  {
    if s == [] then [] else MergedPages(s[..|s| - 1], load) + load(s[|s| - 1].handle).value
  }

  /** The sum of the documents' page counts. */
  function PageCount(s: seq<FileEntry>, load: Handle -> Option<seq<Page>>): (r: nat)
    requires AllLoad(s, load)
    ensures forall i :: 0 <= i < |s| ==> |load(s[i].handle).value| <= r
  {
    if s == [] then 0 else PageCount(s[..|s| - 1], load) + |load(s[|s| - 1].handle).value|
  }

  /** The output has as many pages as the inputs together. */
  lemma {:induction false} MergedPagesCount(s: seq<FileEntry>, load: Handle -> Option<seq<Page>>)
    requires AllLoad(s, load)
    ensures |MergedPages(s, load)| == PageCount(s, load)
  {
    if s != [] {
      MergedPagesCount(s[..|s| - 1], load);
    }
  }

  /** Merging a list is merging its two halves and joining the outputs. */
  lemma {:induction false} MergedPagesSplit(a: seq<FileEntry>, b: seq<FileEntry>, load: Handle -> Option<seq<Page>>)
    requires AllLoad(a + b, load)
    ensures AllLoad(a, load) && AllLoad(b, load)
    ensures MergedPages(a + b, load) == MergedPages(a, load) + MergedPages(b, load)
    decreases |b|
  {
    assert forall i :: 0 <= i < |a| ==> a[i] == (a + b)[i];
    assert forall i :: 0 <= i < |b| ==> b[i] == (a + b)[|a| + i];
    if b != [] {
      var c := b[..|b| - 1];
      assert (a + b)[..|a + b| - 1] == a + c;
      MergedPagesSplit(a, c, load);
    } else {
      assert a + b == a;
    }
  }

  /**
   * Page `p` of the document at position `i` lands right after the pages of
   * the documents before it.
   */
  lemma MergedPageAt(s: seq<FileEntry>, load: Handle -> Option<seq<Page>>, i: nat, p: nat)
    requires AllLoad(s, load)
    requires i < |s| && p < |load(s[i].handle).value|
    ensures AllLoad(s[..i], load)
    ensures PageCount(s[..i], load) + p < |MergedPages(s, load)|
    ensures MergedPages(s, load)[PageCount(s[..i], load) + p] == load(s[i].handle).value[p]
  {
    assert s == s[..i] + ([s[i]] + s[i + 1..]);
    MergedPagesSplit(s[..i], [s[i]] + s[i + 1..], load);
    MergedPagesSplit([s[i]], s[i + 1..], load);
    MergedPagesCount(s[..i], load);
    assert MergedPages([s[i]], load) == load(s[i].handle).value by {
      assert [s[i]][..0] == [];
    }
  }
}

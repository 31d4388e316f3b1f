/**
 * The merge page's list of selected files and the value-level operations on
 * it: appending a selection, removing by position (an index filter), sorting
 * by name and realigning the thumbnail list by name after a sort.
 */
module DocumentList {
  import opened Wrappers
  import opened StableSort
  import opened Splice

  /** An opaque reference to the bytes of a selected file. */
  type Handle = nat

  /** A selected file: its display name (not necessarily unique) and its bytes. */
  datatype FileEntry = FileEntry(name: string, handle: Handle)

  /** A preview value; `None` is the `undefined` that an out-of-range read yields. */
  type Thumbnail = Option<string>

  function NameOf(e: FileEntry): string {
    e.name
  }

  predicate DistinctNames(s: seq<FileEntry>) {
    forall i, j :: 0 <= i < j < |s| ==> s[i].name != s[j].name
  }

  /**
   * A change of the file input: a null or empty selection changes nothing,
   * otherwise the selected files follow the existing ones, in selection order.
   */
  function Appended(pdfs: seq<FileEntry>, files: Option<seq<FileEntry>>): (r: seq<FileEntry>)
    ensures files.Some? && files.value != [] ==>
              |r| == |pdfs| + |files.value| && r[..|pdfs|] == pdfs && r[|pdfs|..] == files.value
    ensures files.None? || files.value == [] ==> r == pdfs
  {
    if files.Some? && |files.value| > 0 then pdfs + files.value else pdfs
  }

  /**
   * `s.filter((_, i) => i !== index)`: exactly the entry at `index` goes when
   * `index` is a position of `s`; any other index keeps everything.
   */
  function FilterIndex<T>(s: seq<T>, index: int): (r: seq<T>)
    ensures 0 <= index < |s| ==> r == s[..index] + s[index + 1..]
    ensures !(0 <= index < |s|) ==> r == s
    decreases |s|
  {
    if s == [] then []
    else (if index == 0 then [] else [s[0]]) + FilterIndex(s[1..], index - 1)
  }

  /** Removing a position drops exactly that one entry from the multiset. */
  lemma FilterIndexRemovesOne<T>(s: seq<T>, index: int)
    requires 0 <= index < |s|
    ensures |FilterIndex(s, index)| == |s| - 1
    ensures multiset(FilterIndex(s, index)) == multiset(s) - multiset{s[index]}
  {
    SpliceRemoveMultiset(s, index);
  }

  /** Removing the position an entry was inserted at undoes the insertion. */
  lemma FilterIndexUndoesInsert<T>(s: seq<T>, index: nat, x: T)
    requires index <= |s|
    ensures FilterIndex(SpliceInsert(s, index, x), index) == s
  {
  }

  /** `findIndex` on names: the first position holding `name`, or -1. */
  function FindIndexByName(s: seq<FileEntry>, name: string): (r: int)
    ensures -1 <= r < |s|
    ensures r >= 0 ==> s[r].name == name && forall j :: 0 <= j < r ==> s[j].name != name
    ensures r == -1 ==> forall j :: 0 <= j < |s| ==> s[j].name != name
  {
    if s == [] then -1
    else if s[0].name == name then 0
    else
      var i := FindIndexByName(s[1..], name);
      if i == -1 then -1 else i + 1
  }

  /** `thumbs[i]`: `undefined` outside the list. */
  function ThumbAt(thumbs: seq<Thumbnail>, i: int): (r: Thumbnail)
    ensures 0 <= i < |thumbs| ==> r == thumbs[i]
    ensures !(0 <= i < |thumbs|) ==> r == None
    ensures r.Some? ==> r in thumbs
  {
    if 0 <= i < |thumbs| then thumbs[i] else None
  }

  /** The sort button's new order: copy, then stable sort by name. */
  function SortByName(pdfs: seq<FileEntry>, leq: (string, string) -> bool): (r: seq<FileEntry>)
    ensures |r| == |pdfs|
    ensures multiset(r) == multiset(pdfs)
  {
    SortPermutation(pdfs, NameOf, leq);
    Sort(pdfs, NameOf, leq)
  }

  /**
   * The sort button's new thumbnail list: for each sorted entry, the thumbnail
   * at the first original position carrying the same name.
   */
  function Realigned(original: seq<FileEntry>, sorted: seq<FileEntry>, thumbs: seq<Thumbnail>): (r: seq<Thumbnail>)
    ensures |r| == |sorted|
  {
    seq(|sorted|, k requires 0 <= k < |sorted| => ThumbAt(thumbs, FindIndexByName(original, sorted[k].name)))
  }

  /** An entry together with the thumbnail at its own position. */
  datatype Row = Row(entry: FileEntry, thumbnail: Thumbnail)

  function RowName(r: Row): string {
    r.entry.name
  }

  /** The identity-based pairing: each entry with the thumbnail at its position. */
  function Rows(pdfs: seq<FileEntry>, thumbs: seq<Thumbnail>): (r: seq<Row>)
    ensures |r| == |pdfs|
    ensures forall i :: 0 <= i < |pdfs| ==> r[i] == Row(pdfs[i], ThumbAt(thumbs, i))
  {
    seq(|pdfs|, i requires 0 <= i < |pdfs| => Row(pdfs[i], ThumbAt(thumbs, i)))
  }

  function Entries(rows: seq<Row>): (r: seq<FileEntry>)
    ensures |r| == |rows|
    ensures forall i :: 0 <= i < |rows| ==> r[i] == rows[i].entry
  {
    if rows == [] then [] else [rows[0].entry] + Entries(rows[1..])
  }

  function Thumbnails(rows: seq<Row>): (r: seq<Thumbnail>)
    ensures |r| == |rows|
    ensures forall i :: 0 <= i < |rows| ==> r[i] == rows[i].thumbnail
  {
    if rows == [] then [] else [rows[0].thumbnail] + Thumbnails(rows[1..])
  }

  lemma {:induction false} InsertEntries(x: Row, rows: seq<Row>, leq: (string, string) -> bool)
    ensures Entries(Insert(x, rows, RowName, leq)) == Insert(x.entry, Entries(rows), NameOf, leq)
  {
    if rows != [] && !leq(RowName(x), RowName(rows[0])) {
      InsertEntries(x, rows[1..], leq);
      assert Entries(rows)[1..] == Entries(rows[1..]);
    }
  }

  /** Sorting rows by name puts the entries in the order the sort button gives. */
  lemma {:induction false} SortEntries(rows: seq<Row>, leq: (string, string) -> bool)
    ensures Entries(Sort(rows, RowName, leq)) == SortByName(Entries(rows), leq)
  {
    if rows != [] {
      SortEntries(rows[1..], leq);
      InsertEntries(rows[0], Sort(rows[1..], RowName, leq), leq);
      assert Entries(rows)[1..] == Entries(rows[1..]);
    }
  }

  /**
   * With distinct names, the name-based realignment moves every thumbnail
   * exactly as its entry moved: it equals sorting entries and thumbnails
   * together as rows.
   */
  lemma RealignedFollowsEntries(pdfs: seq<FileEntry>, thumbs: seq<Thumbnail>, leq: (string, string) -> bool)
    requires DistinctNames(pdfs)
    ensures Entries(Sort(Rows(pdfs, thumbs), RowName, leq)) == SortByName(pdfs, leq)
    ensures Thumbnails(Sort(Rows(pdfs, thumbs), RowName, leq)) == Realigned(pdfs, SortByName(pdfs, leq), thumbs)
  {
    var rows := Rows(pdfs, thumbs);
    var sortedRows := Sort(rows, RowName, leq);
    assert Entries(rows) == pdfs;
    SortEntries(rows, leq);
    SortPermutation(rows, RowName, leq);
    var sorted := SortByName(pdfs, leq);
    var realigned := Realigned(pdfs, sorted, thumbs);
    forall k | 0 <= k < |sortedRows|
      ensures sortedRows[k].thumbnail == realigned[k]
    {
      var j := RowOrigin(rows, sortedRows[k]);
      assert sorted[k] == sortedRows[k].entry == pdfs[j];
      FirstMatchIsOwnPosition(pdfs, j);
    }
  }

  /** A row of a permutation of `rows` is one of `rows`, at some position. */
  lemma RowOrigin(rows: seq<Row>, row: Row) returns (j: nat)
    requires row in multiset(rows)
    ensures j < |rows| && rows[j] == row
  {
    assert row in rows;
    j :| 0 <= j < |rows| && rows[j] == row;
  }

  /** With distinct names, the first position carrying an entry's name is its own. */
  lemma FirstMatchIsOwnPosition(pdfs: seq<FileEntry>, j: nat)
    requires DistinctNames(pdfs)
    requires j < |pdfs|
    ensures FindIndexByName(pdfs, pdfs[j].name) == j
  {
  }

  /**
   * Two files with the same name both get the thumbnail of the first: the
   * second one's preview is lost, where sorting rows would have kept it.
   */
  lemma DuplicateNamesShareFirstThumbnail(leq: (string, string) -> bool)
    requires TotalPreorder(leq)
    ensures var pdfs := [FileEntry("report.pdf", 1), FileEntry("report.pdf", 2)];
            var thumbs := [Some("first"), Some("second")];
            && SortByName(pdfs, leq) == pdfs
            && Realigned(pdfs, SortByName(pdfs, leq), thumbs) == [Some("first"), Some("first")]
            && Thumbnails(Sort(Rows(pdfs, thumbs), RowName, leq)) == [Some("first"), Some("second")]
  {
    var name := "report.pdf";
    assert leq(name, name);
    var pdfs := [FileEntry(name, 1), FileEntry(name, 2)];
    var thumbs := [Some("first"), Some("second")];
    assert Sort(pdfs[1..], NameOf, leq) == [pdfs[1]];
    var rows := Rows(pdfs, thumbs);
    assert Sort(rows[1..], RowName, leq) == [rows[1]];
    assert Sort(rows, RowName, leq) == rows;
  }
}

/**
 * The converter window's state: the ordered image paths, the list widget's
 * display names kept beside them, and the widget's current row (-1: none).
 */
module Controller {
  import opened Wrappers
  import opened PathNames
  import opened Listing
  import opened Assembler

  /** The display list mirrors the path list: same length, each name the basename of its path. */
  predicate Lockstep(paths: seq<string>, names: seq<string>) {
    |paths| == |names| && forall i :: 0 <= i < |paths| ==> names[i] == Basename(paths[i])
  }

  /** Exchanges two slots and leaves every other slot as it was. */
  function Swap<T>(s: seq<T>, i: nat, j: nat): (r: seq<T>)
    requires i < |s| && j < |s|
    ensures |r| == |s| && r[i] == s[j] && r[j] == s[i]
    ensures forall k :: 0 <= k < |s| && k != i && k != j ==> r[k] == s[k]
  {
    s[i := s[j]][j := s[i]]
  }

  /** Reordering by a swap is a permutation: the multiset of elements is unchanged. */
  lemma SwapPermutes<T>(s: seq<T>, i: nat, j: nat)
    requires i < |s| && j < |s|
    ensures multiset(Swap(s, i, j)) == multiset(s)
  {
  }

  /** Swapping the same two slots twice restores the sequence. */
  lemma SwapTwice<T>(s: seq<T>, i: nat, j: nat)
    requires i < |s| && j < |s|
    ensures Swap(Swap(s, i, j), i, j) == s
  {
  }

  /** Appending a path and its basename keeps the lists in lock-step. */
  lemma LockstepSnoc(paths: seq<string>, names: seq<string>, p: string)
    requires Lockstep(paths, names)
    ensures Lockstep(paths + [p], names + [Basename(p)])
  {
  }

  /** In lock-step, every display name is a single path component. */
  lemma LockstepNamesHaveNoSeparator(paths: seq<string>, names: seq<string>)
    requires Lockstep(paths, names)
    ensures forall i :: 0 <= i < |names| ==> '/' !in names[i]
  {
    forall i | 0 <= i < |names| ensures '/' !in names[i] {
      BasenameHasNoSeparator(paths[i]);
    }
  }

  /** Swapping the same slots of both lists keeps them in lock-step. */
  lemma SwapKeepsLockstep(paths: seq<string>, names: seq<string>, i: nat, j: nat)
    requires Lockstep(paths, names) && i < |paths| && j < |paths|
    ensures Lockstep(Swap(paths, i, j), Swap(names, i, j))
  {
  }

  /** Python's reading of a list index: a negative index counts from the end. */
  function PyIndex(n: int, i: int): (r: int) {
    if i < 0 then i + n else i
  }

  /**
   * `move_down` exactly as the source writes it, on (paths, names, row): the
   * guard is only `row < len - 1`. With no selection (row -1) the path swap
   * reads index -1, i.e. the last path, while the widget's `takeItem(-1)`
   * yields no item, so `insertItem` moves nothing; `setCurrentRow(0)` then
   * selects the first row.
   */
  function MoveDownAsWritten(paths: seq<string>, names: seq<string>, row: int): (r: (seq<string>, seq<string>, int))
    requires |paths| == |names| && -1 <= row < |paths|
    ensures |r.0| == |paths| && multiset(r.0) == multiset(paths)
    ensures |r.1| == |names| && multiset(r.1) == multiset(names)
    ensures -1 <= r.2 < |paths|
  {
    if row < |paths| - 1 then
      var a, b := PyIndex(|paths|, row), row + 1;
      SwapPermutes(paths, a, b);
      (Swap(paths, a, b),
       if row >= 0 then SwapPermutes(names, row, b); Swap(names, row, b) else names,
       b)
    else
      (paths, names, row)
  }

  /** With a row selected, the code as written does what `ImageToPdf.MoveDown` does. */
  lemma MoveDownAsWrittenWithSelection(paths: seq<string>, names: seq<string>, row: int)
    requires |paths| == |names| && 0 <= row < |paths|
    ensures row < |paths| - 1 ==>
      MoveDownAsWritten(paths, names, row) == (Swap(paths, row, row + 1), Swap(names, row, row + 1), row + 1)
    ensures row == |paths| - 1 ==> MoveDownAsWritten(paths, names, row) == (paths, names, row)
  {
  }

  /**
   * With nothing selected and first and last images of different names, the
   * code as written swaps the first and last paths but not their display names.
   */
  lemma {:induction false} MoveDownAsWrittenBreaksLockstep(paths: seq<string>, names: seq<string>)
    requires Lockstep(paths, names) && |paths| >= 2
    requires Basename(paths[0]) != Basename(paths[|paths| - 1])
    ensures MoveDownAsWritten(paths, names, -1).2 == 0
    ensures !Lockstep(MoveDownAsWritten(paths, names, -1).0, MoveDownAsWritten(paths, names, -1).1)
  {
    var r := MoveDownAsWritten(paths, names, -1);
    assert r.0[0] == paths[|paths| - 1];
    assert r.1[0] == names[0] == Basename(paths[0]);
  }

  /** A concrete case: two images loaded, nothing selected, Move Down pressed. */
  lemma MoveDownWithoutSelectionExample()
    ensures MoveDownAsWritten(["scans/a.png", "scans/b.png"], ["a.png", "b.png"], -1)
      == (["scans/b.png", "scans/a.png"], ["a.png", "b.png"], 0)
    ensures !Lockstep(["scans/b.png", "scans/a.png"], ["a.png", "b.png"])
  {
    var paths: seq<string> := ["scans/a.png", "scans/b.png"];
    var swapped := Swap(paths, 1, 0);
    assert swapped == ["scans/b.png", "scans/a.png"];
    var p := "scans/b.png";
    assert p == "scans/" + "b.png";
    BasenameAfterSeparator("scans/", "b.png");
    var names: seq<string> := ["a.png", "b.png"];
    assert names[0][0] != Basename(swapped[0])[0];
    assert names[0] != Basename(swapped[0]);
  }

  /**
   * The folder loader's loop over the sorted entries: every image entry `f`
   * contributes the path `folder/f` and the display name `f`.
   */
  method CollectFolder(folder: string, sorted: seq<string>) returns (paths: seq<string>, names: seq<string>)
    requires forall e :: e in sorted ==> '/' !in e
    ensures Lockstep(paths, names)
    ensures names == Filter(sorted)
    ensures forall k :: 0 <= k < |paths| ==> paths[k] == Join(folder, names[k])
  {
    paths, names := [], [];
    var i := 0;
    while i < |sorted|
      invariant 0 <= i <= |sorted|
      invariant names == Filter(sorted[..i])
      invariant |paths| == |names|
      invariant forall k :: 0 <= k < |paths| ==> paths[k] == Join(folder, names[k])
    {
      var f := sorted[i];
      FilterStep(sorted, i);
      if IsImageName(f) {
        paths, names := paths + [Join(folder, f)], names + [f];
      }
      i := i + 1;
    }
    assert sorted[..i] == sorted;
    JoinedEntriesLockstep(folder, sorted, paths, names);
  }

  /** Paths built by joining a folder with filtered '/'-free entries are in lock-step with those entries. */
  lemma JoinedEntriesLockstep(folder: string, entries: seq<string>, paths: seq<string>, names: seq<string>)
    requires forall e :: e in entries ==> '/' !in e
    requires names == Filter(entries) && |paths| == |names|
    requires forall k :: 0 <= k < |paths| ==> paths[k] == Join(folder, names[k])
    ensures Lockstep(paths, names)
  {
    forall k | 0 <= k < |paths| ensures names[k] == Basename(paths[k]) {
      FilterKeepsOnlyListed(entries, names[k]);
      BasenameOfJoin(folder, names[k]);
    }
  }

  /**
   * The archive loader's loop over the member names: every image member is
   * extracted under `dir` and contributes the extracted path and its basename.
   */
  method CollectArchive(members: seq<string>, extract: (string, string) -> string, dir: string)
    returns (paths: seq<string>, names: seq<string>)
    ensures Lockstep(paths, names)
    ensures |paths| == |Filter(members)|
    ensures forall k :: 0 <= k < |paths| ==> paths[k] == extract(Filter(members)[k], dir)
  {
    paths, names := [], [];
    ghost var kept: seq<string> := [];
    var i := 0;
    while i < |members|
      invariant 0 <= i <= |members|
      invariant kept == Filter(members[..i])
      invariant Lockstep(paths, names)
      invariant |paths| == |kept|
      invariant forall k :: 0 <= k < |paths| ==> paths[k] == extract(kept[k], dir)
    {
      var name := members[i];
      FilterStep(members, i);
      if IsImageName(name) {
        var extracted := extract(name, dir);
        LockstepSnoc(paths, names, extracted);
        paths, names := paths + [extracted], names + [Basename(extracted)];
        kept := kept + [name];
      }
      i := i + 1;
    }
    assert members[..i] == members;
  }

  class ImageToPdf {
    var paths: seq<string>
    var names: seq<string>
    var row: int
    var sourceName: string
    var tempDir: string

    /**
     * The list widget mirrors the paths, the current row is a row of the list
     * or none, and the source name is a single path component.
     */
    ghost predicate Valid()
      reads this
      ensures Valid() ==> |names| == |paths| && (paths == [] ==> row == -1)
    {
      Lockstep(paths, names) && -1 <= row < |paths| && '/' !in sourceName
    }

    /** A fresh window: nothing loaded, nothing selected, source named "output". */
    constructor (tempDir: string)
      ensures Valid()
      ensures paths == [] && names == [] && row == -1
      ensures sourceName == "output" && this.tempDir == tempDir
    {
      paths, names, row := [], [], -1;
      sourceName := "output";
      this.tempDir := tempDir;
    }

    /** The user selects a row of the list, or clears the selection with -1. */
    method Select(r: int)
      requires Valid() && -1 <= r < |paths|
      modifies this`row
      ensures Valid() && row == r
    {
      row := r;
    }

    /**
     * Loads a folder: `folder` is the dialog's answer ("" when cancelled) and
     * `listing` the folder's entries, which never contain '/'.
     */
    method LoadFolder(folder: string, listing: seq<string>)
      requires Valid()
      requires forall e :: e in listing ==> '/' !in e
      modifies this`paths, this`names, this`row, this`sourceName
      ensures Valid()
      ensures folder == [] ==>
        paths == old(paths) && names == old(names) && row == old(row) && sourceName == old(sourceName)
      ensures folder != [] ==>
        sourceName == Basename(folder) && row == -1 &&
        names == Filter(Sort(listing)) && Sorted(names) &&
        forall i :: 0 <= i < |paths| ==> paths[i] == Join(folder, names[i])
    {
      if folder == [] {
        return;
      }
      forall e | e in Sort(listing) ensures '/' !in e {
        SortKeepsEntries(listing, e);
      }
      var ps, ns := CollectFolder(folder, Sort(listing));
      SortSorted(listing);
      FilterSorted(Sort(listing));
      BasenameHasNoSeparator(folder);
      sourceName := Basename(folder);
      paths, names, row := ps, ns, -1;
    }

    /**
     * Loads an archive: `file` is the dialog's answer ("" when cancelled),
     * `members` the archive's member names in archive order, and
     * `extract(name, dir)` the path at which a member is extracted under `dir`.
     */
    method LoadZip(file: string, members: seq<string>, extract: (string, string) -> string)
      requires Valid()
      modifies this`paths, this`names, this`row, this`sourceName
      ensures Valid()
      ensures file == [] ==>
        paths == old(paths) && names == old(names) && row == old(row) && sourceName == old(sourceName)
      ensures file != [] ==>
        sourceName == Basename(file) && row == -1 &&
        |paths| == |Filter(members)| &&
        forall i :: 0 <= i < |paths| ==> paths[i] == extract(Filter(members)[i], tempDir)
    {
      if file == [] {
        return;
      }
      var ps, ns := CollectArchive(members, extract, tempDir);
      BasenameHasNoSeparator(file);
      sourceName := Basename(file);
      paths, names, row := ps, ns, -1;
    }

    /** Moves the selected image one place towards the front, selection following it. */
    method MoveUp()
      requires Valid()
      modifies this`paths, this`names, this`row
      ensures Valid()
      ensures old(row) > 0 ==>
        paths == Swap(old(paths), old(row) - 1, old(row)) &&
        names == Swap(old(names), old(row) - 1, old(row)) &&
        row == old(row) - 1
      ensures old(row) <= 0 ==> paths == old(paths) && names == old(names) && row == old(row)
    {
      if row > 0 {
        SwapKeepsLockstep(paths, names, row - 1, row);
        paths := Swap(paths, row - 1, row);
        names := Swap(names, row - 1, row);
        row := row - 1;
      }
    }

    /**
     * Moves the selected image one place towards the back, selection following
     * it; a no-op on the last row and when nothing is selected.
     */
    method MoveDown()
      requires Valid()
      modifies this`paths, this`names, this`row
      ensures Valid()
      ensures 0 <= old(row) < |old(paths)| - 1 ==>
        paths == Swap(old(paths), old(row), old(row) + 1) &&
        names == Swap(old(names), old(row), old(row) + 1) &&
        row == old(row) + 1
      ensures !(0 <= old(row) < |old(paths)| - 1) ==>
        paths == old(paths) && names == old(names) && row == old(row)
    {
      if 0 <= row < |paths| - 1 {
        SwapKeepsLockstep(paths, names, row, row + 1);
        paths := Swap(paths, row, row + 1);
        names := Swap(names, row, row + 1);
        row := row + 1;
      }
    }

    /** Empties both lists; the widget then has no current row. */
    method Clear()
      requires Valid()
      modifies this`paths, this`names, this`row
      ensures Valid()
      ensures paths == [] && names == [] && row == -1
    {
      paths, names, row := [], [], -1;
    }

    /**
     * Converts the collection to one PDF. `probe(p)` is what opening the image
     * at `p` reports (None when it cannot be opened); `cwd` is the working directory.
     * An empty collection is refused; the first unreadable image aborts the whole
     * conversion; otherwise page i is image i.
     */
    method ConvertToPdf(cwd: string, probe: string -> Option<ImageInfo>, quality: int)
      returns (r: Result<Document, ConvertError>)
      requires Valid() && 1 <= quality <= 100
      ensures r == Failure(NoImages) <==> |paths| == 0
      ensures r.Success? <==> |paths| > 0 && forall i :: 0 <= i < |paths| ==> probe(paths[i]).Some?
      ensures r.Failure? && r.error.Unreadable? ==>
        exists k :: 0 <= k < |paths| && paths[k] == r.error.path && probe(paths[k]).None? &&
          forall j :: 0 <= j < k ==> probe(paths[j]).Some?
      ensures r.Success? ==>
        r.value.path == OutputPath(cwd, sourceName) &&
        Basename(r.value.path) == OutputName(sourceName) &&
        r.value.quality == quality &&
        |r.value.Pages()| == |paths| &&
        (forall i :: 0 <= i < |paths| ==> r.value.Pages()[i] == PageOf(paths[i], probe(paths[i]).value)) &&
        r.value.resolution == PageOf(paths[0], probe(paths[0]).value).dpi.x
    {
      if |paths| == 0 {
        return Failure(NoImages);
      }
      var pages: seq<Page> := [];
      var i := 0;
      while i < |paths|
        invariant 0 <= i <= |paths|
        invariant forall j :: 0 <= j < i ==> probe(paths[j]).Some?
        invariant |pages| == i
        invariant forall j :: 0 <= j < i ==> pages[j] == PageOf(paths[j], probe(paths[j]).value)
      {
        var info := probe(paths[i]);
        if info.None? {
          return Failure(Unreadable(paths[i]));
        }
        pages := pages + [PageOf(paths[i], info.value)];
        i := i + 1;
      }
      var path := OutputPath(cwd, sourceName);
      OutputPathNamedAfterSource(cwd, sourceName);
      return Success(Assemble(path, pages, quality));
    }
  }

  /** Moving an image up and then down again restores the collection and the selection. */
  method MoveUpThenDown(w: ImageToPdf)
    requires w.Valid() && w.row > 0
    modifies w
    ensures w.Valid()
    ensures w.paths == old(w.paths) && w.names == old(w.names) && w.row == old(w.row)
  {
    w.MoveUp();
    w.MoveDown();
    SwapTwice(old(w.paths), old(w.row) - 1, old(w.row));
    SwapTwice(old(w.names), old(w.row) - 1, old(w.row));
  }
}

/**
 * One merger window: its file list, the row selected in its list box, and
 * the four buttons (open folder, move up, move down, merge). Dialogs are
 * inputs: the folder the folder dialog returns ("" when cancelled), the
 * directory listing, and the path the save dialog returns ("" when cancelled).
 */
module MergerApp {
  import opened SortKey
  import opened StableSort
  import opened FileOrder
  import opened Merge

  datatype Option<T> = None | Some(value: T)

  /** The list comprehension of the load: each ".mp3" entry joined with the folder, in listing order. */
  method KeptPaths(folder: string, listing: seq<string>) returns (kept: seq<string>)
    ensures kept == Candidates(folder, listing)
  {
    kept := [];
    var i := 0;
    while i < |listing|
      invariant 0 <= i <= |listing|
      invariant kept == Candidates(folder, listing[..i])
    {
      CandidatesStep(folder, listing, i);
      if EndsWith(listing[i], Mp3Suffix) {
        kept := kept + [Join(folder, listing[i])];
      }
      i := i + 1;
    }
    assert listing[..i] == listing;
  }

  class MergerInstance {
    /** The paths, in the order they will be merged. */
    var files: seq<string>
    /** The selected row of the single-selection list box, if any. */
    var selection: Option<nat>

    ghost predicate Valid()
      reads this
    {
      selection.Some? ==> selection.value < |files|
    }

    /** The rows the list box shows: the base names of the files, in order. */
    function Rows(): (rows: seq<string>)
      reads this
      ensures |rows| == |files|
      ensures forall i :: 0 <= i < |files| ==> rows[i] == Basename(files[i])
    {
      Basenames(files)
    }

    constructor ()
      ensures Valid()
      ensures files == [] && selection == None
    {
      files := [];
      selection := None;
    }

    /** The user clicks a row of the list box. */
    method Select(row: nat)
      requires Valid() && row < |files|
      modifies this
      ensures Valid()
      ensures files == old(files) && selection == Some(row)
    {
      selection := Some(row);
    }

    /**
     * "Open folder": keep the listing's ".mp3" entries, joined with the
     * folder, then sort them by the key of their base names. The list box is
     * refilled, which clears its selection.
     */
    method LoadFolder(folder: string, listing: seq<string>)
      requires Valid()
      modifies this
      ensures Valid()
      ensures folder == "" ==> files == old(files) && selection == old(selection)
      ensures folder != "" ==> KeysComparable(PathKey, Candidates(folder, listing))
      ensures folder != "" ==> files == SortByKey(PathKey, Candidates(folder, listing)) && selection == None
      ensures folder != "" && NoSeparator(listing) ==> multiset(Rows()) == multiset(Mp3Names(listing))
    {
      if folder == "" {
        return;
      }
      var kept := KeptPaths(folder, listing);
      files := kept;
      // every key is a number, so the sort never compares an int with a str
      CandidatesComparable(folder, listing);
      files := SortByKey(PathKey, files);
      selection := None;
      // the list box shows the base names of the sorted paths: the ".mp3" entries
      if NoSeparator(listing) {
        LoadedRows(folder, listing);
      }
    }

    /** Shows the files again and selects the row newIndex. */
    method RefreshListbox(newIndex: nat)
      requires newIndex < |files|
      modifies this
      ensures Valid()
      ensures files == old(files) && selection == Some(newIndex)
    {
      selection := Some(newIndex);
    }

    /**
     * "Move up": with a row selected that is not the first, exchange it with
     * the row above and keep it selected; otherwise nothing happens.
     */
    method MoveUp()
      requires Valid()
      modifies this
      ensures Valid()
      ensures (files, selection) == MovedUp(old(files), old(selection))
    {
      if selection.None? {
        return;
      }
      var idx := selection.value;
      if idx == 0 {
        return;
      }
      files := Swap(files, idx - 1, idx);
      RefreshListbox(idx - 1);
    }

    /**
     * "Move down": with a row selected that is not the last, exchange it with
     * the row below and keep it selected; otherwise nothing happens.
     */
    method MoveDown()
      requires Valid()
      modifies this
      ensures Valid()
      ensures (files, selection) == MovedDown(old(files), old(selection))
    {
      if selection.None? {
        return;
      }
      var idx := selection.value;
      if idx == |files| - 1 {
        return;
      }
      files := Swap(files, idx + 1, idx);
      RefreshListbox(idx + 1);
    }

    /**
     * "Merge": warn and stop on an empty list, stop when the save dialog is
     * cancelled, otherwise run the merge of the current list into output.
     */
    method StartMerge(output: string, decode: string -> Decoded, exporter: (string, Segment) -> bool)
      returns (events: seq<Event>)
      ensures files == [] ==> events == [NoFilesWarning]
      ensures files != [] && output == "" ==> events == []
      ensures files != [] && output != "" ==> events == MergeEvents(files, output, decode, exporter)
    {
      if files == [] {
        events := [NoFilesWarning];
        return;
      }
      if output == "" {
        events := [];
        return;
      }
      events := MergeFiles(files, output, decode, exporter);
    }
  }

  /** A selection names a row of the list, if any. */
  predicate ValidSelection(files: seq<string>, selection: Option<nat>) {
    selection.Some? ==> selection.value < |files|
  }

  /** The list and selection after "move up". */
  function MovedUp(files: seq<string>, selection: Option<nat>): (r: (seq<string>, Option<nat>))
    requires ValidSelection(files, selection)
    ensures ValidSelection(r.0, r.1) && |r.0| == |files|
  {
    match selection
    case None => (files, selection)
    case Some(idx) => if idx == 0 then (files, selection) else (Swap(files, idx - 1, idx), Some(idx - 1))
  }

  /** The list and selection after "move down". */
  function MovedDown(files: seq<string>, selection: Option<nat>): (r: (seq<string>, Option<nat>))
    requires ValidSelection(files, selection)
    ensures ValidSelection(r.0, r.1) && |r.0| == |files|
  {
    match selection
    case None => (files, selection)
    case Some(idx) => if idx == |files| - 1 then (files, selection) else (Swap(files, idx + 1, idx), Some(idx + 1))
  }

  /**
   * "Move up" with row idx > 0 selected: the entries at idx - 1 and idx
   * trade places, nothing else moves, and idx - 1 is selected; with no
   * selection or the first row selected, nothing changes. Either way the
   * list keeps the same paths.
   */
  lemma MovedUpEffect(files: seq<string>, selection: Option<nat>)
    requires ValidSelection(files, selection)
    ensures var r := MovedUp(files, selection);
      && multiset(r.0) == multiset(files)
      && (selection.None? || selection.value == 0 ==> r == (files, selection))
      && (selection.Some? && selection.value > 0 ==>
        var idx := selection.value;
        && r.1 == Some(idx - 1)
        && r.0[idx - 1] == files[idx] && r.0[idx] == files[idx - 1]
        && forall k :: 0 <= k < |files| && k != idx - 1 && k != idx ==> r.0[k] == files[k])
  {
  }

  /**
   * "Move down" with row idx < N - 1 selected: the entries at idx and
   * idx + 1 trade places, nothing else moves, and idx + 1 is selected; with
   * no selection or the last row selected, nothing changes. Either way the
   * list keeps the same paths.
   */
  lemma MovedDownEffect(files: seq<string>, selection: Option<nat>)
    requires ValidSelection(files, selection)
    ensures var r := MovedDown(files, selection);
      && multiset(r.0) == multiset(files)
      && (selection.None? || selection.value == |files| - 1 ==> r == (files, selection))
      && (selection.Some? && selection.value < |files| - 1 ==>
        var idx := selection.value;
        && r.1 == Some(idx + 1)
        && r.0[idx] == files[idx + 1] && r.0[idx + 1] == files[idx]
        && forall k :: 0 <= k < |files| && k != idx && k != idx + 1 ==> r.0[k] == files[k])
  {
  }

  /** Row above + 1 selected: "move up" exchanges it with row above. */
  lemma MovedUpAt(files: seq<string>, above: nat)
    requires above + 1 < |files|
    ensures MovedUp(files, Some(above + 1)) == (Swap(files, above, above + 1), Some(above))
  {
  }

  /** Row above selected, not the last: "move down" exchanges it with row above + 1. */
  lemma MovedDownAt(files: seq<string>, above: nat)
    requires above + 1 < |files|
    ensures MovedDown(files, Some(above)) == (Swap(files, above + 1, above), Some((above + 1) as nat))
  {
  }

  /** Moving the selected entry up and then down again restores the list and the selection. */
  lemma UpThenDownRestores(files: seq<string>, selection: Option<nat>)
    requires ValidSelection(files, selection) && selection.Some? && selection.value > 0
    ensures var up := MovedUp(files, selection); MovedDown(up.0, up.1) == (files, selection)
  {
    var above := selection.value - 1;
    var mid := Swap(files, above, above + 1);
    MovedUpAt(files, above);
    MovedDownAt(mid, above);
    SwapSymmetric(mid, above + 1, above);
    SwapInvolutive(files, above, above + 1);
  }

  /** Moving the selected entry down and then up again restores the list and the selection. */
  lemma DownThenUpRestores(files: seq<string>, selection: Option<nat>)
    requires ValidSelection(files, selection) && selection.Some? && selection.value < |files| - 1
    ensures var down := MovedDown(files, selection); MovedUp(down.0, down.1) == (files, selection)
  {
    var above := selection.value;
    var mid := Swap(files, above + 1, above);
    MovedDownAt(files, above);
    MovedUpAt(mid, above);
    SwapSymmetric(mid, above, above + 1);
    SwapInvolutive(files, above + 1, above);
  }

  /** The two buttons in a row, on a window: the list and the selection are back where they were. */
  method MoveUpThenDown(w: MergerInstance)
    requires w.Valid() && w.selection.Some? && w.selection.value > 0
    modifies w
    ensures w.Valid()
    ensures w.files == old(w.files) && w.selection == old(w.selection)
  {
    UpThenDownRestores(w.files, w.selection);
    w.MoveUp();
    w.MoveDown();
  }
}

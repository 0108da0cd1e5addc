# MP3 merger: file ordering and merge control flow

This project models the core of `mp3_fueger.py`, a small desktop tool that
joins the MP3 files of a folder into one file. Each tool window holds an
ordered list of paths.

- **Open folder** fills the list with the folder's `.mp3` entries. It sorts
  them by a *natural sort key*: the number of the first run of digits in the
  name, or the lower-cased name when the name has no digit.
- **Move up** and **Move down** swap the selected entry with its neighbour.
- **Merge** decodes every file in list order, skipping files that fail,
  and reports progress after each file. It then exports the combined audio
  once, unless that audio is empty.

The model is split into five modules.

- `SortKey` (`sort_key.dfy`) is `numeric_sort_key` as a pure function. It
  also has Python's `<=` on the two kinds of key: `int` against `int`, and
  `str` against `str`, compared code point by code point.
- `StableSort` (`stable_sort.dfy`) is `list.sort(key=...)` as a stable
  insertion sort. It proves three things:
  - the result is in non-decreasing key order;
  - every key's ties keep their order;
  - those two facts determine the result (`StableSortUnique`). So
    insertion sort gives exactly what CPython's sort gives.
- `FileOrder` (`file_order.dfy`) covers the load:
  - the `.mp3` filter and the POSIX path join of the list comprehension;
  - the key taken on the base name;
  - the exchange of two entries.
- `Merge` (`merge.dfy`) is the worker `merge_files` as a method with a loop.
  The decoder and the exporter are function parameters. The method returns
  the log of what it posts to the user: progress values, diagnostics,
  messages, and the export call.
- `MergerApp` (`merger_app.dfy`) is the window as a class. `files` is the
  list and `selection` is the list box's single selected row. It has the
  load, move-up, move-down and start-merge methods.

A consequence of the code as written: every name that ends in `.mp3`
contains the digit `3`. So `numeric_sort_key` always returns a number for a
loaded file (`FileOrder.Mp3PathHasNumberKey`). This has three effects:

- The lower-cased fallback described in the docstring
  (`mp3_fueger.py:45-47`) never applies to a loaded file.
- The int-against-str `TypeError` that Python's sort would raise on mixed
  keys cannot happen during a load (`FileOrder.CandidatesComparable`).
- A name with no other digit, such as `intro.mp3` or `b.mp3`, gets key 3
  (`FileOrder.DigitFreeStemKey`). It sorts among the files numbered 3, in
  listing order, not alphabetically.

The model follows the code: a load never fails once a folder is chosen. The
list box therefore always shows the base names of `files`, and the model
derives its rows (`Rows`) instead of storing them.

## Model

| member | source | states |
|---|---|---|
| `SortKey.NumericSortKey` | mp3_fueger.py:44-52 | the key is a number exactly when the name contains a decimal digit; otherwise it is the lower-cased name |
| `SortKey.NumericSortKeySpec` | mp3_fueger.py:49-52 | a name with a digit has a leftmost maximal digit run, and its key is that run's decimal value; a name without a digit has its lower-cased name as key |
| `SortKey.LeftmostRunUnique` | mp3_fueger.py:49 | a name has at most one leftmost maximal run of digits, so the match of the regex search is determined |
| `SortKey.FirstDigit` | mp3_fueger.py:49 | the index returned is the first digit of the name, with no digit before it, or the length when there is none |
| `SortKey.RunEnd` | mp3_fueger.py:49 | the greedy run of digits from a start index ends at the first non-digit or at the end of the name |
| `SortKey.LeadingZeroIgnored` | mp3_fueger.py:51 | a leading zero does not change the integer value of a digit string, so "007" reads as 7 |
| `SortKey.DecimalValue` | mp3_fueger.py:51 | `int()` of a digit string is 0 exactly when every digit is '0' |
| `SortKey.Lower` | mp3_fueger.py:52 | the lower-cased name has the same length, and each character is the lower-cased character at the same position |
| `SortKey.LowerIsLower` | mp3_fueger.py:52 | the lower-cased name contains no upper-case letter, and lower-casing it again changes nothing |
| `SortKey.KeyLe` | mp3_fueger.py:99 | int keys compare by value, str keys by LexLe, and an int key never compares with a str key (Python raises) |
| `SortKey.KeyLeSameKind` | mp3_fueger.py:99 | two keys that compare are of the same kind |
| `SortKey.LexLe` | mp3_fueger.py:99 | the empty string is least; otherwise the first code points decide, and equal first code points defer to the rest |
| `SortKey.LexLeSpec` | mp3_fueger.py:99 | LexLe holds exactly when the first string is a prefix of the second or has the smaller code point at the first position where they differ |
| `SortKey.LexLeReflexive` | mp3_fueger.py:99 | every string key compares at most itself |
| `SortKey.LexLeTotal` | mp3_fueger.py:99 | any two string keys are ordered one way or the other |
| `SortKey.LexLeTransitive` | mp3_fueger.py:99 | string-key comparison is transitive |
| `SortKey.LexLeAntisymmetric` | mp3_fueger.py:99 | two string keys that each compare at most the other are equal |
| `SortKey.KeyLeReflexive` | mp3_fueger.py:99 | every key compares at most itself |
| `SortKey.KeyLeTotal` | mp3_fueger.py:99 | two keys of the same kind are ordered one way or the other |
| `SortKey.KeyLeTransitive` | mp3_fueger.py:99 | key comparison is transitive |
| `SortKey.KeyLeAntisymmetric` | mp3_fueger.py:99 | keys that compare equal both ways are the same key, so a tie in the sort is an equal key |
| `SortKey.KeyOfFirstRun` | mp3_fueger.py:49-51 | a name made of a digit-free stem, a run of digits, and a rest that does not continue the run has that run's decimal value as its key |
| `SortKey.Track2Key` | mp3_fueger.py:49-51 | "track2.mp3" has key 2 |
| `SortKey.Track10Key` | mp3_fueger.py:49-51 | "track10.mp3" has key 10 |
| `SortKey.NaturalOrderExample` | mp3_fueger.py:99 | "track2.mp3" sorts strictly before "track10.mp3" |
| `SortKey.LeadingZerosExample` | mp3_fueger.py:49-51 | "007.mp3" has key 7 |
| `SortKey.NameFallbackExample` | mp3_fueger.py:52 | a name without digits, "Cover.JPG", has the key "cover.jpg" |
| `FileOrder.Basename` | mp3_fueger.py:99 | the base name is everything after the last '/': it contains no separator, is a suffix of the path, and is either the whole path or preceded by a '/' |
| `FileOrder.Basenames` | mp3_fueger.py:101-102 | one base name per path, in order: the rows the list box is refilled with |
| `FileOrder.EndsWith` | mp3_fueger.py:97 | `str.endswith` holds exactly when the suffix fits and matches the string's last characters position by position |
| `FileOrder.Join` | mp3_fueger.py:97 | the joined path ends with the entry, and starts with the folder unless the entry is absolute |
| `FileOrder.BasenameOfJoin` | mp3_fueger.py:97-99 | the base name of a folder joined with an entry is that entry, so the sort key is taken on the directory entry itself |
| `FileOrder.JoinEndsWithName` | mp3_fueger.py:97 | a joined path ends with any suffix of the entry, in particular ".mp3" |
| `FileOrder.Mp3Names` | mp3_fueger.py:97 | the kept entries hold each entry ending in ".mp3" exactly as often as the listing does, and no other entry |
| `FileOrder.Candidates` | mp3_fueger.py:96-98 | the comprehension's paths are the kept ".mp3" entries, each joined with the folder, in listing order |
| `FileOrder.CandidatesStep` | mp3_fueger.py:96-98 | one more entry of the listing adds its joined path at the end exactly when it ends in ".mp3" |
| `FileOrder.CandidatesSpec` | mp3_fueger.py:96-98 | the base names of the list comprehension's paths are exactly the kept ".mp3" entries, in listing order |
| `FileOrder.BasenamesPermutation` | mp3_fueger.py:99-102 | reordering the paths only reorders their base names: the multiset of rows is unchanged by the sort |
| `FileOrder.PathKey` | mp3_fueger.py:99 | the key of a path is the key of its base name, so a path without a directory part has its own key |
| `FileOrder.CandidateIsMp3` | mp3_fueger.py:96-98 | every path of the list comprehension ends in ".mp3" |
| `FileOrder.Mp3PathHasNumberKey` | mp3_fueger.py:49-51 | the key of a path ending in ".mp3" is always a number, because its name contains the digit 3 |
| `FileOrder.DigitFreeStemKey` | mp3_fueger.py:49-52 | a name whose stem has no digit gets key 3 from its extension, not its lower-cased name |
| `FileOrder.DigitFreeNameExample` | mp3_fueger.py:49-52 | "intro.mp3" and "outro.mp3" both have key 3 |
| `FileOrder.CandidatesComparable` | mp3_fueger.py:96-99 | all keys of a load are numbers, so the sort never compares an int key with a str key and never raises |
| `FileOrder.LoadedOrder` | mp3_fueger.py:96-99 | after a load the list is a permutation of the ".mp3" paths, is in non-decreasing key order, keeps tied paths in listing order, and every key is a number |
| `FileOrder.LoadedRows` | mp3_fueger.py:96-102 | after the sort, the list box rows are exactly the ".mp3" entries of the listing, each as often as it occurs |
| `FileOrder.Swap` | mp3_fueger.py:112 | exchanging two positions swaps exactly those two entries, leaves every other entry, and keeps length and multiset |
| `FileOrder.SwapInvolutive` | mp3_fueger.py:112 | exchanging the same two positions twice restores the list |
| `FileOrder.SwapSymmetric` | mp3_fueger.py:123 | exchanging positions i and j is the same as exchanging j and i |
| `StableSort.Insert` | mp3_fueger.py:99 | inserting an entry adds exactly that entry to the list's multiset |
| `StableSort.SortByKey` | mp3_fueger.py:99 | defined only when all keys are of one kind, since Python raises TypeError on mixed int and str keys; the sorted list has the same length and multiset as the input |
| `StableSort.InsertSorted` | mp3_fueger.py:99 | inserting an entry of a comparable key into a sorted list keeps it sorted |
| `StableSort.SortByKeySorted` | mp3_fueger.py:99 | when all keys are of one kind, the sort's result is in non-decreasing key order |
| `StableSort.TiesAppend` | mp3_fueger.py:99 | the entries with a given key in a concatenation are those of the first part followed by those of the second |
| `StableSort.InsertTies` | mp3_fueger.py:99 | insertion puts the new entry after every entry that ties with it |
| `StableSort.SortByKeyStable` | mp3_fueger.py:99 | the sort is stable: for every key, the entries with that key appear in the same order as in the input |
| `StableSort.TiesMember` | mp3_fueger.py:99 | an entry among a key's ties is in the list and has that key |
| `StableSort.SortedTiesUnique` | mp3_fueger.py:99 | two sorted lists with the same ties for every key are equal |
| `StableSort.DropLastTies` | mp3_fueger.py:99 | two lists with the same ties whose last entries share a key end in the same entry and have the same ties before it |
| `StableSort.SortedHasMaxKey` | mp3_fueger.py:99 | in a sorted list, any key that occurs is at most the last entry's key |
| `StableSort.StableSortUnique` | mp3_fueger.py:99 | any sorted arrangement that keeps every key's ties in input order is the model's sort, so CPython's stable sort gives the same list |
| `Merge.Append` | mp3_fueger.py:155 | appending a segment adds its length to the combined length |
| `Merge.ConcatSnoc` | mp3_fueger.py:155 | appending one more decoded segment extends the combined audio by it |
| `Merge.MergeEvents` | mp3_fueger.py:145-174 | a merge log starts with the progress reset to N, holds at least N + 2 events, and never holds the "no files" warning |
| `Merge.DecodeEventsKinds` | mp3_fueger.py:152-158 | the decode loop posts at least one event per file and never the "no files" warning |
| `Merge.DecodeAll` | mp3_fueger.py:147-158 | the decode loop's combined audio is the in-order concatenation of the segments that decode, and it posts, for each file in turn, a diagnostic if the file fails and then its 1-based progress value |
| `Merge.MergeFiles` | mp3_fueger.py:145-174 | the worker posts exactly the merge log: the progress reset to N, then each file's diagnostic if it fails and its progress value, then either the "no valid files" error or the export start, the export call, and, if export succeeds, the stop and the success message |
| `Merge.UpTo` | mp3_fueger.py:152 | the enumeration values are 1, 2, …, n |
| `Merge.DecodeProgress` | mp3_fueger.py:152-158 | the decode loop posts progress 1..N in order, one diagnostic per failing file in list order, and no export call |
| `Merge.MergeProgress` | mp3_fueger.py:148-158 | a merge posts exactly N progress updates 1, 2, …, N in order, whether or not each file decodes |
| `Merge.MergeSkipped` | mp3_fueger.py:153-157 | a merge reports a diagnostic for exactly the files that fail to decode, in list order |
| `Merge.FinishHasNoProgress` | mp3_fueger.py:160-174 | after the loop there are no more progress values or diagnostics, and the exporter is called once with the output and the combined audio exactly when that audio is non-empty |
| `Merge.ConcatLength` | mp3_fueger.py:155-160 | the combined length is the sum of the decoded lengths, and it is 0 exactly when every decoded segment is empty |
| `Merge.MergeExport` | mp3_fueger.py:160-167 | the exporter is called exactly once, with the output path and the in-order concatenation of the decoded segments, when their total length is positive, and never otherwise |
| `Merge.MergeAbort` | mp3_fueger.py:160-164 | the log ends with the "no valid files" error exactly when the decoded segments have total length zero |
| `Merge.MergeSuccess` | mp3_fueger.py:166-174 | the success message naming the output ends the log exactly when the combined audio is non-empty and the export succeeds |
| `Merge.AllFailedAborts` | mp3_fueger.py:152-164 | when every file fails to decode, nothing decodes and the exporter is never called |
| `Merge.DecodedOrSkipped` | mp3_fueger.py:152-157 | every file either decodes or is skipped: the two counts add up to N |
| `MergerApp.MergerInstance.constructor` | mp3_fueger.py:58-64 | a new window has an empty list and no selected row |
| `MergerApp.MergerInstance.Rows` | mp3_fueger.py:100-102 | the list box shows one row per file, and row i is the base name of file i |
| `MergerApp.MergerInstance.Select` | mp3_fueger.py:64 | clicking a row selects that single row and leaves the list alone |
| `MergerApp.KeptPaths` | mp3_fueger.py:96-98 | the loop builds exactly the comprehension's list of joined ".mp3" paths |
| `MergerApp.MergerInstance.LoadFolder` | mp3_fueger.py:91-102 | a cancelled folder dialog changes nothing; otherwise the keys of the ".mp3" paths are all of one kind, the list becomes their stable key-sorted order, the refilled list box has no selection, and its rows are exactly the listing's ".mp3" entries, each as often as it occurs |
| `MergerApp.MergerInstance.RefreshListbox` | mp3_fueger.py:126-131 | the list box is redrawn from the list and exactly the given row is selected |
| `MergerApp.MergerInstance.MoveUp` | mp3_fueger.py:104-113 | the new list and selection are `MovedUp` of the old ones, and the selection still names a row |
| `MergerApp.MergerInstance.MoveDown` | mp3_fueger.py:115-124 | the new list and selection are `MovedDown` of the old ones, and the selection still names a row |
| `MergerApp.MovedUp` | mp3_fueger.py:104-113 | after "move up" the list keeps its length and the selection still names a row |
| `MergerApp.MovedDown` | mp3_fueger.py:115-124 | after "move down" the list keeps its length and the selection still names a row |
| `MergerApp.MovedUpEffect` | mp3_fueger.py:104-113 | with no selection or the first row selected, nothing changes; with row idx > 0 selected, the entries at idx-1 and idx trade places, every other entry stays, and idx-1 is selected; the multiset of paths is kept |
| `MergerApp.MovedDownEffect` | mp3_fueger.py:115-124 | with no selection or the last row selected, nothing changes; with row idx < N-1 selected, the entries at idx and idx+1 trade places, every other entry stays, and idx+1 is selected; the multiset of paths is kept |
| `MergerApp.MovedUpAt` | mp3_fueger.py:109-113 | with row i+1 selected, "move up" exchanges entries i and i+1 and selects row i |
| `MergerApp.MovedDownAt` | mp3_fueger.py:120-124 | with row i selected and not the last, "move down" exchanges entries i and i+1 and selects row i+1 |
| `MergerApp.UpThenDownRestores` | mp3_fueger.py:104-124 | "move up" followed by "move down" restores the list and the selection whenever a row other than the first is selected |
| `MergerApp.DownThenUpRestores` | mp3_fueger.py:104-124 | "move down" followed by "move up" restores the list and the selection whenever a row other than the last is selected |
| `MergerApp.MergerInstance.StartMerge` | mp3_fueger.py:133-143 | an empty list gives only the "no files" warning and never merges; a cancelled save dialog does nothing; otherwise the log is the merge of the current list into the chosen path |
| `MergerApp.MoveUpThenDown` | mp3_fueger.py:104-124 | pressing "move up" and then "move down" on a window restores its list and its selection |

## Left out

- `ensure_ffmpeg` (`mp3_fueger.py:17-41`) is not modelled. It looks up the
  ffmpeg tool on the PATH and may install it through a PowerShell/winget
  subprocess, which is external process I/O.
- `MainApp`, `open_new_instance` and the main block (`mp3_fueger.py:177-206`)
  are not modelled. They create windows and each window gets a fresh
  `MergerInstance`; no state is shared between windows.
- Widgets, dialogs and message boxes are not modelled:
  - the folder dialog, the directory listing and the save dialog become
    inputs; an empty string means the dialog was cancelled;
  - the progress bars and message boxes become `Merge.Event` values;
  - the diagnostic `print` becomes `Skipped(path, reason)`;
  - the list box's rows are derived from `files`.
- The list box can lose its selection through Tk's own selection handling
  (another widget taking the selection). This is not modelled; the
  selection changes only through the model's methods.
- `threading.Thread` and `root.after` are not modelled. The merge runs as
  one sequential call that returns its events in the order the worker posts
  them. Concurrency is left out:
  - the worker reads `self.files` while the user may still reorder it; the
    model merges the list as it is when the merge starts;
  - two merges started on the same window are not modelled.
- pydub is not modelled:
  - `AudioSegment.from_file` is a `decode` function that returns audio or a
    failure reason, and `export` is an `exporter` function that answers
    whether writing succeeded. An export exception is not caught in the
    source, so on failure the model's log ends after the export call.
  - A segment's length counts frames. pydub measures `len()` in rounded
    milliseconds, so audio shorter than half a millisecond would count as
    empty there.
  - The sample-rate and channel matching that `+=` performs is not modelled.
- `os.listdir` is a given sequence of entry names. Listing errors, and
  entries that are directories whose name ends in ".mp3", are not modelled;
  such an entry would only fail to decode.
- `os.path.join` and `os.path.basename` follow POSIX rules with '/' as the
  separator. Windows rules (backslash, drive letters) are not modelled.
- `SortKey.NumericSortKey`: `\d`, `int()` and `str.lower()` are modelled for
  ASCII only. In Python they also accept Unicode decimal digits and
  lower-case every Unicode letter.
- `StableSort.SortByKey`: a list whose keys mix numbers and strings is
  excluded by a precondition instead of being modelled as a `TypeError`
  result. The load never builds such a list.
- `MergerApp.MergerInstance.LoadFolder` has no error path for the mixed
  int/str `TypeError`. `FileOrder.CandidatesComparable` proves that every
  key of a load is a number, so the error cannot occur.

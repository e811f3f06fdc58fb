# Image → PDF converter: a Dafny model of the ordered image collection

The program is a small desktop tool (`PCM2.py`, class `ImageToPDF`). It loads
the images of a folder or a ZIP archive into an ordered list, lets the user
move the selected image up or down, and writes all images, in list order, into
one PDF named after the folder or archive. This project models the part of it
that is the program's own logic. The rest is handed to Qt, PIL, `zipfile` and
the operating system.

- `wrappers.dfy` (`Wrappers`): `Option` and `Result`.
- `paths.dfy` (`PathNames`):
  - the extension filter `IsImageName`: ASCII lower-casing, then a `.png`, `.jpg` or `.jpeg` suffix, compared from the end (`IsImageNameAsWritten` shows it is the lower-case-then-`endswith` test);
  - POSIX `os.path.basename`, `os.path.join` and `os.path.splitext`;
  - the output file name (`OutputName`).
- `listing.dfy` (`Listing`):
  - Python's string order (`LexLe`);
  - `sorted` on a list of names (`Sort`, an insertion sort);
  - the extension filter over a listing (`Filter`).
  It proves that sorting gives the one ascending arrangement of the entries, and that the filter keeps exactly the image entries, in order.
- `assembler.dfy` (`Assembler`):
  - pages, the document, conversion errors;
  - the 300 dpi default;
  - the output path `<cwd>/output_pdfs/<name>.pdf`;
  - the split of the page list into first page plus the rest.
- `controller.dfy` (`Controller`): the window's state as class `ImageToPdf`:
  - `paths`: the image paths (`image_paths`);
  - `names`: the list widget's display names;
  - `row`: the widget's current row, -1 when nothing is selected;
  - `sourceName`: the source's name (`source_name`);
  - `tempDir`: the extraction directory (`temp_dir`).

  Its invariant `Valid()` is the lock-step property: both lists have the same length, `names[i]` is the basename of `paths[i]`, `row` is -1 or a valid index, and the source name has no '/'. It also holds the loading loops (`CollectFolder`, `CollectArchive`) and the move-down finding below.

External inputs become parameters:
- a dialog's answer is a string, with `""` for a cancelled dialog;
- a folder listing (`os.listdir`) and an archive's member list (`namelist()`) are sequences;
- `z.extract(name, temp_dir)` is a function `extract`;
- opening an image (`Image.open` with its `mode` and `info["dpi"]`) is a function `probe`, which returns `None` when the image cannot be opened;
- the working directory is `cwd`;
- the quality spin box is an integer in 1..100.

## Model

| member | source | states |
|---|---|---|
| `PathNames.IsImageNameAsWritten` | PCM2.py:99 | The filter holds exactly when the ASCII-lower-cased name ends in ".png", ".jpg" or ".jpeg", the source's `f.lower().endswith(...)`. |
| `PathNames.ImageNameIgnoresCase` | PCM2.py:99 | The extension test ignores case: a name and its lower-cased form are kept or dropped alike. |
| `PathNames.IsImageName` | PCM2.py:99 | A kept name has at least four characters and ends in "g" or "G", the last letter of every accepted suffix. |
| `PathNames.BasenameIsLastComponent` | PCM2.py:94 | `basename` is the longest suffix of the path without a '/' and is preceded by a '/' when shorter than the path. |
| `PathNames.BasenameAfterLastSeparator` | PCM2.py:94 | `basename` is the text after the last '/' found by `rfind`, or the whole path when it has none. |
| `PathNames.BasenameHasNoSeparator` | PCM2.py:94 | A basename never contains a '/'. |
| `PathNames.BasenameOfJoin` | PCM2.py:100-102 | For an entry name without '/', the basename of `join(folder, f)` is `f`, so the display name and the path of a folder image agree. |
| `PathNames.JoinKeepsParts` | PCM2.py:100 | `join(a, b)` ends with `b`, and unless `b` is absolute it starts with `a`. |
| `PathNames.Splitext` | PCM2.py:178 | Root and extension concatenate back to the name; the extension is empty or one '.' followed by neither '.' nor '/'. |
| `PathNames.SplitextTakesExtension` | PCM2.py:178 | If the last path component has a '.' with a non-dot character before it in that component, `splitext` takes a non-empty extension that starts at or after that '.'. |
| `PathNames.SplitextLeadingDots` | PCM2.py:178 | A name whose last '.' has only dots before it (".bashrc") has no extension. |
| `PathNames.OutputName` | PCM2.py:178-179 | The output name ends in ".pdf" and the part before it is the source name's root, which is a prefix of the source name. |
| `PathNames.OutputNameSplitsBack` | PCM2.py:178-179 | For a plain file name that is not all dots, splitting the output name gives back the source's root and ".pdf". |
| `PathNames.OutputNameOfArchive` | PCM2.py:178-179 | "a.tar.zip" gives "a.tar.pdf": only the last extension is removed. |
| `PathNames.OutputNameOfHidden` | PCM2.py:178-179 | ".hidden" gives ".hidden.pdf": a leading dot does not start an extension. |
| `Listing.LexLe` | PCM2.py:98 | Python's string order puts a prefix no later than any extension of it; with `LexLeTotal`, `LexLeTransitive` and `LexLeAntisymmetric` it is a total order. |
| `Listing.LexLeTotal` | PCM2.py:98 | Any two strings compare one way or the other. |
| `Listing.LexLeTransitive` | PCM2.py:98 | The string order is transitive. |
| `Listing.LexLeAntisymmetric` | PCM2.py:98 | Two strings each no later than the other are equal. |
| `Listing.Insert` | PCM2.py:98 | Inserting a name adds exactly that name to the multiset of names. |
| `Listing.InsertSorted` | PCM2.py:98 | Inserting into an ascending sequence keeps it ascending. |
| `Listing.Sort` | PCM2.py:98 | The sorted listing is a permutation of the listing (same multiset of names). |
| `Listing.SortSorted` | PCM2.py:98 | The sorted listing is in ascending string order. |
| `Listing.SortKeepsEntries` | PCM2.py:98 | Sorting neither adds nor drops entries. |
| `Listing.SortedUnique` | PCM2.py:98 | Two ascending sequences with the same entries are equal, so the order is fully determined by the entries. |
| `Listing.SortIsTheSortedPermutation` | PCM2.py:98 | Every ascending permutation of a listing equals `Sort` of it, so `Sort` stands for `sorted` exactly. |
| `Listing.Filter` | PCM2.py:98-102 | The kept entries are never more than the listing's entries. |
| `Listing.FilterSnoc` | PCM2.py:99-102 | One more listing entry adds one kept entry at the end exactly when it is an image name. |
| `Listing.FilterStep` | PCM2.py:116-120 | One loop step over a listing keeps the entry at position i exactly when it is an image name, appending it after the kept entries so far. |
| `Listing.FilterKeepsOnlyListed` | PCM2.py:98-102 | Every kept entry is an entry of the listing and an image name. |
| `Listing.FilterAppend` | PCM2.py:116-120 | Filtering a concatenation filters each part, so kept entries keep their listing order. |
| `Listing.FilterKeepsExactlyImages` | PCM2.py:117 | Every image name occurs in the kept entries as often as in the listing, and no other name occurs there. |
| `Listing.FilterCount` | PCM2.py:98-102 | A listing whose entries are N image names and M other names, in any order, yields exactly N entries. |
| `Listing.FilterSorted` | PCM2.py:98-102 | Filtering an ascending listing leaves the kept entries ascending, so the folder's images appear in sorted order. |
| `Assembler.PageOf` | PCM2.py:169-173 | A page records its file, is converted exactly when the mode is not "RGB", and takes the image's dpi, or (300, 300) when there is none. |
| `Assembler.OutputPath` | PCM2.py:175-179 | The output path ends with the output name derived from the source name. For a source name without '/', it is exactly `join(cwd, "output_pdfs")`, then '/', then that name: the file goes into the fixed output directory. |
| `Assembler.OutputNameIsRelative` | PCM2.py:178-179 | For a source name without '/', the output name is non-empty and does not start with '/', so joining it keeps the output directory. |
| `Assembler.OutputPathNamedAfterSource` | PCM2.py:175-179 | The output file's basename is the output name, so a second conversion of the same source writes the same file. |
| `Assembler.Assemble` | PCM2.py:181-192 | The document's pages are the first page followed by the others, which together are the decoded pages in order. The resolution is the first page's horizontal dpi, and the quality is passed through. |
| `Controller.Swap` | PCM2.py:139-140 | A swap exchanges the two slots and keeps every other slot and the length (the multiset is stated by `SwapPermutes`). |
| `Controller.SwapPermutes` | PCM2.py:139-140 | Reordering by a swap keeps the multiset of images. |
| `Controller.SwapTwice` | PCM2.py:136-154 | Swapping the same two slots twice restores the sequence. |
| `Controller.SwapKeepsLockstep` | PCM2.py:139-143 | Swapping the same slots of the path list and the display list keeps them in lock-step. |
| `Controller.LockstepSnoc` | PCM2.py:119-120 | Appending a path to one list and its basename to the other keeps the lists in lock-step. |
| `Controller.LockstepNamesHaveNoSeparator` | PCM2.py:100-102 | While the lists are in lock-step, every display name is a single path component: the `Lockstep` predicate pairs each name with the basename of its path. |
| `Controller.JoinedEntriesLockstep` | PCM2.py:100-102 | Joining a folder with each kept entry gives paths whose basenames are those entries, so the two lists are in lock-step. |
| `Controller.CollectFolder` | PCM2.py:98-102 | The folder loop yields lists in lock-step: the names are the filtered sorted entries, and each path is `join(folder, name)`. |
| `Controller.CollectArchive` | PCM2.py:115-120 | The archive loop yields lists in lock-step: one path per kept member in archive order, the member's extracted path. |
| `Controller.ImageToPdf.Valid` | PCM2.py:21-23 | The window invariant gives lists of equal length and no selection when the collection is empty. |
| `Controller.ImageToPdf.constructor` | PCM2.py:21-23 | A new window has no images, no selection and the source name "output". |
| `Controller.ImageToPdf.Select` | PCM2.py:27 | The user selects one row or none. |
| `Controller.ImageToPdf.LoadFolder` | PCM2.py:89-102 | A cancelled dialog changes nothing. Otherwise the old collection is replaced by the filtered sorted entries, each joined to the folder. The names are in ascending order. The source name becomes the folder's basename, the selection is cleared, and lock-step holds. |
| `Controller.ImageToPdf.LoadZip` | PCM2.py:104-120 | A cancelled dialog changes nothing. Otherwise the old collection is replaced by the extracted paths of the image members in archive order, with their basenames as names. The source name becomes the archive's basename and the selection is cleared. |
| `Controller.ImageToPdf.MoveUp` | PCM2.py:136-144 | With row > 0, both lists swap slots row-1 and row and the selection follows; with row <= 0 nothing changes; lock-step holds. |
| `Controller.ImageToPdf.MoveDown` | PCM2.py:146-154 | With 0 <= row < len-1, both lists swap slots row and row+1 and the selection follows; otherwise nothing changes; lock-step holds. |
| `Controller.ImageToPdf.Clear` | PCM2.py:156-160 | Both lists become empty and nothing is selected. |
| `Controller.ImageToPdf.ConvertToPdf` | PCM2.py:162-192 | The "no images" error occurs exactly when the collection is empty. The first image that cannot be opened aborts the conversion with no document. Otherwise the document goes to `<cwd>/output_pdfs/<name>.pdf`, whose basename is the output name, page i is image i, the resolution is the first image's horizontal dpi, and the quality is the setting's. |
| `Controller.MoveUpThenDown` | PCM2.py:136-154 | Moving the selected image up and then down restores both lists and the selection. |
| `Controller.MoveDownAsWritten` | PCM2.py:146-154 | `move_down` as written still permutes each list on its own (same length, same multiset) and leaves the selection at -1 or a valid row; only the pairing of paths and names can break. |
| `Controller.MoveDownAsWrittenWithSelection` | PCM2.py:146-154 | With a row selected, `move_down` as written behaves like `ImageToPdf.MoveDown`. |
| `Controller.MoveDownAsWrittenBreaksLockstep` | PCM2.py:147-153 | With no selection, two or more images, and first and last basenames that differ, `move_down` as written selects row 0 and leaves the lists out of lock-step. |
| `Controller.MoveDownWithoutSelectionExample` | PCM2.py:147-153 | Two images `scans/a.png`, `scans/b.png`, no selection: the paths become `[b, a]`, the names stay `[a, b]`, and lock-step fails. |

## Left out

- The Qt user interface is not modelled: layout, styling, buttons, message boxes and file dialogs. A dialog is represented only by its answer string, and the list widget only by `names` and `row`.
- `update_preview` (PCM2.py:122-134) is not modelled. It decodes and scales one image for display, which is pixel work and keeps no state of the collection. Clearing the preview label on load and on clear is left out for the same reason.
- PIL decoding, RGB conversion and PDF encoding are not modelled. `probe` stands for opening an image, and `Page.recoded` only records whether a conversion happens. A document is its output path, ordered pages, resolution and quality, not encoded bytes. The dpi is a pair of reals, since PIL may report floats.
- Filesystem and process I/O are not modelled: `tempfile.mkdtemp`, `os.listdir`, the ZIP reading and extraction, `os.makedirs`, `os.getcwd`, and the viewer launch with its swallowed exception (PCM2.py:196-204). The temporary directory, listings, extraction and working directory are parameters. Exceptions these calls can raise, such as an unreadable folder or a corrupt archive, are not modelled.
- Controller.ImageToPdf.LoadZip: takes the extracted path of a member as the result of the given `extract` function, instead of recomputing how `zipfile` sanitises member names. Like `LoadFolder`, it builds the new lists in locals and assigns them at the end, where the source clears the fields first and appends in place. The only code that runs in between is `update_preview`, triggered by the widget's `clear()` through `currentItemChanged`; it returns at once at row -1 and changes no collection state.
- Controller.ImageToPdf.LoadFolder: requires that listing entries contain no '/', which `os.listdir` guarantees. The loop builds the new lists in locals and assigns them at the end, where the source clears the fields first and appends in place. The only code that runs in between is `update_preview`, which the widget's `clear()` triggers through `currentItemChanged`; it returns at once at row -1 and changes no collection state, so the observable result is the same.
- PathNames.IsImageName lower-cases ASCII letters only, not all of Unicode like Python's `str.lower`. No non-ASCII character lower-cases to '.', 'p', 'n', 'g', 'j' or 'e', so the decision is the same for every name.
- Paths use the POSIX separator '/'. Windows paths with '\\' and drive letters are not modelled.
- `sorted` is modelled by an insertion sort. `Listing.SortIsTheSortedPermutation` shows the result equals any ascending permutation, so it matches Python's sort.
- Controller.ImageToPdf.MoveDown is the corrected operation (see Findings). The as-written behaviour is `Controller.MoveDownAsWritten`.

## Findings

| source | as written | input that shows it | evidently intended | confidence | as-written member | corrected member |
|---|---|---|---|---|---|---|
| PCM2.py:147-154 | `move_down` guards only `row < len(image_paths) - 1`. With no selection (`row == -1`) on a list of two or more images, the tuple swap uses index -1 and exchanges the last and first paths. `takeItem(-1)` returns no item, so the widget's names do not move, and `setCurrentRow(0)` selects row 0. | paths `["scans/a.png", "scans/b.png"]`, names `["a.png", "b.png"]`, row -1, press Move Down right after loading | a no-op when nothing is selected (guard `0 <= row < len - 1`), as `move_up` does with its `row > 0` guard | medium (not executed; assumes PySide accepts `insertItem(0, None)`, and the paths diverge from the names even if it raises) | `Controller.MoveDownAsWrittenBreaksLockstep` | `Controller.ImageToPdf.MoveDown` |

# Folder splitter: a verified model of next-fit image packing

`create_folder_structure` in `splitFolder.py` walks a directory listing once.
It copies every regular file whose name ends in `.png` into numbered
destination folders `Folder_1`, `Folder_2`, and so on. `Folder_1` is created
before the walk starts. A file goes into the current folder unless its size,
added to the bytes already copied there, would exceed `max_folder_size`. In
that case the next folder is opened first and the file goes into it. The
function keeps a running total of the bytes copied. At the end it prints the
folder counter and that total.

This project models that loop with the filesystem abstracted away:

- The listing is a sequence of `Listing.Entry(name, size, isFile)` records, in
  the order the listing produced them.
- Copying a file is recorded as the folder number it was copied into.
- `max_folder_size` is a parameter.

| file | module | contents |
|---|---|---|
| `listing.dfy` | `Listing` | entries, Python's `str.endswith`, the `.png` filter, byte sums |
| `packing.dfy` | `Packing` | a next-fit numbering described from the outside (`NextFitPlacement`), independent of the loop, and its uniqueness |
| `next_fit.dfy` | `NextFit` | the loop's variables as a `State`, one step per entry (`Place`, `Step`), the state after a prefix of the listing (`Run`), and the count of overflow events |
| `next_fit_properties.dfy` | `NextFitProperties` | what the loop guarantees: totals, counters, the next-fit rule, the cap, oversized files |
| `split_folder.dfy` | `SplitFolder` | `CreateFolderStructure`, the imperative loop with invariants tying it to `Run`; the report line; a worked example |

The central result is `NextFitProperties.RunIsNextFit`. The folder numbers
the loop hands out are exactly the numbering that meets two conditions:

- It starts at folder 1 and steps by 0 or 1 from one copied file to the next.
- A file opens a new folder exactly when its size, added to the bytes the
  previous folder already holds, exceeds the cap.

`Packing.NextFitUnique` shows that these two conditions fix the numbering
completely.

A reader might expect that no destination folder ever exceeds the byte
threshold. The code does not guarantee that. A single file larger than the
threshold is still copied, alone, into a fresh folder that then exceeds it.
The model follows the code: `CapRespected` bounds only the folders that hold
two or more files, and `OversizedFileAlone` describes the oversized case.

## Model

| member | source | states |
|---|---|---|
| Listing.EndsWith | splitFolder.py:14 | no contract: the body transcribes Python's suffix test on the file name, true when the name's last characters equal the suffix |
| Listing.IsPng | splitFolder.py:14 | no contract: the body transcribes the test on line 14, which accepts a regular file whose name ends in `.png` |
| Listing.Select | splitFolder.py:12-14 | no contract: the body transcribes the walk over the listing, keeping the entries the test on line 14 accepts, in listing order |
| Listing.SelectConcat | splitFolder.py:12-14 | selection keeps listing order: selecting from two consecutive parts of a listing gives the two selections joined in order |
| Listing.SelectSpec | splitFolder.py:12-14 | an entry is selected exactly when it is in the listing, is a regular file and its name ends in `.png`; the selection is no longer than the listing |
| Listing.EndsWithIsSuffix | splitFolder.py:14 | the suffix test holds exactly when the name is some string followed by `.png` |
| Listing.PngSelectionExamples | splitFolder.py:14 | the filter is case-sensitive (`SCAN.PNG` is skipped), skips non-files, and needs the literal `.png` at the very end |
| NextFit.Place | splitFolder.py:15-25 | no contract: the body transcribes the copy of one selected file, which adds its size to `total_size` and, when `current_folder_size + file_size > max_folder_size`, opens folder `folder_count + 1` and resets `current_folder_size`, then records the file in the current folder and adds its size there |
| NextFit.Step | splitFolder.py:13-25 | no contract: the body transcribes one loop iteration, which copies the entry with `Place` when it passes the test on line 14 and otherwise leaves every counter unchanged |
| NextFit.Run | splitFolder.py:5-25 | no contract: the body transcribes the loop from its initial state (`folder_count = 1`, both sizes 0, nothing copied) over the listing in order |
| NextFit.Overflows | splitFolder.py:18-19 | no contract: the body counts the iterations in which the test on line 18 holds for a selected file |
| NextFitProperties.EntryEffect | splitFolder.py:14-25 | a non-`.png` or non-file entry changes no counter and gets no folder; a selected file gets exactly one folder number, the current folder after the overflow test, and adds its size to the total |
| NextFitProperties.RunTotals | splitFolder.py:5-16 | whatever the cap, `folder_count >= 1`, every selected file gets one folder number, and `total_size` is the sum of the sizes of the selected files |
| NextFitProperties.PlaceKeepsCounters | splitFolder.py:15-25 | one copy keeps the numbering valid, keeps `folder_count` equal to the last folder used, and keeps `current_folder_size` equal to the bytes in the current folder |
| NextFitProperties.RunCounters | splitFolder.py:6-25 | after any prefix of the listing, folder numbers start at 1 and grow by 0 or 1 per file, `folder_count` is the last folder (1 if nothing was copied), and `current_folder_size` is the bytes copied into that folder since it was opened |
| NextFitProperties.PlaceFollowsNextFit | splitFolder.py:18-25 | one copy places its file by the next-fit rule |
| NextFitProperties.RunFollowsNextFit | splitFolder.py:18-25 | every file the loop places opens a new folder exactly when its size plus the bytes already in the previous folder exceed `max_folder_size` |
| NextFitProperties.RunIsNextFit | splitFolder.py:18-25 | a folder numbering follows the next-fit rule for the selected files if and only if it is the numbering the loop produces |
| Packing.NextFitUnique | splitFolder.py:18-24 | for given file sizes and cap at most one numbering follows the next-fit rule |
| Packing.Monotone | splitFolder.py:18-24 | in a valid numbering, folder numbers never decrease along the copy order |
| Packing.NumberingBounds | splitFolder.py:6-24 | in a valid numbering every file is in a folder from 1 to the last folder opened |
| NextFitProperties.FolderCountCountsOverflows | splitFolder.py:18-19 | the final `folder_count` is one plus the number of times `current_folder_size + file_size > max_folder_size` held |
| NextFitProperties.CapRespected | splitFolder.py:18-25 | every folder holding two or more files holds at most `max_folder_size` bytes |
| NextFitProperties.OversizedFileAlone | splitFolder.py:18-25 | a file larger than the cap always opens a fresh folder and is the only file in it |
| NextFitProperties.OversizedFirstFile | splitFolder.py:6-21 | if the first selected file is larger than the cap, it goes to `Folder_2`, `Folder_1` stays empty, and `folder_count >= 2` |
| NextFitProperties.RunSummary | splitFolder.py:4-28 | the totals, the counter and overflow relations, the next-fit rule and the cap bound, all for one complete run |
| SplitFolder.CreateFolderStructure | splitFolder.py:4-28 | the loop returns `total_size` equal to the selected files' bytes, one folder number per selected file following the next-fit rule, `folder_count` equal to the last folder and to one plus the overflow events, and no multi-file folder over the cap |
| SplitFolder.ReportedFilesCopied | splitFolder.py:27 | no contract: the body transcribes the value printed after "Total files copied:", which is `folder_count` |
| SplitFolder.FilesCopied | splitFolder.py:27 | the number of files copied is the number of selected entries |
| SplitFolder.FilesCopiedLabelMismatch | splitFolder.py:27 | two 1-byte `.png` files under a cap of 10 share `Folder_1`; the count reported as "Total files copied" is 1, but 2 files were copied |
| SplitFolder.ThreeImagesExample | splitFolder.py:18-25 | three 200 MiB `.png` files under a 500 MiB cap go to folders 1, 1, 2: two folders and 600 MiB in all |

## Findings

| source | as written | input that shows it | evidently intended | confidence | as-written member | corrected member |
|---|---|---|---|---|---|---|
| splitFolder.py:27 | prints `folder_count` after the label "Total files copied" | two `.png` files of 1 byte each, cap 10 bytes: both are copied into `Folder_1`, and the line reads 1 | the line labelled as a file count reports the number of files copied (2) | medium; the label may instead be the mistake; not executed | SplitFolder.ReportedFilesCopied, SplitFolder.FilesCopiedLabelMismatch | SplitFolder.FilesCopied |

`CreateFolderStructure` returns both numbers. `folderCount` is the value the
code prints. `filesCopied` is the count the label announces.

## Left out

- Filesystem effects are not modelled: `os.listdir`, `os.path.isfile`, `os.path.getsize`, `os.makedirs` and `shutil.copy`. The listing is an input sequence, a file's regular-file status and size are fields of its entry, and a copy is recorded as a folder number.
- Listing order is not modelled: `os.listdir` gives no particular order, so the order is part of the input.
- Destination folders that already exist are assumed to be empty. `os.makedirs(..., exist_ok=True)` reuses a folder without looking inside, and the code never counts files that were already there.
- Path joining and the `Folder_{n}` names are not modelled: a folder is its number `n`.
- Console output is left out. So is the floating-point conversion of the total to megabytes (splitFolder.py:28). The model returns the integer counters themselves.
- The hard-coded source and destination paths, the 500 MB constant and the module-level call (splitFolder.py:30-35) are left out. The cap is a parameter.
- The module's first line (splitFolder.py:1) is indented. Python's grammar rejects this as an unexpected indent, so the file as committed would not load. The model describes the function as it is evidently meant to run.
- `02. Manga File Names/bulk_download.py`, the chapter downloader, is a separate tool and is not part of this model.

/**
 `create_folder_structure`: copy every ".png" regular file of a listing into
 `Folder_1`, `Folder_2`, ... opening the next folder whenever the next file
 would push the current folder past `max_folder_size` bytes, and report the
 number of folders and the total number of bytes copied.
 */
module SplitFolder {
  import opened Listing
  import opened Packing
  import opened NextFit
  import opened NextFitProperties

  const MiB: nat := 1024 * 1024

  /** The loop over the listing. `folders[j]` is the folder the `j`-th copied
      file went to; `folderCount` is the last folder opened (the number printed
      at the end), `totalSize` the bytes copied, `filesCopied` the files copied. */
  method CreateFolderStructure(entries: seq<Entry>, maxFolderSize: nat)
    returns (folders: seq<nat>, folderCount: nat, totalSize: nat, filesCopied: nat)
    ensures totalSize == Sum(Sizes(Select(entries)))
    ensures filesCopied == |folders| == |Select(entries)| == FilesCopied(entries, maxFolderSize)
    ensures folderCount >= 1 && folderCount == Final(folders)
    ensures folderCount == 1 + Overflows(entries, maxFolderSize)
    ensures NextFitPlacement(Sizes(Select(entries)), folders, maxFolderSize)
    ensures forall k :: Members(folders, k) >= 2 ==> Load(Sizes(Select(entries)), folders, k) <= maxFolderSize
  {
    folders, folderCount, totalSize := [], 1, 0;
    var currentFolderSize: nat := 0;
    var i := 0;
    while i < |entries|
      invariant 0 <= i <= |entries|
      invariant Run(entries[..i], maxFolderSize) == State(folderCount, currentFolderSize, totalSize, folders)
    {
      var e := entries[i];
      ghost var before := State(folderCount, currentFolderSize, totalSize, folders);
      RunPrefixStep(entries, i, maxFolderSize);
      if IsPng(e) {
        totalSize := totalSize + e.size;
        if currentFolderSize + e.size > maxFolderSize {
          folderCount := folderCount + 1;
          currentFolderSize := 0;
        }
        folders := folders + [folderCount];
        currentFolderSize := currentFolderSize + e.size;
        assert State(folderCount, currentFolderSize, totalSize, folders) == Place(before, e.size, maxFolderSize);
      }
      i := i + 1;
    }
    assert entries[..i] == entries;
    filesCopied := |folders|;
    RunSummary(entries, maxFolderSize);
  }

  /** The number printed after "Total files copied:", as the code computes it:
      the folder counter. */
  function ReportedFilesCopied(entries: seq<Entry>, max: nat): (n: nat)
  {
    Run(entries, max).folderCount
  }

  /** The number of files copied, which is what the label announces. */
  function FilesCopied(entries: seq<Entry>, max: nat): (n: nat)
    ensures n == |Select(entries)|
  {
    RunTotals(entries, max);
    |Run(entries, max).folders|
  }

  /** Two small ".png" files under a roomy cap share `Folder_1`: two files are
      copied, yet "Total files copied" would show 1. */
  lemma FilesCopiedLabelMismatch()
    ensures ReportedFilesCopied([Entry("a.png", 1, true), Entry("b.png", 1, true)], 10) == 1
    ensures FilesCopied([Entry("a.png", 1, true), Entry("b.png", 1, true)], 10) == 2
  {
    var a, b := Entry("a.png", 1, true), Entry("b.png", 1, true);
    assert IsPng(a) && IsPng(b) by { assert "a.png"[1..] == PngSuffix; assert "b.png"[1..] == PngSuffix; }
    EntryEffect([], a, 10);
    EntryEffect([a], b, 10);
    assert [a] + [b] == [a, b];
    assert [] + [a] == [a];
  }

  /** Three 200 MiB images under a 500 MiB cap: the first two share
      `Folder_1`, the third opens `Folder_2`; 600 MiB are copied in all. */
  lemma ThreeImagesExample(a: Entry, b: Entry, c: Entry)
    requires IsPng(a) && IsPng(b) && IsPng(c)
    requires a.size == b.size == c.size == 200 * MiB
    ensures Run([a, b, c], 500 * MiB) == State(2, 200 * MiB, 600 * MiB, [1, 1, 2])
  {
    var size, cap := 200 * MiB, 500 * MiB;
    assert size == 209715200 && cap == 524288000;
    RunAppend([], a, cap);
    assert [] + [a] == [a];
    assert Run([a], cap) == State(1, size, size, [1]);
    RunAppend([a], b, cap);
    assert [a] + [b] == [a, b];
    assert Run([a, b], cap) == State(1, 2 * size, 2 * size, [1, 1]);
    RunAppend([a, b], c, cap);
    assert [a, b] + [c] == [a, b, c];
  }
}

/**
 What the folder splitter's loop guarantees once it has processed a listing:
 how its counters relate, which folder numbers it hands out, and how full
 each folder ends up.
 */
module NextFitProperties {
  import opened Listing
  import opened Packing
  import opened NextFit

  /** Processing one more entry is one more loop step. */
  lemma RunAppend(entries: seq<Entry>, e: Entry, max: nat)
    ensures Run(entries + [e], max) == Step(Run(entries, max), e, max)
  {
  }

  /** Processing the listing up to and including entry `i` is one more loop step. */
  lemma RunPrefixStep(entries: seq<Entry>, i: nat, max: nat)
    requires i < |entries|
    ensures Run(entries[..i + 1], max) == Step(Run(entries[..i], max), entries[i], max)
  {
    assert entries[..i + 1] == entries[..i] + [entries[i]];
    RunAppend(entries[..i], entries[i], max);
  }

  /** An entry that is not a ".png" regular file changes no counter and gets
      no folder; a ".png" regular file gets exactly one folder number, and its
      bytes are added to the total. */
  lemma EntryEffect(entries: seq<Entry>, e: Entry, max: nat)
    ensures !IsPng(e) ==> Run(entries + [e], max) == Run(entries, max)
    ensures IsPng(e) ==>
      && Run(entries + [e], max).folders == Run(entries, max).folders + [Run(entries + [e], max).folderCount]
      && Run(entries + [e], max).totalSize == Run(entries, max).totalSize + e.size
  {
  }

  /** Whatever the cap, the loop ends with a current folder, one folder number
      per copied file, and a total of exactly the copied files' bytes. */
  lemma {:induction false} RunTotals(entries: seq<Entry>, max: nat)
    ensures Run(entries, max).folderCount >= 1
    ensures |Run(entries, max).folders| == |Select(entries)|
    ensures Run(entries, max).totalSize == Sum(Sizes(Select(entries)))
  {
    if |entries| > 0 {
      var init, last := entries[..|entries| - 1], entries[|entries| - 1];
      assert entries == init + [last];
      RunTotals(init, max);
      SelectAppend(init, last);
      if IsPng(last) {
        SizesAppend(Select(init), last);
        SumAppend(Sizes(Select(init)), last.size);
      } else {
        assert Select(entries) == Select(init);
      }
    }
  }

  /** The loop's counters agree with the files copied so far (of sizes
      `sizes`): the folder numbers form a valid numbering whose last folder is
      `folder_count`, and `current_folder_size` is exactly the bytes already
      in that folder. */
  predicate CountersAgree(s: State, sizes: seq<nat>)
  {
    && |sizes| == |s.folders|
    && ValidNumbering(s.folders)
    && s.folderCount == Final(s.folders)
    && s.currentSize == Load(sizes, s.folders, s.folderCount)
  }

  /** Copying one file keeps the counters in agreement with the copied files. */
  lemma PlaceKeepsCounters(s: State, sizes: seq<nat>, size: nat, max: nat)
    requires CountersAgree(s, sizes)
    ensures CountersAgree(Place(s, size, max), sizes + [size])
  {
    var r := Place(s, size, max);
    ValidNumberingAppend(s.folders, r.folderCount);
    LoadAppend(sizes, s.folders, size, r.folderCount, r.folderCount);
    if r.folderCount == s.folderCount + 1 {
      NumberingBounds(s.folders);
      AbsentFolder(sizes, s.folders, r.folderCount);
    }
  }

  /** After any prefix of the listing the counters agree with the files copied. */
  lemma {:induction false} RunCounters(entries: seq<Entry>, max: nat)
    ensures CountersAgree(Run(entries, max), Sizes(Select(entries)))
  {
    if |entries| > 0 {
      var init, last := entries[..|entries| - 1], entries[|entries| - 1];
      assert entries == init + [last];
      RunCounters(init, max);
      RunAppend(init, last, max);
      SelectAppend(init, last);
      if IsPng(last) {
        SizesAppend(Select(init), last);
        PlaceKeepsCounters(Run(init, max), Sizes(Select(init)), last.size, max);
      } else {
        assert Select(entries) == Select(init);
      }
    }
  }

  /** Copying one file places it by the next-fit rule. */
  lemma PlaceFollowsNextFit(s: State, sizes: seq<nat>, size: nat, max: nat)
    requires CountersAgree(s, sizes)
    requires NextFitPlacement(sizes, s.folders, max)
    ensures NextFitPlacement(sizes + [size], Place(s, size, max).folders, max)
  {
    var f := Place(s, size, max).folderCount;
    assert s.folderCount == Final(s.folders);
    assert s.currentSize == Load(sizes, s.folders, Final(s.folders));
    assert f == Final(s.folders) + 1 <==> s.currentSize + size > max;
    NextFitPlacementAppend(sizes, s.folders, max, size, f);
  }

  /** The numbering the loop produces follows the next-fit rule. */
  lemma {:induction false} RunFollowsNextFit(entries: seq<Entry>, max: nat)
    ensures NextFitPlacement(Sizes(Select(entries)), Run(entries, max).folders, max)
  {
    if |entries| == 0 {
    } else {
      var init, last := entries[..|entries| - 1], entries[|entries| - 1];
      assert entries == init + [last];
      RunFollowsNextFit(init, max);
      RunCounters(init, max);
      RunAppend(init, last, max);
      SelectAppend(init, last);
      if IsPng(last) {
        SizesAppend(Select(init), last);
        PlaceFollowsNextFit(Run(init, max), Sizes(Select(init)), last.size, max);
      } else {
        assert Select(entries) == Select(init);
      }
    }
  }

  /** The loop's folder numbers are THE next-fit packing of the copied files:
      a numbering follows the next-fit rule exactly when it is the one the
      loop produces. */
  lemma RunIsNextFit(entries: seq<Entry>, max: nat, folders: seq<nat>)
    ensures NextFitPlacement(Sizes(Select(entries)), folders, max) <==> folders == Run(entries, max).folders
  {
    RunFollowsNextFit(entries, max);
    if NextFitPlacement(Sizes(Select(entries)), folders, max) {
      NextFitUnique(Sizes(Select(entries)), folders, Run(entries, max).folders, max);
    }
  }

  /** `folder_count` is one plus the number of times the overflow test fired. */
  lemma {:induction false} FolderCountCountsOverflows(entries: seq<Entry>, max: nat)
    ensures Run(entries, max).folderCount == 1 + Overflows(entries, max)
  {
    if |entries| > 0 {
      var init, last := entries[..|entries| - 1], entries[|entries| - 1];
      assert entries == init + [last];
      FolderCountCountsOverflows(init, max);
      RunAppend(init, last, max);
    }
  }

  /** A folder that holds two or more files holds at most `max` bytes: only a
      folder with a single file can exceed the cap. */
  lemma {:induction false} CapRespected(entries: seq<Entry>, max: nat)
    ensures |Run(entries, max).folders| == |Select(entries)|
    ensures forall k :: Members(Run(entries, max).folders, k) >= 2 ==>
              Load(Sizes(Select(entries)), Run(entries, max).folders, k) <= max
  {
    if |entries| > 0 {
      var init, last := entries[..|entries| - 1], entries[|entries| - 1];
      assert entries == init + [last];
      CapRespected(init, max);
      RunCounters(init, max);
      RunAppend(init, last, max);
      SelectAppend(init, last);
      if IsPng(last) {
        var r0, r := Run(init, max), Run(entries, max);
        var s0 := Sizes(Select(init));
        SizesAppend(Select(init), last);
        NumberingBounds(r0.folders);
        forall k | Members(r.folders, k) >= 2
          ensures Load(Sizes(Select(entries)), r.folders, k) <= max
        {
          MembersAppend(r0.folders, r.folderCount, k);
          LoadAppend(s0, r0.folders, last.size, r.folderCount, k);
          if k == r.folderCount && k == r0.folderCount + 1 {
            AbsentFolder(s0, r0.folders, k);
          }
        }
      } else {
        assert Select(entries) == Select(init);
      }
    }
  }

  /** A file larger than the cap always opens a fresh folder and stays alone in it. */
  lemma OversizedFileAlone(entries: seq<Entry>, max: nat, i: nat)
    requires i < |Select(entries)|
    requires Select(entries)[i].size > max
    ensures i < |Run(entries, max).folders|
    ensures Run(entries, max).folders[i] == Prev(Run(entries, max).folders, i) + 1
    ensures Members(Run(entries, max).folders, Run(entries, max).folders[i]) == 1
  {
    var sizes, folders := Sizes(Select(entries)), Run(entries, max).folders;
    RunFollowsNextFit(entries, max);
    PlacementAt(sizes, folders, max, i);
    CapRespected(entries, max);
    FolderHoldsItsFile(sizes, folders, i);
  }

  /** If the first copied file is larger than the cap, `Folder_1` stays empty
      and that file goes to `Folder_2`. */
  lemma OversizedFirstFile(entries: seq<Entry>, max: nat)
    requires |Select(entries)| > 0
    requires Select(entries)[0].size > max
    ensures |Run(entries, max).folders| > 0
    ensures Run(entries, max).folders[0] == 2
    ensures Members(Run(entries, max).folders, 1) == 0
    ensures Run(entries, max).folderCount >= 2
  {
    var folders := Run(entries, max).folders;
    OversizedFileAlone(entries, max, 0);
    RunCounters(entries, max);
    forall j | 0 <= j < |folders|
      ensures folders[j] != 1
    {
      Monotone(folders, 0, j);
    }
    AbsentFolder(Sizes(Select(entries)), folders, 1);
    Monotone(folders, 0, |folders| - 1);
  }

  /** Everything the loop promises about its outputs once the whole listing is processed. */
  lemma RunSummary(entries: seq<Entry>, max: nat)
    ensures Run(entries, max).folderCount >= 1
    ensures |Run(entries, max).folders| == |Select(entries)|
    ensures Run(entries, max).totalSize == Sum(Sizes(Select(entries)))
    ensures Final(Run(entries, max).folders) == Run(entries, max).folderCount
    ensures Run(entries, max).folderCount == 1 + Overflows(entries, max)
    ensures NextFitPlacement(Sizes(Select(entries)), Run(entries, max).folders, max)
    ensures forall k :: Members(Run(entries, max).folders, k) >= 2 ==>
              Load(Sizes(Select(entries)), Run(entries, max).folders, k) <= max
  {
    RunTotals(entries, max);
    RunCounters(entries, max);
    RunFollowsNextFit(entries, max);
    FolderCountCountsOverflows(entries, max);
    CapRespected(entries, max);
  }
}

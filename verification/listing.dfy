/**
 The directory listing that the folder splitter walks, with the filesystem
 abstracted away: each entry is a name, a size in bytes and whether it is a
 regular file, given in the order the listing produced them.
 */
module Listing {

  datatype Entry = Entry(name: string, size: nat, isFile: bool)

  /** The only suffix the splitter copies; the comparison is case-sensitive. */
  const PngSuffix: string := ".png"

  /** `s` ends with `suffix`, as Python's `str.endswith` decides it. */
  predicate EndsWith(s: string, suffix: string)
  {
    |suffix| <= |s| && s[|s| - |suffix|..] == suffix
  }

  /** An entry the splitter copies: a regular file whose name ends in ".png". */
  predicate IsPng(e: Entry)
  {
    e.isFile && EndsWith(e.name, PngSuffix)
  }

  /** The entries the splitter copies, in listing order. */
  function Select(entries: seq<Entry>): (r: seq<Entry>)
  {
    if |entries| == 0 then []
    else
      var init, last := entries[..|entries| - 1], entries[|entries| - 1];
      Select(init) + (if IsPng(last) then [last] else [])
  }

  /** The sizes of `files`, position by position. */
  function Sizes(files: seq<Entry>): (r: seq<nat>)
    ensures |r| == |files|
    ensures forall i :: 0 <= i < |files| ==> r[i] == files[i].size
  {
    seq(|files|, i requires 0 <= i < |files| => files[i].size)
  }

  function Sum(xs: seq<nat>): (r: nat)
  {
    if |xs| == 0 then 0 else Sum(xs[..|xs| - 1]) + xs[|xs| - 1]
  }

  lemma SumAppend(xs: seq<nat>, x: nat)
    ensures Sum(xs + [x]) == Sum(xs) + x
  {
  }

  lemma SizesAppend(files: seq<Entry>, e: Entry)
    ensures Sizes(files + [e]) == Sizes(files) + [e.size]
  {
  }

  /** Selecting from a listing extended by one entry adds that entry exactly when it is copied. */
  lemma SelectAppend(entries: seq<Entry>, e: Entry)
    ensures Select(entries + [e]) == Select(entries) + (if IsPng(e) then [e] else [])
  {
  }

  /** Selection keeps listing order: selecting from two consecutive parts of a
      listing is selecting from each part and joining the results in order. */
  lemma {:induction false} SelectConcat(a: seq<Entry>, b: seq<Entry>)
    ensures Select(a + b) == Select(a) + Select(b)
    decreases |b|
  {
    if |b| > 0 {
      var init, last := b[..|b| - 1], b[|b| - 1];
      assert b == init + [last];
      assert a + b == (a + init) + [last];
      SelectConcat(a, init);
      SelectAppend(a + init, last);
      SelectAppend(init, last);
    } else {
      assert a + b == a;
    }
  }

  /** Exactly the ".png" regular files of the listing are selected, and no
      more of them than the listing holds. */
  lemma {:induction false} SelectSpec(entries: seq<Entry>)
    ensures |Select(entries)| <= |entries|
    ensures forall e :: e in Select(entries) <==> e in entries && IsPng(e)
  {
    if |entries| > 0 {
      var init, last := entries[..|entries| - 1], entries[|entries| - 1];
      assert entries == init + [last];
      SelectSpec(init);
    }
  }

  /** `EndsWith` is the suffix relation: `s` is some string followed by `suffix`. */
  lemma {:induction false} EndsWithIsSuffix(s: string, suffix: string)
    ensures EndsWith(s, suffix) <==> exists p: string :: s == p + suffix
  {
    if EndsWith(s, suffix) {
      var p := s[..|s| - |suffix|];
      assert s == p + suffix;
    }
    if exists p: string :: s == p + suffix {
      var p: string :| s == p + suffix;
      assert s[|p|..] == suffix;
    }
  }

  /** The filter is case-sensitive, skips directories, and needs the dot. */
  lemma PngSelectionExamples()
    ensures IsPng(Entry("scan.png", 10, true))
    ensures !IsPng(Entry("SCAN.PNG", 10, true))
    ensures !IsPng(Entry("scan.png", 10, false))
    ensures !IsPng(Entry("scanpng", 10, true))
    ensures !IsPng(Entry("scan.png.txt", 10, true))
  {
  }
}

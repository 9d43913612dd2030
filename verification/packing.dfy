/**
 What a next-fit packing looks like from the outside, independently of the
 loop that produces it. Files are identified by their position `i` in the
 sequence of copied files; `folders[i]` is the number `k` of the folder
 `Folder_k` the file was copied into, and `sizes[i]` is its size in bytes.
 */
module Packing {

  /** The folder file `i` would join without opening a new one: the folder of
      the previous file, or folder 1 (created up front) for the first file. */
  function Prev(folders: seq<nat>, i: nat): (k: nat)
    requires i <= |folders|
  {
    if i == 0 then 1 else folders[i - 1]
  }

  /** The folder that is current once every file has been placed. */
  function Final(folders: seq<nat>): (k: nat)
  {
    Prev(folders, |folders|)
  }

  /** File `i` goes either to the previous file's folder or to the one right after it. */
  predicate SteppedAt(folders: seq<nat>, i: nat)
    requires i < |folders|
  {
    folders[i] == Prev(folders, i) || folders[i] == Prev(folders, i) + 1
  }

  /** Numbering starts at 1 and each file goes either to the previous file's
      folder or to the one right after it. */
  predicate ValidNumbering(folders: seq<nat>)
  {
    forall i :: 0 <= i < |folders| ==> SteppedAt(folders, i)
  }

  /** The number of files placed in folder `k`. */
  function Members(folders: seq<nat>, k: nat): (n: nat)
  {
    if |folders| == 0 then 0
    else Members(folders[..|folders| - 1], k) + (if folders[|folders| - 1] == k then 1 else 0)
  }

  /** The number of bytes placed in folder `k`. */
  function Load(sizes: seq<nat>, folders: seq<nat>, k: nat): (bytes: nat)
    requires |sizes| == |folders|
  {
    if |folders| == 0 then 0
    else Load(sizes[..|sizes| - 1], folders[..|folders| - 1], k) + (if folders[|folders| - 1] == k then sizes[|sizes| - 1] else 0)
  }

  /** File `i` opens a new folder exactly when its size added to what the
      previous folder already holds exceeds the cap. */
  predicate OpensOnOverflowAt(sizes: seq<nat>, folders: seq<nat>, max: nat, i: nat)
    requires |sizes| == |folders| && i < |folders|
  {
    folders[i] == Prev(folders, i) + 1 <==> Load(sizes[..i], folders[..i], Prev(folders, i)) + sizes[i] > max
  }

  /** The next-fit rule, stated on the finished numbering: a valid numbering in
      which every file opens a new folder exactly on overflow. */
  predicate NextFitPlacement(sizes: seq<nat>, folders: seq<nat>, max: nat)
  {
    && |sizes| == |folders|
    && ValidNumbering(folders)
    && forall i :: 0 <= i < |folders| ==> OpensOnOverflowAt(sizes, folders, max, i)
  }

  lemma MembersAppend(folders: seq<nat>, f: nat, k: nat)
    ensures Members(folders + [f], k) == Members(folders, k) + (if f == k then 1 else 0)
  {
  }

  lemma LoadAppend(sizes: seq<nat>, folders: seq<nat>, s: nat, f: nat, k: nat)
    requires |sizes| == |folders|
    ensures Load(sizes + [s], folders + [f], k) == Load(sizes, folders, k) + (if f == k then s else 0)
  {
  }

  /** Extending a valid numbering by the current folder or the next one keeps it valid. */
  lemma {:induction false} ValidNumberingAppend(folders: seq<nat>, f: nat)
    requires ValidNumbering(folders)
    requires f == Final(folders) || f == Final(folders) + 1
    ensures ValidNumbering(folders + [f])
    ensures Final(folders + [f]) == f
  {
    var g := folders + [f];
    forall i | 0 <= i < |g|
      ensures SteppedAt(g, i)
    {
      if i < |folders| {
        assert SteppedAt(folders, i);
        assert g[i] == folders[i] && Prev(g, i) == Prev(folders, i);
      }
    }
  }

  /** Folder numbers never decrease along the sequence of files. */
  lemma {:induction false} Monotone(folders: seq<nat>, i: nat, j: nat)
    requires ValidNumbering(folders)
    requires i <= j < |folders|
    ensures folders[i] <= folders[j]
    decreases j - i
  {
    if i < j {
      Monotone(folders, i, j - 1);
      assert SteppedAt(folders, j);
      assert Prev(folders, j) == folders[j - 1];
    }
  }

  /** Every file of a valid numbering is in a folder between 1 and the final one. */
  lemma {:induction false} NumberingBounds(folders: seq<nat>)
    requires ValidNumbering(folders)
    ensures forall i :: 0 <= i < |folders| ==> 1 <= folders[i] <= Final(folders)
  {
    forall i | 0 <= i < |folders|
      ensures 1 <= folders[i] <= Final(folders)
    {
      assert SteppedAt(folders, 0);
      Monotone(folders, 0, i);
      Monotone(folders, i, |folders| - 1);
    }
  }

  /** A folder no file went to is empty. */
  lemma {:induction false} AbsentFolder(sizes: seq<nat>, folders: seq<nat>, k: nat)
    requires |sizes| == |folders|
    requires forall i :: 0 <= i < |folders| ==> folders[i] != k
    ensures Members(folders, k) == 0
    ensures Load(sizes, folders, k) == 0
  {
    if |folders| > 0 {
      AbsentFolder(sizes[..|sizes| - 1], folders[..|folders| - 1], k);
    }
  }

  /** The folder of file `i` holds that file and at least its bytes. */
  lemma {:induction false} FolderHoldsItsFile(sizes: seq<nat>, folders: seq<nat>, i: nat)
    requires |sizes| == |folders|
    requires i < |folders|
    ensures Members(folders, folders[i]) >= 1
    ensures Load(sizes, folders, folders[i]) >= sizes[i]
  {
    var n := |folders| - 1;
    if i < n {
      FolderHoldsItsFile(sizes[..n], folders[..n], i);
    }
  }

  lemma SliceSnoc(s: seq<nat>, n: nat)
    requires 0 < n <= |s|
    ensures s[..n] == s[..n - 1] + [s[n - 1]]
  {
  }

  /** What the next-fit rule says about file `i` alone. */
  lemma PlacementAt(sizes: seq<nat>, folders: seq<nat>, max: nat, i: nat)
    requires NextFitPlacement(sizes, folders, max)
    requires i < |folders|
    ensures folders[i] == Prev(folders, i) || folders[i] == Prev(folders, i) + 1
    ensures folders[i] == Prev(folders, i) + 1 <==> Load(sizes[..i], folders[..i], Prev(folders, i)) + sizes[i] > max
  {
    assert SteppedAt(folders, i);
    assert OpensOnOverflowAt(sizes, folders, max, i);
  }

  /** Placing one more file by the next-fit rule keeps a next-fit numbering. */
  lemma {:induction false} NextFitPlacementAppend(sizes: seq<nat>, folders: seq<nat>, max: nat, s: nat, f: nat)
    requires NextFitPlacement(sizes, folders, max)
    requires f == Final(folders) || f == Final(folders) + 1
    requires f == Final(folders) + 1 <==> Load(sizes, folders, Final(folders)) + s > max
    ensures NextFitPlacement(sizes + [s], folders + [f], max)
  {
    ValidNumberingAppend(folders, f);
    var ss, g := sizes + [s], folders + [f];
    forall i | 0 <= i < |g|
      ensures OpensOnOverflowAt(ss, g, max, i)
    {
      assert ss[..i] == sizes[..i] && g[..i] == folders[..i];
      if i < |folders| {
        assert g[i] == folders[i] && ss[i] == sizes[i] && Prev(g, i) == Prev(folders, i);
        PlacementAt(sizes, folders, max, i);
      } else {
        assert sizes[..i] == sizes && folders[..i] == folders;
      }
    }
  }

  /** Two numberings that both follow the next-fit rule for the same sizes and
      cap agree on their first `n` files. */
  lemma {:induction false} NextFitPrefixUnique(sizes: seq<nat>, f1: seq<nat>, f2: seq<nat>, max: nat, n: nat)
    requires NextFitPlacement(sizes, f1, max)
    requires NextFitPlacement(sizes, f2, max)
    requires n <= |sizes|
    ensures f1[..n] == f2[..n]
  {
    if n > 0 {
      var i := n - 1;
      NextFitPrefixUnique(sizes, f1, f2, max, i);
      var p := f1[..i];
      assert p == f2[..i];
      assert Prev(f1, i) == Prev(f2, i) by {
        if i > 0 { assert f1[i - 1] == p[i - 1] == f2[i - 1]; }
      }
      PlacementAt(sizes, f1, max, i);
      PlacementAt(sizes, f2, max, i);
      assert f1[i] == f2[i];
      SliceSnoc(f1, n);
      SliceSnoc(f2, n);
    }
  }

  /** The next-fit rule determines the whole numbering: given the sizes and the
      cap there is at most one numbering that follows it. */
  lemma NextFitUnique(sizes: seq<nat>, f1: seq<nat>, f2: seq<nat>, max: nat)
    requires NextFitPlacement(sizes, f1, max)
    requires NextFitPlacement(sizes, f2, max)
    ensures f1 == f2
  {
    NextFitPrefixUnique(sizes, f1, f2, max, |sizes|);
    assert f1 == f1[..|sizes|] && f2 == f2[..|sizes|];
  }
}

/**
 The folder splitter's loop as a state machine: the counters it keeps, one
 step per directory entry, and the state reached after a prefix of the
 listing. Copying a file is recorded by appending its folder number.
 */
module NextFit {
  import opened Listing

  /** The loop's variables: `folder_count`, `current_folder_size`,
      `total_size`, and the folder each copied file went to, in copy order. */
  datatype State = State(folderCount: nat, currentSize: nat, totalSize: nat, folders: seq<nat>)

  /** Before the first entry: `Folder_1` exists and is empty. */
  const Initial: State := State(1, 0, 0, [])

  /** Copying one file of `size` bytes under cap `max`: open the next folder
      first if the file does not fit into the current one. */
  function Place(s: State, size: nat, max: nat): (r: State)
  {
    if s.currentSize + size > max then
      State(s.folderCount + 1, size, s.totalSize + size, s.folders + [s.folderCount + 1])
    else
      State(s.folderCount, s.currentSize + size, s.totalSize + size, s.folders + [s.folderCount])
  }

  /** One iteration of the loop: entries that are not ".png" regular files are skipped. */
  function Step(s: State, e: Entry, max: nat): (r: State)
  {
    if IsPng(e) then Place(s, e.size, max) else s
  }

  /** The state after the loop has processed `entries`. */
  function Run(entries: seq<Entry>, max: nat): (r: State)
  {
    if |entries| == 0 then Initial
    else Step(Run(entries[..|entries| - 1], max), entries[|entries| - 1], max)
  }

  /** The number of times the overflow test `current_folder_size + file_size >
      max_folder_size` came out true while processing `entries`. */
  function Overflows(entries: seq<Entry>, max: nat): (n: nat)
  {
    if |entries| == 0 then 0
    else
      var init, last := entries[..|entries| - 1], entries[|entries| - 1];
      Overflows(init, max) + (if IsPng(last) && Run(init, max).currentSize + last.size > max then 1 else 0)
  }
}

/**
 * `mergeChunks`: create the destination file, then for each chunk index in
 * order open `path.part<i>`, append it to the destination and remove it. A
 * part that cannot be opened ends the merge with an error; the parts before
 * it are already merged and removed, it and the later ones stay on disk.
 * pkg/downloader/downloader.go and cmd/downloader/downloader.go merge in the
 * same way (the first takes the count from the Downloader, the second as a
 * parameter).
 */
module Merge {
  import opened Wrappers
  import opened Files

  /** The parts 0 .. k-1, concatenated in index order. */
  function Joined(fs: FileSystem, path: string, k: nat): seq<byte>
    requires forall i :: 0 <= i < k ==> PartName(path, i) in fs
  {
    if k == 0 then [] else Joined(fs, path, k - 1) + fs[PartName(path, k - 1)]
  }

  /** The names of parts 0 .. k-1. */
  function PartsBelow(path: string, k: nat): set<string>
  {
    set i | 0 <= i < k :: PartName(path, i)
  }

  /** The first part among 0 .. n-1 that is not on disk, or `n` when all are. */
  function FirstMissing(fs: FileSystem, path: string, n: nat): (k: nat)
    ensures k <= n
    ensures forall i :: 0 <= i < k ==> PartName(path, i) in fs
    ensures k < n ==> PartName(path, k) !in fs
  {
    FirstMissingFrom(fs, path, 0, n)
  }

  function FirstMissingFrom(fs: FileSystem, path: string, from: nat, n: nat): (k: nat)
    requires from <= n
    requires forall i :: 0 <= i < from ==> PartName(path, i) in fs
    ensures from <= k <= n
    ensures forall i :: 0 <= i < k ==> PartName(path, i) in fs
    ensures k < n ==> PartName(path, k) !in fs
    decreases n - from
  {
    if from == n || PartName(path, from) !in fs then from
    else FirstMissingFrom(fs, path, from + 1, n)
  }

  /** The disk once parts 0 .. k-1 have been appended to `path` and removed. */
  function MergedUpTo(fs: FileSystem, path: string, k: nat): FileSystem
    requires forall i :: 0 <= i < k ==> PartName(path, i) in fs
  {
    (fs - PartsBelow(path, k))[path := Joined(fs, path, k)]
  }

  /** The error `mergeChunks` returns: the part it could not open, if any. */
  function MergeError(fs: FileSystem, path: string, n: nat): Option<string>
  {
    var k := FirstMissing(fs, path, n);
    if k < n then Some(PartName(path, k)) else None
  }

  /**
   * `mergeChunks(path)` over `n` chunks: the disk afterwards is the disk
   * merged up to the first missing part, and the error names that part.
   */
  method MergeChunks(fs: FileSystem, path: string, n: nat) returns (fs': FileSystem, err: Option<string>)
    ensures fs' == MergedUpTo(fs, path, FirstMissing(fs, path, n))
    ensures err == MergeError(fs, path, n)
  {
    var out: seq<byte> := [];
    fs' := fs[path := out];
    assert PartsBelow(path, 0) == {};
    assert fs - {} == fs;
    var i := 0;
    while i < n
      invariant i <= n
      invariant forall j :: 0 <= j < i ==> PartName(path, j) in fs
      invariant out == Joined(fs, path, i)
      invariant fs' == MergedUpTo(fs, path, i)
      invariant FirstMissing(fs, path, n) == FirstMissingFrom(fs, path, i, n)
    {
      var part := PartName(path, i);
      PartNotMergedYet(fs, path, i);
      if part !in fs' {
        err := Some(part);
        return;
      }
      out := out + fs'[part];
      fs' := fs'[path := out] - {part};
      StepMerged(fs, path, i);
      i := i + 1;
    }
    err := None;
  }

  /** Part `i` and the files other than the destination are untouched by merging parts 0 .. i-1. */
  lemma PartNotMergedYet(fs: FileSystem, path: string, i: nat)
    requires forall j :: 0 <= j < i ==> PartName(path, j) in fs
    ensures PartName(path, i) in MergedUpTo(fs, path, i) <==> PartName(path, i) in fs
    ensures PartName(path, i) in fs ==> MergedUpTo(fs, path, i)[PartName(path, i)] == fs[PartName(path, i)]
  {
    PartNameNotPath(path, i);
    if PartName(path, i) in PartsBelow(path, i) {
      var j :| 0 <= j < i && PartName(path, j) == PartName(path, i);
      PartNameInjective(path, i, j);
    }
  }

  /** Appending part `i` and removing it merges up to `i + 1`. */
  lemma StepMerged(fs: FileSystem, path: string, i: nat)
    requires forall j :: 0 <= j <= i ==> PartName(path, j) in fs
    ensures MergedUpTo(fs, path, i)[path := Joined(fs, path, i + 1)] - {PartName(path, i)}
            == MergedUpTo(fs, path, i + 1)
  {
    var part := PartName(path, i);
    PartNameNotPath(path, i);
    assert PartsBelow(path, i + 1) == PartsBelow(path, i) + {part};
  }

  // ---------------------------------------------------------------------
  // What a merge leaves on disk

  /**
   * Merging up to `k` leaves the concatenation of parts 0 .. k-1 at `path`,
   * no part below `k`, every later part as it was, and every other file as
   * it was.
   */
  lemma MergedContents(fs: FileSystem, path: string, k: nat)
    requires forall i :: 0 <= i < k ==> PartName(path, i) in fs
    ensures path in MergedUpTo(fs, path, k) && MergedUpTo(fs, path, k)[path] == Joined(fs, path, k)
    ensures forall i :: 0 <= i < k ==> PartName(path, i) !in MergedUpTo(fs, path, k)
    ensures forall i: nat :: i >= k && PartName(path, i) in fs ==>
      PartName(path, i) in MergedUpTo(fs, path, k) && MergedUpTo(fs, path, k)[PartName(path, i)] == fs[PartName(path, i)]
    ensures forall p :: p in fs && p != path && !IsPart(path, p) ==>
      p in MergedUpTo(fs, path, k) && MergedUpTo(fs, path, k)[p] == fs[p]
  {
    forall i: nat | i >= k && PartName(path, i) in fs
      ensures PartName(path, i) in MergedUpTo(fs, path, k)
    {
      PartNameNotPath(path, i);
      if PartName(path, i) in PartsBelow(path, k) {
        var j :| 0 <= j < k && PartName(path, j) == PartName(path, i);
        PartNameInjective(path, i, j);
      }
    }
  }

  /** `p` is one of the temporary files of `path`. */
  ghost predicate IsPart(path: string, p: string)
  {
    exists i: nat :: p == PartName(path, i)
  }

  /** With every part on disk, the merge succeeds and `path` holds all parts in index order. */
  lemma CompleteMerge(fs: FileSystem, path: string, n: nat)
    requires forall i :: 0 <= i < n ==> PartName(path, i) in fs
    ensures FirstMissing(fs, path, n) == n
    ensures MergeError(fs, path, n) == None
  {
  }

  /** With part `k` missing (and all before it present) the merge reports that part. */
  lemma AbortedMerge(fs: FileSystem, path: string, n: nat, k: nat)
    requires k < n
    requires forall i :: 0 <= i < k ==> PartName(path, i) in fs
    requires PartName(path, k) !in fs
    ensures FirstMissing(fs, path, n) == k
    ensures MergeError(fs, path, n) == Some(PartName(path, k))
  {
  }
}

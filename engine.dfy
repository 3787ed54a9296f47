/**
 * The download engine of pkg/downloader/downloader.go: a Downloader with a
 * chunk count, a per-chunk speed limit and a bounded slot counter
 * (`downloadLock`); `downloadFile` runs one worker per chunk and merges the
 * parts; `AddDownload` takes a slot, folds the workers' progress events into
 * the Download record, reports each update and the finish, and gives the
 * slot back.
 *
 * Goroutines and channels are sequential here: the workers run in chunk
 * order (each writes its own part file, so the disk they leave is the same
 * in any order) and their progress events are delivered chunk by chunk.
 */
module Engine {
  import opened Wrappers
  import opened Partition
  import opened Files
  import opened ChunkWorker
  import opened Merge

  /** The Download record the engine is given and updates; `obj` is the caller's own `Object`, handed back to the hooks. */
  datatype Download<O> = Download(
    url: string, fileName: string, fileSize: int, savePath: string,
    progress: int, downloaded: int, remaining: int, obj: O)

  /** A call of one of the Downloader's hooks, with the record it was given. */
  datatype Callback<O> = Updated(d: Download<O>) | Finished(d: Download<O>)

  /** What AddDownload did: it waited for a slot, or it ran the download to the end. */
  datatype AddOutcome<O> = WaitingForSlot | Ran(final: Download<O>, fs: FileSystem, err: Option<string>)

  /** The destination file: `SavePath + "/" + FileName`. */
  function Destination<O>(d: Download<O>): string
  {
    JoinPath(d.savePath, d.fileName)
  }

  // ---------------------------------------------------------------------
  // downloadFile, as functions of its inputs

  /** What a worker leaves on disk: a failed request leaves the disk as it was. */
  function AfterWorker(fs: FileSystem, part: string, resp: Response): FileSystem
  {
    match resp
    case RequestFailed(_) => fs
    case Body(body) => fs[part := Payload(Consumed(body))]
  }

  /** The progress events a worker emits. */
  function WorkerEvents(r: ByteRange, resp: Response): seq<Progress>
  {
    match resp
    case RequestFailed(_) => []
    case Body(body) => Events(r, Consumed(body))
  }

  /** The disk after workers 0 .. k-1 of the file at `path` have run. */
  function Fetched(fs: FileSystem, path: string, totalSize: int, chunk: int, responses: seq<Response>, k: nat): FileSystem
    requires chunk >= 1 && k <= chunk == |responses|
  {
    if k == 0 then fs
    else AfterWorker(Fetched(fs, path, totalSize, chunk, responses, k - 1), PartName(path, k - 1), responses[k - 1])
  }

  /** The events of workers 0 .. k-1, chunk by chunk. */
  function FetchEvents(totalSize: int, chunk: int, responses: seq<Response>, k: nat): seq<Progress>
    requires chunk >= 1 && k <= chunk == |responses|
  {
    if k == 0 then []
    else FetchEvents(totalSize, chunk, responses, k - 1) + WorkerEvents(ChunkRange(totalSize, chunk, k - 1), responses[k - 1])
  }

  // ---------------------------------------------------------------------
  // AddDownload's fold of the progress events

  /** One progress event folded into the record. */
  function Apply<O>(d: Download<O>, e: Progress, chunk: int): Download<O>
    requires chunk >= 1
  {
    d.(progress := GoQuo(e.percent, chunk),
       downloaded := d.downloaded + e.downloaded,
       remaining := e.remaining * chunk)
  }

  /** The record after the events are folded in, one by one. */
  function Fold<O>(d: Download<O>, events: seq<Progress>, chunk: int): Download<O>
    requires chunk >= 1
  {
    if events == [] then d else Apply(Fold(d, events[..|events| - 1], chunk), events[|events| - 1], chunk)
  }

  /** The OnUpdate calls of the fold: one per event, with the record as it stands after it. */
  function Updates<O>(d: Download<O>, events: seq<Progress>, chunk: int): seq<Callback<O>>
    requires chunk >= 1
  {
    if events == [] then []
    else Updates(d, events[..|events| - 1], chunk) + [Updated(Fold(d, events, chunk))]
  }

  /** The sum of the `downloaded` fields of the events. */
  function SumDownloaded(events: seq<Progress>): int
  {
    if events == [] then 0 else SumDownloaded(events[..|events| - 1]) + events[|events| - 1].downloaded
  }

  /**
   * The worker loop of `downloadFile`: worker `i` fetches chunk range `i`
   * into `path.part<i>`; what each worker returns is discarded.
   */
  method RunWorkers(fs: FileSystem, path: string, totalSize: int, chunk: int, speedLimit: int, responses: seq<Response>)
    returns (fs': FileSystem, events: seq<Progress>)
    requires chunk >= 1 && |responses| == chunk
    ensures fs' == Fetched(fs, path, totalSize, chunk, responses, chunk)
    ensures events == FetchEvents(totalSize, chunk, responses, chunk)
  {
    fs' := fs;
    events := [];
    var i := 0;
    while i < chunk
      invariant 0 <= i <= chunk
      invariant fs' == Fetched(fs, path, totalSize, chunk, responses, i)
      invariant events == FetchEvents(totalSize, chunk, responses, i)
    {
      var r := ChunkRange(totalSize, chunk, i);
      var disk, header, chunkEvents, pauses, size, chunkErr :=
        DownloadChunk(fs', PartName(path, i), r, responses[i], speedLimit);
      fs' := disk;
      events := events + chunkEvents;
      i := i + 1;
    }
  }

  class Downloader<O> {
    const chunk: int
    const speedLimit: int
    const maxDownloads: int
    /** The number of downloads holding a slot of `downloadLock`. */
    var held: nat
    /** The hooks called so far, in order. */
    var calls: seq<Callback<O>>

    ghost predicate Valid()
      reads this
    {
      chunk >= 1 && held <= if maxDownloads < 0 then 0 else maxDownloads
    }

    /** NewDownloader: no slot is taken and no hook has run. */
    constructor (chunk: int, speedLimit: int, maxDownloads: int)
      requires chunk >= 1
      ensures Valid()
      ensures this.chunk == chunk && this.speedLimit == speedLimit && this.maxDownloads == maxDownloads
      ensures held == 0 && calls == []
    {
      this.chunk := chunk;
      this.speedLimit := speedLimit;
      this.maxDownloads := maxDownloads;
      held := 0;
      calls := [];
    }

    /** `d.downloadLock <- struct{}{}`: admitted when a slot is free, otherwise the caller waits. */
    method TakeSlot() returns (admitted: bool)
      requires Valid()
      modifies this`held
      ensures Valid()
      ensures admitted <==> old(held) < maxDownloads
      ensures held == if admitted then old(held) + 1 else old(held)
    {
      admitted := held < maxDownloads;
      if admitted {
        held := held + 1;
      }
    }

    /** `<-d.downloadLock` */
    method ReleaseSlot()
      requires Valid() && held > 0
      modifies this`held
      ensures Valid() && held == old(held) - 1
    {
      held := held - 1;
    }

    /**
     * `downloadFile`: one worker per chunk range on `Destination(d).part<i>`,
     * then the merge. Worker errors are only printed, so the result is the
     * merge's.
     */
    method DownloadFile(d: Download<O>, fs: FileSystem, responses: seq<Response>)
      returns (fs': FileSystem, events: seq<Progress>, err: Option<string>)
      requires Valid() && |responses| == chunk
      ensures var fetched := Fetched(fs, Destination(d), d.fileSize, chunk, responses, chunk);
        && fs' == MergedUpTo(fetched, Destination(d), FirstMissing(fetched, Destination(d), chunk))
        && err == MergeError(fetched, Destination(d), chunk)
      ensures events == FetchEvents(d.fileSize, chunk, responses, chunk)
    {
      var filename := Destination(d);
      var disk;
      disk, events := RunWorkers(fs, filename, d.fileSize, chunk, speedLimit, responses);
      fs', err := MergeChunks(disk, filename, chunk);
    }

    /**
     * AddDownload: take a slot (or wait for one), run downloadFile, fold each
     * progress event into the record and call OnUpdate with it, call
     * OnFinish whether or not the download failed, give the slot back.
     */
    method AddDownload(d: Download<O>, fs: FileSystem, responses: seq<Response>) returns (outcome: AddOutcome<O>)
      requires Valid() && |responses| == chunk
      modifies this`held, this`calls
      ensures Valid() && held == old(held)
      ensures outcome.WaitingForSlot? <==> old(held) >= maxDownloads
      ensures outcome.WaitingForSlot? ==> calls == old(calls)
      ensures outcome.Ran? ==>
        var events := FetchEvents(d.fileSize, chunk, responses, chunk);
        var fetched := Fetched(fs, Destination(d), d.fileSize, chunk, responses, chunk);
        && outcome.final == Fold(d, events, chunk)
        && outcome.fs == MergedUpTo(fetched, Destination(d), FirstMissing(fetched, Destination(d), chunk))
        && outcome.err == MergeError(fetched, Destination(d), chunk)
        && calls == old(calls) + Updates(d, events, chunk) + [Finished(outcome.final)]
    {
      var admitted := TakeSlot();
      if !admitted {
        return WaitingForSlot;
      }
      var fs', events, err := DownloadFile(d, fs, responses);
      var current := Report(d, events);
      calls := calls + [Finished(current)];
      ReleaseSlot();
      outcome := Ran(current, fs', err);
    }

    /** The progress loop of `AddDownload`: fold each event into the record and hand the record to OnUpdate. */
    method Report(d: Download<O>, events: seq<Progress>) returns (current: Download<O>)
      requires Valid()
      modifies this`calls
      ensures current == Fold(d, events, chunk)
      ensures calls == old(calls) + Updates(d, events, chunk)
    {
      current := d;
      var i := 0;
      while i < |events|
        invariant 0 <= i <= |events|
        invariant current == Fold(d, events[..i], chunk)
        invariant calls == old(calls) + Updates(d, events[..i], chunk)
      {
        assert events[..i + 1][..i] == events[..i];
        current := Apply(current, events[i], chunk);
        calls := calls + [Updated(current)];
        i := i + 1;
      }
      assert events[..i] == events;
    }
  }

  // ---------------------------------------------------------------------
  // What the engine's results mean

  /** The part files of the workers that got a body hold that body's bytes; the others are as they were. */
  lemma {:induction false} FetchedParts(fs: FileSystem, path: string, totalSize: int, chunk: int,
                                        responses: seq<Response>, k: nat, j: nat)
    requires chunk >= 1 && k <= chunk == |responses| && j < chunk
    ensures j < k && responses[j].Body? ==>
      PartName(path, j) in Fetched(fs, path, totalSize, chunk, responses, k)
      && Fetched(fs, path, totalSize, chunk, responses, k)[PartName(path, j)] == Payload(Consumed(responses[j].body))
    ensures (j >= k || responses[j].RequestFailed?) ==>
      (PartName(path, j) in Fetched(fs, path, totalSize, chunk, responses, k) <==> PartName(path, j) in fs)
      && (PartName(path, j) in fs ==> Fetched(fs, path, totalSize, chunk, responses, k)[PartName(path, j)] == fs[PartName(path, j)])
  {
    if k > 0 {
      FetchedParts(fs, path, totalSize, chunk, responses, k - 1, j);
      if j != k - 1 {
        if PartName(path, k - 1) == PartName(path, j) {
          PartNameInjective(path, k - 1, j);
        }
      }
    }
  }

  /** `content[r.start .. r.end]`, the bytes a server sends for range `r` of `content` (nothing when `r` lies outside). */
  function Slice(content: seq<byte>, r: ByteRange): seq<byte>
  {
    if 0 <= r.start <= r.end + 1 <= |content| then content[r.start..r.end + 1] else []
  }

  /** Every range lies inside a file of `totalSize` bytes. */
  ghost predicate Inside(rs: seq<ByteRange>, totalSize: int)
  {
    forall i :: 0 <= i < |rs| ==> 0 <= rs[i].start <= rs[i].end + 1 <= totalSize
  }

  /** The slices of the ranges, concatenated in order. */
  function Concat(content: seq<byte>, rs: seq<ByteRange>): seq<byte>
  {
    if rs == [] then [] else Concat(content, rs[..|rs| - 1]) + Slice(content, rs[|rs| - 1])
  }

  /** Range `i` of a file of `totalSize` bytes lies inside the file. */
  lemma RangeInside(totalSize: nat, chunk: int, i: int)
    requires chunk >= 1 && 0 <= i < chunk
    ensures var r := ChunkRange(totalSize, chunk, i); 0 <= r.start <= r.end + 1 <= totalSize
  {
    var q := totalSize / chunk;
    assert i * q + q == (i + 1) * q;
    MultiplyMonotone(i + 1, chunk, q);
    if i == chunk - 1 {
      MultiplyMonotone(i, chunk, q);
    }
  }

  lemma AllRangesInside(totalSize: nat, chunk: int)
    requires chunk >= 1
    ensures Inside(Ranges(totalSize, chunk), totalSize)
  {
    forall i | 0 <= i < chunk
      ensures 0 <= Ranges(totalSize, chunk)[i].start <= Ranges(totalSize, chunk)[i].end + 1 <= totalSize
    {
      RangeInside(totalSize, chunk, i);
    }
  }

  /** Dropping the last range keeps the ranges contiguous and inside the file. */
  lemma InitKeeps(rs: seq<ByteRange>, size: int)
    requires |rs| >= 1 && Contiguous(rs) && Inside(rs, size)
    ensures Contiguous(rs[..|rs| - 1]) && Inside(rs[..|rs| - 1], size)
  {
    var init := rs[..|rs| - 1];
    assert forall i :: 0 <= i < |init| ==> init[i] == rs[i];
  }

  /** Contiguous ranges inside the file starting at byte 0 cut out its first bytes, up to the last range's end. */
  lemma {:induction false} SlicesJoin(content: seq<byte>, rs: seq<ByteRange>)
    requires |rs| >= 1 && rs[0].start == 0
    requires Contiguous(rs) && Inside(rs, |content|)
    ensures Concat(content, rs) == content[..rs[|rs| - 1].end + 1]
  {
    if |rs| > 1 {
      var init := rs[..|rs| - 1];
      InitKeeps(rs, |content|);
      SlicesJoin(content, init);
      var prev := rs[|rs| - 2];
      var r := rs[|rs| - 1];
      assert init[0] == rs[0] && init[|init| - 1] == prev;
      assert r.start == prev.end + 1;
      assert 0 <= r.start <= r.end + 1 <= |content|;
      assert Concat(content, rs) == Concat(content, init) + content[r.start..r.end + 1];
      assert content[..prev.end + 1] + content[r.start..r.end + 1] == content[..r.end + 1];
    }
  }

  /** Parts that hold the slices of the ranges join into the concatenated slices. */
  lemma {:induction false} JoinedSlices(fetched: FileSystem, path: string, content: seq<byte>, rs: seq<ByteRange>, k: nat)
    requires k <= |rs|
    requires forall i :: 0 <= i < |rs| ==> PartName(path, i) in fetched
    requires forall i :: 0 <= i < |rs| ==> fetched[PartName(path, i)] == Slice(content, rs[i])
    ensures Joined(fetched, path, k) == Concat(content, rs[..k])
  {
    if k > 0 {
      JoinedSlices(fetched, path, content, rs, k - 1);
      assert rs[..k][..k - 1] == rs[..k - 1] && rs[..k][k - 1] == rs[k - 1];
    }
  }

  /** When every request is answered with its range's bytes, each part holds its slice. */
  lemma ExactParts(fs: FileSystem, path: string, content: seq<byte>, chunk: int, responses: seq<Response>)
    requires chunk >= 1 && |responses| == chunk
    requires forall i :: 0 <= i < chunk ==>
      responses[i].Body? && Payload(Consumed(responses[i].body)) == Slice(content, ChunkRange(|content|, chunk, i))
    ensures forall i :: 0 <= i < chunk ==> PartName(path, i) in Fetched(fs, path, |content|, chunk, responses, chunk)
    ensures forall i :: 0 <= i < chunk ==>
      Fetched(fs, path, |content|, chunk, responses, chunk)[PartName(path, i)] == Slice(content, Ranges(|content|, chunk)[i])
  {
    forall i | 0 <= i < chunk
      ensures PartName(path, i) in Fetched(fs, path, |content|, chunk, responses, chunk)
      ensures Fetched(fs, path, |content|, chunk, responses, chunk)[PartName(path, i)] == Slice(content, Ranges(|content|, chunk)[i])
    {
      FetchedParts(fs, path, |content|, chunk, responses, chunk, i);
    }
  }

  /**
   * When every chunk request is answered with exactly the requested bytes
   * of `content`, the download leaves `content` at the destination and no
   * merge error.
   */
  lemma ExactReconstruction(fs: FileSystem, path: string, content: seq<byte>, chunk: int, responses: seq<Response>)
    requires chunk >= 1 && |responses| == chunk
    requires forall i :: 0 <= i < chunk ==>
      responses[i].Body? && Payload(Consumed(responses[i].body)) == Slice(content, ChunkRange(|content|, chunk, i))
    ensures var fetched := Fetched(fs, path, |content|, chunk, responses, chunk);
      && FirstMissing(fetched, path, chunk) == chunk
      && MergeError(fetched, path, chunk) == None
      && MergedUpTo(fetched, path, chunk)[path] == content
  {
    var rs := Ranges(|content|, chunk);
    var fetched := Fetched(fs, path, |content|, chunk, responses, chunk);
    ExactParts(fs, path, content, chunk, responses);
    JoinedSlices(fetched, path, content, rs, chunk);
    assert rs[..chunk] == rs;
    RangesCutWhole(content, chunk);
    assert FirstMissing(fetched, path, chunk) == chunk;
  }

  /** The slices of all the ranges, laid end to end, are the whole file. */
  lemma RangesCutWhole(content: seq<byte>, chunk: int)
    requires chunk >= 1
    ensures Concat(content, Ranges(|content|, chunk)) == content
  {
    var rs := Ranges(|content|, chunk);
    AllRangesInside(|content|, chunk);
    RangesTile(|content|, chunk);
    SlicesJoin(content, rs);
    assert content[..rs[chunk - 1].end + 1] == content;
  }

  /**
   * Folding a worker's events adds each cumulative count to the record, so
   * once a chunk has reported twice the record counts more bytes than the
   * chunk delivered.
   */
  lemma {:induction false} FoldOverCounts<O>(d: Download<O>, r: ByteRange, body: seq<Read>, chunk: int)
    requires chunk >= 1
    ensures Fold(d, Events(r, body), chunk).downloaded == d.downloaded + SumDownloaded(Events(r, body))
    ensures |Events(r, body)| >= 2 ==> SumDownloaded(Events(r, body)) > BytesRead(body)
  {
    FoldSum(d, Events(r, body), chunk);
    EventsIncrease(r, body);
    var e := Events(r, body);
    if |e| >= 2 {
      SumAtLeastLast(e);
      assert e[|e| - 1].downloaded == BytesRead(body);
    }
  }

  lemma {:induction false} FoldSum<O>(d: Download<O>, events: seq<Progress>, chunk: int)
    requires chunk >= 1
    ensures Fold(d, events, chunk).downloaded == d.downloaded + SumDownloaded(events)
  {
    if events != [] {
      FoldSum(d, events[..|events| - 1], chunk);
    }
  }

  /** With positive counts, the sum exceeds the last count as soon as there is an earlier one. */
  lemma SumAtLeastLast(e: seq<Progress>)
    requires |e| >= 2
    requires forall i :: 0 <= i < |e| ==> e[i].downloaded > 0
    ensures SumDownloaded(e) > e[|e| - 1].downloaded
  {
    SumPositive(e[..|e| - 1]);
  }

  lemma {:induction false} SumPositive(e: seq<Progress>)
    requires |e| >= 1
    requires forall i :: 0 <= i < |e| ==> e[i].downloaded > 0
    ensures SumDownloaded(e) > 0
  {
    if |e| > 1 {
      SumPositive(e[..|e| - 1]);
    }
  }

  /** The record's progress and remaining time are those of the last event, scaled by the chunk count. */
  lemma LastEventWins<O>(d: Download<O>, events: seq<Progress>, chunk: int)
    requires chunk >= 1 && |events| > 0
    ensures Fold(d, events, chunk).progress == GoQuo(events[|events| - 1].percent, chunk)
    ensures Fold(d, events, chunk).remaining == events[|events| - 1].remaining * chunk
    ensures Fold(d, events, chunk).url == d.url && Fold(d, events, chunk).obj == d.obj
  {
  }
}

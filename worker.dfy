/**
 * The chunk worker (`downloadChunk`): one GET with a Range header, then a
 * read loop that appends every non-empty buffer to the chunk's temporary
 * file, counts the bytes, reports a progress event per buffer and, when a
 * speed limit is set and the measured speed exceeds it, sleeps.
 * pkg/downloader/downloader.go and cmd/downloader/downloader.go hold the
 * same worker; the first takes the speed limit from the Downloader, the
 * second as a parameter.
 *
 * The HTTP body is a finite sequence of reads; once it is used up, the
 * next Read returns (0, io.EOF), as an exhausted io.Reader does. What the
 * clock says is part of each read: the speed the worker measures right
 * after it.
 */
module ChunkWorker {
  import opened Wrappers
  import opened Partition
  import opened Files

  datatype ReadError = NoError | Eof | Failed(reason: string)

  /** One `resp.Body.Read(buffer)`: the `n` bytes it delivered, its error, and the measured speed in bytes per second. */
  datatype Read = Read(data: seq<byte>, err: ReadError, speed: nat)

  /** What `http.DefaultClient.Do` gave: an error, or a body to read. */
  datatype Response = RequestFailed(reason: string) | Body(body: seq<Read>)

  /** A progress event; `percent` is the integer part of the percentage, `remaining` is in seconds. */
  datatype Progress = Progress(downloaded: int, total: int, percent: int, speed: nat, remaining: int)

  /** The percentage of the range received, as an integer. */
  function Percent(downloaded: int, total: int): int
  {
    if total > 0 then downloaded * 100 / total else 0
  }

  /** The remaining-time estimate `(end - start - downloaded) / speed`, in whole seconds. */
  function RemainingSeconds(r: ByteRange, downloaded: int, speed: nat): int
  {
    if speed > 0 then GoQuo(r.end - r.start - downloaded, speed) else 0
  }

  function Quotient(a: nat, b: nat): nat
    requires b > 0
  {
    a / b
  }

  /** How long the worker sleeps after a read of `n` bytes at the measured `speed`. */
  function PauseMs(speedLimit: int, speed: nat, n: nat): nat
  {
    var maxSpeed := speedLimit * 1024;
    if speedLimit > 0 && speed > maxSpeed then Quotient(n * 1000, maxSpeed) else 0
  }

  /** The index of the read that ends the loop: the first one with an error, or `|reads|` when the body runs out. */
  function StopIndex(body: seq<Read>): (k: nat)
    ensures k <= |body|
    ensures forall j :: 0 <= j < k ==> body[j].err == NoError
    ensures k < |body| ==> body[k].err != NoError
  {
    if body == [] then 0
    else if body[0].err != NoError then 0
    else StopIndex(body[1..]) + 1
  }

  /** The reads the loop performs, the stopping one included. */
  function Consumed(body: seq<Read>): seq<Read>
  {
    var k := StopIndex(body);
    if k < |body| then body[..k + 1] else body
  }

  /** What the worker returns: the stopping read's error unless it is io.EOF. */
  function ChunkError(body: seq<Read>): Option<string>
  {
    var k := StopIndex(body);
    if k < |body| && body[k].err.Failed? then Some(body[k].err.reason) else None
  }

  /** The bytes written to the temporary file: the buffers, in order. */
  function Payload(body: seq<Read>): seq<byte>
  {
    if body == [] then [] else Payload(body[..|body| - 1]) + body[|body| - 1].data
  }

  /** `downloadedSize`: the sum of the `n` of the reads. */
  function BytesRead(body: seq<Read>): nat
  {
    if body == [] then 0 else BytesRead(body[..|body| - 1]) + |body[|body| - 1].data|
  }

  /** The progress events: one per read that delivered bytes. */
  function Events(r: ByteRange, body: seq<Read>): seq<Progress>
  {
    if body == [] then []
    else
      var last := body[|body| - 1];
      var d := BytesRead(body);
      Events(r, body[..|body| - 1])
        + if |last.data| > 0
          then [Progress(d, r.Length(), Percent(d, r.Length()), last.speed, RemainingSeconds(r, d, last.speed))]
          else []
  }

  /** The sleeps, one per read that delivered bytes. */
  function Pauses(speedLimit: int, body: seq<Read>): seq<nat>
  {
    if body == [] then []
    else
      var last := body[|body| - 1];
      Pauses(speedLimit, body[..|body| - 1])
        + if |last.data| > 0 then [PauseMs(speedLimit, last.speed, |last.data|)] else []
  }

  /**
   * `downloadChunk`: the temporary file `path` ends up holding exactly the
   * bytes of the reads the loop performed, `downloadedSize` is their count,
   * and the result is nil exactly when the loop stopped at io.EOF. A failed
   * request returns its error and touches no file.
   */
  method DownloadChunk(fs: FileSystem, path: string, r: ByteRange, resp: Response, speedLimit: int)
    returns (fs': FileSystem, rangeHeader: string, events: seq<Progress>, pauses: seq<nat>,
             downloadedSize: nat, err: Option<string>)
    ensures rangeHeader == RangeHeader(r)
    ensures resp.RequestFailed? ==>
      fs' == fs && events == [] && pauses == [] && downloadedSize == 0 && err == Some(resp.reason)
    ensures resp.Body? ==>
      && fs' == fs[path := Payload(Consumed(resp.body))]
      && downloadedSize == BytesRead(Consumed(resp.body))
      && events == Events(r, Consumed(resp.body))
      && pauses == Pauses(speedLimit, Consumed(resp.body))
      && err == ChunkError(resp.body)
  {
    rangeHeader := RangeHeader(r);
    fs', events, pauses, downloadedSize := fs, [], [], 0;
    if resp.RequestFailed? {
      err := Some(resp.reason);
      return;
    }
    var body := resp.body;
    var file: seq<byte> := [];
    fs' := fs[path := file];
    var i := 0;
    while true
      invariant i <= StopIndex(body)
      invariant file == Payload(body[..i])
      invariant fs' == fs[path := file]
      invariant downloadedSize == BytesRead(body[..i])
      invariant events == Events(r, body[..i])
      invariant pauses == Pauses(speedLimit, body[..i])
      decreases |body| - i
    {
      var rd := if i < |body| then body[i] else Read([], Eof, 0);
      if i < |body| {
        Step(r, speedLimit, body, i);
      }
      if |rd.data| > 0 {
        file := file + rd.data;
        fs' := fs[path := file];
        downloadedSize := downloadedSize + |rd.data|;
        events := events + [Progress(downloadedSize, r.Length(), Percent(downloadedSize, r.Length()),
                                     rd.speed, RemainingSeconds(r, downloadedSize, rd.speed))];
        pauses := pauses + [PauseMs(speedLimit, rd.speed, |rd.data|)];
      }
      if i < |body| && rd.err != NoError {
        assert body[i].err != NoError;
        assert StopIndex(body) == i;
      }
      if rd.err == Eof {
        err := None;
        if i == |body| {
          assert body[..i] == body;
          assert Consumed(body) == body;
        } else {
          assert Consumed(body) == body[..i + 1];
        }
        return;
      }
      if rd.err.Failed? {
        err := Some(rd.err.reason);
        return;
      }
      i := i + 1;
    }
  }

  /** One more read extends the file, the count, the events and the sleeps by that read's share. */
  lemma Step(r: ByteRange, speedLimit: int, body: seq<Read>, i: nat)
    requires i < |body|
    ensures Payload(body[..i + 1]) == Payload(body[..i]) + body[i].data
    ensures BytesRead(body[..i + 1]) == BytesRead(body[..i]) + |body[i].data|
    ensures |body[i].data| == 0 ==>
      Payload(body[..i + 1]) == Payload(body[..i]) && Events(r, body[..i + 1]) == Events(r, body[..i]) && Pauses(speedLimit, body[..i + 1]) == Pauses(speedLimit, body[..i])
    ensures |body[i].data| > 0 ==>
      var d := BytesRead(body[..i + 1]);
      && Events(r, body[..i + 1])
         == Events(r, body[..i]) + [Progress(d, r.Length(), Percent(d, r.Length()), body[i].speed, RemainingSeconds(r, d, body[i].speed))]
      && Pauses(speedLimit, body[..i + 1]) == Pauses(speedLimit, body[..i]) + [PauseMs(speedLimit, body[i].speed, |body[i].data|)]
  {
    assert body[..i + 1][..i] == body[..i];
    if |body[i].data| == 0 {
      assert Payload(body[..i]) + body[i].data == Payload(body[..i]);
    }
  }

  // ---------------------------------------------------------------------
  // What the worker's output means

  /** The temporary file holds as many bytes as the worker counted. */
  lemma {:induction false} PayloadLength(body: seq<Read>)
    ensures |Payload(body)| == BytesRead(body)
  {
    if body != [] {
      PayloadLength(body[..|body| - 1]);
    }
  }

  /**
   * Events with positive byte counts, strictly increasing, never above
   * `bound` and ending at it, all with the same `total`.
   */
  ghost predicate Increasing(e: seq<Progress>, bound: int, total: int)
  {
    && (forall i :: 0 <= i < |e| ==> 0 < e[i].downloaded <= bound && e[i].total == total)
    && (forall i, j :: 0 <= i < j < |e| ==> e[i].downloaded < e[j].downloaded)
    && (|e| > 0 ==> e[|e| - 1].downloaded == bound)
  }

  lemma AppendIncreasing(e: seq<Progress>, bound: int, x: Progress, e': seq<Progress>)
    requires Increasing(e, bound, x.total)
    requires x.downloaded > bound && x.downloaded > 0
    requires e' == e + [x]
    ensures Increasing(e', x.downloaded, x.total)
  {
    forall i, j | 0 <= i < j < |e'| ensures e'[i].downloaded < e'[j].downloaded {
      assert e'[i] == e[i];
    }
  }

  /**
   * Progress events carry strictly increasing, positive byte counts, never
   * more than the worker has counted, the last one equal to it, and all of
   * them the range's length `end - start + 1` as their total.
   */
  lemma {:induction false} EventsIncrease(r: ByteRange, body: seq<Read>)
    ensures Increasing(Events(r, body), BytesRead(body), r.Length())
  {
    if body != [] {
      var init := body[..|body| - 1];
      EventsIncrease(r, init);
      var last := body[|body| - 1];
      if |last.data| > 0 {
        var d := BytesRead(body);
        var x := Progress(d, r.Length(), Percent(d, r.Length()), last.speed, RemainingSeconds(r, d, last.speed));
        AppendIncreasing(Events(r, init), BytesRead(init), x, Events(r, body));
      }
    }
  }

  /** Exactly the reads that delivered bytes produce an event and a possible sleep. */
  lemma {:induction false} OneEventPerNonEmptyRead(speedLimit: int, r: ByteRange, body: seq<Read>)
    ensures |Events(r, body)| == |Pauses(speedLimit, body)| == NonEmptyReads(body)
  {
    if body != [] {
      OneEventPerNonEmptyRead(speedLimit, r, body[..|body| - 1]);
    }
  }

  /** The number of reads that delivered at least one byte. */
  function NonEmptyReads(body: seq<Read>): nat
  {
    if body == [] then 0
    else NonEmptyReads(body[..|body| - 1]) + if |body[|body| - 1].data| > 0 then 1 else 0
  }

  /** Without a speed limit the worker never sleeps. */
  lemma {:induction false} NoLimitNoSleep(speedLimit: int, body: seq<Read>)
    requires speedLimit <= 0
    ensures forall i :: 0 <= i < |Pauses(speedLimit, body)| ==> Pauses(speedLimit, body)[i] == 0
  {
    if body != [] {
      NoLimitNoSleep(speedLimit, body[..|body| - 1]);
    }
  }

  /** The worker returns nil exactly when its loop ended at io.EOF (or the body ran out), and any other error at once. */
  lemma WorkerResult(body: seq<Read>)
    ensures ChunkError(body).None? <==>
      (StopIndex(body) == |body| || body[StopIndex(body)].err == Eof)
    ensures ChunkError(body).Some? ==>
      Consumed(body) == body[..StopIndex(body) + 1] && body[StopIndex(body)].err == Failed(ChunkError(body).value)
  {
  }

  /** A body whose reads all succeed and then reach io.EOF lands in the file whole. */
  lemma {:induction false} CleanBodyWhole(body: seq<Read>)
    requires forall i :: 0 <= i < |body| ==> !body[i].err.Failed?
    requires forall i :: 0 <= i < |body| - 1 ==> body[i].err == NoError
    ensures Consumed(body) == body
    ensures ChunkError(body) == None
  {
    var k := StopIndex(body);
    if k < |body| {
      assert k == |body| - 1;
      assert body[..k + 1] == body;
    }
  }
}

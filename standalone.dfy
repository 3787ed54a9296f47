/**
 * The standalone `downloadFile` of cmd/downloader/downloader.go: a HEAD
 * request gives the size, a status other than 200 stops before any chunk,
 * then the same partition, workers and merge as the engine, with the chunk
 * count and speed limit as parameters.
 */
module Standalone {
  import opened Wrappers
  import opened Files
  import opened ChunkWorker
  import opened Merge
  import opened Engine

  /** What the HEAD request gave: a transport error, or a status and a Content-Length. */
  datatype HeadResponse = HeadFailed(reason: string) | HeadReply(statusCode: int, status: string, contentLength: int)

  const StatusOK: int := 200

  /** The error for a HEAD reply that is not 200, carrying its status line (the source words it in French). */
  function StatusError(status: string): string
  {
    "request failed: " + status
  }

  /**
   * `downloadFile(url, filePath, numChunks, maxSpeedKBps)`: the HEAD step's
   * error, or the merge's; the workers run only after a 200.
   */
  method DownloadFile(fs: FileSystem, filePath: string, head: HeadResponse, numChunks: int, maxSpeedKBps: int,
                      responses: seq<Response>)
    returns (fs': FileSystem, events: seq<Progress>, err: Option<string>)
    requires numChunks >= 1 && |responses| == numChunks
    ensures head.HeadFailed? ==> fs' == fs && events == [] && err == Some(head.reason)
    ensures head.HeadReply? && head.statusCode != StatusOK ==>
      fs' == fs && events == [] && err == Some(StatusError(head.status))
    ensures head.HeadReply? && head.statusCode == StatusOK ==>
      var fetched := Fetched(fs, filePath, head.contentLength, numChunks, responses, numChunks);
      && fs' == MergedUpTo(fetched, filePath, FirstMissing(fetched, filePath, numChunks))
      && err == MergeError(fetched, filePath, numChunks)
      && events == FetchEvents(head.contentLength, numChunks, responses, numChunks)
  {
    match head
    case HeadFailed(reason) =>
      return fs, [], Some(reason);
    case HeadReply(code, status, totalSize) =>
      if code != StatusOK {
        return fs, [], Some(StatusError(status));
      }
      var disk;
      disk, events := RunWorkers(fs, filePath, totalSize, numChunks, maxSpeedKBps, responses);
      fs', err := MergeChunks(disk, filePath, numChunks);
  }
}

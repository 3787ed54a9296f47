/**
 * The reconciliation tick of internal/jobs/updater.go. Each tick takes the
 * torrents whose internal status is not `downloaded` and, row by row:
 * deletes a row without `RDId` (and carries on with it); settles a row
 * whose downloads are all complete without asking the remote service;
 * deletes a row the remote service no longer knows, there and here; and
 * otherwise copies the remote state into the row, creating one download
 * row and one engine submission per resolvable link when the remote copy
 * has just finished.
 *
 * The remote service is given as its answers: a torrent id it does not
 * answer for, or a link it cannot resolve, is an error. The calls that
 * change something remotely (delete, accept) are logged; the engine
 * submissions are collected in order.
 */
module Updater {
  import opened Wrappers
  import opened Files
  import opened Store
  import opened Engine
  import Service

  /** The remote service's view of a torrent. */
  datatype RemoteTorrent = RemoteTorrent(
    status: string, progress: int, seeders: Option<int>, speed: Option<int>, links: seq<string>)

  /** A resolved link: file name, size and direct URL. */
  datatype Resolved = Resolved(filename: string, fileSize: int, download: string)

  /** The answers of the remote service: GetTorrent by id, DebridTorrent by link. */
  datatype Remote = Remote(torrents: map<string, RemoteTorrent>, links: map<string, Resolved>)

  /** A call that changes the remote side. */
  datatype RemoteCall = RemoteDelete(rdId: string) | RemoteAccept(rdId: string)

  /** Everything a tick can change: the tables, the remote calls made, the downloads handed to the engine. */
  datatype World = World(tb: Tables, calls: seq<RemoteCall>, submitted: seq<Download<DownloadRow>>)

  /**
   * updateInternalStatus: a row already waiting for, or in, a download, or
   * in error, keeps its status while the remote copy stays `downloaded`;
   * otherwise the remote status alone decides.
   */
  function UpdateInternalStatus(internal: InternalStatus, remoteStatus: string): (r: InternalStatus)
    ensures r != InternalDownloaded && r != NotSet
    ensures remoteStatus != "downloaded" ==> r == if remoteStatus == "dead" then InternalError else Waiting
    ensures remoteStatus == "downloaded" ==>
      (r == internal <==> internal == WaitingForDownload || internal == InternalError || internal == InternalDownloading)
    ensures remoteStatus == "downloaded" && internal != InternalError && internal != InternalDownloading ==>
      r == WaitingForDownload
  {
    if (internal == WaitingForDownload || internal == InternalError || internal == InternalDownloading)
       && remoteStatus == "downloaded" then internal
    else if remoteStatus == "downloaded" then WaitingForDownload
    else if remoteStatus == "dead" then InternalError
    else Waiting
  }

  /** The status switch of `Run`, given the internal status it ends with. */
  function NextStatus(current: Status, remoteStatus: string, internal: InternalStatus): (r: Status)
    ensures r == Downloading <==>
      remoteStatus == "downloading" || (remoteStatus == "downloaded" && internal == InternalDownloading)
      || (remoteStatus == "waiting_files_selection" && current == Downloading)
    ensures remoteStatus == "waiting_files_selection" ==> r == current
    ensures remoteStatus == "downloaded" ==> r == if internal == InternalDownloading then Downloading else PausedUP
    ensures remoteStatus == "dead" ==> r == Error
    ensures remoteStatus == "queue" ==> r == QueuedUP
    ensures remoteStatus == "uploading" ==> r == CheckingUP
    ensures remoteStatus !in ["downloaded", "dead", "queue", "downloading", "uploading", "waiting_files_selection"] ==>
      r == Unknown
  {
    match remoteStatus
    case "downloaded" => if internal == InternalDownloading then Downloading else PausedUP
    case "dead" => Error
    case "queue" => QueuedUP
    case "downloading" => Downloading
    case "uploading" => CheckingUP
    case "waiting_files_selection" => current
    case _ => Unknown
  }

  /** `savePath/category/RDName` */
  function DownloadSavePath(savePath: string, t: Torrent): string
  {
    JoinPath(JoinPath(savePath, t.category), t.rdName)
  }

  /** The download row `saveDownload` builds for a resolved link (its id is set by Create). */
  function NewRow(t: Torrent, link: Resolved, savePath: string): DownloadRow
  {
    DownloadRow(0, 0, t.id, link.filename, link.fileSize, "", DownloadSavePath(savePath, t), link.download, false, 0, 0)
  }

  /** The record `saveDownload` builds inline is what `NewDownload` gives for user 0, an unset file path and an incomplete row, with its save path filled in. */
  lemma NewRowIsNewDownload(t: Torrent, link: Resolved, savePath: string)
    ensures NewRow(t, link, savePath)
            == NewDownload(0, t.id, link.filename, link.fileSize, "", link.download, false).(savePath := DownloadSavePath(savePath, t))
  {
  }

  /** The engine submission for a created row; the row itself travels as the submission's `Object`. */
  function Submission(row: DownloadRow): Download<DownloadRow>
  {
    Download(row.url, row.fileName, row.fileSize, row.savePath, 0, 0, 0, row)
  }

  /** saveDownload over `links`: one row and one submission per link the remote service resolves. */
  function SaveDownloads(w: World, t: Torrent, links: seq<string>, remote: Remote, savePath: string): World
  {
    if links == [] then w
    else
      var before := SaveDownloads(w, t, links[..|links| - 1], remote, savePath);
      var link := links[|links| - 1];
      if link !in remote.links then before
      else
        var row := NewRow(t, remote.links[link], savePath).(id := before.tb.nextDownload);
        before.(tb := InsertDownload(before.tb, row), submitted := before.submitted + [Submission(row)])
  }

  /** The row as `Run` saves it after asking the remote service. */
  function Refreshed(t: Torrent, info: RemoteTorrent, internal: InternalStatus): Torrent
  {
    t.(status := NextStatus(t.status, info.status, internal), internal := internal,
       rdProgress := info.progress,
       rdSeeders := if info.seeders.Some? then info.seeders.value else t.rdSeeders,
       rdSpeed := if info.speed.Some? then info.speed.value else t.rdSpeed)
  }

  /** The remote branch of the tick, for a row the remote service answers for. */
  function Refresh(w: World, t: Torrent, info: RemoteTorrent, remote: Remote, savePath: string): World
  {
    var internal := UpdateInternalStatus(t.internal, info.status);
    var fetch := info.status == "downloaded" && internal == WaitingForDownload;
    var w1 := if fetch then SaveDownloads(w, t, info.links, remote, savePath) else w;
    var internal' := if fetch then InternalDownloading else internal;
    var calls := if info.status == "waiting_files_selection" then w1.calls + [RemoteAccept(t.rdId)] else w1.calls;
    w1.(tb := SaveTorrent(w1.tb, Refreshed(t, info, internal')), calls := calls)
  }

  /** One iteration of `Run`'s loop, for the snapshot row `t`. */
  function Tick(w: World, t: Torrent, remote: Remote, savePath: string): World
  {
    var tb0 := if t.rdId == "" then RemoveTorrent(w.tb, t.id) else w.tb;
    if HasDownload(tb0, t.id) && AllDownloadsAreDownloaded(tb0, t.id) then
      w.(tb := SaveTorrent(tb0, t.(status := Downloaded, internal := InternalDownloaded)))
    else if t.rdId !in remote.torrents then
      w.(tb := RemoveTorrent(tb0, t.id), calls := w.calls + [RemoteDelete(t.rdId)])
    else
      Refresh(w.(tb := tb0), t, remote.torrents[t.rdId], remote, savePath)
  }

  /** The ticks of `rows`, in order. */
  function RunRows(w: World, rows: seq<Torrent>, remote: Remote, savePath: string): World
  {
    if rows == [] then w else Tick(RunRows(w, rows[..|rows| - 1], remote, savePath), rows[|rows| - 1], remote, savePath)
  }

  class TorrentUpdater {
    const db: Database
    const remote: Remote
    /** `preferences.GetSavePath()` */
    const savePath: string
    var calls: seq<RemoteCall>
    var submitted: seq<Download<DownloadRow>>

    function Now(): World
      reads this, db
    {
      World(db.State(), calls, submitted)
    }

    constructor (db: Database, remote: Remote, savePath: string)
      ensures this.db == db && this.remote == remote && this.savePath == savePath
      ensures calls == [] && submitted == []
    {
      this.db := db;
      this.remote := remote;
      this.savePath := savePath;
      calls := [];
      submitted := [];
    }

    /** saveDownload(torrent, info) */
    method SaveDownload(t: Torrent, info: RemoteTorrent)
      modifies this, db
      ensures Now() == SaveDownloads(old(Now()), t, info.links, remote, savePath)
    {
      var i := 0;
      while i < |info.links|
        invariant 0 <= i <= |info.links|
        invariant Now() == SaveDownloads(old(Now()), t, info.links[..i], remote, savePath)
      {
        assert info.links[..i + 1][..i] == info.links[..i];
        var link := info.links[i];
        if link in remote.links {
          var resolved := remote.links[link];
          var row := NewRow(t, resolved, savePath);
          var id := db.CreateDownload(row);
          row := row.(id := id);
          submitted := submitted + [Submission(row)];
        }
        i := i + 1;
      }
      assert info.links[..i] == info.links;
    }

    /** The body of `Run`'s loop for the snapshot row `t`. */
    method Visit(t: Torrent)
      modifies this, db
      ensures Now() == Tick(old(Now()), t, remote, savePath)
    {
      if t.rdId == "" {
        db.DeleteTorrent(t.id);
      }
      if HasDownload(db.State(), t.id) && AllDownloadsAreDownloaded(db.State(), t.id) {
        db.UpdateTorrent(t.(status := Downloaded, internal := InternalDownloaded));
        return;
      }
      if t.rdId !in remote.torrents {
        calls := calls + [RemoteDelete(t.rdId)];
        db.DeleteTorrent(t.id);
        return;
      }
      RefreshRow(t, remote.torrents[t.rdId]);
    }

    /** The rest of `Run`'s loop body, once the remote service has answered `info` for `t`. */
    method RefreshRow(t: Torrent, info: RemoteTorrent)
      modifies this, db
      ensures Now() == Refresh(old(Now()), t, info, remote, savePath)
    {
      ghost var w0 := Now();
      var torrent := t.(internal := UpdateInternalStatus(t.internal, info.status));
      ghost var fetch := info.status == "downloaded" && torrent.internal == WaitingForDownload;
      match info.status {
        case "downloaded" =>
          if torrent.internal == WaitingForDownload {
            SaveDownload(torrent, info);
            SaveDownloadsSameRow(w0, torrent, t, info.links, remote, savePath);
            torrent := torrent.(internal := InternalDownloading);
          }
          if torrent.internal == InternalDownloading {
            torrent := torrent.(status := Downloading);
          } else {
            torrent := torrent.(status := PausedUP);
          }
        case "dead" => torrent := torrent.(status := Error);
        case "queue" => torrent := torrent.(status := QueuedUP);
        case "downloading" => torrent := torrent.(status := Downloading);
        case "uploading" => torrent := torrent.(status := CheckingUP);
        case "waiting_files_selection" => calls := calls + [RemoteAccept(t.rdId)];
        case _ => torrent := torrent.(status := Unknown);
      }
      torrent := torrent.(rdProgress := info.progress);
      if info.seeders.Some? {
        torrent := torrent.(rdSeeders := info.seeders.value);
      }
      if info.speed.Some? {
        torrent := torrent.(rdSpeed := info.speed.value);
      }
      assert torrent == Refreshed(t, info, torrent.internal);
      ghost var w1 := if fetch then SaveDownloads(w0, t, info.links, remote, savePath) else w0;
      assert Now() == w1.(calls := if info.status == "waiting_files_selection" then w1.calls + [RemoteAccept(t.rdId)] else w1.calls);
      assert torrent.internal == if fetch then InternalDownloading else UpdateInternalStatus(t.internal, info.status);
      db.UpdateTorrent(torrent);
    }

    /** Run: one tick over the torrents that are not `downloaded`, as they stood when the tick began. */
    method Run()
      modifies this, db
      ensures Now() == RunRows(old(Now()), FindAllNotDownloaded(old(db.State())), remote, savePath)
    {
      ghost var start := Now();
      var rows := FindAllNotDownloaded(db.State());
      var i := 0;
      while i < |rows|
        invariant 0 <= i <= |rows|
        invariant Now() == RunRows(start, rows[..i], remote, savePath)
      {
        assert RunRows(start, rows[..i + 1], remote, savePath)
               == Tick(RunRows(start, rows[..i], remote, savePath), rows[i], remote, savePath) by {
          assert rows[..i + 1][..i] == rows[..i];
        }
        Visit(rows[i]);
        i := i + 1;
      }
      assert rows[..i] == rows;
    }
  }

  // ---------------------------------------------------------------------
  // What a tick does

  /** Applying the status update twice is applying it once. */
  lemma UpdateInternalStatusIdempotent(internal: InternalStatus, remoteStatus: string)
    ensures UpdateInternalStatus(UpdateInternalStatus(internal, remoteStatus), remoteStatus)
            == UpdateInternalStatus(internal, remoteStatus)
  {
  }

  /** saveDownload adds as many rows as submissions, one per resolvable link, each for this torrent under `savePath/category/RDName`. */
  lemma {:induction false} SaveDownloadsEffect(w: World, t: Torrent, links: seq<string>, remote: Remote, savePath: string)
    requires Valid(w.tb)
    ensures var w' := SaveDownloads(w, t, links, remote, savePath);
      && Valid(w'.tb)
      && w'.tb.torrents == w.tb.torrents && w'.calls == w.calls
      && |w'.submitted| == |w.submitted| + Resolvable(links, remote)
      && |w'.tb.downloads| == |w.tb.downloads| + Resolvable(links, remote)
      && w'.submitted[..|w.submitted|] == w.submitted
      && (forall k :: k in w.tb.downloads ==> k in w'.tb.downloads && w'.tb.downloads[k] == w.tb.downloads[k])
      && (forall i :: |w.submitted| <= i < |w'.submitted| ==>
            var row := w'.submitted[i].obj;
            && row.torrentId == t.id && !row.isDownloaded
            && row.savePath == DownloadSavePath(savePath, t) && w'.submitted[i].savePath == row.savePath
            && row.id in w'.tb.downloads && w'.tb.downloads[row.id] == row)
  {
    if links != [] {
      var init := links[..|links| - 1];
      SaveDownloadsEffect(w, t, init, remote, savePath);
      var before := SaveDownloads(w, t, init, remote, savePath);
      var link := links[|links| - 1];
      if link in remote.links {
        var row := NewRow(t, remote.links[link], savePath).(id := before.tb.nextDownload);
        CreateDownloadAddsOne(before.tb, row);
        var after := SaveDownloads(w, t, links, remote, savePath);
        assert after.submitted == before.submitted + [Submission(row)];
        assert after.submitted[..|before.submitted|] == before.submitted;
      }
    }
  }

  /** The number of links the remote service resolves. */
  function Resolvable(links: seq<string>, remote: Remote): nat
  {
    if links == [] then 0
    else Resolvable(links[..|links| - 1], remote) + if links[|links| - 1] in remote.links then 1 else 0
  }

  /** A row whose downloads are all complete is settled without a remote call and without a submission. */
  lemma TickSettlesComplete(w: World, t: Torrent, remote: Remote, savePath: string)
    requires t.rdId != "" && HasDownload(w.tb, t.id) && AllDownloadsAreDownloaded(w.tb, t.id)
    ensures Tick(w, t, remote, savePath)
            == w.(tb := SaveTorrent(w.tb, t.(status := Downloaded, internal := InternalDownloaded)))
  {
  }

  /** A row the remote service does not answer for is deleted there and here, and nothing else happens. */
  lemma TickDropsUnknown(w: World, t: Torrent, remote: Remote, savePath: string)
    requires t.rdId !in remote.torrents
    requires !(HasDownload(w.tb, t.id) && AllDownloadsAreDownloaded(w.tb, t.id))
    requires t.rdId != ""
    ensures var w' := Tick(w, t, remote, savePath);
      && t.id !in w'.tb.torrents
      && (forall k :: k in w'.tb.torrents <==> k in w.tb.torrents && k != t.id)
      && w'.tb.downloads == w.tb.downloads
      && w'.calls == w.calls + [RemoteDelete(t.rdId)] && w'.submitted == w.submitted
  {
  }

  /**
   * A row the remote service reports `dead` is kept and marked `error`, not
   * deleted (the row stands for itself in the table, so its `RDId` is its own).
   */
  lemma TickDeadMarksError(w: World, t: Torrent, remote: Remote, savePath: string)
    requires Valid(w.tb) && t.id in w.tb.torrents && w.tb.torrents[t.id] == t && t.rdId != ""
    requires t.rdId in remote.torrents && remote.torrents[t.rdId].status == "dead"
    requires !(HasDownload(w.tb, t.id) && AllDownloadsAreDownloaded(w.tb, t.id))
    ensures var w' := Tick(w, t, remote, savePath);
      && t.id in w'.tb.torrents
      && w'.tb.torrents[t.id].status == Error && w'.tb.torrents[t.id].internal == InternalError
      && w'.tb.torrents[t.id].rdProgress == remote.torrents[t.rdId].progress
      && w'.calls == w.calls && w'.submitted == w.submitted
  {
    var info := remote.torrents[t.rdId];
    var t' := Refreshed(t, info, InternalError);
    assert !Clash(w.tb.torrents, t');
  }

  /**
   * When the remote copy has finished and the row is new or waiting for its
   * download (as every `downloading` row is after a restart), the row gets
   * one download row and one submission per resolvable link and becomes
   * `downloading`.
   */
  lemma TickStartsDownloads(w: World, t: Torrent, remote: Remote, savePath: string)
    requires Valid(w.tb) && t.id in w.tb.torrents && w.tb.torrents[t.id] == t && t.rdId != ""
    requires t.rdId in remote.torrents && remote.torrents[t.rdId].status == "downloaded"
    requires t.internal !in {InternalError, InternalDownloading}
    requires !(HasDownload(w.tb, t.id) && AllDownloadsAreDownloaded(w.tb, t.id))
    ensures var w' := Tick(w, t, remote, savePath);
      && t.id in w'.tb.torrents
      && w'.tb.torrents[t.id].status == Downloading && w'.tb.torrents[t.id].internal == InternalDownloading
      && |w'.submitted| == |w.submitted| + Resolvable(remote.torrents[t.rdId].links, remote)
      && w'.calls == w.calls
  {
    var info := remote.torrents[t.rdId];
    SaveDownloadsEffect(w, t, info.links, remote, savePath);
    var w1 := SaveDownloads(w, t, info.links, remote, savePath);
    var t' := Refreshed(t, info, InternalDownloading);
    assert !Clash(w1.tb.torrents, t');
  }

  /**
   * A torrent that had a complete and an incomplete download row when the
   * service stopped loses the incomplete one in the startup recovery, and the
   * first tick after it marks the torrent downloaded: the lost file is never
   * submitted again.
   */
  lemma RestartSettlesPartial(w: World, t: Torrent, done: nat, lost: nat, remote: Remote, savePath: string)
    requires Valid(w.tb) && t.id in w.tb.torrents && w.tb.torrents[t.id] == t && t.rdId != ""
    requires done in w.tb.downloads && w.tb.downloads[done].torrentId == t.id && w.tb.downloads[done].isDownloaded
    requires lost in w.tb.downloads && w.tb.downloads[lost].torrentId == t.id && !w.tb.downloads[lost].isDownloaded
    ensures var tb := Service.Recover(w.tb);
      && t.id in tb.torrents && lost !in tb.downloads
      && var w' := Tick(w.(tb := tb), tb.torrents[t.id], remote, savePath);
      && t.id in w'.tb.torrents
      && w'.tb.torrents[t.id].status == Downloaded && w'.tb.torrents[t.id].internal == InternalDownloaded
      && w'.submitted == w.submitted && w'.calls == w.calls
  {
    var tb := Service.Recover(w.tb);
    Service.RecoverKeeps(w.tb);
    Service.RecoverClean(w.tb);
    HasDownloadIff(tb, t.id);
    AllDownloadsAreDownloadedIff(tb, t.id);
    var t0 := tb.torrents[t.id];
    TickSettlesComplete(w.(tb := tb), t0, remote, savePath);
    assert !Clash(tb.torrents, t0.(status := Downloaded, internal := InternalDownloaded));
  }

  /**
   * A row without `RDId` is deleted, but the tick goes on with it: when its
   * downloads are all complete, the save puts it back.
   */
  lemma EmptyRDIdFallsThrough(w: World, t: Torrent, remote: Remote, savePath: string)
    requires Valid(w.tb) && t.id in w.tb.torrents && w.tb.torrents[t.id] == t && t.rdId == ""
    requires HasDownload(w.tb, t.id) && AllDownloadsAreDownloaded(w.tb, t.id)
    ensures var w' := Tick(w, t, remote, savePath);
      && t.id in w'.tb.torrents
      && w'.tb.torrents[t.id] == t.(status := Downloaded, internal := InternalDownloaded)
  {
    var tb0 := RemoveTorrent(w.tb, t.id);
    assert tb0.downloads == w.tb.downloads && tb0.nextDownload == w.tb.nextDownload;
    var t' := t.(status := Downloaded, internal := InternalDownloaded);
    assert !Clash(tb0.torrents, t');
  }

  /** A tick changes no torrent row but its own. */
  lemma TickTouchesOnlyItsRow(w: World, t: Torrent, remote: Remote, savePath: string, k: nat)
    requires t.id != 0 && k != t.id
    ensures var w' := Tick(w, t, remote, savePath);
      && (k in w'.tb.torrents <==> k in w.tb.torrents)
      && (k in w.tb.torrents ==> w'.tb.torrents[k] == w.tb.torrents[k])
  {
    var tb0 := if t.rdId == "" then RemoveTorrent(w.tb, t.id) else w.tb;
    assert (k in tb0.torrents <==> k in w.tb.torrents) && (k in tb0.torrents ==> tb0.torrents[k] == w.tb.torrents[k]);
    if HasDownload(tb0, t.id) && AllDownloadsAreDownloaded(tb0, t.id) {
      SaveTorrentKeepsOthers(tb0, t.(status := Downloaded, internal := InternalDownloaded), k);
    } else if t.rdId in remote.torrents {
      var info := remote.torrents[t.rdId];
      var internal := UpdateInternalStatus(t.internal, info.status);
      var fetch := info.status == "downloaded" && internal == WaitingForDownload;
      var w1 := if fetch then SaveDownloads(w.(tb := tb0), t, info.links, remote, savePath) else w.(tb := tb0);
      if fetch {
        SaveDownloadsTorrents(w.(tb := tb0), t, info.links, remote, savePath);
      }
      assert w1.tb.torrents == tb0.torrents;
      SaveTorrentKeepsOthers(w1.tb, Refreshed(t, info, if fetch then InternalDownloading else internal), k);
    }
  }

  /** Saving one row leaves every other row as it was. */
  lemma SaveTorrentKeepsOthers(tb: Tables, t: Torrent, k: nat)
    requires t.id != 0 && k != t.id
    ensures k in SaveTorrent(tb, t).torrents <==> k in tb.torrents
    ensures k in tb.torrents ==> SaveTorrent(tb, t).torrents[k] == tb.torrents[k]
  {
  }

  /** saveDownload reads only the id, category and name of the torrent. */
  lemma {:induction false} SaveDownloadsSameRow(w: World, t: Torrent, u: Torrent, links: seq<string>, remote: Remote, savePath: string)
    requires t.id == u.id && t.category == u.category && t.rdName == u.rdName
    ensures SaveDownloads(w, t, links, remote, savePath) == SaveDownloads(w, u, links, remote, savePath)
  {
    if links != [] {
      SaveDownloadsSameRow(w, t, u, links[..|links| - 1], remote, savePath);
    }
  }

  /** saveDownload leaves the torrents table alone. */
  lemma {:induction false} SaveDownloadsTorrents(w: World, t: Torrent, links: seq<string>, remote: Remote, savePath: string)
    ensures SaveDownloads(w, t, links, remote, savePath).tb.torrents == w.tb.torrents
  {
    if links != [] {
      SaveDownloadsTorrents(w, t, links[..|links| - 1], remote, savePath);
    }
  }

  /** A tick over `rows` changes no torrent row outside them. */
  lemma {:induction false} RunTouchesOnlyVisited(w: World, rows: seq<Torrent>, remote: Remote, savePath: string, k: nat)
    requires forall i :: 0 <= i < |rows| ==> rows[i].id != 0 && rows[i].id != k
    ensures var w' := RunRows(w, rows, remote, savePath);
      && (k in w'.tb.torrents <==> k in w.tb.torrents)
      && (k in w.tb.torrents ==> w'.tb.torrents[k] == w.tb.torrents[k])
  {
    if rows != [] {
      RunTouchesOnlyVisited(w, rows[..|rows| - 1], remote, savePath, k);
      TickTouchesOnlyItsRow(RunRows(w, rows[..|rows| - 1], remote, savePath), rows[|rows| - 1], remote, savePath, k);
    }
  }

  /** `Run` only visits rows that are not `downloaded`: a `downloaded` row comes out of the tick as it went in. */
  lemma RunKeepsDownloaded(w: World, remote: Remote, savePath: string, k: nat)
    requires Valid(w.tb) && k in w.tb.torrents && w.tb.torrents[k].internal == InternalDownloaded
    ensures var w' := RunRows(w, FindAllNotDownloaded(w.tb), remote, savePath);
      k in w'.tb.torrents && w'.tb.torrents[k] == w.tb.torrents[k]
  {
    var rows := FindAllNotDownloaded(w.tb);
    forall i | 0 <= i < |rows| ensures rows[i].id != 0 && rows[i].id != k {
      assert rows[i] in rows;
    }
    RunTouchesOnlyVisited(w, rows, remote, savePath, k);
  }
}

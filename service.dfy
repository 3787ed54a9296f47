/**
 * internal/qbrdt/qbrdt.go: the recovery the service runs at startup, and the
 * two hooks it gives the download engine. The startup purges incomplete
 * download rows and then puts every `downloading` torrent back to
 * `waiting_for_download`; the finish hook marks its row complete and, once
 * every download of the torrent is complete, the torrent downloaded.
 */
module Service {
  import opened Store
  import opened Engine
  import ChunkWorker

  /** The tables after startup recovery: purge, then reset. */
  function Recover(tb: Tables): Tables
  {
    ResetDownloading(PurgeIncomplete(tb))
  }

  /** `Run`'s first two statements. */
  method Startup(db: Database)
    modifies db
    ensures db.State() == Recover(old(db.State()))
  {
    db.CleanAllDownloads();
    db.UpdateTorrentsStatusToWaitingForDownload();
  }

  /** After recovery no download row is incomplete and no torrent is `downloading`. */
  lemma RecoverClean(tb: Tables)
    ensures forall k :: k in Recover(tb).downloads ==> Recover(tb).downloads[k].isDownloaded
    ensures forall k :: k in Recover(tb).torrents ==> Recover(tb).torrents[k].internal != InternalDownloading
  {
    var purged := PurgeIncomplete(tb);
    assert forall k :: k in Recover(tb).torrents ==> Recover(tb).torrents[k] == Reset(purged.torrents[k]);
  }

  /**
   * Recovery keeps every complete download row and every torrent, and
   * changes nothing but the internal status of the `downloading` ones.
   */
  lemma RecoverKeeps(tb: Tables)
    ensures Valid(tb) ==> Valid(Recover(tb))
    ensures forall k :: k in tb.downloads && tb.downloads[k].isDownloaded ==>
      k in Recover(tb).downloads && Recover(tb).downloads[k] == tb.downloads[k]
    ensures Recover(tb).torrents.Keys == tb.torrents.Keys
    ensures forall k :: k in tb.torrents && tb.torrents[k].internal != InternalDownloading ==>
      Recover(tb).torrents[k] == tb.torrents[k]
    ensures forall k :: k in tb.torrents && tb.torrents[k].internal == InternalDownloading ==>
      Recover(tb).torrents[k] == tb.torrents[k].(internal := WaitingForDownload)
  {
    var purged := PurgeIncomplete(tb);
    assert purged.torrents == tb.torrents;
  }

  /** Running the recovery again changes nothing. */
  lemma RecoverIdempotent(tb: Tables)
    ensures Recover(Recover(tb)) == Recover(tb)
  {
    var once := Recover(tb);
    RecoverClean(tb);
    assert PurgeIncomplete(once) == once;
    ResetDownloadingIdempotent(PurgeIncomplete(tb));
  }

  /** The two steps touch different tables, so their order does not matter. */
  lemma RecoverOrderIrrelevant(tb: Tables)
    ensures PurgeIncomplete(ResetDownloading(tb)) == Recover(tb)
  {
  }

  // ---------------------------------------------------------------------
  // The hooks

  /** What the finish hook does to the tables for the row it is handed. */
  function Finish(tb: Tables, row: DownloadRow): Tables
  {
    var saved := SaveDownload(tb, row.(isDownloaded := true));
    if AllDownloadsAreDownloaded(saved, row.torrentId) then MarkTorrentDownloaded(saved, row.torrentId) else saved
  }

  /** The finish hook: `Object.Downloaded = true`, save the row, and mark the torrent when all its rows are complete. */
  method OnFinish(db: Database, d: Download<DownloadRow>)
    modifies db
    ensures db.State() == Finish(old(db.State()), d.obj)
  {
    var row := d.obj.(isDownloaded := true);
    db.UpdateDownload(row);
    if AllDownloadsAreDownloaded(db.State(), row.torrentId) {
      db.UpdateTorrentStatusToDownloaded(row.torrentId);
    }
  }

  /** What a hook call does: the update hook is empty, the finish hook is `Finish`. */
  function Hook(tb: Tables, c: Callback<DownloadRow>): (r: Tables)
    ensures c.Updated? ==> r == tb
    ensures c.Finished? ==> r == Finish(tb, c.d.obj)
  {
    match c
    case Updated(_) => tb
    case Finished(d) => Finish(tb, d.obj)
  }

  /** The tables after the hooks have run for each call of the engine's log, in order. */
  function ApplyHooks(tb: Tables, cs: seq<Callback<DownloadRow>>): Tables
  {
    if cs == [] then tb else Hook(ApplyHooks(tb, cs[..|cs| - 1]), cs[|cs| - 1])
  }

  /** The update calls of a download leave the tables as they were. */
  lemma {:induction false} UpdatesChangeNothing(tb: Tables, d: Download<DownloadRow>, events: seq<ChunkWorker.Progress>, chunk: int)
    requires chunk >= 1
    ensures ApplyHooks(tb, Updates(d, events, chunk)) == tb
  {
    if events != [] {
      var cs := Updates(d, events, chunk);
      assert cs[..|cs| - 1] == Updates(d, events[..|events| - 1], chunk);
      UpdatesChangeNothing(tb, d, events[..|events| - 1], chunk);
    }
  }

  /**
   * The hook calls one `AddDownload` makes (an update per event, then the
   * finish) amount to a single `Finish` of the row the download carries.
   */
  lemma {:induction false} DownloadHooks(tb: Tables, d: Download<DownloadRow>, events: seq<ChunkWorker.Progress>, chunk: int)
    requires chunk >= 1
    ensures ApplyHooks(tb, Updates(d, events, chunk) + [Finished(Fold(d, events, chunk))]) == Finish(tb, d.obj)
  {
    var cs := Updates(d, events, chunk) + [Finished(Fold(d, events, chunk))];
    assert cs[..|cs| - 1] == Updates(d, events, chunk);
    UpdatesChangeNothing(tb, d, events, chunk);
    if events != [] {
      LastEventWins(d, events, chunk);
    }
  }

  /** The row the hook is handed is complete afterwards, and no other download row changes. */
  lemma FinishMarksRow(tb: Tables, row: DownloadRow)
    requires Valid(tb) && row.id != 0
    ensures Finish(tb, row).downloads == tb.downloads[row.id := row.(isDownloaded := true)]
  {
  }

  /**
   * The torrent becomes `downloaded` exactly when every other download row
   * of it is already complete; otherwise no torrent changes.
   */
  lemma FinishMarksTorrent(tb: Tables, row: DownloadRow)
    requires Valid(tb) && row.id != 0
    ensures var othersDone := forall k :: k in tb.downloads && k != row.id && tb.downloads[k].torrentId == row.torrentId ==>
                                           tb.downloads[k].isDownloaded;
      && (othersDone && row.torrentId in tb.torrents ==>
            Finish(tb, row).torrents == tb.torrents[row.torrentId := tb.torrents[row.torrentId].(status := Downloaded, internal := InternalDownloaded)])
      && (!othersDone ==> Finish(tb, row).torrents == tb.torrents)
  {
    var saved := SaveDownload(tb, row.(isDownloaded := true));
    var othersDone := forall k :: k in tb.downloads && k != row.id && tb.downloads[k].torrentId == row.torrentId ==>
                                  tb.downloads[k].isDownloaded;
    AllDownloadsAreDownloadedIff(saved, row.torrentId);
    assert AllDownloadsAreDownloaded(saved, row.torrentId) <==> othersDone by {
      if othersDone {
        forall id | id in saved.downloads && saved.downloads[id].torrentId == row.torrentId
          ensures saved.downloads[id].isDownloaded
        {
          if id != row.id {
            assert saved.downloads[id] == tb.downloads[id];
          }
        }
      } else {
        var k :| k in tb.downloads && k != row.id && tb.downloads[k].torrentId == row.torrentId && !tb.downloads[k].isDownloaded;
        assert saved.downloads[k] == tb.downloads[k];
      }
    }
  }

  /** Handing the hook the same row twice is handing it once. */
  lemma FinishIdempotent(tb: Tables, row: DownloadRow)
    requires Valid(tb) && row.id != 0
    ensures Finish(Finish(tb, row), row) == Finish(tb, row)
  {
    var done := row.(isDownloaded := true);
    var saved := SaveDownload(tb, done);
    var once := Finish(tb, row);
    assert once.downloads == saved.downloads && once.nextDownload == saved.nextDownload;
    assert SaveDownload(once, done) == once by {
      assert once.downloads[row.id := done] == once.downloads;
    }
    assert AllDownloadsAreDownloaded(once, row.torrentId) == AllDownloadsAreDownloaded(saved, row.torrentId);
    if AllDownloadsAreDownloaded(saved, row.torrentId) {
      MarkTwice(saved, row.torrentId);
    }
  }

  /** Marking a torrent downloaded twice is marking it once. */
  lemma MarkTwice(tb: Tables, id: nat)
    ensures MarkTorrentDownloaded(MarkTorrentDownloaded(tb, id), id) == MarkTorrentDownloaded(tb, id)
  {
    var once := MarkTorrentDownloaded(tb, id);
    if id in tb.torrents {
      assert once.torrents[id := once.torrents[id].(status := Downloaded, internal := InternalDownloaded)] == once.torrents;
    }
  }
}

/**
 * The two tables of internal/database (torrents.go, download.go) and what
 * each repository method does to them. Both repositories share one
 * database, so one `Database` object holds both tables; each method's new
 * state is given by a pure function on `Tables`, and the functions carry
 * the properties: the `Where` clauses become filters, the bulk updates
 * become maps over the rows.
 *
 * Row identifiers are handed out by a counter that only grows. `Save`
 * updates the row with the record's id or inserts it when there is none;
 * `Delete` removes the row.
 */
module Store {
  import opened Wrappers

  /** TorrentStatus: every value the service writes into `status`. */
  datatype Status = Queued | Downloading | Downloaded | Error | PausedUP | QueuedUP | CheckingUP | Unknown

  /** TorrentInternalStatus, and the empty value of a torrent created without one. */
  datatype InternalStatus = NotSet | Waiting | WaitingForDownload | InternalDownloading | InternalDownloaded | InternalError

  /** A torrents row (the columns the service reads or writes). */
  datatype Torrent = Torrent(
    id: nat, status: Status, category: string, rdId: string, rdProgress: int,
    rdName: string, rdSpeed: int, rdSeeders: int, internal: InternalStatus)

  /** A downloads row, with one completion flag (`IsDownloaded`). */
  datatype DownloadRow = DownloadRow(
    id: nat, userId: int, torrentId: nat, fileName: string, fileSize: int,
    filePath: string, savePath: string, url: string, isDownloaded: bool,
    progress: int, downloaded: int)

  /** NewDownload: a record carrying its arguments, with no id, no save path and no progress yet. */
  function NewDownload(userId: int, torrentId: nat, fileName: string, fileSize: int, filePath: string,
                       url: string, downloaded: bool): (r: DownloadRow)
    ensures r.userId == userId && r.torrentId == torrentId && r.fileName == fileName && r.fileSize == fileSize
    ensures r.filePath == filePath && r.url == url && r.isDownloaded == downloaded
    ensures r.id == 0 && r.savePath == ""
    ensures r.progress == 0 && r.downloaded == 0
  {
    DownloadRow(0, userId, torrentId, fileName, fileSize, filePath, "", url, downloaded, 0, 0)
  }

  /** Both tables, keyed by row id, and the next id each will hand out. */
  datatype Tables = Tables(
    torrents: map<nat, Torrent>, downloads: map<nat, DownloadRow>,
    nextTorrent: nat, nextDownload: nat)

  /** Each row sits under its own id, below the next id; no two torrents share an `RDId` (`gorm:"unique"`). */
  ghost predicate Valid(tb: Tables)
  {
    && tb.nextTorrent >= 1 && tb.nextDownload >= 1
    && (forall id :: id in tb.torrents ==> 1 <= id < tb.nextTorrent && tb.torrents[id].id == id)
    && (forall id :: id in tb.downloads ==> 1 <= id < tb.nextDownload && tb.downloads[id].id == id)
    && UniqueRDIds(tb.torrents)
  }

  ghost predicate UniqueRDIds(m: map<nat, Torrent>)
  {
    forall a, b :: a in m && b in m && m[a].rdId == m[b].rdId ==> a == b
  }

  /** The tables of a fresh database. */
  function Empty(): (tb: Tables)
    ensures Valid(tb) && tb.torrents == map[] && tb.downloads == map[]
  {
    Tables(map[], map[], 1, 1)
  }

  /** Another row than `t`'s own already holds `t.rdId`. */
  predicate Clash(m: map<nat, Torrent>, t: Torrent)
  {
    exists id :: id in m && id != t.id && m[id].rdId == t.rdId
  }

  function Max(a: nat, b: nat): nat { if a < b then b else a }

  // ---------------------------------------------------------------------
  // Writes

  /** TorrentRepository.Create: the row gets the next id; an `RDId` already present is refused and nothing changes. */
  function InsertTorrent(tb: Tables, t: Torrent): (r: Tables)
    ensures Valid(tb) ==> Valid(r)
    ensures r.downloads == tb.downloads
    ensures Clash(tb.torrents, t.(id := tb.nextTorrent)) ==> r == tb
    ensures !Clash(tb.torrents, t.(id := tb.nextTorrent)) ==>
      r.torrents == tb.torrents[tb.nextTorrent := t.(id := tb.nextTorrent)] && r.nextTorrent > tb.nextTorrent
  {
    var row := t.(id := tb.nextTorrent);
    if Clash(tb.torrents, row) then tb
    else tb.(torrents := tb.torrents[row.id := row], nextTorrent := tb.nextTorrent + 1)
  }

  /** TorrentRepository.Update (`Save`): the row with the record's id becomes the record; a record without an id is created. */
  function SaveTorrent(tb: Tables, t: Torrent): (r: Tables)
    ensures Valid(tb) ==> Valid(r)
    ensures r.downloads == tb.downloads
    ensures t.id != 0 && Clash(tb.torrents, t) ==> r == tb
    ensures t.id != 0 && !Clash(tb.torrents, t) ==> r.torrents == tb.torrents[t.id := t]
  {
    if t.id == 0 then InsertTorrent(tb, t)
    else if Clash(tb.torrents, t) then tb
    else tb.(torrents := tb.torrents[t.id := t], nextTorrent := Max(tb.nextTorrent, t.id + 1))
  }

  /** TorrentRepository.Delete(id) */
  function RemoveTorrent(tb: Tables, id: nat): (r: Tables)
    ensures Valid(tb) ==> Valid(r)
    ensures r.downloads == tb.downloads && id !in r.torrents
    ensures forall k :: k != id ==> (k in r.torrents <==> k in tb.torrents)
    ensures forall k :: k in r.torrents ==> r.torrents[k] == tb.torrents[k]
  {
    tb.(torrents := tb.torrents - {id})
  }

  /** TorrentRepository.DeleteByRDId: exactly the rows with that `RDId` disappear. */
  function RemoveByRDId(tb: Tables, rdId: string): (r: Tables)
    ensures Valid(tb) ==> Valid(r)
    ensures r.downloads == tb.downloads
    ensures forall k :: k in r.torrents <==> k in tb.torrents && tb.torrents[k].rdId != rdId
    ensures forall k :: k in r.torrents ==> r.torrents[k] == tb.torrents[k]
  {
    tb.(torrents := map k | k in tb.torrents && tb.torrents[k].rdId != rdId :: tb.torrents[k])
  }

  /** One row under UpdateTorrentsStatusToWaitingForDownload. */
  function Reset(t: Torrent): Torrent
  {
    if t.internal == InternalDownloading then t.(internal := WaitingForDownload) else t
  }

  /** UpdateTorrentsStatusToWaitingForDownload: every `downloading` row becomes `waiting_for_download`. */
  function ResetDownloading(tb: Tables): (r: Tables)
    ensures Valid(tb) ==> Valid(r)
    ensures r.downloads == tb.downloads && r.torrents.Keys == tb.torrents.Keys
    ensures forall k :: k in r.torrents ==> r.torrents[k] == Reset(tb.torrents[k])
  {
    tb.(torrents := map k | k in tb.torrents :: Reset(tb.torrents[k]))
  }

  /** UpdateTorrentStatusToDownloaded(id): status and internal status of that row become `downloaded`. */
  function MarkTorrentDownloaded(tb: Tables, id: nat): (r: Tables)
    ensures Valid(tb) ==> Valid(r)
    ensures r.downloads == tb.downloads && r.torrents.Keys == tb.torrents.Keys
    ensures id in r.torrents ==>
      r.torrents[id] == tb.torrents[id].(status := Downloaded, internal := InternalDownloaded)
    ensures forall k :: k in r.torrents && k != id ==> r.torrents[k] == tb.torrents[k]
  {
    if id in tb.torrents
    then tb.(torrents := tb.torrents[id := tb.torrents[id].(status := Downloaded, internal := InternalDownloaded)])
    else tb
  }

  /** DownloadRepository.Create: exactly one row is added, under the next id. */
  function InsertDownload(tb: Tables, d: DownloadRow): (r: Tables)
    ensures Valid(tb) ==> Valid(r)
    ensures r.torrents == tb.torrents
    ensures r.downloads == tb.downloads[tb.nextDownload := d.(id := tb.nextDownload)]
    ensures r.nextDownload == tb.nextDownload + 1
  {
    tb.(downloads := tb.downloads[tb.nextDownload := d.(id := tb.nextDownload)], nextDownload := tb.nextDownload + 1)
  }

  /** DownloadRepository.Update (`Save`): the row with the record's id becomes the record, the others stay. */
  function SaveDownload(tb: Tables, d: DownloadRow): (r: Tables)
    ensures Valid(tb) ==> Valid(r)
    ensures r.torrents == tb.torrents
    ensures d.id != 0 ==> r.downloads == tb.downloads[d.id := d]
  {
    if d.id == 0 then InsertDownload(tb, d)
    else tb.(downloads := tb.downloads[d.id := d], nextDownload := Max(tb.nextDownload, d.id + 1))
  }

  /** CleanAllDownloads: exactly the incomplete rows disappear. */
  function PurgeIncomplete(tb: Tables): (r: Tables)
    ensures Valid(tb) ==> Valid(r)
    ensures r.torrents == tb.torrents
    ensures forall k :: k in r.downloads <==> k in tb.downloads && tb.downloads[k].isDownloaded
    ensures forall k :: k in r.downloads ==> r.downloads[k] == tb.downloads[k]
  {
    tb.(downloads := map k | k in tb.downloads && tb.downloads[k].isDownloaded :: tb.downloads[k])
  }

  // ---------------------------------------------------------------------
  // Reads

  /** The rows with ids below `n` that satisfy `f`, in id order. */
  function Rows<T>(m: map<nat, T>, n: nat, f: T -> bool): (rs: seq<T>)
    ensures forall x :: x in rs ==> f(x) && exists id :: id < n && id in m && m[id] == x
    ensures forall id :: id < n && id in m && f(m[id]) ==> m[id] in rs
    ensures |rs| <= n
  {
    if n == 0 then []
    else
      var rest := Rows(m, n - 1, f);
      if n - 1 in m && f(m[n - 1]) then rest + [m[n - 1]] else rest
  }

  /** FindAllNotDownloaded */
  function FindAllNotDownloaded(tb: Tables): seq<Torrent>
  {
    Rows(tb.torrents, tb.nextTorrent, (t: Torrent) => t.internal != InternalDownloaded)
  }

  /** FindByStatus */
  function FindByStatus(tb: Tables, status: Status): seq<Torrent>
  {
    Rows(tb.torrents, tb.nextTorrent, (t: Torrent) => t.status == status)
  }

  /** FindByCategory */
  function FindByCategory(tb: Tables, category: string): seq<Torrent>
  {
    Rows(tb.torrents, tb.nextTorrent, (t: Torrent) => t.category == category)
  }

  /** FindByRDId: the first row with that `RDId`, or the record-not-found error. */
  function FindByRDId(tb: Tables, rdId: string): Option<Torrent>
  {
    var rs := Rows(tb.torrents, tb.nextTorrent, (t: Torrent) => t.rdId == rdId);
    if rs == [] then None else Some(rs[0])
  }

  /** TorrentRepository.FindAllDownloadByRdId and DownloadRepository.FindAllByRdId: the downloads of a torrent. */
  function DownloadsOf(tb: Tables, torrentId: nat): seq<DownloadRow>
  {
    Rows(tb.downloads, tb.nextDownload, (d: DownloadRow) => d.torrentId == torrentId)
  }

  /** HasDownload: the torrent has at least one download row. */
  function HasDownload(tb: Tables, torrentId: nat): bool
  {
    |DownloadsOf(tb, torrentId)| > 0
  }

  /** AllDownloadsAreDownloaded: no download row of the torrent is incomplete. */
  function AllDownloadsAreDownloaded(tb: Tables, torrentId: nat): bool
  {
    Rows(tb.downloads, tb.nextDownload, (d: DownloadRow) => d.torrentId == torrentId && !d.isDownloaded) == []
  }

  // ---------------------------------------------------------------------
  // What the reads mean on a valid database

  /** FindAllNotDownloaded returns exactly the rows whose internal status is not `downloaded`. */
  lemma FindAllNotDownloadedExact(tb: Tables, t: Torrent)
    requires Valid(tb)
    ensures t in FindAllNotDownloaded(tb) <==> t in tb.torrents.Values && t.internal != InternalDownloaded
  {
    if t in tb.torrents.Values && t.internal != InternalDownloaded {
      var id :| id in tb.torrents && tb.torrents[id] == t;
    }
  }

  /** FindByStatus returns exactly the rows with that status. */
  lemma FindByStatusExact(tb: Tables, status: Status, t: Torrent)
    requires Valid(tb)
    ensures t in FindByStatus(tb, status) <==> t in tb.torrents.Values && t.status == status
  {
    if t in tb.torrents.Values && t.status == status {
      var id :| id in tb.torrents && tb.torrents[id] == t;
    }
  }

  /** FindByCategory returns exactly the rows of that category. */
  lemma FindByCategoryExact(tb: Tables, category: string, t: Torrent)
    requires Valid(tb)
    ensures t in FindByCategory(tb, category) <==> t in tb.torrents.Values && t.category == category
  {
    if t in tb.torrents.Values && t.category == category {
      var id :| id in tb.torrents && tb.torrents[id] == t;
    }
  }

  /** The downloads of a torrent are exactly the rows that point at it. */
  lemma DownloadsOfExact(tb: Tables, torrentId: nat, d: DownloadRow)
    requires Valid(tb)
    ensures d in DownloadsOf(tb, torrentId) <==> d in tb.downloads.Values && d.torrentId == torrentId
  {
    if d in tb.downloads.Values && d.torrentId == torrentId {
      var id :| id in tb.downloads && tb.downloads[id] == d;
    }
  }

  /** HasDownload holds iff some download row points at the torrent. */
  lemma HasDownloadIff(tb: Tables, torrentId: nat)
    requires Valid(tb)
    ensures HasDownload(tb, torrentId) <==> exists id :: id in tb.downloads && tb.downloads[id].torrentId == torrentId
  {
    var rs := DownloadsOf(tb, torrentId);
    if exists id :: id in tb.downloads && tb.downloads[id].torrentId == torrentId {
      var id :| id in tb.downloads && tb.downloads[id].torrentId == torrentId;
      assert tb.downloads[id] in rs;
    }
    if |rs| > 0 {
      assert rs[0] in rs;
    }
  }

  /** AllDownloadsAreDownloaded holds iff every download row of the torrent is complete; so it holds when there is none. */
  lemma AllDownloadsAreDownloadedIff(tb: Tables, torrentId: nat)
    requires Valid(tb)
    ensures AllDownloadsAreDownloaded(tb, torrentId) <==>
      forall id :: id in tb.downloads && tb.downloads[id].torrentId == torrentId ==> tb.downloads[id].isDownloaded
    ensures !HasDownload(tb, torrentId) ==> AllDownloadsAreDownloaded(tb, torrentId)
  {
    var rs := Rows(tb.downloads, tb.nextDownload, (d: DownloadRow) => d.torrentId == torrentId && !d.isDownloaded);
    if rs != [] {
      assert rs[0] in rs;
    }
    HasDownloadIff(tb, torrentId);
    if exists id :: id in tb.downloads && tb.downloads[id].torrentId == torrentId && !tb.downloads[id].isDownloaded {
      var id :| id in tb.downloads && tb.downloads[id].torrentId == torrentId && !tb.downloads[id].isDownloaded;
      assert tb.downloads[id] in rs;
    }
  }

  /** With `RDId` unique, FindByRDId finds the one row with that `RDId`, and fails exactly when there is none. */
  lemma FindByRDIdExact(tb: Tables, rdId: string)
    requires Valid(tb)
    ensures FindByRDId(tb, rdId).None? <==> forall id :: id in tb.torrents ==> tb.torrents[id].rdId != rdId
    ensures forall id :: id in tb.torrents && tb.torrents[id].rdId == rdId ==> FindByRDId(tb, rdId) == Some(tb.torrents[id])
  {
    var rs := Rows(tb.torrents, tb.nextTorrent, (t: Torrent) => t.rdId == rdId);
    if rs != [] {
      assert rs[0] in rs;
    }
    forall id | id in tb.torrents && tb.torrents[id].rdId == rdId
      ensures FindByRDId(tb, rdId) == Some(tb.torrents[id])
    {
      assert tb.torrents[id] in rs;
      var j :| j < tb.nextTorrent && j in tb.torrents && tb.torrents[j] == rs[0];
    }
  }

  // ---------------------------------------------------------------------
  // What the writes mean

  /** Resetting twice is resetting once. */
  lemma ResetDownloadingIdempotent(tb: Tables)
    ensures ResetDownloading(ResetDownloading(tb)) == ResetDownloading(tb)
  {
    var once := ResetDownloading(tb);
    assert forall k :: k in once.torrents ==> Reset(once.torrents[k]) == once.torrents[k];
  }

  /** After the reset no row is `downloading`; the other rows, and every other column, are as they were. */
  lemma ResetDownloadingEffect(tb: Tables)
    ensures forall k :: k in ResetDownloading(tb).torrents ==> ResetDownloading(tb).torrents[k].internal != InternalDownloading
    ensures forall k :: k in tb.torrents && tb.torrents[k].internal != InternalDownloading ==>
      ResetDownloading(tb).torrents[k] == tb.torrents[k]
    ensures forall k :: k in tb.torrents ==>
      ResetDownloading(tb).torrents[k] == tb.torrents[k].(internal := ResetDownloading(tb).torrents[k].internal)
  {
  }

  /** Cleaning twice is cleaning once; afterwards every row is complete. */
  lemma CleanAllDownloadsIdempotent(tb: Tables)
    ensures PurgeIncomplete(PurgeIncomplete(tb)) == PurgeIncomplete(tb)
    ensures forall k :: k in PurgeIncomplete(tb).downloads ==> PurgeIncomplete(tb).downloads[k].isDownloaded
  {
    var once := PurgeIncomplete(tb);
    assert PurgeIncomplete(once).downloads == once.downloads;
  }

  /** Creating a download adds exactly one row and keeps every earlier one. */
  lemma CreateDownloadAddsOne(tb: Tables, d: DownloadRow)
    requires Valid(tb)
    ensures |InsertDownload(tb, d).downloads| == |tb.downloads| + 1
    ensures forall k :: k in tb.downloads ==> k in InsertDownload(tb, d).downloads && InsertDownload(tb, d).downloads[k] == tb.downloads[k]
  {
    assert tb.nextDownload !in tb.downloads;
  }

  /** On a valid database a `DeleteByRDId` removes at most one row. */
  lemma DeleteByRDIdAtMostOne(tb: Tables, rdId: string)
    requires Valid(tb)
    ensures forall a, b ::
      (a in tb.torrents && b in tb.torrents && a !in RemoveByRDId(tb, rdId).torrents && b !in RemoveByRDId(tb, rdId).torrents) ==> a == b
  {
  }

  // ---------------------------------------------------------------------
  // The database object

  class Database {
    var torrents: map<nat, Torrent>
    var downloads: map<nat, DownloadRow>
    var nextTorrentId: nat
    var nextDownloadId: nat

    function State(): Tables
      reads this
    {
      Tables(torrents, downloads, nextTorrentId, nextDownloadId)
    }

    /** NewDatabase: both tables empty. */
    constructor ()
      ensures State() == Empty()
    {
      torrents, downloads, nextTorrentId, nextDownloadId := map[], map[], 1, 1;
    }

    method Put(tb: Tables)
      modifies this
      ensures State() == tb
    {
      torrents, downloads, nextTorrentId, nextDownloadId := tb.torrents, tb.downloads, tb.nextTorrent, tb.nextDownload;
    }

    /** TorrentRepository.Create; fails when the `RDId` is already present. */
    method CreateTorrent(t: Torrent) returns (ok: bool)
      modifies this
      ensures ok <==> !Clash(old(State()).torrents, t.(id := old(State()).nextTorrent))
      ensures State() == InsertTorrent(old(State()), t)
    {
      ok := !Clash(torrents, t.(id := nextTorrentId));
      Put(InsertTorrent(State(), t));
    }

    /** TorrentRepository.Update */
    method UpdateTorrent(t: Torrent)
      modifies this
      ensures State() == SaveTorrent(old(State()), t)
    {
      Put(SaveTorrent(State(), t));
    }

    /** TorrentRepository.Delete */
    method DeleteTorrent(id: nat)
      modifies this
      ensures State() == RemoveTorrent(old(State()), id)
    {
      torrents := torrents - {id};
    }

    /** TorrentRepository.DeleteByRDId */
    method DeleteByRDId(rdId: string)
      modifies this
      ensures State() == RemoveByRDId(old(State()), rdId)
    {
      Put(RemoveByRDId(State(), rdId));
    }

    /** TorrentRepository.UpdateTorrentsStatusToWaitingForDownload */
    method UpdateTorrentsStatusToWaitingForDownload()
      modifies this
      ensures State() == ResetDownloading(old(State()))
    {
      Put(ResetDownloading(State()));
    }

    /** TorrentRepository.UpdateTorrentStatusToDownloaded */
    method UpdateTorrentStatusToDownloaded(id: nat)
      modifies this
      ensures State() == MarkTorrentDownloaded(old(State()), id)
    {
      Put(MarkTorrentDownloaded(State(), id));
    }

    /** DownloadRepository.Create; the new row's id is returned, as gorm writes it back into the record. */
    method CreateDownload(d: DownloadRow) returns (id: nat)
      modifies this
      ensures id == old(State()).nextDownload
      ensures State() == InsertDownload(old(State()), d)
    {
      id := nextDownloadId;
      Put(InsertDownload(State(), d));
    }

    /** DownloadRepository.Update */
    method UpdateDownload(d: DownloadRow)
      modifies this
      ensures State() == SaveDownload(old(State()), d)
    {
      Put(SaveDownload(State(), d));
    }

    /** DownloadRepository.CleanAllDownloads */
    method CleanAllDownloads()
      modifies this
      ensures State() == PurgeIncomplete(old(State()))
    {
      Put(PurgeIncomplete(State()));
    }
  }
}

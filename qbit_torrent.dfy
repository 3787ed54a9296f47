/**
 * internal/api/qbittorrent/torrent.go: the qBittorrent Web API torrent
 * handlers as far as they compute something. Each reads its parameter from a
 * one-pair POST body or from the query string, upper-cases torrent hashes
 * before looking them up by Real-Debrid id, and derives the qBittorrent
 * state string from the stored status pair.
 */
module QbitTorrent {
  import opened Wrappers
  import opened Text
  import opened Files
  import opened Store
  import opened Http
  import Updater

  // ---------------------------------------------------------------------
  // Parameters

  /**
   * The value of a POST body of the form `key=value`: the body split on `=`
   * must give exactly two pieces, and the second must not be empty. The key
   * is not looked at.
   */
  function FormValue(body: string): (r: Option<string>)
    ensures r.Some? ==> r.value != "" && '=' !in r.value
  {
    var values := Split(body, '=');
    if |values| != 2 || values[1] == "" then None else Some(values[1])
  }

  /** A body `key=value` without further `=` and with a value gives that value back. */
  lemma FormValueRoundTrip(key: string, value: string)
    requires '=' !in key && '=' !in value && value != ""
    ensures FormValue(key + "=" + value) == Some(value)
  {
    SplitJoin([key, value], '=');
    assert [key, value][1..] == [value];
    assert Join([key, value], '=') == key + "=" + value;
  }

  /** Conversely, a body that yields a value is some `=`-free key, one `=`, and that value. */
  lemma FormValueShape(body: string)
    requires FormValue(body).Some?
    ensures exists key :: '=' !in key && body == key + "=" + FormValue(body).value
  {
    var values := Split(body, '=');
    JoinSplit(body, '=');
    assert values[1..] == [values[1]];
    assert body == values[0] + "=" + values[1];
  }

  /**
   * `torrentsInfo`'s category: the value of the POST body, or the
   * `category` query parameter of a GET, which may be empty (every torrent
   * without a category).
   */
  function InfoCategory(req: Request): (r: Option<string>)
    ensures req.Get? ==> r.Some?
    ensures r == Some("") ==> req.Get? && QueryParam(req.query, "category") == ""
  {
    match req
    case Post(body) => FormValue(body)
    case Get(query) => Some(QueryParam(query, "category"))
  }

  /**
   * The hash `torrentsFiles` and `torrentsProperties` look up: the value of
   * the POST body or the `hash` query parameter, never empty, upper-cased.
   */
  function HashParam(req: Request): (r: Option<string>)
    ensures r.Some? ==> r.value != "" && ToUpper(r.value) == r.value
    ensures req.Get? ==> (r.None? <==> QueryParam(req.query, "hash") == "")
  {
    var raw := match req
      case Post(body) => FormValue(body)
      case Get(query) => if QueryParam(query, "hash") == "" then None else Some(QueryParam(query, "hash"));
    match raw
    case None => None
    case Some(h) =>
      ToUpperIdempotent(h);
      Some(ToUpper(h))
  }

  // ---------------------------------------------------------------------
  // State derivation

  /**
   * The qBittorrent state of a stored torrent. The `stalledDL` branch sits
   * behind a guard that implies the first branch's, so it is never taken.
   */
  function QbitState(t: Torrent): (s: string)
    ensures s == "downloading" <==> t.status == Downloading || (t.status == Downloaded && t.internal == InternalDownloading)
    ensures s == "pausedUP" <==> t.status == Downloaded && t.internal == InternalDownloaded
    ensures s == "error" <==> t.status == Error
    ensures s == "paused" <==> t.status !in {Downloading, Downloaded, Error} ||
                               (t.status == Downloaded && t.internal !in {InternalDownloading, InternalDownloaded})
    ensures s != "stalledDL"
  {
    if t.status == Downloading || (t.status == Downloaded && t.internal == InternalDownloading) then "downloading"
    else if t.status == Downloaded && t.internal == InternalDownloaded then "pausedUP"
    else if t.status == Error then "error"
    else if t.status == Downloading && t.rdSeeders == 0 then "stalledDL"
    else "paused"
  }

  // ---------------------------------------------------------------------
  // torrentsInfo

  /** The fields of a qBittorrent torrent record that come from the stored torrent. */
  datatype TorrentInfo = TorrentInfo(name: string, category: string, state: string, savePath: string)

  function InfoOf(t: Torrent, savePath: string): TorrentInfo
  {
    TorrentInfo(t.rdName, t.category, QbitState(t), JoinPath(savePath, t.category))
  }

  /** One record per torrent of the category, in table order. */
  function Infos(tb: Tables, savePath: string, category: string): seq<TorrentInfo>
  {
    var rows := FindByCategory(tb, category);
    seq(|rows|, i requires 0 <= i < |rows| => InfoOf(rows[i], savePath))
  }

  /**
   * `torrentsInfo`: fails exactly when the POST body has no value;
   * otherwise fills one record per torrent of the category.
   */
  method TorrentsInfo(db: Database, savePath: string, req: Request) returns (r: Reply<seq<TorrentInfo>>)
    ensures r.Fails? <==> InfoCategory(req).None?
    ensures r.Ok? ==> r.value == Infos(db.State(), savePath, InfoCategory(req).value)
  {
    var category := InfoCategory(req);
    if category.None? {
      return Fails;
    }
    var rows := FindByCategory(db.State(), category.value);
    var infos := new TorrentInfo[|rows|];
    for i := 0 to |rows|
      invariant forall j :: 0 <= j < i ==> infos[j] == InfoOf(rows[j], savePath)
    {
      infos[i] := InfoOf(rows[i], savePath);
    }
    r := Ok(infos[..]);
  }

  /**
   * The records are exactly the torrents of the category: each one names
   * that category and its save path `savePath/category`, and every stored
   * torrent of the category has its record.
   */
  lemma InfosExact(tb: Tables, savePath: string, category: string)
    requires Valid(tb)
    ensures forall info :: info in Infos(tb, savePath, category) ==>
      info.category == category && info.savePath == JoinPath(savePath, category)
    ensures forall id :: id in tb.torrents && tb.torrents[id].category == category ==>
      InfoOf(tb.torrents[id], savePath) in Infos(tb, savePath, category)
  {
    var rows := FindByCategory(tb, category);
    var infos := Infos(tb, savePath, category);
    forall info | info in infos
      ensures info.category == category && info.savePath == JoinPath(savePath, category)
    {
      var i :| 0 <= i < |infos| && infos[i] == info;
      FindByCategoryExact(tb, category, rows[i]);
    }
    forall id | id in tb.torrents && tb.torrents[id].category == category
      ensures InfoOf(tb.torrents[id], savePath) in infos
    {
      var t := tb.torrents[id];
      FindByCategoryExact(tb, category, t);
      var i :| 0 <= i < |rows| && rows[i] == t;
      assert infos[i] == InfoOf(t, savePath);
    }
  }

  // ---------------------------------------------------------------------
  // categories

  datatype CategoryInfo = CategoryInfo(name: string, savePath: string)

  /** `categories`: one entry per distinct category name, saved under `savePath/name`. */
  method Categories(names: seq<string>, savePath: string) returns (cats: map<string, CategoryInfo>)
    ensures cats.Keys == set n | n in names
    ensures forall n :: n in cats ==> cats[n] == CategoryInfo(n, JoinPath(savePath, n))
  {
    cats := map[];
    for i := 0 to |names|
      invariant cats.Keys == set n | n in names[..i]
      invariant forall n :: n in cats ==> cats[n] == CategoryInfo(n, JoinPath(savePath, n))
    {
      assert names[..i + 1] == names[..i] + [names[i]];
      cats := cats[names[i] := CategoryInfo(names[i], JoinPath(savePath, names[i]))];
    }
    assert names[..|names|] == names;
  }

  // ---------------------------------------------------------------------
  // torrentsFiles and torrentsProperties

  /** A file's name as qBittorrent shows it: `/RDName/FileName`. */
  function FileName(t: Torrent, d: DownloadRow): string
  {
    [Sep] + t.rdName + [Sep] + d.fileName
  }

  /** The torrent a files or properties request names, if the hash is present and known. */
  function Lookup(tb: Tables, req: Request): Option<Torrent>
  {
    match HashParam(req)
    case None => None
    case Some(h) => FindByRDId(tb, h)
  }

  /** What `torrentsFiles` answers: one name per download row of the torrent. */
  function FilesReply(tb: Tables, req: Request): Reply<seq<string>>
  {
    match Lookup(tb, req)
    case None => Fails
    case Some(t) =>
      var rows := DownloadsOf(tb, t.id);
      Ok(seq(|rows|, i requires 0 <= i < |rows| => FileName(t, rows[i])))
  }

  /** `torrentsFiles`: look the torrent up, then fill one name per download row. */
  method TorrentsFiles(db: Database, req: Request) returns (r: Reply<seq<string>>)
    ensures r == FilesReply(db.State(), req)
  {
    var torrent := Lookup(db.State(), req);
    if torrent.None? {
      return Fails;
    }
    var t := torrent.value;
    var rows := DownloadsOf(db.State(), t.id);
    var files := new string[|rows|];
    for i := 0 to |rows|
      invariant forall j :: 0 <= j < i ==> files[j] == FileName(t, rows[j])
    {
      files[i] := FileName(t, rows[i]);
    }
    assert files[..] == seq(|rows|, i requires 0 <= i < |rows| => FileName(t, rows[i]));
    r := Ok(files[..]);
  }

  /**
   * The files reply fails exactly when the hash is missing or unknown;
   * otherwise it names exactly the download rows of the torrent whose id is
   * the upper-cased hash.
   */
  lemma FilesExact(tb: Tables, req: Request)
    requires Valid(tb)
    ensures FilesReply(tb, req).Fails? <==>
      HashParam(req).None? || forall id :: id in tb.torrents ==> tb.torrents[id].rdId != HashParam(req).value
    ensures FilesReply(tb, req).Ok? ==>
      var t := Lookup(tb, req).value;
      && t.rdId == HashParam(req).value
      && (forall name :: name in FilesReply(tb, req).value ==>
            exists d :: d in tb.downloads.Values && d.torrentId == t.id && name == FileName(t, d))
      && (forall d :: d in tb.downloads.Values && d.torrentId == t.id ==> FileName(t, d) in FilesReply(tb, req).value)
  {
    if HashParam(req).Some? {
      var h := HashParam(req).value;
      FindByRDIdExact(tb, h);
      if Lookup(tb, req).Some? {
        var t := Lookup(tb, req).value;
        var id :| id in tb.torrents && tb.torrents[id].rdId == h;
        assert t == tb.torrents[id];
        var rows := DownloadsOf(tb, t.id);
        var names := FilesReply(tb, req).value;
        forall name | name in names
          ensures exists d :: d in tb.downloads.Values && d.torrentId == t.id && name == FileName(t, d)
        {
          var i :| 0 <= i < |names| && names[i] == name;
          DownloadsOfExact(tb, t.id, rows[i]);
        }
        forall d | d in tb.downloads.Values && d.torrentId == t.id
          ensures FileName(t, d) in names
        {
          DownloadsOfExact(tb, t.id, d);
          var i :| 0 <= i < |rows| && rows[i] == d;
          assert names[i] == FileName(t, d);
        }
      }
    }
  }

  /** The fields of a qBittorrent properties record that come from the stored torrent. */
  datatype Properties = Properties(savePath: string, dlSpeed: int, seeds: int, peers: int)

  function PropertiesOf(t: Torrent, savePath: string): Properties
  {
    Properties(savePath + [Sep] + [Sep] + t.category, t.rdSpeed, t.rdSeeders, t.rdSeeders)
  }

  /** `torrentsProperties`: the properties of the torrent the hash names, or a failure. */
  function PropertiesReply(tb: Tables, savePath: string, req: Request): (r: Reply<Properties>)
    ensures r.Ok? <==> Lookup(tb, req).Some?
    ensures r.Ok? ==> r.value.seeds == r.value.peers == Lookup(tb, req).value.rdSeeders
  {
    match Lookup(tb, req)
    case None => Fails
    case Some(t) => Ok(PropertiesOf(t, savePath))
  }

  /**
   * The save path in the properties has one separator more than the one in
   * the torrent record: `savePath//category` against `savePath/category`.
   */
  lemma SavePathsDiffer(t: Torrent, savePath: string)
    ensures |PropertiesOf(t, savePath).savePath| == |InfoOf(t, savePath).savePath| + 1
    ensures PropertiesOf(t, savePath).savePath == JoinPath(JoinPath(savePath, ""), t.category)
    ensures InfoOf(t, savePath).savePath != PropertiesOf(t, savePath).savePath
  {
    assert JoinPath(JoinPath(savePath, ""), t.category) == savePath + [Sep] + [Sep] + t.category;
  }

  /** Hashes are matched without regard to the case of ASCII letters. */
  lemma HashCaseIgnored(tb: Tables, savePath: string, h1: string, h2: string)
    requires ToUpper(h1) == ToUpper(h2)
    ensures FilesReply(tb, Get(map["hash" := h1])) == FilesReply(tb, Get(map["hash" := h2]))
    ensures PropertiesReply(tb, savePath, Get(map["hash" := h1])) == PropertiesReply(tb, savePath, Get(map["hash" := h2]))
  {
    assert h1 == "" <==> h2 == "" by {
      assert |ToUpper(h1)| == |h1| && |ToUpper(h2)| == |h2|;
    }
    assert Lookup(tb, Get(map["hash" := h1])) == Lookup(tb, Get(map["hash" := h2]));
  }

  // ---------------------------------------------------------------------
  // deleteTorrent

  /** The hashes one `&` segment names: after its first `hashes=`, split on `|`. */
  function SegmentHashes(segment: string): seq<string>
  {
    if Contains(segment, "hashes=") then Split(ReplaceFirst(segment, "hashes=", ""), '|') else []
  }

  /** The hashes of all segments, in order. */
  function Hashes(segments: seq<string>): seq<string>
  {
    if segments == [] then [] else SegmentHashes(segments[0]) + Hashes(segments[1..])
  }

  /** A `hashes=h1|h2|…` segment names exactly `h1, h2, …`. */
  lemma SegmentHashesRoundTrip(hs: seq<string>)
    requires |hs| >= 1
    requires forall i :: 0 <= i < |hs| ==> '|' !in hs[i]
    ensures SegmentHashes("hashes=" + Join(hs, '|')) == hs
  {
    var s := "hashes=" + Join(hs, '|');
    assert s[..|"hashes="|] == "hashes=";
    assert IndexOf(s, "hashes=") == Some(0);
    assert ReplaceFirst(s, "hashes=", "") == Join(hs, '|') by {
      assert s[|"hashes="|..] == Join(hs, '|');
    }
    SplitJoin(hs, '|');
  }

  /** Where the torrent's files live: `savePath/category/RDName`, the directory its downloads were saved to. */
  function TorrentDir(savePath: string, t: Torrent): (dir: string)
    ensures dir == Updater.DownloadSavePath(savePath, t)
  {
    JoinPath(JoinPath(savePath, t.category), t.rdName)
  }

  /**
   * A torrent without a name: `os.RemoveAll` gets `savePath/category/`, which
   * resolves to the category's directory, so deleting that torrent removes
   * every file of its category.
   */
  lemma EmptyNameRemovesCategory(savePath: string, t: Torrent, p: string)
    requires t.rdName == ""
    ensures Under(p, TorrentDir(savePath, t)) <==> Under(p, JoinPath(savePath, t.category))
  {
    assert TorrentDir(savePath, t) == JoinPath(savePath, t.category) + [Sep];
    TrailingSeparator(JoinPath(savePath, t.category));
  }

  /**
   * A torrent without a category: `savePath//name` resolves to
   * `savePath/name`, which is also the directory of a category called `name`.
   */
  lemma NoCategoryIsTopLevel(savePath: string, t: Torrent, p: string)
    requires t.category == ""
    ensures Under(p, TorrentDir(savePath, t)) <==> Under(p, JoinPath(savePath, t.rdName))
  {
    assert TorrentDir(savePath, t) == savePath + [Sep, Sep] + t.rdName;
    DoubledSeparator(savePath, t.rdName);
  }

  datatype Deletion = Deletion(tb: Tables, fs: FileSystem, ok: bool)

  /**
   * Deleting the torrents `hs` names, in order: each hash is upper-cased
   * and looked up; an unknown one ends the deletion with a failure, keeping
   * what was deleted before it; a known one has its directory removed and
   * its row deleted.
   */
  function DeleteHashes(tb: Tables, fs: FileSystem, savePath: string, hs: seq<string>): Deletion
    decreases |hs|
  {
    if hs == [] then Deletion(tb, fs, true)
    else
      var h := ToUpper(hs[0]);
      match FindByRDId(tb, h)
      case None => Deletion(tb, fs, false)
      case Some(t) => DeleteHashes(RemoveByRDId(tb, h), RemoveAll(fs, TorrentDir(savePath, t)), savePath, hs[1..])
  }

  /** Deleting `a` and then, if that succeeded, `b` is deleting `a + b`. */
  lemma {:induction false} DeleteHashesAppend(tb: Tables, fs: FileSystem, savePath: string, a: seq<string>, b: seq<string>)
    ensures DeleteHashes(tb, fs, savePath, a + b) ==
      var r := DeleteHashes(tb, fs, savePath, a);
      if r.ok then DeleteHashes(r.tb, r.fs, savePath, b) else r
    decreases |a|
  {
    if a == [] {
      assert a + b == b;
    } else {
      assert (a + b)[0] == a[0] && (a + b)[1..] == a[1..] + b;
      match FindByRDId(tb, ToUpper(a[0]))
      case None =>
      case Some(t) =>
        DeleteHashesAppend(RemoveByRDId(tb, ToUpper(a[0])), RemoveAll(fs, TorrentDir(savePath, t)), savePath, a[1..], b);
    }
  }

  /** The inner loop of `deleteTorrent`: the hashes of one segment, one by one. */
  method DeleteEach(db: Database, fs: FileSystem, savePath: string, hashes: seq<string>) returns (fs': FileSystem, ok: bool)
    modifies db
    ensures var r := DeleteHashes(old(db.State()), fs, savePath, hashes);
      db.State() == r.tb && fs' == r.fs && ok == r.ok
  {
    ghost var goal := DeleteHashes(db.State(), fs, savePath, hashes);
    fs' := fs;
    for k := 0 to |hashes|
      invariant goal == DeleteHashes(db.State(), fs', savePath, hashes[k..])
    {
      assert hashes[k..][0] == hashes[k] && hashes[k..][1..] == hashes[k + 1..];
      var h := ToUpper(hashes[k]);
      var torrent := FindByRDId(db.State(), h);
      if torrent.None? {
        return fs', false;
      }
      fs' := RemoveAll(fs', TorrentDir(savePath, torrent.value));
      db.DeleteByRDId(h);
    }
    ok := true;
  }

  /** `deleteTorrent`: for each `&` segment that names hashes, delete them one by one. */
  method DeleteTorrent(db: Database, fs: FileSystem, savePath: string, body: string) returns (fs': FileSystem, ok: bool)
    modifies db
    ensures var r := DeleteHashes(old(db.State()), fs, savePath, Hashes(Split(body, '&')));
      db.State() == r.tb && fs' == r.fs && ok == r.ok
  {
    var values := Split(body, '&');
    ghost var goal := DeleteHashes(db.State(), fs, savePath, Hashes(values));
    fs' := fs;
    for j := 0 to |values|
      invariant goal == DeleteHashes(db.State(), fs', savePath, Hashes(values[j..]))
    {
      var v := values[j];
      assert values[j..][0] == v && values[j..][1..] == values[j + 1..];
      assert Hashes(values[j..]) == SegmentHashes(v) + Hashes(values[j + 1..]);
      if Contains(v, "hashes=") {
        var hash := ReplaceFirst(v, "hashes=", "");
        var hashes := Split(hash, '|');
        assert hashes == SegmentHashes(v);
        DeleteHashesAppend(db.State(), fs', savePath, hashes, Hashes(values[j + 1..]));
        fs', ok := DeleteEach(db, fs', savePath, hashes);
        if !ok {
          return;
        }
      } else {
        assert SegmentHashes(v) + Hashes(values[j + 1..]) == Hashes(values[j + 1..]);
      }
    }
    ok := true;
  }

  /**
   * What a deletion does: only torrents some hash names leave the table,
   * and on success none of them is left; only files under the directory of
   * a deleted torrent leave the disk, and every deleted torrent's directory
   * is gone. Download rows are not touched.
   */
  lemma {:induction false} DeleteHashesEffect(tb: Tables, fs: FileSystem, savePath: string, hs: seq<string>)
    requires Valid(tb)
    ensures var r := DeleteHashes(tb, fs, savePath, hs);
      && Valid(r.tb)
      && r.tb == tb.(torrents := r.tb.torrents)
      && (forall id :: id in r.tb.torrents ==> id in tb.torrents && r.tb.torrents[id] == tb.torrents[id])
      && (forall id :: id in tb.torrents && id !in r.tb.torrents ==> exists h :: h in hs && tb.torrents[id].rdId == ToUpper(h))
      && (r.ok ==> forall h, id :: h in hs && id in r.tb.torrents ==> r.tb.torrents[id].rdId != ToUpper(h))
      && (forall p :: p in r.fs ==> p in fs && r.fs[p] == fs[p])
      && (forall p :: p in fs && p !in r.fs ==>
            exists id :: id in tb.torrents && id !in r.tb.torrents && Under(p, TorrentDir(savePath, tb.torrents[id])))
      && (forall id, p :: id in tb.torrents && id !in r.tb.torrents && p in r.fs ==> !Under(p, TorrentDir(savePath, tb.torrents[id])))
    decreases |hs|
  {
    if hs != [] {
      var h := ToUpper(hs[0]);
      FindByRDIdExact(tb, h);
      match FindByRDId(tb, h)
      case None =>
      case Some(t) =>
        var id0 :| id0 in tb.torrents && tb.torrents[id0].rdId == h;
        assert t == tb.torrents[id0];
        var tb1 := RemoveByRDId(tb, h);
        var fs1 := RemoveAll(fs, TorrentDir(savePath, t));
        DeleteHashesEffect(tb1, fs1, savePath, hs[1..]);
        var r := DeleteHashes(tb1, fs1, savePath, hs[1..]);
        assert r == DeleteHashes(tb, fs, savePath, hs);
        forall id | id in tb.torrents && id !in r.tb.torrents
          ensures exists h' :: h' in hs && tb.torrents[id].rdId == ToUpper(h')
        {
          if id in tb1.torrents {
            var h' :| h' in hs[1..] && tb1.torrents[id].rdId == ToUpper(h');
            assert h' in hs;
          } else {
            assert hs[0] in hs;
          }
        }
        if r.ok {
          forall h', id | h' in hs && id in r.tb.torrents
            ensures r.tb.torrents[id].rdId != ToUpper(h')
          {
            if h' != hs[0] {
              assert h' in hs[1..];
            }
          }
        }
        forall p | p in fs && p !in r.fs
          ensures exists id :: id in tb.torrents && id !in r.tb.torrents && Under(p, TorrentDir(savePath, tb.torrents[id]))
        {
          if p !in fs1 {
            assert id0 !in tb1.torrents;
          } else {
            var id :| id in tb1.torrents && id !in r.tb.torrents && Under(p, TorrentDir(savePath, tb1.torrents[id]));
          }
        }
        forall id, p | id in tb.torrents && id !in r.tb.torrents && p in r.fs
          ensures !Under(p, TorrentDir(savePath, tb.torrents[id]))
        {
          if id !in tb1.torrents {
            assert id == id0;
          }
        }
    }
  }

  /** The hashes before `k` all deleted, and hash `k` is not found, which ends the deletion. */
  predicate StoppedAt(tb: Tables, fs: FileSystem, savePath: string, hs: seq<string>, k: nat)
    requires k < |hs|
  {
    var before := DeleteHashes(tb, fs, savePath, hs[..k]);
    && before.ok
    && FindByRDId(before.tb, ToUpper(hs[k])).None?
    && DeleteHashes(tb, fs, savePath, hs) == Deletion(before.tb, before.fs, false)
  }

  /**
   * A failed deletion stops at the first hash that is not found: everything
   * the hashes before it deleted stays deleted, and nothing after it runs.
   */
  lemma {:induction false} DeleteHashesStops(tb: Tables, fs: FileSystem, savePath: string, hs: seq<string>)
    requires !DeleteHashes(tb, fs, savePath, hs).ok
    ensures exists k :: 0 <= k < |hs| && StoppedAt(tb, fs, savePath, hs, k)
    decreases |hs|
  {
    var h := ToUpper(hs[0]);
    assert hs[..0] == [];
    match FindByRDId(tb, h)
    case None =>
      assert DeleteHashes(tb, fs, savePath, hs[..0]) == Deletion(tb, fs, true);
      assert StoppedAt(tb, fs, savePath, hs, 0);
    case Some(t) =>
      var tb1 := RemoveByRDId(tb, h);
      var fs1 := RemoveAll(fs, TorrentDir(savePath, t));
      DeleteHashesStops(tb1, fs1, savePath, hs[1..]);
      var k :| 0 <= k < |hs[1..]| && StoppedAt(tb1, fs1, savePath, hs[1..], k);
      assert hs[..k + 1][0] == hs[0] && hs[..k + 1][1..] == hs[1..][..k];
      assert DeleteHashes(tb, fs, savePath, hs[..k + 1]) == DeleteHashes(tb1, fs1, savePath, hs[1..][..k]);
      assert hs[1..][k] == hs[k + 1];
      assert StoppedAt(tb, fs, savePath, hs, k + 1);
  }

  /** Naming the same known torrent twice deletes it and then answers a failure. */
  lemma DuplicateHashFails(tb: Tables, fs: FileSystem, savePath: string, h: string)
    requires Valid(tb)
    requires FindByRDId(tb, ToUpper(h)).Some?
    ensures !DeleteHashes(tb, fs, savePath, [h, h]).ok
    ensures FindByRDId(DeleteHashes(tb, fs, savePath, [h, h]).tb, ToUpper(h)).None?
  {
    var tb1 := RemoveByRDId(tb, ToUpper(h));
    FindByRDIdExact(tb1, ToUpper(h));
    assert [h, h][1..] == [h];
  }
}

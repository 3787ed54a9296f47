/**
 * How the goroutines of one updater tick interleave. `Run`
 * (internal/jobs/updater.go:63-136) holds `torrents.Mutex` for the whole
 * tick, and `saveDownload` calls `AddDownload` once per resolved link.
 * `AddDownload` (pkg/downloader/downloader.go:58-93) starts a goroutine that
 * takes a slot of `downloadLock`, downloads, closes the progress channel and
 * calls `OnFinish`; the slot is given back by a deferred receive, after
 * `OnFinish` returns. The caller drains the channel until it is closed, so
 * `AddDownload` returns only once its download has finished. The finish hook
 * (internal/qbrdt/qbrdt.go:49-55) calls `UpdateTorrentStatusToDownloaded`
 * when the row was its torrent's last one, and that locks `torrents.Mutex`
 * (internal/database/torrents.go:146-151).
 *
 * The state records where each goroutine is, which download the caller's
 * loop is on, and whether `Run` still holds the mutex. `releaseBeforeHook`
 * selects the order: `false` is the code as written (the slot is held
 * through `OnFinish`), `true` gives the slot back once the download itself
 * is over.
 */
module TickSchedule {
  import opened Wrappers

  /** Where one `AddDownload` goroutine is. */
  datatype Phase =
    | Queued     // `AddDownload` not called yet
    | WantSlot   // blocked on `d.downloadLock <- struct{}{}`
    | Fetching   // holds a slot and sends progress, which the caller drains
    | Finishing  // progress channel closed, inside `OnFinish`
    | Finished   // `OnFinish` returned and the slot is given back

  /**
   * `maxDownloads` is the capacity of `downloadLock`; `hookLocks[i]` says
   * whether download `i` completes its torrent, so that its finish hook
   * locks `torrents.Mutex`.
   */
  datatype Config = Config(maxDownloads: nat, hookLocks: seq<bool>, releaseBeforeHook: bool)

  /** The goroutines' phases, the download the caller's loop is on, and whether `Run` holds the mutex. */
  datatype State = State(phase: seq<Phase>, next: nat, mutexHeld: bool)

  /** One atomic step of the tick: which goroutine moves, and how. */
  datatype Action =
    | Call           // the caller enters `AddDownload(next)`
    | Take(i: nat)   // goroutine `i` gets a slot
    | Close(i: nat)  // goroutine `i` finishes `downloadFile` and closes its channel
    | Hook(i: nat)   // goroutine `i` runs `OnFinish` to its end and returns its slot
    | Return         // the caller sees the channel closed and leaves `AddDownload(next)`
    | Unlock         // `Run` has no more downloads to start and releases the mutex

  /** Whether a goroutine in phase `p` occupies a slot. */
  predicate Holds(cfg: Config, p: Phase)
  {
    p == Fetching || (p == Finishing && !cfg.releaseBeforeHook)
  }

  /** The number of slots the goroutines occupy. */
  function Held(cfg: Config, ps: seq<Phase>): nat
  {
    if ps == [] then 0 else Held(cfg, ps[..|ps| - 1]) + if Holds(cfg, ps[|ps| - 1]) then 1 else 0
  }

  /** The tick before its first `AddDownload`: the mutex is held and nothing runs. */
  function Init(cfg: Config): State
  {
    State(seq(|cfg.hookLocks|, _ => Queued), 0, true)
  }

  /** The state after `a`, or `None` when `a` cannot happen now. */
  function Step(cfg: Config, s: State, a: Action): Option<State>
  {
    match a
    case Call =>
      if s.next < |s.phase| && s.phase[s.next] == Queued then Some(s.(phase := s.phase[s.next := WantSlot])) else None
    case Take(i) =>
      if i < |s.phase| && s.phase[i] == WantSlot && Held(cfg, s.phase) < cfg.maxDownloads
      then Some(s.(phase := s.phase[i := Fetching])) else None
    case Close(i) =>
      if i < |s.phase| && s.phase[i] == Fetching then Some(s.(phase := s.phase[i := Finishing])) else None
    case Hook(i) =>
      if i < |s.phase| && i < |cfg.hookLocks| && s.phase[i] == Finishing && (!cfg.hookLocks[i] || !s.mutexHeld)
      then Some(s.(phase := s.phase[i := Finished])) else None
    case Return =>
      if s.next < |s.phase| && (s.phase[s.next] == Finishing || s.phase[s.next] == Finished)
      then Some(s.(next := s.next + 1)) else None
    case Unlock =>
      if s.next == |s.phase| && s.mutexHeld then Some(s.(mutexHeld := false)) else None
  }

  /** The state after the actions in order, or `None` when one of them cannot happen. */
  function Exec(cfg: Config, s: State, actions: seq<Action>): Option<State>
    decreases |actions|
  {
    if actions == [] then Some(s)
    else
      match Step(cfg, s, actions[0])
      case None => None
      case Some(s') => Exec(cfg, s', actions[1..])
  }

  /** The tick is over: every download started, the mutex released, every hook returned. */
  predicate Done(s: State)
  {
    s.next == |s.phase| && !s.mutexHeld && forall i :: 0 <= i < |s.phase| ==> s.phase[i] == Finished
  }

  /** Nothing can move, yet the tick is not over. */
  ghost predicate Stuck(cfg: Config, s: State)
  {
    !Done(s) && forall a :: Step(cfg, s, a).None?
  }

  // ---------------------------------------------------------------------
  // As written: the slot is held through `OnFinish`

  /**
   * With one slot and two downloads that each complete their torrent, the
   * tick deadlocks: the first hook waits for the mutex `Run` holds while
   * holding the only slot, the second goroutine waits for that slot, and
   * `Run` waits for the second channel to close.
   */
  lemma AsWrittenDeadlocks()
    ensures var cfg := Config(1, [true, true], false);
      var r := Exec(cfg, Init(cfg), [Call, Take(0), Close(0), Return, Call]);
      r.Some? && r.value == State([Finishing, WantSlot], 1, true) && Stuck(cfg, r.value)
  {
    var cfg := Config(1, [true, true], false);
    var s0 := Init(cfg);
    assert s0.phase == [Queued, Queued];
    var s1 := State([WantSlot, Queued], 0, true);
    var s2 := State([Fetching, Queued], 0, true);
    var s3 := State([Finishing, Queued], 0, true);
    var s4 := State([Finishing, Queued], 1, true);
    var s5 := State([Finishing, WantSlot], 1, true);
    assert s0.phase[0 := WantSlot] == s1.phase;
    assert Step(cfg, s0, Call) == Some(s1);
    assert Held(cfg, s1.phase) == 0 by {
      assert s1.phase[..1] == [WantSlot] && [WantSlot][..0] == [];
    }
    assert s1.phase[0 := Fetching] == s2.phase;
    assert Step(cfg, s1, Take(0)) == Some(s2);
    assert s2.phase[0 := Finishing] == s3.phase;
    assert Step(cfg, s2, Close(0)) == Some(s3);
    assert Step(cfg, s3, Return) == Some(s4);
    assert s4.phase[1 := WantSlot] == s5.phase;
    assert Step(cfg, s4, Call) == Some(s5);
    var actions := [Call, Take(0), Close(0), Return, Call];
    assert Exec(cfg, s5, actions[5..]) == Some(s5);
    assert Exec(cfg, s4, actions[4..]) == Some(s5);
    assert Exec(cfg, s3, actions[3..]) == Some(s5);
    assert Exec(cfg, s2, actions[2..]) == Some(s5);
    assert Exec(cfg, s1, actions[1..]) == Some(s5);
    assert Held(cfg, s5.phase) == 1 by {
      assert s5.phase[..1] == [Finishing] && [Finishing][..0] == [];
    }
    forall a
      ensures Step(cfg, s5, a).None?
    {
    }
    assert s5.phase[1] != Finished;
  }

  // ---------------------------------------------------------------------
  // Corrected: the slot is given back before `OnFinish`

  /**
   * What every reachable state satisfies: the downloads the caller has left
   * have closed their channels, the ones after it are not started, and the
   * mutex is free only once every download has been started.
   */
  predicate Inv(cfg: Config, s: State)
  {
    && |s.phase| == |cfg.hookLocks|
    && s.next <= |s.phase|
    && (forall i :: 0 <= i < s.next ==> s.phase[i] == Finishing || s.phase[i] == Finished)
    && (forall i :: s.next < i < |s.phase| ==> s.phase[i] == Queued)
    && (!s.mutexHeld ==> s.next == |s.phase|)
  }

  lemma InitInv(cfg: Config)
    ensures Inv(cfg, Init(cfg))
  {
  }

  /** Every step keeps `Inv`, whichever order is used. */
  lemma StepInv(cfg: Config, s: State, a: Action)
    requires Inv(cfg, s) && Step(cfg, s, a).Some?
    ensures Inv(cfg, Step(cfg, s, a).value)
  {
  }

  lemma {:induction false} ExecInv(cfg: Config, s: State, actions: seq<Action>)
    requires Inv(cfg, s) && Exec(cfg, s, actions).Some?
    ensures Inv(cfg, Exec(cfg, s, actions).value)
    decreases |actions|
  {
    if actions != [] {
      StepInv(cfg, s, actions[0]);
      ExecInv(cfg, Step(cfg, s, actions[0]).value, actions[1..]);
    }
  }

  /** When slots are given back before the hook, only a fetching goroutine holds one. */
  lemma {:induction false} NoneFetching(cfg: Config, ps: seq<Phase>)
    requires cfg.releaseBeforeHook
    requires forall i :: 0 <= i < |ps| ==> ps[i] != Fetching
    ensures Held(cfg, ps) == 0
  {
    if ps != [] {
      NoneFetching(cfg, ps[..|ps| - 1]);
    }
  }

  /** With the slot given back before the hook, a reachable state that is not over can always move. */
  lemma Progress(cfg: Config, s: State) returns (a: Action)
    requires cfg.releaseBeforeHook && cfg.maxDownloads >= 1
    requires Inv(cfg, s) && !Done(s)
    ensures Step(cfg, s, a).Some?
  {
    if s.next < |s.phase| {
      match s.phase[s.next]
      case Queued => a := Call;
      case WantSlot =>
        NoneFetching(cfg, s.phase);
        a := Take(s.next);
      case Fetching => a := Close(s.next);
      case Finishing => a := Return;
      case Finished => a := Return;
    } else if s.mutexHeld {
      a := Unlock;
    } else {
      var i :| 0 <= i < |s.phase| && s.phase[i] != Finished;
      a := Hook(i);
    }
  }

  /**
   * With the slot given back before `OnFinish`, no interleaving of the tick
   * ever gets stuck, whatever the number of slots and whichever hooks lock
   * the mutex.
   */
  lemma ReleasedNeverStuck(cfg: Config, actions: seq<Action>)
    requires cfg.releaseBeforeHook && cfg.maxDownloads >= 1
    requires Exec(cfg, Init(cfg), actions).Some?
    ensures !Stuck(cfg, Exec(cfg, Init(cfg), actions).value)
  {
    var s := Exec(cfg, Init(cfg), actions).value;
    InitInv(cfg);
    ExecInv(cfg, Init(cfg), actions);
    if !Done(s) {
      var a := Progress(cfg, s);
    }
  }
}

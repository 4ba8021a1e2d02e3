/** The service (`ServiceState`, `src/server.rs`). */
module Service {
  import opened Common
  import opened Records
  import opened Changes
  import opened Entries
  import opened PackedRows
  import opened PackedIndex
  import opened Worlds
  import opened Handover
  import Journal
  import JournalRead
  import Loading
  import Reconcile
  import Ranking
  import SqliteSearch
  import Planner
  import PackedSearch
  import Prefixes
  import Strings

  // Which snapshot a backend stands for, over every run of external commits, replacements,
  // failing reads, deltas and reloads.

  // ---------- the state machine ----------

  datatype Preference = Auto | Memory | Compact | SqliteOnly

  /** `Sqlite` keeps the connection that the load has opened. */
  datatype Backend = Packed(index: CompactIndex) | Sqlite(file: File) | Unavailable

  const ESTIMATED_RECORD_BYTES: nat := 900
  const ESTIMATED_COMPACT_RECORD_BYTES: nat := 420

  /** `select_backend`: the choice is taken as it is, or else the best that the budget affords. */
  function SelectBackend(requested: Preference, budget: nat, records: int): (selected: Preference)
    ensures selected != Auto && (requested != Auto ==> selected == requested)
    ensures requested == Auto && records >= 0 ==>
              && (budget < 420 * records <==> selected == SqliteOnly)
              && (budget >= 900 * records <==> selected == Memory)
  {
    if requested != Auto then requested
    else if Max(records, 0) * ESTIMATED_RECORD_BYTES <= budget then Memory
    else if Max(records, 0) * ESTIMATED_COMPACT_RECORD_BYTES <= budget then Compact
    else SqliteOnly
  }

  class ServiceState {
    const world: World
    const lower: Lowercase
    const hash: Prefixes.Hash
    const requested: Preference
    const budget: nat
    var now: nat
    var selected: Preference
    var backend: Backend
    var loadedStamp: Option<Stamp>
    var pendingFullReason: Option<FullReason>
    var lastFallbackReason: Option<FullReason>
    var loadAttempts: nat
    var successfulLoads: nat
    var incrementalApplies: nat
    /** The state that the loaded stamp names. */
    ghost var loadedAt: Moment
    /** The parts of a packed index. */
    ghost var repr: set<object>

    /** A published stamp names a past state, a packed backend holds exactly the rows of that state,
        and a SQLite backend has its file open. An unavailable backend has no stamp. */
    ghost predicate Valid()
      reads this, repr
    {
      && Lawful(world) && loadedAt.time <= now
      && (backend.Unavailable? <==> loadedStamp.None?)
      && (loadedStamp.Some? ==> IsLoaded())
      && (backend.Sqlite? ==> backend.file == loadedAt.file)
      && (backend.Packed? ==> backend.index in repr && backend.index.blocks in repr && Owns(backend.index, repr)
                              && Holds(backend.index, lower, JournalRead.ViewOf(lower, Seen(world, loadedAt))))
    }

    /** What the stamp, the choice of the backend and the loaded state have to do with each other. */
    ghost predicate IsLoaded()
      reads this
    {
      && loadedStamp == Some(Seen(world, loadedAt).StampOf()) && Since(world, loadedAt, 0, now)
      && selected == SelectBackend(requested, budget, |Seen(world, loadedAt).files|)
      && (backend.Sqlite? <==> selected == SqliteOnly)
    }

    /** The backend is ready, and the loaded stamp names a state that is no older than the one
        current at `since` (`SinceIsNotOlder`). */
    ghost predicate Current(since: nat)
      reads this
    {
      !backend.Unavailable? && loadedStamp.Some?
      && exists at :: Since(world, at, since, now) && Seen(world, at).StampOf() == loadedStamp.value
    }

    /** Something else than the loaded stamp has been observed, or nothing. */
    ghost predicate HasMoved(since: nat)
      reads this
    {
      || Troubled(world, since, now)
      || exists at :: Since(world, at, since, now) && Some(Seen(world, at).StampOf()) != loadedStamp
    }

    /** From the loaded snapshot a packed index gets to another one without being loaded again. */
    ghost predicate Glides(at: Moment, limits: Reconcile.DiffLimits, clock: Reconcile.Clock)
      requires backend.Packed? && loadedStamp.Some?
      reads this`backend, this`loadedStamp, backend.index, backend.index.strings
    {
      && Reaches(backend.index, Seen(world, at), loadedStamp.value, limits, clock)
      && StaysPacked(at)
    }

    /** The memory budget affords a packed index of that snapshot, or it has not been asked. */
    ghost predicate StaysPacked(at: Moment) {
      SelectBackend(requested, budget, |Seen(world, at).files|) != SqliteOnly
    }

    constructor (world: World, lower: Lowercase, hash: Prefixes.Hash, requested: Preference, budget: nat, now: nat)
      requires Lawful(world)
      ensures Valid() && fresh(repr) && this.world == world && this.lower == lower
    {
      this.world := world;
      this.lower := lower;
      this.hash := hash;
      this.requested := requested;
      this.budget := budget;
      this.now := now;
      selected := requested;
      backend := Unavailable;
      loadedStamp := None;
      pendingFullReason := None;
      lastFallbackReason := None;
      loadAttempts := 0;
      successfulLoads := 0;
      incrementalApplies := 0;
      loadedAt := Moment(0, 0);
      repr := {};
      new;
      var _ := FullReload(Startup);
    }

    /** Any amount of time passes, and with it any commits and replacements by others. */
    method Elapse()
      requires Valid()
      modifies this`now
      ensures Valid() && old(now) <= now
    {
      var later :| now <= later;
      now := later;
    }

    /** Opening what the path leads to and pinning a snapshot, some time apart; it can fail. */
    method OpenSnapshot() returns (at: Option<Moment>)
      requires Valid()
      modifies this`now
      ensures Valid() && old(now) <= now
      ensures at.Some? ==> at.value.time == now && Since(world, at.value, old(now), now)
      ensures at.None? <==> world.broken(now)
    {
      Elapse();
      var file := world.path(now);
      Elapse();
      return if world.broken(now) then None else Some(Moment(file, now));
    }

    /** `content_stamp` of the observer, whose connection is to the file that its identity check
        found at the path. */
    method Observe() returns (stamp: Option<Stamp>, ghost at: Moment)
      requires Valid()
      modifies this`now
      ensures Valid() && old(now) <= now
      ensures stamp.Some? ==> Since(world, at, old(now), now) && stamp.value == Seen(world, at).StampOf()
      ensures stamp.None? ==> Troubled(world, old(now), now)
    {
      var snapshot := OpenSnapshot();
      if snapshot.None? {
        return None, Moment(0, 0);
      }
      return Some(Seen(world, snapshot.value).StampOf()), snapshot.value;
    }

    method Invalidate()
      requires Lawful(world) && loadedAt.time <= now
      modifies this`backend, this`loadedStamp, this`repr
      ensures Valid() && backend == Unavailable && repr == {}
    {
      backend := Unavailable;
      loadedStamp := None;
      repr := {};
    }

    /** The moment of publication: a snapshot that has been read becomes the loaded one. */
    method Publish(next: Backend, choice: Preference, at: Moment, ghost parts: set<object>)
      requires Lawful(world) && Since(world, at, 0, now) && !next.Unavailable? && this !in parts
      requires choice == SelectBackend(requested, budget, |Seen(world, at).files|)
      requires next.Sqlite? <==> choice == SqliteOnly
      requires next.Sqlite? ==> next.file == at.file
      requires next.Packed? ==>
                 Owns(next.index, parts) && Holds(next.index, lower, JournalRead.ViewOf(lower, Seen(world, at)))
      modifies this`backend, this`loadedStamp, this`selected, this`loadedAt, this`repr
      ensures Valid() && backend == next && repr == parts && loadedAt == at
    {
      backend := next;
      selected := choice;
      loadedStamp := Some(Seen(world, at).StampOf());
      loadedAt := at;
      repr := parts;
    }

    /** `full_reload`: nothing old is kept, and only a complete load is published. */
    method FullReload(reason: FullReason) returns (ok: bool)
      requires Lawful(world) && loadedAt.time <= now
      modifies this
      ensures Valid() && old(now) <= now && fresh(repr)
      ensures if ok then Current(old(now)) else backend == Unavailable
      ensures !ok ==> Excused(world, lower, old(now), now)
      ensures loadAttempts == old(loadAttempts) + 1
    {
      loadAttempts := loadAttempts + 1;
      lastFallbackReason := Some(reason);
      Invalidate();
      var snapshot := OpenSnapshot();
      if snapshot.None? {
        return false;
      }
      ok := LoadBackend(snapshot.value);
      if ok {
        successfulLoads := successfulLoads + 1;
        pendingFullReason := None;
      }
    }

    /** `load_backend`, reading one snapshot, and the publication of what it loaded. */
    method LoadBackend(at: Moment) returns (ok: bool)
      requires Valid() && backend == Unavailable && repr == {} && Since(world, at, 0, now)
      modifies this`backend, this`loadedStamp, this`selected, this`loadedAt, this`repr
      ensures Valid() && fresh(repr)
      ensures if ok then loadedAt == at && !backend.Unavailable? else backend == Unavailable
      ensures IsModerate(lower, Seen(world, at)) ==> ok
    {
      var s := Seen(world, at);
      StaysWellFormed(world, at);
      var choice := SelectBackend(requested, budget, |s.files|);
      if choice == SqliteOnly {
        Publish(Sqlite(at.file), choice, at, {});
        return true;
      }
      var index := LoadIndex(lower, s, hash);
      if index.None? {
        return false;
      }
      Publish(Packed(index.value), choice, at, PartsOf(index.value));
      return true;
    }

    /** `needs_reload`: errors of the observer also lead to the loader. */
    method NeedsReload() returns (needed: bool)
      requires Valid()
      modifies this`now
      ensures Valid() && old(now) <= now
      ensures !needed ==> Current(old(now))
      ensures needed ==> backend.Unavailable? || HasMoved(old(now))
    {
      if backend.Unavailable? {
        return true;
      }
      var current: Option<Stamp>;
      ghost var at: Moment;
      current, at := Observe();
      return current.None? || loadedStamp != current;
    }

    /** `reload_if_changed`, with the recheck under the write lock. Only a failed read or the size of a
        database makes it fail, and a packed index is loaded again only if some snapshot that could be
        read meanwhile is out of its reach. */
    method ReloadIfChanged(limits: Reconcile.DiffLimits, clock: Reconcile.Clock) returns (ok: bool)
      requires Valid()
      modifies this, repr
      ensures Valid() && old(now) <= now && fresh(repr - old(repr))
      ensures ok ==> Current(old(now))
      ensures !ok ==> Excused(world, lower, old(now), now)
      ensures loadAttempts != old(loadAttempts) ==>
                || old(backend.Unavailable?) || Troubled(world, old(now), now)
                || exists at :: Since(world, at, old(now), now) && Some(Seen(world, at).StampOf()) != old(loadedStamp)
      ensures loadAttempts != old(loadAttempts) && old(backend.Packed?) ==>
                || Troubled(world, old(now), now)
                || exists at :: Since(world, at, old(now), now) && !old(Glides(at, limits, clock))
    {
      var needed := NeedsReload();
      if !needed {
        return true;
      }
      ghost var seen: Moment;
      ok, seen := Reload(limits, clock, old(now));
    }

    /** The rest of it, once a reload is known to be needed by a request that began at `since`. `seen` is
        the snapshot that decides whether the index is loaded again. */
    method Reload(limits: Reconcile.DiffLimits, clock: Reconcile.Clock, ghost since: nat)
      returns (ok: bool, ghost seen: Moment)
      requires Valid() && since <= now
      modifies this, repr
      ensures Valid() && old(now) <= now && fresh(repr - old(repr))
      ensures ok ==> Current(since)
      ensures !ok ==> Excused(world, lower, since, now)
      ensures loadAttempts != old(loadAttempts) && old(backend.Packed?) && !Troubled(world, since, now) ==>
                Since(world, seen, since, now) && !old(Glides(seen, limits, clock))
    {
      seen := loadedAt;
      if backend.Unavailable? {
        ok := ReloadSince(if pendingFullReason.Some? then pendingFullReason.value else IndexUnavailable, since);
      } else {
        var reason: Option<FullReason>;
        reason, seen := WhyFull(since, limits, clock);
        if reason.Some? {
          ok := ReloadSeen(reason.value, since, seen);
        } else {
          ok, seen := Refresh(backend.index, limits, clock, since);
        }
      }
    }

    /** Why the loaded index cannot even be tried, if so, and the snapshot that shows it. */
    method WhyFull(ghost since: nat, ghost limits: Reconcile.DiffLimits, ghost clock: Reconcile.Clock)
      returns (reason: Option<FullReason>, ghost seen: Moment)
      requires Valid() && since <= now && !backend.Unavailable?
      modifies this`now
      ensures Valid() && old(now) <= now
      ensures reason.None? ==> backend.Packed?
      ensures Since(world, seen, since, now) || Troubled(world, since, now)
      ensures reason.Some? && backend.Packed? && !Troubled(world, since, now) ==> !Glides(seen, limits, clock)
    {
      var current: Option<Stamp>;
      current, seen := Observe();
      if current.None? {
        ExcusedStill(world, lower, old(now), now, since, now);
        return Some(DatabaseUnavailable), seen;
      }
      if loadedStamp.None? {
        assert false;
      }
      var base := loadedStamp.value;
      if backend.Packed? {
        ReachIsLineage(backend.index, Seen(world, seen), base, limits, clock);
      }
      if current.value.databaseId != base.databaseId || current.value.identity != base.identity {
        return Some(Replaced), seen;
      }
      return if backend.Packed? then None else Some(NotPacked), seen;
    }

    /** The incremental path. A failed read leaves the old snapshot labelled as what it is. From the
        snapshot that is read, the index is only loaded again if that is out of its reach. */
    method Refresh(index: CompactIndex, limits: Reconcile.DiffLimits, clock: Reconcile.Clock, ghost since: nat)
      returns (ok: bool, ghost read: Moment)
      requires Valid() && backend == Packed(index) && since <= now
      modifies this, repr
      ensures Valid() && old(now) <= now && fresh(repr - old(repr))
      ensures ok ==> Current(since)
      ensures !ok ==> Excused(world, lower, since, now)
      ensures Since(world, read, since, now) || Troubled(world, since, now)
      ensures !Troubled(world, since, now) && old(Glides(read, limits, clock)) ==>
                ok && loadedAt == read && loadAttempts == old(loadAttempts) && backend == Packed(index)
      ensures Troubled(world, since, now) || !old(Glides(read, limits, clock)) || loadAttempts == old(loadAttempts)
    {
      var snapshot := OpenSnapshot();
      if snapshot.Some? {
        read := snapshot.value;
        ok := RefreshTo(index, limits, clock, since, snapshot.value);
      } else {
        read := loadedAt;
        ok := false;
        assert Troubled(world, since, now);
      }
    }

    /** From the loaded snapshot to the one that has been opened. */
    method RefreshTo(index: CompactIndex, limits: Reconcile.DiffLimits, clock: Reconcile.Clock, ghost since: nat,
                     at: Moment) returns (ok: bool)
      requires Valid() && backend == Packed(index) && since <= now && at.time == now && Since(world, at, since, now)
      modifies this, repr
      ensures Valid() && old(now) <= now && fresh(repr - old(repr))
      ensures ok ==> Current(since)
      ensures !ok ==> Excused(world, lower, since, now)
      ensures Since(world, at, since, now)
      ensures old(Glides(at, limits, clock)) ==>
                ok && loadedAt == at && loadAttempts == old(loadAttempts) && backend == Packed(index)
    {
      var delta := ReadDelta(world, lower, index, loadedStamp.value, loadedAt, at, limits, clock);
      match delta
      case Failed =>
        ok := false;
        assert !AllModerate(world, lower, now);
      case NoDelta(reason) => ok := ReloadSeen(reason, since, at);
      case Changes(changes) => ok := ApplyDelta(index, changes, at, since);
    }

    /** `apply_delta_with_method`: the stamp is published only after every change is in, and an
        index that failed half way is dropped. Changes that the index takes are published. */
    method ApplyDelta(index: CompactIndex, changes: seq<FileChange>, at: Moment, ghost since: nat) returns (ok: bool)
      requires Valid() && backend == Packed(index) && since <= now && Since(world, at, since, now)
      requires ApplyAll(lower, JournalRead.ViewOf(lower, Seen(world, loadedAt)), changes)
               == JournalRead.ViewOf(lower, Seen(world, at))
      requires AllModerate(world, lower, now) ==> IsSound(lower, changes)
      modifies this, repr
      ensures Valid() && old(now) <= now && fresh(repr - old(repr))
      ensures Since(world, at, since, now)
      ensures ok ==> Current(since)
      ensures !ok ==> Excused(world, lower, since, now)
      ensures old(Takes(index, changes)) && StaysPacked(at) ==>
                ok && loadedAt == at && loadAttempts == old(loadAttempts) && backend == Packed(index)
    {
      ghost var was, goal := JournalRead.ViewOf(lower, Seen(world, loadedAt)), JournalRead.ViewOf(lower,
          Seen(world, at));
      ViewIsModerate(world, lower, loadedAt, now);
      SinceEarlier(world, at, since, now);
      ViewIsModerate(world, lower, at, now);
      var outcome := ApplyTo(index, changes, lower, was, goal);
      ok := Conclude(index, outcome, at, since);
    }

    /** What becomes of an index that changes have been applied to. */
    method Conclude(index: CompactIndex, outcome: Result<Outcome, ()>, at: Moment, ghost since: nat) returns (ok: bool)
      requires Lawful(world) && loadedAt.time <= now && since <= now && Since(world, at, since, now)
      requires outcome == Ok(Applied) ==>
                 Holds(index, lower, JournalRead.ViewOf(lower, Seen(world, at))) && index.len == |Seen(world, at).files|
      requires outcome.Err? ==> !AllModerate(world, lower, now)
      requires this !in PartsOf(index) && (requested != Auto ==> selected == requested)
      modifies this
      ensures Valid() && old(now) <= now && (fresh(repr) || repr == PartsOf(index))
      ensures Since(world, at, since, now)
      ensures ok ==> Current(since)
      ensures !ok ==> Excused(world, lower, since, now)
      ensures outcome == Ok(Applied) && StaysPacked(at) ==>
                ok && loadedAt == at && loadAttempts == old(loadAttempts) && backend == Packed(index)
    {
      if outcome.Err? {
        Invalidate();
        pendingFullReason := Some(ApplyFailed);
        lastFallbackReason := Some(ApplyFailed);
        ok := false;
      } else if outcome.value.NeedsFullReload? {
        ok := ReloadSeen(ApplyRefused(outcome.value.reason), since, at);
      } else {
        ok := Adopt(index, at, since);
      }
    }

    /** A full reload after a snapshot has been seen. */
    method ReloadSeen(reason: FullReason, ghost since: nat, ghost seen: Moment) returns (ok: bool)
      requires Lawful(world) && loadedAt.time <= now && since <= now
      modifies this
      ensures Valid() && old(now) <= now && fresh(repr)
      ensures ok ==> Current(since)
      ensures !ok ==> Excused(world, lower, since, now)
      ensures Since(world, seen, since, old(now)) ==> Since(world, seen, since, now)
      ensures Troubled(world, since, old(now)) ==> Troubled(world, since, now)
    {
      ghost var begun := now;
      ok := ReloadSince(reason, since);
      ExcusedStill(world, lower, since, begun, since, now);
    }

    /** A full reload on behalf of a request that began at `since`. */
    method ReloadSince(reason: FullReason, ghost since: nat) returns (ok: bool)
      requires Lawful(world) && loadedAt.time <= now && since <= now
      modifies this
      ensures Valid() && old(now) <= now && fresh(repr)
      ensures ok ==> Current(since)
      ensures !ok ==> Excused(world, lower, since, now)
    {
      ghost var begun := now;
      ok := FullReload(reason);
      ExcusedStill(world, lower, begun, now, since, now);
      if ok {
        ghost var at :| Since(world, at, begun, now) && Seen(world, at).StampOf() == loadedStamp.value;
        assert Since(world, at, since, now);
      }
    }

    /** An index that has reached a newer snapshot is published, unless it has outgrown the memory
        budget. */
    method Adopt(index: CompactIndex, at: Moment, ghost since: nat) returns (ok: bool)
      requires Lawful(world) && loadedAt.time <= now && since <= now && Since(world, at, since, now)
      requires Holds(index, lower, JournalRead.ViewOf(lower, Seen(world, at))) && this !in PartsOf(index)
      requires index.len == |Seen(world, at).files| && (requested != Auto ==> selected == requested)
      modifies this
      ensures Valid() && old(now) <= now && (fresh(repr) || repr == PartsOf(index))
      ensures Since(world, at, since, now)
      ensures ok ==> Current(since)
      ensures !ok ==> Excused(world, lower, since, now)
      ensures StaysPacked(at) ==>
                ok && loadedAt == at && loadAttempts == old(loadAttempts) && backend == Packed(index)
    {
      var choice := if requested == Auto then SelectBackend(Auto, budget, index.len) else selected;
      if choice == SqliteOnly {
        ok := ReloadSeen(AutoBackendChange, since, at);
        return;
      }
      incrementalApplies := incrementalApplies + 1;
      lastFallbackReason := None;
      Publish(Packed(index), choice, at, PartsOf(index));
      return true;
    }

    // ---------- requests ----------

    /** What other requests may do while no lock is held here. */
    method Others(limits: Reconcile.DiffLimits, clock: Reconcile.Clock)
      requires Valid()
      modifies this, repr
      ensures Valid() && old(now) <= now && fresh(repr - old(repr))
    {
      var n := Grant(0);
      for k := 0 to n
        invariant Valid() && old(now) <= now && fresh(repr - old(repr))
      {
        var explicit: bool := *;
        if explicit {
          var _ := FullReload(Explicit);
        } else {
          var _ := ReloadIfChanged(limits, clock);
        }
      }
    }

    /** `ensure_fresh`: when it succeeds, the loaded stamp is no older than the one that was
        current when it was called; and it succeeds unless a read fails or a database is too large. */
    method EnsureFresh(limits: Reconcile.DiffLimits, clock: Reconcile.Clock) returns (ok: bool)
      requires Valid()
      modifies this, repr
      ensures Valid() && old(now) <= now && fresh(repr - old(repr))
      ensures ok ==> Current(old(now))
      ensures !ok ==> Excused(world, lower, old(now), now)
    {
      var needed := NeedsReload();
      if !needed {
        return true;
      }
      Others(limits, clock);
      ghost var waited := now;
      ok := ReloadIfChanged(limits, clock);
      ExcusedStill(world, lower, waited, now, old(now), now);
    }

    /** A search answers as a full scan of one snapshot of the loaded file: that of the loaded stamp
        for a packed backend, one read during the search for the SQLite backend. The latter is what
        the path holds only while the path still leads to that file. */
    method Search(q: Ranking.Query, limit: nat, utf8: bool)
      returns (results: Option<seq<SqliteSearch.SearchResult>>, ghost at: Moment, ghost table: seq<Row>)
      requires Valid() && Ranking.PreparedQuery(q) && limit > 0
      modifies this`now
      ensures Valid() && old(now) <= now && at.file == loadedAt.file && IsTableOf(Seen(world, at), table)
      ensures if backend.Sqlite? then old(now) <= at.time <= now else at == loadedAt
      ensures results.None? <==> backend.Unavailable?
      ensures results.Some? ==>
                results.value == SqliteSearch.FullScan(lower, SqliteSearch.RankOf(lower, q), table, limit)
    {
      at := loadedAt;
      StaysWellFormed(world, loadedAt);
      table := TableExists(Seen(world, loadedAt));
      match backend
      case Unavailable => results := None;
      case Packed(index) =>
        TableShowsSnapshot(lower, Seen(world, loadedAt), table);
        var hits := PackedSearch.SearchTable(index, q, limit, table);
        results := Some(hits);
      case Sqlite(file) =>
        Elapse();
        var read := Moment(file, now);
        at := read;
        StaysWellFormed(world, read);
        var rows := ReadTable(Seen(world, read));
        table := rows;
        var hits := Planner.Search(lower, rows, q, limit, utf8);
        results := Some(hits);
    }
  }
}

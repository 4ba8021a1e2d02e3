/** Loading, bringing up to date and comparing a packed index, for the service. */
module Handover {
  import opened Common
  import opened Records
  import opened Changes
  import opened Entries
  import opened PackedRows
  import opened PackedIndex
  import opened Worlds
  import Journal
  import JournalRead
  import Loading
  import Reconcile
  import Prefixes

  // ---------- the index as one object ----------

  ghost function PartsOf(index: CompactIndex): set<object>
    reads index, index.blocks
  {
    {index, index.strings, index.strings.prefixes, index.blocks} + set part: object | part in index.blocks.repr
  }

  /** The index is valid. Saying so of whatever equals it keeps the definition of validity out of the
      proofs about the service, which only pass it on. */
  ghost predicate IsIntact(index: CompactIndex)
    reads PartsOf(index), index, index.blocks
  {
    forall i: CompactIndex :: i == index ==> i.Valid()
  }

  /** The index is intact and shows exactly the given records. */
  ghost predicate Holds(index: CompactIndex, lower: Lowercase, view: View)
    reads PartsOf(index), index, index.blocks
  {
    && IsIntact(index) && index.idsSorted && index.lower == lower && index.View() == view
    && index.strings.arenaBytes == ARENA_BYTES
    && index.fragmentation.deadStringBytes <= MAX_DEAD_STRING_BYTES
  }

  /** `CompactIndex::load` on a snapshot. */
  method LoadIndex(lower: Lowercase, s: Db, hash: Prefixes.Hash) returns (index: Option<CompactIndex>)
    requires Journal.WellFormed(s)
    ensures index.Some? ==> fresh(PartsOf(index.value)) && Holds(index.value, lower, JournalRead.ViewOf(lower, s))
    ensures IsModerate(lower, s) ==> index.Some?
  {
    var table := ReadTable(s);
    TableShowsSnapshot(lower, s, table);
    if IsModerate(lower, s) {
      TableIsModerate(lower, s, table);
    }
    index := LoadTable(lower, table, hash);
  }

  method LoadTable(lower: Lowercase, table: seq<Row>, hash: Prefixes.Hash) returns (index: Option<CompactIndex>)
    requires InIdOrder(table)
    ensures index.Some? ==>
              fresh(PartsOf(index.value)) && Holds(index.value, lower, Reconcile.TableView(lower, table))
    ensures Loading.IsModerateTable(lower, table) ==> index.Some?
  {
    var loaded := Loading.Load(lower, table, hash);
    if loaded.Ok? {
      var found := loaded.value;
      assert fresh(PartsOf(found));
      LoadedHolds(found, lower, table);
      index := Some(found);
    } else {
      index := None;
    }
  }

  lemma {:induction false} LoadedHolds(index: CompactIndex, lower: Lowercase, table: seq<Row>)
    requires InIdOrder(table)
    requires index.Valid() && index.lower == lower && Loading.Loaded(lower, table, index.rows)
    requires index.strings.arenaBytes == ARENA_BYTES && index.fragmentation == Fragmentation(0, 0, 0)
    ensures Holds(index, lower, Reconcile.TableView(lower, table))
  {
    LoadedIsAscending(lower, table, index.rows);
    LoadedShowsTable(lower, table, index.rows);
  }

  /** The index accepts the changes: nothing is wrong with them, no budget is exceeded and there is room. */
  ghost predicate Takes(index: CompactIndex, changes: seq<FileChange>)
    reads index, index.strings
  {
    && Acceptable(index.lower, index.rows, changes)
    && Refusal(index.lower, index.rows, index.strings.extensions, Ledger(index.fragmentation, index.len), changes,
               DefaultLimits(|index.rows|)).None?
    && IsAmple(index.lower, changes, index.strings.arenas, index.strings.arenaBytes)
  }

  /** Ordered changes with their own ids and texts of moderate size. */
  ghost predicate IsSound(lower: Lowercase, changes: seq<FileChange>) {
    && AscendingChanges(changes) && OwnIds(changes) && |changes| <= 0x4000_0000
    && forall k :: 0 <= k < |changes| ==> IsModerateChange(lower, changes[k])
  }

  /** Applying a delta that is known to lead to `goal`. */
  method ApplyTo(index: CompactIndex, changes: seq<FileChange>, ghost lower: Lowercase, ghost view: View,
                 ghost goal: View) returns (outcome: Result<Outcome, ()>)
    requires Holds(index, lower, view) && ApplyAll(lower, view, changes) == goal
    modifies PartsOf(index)
    ensures fresh(PartsOf(index) - old(PartsOf(index)))
    ensures outcome == Ok(Applied) ==> Holds(index, lower, goal) && index.len == |goal|
    ensures |view| <= MANY_ROWS && IsSound(lower, changes) ==> outcome.Ok?
    ensures old(Takes(index, changes)) ==> outcome == Ok(Applied)
  {
    if |view| <= MANY_ROWS && IsSound(lower, changes) {
      index.HasRoomLeft(|changes|);
    }
    var applied := index.ApplyChanges(changes);
    outcome := if applied.Ok? then Ok(applied.value) else Err(());
    if outcome == Ok(Applied) {
      ViewSize(index.rows);
    }
  }

  /** The part of a refresh that reads: a journal delta, or a reconciliation when history is gone.
      The index is only borrowed. */
  datatype Delta = Changes(changes: seq<FileChange>) | NoDelta(reason: FullReason) | Failed

  datatype FullReason =
    | Startup | Explicit | IndexUnavailable | DatabaseUnavailable | MissingStamp | Replaced | NotPacked
    | JournalRefused(journal: JournalRead.Reason) | ReconcileRefused(diff: Reconcile.DiffReason)
    | ApplyRefused(apply: Reason) | AutoBackendChange | ApplyFailed

  const MAX_INCREMENTAL_EVENTS: nat := 4096
  const MAX_INCREMENTAL_IDS: nat := 4096
  const MAX_PAYLOAD_BYTES: nat := 33554432

  const READ_LIMITS := JournalRead.ReadLimits(MAX_INCREMENTAL_EVENTS, MAX_INCREMENTAL_IDS, MAX_PAYLOAD_BYTES)

  /** The delta that the journal serves, or that a reconciliation finds where it has a gap. */
  ghost predicate IsDeltaFor(lower: Lowercase, s: Db, base: Stamp, rows: seq<Entry>, changes: seq<FileChange>) {
    || (JournalRead.Servable(lower, s, base, READ_LIMITS) && JournalRead.IsDelta(lower, s, base.revision, changes))
    || (JournalRead.ReadsGap(s, base, READ_LIMITS)
        && exists table :: IsTableOf(s, table) && Reconcile.IsDiff(lower, rows, table, changes))
  }

  /** There is one: the limits allow it, and nothing hinders a reconciliation. */
  ghost predicate Delivers(lower: Lowercase, s: Db, base: Stamp, rows: seq<Entry>, limits: Reconcile.DiffLimits,
                           clock: Reconcile.Clock) {
    || JournalRead.Servable(lower, s, base, READ_LIMITS)
    || (JournalRead.ReadsGap(s, base, READ_LIMITS)
        && forall table :: IsTableOf(s, table) ==> Reconcile.Unhindered(lower, rows, table, limits, clock))
  }

  /** The index gets from its snapshot to another one without being loaded again. */
  ghost predicate Reaches(index: CompactIndex, s: Db, base: Stamp, limits: Reconcile.DiffLimits,
                          clock: Reconcile.Clock)
    reads index, index.strings
  {
    && Delivers(index.lower, s, base, index.rows, limits, clock)
    && forall changes :: IsDeltaFor(index.lower, s, base, index.rows, changes) ==> Takes(index, changes)
  }

  /** Only within its own lineage. */
  lemma {:induction false} ReachIsLineage(index: CompactIndex, s: Db, base: Stamp, limits: Reconcile.DiffLimits,
                                          clock: Reconcile.Clock)
    ensures Reaches(index, s, base, limits, clock) ==> JournalRead.SameLineage(base, s)
  {
  }

  lemma {:induction false} ServedIsSound(lower: Lowercase, s: Db, base: Stamp, changes: seq<FileChange>)
    requires JournalRead.Servable(lower, s, base, READ_LIMITS) && Journal.WellFormed(s)
    requires JournalRead.IsDelta(lower, s, base.revision, changes)
    ensures IsModerate(lower, s) ==> IsSound(lower, changes)
  {
    var ids := seq(|changes|, i requires 0 <= i < |changes| => changes[i].id);
    Reconcile.DistinctIdsFit(ids, JournalRead.MentionedIds(s.journal, base.revision, s.revision));
    if IsModerate(lower, s) {
      forall k | 0 <= k < |changes| ensures IsModerateChange(lower, changes[k]) {
        ChangeIsModerate(lower, s, changes[k]);
      }
    }
  }

  lemma {:induction false} FoundIsSound(lower: Lowercase, s: Db, rows: seq<Entry>, table: seq<Row>,
                                        changes: seq<FileChange>)
    requires IsTableOf(s, table) && Reconcile.IsDiff(lower, rows, table, changes)
    ensures IsModerate(lower, s) && |ViewOf(rows)| <= MANY_ROWS ==> IsSound(lower, changes)
  {
    Reconcile.DiffIsShort(lower, rows, table, changes);
    TableShowsSnapshot(lower, s, table);
    assert JournalRead.ViewOf(lower, s).Keys == s.files.Keys;
    assert |JournalRead.ViewOf(lower, s).Keys| == |JournalRead.ViewOf(lower, s)|;
    assert |s.files.Keys| == |s.files|;
    if IsModerate(lower, s) {
      forall k | 0 <= k < |changes| ensures IsModerateChange(lower, changes[k]) {
        assert Reconcile.OnlyDiffers(ViewOf(rows), Reconcile.TableView(lower, table), changes[k]);
        ChangeIsModerate(lower, s, changes[k]);
      }
    }
  }

  method ReadDelta(world: World, lower: Lowercase, index: CompactIndex, base: Stamp, ghost b: Moment, t: Moment,
                   limits: Reconcile.DiffLimits, clock: Reconcile.Clock) returns (delta: Delta)
    requires Lawful(world) && b.time <= t.time && base == Seen(world, b).StampOf()
    requires Holds(index, lower, JournalRead.ViewOf(lower, Seen(world, b)))
    ensures delta.Changes? ==>
              ApplyAll(lower, JournalRead.ViewOf(lower, Seen(world, b)), delta.changes)
              == JournalRead.ViewOf(lower, Seen(world, t))
    ensures delta.Changes? ==> IsDeltaFor(lower, Seen(world, t), base, index.rows, delta.changes)
    ensures delta.Changes? && IsModerate(lower, Seen(world, t)) && |index.View()| <= MANY_ROWS ==>
              IsSound(lower, delta.changes)
    ensures delta.Failed? ==> !IsModerate(lower, Seen(world, t))
    ensures Delivers(lower, Seen(world, t), base, index.rows, limits, clock) ==>
              delta.Changes?
  {
    var s := Seen(world, t);
    StaysWellFormed(world, t);
    var read := JournalRead.FileChangesSince(lower, s, base, READ_LIMITS);
    if read.Available? {
      assert SameFile(Seen(world, b), Seen(world, t));
      DeltaTakesOver(world, lower, b, t, read.changes);
      ServedIsSound(lower, s, base, read.changes);
      delta := Changes(read.changes);
    } else if read.reason != JournalRead.HistoryGap {
      delta := NoDelta(JournalRefused(read.reason));
    } else {
      delta := ReadDiff(lower, index, s, limits, clock);
    }
  }

  /** The reconciliation with the whole table of a snapshot. */
  method ReadDiff(lower: Lowercase, index: CompactIndex, s: Db, limits: Reconcile.DiffLimits, clock: Reconcile.Clock)
    returns (delta: Delta)
    requires Journal.WellFormed(s) && index.Valid() && index.idsSorted && index.lower == lower
    ensures delta.Changes? ==> ApplyAll(lower, index.View(), delta.changes) == JournalRead.ViewOf(lower, s)
    ensures delta.Changes? ==>
              exists table :: IsTableOf(s, table) && Reconcile.IsDiff(lower, index.rows, table, delta.changes)
    ensures delta.Changes? && IsModerate(lower, s) && |index.View()| <= MANY_ROWS ==> IsSound(lower, delta.changes)
    ensures delta.Failed? ==> !IsModerate(lower, s)
    ensures (forall table :: IsTableOf(s, table) ==>
               Reconcile.Unhindered(lower, index.rows, table, limits, clock)) ==> delta.Changes?
  {
    var table := ReadTable(s);
    TableShowsSnapshot(lower, s, table);
    var diff := Reconcile.SnapshotDiff(index, table, limits, clock);
    if diff.Err? {
      if IsModerate(lower, s) {
        TableIsModerate(lower, s, table);
      }
      return Failed;
    }
    if diff.value.Fallback? {
      return NoDelta(ReconcileRefused(diff.value.reason));
    }
    FoundIsSound(lower, s, index.rows, table, diff.value.changes);
    return Changes(diff.value.changes);
  }

  ghost predicate Owns(index: CompactIndex, repr: set<object>)
    reads index, index.blocks
  {
    repr == PartsOf(index)
  }
}

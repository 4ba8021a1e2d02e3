/** How much history the change journal keeps (`init_file_changes` of `src/db.rs`). */
module Retention {
  import opened Common
  import opened Records
  import opened Journal

  /** The stored revisions are exactly those above the floor, and the floor is never further
      behind the last prune than the retention. */
  ghost predicate Contiguous(s: Db) {
    && s.floor <= s.revision && 0 <= s.floor
    && (s.status == Installed ==>
          && (forall r :: r in s.journal <==> s.floor < r <= s.revision)
          && s.floor >= LastPrune(s.revision) - RETENTION)
  }

  ghost predicate Books(s: Db) {
    WellFormed(s) && Contiguous(s)
  }

  /** No event of an installed journal is lost outside the writers' control. */
  predicate Undisturbed(op: Op) {
    !op.LoseEvent?
  }

  /** The revision of the last pruning. */
  function LastPrune(revision: int): int {
    revision / PRUNE_INTERVAL * PRUNE_INTERVAL
  }

  /** The floor of an installed journal that starts at `origin`: nothing is forgotten but what the
      last pruning found older than the retention. */
  function FloorOf(origin: int, revision: int): int {
    Max(origin, LastPrune(revision) - RETENTION)
  }

  /** The floor stays, or moves to a revision that a pruning found older than the retention. */
  ghost predicate Raised(origin: int, floor: int, revision: int) {
    floor == origin || (origin < floor <= revision - RETENTION && floor % PRUNE_INTERVAL == 0)
  }

  ghost predicate Grows(s: Db, t: Db) {
    Contiguous(t) && t.status == s.status && s.revision <= t.revision && Raised(s.floor, t.floor, t.revision)
  }

  lemma {:induction false} GrowsTransits(s: Db, t: Db, u: Db)
    requires Grows(s, t) && Grows(t, u)
    ensures Grows(s, u)
  {
  }

  /** Being raised by prunings only, and by the last one at least, leaves one floor. */
  lemma {:induction false} RaisedIsExact(origin: int, floor: int, revision: int)
    requires Raised(origin, floor, revision) && floor >= LastPrune(revision) - RETENTION
    ensures floor == FloorOf(origin, revision)
  {
  }

  lemma {:induction false} DivisionStep(n: int)
    requires n >= 0
    ensures (n + 1) % PRUNE_INTERVAL != 0 ==> (n + 1) / PRUNE_INTERVAL == n / PRUNE_INTERVAL
    ensures (n + 1) % PRUNE_INTERVAL == 0 ==> (n + 1) / PRUNE_INTERVAL * PRUNE_INTERVAL == n + 1
  {
  }

  /** The pruning trigger moves the floor to the newest revision it deletes. */
  lemma {:induction false} RecordKeepsContiguous(s: Db, event: Event)
    requires Contiguous(s) && 0 <= s.revision
    ensures Grows(s, Record(s, event))
  {
    DivisionStep(s.revision);
    if s.status == Installed {
      var r := s.revision + 1;
      var t := s.(revision := r, journal := s.journal[r := event]);
      var bound := r - RETENTION;
      assert forall k :: k in t.journal <==> s.floor < k <= r;
      if r % PRUNE_INTERVAL == 0 {
        if s.floor < bound {
          assert bound in t.journal;
          assert NewestAtMost(t.journal, bound) == Some(bound);
        } else {
          assert NewestAtMost(t.journal, bound).None?;
        }
      }
    }
  }

  lemma {:induction false} FilesDoNotMatter(s: Db, u: Db, event: Event)
    requires SameBooks(s, u) && Contiguous(s) && 0 <= s.revision
    ensures Grows(s, Record(u, event))
  {
    RecordKeepsContiguous(u, event);
  }

  lemma {:induction false} EvictKeepsContiguous(s: Db, victim: Option<int>, recursive: bool)
    requires Contiguous(s) && 0 <= s.revision
    ensures Grows(s, Evict(s, victim, recursive))
  {
    if victim.Some? && victim.value in s.files {
      FilesDoNotMatter(s, s.(files := s.files - {victim.value}), Event(victim, None, None));
    }
  }

  lemma {:induction false} InsertKeepsContiguous(s: Db, row: Row, policy: Policy)
    requires Contiguous(s) && 0 <= s.revision
    ensures Grows(s, RunInsert(s, row, policy))
  {
    var t := BeforeInsert(s, row);
    var holder := PathHolder(s, row.path);
    if row.id !in s.files && holder.None? {
      FilesDoNotMatter(s, t.(files := t.files[row.id := row]), Event(None, Some(row.id), t.scratch));
    } else if policy.Replace? {
      EvictBothKeepContiguous(t, Some(row.id), holder, policy.recursive);
      var v := EvictBoth(t, Some(row.id), holder, policy.recursive);
      var after := Record(v.(files := v.files[row.id := row]), Event(None, Some(row.id), v.scratch));
      FilesDoNotMatter(v, v.(files := v.files[row.id := row]), Event(None, Some(row.id), v.scratch));
      GrowsTransits(t, v, after);
    }
  }

  lemma {:induction false} EvictBothKeepContiguous(s: Db, a: Option<int>, b: Option<int>, recursive: bool)
    requires Contiguous(s) && 0 <= s.revision
    ensures Grows(s, EvictBoth(s, a, b, recursive))
  {
    var t := Evict(s, a, recursive);
    EvictKeepsContiguous(s, a, recursive);
    EvictKeepsContiguous(t, b, recursive);
    GrowsTransits(s, t, Evict(t, b, recursive));
  }

  lemma {:induction false} AfterUpdateKeepsContiguous(s: Db, id: int, was: Row, row: Row)
    requires Contiguous(s) && 0 <= s.revision
    ensures Grows(s, AfterUpdate(s, id, was, row))
  {
    FilesDoNotMatter(s, s.(files := (s.files - {id})[row.id := row]), Event(Some(id), Some(row.id), s.scratch));
  }

  lemma {:induction false} UpdateKeepsContiguous(s: Db, id: int, row: Row, policy: Policy)
    requires Contiguous(s) && 0 <= s.revision
    ensures Grows(s, RunUpdate(s, id, row, policy))
  {
    if id in s.files {
      var was := s.files[id];
      var t := BeforeUpdate(s, was, row);
      var (first, holder) := Displaced(s, id, row);
      if (row.id == id || row.id !in s.files) && holder.None? {
        AfterUpdateKeepsContiguous(t, id, was, row);
      } else if policy.Replace? {
        var v := EvictBoth(t, first, holder, policy.recursive);
        EvictBothKeepContiguous(t, first, holder, policy.recursive);
        AfterUpdateKeepsContiguous(v, id, was, row);
        GrowsTransits(t, v, AfterUpdate(v, id, was, row));
      }
    }
  }

  /** A statement, as opposed to the installation or the loss of the journal. */
  predicate IsStatement(op: Op) {
    !op.Install? && !op.DropJournal? && !op.LoseEvent?
  }

  lemma {:induction false} StatementGrows(s: Db, op: Op)
    requires Books(s) && IsStatement(op)
    ensures Grows(s, Step(s, op))
  {
    match op
    case Insert(row, policy) => InsertKeepsContiguous(s, row, policy);
    case Update(id, row, policy) => UpdateKeepsContiguous(s, id, row, policy);
    case Delete(id) =>
      if id in s.files {
        FilesDoNotMatter(s, s.(files := s.files - {id}), Event(Some(id), None, None));
      }
    case Upsert(row, freshId) =>
      var holder := PathHolder(s, row.path);
      if holder.None? {
        InsertKeepsContiguous(s, row.(id := freshId), Abort);
      } else {
        UpdateKeepsContiguous(BeforeInsert(s, row), holder.value, row.(id := holder.value), Abort);
      }
  }

  /** The revision from which a journal is kept: the floor it starts with, or the revision at which
      it was last installed where there was none. */
  ghost function OriginAfter(s: Db, op: Op, origin: int): int {
    if op.Install? && s.status != Installed then s.revision else origin
  }

  /** The exact floor, while the journal is installed. */
  ghost predicate FloorIsExact(s: Db, origin: int) {
    && Raised(origin, s.floor, s.revision)
    && (s.status == Installed ==> s.floor == FloorOf(origin, s.revision))
  }

  lemma {:induction false} StepKeepsBooks(s: Db, op: Op, origin: int)
    requires Books(s) && Undisturbed(op) && FloorIsExact(s, origin)
    ensures Books(Step(s, op)) && s.floor <= Step(s, op).floor
    ensures FloorIsExact(Step(s, op), OriginAfter(s, op, origin))
  {
    StepExtends(s, op);
    if IsStatement(op) {
      StatementGrows(s, op);
    }
    var t := Step(s, op);
    if t.status == Installed {
      RaisedIsExact(OriginAfter(s, op, origin), t.floor, t.revision);
    }
  }

  ghost function OriginAfterAll(s: Db, ops: seq<Op>, origin: int): int {
    if ops == [] then origin
    else
      var n := |ops| - 1;
      OriginAfter(RunAll(s, ops[..n]), ops[n], OriginAfterAll(s, ops[..n], origin))
  }

  lemma {:induction false} RunAllKeepsBooks(s: Db, ops: seq<Op>, origin: int)
    requires Books(s) && FloorIsExact(s, origin) && forall i :: 0 <= i < |ops| ==> Undisturbed(ops[i])
    ensures Books(RunAll(s, ops)) && s.floor <= RunAll(s, ops).floor
    ensures FloorIsExact(RunAll(s, ops), OriginAfterAll(s, ops, origin))
  {
    if ops != [] {
      var n := |ops| - 1;
      RunAllKeepsBooks(s, ops[..n], origin);
      StepKeepsBooks(RunAll(s, ops[..n]), ops[n], OriginAfterAll(s, ops[..n], origin));
    }
  }

  ghost predicate UndisturbedHistory(txs: seq<Transaction>) {
    forall i, j :: 0 <= i < |txs| && 0 <= j < |txs[i].ops| ==> Undisturbed(txs[i].ops[j])
  }

  /** The revision from which the journal is kept after a history: the floor at its beginning unless
      a committed transaction has installed the journal anew. */
  ghost function Origin(s: Db, txs: seq<Transaction>): int {
    if txs == [] then s.floor
    else
      var n := |txs| - 1;
      if txs[n].committed then OriginAfterAll(Commit(s, txs[..n]), txs[n].ops, Origin(s, txs[..n]))
      else Origin(s, txs[..n])
  }

  /** From installation on the stored revisions are the contiguous range above a floor that never
      decreases, and that only the retention raises above the origin. */
  lemma {:induction false} HistoryKeepsBooks(s: Db, txs: seq<Transaction>)
    requires Books(s) && UndisturbedHistory(txs)
    ensures Books(Commit(s, txs)) && s.floor <= Commit(s, txs).floor
    ensures FloorIsExact(Commit(s, txs), Origin(s, txs))
  {
    if txs != [] {
      var n := |txs| - 1;
      HistoryKeepsBooks(s, txs[..n]);
      RunAllKeepsBooks(Commit(s, txs[..n]), txs[n].ops, Origin(s, txs[..n]));
    }
  }

  /** No transaction installs the journal. */
  ghost predicate NoInstallation(txs: seq<Transaction>) {
    forall i, j :: 0 <= i < |txs| && 0 <= j < |txs[i].ops| ==> !txs[i].ops[j].Install?
  }

  lemma {:induction false} OriginStays(s: Db, ops: seq<Op>, origin: int)
    requires forall j :: 0 <= j < |ops| ==> !ops[j].Install?
    ensures OriginAfterAll(s, ops, origin) == origin
  {
    if ops != [] {
      OriginStays(s, ops[..|ops| - 1], origin);
    }
  }

  lemma {:induction false} OriginIsFloor(s: Db, txs: seq<Transaction>)
    requires NoInstallation(txs)
    ensures Origin(s, txs) == s.floor
  {
    if txs != [] {
      var n := |txs| - 1;
      OriginIsFloor(s, txs[..n]);
      OriginStays(Commit(s, txs[..n]), txs[n].ops, Origin(s, txs[..n]));
    }
  }

  /** Whatever is newer than the origin and within the retention is stored. */
  lemma {:induction false} RecentRevisionsAreStored(s: Db, txs: seq<Transaction>, r: int)
    requires Books(s) && UndisturbedHistory(txs) && Commit(s, txs).status == Installed
    requires Origin(s, txs) < r <= Commit(s, txs).revision && Commit(s, txs).revision - RETENTION < r
    ensures r in Commit(s, txs).journal
  {
    HistoryKeepsBooks(s, txs);
  }

  /** Without a new installation the floor rises only as far as the retention allows. */
  lemma {:induction false} FloorStaysBehind(s: Db, txs: seq<Transaction>)
    requires Books(s) && UndisturbedHistory(txs) && NoInstallation(txs)
    ensures s.floor <= Commit(s, txs).floor <= Max(s.floor, Commit(s, txs).revision - RETENTION)
  {
    HistoryKeepsBooks(s, txs);
    OriginIsFloor(s, txs);
  }

  /** The revisions of `(low, high]`. */
  function Interval(low: int, high: int): (r: set<int>)
    ensures forall k :: k in r <==> low < k <= high
    decreases high - low
  {
    if high <= low then {} else Interval(low, high - 1) + {high}
  }

  lemma {:induction false} IntervalSize(low: int, high: int)
    requires low <= high
    ensures |Interval(low, high)| == high - low
    decreases high - low
  {
    if low < high {
      IntervalSize(low, high - 1);
      assert high !in Interval(low, high - 1);
    }
  }

  /** At every completed write the journal holds fewer rows than retention plus prune interval. */
  lemma {:induction false} JournalIsBounded(s: Db)
    requires Books(s) && s.status == Installed
    ensures |s.journal| == s.revision - s.floor < RETENTION + PRUNE_INTERVAL
  {
    IntervalSize(s.floor, s.revision);
    assert s.journal.Keys == Interval(s.floor, s.revision);
    assert s.revision < LastPrune(s.revision) + PRUNE_INTERVAL;
  }
}

/** The `files` table and its change journal (`src/db.rs`). */
module Journal {
  import opened Common
  import opened Records
  import opened Changes

  // Triggers give every content change a revision and record the old, new and conflicting
  // ids of the row. The delta theorem holds over all histories, including rows removed
  // silently by `OR REPLACE`, lost journal rows and re-installed journals.

  const RETENTION := 16_384
  const PRUNE_INTERVAL := 1_024
  const MAX_BATCH: nat := 4_096

  datatype Event = Event(oldId: Option<int>, newId: Option<int>, conflictId: Option<int>)

  /** `Legacy`: only the revision triggers of the first migration. `Dropped`: the journal table
      is gone while its triggers survive, so that writes to `files` fail. */
  datatype Status = Legacy | Installed | Dropped

  datatype Stamp = Stamp(databaseId: Text, revision: int, identity: int)

  datatype Db = Db(
    databaseId: Text, identity: int, status: Status,
    files: map<int, Row>, revision: int, floor: int, scratch: Option<int>, journal: map<int, Event>)
  {
    function StampOf(): Stamp {
      Stamp(databaseId, revision, identity)
    }
  }

  /** The UNIQUE and PRIMARY KEY constraints, and the bookkeeping that survives anything. */
  ghost predicate WellFormed(s: Db) {
    && (forall id :: id in s.files ==> s.files[id].id == id)
    && (forall a, b :: a in s.files && b in s.files && s.files[a].path == s.files[b].path ==> a == b)
    && 0 <= s.revision
    && (forall r :: r in s.journal ==> 1 <= r <= s.revision && NamesSomeId(s.journal[r]))
  }

  predicate NamesSomeId(event: Event) {
    event.oldId.Some? || event.newId.Some? || event.conflictId.Some?
  }

  // ---------- triggers ----------

  /** `SELECT MAX(revision) ... WHERE revision <= bound` */
  function NewestAtMost(journal: map<int, Event>, bound: int): (newest: Option<int>)
    ensures newest.Some? ==> newest.value in journal && 1 <= newest.value <= bound
    ensures newest.Some? ==> forall r :: r in journal && r <= bound ==> r <= newest.value
    ensures newest.None? ==> forall r :: r in journal && r <= bound ==> r < 1
    decreases bound
  {
    if bound < 1 then None else if bound in journal then Some(bound) else NewestAtMost(journal, bound - 1)
  }

  function Above(journal: map<int, Event>, bound: int): map<int, Event> {
    map r | r in journal && r > bound :: journal[r]
  }

  /** `macevery_file_changes_prune_v1` */
  function Prune(s: Db, revision: int): Db {
    if revision % PRUNE_INTERVAL != 0 then s
    else
      var newest := NewestAtMost(s.journal, revision - RETENTION);
      s.(floor := Max(s.floor, if newest.Some? then newest.value else s.floor),
         journal := Above(s.journal, revision - RETENTION))
  }

  /** The common part of the AFTER triggers. */
  function Record(s: Db, event: Event): Db {
    var revision := s.revision + 1;
    if s.status == Installed then Prune(s.(revision := revision, journal := s.journal[revision := event]), revision)
    else s.(revision := revision)
  }

  /** `SELECT id FROM files WHERE path = ?` */
  ghost function PathHolder(s: Db, path: Text): (holder: Option<int>)
    ensures holder.Some? ==> holder.value in s.files && s.files[holder.value].path == path
    ensures holder.None? ==> forall id :: id in s.files ==> s.files[id].path != path
  {
    if id :| id in s.files && s.files[id].path == path then Some(id) else None
  }

  function SetScratch(s: Db, scratch: Option<int>): Db {
    if s.status == Legacy then s else s.(scratch := scratch)
  }

  /** BEFORE INSERT */
  ghost function BeforeInsert(s: Db, row: Row): Db {
    SetScratch(s, PathHolder(s, row.path))
  }

  /** BEFORE UPDATE */
  ghost function BeforeUpdate(s: Db, was: Row, row: Row): Db {
    SetScratch(s, if row.path == was.path then None else PathHolder(s.(files := s.files - {was.id}), row.path))
  }

  // ---------- statements ----------

  datatype Policy = Abort | Ignore | Replace(recursive: bool)

  /** One statement on `files`, or an event outside the writers' control. */
  datatype Op =
    | Insert(row: Row, onInsert: Policy)
    | Update(id: int, to: Row, onUpdate: Policy)
    | Delete(id: int)
    | Upsert(row: Row, freshId: int)
    | Install
    | DropJournal
    | LoseEvent(revision: int)

  /** A row removed by conflict resolution; its delete trigger runs only with recursive triggers. */
  function Evict(s: Db, victim: Option<int>, recursive: bool): Db {
    if victim.None? || victim.value !in s.files then s
    else
      var gone := s.(files := s.files - {victim.value});
      if recursive then Record(gone, Event(victim, None, None)) else gone
  }

  ghost function RunInsert(s: Db, row: Row, policy: Policy): Db {
    var t := BeforeInsert(s, row);
    var holder := PathHolder(s, row.path);
    if row.id !in s.files && holder.None? then
      Record(t.(files := t.files[row.id := row]), Event(None, Some(row.id), t.scratch))
    else
      match policy
      case Abort => s
      case Ignore => t
      case Replace(recursive) =>
        var u := Evict(Evict(t, Some(row.id), recursive), holder, recursive);
        Record(u.(files := u.files[row.id := row]), Event(None, Some(row.id), u.scratch))
  }

  /** AFTER UPDATE fires only when some column changed. */
  function AfterUpdate(s: Db, id: int, was: Row, row: Row): Db {
    var u := s.(files := (s.files - {id})[row.id := row]);
    if row == was then u else Record(u, Event(Some(id), Some(row.id), u.scratch))
  }

  ghost function RunUpdate(s: Db, id: int, row: Row, policy: Policy): Db {
    if id !in s.files then s
    else
      var was := s.files[id];
      var t := BeforeUpdate(s, was, row);
      var holder := PathHolder(s.(files := s.files - {id}), row.path);
      if (row.id == id || row.id !in s.files) && holder.None? then AfterUpdate(t, id, was, row)
      else
        match policy
        case Abort => s
        case Ignore => t
        case Replace(recursive) =>
          var u := Evict(t, if row.id == id then None else Some(row.id), recursive);
          AfterUpdate(Evict(u, holder, recursive), id, was, row)
  }

  function RunDelete(s: Db, id: int): Db {
    if id !in s.files then s
    else Record(s.(files := s.files - {id}), Event(Some(id), None, None))
  }

  /** `FILE_UPSERT_SQL`: identical rows are filtered out, a path conflict becomes an update. */
  ghost function RunUpsert(s: Db, row: Row, freshId: int): Db {
    var holder := PathHolder(s, row.path);
    if holder.None? then
      if freshId in s.files then s else RunInsert(s, row.(id := freshId), Abort)
    else if s.files[holder.value] == row.(id := holder.value) then s
    else RunUpdate(BeforeInsert(s, row), holder.value, row.(id := holder.value), Abort)
  }

  ghost function Run(s: Db, op: Op): Db {
    match op
    case Insert(row, policy) => RunInsert(s, row, policy)
    case Update(id, row, policy) => RunUpdate(s, id, row, policy)
    case Delete(id) => RunDelete(s, id)
    case Upsert(row, freshId) => RunUpsert(s, row, freshId)
    case Install => if s.status
    == Installed then s else s.(status := Installed, journal := map[], floor := s.revision, scratch := None)
    case DropJournal => if s.status == Installed then s.(status := Dropped, journal := map[]) else s
    case LoseEvent(revision) => s.(journal := s.journal - {revision})
  }

  /** With the journal table gone, a statement whose triggers would write to it fails as a whole. */
  ghost function Step(s: Db, op: Op): Db {
    var t := Run(s, op);
    if s.status == Dropped && t.revision != s.revision then s else t
  }

  /** A transaction takes effect as a whole or not at all. */
  datatype Transaction = Transaction(ops: seq<Op>, committed: bool)

  ghost function RunAll(s: Db, ops: seq<Op>): Db {
    if ops == [] then s else Step(RunAll(s, ops[..|ops| - 1]), ops[|ops| - 1])
  }

  ghost function Commit(s: Db, txs: seq<Transaction>): Db {
    if txs == [] then s
    else
      var before := Commit(s, txs[..|txs| - 1]);
      var tx := txs[|txs| - 1];
      if tx.committed then RunAll(before, tx.ops) else before
  }

  // ---------- what every step keeps ----------

  function RowAt(files: map<int, Row>, id: int): Option<Row> {
    if id in files then Some(files[id]) else None
  }

  predicate Mentions(event: Event, id: int) {
    event.oldId == Some(id) || event.newId == Some(id) || event.conflictId == Some(id)
  }

  /** Every row that differs from the base snapshot is mentioned by some later revision whose
      event, if the journal still holds it, names the row; equal revisions mean equal rows. */
  ghost predicate Covers(base: Db, s: Db) {
    && base.revision <= s.revision
    && base.databaseId == s.databaseId && base.identity == s.identity
    && forall id :: RowAt(base.files, id) != RowAt(s.files, id) ==> Covered(base, s, id)
  }

  ghost predicate Covered(base: Db, s: Db, id: int) {
    exists r :: base.revision < r <= s.revision && (r in s.journal ==> Mentions(s.journal[r], id))
  }

  /** The journal only ever forgets events; it never rewrites one. */
  ghost predicate Keeps(s: Db, t: Db) {
    forall r :: r in t.journal && r <= s.revision ==> r in s.journal && t.journal[r] == s.journal[r]
  }

  ghost predicate Extends(s: Db, t: Db) {
    WellFormed(t) && Covers(s, t) && Keeps(s, t)
  }

  lemma {:induction false} ExtendsTransits(s: Db, t: Db, u: Db)
    requires Extends(s, t) && Extends(t, u)
    ensures Extends(s, u)
  {
    forall id | RowAt(s.files, id) != RowAt(u.files, id) ensures Covered(s, u, id) {
      if RowAt(s.files, id) != RowAt(t.files, id) {
        var r :| s.revision < r <= t.revision && (r in t.journal ==> Mentions(t.journal[r], id));
        assert r in u.journal ==> Mentions(u.journal[r], id);
      } else {
        var r :| t.revision < r <= u.revision && (r in u.journal ==> Mentions(u.journal[r], id));
      }
    }
  }

  /** `u` is `s` up to the rows and the scratch id. */
  predicate SameBooks(s: Db, u: Db) {
    u == s.(files := u.files, scratch := u.scratch)
  }

  ghost predicate UniqueRows(files: map<int, Row>) {
    && (forall id :: id in files ==> files[id].id == id)
    && (forall a, b :: a in files && b in files && files[a].path == files[b].path ==> a == b)
  }

  /** A recorded event that names every changed row covers the change. */
  lemma {:induction false} RecordExtends(s: Db, u: Db, event: Event)
    requires WellFormed(s) && SameBooks(s, u) && UniqueRows(u.files) && NamesSomeId(event)
    requires s.status == Installed ==> forall id :: RowAt(s.files, id) != RowAt(u.files, id) ==> Mentions(event, id)
    ensures Extends(s, Record(u, event))
    ensures Record(u, event).files == u.files && Record(u, event).scratch == u.scratch
    ensures Record(u, event).status == s.status
  {
    var t := Record(u, event);
    var r := s.revision + 1;
    assert r in t.journal ==> s.status == Installed && t.journal[r] == event;
    forall id | RowAt(s.files, id) != RowAt(t.files, id) ensures Covered(s, t, id) {
      assert s.revision < r <= t.revision && (r in t.journal ==> Mentions(t.journal[r], id));
    }
  }

  lemma {:induction false} Unchanged(s: Db, u: Db)
    requires WellFormed(s) && SameBooks(s, u) && u.files == s.files
    ensures Extends(s, u)
  {
  }

  lemma {:induction false} EvictExtends(s: Db, victim: Option<int>)
    requires WellFormed(s)
    ensures Extends(s, Evict(s, victim, true))
    ensures Evict(s, victim, true).status == s.status && Evict(s, victim, true).scratch == s.scratch
    ensures Evict(s, victim, true).files == (if victim.Some? then s.files - {victim.value} else s.files)
  {
    if victim.Some? && victim.value in s.files {
      RecordExtends(s, s.(files := s.files - {victim.value}), Event(victim, None, None));
    } else {
      Unchanged(s, s);
    }
  }

  /** Two rows removed by conflict resolution. */
  function EvictBoth(s: Db, a: Option<int>, b: Option<int>, recursive: bool): Db {
    Evict(Evict(s, a, recursive), b, recursive)
  }

  function Lost(a: Option<int>): set<int> {
    if a.Some? then {a.value} else {}
  }

  /** Evictions, whether recorded one by one or left to the statement's own event. */
  lemma {:induction false} EvictBothThen(s: Db, a: Option<int>, b: Option<int>, recursive: bool)
    requires WellFormed(s)
    ensures var u := EvictBoth(s, a, b, recursive);
            && u.files == s.files - Lost(a) - Lost(b) && u.scratch == s.scratch && u.status == s.status
            && (if recursive then Extends(s, u) else SameBooks(s, u))
  {
    if recursive {
      var t := Evict(s, a, true);
      EvictExtends(s, a);
      EvictExtends(t, b);
      ExtendsTransits(s, t, Evict(t, b, true));
    }
  }

  lemma {:induction false} InsertExtends(s: Db, row: Row, policy: Policy)
    requires WellFormed(s)
    ensures Extends(s, RunInsert(s, row, policy))
  {
    var t := BeforeInsert(s, row);
    var holder := PathHolder(s, row.path);
    Unchanged(s, s);
    Unchanged(s, t);
    if row.id !in s.files && holder.None? {
      RecordExtends(s, t.(files := t.files[row.id := row]), Event(None, Some(row.id), t.scratch));
    } else if policy.Replace? {
      EvictBothThen(t, Some(row.id), holder, policy.recursive);
      ResolvedInsertExtends(s, t, EvictBoth(t, Some(row.id), holder, policy.recursive), row, policy.recursive);
    }
  }

  lemma {:induction false} ResolvedInsertExtends(s: Db, t: Db, u: Db, row: Row, recursive: bool)
    requires WellFormed(s) && t == BeforeInsert(s, row) && Extends(s, t)
    requires u.status == s.status && u.scratch == t.scratch
    requires u.files == s.files - {row.id} - Lost(PathHolder(s, row.path))
    requires if recursive then Extends(t, u) else SameBooks(t, u)
    ensures Extends(s, Record(u.(files := u.files[row.id := row]), Event(None, Some(row.id), u.scratch)))
  {
    var v := u.(files := u.files[row.id := row]);
    var event := Event(None, Some(row.id), u.scratch);
    if recursive {
      RecordExtends(u, v, event);
      ExtendsTransits(s, t, u);
      ExtendsTransits(s, u, Record(v, event));
    } else {
      RecordExtends(s, v, event);
    }
  }

  /** What conflict resolution of an update removes besides the updated row. */
  ghost function Displaced(s: Db, id: int, row: Row): (Option<int>, Option<int>) {
    (if row.id == id then None else Some(row.id), PathHolder(s.(files := s.files - {id}), row.path))
  }

  /** Removing the id victim and the path victim makes room for the updated row. */
  lemma {:induction false} DisplacedMakesRoom(s: Db, id: int, row: Row)
    requires WellFormed(s) && id in s.files
    ensures var (a, b) := Displaced(s, id, row);
            var files := s.files - Lost(a) - Lost(b);
            && id in files && files[id] == s.files[id] && UniqueRows((files - {id})[row.id := row])
            && (row == s.files[id] ==> files == s.files)
  {
    var (a, b) := Displaced(s, id, row);
    var files := s.files - Lost(a) - Lost(b);
    var after := (files - {id})[row.id := row];
    forall x, y | x in after && y in after && after[x].path == after[y].path ensures x == y {
      assert x != row.id && y == row.id ==> x in s.files - {id};
      assert y != row.id && x == row.id ==> y in s.files - {id};
    }
  }

  lemma {:induction false} UpdateExtends(s: Db, id: int, row: Row, policy: Policy)
    requires WellFormed(s)
    ensures Extends(s, RunUpdate(s, id, row, policy))
  {
    Unchanged(s, s);
    if id in s.files {
      var was := s.files[id];
      var t := BeforeUpdate(s, was, row);
      var (first, holder) := Displaced(s, id, row);
      Unchanged(s, t);
      DisplacedMakesRoom(s, id, row);
      if (row.id == id || row.id !in s.files) && holder.None? {
        assert s.files - Lost(first) - Lost(holder) == s.files;
        AfterUpdateExtends(s, t, id, row);
      } else if policy.Replace? {
        EvictBothThen(t, first, holder, policy.recursive);
        var u := EvictBoth(t, first, holder, policy.recursive);
        ResolvedUpdateExtends(s, t, u, id, row, policy.recursive);
      }
    }
  }

  lemma {:induction false} ResolvedUpdateExtends(s: Db, t: Db, u: Db, id: int, row: Row, recursive: bool)
    requires WellFormed(s) && id in s.files && t == BeforeUpdate(s, s.files[id], row) && Extends(s, t)
    requires u.status == s.status && u.scratch == t.scratch
    requires var (first, holder) := Displaced(s, id, row); u.files == s.files - Lost(first) - Lost(holder)
    requires if recursive then Extends(t, u) else SameBooks(t, u)
    ensures Extends(s, AfterUpdate(u, id, s.files[id], row))
  {
    var (first, holder) := Displaced(s, id, row);
    DisplacedMakesRoom(s, id, row);
    if recursive {
      AfterUpdateExtends(u, u, id, row);
      ExtendsTransits(s, t, u);
      ExtendsTransits(s, u, AfterUpdate(u, id, s.files[id], row));
    } else {
      assert row.path == s.files[id].path ==> holder.None?;
      AfterUpdateExtends(s, u, id, row);
    }
  }

  /** The update event names the old id, the new id and the path victim. */
  lemma {:induction false} AfterUpdateExtends(s: Db, t: Db, id: int, row: Row)
    requires WellFormed(s) && SameBooks(s, t) && id in s.files && id in t.files && t.files[id] == s.files[id]
    requires UniqueRows((t.files - {id})[row.id := row])
    requires s.status == Installed ==>
               forall k :: k != id && k != row.id && RowAt(s.files, k) != RowAt(t.files, k) ==> t.scratch == Some(k)
    requires row == s.files[id] ==> t.files == s.files
    ensures Extends(s, AfterUpdate(t, id, s.files[id], row))
  {
    var u := t.(files := (t.files - {id})[row.id := row]);
    if row == s.files[id] {
      assert u.files == s.files;
      Unchanged(s, u);
    } else {
      RecordExtends(s, u, Event(Some(id), Some(row.id), u.scratch));
    }
  }

  /** Every statement, every policy, and every loss outside the writers' control. */
  lemma {:induction false} StepExtends(s: Db, op: Op)
    requires WellFormed(s)
    ensures Extends(s, Step(s, op))
  {
    Unchanged(s, s);
    match op
    case Insert(row, policy) => InsertExtends(s, row, policy);
    case Update(id, row, policy) => UpdateExtends(s, id, row, policy);
    case Delete(id) =>
      if id in s.files {
        RecordExtends(s, s.(files := s.files - {id}), Event(Some(id), None, None));
      }
    case Upsert(row, freshId) =>
      var holder := PathHolder(s, row.path);
      if holder.None? {
        if freshId !in s.files {
          InsertExtends(s, row.(id := freshId), Abort);
        }
      } else {
        var t := BeforeInsert(s, row);
        Unchanged(s, t);
        UpdateExtends(t, holder.value, row.(id := holder.value), Abort);
        ExtendsTransits(s, t, RunUpdate(t, holder.value, row.(id := holder.value), Abort));
      }
    case Install =>
    case DropJournal =>
    case LoseEvent(revision) =>
  }

  lemma {:induction false} RunAllExtends(s: Db, ops: seq<Op>)
    requires WellFormed(s)
    ensures Extends(s, RunAll(s, ops))
  {
    Unchanged(s, s);
    if ops != [] {
      var before := RunAll(s, ops[..|ops| - 1]);
      RunAllExtends(s, ops[..|ops| - 1]);
      StepExtends(before, ops[|ops| - 1]);
      ExtendsTransits(s, before, RunAll(s, ops));
    }
  }

  /** Over every history of transactions, committed or rolled back. */
  lemma {:induction false} HistoryExtends(s: Db, txs: seq<Transaction>)
    requires WellFormed(s)
    ensures Extends(s, Commit(s, txs))
  {
    Unchanged(s, s);
    if txs != [] {
      var before := Commit(s, txs[..|txs| - 1]);
      var tx := txs[|txs| - 1];
      HistoryExtends(s, txs[..|txs| - 1]);
      RunAllExtends(before, tx.ops);
      if tx.committed {
        ExtendsTransits(s, before, RunAll(before, tx.ops));
      }
    }
  }

  /** Within one lineage a stamp determines the rows. */
  lemma {:induction false} StampDeterminesRows(s: Db, txs: seq<Transaction>)
    requires WellFormed(s)
    ensures Commit(s, txs).StampOf() == s.StampOf() ==> Commit(s, txs).files == s.files
  {
    HistoryExtends(s, txs);
    var t := Commit(s, txs);
    if t.revision == s.revision {
      forall id ensures RowAt(s.files, id) == RowAt(t.files, id) {
      }
      SameRows(s.files, t.files);
    }
  }

  lemma {:induction false} SameRows(a: map<int, Row>, b: map<int, Row>)
    requires forall id :: RowAt(a, id) == RowAt(b, id)
    ensures a == b
  {
    forall id ensures id in a <==> id in b {
      assert RowAt(a, id) == RowAt(b, id);
    }
    forall id | id in a ensures a[id] == b[id] {
      assert RowAt(a, id) == RowAt(b, id);
    }
  }
}

/** Database files over time, and what their snapshots hold. */
module Worlds {
  import opened Common
  import opened Records
  import opened Changes
  import opened Entries
  import opened PackedRows
  import opened PackedIndex
  import Journal
  import JournalRead
  import Loading
  import Reconcile
  import Strings

  type Db = Journal.Db
  type Stamp = Journal.Stamp

  // ---------- the world ----------

  /** A database file, whatever path leads to it. */
  type File = nat

  /** Which file the database path leads to, what is committed to each file, and whether a read that
      ends then fails, at every moment. An open connection goes on reading its file after the path has
      been given to another one. */
  datatype World = World(path: nat -> File, content: (File, nat) -> Db, broken: nat -> bool)

  /** A file at a moment. */
  datatype Moment = Moment(file: File, time: nat)

  function Seen(world: World, at: Moment): Db {
    world.content(at.file, at.time)
  }

  predicate SameFile(a: Db, b: Db) {
    a.databaseId == b.databaseId && a.identity == b.identity
  }

  /** Between two moments a file changes by a committed transaction, if at all. */
  ghost predicate IsCommit(world: World, file: File, n: nat) {
    exists ops :: world.content(file, n + 1) == Journal.RunAll(world.content(file, n), ops)
  }

  /** Files change by commits only, and no two of them share database id and identity. */
  ghost predicate Lawful(world: World) {
    && (forall file :: Journal.WellFormed(world.content(file, 0)))
    && (forall file, n :: IsCommit(world, file, n))
    && forall a: Moment, b: Moment :: SameFile(Seen(world, a), Seen(world, b)) ==> a.file == b.file
  }

  /** A later state of a file extends every earlier one. */
  lemma {:induction false} FileExtends(world: World, file: File, i: nat, j: nat)
    requires Lawful(world) && i <= j && Journal.WellFormed(world.content(file, i))
    ensures Journal.Extends(world.content(file, i), world.content(file, j))
  {
    if i == j {
      Journal.Unchanged(world.content(file, i), world.content(file, i));
    } else {
      FileExtends(world, file, i, j - 1);
      CommitExtends(world, file, j - 1);
      Journal.ExtendsTransits(world.content(file, i), world.content(file, j - 1), world.content(file, j));
    }
  }

  lemma {:induction false} CommitExtends(world: World, file: File, n: nat)
    requires Lawful(world) && Journal.WellFormed(world.content(file, n))
    ensures Journal.Extends(world.content(file, n), world.content(file, n + 1))
  {
    assert IsCommit(world, file, n);
    var ops :| world.content(file, n + 1) == Journal.RunAll(world.content(file, n), ops);
    Journal.RunAllExtends(world.content(file, n), ops);
  }

  lemma {:induction false} StaysWellFormed(world: World, at: Moment)
    requires Lawful(world)
    ensures Journal.WellFormed(Seen(world, at))
  {
    FileExtends(world, at.file, 0, at.time);
  }

  /** A stamp determines the rows, whenever it is observed. */
  lemma {:induction false} StampIsContent(world: World, a: Moment, b: Moment)
    requires Lawful(world) && Seen(world, a).StampOf() == Seen(world, b).StampOf()
    ensures Seen(world, a).files == Seen(world, b).files
  {
    assert SameFile(Seen(world, a), Seen(world, b));
    var first, last := Moment(a.file, Min(a.time, b.time)), Moment(a.file, Max(a.time, b.time));
    StaysWellFormed(world, first);
    FileExtends(world, a.file, first.time, last.time);
    EqualRevisionsEqualRows(Seen(world, first), Seen(world, last));
  }

  lemma {:induction false} EqualRevisionsEqualRows(s: Db, t: Db)
    requires Journal.Extends(s, t) && s.revision == t.revision
    ensures s.files == t.files
  {
    forall id ensures Journal.RowAt(s.files, id) == Journal.RowAt(t.files, id) {
    }
    Journal.SameRows(s.files, t.files);
  }

  /** A state, not later than `now`, of a file that the path led to at some moment from `since` on,
      read no earlier than that. */
  ghost predicate Since(world: World, at: Moment, since: nat, now: nat) {
    at.time <= now && exists moment: nat :: since <= moment <= at.time && world.path(moment) == at.file
  }

  lemma {:induction false} SinceEarlier(world: World, at: Moment, since: nat, now: nat)
    requires Since(world, at, since, now)
    ensures Since(world, at, 0, now)
  {
  }

  /** Such a state is no older than the one current at `since`: it extends it, or another file has
      taken its place. */
  lemma {:induction false} SinceIsNotOlder(world: World, at: Moment, since: nat, now: nat)
    requires Lawful(world) && Since(world, at, since, now)
    ensures at.file == world.path(since) ==>
              Journal.Extends(Seen(world, Moment(world.path(since), since)), Seen(world, at))
    ensures at.file != world.path(since) ==> exists later :: since < later <= now && world.path(later) == at.file
  {
    StaysWellFormed(world, Moment(world.path(since), since));
    if at.file == world.path(since) {
      FileExtends(world, at.file, since, at.time);
    }
  }

  // ---------- what excuses a failure ----------

  /** Some read failed between the two moments. */
  ghost predicate Troubled(world: World, from: nat, to: nat) {
    exists n: nat :: from <= n <= to && world.broken(n)
  }

  /** Few enough rows, each with texts that fit 32 bits. */
  ghost predicate IsModerate(lower: Lowercase, s: Db) {
    |s.files| <= MANY_ROWS && forall id :: id in s.files ==> Loading.IsModerateRow(lower, s.files[id])
  }

  /** No database that the path has led to was ever larger. */
  ghost predicate AllModerate(world: World, lower: Lowercase, now: nat) {
    forall at: Moment :: Since(world, at, 0, now) ==> IsModerate(lower, Seen(world, at))
  }

  /** A failure between two moments is excused by a failed read, or by the size of some database. */
  ghost predicate Excused(world: World, lower: Lowercase, from: nat, to: nat) {
    Troubled(world, from, to) || !AllModerate(world, lower, to)
  }

  lemma {:induction false} ExcusedStill(world: World, lower: Lowercase, from: nat, to: nat, earlier: nat, later: nat)
    requires earlier <= from && to <= later
    ensures Excused(world, lower, from, to) ==> Excused(world, lower, earlier, later)
    ensures Troubled(world, from, to) ==> Troubled(world, earlier, later)
  {
    if !AllModerate(world, lower, to) {
      var at :| Since(world, at, 0, to) && !IsModerate(lower, Seen(world, at));
      assert Since(world, at, 0, later);
    }
  }

  /** The view of a moderate snapshot has moderately many records. */
  lemma {:induction false} ViewIsModerate(world: World, lower: Lowercase, at: Moment, now: nat)
    requires Since(world, at, 0, now)
    ensures |JournalRead.ViewOf(lower, Seen(world, at))| == |Seen(world, at).files|
    ensures AllModerate(world, lower, now) ==> |JournalRead.ViewOf(lower, Seen(world, at))| <= MANY_ROWS
  {
    var view := JournalRead.ViewOf(lower, Seen(world, at));
    assert |view.Keys| == |view| && |Seen(world, at).files.Keys| == |Seen(world, at).files|;
    if AllModerate(world, lower, now) {
      assert IsModerate(lower, Seen(world, at));
    }
  }

  // ---------- the table of a snapshot ----------

  /** The rows of a snapshot in order of id. */
  ghost predicate IsTableOf(s: Db, table: seq<Row>) {
    && InIdOrder(table)
    && (forall i :: 0 <= i < |table| ==> table[i].id in s.files && s.files[table[i].id] == table[i])
    && forall id :: id in s.files ==> Reached(table, id)
  }

  lemma {:induction false} TableShowsSnapshot(lower: Lowercase, s: Db, table: seq<Row>)
    requires IsTableOf(s, table)
    ensures Reconcile.TableView(lower, table) == JournalRead.ViewOf(lower, s)
  {
    var view := Reconcile.TableView(lower, table);
    forall id ensures At(view, id) == At(JournalRead.ViewOf(lower, s), id) {
      if Reached(table, id) {
        var i :| 0 <= i < |table| && table[i].id == id;
        Reconcile.TableAt(lower, table, id, Some(i));
      } else {
        Reconcile.TableAt(lower, table, id, None);
      }
    }
    SameView(view, JournalRead.ViewOf(lower, s));
  }

  /** The rows of a snapshot, in no order. */
  function RowsOf(s: Db): set<Row> {
    set id | id in s.files :: s.files[id]
  }

  method LeastRow(rows: set<Row>) returns (least: Row)
    requires rows != {}
    ensures least in rows && forall row :: row in rows ==> least.id <= row.id
  {
    least :| least in rows;
    var rest := rows - {least};
    while rest != {}
      invariant least in rows && rest <= rows && forall row :: row in rows && row !in rest ==> least.id <= row.id
    {
      var row :| row in rest;
      least := if row.id < least.id then row else least;
      rest := rest - {row};
    }
  }

  /** `SELECT ... FROM files ORDER BY id` */
  method ReadTable(s: Db) returns (table: seq<Row>)
    requires Journal.WellFormed(s)
    ensures IsTableOf(s, table)
  {
    table := [];
    var rest := RowsOf(s);
    while rest != {}
      invariant IsTableBut(s, table, rest)
    {
      var least := LeastRow(rest);
      TableStep(s, table, rest, least);
      table := table + [least];
      rest := rest - {least};
    }
    RowsAreHeld(s);
  }

  lemma {:induction false} RowsAreHeld(s: Db)
    ensures forall id :: id in s.files ==> s.files[id] in RowsOf(s)
  {
  }

  /** The table so far holds all rows but the given ones, which have greater ids. */
  ghost predicate IsTableBut(s: Db, table: seq<Row>, rest: set<Row>) {
    && rest <= RowsOf(s) && InIdOrder(table)
    && (forall i :: 0 <= i < |table| ==> table[i].id in s.files && s.files[table[i].id] == table[i])
    && (forall i, row :: 0 <= i < |table| && row in rest ==> table[i].id < row.id)
    && forall id :: id in s.files && s.files[id] !in rest ==> Reached(table, id)
  }

  lemma {:induction false} TableStep(s: Db, table: seq<Row>, rest: set<Row>, least: Row)
    requires Journal.WellFormed(s) && IsTableBut(s, table, rest) && least in rest
    requires forall row :: row in rest ==> least.id <= row.id
    ensures IsTableBut(s, table + [least], rest - {least})
  {
    RestIsGreater(s, rest, least);
    ReachedStays(table, least);
  }

  lemma {:induction false} RestIsGreater(s: Db, rest: set<Row>, least: Row)
    requires Journal.WellFormed(s) && rest <= RowsOf(s) && least in rest
    requires forall row :: row in rest ==> least.id <= row.id
    ensures least.id in s.files && s.files[least.id] == least
    ensures forall row :: row in rest && row != least ==> least.id < row.id
  {
    forall row | row in rest ensures row.id in s.files && s.files[row.id] == row {
      var id :| id in s.files && s.files[id] == row;
    }
  }

  ghost predicate Reached(table: seq<Row>, id: int) {
    exists i :: 0 <= i < |table| && table[i].id == id
  }

  lemma {:induction false} ReachedStays(table: seq<Row>, row: Row)
    ensures forall id :: Reached(table, id) || id == row.id ==> Reached(table + [row], id)
  {
    forall id | Reached(table, id) || id == row.id ensures Reached(table + [row], id) {
      if id == row.id {
        assert (table + [row])[|table|].id == id;
      } else {
        var i :| 0 <= i < |table| && table[i].id == id;
        assert (table + [row])[i].id == id;
      }
    }
  }

  lemma {:induction false} GreatestRow(rows: set<Row>) returns (greatest: Row)
    requires rows != {}
    ensures greatest in rows && forall row :: row in rows ==> row.id <= greatest.id
  {
    var one :| one in rows;
    var others := rows - {one};
    greatest := one;
    if others != {} {
      var best := GreatestRow(others);
      greatest := if best.id < one.id then one else best;
    }
    assert rows == others + {one};
  }

  /** Every snapshot has a table. */
  lemma {:induction false} TableExists(s: Db) returns (table: seq<Row>)
    requires forall id :: id in s.files ==> s.files[id].id == id
    ensures IsTableOf(s, table)
    decreases |s.files.Keys|
  {
    RowsAreHeld(s);
    if RowsOf(s) == {} {
      return [];
    }
    var row := GreatestRow(RowsOf(s));
    var last :| last in s.files && s.files[last] == row;
    var rest := s.(files := s.files - {last});
    assert rest.files.Keys == s.files.Keys - {last};
    var init := TableExists(rest);
    table := init + [row];
    TableGrows(s, rest, last, init);
  }

  lemma {:induction false} TableGrows(s: Db, rest: Db, last: int, init: seq<Row>)
    requires last in s.files && s.files[last].id == last && (forall id :: id in s.files ==> id <= last)
    requires rest.files == s.files - {last} && IsTableOf(rest, init)
    ensures IsTableOf(s, init + [s.files[last]])
  {
    ReachedStays(init, s.files[last]);
    var table := init + [s.files[last]];
    forall i | 0 <= i < |init| ensures init[i].id < last {
      assert init[i].id in rest.files;
    }
    forall id | id in s.files ensures Reached(table, id) {
      assert id != last ==> id in rest.files && Reached(init, id);
    }
  }

  // ---------- loading and deltas ----------

  lemma {:induction false} LoadedShowsTable(lower: Lowercase, table: seq<Row>, rows: seq<Entry>)
    requires Loading.Loaded(lower, table, rows)
    ensures ViewOf(rows) == Reconcile.TableView(lower, table)
  {
    if rows != [] {
      var n := |rows| - 1;
      assert Loading.Loaded(lower, table[..n], rows[..n]);
      LoadedShowsTable(lower, table[..n], rows[..n]);
    }
  }

  lemma {:induction false} LoadedIsAscending(lower: Lowercase, table: seq<Row>, rows: seq<Entry>)
    requires Loading.Loaded(lower, table, rows) && InIdOrder(table)
    ensures Ascending(rows)
  {
  }

  lemma {:induction false} TableIsModerate(lower: Lowercase, s: Db, table: seq<Row>)
    requires IsTableOf(s, table) && IsModerate(lower, s)
    ensures Loading.IsModerateTable(lower, table)
    ensures forall k :: 0 <= k < |table| ==> Strings.FitsLayout(Strings.FieldsOf(lower, table[k]))
  {
    var ids := seq(|table|, i requires 0 <= i < |table| => table[i].id);
    Reconcile.DistinctIdsFit(ids, s.files.Keys);
    forall k | 0 <= k < |table| ensures Loading.IsModerateRow(lower, table[k]) {
      assert table[k] == s.files[table[k].id];
    }
    forall k | 0 <= k < |table| ensures Strings.FitsLayout(Strings.FieldsOf(lower, table[k])) {
      Loading.ModerateRowFits(lower, table[k]);
    }
  }

  /** A change that carries a row of a moderate snapshot is moderate. */
  lemma {:induction false} ChangeIsModerate(lower: Lowercase, s: Db, change: FileChange)
    requires IsModerate(lower, s) && change.record == JournalRead.RecordAt(lower, s.files, change.id)
    ensures IsModerateChange(lower, change)
  {
    if change.id in s.files {
      Reconcile.SameFields(lower, s.files[change.id]);
      var row := s.files[change.id];
      assert Strings.FieldsOf(lower, Borrow(Decode(lower, row))) == Strings.FieldsOf(lower, row);
      assert Loading.IsModerateRow(lower, row);
    }
  }

  /** A delta read at `t` takes an index from the snapshot at `b` to the snapshot at `t`. */
  lemma {:induction false} DeltaTakesOver(world: World, lower: Lowercase, b: Moment, t: Moment,
                                          changes: seq<FileChange>)
    requires Lawful(world) && b.file == t.file && b.time <= t.time
    requires JournalRead.SpanIsStored(Seen(world, t), Seen(world, b).revision)
    requires JournalRead.IsDelta(lower, Seen(world, t), Seen(world, b).revision, changes)
    ensures ApplyAll(lower, JournalRead.ViewOf(lower, Seen(world, b)), changes)
            == JournalRead.ViewOf(lower, Seen(world, t))
  {
    StaysWellFormed(world, b);
    FileExtends(world, b.file, b.time, t.time);
    JournalRead.SpanReachesTarget(lower, Seen(world, b), Seen(world, t), changes);
  }
}

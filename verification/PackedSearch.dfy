/** The scan of the packed index (`CompactIndex::search`). */
module PackedSearch {
  import opened Common
  import opened Records
  import opened Changes
  import opened Ordering
  import opened Selection
  import opened Ranking
  import SqliteSearch
  import opened PackedRows
  import opened Entries
  import Packing
  import opened PackedIndex
  import Reconcile

  // The scan (`src/compact_index.rs`) and its agreement with the search over the SQLite table.

  type SearchResult = SqliteSearch.SearchResult

  // ---------- ranking records ----------

  type RecordRank = FileRecord -> Option<Key>

  function KeyOfRecord(q: Query, record: FileRecord): Option<Key> {
    if !MatchesMetadata(q, record.kind, record.mtime, record.extLower) then None
    else
      var score := Rank(q, record.pathLower, record.basenameLower, |record.path|, record.mtime);
      if score.Some? then Some(Key(score.value, record.mtime, record.path, record.id)) else None
  }

  function RecordRankOf(q: Query): RecordRank {
    record => KeyOfRecord(q, record)
  }

  /** A row ranks as the record it decodes to. */
  ghost predicate SameRank(lower: Lowercase, rank: RecordRank, rowRank: SqliteSearch.RowRank) {
    forall row :: rowRank(row) == rank(Decode(lower, row))
  }

  lemma {:induction false} RanksAgree(lower: Lowercase, q: Query)
    ensures SameRank(lower, RecordRankOf(q), SqliteSearch.RankOf(lower, q))
  {
  }

  function RecordKeys(rank: RecordRank, records: seq<FileRecord>): seq<Key> {
    if records == [] then []
    else RecordKeys(rank, records[..|records| - 1]) + SqliteSearch.KeyList(rank(records[|records| - 1]))
  }

  // ---------- keys with slot numbers instead of ids ----------

  /** The live records in slot order. */
  function LiveRecords(rows: seq<Entry>): seq<FileRecord> {
    if rows == [] then []
    else LiveRecords(rows[..|rows| - 1]) + if rows[|rows| - 1].live then [rows[|rows| - 1].record] else []
  }

  function AtSlot(key: Option<Key>, slot: nat): Option<Key> {
    if key.Some? then Some(key.value.(tie := slot)) else None
  }

  function SlotKey(rank: RecordRank, rows: seq<Entry>, slot: nat): Option<Key>
    requires slot < |rows|
  {
    if rows[slot].live then AtSlot(rank(rows[slot].record), slot) else None
  }

  /** The keys of the first `n` slots. */
  function SlotKeys(rank: RecordRank, rows: seq<Entry>, n: nat): seq<Key>
    requires n <= |rows|
  {
    if n == 0 then [] else SlotKeys(rank, rows, n - 1) + SqliteSearch.KeyList(SlotKey(rank, rows, n - 1))
  }

  // ---------- relabelling ties ----------

  type Relabel = Key -> Key

  function Mapped(f: Relabel, keys: seq<Key>): (r: seq<Key>)
    ensures |r| == |keys| && forall i :: 0 <= i < |r| ==> r[i] == f(keys[i])
  {
    seq(|keys|, i requires 0 <= i < |keys| => f(keys[i]))
  }

  lemma {:induction false} MappedConcat(f: Relabel, a: seq<Key>, b: seq<Key>)
    ensures Mapped(f, a + b) == Mapped(f, a) + Mapped(f, b)
  {
  }

  /** A relabelling that keeps the order of every two of the keys. */
  ghost predicate Preserves(f: Relabel, keys: seq<Key>) {
    forall i, j :: 0 <= i < |keys| && 0 <= j < |keys| ==> Before(f(keys[i]), f(keys[j])) == Before(keys[i], keys[j])
  }

  lemma {:induction false} MappedCons(f: Relabel, h: Key, t: seq<Key>)
    ensures Mapped(f, [h] + t) == [f(h)] + Mapped(f, t)
  {
  }

  lemma {:induction false} InsertCons(h: Key, t: seq<Key>, k: Key)
    ensures Insert([h] + t, k) == if Before(k, h) then [k] + ([h] + t) else [h] + Insert(t, k)
  {
    assert ([h] + t)[0] == h && ([h] + t)[1..] == t;
  }

  lemma {:induction false} InsertMapped(f: Relabel, s: seq<Key>, k: Key)
    requires Keeps(f, k, s)
    ensures Mapped(f, Insert(s, k)) == Insert(Mapped(f, s), f(k))
  {
    if s == [] {
      assert Mapped(f, [k]) == [f(k)];
    } else {
      var h, t := s[0], s[1..];
      assert s == [h] + t;
      InsertMapped(f, t, k);
      InsertCons(h, t, k);
      MappedCons(f, h, t);
      InsertCons(f(h), Mapped(f, t), f(k));
      MappedCons(f, k, s);
      MappedCons(f, h, Insert(t, k));
    }
  }

  /** A relabelling that keeps how `k` compares with each key. */
  ghost predicate Keeps(f: Relabel, k: Key, keys: seq<Key>) {
    forall x :: x in keys ==> Before(f(k), f(x)) == Before(k, x)
  }

  lemma {:induction false} PreservesInit(f: Relabel, init: seq<Key>, k: Key)
    requires Preserves(f, init + [k])
    ensures Preserves(f, init) && Keeps(f, k, init)
  {
    var keys := init + [k];
    forall i, j | 0 <= i < |init| && 0 <= j < |init|
      ensures Before(f(init[i]), f(init[j])) == Before(init[i], init[j])
    {
      assert keys[i] == init[i] && keys[j] == init[j];
    }
    forall x | x in init ensures Before(f(k), f(x)) == Before(k, x) {
      var j :| 0 <= j < |init| && init[j] == x;
      assert keys[|init|] == k && keys[j] == x;
    }
  }

  lemma {:induction false} KeepsSorted(f: Relabel, k: Key, keys: seq<Key>)
    requires Keeps(f, k, keys)
    ensures Keeps(f, k, Sort(keys))
  {
    forall x | x in Sort(keys) ensures x in keys {
      assert x in multiset(Sort(keys));
    }
  }

  lemma {:induction false} MappedSnoc(f: Relabel, init: seq<Key>, k: Key)
    ensures Mapped(f, init + [k]) == Mapped(f, init) + [f(k)]
  {
  }

  lemma {:induction false} SortSnoc(init: seq<Key>, k: Key)
    ensures Sort(init + [k]) == Insert(Sort(init), k)
  {
    assert (init + [k])[..|init|] == init;
  }

  lemma {:induction false} SortMapped(f: Relabel, keys: seq<Key>)
    requires Preserves(f, keys)
    ensures Mapped(f, Sort(keys)) == Sort(Mapped(f, keys))
  {
    if keys != [] {
      var init, k := keys[..|keys| - 1], keys[|keys| - 1];
      assert keys == init + [k];
      PreservesInit(f, init, k);
      KeepsSorted(f, k, init);
      SortMapped(f, init);
      InsertMapped(f, Sort(init), k);
      MappedSnoc(f, init, k);
      SortSnoc(init, k);
      SortSnoc(Mapped(f, init), f(k));
    }
  }

  lemma {:induction false} TakeMapped(f: Relabel, keys: seq<Key>, limit: nat)
    ensures Mapped(f, Take(keys, limit)) == Take(Mapped(f, keys), limit)
  {
  }

  /** The best of the relabelled keys are the relabelled best keys. */
  lemma {:induction false} BestMapped(f: Relabel, keys: seq<Key>, limit: nat)
    requires Preserves(f, keys)
    ensures Mapped(f, Best(keys, limit)) == Best(Mapped(f, keys), limit)
  {
    SortMapped(f, keys);
    TakeMapped(f, Sort(keys), limit);
  }

  /** Ids instead of slots. */
  function ById(rows: seq<Entry>): Relabel {
    (key: Key) => if 0 <= key.tie < |rows| then key.(tie := rows[key.tie].record.id) else key
  }

  /** On ascending ids, breaking ties by slot is breaking ties by id. */
  lemma {:induction false} OrderById(rows: seq<Entry>, a: Key, b: Key)
    requires Ascending(rows) && 0 <= a.tie < |rows| && 0 <= b.tie < |rows|
    ensures Before(ById(rows)(a), ById(rows)(b)) == Before(a, b)
  {
    assert CompareInt(rows[a.tie].record.id, rows[b.tie].record.id) == CompareInt(a.tie, b.tie) by {
      if a.tie < b.tie {
        assert rows[a.tie].record.id < rows[b.tie].record.id;
      } else if b.tie < a.tie {
        assert rows[b.tie].record.id < rows[a.tie].record.id;
      }
    }
  }

  ghost predicate RankNamesIds(rank: RecordRank) {
    forall record :: rank(record).Some? ==> rank(record).value.tie == record.id
  }

  lemma {:induction false} SlotKeysHaveSlots(rank: RecordRank, rows: seq<Entry>, n: nat)
    requires n <= |rows|
    ensures forall i :: 0 <= i < |SlotKeys(rank, rows, n)| ==> IsKeyOfSlot(rank, rows, SlotKeys(rank, rows, n)[i])
  {
    if n > 0 {
      SlotKeysHaveSlots(rank, rows, n - 1);
    }
  }

  predicate IsKeyOfSlot(rank: RecordRank, rows: seq<Entry>, key: Key) {
    0 <= key.tie < |rows| && SlotKey(rank, rows, key.tie) == Some(key)
  }

  lemma {:induction false} SlotKeysKeepOrder(rank: RecordRank, rows: seq<Entry>)
    requires Ascending(rows)
    ensures Preserves(ById(rows), SlotKeys(rank, rows, |rows|))
  {
    var keys := SlotKeys(rank, rows, |rows|);
    SlotKeysHaveSlots(rank, rows, |rows|);
    forall i, j | 0 <= i < |keys| && 0 <= j < |keys|
      ensures Before(ById(rows)(keys[i]), ById(rows)(keys[j])) == Before(keys[i], keys[j])
    {
      assert IsKeyOfSlot(rank, rows, keys[i]) && IsKeyOfSlot(rank, rows, keys[j]);
      OrderById(rows, keys[i], keys[j]);
    }
  }

  lemma {:induction false} SlotKeyById(rank: RecordRank, rows: seq<Entry>, slot: nat)
    requires slot < |rows| && RankNamesIds(rank)
    ensures Mapped(ById(rows), SqliteSearch.KeyList(SlotKey(rank, rows, slot)))
            == if rows[slot].live then SqliteSearch.KeyList(rank(rows[slot].record)) else []
  {
  }

  lemma {:induction false} RecordKeysSnoc(rank: RecordRank, records: seq<FileRecord>, record: FileRecord)
    ensures RecordKeys(rank, records + [record]) == RecordKeys(rank, records) + SqliteSearch.KeyList(rank(record))
  {
    assert (records + [record])[..|records|] == records;
  }

  /** The keys of all slots, by id, are the keys of the live records. */
  lemma {:induction false} SlotKeysById(rank: RecordRank, rows: seq<Entry>, n: nat)
    requires n <= |rows| && RankNamesIds(rank)
    ensures Mapped(ById(rows), SlotKeys(rank, rows, n)) == RecordKeys(rank, LiveRecords(rows[..n]))
  {
    if n > 0 {
      assert rows[..n][..n - 1] == rows[..n - 1];
      SlotKeysById(rank, rows, n - 1);
      MappedConcat(ById(rows), SlotKeys(rank, rows, n - 1), SqliteSearch.KeyList(SlotKey(rank, rows, n - 1)));
      SlotKeyById(rank, rows, n - 1);
      var before := LiveRecords(rows[..n - 1]);
      if rows[n - 1].live {
        RecordKeysSnoc(rank, before, rows[n - 1].record);
      } else {
        assert before + [] == before;
      }
    }
  }

  // ---------- the index and the table ----------

  function DecodedRows(lower: Lowercase, table: seq<Row>): seq<FileRecord> {
    if table == [] then [] else DecodedRows(lower, table[..|table| - 1]) + [Decode(lower, table[|table| - 1])]
  }

  lemma {:induction false} TableIsShown(lower: Lowercase, table: seq<Row>)
    requires InIdOrder(table) && table != []
    ensures Reconcile.TableView(lower, table) != map[]
  {
    var last := |table| - 1;
    Reconcile.TableAt(lower, table, table[last].id, Some(last));
  }

  /** Entries and table rows in order of id that show the same view are the same records. */
  lemma {:induction false} SameViewSameRecords(lower: Lowercase, rows: seq<Entry>, table: seq<Row>)
    requires Ascending(rows) && InIdOrder(table) && ViewOf(rows) == Reconcile.TableView(lower, table)
    ensures LiveRecords(rows) == DecodedRows(lower, table)
    decreases |rows| + |table|
  {
    if table != [] {
      TableIsShown(lower, table);
    }
    if rows != [] && !rows[|rows| - 1].live {
      SameViewSameRecords(lower, rows[..|rows| - 1], table);
    } else if rows != [] {
      var n := |rows| - 1;
      ViewAt(rows, rows[n].record.id, Some(n));
      LastIdsAgree(lower, rows, table);
      var m := |table| - 1;
      Reconcile.TableAt(lower, table, table[m].id, Some(m));
      ViewAt(rows[..n], rows[n].record.id, None);
      Reconcile.TableAt(lower, table[..m], table[m].id, None);
      assert ViewOf(rows[..n]) == ViewOf(rows) - {rows[n].record.id};
      assert Reconcile.TableView(lower, table[..m]) == Reconcile.TableView(lower, table) - {table[m].id};
      SameViewSameRecords(lower, rows[..n], table[..m]);
    }
  }

  lemma {:induction false} LastIdsAgree(lower: Lowercase, rows: seq<Entry>, table: seq<Row>)
    requires Ascending(rows) && InIdOrder(table) && ViewOf(rows) == Reconcile.TableView(lower, table)
    requires rows != [] && rows[|rows| - 1].live
    ensures table != [] && table[|table| - 1].id == rows[|rows| - 1].record.id
  {
    var id := rows[|rows| - 1].record.id;
    ViewAt(rows, id, Some(|rows| - 1));
    if j :| 0 <= j < |table| && table[j].id == id {
      var last := table[|table| - 1].id;
      Reconcile.TableAt(lower, table, last, Some(|table| - 1));
      var slot := FindSlot(rows, last);
      ViewAt(rows, last, slot);
    } else {
      Reconcile.TableAt(lower, table, id, None);
    }
  }

  lemma {:induction false} RowKeysSnoc(rank: SqliteSearch.RowRank, table: seq<Row>, row: Row)
    ensures SqliteSearch.RowKeys(rank, table + [row])
            == SqliteSearch.RowKeys(rank, table) + SqliteSearch.KeyList(rank(row))
  {
    if table == [] {
      assert table + [row] == [row] && [row][1..] == [];
      assert SqliteSearch.KeyList(rank(row)) + [] == SqliteSearch.KeyList(rank(row));
    } else {
      assert (table + [row])[1..] == table[1..] + [row];
      RowKeysSnoc(rank, table[1..], row);
    }
  }

  /** Rows and the records they decode to have the same keys. */
  lemma {:induction false} RowKeysOfRecords(lower: Lowercase, rank: RecordRank, rowRank: SqliteSearch.RowRank,
                                            table: seq<Row>)
    requires SameRank(lower, rank, rowRank)
    ensures SqliteSearch.RowKeys(rowRank, table) == RecordKeys(rank, DecodedRows(lower, table))
  {
    if table != [] {
      var init, row := table[..|table| - 1], table[|table| - 1];
      assert table == init + [row];
      RowKeysSnoc(rowRank, init, row);
      RowKeysOfRecords(lower, rank, rowRank, init);
      RecordKeysSnoc(rank, DecodedRows(lower, init), Decode(lower, row));
    }
  }

  // ---------- the scan ----------

  predicate TiesAreSlots(rows: seq<Entry>, keys: seq<Key>) {
    forall i :: 0 <= i < |keys| ==> 0 <= keys[i].tie < |rows|
  }

  function SlotResults(rows: seq<Entry>, keys: seq<Key>): (results: seq<SearchResult>)
    requires TiesAreSlots(rows, keys)
  {
    seq(|keys|, i requires 0 <= i < |keys| => SqliteSearch.SearchResult(rows[keys[i].tie].record, keys[i].score))
  }

  /** The reference for the packed scan: the best live slots, ties broken by slot. */
  function SlotScan(rank: RecordRank, rows: seq<Entry>, limit: nat): seq<SearchResult> {
    BestHaveSlots(rank, rows, limit);
    SlotResults(rows, Best(SlotKeys(rank, rows, |rows|), limit))
  }

  lemma {:induction false} BestHaveSlots(rank: RecordRank, rows: seq<Entry>, limit: nat)
    ensures var best := Best(SlotKeys(rank, rows, |rows|), limit);
            TiesAreSlots(rows, best) && forall i :: 0 <= i < |best| ==> IsKeyOfSlot(rank, rows, best[i])
  {
    var keys := SlotKeys(rank, rows, |rows|);
    var best := Best(keys, limit);
    SlotKeysHaveSlots(rank, rows, |rows|);
    forall i | 0 <= i < |best| ensures IsKeyOfSlot(rank, rows, best[i]) {
      BestIsFrom(keys, limit, i);
      var j :| 0 <= j < |keys| && keys[j] == best[i];
    }
    forall i | 0 <= i < |best| ensures 0 <= best[i].tie < |rows| {
      assert IsKeyOfSlot(rank, rows, best[i]);
    }
  }

  /** The best keys of the slots are, by id, the best keys of the table. */
  lemma {:induction false} BestKeysAgree(lower: Lowercase, rank: RecordRank, rowRank: SqliteSearch.RowRank,
                                         rows: seq<Entry>, table: seq<Row>, limit: nat)
    requires Ascending(rows) && InIdOrder(table) && ViewOf(rows) == Reconcile.TableView(lower, table)
    requires SameRank(lower, rank, rowRank) && RankNamesIds(rank)
    ensures Mapped(ById(rows), Best(SlotKeys(rank, rows, |rows|), limit))
            == Best(SqliteSearch.RowKeys(rowRank, table), limit)
  {
    SlotKeysKeepOrder(rank, rows);
    BestMapped(ById(rows), SlotKeys(rank, rows, |rows|), limit);
    assert rows[..|rows|] == rows;
    SlotKeysById(rank, rows, |rows|);
    SameViewSameRecords(lower, rows, table);
    RowKeysOfRecords(lower, rank, rowRank, table);
  }

  /** The table row of a live slot decodes to the record of the slot. */
  lemma {:induction false} RowOfSlot(lower: Lowercase, rows: seq<Entry>, table: seq<Row>, slot: nat)
    requires Ascending(rows) && InIdOrder(table) && ViewOf(rows) == Reconcile.TableView(lower, table)
    requires slot < |rows| && rows[slot].live
    requires SqliteSearch.HasId(table, rows[slot].record.id)
    ensures Decode(lower, SqliteSearch.RowOf(table, rows[slot].record.id)) == rows[slot].record
  {
    var id := rows[slot].record.id;
    ViewAt(rows, id, Some(slot));
    var row := SqliteSearch.RowOf(table, id);
    var j :| 0 <= j < |table| && table[j] == row;
    Reconcile.TableAt(lower, table, id, Some(j));
  }

  /** Searching the packed index and searching the table give the same results. */
  lemma {:induction false} PackedAgreesWithTable(lower: Lowercase, rank: RecordRank, rowRank: SqliteSearch.RowRank,
                                                 rows: seq<Entry>, table: seq<Row>, limit: nat)
    requires Ascending(rows) && InIdOrder(table) && ViewOf(rows) == Reconcile.TableView(lower, table)
    requires SameRank(lower, rank, rowRank) && RankNamesIds(rank) && SqliteSearch.TiesAreIds(rowRank)
    ensures SlotScan(rank, rows, limit) == SqliteSearch.FullScan(lower, rowRank, table, limit)
  {
    var best, byId := Best(SlotKeys(rank, rows, |rows|), limit), Best(SqliteSearch.RowKeys(rowRank, table), limit);
    BestHaveSlots(rank, rows, limit);
    BestKeysAgree(lower, rank, rowRank, rows, table, limit);
    SqliteSearch.BestIsKnown(rowRank, table, limit);
    ResultsAgree(lower, rank, rows, table, best, byId);
  }

  lemma {:induction false} ResultsAgree(lower: Lowercase, rank: RecordRank, rows: seq<Entry>, table: seq<Row>,
                                        best: seq<Key>, byId: seq<Key>)
    requires Ascending(rows) && InIdOrder(table) && ViewOf(rows) == Reconcile.TableView(lower, table)
    requires TiesAreSlots(rows, best) && forall i :: 0 <= i < |best| ==> IsKeyOfSlot(rank, rows, best[i])
    requires byId == Mapped(ById(rows), best) && SqliteSearch.Known(table, byId)
    ensures SlotResults(rows, best) == SqliteSearch.ResultsOf(lower, table, byId)
  {
    forall i | 0 <= i < |best|
      ensures SlotResults(rows, best)[i] == SqliteSearch.ResultsOf(lower, table, byId)[i]
    {
      assert IsKeyOfSlot(rank, rows, best[i]);
      assert byId[i] == ById(rows)(best[i]);
      RowOfSlot(lower, rows, table, best[i].tie);
    }
  }

  // ---------- the scan as it runs ----------

  predicate NeedsExtension(q: Query) {
    q.extFilters != [] || q.excludedExtFilters != []
  }

  /** What is computed for a slot that matches; the path is sliced only for a hit that may stay. */
  datatype Candidate = Candidate(score: int, mtime: Option<int>, pathLen: nat)

  /** One slot, looking only at the text that the query needs. */
  method RankSlot(index: CompactIndex, q: Query, slot: nat) returns (candidate: Option<Candidate>)
    requires index.Faithful() && PreparedQuery(q) && slot < |index.rows|
    ensures var key := if index.rows[slot].live then KeyOfRecord(q, index.rows[slot].record) else None;
            if key.None? then candidate.None?
            else candidate == Some(Candidate(key.value.score, key.value.mtime, |key.value.path|))
  {
    index.SlotMeans(slot);
    var packed := index.blocks.RecordAt(slot);
    if !packed.IsLive() {
      return None;
    }
    ghost var record := index.rows[slot].record;
    var store := index.strings.View();
    var mtime := index.OptionalMetadata(slot, packed, 1);
    assert mtime == record.mtime;
    var ext := if NeedsExtension(q) then ExtText(store, packed) else None;
    assert MatchesMetadata(q, packed.kind, mtime, ext) == MatchesMetadata(q, record.kind, record.mtime,
        record.extLower);
    if !MatchesMetadata(q, packed.kind, mtime, ext) {
      return None;
    }
    var score := RankText(index, q, slot, packed, mtime);
    return if score.Some? then Some(Candidate(score.value, mtime, packed.path.len)) else None;
  }

  method RankText(index: CompactIndex, q: Query, slot: nat, packed: Packing.Packed, mtime: Option<int>)
    returns (score: Option<int>)
    requires index.Faithful() && PreparedQuery(q) && slot < |index.rows| && packed == index.blocks.recs[slot]
    ensures packed.path.len == |index.rows[slot].record.path|
    ensures score
            == Rank(q, index.rows[slot].record.pathLower, index.rows[slot].record.basenameLower,
                    |index.rows[slot].record.path|, mtime)
  {
    index.SlotMeans(slot);
    ghost var record := index.rows[slot].record;
    var store := index.strings.View();
    var suffix, arena := PathSuffix(store, packed), store.arenas[packed.arena];
    var path := if q.needsText then Packing.Read(arena, packed.pathLower) else [];
    var basename := if NeedsBasename(q) then Packing.Read(arena, packed.BasenameLowerSlice(suffix)) else [];
    score := RankLowered(q, path, basename, packed.path.len, mtime);
    UnneededIsIgnored(q, record.pathLower, record.basenameLower, packed.path.len, mtime);
  }

  lemma {:induction false} UnneededIsIgnored(q: Query, path: Text, basename: Text, pathLen: nat, mtime: Option<int>)
    requires PreparedQuery(q)
    ensures Rank(q, if q.needsText then path else [], if NeedsBasename(q) then basename else [], pathLen, mtime)
            == Rank(q, path, basename, pathLen, mtime)
  {
    if !q.needsText {
      UnneededTextIsIgnored(q, path, basename, pathLen, mtime);
    } else if !NeedsBasename(q) {
      UnneededBasenameIsIgnored(q, path, basename, pathLen, mtime);
    }
  }

  /** The whole path of a slot. */
  method PathAt(index: CompactIndex, slot: nat) returns (path: Text)
    requires index.Faithful() && slot < |index.rows|
    ensures path == index.rows[slot].record.path
  {
    index.SlotMeans(slot);
    path := TextsOf(index.strings.View(), index.blocks.RecordAt(slot)).path;
  }

  // The scan treats the key of each slot as an unspecified function; only the step over one slot
  // looks at what the key is.

  type KeyOf = nat -> Option<Key>

  /** The keys of the first `n` slots. */
  function KeysTo(key: KeyOf, n: nat): seq<Key> {
    if n == 0 then [] else KeysTo(key, n - 1) + SqliteSearch.KeyList(key(n - 1))
  }

  function KeyAt(q: Query, rows: seq<Entry>, slot: nat): Option<Key>
    requires slot < |rows|
  {
    SlotKey(RecordRankOf(q), rows, slot)
  }

  ghost predicate Names(key: KeyOf, q: Query, rows: seq<Entry>) {
    forall slot {:trigger KeyAt(q, rows, slot)} :: 0 <= slot < |rows| ==> key(slot) == KeyAt(q, rows, slot)
  }

  lemma {:induction false} KeysToAreSlotKeys(key: KeyOf, q: Query, rows: seq<Entry>, n: nat)
    requires Names(key, q, rows) && n <= |rows|
    ensures KeysTo(key, n) == SlotKeys(RecordRankOf(q), rows, n)
  {
    if n > 0 {
      KeysToAreSlotKeys(key, q, rows, n - 1);
      assert key(n - 1) == KeyAt(q, rows, n - 1);
    }
  }

  /** The hits after one slot. */
  function NextHits(hits: seq<Key>, key: Option<Key>, limit: nat): (next: seq<Key>)
    requires |hits| <= limit
    ensures |next| <= limit
  {
    if key.Some? then Offer(hits, key.value, limit) else hits
  }

  /** The hits after the first `n` slots. */
  function HitsTo(key: KeyOf, n: nat, limit: nat): (hits: seq<Key>)
    ensures |hits| <= limit
  {
    if n == 0 then [] else NextHits(HitsTo(key, n - 1, limit), key(n - 1), limit)
  }

  /** A choice of hits that one more key changes as one step does. */
  ghost predicate Follows(choice: seq<Key> -> seq<Key>, keys: seq<Key>, key: Option<Key>, limit: nat) {
    |choice(keys)| <= limit && choice(keys + SqliteSearch.KeyList(key)) == NextHits(choice(keys), key, limit)
  }

  lemma {:induction false} HitsFollow(key: KeyOf, n: nat, limit: nat, choice: seq<Key> -> seq<Key>)
    requires choice([]) == [] && forall keys, k :: Follows(choice, keys, k, limit)
    ensures HitsTo(key, n, limit) == choice(KeysTo(key, n))
  {
    if n > 0 {
      HitsFollow(key, n - 1, limit, choice);
      assert Follows(choice, KeysTo(key, n - 1), key(n - 1), limit);
    }
  }

  /** Offering slot after slot keeps the best keys so far. */
  lemma {:induction false} HitsAreBest(key: KeyOf, n: nat, limit: nat)
    ensures HitsTo(key, n, limit) == Best(KeysTo(key, n), limit)
  {
    var choice := (keys: seq<Key>) => Best(keys, limit);
    forall keys, k ensures Follows(choice, keys, k, limit) {
      BestNext(keys, k, limit);
    }
    HitsFollow(key, n, limit, choice);
  }

  lemma {:induction false} BestNext(keys: seq<Key>, key: Option<Key>, limit: nat)
    ensures |Best(keys, limit)| <= limit
    ensures Best(keys + SqliteSearch.KeyList(key), limit) == NextHits(Best(keys, limit), key, limit)
  {
    if key.Some? {
      OfferIsBest(keys, Best(keys, limit), key.value, limit);
    } else {
      assert keys + [] == keys;
    }
  }

  /** One slot offered to the hits. */
  method ConsiderSlot(index: CompactIndex, q: Query, slot: nat, hits: seq<Key>, limit: nat, ghost key: KeyOf)
    returns (next: seq<Key>)
    requires index.Faithful() && PreparedQuery(q) && slot < |index.rows| && Names(key, q, index.rows) && |hits| <= limit
    ensures next == NextHits(hits, key(slot), limit)
  {
    var candidate := RankSlot(index, q, slot);
    KeyOfSlot(q, index.rows, slot);
    assert key(slot) == KeyAt(q, index.rows, slot);
    if candidate.None? {
      return hits;
    }
    var path := PathAt(index, slot);
    next := Consider(hits, limit, slot, candidate.value.score, candidate.value.mtime, candidate.value.pathLen, path);
  }

  /** Every slot in turn. */
  method ScanSlots(index: CompactIndex, q: Query, limit: nat, ghost key: KeyOf) returns (hits: seq<Key>)
    requires index.Faithful() && PreparedQuery(q) && Names(key, q, index.rows)
    ensures hits == HitsTo(key, |index.rows|, limit)
  {
    hits := [];
    for slot := 0 to index.physicalLen
      invariant hits == HitsTo(key, slot, limit)
    {
      hits := ConsiderSlot(index, q, slot, hits, limit, key);
    }
  }

  method Scan(index: CompactIndex, q: Query, limit: nat, ghost rank: RecordRank) returns (hits: seq<Key>)
    requires index.Faithful() && PreparedQuery(q) && rank == RecordRankOf(q)
    ensures hits == Best(SlotKeys(rank, index.rows, |index.rows|), limit)
  {
    ghost var rows := index.rows;
    ghost var key: KeyOf := (slot: nat) => if slot < |rows| then KeyAt(q, rows, slot) else None;
    hits := ScanSlots(index, q, limit, key);
    KeysToAreSlotKeys(key, q, rows, |rows|);
    HitsAreBest(key, |rows|, limit);
  }

  lemma {:induction false} KeyOfSlot(q: Query, rows: seq<Entry>, slot: nat)
    requires slot < |rows|
    ensures SlotKey(RecordRankOf(q), rows, slot)
            == AtSlot(if rows[slot].live then KeyOfRecord(q, rows[slot].record) else None, slot)
    ensures rows[slot].live && KeyOfRecord(q, rows[slot].record).Some? ==>
              KeyOfRecord(q, rows[slot].record).value.path == rows[slot].record.path
  {
  }

  /** `CompactIndex::search` */
  method Search(index: CompactIndex, q: Query, limit: nat) returns (results: seq<SearchResult>)
    requires index.Faithful() && PreparedQuery(q)
    ensures results == SlotScan(RecordRankOf(q), index.rows, limit)
  {
    ghost var rank := RecordRankOf(q);
    results := SearchBy(index, q, limit, rank);
  }

  /** The search, with the ranking of records taken as given. */
  method SearchBy(index: CompactIndex, q: Query, limit: nat, ghost rank: RecordRank)
    returns (results: seq<SearchResult>)
    requires index.Faithful() && PreparedQuery(q) && rank == RecordRankOf(q)
    ensures results == SlotScan(rank, index.rows, limit)
  {
    var hits := Scan(index, q, limit, rank);
    ScanIsBest(rank, index.rows, limit, hits);
    results := Materialize(index, hits);
  }

  lemma {:induction false} ScanIsBest(rank: RecordRank, rows: seq<Entry>, limit: nat, hits: seq<Key>)
    requires hits == Best(SlotKeys(rank, rows, |rows|), limit)
    ensures TiesAreSlots(rows, hits)
    ensures SlotResults(rows, hits) == SlotScan(rank, rows, limit)
  {
    BestHaveSlots(rank, rows, limit);
  }

  /** Decoding the final hits only. */
  method Materialize(index: CompactIndex, hits: seq<Key>) returns (results: seq<SearchResult>)
    requires index.Faithful() && TiesAreSlots(index.rows, hits)
    ensures results == SlotResults(index.rows, hits)
  {
    results := [];
    for i := 0 to |hits|
      invariant |results| == i
      invariant results == SlotResults(index.rows, hits)[..i]
    {
      var slot: nat := hits[i].tie;
      var record := index.ToFileRecord(slot);
      results := results + [SqliteSearch.SearchResult(record, hits[i].score)];
    }
  }

  /** An index that shows a table answers every query as the search over that table does. */
  method SearchTable(index: CompactIndex, q: Query, limit: nat, ghost table: seq<Row>)
    returns (results: seq<SearchResult>)
    requires index.Valid() && index.idsSorted && PreparedQuery(q)
    requires InIdOrder(table) && index.View() == Reconcile.TableView(index.lower, table)
    ensures results == SqliteSearch.FullScan(index.lower, SqliteSearch.RankOf(index.lower, q), table, limit)
  {
    results := Search(index, q, limit);
    RanksAgree(index.lower, q);
    PackedAgreesWithTable(index.lower, RecordRankOf(q), SqliteSearch.RankOf(index.lower, q), index.rows, table, limit);
  }
}

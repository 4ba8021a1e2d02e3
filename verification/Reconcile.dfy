/** The merge join of `snapshot_diff` (`src/compact_index.rs`). */
module Reconcile {
  import opened Common
  import opened Records
  import opened Changes
  import opened Metadata
  import opened Packing
  import opened PackedRows
  import opened Strings
  import opened Entries
  import opened Deltas
  import opened PackedIndex

  // ---------- the table by id ----------

  function TableView(lower: Lowercase, table: seq<Row>): View {
    if table == [] then map[]
    else TableView(lower, table[..|table| - 1])[table[|table| - 1].id := Decode(lower, table[|table| - 1])]
  }

  ghost predicate IsRow(table: seq<Row>, id: int, index: Option<nat>) {
    match index
    case Some(i) => i < |table| && table[i].id == id
    case None => forall i :: 0 <= i < |table| ==> table[i].id != id
  }

  function DecodedAt(lower: Lowercase, table: seq<Row>, index: Option<nat>): Option<FileRecord> {
    if index.Some? && index.value < |table| then Some(Decode(lower, table[index.value])) else None
  }

  lemma {:induction false} TableAt(lower: Lowercase, table: seq<Row>, id: int, index: Option<nat>)
    requires InIdOrder(table) && IsRow(table, id, index)
    ensures At(TableView(lower, table), id) == DecodedAt(lower, table, index)
  {
    if table != [] {
      var n := |table| - 1;
      TableAt(lower, table[..n], id, if index == Some(n) then None else index);
    }
  }

  // ---------- the state of the join ----------

  /** Everything left on either side has a greater id. */
  ghost predicate Handled(rows: seq<Entry>, table: seq<Row>, cursor: nat, k: nat, id: int) {
    && (forall i :: cursor <= i < |rows| ==> id < rows[i].record.id)
    && forall j :: k <= j < |table| ==> id < table[j].id
  }

  /** An id is mentioned if and only if the two sides differ there, with the row of the table. */
  ghost predicate Settled(have: Option<FileRecord>, want: Option<FileRecord>, changes: seq<FileChange>, id: int) {
    if have == want then forall j :: 0 <= j < |changes| ==> changes[j].id != id
    else exists j :: 0 <= j < |changes| && changes[j] == FileChange(id, want)
  }

  ghost predicate Joined(have: View, want: View, rows: seq<Entry>, table: seq<Row>, cursor: nat, k: nat,
                         changes: seq<FileChange>) {
    && cursor <= |rows| && k <= |table|
    && (forall i, j :: 0 <= i < cursor && k <= j < |table| ==> rows[i].record.id < table[j].id)
    && (forall i, j :: cursor <= i < |rows| && 0 <= j < k ==> table[j].id < rows[i].record.id)
    && AscendingChanges(changes)
    && (forall c :: 0 <= c < |changes| ==> Handled(rows, table, cursor, k, changes[c].id))
    && forall id {:trigger Settled(At(have, id), At(want, id), changes, id)} ::
         Handled(rows, table, cursor, k, id) ==> Settled(At(have, id), At(want, id), changes, id)
  }

  /** What a step over one id adds to the changes. */
  function Mention(have: Option<FileRecord>, want: Option<FileRecord>, id: int): seq<FileChange> {
    if have == want then [] else [FileChange(id, want)]
  }

  /** Ids that neither side holds. */
  ghost predicate IsAbsent(rows: seq<Entry>, table: seq<Row>, id: int) {
    IsSlot(rows, id, None) && IsRow(table, id, None)
  }

  ghost predicate AgreeWhereAbsent(have: View, want: View, rows: seq<Entry>, table: seq<Row>) {
    forall id :: IsAbsent(rows, table, id) ==> At(have, id) == At(want, id)
  }

  /** One id further, on the sides that hold it. */
  lemma {:induction false} JoinAdvances(have: View, want: View, rows: seq<Entry>, table: seq<Row>, cursor: nat, k: nat,
                                        changes: seq<FileChange>,
                     x: int, cursor': nat, k': nat)
    requires Joined(have, want, rows, table, cursor, k, changes) && Ascending(rows) && InIdOrder(table)
    requires cursor <= cursor' <= |rows| && k <= k' <= |table| && cursor' <= cursor + 1 && k' <= k + 1
    requires cursor < |rows| ==> if cursor' == cursor then x < rows[cursor].record.id else x == rows[cursor].record.id
    requires k < |table| ==> if k' == k then x < table[k].id else x == table[k].id
    requires cursor' == cursor ==> k' == k + 1
    requires AgreeWhereAbsent(have, want, rows, table)
    ensures Joined(have, want, rows, table, cursor', k', changes + Mention(At(have, x), At(want, x), x))
  {
    JoinOrder(rows, table, cursor, k, x, cursor', k');
    var more := changes + Mention(At(have, x), At(want, x), x);
    forall c | 0 <= c < |changes| ensures changes[c].id < x && Handled(rows, table, cursor', k', changes[c].id) {
      assert Handled(rows, table, cursor, k, changes[c].id);
    }
    forall id | Handled(rows, table, cursor', k', id) ensures Settled(At(have, id), At(want, id), more, id) {
      StepSettles(At(have, id), At(want, id), changes, id, x, At(have, x), At(want, x));
    }
  }

  /** The id of a step lies between what was handled before and what is left after. */
  lemma {:induction false} JoinOrder(rows: seq<Entry>, table: seq<Row>, cursor: nat, k: nat, x: int, cursor': nat,
                                     k': nat)
    requires Ascending(rows) && InIdOrder(table) && cursor <= cursor' <= |rows| && k <= k' <= |table|
    requires cursor' <= cursor + 1 && k' <= k + 1 && (cursor' == cursor ==> k' == k + 1)
    requires cursor < |rows| ==> if cursor' == cursor then x < rows[cursor].record.id else x == rows[cursor].record.id
    requires k < |table| ==> if k' == k then x < table[k].id else x == table[k].id
    requires forall i, j :: 0 <= i < cursor && k <= j < |table| ==> rows[i].record.id < table[j].id
    requires forall i, j :: cursor <= i < |rows| && 0 <= j < k ==> table[j].id < rows[i].record.id
    ensures Handled(rows, table, cursor', k', x)
    ensures forall i, j :: 0 <= i < cursor' && k' <= j < |table| ==> rows[i].record.id < table[j].id
    ensures forall i, j :: cursor' <= i < |rows| && 0 <= j < k' ==> table[j].id < rows[i].record.id
    ensures forall id :: Handled(rows, table, cursor, k, id) ==> id < x && Handled(rows, table, cursor', k', id)
    ensures forall id :: Handled(rows, table, cursor', k', id) && id < x ==> Handled(rows, table, cursor, k, id)
    ensures forall id :: Handled(rows, table, cursor', k', id) && id > x ==> IsAbsent(rows, table, id)
  {
  }

  /** The id of the step is settled by its mention, and every other id stays settled. */
  lemma {:induction false} StepSettles(have: Option<FileRecord>, want: Option<FileRecord>, changes: seq<FileChange>,
                                       id: int, x: int, haveX: Option<FileRecord>, wantX: Option<FileRecord>)
    requires forall c :: 0 <= c < |changes| ==> changes[c].id < x
    requires id < x ==> Settled(have, want, changes, id)
    requires id > x ==> have == want
    requires id == x ==> have == haveX && want == wantX
    ensures Settled(have, want, changes + Mention(haveX, wantX, x), id)
  {
    var more := changes + Mention(haveX, wantX, x);
    if id == x {
      if have != want {
        assert more[|changes|] == FileChange(x, want);
      }
    } else if id < x {
      SettledStays(have, want, changes, more, id);
    }
  }

  lemma {:induction false} SettledStays(have: Option<FileRecord>, want: Option<FileRecord>, changes: seq<FileChange>,
                                        more: seq<FileChange>, id: int)
    requires Settled(have, want, changes, id) && |changes| <= |more| <= |changes| + 1 && more[..|changes|] == changes
    requires |more| > |changes| ==> more[|changes|].id != id
    ensures Settled(have, want, more, id)
  {
    if have != want {
      var j :| 0 <= j < |changes| && changes[j] == FileChange(id, want);
      assert more[j] == more[..|changes|][j];
    } else {
      forall j | 0 <= j < |more| ensures more[j].id != id {
        assert j < |changes| ==> more[j] == more[..|changes|][j];
      }
    }
  }

  lemma {:induction false} SidesAgree(lower: Lowercase, rows: seq<Entry>, table: seq<Row>)
    requires Ascending(rows) && InIdOrder(table)
    ensures AgreeWhereAbsent(ViewOf(rows), TableView(lower, table), rows, table)
  {
    forall id | IsAbsent(rows, table, id) ensures At(ViewOf(rows), id) == At(TableView(lower, table), id) {
      ViewAt(rows, id, None);
      TableAt(lower, table, id, None);
    }
  }

  /** The join of an index and a table, with changes that can be applied in place or at the end. */
  ghost predicate Joining(lower: Lowercase, have: View, want: View, rows: seq<Entry>, table: seq<Row>, cursor: nat,
                          k: nat, changes: seq<FileChange>) {
    && Joined(have, want, rows, table, cursor, k, changes)
    && OwnIds(changes) && forall c :: 0 <= c < |changes| ==>
        !InsertsBelow(rows, changes[c]) && Encodable(lower, changes[c])
  }

  lemma {:induction false} JoinStarts(lower: Lowercase, have: View, want: View, rows: seq<Entry>, table: seq<Row>)
    requires AgreeWhereAbsent(have, want, rows, table)
    ensures Joining(lower, have, want, rows, table, 0, 0, [])
  {
    forall id | Handled(rows, table, 0, 0, id) ensures Settled(At(have, id), At(want, id), [], id) {
      assert IsAbsent(rows, table, id);
    }
  }

  /** A slot below every remaining row is gone from the table: deleted, if it was live. */
  lemma {:induction false} PassSlot(lower: Lowercase, have: View, want: View, rows: seq<Entry>, table: seq<Row>,
                                    cursor: nat, k: nat, changes: seq<FileChange>)
    requires Ascending(rows) && InIdOrder(table) && AgreeWhereAbsent(have, want, rows, table)
    requires Joining(lower, have, want, rows, table, cursor, k, changes)
    requires cursor < |rows| && (k < |table| ==> rows[cursor].record.id < table[k].id)
    requires At(have, rows[cursor].record.id) == Shows(rows, Some(cursor)) && At(want, rows[cursor].record.id) == None
    ensures Joining(lower, have, want, rows, table, cursor + 1, k,
                    if rows[cursor].live then changes + [FileChange(rows[cursor].record.id, None)] else changes)
  {
    var x := rows[cursor].record.id;
    assert changes + [] == changes;
    JoinAdvances(have, want, rows, table, cursor, k, changes, x, cursor + 1, k);
  }

  /** The next row: compared with its slot, or new at the end. */
  lemma {:induction false} PassRow(lower: Lowercase, have: View, want: View, rows: seq<Entry>, table: seq<Row>,
                                   cursor: nat, k: nat, changes: seq<FileChange>, record: FileRecord)
    requires Ascending(rows) && InIdOrder(table) && AgreeWhereAbsent(have, want, rows, table)
    requires Joining(lower, have, want, rows, table, cursor, k, changes)
    requires k < |table| && (cursor < |rows| ==> rows[cursor].record.id == table[k].id)
    requires record.id == table[k].id && At(want, record.id) == Some(record)
    requires At(have, record.id) == Shows(rows, Some(cursor)) && FitsLayout(FieldsOf(lower, Borrow(record)))
    ensures Joining(lower, have, want, rows, table, if cursor < |rows| then cursor + 1 else cursor, k + 1,
                    if Shows(rows, Some(cursor)) == Some(record) then changes
                    else changes + [FileChange(record.id, Some(record))])
  {
    var next := if cursor < |rows| then cursor + 1 else cursor;
    JoinAdvances(have, want, rows, table, cursor, k, changes, record.id, next, k + 1);
    if Shows(rows, Some(cursor)) == Some(record) {
      assert changes + [] == changes;
    } else {
      assert forall i :: cursor >= |rows| && 0 <= i < |rows| ==> rows[i].record.id < table[k].id;
      PutsAreSafe(lower, rows, cursor, changes, record);
    }
  }

  lemma {:induction false} PutsAreSafe(lower: Lowercase, rows: seq<Entry>, cursor: nat, changes: seq<FileChange>,
                                       record: FileRecord)
    requires OwnIds(changes)
    requires forall c :: 0 <= c < |changes| ==> !InsertsBelow(rows, changes[c]) && Encodable(lower, changes[c])
    requires FitsLayout(FieldsOf(lower, Borrow(record)))
    requires if cursor < |rows| then rows[cursor].record.id == record.id else forall i :: 0 <= i < |rows| ==>
               rows[i].record.id < record.id
    ensures var more := changes + [FileChange(record.id, Some(record))];
            OwnIds(more) && forall c :: 0 <= c < |more| ==> !InsertsBelow(rows, more[c]) && Encodable(lower, more[c])
  {
    var more := changes + [FileChange(record.id, Some(record))];
    forall c | 0 <= c < |more| ensures !InsertsBelow(rows, more[c]) && Encodable(lower, more[c]) {
      assert c < |changes| ==> more[c] == changes[c];
    }
  }

  /** What both sides hold for the slot under the cursor. */
  lemma {:induction false} SlotSides(lower: Lowercase, rows: seq<Entry>, table: seq<Row>, cursor: nat, k: nat,
                                     changes: seq<FileChange>)
    requires Ascending(rows) && InIdOrder(table)
    requires Joining(lower, ViewOf(rows), TableView(lower, table), rows, table, cursor, k, changes)
    requires cursor < |rows| && (k < |table| ==> rows[cursor].record.id < table[k].id)
    ensures At(ViewOf(rows), rows[cursor].record.id) == Shows(rows, Some(cursor))
    ensures At(TableView(lower, table), rows[cursor].record.id) == None
  {
    ViewAt(rows, rows[cursor].record.id, Some(cursor));
    TableAt(lower, table, rows[cursor].record.id, None);
  }

  /** What both sides hold for the next row. */
  lemma {:induction false} RowSides(lower: Lowercase, rows: seq<Entry>, table: seq<Row>, cursor: nat, k: nat,
                                    changes: seq<FileChange>)
    requires Ascending(rows) && InIdOrder(table)
    requires Joining(lower, ViewOf(rows), TableView(lower, table), rows, table, cursor, k, changes)
    requires k < |table| && (cursor < |rows| ==> rows[cursor].record.id == table[k].id)
    ensures At(ViewOf(rows), table[k].id) == Shows(rows, Some(cursor))
    ensures At(TableView(lower, table), table[k].id) == Some(Decode(lower, table[k]))
  {
    var slot := if cursor < |rows| then Some(cursor) else None;
    assert IsSlot(rows, table[k].id, slot);
    ViewAt(rows, table[k].id, slot);
    TableAt(lower, table, table[k].id, Some(k));
  }

  /** A complete join: applied to what the index shows, the changes give what the table holds,
      and they mention no id on which the two agree. */
  lemma {:induction false} JoinIsDelta(lower: Lowercase, rows: seq<Entry>, table: seq<Row>, changes: seq<FileChange>)
    requires InIdOrder(table)
    requires Joining(lower, ViewOf(rows), TableView(lower, table), rows, table, |rows|, |table|, changes)
    ensures ApplyAll(lower, ViewOf(rows), changes) == TableView(lower, table)
    ensures forall c :: 0 <= c < |changes| ==> OnlyDiffers(ViewOf(rows), TableView(lower, table), changes[c])
  {
    var have, want := ViewOf(rows), TableView(lower, table);
    var after := ApplyAll(lower, have, changes);
    forall id ensures At(after, id) == At(want, id) {
      AppliedIsWanted(lower, have, want, rows, table, changes, id);
    }
    SameView(after, want);
    forall c | 0 <= c < |changes| ensures OnlyDiffers(have, want, changes[c]) {
      var id := changes[c].id;
      assert Handled(rows, table, |rows|, |table|, id);
      assert Settled(At(have, id), At(want, id), changes, id);
    }
  }

  /** The two sides differ on the id, and the change carries the row of the table. */
  ghost predicate OnlyDiffers(have: View, want: View, change: FileChange) {
    At(have, change.id) != change.record && change.record == At(want, change.id)
  }

  lemma {:induction false} AppliedIsWanted(lower: Lowercase, have: View, want: View, rows: seq<Entry>, table: seq<Row>,
                                           changes: seq<FileChange>, id: int)
    requires InIdOrder(table) && want == TableView(lower, table)
    requires Joining(lower, have, want, rows, table, |rows|, |table|, changes)
    ensures At(ApplyAll(lower, have, changes), id) == At(want, id)
  {
    assert Handled(rows, table, |rows|, |table|, id);
    assert Settled(At(have, id), At(want, id), changes, id);
    AppliedAt(lower, have, changes, id);
    if At(have, id) != At(want, id) {
      var j :| 0 <= j < |changes| && changes[j] == FileChange(id, At(want, id));
      WantedIsStored(lower, table, id);
    }
  }

  lemma {:induction false} WantedIsStored(lower: Lowercase, table: seq<Row>, id: int)
    requires InIdOrder(table)
    ensures StoredOption(lower, At(TableView(lower, table), id)) == At(TableView(lower, table), id)
  {
    if i :| 0 <= i < |table| && table[i].id == id {
      TableAt(lower, table, id, Some(i));
      DecodedIsEffectual(lower, table[i]);
    } else {
      TableAt(lower, table, id, None);
    }
  }

  // ---------- why a join may stop ----------

  datatype DiffLimits = DiffLimits(maxChanges: nat, maxPayloadBytes: nat, maxScanRows: nat)

  datatype DiffReason = DiffRecordOrder | ScanLimit | TimeLimit | ChangeLimit | ByteLimit | DiffNonMonotonic

  datatype Diff = Available(changes: seq<FileChange>) | Fallback(reason: DiffReason)

  /** Ids on which the two sides differ. */
  ghost function Differing(have: View, want: View): set<int> {
    set id | id in have.Keys + want.Keys && At(have, id) != At(want, id)
  }

  function RowBytes(row: Row, lowered: Text): nat {
    |row.path| + |lowered| + |row.basename| + |row.basenameLower|
    + (if row.extLower.Some? then |row.extLower.value| else 0)
  }

  function BytesAt(lower: Lowercase, table: seq<Row>, k: nat): nat
    requires k < |table|
  {
    RowBytes(table[k], Effective(lower, table[k]))
  }

  /** The bytes of the rows among the first `k` that differ from what the index shows. */
  function PayloadTo(lower: Lowercase, have: View, table: seq<Row>, k: nat): nat
    requires k <= |table|
  {
    if k == 0 then 0
    else if At(have, table[k - 1].id) == Some(Decode(lower, table[k - 1])) then PayloadTo(lower, have, table, k - 1)
    else PayloadTo(lower, have, table, k - 1) + BytesAt(lower, table, k - 1)
  }

  lemma {:induction false} PayloadGrows(lower: Lowercase, have: View, table: seq<Row>, k: nat)
    requires k <= |table|
    ensures PayloadTo(lower, have, table, k) <= PayloadTo(lower, have, table, |table|)
    decreases |table| - k
  {
    if k < |table| {
      PayloadGrows(lower, have, table, k + 1);
    }
  }

  /** A row with a new id below that of some slot. */
  ghost predicate InsertsInMiddle(rows: seq<Entry>, table: seq<Row>) {
    exists k, i ::
      0 <= k < |table| && 0 <= i < |rows| && IsSlot(rows, table[k].id, None) && table[k].id < rows[i].record.id
  }

  /** What must be the case when the join stops for a reason. */
  ghost predicate Justified(reason: DiffReason, lower: Lowercase, rows: seq<Entry>, table: seq<Row>,
                            limits: DiffLimits, clock: Clock) {
    match reason
    case DiffRecordOrder => !Ascending(rows)
    case ScanLimit => |table| > limits.maxScanRows
    case TimeLimit => exists n :: clock(n)
    case ChangeLimit => |Differing(ViewOf(rows), TableView(lower, table))| > limits.maxChanges
    case ByteLimit =>
      || PayloadTo(lower, ViewOf(rows), table, |table|) > limits.maxPayloadBytes
      || exists k :: 0 <= k < |table| && BytesAt(lower, table, k) > limits.maxPayloadBytes
    case DiffNonMonotonic => InsertsInMiddle(rows, table)
  }

  /** Nothing stops the join: ids ascend, no limit is reached, the clock never fires, no row is new
      below a slot, and every row can be encoded. */
  ghost predicate Unhindered(lower: Lowercase, rows: seq<Entry>, table: seq<Row>, limits: DiffLimits, clock: Clock) {
    && (forall reason :: !Justified(reason, lower, rows, table, limits, clock))
    && forall k :: 0 <= k < |table| ==> FitsLayout(FieldsOf(lower, table[k]))
  }

  lemma {:induction false} DistinctIdsFit(ids: seq<int>, members: set<int>)
    requires forall i, j :: 0 <= i < j < |ids| ==> ids[i] < ids[j]
    requires forall i :: 0 <= i < |ids| ==> ids[i] in members
    ensures |ids| <= |members|
  {
    if ids != [] {
      var init, last := ids[..|ids| - 1], ids[|ids| - 1];
      DistinctIdsFit(init, members - {last});
      assert |members| == |members - {last}| + 1;
    }
  }

  /** When a further id differs and the changes are as many as allowed, too many ids differ. */
  lemma {:induction false} TooManyDiffer(lower: Lowercase, have: View, want: View, rows: seq<Entry>, table: seq<Row>,
                                         cursor: nat, k: nat,
                                         changes: seq<FileChange>, x: int)
    requires Joining(lower, have, want, rows, table, cursor, k, changes) && At(have, x) != At(want, x)
    requires forall id :: Handled(rows, table, cursor, k, id) ==> id < x
    ensures |Differing(have, want)| > |changes|
  {
    var ids := seq(|changes| + 1, i requires 0 <= i <= |changes| => if i < |changes| then changes[i].id else x);
    forall i | 0 <= i < |ids| ensures ids[i] in Differing(have, want) {
      if i < |changes| {
        assert Handled(rows, table, cursor, k, changes[i].id);
        assert Settled(At(have, changes[i].id), At(want, changes[i].id), changes, changes[i].id);
      }
    }
    forall i, j | 0 <= i < j < |ids| ensures ids[i] < ids[j] {
      assert Handled(rows, table, cursor, k, changes[i].id);
    }
    DistinctIdsFit(ids, Differing(have, want));
  }

  // ---------- the join as it runs ----------

  /** Whether time has run out at the n-th look at the clock. */
  type Clock = nat -> bool

  /** `unchanged` */
  method SameRow(index: CompactIndex, slot: nat, row: Row, lowered: Text) returns (same: bool)
    requires index.Faithful() && slot < |index.rows| && index.rows[slot].record.id == row.id
    requires lowered == Effective(index.lower, row)
    ensures same <==> index.rows[slot].live && index.rows[slot].record == Decode(index.lower, row)
  {
    var strings := index.SameStrings(slot, row, lowered);
    var record := index.ToFileRecord(slot);
    index.SlotMeans(slot);
    var packed := index.blocks.RecordAt(slot);
    same := packed.IsLive() && record.kind == row.kind && record.extLower == row.extLower
      && record.size == row.size && record.mtime == row.mtime && record.ctime == row.ctime && record.dev == row.dev
      && record.inode == row.inode && record.indexedAt == row.indexedAt && strings;
  }

  /** One slot whose id the table does not hold. */
  method PassOne(index: CompactIndex, ghost table: seq<Row>, ghost k: nat, cursor: nat, before: seq<FileChange>,
                 limits: DiffLimits)
    returns (stopped: Option<DiffReason>, changes: seq<FileChange>)
    requires index.Faithful() && index.idsSorted && InIdOrder(table)
    requires AgreeWhereAbsent(index.View(), TableView(index.lower, table), index.rows, table)
    requires Joining(index.lower, index.View(), TableView(index.lower, table), index.rows, table, cursor, k, before)
    requires cursor < |index.rows| && (k < |table| ==> index.rows[cursor].record.id < table[k].id)
    ensures stopped.None? ==>
              Joining(index.lower, index.View(), TableView(index.lower, table), index.rows, table, cursor + 1, k,
                      changes)
    ensures stopped.Some? ==>
              && stopped.value == ChangeLimit
              && |Differing(index.View(), TableView(index.lower, table))| > limits.maxChanges
  {
    index.SlotMeans(cursor);
    var slot := index.blocks.RecordAt(cursor);
    SlotSides(index.lower, index.rows, table, cursor, k, before);
    PassSlot(index.lower, index.View(), TableView(index.lower, table), index.rows, table, cursor, k, before);
    if !slot.IsLive() {
      return None, before;
    }
    if |before| >= limits.maxChanges {
      TooManyDiffer(index.lower, index.View(), TableView(index.lower, table), index.rows, table, cursor, k, before,
                    slot.id);
      return Some(ChangeLimit), before;
    }
    return None, before + [FileChange(slot.id, None)];
  }

  /** Slots below the next row: the live ones are deleted. */
  method PassGone(index: CompactIndex, ghost table: seq<Row>, k: nat, id: int, from: nat, before: seq<FileChange>,
                  limits: DiffLimits, clock: Clock, ticks: nat)
    returns (stopped: Option<DiffReason>, cursor: nat, changes: seq<FileChange>, looks: nat)
    requires index.Faithful() && index.idsSorted && InIdOrder(table) && k < |table| && table[k].id == id
    requires AgreeWhereAbsent(index.View(), TableView(index.lower, table), index.rows, table)
    requires Joining(index.lower, index.View(), TableView(index.lower, table), index.rows, table, from, k, before)
    ensures stopped.None? ==>
              Joining(index.lower, index.View(), TableView(index.lower, table), index.rows, table, cursor, k, changes)
    ensures stopped.None? ==> cursor < |index.rows| ==> index.rows[cursor].record.id >= id
    ensures stopped.Some? ==> Justified(stopped.value, index.lower, index.rows, table, limits, clock)
  {
    ghost var lower, rows, have, want := index.lower, index.rows, index.View(), TableView(index.lower, table);
    cursor, changes, looks := from, before, ticks;
    while cursor < index.physicalLen
      invariant cursor <= |rows| && Joining(lower, have, want, rows, table, cursor, k, changes)
    {
      var slot := index.IdAt(cursor);
      if slot >= id {
        return None, cursor, changes, looks;
      }
      stopped, changes := PassOne(index, table, k, cursor, changes, limits);
      if stopped.Some? {
        return;
      }
      cursor := cursor + 1;
      if clock(looks) {
        return Some(TimeLimit), cursor, changes, looks;
      }
      looks := looks + 1;
    }
    return None, cursor, changes, looks;
  }

  /** Slots after the last row. */
  method PassRest(index: CompactIndex, ghost table: seq<Row>, from: nat, before: seq<FileChange>, limits: DiffLimits,
                  clock: Clock, ticks: nat)
    returns (stopped: Option<DiffReason>, changes: seq<FileChange>)
    requires index.Faithful() && index.idsSorted && InIdOrder(table)
    requires AgreeWhereAbsent(index.View(), TableView(index.lower, table), index.rows, table)
    requires Joining(index.lower, index.View(), TableView(index.lower, table), index.rows, table, from, |table|, before)
    ensures stopped.None? ==>
              Joining(index.lower, index.View(), TableView(index.lower, table), index.rows, table, |index.rows|,
                      |table|, changes)
    ensures stopped.Some? ==> Justified(stopped.value, index.lower, index.rows, table, limits, clock)
  {
    ghost var lower, rows, have, want := index.lower, index.rows, index.View(), TableView(index.lower, table);
    var cursor, looks := from, ticks;
    changes := before;
    while cursor < index.physicalLen
      invariant cursor <= |rows| && Joining(lower, have, want, rows, table, cursor, |table|, changes)
    {
      if clock(looks) {
        return Some(TimeLimit), changes;
      }
      looks := looks + 1;
      stopped, changes := PassOne(index, table, |table|, cursor, changes, limits);
      if stopped.Some? {
        return;
      }
      cursor := cursor + 1;
    }
    return None, changes;
  }

  datatype Step = Step(stopped: Option<DiffReason>, cursor: nat, changes: seq<FileChange>, payload: nat)

  lemma {:induction false} SameFields(lower: Lowercase, row: Row)
    ensures FieldsOf(lower, Borrow(Decode(lower, row))) == FieldsOf(lower, row)
  {
  }

  /** A row without a slot of its own, before the slot under the cursor. */
  lemma {:induction false} NewInMiddle(rows: seq<Entry>, table: seq<Row>, k: nat, cursor: nat, have: View, want: View,
                                       lower: Lowercase, changes: seq<FileChange>)
    requires Ascending(rows) && Joining(lower, have, want, rows, table, cursor, k, changes)
    requires k < |table| && cursor < |rows| && table[k].id < rows[cursor].record.id
    ensures InsertsInMiddle(rows, table)
  {
    assert IsSlot(rows, table[k].id, None);
  }

  /** One row of the table against the slot under the cursor. */
  method CompareRow(index: CompactIndex, ghost table: seq<Row>, k: nat, row: Row, from: nat, before: seq<FileChange>,
                    payload: nat, limits: DiffLimits, ghost clock: Clock)
    returns (step: Result<Step, Overflow>)
    requires index.Faithful() && index.idsSorted && InIdOrder(table) && k < |table| && table[k] == row
    requires AgreeWhereAbsent(index.View(), TableView(index.lower, table), index.rows, table)
    requires Joining(index.lower, index.View(), TableView(index.lower, table), index.rows, table, from, k, before)
    requires from < |index.rows| ==> index.rows[from].record.id >= row.id
    requires payload == PayloadTo(index.lower, index.View(), table, k)
    ensures step.Ok? && step.value.stopped.None? ==>
              && Joining(index.lower, index.View(), TableView(index.lower, table), index.rows, table,
                         step.value.cursor, k + 1, step.value.changes)
              && step.value.payload == PayloadTo(index.lower, index.View(), table, k + 1)
    ensures step.Err? ==> !FitsLayout(FieldsOf(index.lower, row))
    ensures step.Ok? && step.value.stopped.Some? ==>
              Justified(step.value.stopped.value, index.lower, index.rows, table, limits, clock)
  {
    var matched := false;
    if from < index.physicalLen {
      var id := index.IdAt(from);
      matched := id == row.id;
    }
    if !matched && from < index.physicalLen {
      NewInMiddle(index.rows, table, k, from, index.View(), TableView(index.lower, table), index.lower, before);
      return Ok(Step(Some(DiffNonMonotonic), from, before, payload));
    }
    step := PutRow(index, table, k, row, matched, from, before, payload, limits, clock);
  }

  /** A row with its slot, or at the end: put among the changes unless it is unchanged. */
  method PutRow(index: CompactIndex, ghost table: seq<Row>, ghost k: nat, row: Row, matched: bool, from: nat,
                before: seq<FileChange>,
                payload: nat, limits: DiffLimits, ghost clock: Clock) returns (step: Result<Step, Overflow>)
    requires index.Faithful() && index.idsSorted && InIdOrder(table) && k < |table| && table[k] == row
    requires AgreeWhereAbsent(index.View(), TableView(index.lower, table), index.rows, table)
    requires Joining(index.lower, index.View(), TableView(index.lower, table), index.rows, table, from, k, before)
    requires matched <==> from < |index.rows|
    requires matched ==> index.rows[from].record.id == row.id
    requires payload == PayloadTo(index.lower, index.View(), table, k)
    ensures step.Ok? && step.value.stopped.None? ==>
              && Joining(index.lower, index.View(), TableView(index.lower, table), index.rows, table,
                         step.value.cursor, k + 1, step.value.changes)
              && step.value.payload == PayloadTo(index.lower, index.View(), table, k + 1)
    ensures step.Err? ==> !FitsLayout(FieldsOf(index.lower, row))
    ensures step.Ok? && step.value.stopped.Some? ==>
              Justified(step.value.stopped.value, index.lower, index.rows, table, limits, clock)
  {
    var bytes := RowBytes(row, Effective(index.lower, row));
    assert bytes == BytesAt(index.lower, table, k);
    if bytes > limits.maxPayloadBytes {
      return Ok(Step(Some(ByteLimit), from, before, payload));
    }
    var text := NewRowText(index.lower, row);
    if text.Err? {
      return Err(text.error);
    }
    var same := false;
    if matched {
      same := SameRow(index, from, row, text.value);
    }
    RowPassed(index.lower, index.rows, table, from, k, before);
    var next := AddRow(index.lower, index.rows, table, k, row, matched, same, from, before, payload, bytes, limits,
                       clock);
    return Ok(next);
  }

  /** The bookkeeping for a row that has been compared. */
  method AddRow(lower: Lowercase, ghost rows: seq<Entry>, ghost table: seq<Row>, ghost k: nat, row: Row, matched: bool,
                same: bool, from: nat, before: seq<FileChange>, payload: nat, bytes: nat, limits: DiffLimits,
                ghost clock: Clock)
    returns (step: Step)
    requires k < |table| && table[k] == row && (matched <==> from < |rows|) && bytes == BytesAt(lower, table, k)
    requires Ascending(rows) && InIdOrder(table) && (matched ==> rows[from].record.id == row.id)
    requires Joining(lower, ViewOf(rows), TableView(lower, table), rows, table, from, k, before)
    requires IsPassed(lower, rows, table, from, k, before) && payload == PayloadTo(lower, ViewOf(rows), table, k)
    requires same <==> Shows(rows, Some(from)) == Some(Decode(lower, row))
    ensures step.stopped.None? ==>
              && Joining(lower, ViewOf(rows), TableView(lower, table), rows, table, step.cursor, k + 1, step.changes)
              && step.payload == PayloadTo(lower, ViewOf(rows), table, k + 1)
    ensures step.stopped.Some? ==> Justified(step.stopped.value, lower, rows, table, limits, clock)
  {
    var cursor := if matched then from + 1 else from;
    if same {
      return Step(None, cursor, before, payload);
    }
    if |before| >= limits.maxChanges {
      TooManyDiffer(lower, ViewOf(rows), TableView(lower, table), rows, table, from, k, before, row.id);
      return Step(Some(ChangeLimit), from, before, payload);
    }
    PayloadGrows(lower, ViewOf(rows), table, k + 1);
    if payload + bytes > limits.maxPayloadBytes {
      return Step(Some(ByteLimit), from, before, payload);
    }
    return Step(None, cursor, before + [FileChange(row.id, Some(Decode(lower, row)))], payload + bytes);
  }

  /** The join past the next row, and what both sides hold for it. */
  ghost predicate IsPassed(lower: Lowercase, rows: seq<Entry>, table: seq<Row>, cursor: nat, k: nat,
                           changes: seq<FileChange>)
    requires k < |table|
  {
    var record := Decode(lower, table[k]);
    && At(ViewOf(rows), table[k].id) == Shows(rows, Some(cursor))
    && At(TableView(lower, table), table[k].id) == Some(record)
    && Joining(lower, ViewOf(rows), TableView(lower, table), rows, table,
               if cursor < |rows| then cursor + 1 else cursor, k + 1,
               if Shows(rows, Some(cursor)) == Some(record) then changes
               else changes + [FileChange(record.id, Some(record))])
  }

  lemma {:induction false} RowPassed(lower: Lowercase, rows: seq<Entry>, table: seq<Row>, cursor: nat, k: nat,
                                     changes: seq<FileChange>)
    requires Ascending(rows) && InIdOrder(table)
    requires Joining(lower, ViewOf(rows), TableView(lower, table), rows, table, cursor, k, changes)
    requires AgreeWhereAbsent(ViewOf(rows), TableView(lower, table), rows, table)
    requires k < |table| && (cursor < |rows| ==> rows[cursor].record.id == table[k].id)
    requires FitsLayout(FieldsOf(lower, table[k]))
    ensures IsPassed(lower, rows, table, cursor, k, changes)
  {
    RowSides(lower, rows, table, cursor, k, changes);
    SameFields(lower, table[k]);
    PassRow(lower, ViewOf(rows), TableView(lower, table), rows, table, cursor, k, changes, Decode(lower, table[k]));
  }

  /** The slots before a row, and the row. */
  method JoinRow(index: CompactIndex, ghost table: seq<Row>, k: nat, row: Row, from: Step, limits: DiffLimits,
                 clock: Clock, ticks: nat)
    returns (step: Result<Step, Overflow>, looks: nat)
    requires index.Faithful() && index.idsSorted && InIdOrder(table) && k < |table| && table[k] == row
    requires AgreeWhereAbsent(index.View(), TableView(index.lower, table), index.rows, table)
    requires Joining(index.lower, index.View(), TableView(index.lower, table), index.rows, table, from.cursor, k,
                     from.changes)
    requires from.payload == PayloadTo(index.lower, index.View(), table, k)
    ensures step.Ok? && step.value.stopped.None? ==>
              && Joining(index.lower, index.View(), TableView(index.lower, table), index.rows, table,
                         step.value.cursor, k + 1, step.value.changes)
              && step.value.payload == PayloadTo(index.lower, index.View(), table, k + 1)
    ensures step.Err? ==> !FitsLayout(FieldsOf(index.lower, row))
    ensures step.Ok? && step.value.stopped.Some? ==>
              Justified(step.value.stopped.value, index.lower, index.rows, table, limits, clock)
  {
    var stopped, cursor, changes;
    stopped, cursor, changes, looks := PassGone(index, table, k, row.id, from.cursor, from.changes, limits, clock,
                                                ticks);
    if stopped.Some? {
      return Ok(from.(stopped := stopped)), looks;
    }
    step := CompareRow(index, table, k, row, cursor, changes, from.payload, limits, clock);
  }

  /** The promise of an available diff: what `apply_changes` makes of it is the table, it mentions
      only ids that differ, and it never asks for an id in the middle. */
  ghost predicate IsDiff(lower: Lowercase, rows: seq<Entry>, table: seq<Row>, changes: seq<FileChange>) {
    && AscendingChanges(changes) && OwnIds(changes)
    && (forall c :: 0 <= c < |changes| ==> !InsertsBelow(rows, changes[c]) && Encodable(lower, changes[c]))
    && (forall c :: 0 <= c < |changes| ==> OnlyDiffers(ViewOf(rows), TableView(lower, table), changes[c]))
    && ApplyAll(lower, ViewOf(rows), changes) == TableView(lower, table)
  }

  /** A diff is no longer than the two sides together. */
  lemma {:induction false} DiffIsShort(lower: Lowercase, rows: seq<Entry>, table: seq<Row>, changes: seq<FileChange>)
    requires IsDiff(lower, rows, table, changes)
    ensures |changes| <= |ViewOf(rows)| + |TableView(lower, table)|
  {
    var have, want := ViewOf(rows), TableView(lower, table);
    var ids := seq(|changes|, i requires 0 <= i < |changes| => changes[i].id);
    forall i | 0 <= i < |ids| ensures ids[i] in have.Keys + want.Keys {
      assert OnlyDiffers(have, want, changes[i]);
    }
    DistinctIdsFit(ids, have.Keys + want.Keys);
    assert have.Keys + want.Keys == have.Keys + (want.Keys - have.Keys);
    SubsetSize(want.Keys - have.Keys, want.Keys);
  }

  /** `snapshot_diff` */
  method SnapshotDiff(index: CompactIndex, table: seq<Row>, limits: DiffLimits, clock: Clock)
    returns (diff: Result<Diff, Overflow>)
    requires index.Valid() && InIdOrder(table)
    ensures diff.Ok? && diff.value.Available? ==> IsDiff(index.lower, index.rows, table, diff.value.changes)
    ensures diff.Ok? && diff.value.Fallback? ==>
              Justified(diff.value.reason, index.lower, index.rows, table, limits, clock)
    ensures Unhindered(index.lower, index.rows, table, limits, clock) ==> diff.Ok? && diff.value.Available?
    ensures diff.Err? ==> exists k :: 0 <= k < |table| && !FitsLayout(FieldsOf(index.lower, table[k]))
  {
    if !index.idsSorted {
      assert Justified(DiffRecordOrder, index.lower, index.rows, table, limits, clock);
      return Ok(Fallback(DiffRecordOrder));
    }
    SidesAgree(index.lower, index.rows, table);
    var joined, looks := JoinRows(index, table, limits, clock);
    if joined.Err? {
      return Err(joined.error);
    }
    if joined.value.stopped.Some? {
      return Ok(Fallback(joined.value.stopped.value));
    }
    var stopped, changes := PassRest(index, table, joined.value.cursor, joined.value.changes, limits, clock, looks);
    if stopped.Some? {
      return Ok(Fallback(stopped.value));
    }
    JoinIsDelta(index.lower, index.rows, table, changes);
    return Ok(Available(changes));
  }

  /** Every row of the table in turn. */
  method JoinRows(index: CompactIndex, table: seq<Row>, limits: DiffLimits, clock: Clock)
    returns (joined: Result<Step, Overflow>, looks: nat)
    requires index.Faithful() && index.idsSorted && InIdOrder(table)
    requires AgreeWhereAbsent(index.View(), TableView(index.lower, table), index.rows, table)
    ensures joined.Ok? && joined.value.stopped.None? ==>
              Joining(index.lower, index.View(), TableView(index.lower, table), index.rows, table, joined.value.cursor,
                      |table|, joined.value.changes)
    ensures joined.Ok? && joined.value.stopped.Some? ==>
              Justified(joined.value.stopped.value, index.lower, index.rows, table, limits, clock)
    ensures joined.Err? ==> exists k :: 0 <= k < |table| && !FitsLayout(FieldsOf(index.lower, table[k]))
  {
    ghost var lower, rows, have, want := index.lower, index.rows, index.View(), TableView(index.lower, table);
    JoinStarts(lower, have, want, rows, table);
    var step := Step(None, 0, [], 0);
    looks := 0;
    for k := 0 to |table|
      invariant step.stopped.None? && Joining(lower, have, want, rows, table, step.cursor, k, step.changes)
      invariant step.payload == PayloadTo(lower, have, table, k)
    {
      if k >= limits.maxScanRows {
        return Ok(step.(stopped := Some(ScanLimit))), looks;
      }
      if clock(looks) {
        return Ok(step.(stopped := Some(TimeLimit))), looks;
      }
      joined, looks := JoinRow(index, table, k, table[k], step, limits, clock, looks + 1);
      if joined.Err? || joined.value.stopped.Some? {
        return;
      }
      step := joined.value;
    }
    joined := Ok(step);
  }

  /** Applying an available diff yields exactly the rows of the table, unless a budget is exceeded
      (and then nothing is mutated) or something does not fit 32 bits. */
  method ApplyDiff(index: CompactIndex, changes: seq<FileChange>, ghost table: seq<Row>)
    returns (outcome: Result<Outcome, ApplyError>)
    requires index.Valid() && index.idsSorted && IsDiff(index.lower, index.rows, table, changes)
    modifies index, index.strings, index.strings.prefixes, index.blocks, index.blocks.repr
    ensures outcome == Ok(Applied) ==> index.Valid() && index.idsSorted && index.View() == TableView(index.lower, table)
    ensures AsRefused(outcome,
                      Refusal(index.lower, old(index.rows), old(index.strings.extensions),
                              Ledger(old(index.fragmentation), old(index.len)),
                                       changes, DefaultLimits(|old(index.rows)|)),
                      IsAmple(index.lower, changes, old(index.strings.arenas), index.strings.arenaBytes))
    ensures outcome.Ok? && outcome.value.NeedsFullReload? ==>
              && index.Valid()
              && unchanged(index, index.strings, index.strings.prefixes, index.blocks)
              && unchanged(old(index.blocks.repr))
  {
    outcome := index.ApplyChanges(changes);
  }
}

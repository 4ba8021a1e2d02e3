/**
 Planning and applying a delta on entries: what the preflight of `apply_changes` decides against
 the entries before the first change is still right when each change is applied
 (`src/compact_index.rs`).
 */
module Deltas {
  import opened Common
  import opened Records
  import opened Changes
  import opened PackedRows
  import opened Entries

  /** The four strings of a record. */
  function TextsOfRecord(record: FileRecord): Texts {
    Texts(record.path, record.pathLower, record.basename, record.basenameLower)
  }

  predicate SameTexts(a: FileRecord, b: FileRecord) {
    TextsOfRecord(a) == TextsOfRecord(b)
  }

  /** `DeltaPlan`: the slot of the id, and the lowercase path when strings must be packed. */
  datatype Item = Item(slot: Option<nat>, text: Option<Text>)

  ghost predicate Planned(lower: Lowercase, rows: seq<Entry>, change: FileChange, item: Item) {
    && IsSlot(rows, change.id, item.slot)
    && match change.record
       case None => item.text.None?
       case Some(record) =>
         && record.id == change.id
         && (item.slot.None? ==> forall i :: 0 <= i < |rows| ==> rows[i].record.id < change.id)
         && (item.text.None? <==> item.slot.Some? && SameTexts(rows[item.slot.value].record, Stored(lower, record)))
         && (item.text.Some? ==> item.text.value == Effective(lower, Borrow(record)))
  }

  /** The first `k` changes are in order and planned. */
  ghost predicate PlannedTo(lower: Lowercase, rows: seq<Entry>, changes: seq<FileChange>, items: seq<Item>, k: nat) {
    && k <= |changes| && k <= |items|
    && (forall i, j :: 0 <= i < j < k ==> changes[i].id < changes[j].id)
    && forall j {:trigger items[j]} :: 0 <= j < k ==> Planned(lower, rows, changes[j], items[j])
  }

  lemma {:induction false} PlannedNext(lower: Lowercase, rows: seq<Entry>, changes: seq<FileChange>, items: seq<Item>,
                                       k: nat, item: Item)
    requires PlannedTo(lower, rows, changes, items, k) && |items| == k < |changes|
    requires k > 0 ==> changes[k - 1].id < changes[k].id
    requires Planned(lower, rows, changes[k], item)
    ensures PlannedTo(lower, rows, changes, items + [item], k + 1)
  {
    forall i, j | 0 <= i < j < k + 1 ensures changes[i].id < changes[j].id {
      assert j == k && i < k - 1 ==> changes[i].id < changes[k - 1].id;
    }
  }

  /** A plan made before the first change is still right when its change comes. */
  lemma {:induction false} PlanStays(lower: Lowercase, start: seq<Entry>, changes: seq<FileChange>, k: nat,
                                     rows: seq<Entry>, item: Item)
    requires k < |changes| && (k > 0 ==> changes[k - 1].id < changes[k].id) && RunsTo(lower, start, changes, k, rows)
    requires Planned(lower, start, changes[k], item)
    ensures Planned(lower, rows, changes[k], item)
  {
    SlotStays(lower, start, changes, k, rows, item.slot);
  }

  /** The entries after the first `k` changes. */
  ghost predicate RunsTo(lower: Lowercase, start: seq<Entry>, changes: seq<FileChange>, k: nat, rows: seq<Entry>)
    requires k <= |changes|
  {
    && Ascending(rows) && Touched(start, if k == 0 then None else Some(changes[k - 1].id), rows)
    && ViewOf(rows) == ApplyAll(lower, ViewOf(start), changes[..k])
  }

  /** Slots keep their ids, and those above the last id of the changes so far keep everything. */
  ghost predicate Touched(start: seq<Entry>, last: Option<int>, rows: seq<Entry>) {
    && |start| <= |rows|
    && (forall i :: 0 <= i < |start| ==> rows[i].record.id == start[i].record.id)
    && (forall i :: 0 <= i < |start| && (last.Some? ==> start[i].record.id > last.value) ==> rows[i] == start[i])
    && forall i :: |start| <= i < |rows| ==> last.Some? && rows[i].record.id <= last.value
  }

  /** The slot planned for a change is still its slot, and untouched. */
  lemma {:induction false} SlotStays(lower: Lowercase, start: seq<Entry>, changes: seq<FileChange>, k: nat,
                                     rows: seq<Entry>, slot: Option<nat>)
    requires k < |changes| && (k > 0 ==> changes[k - 1].id < changes[k].id) && RunsTo(lower, start, changes, k, rows)
    requires IsSlot(start, changes[k].id, slot)
    ensures IsSlot(rows, changes[k].id, slot) && EntryAt(rows, slot) == EntryAt(start, slot)
    ensures (forall i :: 0 <= i < |start| ==> start[i].record.id < changes[k].id) ==>
              forall i :: 0 <= i < |rows| ==> rows[i].record.id < changes[k].id
  {
    if slot.None? {
      forall i | 0 <= i < |rows| ensures rows[i].record.id != changes[k].id {
      }
    }
  }

  lemma {:induction false} AppliedSnoc(lower: Lowercase, view: View, changes: seq<FileChange>, k: nat)
    requires k < |changes|
    ensures ApplyAll(lower, view, changes[..k + 1]) == ApplyOne(lower, ApplyAll(lower, view, changes[..k]), changes[k])
  {
    assert changes[..k + 1][..k] == changes[..k] && changes[..k + 1][k] == changes[k];
  }

  lemma {:induction false} RunsOn(lower: Lowercase, start: seq<Entry>, changes: seq<FileChange>, k: nat,
                                  rows: seq<Entry>, item: Item, after: seq<Entry>)
    requires k < |changes| && (k > 0 ==> changes[k - 1].id < changes[k].id) && RunsTo(lower, start, changes, k, rows)
    requires Planned(lower, start, changes[k], item)
    requires IsStep(lower, rows, changes[k], item.slot, after)
    ensures RunsTo(lower, start, changes, k + 1, after)
  {
    var change := changes[k];
    SlotStays(lower, start, changes, k, rows, item.slot);
    StepShowsChange(lower, rows, change, item.slot, after);
    AppliedSnoc(lower, ViewOf(start), changes, k);
    StepTouches(lower, start, if k == 0 then None else Some(changes[k - 1].id), rows, change, item.slot, after);
  }

  lemma {:induction false} StepTouches(lower: Lowercase, start: seq<Entry>, last: Option<int>, rows: seq<Entry>,
                                       change: FileChange, slot: Option<nat>, after: seq<Entry>)
    requires Touched(start, last, rows) && IsStep(lower, rows, change, slot, after)
    requires IsSlot(rows, change.id, slot) && (change.record.Some? ==> change.record.value.id == change.id)
    requires last.Some? ==> last.value < change.id
    ensures Touched(start, Some(change.id), after)
  {
    forall i | 0 <= i < |start|
      ensures after[i].record.id == start[i].record.id
      ensures start[i].record.id > change.id ==> after[i] == start[i]
    {
      if slot != Some(i) {
        assert after[i] == rows[i];
      }
    }
    forall i | |start| <= i < |after| ensures after[i].record.id <= change.id {
      if i < |rows| {
        assert after[i].record.id == rows[i].record.id;
      }
    }
  }

  lemma {:induction false} RunStarts(lower: Lowercase, start: seq<Entry>, changes: seq<FileChange>)
    requires Ascending(start)
    ensures RunsTo(lower, start, changes, 0, start)
  {
    assert changes[..0] == [];
  }

  lemma {:induction false} RunEnds(lower: Lowercase, start: seq<Entry>, changes: seq<FileChange>, rows: seq<Entry>)
    requires RunsTo(lower, start, changes, |changes|, rows)
    ensures ViewOf(rows) == ApplyAll(lower, ViewOf(start), changes)
  {
    assert changes[..|changes|] == changes;
  }

  // ---------- the ledger of the preflight ----------

  /** What has been booked for the first `k` changes, against the entries before all of them. */
  ghost function LedgerAt(start: seq<Entry>, changes: seq<FileChange>, items: seq<Item>, first: Ledger, k: nat): Ledger
    requires k <= |changes| && k <= |items|
  {
    if k == 0 then first
    else Booked(LedgerAt(start, changes, items, first, k - 1), EntryAt(start, items[k - 1].slot),
                changes[k - 1].record.None?, items[k - 1].text.None?)
  }

  lemma {:induction false} LedgerIgnoresLater(start: seq<Entry>, changes: seq<FileChange>, items: seq<Item>,
                                              first: Ledger, k: nat, item: Item)
    requires k <= |changes| && k <= |items|
    ensures LedgerAt(start, changes, items + [item], first, k) == LedgerAt(start, changes, items, first, k)
  {
    if k > 0 {
      LedgerIgnoresLater(start, changes, items, first, k - 1, item);
    }
  }

  /** One change applied: how the packed bytes relate to the new entry. */
  ghost predicate PackedBytes(rows: seq<Entry>, change: FileChange, item: Item, after: seq<Entry>, packed: int) {
    if change.record.None? then packed == 0
    else if item.slot.None? then |rows| < |after| && packed == after[|rows|].bytes
    else item.slot.value < |rows| && item.slot.value < |after| &&
         if item.text.None? then packed == 0 && after[item.slot.value].bytes == rows[item.slot.value].bytes
         else packed == after[item.slot.value].bytes
  }

  /** Applying a change turns the books before it into what the preflight had booked. */
  lemma {:induction false} BooksRunOn(lower: Lowercase, start: seq<Entry>, changes: seq<FileChange>, items: seq<Item>,
                                      first: Ledger, k: nat,
                   rows: seq<Entry>, after: seq<Entry>, arenaBytes: int, packed: int)
    requires k < |changes| && k < |items| && (k > 0 ==> changes[k - 1].id < changes[k].id)
    requires RunsTo(lower, start, changes, k, rows)
    requires Planned(lower, start, changes[k], items[k])
    requires IsStep(lower, rows, changes[k], items[k].slot, after)
    requires PackedBytes(rows, changes[k], items[k], after, packed)
    requires var l := LedgerAt(start, changes, items, first, k); Books(rows, l.f, l.len, arenaBytes)
    ensures var l := LedgerAt(start, changes, items, first, k + 1); Books(after, l.f, l.len, arenaBytes + packed)
  {
    SlotStays(lower, start, changes, k, rows, items[k].slot);
    BooksAfterStep(lower, rows, changes[k], items[k].slot, after, LedgerAt(start, changes, items, first, k),
                   arenaBytes, packed, items[k].text.None?);
  }

  /** The preflight runs the changes on the entries with nothing packed, which keeps the books
      at the present arena size. */
  function Rehearsed(lower: Lowercase, rows: seq<Entry>, change: FileChange, item: Item): (after: seq<Entry>)
    requires item.slot.Some? ==> item.slot.value < |rows|
  {
    match (change.record, item.slot)
    case (None, None) => rows
    case (None, Some(i)) => rows[i := rows[i].(live := false)]
    case (Some(record), None) => rows + [Entry(Stored(lower, record), 0, true)]
    case (Some(record),
          Some(i)) => rows[i := Entry(Stored(lower, record), if item.text.None? then rows[i].bytes else 0, true)]
  }

  lemma {:induction false} RehearsalIsStep(lower: Lowercase, rows: seq<Entry>, change: FileChange, item: Item)
    requires item.slot.Some? ==> item.slot.value < |rows|
    ensures IsStep(lower, rows, change, item.slot, Rehearsed(lower, rows, change, item))
    ensures PackedBytes(rows, change, item, Rehearsed(lower, rows, change, item), 0)
  {
  }

  /** What a change can take off the books is on them. */
  ghost predicate OnTheBooks(ledger: Ledger, was: Entry) {
    if was.live then ledger.len >= 1 else ledger.f.deadRecords >= 1 && ledger.f.deadStringBytes >= was.bytes
  }

  /** The state of the preflight after `k` changes; `rehearsed` are the entries they would leave. */
  ghost predicate Progress(lower: Lowercase, start: seq<Entry>, changes: seq<FileChange>, k: nat, items: seq<Item>,
                           first: Ledger,
                           ledger: Ledger, rehearsed: seq<Entry>, arenaBytes: int) {
    && k <= |changes| && |items| == k && PlannedTo(lower, start, changes, items, k)
    && ledger == LedgerAt(start, changes, items, first, k)
    && RunsTo(lower, start, changes, k, rehearsed) && Books(rehearsed, ledger.f, ledger.len, arenaBytes)
  }

  lemma {:induction false} ProgressCovers(lower: Lowercase, start: seq<Entry>, changes: seq<FileChange>, k: nat,
                                          items: seq<Item>, first: Ledger,
                       ledger: Ledger, rehearsed: seq<Entry>, arenaBytes: int, slot: Option<nat>)
    requires Progress(lower, start, changes, k, items, first, ledger, rehearsed, arenaBytes)
    requires k < |changes| && (k > 0 ==> changes[k - 1].id < changes[k].id) && IsSlot(start, changes[k].id, slot)
    ensures slot.Some? ==> OnTheBooks(ledger, start[slot.value])
  {
    SlotStays(lower, start, changes, k, rehearsed, slot);
    if slot.Some? {
      BooksCover(rehearsed, ledger.f, ledger.len, arenaBytes, slot.value);
    }
  }

  lemma {:induction false} ProgressNext(lower: Lowercase, start: seq<Entry>, changes: seq<FileChange>, k: nat,
                                        items: seq<Item>, first: Ledger,
                     ledger: Ledger, rehearsed: seq<Entry>, arenaBytes: int, item: Item, next: Ledger)
    returns (after: seq<Entry>)
    requires Progress(lower, start, changes, k, items, first, ledger, rehearsed, arenaBytes)
    requires k < |changes| && (k > 0 ==> changes[k - 1].id < changes[k].id) && Planned(lower, start, changes[k], item)
    requires next == Booked(ledger, EntryAt(start, item.slot), changes[k].record.None?, item.text.None?)
    ensures Progress(lower, start, changes, k + 1, items + [item], first, next, after, arenaBytes)
  {
    var more := items + [item];
    SlotStays(lower, start, changes, k, rehearsed, item.slot);
    after := Rehearsed(lower, rehearsed, changes[k], item);
    RehearsalIsStep(lower, rehearsed, changes[k], item);
    PlannedNext(lower, start, changes, items, k, item);
    LedgerIgnoresLater(start, changes, items, first, k, item);
    RunsOn(lower, start, changes, k, rehearsed, item, after);
    BooksRunOn(lower, start, changes, more, first, k, rehearsed, after, arenaBytes, 0);
  }

  /** The state of the application after `k` changes. */
  ghost predicate AppliedTo(lower: Lowercase, start: seq<Entry>, changes: seq<FileChange>, items: seq<Item>,
                            first: Ledger, k: nat,
                            rows: seq<Entry>, arenaBytes: int) {
    && k <= |changes| && k <= |items| && RunsTo(lower, start, changes, k, rows)
    && Books(rows, LedgerAt(start, changes, items, first, k).f, LedgerAt(start, changes, items, first, k).len,
             arenaBytes)
  }

  lemma {:induction false} AppliedNext(lower: Lowercase, start: seq<Entry>, changes: seq<FileChange>, items: seq<Item>,
                                       first: Ledger, k: nat,
                    rows: seq<Entry>, after: seq<Entry>, arenaBytes: int, arenaBytesAfter: int)
    requires k < |changes| && PlannedTo(lower, start, changes, items, |changes|)
    requires AppliedTo(lower, start, changes, items, first, k, rows, arenaBytes)
    requires IsStep(lower, rows, changes[k], items[k].slot, after)
    requires PackedBytes(rows, changes[k], items[k], after, arenaBytesAfter - arenaBytes)
    ensures AppliedTo(lower, start, changes, items, first, k + 1, after, arenaBytesAfter)
  {
    assert k > 0 ==> changes[k - 1].id < changes[k].id;
    assert Planned(lower, start, changes[k], items[k]);
    RunsOn(lower, start, changes, k, rows, items[k], after);
    BooksRunOn(lower, start, changes, items, first, k, rows, after, arenaBytes, arenaBytesAfter - arenaBytes);
  }

  // ---------- the plan is determined ----------

  ghost function SlotOf(rows: seq<Entry>, id: int): (slot: Option<nat>)
    ensures IsSlot(rows, id, slot)
  {
    if exists i: nat :: i < |rows| && rows[i].record.id == id then
      var i: nat :| i < |rows| && rows[i].record.id == id;
      Some(i)
    else None
  }

  ghost function ItemOf(lower: Lowercase, rows: seq<Entry>, change: FileChange): Item {
    var slot := SlotOf(rows, change.id);
    if change.record.None? then Item(slot, None)
    else if slot.Some? && TextsOfRecord(rows[slot.value].record)
    == TextsOfRecord(Stored(lower, change.record.value)) then Item(slot, None)
    else Item(slot, Some(Effective(lower, Borrow(change.record.value))))
  }

  ghost function LedgerOf(lower: Lowercase, rows: seq<Entry>, changes: seq<FileChange>, first: Ledger, k: nat): Ledger
    requires k <= |changes|
  {
    if k == 0 then first
    else
      var item := ItemOf(lower, rows, changes[k - 1]);
      Booked(LedgerOf(lower, rows, changes, first, k - 1), EntryAt(rows, item.slot), changes[k - 1].record.None?,
             item.text.None?)
  }

  lemma {:induction false} PlanIsDetermined(lower: Lowercase, rows: seq<Entry>, change: FileChange, item: Item)
    requires Ascending(rows) && Planned(lower, rows, change, item)
    ensures item == ItemOf(lower, rows, change)
  {
    var slot := SlotOf(rows, change.id);
    assert slot == item.slot;
  }

  lemma {:induction false} LedgerIsDetermined(lower: Lowercase, rows: seq<Entry>, changes: seq<FileChange>,
                                              items: seq<Item>, first: Ledger, k: nat)
    requires Ascending(rows) && PlannedTo(lower, rows, changes, items, k)
    ensures LedgerAt(rows, changes, items, first, k) == LedgerOf(lower, rows, changes, first, k)
  {
    if k > 0 {
      LedgerIsDetermined(lower, rows, changes, items, first, k - 1);
      assert Planned(lower, rows, changes[k - 1], items[k - 1]);
      PlanIsDetermined(lower, rows, changes[k - 1], items[k - 1]);
    }
  }
}

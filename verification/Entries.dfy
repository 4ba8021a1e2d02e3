/**
 The packed index as a sequence of entries: the records it shows, and the books it keeps about
 dead rows and dead bytes (`src/compact_index.rs`).
 */
module Entries {
  import opened Common
  import opened Records
  import opened Changes
  import opened PackedRows

  ghost predicate Ascending(rows: seq<Entry>) {
    forall i, j :: 0 <= i < j < |rows| ==> rows[i].record.id < rows[j].record.id
  }

  // ---------- the records shown ----------

  /** The live records by id. */
  function ViewOf(rows: seq<Entry>): View {
    if rows == [] then map[]
    else
      var last := rows[|rows| - 1];
      if last.live then ViewOf(rows[..|rows| - 1])[last.record.id := last.record] else ViewOf(rows[..|rows| - 1])
  }

  /** The slot of an id, live or dead. */
  ghost predicate IsSlot(rows: seq<Entry>, id: int, slot: Option<nat>) {
    match slot
    case Some(i) => i < |rows| && rows[i].record.id == id
    case None => forall i :: 0 <= i < |rows| ==> rows[i].record.id != id
  }

  function Shows(rows: seq<Entry>, slot: Option<nat>): Option<FileRecord> {
    if slot.Some? && slot.value < |rows| && rows[slot.value].live then Some(rows[slot.value].record) else None
  }

  /** An id shows the record of its slot, if that is live. */
  lemma {:induction false} ViewAt(rows: seq<Entry>, id: int, slot: Option<nat>)
    requires Ascending(rows) && IsSlot(rows, id, slot)
    ensures At(ViewOf(rows), id) == Shows(rows, slot)
  {
    if rows != [] {
      var n := |rows| - 1;
      var init := rows[..n];
      if slot == Some(n) {
        ViewAt(init, id, None);
      } else {
        ViewAt(init, id, slot);
      }
    }
  }

  lemma {:induction false} FindSlot(rows: seq<Entry>, id: int) returns (slot: Option<nat>)
    ensures IsSlot(rows, id, slot)
  {
    if i :| 0 <= i < |rows| && rows[i].record.id == id {
      return Some(i);
    }
    return None;
  }

  // ---------- one change ----------

  /** What a change does to the entries, but for the bytes it packs. */
  ghost predicate IsStep(lower: Lowercase, rows: seq<Entry>, change: FileChange, slot: Option<nat>, after: seq<Entry>) {
    if change.record.None? then
      after == if slot.Some? && slot.value < |rows| then rows[slot.value := rows[slot.value].(live := false)] else rows
    else
      var record := Stored(lower, change.record.value);
      if slot.None? then
        |after| == |rows| + 1 && after[..|rows|] == rows && after[|rows|].record == record && after[|rows|].live
      else
        slot.value < |rows| && |after| == |rows| && after[slot.value].record == record && after[slot.value].live
        && after == rows[slot.value := after[slot.value]]
  }

  /** A change of the entries is the change of the view. */
  lemma {:induction false} StepShowsChange(lower: Lowercase, rows: seq<Entry>, change: FileChange, slot: Option<nat>,
                                           after: seq<Entry>)
    requires Ascending(rows) && IsSlot(rows, change.id, slot) && IsStep(lower, rows, change, slot, after)
    requires change.record.Some? ==> change.record.value.id == change.id
    requires change.record.Some? && slot.None? ==> forall i :: 0 <= i < |rows| ==> rows[i].record.id < change.id
    ensures Ascending(after) && ViewOf(after) == ApplyOne(lower, ViewOf(rows), change)
  {
    var changed := ApplyOne(lower, ViewOf(rows), change);
    assert Ascending(after);
    forall id ensures At(ViewOf(after), id) == At(changed, id) {
      var was := FindSlot(rows, id);
      ViewAt(rows, id, was);
      ViewAt(rows, change.id, slot);
      var now := if id == change.id && slot.None? && change.record.Some? then Some(|rows|) else was;
      if id == change.id {
        assert was == slot;
      }
      assert IsSlot(after, id, now);
      ViewAt(after, id, now);
    }
    SameView(ViewOf(after), changed);
  }

  // ---------- books ----------

  datatype Fragmentation = Fragmentation(deadRecords: int, deadStringBytes: int, extensionGrowthBytes: int)

  type Weight = Entry -> int

  function Alive(): Weight {
    (e: Entry) => if e.live then 1 else 0
  }

  function Dead(): Weight {
    (e: Entry) => if e.live then 0 else 1
  }

  function LiveBytes(): Weight {
    (e: Entry) => if e.live then e.bytes else 0
  }

  function DeadBytes(): Weight {
    (e: Entry) => if e.live then 0 else e.bytes
  }

  function Sum(weight: Weight, rows: seq<Entry>): int {
    if rows == [] then 0 else Sum(weight, rows[..|rows| - 1]) + weight(rows[|rows| - 1])
  }

  lemma {:induction false} SumSnoc(weight: Weight, rows: seq<Entry>, entry: Entry)
    ensures Sum(weight, rows + [entry]) == Sum(weight, rows) + weight(entry)
  {
    assert (rows + [entry])[..|rows|] == rows;
  }

  lemma {:induction false} SumPut(weight: Weight, rows: seq<Entry>, i: nat, entry: Entry)
    requires i < |rows|
    ensures Sum(weight, rows[i := entry]) == Sum(weight, rows) - weight(rows[i]) + weight(entry)
  {
    var n := |rows| - 1;
    if i < n {
      assert rows[i := entry] == rows[..n][i := entry] + [rows[n]];
      SumSnoc(weight, rows[..n][i := entry], rows[n]);
      SumPut(weight, rows[..n], i, entry);
    } else {
      assert rows[i := entry] == rows[..n] + [entry];
      SumSnoc(weight, rows[..n], entry);
    }
  }

  lemma {:induction false} SumBoundsPart(weight: Weight, rows: seq<Entry>, i: nat)
    requires forall e: Entry :: weight(e) >= 0
    requires i < |rows|
    ensures Sum(weight, rows) >= weight(rows[i])
  {
    var n := |rows| - 1;
    if i < n {
      SumBoundsPart(weight, rows[..n], i);
    } else if n > 0 {
      SumBoundsPart(weight, rows[..n], 0);
    }
  }

  /** Dead bytes and live rows share out the arenas; dead records are the tombstones. */
  ghost predicate Books(rows: seq<Entry>, f: Fragmentation, len: int, arenaBytes: int) {
    && len == Sum(Alive(), rows) && f.deadRecords == Sum(Dead(), rows)
    && f.deadStringBytes + Sum(LiveBytes(), rows) == arenaBytes
    && Sum(DeadBytes(), rows) <= f.deadStringBytes
  }

  /** The live entries are the records shown. */
  lemma {:induction false} ViewSize(rows: seq<Entry>)
    requires Ascending(rows)
    ensures Sum(Alive(), rows) == |ViewOf(rows)|
  {
    if rows != [] {
      var n := |rows| - 1;
      var last := rows[n];
      ViewSize(rows[..n]);
      ViewAt(rows[..n], last.record.id, None);
      assert ViewOf(rows[..n])[last.record.id := last.record].Keys == ViewOf(rows[..n]).Keys + {last.record.id};
    }
  }

  lemma {:induction false} LiveBytesAreBounded(rows: seq<Entry>, most: nat)
    requires forall i :: 0 <= i < |rows| ==> rows[i].bytes <= most
    ensures Sum(LiveBytes(), rows) <= Sum(Alive(), rows) * most
  {
    if rows != [] {
      var n := |rows| - 1;
      LiveBytesAreBounded(rows[..n], most);
      var a := Sum(Alive(), rows[..n]);
      assert (a + 1) * most == a * most + most;
    }
  }

  /** What a change can take off the books is on them: a live row is counted live, a dead row is
      counted dead and its bytes are among the dead bytes. */
  lemma {:induction false} BooksCover(rows: seq<Entry>, f: Fragmentation, len: int, arenaBytes: int, i: nat)
    requires Books(rows, f, len, arenaBytes) && i < |rows|
    ensures if rows[i].live then len >= 1 else f.deadRecords >= 1 && f.deadStringBytes >= rows[i].bytes
  {
    SumBoundsPart(Alive(), rows, i);
    SumBoundsPart(Dead(), rows, i);
    SumBoundsPart(DeadBytes(), rows, i);
  }

  datatype Ledger = Ledger(f: Fragmentation, len: int)

  /** What the preflight books for a change, given its old entry and whether its strings stay. */
  function Booked(l: Ledger, was: Option<Entry>, removes: bool, sameText: bool): Ledger {
    if removes then
      if was.Some? && was.value.live then
        Ledger(l.f.(deadRecords := l.f.deadRecords + 1, deadStringBytes := l.f.deadStringBytes + was.value.bytes),
               l.len - 1)
      else l
    else if was.None? then l.(len := l.len + 1)
    else if !was.value.live then
      Ledger(l.f.(deadRecords := l.f.deadRecords - 1,
                  deadStringBytes := l.f.deadStringBytes - if sameText then was.value.bytes else 0),
             l.len + 1)
    else if sameText then l
    else l.(f := l.f.(deadStringBytes := l.f.deadStringBytes + was.value.bytes))
  }

  function EntryAt(rows: seq<Entry>, slot: Option<nat>): Option<Entry> {
    if slot.Some? && slot.value < |rows| then Some(rows[slot.value]) else None
  }

  /** Booking a change keeps the books. `packed` are the bytes it adds to the arenas. */
  lemma {:induction false} BooksAfterStep(lower: Lowercase, rows: seq<Entry>, change: FileChange, slot: Option<nat>,
                                          after: seq<Entry>, l: Ledger,
                       arenaBytes: int, packed: int, sameText: bool)
    requires IsSlot(rows, change.id, slot) && IsStep(lower, rows, change, slot, after)
    requires Books(rows, l.f, l.len, arenaBytes)
    requires change.record.None? ==> packed == 0
    requires change.record.Some? && slot.None? ==> packed == after[|rows|].bytes
    requires change.record.Some? && slot.Some? ==>
               if sameText then packed == 0 && after[slot.value].bytes == rows[slot.value].bytes
               else packed == after[slot.value].bytes
    ensures var next := Booked(l, EntryAt(rows, slot), change.record.None?, sameText);
            Books(after, next.f, next.len, arenaBytes + packed)
  {
    if slot.Some? {
      var entry := after[slot.value];
      SumPut(Alive(), rows, slot.value, entry);
      SumPut(Dead(), rows, slot.value, entry);
      SumPut(LiveBytes(), rows, slot.value, entry);
      SumPut(DeadBytes(), rows, slot.value, entry);
    } else if change.record.Some? {
      var entry := after[|rows|];
      assert after == rows + [entry];
      SumSnoc(Alive(), rows, entry);
      SumSnoc(Dead(), rows, entry);
      SumSnoc(LiveBytes(), rows, entry);
      SumSnoc(DeadBytes(), rows, entry);
    }
  }
}

/** The packed index (`CompactIndex`, `src/compact_index.rs`). */
module PackedIndex {
  import opened Common
  import opened Records
  import opened Changes
  import Ordering
  import opened Metadata
  import opened Packing
  import opened PackedRows
  import opened Prefixes
  import opened Strings
  import opened Blocks
  import opened Entries
  import opened Deltas

  // Finding, appending and the application of deltas, against the entries the index stands for.

  const ARENA_BYTES := 67108864
  const BOX_SIZE := 16
  const MAX_DEAD_STRING_BYTES := 33554432
  const MAX_EXTENSION_GROWTH_BYTES := 4194304

  /** A number of rows with which the index is far from its limits. */
  const MANY_ROWS := 0x100_0000

  datatype Reason =
    RecordOrder | NonMonotonicId | TombstoneBudget | DeadStringBudget | ExtensionGrowthBudget | ExtensionCapacity

  /** The errors of a batch. `TooLarge` alone can come after the first change has been applied. */
  datatype ApplyError = TooLarge | UnorderedIds | ForeignId

  datatype Outcome = Applied | NeedsFullReload(reason: Reason)

  datatype DeltaLimits = DeltaLimits(deadStrings: nat, deadRecords: nat, extensionGrowth: nat)

  lemma {:induction false} AscendingSnoc(rows: seq<Entry>, entry: Entry)
    ensures Ascending(rows + [entry]) <==> Ascending(rows) && (rows != [] ==>
        rows[|rows| - 1].record.id < entry.record.id)
  {
    var after := rows + [entry];
    if Ascending(after) {
      forall i, j | 0 <= i < j < |rows| ensures rows[i].record.id < rows[j].record.id {
        assert after[i].record.id < after[j].record.id;
      }
      if rows != [] {
        assert after[|rows| - 1].record.id < after[|rows|].record.id;
      }
    }
  }

  lemma {:induction false} SlotsSnoc(store: Store, recs: seq<Packed>, metas: seq<Input>, rows: seq<Entry>,
                                     packed: Packed, input: Input, entry: Entry)
    requires SlotsOk(store, recs, metas, rows) && SlotOk(store, packed, input, entry)
    ensures SlotsOk(store, recs + [packed], metas + [input], rows + [entry])
  {
  }

  lemma {:induction false} SlotsPut(store: Store, recs: seq<Packed>, metas: seq<Input>, rows: seq<Entry>, i: nat,
                                    packed: Packed, input: Input, entry: Entry)
    requires SlotsOk(store, recs, metas, rows) && i < |rows| && SlotOk(store, packed, input, entry)
    ensures SlotsOk(store, recs[i := packed], metas[i := input], rows[i := entry])
  {
  }

  class CompactIndex {
    const lower: Lowercase
    const strings: StringStore
    const blocks: RowBlocks
    var len: int
    var physicalLen: nat
    var idsSorted: bool
    var fragmentation: Fragmentation
    /** What the slots hold. */
    ghost var rows: seq<Entry>

    /** Every slot decodes to its entry. */
    ghost predicate Faithful()
      reads this, strings, strings.prefixes, blocks, blocks.repr
    {
      && strings.Valid() && blocks.Valid() && physicalLen == |rows|
      && SlotsOk(strings.View(), blocks.recs, blocks.metas, rows)
      && (idsSorted <==> Ascending(rows))
    }

    ghost predicate Valid()
      reads this, strings, strings.prefixes, blocks, blocks.repr
    {
      Faithful() && Books(rows, fragmentation, len, TotalBytes(strings.arenas))
    }

    /** The records the index shows. */
    ghost function View(): Changes.View
      reads this
    {
      ViewOf(rows)
    }

    constructor (lower: Lowercase, arenaBytes: nat, recordsPerBlock: nat, prefixBytes: nat, hash: Hash)
      requires recordsPerBlock > 0
      ensures Valid() && rows == [] && this.lower == lower && blocks.repr == {} && strings.extensions == []
      ensures fresh(strings) && fresh(strings.prefixes) && fresh(blocks)
      ensures strings.arenaBytes == arenaBytes && strings.arenas == [] && fragmentation == Fragmentation(0, 0, 0)
    {
      this.lower := lower;
      strings := new StringStore(arenaBytes, prefixBytes, hash);
      blocks := new RowBlocks(recordsPerBlock);
      len := 0;
      physicalLen := 0;
      idsSorted := true;
      fragmentation := Fragmentation(0, 0, 0);
      rows := [];
    }

    // ---------- slots ----------

    /** Whether the ids stay strictly ascending with one more. */
    method StaysSorted(packed: Packed, ghost entry: Entry) returns (sorted: bool)
      requires Faithful() && entry.record.id == packed.id
      ensures sorted <==> Ascending(rows + [entry])
    {
      AscendingSnoc(rows, entry);
      if physicalLen == 0 {
        return idsSorted;
      }
      SlotMeans(physicalLen - 1);
      var last := blocks.RecordAt(physicalLen - 1);
      return idsSorted && last.id < packed.id;
    }

    method Append(packed: Packed, input: Input, ghost entry: Entry)
      requires Faithful() && SlotOk(strings.View(), packed, input, entry)
      modifies this`len, this`physicalLen, this`idsSorted, this`rows, blocks, blocks.repr
      ensures Faithful() && rows == old(rows) + [entry] && len == old(len) + 1
      ensures fresh(blocks.repr - old(blocks.repr))
    {
      SlotsSnoc(strings.View(), blocks.recs, blocks.metas, rows, packed, input, entry);
      idsSorted := StaysSorted(packed, entry);
      blocks.Append(packed, input);
      CountOneMore(entry);
    }

    method CountOneMore(ghost entry: Entry)
      requires strings.Valid() && blocks.Valid() && physicalLen == |rows|
      requires SlotsOk(strings.View(), blocks.recs, blocks.metas, rows + [entry])
      requires (idsSorted <==> Ascending(rows + [entry]))
      modifies this`len, this`physicalLen, this`rows
      ensures Faithful() && rows == old(rows) + [entry] && len == old(len) + 1
    {
      len := len + 1;
      physicalLen := physicalLen + 1;
      rows := rows + [entry];
    }

    ghost method Note(after: seq<Entry>)
      requires strings.Valid() && blocks.Valid() && physicalLen == |after|
      requires SlotsOk(strings.View(), blocks.recs, blocks.metas, after) && (idsSorted <==> Ascending(after))
      modifies this`rows
      ensures Faithful() && rows == after
    {
      rows := after;
    }

    /** Replacing a slot's record and metadata. */
    method SetRow(slot: nat, packed: Packed, input: Input, ghost entry: Entry)
      requires Faithful() && slot < |rows| && SlotOk(strings.View(), packed, input, entry)
      requires entry.record.id == rows[slot].record.id
      modifies this`rows, blocks, blocks.repr
      ensures Faithful() && rows == old(rows)[slot := entry] && blocks.repr == old(blocks.repr)
    {
      SlotsPut(strings.View(), blocks.recs, blocks.metas, rows, slot, packed, input, entry);
      SameIdsSameOrder(rows, slot, entry);
      blocks.SetRecord(slot, packed);
      blocks.UpdateMetadata(slot, input);
      Note(rows[slot := entry]);
    }

    method Tombstone(slot: nat)
      requires Faithful() && slot < |rows|
      modifies this`rows, blocks
      ensures Faithful() && rows == old(rows)[slot := old(rows)[slot].(live := false)]
      ensures blocks.repr == old(blocks.repr)
    {
      ghost var store, recs, metas, entry := strings.View(), blocks.recs, blocks.metas, rows[slot];
      var packed := blocks.RecordAt(slot);
      assert SlotOk(store, recs[slot], metas[slot], entry);
      TombstonedSlot(store, packed, metas[slot], entry);
      var dead := packed.(present := packed.present + {TOMBSTONE});
      SlotsPut(store, recs, metas, rows, slot, dead, metas[slot], entry.(live := false));
      assert metas[slot := metas[slot]] == metas;
      SameIdsSameOrder(rows, slot, entry.(live := false));
      blocks.SetRecord(slot, dead);
      Note(rows[slot := entry.(live := false)]);
    }

    /** An index of a moderate number of rows, compacted as the budgets demand, has room for many more. */
    lemma {:induction false} HasRoomLeft(n: nat)
      requires Valid() && Ascending(rows) && |View()| <= MANY_ROWS && n <= 0x4000_0000
      requires fragmentation.deadStringBytes <= MAX_DEAD_STRING_BYTES && strings.arenaBytes == ARENA_BYTES
      ensures CanTake(strings.arenas, strings.arenaBytes, n)
    {
      forall i | 0 <= i < |rows| ensures rows[i].bytes <= U32_MAX {
        SlotMeans(i);
        RowBytesFit(strings.View(), blocks.recs[i]);
      }
      ViewSize(rows);
      LiveBytesAreBounded(rows, U32_MAX);
      if strings.arenas != [] {
        WorthIs(|strings.arenas|, strings.arenaBytes);
      }
    }

    // ---------- strings ----------

    /** Packing a row: its future slot decodes to the record, and no other slot is disturbed. */
    method Pack(row: Row, lowered: Text, ext: nat, hint: Option<nat>)
      returns (packed: Result<Packed, Overflow>, ghost bytes: nat)
      requires Faithful() && lowered == Effective(lower, row) && ExtMeans(strings.extensions, ext, row.extLower)
      modifies strings, strings.prefixes
      ensures Faithful() && strings.extensions == old(strings.extensions)
      ensures |strings.arenas| <= |old(strings.arenas)| + 1
      ensures CanTake(old(strings.arenas), strings.arenaBytes, 1) && IsModerate(lowered, row) ==> packed.Ok?
      ensures packed.Ok? ==> bytes == TotalBytes(strings.arenas) - TotalBytes(old(strings.arenas))
      ensures packed.Ok? ==> SlotOk(strings.View(), packed.value, InputOf(row), Entry(Decode(lower, row), bytes, true))
    {
      ghost var was := strings.View();
      bytes := 0;
      packed := strings.PackRecord(row, lowered, ext, hint);
      GrowthKeepsSlots(was, strings.View(), blocks.recs, blocks.metas, rows);
      if packed.Ok? {
        RowBytesArePositive(strings.View(), packed.value);
        PackedSlot(lower, strings.View(), packed.value, row);
        bytes := BytesOf(strings.View(), packed.value);
      }
    }

    method InternExtension(ext: Option<Text>, known: Option<map<Text, nat>>)
      returns (id: Result<nat, Overflow>, ids: Option<map<Text, nat>>)
      requires Faithful() && (known.Some? ==> IsExtensionMap(known.value, strings.extensions))
      modifies strings
      ensures Faithful() && strings.arenas == old(strings.arenas)
      ensures ids.Some? <==> known.Some?
      ensures ids.Some? ==> IsExtensionMap(ids.value, strings.extensions)
      ensures id.Ok? ==> ExtMeans(strings.extensions, id.value, ext)
      ensures strings.extensions == if id.Ok? then Interned(old(strings.extensions), ext) else old(strings.extensions)
      ensures |old(strings.extensions)| < NO_EXTENSION ==> id.Ok?
    {
      ghost var was := strings.View();
      id, ids := strings.InternExtension(ext, known);
      GrowthKeepsSlots(was, strings.View(), blocks.recs, blocks.metas, rows);
    }

    // ---------- reading ----------

    lemma {:induction false} SlotMeans(slot: nat)
      requires Faithful() && slot < |rows|
      ensures |blocks.recs| == |blocks.metas| == |rows|
      ensures SlotOk(strings.View(), blocks.recs[slot], blocks.metas[slot], rows[slot])
    {
    }

    method IdAt(slot: nat) returns (id: int)
      requires Faithful() && slot < |rows|
      ensures id == rows[slot].record.id
    {
      SlotMeans(slot);
      id := blocks.RecordAt(slot).id;
    }

    /** Binary search among strictly ascending ids. */
    method FindId(id: int) returns (slot: Option<nat>)
      requires Faithful() && idsSorted
      ensures IsSlot(rows, id, slot)
    {
      var low: nat, high: nat := 0, physicalLen;
      while low < high
        invariant low <= high <= |rows|
        invariant forall i :: 0 <= i < low ==> rows[i].record.id < id
        invariant forall i :: high <= i < |rows| ==> rows[i].record.id > id
      {
        var middle := low + (high - low) / 2;
        var found := IdAt(middle);
        if found < id {
          low := middle + 1;
        } else if found > id {
          high := middle;
        } else {
          return Some(middle);
        }
      }
      return None;
    }

    /** `same_strings`, with the path compared where it is split. */
    method SameStrings(slot: nat, row: Row, lowered: Text) returns (same: bool)
      requires Faithful() && slot < |rows|
      ensures same <==> TextsOfRecord(rows[slot].record) == Texts(row.path, lowered, row.basename, row.basenameLower)
    {
      SlotMeans(slot);
      var packed := blocks.RecordAt(slot);
      var store := strings.View();
      var suffix, arena := PathSuffix(store, packed), store.arenas[packed.arena];
      var stored := Ordering.PathView(packed.prefix, PrefixText(store, packed), Read(arena, suffix));
      var order := Ordering.ComparePaths(stored, Ordering.PathView(-1, [], row.path));
      Ordering.CompareEqual(stored.Whole(), row.path);
      assert [] + row.path == row.path;
      same := order == Ordering.Equal && Read(arena, packed.pathLower) == lowered
        && Read(arena, packed.BasenameSlice(suffix)) == row.basename && Read(arena,
            packed.BasenameLowerSlice(suffix)) == row.basenameLower;
    }

    /** `optional_metadata` */
    function OptionalMetadata(slot: nat, packed: Packed, field: nat): Option<int>
      requires blocks.Valid() && slot < |blocks.recs| && field < FIELDS
      reads this, blocks, blocks.repr
    {
      if field in packed.present then Some(blocks.ValueAt(slot, field)) else None
    }

    /** The record of a slot, decoded from the arenas, the dictionaries and the metadata. */
    method ToFileRecord(slot: nat) returns (record: FileRecord)
      requires Faithful() && slot < |rows|
      ensures record == rows[slot].record
    {
      SlotMeans(slot);
      var packed := blocks.RecordAt(slot);
      var store := strings.View();
      var texts := TextsOf(store, packed);
      record := FileRecord(packed.id, texts.path, texts.pathLower, texts.basename, texts.basenameLower,
                           ExtText(store, packed), packed.kind,
                           OptionalMetadata(slot, packed, 0), OptionalMetadata(slot, packed, 1), OptionalMetadata(slot,
                               packed, 2),
                           OptionalMetadata(slot, packed, 3), OptionalMetadata(slot, packed, 4), blocks.ValueAt(slot,
                               5));
    }

    // ---------- the preflight of a delta ----------

    /** The plan for one change; nothing is mutated. */
    method PlanChange(change: FileChange) returns (plan: Preflight<Item>)
      requires Faithful() && idsSorted
      requires change.record.Some? ==> change.record.value.id == change.id
      ensures plan.Go? ==> Planned(lower, rows, change, plan.value)
      ensures plan.Reload? ==> plan.reason == NonMonotonicId && InsertsBelow(rows, change)
      ensures plan.Stop? ==>
                && plan.failure == TooLarge
                && change.record.Some?
                && !FitsLayout(FieldsOf(lower, Borrow(change.record.value)))
    {
      var slot := FindId(change.id);
      if change.record.None? {
        return Go(Item(slot, None));
      }
      if slot.None? && physicalLen > 0 {
        var last := IdAt(physicalLen - 1);
        if change.id < last {
          return Reload(NonMonotonicId);
        }
      }
      var text := PlanText(slot, Borrow(change.record.value));
      if text.Err? {
        return Stop(TooLarge);
      }
      return Go(Item(slot, text.value));
    }

    /** The lowercase path of a row whose strings must be packed. */
    method PlanText(slot: Option<nat>, row: Row) returns (text: Result<Option<Text>, Overflow>)
      requires Faithful() && (slot.Some? ==> slot.value < |rows|)
      ensures text.Err? ==> !FitsLayout(FieldsOf(lower, row))
      ensures text.Ok? && text.value.Some? ==> text.value.value == Effective(lower, row)
      ensures text.Ok? ==> (text.value.None? <==>
          && slot.Some?
          && TextsOfRecord(rows[slot.value].record) == Texts(row.path, Effective(lower, row), row.basename,
                                                             row.basenameLower))
    {
      var lowered := NewRowText(lower, row);
      if lowered.Err? {
        return Err(lowered.error);
      }
      var same := false;
      if slot.Some? {
        same := SameStrings(slot.value, row, lowered.value);
      }
      return Ok(if same then None else Some(lowered.value));
    }

    /** The books of the preflight. Nothing is taken off that is not on them. */
    method Book(ledger: Ledger, removes: bool, item: Item) returns (next: Ledger)
      requires Faithful() && (item.slot.Some? ==> item.slot.value < |rows| && OnTheBooks(ledger, rows[item.slot.value]))
      ensures next == Booked(ledger, EntryAt(rows, item.slot), removes, item.text.None?)
    {
      next := ledger;
      var f := ledger.f;
      if item.slot.None? {
        return if removes then ledger else Ledger(f, ledger.len + 1);
      }
      SlotMeans(item.slot.value);
      var was := blocks.RecordAt(item.slot.value);
      var bytes := BytesOf(strings.View(), was);
      if removes {
        if was.IsLive() {
          assert ledger.len >= 1;
          next := Ledger(f.(deadRecords := f.deadRecords + 1, deadStringBytes := f.deadStringBytes + bytes),
                         ledger.len - 1);
        }
      } else if !was.IsLive() {
        assert f.deadRecords >= 1 && f.deadStringBytes >= bytes;
        next := Ledger(f.(deadRecords := f.deadRecords - 1,
                          deadStringBytes := f.deadStringBytes - if item.text.None? then bytes else 0),
                       ledger.len + 1);
      } else if item.text.Some? {
        next := ledger.(f := f.(deadStringBytes := f.deadStringBytes + bytes));
      }
    }

    /** One more change of the preflight. */
    method PlanNext(changes: seq<FileChange>, k: nat, items: seq<Item>, ledger: Ledger, ghost rehearsed: seq<Entry>)
      returns (plan: Preflight<Item>, next: Ledger, ghost after: seq<Entry>)
      requires Faithful() && idsSorted && k < |changes|
      requires Progress(lower, rows, changes, k, items, Ledger(fragmentation, len), ledger, rehearsed,
                        TotalBytes(strings.arenas))
      ensures plan.Go? ==>
                Progress(lower, rows, changes, k + 1, items + [plan.value], Ledger(fragmentation, len), next, after,
                         TotalBytes(strings.arenas))
      ensures plan.Reload? ==> plan.reason == NonMonotonicId && InsertsBelow(rows, changes[k])
      ensures plan.Stop? ==> Rejected(lower, changes, k, plan.failure)
    {
      next, after := ledger, rehearsed;
      var change := changes[k];
      if k > 0 && changes[k - 1].id >= change.id {
        return Stop(UnorderedIds), next, after;
      }
      if change.record.Some? && change.record.value.id != change.id {
        return Stop(ForeignId), next, after;
      }
      plan := PlanChange(change);
      if plan.Go? {
        ghost var first, total := Ledger(fragmentation, len), TotalBytes(strings.arenas);
        ProgressCovers(lower, rows, changes, k, items, first, ledger, rehearsed, total, plan.value.slot);
        next := Book(ledger, change.record.None?, plan.value);
        after := ProgressNext(lower, rows, changes, k, items, first, ledger, rehearsed, total, plan.value, next);
      }
    }

    /** The plan for all changes, with the books and the extensions they would leave. */
    method PlanAll(changes: seq<FileChange>, start: Planning)
      returns (plan: Preflight<Planning>, ghost rehearsed: seq<Entry>)
      requires Faithful() && idsSorted && PlanningTo(changes, 0, start, rows)
      ensures plan.Go? ==> PlanningTo(changes, |changes|, plan.value, rehearsed)
      ensures plan.Reload? ==> plan.reason == NonMonotonicId && SomeInsertsBelow(rows, changes)
      ensures plan.Stop? ==> SomeRejected(lower, changes, plan.failure)
    {
      rehearsed := rows;
      plan := Go(start);
      var k := 0;
      while k < |changes| && plan.Go?
        invariant k <= |changes|
        invariant plan.Go? ==> PlanningTo(changes, k, plan.value, rehearsed)
        invariant plan.Reload? ==> plan.reason == NonMonotonicId && SomeInsertsBelow(rows, changes)
        invariant plan.Stop? ==> SomeRejected(lower, changes, plan.failure)
      {
        plan, rehearsed := PlanStep(changes, k, plan.value, rehearsed);
        k := k + 1;
      }
    }

    lemma {:induction false} PlanningStarts(changes: seq<FileChange>)
      requires Valid() && idsSorted
      ensures PlanningTo(changes, 0, Planning([], Ledger(fragmentation, len), 0, {}), rows)
    {
      RunStarts(lower, rows, changes);
    }

    lemma {:induction false} PlanningEnds(changes: seq<FileChange>, limits: DeltaLimits, plan: Planning,
                                          rehearsed: seq<Entry>)
      requires Ascending(rows) && PlanningTo(changes, |changes|, plan, rehearsed)
      ensures IsPlanning(lower, rows, strings.extensions, Ledger(fragmentation, len), changes, plan)
      ensures Refusal(lower, rows, strings.extensions, Ledger(fragmentation, len), changes, limits)
           == Judge(plan.ledger, plan.growth, |strings.extensions| + |plan.brought|, limits)
    {
      PlanningDecides(lower, rows, strings.extensions, Ledger(fragmentation, len), changes, limits, plan);
    }

    /** One more change, with what it books and brings. */
    method PlanStep(changes: seq<FileChange>, k: nat, sofar: Planning, ghost rehearsed: seq<Entry>)
      returns (plan: Preflight<Planning>, ghost after: seq<Entry>)
      requires Faithful() && idsSorted && k < |changes| && PlanningTo(changes, k, sofar, rehearsed)
      ensures plan.Go? ==> PlanningTo(changes, k + 1, plan.value, after)
      ensures plan.Reload? ==> plan.reason == NonMonotonicId && InsertsBelow(rows, changes[k])
      ensures plan.Stop? ==> Rejected(lower, changes, k, plan.failure)
    {
      var next, ledger;
      next, ledger, after := PlanNext(changes, k, sofar.items, sofar.ledger, rehearsed);
      match next
      case Reload(reason) => plan := Reload(reason);
      case Stop(failure) => plan := Stop(failure);
      case Go(item) =>
        var brought, growth := BringExtension(changes, k, sofar.brought, sofar.growth);
        plan := Go(Planning(sofar.items + [item], ledger, growth, brought));
    }

    /** The preflight after `k` changes. */
    ghost predicate PlanningTo(changes: seq<FileChange>, k: nat, plan: Planning, rehearsed: seq<Entry>)
      reads this, strings
    {
      && k <= |changes|
      && Progress(lower, rows, changes, k, plan.items, Ledger(fragmentation, len), plan.ledger, rehearsed,
                  TotalBytes(strings.arenas))
      && plan.brought == NewExtensions(strings.extensions, changes, k)
      && plan.growth == Growth(strings.extensions, changes, k)
    }

    /** An extension that is neither in the dictionary nor brought before. */
    method BringExtension(changes: seq<FileChange>, k: nat, before: set<Text>, bytes: nat)
      returns (brought: set<Text>, growth: nat)
      requires k < |changes| && before == NewExtensions(strings.extensions, changes, k)
      requires bytes == Growth(strings.extensions, changes, k)
      ensures brought == NewExtensions(strings.extensions, changes, k + 1)
      ensures growth == Growth(strings.extensions, changes, k + 1)
    {
      brought, growth := before, bytes;
      if changes[k].record.Some? && changes[k].record.value.extLower.Some? {
        var ext := changes[k].record.value.extLower.value;
        if ext !in strings.extensions && ext !in before {
          growth := bytes + |ext| + BOX_SIZE;
          brought := before + {ext};
        }
      }
    }

    /** Every reason for a clean fallback is found before anything is mutated. */
    method Plan(changes: seq<FileChange>, limits: DeltaLimits) returns (plan: Preflight<Planning>)
      requires Valid()
      ensures plan.Go? ==>
                |strings.extensions| + |plan.value.brought| < NO_EXTENSION && KeepsLimits(Settled(plan.value), limits)
      ensures plan.Go? ==>
                && idsSorted
                && IsPlanning(lower, rows, strings.extensions, Ledger(fragmentation, len), changes, plan.value)
      ensures plan.Go? || (plan.Reload? && IsBudget(plan.reason)) ==>
          Refusal(lower, rows, strings.extensions, Ledger(fragmentation, len), changes, limits) == RefusedFor(plan)
      ensures plan.Reload? && plan.reason == NonMonotonicId ==> SomeInsertsBelow(rows, changes)
      ensures plan.Reload? && plan.reason == RecordOrder ==> !Ascending(rows)
      ensures plan.Stop? ==> SomeRejected(lower, changes, plan.failure)
    {
      if !idsSorted {
        return Reload(RecordOrder);
      }
      PlanningStarts(changes);
      ghost var rehearsed: seq<Entry>;
      plan, rehearsed := PlanAll(changes, Planning([], Ledger(fragmentation, len), 0, {}));
      if plan.Go? {
        plan := Decide(changes, limits, plan.value, rehearsed);
      }
    }

    /** The budgets, in the order in which they are checked. */
    method Decide(changes: seq<FileChange>, limits: DeltaLimits, found: Planning, ghost rehearsed: seq<Entry>)
      returns (plan: Preflight<Planning>)
      requires Faithful() && idsSorted && PlanningTo(changes, |changes|, found, rehearsed)
      ensures plan.Go? ==> plan.value == found && |strings.extensions| + |found.brought| < NO_EXTENSION
      ensures plan.Go? ==> KeepsLimits(Settled(found), limits)
      ensures plan.Go? || (plan.Reload? && IsBudget(plan.reason))
      ensures IsPlanning(lower, rows, strings.extensions, Ledger(fragmentation, len), changes, found)
      ensures Refusal(lower, rows, strings.extensions, Ledger(fragmentation, len), changes, limits) == RefusedFor(plan)
    {
      PlanningEnds(changes, limits, found, rehearsed);
      var f := found.ledger.f;
      if f.deadRecords > limits.deadRecords {
        return Reload(TombstoneBudget);
      }
      if f.deadStringBytes > limits.deadStrings {
        return Reload(DeadStringBudget);
      }
      if f.extensionGrowthBytes + found.growth > limits.extensionGrowth {
        return Reload(ExtensionGrowthBudget);
      }
      if |strings.extensions| + |found.brought| >= NO_EXTENSION {
        return Reload(ExtensionCapacity);
      }
      return Go(found);
    }

    // ---------- the application of a delta ----------

    /** One planned change. */
    method ApplyPlanned(change: FileChange, item: Item) returns (done: Result<(), Overflow>)
      requires Faithful() && Planned(lower, rows, change, item)
      modifies this`len, this`physicalLen, this`idsSorted, this`rows, strings, strings.prefixes, blocks, blocks.repr
      ensures fresh(blocks.repr - old(blocks.repr))
      ensures done.Ok? ==> Faithful() && IsStep(lower, old(rows), change, item.slot, rows)
      ensures done.Ok? ==>
                PackedBytes(old(rows), change, item, rows, TotalBytes(strings.arenas) - TotalBytes(old(strings.arenas)))
      ensures |strings.arenas| <= |old(strings.arenas)| + 1
      ensures done.Ok? ==> strings.extensions == Interned(old(strings.extensions), ExtensionOf(change))
      ensures Allows(lower, change, old(strings.arenas), strings.arenaBytes, old(strings.extensions)) ==> done.Ok?
    {
      if change.record.None? {
        if item.slot.Some? {
          Tombstone(item.slot.value);
        }
        return Ok(());
      }
      var row := Borrow(change.record.value);
      var ext, _ := InternExtension(row.extLower, None);
      if ext.Err? {
        return Err(ext.error);
      }
      if item.text.None? {
        Refresh(item.slot.value, row, ext.value);
        return Ok(());
      }
      ghost var bytes: nat;
      done, bytes := Repack(item.slot, row, item.text.value, ext.value);
    }

    /** Packing the strings of a row for its slot, or for a new slot at the end. */
    method Repack(slot: Option<nat>, row: Row, lowered: Text, ext: nat)
      returns (done: Result<(), Overflow>, ghost bytes: nat)
      requires Faithful() && lowered == Effective(lower, row) && ExtMeans(strings.extensions, ext, row.extLower)
      requires slot.Some? ==> slot.value < |rows| && rows[slot.value].record.id == row.id
      modifies this`len, this`physicalLen, this`idsSorted, this`rows, strings, strings.prefixes, blocks, blocks.repr
      ensures fresh(blocks.repr - old(blocks.repr))
      ensures done.Ok? ==> Faithful() && bytes == TotalBytes(strings.arenas) - TotalBytes(old(strings.arenas))
      ensures done.Ok? ==> rows == Placed(old(rows), slot, Entry(Decode(lower, row), bytes, true))
      ensures |strings.arenas| <= |old(strings.arenas)| + 1 && strings.extensions == old(strings.extensions)
      ensures CanTake(old(strings.arenas), strings.arenaBytes, 1) && IsModerate(lowered, row) ==> done.Ok?
    {
      var packed: Result<Packed, Overflow>;
      packed, bytes := Pack(row, lowered, ext, None);
      if packed.Err? {
        return Err(packed.error), bytes;
      }
      ghost var entry := Entry(Decode(lower, row), bytes, true);
      if slot.Some? {
        SetRow(slot.value, packed.value, InputOf(row), entry);
      } else {
        Append(packed.value, InputOf(row), entry);
      }
      return Ok(()), bytes;
    }

    /** Same strings: metadata, kind, extension and liveness are replaced in place. */
    method Refresh(slot: nat, row: Row, ext: nat)
      requires Faithful() && slot < |rows| && rows[slot].record.id == row.id
      requires ExtMeans(strings.extensions, ext, row.extLower)
      requires TextsOfRecord(rows[slot].record)
               == Texts(row.path, Effective(lower, row), row.basename, row.basenameLower)
      modifies this`rows, blocks, blocks.repr
      ensures Faithful() && blocks.repr == old(blocks.repr)
      ensures rows == old(rows)[slot := Entry(Decode(lower, row), old(rows)[slot].bytes, true)]
    {
      SlotMeans(slot);
      var packed := blocks.RecordAt(slot);
      RefreshedSlot(lower, strings.View(), packed, blocks.metas[slot], rows[slot], row, ext);
      var after := packed.(id := row.id, kind := row.kind, ext := ext, present := PresentOf(InputOf(row)));
      SetRow(slot, after, InputOf(row), Entry(Decode(lower, row), rows[slot].bytes, true));
    }

    /** One step of the run over the planned changes. */
    method ApplyNext(ghost start: seq<Entry>, changes: seq<FileChange>, items: seq<Item>, ghost first: Ledger, k: nat,
                     ghost begun: Means)
      returns (done: Result<(), Overflow>)
      requires k < |changes| && begun.arenaBytes == strings.arenaBytes
      requires OnTrack(begun, changes, k, strings.arenas, strings.extensions)
      requires Faithful() && k < |changes| && PlannedTo(lower, start, changes, items, |changes|)
      requires AppliedTo(lower, start, changes, items, first, k, rows, TotalBytes(strings.arenas))
      modifies this`len, this`physicalLen, this`idsSorted, this`rows, strings, strings.prefixes, blocks, blocks.repr
      ensures fresh(blocks.repr - old(blocks.repr))
      ensures done.Ok? ==>
                Faithful() && AppliedTo(lower, start, changes, items, first, k + 1, rows, TotalBytes(strings.arenas))
      ensures done.Ok? ==> OnTrack(begun, changes, k + 1, strings.arenas, strings.extensions)
      ensures Suffices(lower, changes, begun) ==> done.Ok?
    {
      ghost var was, total := rows, TotalBytes(strings.arenas);
      TrackAllows(lower, changes, begun, k, strings.arenas, strings.extensions);
      ghost var arenas, extensions := strings.arenas, strings.extensions;
      assert Planned(lower, start, changes[k], items[k]);
      PlanStays(lower, start, changes, k, rows, items[k]);
      done := ApplyPlanned(changes[k], items[k]);
      if done.Ok? {
        TrackNext(changes, begun, k, arenas, extensions, strings.arenas, strings.extensions);
        AppliedNext(lower, start, changes, items, first, k, was, rows, total, TotalBytes(strings.arenas));
      }
    }

    /** `apply_changes_with_limits`: an applied delta leaves exactly the view that the changes
        describe and ids strictly ascending, with the books in balance. A clean fallback leaves
        everything as it was, and so does a malformed batch. */
    method ApplyChangesWithLimits(changes: seq<FileChange>, limits: DeltaLimits)
      returns (outcome: Result<Outcome, ApplyError>)
      requires Valid()
      modifies this, strings, strings.prefixes, blocks, blocks.repr
      ensures fresh(blocks.repr - old(blocks.repr))
      ensures outcome == Ok(Applied) ==> Valid() && Ascending(rows) && View() == ApplyAll(lower, old(View()), changes)
      ensures outcome == Ok(Applied) ==> AscendingChanges(changes) && OwnIds(changes)
      ensures outcome == Ok(Applied) ==> KeepsLimits(fragmentation, limits)
      ensures outcome.Err? ==> IsFault(lower, changes, outcome.error, old(strings.arenas), strings.arenaBytes)
      ensures outcome.Ok? && outcome.value.NeedsFullReload? ==>
                Valid() && unchanged(this, strings, strings.prefixes, blocks) && unchanged(old(blocks.repr))
      ensures outcome == Ok(NeedsFullReload(NonMonotonicId)) ==> SomeInsertsBelow(old(rows), changes)
      ensures outcome == Ok(NeedsFullReload(RecordOrder)) ==> !Ascending(old(rows))
      ensures Ascending(old(rows)) && Acceptable(lower, old(rows), changes) ==>
          AsRefused(outcome,
                    Refusal(lower, old(rows), old(strings.extensions), Ledger(old(fragmentation), old(len)), changes,
                            limits),
                    IsAmple(lower, changes, old(strings.arenas), strings.arenaBytes))
      ensures !AscendingChanges(changes) || !OwnIds(changes) ==>
                Valid() && unchanged(this, strings, strings.prefixes, blocks) && unchanged(old(blocks.repr))
    {
      var plan := Plan(changes, limits);
      ghost var refusal := Refusal(lower, rows, strings.extensions, Ledger(fragmentation, len), changes, limits);
      AcceptableIsAnswered(lower, rows, changes, plan, refusal);
      if plan.Reload? {
        return Ok(NeedsFullReload(plan.reason));
      }
      if plan.Stop? {
        RejectedIsFault(lower, changes, plan.failure, strings.arenas, strings.arenaBytes);
        return Err(plan.failure);
      }
      PlanIsOrdered(lower, rows, changes, plan.value.items);
      outcome := ApplyPlan(changes, plan.value);
    }

    /** Applying a plan and taking over its books. */
    method ApplyPlan(changes: seq<FileChange>, plan: Planning) returns (outcome: Result<Outcome, ApplyError>)
      requires Valid() && idsSorted
      requires IsPlanning(lower, rows, strings.extensions, Ledger(fragmentation, len), changes, plan)
      modifies this, strings, strings.prefixes, blocks, blocks.repr
      ensures fresh(blocks.repr - old(blocks.repr))
      ensures if outcome.Ok? then outcome.value == Applied else outcome.error == TooLarge
      ensures Suffices(lower, changes, Means(old(strings.arenas), strings.arenaBytes, old(strings.extensions))) ==>
                outcome.Ok?
      ensures outcome.Ok? ==> Valid() && Ascending(rows) && ViewOf(rows) == ApplyAll(lower, ViewOf(old(rows)), changes)
      ensures outcome.Ok? ==> fragmentation == Settled(plan)
    {
      ghost var start, first := rows, Ledger(fragmentation, len);
      RunStarts(lower, start, changes);
      var done := ApplyItems(changes, plan.items, first);
      if done.Err? {
        return Err(TooLarge);
      }
      RunEnds(lower, start, changes, rows);
      Settle(plan);
      return Ok(Applied);
    }

    method ApplyItems(changes: seq<FileChange>, items: seq<Item>, ghost first: Ledger)
      returns (done: Result<(), Overflow>)
      requires Faithful() && PlannedTo(lower, rows, changes, items, |changes|)
      requires AppliedTo(lower, rows, changes, items, first, 0, rows, TotalBytes(strings.arenas))
      modifies this`len, this`physicalLen, this`idsSorted, this`rows, strings, strings.prefixes, blocks, blocks.repr
      ensures fresh(blocks.repr - old(blocks.repr))
      ensures done.Ok? ==>
                && Faithful()
                && AppliedTo(lower, old(rows), changes, items, first, |changes|, rows, TotalBytes(strings.arenas))
      ensures Suffices(lower, changes, Means(old(strings.arenas), strings.arenaBytes, old(strings.extensions))) ==>
                done.Ok?
    {
      ghost var start, begun := rows, Means(strings.arenas, strings.arenaBytes, strings.extensions);
      TrackStarts(changes, begun);
      done := Ok(());
      var k := 0;
      while k < |changes| && done.Ok?
        invariant k <= |changes| && fresh(blocks.repr - old(blocks.repr))
        invariant done.Ok? ==> Faithful()
        invariant done.Ok? ==> AppliedTo(lower, start, changes, items, first, k, rows, TotalBytes(strings.arenas))
        invariant done.Ok? ==> OnTrack(begun, changes, k, strings.arenas, strings.extensions)
        invariant Suffices(lower, changes, begun) ==> done.Ok?
      {
        ghost var parts := blocks.repr;
        done := ApplyNext(start, changes, items, first, k, begun);
        assert blocks.repr - old(blocks.repr) <= (blocks.repr - parts) + (parts - old(blocks.repr));
        k := k + 1;
      }
    }

    method Settle(plan: Planning)
      requires Faithful() && Books(rows, plan.ledger.f, plan.ledger.len, TotalBytes(strings.arenas))
      modifies this`len, this`fragmentation
      ensures Valid() && fragmentation == Settled(plan)
    {
      len := plan.ledger.len;
      fragmentation := Settled(plan);
    }

    /** `apply_changes` */
    method ApplyChanges(changes: seq<FileChange>) returns (outcome: Result<Outcome, ApplyError>)
      requires Valid()
      modifies this, strings, strings.prefixes, blocks, blocks.repr
      ensures fresh(blocks.repr - old(blocks.repr))
      ensures outcome == Ok(Applied) ==>
                && fragmentation.deadRecords <= Max(1024, |old(rows)| / 20) && fragmentation.deadRecords <= 65536
                && fragmentation.deadStringBytes <= 32 * 1024 * 1024
                && fragmentation.extensionGrowthBytes <= 4 * 1024 * 1024
      ensures outcome.Err? ==> IsFault(lower, changes, outcome.error, old(strings.arenas), strings.arenaBytes)
      ensures outcome == Ok(Applied) ==> Valid() && Ascending(rows) && View() == ApplyAll(lower, old(View()), changes)
      ensures outcome.Ok? && outcome.value.NeedsFullReload? ==>
                Valid() && unchanged(this, strings, strings.prefixes, blocks) && unchanged(old(blocks.repr))
      ensures outcome == Ok(NeedsFullReload(NonMonotonicId)) ==> SomeInsertsBelow(old(rows), changes)
      ensures outcome == Ok(NeedsFullReload(RecordOrder)) ==> !Ascending(old(rows))
      ensures Ascending(old(rows)) && Acceptable(lower, old(rows), changes) ==>
          AsRefused(outcome,
                    Refusal(lower, old(rows), old(strings.extensions), Ledger(old(fragmentation), old(len)), changes,
                            DefaultLimits(|old(rows)|)),
                    IsAmple(lower, changes, old(strings.arenas), strings.arenaBytes))
      ensures !AscendingChanges(changes) || !OwnIds(changes) ==>
                Valid() && unchanged(this, strings, strings.prefixes, blocks) && unchanged(old(blocks.repr))
    {
      outcome := ApplyChangesWithLimits(changes, DefaultLimits(physicalLen));
    }
  }

  lemma {:induction false} PlanIsOrdered(lower: Lowercase, rows: seq<Entry>, changes: seq<FileChange>, items: seq<Item>)
    requires PlannedTo(lower, rows, changes, items, |changes|)
    ensures AscendingChanges(changes) && OwnIds(changes)
  {
    forall j | 0 <= j < |changes| && changes[j].record.Some? ensures changes[j].record.value.id == changes[j].id {
      assert Planned(lower, rows, changes[j], items[j]);
    }
  }

  function DefaultLimits(physicalLen: nat): DeltaLimits {
    DeltaLimits(MAX_DEAD_STRING_BYTES, Min(Max(physicalLen / 20, 1024), 65536), MAX_EXTENSION_GROWTH_BYTES)
  }

  // ---------- when a delta is refused ----------

  predicate IsBudget(reason: Reason) {
    reason != RecordOrder && reason != NonMonotonicId
  }

  /** Extensions that the first `k` changes bring and the dictionary does not have. */
  function NewExtensions(extensions: seq<Text>, changes: seq<FileChange>, k: nat): set<Text>
    requires k <= |changes|
  {
    if k == 0 then {} else NewExtensions(extensions, changes, k - 1) + Brought(extensions, changes[k - 1])
  }

  function Brought(extensions: seq<Text>, change: FileChange): set<Text> {
    if change.record.Some? && change.record.value.extLower.Some? && change.record.value.extLower.value !in extensions
    then {change.record.value.extLower.value} else {}
  }

  /** The bytes that the new extensions cost, each counted once. */
  function Growth(extensions: seq<Text>, changes: seq<FileChange>, k: nat): nat
    requires k <= |changes|
  {
    if k == 0 then 0
    else if Brought(extensions, changes[k - 1]) <= NewExtensions(extensions, changes, k - 1) then Growth(extensions,
        changes, k - 1)
    else Growth(extensions, changes, k - 1) + |changes[k - 1].record.value.extLower.value| + BOX_SIZE
  }

  /** The first budget that is exceeded. */
  function Judge(last: Ledger, growth: nat, extensions: nat, limits: DeltaLimits): (reason: Option<Reason>)
    ensures reason.Some? ==> IsBudget(reason.value)
  {
    if last.f.deadRecords > limits.deadRecords then Some(TombstoneBudget)
    else if last.f.deadStringBytes > limits.deadStrings then Some(DeadStringBudget)
    else if last.f.extensionGrowthBytes + growth > limits.extensionGrowth then Some(ExtensionGrowthBudget)
    else if extensions >= NO_EXTENSION then Some(ExtensionCapacity)
    else None
  }

  /** The books that a plan leaves. */
  function Settled(plan: Planning): Fragmentation {
    plan.ledger.f.(extensionGrowthBytes := plan.ledger.f.extensionGrowthBytes + plan.growth)
  }

  predicate KeepsLimits(f: Fragmentation, limits: DeltaLimits) {
    && f.deadRecords <= limits.deadRecords && f.deadStringBytes <= limits.deadStrings
    && f.extensionGrowthBytes <= limits.extensionGrowth
  }

  /** The budget that a batch exceeds, if any: the dead records, dead bytes and extension bytes that
      it would leave, and the size of the extension dictionary. */
  ghost function Refusal(lower: Lowercase, rows: seq<Entry>, extensions: seq<Text>, first: Ledger,
                         changes: seq<FileChange>, limits: DeltaLimits): Option<Reason> {
    Judge(LedgerOf(lower, rows, changes, first, |changes|), Growth(extensions, changes, |changes|),
          |extensions| + |NewExtensions(extensions, changes, |changes|)|, limits)
  }

  ghost predicate IsPlanning(lower: Lowercase, rows: seq<Entry>, extensions: seq<Text>, first: Ledger,
                             changes: seq<FileChange>, plan: Planning) {
    && PlannedTo(lower, rows, changes, plan.items, |changes|)
    && plan.ledger == LedgerAt(rows, changes, plan.items, first, |changes|)
    && plan.growth == Growth(extensions, changes, |changes|)
    && plan.brought == NewExtensions(extensions, changes, |changes|)
  }

  lemma {:induction false} PlanningDecides(lower: Lowercase, rows: seq<Entry>, extensions: seq<Text>, first: Ledger,
                                           changes: seq<FileChange>,
                                           limits: DeltaLimits, plan: Planning)
    requires Ascending(rows) && IsPlanning(lower, rows, extensions, first, changes, plan)
    ensures Refusal(lower, rows, extensions, first, changes, limits)
         == Judge(plan.ledger, plan.growth, |extensions| + |plan.brought|, limits)
  {
    LedgerIsDetermined(lower, rows, changes, plan.items, first, |changes|);
  }

  function RefusedFor<T>(plan: Preflight<T>): Option<Reason> {
    if plan.Reload? then Some(plan.reason) else None
  }

  /** A refused batch is refused for that reason; any other is applied. Where room is scarce it may turn
      out too large instead. */
  predicate AsRefused(outcome: Result<Outcome, ApplyError>, refusal: Option<Reason>, ample: bool) {
    if refusal.Some? then outcome == Ok(NeedsFullReload(refusal.value))
    else outcome == Ok(Applied) || (!ample && outcome == Err(TooLarge))
  }

  // ---------- when a delta fits ----------

  function ExtensionOf(change: FileChange): Option<Text> {
    if change.record.Some? then change.record.value.extLower else None
  }

  /** The dictionary after an extension has been looked up. */
  function Interned(extensions: seq<Text>, ext: Option<Text>): seq<Text> {
    if ext.None? || ext.value in extensions then extensions else extensions + [ext.value]
  }

  /** The dictionary after the extensions of the first `k` changes. */
  function InternedAll(first: seq<Text>, changes: seq<FileChange>, k: nat): seq<Text>
    requires k <= |changes|
  {
    if k == 0 then first else Interned(InternedAll(first, changes, k - 1), ExtensionOf(changes[k - 1]))
  }

  ghost predicate IsModerateChange(lower: Lowercase, change: FileChange) {
    change.record.Some? ==> IsModerate(Effective(lower, Borrow(change.record.value)), Borrow(change.record.value))
  }

  /** What a caller can check before a batch: arenas stay below 4 GiB, each change can have an arena of its
      own, and the four texts of each record fit 32 bits. */
  ghost predicate IsAmple(lower: Lowercase, changes: seq<FileChange>, arenas: seq<Text>, arenaBytes: nat) {
    CanTake(arenas, arenaBytes, |changes|) && forall k :: 0 <= k < |changes| ==> IsModerateChange(lower, changes[k])
  }

  /** An error is the fault of the batch, or of the lack of room. */
  ghost predicate IsFault(lower: Lowercase, changes: seq<FileChange>, error: ApplyError, arenas: seq<Text>,
                          arenaBytes: nat) {
    match error
    case UnorderedIds => !AscendingChanges(changes)
    case ForeignId => !OwnIds(changes)
    case TooLarge => !IsAmple(lower, changes, arenas, arenaBytes)
  }

  lemma {:induction false} RejectedIsFault(lower: Lowercase, changes: seq<FileChange>, failure: ApplyError,
                                           arenas: seq<Text>, arenaBytes: nat)
    requires SomeRejected(lower, changes, failure)
    ensures IsFault(lower, changes, failure, arenas, arenaBytes)
  {
    var k :| 0 <= k < |changes| && Rejected(lower, changes, k, failure);
    if failure.TooLarge? {
      AddedIsBounded(FieldsOf(lower, Borrow(changes[k].record.value)), 4);
      assert !IsModerateChange(lower, changes[k]);
    }
  }

  /** The dictionary has grown by nothing but what the first `k` changes bring. */
  ghost predicate Dictionary(first: seq<Text>, changes: seq<FileChange>, k: nat, extensions: seq<Text>)
    requires k <= |changes|
  {
    && (forall e :: e in first ==> e in extensions)
    && (forall e :: e in NewExtensions(first, changes, k) ==> e in extensions)
    && |extensions| <= |first| + |NewExtensions(first, changes, k)|
  }

  lemma {:induction false} DictionaryNext(first: seq<Text>, changes: seq<FileChange>, k: nat, was: seq<Text>,
                                          now: seq<Text>)
    requires k < |changes|
    requires now == Interned(was, ExtensionOf(changes[k])) && Dictionary(first, changes, k, was)
    ensures Dictionary(first, changes, k + 1, now)
  {
    var before, brought := NewExtensions(first, changes, k), Brought(first, changes[k]);
    assert NewExtensions(first, changes, k + 1) == before + brought;
    if now != was {
      var e := ExtensionOf(changes[k]).value;
      assert brought == {e} && e !in before;
    }
    SubsetSize(before, before + brought);
  }

  lemma {:induction false} InternedIsDictionary(first: seq<Text>, changes: seq<FileChange>, k: nat)
    requires k <= |changes|
    ensures Dictionary(first, changes, k, InternedAll(first, changes, k))
  {
    if k > 0 {
      InternedIsDictionary(first, changes, k - 1);
      DictionaryNext(first, changes, k - 1, InternedAll(first, changes, k - 1), InternedAll(first, changes, k));
    }
  }

  /** What a batch begins with. */
  datatype Means = Means(arenas: seq<Text>, arenaBytes: nat, extensions: seq<Text>)

  /** No change of the batch can run out of room. */
  ghost predicate Suffices(lower: Lowercase, changes: seq<FileChange>, begun: Means) {
    && IsAmple(lower, changes, begun.arenas, begun.arenaBytes)
    && |begun.extensions| + |NewExtensions(begun.extensions, changes, |changes|)| < NO_EXTENSION
  }

  ghost predicate Allows(lower: Lowercase, change: FileChange, arenas: seq<Text>, arenaBytes: nat,
                         extensions: seq<Text>) {
    CanTake(arenas, arenaBytes, 1) && |extensions| < NO_EXTENSION && IsModerateChange(lower, change)
  }

  /** After `k` changes no more has been used than one arena for each and the extensions they bring. */
  ghost predicate OnTrack(begun: Means, changes: seq<FileChange>, k: nat, arenas: seq<Text>, extensions: seq<Text>)
    requires k <= |changes|
  {
    |arenas| <= |begun.arenas| + k && extensions == InternedAll(begun.extensions, changes, k)
  }

  lemma {:induction false} TrackStarts(changes: seq<FileChange>, begun: Means)
    ensures OnTrack(begun, changes, 0, begun.arenas, begun.extensions)
  {
  }

  lemma {:induction false} TrackAllows(lower: Lowercase, changes: seq<FileChange>, begun: Means, k: nat,
                                       arenas: seq<Text>, extensions: seq<Text>)
    requires k < |changes| && OnTrack(begun, changes, k, arenas, extensions)
    ensures Suffices(lower, changes, begun) ==> Allows(lower, changes[k], arenas, begun.arenaBytes, extensions)
  {
    InternedIsDictionary(begun.extensions, changes, k);
    NewExtensionsGrow(begun.extensions, changes, k, |changes|);
  }

  lemma {:induction false} TrackNext(changes: seq<FileChange>, begun: Means, k: nat, arenas: seq<Text>,
                                     extensions: seq<Text>, arenas': seq<Text>, extensions': seq<Text>)
    requires k < |changes| && OnTrack(begun, changes, k, arenas, extensions) && |arenas'| <= |arenas| + 1
    requires extensions' == Interned(extensions, ExtensionOf(changes[k]))
    ensures OnTrack(begun, changes, k + 1, arenas', extensions')
  {
  }

  lemma {:induction false} NewExtensionsGrow(first: seq<Text>, changes: seq<FileChange>, k: nat, n: nat)
    requires k <= n <= |changes|
    ensures |NewExtensions(first, changes, k)| <= |NewExtensions(first, changes, n)|
    decreases n
  {
    if k < n {
      NewExtensionsGrow(first, changes, k, n - 1);
      SubsetSize(NewExtensions(first, changes, n - 1), NewExtensions(first, changes, n));
    }
  }

  /** A batch to which only the budgets can object. */
  ghost predicate Acceptable(lower: Lowercase, rows: seq<Entry>, changes: seq<FileChange>) {
    && AscendingChanges(changes) && OwnIds(changes)
    && forall k :: 0 <= k < |changes| ==> !InsertsBelow(rows, changes[k]) && Encodable(lower, changes[k])
  }

  ghost predicate Encodable(lower: Lowercase, change: FileChange) {
    change.record.Some? ==> FitsLayout(FieldsOf(lower, Borrow(change.record.value)))
  }

  /** On an acceptable batch the preflight answers with the refusal, if any. */
  lemma {:induction false} AcceptableIsAnswered(lower: Lowercase, rows: seq<Entry>, changes: seq<FileChange>,
                                                plan: Preflight<Planning>, refusal: Option<Reason>)
    requires plan.Go? || (plan.Reload? && IsBudget(plan.reason)) ==> refusal == RefusedFor(plan)
    requires plan.Reload? && plan.reason == NonMonotonicId ==> SomeInsertsBelow(rows, changes)
    requires plan.Reload? && plan.reason == RecordOrder ==> !Ascending(rows)
    requires plan.Stop? ==> SomeRejected(lower, changes, plan.failure)
    ensures Ascending(rows) && Acceptable(lower, rows, changes) ==> !plan.Stop? && refusal == RefusedFor(plan)
  {
    if Acceptable(lower, rows, changes) {
      forall k, failure | 0 <= k < |changes|
        ensures !InsertsBelow(rows, changes[k]) && !Rejected(lower, changes, k, failure)
      {
        assert Encodable(lower, changes[k]);
      }
    }
  }

  ghost function Placed(rows: seq<Entry>, slot: Option<nat>, entry: Entry): seq<Entry>
    requires slot.Some? ==> slot.value < |rows|
  {
    if slot.Some? then rows[slot.value := entry] else rows + [entry]
  }

  datatype Planning = Planning(items: seq<Item>, ledger: Ledger, growth: nat, brought: set<Text>)

  /** A change that ends the preflight with an error. */
  ghost predicate Rejected(lower: Lowercase, changes: seq<FileChange>, k: nat, failure: ApplyError)
    requires k < |changes|
  {
    match failure
    case UnorderedIds => k > 0 && changes[k - 1].id >= changes[k].id
    case ForeignId => changes[k].record.Some? && changes[k].record.value.id != changes[k].id
    case TooLarge => changes[k].record.Some? && !FitsLayout(FieldsOf(lower, Borrow(changes[k].record.value)))
  }

  ghost predicate SomeInsertsBelow(rows: seq<Entry>, changes: seq<FileChange>) {
    exists k :: 0 <= k < |changes| && InsertsBelow(rows, changes[k])
  }

  ghost predicate SomeRejected(lower: Lowercase, changes: seq<FileChange>, failure: ApplyError) {
    exists k :: 0 <= k < |changes| && Rejected(lower, changes, k, failure)
  }

  datatype Preflight<T> = Go(value: T) | Reload(reason: Reason) | Stop(failure: ApplyError)

  /** A new record whose id is below that of some slot. */
  ghost predicate InsertsBelow(rows: seq<Entry>, change: FileChange) {
    && change.record.Some? && IsSlot(rows, change.id, None)
    && exists i :: 0 <= i < |rows| && change.id < rows[i].record.id
  }

  /** An extension id stands for the extension. */
  ghost predicate ExtMeans(extensions: seq<Text>, id: nat, ext: Option<Text>) {
    if ext.None? then id == NO_EXTENSION else id < NO_EXTENSION && id < |extensions| && extensions[id] == ext.value
  }

  lemma {:induction false} SameIdsSameOrder(rows: seq<Entry>, slot: nat, entry: Entry)
    requires slot < |rows| && entry.record.id == rows[slot].record.id
    ensures Ascending(rows[slot := entry]) <==> Ascending(rows)
  {
    var after := rows[slot := entry];
    assert forall i :: 0 <= i < |rows| ==> after[i].record.id == rows[i].record.id;
  }

  lemma {:induction false} RowBytesArePositive(store: Store, p: Packed)
    requires Readable(store, p)
    ensures BytesOf(store, p) >= 0
  {
  }
}

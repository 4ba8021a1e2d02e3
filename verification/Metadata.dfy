/**
 Metadata blocks of the packed index (`MetadataBlock` and `NarrowMetadata`,
 `src/compact_index.rs`): six optional 64-bit values per row as 31-bit offsets from a base
 per field, with an escape table and an intrusive free list, widened at most once.
 */
module Metadata {
  import opened Common

  const FIELDS := 6
  const ESCAPED := 0x8000_0000
  const INLINE_SPAN := ESCAPED - 1

  type Values = s: seq<int> | |s| == FIELDS witness [0, 0, 0, 0, 0, 0]
  type Codes = s: seq<int> | |s| == FIELDS witness [0, 0, 0, 0, 0, 0]
  type Input = s: seq<Option<I64>> | |s| == FIELDS witness [None, None, None, None, None, None]

  const ZEROS: Values := [0, 0, 0, 0, 0, 0]

  /** Two's complement reduction to 64 bits (`wrapping_add`). */
  function Wrap(v: int): I64 {
    (v - I64_MIN) % 0x1_0000_0000_0000_0000 + I64_MIN
  }

  // ---------- the slots of the escape table ----------

  predicate IsEscaped(code: int) {
    code >= ESCAPED
  }

  datatype Cell = Cell(row: nat, field: nat)

  datatype Owner = Free(position: nat) | Owned(cell: Cell)

  /** The slot of every cell that holds an escaped code. */
  type Live = map<Cell, nat>

  ghost predicate OwnerOk(live: Live, free: seq<nat>, owner: Owner, slot: nat) {
    match owner
    case Free(i) => i < |free| && free[i] == slot
    case Owned(cell) => cell in live && live[cell] == slot
  }

  /** A vacant entry holds the next free index, or -1. The last of `free` is the head. */
  function Link(free: seq<nat>): int {
    if free == [] then -1 else free[|free| - 1]
  }

  /** Each slot is owned by exactly one live cell, or lies once on the free list. */
  ghost predicate Slots(live: Live, owners: seq<Owner>, free: seq<nat>) {
    && (forall c :: c in live ==> live[c] < |owners| && owners[live[c]] == Owned(c))
    && (forall s :: 0 <= s < |owners| ==> OwnerOk(live, free, owners[s], s))
    && (forall i :: 0 <= i < |free| ==> free[i] < |owners| && owners[free[i]] == Free(i))
  }

  ghost predicate Chained(escapes: seq<int>, free: seq<nat>) {
    forall i {:trigger escapes[free[i]]} :: 0 <= i < |free| ==>
        free[i] < |escapes| && escapes[free[i]] == Before(free, i)
  }

  /** The free index that the i-th vacant entry holds. */
  function Before(free: seq<nat>, i: nat): int
    requires i < |free|
  {
    if i == 0 then -1 else free[i - 1]
  }

  /** Every live cell but the given one still finds its value. */
  ghost predicate Undisturbed(live: Live, was: seq<int>, now: seq<int>, cell: Cell) {
    forall c :: c in live && c != cell ==> live[c] < |was| && live[c] < |now| && now[live[c]] == was[live[c]]
  }

  /** Releasing the slot of a cell puts it at the head of the free list. */
  lemma {:induction false} Release(live: Live, escapes: seq<int>, owners: seq<Owner>, free: seq<nat>, cell: Cell)
    requires Slots(live, owners, free) && Chained(escapes, free) && |owners| == |escapes| && cell in live
    ensures var s := live[cell];
            && s < |escapes| && Slots(live - {cell}, owners[s := Free(|free|)], free + [s])
            && Chained(escapes[s := Link(free)], free + [s])
            && Undisturbed(live, escapes, escapes[s := Link(free)], cell)
  {
    var s := live[cell];
    assert forall i :: 0 <= i < |free| ==> free[i] != s;
  }

  /** An escaped cell may overwrite the value in its own slot. */
  lemma {:induction false} PutInPlace(live: Live, escapes: seq<int>, owners: seq<Owner>, free: seq<nat>, cell: Cell,
                                      value: int)
    requires Slots(live, owners, free) && Chained(escapes, free) && |owners| == |escapes| && cell in live
    ensures var s := live[cell];
            && s < |escapes| && Chained(escapes[s := value], free)
            && Undisturbed(live, escapes, escapes[s := value], cell)
  {
  }

  /** Taking the head of the free list for a cell. */
  lemma {:induction false} TakeHead(live: Live, escapes: seq<int>, owners: seq<Owner>, free: seq<nat>, cell: Cell,
                                    value: int)
    requires Slots(live, owners, free) && Chained(escapes, free) && |owners| == |escapes| && cell !in live && free != []
    ensures var s, rest := free[|free| - 1], free[..|free| - 1];
            && s < |escapes| && escapes[s] == Link(rest)
            && Slots(live[cell := s], owners[s := Owned(cell)], rest)
            && Chained(escapes[s := value], rest)
            && Undisturbed(live, escapes, escapes[s := value], cell)
  {
    HeadLinks(live, escapes, owners, free);
    HeadUnlinked(owners, escapes, free, value, live);
    HeadTaken(live, owners, free, cell);
    HeadIsNobodys(live, escapes, owners, free, cell, value);
  }

  lemma {:induction false} HeadLinks(live: Live, escapes: seq<int>, owners: seq<Owner>, free: seq<nat>)
    requires Slots(live, owners, free) && Chained(escapes, free) && |owners| == |escapes| && free != []
    ensures var s, rest := free[|free| - 1], free[..|free| - 1]; s < |escapes| && escapes[s] == Link(rest)
  {
    var last := |free| - 1;
    assert owners[free[last]] == Free(last);
    assert escapes[free[last]] == Before(free, last);
  }

  lemma {:induction false} HeadUnlinked(owners: seq<Owner>, escapes: seq<int>, free: seq<nat>, value: int, live: Live)
    requires Slots(live, owners, free) && Chained(escapes, free) && |owners| == |escapes| && free != []
    ensures var s, rest := free[|free| - 1], free[..|free| - 1]; s < |escapes| && Chained(escapes[s := value], rest)
  {
    var s, rest := free[|free| - 1], free[..|free| - 1];
    assert owners[s] == Free(|free| - 1);
    forall i | 0 <= i < |rest| ensures rest[i] != s && rest[i] < |escapes| && escapes[rest[i]] == Before(rest, i) {
      assert rest[i] == free[i];
      assert owners[free[i]] == Free(i);
      assert escapes[free[i]] == Before(free, i);
    }
  }

  lemma {:induction false} HeadIsNobodys(live: Live, escapes: seq<int>, owners: seq<Owner>, free: seq<nat>, cell: Cell,
                                         value: int)
    requires Slots(live, owners, free) && |owners| == |escapes| && free != []
    ensures var s := free[|free| - 1]; s < |escapes| && Undisturbed(live, escapes, escapes[s := value], cell)
  {
    var s := free[|free| - 1];
    assert owners[s] == Free(|free| - 1);
  }

  lemma {:induction false} HeadTaken(live: Live, owners: seq<Owner>, free: seq<nat>, cell: Cell)
    requires Slots(live, owners, free) && cell !in live && free != []
    ensures var s, rest := free[|free| - 1], free[..|free| - 1];
            Slots(live[cell := s], owners[s := Owned(cell)], rest)
  {
    var s, rest := free[|free| - 1], free[..|free| - 1];
    assert owners[s] == Free(|free| - 1);
    assert forall i :: 0 <= i < |rest| ==> rest[i] == free[i] && owners[free[i]] == Free(i);
  }

  /** Growing the escape table by one slot for a cell. */
  lemma {:induction false} TakeNew(live: Live, escapes: seq<int>, owners: seq<Owner>, free: seq<nat>, cell: Cell,
                                   value: int)
    requires Slots(live, owners, free) && Chained(escapes, free) && |owners| == |escapes| && cell !in live
    ensures Slots(live[cell := |escapes|], owners + [Owned(cell)], free)
    ensures Chained(escapes + [value], free)
    ensures Undisturbed(live, escapes, escapes + [value], cell)
  {
  }

  // ---------- codes of one row ----------

  /** How many of the first `k` fields need an escape slot. */
  function NewEscapes(codes: seq<Option<int>>, k: nat): nat
    requires k <= |codes|
  {
    if k == 0 then 0 else NewEscapes(codes, k - 1) + if codes[k - 1].None? then 1 else 0
  }

  function OldEscapes(was: Codes, k: nat): nat
    requires k <= FIELDS
  {
    if k == 0 then 0 else OldEscapes(was, k - 1) + if IsEscaped(was[k - 1]) then 1 else 0
  }

  /** Fields that give their slot back. */
  function Released(codes: seq<Option<int>>, was: Codes, k: nat): nat
    requires k <= FIELDS == |codes|
  {
    if k == 0 then 0 else Released(codes, was, k - 1) + if IsEscaped(was[k - 1]) && codes[k - 1].Some? then 1 else 0
  }

  /** A field that needs a slot and has none. */
  predicate IsHomeless(codes: seq<Option<int>>, was: Codes, f: nat)
    requires f < FIELDS == |codes|
  {
    codes[f].None? && !IsEscaped(was[f])
  }

  function Homeless(codes: seq<Option<int>>, was: Codes, k: nat): nat
    requires k <= FIELDS == |codes|
  {
    if k == 0 then 0 else Homeless(codes, was, k - 1) + if IsHomeless(codes, was, k - 1) then 1 else 0
  }

  lemma {:induction false} SlotBalance(codes: seq<Option<int>>, was: Codes, k: nat)
    requires k <= FIELDS == |codes|
    ensures NewEscapes(codes, k) - OldEscapes(was, k) == Homeless(codes, was, k) - Released(codes, was, k)
  {
    if k > 0 {
      SlotBalance(codes, was, k - 1);
    }
  }

  /** The slots still missing after the release are those that the two counts foresee. */
  lemma {:induction false} MissingSlots(codes: seq<Option<int>>, was: Codes, vacant: nat)
    requires |codes| == FIELDS
    ensures Max(Homeless(codes, was, FIELDS) - (vacant + Released(codes, was, FIELDS)), 0)
            == Additional(codes, was, vacant)
  {
    SlotBalance(codes, was, FIELDS);
  }

  /** The slots a write must append. */
  function Additional(codes: seq<Option<int>>, was: Codes, vacant: nat): nat
    requires |codes| == FIELDS
  {
    Max(NewEscapes(codes, FIELDS) - (OldEscapes(was, FIELDS) + vacant), 0)
  }

  /** A code that stands for the value, if there is one to stand for. */
  ghost predicate CodeOk(bases: Values, escapes: seq<int>, code: int, field: nat, want: Option<I64>)
    requires field < FIELDS
  {
    want.Some? ==>
      if IsEscaped(code) then code - ESCAPED < |escapes| && escapes[code - ESCAPED] == want.value
      else bases[field] + code == want.value
  }

  ghost predicate RowOk(bases: Values, escapes: seq<int>, codes: Codes, want: Input) {
    forall f :: 0 <= f < FIELDS ==> CodeOk(bases, escapes, codes[f], f, want[f])
  }

  ghost predicate RowsOk(bases: Values, escapes: seq<int>, rows: seq<Codes>, model: seq<Input>) {
    |rows| == |model| && forall r :: 0 <= r < |rows| ==> RowOk(bases, escapes, rows[r], model[r])
  }

  /** The escaped codes are exactly the live cells. */
  ghost predicate Mirrors(rows: seq<Codes>, live: Live) {
    && (forall c :: c in live ==> c.row < |rows| && c.field < FIELDS && rows[c.row][c.field] == ESCAPED + live[c])
    && forall r, f :: 0 <= r < |rows| && 0 <= f < FIELDS ==>
        0 <= rows[r][f] <= U32_MAX && (IsEscaped(rows[r][f]) ==> Cell(r, f) in live)
  }

  /** No value of an uninitialized field has been stored. */
  ghost predicate Uninitialized(initialized: seq<bool>, model: seq<Input>)
    requires |initialized| == FIELDS
  {
    forall r, f :: 0 <= r < |model| && 0 <= f < FIELDS && model[r][f].Some? ==> initialized[f]
  }

  // ---------- sizes ----------

  const CODES_BYTES := 24
  const VALUES_BYTES := 48
  const VALUE_BYTES := 8

  /** `narrow_fits` for a given number of escape entries. */
  predicate Fits(rowCapacity: nat, entries: nat) {
    entries < ESCAPED && rowCapacity * CODES_BYTES + entries * VALUE_BYTES + VALUES_BYTES <= rowCapacity * VALUES_BYTES
  }

  function MaxEscapes(rowCapacity: nat): int {
    Min(Max(rowCapacity * (VALUES_BYTES - CODES_BYTES) - VALUES_BYTES, 0) / VALUE_BYTES, ESCAPED - 1)
  }

  /** `narrow_fits` admits exactly the sizes up to the reservation bound. */
  lemma {:induction false} FitsIsBounded(rowCapacity: nat, entries: nat)
    requires rowCapacity >= 2
    ensures Fits(rowCapacity, entries) <==> entries <= MaxEscapes(rowCapacity)
  {
  }

  /** What the reservation asks for holds the needed entries, is above the present length, and
      still fits. */
  function Reservation(needed: nat, escapeCapacity: nat, rowCapacity: nat): int {
    Min(Max(Max(needed, escapeCapacity * 2), 16), MaxEscapes(rowCapacity))
  }

  lemma {:induction false} ReservationIsEnough(needed: nat, length: nat, escapeCapacity: nat, rowCapacity: nat)
    requires length <= needed && Fits(rowCapacity, needed)
    ensures length <= needed <= Reservation(needed, escapeCapacity, rowCapacity)
    ensures Fits(rowCapacity, Reservation(needed, escapeCapacity, rowCapacity))
  {
    assert rowCapacity >= 2;
    FitsIsBounded(rowCapacity, needed);
    FitsIsBounded(rowCapacity, Reservation(needed, escapeCapacity, rowCapacity));
  }

  // ---------- the block ----------

  /** Whatever lies within half the span of a field's first value is inline, as far as 64 bits reach. */
  ghost predicate IsCentred(base: int, first: I64) {
    forall v: I64 :: first - INLINE_SPAN / 2 <= v <= first + INLINE_SPAN / 2 ==> IsInline(base, v)
  }

  predicate IsInline(base: int, value: int) {
    0 <= value - base <= INLINE_SPAN
  }

  /** The codes that a write replaces. */
  function OldCodes(rows: seq<Codes>, row: Option<nat>): Codes {
    if row.Some? && row.value < |rows| then rows[row.value] else ZEROS
  }

  /** Why a write may widen a block: the escapes that it needs would outgrow the wide form, or the room
      that was granted for them does. */
  ghost predicate MustWiden(rowCapacity: nat, held: nat, wasCapacity: nat, capacity: nat, additional: nat) {
    !Fits(rowCapacity, Max(wasCapacity, held + additional)) || !Fits(rowCapacity, capacity)
  }

  ghost predicate Outgrows(bases: Values, input: Input, rowCapacity: nat, held: nat, wasCapacity: nat, capacity: nat,
                           was: Codes, vacant: nat) {
    exists codes ::
      CodesFor(bases, input, codes)
      && MustWiden(rowCapacity, held, wasCapacity, capacity, Additional(codes, was, vacant))
  }

  /** The live cells of a row, given as one optional slot per field; other rows as before. */
  ghost predicate LiveRow(live: Live, before: Live, row: nat, held: seq<Option<nat>>) {
    && |held| == FIELDS
    && (forall c: Cell :: c.row != row || c.field >= FIELDS ==>
        (c in live <==> c in before) && (c in live ==> live[c] == before[c]))
    && forall f :: 0 <= f < FIELDS ==>
         (Cell(row, f) in live <==> held[f].Some?) && (held[f].Some? ==> live[Cell(row, f)] == held[f].value)
  }

  /** The values of the other rows are where they were. */
  ghost predicate OthersKept(before: Live, was: seq<int>, now: seq<int>, row: nat) {
    forall c :: c in before && c.row != row ==>
        before[c] < |was| && before[c] < |now| && now[before[c]] == was[before[c]]
  }

  /** Slots held by a row's present codes. */
  function HeldBy(codes: Codes): (held: seq<Option<nat>>)
    ensures |held| == FIELDS
    ensures forall f :: 0 <= f < FIELDS ==> held[f] == if IsEscaped(codes[f]) then Some(codes[f] - ESCAPED) else None
  {
    seq(FIELDS, f requires 0 <= f < FIELDS => if IsEscaped(codes[f]) then Some(codes[f] - ESCAPED) else None)
  }

  /** Slots still held when the first `k` fields have released theirs. */
  function KeptBy(was: Codes, codes: seq<Option<int>>, k: nat): (held: seq<Option<nat>>)
    requires |codes| == FIELDS
  {
    seq(FIELDS, f requires 0 <= f < FIELDS =>
      if IsEscaped(was[f]) && !(f < k && codes[f].Some?) then Some(was[f] - ESCAPED) else None)
  }

  lemma {:induction false} KeptByNext(was: Codes, codes: seq<Option<int>>, k: nat)
    requires |codes| == FIELDS && k < FIELDS
    ensures KeptBy(was, codes, k + 1)
            == if IsEscaped(was[k]) && codes[k].Some? then KeptBy(was, codes, k)[k := None] else KeptBy(was, codes, k)
  {
  }

  lemma {:induction false} RowIsHeld(rows: seq<Codes>, live: Live, row: nat, was: Codes)
    requires Mirrors(rows, live) && row <= |rows|
    requires was == if row < |rows| then rows[row] else ZEROS
    ensures LiveRow(live, live, row, HeldBy(was))
  {
  }

  // ---------- steps over one row ----------

  lemma {:induction false} HeldIsReleased(live: Live, before: Live, row: nat, held: seq<Option<nat>>, f: nat)
    requires LiveRow(live, before, row, held) && f < FIELDS
    ensures LiveRow(live - {Cell(row, f)}, before, row, held[f := None])
  {
  }

  lemma {:induction false} HeldIsPlaced(live: Live, before: Live, row: nat, held: seq<Option<nat>>, f: nat, slot: nat)
    requires LiveRow(live, before, row, held) && f < FIELDS
    ensures LiveRow(live[Cell(row, f) := slot], before, row, held[f := Some(slot)])
  {
  }

  lemma {:induction false} OthersStayKept(live: Live, before: Live, row: nat, held: seq<Option<nat>>, f: nat,
                                          e0: seq<int>, e1: seq<int>, e2: seq<int>)
    requires LiveRow(live, before, row, held)
    requires OthersKept(before, e0, e1, row) && Undisturbed(live, e1, e2, Cell(row, f))
    ensures OthersKept(before, e0, e2, row)
  {
  }

  /** The values of the first `k` fields that needed a slot are in their slots. */
  ghost predicate PlacedSoFar(codes: seq<Option<int>>, input: Input, held: seq<Option<nat>>, escapes: seq<int>, k: nat)
    requires k <= FIELDS == |codes| == |held|
  {
    forall g :: 0 <= g < k && codes[g].None? ==>
        input[g].Some? && held[g].Some? && held[g].value < |escapes| && escapes[held[g].value] == input[g].value
  }

  lemma {:induction false} PlacedStays(live: Live, before: Live, row: nat, held: seq<Option<nat>>,
                                       codes: seq<Option<int>>, input: Input, e1: seq<int>, e2: seq<int>, k: nat)
    requires k < FIELDS == |codes| && LiveRow(live, before, row, held) && Undisturbed(live, e1, e2, Cell(row, k))
    requires PlacedSoFar(codes, input, held, e1, k)
    ensures PlacedSoFar(codes, input, held, e2, k)
  {
    forall g | 0 <= g < k && codes[g].None? ensures held[g].value < |e2| && e2[held[g].value] == e1[held[g].value] {
      assert Cell(row, g) in live && live[Cell(row, g)] == held[g].value;
    }
  }

  function WithRow(rows: seq<Codes>, row: nat, codes: Codes): seq<Codes>
    requires row <= |rows|
  {
    if row == |rows| then rows + [codes] else rows[row := codes]
  }

  function Written(model: seq<Input>, row: Option<nat>, input: Input): seq<Input>
    requires row.Some? ==> row.value < |model|
  {
    if row.Some? then model[row.value := input] else model + [input]
  }

  function WithInput(model: seq<Input>, row: nat, input: Input): seq<Input>
    requires row <= |model|
  {
    if row == |model| then model + [input] else model[row := input]
  }

  lemma {:induction false} MirrorsRow(rows: seq<Codes>, before: Live, live: Live, row: nat, encoded: Codes)
    requires Mirrors(rows, before) && row <= |rows| && LiveRow(live, before, row, HeldBy(encoded))
    requires forall f :: 0 <= f < FIELDS ==> 0 <= encoded[f] <= U32_MAX
    ensures Mirrors(WithRow(rows, row, encoded), live)
  {
    var next := WithRow(rows, row, encoded);
    forall c | c in live ensures c.row < |next| && c.field < FIELDS && next[c.row][c.field] == ESCAPED + live[c] {
      if c.row == row && c.field < FIELDS {
        assert c == Cell(row, c.field);
      }
    }
    forall r, f | 0 <= r < |next| && 0 <= f < FIELDS
      ensures 0 <= next[r][f] <= U32_MAX && (IsEscaped(next[r][f]) ==> Cell(r, f) in live)
    {
      assert r != row ==> next[r] == rows[r];
    }
  }

  lemma {:induction false} OtherRowsOk(bases: Values, was: seq<int>, now: seq<int>, rows: seq<Codes>,
                                       model: seq<Input>, before: Live, row: nat)
    requires RowsOk(bases, was, rows, model) && Mirrors(rows, before) && OthersKept(before, was, now, row)
    ensures forall r :: 0 <= r < |rows| && r != row ==> RowOk(bases, now, rows[r], model[r])
  {
    forall r, f | 0 <= r < |rows| && r != row && 0 <= f < FIELDS
      ensures CodeOk(bases, now, rows[r][f], f, model[r][f])
    {
      assert RowOk(bases, was, rows[r], model[r]);
      assert CodeOk(bases, was, rows[r][f], f, model[r][f]);
      if IsEscaped(rows[r][f]) {
        var c := Cell(r, f);
        assert c in before && rows[c.row][c.field] == ESCAPED + before[c];
      }
    }
  }

  lemma {:induction false} RowsOkWith(bases: Values, escapes: seq<int>, rows: seq<Codes>, model: seq<Input>, row: nat,
                                      encoded: Codes, input: Input)
    requires |rows| == |model| && row <= |rows| && RowOk(bases, escapes, encoded, input)
    requires forall r :: 0 <= r < |rows| && r != row ==> RowOk(bases, escapes, rows[r], model[r])
    ensures RowsOk(bases, escapes, WithRow(rows, row, encoded), WithInput(model, row, input))
  {
  }

  /** Codes keep their meaning when a field gets its base with its first value. */
  lemma {:induction false} NewBasesKeepRows(was: Values, now: Values, initialized: seq<bool>, escapes: seq<int>,
                                            rows: seq<Codes>, model: seq<Input>)
    requires |initialized| == FIELDS && RowsOk(was, escapes, rows, model) && Uninitialized(initialized, model)
    requires forall f :: 0 <= f < FIELDS && initialized[f] ==> now[f] == was[f]
    ensures RowsOk(now, escapes, rows, model)
  {
    forall r, f | 0 <= r < |rows| && 0 <= f < FIELDS ensures CodeOk(now, escapes, rows[r][f], f, model[r][f]) {
      assert RowOk(was, escapes, rows[r], model[r]);
      assert CodeOk(was, escapes, rows[r][f], f, model[r][f]);
    }
  }

  class MetadataBlock {
    var wide: bool
    // narrow storage
    var bases: Values
    var initialized: seq<bool>
    var rows: seq<Codes>
    var rowCapacity: nat
    var escapes: seq<int>
    var escapeCapacity: nat
    var freeHead: Option<nat>
    var freeCount: nat
    // wide storage
    var values: seq<Values>

    ghost var live: Live
    ghost var owners: seq<Owner>
    ghost var free: seq<nat>
    /** What has been written. */
    ghost var model: seq<Input>

    ghost predicate SlotsOk()
      reads this`escapes, this`freeHead, this`freeCount, this`live, this`owners, this`free
    {
      && Slots(live, owners, free) && Chained(escapes, free) && |owners| == |escapes|
      && freeCount == |free| && freeHead == if free == [] then None else Some(free[|free| - 1])
    }

    ghost predicate NarrowOk()
      reads this
    {
      && SlotsOk() && Mirrors(rows, live) && |initialized| == FIELDS
      && RowsOk(bases, escapes, rows, model) && Uninitialized(initialized, model)
      && |escapes| <= escapeCapacity
    }

    ghost predicate Valid()
      reads this
    {
      && |model| <= rowCapacity
      && if wide then WideOk(values, model) else NarrowOk() && Fits(rowCapacity, escapeCapacity)
    }

    /** Releasing the slot that a cell holds. */
    method ReleaseSlot(slot: nat, ghost cell: Cell)
      requires SlotsOk() && cell in live && live[cell] == slot
      modifies this`escapes, this`freeHead, this`freeCount, this`live, this`owners, this`free
      ensures SlotsOk() && live == old(live) - {cell} && Undisturbed(old(live), old(escapes), escapes, cell)
      ensures |escapes| == old(|escapes|) && freeCount == old(freeCount) + 1
    {
      Release(live, escapes, owners, free, cell);
      escapes := escapes[slot := if freeHead.Some? then freeHead.value else -1];
      freeHead := Some(slot);
      freeCount := freeCount + 1;
      live := live - {cell};
      owners := owners[slot := Free(|free|)];
      free := free + [slot];
    }

    method PopFree(ghost cell: Cell) returns (slot: nat)
      requires SlotsOk() && cell !in live && freeHead.Some?
      modifies this`freeHead, this`freeCount, this`live, this`owners, this`free
      ensures SlotsOk() && live == old(live)[cell := slot] && freeCount == old(freeCount) - 1
    {
      TakeHead(live, escapes, owners, free, cell, escapes[freeHead.value]);
      slot := freeHead.value;
      assert escapes[slot := escapes[slot]] == escapes;
      var next := escapes[slot];
      freeHead := if next >= 0 then Some(next) else None;
      freeCount := freeCount - 1;
      live := live[cell := slot];
      owners := owners[slot := Owned(cell)];
      free := free[..|free| - 1];
    }

    method GrowBySlot(ghost cell: Cell) returns (slot: nat)
      requires SlotsOk() && cell !in live
      modifies this`escapes, this`live, this`owners
      ensures SlotsOk() && live == old(live)[cell := slot] && slot == |old(escapes)| && escapes == old(escapes) + [0]
    {
      slot := |escapes|;
      var grown := escapes + [0];
      ghost var live', owners' := live[cell := slot], owners + [Owned(cell)];
      TakeNew(live, escapes, owners, free, cell, 0);
      assert Slots(live', owners', free) && Chained(grown, free) && |owners'| == |grown|;
      escapes := grown;
      live := live';
      owners := owners';
    }

    /** Storing an escaped value: in the cell's own slot, in the head of the free list, or in a
        new slot. */
    method Place(code: int, value: I64, ghost cell: Cell) returns (slot: nat)
      requires SlotsOk()
      requires if IsEscaped(code) then cell in live && live[cell] == code - ESCAPED else cell !in live
      modifies this`escapes, this`freeHead, this`freeCount, this`live, this`owners, this`free
      ensures SlotsOk() && live == old(live)[cell := slot] && Undisturbed(old(live), old(escapes), escapes, cell)
      ensures slot < |escapes| && escapes[slot] == value
      ensures |escapes| == old(|escapes|) + if !IsEscaped(code) && old(freeCount) == 0 then 1 else 0
      ensures freeCount == old(freeCount) - if !IsEscaped(code) && old(freeCount) > 0 then 1 else 0
    {
      if IsEscaped(code) {
        slot := code - ESCAPED;
      } else if freeHead.Some? {
        slot := PopFree(cell);
      } else {
        slot := GrowBySlot(cell);
      }
      PutInPlace(live, escapes, owners, free, cell, value);
      escapes := escapes[slot := value];
    }
    /** `prepare`: an inline code for each value within reach of its base, None for a value
        that must escape. The first value of a field sets the base. */
    method Prepare(input: Input) returns (codes: seq<Option<int>>)
      requires |initialized| == FIELDS
      modifies this`bases, this`initialized
      ensures |initialized| == FIELDS && |codes| == FIELDS
      ensures forall f :: 0 <= f < FIELDS && old(initialized)[f] ==> initialized[f] && bases[f] == old(bases)[f]
      ensures forall f :: 0 <= f < FIELDS && input[f].Some? ==> initialized[f]
      ensures CodesFor(bases, input, codes)
      ensures forall f :: 0 <= f < FIELDS && !old(initialized)[f] && input[f].Some? ==>
                IsCentred(bases[f], input[f].value)
    {
      codes := [];
      for f := 0 to FIELDS
        invariant |initialized| == FIELDS && |codes| == f
        invariant forall g :: 0 <= g < FIELDS && old(initialized)[g] ==> initialized[g] && bases[g] == old(bases)[g]
        invariant forall g :: f <= g < FIELDS ==> initialized[g] == old(initialized)[g]
        invariant forall g :: 0 <= g < f ==>
                    (input[g].Some? ==> initialized[g]) && IsCodeFor(bases[g], input[g], codes[g])
        invariant forall g :: 0 <= g < f && !old(initialized)[g] && input[g].Some? ==>
                    IsCentred(bases[g], input[g].value)
      {
        var code := Some(0);
        if input[f].Some? {
          var value := input[f].value;
          if !initialized[f] {
            bases := bases[f := Max(value - INLINE_SPAN / 2, I64_MIN)];
            initialized := initialized[f := true];
          }
          var difference := value - bases[f];
          code := if 0 <= difference <= INLINE_SPAN then Some(difference) else None;
        }
        codes := codes + [code];
      }
    }

    /** Whether a narrow block has room for so many more escapes. */
    predicate NarrowFits(additional: nat)
      reads this
    {
      !wide && Fits(rowCapacity, Max(escapeCapacity, |escapes| + additional))
    }

    /** First half of `NarrowMetadata::write`: give back the slots of values that turn inline. */
    method ReleaseRow(row: nat, codes: seq<Option<int>>, was: Codes, ghost before: Live)
      returns (ghost held: seq<Option<nat>>)
      requires SlotsOk() && |codes| == FIELDS
      requires LiveRow(live, before, row, HeldBy(was)) && OthersKept(before, escapes, escapes, row)
      modifies this`escapes, this`freeHead, this`freeCount, this`live, this`owners, this`free
      ensures SlotsOk() && |escapes| == |old(escapes)| && freeCount == old(freeCount) + Released(codes, was, FIELDS)
      ensures LiveRow(live, before, row, held) && OthersKept(before, old(escapes), escapes, row)
      ensures held == KeptBy(was, codes, FIELDS)
    {
      held := HeldBy(was);
      assert held == KeptBy(was, codes, 0);
      ghost var released: nat := 0;
      for f := 0 to FIELDS
        invariant SlotsOk() && |escapes| == |old(escapes)|
        invariant freeCount == old(freeCount) + released && released == Released(codes, was, f)
        invariant LiveRow(live, before, row, KeptBy(was, codes, f)) && OthersKept(before, old(escapes), escapes, row)
      {
        ReleaseField(row, f, codes, was, before, old(escapes));
        released := released + if IsEscaped(was[f]) && codes[f].Some? then 1 else 0;
      }
      held := KeptBy(was, codes, FIELDS);
    }

    /** One field of the first half. */
    method ReleaseField(row: nat, f: nat, codes: seq<Option<int>>, was: Codes, ghost before: Live,
                        ghost first: seq<int>)
      requires SlotsOk() && |codes| == FIELDS && f < FIELDS && |first| == |escapes|
      requires LiveRow(live, before, row, KeptBy(was, codes, f)) && OthersKept(before, first, escapes, row)
      modifies this`escapes, this`freeHead, this`freeCount, this`live, this`owners, this`free
      ensures SlotsOk() && |escapes| == |old(escapes)|
      ensures freeCount == old(freeCount) + if IsEscaped(was[f]) && codes[f].Some? then 1 else 0
      ensures LiveRow(live, before, row, KeptBy(was, codes, f + 1)) && OthersKept(before, first, escapes, row)
    {
      KeptByNext(was, codes, f);
      if IsEscaped(was[f]) && codes[f].Some? {
        ghost var held, live1, e1 := KeptBy(was, codes, f), live, escapes;
        ReleaseSlot(was[f] - ESCAPED, Cell(row, f));
        OthersStayKept(live1, before, row, held, f, first, e1, escapes);
        HeldIsReleased(live1, before, row, held, f);
      }
    }

    /** One field of the second half. */
    method EncodeField(row: nat, f: nat, input: Input, codes: seq<Option<int>>, was: Codes, ghost before: Live,
                       ghost first: seq<int>, ghost held: seq<Option<nat>>, ghost encoded: seq<int>)
      returns (code: int, ghost next: seq<Option<nat>>)
      requires SlotsOk() && f < FIELDS == |codes| && IsCodeFor(bases[f], input[f], codes[f])
      requires LiveRow(live, before, row, held) && OthersKept(before, first, escapes, row)
      requires Encoded(codes, input, held, escapes, encoded, f)
      requires held[f] == if IsEscaped(was[f]) && codes[f].None? then Some(was[f] - ESCAPED) else None
      modifies this`escapes, this`freeHead, this`freeCount, this`live, this`owners, this`free
      ensures SlotsOk() && LiveRow(live, before, row, next) && OthersKept(before, first, escapes, row)
      ensures Encoded(codes, input, next, escapes, encoded + [code], f + 1)
      ensures forall g :: f < g < FIELDS ==> next[g] == held[g]
      ensures |escapes| == old(|escapes|) + if IsHomeless(codes, was, f) && old(freeCount) == 0 then 1 else 0
      ensures freeCount == old(freeCount) - if IsHomeless(codes, was, f) && old(freeCount) > 0 then 1 else 0
    {
      next := held;
      if codes[f].Some? {
        code := codes[f].value;
        EncodedInline(codes, input, held, escapes, encoded, f);
      } else {
        ghost var live1, e1 := live, escapes;
        var slot := Place(was[f], input[f].value, Cell(row, f));
        OthersStayKept(live1, before, row, held, f, first, e1, escapes);
        PlacedStays(live1, before, row, held, codes, input, e1, escapes, f);
        HeldIsPlaced(live1, before, row, held, f, slot);
        EncodedNext(codes, input, held, e1, escapes, encoded, f, slot);
        next := held[f := Some(slot)];
        code := slot + ESCAPED;
      }
    }

    /** Second half: place the values that must escape. */
    method PlaceRow(row: nat, input: Input, codes: seq<Option<int>>, was: Codes, ghost before: Live,
                    ghost first: seq<int>, ghost from: seq<Option<nat>>)
      returns (encoded: seq<int>, ghost held: seq<Option<nat>>)
      requires SlotsOk() && CodesFor(bases, input, codes)
      requires LiveRow(live, before, row, from) && OthersKept(before, first, escapes, row)
      requires from == KeptBy(was, codes, FIELDS)
      modifies this`escapes, this`freeHead, this`freeCount, this`live, this`owners, this`free
      ensures SlotsOk() && LiveRow(live, before, row, held) && OthersKept(before, first, escapes, row)
      ensures |escapes| == |old(escapes)| + Max(Homeless(codes, was, FIELDS) - old(freeCount), 0)
      ensures Encoded(codes, input, held, escapes, encoded, FIELDS)
    {
      held := from;
      encoded := [];
      ghost var homeless: nat := 0;
      for f := 0 to FIELDS
        invariant SlotsOk() && homeless == Homeless(codes, was, f)
        invariant freeCount == Max(old(freeCount) - homeless, 0)
        invariant |escapes| == |old(escapes)| + Max(homeless - old(freeCount), 0)
        invariant LiveRow(live, before, row, held) && OthersKept(before, first, escapes, row)
        invariant Encoded(codes, input, held, escapes, encoded, f)
        invariant forall g :: f <= g < FIELDS ==> held[g] == from[g]
      {
        var code: int;
        code, held := EncodeField(row, f, input, codes, was, before, first, held, encoded);
        encoded := encoded + [code];
        homeless := homeless + if IsHomeless(codes, was, f) then 1 else 0;
      }
    }

    /** Encoding one row: exactly the missing slots are appended. */
    method EncodeRow(row: nat, input: Input, codes: seq<Option<int>>, was: Codes)
      returns (encoded: seq<int>, ghost held: seq<Option<nat>>)
      requires SlotsOk() && CodesFor(bases, input, codes)
      requires LiveRow(live, live, row, HeldBy(was)) && OthersKept(live, escapes, escapes, row)
      modifies this`escapes, this`freeHead, this`freeCount, this`live, this`owners, this`free
      ensures SlotsOk() && LiveRow(live, old(live), row, held) && OthersKept(old(live), old(escapes), escapes, row)
      ensures |escapes| == |old(escapes)| + Additional(codes, was, old(freeCount))
      ensures Encoded(codes, input, held, escapes, encoded, FIELDS)
    {
      ghost var before, first := live, escapes;
      ghost var more, missing := Additional(codes, was, freeCount), Homeless(codes, was, FIELDS);
      MissingSlots(codes, was, freeCount);
      ghost var kept := ReleaseRow(row, codes, was, before);
      assert Max(missing - freeCount, 0) == more;
      encoded, held := PlaceRow(row, input, codes, was, before, first, kept);
    }

    /** `NarrowMetadata::write` */
    method WriteNarrow(row: nat, input: Input, codes: seq<Option<int>>, was: Codes)
      requires SlotsOk() && Mirrors(rows, live) && RowsOk(bases, escapes, rows, model)
      requires row <= |rows| && was == if row < |rows| then rows[row] else ZEROS
      requires CodesFor(bases, input, codes)
      requires |escapes| + Additional(codes, was, freeCount) < ESCAPED
      modifies this`escapes, this`freeHead, this`freeCount, this`live, this`owners, this`free, this`rows, this`model
      ensures SlotsOk() && Mirrors(rows, live) && RowsOk(bases, escapes, rows, model)
      ensures model == WithInput(old(model), row, input)
      ensures |escapes| == |old(escapes)| + Additional(codes, was, old(freeCount))
    {
      RowIsHeld(rows, live, row, was);
      OthersAreThere(live, owners, free, escapes, row);
      var encoded: seq<int>;
      ghost var held: seq<Option<nat>>;
      encoded, held := EncodeRow(row, input, codes, was);
      RowWritten(bases, old(escapes), escapes, rows, model, old(live), live, row, input, codes, held, encoded);
      rows := if row < |rows| then rows[row := encoded] else rows + [encoded];
      model := WithInput(model, row, input);
    }

    /** Decoding every code into full width. */
    method MakeWide()
      requires !wide && |initialized| == FIELDS && RowsOk(bases, escapes, rows, model)
      requires Mirrors(rows, live) && SlotsOk()
      modifies this`wide, this`values
      ensures wide && WideOk(values, model)
    {
      var all: seq<Values> := [];
      for r := 0 to |rows|
        invariant WideOk(all, model[..r])
      {
        RowDecodes(bases, escapes, rows, model, live, owners, free, r);
        all := all + [DecodeRow(bases, escapes, rows[r])];
        assert model[..r + 1] == model[..r] + [model[r]];
      }
      assert model[..|rows|] == model;
      values := all;
      wide := true;
    }

    /** Stored codes keep their meaning through `prepare`. */
    method PrepareRow(input: Input) returns (codes: seq<Option<int>>)
      requires NarrowOk()
      modifies this`bases, this`initialized
      ensures NarrowOk() && CodesFor(bases, input, codes)
      ensures forall f :: 0 <= f < FIELDS && input[f].Some? ==> initialized[f]
    {
      codes := Prepare(input);
      NewBasesKeepRows(old(bases), bases, old(initialized), escapes, rows, model);
    }

    /** The narrow half of `write`: give up when the block would outgrow the wide form. */
    method WriteIfNarrow(row: Option<nat>, input: Input) returns (done: bool, ghost codes: seq<Option<int>>)
      requires NarrowOk() && |model| <= rowCapacity && !wide
      requires if row.Some? then row.value < |model| else |model| < rowCapacity
      modifies this`bases, this`initialized, this`rows, this`escapes, this`escapeCapacity, this`freeHead
      modifies this`freeCount, this`live, this`owners, this`free, this`model
      ensures NarrowOk()
      ensures done ==> Fits(rowCapacity, escapeCapacity)
      ensures model == if done then Written(old(model), row, input) else old(model)
      ensures CodesFor(bases, input, codes)
      ensures !done ==> MustWiden(rowCapacity, |old(escapes)|, old(escapeCapacity), escapeCapacity,
                                  Additional(codes, OldCodes(old(rows), row), old(freeCount)))
    {
      var found := PrepareRow(input);
      codes := found;
      var was := OldCodes(rows, row);
      var additional := Additional(found, was, freeCount);
      done := false;
      if NarrowFits(additional) {
        ReserveEscapes(|escapes| + additional);
        if NarrowFits(0) {
          WriteNarrow(if row.Some? then row.value else |rows|, input, found, was);
          done := true;
        }
      }
    }

    /** `write`: a push when `row` is None. What has been written is what `model` says, and
        a block that has become wide stays wide. */
    method Write(row: Option<nat>, input: Input)
      requires Valid() && (if row.Some? then row.value < |model| else |model| < rowCapacity)
      modifies this
      ensures Valid() && model == Written(old(model), row, input)
      ensures rowCapacity == old(rowCapacity) && (old(wide) ==> wide)
      ensures wide && !old(wide) ==>
                Outgrows(bases, input, rowCapacity, |old(escapes)|, old(escapeCapacity), escapeCapacity,
                         OldCodes(old(rows), row), old(freeCount))
    {
      if wide {
        WriteWide(row, input);
      } else {
        WriteOrWiden(row, input);
      }
    }

    /** The write into a narrow block, which may turn wide for it. */
    method WriteOrWiden(row: Option<nat>, input: Input)
      requires Valid() && !wide && (if row.Some? then row.value < |model| else |model| < rowCapacity)
      modifies this
      ensures Valid() && model == Written(old(model), row, input) && rowCapacity == old(rowCapacity)
      ensures wide ==>
                Outgrows(bases, input, rowCapacity, |old(escapes)|, old(escapeCapacity), escapeCapacity,
                         OldCodes(old(rows), row), old(freeCount))
    {
      var done: bool;
      ghost var codes: seq<Option<int>>;
      done, codes := WriteIfNarrow(row, input);
      if !done {
        MakeWide();
        WriteWide(row, input);
      }
    }

    /** The write into a wide block. */
    method WriteWide(row: Option<nat>, input: Input)
      requires wide && WideOk(values, model) && (row.Some? ==> row.value < |model|)
      modifies this`values, this`model
      ensures WideOk(values, model) && model == Written(old(model), row, input)
    {
      var full := FullWidth(input);
      values := if row.Some? then values[row.value := full] else values + [full];
      model := Written(model, row, input);
    }

    /** Room for the needed entries, within the bound that keeps the block narrow. */
    method ReserveEscapes(needed: nat)
      requires |escapes| <= needed && |escapes| <= escapeCapacity && Fits(rowCapacity, Max(escapeCapacity, needed))
      modifies this`escapeCapacity
      ensures needed <= escapeCapacity && old(escapeCapacity) <= escapeCapacity
    {
      if needed > escapeCapacity {
        var capacity := Reservation(needed, escapeCapacity, rowCapacity);
        ReservationIsEnough(needed, |escapes|, escapeCapacity, rowCapacity);
        var more: nat := capacity - |escapes|;
        escapeCapacity := Grant(|escapes| + more);
      }
    }

    method Push(input: Input)
      requires Valid() && |model| < rowCapacity
      modifies this
      ensures Valid() && model == old(model) + [input]
      ensures rowCapacity == old(rowCapacity) && (old(wide) ==> wide)
      ensures wide && !old(wide) ==>
                Outgrows(bases, input, rowCapacity, |old(escapes)|, old(escapeCapacity), escapeCapacity, ZEROS,
                         old(freeCount))
    {
      Write(None, input);
    }

    method Update(row: nat, input: Input)
      requires Valid() && row < |model|
      modifies this
      ensures Valid() && model == old(model)[row := input]
      ensures rowCapacity == old(rowCapacity) && (old(wide) ==> wide)
      ensures wide && !old(wide) ==>
                Outgrows(bases, input, rowCapacity, |old(escapes)|, old(escapeCapacity), escapeCapacity,
                         OldCodes(old(rows), Some(row)), old(freeCount))
    {
      Write(Some(row), input);
    }

    /** Every value that has been written decodes exactly. */
    function Value(row: nat, field: nat): (value: int)
      requires Valid() && row < |model| && field < FIELDS
      reads this
      ensures model[row][field].Some? ==> value == model[row][field].value
    {
      if wide then values[row][field]
      else
        RowDecodes(bases, escapes, rows, model, live, owners, free, row);
        DecodeCode(bases, escapes, rows[row][field], field)
    }

    /** The number of escape entries in use. */
    function LiveEscapes(): (count: int)
      requires Valid() && !wide
      reads this
      ensures count == |live|
    {
      SlotCount(live, owners, free);
      |escapes| - freeCount
    }

    /** A narrow block is never larger than the wide form of its capacity, bases included. */
    function CapacityBytes(): (bytes: int)
      requires Valid() && !wide
      reads this
      ensures bytes + VALUES_BYTES <= rowCapacity * VALUES_BYTES
    {
      rowCapacity * CODES_BYTES + escapeCapacity * VALUE_BYTES
    }

    constructor (capacity: nat)
      ensures Valid() && model == [] && rowCapacity >= capacity
      ensures if wide then !Fits(rowCapacity, 0) else escapes == []
    {
      var granted := Grant(capacity);
      wide := false;
      bases := ZEROS;
      initialized := [false, false, false, false, false, false];
      rows := [];
      rowCapacity := granted;
      escapes := [];
      escapeCapacity := 0;
      freeHead := None;
      freeCount := 0;
      values := [];
      live := map[];
      owners := [];
      free := [];
      model := [];
      new;
      if !NarrowFits(0) {
        MakeWide();
      }
    }
  }

  // ---------- decoding ----------

  function DecodeCode(bases: Values, escapes: seq<int>, code: int, field: nat): int
    requires field < FIELDS && code - ESCAPED < |escapes|
  {
    if IsEscaped(code) then escapes[code - ESCAPED] else Wrap(bases[field] + code)
  }

  function DecodeRow(bases: Values, escapes: seq<int>, codes: Codes): (values: Values)
    requires forall f :: 0 <= f < FIELDS ==> codes[f] - ESCAPED < |escapes|
  {
    seq(FIELDS, f requires 0 <= f < FIELDS => DecodeCode(bases, escapes, codes[f], f))
  }

  function FullWidth(input: Input): (values: Values) {
    seq(FIELDS, f requires 0 <= f < FIELDS => if input[f].Some? then input[f].value else 0)
  }

  lemma {:induction false} RowDecodes(bases: Values, escapes: seq<int>, rows: seq<Codes>, model: seq<Input>,
                                      live: Live, owners: seq<Owner>, free: seq<nat>, r: nat)
    requires RowsOk(bases, escapes, rows, model) && Mirrors(rows, live) && Slots(live, owners, free)
    requires |owners| == |escapes| && r < |rows|
    ensures forall f :: 0 <= f < FIELDS ==> rows[r][f] - ESCAPED < |escapes|
    ensures forall f :: 0 <= f < FIELDS && model[r][f].Some? ==>
              DecodeCode(bases, escapes, rows[r][f], f) == model[r][f].value
  {
    forall f | 0 <= f < FIELDS ensures rows[r][f] - ESCAPED < |escapes| {
      if IsEscaped(rows[r][f]) {
        assert live[Cell(r, f)] == rows[r][f] - ESCAPED;
      }
    }
    forall f | 0 <= f < FIELDS && model[r][f].Some?
      ensures DecodeCode(bases, escapes, rows[r][f], f) == model[r][f].value
    {
      assert RowOk(bases, escapes, rows[r], model[r]);
      assert CodeOk(bases, escapes, rows[r][f], f, model[r][f]);
    }
  }

  /** Each slot is owned by exactly one live cell, or lies exactly once on the free list. */
  lemma {:induction false} EachSlotHasOneOwner(live: Live, owners: seq<Owner>, free: seq<nat>, s: nat)
    requires Slots(live, owners, free) && s < |owners|
    ensures (exists c :: c in live && live[c] == s) <==> s !in free
    ensures forall c, d :: c in live && d in live && live[c] == s == live[d] ==> c == d
    ensures forall i, j :: 0 <= i < |free| && 0 <= j < |free| && free[i] == s == free[j] ==> i == j
  {
    assert OwnerOk(live, free, owners[s], s);
  }

  /** Live cells and vacancies share out the table. */
  lemma {:induction false} SlotCount(live: Live, owners: seq<Owner>, free: seq<nat>)
    requires Slots(live, owners, free)
    ensures |live| + |free| == |owners|
  {
    LiveCount(live);
    VacantCount(free, owners);
    UpToCount(|owners|);
    SlotsAreShared(live, owners, free);
    assert |live| == |live.Keys|;
    assert live.Values + Vacant(free) == UpTo(|owners|);
  }

  function UpTo(n: nat): (r: set<nat>)
    ensures forall s: nat :: s in r <==> s < n
  {
    if n == 0 then {} else UpTo(n - 1) + {n - 1}
  }

  lemma {:induction false} UpToCount(n: nat)
    ensures |UpTo(n)| == n
  {
    if n > 0 {
      UpToCount(n - 1);
    }
  }

  /** The slots on the free list. */
  function Vacant(free: seq<nat>): set<nat> {
    set s | s in free
  }

  lemma {:induction false} SlotsAreShared(live: Live, owners: seq<Owner>, free: seq<nat>)
    requires Slots(live, owners, free)
    ensures live.Values !! Vacant(free)
    ensures forall s: nat :: s < |owners| ==> s in live.Values || s in Vacant(free)
    ensures forall s: nat :: s in live.Values || s in Vacant(free) ==> s < |owners|
  {
    forall s: nat | s < |owners| ensures s in live.Values || s in Vacant(free) {
      assert OwnerOk(live, free, owners[s], s);
    }
    forall s: nat | s in live.Values ensures s < |owners| && owners[s].Owned? {
      var c :| c in live && live[c] == s;
    }
    forall s: nat | s in Vacant(free) ensures s < |owners| && owners[s].Free? {
      var i :| 0 <= i < |free| && free[i] == s;
      assert owners[free[i]] == Free(i);
    }
  }

  lemma {:induction false} LiveCount(live: Live)
    requires forall c, d :: c in live && d in live && live[c] == live[d] ==> c == d
    ensures |live.Values| == |live.Keys|
    decreases live.Keys
  {
    if live.Keys == {} {
      assert live.Values == {};
    } else {
      var c :| c in live.Keys;
      var rest := live - {c};
      assert live.Keys == rest.Keys + {c} && c !in rest.Keys;
      assert |live.Keys| == |rest.Keys| + 1;
      LiveCount(rest);
      ValuesSplit(live, rest, c);
      OneMoreMember(rest.Values, live[c]);
    }
  }

  lemma {:induction false} OneMoreMember(s: set<nat>, x: nat)
    requires x !in s
    ensures |s + {x}| == |s| + 1
  {
  }

  lemma {:induction false} ValuesSplit(live: Live, rest: Live, c: Cell)
    requires c in live && rest == live - {c}
    requires forall d, e :: d in live && e in live && live[d] == live[e] ==> d == e
    ensures live.Values == rest.Values + {live[c]} && live[c] !in rest.Values
  {
    forall s | s in live.Values ensures s in rest.Values + {live[c]} {
      var d :| d in live && live[d] == s;
      assert d != c ==> d in rest && rest[d] == s;
    }
    forall s | s in rest.Values ensures s in live.Values && s != live[c] {
      var d :| d in rest && rest[d] == s;
      assert d in live && live[d] == s;
    }
  }

  lemma {:induction false} VacantSplit(init: seq<nat>, last: nat)
    ensures Vacant(init + [last]) == Vacant(init) + {last}
  {
  }

  lemma {:induction false} VacantCount(free: seq<nat>, owners: seq<Owner>)
    requires forall i :: 0 <= i < |free| ==> free[i] < |owners| && owners[free[i]] == Free(i)
    ensures |Vacant(free)| == |free|
  {
    if free != [] {
      var init, last := free[..|free| - 1], free[|free| - 1];
      assert free == init + [last];
      VacantSplit(init, last);
      assert last !in Vacant(init) by {
        assert owners[last] == Free(|init|);
        assert forall i :: 0 <= i < |init| ==> owners[init[i]] == Free(i);
      }
      VacantCount(init, owners);
    }
  }

  lemma {:induction false} OthersAreThere(live: Live, owners: seq<Owner>, free: seq<nat>, escapes: seq<int>, row: nat)
    requires Slots(live, owners, free) && |owners| == |escapes|
    ensures OthersKept(live, escapes, escapes, row)
  {
  }

  lemma {:induction false} RowWritten(bases: Values, was: seq<int>, now: seq<int>, rows: seq<Codes>, model: seq<Input>,
                                      before: Live, live: Live, row: nat,
                   input: Input, codes: seq<Option<int>>, held: seq<Option<nat>>, encoded: seq<int>)
    requires Mirrors(rows, before) && RowsOk(bases, was, rows, model) && row <= |rows| && CodesFor(bases, input, codes)
    requires |now| <= ESCAPED
    requires LiveRow(live, before, row, held) && OthersKept(before, was, now, row)
    requires Encoded(codes, input, held, now, encoded, FIELDS)
    ensures |encoded| == FIELDS
    ensures Mirrors(WithRow(rows, row, encoded), live)
    ensures RowsOk(bases, now, WithRow(rows, row, encoded), WithInput(model, row, input))
  {
    OtherRowsOk(bases, was, now, rows, model, before, row);
    EncodedOk(bases, now, input, codes, held, encoded);
    assert held == HeldBy(encoded);
    MirrorsRow(rows, before, live, row, encoded);
    RowsOkWith(bases, now, rows, model, row, encoded, input);
  }

  /** The codes of the first `k` fields, with their slots filled. */
  ghost predicate Encoded(codes: seq<Option<int>>, input: Input, held: seq<Option<nat>>, escapes: seq<int>,
                          encoded: seq<int>, k: nat)
  {
    && k <= FIELDS == |codes| == |held| && |encoded| == k
    && PlacedSoFar(codes, input, held, escapes, k)
    && (forall g :: 0 <= g < k ==> (held[g].Some? <==> codes[g].None?))
    && forall g :: 0 <= g < k ==> encoded[g] == if codes[g].Some? then codes[g].value else ESCAPED + SlotOf(held[g])
  }

  function SlotOf(held: Option<nat>): nat {
    if held.Some? then held.value else 0
  }

  predicate IsCodeFor(base: int, want: Option<I64>, code: Option<int>) {
    if want.None? then code == Some(0)
    else code == if 0 <= want.value - base <= INLINE_SPAN then Some(want.value - base) else None
  }

  predicate CodesFor(bases: Values, input: Input, codes: seq<Option<int>>) {
    |codes| == FIELDS && forall f :: 0 <= f < FIELDS ==> IsCodeFor(bases[f], input[f], codes[f])
  }

  lemma {:induction false} EncodedNext(codes: seq<Option<int>>, input: Input, held: seq<Option<nat>>, was: seq<int>,
                                       now: seq<int>, encoded: seq<int>, f: nat, slot: nat)
    requires Encoded(codes, input, held, was, encoded, f) && f < FIELDS && PlacedSoFar(codes, input, held, now, f)
    requires codes[f].None? && input[f].Some? && slot < |now| && now[slot] == input[f].value
    ensures Encoded(codes, input, held[f := Some(slot)], now, encoded + [slot + ESCAPED], f + 1)
  {
  }

  lemma {:induction false} EncodedInline(codes: seq<Option<int>>, input: Input, held: seq<Option<nat>>,
                                         escapes: seq<int>, encoded: seq<int>, f: nat)
    requires Encoded(codes, input, held, escapes, encoded, f) && f < FIELDS && codes[f].Some? && held[f].None?
    ensures Encoded(codes, input, held, escapes, encoded + [codes[f].value], f + 1)
  {
  }

  lemma {:induction false} EncodedOk(bases: Values, escapes: seq<int>, input: Input, codes: seq<Option<int>>,
                                     held: seq<Option<nat>>, encoded: seq<int>)
    requires CodesFor(bases, input, codes) && |escapes| <= ESCAPED
    requires Encoded(codes, input, held, escapes, encoded, FIELDS)
    ensures RowOk(bases, escapes, encoded, input)
    ensures forall g :: 0 <= g < FIELDS ==> 0 <= encoded[g] <= U32_MAX
    ensures forall g :: 0 <= g < FIELDS ==>
              held[g] == if IsEscaped(encoded[g]) then Some(encoded[g] - ESCAPED) else None
  {
    forall g | 0 <= g < FIELDS ensures CodeOk(bases, escapes, encoded[g], g, input[g]) && 0 <= encoded[g] <= U32_MAX {
    }
  }

  ghost predicate WideOk(values: seq<Values>, model: seq<Input>) {
    |values| == |model|
    && forall r, f :: 0 <= r < |model| && 0 <= f < FIELDS && model[r][f].Some? ==> values[r][f] == model[r][f].value
  }
}

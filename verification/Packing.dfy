/**
 Packing of one row's strings (`RowLayout`, `Slice` and the slice derivation of
 `CompactRecord`, `src/compact_index.rs`): strings that end another string share its bytes,
 and offsets are re-derived from two-bit parent tags.
 */
module Packing {
  import opened Common
  import opened Records

  const NO_TEXT_PARENT := 3
  const NO_EXTENSION := U32_MAX
  const TOMBSTONE := 7

  datatype Slice = Slice(start: int, len: int) {
    function End(): int { start + len }

    /** The last `n` bytes of the slice. */
    function Suffix(n: int): Slice { Slice(End() - n, n) }
  }

  /** Lower path, physical original path, original basename, lower basename. */
  type Fields = f: seq<Text> | |f| == 4 witness [[], [], [], []]

  // ---------- layout ----------

  /** The first of `fields[from..i]` that ends with field `i`. */
  function ParentFrom(fields: Fields, i: nat, from: nat): (parent: Option<nat>)
    requires from <= i < 4
    ensures parent.Some? ==> from <= parent.value < i && EndsWith(fields[parent.value], fields[i])
    ensures parent.None? ==> forall p :: from <= p < i ==> !EndsWith(fields[p], fields[i])
    decreases i - from
  {
    if from == i then None
    else if EndsWith(fields[from], fields[i]) then Some(from)
    else ParentFrom(fields, i, from + 1)
  }

  function Parent(fields: Fields, i: nat): (parent: Option<nat>)
    requires i < 4
    ensures parent.Some? ==> parent.value < i && EndsWith(fields[parent.value], fields[i])
  {
    ParentFrom(fields, i, 0)
  }

  /** A text is only stored again when no earlier one ends with it. */
  lemma {:induction false} SharesWheneverItCan(fields: Fields, i: nat)
    requires i < 4
    ensures Parent(fields, i).None? <==> forall p :: 0 <= p < i ==> !EndsWith(fields[p], fields[i])
  {
  }

  /** The bytes that the first `n` fields add to the arena. */
  function Added(fields: Fields, n: nat): Text
    requires n <= 4
  {
    if n == 0 then []
    else if Parent(fields, n - 1).None? then Added(fields, n - 1) + fields[n - 1]
    else Added(fields, n - 1)
  }

  function SliceOf(fields: Fields, base: nat, i: nat): (slice: Slice)
    requires i < 4
    ensures slice.len == |fields[i]|
  {
    match Parent(fields, i)
    case Some(p) => Slice(SliceOf(fields, base, p).start + |fields[p]| - |fields[i]|, |fields[i]|)
    case None => Slice(base + |Added(fields, i)|, |fields[i]|)
  }

  predicate InBounds(slice: Slice, arena: Text) {
    0 <= slice.start && 0 <= slice.len && slice.End() <= |arena|
  }

  function Read(arena: Text, slice: Slice): Text
    requires InBounds(slice, arena)
  {
    arena[slice.start..slice.End()]
  }

  lemma {:induction false} TakeOfConcat(a: Text, b: Text, n: nat)
    requires n <= |a|
    ensures (a + b)[..n] == a[..n]
  {
  }

  lemma {:induction false} AddedGrows(fields: Fields, i: nat, n: nat)
    requires i <= n <= 4
    ensures |Added(fields, i)| <= |Added(fields, n)| && Added(fields, n)[..|Added(fields, i)|] == Added(fields, i)
  {
    if i < n {
      AddedGrows(fields, i, n - 1);
      var init := Added(fields, n - 1);
      if Parent(fields, n - 1).None? {
        TakeOfConcat(init, fields[n - 1], |Added(fields, i)|);
      }
    }
  }

  /** Bytes that follow `left` in what was added are read at their place in the arena. */
  lemma {:induction false} AddedReads(before: Text, added: Text, left: Text, value: Text)
    requires |left| + |value| <= |added| && added[..|left| + |value|] == left + value
    ensures var arena, slice := before + added, Slice(|before| + |left|, |value|);
            InBounds(slice, arena) && Read(arena, slice) == value
  {
    var arena := before + added;
    var from, to := |left|, |left| + |value|;
    assert added[from..to] == added[..to][from..] == value;
    assert arena[|before| + from..|before| + to] == added[from..to];
  }

  /** A field that is added lies behind the fields added before it. */
  lemma {:induction false} AddedInOrder(fields: Fields, i: nat)
    requires i < 4 && Parent(fields, i).None?
    ensures var left, added := Added(fields, i), Added(fields, 4);
            |left| + |fields[i]| <= |added| && added[..|left| + |fields[i]|] == left + fields[i]
  {
    AddedGrows(fields, i + 1, 4);
    assert Added(fields, i + 1) == Added(fields, i) + fields[i];
  }

  /** Each slice lies within the added bytes and reads its field. */
  lemma {:induction false} SliceReads(fields: Fields, before: Text, i: nat)
    requires i < 4
    ensures var arena, slice := before + Added(fields, 4), SliceOf(fields, |before|, i);
            |before| <= slice.start && InBounds(slice, arena) && Read(arena, slice) == fields[i]
  {
    var parent := Parent(fields, i);
    if parent.Some? {
      var p := parent.value;
      SliceReads(fields, before, p);
      SuffixReads(before + Added(fields, 4), SliceOf(fields, |before|, p), fields[i]);
    } else {
      AddedInOrder(fields, i);
      AddedReads(before, Added(fields, 4), Added(fields, i), fields[i]);
    }
  }

  lemma {:induction false} SuffixReads(arena: Text, slice: Slice, value: Text)
    requires InBounds(slice, arena) && EndsWith(Read(arena, slice), value)
    ensures InBounds(slice.Suffix(|value|), arena) && Read(arena, slice.Suffix(|value|)) == value
  {
    var text := Read(arena, slice);
    assert text[|text| - |value|..] == arena[slice.End() - |value|..slice.End()];
  }

  /** A slice ends no later than the bytes added so far, and a new one exactly there. */
  lemma {:induction false} SliceEnds(fields: Fields, base: nat, i: nat)
    requires i < 4
    ensures SliceOf(fields, base, i).End() <= base + |Added(fields, i + 1)|
    ensures Parent(fields, i).None? ==> SliceOf(fields, base, i).End() == base + |Added(fields, i + 1)|
    ensures SliceOf(fields, base, i).start >= base
  {
    var parent := Parent(fields, i);
    if parent.Some? {
      SliceEnds(fields, base, parent.value);
      AddedGrows(fields, parent.value + 1, i + 1);
    }
  }

  // ---------- packed records ----------

  /** `present` holds the bit numbers that are set. */
  datatype Packed = Packed(
    id: int, path: Slice, pathLower: Slice, basenameLen: int, basenameLowerLen: int, arena: nat, ext: nat, prefix: nat,
    kind: FileKind, present: set<nat>, basenameParents: nat)
  {
    predicate IsLive() { TOMBSTONE !in present }

    function BasenameSlice(pathSuffix: Slice): Slice {
      var tag := basenameParents % 4;
      if tag == 0 then pathLower.Suffix(basenameLen)
      else if tag == 1 then pathSuffix.Suffix(basenameLen)
      else Slice(Max(pathLower.End(), pathSuffix.End()), basenameLen)
    }

    function BasenameLowerSlice(pathSuffix: Slice): Slice {
      var tag := basenameParents / 4;
      if tag == 0 then pathLower.Suffix(basenameLowerLen)
      else if tag == 1 then pathSuffix.Suffix(basenameLowerLen)
      else if tag == 2 then BasenameSlice(pathSuffix).Suffix(basenameLowerLen)
      else Slice(Max(Max(pathLower.End(), pathSuffix.End()), BasenameSlice(pathSuffix).End()), basenameLowerLen)
    }
  }

  function Tag(parent: Option<nat>): nat {
    if parent.Some? then parent.value else NO_TEXT_PARENT
  }

  /** `RowLayout::basename_parents` */
  function ParentTags(fields: Fields): nat {
    Tag(Parent(fields, 2)) + 4 * Tag(Parent(fields, 3))
  }

  /** The string fields of a record that `pack_record` lays out at `base`. */
  ghost predicate LaidOut(packed: Packed, fields: Fields, base: nat, pathSuffix: Slice) {
    && packed.pathLower == SliceOf(fields, base, 0) && pathSuffix == SliceOf(fields, base, 1)
    && packed.basenameLen == |fields[2]| && packed.basenameLowerLen == |fields[3]|
    && packed.basenameParents == ParentTags(fields)
  }

  /** The derived slices are those that were laid out, for every aliasing of the four strings. */
  lemma {:induction false} DerivedSlicesAreLaidOut(packed: Packed, fields: Fields, base: nat, pathSuffix: Slice)
    requires LaidOut(packed, fields, base, pathSuffix)
    ensures packed.BasenameSlice(pathSuffix) == SliceOf(fields, base, 2)
    ensures packed.BasenameLowerSlice(pathSuffix) == SliceOf(fields, base, 3)
  {
    DerivedBasename(packed, fields, base, pathSuffix);
    var tag := Tag(Parent(fields, 3));
    assert packed.basenameParents / 4 == tag;
    if Parent(fields, 3).None? {
      NewSliceFollows(fields, base, 3);
    }
  }

  lemma {:induction false} DerivedBasename(packed: Packed, fields: Fields, base: nat, pathSuffix: Slice)
    requires LaidOut(packed, fields, base, pathSuffix)
    ensures packed.BasenameSlice(pathSuffix) == SliceOf(fields, base, 2)
  {
    assert packed.basenameParents % 4 == Tag(Parent(fields, 2));
    if Parent(fields, 2).None? {
      NewSliceFollows(fields, base, 2);
    }
  }

  function LastEnd(fields: Fields, base: nat, n: nat): int
    requires 1 <= n <= 4
  {
    if n == 1 then SliceOf(fields, base, 0).End()
    else Max(LastEnd(fields, base, n - 1), SliceOf(fields, base, n - 1).End())
  }

  function FirstStart(fields: Fields, base: nat, n: nat): int
    requires 1 <= n <= 4
  {
    if n == 1 then SliceOf(fields, base, 0).start
    else Min(FirstStart(fields, base, n - 1), SliceOf(fields, base, n - 1).start)
  }

  /** The slices so far end together exactly where the added bytes end. */
  lemma {:induction false} AddedIsCovered(fields: Fields, base: nat, n: nat)
    requires 1 <= n <= 4
    ensures LastEnd(fields, base, n) == base + |Added(fields, n)|
    ensures FirstStart(fields, base, n) == base
  {
    SliceEnds(fields, base, n - 1);
    if n > 1 {
      AddedIsCovered(fields, base, n - 1);
      AddedGrows(fields, n - 1, n);
    }
  }

  lemma {:induction false} NewSliceFollows(fields: Fields, base: nat, i: nat)
    requires 1 <= i < 4 && Parent(fields, i).None?
    ensures SliceOf(fields, base, i) == Slice(LastEnd(fields, base, i), |fields[i]|)
    ensures LastEnd(fields, base, 2) == Max(SliceOf(fields, base, 0).End(), SliceOf(fields, base, 1).End())
    ensures LastEnd(fields, base, 3) == Max(LastEnd(fields, base, 2), SliceOf(fields, base, 2).End())
  {
    AddedIsCovered(fields, base, i);
  }

  /** The least start and the greatest end of four slices. */
  function Span(a: Slice, b: Slice, c: Slice, d: Slice): int {
    Max(Max(Max(a.End(), b.End()), c.End()), d.End()) - Min(Min(Min(a.start, b.start), c.start), d.start)
  }

  /** `row_string_bytes` */
  function RowBytes(packed: Packed, pathSuffix: Slice): int {
    Span(packed.pathLower, pathSuffix, packed.BasenameSlice(pathSuffix), packed.BasenameLowerSlice(pathSuffix))
  }

  lemma {:induction false} SpanIsAdded(fields: Fields, base: nat)
    ensures Span(SliceOf(fields, base, 0), SliceOf(fields, base, 1), SliceOf(fields, base, 2), SliceOf(fields, base, 3))
            == |Added(fields, 4)|
  {
    AddedIsCovered(fields, base, 4);
    var a, b, c, d := SliceOf(fields, base, 0), SliceOf(fields, base, 1), SliceOf(fields, base, 2), SliceOf(fields,
        base, 3);
    assert LastEnd(fields, base, 2) == Max(a.End(), b.End()) && FirstStart(fields, base, 2) == Min(a.start, b.start);
    assert LastEnd(fields, base, 3) == Max(LastEnd(fields, base, 2), c.End());
    assert FirstStart(fields, base, 3) == Min(FirstStart(fields, base, 2), c.start);
  }

  /** The span of a row's slices is exactly what its packing added to the arena. */
  lemma {:induction false} RowBytesAreAdded(packed: Packed, fields: Fields, base: nat, pathSuffix: Slice)
    requires LaidOut(packed, fields, base, pathSuffix)
    ensures RowBytes(packed, pathSuffix) == |Added(fields, 4)|
  {
    DerivedSlicesAreLaidOut(packed, fields, base, pathSuffix);
    SpanIsAdded(fields, base);
  }
}

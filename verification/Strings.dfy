/** Arenas, dictionaries and `pack_record`. */
module Strings {
  import opened Common
  import opened Records
  import opened Metadata
  import opened Packing
  import opened PackedRows
  import opened Prefixes

  const MIN_PREFIX_BYTES := 16

  /** Something does not fit its 32-bit representation. */
  datatype Overflow = Overflow

  // ---------- checked layout ----------

  /** `Slice::checked` */
  function Checked(start: nat, len: nat): Result<Slice, Overflow> {
    if start + len > U32_MAX then Err(Overflow) else Ok(Slice(start, len))
  }

  predicate FitsLayout(fields: Fields) {
    (forall i :: 0 <= i < 4 ==> |fields[i]| <= U32_MAX) && |Added(fields, 4)| <= U32_MAX
  }

  /** Which field ends which, and the bytes that must be added. */
  datatype RowLayout = RowLayout(parents: seq<Option<nat>>, required: nat)

  ghost predicate IsLayout(layout: RowLayout, fields: Fields, n: nat)
    requires n <= 4
  {
    && |layout.parents| == n && layout.required == |Added(fields, n)|
    && forall i :: 0 <= i < n ==> layout.parents[i] == Parent(fields, i)
  }

  /** `RowLayout::new` */
  method Layout(fields: Fields) returns (layout: Result<RowLayout, Overflow>)
    ensures layout.Ok? <==> FitsLayout(fields)
    ensures layout.Ok? ==> IsLayout(layout.value, fields, 4)
  {
    var found := RowLayout([], 0);
    for i := 0 to 4
      invariant IsLayout(found, fields, i)
      invariant forall j :: 0 <= j < i ==> |fields[j]| <= U32_MAX
    {
      var value := fields[i];
      if Checked(0, |value|).Err? {
        return Err(Overflow);
      }
      var parent := Parent(fields, i);
      found := RowLayout(found.parents + [parent], if parent.None? then found.required + |value| else found.required);
    }
    if Checked(0, found.required).Err? {
      return Err(Overflow);
    }
    return Ok(found);
  }

  function TotalLength(fields: Fields): nat {
    |fields[0]| + |fields[1]| + |fields[2]| + |fields[3]|
  }

  lemma {:induction false} AddedIsBounded(fields: Fields, n: nat)
    requires n <= 4
    ensures |Added(fields, n)| <= (if n > 0 then |fields[0]| else 0) + (if n > 1 then |fields[1]| else 0)
                                  + (if n > 2 then |fields[2]| else 0) + (if n > 3 then |fields[3]| else 0)
  {
    if n > 0 {
      AddedIsBounded(fields, n - 1);
    }
  }

  /** The strings of a row with its effective lowercase path. */
  function FieldsOf(lower: Lowercase, row: Row): Fields {
    [Effective(lower, row), row.path, row.basename, row.basenameLower]
  }

  /** `RowText::new`: a small sum of lengths already implies an encodable layout. */
  method NewRowText(lower: Lowercase, row: Row) returns (lowered: Result<Text, Overflow>)
    ensures lowered == if FitsLayout(FieldsOf(lower, row)) then Ok(Effective(lower, row)) else Err(Overflow)
  {
    var fields := FieldsOf(lower, row);
    AddedIsBounded(fields, 4);
    if TotalLength(fields) > U32_MAX {
      var layout := Layout(fields);
      if layout.Err? {
        return Err(Overflow);
      }
    }
    return Ok(Effective(lower, row));
  }

  // ---------- path prefixes ----------

  /** The length of the parent directory with its slash (`rfind('/')`). */
  function ParentLength(path: Text): (n: nat)
    ensures n <= |path|
  {
    if path == [] then 0 else if path[|path| - 1] == SLASH then |path| else ParentLength(path[..|path| - 1])
  }

  /** A long enough parent directory that the pool knows is shared, unless the path is stored in lower
      case anyway; nothing else is. */
  ghost predicate IsShared(path: Text, lowered: Text, prefix: int, values: seq<Text>) {
    var parent := path[..ParentLength(path)];
    if path == lowered || |parent| < MIN_PREFIX_BYTES || parent !in values then prefix == NO_PREFIX
    else 0 <= prefix < |values| && values[prefix] == parent
  }

  lemma {:induction false} NothingShared(path: Text, lowered: Text, values: seq<Text>)
    requires path == lowered || ParentLength(path) < MIN_PREFIX_BYTES || path[..ParentLength(path)] !in values
    ensures IsShared(path, lowered, NO_PREFIX, values)
  {
  }

  lemma {:induction false} ParentShared(path: Text, lowered: Text, prefix: nat, values: seq<Text>)
    requires path != lowered && ParentLength(path) >= MIN_PREFIX_BYTES
    requires prefix < |values| && values[prefix] == path[..ParentLength(path)]
    ensures IsShared(path, lowered, prefix, values) && StartsWith(path, values[prefix])
  {
  }

  // ---------- the store ----------

  /** The texts lie at the end of the arena, and the slices name them. */
  ghost predicate Holds(arenas: seq<Text>, fields: Fields, arena: nat, slices: seq<Slice>) {
    && arena < |arenas| && arena <= U32_MAX && |Added(fields, 4)| <= |arenas[arena]|
    && var base := |arenas[arena]| - |Added(fields, 4)|;
       && arenas[arena][base..] == Added(fields, 4)
       && |slices| == 4 && forall i :: 0 <= i < 4 ==> slices[i] == SliceOf(fields, base, i)
  }

  lemma {:induction false} PlacedHolds(reserved: seq<Text>, fields: Fields, slices: seq<Slice>)
    requires reserved != [] && |reserved| - 1 <= U32_MAX && |slices| == 4
    requires forall i :: 0 <= i < 4 ==> slices[i] == SliceOf(fields, |reserved[|reserved| - 1]|, i)
    ensures Holds(Extended(reserved, |reserved| - 1, Added(fields, 4)), fields, |reserved| - 1, slices)
  {
    var last, added := reserved[|reserved| - 1], Added(fields, 4);
    assert (last + added)[|last|..] == added;
  }

  ghost predicate IsExtensionMap(ids: map<Text, nat>, extensions: seq<Text>) {
    && (forall e :: e in ids ==> ids[e] < |extensions| && extensions[ids[e]] == e)
    && forall i :: 0 <= i < |extensions| ==> extensions[i] in ids
  }

  /** The arenas with more bytes at the end of one of them. */
  function Extended(arenas: seq<Text>, arena: nat, more: Text): (r: seq<Text>)
    requires arena < |arenas|
    ensures |r| == |arenas| && r[arena] == arenas[arena] + more
  {
    arenas[arena := arenas[arena] + more]
  }

  lemma {:induction false} ExtendedTwice(arenas: seq<Text>, arena: nat, a: Text, b: Text)
    requires arena < |arenas|
    ensures Extended(Extended(arenas, arena, a), arena, b) == Extended(arenas, arena, a + b)
  {
    assert arenas[arena] + a + b == arenas[arena] + (a + b);
  }

  lemma {:induction false} ExtendedByNothing(arenas: seq<Text>, arena: nat)
    requires arena < |arenas|
    ensures Extended(arenas, arena, []) == arenas
  {
    assert arenas[arena] + [] == arenas[arena];
  }

  lemma {:induction false} ExtendedTotal(arenas: seq<Text>, more: Text)
    requires arenas != []
    ensures TotalBytes(Extended(arenas, |arenas| - 1, more)) == TotalBytes(arenas) + |more|
  {
    var n := |arenas| - 1;
    assert Extended(arenas, n, more)[..n] == arenas[..n];
  }

  /** Reserving and extending only grows the store, by the bytes added. */
  lemma {:induction false} ReservedThenExtended(was: Store, reserved: seq<Text>, more: Text)
    requires reserved != [] && (reserved == was.arenas || reserved == was.arenas + [[]])
    ensures var now := was.(arenas := Extended(reserved, |reserved| - 1, more));
            Grows(was, now) && TotalBytes(now.arenas) == TotalBytes(was.arenas) + |more|
  {
    ExtendedTotal(reserved, more);
    if reserved != was.arenas {
      assert reserved[..|was.arenas|] == was.arenas;
    }
    var now := Extended(reserved, |reserved| - 1, more);
    forall a | 0 <= a < |was.arenas| ensures IsPrefix(was.arenas[a], now[a]) {
    }
  }

  // ---------- room for a row ----------

  /** Whether a row of so many bytes goes to a new arena. */
  predicate NeedsArena(arenas: seq<Text>, arenaBytes: nat, bytes: nat) {
    arenas == [] || bytes > Max(arenaBytes - |arenas[|arenas| - 1]|, 0)
  }

  /** Whether a row of so many bytes can be placed: arenas are numbered and addressed by 32 bits. */
  predicate HasRoom(arenas: seq<Text>, arenaBytes: nat, bytes: nat) {
    if NeedsArena(arenas, arenaBytes, bytes) then |arenas| <= U32_MAX && bytes <= U32_MAX
    else |arenas[|arenas| - 1]| + bytes <= U32_MAX
  }

  /** Two neighbouring arenas hold the bytes of one on average, since each was opened because its first
      row did not fit the one before. */
  ghost predicate AreFull(count: nat, arenaBytes: nat, total: nat, last: nat) {
    Worth(count, arenaBytes) <= 2 * total - last
  }

  /** The size of all arenas but one. */
  function Worth(count: nat, arenaBytes: nat): nat {
    if count <= 1 then 0 else Worth(count - 1, arenaBytes) + arenaBytes
  }

  lemma {:induction false} WorthIs(count: nat, arenaBytes: nat)
    requires count > 0
    ensures Worth(count, arenaBytes) == (count - 1) * arenaBytes
  {
    if count > 1 {
      WorthIs(count - 1, arenaBytes);
    }
  }

  function LastLength(arenas: seq<Text>): nat {
    if arenas == [] then 0 else |arenas[|arenas| - 1]|
  }

  ghost predicate ArenasOk(arenas: seq<Text>, arenaBytes: nat) {
    && |arenas| <= U32_MAX + 1
    && (forall a :: 0 <= a < |arenas| ==> |arenas[a]| <= U32_MAX)
    && AreFull(|arenas|, arenaBytes, TotalBytes(arenas), LastLength(arenas))
  }

  /** So many more rows of moderate size surely find room. */
  ghost predicate CanTake(arenas: seq<Text>, arenaBytes: nat, n: nat) {
    arenaBytes <= U32_MAX && |arenas| + n <= U32_MAX + 1
  }

  /** A row whose texts fit 32 bits even if they share nothing. */
  ghost predicate IsModerate(lowered: Text, row: Row) {
    |lowered| + |row.path| + |row.basename| + |row.basenameLower| <= U32_MAX
  }

  function StrippedFields(row: Row, lowered: Text, shared: Text): Fields
    requires |shared| <= |row.path|
  {
    [lowered, row.path[|shared|..], row.basename, row.basenameLower]
  }

  /** A moderate row fits whatever prefix it shares. */
  lemma {:induction false} ModerateFits(arenas: seq<Text>, arenaBytes: nat, row: Row, lowered: Text, shared: Text)
    requires |shared| <= |row.path| && IsModerate(lowered, row)
    requires ArenasOk(arenas, arenaBytes) && CanTake(arenas, arenaBytes, 1)
    ensures var fields := StrippedFields(row, lowered, shared);
            FitsLayout(fields) && HasRoom(arenas, arenaBytes, |Added(fields, 4)|)
  {
    var fields := StrippedFields(row, lowered, shared);
    AddedIsBounded(fields, 4);
    assert |fields[0]| == |lowered| && |fields[1]| <= |row.path|;
    assert |fields[2]| == |row.basename| && |fields[3]| == |row.basenameLower|;
  }

  /** The arenas after a row of so many bytes has been given a place. */
  function Reserved(arenas: seq<Text>, arenaBytes: nat, bytes: nat): (reserved: seq<Text>)
    ensures reserved != []
  {
    if NeedsArena(arenas, arenaBytes, bytes) then arenas + [[]] else arenas
  }

  lemma {:induction false} ArenasStayOk(arenas: seq<Text>, arenaBytes: nat, more: Text)
    requires ArenasOk(arenas, arenaBytes) && HasRoom(arenas, arenaBytes, |more|)
    ensures var reserved := Reserved(arenas, arenaBytes, |more|);
            ArenasOk(Extended(reserved, |reserved| - 1, more), arenaBytes)
  {
    var reserved := Reserved(arenas, arenaBytes, |more|);
    ExtendedTotal(reserved, more);
    assert reserved == arenas + [[]] ==> reserved[..|arenas|] == arenas;
  }

  /** What placing the four texts leaves. */
  lemma {:induction false} FieldsPlaced(was: Store, arenaBytes: nat, fields: Fields, slices: seq<Slice>)
    requires ArenasOk(was.arenas, arenaBytes) && HasRoom(was.arenas, arenaBytes, |Added(fields, 4)|) && |slices| == 4
    requires var reserved := Reserved(was.arenas, arenaBytes, |Added(fields, 4)|);
             forall i :: 0 <= i < 4 ==> slices[i] == SliceOf(fields, |reserved[|reserved| - 1]|, i)
    ensures var reserved := Reserved(was.arenas, arenaBytes, |Added(fields, 4)|);
            var after := Extended(reserved, |reserved| - 1, Added(fields, 4));
            && ArenasOk(after, arenaBytes) && Grows(was, was.(arenas := after))
            && Holds(after, fields, |after| - 1, slices)
            && TotalBytes(after) == TotalBytes(was.arenas) + |Added(fields, 4)|
  {
    var reserved := Reserved(was.arenas, arenaBytes, |Added(fields, 4)|);
    ReservedThenExtended(was, reserved, Added(fields, 4));
    ArenasStayOk(was.arenas, arenaBytes, Added(fields, 4));
    PlacedHolds(reserved, fields, slices);
  }

  /** The record of a row whose texts have been placed. */
  function MakePacked(row: Row, arena: nat, slices: seq<Slice>, parents: seq<Option<nat>>, ext: nat,
                      prefix: nat): (p: Packed)
    requires |slices| == 4 && |parents| == 4
  {
    Packed(row.id, Slice(slices[1].start, |row.path|), slices[0], slices[2].len, slices[3].len, arena, ext, prefix,
           row.kind, PresentOf(InputOf(row)), Tag(parents[2]) + 4 * Tag(parents[3]))
  }

  /** It reads back as the texts of the row. */
  lemma {:induction false} MadePackedReads(store: Store, row: Row, lowered: Text, shared: Text, p: Packed, arena: nat,
                                           slices: seq<Slice>, parents: seq<Option<nat>>, ext: nat, prefix: nat)
    requires |slices| == 4 && |parents| == 4 && p == MakePacked(row, arena, slices, parents, ext, prefix)
    requires HasPrefix(store, p) && HasExt(store, p) && shared == PrefixText(store, p)
    requires StartsWith(row.path, shared)
    requires Holds(store.arenas, StrippedFields(row, lowered, shared), arena, slices)
    requires forall i :: 0 <= i < 4 ==> parents[i] == Parent(StrippedFields(row, lowered, shared), i)
    ensures Readable(store, p)
    ensures TextsOf(store, p) == Texts(row.path, lowered, row.basename, row.basenameLower)
    ensures BytesOf(store, p) == |Added(StrippedFields(row, lowered, shared), 4)|
  {
    var fields := StrippedFields(row, lowered, shared);
    assert shared + fields[1] == row.path;
    PackedTexts(store, p, store.arenas[arena][..|store.arenas[arena]| - |Added(fields, 4)|], fields);
  }

  class StringStore {
    var arenas: seq<Text>
    var extensions: seq<Text>
    const prefixes: PrefixPool
    const arenaBytes: nat

    ghost predicate Valid()
      reads this, prefixes
    {
      prefixes.Valid() && |extensions| <= NO_EXTENSION && ArenasOk(arenas, arenaBytes)
    }

    function View(): Store
      reads this, prefixes
    {
      Store(arenas, prefixes.values, extensions)
    }

    constructor (arenaBytes: nat, prefixBytes: nat, hash: Hash)
      ensures Valid() && View() == Store([], [], []) && fresh(prefixes) && this.arenaBytes == arenaBytes
    {
      this.arenaBytes := arenaBytes;
      arenas := [];
      extensions := [];
      prefixes := new PrefixPool(prefixBytes, hash);
    }

    /** `intern_extension`, by a map of ids while loading and by a scan afterwards. */
    method InternExtension(ext: Option<Text>, known: Option<map<Text, nat>>)
      returns (id: Result<nat, Overflow>, ids: Option<map<Text, nat>>)
      requires Valid() && (known.Some? ==> IsExtensionMap(known.value, extensions))
      modifies this`extensions
      ensures Valid() && Grows(old(View()), View())
      ensures ids.Some? <==> known.Some?
      ensures ids.Some? ==> IsExtensionMap(ids.value, extensions)
      ensures id.Ok? ==> if ext.None? then id.value == NO_EXTENSION
                         else id.value < NO_EXTENSION && id.value < |extensions| && extensions[id.value] == ext.value
      ensures extensions == if id.Err? || ext.None? || ext.value in old(extensions) then old(extensions)
                            else old(extensions) + [ext.value]
      ensures id.Err? <==> ext.Some? && ext.value !in old(extensions) && |old(extensions)| == NO_EXTENSION
    {
      ids := known;
      if ext.None? {
        return Ok(NO_EXTENSION), ids;
      }
      var value := ext.value;
      var existing: Option<nat> := None;
      if known.Some? {
        existing := if value in known.value then Some(known.value[value]) else None;
      } else {
        existing := Position(value);
      }
      if existing.Some? {
        return Ok(existing.value), ids;
      }
      if |extensions| == NO_EXTENSION {
        return Err(Overflow), ids;
      }
      id := Ok(|extensions|);
      extensions := extensions + [value];
      if known.Some? {
        ids := Some(known.value[value := |extensions| - 1]);
      }
    }

    method Position(value: Text) returns (found: Option<nat>)
      ensures found.Some? ==> found.value < |extensions| && extensions[found.value] == value
      ensures found.None? ==> value !in extensions
    {
      for i := 0 to |extensions|
        invariant value !in extensions[..i]
      {
        if extensions[i] == value {
          return Some(i);
        }
      }
      return None;
    }

    /** `reserve_row`: an arena with room, or a new one. */
    method ReserveRow(bytes: nat) returns (arena: Result<nat, Overflow>)
      requires ArenasOk(arenas, arenaBytes)
      modifies this`arenas
      ensures arena.Ok? ==> arenas == Reserved(old(arenas), arenaBytes, bytes)
      ensures arena.Err? && bytes <= U32_MAX ==> arenas == old(arenas)
      ensures arena.Ok? <==> HasRoom(old(arenas), arenaBytes, bytes)
      ensures arena.Ok? ==>
                arenas != [] && arena.value == |arenas| - 1 <= U32_MAX && |arenas[arena.value]| + bytes <= U32_MAX
    {
      if arenas == [] || bytes > Max(arenaBytes - |arenas[|arenas| - 1]|, 0) {
        if |arenas| > U32_MAX {
          return Err(Overflow);
        }
        arenas := arenas + [[]];
      }
      var id := |arenas| - 1;
      if Checked(0, |arenas[id]| + bytes).Err? || id > U32_MAX {
        return Err(Overflow);
      }
      return Ok(id);
    }

    /** One field of a row: a slice of its parent, or new bytes. No offset can exceed 32 bits
        once the row has been reserved. */
    method LayField(arena: nat, fields: Fields, i: nat, parent: Option<nat>, slices: seq<Slice>, ghost base: nat)
      returns (slice: Slice)
      requires arena < |arenas| && i < 4 && |slices| == i && parent == Parent(fields, i)
      requires |arenas[arena]| == base + |Added(fields, i)| && base + |Added(fields, 4)| <= U32_MAX
      requires forall j :: 0 <= j < i ==> slices[j] == SliceOf(fields, base, j)
      modifies this`arenas
      ensures arenas == if parent.Some? then old(arenas) else Extended(old(arenas), arena, fields[i])
      ensures slice == SliceOf(fields, base, i)
    {
      SliceEnds(fields, base, i);
      AddedGrows(fields, i + 1, 4);
      var start := |arenas[arena]|;
      if parent.Some? {
        var p := parent.value;
        SliceEnds(fields, base, p);
        start := slices[p].start + |fields[p]| - |fields[i]|;
      } else {
        arenas := Extended(arenas, arena, fields[i]);
      }
      var checked := Checked(start, |fields[i]|);
      assert checked.Ok?;
      slice := checked.value;
    }

    /** Appending the strings that share nothing, and the slices of all four. */
    method Lay(arena: nat, fields: Fields, parents: seq<Option<nat>>) returns (slices: seq<Slice>)
      requires arena < |arenas| && |arenas[arena]| + |Added(fields, 4)| <= U32_MAX
      requires |parents| == 4 && forall i :: 0 <= i < 4 ==> parents[i] == Parent(fields, i)
      modifies this`arenas
      ensures arenas == Extended(old(arenas), arena, Added(fields, 4))
      ensures |slices| == 4 && forall i :: 0 <= i < 4 ==> slices[i] == SliceOf(fields, |old(arenas)[arena]|, i)
    {
      ghost var base, was := |arenas[arena]|, arenas;
      slices := [];
      ExtendedByNothing(arenas, arena);
      for i := 0 to 4
        invariant |slices| == i && forall j :: 0 <= j < i ==> slices[j] == SliceOf(fields, base, j)
        invariant arenas == Extended(was, arena, Added(fields, i))
      {
        ExtendedTwice(was, arena, Added(fields, i), fields[i]);
        var slice := LayField(arena, fields, i, parents[i], slices, base);
        slices := slices + [slice];
      }
    }

    /** The shared prefix to use for a path, if one is worth sharing and is admitted. */
    method ChoosePrefix(path: Text, lowered: Text, hint: Option<nat>) returns (prefix: nat)
      requires Valid()
      modifies prefixes
      ensures Valid() && Grows(old(View()), View())
      ensures prefix == NO_PREFIX || (prefix < |prefixes.values| && StartsWith(path, prefixes.values[prefix]))
      ensures IsShared(path, lowered, prefix, prefixes.values)
    {
      if path == lowered || ParentLength(path) < MIN_PREFIX_BYTES {
        NothingShared(path, lowered, prefixes.values);
        return NO_PREFIX;
      }
      var parent := path[..ParentLength(path)];
      if hint.Some? && hint.value < |prefixes.values| && prefixes.values[hint.value] == parent {
        ParentShared(path, lowered, hint.value, prefixes.values);
        return hint.value;
      }
      prefix := InternParent(path, lowered);
    }

    /** The parent directory of a path, if it is in the pool or gets into it. */
    method InternParent(path: Text, lowered: Text) returns (prefix: nat)
      requires Valid() && path != lowered && ParentLength(path) >= MIN_PREFIX_BYTES
      modifies prefixes
      ensures Valid() && Grows(old(View()), View())
      ensures prefix == NO_PREFIX || (prefix < |prefixes.values| && StartsWith(path, prefixes.values[prefix]))
      ensures IsShared(path, lowered, prefix, prefixes.values)
    {
      var id, granted := prefixes.Intern(path[..ParentLength(path)]);
      if id.Some? {
        ParentShared(path, lowered, id.value, prefixes.values);
        prefix := id.value;
      } else {
        NothingShared(path, lowered, prefixes.values);
        prefix := NO_PREFIX;
      }
    }

    /** `pack_record`: the packed strings read back as those of the row, everything packed before
        is undisturbed, and the arenas grow by exactly the bytes the row will account for. */
    method PackRecord(row: Row, lowered: Text, ext: nat, hint: Option<nat>) returns (packed: Result<Packed, Overflow>)
      requires Valid() && (ext == NO_EXTENSION || ext < |extensions|)
      modifies this`arenas, prefixes
      ensures Valid() && Grows(old(View()), View()) && extensions == old(extensions)
      ensures |arenas| <= |old(arenas)| + 1
      ensures packed.Ok? ==> IsShared(row.path, lowered, packed.value.prefix, prefixes.values)
      ensures CanTake(old(arenas), arenaBytes, 1) && IsModerate(lowered, row) ==> packed.Ok?
      ensures packed.Ok? ==> Readable(View(), packed.value)
      ensures packed.Ok? ==> TextsOf(View(), packed.value) == Texts(row.path, lowered, row.basename, row.basenameLower)
      ensures packed.Ok? ==> BytesOf(View(), packed.value) == TotalBytes(arenas) - TotalBytes(old(arenas))
      ensures packed.Ok? ==> packed.value.id == row.id && packed.value.kind == row.kind && packed.value.ext == ext
                             && packed.value.present == PresentOf(InputOf(row))
    {
      ghost var before := View();
      var prefix := ChoosePrefix(row.path, lowered, hint);
      ghost var chosen := View();
      assert chosen.arenas == before.arenas;
      if CanTake(arenas, arenaBytes, 1) && IsModerate(lowered, row) {
        ModerateFits(arenas, arenaBytes, row, lowered, prefixes.Get(prefix));
      }
      packed := PackStrings(row, lowered, ext, prefix);
      GrowsTransits(before, chosen, View());
    }

    /** The rest of `pack_record`, with the prefix chosen. It fails exactly when the texts that are
        left, or the path, do not fit 32 bits, or no arena can take them. */
    method PackStrings(row: Row, lowered: Text, ext: nat, prefix: nat) returns (packed: Result<Packed, Overflow>)
      requires ext == NO_EXTENSION || ext < |extensions|
      requires prefix == NO_PREFIX || (prefix < |prefixes.values| && StartsWith(row.path, prefixes.values[prefix]))
      requires ArenasOk(arenas, arenaBytes)
      modifies this`arenas
      ensures ArenasOk(arenas, arenaBytes) && |old(arenas)| <= |arenas| <= |old(arenas)| + 1
      ensures Grows(old(View()), View())
      ensures var fields := StrippedFields(row, lowered, prefixes.Get(prefix));
              packed.Ok? <==> FitsLayout(fields) && HasRoom(old(arenas), arenaBytes, |Added(fields, 4)|)
                              && |row.path| <= U32_MAX
      ensures packed.Ok? ==> Readable(View(), packed.value)
      ensures packed.Ok? ==> TextsOf(View(), packed.value) == Texts(row.path, lowered, row.basename, row.basenameLower)
      ensures packed.Ok? ==> BytesOf(View(), packed.value) == TotalBytes(arenas) - TotalBytes(old(arenas))
      ensures packed.Ok? ==> packed.value.id == row.id && packed.value.kind == row.kind && packed.value.ext == ext
                             && packed.value.present == PresentOf(InputOf(row)) && packed.value.prefix == prefix
    {
      var shared := prefixes.Get(prefix);
      var fields := [lowered, row.path[|shared|..], row.basename, row.basenameLower];
      var layout := Layout(fields);
      if layout.Err? {
        return Err(layout.error);
      }
      var parents := layout.value.parents;
      var placed := PlaceFields(fields, layout.value);
      if placed.Err? {
        return Err(placed.error);
      }
      if |row.path| > U32_MAX {
        return Err(Overflow);
      }
      var (arena, slices) := placed.value;
      var p := MakePacked(row, arena, slices, parents, ext, prefix);
      MadePackedReads(View(), row, lowered, shared, p, arena, slices, parents, ext, prefix);
      return Ok(p);
    }

    /** The four texts at the end of an arena. */
    method PlaceFields(fields: Fields, layout: RowLayout) returns (placed: Result<(nat, seq<Slice>), Overflow>)
      requires ArenasOk(arenas, arenaBytes) && IsLayout(layout, fields, 4) && layout.required <= U32_MAX
      modifies this`arenas
      ensures ArenasOk(arenas, arenaBytes) && |old(arenas)| <= |arenas| <= |old(arenas)| + 1
      ensures Grows(old(View()), View())
      ensures placed.Ok? <==> HasRoom(old(arenas), arenaBytes, |Added(fields, 4)|)
      ensures placed.Ok? ==> Holds(arenas, fields, placed.value.0, placed.value.1)
      ensures placed.Ok? ==> TotalBytes(arenas) == TotalBytes(old(arenas)) + |Added(fields, 4)|
    {
      ghost var was := View();
      var arena := ReserveRow(layout.required);
      if arena.Ok? {
        var slices := LayReserved(fields, layout.parents, arena.value, was);
        placed := Ok((arena.value, slices));
      } else {
        placed := Err(arena.error);
      }
    }

    /** The texts of a row for which room has been made. */
    method LayReserved(fields: Fields, parents: seq<Option<nat>>, arena: nat, ghost was: Store)
      returns (slices: seq<Slice>)
      requires ArenasOk(was.arenas, arenaBytes) && HasRoom(was.arenas, arenaBytes, |Added(fields, 4)|)
      requires arenas == Reserved(was.arenas, arenaBytes, |Added(fields, 4)|) && View() == was.(arenas := arenas)
      requires arena == |arenas| - 1 <= U32_MAX && |arenas[arena]| + |Added(fields, 4)| <= U32_MAX
      requires |parents| == 4 && forall i :: 0 <= i < 4 ==> parents[i] == Parent(fields, i)
      modifies this`arenas
      ensures ArenasOk(arenas, arenaBytes) && |arenas| == |old(arenas)| && Grows(was, View())
      ensures Holds(arenas, fields, arena, slices)
      ensures TotalBytes(arenas) == TotalBytes(was.arenas) + |Added(fields, 4)|
    {
      slices := Lay(arena, fields, parents);
      FieldsPlaced(was, arenaBytes, fields, slices);
      assert View() == was.(arenas := arenas);
    }
  }
}

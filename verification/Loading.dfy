/** Loading the packed index from the table (`IndexBuilder` and `CompactIndex::load`, `src/compact_index.rs`). */
module Loading {
  import opened Common
  import opened Records
  import opened Changes
  import opened Metadata
  import opened Packing
  import opened PackedRows
  import opened Prefixes
  import opened Strings
  import opened Entries
  import opened PackedIndex

  const RECORDS_PER_BLOCK := 65536
  const PREFIX_POOL_BYTES := 67108864

  /** Every row of the table, in order and live. */
  ghost predicate Loaded(lower: Lowercase, table: seq<Row>, rows: seq<Entry>) {
    |rows| == |table| && forall i :: 0 <= i < |rows| ==> rows[i].live && rows[i].record == Decode(lower, table[i])
  }

  lemma {:induction false} LoadedOneMore(lower: Lowercase, table: seq<Row>, rows: seq<Entry>, k: nat, entry: Entry)
    requires k < |table| && Loaded(lower, table[..k], rows) && entry.live && entry.record == Decode(lower, table[k])
    ensures Loaded(lower, table[..k + 1], rows + [entry])
  {
  }

  lemma {:induction false} BooksOneMore(rows: seq<Entry>, f: Fragmentation, len: int, arenaBytes: int, entry: Entry)
    requires Books(rows, f, len, arenaBytes) && entry.live
    ensures Books(rows + [entry], f, len + 1, arenaBytes + entry.bytes)
  {
    SumSnoc(Alive(), rows, entry);
    SumSnoc(Dead(), rows, entry);
    SumSnoc(LiveBytes(), rows, entry);
    SumSnoc(DeadBytes(), rows, entry);
  }

  // ---------- when a table fits ----------

  ghost predicate IsModerateRow(lower: Lowercase, row: Row) {
    IsModerate(Effective(lower, row), row)
  }

  /** One more row cannot run out of room. */
  ghost predicate HasRoomFor(lower: Lowercase, row: Row, arenas: seq<Text>, arenaBytes: nat, extensions: seq<Text>) {
    CanTake(arenas, arenaBytes, 1) && |extensions| < NO_EXTENSION && IsModerateRow(lower, row)
  }

  /** A table of fewer than 2^32 rows, none of which has more than 4 GiB of text. */
  ghost predicate IsModerateTable(lower: Lowercase, table: seq<Row>) {
    |table| <= NO_EXTENSION && forall i :: 0 <= i < |table| ==> IsModerateRow(lower, table[i])
  }

  lemma {:induction false} ModerateRowFits(lower: Lowercase, row: Row)
    ensures IsModerateRow(lower, row) ==> FitsLayout(FieldsOf(lower, row))
  {
    AddedIsBounded(FieldsOf(lower, row), 4);
  }

  class IndexBuilder {
    const index: CompactIndex
    var extensionIds: map<Text, nat>
    var lastPrefix: Option<nat>

    ghost predicate Valid()
      reads this, index, index.strings, index.strings.prefixes, index.blocks, index.blocks.repr
    {
      index.Valid() && IsExtensionMap(extensionIds, index.strings.extensions)
    }

    constructor (lower: Lowercase, arenaBytes: nat, recordsPerBlock: nat, hash: Hash)
      requires arenaBytes > 0 && recordsPerBlock > 0
      ensures Valid() && index.rows == [] && index.lower == lower
      ensures index.strings.arenas == [] && index.strings.arenaBytes == arenaBytes && index.strings.extensions == []
      ensures index.fragmentation == Fragmentation(0, 0, 0)
      ensures fresh(index) && fresh(index.strings) && fresh(index.strings.prefixes) && fresh(index.blocks)
      ensures fresh(index.blocks.repr)
    {
      index := new CompactIndex(lower, arenaBytes, recordsPerBlock, PREFIX_POOL_BYTES, hash);
      extensionIds := map[];
      lastPrefix := None;
    }

    method Intern(extension: Option<Text>) returns (ext: Result<nat, Overflow>)
      requires Valid()
      modifies this`extensionIds, index.strings
      ensures Valid() && (ext.Ok? ==> ExtMeans(index.strings.extensions, ext.value, extension))
      ensures index.strings.arenas == old(index.strings.arenas)
      ensures |index.strings.extensions| <= |old(index.strings.extensions)| + 1
      ensures |old(index.strings.extensions)| < NO_EXTENSION ==> ext.Ok?
    {
      var ids;
      ext, ids := index.InternExtension(extension, Some(extensionIds));
      extensionIds := ids.value;
    }

    /** One row at the end. */
    method Push(row: Row) returns (done: Result<(), Overflow>, ghost entry: Entry)
      requires Valid()
      modifies this, index`len, index`physicalLen, index`idsSorted, index`rows
      modifies index.strings, index.strings.prefixes, index.blocks, index.blocks.repr
      ensures fresh(index.blocks.repr - old(index.blocks.repr))
      ensures done.Ok? ==>
                && Valid()
                && index.rows == old(index.rows) + [entry]
                && entry.live
                && entry.record == Decode(index.lower, row)
      ensures done.Ok? ==>
                && |index.strings.arenas| <= |old(index.strings.arenas)| + 1
                && |index.strings.extensions| <= |old(index.strings.extensions)| + 1
      ensures HasRoomFor(index.lower, row, old(index.strings.arenas), index.strings.arenaBytes,
                         old(index.strings.extensions))
              ==> done.Ok?
    {
      ModerateRowFits(index.lower, row);
      entry := Entry(Decode(index.lower, row), 0, true);
      var text := NewRowText(index.lower, row);
      if text.Err? {
        return Err(text.error), entry;
      }
      done, entry := PushText(row, text.value);
    }

    /** A row whose lowercase path is known. */
    method PushText(row: Row, lowered: Text) returns (done: Result<(), Overflow>, ghost entry: Entry)
      requires Valid() && lowered == Effective(index.lower, row)
      modifies this, index`len, index`physicalLen, index`idsSorted, index`rows
      modifies index.strings, index.strings.prefixes, index.blocks, index.blocks.repr
      ensures fresh(index.blocks.repr - old(index.blocks.repr))
      ensures done.Ok? ==>
                && Valid()
                && index.rows == old(index.rows) + [entry]
                && entry.live
                && entry.record == Decode(index.lower, row)
      ensures done.Ok? ==>
                && |index.strings.arenas| <= |old(index.strings.arenas)| + 1
                && |index.strings.extensions| <= |old(index.strings.extensions)| + 1
      ensures HasRoomFor(index.lower, row, old(index.strings.arenas), index.strings.arenaBytes,
                         old(index.strings.extensions))
              ==> done.Ok?
    {
      entry := Entry(Decode(index.lower, row), 0, true);
      var ext := Intern(row.extLower);
      if ext.Err? {
        return Err(ext.error), entry;
      }
      done, entry := PushInterned(row, lowered, ext.value);
    }

    /** A row whose extension is in the dictionary; the next row may share its prefix. */
    method PushInterned(row: Row, lowered: Text, ext: nat) returns (done: Result<(), Overflow>, ghost entry: Entry)
      requires Valid() && lowered == Effective(index.lower, row)
      requires ExtMeans(index.strings.extensions, ext, row.extLower)
      modifies this`lastPrefix, index`len, index`physicalLen, index`idsSorted, index`rows
      modifies index.strings, index.strings.prefixes, index.blocks, index.blocks.repr
      ensures fresh(index.blocks.repr - old(index.blocks.repr))
      ensures index.strings.extensions == old(index.strings.extensions)
      ensures |index.strings.arenas| <= |old(index.strings.arenas)| + 1
      ensures done.Ok? ==> index.Valid() && index.rows == old(index.rows) + [entry]
      ensures done.Ok? ==> entry.live && entry.record == Decode(index.lower, row)
      ensures CanTake(old(index.strings.arenas), index.strings.arenaBytes, 1) && IsModerate(lowered, row) ==> done.Ok?
    {
      var hint := lastPrefix;
      var prefix: Result<nat, Overflow>;
      prefix, entry := AppendRow(index, row, lowered, ext, hint);
      done := if prefix.Ok? then Ok(()) else Err(prefix.error);
      lastPrefix := if prefix.Ok? && prefix.value != NO_PREFIX then Some(prefix.value) else hint;
    }
  }

  /** Packing and appending one row, with the books kept. */
  method AppendRow(index: CompactIndex, row: Row, lowered: Text, ext: nat, hint: Option<nat>)
    returns (prefix: Result<nat, Overflow>, ghost entry: Entry)
    requires index.Valid() && lowered == Effective(index.lower, row)
    requires ExtMeans(index.strings.extensions, ext, row.extLower)
    modifies index`len, index`physicalLen, index`idsSorted, index`rows
    modifies index.strings, index.strings.prefixes, index.blocks, index.blocks.repr
    ensures fresh(index.blocks.repr - old(index.blocks.repr))
    ensures index.strings.extensions == old(index.strings.extensions)
    ensures prefix.Ok? ==>
              && index.Valid()
              && index.rows == old(index.rows) + [entry]
              && entry.live
              && entry.record == Decode(index.lower, row)
    ensures |index.strings.arenas| <= |old(index.strings.arenas)| + 1
    ensures CanTake(old(index.strings.arenas), index.strings.arenaBytes, 1) && IsModerate(lowered, row) ==> prefix.Ok?
  {
    entry := Entry(Decode(index.lower, row), 0, true);
    var packed: Result<Packed, Overflow>;
    ghost var bytes: nat;
    packed, bytes := index.Pack(row, lowered, ext, hint);
    if packed.Ok? {
      entry := entry.(bytes := bytes);
      AppendPacked(index, packed.value, InputOf(row), entry);
      prefix := Ok(packed.value.prefix);
    } else {
      prefix := Err(packed.error);
    }
  }

  method AppendPacked(index: CompactIndex, packed: Packed, input: Input, ghost entry: Entry)
    requires index.Faithful() && SlotOk(index.strings.View(), packed, input, entry) && entry.live
    requires Books(index.rows, index.fragmentation, index.len, TotalBytes(index.strings.arenas) - entry.bytes)
    modifies index`len, index`physicalLen, index`idsSorted, index`rows, index.blocks, index.blocks.repr
    ensures fresh(index.blocks.repr - old(index.blocks.repr))
    ensures index.Valid() && index.rows == old(index.rows) + [entry]
  {
    ghost var was, len, total := index.rows, index.len, TotalBytes(index.strings.arenas);
    index.Append(packed, input, entry);
    BooksOneMore(was, index.fragmentation, len, total - entry.bytes, entry);
  }

  /** After `k` rows. */
  ghost predicate IsLoading(lower: Lowercase, table: seq<Row>, k: nat, rows: seq<Entry>, arenas: seq<Text>,
                            extensions: seq<Text>)
    requires k <= |table|
  {
    Loaded(lower, table[..k], rows) && |arenas| <= k && |extensions| <= k
  }

  /** One more row of the table. */
  method PushNext(builder: IndexBuilder, table: seq<Row>, k: nat) returns (done: Result<(), Overflow>)
    requires builder.Valid() && k < |table|
    requires IsLoading(builder.index.lower, table, k, builder.index.rows, builder.index.strings.arenas,
                       builder.index.strings.extensions)
    modifies builder, builder.index`len, builder.index`physicalLen, builder.index`idsSorted, builder.index`rows
    modifies builder.index.strings, builder.index.strings.prefixes, builder.index.blocks, builder.index.blocks.repr
    ensures fresh(builder.index.blocks.repr - old(builder.index.blocks.repr))
    ensures done.Ok? ==>
              builder.Valid() && IsLoading(builder.index.lower, table, k + 1, builder.index.rows,
                                           builder.index.strings.arenas, builder.index.strings.extensions)
    ensures IsModerateTable(builder.index.lower, table) && builder.index.strings.arenaBytes <= U32_MAX ==> done.Ok?
  {
    ghost var was := builder.index.rows;
    ghost var entry: Entry;
    done, entry := builder.Push(table[k]);
    if done.Ok? {
      LoadedOneMore(builder.index.lower, table, was, k, entry);
    }
  }

  /** `load`: exactly the rows of the table, by id. Whether ids ascend is noticed. */
  method Load(lower: Lowercase, table: seq<Row>, hash: Hash) returns (index: Result<CompactIndex, Overflow>)
    ensures index.Ok? ==> index.value.Valid() && index.value.lower == lower && Loaded(lower, table, index.value.rows)
    ensures index.Ok? ==> fresh(index.value) && fresh(index.value.strings) && fresh(index.value.strings.prefixes)
                          && fresh(index.value.blocks) && fresh(index.value.blocks.repr)
    ensures index.Ok? ==>
              index.value.strings.arenaBytes == ARENA_BYTES && index.value.fragmentation == Fragmentation(0, 0, 0)
    ensures IsModerateTable(lower, table) ==> index.Ok?
  {
    var builder := new IndexBuilder(lower, ARENA_BYTES, RECORDS_PER_BLOCK, hash);
    var done := PushAll(builder, table);
    index := if done.Ok? then Ok(builder.index) else Err(done.error);
  }

  /** All rows of the table, into an empty index. */
  method PushAll(builder: IndexBuilder, table: seq<Row>) returns (done: Result<(), Overflow>)
    requires builder.Valid()
    requires IsLoading(builder.index.lower, table, 0, builder.index.rows, builder.index.strings.arenas,
                       builder.index.strings.extensions)
    modifies builder, builder.index`len, builder.index`physicalLen, builder.index`idsSorted, builder.index`rows
    modifies builder.index.strings, builder.index.strings.prefixes, builder.index.blocks, builder.index.blocks.repr
    ensures fresh(builder.index.blocks.repr - old(builder.index.blocks.repr))
    ensures done.Ok? ==> builder.Valid() && Loaded(builder.index.lower, table, builder.index.rows)
    ensures IsModerateTable(builder.index.lower, table) && builder.index.strings.arenaBytes <= U32_MAX ==> done.Ok?
  {
    done := Ok(());
    var k := 0;
    while k < |table| && done.Ok?
      invariant k <= |table| && fresh(builder.index.blocks.repr - old(builder.index.blocks.repr))
      invariant done.Ok? ==> builder.Valid()
      invariant done.Ok? ==> IsLoading(builder.index.lower, table, k, builder.index.rows,
                                       builder.index.strings.arenas, builder.index.strings.extensions)
      invariant IsModerateTable(builder.index.lower, table) && builder.index.strings.arenaBytes <= U32_MAX ==> done.Ok?
    {
      ghost var parts := builder.index.blocks.repr;
      done := PushNext(builder, table, k);
      assert builder.index.blocks.repr - old(builder.index.blocks.repr)
          <= (builder.index.blocks.repr - parts) + (parts - old(builder.index.blocks.repr));
      k := k + 1;
    }
    assert table[..|table|] == table;
  }
}

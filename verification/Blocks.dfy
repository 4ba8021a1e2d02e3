/**
 Fixed-size blocks of records and metadata, addressed by slot (`records`, `metadata`,
 `record_at`, `append` and `update_metadata` of `src/compact_index.rs`).
 */
module Blocks {
  import opened Common
  import opened Metadata
  import opened Packing

  // ---------- blocks as one sequence ----------

  function Flat<T>(blocks: seq<seq<T>>): seq<T> {
    if blocks == [] then [] else Flat(blocks[..|blocks| - 1]) + blocks[|blocks| - 1]
  }

  /** Every block but the last is full, and no block is empty. */
  ghost predicate Shaped<T>(blocks: seq<seq<T>>, size: nat) {
    forall k :: 0 <= k < |blocks| ==> 0 < |blocks[k]| <= size && (k < |blocks| - 1 ==> |blocks[k]| == size)
  }

  function BlockOf(slot: nat, size: nat): nat
    requires size > 0
  {
    slot / size
  }

  function RowIn(slot: nat, size: nat): (row: nat)
    requires size > 0
    ensures row < size
  {
    slot % size
  }

  lemma {:induction false} SmallMultiple(d: int, size: int)
    requires size > 0 && -size < d * size < size
    ensures d == 0
  {
    assert d >= 1 ==> (d - 1) * size >= 0;
    assert d <= -1 ==> (-d - 1) * size >= 0;
  }

  lemma {:induction false} DivModUnique(slot: nat, size: nat, block: nat, row: nat)
    requires size > 0 && row < size && slot == block * size + row
    ensures BlockOf(slot, size) == block && RowIn(slot, size) == row
  {
    var q, r := BlockOf(slot, size), RowIn(slot, size);
    DivMod(slot, size);
    var d := q - block;
    assert d * size == q * size - block * size;
    SmallMultiple(d, size);
  }

  lemma {:induction false} DivMod(slot: nat, size: nat)
    requires size > 0
    ensures slot == BlockOf(slot, size) * size + RowIn(slot, size)
  {
  }

  lemma {:induction false} OneMoreBlock(m: nat, size: nat)
    ensures (m + 1) * size == m * size + size
  {
  }

  lemma {:induction false} FullSize<T>(blocks: seq<seq<T>>, size: nat)
    requires forall k :: 0 <= k < |blocks| ==> |blocks[k]| == size
    ensures |Flat(blocks)| == |blocks| * size
  {
    if blocks != [] {
      FullSize(blocks[..|blocks| - 1], size);
      OneMoreBlock(|blocks| - 1, size);
    }
  }

  /** A slot number finds its element. */
  lemma {:induction false} FlatAt<T>(blocks: seq<seq<T>>, size: nat, slot: nat)
    requires size > 0 && Shaped(blocks, size) && slot < |Flat(blocks)|
    ensures BlockOf(slot, size) < |blocks| && RowIn(slot, size) < |blocks[BlockOf(slot, size)]|
    ensures Flat(blocks)[slot] == blocks[BlockOf(slot, size)][RowIn(slot, size)]
  {
    var m := |blocks| - 1;
    var init := blocks[..m];
    FullSize(init, size);
    if slot < |Flat(init)| {
      FlatAt(init, size, slot);
    } else {
      DivModUnique(slot, size, m, slot - m * size);
    }
  }

  lemma {:induction false} FlatPut<T>(blocks: seq<seq<T>>, size: nat, slot: nat, value: T)
    requires size > 0 && Shaped(blocks, size) && slot < |Flat(blocks)|
    requires BlockOf(slot, size) < |blocks| && RowIn(slot, size) < |blocks[BlockOf(slot, size)]|
    ensures Flat(Put(blocks, BlockOf(slot, size), RowIn(slot, size), value)) == Flat(blocks)[slot := value]
  {
    var m := |blocks| - 1;
    var init := blocks[..m];
    var b, r := BlockOf(slot, size), RowIn(slot, size);
    var next := Put(blocks, b, r, value);
    FullSize(init, size);
    if slot < |Flat(init)| {
      FlatAt(init, size, slot);
      FlatPut(init, size, slot, value);
      assert next[..m] == Put(init, b, r, value);
    } else {
      DivModUnique(slot, size, m, slot - m * size);
      assert next[..m] == init;
    }
  }

  function Put<T>(blocks: seq<seq<T>>, b: nat, r: nat, value: T): seq<seq<T>> {
    if b < |blocks| && r < |blocks[b]| then blocks[b := blocks[b][r := value]] else blocks
  }

  function PutLast<T>(blocks: seq<seq<T>>, b: nat, value: T): seq<seq<T>> {
    if b < |blocks| then blocks[b := blocks[b] + [value]] else blocks
  }

  function Pushed<T>(blocks: seq<seq<T>>, size: nat, value: T): seq<seq<T>> {
    var m := |blocks| - 1;
    if blocks == [] || |blocks[m]| == size then blocks + [[value]] else blocks[m := blocks[m] + [value]]
  }

  lemma {:induction false} FlatPush<T>(blocks: seq<seq<T>>, size: nat, value: T)
    requires size > 0 && Shaped(blocks, size)
    ensures Shaped(Pushed(blocks, size, value), size) && Flat(Pushed(blocks, size, value)) == Flat(blocks) + [value]
  {
    var m := |blocks| - 1;
    var next := Pushed(blocks, size, value);
    if blocks == [] || |blocks[m]| == size {
      assert next[..|blocks|] == blocks;
    } else {
      assert next[..m] == blocks[..m];
    }
  }

  lemma {:induction false} SameShapeSameSize<S, T>(a: seq<seq<S>>, b: seq<seq<T>>)
    requires Alike(a, b)
    ensures |Flat(a)| == |Flat(b)|
  {
    if a != [] {
      SameShapeSameSize(a[..|a| - 1], b[..|b| - 1]);
    }
  }

  // ---------- records beside metadata ----------

  /** Records and metadata in blocks of the same shape, and the two as plain sequences. */
  ghost predicate Aligned<S, T>(records: seq<seq<S>>, models: seq<seq<T>>, size: nat, recs: seq<S>, metas: seq<T>) {
    && size > 0 && Shaped(records, size) && recs == Flat(records)
    && Alike(records, models)
    && metas == Flat(models)
  }

  lemma {:induction false} AlignedAt<S, T>(records: seq<seq<S>>, models: seq<seq<T>>, size: nat, recs: seq<S>,
                                           metas: seq<T>, slot: nat)
    requires Aligned(records, models, size, recs, metas) && slot < |recs|
    ensures BlockOf(slot, size) < |records| && RowIn(slot, size) < |records[BlockOf(slot, size)]|
    ensures records[BlockOf(slot, size)][RowIn(slot, size)] == recs[slot]
    ensures |metas| == |recs| && models[BlockOf(slot, size)][RowIn(slot, size)] == metas[slot]
  {
    FlatAt(records, size, slot);
    SameShapeSameSize(records, models);
    FlatAt(models, size, slot);
  }

  lemma {:induction false} AlignedRecord<S, T>(records: seq<seq<S>>, models: seq<seq<T>>, size: nat, recs: seq<S>,
                                               metas: seq<T>, slot: nat, value: S)
    requires Aligned(records, models, size, recs, metas) && slot < |recs|
    requires BlockOf(slot, size) < |records| && RowIn(slot, size) < |records[BlockOf(slot, size)]|
    ensures Aligned(Put(records, BlockOf(slot, size), RowIn(slot, size), value), models, size, recs[slot := value],
                    metas)
  {
    FlatPut(records, size, slot, value);
  }

  lemma {:induction false} AlignedModel<S, T>(records: seq<seq<S>>, models: seq<seq<T>>, size: nat, recs: seq<S>,
                                              metas: seq<T>, slot: nat, value: T)
    requires Aligned(records, models, size, recs, metas) && slot < |recs| && |metas| == |recs|
    requires BlockOf(slot, size) < |models| && RowIn(slot, size) < |models[BlockOf(slot, size)]|
    ensures Aligned(records, Put(models, BlockOf(slot, size), RowIn(slot, size), value), size, recs,
                    metas[slot := value])
  {
    FlatPut(models, size, slot, value);
  }

  lemma {:induction false} AlignedPush<S, T>(records: seq<seq<S>>, models: seq<seq<T>>, size: nat, recs: seq<S>,
                                             metas: seq<T>, left: S, right: T)
    requires Aligned(records, models, size, recs, metas)
    ensures Aligned(Pushed(records, size, left), Pushed(models, size, right), size, recs + [left], metas + [right])
  {
    FlatPush(records, size, left);
    FlatPush(models, size, right);
    PushedAlike(records, models, size, left, right);
  }

  /** Two block lists of the same shape keep the same shape. */
  ghost predicate Alike<S, T>(a: seq<seq<S>>, b: seq<seq<T>>) {
    |a| == |b| && forall k :: 0 <= k < |a| ==> |a[k]| == |b[k]|
  }

  lemma {:induction false} PushedAlike<S, T>(a: seq<seq<S>>, b: seq<seq<T>>, size: nat, left: S, right: T)
    requires Alike(a, b)
    ensures Alike(Pushed(a, size, left), Pushed(b, size, right))
  {
    assert a != [] ==> |a[|a| - 1]| == |b[|b| - 1]|;
  }

  // ---------- the blocks of an index ----------

  ghost function ModelsOf(blocks: seq<MetadataBlock>): (models: seq<seq<Input>>)
    reads blocks
    ensures |models| == |blocks| && forall k :: 0 <= k < |models| ==> models[k] == blocks[k].model
  {
    seq(|blocks|, k requires 0 <= k < |blocks| reads blocks => blocks[k].model)
  }

  /** Each block of metadata is valid, has room for a block of rows, and is its own object. */
  ghost predicate Intact(blocks: seq<MetadataBlock>, size: nat)
    reads blocks
  {
    && (forall k :: 0 <= k < |blocks| ==> blocks[k].Valid() && blocks[k].rowCapacity >= size)
    && forall j, k :: 0 <= j < k < |blocks| ==> blocks[j] != blocks[k]
  }

  /** Writing to one block of metadata. */
  method UpdateBlock(blocks: seq<MetadataBlock>, size: nat, b: nat, row: nat, input: Input)
    requires Intact(blocks, size) && b < |blocks| && row < |blocks[b].model|
    modifies blocks[b]
    ensures Intact(blocks, size)
    ensures ModelsOf(blocks) == Put(old(ModelsOf(blocks)), b, row, input)
  {
    blocks[b].Update(row, input);
  }

  method PushToBlock(blocks: seq<MetadataBlock>, size: nat, b: nat, input: Input)
    requires Intact(blocks, size) && b < |blocks| && |blocks[b].model| < size
    modifies blocks[b]
    ensures Intact(blocks, size)
    ensures ModelsOf(blocks) == PutLast(old(ModelsOf(blocks)), b, input)
  {
    blocks[b].Push(input);
  }

  class RowBlocks {
    var records: seq<seq<Packed>>
    var metadata: seq<MetadataBlock>
    const size: nat
    /** The records and the metadata by slot. */
    ghost var recs: seq<Packed>
    ghost var metas: seq<Input>

    /** The metadata blocks as objects. */
    ghost var repr: set<MetadataBlock>

    ghost function Models(): (models: seq<seq<Input>>)
      requires repr == set block | block in metadata
      reads this`metadata, this`repr, repr
    {
      ModelsOf(metadata)
    }

    ghost predicate Valid()
      reads this, repr
    {
      && repr == (set block | block in metadata)
      && Intact(metadata, size) && Aligned(records, Models(), size, recs, metas)
    }

    constructor (size: nat)
      requires size > 0
      ensures Valid() && recs == [] && metas == [] && repr == {} && this.size == size
    {
      this.size := size;
      records := [];
      metadata := [];
      recs := [];
      metas := [];
      repr := {};
    }

    function RecordAt(slot: nat): (packed: Packed)
      requires Valid() && slot < |recs|
      reads this, repr
      ensures packed == recs[slot]
    {
      AlignedAt(records, Models(), size, recs, metas, slot);
      records[BlockOf(slot, size)][RowIn(slot, size)]
    }

    /** Stored values are read back exactly. */
    function ValueAt(slot: nat, field: nat): (value: int)
      requires Valid() && slot < |recs| && field < FIELDS
      reads this, repr
      ensures |metas| == |recs| && (metas[slot][field].Some? ==> value == metas[slot][field].value)
    {
      AlignedAt(records, Models(), size, recs, metas, slot);
      metadata[BlockOf(slot, size)].Value(RowIn(slot, size), field)
    }

    method SetRecord(slot: nat, packed: Packed)
      requires Valid() && slot < |recs|
      modifies this`records, this`recs
      ensures Valid() && recs == old(recs)[slot := packed]
    {
      AlignedAt(records, Models(), size, recs, metas, slot);
      AlignedRecord(records, Models(), size, recs, metas, slot, packed);
      var b, r := BlockOf(slot, size), RowIn(slot, size);
      records := Put(records, b, r, packed);
      recs := recs[slot := packed];
    }

    method UpdateMetadata(slot: nat, input: Input)
      requires Valid() && slot < |recs|
      modifies this`metas, repr
      ensures Valid() && |old(metas)| == |recs| && metas == old(metas)[slot := input]
    {
      ghost var models := Models();
      var b, r := BlockOf(slot, size), RowIn(slot, size);
      AlignedAt(records, models, size, recs, metas, slot);
      AlignedModel(records, models, size, recs, metas, slot, input);
      metas := metas[slot := input];
      UpdateBlock(metadata, size, b, r, input);
    }

    /** A new, empty block. */
    method AddBlock()
      requires repr == (set block | block in metadata) && Intact(metadata, size)
      modifies this`metadata, this`repr
      ensures repr == (set block | block in metadata) && Intact(metadata, size)
      ensures Models() == old(Models()) + [[]] && fresh(repr - old(repr))
    {
      var block := new MetadataBlock(size);
      metadata := metadata + [block];
      repr := repr + {block};
    }

    /** A new block when there is none or the last one is full. */
    method Reserve()
      requires repr == (set block | block in metadata) && Intact(metadata, size) && |records| == |metadata|
      modifies this`records, this`metadata, this`repr
      ensures repr == (set block | block in metadata) && Intact(metadata, size)
      ensures records == Reserved(old(records), size)
      ensures Models() == if NeedsBlock(old(records), size) then old(Models()) + [[]] else old(Models())
      ensures fresh(repr - old(repr))
    {
      if NeedsBlock(records, size) {
        records := records + [[]];
        AddBlock();
      }
    }

    method PushMetadata(input: Input)
      requires Valid()
      modifies this`records, this`metadata, this`repr, repr
      ensures repr == (set block | block in metadata) && Intact(metadata, size)
      ensures records == Reserved(old(records), size)
      ensures Models() == Pushed(old(Models()), size, input)
      ensures fresh(repr - old(repr))
    {
      ghost var models := Models();
      ReservedAlike(records, models, size, recs, metas);
      ReservedThenPushed(models, size, input);
      Reserve();
      var last := |metadata| - 1;
      assert metadata[last] in metadata;
      PushToBlock(metadata, size, last, input);
    }

    method PushRecord(packed: Packed, ghost input: Input, ghost was: seq<seq<Packed>>, ghost models: seq<seq<Input>>)
      requires repr == (set block | block in metadata) && Intact(metadata, size) && records == Reserved(was, size)
      requires Models() == Pushed(models, size, input)
      requires Aligned(was, models, size, recs, metas)
      modifies this`records, this`recs, this`metas
      ensures Valid() && recs == old(recs) + [packed] && metas == old(metas) + [input]
    {
      AlignedPush(was, models, size, recs, metas, packed, input);
      ReservedThenPushed(was, size, packed);
      records := PutLast(records, |records| - 1, packed);
      recs := recs + [packed];
      metas := metas + [input];
    }

    method Append(packed: Packed, input: Input)
      requires Valid()
      modifies this, repr
      ensures Valid() && recs == old(recs) + [packed] && metas == old(metas) + [input]
      ensures fresh(repr - old(repr))
    {
      PushMetadata(input);
      PushRecord(packed, input, old(records), old(Models()));
    }
  }

  predicate NeedsBlock<T>(blocks: seq<seq<T>>, size: nat) {
    |blocks| == 0 || |blocks[|blocks| - 1]| == size
  }

  function Reserved<T>(blocks: seq<seq<T>>, size: nat): (reserved: seq<seq<T>>)
    ensures reserved != []
  {
    if NeedsBlock(blocks, size) then blocks + [[]] else blocks
  }

  lemma {:induction false} ReservedThenPushed<T>(blocks: seq<seq<T>>, size: nat, value: T)
    ensures var reserved := Reserved(blocks, size);
            PutLast(reserved, |reserved| - 1, value) == Pushed(blocks, size, value)
  {
    var reserved := Reserved(blocks, size);
    if blocks == [] || |blocks[|blocks| - 1]| == size {
      assert reserved[|blocks|] + [value] == [value];
      assert reserved[|blocks| := [value]] == blocks + [[value]];
    }
  }

  lemma {:induction false} ReservedAlike<S, T>(records: seq<seq<S>>, models: seq<seq<T>>, size: nat, recs: seq<S>,
                                               metas: seq<T>)
    requires Aligned(records, models, size, recs, metas)
    ensures Reserved(models, size) == if NeedsBlock(records, size) then models + [[]] else models
    ensures |Reserved(models, size)[|Reserved(models, size)| - 1]| < size
  {
  }
}

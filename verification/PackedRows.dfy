/** What one slot of the packed index means, given the arenas and dictionaries it points into. */
module PackedRows {
  import opened Common
  import opened Records
  import opened Metadata
  import opened Packing

  /** Byte arenas, interned path prefixes and extensions. */
  datatype Store = Store(arenas: seq<Text>, prefixes: seq<Text>, extensions: seq<Text>)

  ghost predicate IsPrefix<T(!new)>(a: seq<T>, b: seq<T>) {
    |a| <= |b| && b[..|a|] == a
  }

  /** Arenas and dictionaries only grow. */
  ghost predicate Grows(was: Store, now: Store) {
    && |was.arenas| <= |now.arenas| && (forall a :: 0 <= a < |was.arenas| ==> IsPrefix(was.arenas[a], now.arenas[a]))
    && IsPrefix(was.prefixes, now.prefixes) && IsPrefix(was.extensions, now.extensions)
  }

  lemma {:induction false} GrowsTransits(a: Store, b: Store, c: Store)
    requires Grows(a, b) && Grows(b, c)
    ensures Grows(a, c)
  {
    forall i | 0 <= i < |a.arenas| ensures IsPrefix(a.arenas[i], c.arenas[i]) {
      assert IsPrefix(a.arenas[i], b.arenas[i]) && IsPrefix(b.arenas[i], c.arenas[i]);
      assert c.arenas[i][..|a.arenas[i]|] == c.arenas[i][..|b.arenas[i]|][..|a.arenas[i]|];
    }
    assert c.prefixes[..|a.prefixes|] == c.prefixes[..|b.prefixes|][..|a.prefixes|];
    assert c.extensions[..|a.extensions|] == c.extensions[..|b.extensions|][..|a.extensions|];
  }

  predicate HasPrefix(store: Store, p: Packed) {
    p.prefix == NO_PREFIX || p.prefix < |store.prefixes|
  }

  predicate HasExt(store: Store, p: Packed) {
    p.ext == NO_EXTENSION || p.ext < |store.extensions|
  }

  function PrefixText(store: Store, p: Packed): Text
    requires HasPrefix(store, p)
  {
    if p.prefix == NO_PREFIX then [] else if p.prefix < |store.prefixes| then store.prefixes[p.prefix] else []
  }

  function ExtText(store: Store, p: Packed): Option<Text>
    requires HasExt(store, p)
  {
    if p.ext == NO_EXTENSION then None else if p.ext < |store.extensions| then Some(store.extensions[p.ext]) else None
  }

  /** `path_suffix_slice` */
  function PathSuffix(store: Store, p: Packed): Slice
    requires HasPrefix(store, p)
  {
    Slice(p.path.start, p.path.len - |PrefixText(store, p)|)
  }

  /** Every slice of the record lies within its arena. */
  predicate Readable(store: Store, p: Packed) {
    && HasPrefix(store, p) && HasExt(store, p) && p.arena < |store.arenas|
    && var suffix, arena := PathSuffix(store, p), store.arenas[p.arena];
       && InBounds(suffix, arena) && InBounds(p.pathLower, arena)
       && InBounds(p.BasenameSlice(suffix), arena) && InBounds(p.BasenameLowerSlice(suffix), arena)
  }

  datatype Texts = Texts(path: Text, pathLower: Text, basename: Text, basenameLower: Text)

  function TextsOf(store: Store, p: Packed): Texts
    requires Readable(store, p)
  {
    var suffix, arena := PathSuffix(store, p), store.arenas[p.arena];
    Texts(PrefixText(store, p) + Read(arena, suffix), Read(arena, p.pathLower),
          Read(arena, p.BasenameSlice(suffix)), Read(arena, p.BasenameLowerSlice(suffix)))
  }

  function BytesOf(store: Store, p: Packed): int
    requires HasPrefix(store, p)
  {
    RowBytes(p, PathSuffix(store, p))
  }

  /** A row cannot have more bytes than its arena. */
  lemma {:induction false} RowBytesFit(store: Store, p: Packed)
    requires Readable(store, p)
    ensures BytesOf(store, p) <= |store.arenas[p.arena]|
  {
  }

  lemma {:induction false} GrownArenaReads(was: Text, now: Text, slice: Slice)
    requires IsPrefix(was, now) && InBounds(slice, was)
    ensures InBounds(slice, now) && Read(now, slice) == Read(was, slice)
  {
    assert now[..|was|][slice.start..slice.End()] == now[slice.start..slice.End()];
  }

  /** Later appends never disturb an earlier row. */
  lemma {:induction false} GrowthKeepsTexts(was: Store, now: Store, p: Packed)
    requires Grows(was, now) && Readable(was, p)
    ensures Readable(now, p) && TextsOf(now, p) == TextsOf(was, p) && ExtText(now, p) == ExtText(was, p)
    ensures BytesOf(now, p) == BytesOf(was, p)
  {
    assert PrefixText(now, p) == PrefixText(was, p) by {
      if p.prefix < |was.prefixes| {
        assert now.prefixes[..|was.prefixes|][p.prefix] == now.prefixes[p.prefix];
      }
    }
    assert ExtText(now, p) == ExtText(was, p) by {
      if p.ext < |was.extensions| {
        assert now.extensions[..|was.extensions|][p.ext] == now.extensions[p.ext];
      }
    }
    var suffix, a, b := PathSuffix(was, p), was.arenas[p.arena], now.arenas[p.arena];
    GrownArenaReads(a, b, suffix);
    GrownArenaReads(a, b, p.pathLower);
    GrownArenaReads(a, b, p.BasenameSlice(suffix));
    GrownArenaReads(a, b, p.BasenameLowerSlice(suffix));
  }

  /** The four strings packed into an arena are read back, whatever they share. */
  lemma {:induction false} PackedTexts(store: Store, p: Packed, before: Text, fields: Fields)
    requires HasPrefix(store, p) && HasExt(store, p) && p.arena < |store.arenas|
    requires store.arenas[p.arena] == before + Added(fields, 4)
    requires LaidOut(p, fields, |before|, PathSuffix(store, p))
    ensures Readable(store, p)
    ensures TextsOf(store, p) == Texts(PrefixText(store, p) + fields[1], fields[0], fields[2], fields[3])
    ensures BytesOf(store, p) == |Added(fields, 4)|
  {
    DerivedSlicesAreLaidOut(p, fields, |before|, PathSuffix(store, p));
    RowBytesAreAdded(p, fields, |before|, PathSuffix(store, p));
    SliceReads(fields, before, 0);
    SliceReads(fields, before, 1);
    SliceReads(fields, before, 2);
    SliceReads(fields, before, 3);
  }

  // ---------- metadata ----------

  function InputOf(row: Row): (input: Input) {
    [row.size, row.mtime, row.ctime, row.dev, row.inode, Some(row.indexedAt)]
  }

  /** The bits of `present` for the optional fields. */
  function PresentOf(input: Input): set<nat> {
    set f: nat | f < 5 && input[f].Some?
  }

  // ---------- slots ----------

  /** A slot as seen from outside: the record it holds or last held, and the arena bytes that
      belong to it. */
  datatype Entry = Entry(record: FileRecord, bytes: nat, live: bool)

  ghost predicate MetaOk(p: Packed, input: Input) {
    (forall f :: 0 <= f < 5 ==> (f in p.present <==> input[f].Some?)) && input[5].Some?
  }

  ghost function RecordOf(store: Store, p: Packed, input: Input): FileRecord
    requires Readable(store, p) && MetaOk(p, input)
  {
    var texts := TextsOf(store, p);
    FileRecord(p.id, texts.path, texts.pathLower, texts.basename, texts.basenameLower, ExtText(store, p), p.kind,
               input[0], input[1], input[2], input[3], input[4], input[5].value)
  }

  ghost predicate SlotOk(store: Store, p: Packed, input: Input, entry: Entry) {
    && Readable(store, p) && MetaOk(p, input)
    && entry.record == RecordOf(store, p, input)
    && entry.bytes == BytesOf(store, p) && (entry.live <==> p.IsLive())
  }

  ghost predicate SlotsOk(store: Store, recs: seq<Packed>, metas: seq<Input>, rows: seq<Entry>) {
    && |recs| == |metas| == |rows|
    && forall i {:trigger SlotOk(store, recs[i], metas[i], rows[i])} :: 0 <= i < |rows| ==>
        SlotOk(store, recs[i], metas[i], rows[i])
  }

  lemma {:induction false} GrowthKeepsSlots(was: Store, now: Store, recs: seq<Packed>, metas: seq<Input>,
                                            rows: seq<Entry>)
    requires Grows(was, now) && SlotsOk(was, recs, metas, rows)
    ensures SlotsOk(now, recs, metas, rows)
  {
    forall i | 0 <= i < |rows| ensures SlotOk(now, recs[i], metas[i], rows[i]) {
      assert SlotOk(was, recs[i], metas[i], rows[i]);
      GrowthKeepsTexts(was, now, recs[i]);
    }
  }

  /** The record a row is stored as. */
  lemma {:induction false} PackedSlot(lower: Lowercase, store: Store, p: Packed, row: Row)
    requires Readable(store, p) && p.id == row.id && p.kind == row.kind && p.present == PresentOf(InputOf(row))
    requires TextsOf(store, p) == Texts(row.path, Effective(lower, row), row.basename, row.basenameLower)
    requires ExtText(store, p) == row.extLower && BytesOf(store, p) >= 0
    ensures SlotOk(store, p, InputOf(row), Entry(Decode(lower, row), BytesOf(store, p), true))
  {
  }

  /** Marking a slot dead leaves its content readable. */
  lemma {:induction false} TombstonedSlot(store: Store, p: Packed, input: Input, entry: Entry)
    requires SlotOk(store, p, input, entry)
    ensures SlotOk(store, p.(present := p.present + {TOMBSTONE}), input, entry.(live := false))
  {
    var dead := p.(present := p.present + {TOMBSTONE});
    assert PathSuffix(store, dead) == PathSuffix(store, p);
    assert TextsOf(store, dead) == TextsOf(store, p);
  }

  /** Unchanged strings: only the metadata of the slot is replaced. */
  lemma {:induction false} RefreshedSlot(lower: Lowercase, store: Store, p: Packed, input: Input, entry: Entry,
                                         row: Row, ext: nat)
    requires SlotOk(store, p, input, entry)
    requires TextsOf(store, p) == Texts(row.path, Effective(lower, row), row.basename, row.basenameLower)
    requires var q := p.(id := row.id, kind := row.kind, ext := ext, present := PresentOf(InputOf(row)));
             HasExt(store, q) && ExtText(store, q) == row.extLower
    ensures var q := p.(id := row.id, kind := row.kind, ext := ext, present := PresentOf(InputOf(row)));
            SlotOk(store, q, InputOf(row), Entry(Decode(lower, row), entry.bytes, true))
  {
    var q := p.(id := row.id, kind := row.kind, ext := ext, present := PresentOf(InputOf(row)));
    assert PathSuffix(store, q) == PathSuffix(store, p);
    assert TextsOf(store, q) == TextsOf(store, p);
    assert BytesOf(store, q) == BytesOf(store, p);
  }
}

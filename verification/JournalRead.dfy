/** Reading a bounded delta from the journal (`src/db.rs`). */
module JournalRead {
  import opened Common
  import opened Records
  import opened Changes
  import opened Journal
  import opened Retention

  datatype Reason =
    DatabaseReplaced | RevisionRegressed | JournalUnavailable | HistoryGap | EventLimit | IdLimit | ByteLimit

  datatype ChangeRead = Available(target: Stamp, changes: seq<FileChange>) | Fallback(reason: Reason)

  datatype ReadLimits = ReadLimits(maxEvents: nat, maxIds: nat, maxPayloadBytes: nat)

  // ---------- what the delta should be ----------

  function IdsOf(event: Event): set<int> {
    Lost(event.oldId) + Lost(event.newId) + Lost(event.conflictId)
  }

  /** Ids mentioned by the stored events of revisions `(b, t]`. */
  function MentionedIds(journal: map<int, Event>, b: int, t: int): set<int>
    decreases t - b
  {
    if t <= b then {} else MentionedIds(journal, b, t - 1) + (if t in journal then IdsOf(journal[t]) else {})
  }

  /** Every revision of `(b, t]` is stored and names at least one id. */
  ghost predicate Intact(journal: map<int, Event>, b: int, t: int) {
    forall r :: b < r <= t ==> r in journal && IdsOf(journal[r]) != {}
  }

  /** The first revision of `(b, t]` that is lost or names no id, met before the mentioned ids exceed
      the limit. */
  ghost predicate GapFirst(journal: map<int, Event>, b: int, t: int, limit: nat) {
    exists r ::
      b < r <= t && IsGap(journal, r) && Intact(journal, b, r - 1) && |MentionedIds(journal, b, r - 1)| <= limit
  }

  predicate IsGap(journal: map<int, Event>, r: int) {
    r !in journal || IdsOf(journal[r]) == {}
  }

  ghost predicate SpanIsStored(s: Db, b: int) {
    Intact(s.journal, b, s.revision)
  }

  function RecordAt(lower: Lowercase, files: map<int, Row>, id: int): Option<FileRecord> {
    if id in files then Some(Decode(lower, files[id])) else None
  }

  /** Strictly ascending ids, exactly those mentioned, each with its row in the snapshot. */
  ghost predicate IsDelta(lower: Lowercase, s: Db, b: int, changes: seq<FileChange>) {
    && AscendingChanges(changes)
    && (forall i :: 0 <= i < |changes| ==> changes[i].record == RecordAt(lower, s.files, changes[i].id))
    && (forall i :: 0 <= i < |changes| ==> changes[i].id in MentionedIds(s.journal, b, s.revision))
    && forall id :: id in MentionedIds(s.journal, b, s.revision) ==> HasChange(changes, id)
  }

  ghost predicate HasChange(changes: seq<FileChange>, id: int) {
    exists i :: 0 <= i < |changes| && changes[i].id == id
  }

  function ViewOf(lower: Lowercase, s: Db): (view: View)
    ensures view.Keys == s.files.Keys
  {
    map id | id in s.files :: Decode(lower, s.files[id])
  }

  lemma {:induction false} MentionedBy(journal: map<int, Event>, b: int, t: int, r: int, id: int)
    requires b < r <= t && r in journal && Mentions(journal[r], id)
    ensures id in MentionedIds(journal, b, t)
    decreases t - b
  {
    if r < t {
      MentionedBy(journal, b, t - 1, r, id);
    }
  }

  /** The delta theorem: over every history of inserts, updates, deletes, upserts, `OR REPLACE`
      writes, rollbacks, journal losses and re-installations, a delta read from an intact span
      turns the rows of the base snapshot into exactly the rows of the target. */
  lemma {:induction false} DeltaReachesTarget(lower: Lowercase, base: Db, txs: seq<Transaction>,
                                              changes: seq<FileChange>)
    requires WellFormed(base)
    requires SpanIsStored(Commit(base, txs), base.revision) && IsDelta(lower, Commit(base, txs), base.revision, changes)
    ensures ApplyAll(lower, ViewOf(lower, base), changes) == ViewOf(lower, Commit(base, txs))
  {
    HistoryExtends(base, txs);
    SpanReachesTarget(lower, base, Commit(base, txs), changes);
  }

  /** A row no stored event of an intact span mentions is the same at both ends. */
  lemma {:induction false} UnmentionedIsUnchanged(base: Db, target: Db, id: int)
    requires Extends(base, target) && SpanIsStored(target, base.revision)
    requires id !in MentionedIds(target.journal, base.revision, target.revision)
    ensures RowAt(base.files, id) == RowAt(target.files, id)
  {
    if RowAt(base.files, id) != RowAt(target.files, id) {
      assert Covered(base, target, id);
      var r :| base.revision < r <= target.revision && (r in target.journal ==> Mentions(target.journal[r], id));
      MentionedBy(target.journal, base.revision, target.revision, r, id);
      assert false;
    }
  }

  lemma {:induction false} SpanReachesTarget(lower: Lowercase, base: Db, target: Db, changes: seq<FileChange>)
    requires WellFormed(base) && Extends(base, target)
    requires SpanIsStored(target, base.revision) && IsDelta(lower, target, base.revision, changes)
    ensures ApplyAll(lower, ViewOf(lower, base), changes) == ViewOf(lower, target)
  {
    var applied, goal := ApplyAll(lower, ViewOf(lower, base), changes), ViewOf(lower, target);
    forall id ensures At(applied, id) == At(goal, id) {
      AppliedAt(lower, ViewOf(lower, base), changes, id);
      if HasChange(changes, id) {
        var i :| 0 <= i < |changes| && changes[i].id == id;
        assert StoredOption(lower, changes[i].record) == RecordAt(lower, target.files, id);
      } else {
        UnmentionedIsUnchanged(base, target, id);
      }
    }
    SameView(applied, goal);
  }

  // ---------- the reader ----------

  /** `SELECT ... WHERE revision > b AND revision <= t ORDER BY revision` */
  function SelectEvents(journal: map<int, Event>, b: int, t: int): seq<(int, Event)>
    decreases t - b
  {
    if t <= b then []
    else if b + 1 in journal then [(b + 1, journal[b + 1])] + SelectEvents(journal, b + 1, t)
    else SelectEvents(journal, b + 1, t)
  }

  lemma {:induction false} FirstEvent(journal: map<int, Event>, b: int, t: int)
    ensures SelectEvents(journal, b, t) == [] ==> forall r :: b < r <= t ==> r !in journal
    ensures SelectEvents(journal, b, t) != [] ==>
              var (r, event) := SelectEvents(journal, b, t)[0];
              && b < r <= t && r in journal && event == journal[r] && (forall k :: b < k < r ==> k !in journal)
              && SelectEvents(journal, b, t)[1..] == SelectEvents(journal, r, t)
    decreases t - b
  {
    if b < t {
      FirstEvent(journal, b + 1, t);
    }
  }

  predicate AscendingIds(ids: seq<int>) {
    forall i, j :: 0 <= i < j < |ids| ==> ids[i] < ids[j]
  }

  function SetOf(ids: seq<int>): set<int> {
    set id | id in ids
  }

  /** `BTreeSet::insert` on the ordered contents. */
  function InsertId(ids: seq<int>, id: int): (r: seq<int>) {
    if ids == [] then [id]
    else if id < ids[0] then [id] + ids
    else if id == ids[0] then ids
    else [ids[0]] + InsertId(ids[1..], id)
  }

  lemma {:induction false} InsertedId(ids: seq<int>, id: int)
    requires AscendingIds(ids)
    ensures AscendingIds(InsertId(ids, id)) && SetOf(InsertId(ids, id)) == SetOf(ids) + {id}
  {
    if ids != [] {
      FirstIsLeast(ids);
      if id < ids[0] {
        SetOfCons(id, ids);
        AscendingCons(id, ids);
      } else if id == ids[0] {
        assert id in SetOf(ids);
      } else {
        InsertedId(ids[1..], id);
        InsertedDeeper(ids, id, InsertId(ids[1..], id));
      }
    }
  }

  lemma {:induction false} InsertedDeeper(ids: seq<int>, id: int, t: seq<int>)
    requires AscendingIds(ids) && ids != [] && ids[0] < id && AscendingIds(t) && SetOf(t) == SetOf(ids[1..]) + {id}
    ensures AscendingIds([ids[0]] + t) && SetOf([ids[0]] + t) == SetOf(ids) + {id}
  {
    FirstIsLeast(ids);
    SetOfCons(ids[0], t);
    SetOfCons(ids[0], ids[1..]);
    assert ids == [ids[0]] + ids[1..];
    AscendingCons(ids[0], t);
  }

  lemma {:induction false} FirstIsLeast(ids: seq<int>)
    requires AscendingIds(ids) && ids != []
    ensures AscendingIds(ids[1..]) && forall y :: y in SetOf(ids[1..]) ==> ids[0] < y
    ensures forall y :: y in SetOf(ids) ==> ids[0] <= y
  {
  }

  lemma {:induction false} AscendingCons(x: int, t: seq<int>)
    requires AscendingIds(t) && forall y :: y in SetOf(t) ==> x < y
    ensures AscendingIds([x] + t)
  {
    forall j | 0 <= j < |t| ensures x < t[j] {
      assert t[j] in SetOf(t);
    }
  }

  lemma {:induction false} SetOfCons(x: int, t: seq<int>)
    ensures SetOf([x] + t) == {x} + SetOf(t)
  {
  }

  lemma {:induction false} AscendingSize(ids: seq<int>)
    requires AscendingIds(ids)
    ensures |SetOf(ids)| == |ids|
  {
    if ids != [] {
      AscendingSize(ids[1..]);
      SetOfCons(ids[0], ids[1..]);
      assert ids == [ids[0]] + ids[1..];
    }
  }

  /** One optional id column of one event. */
  method InsertColumn(ids: seq<int>, column: Option<int>, limit: nat) returns (next: seq<int>, exceeded: bool)
    requires AscendingIds(ids)
    ensures AscendingIds(next) && SetOf(next) == SetOf(ids) + Lost(column)
    ensures exceeded <==> column.Some? && |SetOf(next)| > limit
  {
    next, exceeded := ids, false;
    if column.Some? {
      next := InsertId(ids, column.value);
      InsertedId(ids, column.value);
      AscendingSize(next);
      exceeded := |next| > limit;
    }
  }

  /** The ids of one event, stopping as soon as the limit is exceeded. */
  method InsertEvent(ids: seq<int>, event: Event, limit: nat) returns (next: seq<int>, exceeded: bool)
    requires AscendingIds(ids)
    ensures AscendingIds(next) && SetOf(next) <= SetOf(ids) + IdsOf(event)
    ensures exceeded ==> |SetOf(next)| > limit && IdsOf(event) != {}
    ensures !exceeded ==> SetOf(next) == SetOf(ids) + IdsOf(event) && (IdsOf(event) != {} ==> |SetOf(next)| <= limit)
  {
    NoColumnNoId(event);
    next, exceeded := InsertColumn(ids, event.oldId, limit);
    if exceeded {
      return;
    }
    next, exceeded := InsertColumn(next, event.newId, limit);
    if exceeded {
      return;
    }
    next, exceeded := InsertColumn(next, event.conflictId, limit);
  }

  datatype IdRead = Ids(ids: seq<int>) | Failed(reason: Reason)

  lemma {:induction false} MentionedGrows(journal: map<int, Event>, b: int, m: int, t: int)
    requires b <= m <= t
    ensures MentionedIds(journal, b, m) <= MentionedIds(journal, b, t)
    decreases t - m
  {
    if m < t {
      MentionedGrows(journal, b, m, t - 1);
    }
  }

  lemma {:induction false} NoColumnNoId(event: Event)
    ensures IdsOf(event) == {} <==> event.oldId.None? && event.newId.None? && event.conflictId.None?
  {
    assert event.oldId.Some? ==> event.oldId.value in IdsOf(event);
    assert event.newId.Some? ==> event.newId.value in IdsOf(event);
    assert event.conflictId.Some? ==> event.conflictId.value in IdsOf(event);
  }

  /** What the event loop has established when it reaches revision `m`. */
  ghost predicate ReadTo(journal: map<int, Event>, b: int, m: int, ids: seq<int>, limit: nat) {
    && AscendingIds(ids)
    && SetOf(ids) == MentionedIds(journal, b, m)
    && Intact(journal, b, m)
    && |MentionedIds(journal, b, m)| <= limit
  }

  lemma {:induction false} ReadToNext(journal: map<int, Event>, b: int, m: int, ids: seq<int>, next: seq<int>,
                                      limit: nat)
    requires b <= m && m + 1 in journal && ReadTo(journal, b, m, ids, limit) && IdsOf(journal[m + 1]) != {}
    requires AscendingIds(next) && SetOf(next) == SetOf(ids) + IdsOf(journal[m + 1]) && |SetOf(next)| <= limit
    ensures ReadTo(journal, b, m + 1, next, limit)
  {
    assert MentionedIds(journal, b, m + 1) == SetOf(next);
  }

  lemma {:induction false} ExceedsForGood(journal: map<int, Event>, b: int, m: int, t: int, ids: set<int>, limit: nat)
    requires b <= m < t && m + 1 in journal && ids <= MentionedIds(journal, b, m) + IdsOf(journal[m + 1])
    requires |ids| > limit
    ensures |MentionedIds(journal, b, t)| > limit
  {
    MentionedGrows(journal, b, m + 1, t);
    assert ids <= MentionedIds(journal, b, m + 1);
    SubsetSize(ids, MentionedIds(journal, b, t));
  }

  /** Once the limit is exceeded, no gap comes first. */
  lemma {:induction false} NoGapFirst(journal: map<int, Event>, b: int, m: int, t: int, ids: set<int>, limit: nat)
    requires b <= m < t && Intact(journal, b, m + 1) && ids <= MentionedIds(journal, b, m) + IdsOf(journal[m + 1])
    requires |ids| > limit
    ensures !GapFirst(journal, b, t, limit)
  {
    forall r | b < r <= t && IsGap(journal, r) ensures |MentionedIds(journal, b, r - 1)| > limit {
      LateGap(journal, b, m, r, ids, limit);
    }
  }

  lemma {:induction false} LateGap(journal: map<int, Event>, b: int, m: int, r: int, ids: set<int>, limit: nat)
    requires b <= m && b < r && IsGap(journal, r)
    requires Intact(journal, b, m + 1) && ids <= MentionedIds(journal, b, m) + IdsOf(journal[m + 1])
    requires |ids| > limit
    ensures |MentionedIds(journal, b, r - 1)| > limit
  {
    assert r > m + 1;
    ExceedsForGood(journal, b, m, r - 1, ids, limit);
  }

  /** One event row. */
  method ReadEvent(journal: map<int, Event>, ghost b: int, ghost t: int, previous: int, revision: int, event: Event,
                   ids: seq<int>, limit: nat)
    returns (read: IdRead)
    requires b <= previous < revision <= t && revision in journal && journal[revision] == event
    requires forall k :: previous < k < revision ==> k !in journal
    requires ReadTo(journal, b, previous, ids, limit)
    ensures read.Ids? ==> revision == previous + 1 && ReadTo(journal, b, revision, read.ids, limit)
    ensures read.Failed? ==> read.reason in {HistoryGap, IdLimit}
    ensures read == Failed(HistoryGap) ==> GapFirst(journal, b, t, limit)
    ensures read == Failed(IdLimit) ==> !GapFirst(journal, b, t, limit) && |MentionedIds(journal, b, t)| > limit
  {
    if revision - previous != 1 {
      assert IsGap(journal, previous + 1);
      return Failed(HistoryGap);
    }
    var next, exceeded := InsertEvent(ids, event, limit);
    NoColumnNoId(event);
    if exceeded {
      ExceedsForGood(journal, b, previous, t, SetOf(next), limit);
      NoGapFirst(journal, b, previous, t, SetOf(next), limit);
      return Failed(IdLimit);
    }
    if event.oldId.None? && event.newId.None? && event.conflictId.None? {
      assert IsGap(journal, revision);
      return Failed(HistoryGap);
    }
    ReadToNext(journal, b, previous, ids, next, limit);
    return Ids(next);
  }

  /** The event loop: contiguity, presence of ids, and the id limit. */
  method ReadIds(journal: map<int, Event>, b: int, t: int, limit: nat) returns (read: IdRead)
    requires b < t
    ensures read.Ids? ==> ReadTo(journal, b, t, read.ids, limit)
    ensures read.Failed? ==> read.reason in {HistoryGap, IdLimit}
    ensures read == Failed(HistoryGap) ==> GapFirst(journal, b, t, limit)
    ensures read == Failed(IdLimit) ==> !GapFirst(journal, b, t, limit) && |MentionedIds(journal, b, t)| > limit
  {
    var events := SelectEvents(journal, b, t);
    var previous := b;
    read := Ids([]);
    var k := 0;
    while k < |events|
      invariant b <= previous <= t && 0 <= k <= |events|
      invariant events[k..] == SelectEvents(journal, previous, t)
      invariant read.Ids? && ReadTo(journal, b, previous, read.ids, limit)
    {
      var (revision, event) := events[k];
      FirstEvent(journal, previous, t);
      assert events[k..][0] == events[k];
      read := ReadEvent(journal, b, t, previous, revision, event, read.ids, limit);
      if read.Failed? {
        return;
      }
      assert events[k..][1..] == events[k + 1..];
      previous := revision;
      k := k + 1;
    }
    if previous != t {
      FirstEvent(journal, previous, t);
      assert IsGap(journal, previous + 1);
      return Failed(HistoryGap);
    }
  }

  // ---------- rows and the byte limit ----------

  function KindBytes(kind: FileKind): nat {
    match kind
    case File => 4
    case Directory => 3
    case Symlink => 7
    case App => 3
    case Other => 5
  }

  function TextBytes(text: Option<Text>): nat {
    if text.Some? then |text.value| else 0
  }

  /** Bytes of the stored columns. */
  function RawBytes(row: Row): nat {
    |row.path| + TextBytes(row.pathLower) + |row.basename| + |row.basenameLower| + TextBytes(row.extLower)
    + KindBytes(row.kind)
  }

  /** `row_text_payload_bytes` */
  function PayloadBytes(lower: Lowercase, row: Row): nat {
    |row.path| + |Effective(lower, row)| + |row.basename| + |row.basenameLower| + TextBytes(row.extLower)
    + KindBytes(row.kind) * 3
  }

  function Payload(lower: Lowercase, files: map<int, Row>, ids: seq<int>): nat {
    if ids == [] then 0
    else Payload(lower, files,
                 ids[..|ids| - 1]) + (if ids[|ids| - 1] in files then PayloadBytes(lower, files[ids[|ids| - 1]]) else 0)
  }

  lemma {:induction false} PayloadGrows(lower: Lowercase, files: map<int, Row>, ids: seq<int>, k: nat)
    requires k <= |ids|
    ensures Payload(lower, files, ids[..k]) <= Payload(lower, files, ids)
  {
    if k < |ids| {
      var init := ids[..|ids| - 1];
      assert init[..k] == ids[..k];
      PayloadGrows(lower, files, init, k);
    } else {
      assert ids[..k] == ids;
    }
  }

  /** The row loop: each id's final row, or the byte limit. */
  method ReadRows(lower: Lowercase, files: map<int, Row>, ids: seq<int>, maxPayloadBytes: nat)
    returns (changes: Option<seq<FileChange>>)
    ensures changes.Some? <==> Payload(lower, files, ids) <= maxPayloadBytes
    ensures changes.Some? ==> |changes.value| == |ids|
                              && forall i :: 0 <= i < |ids| ==>
                                  changes.value[i] == FileChange(ids[i], RecordAt(lower, files, ids[i]))
  {
    var read: seq<FileChange> := [];
    var payload := 0;
    for k := 0 to |ids|
      invariant |read| == k && payload == Payload(lower, files, ids[..k]) <= maxPayloadBytes
      invariant forall i :: 0 <= i < k ==> read[i] == FileChange(ids[i], RecordAt(lower, files, ids[i]))
    {
      assert ids[..k + 1][..k] == ids[..k];
      PayloadGrows(lower, files, ids, k + 1);
      var id := ids[k];
      var record: Option<FileRecord> := None;
      if id in files {
        if payload + RawBytes(files[id]) > maxPayloadBytes {
          return None;
        }
        var total := payload + PayloadBytes(lower, files[id]);
        if total > maxPayloadBytes {
          return None;
        }
        payload := total;
        record := Some(Decode(lower, files[id]));
      }
      read := read + [FileChange(id, record)];
    }
    assert ids[..|ids|] == ids;
    return Some(read);
  }

  // ---------- the whole read ----------

  predicate SameLineage(base: Stamp, s: Db) {
    base.databaseId == s.databaseId && base.identity == s.identity
  }

  /** Sorted ids of a span, for stating the byte limit. */
  ghost predicate SpanPayloadFits(lower: Lowercase, s: Db, b: int, limit: nat) {
    forall ids :: AscendingIds(ids) && SetOf(ids) == MentionedIds(s.journal, b, s.revision) ==>
        Payload(lower, s.files, ids) <= limit
  }

  lemma {:induction false} AscendingIsUnique(a: seq<int>, b: seq<int>)
    requires AscendingIds(a) && AscendingIds(b) && SetOf(a) == SetOf(b)
    ensures a == b
  {
    AscendingSize(a);
    AscendingSize(b);
    if a != [] {
      assert a[0] in SetOf(b) && b[0] in SetOf(a);
      WithoutFirst(a);
      WithoutFirst(b);
      AscendingIsUnique(a[1..], b[1..]);
    }
  }

  lemma {:induction false} WithoutFirst(ids: seq<int>)
    requires AscendingIds(ids) && ids != []
    ensures SetOf(ids[1..]) == SetOf(ids) - {ids[0]} && ids == [ids[0]] + ids[1..]
  {
  }

  /** Exactly when a delta is served. */
  ghost predicate Servable(lower: Lowercase, s: Db, base: Stamp, limits: ReadLimits) {
    && SameLineage(base, s) && base.revision <= s.revision && s.status == Installed
    && (base.revision < s.revision ==>
          && s.floor <= base.revision
          && s.revision - base.revision <= Min(limits.maxEvents, MAX_BATCH)
          && SpanIsStored(s, base.revision)
          && |MentionedIds(s.journal, base.revision, s.revision)| <= Min(limits.maxIds, MAX_BATCH)
          && SpanPayloadFits(lower, s, base.revision, limits.maxPayloadBytes))
  }

  /** A journal with something to read since the base. */
  ghost predicate HasHistory(s: Db, base: Stamp) {
    SameLineage(base, s) && s.status == Installed && base.revision < s.revision
  }

  /** Exactly when the read reports a gap, which sends the reader to a reconciliation: the base lies
      below the floor, or a gap comes before any limit. */
  ghost predicate ReadsGap(s: Db, base: Stamp, limits: ReadLimits) {
    && HasHistory(s, base)
    && (base.revision < s.floor
        || (s.revision - base.revision <= Min(limits.maxEvents, MAX_BATCH)
            && GapFirst(s.journal, base.revision, s.revision, Min(limits.maxIds, MAX_BATCH))))
  }

  /** `file_changes_since_with_byte_limit` inside one read snapshot `s`. */
  method FileChangesSince(lower: Lowercase, s: Db, base: Stamp, limits: ReadLimits) returns (read: ChangeRead)
    ensures read.Available? <==> Servable(lower, s, base, limits)
    ensures read.Available? ==>
              && read.target == s.StampOf() && SpanIsStored(s, base.revision)
              && IsDelta(lower, s, base.revision, read.changes)
    ensures read == Fallback(DatabaseReplaced) <==> !SameLineage(base, s)
    ensures read == Fallback(RevisionRegressed) <==> SameLineage(base, s) && s.revision < base.revision
    ensures read == Fallback(JournalUnavailable) <==>
            SameLineage(base, s) && base.revision <= s.revision && s.status != Installed
    ensures read == Fallback(HistoryGap) <==> ReadsGap(s, base, limits)
    ensures read == Fallback(EventLimit) <==>
            && HasHistory(s, base) && s.floor <= base.revision
            && s.revision - base.revision > Min(limits.maxEvents, MAX_BATCH)
    ensures read == Fallback(IdLimit) <==>
            && HasHistory(s, base) && !ReadsGap(s, base, limits)
            && s.revision - base.revision <= Min(limits.maxEvents, MAX_BATCH)
            && |MentionedIds(s.journal, base.revision, s.revision)| > Min(limits.maxIds, MAX_BATCH)
  {
    var target := s.StampOf();
    if base.databaseId != target.databaseId || base.identity != target.identity {
      return Fallback(DatabaseReplaced);
    }
    if target.revision < base.revision {
      return Fallback(RevisionRegressed);
    }
    if s.status != Installed {
      return Fallback(JournalUnavailable);
    }
    if target.revision == base.revision {
      return Available(target, []);
    }
    if base.revision < s.floor {
      return Fallback(HistoryGap);
    }
    if target.revision - base.revision > Min(limits.maxEvents, MAX_BATCH) {
      return Fallback(EventLimit);
    }
    read := ReadSpan(lower, s, base.revision, Min(limits.maxIds, MAX_BATCH), limits.maxPayloadBytes);
  }

  method ReadSpan(lower: Lowercase, s: Db, b: int, maxIds: nat, maxPayloadBytes: nat) returns (read: ChangeRead)
    requires b < s.revision
    ensures read.Available? <==>
            && SpanIsStored(s, b)
            && |MentionedIds(s.journal, b, s.revision)| <= maxIds
            && SpanPayloadFits(lower, s, b, maxPayloadBytes)
    ensures read.Available? ==> read.target == s.StampOf() && IsDelta(lower, s, b, read.changes)
    ensures read.Fallback? ==> read.reason in {HistoryGap, IdLimit, ByteLimit}
    ensures read == Fallback(HistoryGap) <==> GapFirst(s.journal, b, s.revision, maxIds)
    ensures read == Fallback(IdLimit) <==>
            !GapFirst(s.journal, b, s.revision, maxIds) && |MentionedIds(s.journal, b, s.revision)| > maxIds
  {
    var ids := ReadIds(s.journal, b, s.revision, maxIds);
    if ids.Failed? {
      return Fallback(ids.reason);
    }
    SpanPayloadIs(lower, s, b, maxPayloadBytes, ids.ids);
    var changes := ReadRows(lower, s.files, ids.ids, maxPayloadBytes);
    if changes.Some? {
      RowsAreDelta(lower, s, b, ids.ids, changes.value);
    }
    return if changes.Some? then Available(s.StampOf(), changes.value) else Fallback(ByteLimit);
  }

  /** The final rows of the mentioned ids, in order, are the delta. */
  lemma {:induction false} RowsAreDelta(lower: Lowercase, s: Db, b: int, ids: seq<int>, changes: seq<FileChange>)
    requires AscendingIds(ids) && SetOf(ids) == MentionedIds(s.journal, b, s.revision)
    requires |changes| == |ids|
    requires forall i :: 0 <= i < |ids| ==> changes[i] == FileChange(ids[i], RecordAt(lower, s.files, ids[i]))
    ensures IsDelta(lower, s, b, changes)
  {
    forall id | id in MentionedIds(s.journal, b, s.revision) ensures HasChange(changes, id) {
      assert id in SetOf(ids);
      var i :| 0 <= i < |ids| && ids[i] == id;
      assert changes[i].id == id;
    }
    forall i | 0 <= i < |changes| ensures changes[i].id in MentionedIds(s.journal, b, s.revision) {
      assert ids[i] in SetOf(ids);
    }
  }

  lemma {:induction false} SpanPayloadIs(lower: Lowercase, s: Db, b: int, limit: nat, ids: seq<int>)
    requires AscendingIds(ids) && SetOf(ids) == MentionedIds(s.journal, b, s.revision)
    ensures SpanPayloadFits(lower, s, b, limit) <==> Payload(lower, s.files, ids) <= limit
  {
    forall other | AscendingIds(other) && SetOf(other) == SetOf(ids) ensures other == ids {
      AscendingIsUnique(other, ids);
    }
  }

  /** In an undisturbed history a base at or above the floor never meets a gap. */
  lemma {:induction false} IntactSpanIsStored(s: Db, b: int)
    requires Books(s) && s.status == Installed && s.floor <= b
    ensures SpanIsStored(s, b)
  {
    forall r | b < r <= s.revision ensures r in s.journal && IdsOf(s.journal[r]) != {} {
      NoColumnNoId(s.journal[r]);
    }
  }

  /** What a reader can be refused for apart from the journal. */
  ghost predicate WithinLimits(lower: Lowercase, s: Db, b: int, limits: ReadLimits) {
    && s.revision - b <= Min(limits.maxEvents, MAX_BATCH)
    && |MentionedIds(s.journal, b, s.revision)| <= Min(limits.maxIds, MAX_BATCH)
    && SpanPayloadFits(lower, s, b, limits.maxPayloadBytes)
  }

  /** The batch limit lies inside the retention, so since its installation the journal serves every
      base that the limits allow: only the limits can refuse a delta. */
  lemma {:induction false} OnlyLimitsRefuse(lower: Lowercase, base: Db, txs: seq<Transaction>, limits: ReadLimits)
    requires Books(base) && UndisturbedHistory(txs)
    requires Commit(base, txs).status == Installed && Origin(base, txs) <= base.revision
    ensures var s := Commit(base, txs);
            Servable(lower, s, base.StampOf(), limits)
            <==> s.revision == base.revision || WithinLimits(lower, s, base.revision, limits)
    ensures !ReadsGap(Commit(base, txs), base.StampOf(), limits)
            || Commit(base, txs).revision - base.revision > RETENTION
  {
    var s := Commit(base, txs);
    HistoryKeepsBooks(base, txs);
    HistoryExtends(base, txs);
    if s.floor <= base.revision {
      IntactSpanIsStored(s, base.revision);
    }
  }
}

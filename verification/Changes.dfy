/** Final-state deltas between two snapshots (`FileChange` of `src/db.rs`). */
module Changes {
  import opened Common
  import opened Records

  /** The row of `id` in the target snapshot, or its absence. */
  datatype FileChange = FileChange(id: int, record: Option<FileRecord>)

  type View = map<int, FileRecord>

  /** A record whose lowercase path is the effective one. */
  predicate Effectual(lower: Lowercase, record: FileRecord) {
    record.pathLower != [] || record.pathLower == lower(record.path)
  }

  /** What an index stores for a change record: NULL and empty lowercase paths are recomputed. */
  function Stored(lower: Lowercase, record: FileRecord): (stored: FileRecord)
    ensures Effectual(lower, record) ==> stored == record
  {
    Decode(lower, Borrow(record))
  }

  lemma {:induction false} DecodedIsEffectual(lower: Lowercase, row: Row)
    ensures Effectual(lower, Decode(lower, row))
  {
  }

  function ApplyOne(lower: Lowercase, view: View, change: FileChange): View {
    if change.record.Some? then view[change.id := Stored(lower, change.record.value)] else view - {change.id}
  }

  /** The changes one after another. */
  function ApplyAll(lower: Lowercase, view: View, changes: seq<FileChange>): View {
    if changes == [] then view
    else ApplyOne(lower, ApplyAll(lower, view, changes[..|changes| - 1]), changes[|changes| - 1])
  }

  predicate AscendingChanges(changes: seq<FileChange>) {
    forall i, j :: 0 <= i < j < |changes| ==> changes[i].id < changes[j].id
  }

  predicate OwnIds(changes: seq<FileChange>) {
    forall i :: 0 <= i < |changes| && changes[i].record.Some? ==> changes[i].record.value.id == changes[i].id
  }

  function At(view: View, id: int): Option<FileRecord> {
    if id in view then Some(view[id]) else None
  }

  function StoredOption(lower: Lowercase, record: Option<FileRecord>): Option<FileRecord> {
    if record.Some? then Some(Stored(lower, record.value)) else None
  }

  /** With distinct ids, an id that is mentioned gets its record and any other keeps its own. */
  lemma {:induction false} AppliedAt(lower: Lowercase, view: View, changes: seq<FileChange>, id: int)
    requires AscendingChanges(changes)
    ensures forall i :: 0 <= i < |changes| && changes[i].id == id ==>
              At(ApplyAll(lower, view, changes), id) == StoredOption(lower, changes[i].record)
    ensures (forall i :: 0 <= i < |changes| ==> changes[i].id != id) ==>
              At(ApplyAll(lower, view, changes), id) == At(view, id)
  {
    if changes != [] {
      var init := changes[..|changes| - 1];
      AppliedAt(lower, view, init, id);
      assert forall i :: 0 <= i < |init| ==> changes[i] == init[i];
    }
  }

  lemma {:induction false} SameView(a: View, b: View)
    requires forall id :: At(a, id) == At(b, id)
    ensures a == b
  {
    forall id ensures id in a <==> id in b {
      assert At(a, id) == At(b, id);
    }
    forall id | id in a ensures a[id] == b[id] {
      assert At(a, id) == At(b, id);
    }
  }
}

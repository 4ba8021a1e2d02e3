/** Ranking the rows of the SQLite table (`src/search.rs`). */
module SqliteSearch {
  import opened Common
  import opened Records
  import opened Ordering
  import opened Selection
  import opened Patterns
  import opened Ranking

  // `FullScan` ranks every row, sorts, and keeps the first K; the heap of owned hits keeps
  // the same as rows arrive in any order.

  datatype SearchResult = SearchResult(record: FileRecord, score: int)

  // ---------- the reference: rank all rows ----------

  /** How a query ranks rows: the sort key of a matching row. */
  type RowRank = Row -> Option<Key>

  function KeyOfRow(lower: Lowercase, q: Query, row: Row): (key: Option<Key>)
    ensures key.Some? ==> key.value.tie == row.id
  {
    if !MatchesMetadata(q, row.kind, row.mtime, row.extLower) then None
    else
      var score := Rank(q, Effective(lower, row), row.basenameLower, |row.path|, row.mtime);
      if score.Some? then Some(Key(score.value, row.mtime, row.path, row.id)) else None
  }

  function RankOf(lower: Lowercase, q: Query): (rank: RowRank)
    ensures TiesAreIds(rank)
  {
    row => KeyOfRow(lower, q, row)
  }

  ghost predicate TiesAreIds(rank: RowRank) {
    forall row :: rank(row).Some? ==> rank(row).value.tie == row.id
  }

  function KeyList(key: Option<Key>): seq<Key> {
    if key.Some? then [key.value] else []
  }

  /** The keys of all matching rows, in row order. */
  function RowKeys(rank: RowRank, rows: seq<Row>): seq<Key> {
    if rows == [] then [] else KeyList(rank(rows[0])) + RowKeys(rank, rows[1..])
  }

  lemma {:induction false} KeysHaveIds(rank: RowRank, rows: seq<Row>, k: Key)
    requires TiesAreIds(rank) && k in RowKeys(rank, rows)
    ensures HasId(rows, k.tie)
  {
    if rank(rows[0]) != Some(k) {
      KeysHaveIds(rank, rows[1..], k);
      var i :| 0 <= i < |rows[1..]| && rows[1..][i].id == k.tie;
      assert rows[i + 1].id == k.tie;
    }
  }

  predicate HasId(rows: seq<Row>, id: int) {
    exists i :: 0 <= i < |rows| && rows[i].id == id
  }

  function RowOf(rows: seq<Row>, id: int): (row: Row)
    requires HasId(rows, id)
    ensures row in rows && row.id == id
  {
    if rows[0].id == id then rows[0]
    else
      assert HasId(rows[1..], id) by {
        var i :| 0 <= i < |rows| && rows[i].id == id;
        assert rows[1..][i - 1].id == id;
      }
      RowOf(rows[1..], id)
  }

  predicate Known(rows: seq<Row>, keys: seq<Key>) {
    forall i :: 0 <= i < |keys| ==> HasId(rows, keys[i].tie)
  }

  function ResultsOf(lower: Lowercase, rows: seq<Row>, keys: seq<Key>): seq<SearchResult>
    requires Known(rows, keys)
  {
    seq(|keys|, i requires 0 <= i < |keys| => SearchResult(Decode(lower, RowOf(rows, keys[i].tie)), keys[i].score))
  }

  lemma {:induction false} BestIsKnown(rank: RowRank, rows: seq<Row>, limit: nat)
    requires TiesAreIds(rank)
    ensures Known(rows, Best(RowKeys(rank, rows), limit))
  {
    var keys := RowKeys(rank, rows);
    var best := Best(keys, limit);
    forall i | 0 <= i < |best| ensures HasId(rows, best[i].tie) {
      BestIsFrom(keys, limit, i);
      KeysHaveIds(rank, rows, best[i]);
    }
  }

  /** Full scan, stable sort, truncate. */
  function FullScan(lower: Lowercase, rank: RowRank, rows: seq<Row>, limit: nat): seq<SearchResult>
    requires TiesAreIds(rank)
  {
    BestIsKnown(rank, rows, limit);
    ResultsOf(lower, rows, Best(RowKeys(rank, rows), limit))
  }

  // ---------- the owned heap ----------

  datatype Owned = Owned(score: int, record: FileRecord)

  function KeyOfOwned(hit: Owned): Key {
    Key(hit.score, hit.record.mtime, hit.record.path, hit.record.id)
  }

  function KeysOfOwned(hits: seq<Owned>): (keys: seq<Key>)
    ensures |keys| == |hits|
    ensures forall i :: 0 <= i < |hits| ==> keys[i] == KeyOfOwned(hits[i])
  {
    seq(|hits|, i requires 0 <= i < |hits| => KeyOfOwned(hits[i]))
  }

  /** `compare_ref`: a candidate against a kept hit, without building the candidate's record. */
  function CompareRef(hit: Owned, score: int, row: Row): Order {
    CompareInt(score, hit.score)
      .Then(CompareOption(hit.record.mtime, row.mtime))
      .Then(CompareInt(|row.path|, |hit.record.path|))
      .Then(Compare(row.path, hit.record.path))
      .Then(CompareInt(row.id, hit.record.id))
  }

  /** Ordered insertion of a complete hit. */
  function InsertOwned(hits: seq<Owned>, hit: Owned): (r: seq<Owned>)
    ensures forall h :: h in r ==> h == hit || h in hits
  {
    if hits == [] then [hit]
    else if Before(KeyOfOwned(hit), KeyOfOwned(hits[0])) then [hit] + hits
    else [hits[0]] + InsertOwned(hits[1..], hit)
  }

  lemma {:induction false} KeysOfCons(h: Owned, t: seq<Owned>)
    ensures KeysOfOwned([h] + t) == [KeyOfOwned(h)] + KeysOfOwned(t)
  {
  }

  lemma {:induction false} InsertOwnedKeys(hits: seq<Owned>, hit: Owned)
    ensures KeysOfOwned(InsertOwned(hits, hit)) == Insert(KeysOfOwned(hits), KeyOfOwned(hit))
  {
    KeysOfCons(hit, hits);
    if hits == [] {
      assert KeysOfOwned([hit]) == [KeyOfOwned(hit)];
    } else if !Before(KeyOfOwned(hit), KeyOfOwned(hits[0])) {
      KeysOfCons(hits[0], InsertOwned(hits[1..], hit));
      assert KeysOfOwned(hits)[1..] == KeysOfOwned(hits[1..]);
      InsertOwnedKeys(hits[1..], hit);
    }
  }

  /** Every hit is a decoded row of the table. */
  ghost predicate Decoded(lower: Lowercase, rows: seq<Row>, hits: seq<Owned>) {
    forall h :: h in hits ==> exists i :: 0 <= i < |rows| && h.record == Decode(lower, rows[i])
  }

  lemma {:induction false} SameIdSameRow(rows: seq<Row>, i: nat, j: nat)
    requires InIdOrder(rows) && i < |rows| && j < |rows| && rows[i].id == rows[j].id
    ensures i == j
  {
  }

  class OwnedTopHits {
    var hits: seq<Owned>
    var limit: nat
    const lower: Lowercase
    ghost const rows: seq<Row>
    ghost const rank: RowRank
    ghost var considered: seq<Key>

    ghost predicate Valid()
      reads this
    {
      InIdOrder(rows) && KeysOfOwned(hits) == Best(considered, limit) && Decoded(lower, rows, hits)
    }

    constructor (limit: nat, lower: Lowercase, ghost rows: seq<Row>, ghost rank: RowRank)
      requires InIdOrder(rows)
      ensures Valid() && considered == [] && this.limit == limit && this.lower == lower && this.rows == rows
      ensures this.rank == rank
    {
      hits := [];
      this.limit := limit;
      this.lower := lower;
      this.rows := rows;
      this.rank := rank;
      considered := [];
    }

    static method Push(heap: seq<Owned>, limit: nat, score: int, row: Row, lower: Lowercase, ghost rows: seq<Row>)
      returns (next: seq<Owned>)
      requires |heap| <= limit && row in rows && Decoded(lower, rows, heap)
      ensures KeysOfOwned(next) == Offer(KeysOfOwned(heap), Key(score, row.mtime, row.path, row.id), limit)
      ensures Decoded(lower, rows, next)
    {
      if limit == 0 || (|heap| >= limit && CompareRef(heap[|heap| - 1], score, row) != Less) {
        return heap;
      }
      var hit := Owned(score, Decode(lower, row));
      if |heap| < limit {
        InsertOwnedKeys(heap, hit);
        next := InsertOwned(heap, hit);
      } else {
        assert KeysOfOwned(heap)[..limit - 1] == KeysOfOwned(heap[..limit - 1]);
        InsertOwnedKeys(heap[..limit - 1], hit);
        next := InsertOwned(heap[..limit - 1], hit);
      }
    }

    method ConsiderRecord(row: Row, q: Query)
      requires Valid() && PreparedQuery(q) && rank == RankOf(lower, q) && row in rows
      modifies this
      ensures Valid() && limit == old(limit)
      ensures considered == old(considered) + KeyList(rank(row))
    {
      var score := ScoreOf(lower, q, row);
      ghost var ranked := rank(row);
      if score.None? {
        assert considered + KeyList(ranked) == considered;
        return;
      }
      OfferIsBest(considered, KeysOfOwned(hits), ranked.value, limit);
      hits := Push(hits, limit, score.value, row, lower, rows);
      considered := considered + [ranked.value];
    }

    static method ScoreOf(lower: Lowercase, q: Query, row: Row) returns (score: Option<int>)
      requires PreparedQuery(q)
      ensures RankOf(lower, q)(row) == if score.None? then None else Some(Key(score.value, row.mtime, row.path, row.id))
    {
      if !MatchesMetadata(q, row.kind, row.mtime, row.extLower) {
        return None;
      }
      var lowered := Effective(lower, row);
      score := RankLowered(q, lowered, row.basenameLower, |row.path|, row.mtime);
    }

    method IsCompleteBelow(bound: int) returns (complete: bool)
      requires Valid()
      ensures complete
              <==> limit > 0 && |Best(considered, limit)| == limit && Best(considered, limit)[limit - 1].score < bound
    {
      complete := |hits| == limit && |hits| > 0 && hits[|hits| - 1].score < bound;
    }

    method Finish() returns (results: seq<SearchResult>)
      requires Valid()
      ensures Known(rows, Best(considered, limit))
      ensures results == ResultsOf(lower, rows, Best(considered, limit))
    {
      results := seq(|hits|, i requires 0 <= i < |hits| reads this => SearchResult(hits[i].record, hits[i].score));
      ghost var keys := Best(considered, limit);
      forall i | 0 <= i < |keys|
        ensures HasId(rows, keys[i].tie) && hits[i].record == Decode(lower, RowOf(rows, keys[i].tie))
      {
        assert hits[i] in hits;
        var j :| 0 <= j < |rows| && hits[i].record == Decode(lower, rows[j]);
        assert keys[i] == KeyOfOwned(hits[i]) && rows[j].id == keys[i].tie;
        var row := RowOf(rows, keys[i].tie);
        var k :| 0 <= k < |rows| && rows[k] == row;
        SameIdSameRow(rows, j, k);
      }
      assert |results| == |keys|;
    }
  }
}

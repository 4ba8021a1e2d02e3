/** Pass selection and early stopping (`src/search.rs`). */
module Planner {
  import opened Common
  import opened Records
  import opened Ordering
  import opened Selection
  import opened Patterns
  import opened Ranking
  import opened SqliteSearch

  // The passes read the row streams of `src/db.rs`. The planner may stop after a partial one;
  // its answer is proved equal to ranking every row, sorting, and keeping the first K.

  // ---------- the row streams ----------

  /** Which rows a partial pass visits. */
  datatype Pass =
    | AllRows
    | BasenameRange(from: Text, to: Text)
    | BasenameLiteral(literal: Text)
    | Extensions(values: seq<Text>)
    | PathLiteral(literal: Text, skipBasename: bool)

  /** `macevery_path_may_contain`: NULL and empty stored paths are selected conservatively. */
  predicate PathMayContain(row: Row, literal: Text) {
    row.pathLower.Some? && row.pathLower.value != [] ==> First(row.pathLower.value, literal).Some?
  }

  predicate Visits(pass: Pass, row: Row) {
    match pass
    case AllRows => true
    case BasenameRange(from, to) => Compare(row.basenameLower, from) != Less && Compare(row.basenameLower, to) == Less
    case BasenameLiteral(literal) => First(row.basenameLower, literal).Some?
    case Extensions(values) => row.extLower.Some? && row.extLower.value in values
    case PathLiteral(literal, skipBasename) =>
      PathMayContain(row, literal) && !(skipBasename && First(row.basenameLower, literal).Some?)
  }

  function Visited(rows: seq<Row>, pass: Pass): (r: seq<Row>)
    ensures forall row :: row in r ==> row in rows
  {
    if rows == [] then []
    else if Visits(pass, rows[0]) then [rows[0]] + Visited(rows[1..], pass)
    else Visited(rows[1..], pass)
  }

  function Skipped(rows: seq<Row>, pass: Pass): (r: seq<Row>)
    ensures forall row :: row in r ==> row in rows && !Visits(pass, row)
  {
    if rows == [] then []
    else if Visits(pass, rows[0]) then Skipped(rows[1..], pass)
    else [rows[0]] + Skipped(rows[1..], pass)
  }

  /** A row stream delivers the rows of a pass once each; callers learn nothing of the order. */
  method Stream(rows: seq<Row>, pass: Pass) returns (stream: seq<Row>)
    ensures multiset(stream) == multiset(Visited(rows, pass))
  {
    stream := Visited(rows, pass);
  }

  // ---------- keys of a stream ----------

  lemma {:induction false} KeysOfConcat(rank: RowRank, a: seq<Row>, b: seq<Row>)
    ensures RowKeys(rank, a + b) == RowKeys(rank, a) + RowKeys(rank, b)
  {
    if a == [] {
      assert a + b == b;
    } else {
      assert (a + b)[1..] == a[1..] + b;
      KeysOfConcat(rank, a[1..], b);
    }
  }

  lemma {:induction false} RemoveAt(s: seq<Row>, i: nat)
    requires i < |s|
    ensures multiset(s[..i] + s[i + 1..]) == multiset(s) - multiset{s[i]}
  {
    assert s == s[..i] + [s[i]] + s[i + 1..];
  }

  lemma {:induction false} KeysWithout(rank: RowRank, s: seq<Row>, i: nat)
    requires i < |s|
    ensures multiset(RowKeys(rank, s)) == multiset(KeyList(rank(s[i]))) + multiset(RowKeys(rank, s[..i] + s[i + 1..]))
  {
    var a, b := s[..i], s[i + 1..];
    assert s == a + ([s[i]] + b);
    KeysOfConcat(rank, a, [s[i]] + b);
    KeysOfConcat(rank, a, b);
    KeysOfHead(rank, s[i], b);
    MiddleOut(RowKeys(rank, a), KeyList(rank(s[i])), RowKeys(rank, b));
  }

  lemma {:induction false} MiddleOut(a: seq<Key>, k: seq<Key>, b: seq<Key>)
    ensures multiset(a + (k + b)) == multiset(k) + multiset(a + b)
  {
  }

  /** The keys of a stream do not depend on its order. */
  lemma {:induction false} KeysOfPermutation(rank: RowRank, a: seq<Row>, b: seq<Row>)
    requires multiset(a) == multiset(b)
    ensures multiset(RowKeys(rank, a)) == multiset(RowKeys(rank, b))
    decreases |a|
  {
    assert |multiset(a)| == |a| && |multiset(b)| == |b|;
    if a != [] {
      assert a[0] in multiset(b);
      var i :| 0 <= i < |b| && b[i] == a[0];
      RemoveAt(a, 0);
      RemoveAt(b, i);
      assert a[..0] + a[1..] == a[1..];
      KeysOfPermutation(rank, a[1..], b[..i] + b[i + 1..]);
      KeysWithout(rank, a, 0);
      KeysWithout(rank, b, i);
    }
  }

  lemma {:induction false} KeysSplit(rank: RowRank, rows: seq<Row>, pass: Pass)
    ensures multiset(RowKeys(rank, rows))
            == multiset(RowKeys(rank, Visited(rows, pass))) + multiset(RowKeys(rank, Skipped(rows, pass)))
  {
    if rows != [] {
      KeysSplit(rank, rows[1..], pass);
      KeysOfHead(rank, rows[0], Visited(rows[1..], pass));
      KeysOfHead(rank, rows[0], Skipped(rows[1..], pass));
    }
  }

  lemma {:induction false} KeysOfHead(rank: RowRank, row: Row, rest: seq<Row>)
    ensures RowKeys(rank, [row] + rest) == KeyList(rank(row)) + RowKeys(rank, rest)
  {
    assert ([row] + rest)[1..] == rest;
  }

  /** No row outside the pass matches the query. */
  ghost predicate Complete(rank: RowRank, rows: seq<Row>, pass: Pass) {
    forall row :: row in rows && !Visits(pass, row) ==> rank(row).None?
  }

  /** Every row outside the pass that matches scores at least `bound`. */
  ghost predicate Bounded(rank: RowRank, rows: seq<Row>, pass: Pass, bound: int) {
    forall row :: row in rows && !Visits(pass, row) ==>
                    var key := rank(row);
                    key.Some? ==> key.value.score >= bound
  }

  lemma {:induction false} NoKeys(rank: RowRank, rows: seq<Row>)
    requires forall row :: row in rows ==> rank(row).None?
    ensures RowKeys(rank, rows) == []
  {
    if rows != [] {
      NoKeys(rank, rows[1..]);
    }
  }

  lemma {:induction false} HighKeys(rank: RowRank, rows: seq<Row>, bound: int)
    requires forall row :: row in rows ==> var key := rank(row); key.Some? ==> key.value.score >= bound
    ensures forall i :: 0 <= i < |RowKeys(rank, rows)| ==> RowKeys(rank, rows)[i].score >= bound
  {
    if rows != [] {
      HighKeys(rank, rows[1..], bound);
    }
  }

  /** A complete pass needs no other. */
  lemma {:induction false} CompletePassSuffices(rank: RowRank, rows: seq<Row>, pass: Pass, considered: seq<Key>,
                                                limit: nat)
    requires Complete(rank, rows, pass)
    requires multiset(considered) == multiset(RowKeys(rank, Visited(rows, pass)))
    ensures Best(considered, limit) == Best(RowKeys(rank, rows), limit)
  {
    KeysSplit(rank, rows, pass);
    NoKeys(rank, Skipped(rows, pass));
    BestIgnoresOrder(considered, RowKeys(rank, rows), limit);
  }

  /** A pass whose full heap lies strictly below what the skipped rows can score suffices. */
  lemma {:induction false} BoundedPassSuffices(rank: RowRank, rows: seq<Row>, pass: Pass, considered: seq<Key>,
                                               limit: nat, bound: int)
    requires Bounded(rank, rows, pass, bound)
    requires multiset(considered) == multiset(RowKeys(rank, Visited(rows, pass)))
    requires |Best(considered, limit)| == limit > 0 && Best(considered, limit)[limit - 1].score < bound
    ensures Best(considered, limit) == Best(RowKeys(rank, rows), limit)
  {
    var others := RowKeys(rank, Skipped(rows, pass));
    KeysSplit(rank, rows, pass);
    HighKeys(rank, Skipped(rows, pass), bound);
    UnvisitedCannotWin(considered, others, limit, bound);
    BestIgnoresOrder(considered + others, RowKeys(rank, rows), limit);
  }

  // ---------- which pass a query admits ----------

  predicate Ascii(s: Text) {
    forall i :: 0 <= i < |s| ==> s[i] < 0x80
  }

  /** `sqlite_basename_prefix` */
  function BasenamePrefix(q: Query): (bounds: Option<(Text, Text)>) {
    if q.pathOnly || |q.terms| != 1 then None
    else
      var lower := q.terms[0].finder.value;
      if q.terms[0].glob.Some? || lower == [] || !Ascii(lower) || 0 in lower then None
      else
        var last := lower[|lower| - 1] + 1;
        if last >= 0x80 then None else Some((lower, lower[..|lower| - 1] + [last]))
  }

  /** `max_by_key(len)`: the longest, and the last of equals. */
  function Longest(ls: seq<Text>): (l: Option<Text>)
    ensures l.Some? ==> l.value in ls
  {
    if ls == [] then None
    else
      var rest := Longest(ls[1..]);
      if rest.Some? && |rest.value| >= |ls[0]| then rest else Some(ls[0])
  }

  function WithoutNul(ls: seq<Text>): (r: seq<Text>)
    ensures forall l :: l in r ==> l in ls && 0 !in l
  {
    if ls == [] then [] else (if 0 in ls[0] then [] else [ls[0]]) + WithoutNul(ls[1..])
  }

  /** `sqlite_term_literal` */
  function TermLiteral(t: Term): (literal: Option<Text>)
    ensures literal.Some? ==> LiteralOf(t, literal.value) && literal.value != []
  {
    if t.glob.Some? then Longest(WithoutNul(Literals(t.glob.value.pattern)))
    else if t.finder.value != [] && 0 !in t.finder.value then Some(t.finder.value)
    else None
  }

  /** `sqlite_selected_literal`: the longest literal, the last among equals, with its own term. */
  function SelectedLiteral(terms: seq<Term>): (selected: Option<(Text, Term)>)
    ensures selected.Some? ==> selected.value.1 in terms && LiteralOf(selected.value.1, selected.value.0)
  {
    if terms == [] then None
    else
      var literal, rest := TermLiteral(terms[0]), SelectedLiteral(terms[1..]);
      if literal.None? || (rest.Some? && |rest.value.0| >= |literal.value|) then rest
      else Some((literal.value, terms[0]))
  }

  lemma {:induction false} PrefixPassIsBounded(lower: Lowercase, q: Query, rows: seq<Row>)
    requires BasenamePrefix(q).Some?
    ensures Bounded(RankOf(lower, q), rows, BasenameRange(BasenamePrefix(q).value.0, BasenamePrefix(q).value.1), 250)
  {
    var (from, to) := BasenamePrefix(q).value;
    forall row | row in rows && !Visits(BasenameRange(from, to), row)
      ensures var key := RankOf(lower, q)(row); key.Some? ==> key.value.score >= 250
    {
      PrefixIsInterval(from, to, row.basenameLower);
      NonPrefixScoresHigh(q, Effective(lower, row), row.basenameLower, |row.path|, row.mtime);
    }
  }

  lemma {:induction false} ExtensionPassIsComplete(lower: Lowercase, q: Query, rows: seq<Row>)
    requires q.extFilters != []
    ensures Complete(RankOf(lower, q), rows, Extensions(q.extFilters))
  {
  }

  /** A row whose basename lacks the selected literal pays that term's bound. */
  lemma {:induction false} LiteralPassIsBounded(lower: Lowercase, q: Query, rows: seq<Row>)
    requires !q.pathOnly && SelectedLiteral(q.terms).Some?
    ensures var (literal, term) := SelectedLiteral(q.terms).value;
            Bounded(RankOf(lower, q), rows, BasenameLiteral(literal), BoundOf(term))
  {
    var (literal, term) := SelectedLiteral(q.terms).value;
    var i :| 0 <= i < |q.terms| && q.terms[i] == term;
    forall row | row in rows && !Visits(BasenameLiteral(literal), row)
      ensures var key := RankOf(lower, q)(row); key.Some? ==> key.value.score >= BoundOf(term)
    {
      FoundMeansContained(row.basenameLower, literal);
      var path := Effective(lower, row);
      if SumScores(q.terms, q.pathOnly, q.fuzzy, path, row.basenameLower, 0).Some? {
        SumCoversTerm(q.terms, q.pathOnly, q.fuzzy, path, row.basenameLower, 0, i);
        TermWithoutLiteralScoresHigh(term, literal, q.fuzzy, path, row.basenameLower);
      }
    }
  }

  /** A row with neither basename nor path candidate cannot match a nonfuzzy query. */
  lemma {:induction false} OutsideUnionIsNoMatch(lower: Lowercase, q: Query, row: Row)
    requires !q.fuzzy && SelectedLiteral(q.terms).Some?
    requires !q.pathOnly ==> !Visits(BasenameLiteral(SelectedLiteral(q.terms).value.0), row)
    requires !Visits(PathLiteral(SelectedLiteral(q.terms).value.0, !q.pathOnly), row)
    ensures RankOf(lower, q)(row).None?
  {
    var (literal, term) := SelectedLiteral(q.terms).value;
    var i :| 0 <= i < |q.terms| && q.terms[i] == term;
    var path := Effective(lower, row);
    FoundMeansContained(row.basenameLower, literal);
    FoundMeansContained(path, literal);
    if SumScores(q.terms, q.pathOnly, q.fuzzy, path, row.basenameLower, 0).Some? {
      SumCoversTerm(q.terms, q.pathOnly, q.fuzzy, path, row.basenameLower, 0, i);
      MatchHoldsLiteral(term, literal, q.pathOnly, path, row.basenameLower);
    }
  }

  /** Basename pass and path pass are disjoint, and nothing outside them matches. */
  ghost predicate UnionCovers(rank: RowRank, rows: seq<Row>, literal: Text) {
    forall row :: row in rows && !Visits(BasenameLiteral(literal), row) && !Visits(PathLiteral(literal, true), row) ==>
        rank(row).None?
  }

  lemma {:induction false} UnionIsComplete(rank: RowRank, rows: seq<Row>, literal: Text)
    requires UnionCovers(rank, rows, literal)
    ensures multiset(RowKeys(rank, rows))
            == multiset(RowKeys(rank, Visited(rows, BasenameLiteral(literal))))
               + multiset(RowKeys(rank, Visited(rows, PathLiteral(literal, true))))
  {
    if rows != [] {
      var a, b := BasenameLiteral(literal), PathLiteral(literal, true);
      UnionIsComplete(rank, rows[1..], literal);
      KeysOfHead(rank, rows[0], Visited(rows[1..], a));
      KeysOfHead(rank, rows[0], Visited(rows[1..], b));
    }
  }

  // ---------- the search ----------

  /** Feeding a whole stream to the heap. */
  method ConsiderAll(hits: OwnedTopHits, stream: seq<Row>, q: Query)
    requires hits.Valid() && PreparedQuery(q) && hits.rank == RankOf(hits.lower, q)
    requires forall i :: 0 <= i < |stream| ==> stream[i] in hits.rows
    modifies hits
    ensures hits.Valid() && hits.limit == old(hits.limit)
    ensures hits.considered == old(hits.considered) + RowKeys(hits.rank, stream)
  {
    ghost var seen: seq<Key> := [];
    assert stream[..0] == [];
    for i := 0 to |stream|
      invariant hits.Valid() && hits.limit == old(hits.limit)
      invariant seen == RowKeys(hits.rank, stream[..i])
      invariant hits.considered == old(hits.considered) + seen
    {
      hits.ConsiderRecord(stream[i], q);
      KeysOfSnoc(hits.rank, stream, i);
      ghost var more := KeyList(hits.rank(stream[i]));
      ConcatAssociates(old(hits.considered), seen, more);
      seen := seen + more;
    }
    assert stream[..|stream|] == stream;
  }

  lemma {:induction false} ConcatAssociates(a: seq<Key>, b: seq<Key>, c: seq<Key>)
    ensures (a + b) + c == a + (b + c)
  {
  }

  lemma {:induction false} KeysOfSnoc(rank: RowRank, stream: seq<Row>, i: nat)
    requires i < |stream|
    ensures RowKeys(rank, stream[..i + 1]) == RowKeys(rank, stream[..i]) + KeyList(rank(stream[i]))
  {
    assert stream[..i + 1] == stream[..i] + [stream[i]];
    KeysOfConcat(rank, stream[..i], [stream[i]]);
    assert [stream[i]] + [] == [stream[i]];
    KeysOfHead(rank, stream[i], []);
  }

  lemma {:induction false} StreamIsFromTable(rows: seq<Row>, pass: Pass, stream: seq<Row>)
    requires multiset(stream) == multiset(Visited(rows, pass))
    ensures forall i :: 0 <= i < |stream| ==> stream[i] in rows
  {
    forall i | 0 <= i < |stream| ensures stream[i] in rows {
      assert stream[i] in multiset(Visited(rows, pass));
    }
  }

  /** One pass of row streaming into a heap. */
  method RunPass(hits: OwnedTopHits, rows: seq<Row>, pass: Pass, q: Query)
    requires hits.Valid() && PreparedQuery(q) && hits.rank == RankOf(hits.lower, q) && hits.rows == rows
    modifies hits
    ensures hits.Valid() && hits.limit == old(hits.limit)
    ensures multiset(hits.considered)
            == multiset(old(hits.considered)) + multiset(RowKeys(hits.rank, Visited(rows, pass)))
  {
    var stream := Stream(rows, pass);
    StreamIsFromTable(rows, pass, stream);
    KeysOfPermutation(hits.rank, stream, Visited(rows, pass));
    ConsiderAll(hits, stream, q);
  }

  predicate Bindable(extensions: seq<Text>) {
    |extensions| <= 128 && forall i :: 0 <= i < |extensions| ==> 0 !in extensions[i]
  }

  /** `search`: whichever shortcut applies, the answer is that of the full scan. */
  method Search(lower: Lowercase, rows: seq<Row>, q: Query, limit: nat, utf8: bool) returns (results: seq<SearchResult>)
    requires InIdOrder(rows) && PreparedQuery(q) && limit > 0
    ensures results == FullScan(lower, RankOf(lower, q), rows, limit)
  {
    if utf8 {
      var early := SearchByPrefix(lower, rows, q, limit);
      if early.Some? {
        return early.value;
      }
      if q.extFilters != [] && Bindable(q.extFilters) {
        ExtensionPassIsComplete(lower, q, rows);
        results := SearchCompletely(lower, rows, Extensions(q.extFilters), q, limit);
        return;
      }
      early := SearchByLiteral(lower, rows, q, limit);
      if early.Some? {
        return early.value;
      }
    }
    results := SearchCompletely(lower, rows, AllRows, q, limit);
  }

  /** One pass that no matching row escapes. */
  method SearchCompletely(lower: Lowercase, rows: seq<Row>, pass: Pass, q: Query, limit: nat)
    returns (results: seq<SearchResult>)
    requires InIdOrder(rows) && PreparedQuery(q)
    requires Complete(RankOf(lower, q), rows, pass)
    ensures results == FullScan(lower, RankOf(lower, q), rows, limit)
  {
    var hits := new OwnedTopHits(limit, lower, rows, RankOf(lower, q));
    RunPass(hits, rows, pass, q);
    CompletePassSuffices(hits.rank, rows, pass, hits.considered, limit);
    results := hits.Finish();
  }

  /** The results of a partial pass, if its heap proves that no skipped row can win. */
  method FinishEarly(hits: OwnedTopHits, ghost pass: Pass, bound: int) returns (results: Option<seq<SearchResult>>)
    requires hits.Valid() && TiesAreIds(hits.rank) && Bounded(hits.rank, hits.rows, pass, bound)
    requires multiset(hits.considered) == multiset(RowKeys(hits.rank, Visited(hits.rows, pass)))
    ensures results.Some? ==> results.value == FullScan(hits.lower, hits.rank, hits.rows, hits.limit)
  {
    var complete := hits.IsCompleteBelow(bound);
    if !complete {
      return None;
    }
    BoundedPassSuffices(hits.rank, hits.rows, pass, hits.considered, hits.limit, bound);
    var found := hits.Finish();
    return Some(found);
  }

  method SearchByPrefix(lower: Lowercase, rows: seq<Row>, q: Query, limit: nat)
    returns (results: Option<seq<SearchResult>>)
    requires InIdOrder(rows) && PreparedQuery(q) && limit > 0
    ensures results.Some? ==> results.value == FullScan(lower, RankOf(lower, q), rows, limit)
  {
    var bounds := BasenamePrefix(q);
    if bounds.None? {
      return None;
    }
    var pass := BasenameRange(bounds.value.0, bounds.value.1);
    PrefixPassIsBounded(lower, q, rows);
    var hits := new OwnedTopHits(limit, lower, rows, RankOf(lower, q));
    RunPass(hits, rows, pass, q);
    results := FinishEarly(hits, pass, 250);
  }

  method SearchByLiteral(lower: Lowercase, rows: seq<Row>, q: Query, limit: nat)
    returns (results: Option<seq<SearchResult>>)
    requires InIdOrder(rows) && PreparedQuery(q) && limit > 0
    ensures results.Some? ==> results.value == FullScan(lower, RankOf(lower, q), rows, limit)
  {
    var selected := SelectedLiteral(q.terms);
    if selected.None? || (q.fuzzy && q.pathOnly) {
      return None;
    }
    var (literal, term) := selected.value;
    var hits := new OwnedTopHits(limit, lower, rows, RankOf(lower, q));
    if !q.pathOnly {
      LiteralPassIsBounded(lower, q, rows);
      RunPass(hits, rows, BasenameLiteral(literal), q);
      results := FinishEarly(hits, BasenameLiteral(literal), BoundOf(term));
      if results.Some? || q.fuzzy {
        return;
      }
    }
    RunPass(hits, rows, PathLiteral(literal, !q.pathOnly), q);
    PathPassCompletes(lower, q, rows, literal, hits.considered, limit);
    var found := hits.Finish();
    return Some(found);
  }

  /** After the path pass every matching row has been considered exactly once. */
  lemma {:induction false} PathPassCompletes(lower: Lowercase, q: Query, rows: seq<Row>, literal: Text,
                                             considered: seq<Key>, limit: nat)
    requires !q.fuzzy && SelectedLiteral(q.terms).Some? && literal == SelectedLiteral(q.terms).value.0
    requires multiset(considered)
             == (if q.pathOnly then multiset{}
                 else multiset(RowKeys(RankOf(lower, q), Visited(rows, BasenameLiteral(literal)))))
                + multiset(RowKeys(RankOf(lower, q), Visited(rows, PathLiteral(literal, !q.pathOnly))))
    ensures Best(considered, limit) == Best(RowKeys(RankOf(lower, q), rows), limit)
  {
    var rank := RankOf(lower, q);
    if q.pathOnly {
      forall row | row in rows && !Visits(PathLiteral(literal, false), row) ensures rank(row).None? {
        OutsideUnionIsNoMatch(lower, q, row);
      }
      CompletePassSuffices(rank, rows, PathLiteral(literal, false), considered, limit);
    } else {
      forall row | row in rows && !Visits(BasenameLiteral(literal), row) && !Visits(PathLiteral(literal, true), row)
        ensures rank(row).None?
      {
        OutsideUnionIsNoMatch(lower, q, row);
      }
      UnionIsComplete(rank, rows, literal);
      BestIgnoresOrder(considered, RowKeys(rank, rows), limit);
    }
  }
}

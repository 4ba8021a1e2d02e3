/**
 The `files` table as the scanner sees it, keyed by path, and its cleanup statements
 (`src/db.rs`).
 */
module Files {
  import opened Common
  import opened Records
  import opened Ordering
  import opened Subtrees
  import opened Seen

  type Rows = map<Text, Row>

  /** Keyed by path, with unique ids. */
  ghost predicate TableOk(rows: Rows) {
    && (forall p :: p in rows ==> rows[p].path == p)
    && forall p, q :: p in rows && q in rows && rows[p].id == rows[q].id ==> p == q
  }

  const BATCH: nat := 256

  /** `SCANNER_CANDIDATES_SQL`: the parameters of one keyset page. */
  datatype PageQuery = PageQuery(cursor: Text, first: bool, bounds: Bounds)

  predicate Candidate(q: PageQuery, path: Text) {
    && Compare(path, q.cursor) != Less && Compare(path, q.bounds.upper) == Less
    && (Compare(path, q.cursor) == Greater || q.first)
    && (path == q.bounds.root || Compare(path, q.bounds.lower) != Less)
  }

  /** Rows an earlier page has already visited. */
  predicate Passed(q: PageQuery, path: Text) {
    !q.first && Compare(path, q.cursor) != Greater
  }

  ghost predicate OnCourse(q: PageQuery) {
    IsBounds(q.bounds) && (if q.first then q.cursor == q.bounds.root else InSubtree(q.bounds.root, q.cursor))
  }

  /** A page neither skips nor repeats rows of the subtree. */
  lemma {:induction false} CandidatesAreTheRest(q: PageQuery, path: Text)
    requires OnCourse(q)
    ensures Candidate(q, path) <==> InSubtree(q.bounds.root, path) && !Passed(q, path)
  {
    RangeIsSubtree(q.bounds, path);
    if InSubtree(q.bounds.root, path) {
      SubtreeIsBracketed(q.bounds, path);
    }
  }

  // ---------- ORDER BY path LIMIT n ----------

  lemma {:induction false} LessTransits(a: Text, b: Text, c: Text)
    requires Compare(a, b) == Less && (b == c || Compare(b, c) == Less)
    ensures Compare(a, c) == Less
  {
    if b != c {
      CompareTransits(a, b, c);
    }
  }

  method Least(paths: set<Text>) returns (least: Text)
    requires paths != {}
    ensures least in paths && forall p :: p in paths ==> p == least || Compare(least, p) == Less
  {
    least :| least in paths;
    var rest := paths - {least};
    while rest != {}
      invariant least in paths && rest <= paths
      invariant forall p :: p in paths && p !in rest ==> p == least || Compare(least, p) == Less
    {
      var p :| p in rest;
      CompareEqual(p, least);
      CompareReverses(p, least);
      if Compare(p, least) == Less {
        forall other | other in paths && other !in rest ensures Compare(p, other) == Less {
          LessTransits(p, least, other);
        }
        least := p;
      }
      rest := rest - {p};
    }
  }

  ghost predicate Ascending(page: seq<Text>) {
    forall i, j :: 0 <= i < j < |page| ==> Compare(page[i], page[j]) == Less
  }

  /** The first `limit` candidate paths in binary order. */
  method SelectPage(rows: Rows, q: PageQuery, limit: nat) returns (page: seq<Text>)
    ensures Ascending(page) && |page| <= limit
    ensures forall i :: 0 <= i < |page| ==> page[i] in rows && Candidate(q, page[i])
    ensures forall p :: p in rows && Candidate(q, p) ==>
              p in page || (|page| == limit && (limit > 0 ==> Compare(page[limit - 1], p) == Less))
  {
    var rest := set p | p in rows && Candidate(q, p);
    page := [];
    while rest != {} && |page| < limit
      invariant |page| <= limit && Ascending(page)
      invariant forall i :: 0 <= i < |page| ==> page[i] in rows && Candidate(q, page[i])
      invariant forall p :: p in rest ==> p in rows && Candidate(q, p)
      invariant forall p :: p in rows && Candidate(q, p) ==> p in page || p in rest
      invariant forall i, p :: 0 <= i < |page| && p in rest ==> Compare(page[i], p) == Less
    {
      var least := Least(rest);
      CompareSelf(least);
      rest := rest - {least};
      page := page + [least];
    }
  }

  // ---------- the table ----------

  function DeleteId(rows: Rows, id: int): Rows {
    map p | p in rows && rows[p].id != id :: rows[p]
  }

  /** Exactly the rows whose path and id are not condemned survive, unchanged. */
  ghost predicate Survivors(rows: Rows, after: Rows, condemned: iset<Text>) {
    && (forall p :: p in after <==> p in rows && p !in condemned)
    && forall p :: p in after ==> after[p] == rows[p]
  }

  /** Paths at or below one of the roots. */
  predicate UnderRoots(roots: seq<Text>, path: Text) {
    exists i :: 0 <= i < |roots| && UnderRoot(roots[i], path)
  }

  predicate UnderRoot(root: Text, path: Text) {
    PathPrefixBounds(root).Some? && InSubtree(PathPrefixBounds(root).value.root, path)
  }

  lemma {:induction false} UnderOneMoreRoot(roots: seq<Text>, k: nat, path: Text)
    requires k < |roots|
    ensures UnderRoots(roots[..k + 1], path) <==> UnderRoots(roots[..k], path) || UnderRoot(roots[k], path)
  {
    assert roots[..k + 1] == roots[..k] + [roots[k]];
    assert roots[..k + 1][k] == roots[k];
    if UnderRoots(roots[..k], path) {
      var i :| 0 <= i < k && UnderRoot(roots[..k][i], path);
      assert roots[..k + 1][i] == roots[..k][i];
    }
  }

  class FileTable {
    var rows: Rows

    constructor (rows: Rows)
      ensures this.rows == rows
    {
      this.rows := rows;
    }

    /** Deleting the stale ids of one page; read cursors are closed. */
    method DeleteIds(ids: seq<int>) returns (deleted: nat)
      requires TableOk(rows)
      modifies this
      ensures TableOk(rows)
      ensures Survivors(old(rows), rows, iset p | p in old(rows) && old(rows)[p].id in ids)
      ensures deleted == |old(rows)| - |rows|
    {
      deleted := 0;
      for k := 0 to |ids|
        invariant TableOk(rows)
        invariant Survivors(old(rows), rows, iset p | p in old(rows) && old(rows)[p].id in ids[..k])
        invariant deleted == |old(rows)| - |rows|
      {
        var was := rows;
        rows := DeleteId(rows, ids[k]);
        SubsetSize(rows.Keys, was.Keys);
        NextIdDeleted(old(rows), was, rows, ids, k);
        deleted := deleted + (|was| - |rows|);
      }
      assert ids[..|ids|] == ids;
    }

    /** The ids on a page that the complete visit did not see. */
    method Stale(page: seq<Text>, seen: SeenIds) returns (stale: seq<int>)
      requires seen.Valid() && forall i :: 0 <= i < |page| ==> page[i] in rows
      ensures forall id ::
                id in stale <==> exists i :: 0 <= i < |page| && rows[page[i]].id == id && !InPages(seen.pages, id)
    {
      stale := [];
      for k := 0 to |page|
        invariant forall id ::
                    id in stale <==> exists i :: 0 <= i < k && rows[page[i]].id == id && !InPages(seen.pages, id)
      {
        var id := rows[page[k]].id;
        var present := seen.Contains(id);
        if !present {
          stale := stale + [id];
        }
      }
    }

    /** Keyset pagination over one root, deleting between pages. */
    method DeleteUnseenUnder(bounds: Bounds, seen: SeenIds) returns (deleted: nat)
      requires TableOk(rows) && seen.Valid() && IsBounds(bounds)
      modifies this
      ensures TableOk(rows) && Pruned(old(rows), rows, bounds.root, seen.pages)
      ensures deleted == |old(rows)| - |rows|
    {
      var q := PageQuery(bounds.root, true, bounds);
      deleted := 0;
      while true
        invariant TableOk(rows) && OnCourse(q) && q.bounds == bounds
        invariant PrunedTo(old(rows), rows, q, seen.pages)
        invariant deleted == |old(rows)| - |rows|
        decreases Remaining(rows, q)
      {
        ghost var was, before := q, rows;
        var page := SelectPage(rows, q, BATCH);
        var stale := Stale(page, seen);
        if |page| > 0 {
          q := q.(cursor := page[|page| - 1], first := false);
        }
        var more := DeleteIds(stale);
        deleted := deleted + more;
        PageIsPassed(before, was, page, q);
        PageIsPruned(old(rows), before, rows, was, q, page, stale, seen.pages);
        if |page| < BATCH {
          LastPage(old(rows), before, rows, was, q, page, seen.pages);
          break;
        }
        RestShrinks(before, rows, was, q, page);
      }
    }

    /** `delete_unseen_under_roots` */
    method DeleteUnseenUnderRoots(roots: seq<Text>, seen: SeenIds) returns (deleted: nat)
      requires TableOk(rows) && seen.Valid()
      modifies this
      ensures TableOk(rows) && PrunedRoots(old(rows), rows, roots, seen.pages)
      ensures deleted == |old(rows)| - |rows|
    {
      deleted := 0;
      for k := 0 to |roots|
        invariant TableOk(rows) && PrunedRoots(old(rows), rows, roots[..k], seen.pages)
        invariant deleted == |old(rows)| - |rows|
      {
        ghost var before := rows;
        var bounds := PathPrefixBounds(roots[k]);
        if bounds.Some? {
          var more := DeleteUnseenUnder(bounds.value, seen);
          deleted := deleted + more;
        }
        NextRootPruned(old(rows), before, rows, roots, k, seen.pages);
      }
      assert roots[..|roots|] == roots;
    }
  }

  lemma {:induction false} NextIdDeleted(rows: Rows, before: Rows, after: Rows, ids: seq<int>, k: nat)
    requires k < |ids| && after == DeleteId(before, ids[k])
    requires Survivors(rows, before, iset p | p in rows && rows[p].id in ids[..k])
    ensures Survivors(rows, after, iset p | p in rows && rows[p].id in ids[..k + 1])
    ensures after.Keys <= before.Keys
  {
    assert ids[..k + 1] == ids[..k] + [ids[k]];
  }

  /** Rows of the subtree whose id was not seen are gone, and nothing else has changed. */
  ghost predicate Pruned(rows: Rows, after: Rows, root: Text, pages: map<int, Page>) {
    && (forall p :: p in after <==> p in rows && !(InSubtree(root, p) && !InPages(pages, rows[p].id)))
    && forall p :: p in after ==> after[p] == rows[p]
  }

  /** The same for the rows the pages so far have passed. */
  ghost predicate PrunedTo(rows: Rows, after: Rows, q: PageQuery, pages: map<int, Page>) {
    && (forall p :: p in after <==>
          p in rows && !(InSubtree(q.bounds.root, p) && Passed(q, p) && !InPages(pages, rows[p].id)))
    && forall p :: p in after ==> after[p] == rows[p]
  }

  ghost predicate PrunedRoots(rows: Rows, after: Rows, roots: seq<Text>, pages: map<int, Page>) {
    && (forall p :: p in after <==> p in rows && !(UnderRoots(roots, p) && !InPages(pages, rows[p].id)))
    && forall p :: p in after ==> after[p] == rows[p]
  }

  function Remaining(rows: Rows, q: PageQuery): set<Text> {
    set p | p in rows && Candidate(q, p)
  }

  ghost predicate IsPage(rows: Rows, q: PageQuery, page: seq<Text>) {
    && Ascending(page) && |page| <= BATCH
    && (forall i :: 0 <= i < |page| ==> page[i] in rows && Candidate(q, page[i]))
    && forall p :: p in rows && Candidate(q, p) ==>
        p in page || (|page| == BATCH && Compare(page[BATCH - 1], p) == Less)
  }

  predicate NextQuery(q: PageQuery, page: seq<Text>, next: PageQuery) {
    next == if |page| > 0 then q.(cursor := page[|page| - 1], first := false) else q
  }

  /** The rows passed after a page are those passed before it and the page itself. */
  lemma {:induction false} PageIsPassed(rows: Rows, q: PageQuery, page: seq<Text>, next: PageQuery)
    requires OnCourse(q) && IsPage(rows, q, page) && NextQuery(q, page, next)
    ensures OnCourse(next)
    ensures forall p :: p in rows && InSubtree(q.bounds.root, p) ==> (Passed(next, p) <==> Passed(q, p) || p in page)
    ensures |page| < BATCH ==> forall p :: p in rows && InSubtree(q.bounds.root, p) ==> Passed(q, p) || p in page
  {
    if |page| > 0 {
      CandidatesAreTheRest(q, next.cursor);
    }
    forall p | p in rows && InSubtree(q.bounds.root, p)
      ensures |page| > 0 ==> (Passed(next, p) <==> Passed(q, p) || p in page)
      ensures |page| < BATCH ==> Passed(q, p) || p in page
    {
      CandidatesAreTheRest(q, p);
      if |page| > 0 {
        RowIsPassed(q, page, next, p);
      }
    }
  }

  lemma {:induction false} RowIsPassed(q: PageQuery, page: seq<Text>, next: PageQuery, p: Text)
    requires |page| > 0 && Ascending(page) && NextQuery(q, page, next) && Candidate(q, next.cursor)
    requires Candidate(q, p) <==> !Passed(q, p)
    requires Candidate(q, p) ==> p in page || Compare(next.cursor, p) == Less
    ensures Passed(next, p) <==> Passed(q, p) || p in page
  {
    var last := next.cursor;
    CompareReverses(last, p);
    if p in page {
      var i :| 0 <= i < |page| && page[i] == p;
      CompareSelf(last);
    } else if Passed(q, p) {
      CompareReverses(last, q.cursor);
      CompareEqual(p, q.cursor);
      CompareEqual(last, q.cursor);
      if Compare(p, q.cursor) == Less {
        LessTransits(p, q.cursor, last);
      }
    }
  }

  lemma {:induction false} PageIsPruned(rows: Rows, before: Rows, after: Rows, q: PageQuery, next: PageQuery,
                                        page: seq<Text>, stale: seq<int>, pages: map<int, Page>)
    requires TableOk(before) && OnCourse(q) && IsPage(before, q, page) && NextQuery(q, page, next)
    requires PrunedTo(rows, before, q, pages)
    requires forall id ::
               id in stale <==> exists i :: 0 <= i < |page| && before[page[i]].id == id && !InPages(pages, id)
    requires Survivors(before, after, iset p | p in before && before[p].id in stale)
    requires forall p :: p in before && InSubtree(q.bounds.root, p) ==> (Passed(next, p) <==> Passed(q, p) || p in page)
    ensures PrunedTo(rows, after, next, pages)
  {
    forall p | p in before ensures before[p].id in stale <==> p in page && !InPages(pages, before[p].id) {
      if p in page {
        var i :| 0 <= i < |page| && page[i] == p;
      }
    }
    forall p
      ensures p in after
              <==> p in rows && !(InSubtree(q.bounds.root, p) && Passed(next, p) && !InPages(pages, rows[p].id))
    {
      if p in page {
        CandidatesAreTheRest(q, p);
      }
      if p in rows && p !in before {
        PassedStaysPassed(q, page, next, p);
      }
    }
  }

  lemma {:induction false} PassedStaysPassed(q: PageQuery, page: seq<Text>, next: PageQuery, p: Text)
    requires OnCourse(q) && NextQuery(q, page, next) && Passed(q, p)
    requires forall i :: 0 <= i < |page| ==> Candidate(q, page[i])
    ensures Passed(next, p)
  {
    if |page| > 0 {
      CompareReverses(next.cursor, q.cursor);
      CompareReverses(next.cursor, p);
      CompareEqual(p, q.cursor);
      if Compare(p, q.cursor) == Less {
        LessTransits(p, q.cursor, next.cursor);
      }
    }
  }

  /** A short page is the last one: every row of the subtree has been visited. */
  lemma {:induction false} LastPage(rows: Rows, before: Rows, after: Rows, q: PageQuery, next: PageQuery,
                                    page: seq<Text>, pages: map<int, Page>)
    requires |page| < BATCH && PrunedTo(rows, after, next, pages) && NextQuery(q, page, next)
    requires after.Keys <= before.Keys
    requires forall p :: p in before && InSubtree(q.bounds.root, p) ==> (Passed(next, p) <==> Passed(q, p) || p in page)
    requires forall p :: p in before && InSubtree(q.bounds.root, p) ==> Passed(q, p) || p in page
    ensures Pruned(rows, after, q.bounds.root, pages)
  {
    forall p ensures p in after <==> p in rows && !(InSubtree(q.bounds.root, p) && !InPages(pages, rows[p].id)) {
      if p in after && InSubtree(q.bounds.root, p) {
        assert Passed(next, p);
      }
    }
  }

  lemma {:induction false} RestShrinks(before: Rows, after: Rows, q: PageQuery, next: PageQuery, page: seq<Text>)
    requires OnCourse(q) && OnCourse(next) && IsPage(before, q, page) && NextQuery(q, page, next) && |page| == BATCH
    requires after.Keys <= before.Keys
    requires forall p :: p in before && InSubtree(q.bounds.root, p) ==> (Passed(next, p) <==> Passed(q, p) || p in page)
    ensures Remaining(after, next) < Remaining(before, q)
  {
    forall p | p in Remaining(after, next) ensures p in Remaining(before, q) {
      CandidatesAreTheRest(next, p);
      CandidatesAreTheRest(q, p);
    }
    var p := page[0];
    assert p in page;
    CandidatesAreTheRest(q, p);
    CandidatesAreTheRest(next, p);
    assert p in Remaining(before, q) && p !in Remaining(after, next);
  }

  lemma {:induction false} NextRootPruned(rows: Rows, before: Rows, after: Rows, roots: seq<Text>, k: nat,
                                          pages: map<int, Page>)
    requires k < |roots| && PrunedRoots(rows, before, roots[..k], pages)
    requires var bounds := PathPrefixBounds(roots[k]);
             if bounds.Some? then Pruned(before, after, bounds.value.root, pages) else after == before
    ensures PrunedRoots(rows, after, roots[..k + 1], pages)
  {
    forall p ensures p in after <==> p in rows && !(UnderRoots(roots[..k + 1], p) && !InPages(pages, rows[p].id)) {
      UnderOneMoreRoot(roots, k, p);
    }
  }
}

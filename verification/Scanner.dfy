/** Exact and legacy refresh (`src/scanner.rs`). */
module Scanner {
  import opened Common
  import opened Records
  import opened Ordering
  import opened Subtrees
  import opened Seen
  import opened Files

  // Exact refresh cleans up by visited ids, legacy refresh by generation stamps; the row
  // writers are those of `src/db.rs`.

  // ---------- what a scan of the file system delivers ----------

  /** A file system tree as one scan observes it. `content` is the record made from the
      metadata; its id and generation are not used. `Broken` is an entry that a readable
      directory failed to deliver, `Sealed` a directory whose listing failed. */
  datatype Tree =
    | Unreadable(path: Text)
    | Broken(path: Text)
    | Plain(content: Row)
    | Sealed(content: Row)
    | Folder(content: Row, entries: seq<Tree>)

  function PathOf(tree: Tree): Text {
    if tree.Unreadable? || tree.Broken? then tree.path else tree.content.path
  }

  const MAX_SCAN_DEPTH := 256

  /** Records in the order of the visit, and the number of warnings. */
  datatype Scan = Scan(rows: seq<Row>, warnings: nat)

  function Plus(a: Scan, b: Scan): Scan {
    Scan(a.rows + b.rows, a.warnings + b.warnings)
  }

  lemma {:induction false} PlusAssociates(a: Scan, b: Scan, c: Scan)
    ensures Plus(a, Plus(b, c)) == Plus(Plus(a, b), c)
  {
  }

  type Excluded = Text -> bool

  /** What a complete visit of one path delivers. */
  function Visit(tree: Tree, excluded: Excluded, depth: nat): Scan
    decreases tree, 0
  {
    if depth > MAX_SCAN_DEPTH then Scan([], 1)
    else if excluded(PathOf(tree)) then Scan([], 0)
    else
      match tree
      case Unreadable(_) => Scan([], 1)
      case Broken(_) => Scan([], 1)
      case Plain(content) => Scan([content], 0)
      case Sealed(content) => Scan([content], 1)
      case Folder(content, entries) => Plus(Scan([content], 0), VisitAll(entries, excluded, depth + 1))
  }

  function VisitEntry(entry: Tree, excluded: Excluded, depth: nat): Scan
    decreases entry, 1
  {
    if entry.Broken? then Scan([], 1) else Visit(entry, excluded, depth)
  }

  function VisitAll(entries: seq<Tree>, excluded: Excluded, depth: nat): Scan
    decreases entries, 2
  {
    if entries == [] then Scan([], 0)
    else Plus(VisitEntry(entries[0], excluded, depth), VisitAll(entries[1..], excluded, depth))
  }

  /** What a visit finds inside a path once its own record is taken. */
  function Inside(tree: Tree, excluded: Excluded, depth: nat): Scan {
    match tree
    case Sealed(_) => Scan([], 1)
    case Folder(_, entries) => VisitAll(entries, excluded, depth + 1)
    case _ => Scan([], 0)
  }

  lemma {:induction false} InsideFollows(done: Scan, tree: Tree, excluded: Excluded, depth: nat)
    requires depth <= MAX_SCAN_DEPTH && !excluded(PathOf(tree)) && !tree.Unreadable? && !tree.Broken?
    ensures Plus(done, Visit(tree, excluded, depth))
         == Plus(Scan(done.rows + [tree.content], done.warnings), Inside(tree, excluded, depth))
    ensures done.rows + Visit(tree, excluded, depth).rows
         == done.rows + [tree.content] + Inside(tree, excluded, depth).rows
  {
    PlusAssociates(done, Scan([tree.content], 0), Inside(tree, excluded, depth));
  }

  lemma {:induction false} NextEntry(done: Scan, entries: seq<Tree>, k: nat, excluded: Excluded, depth: nat)
    requires k < |entries|
    ensures Plus(done, VisitAll(entries[k..], excluded, depth))
         == Plus(Plus(done, VisitEntry(entries[k], excluded, depth)), VisitAll(entries[k + 1..], excluded, depth))
  {
    assert entries[k..][1..] == entries[k + 1..];
    PlusAssociates(done, VisitEntry(entries[k], excluded, depth), VisitAll(entries[k + 1..], excluded, depth));
  }

  function VisitRoots(trees: seq<Tree>, excluded: Excluded): Scan {
    if trees == [] then Scan([], 0)
    else Plus(VisitRoots(trees[..|trees| - 1], excluded), Visit(trees[|trees| - 1], excluded, 0))
  }

  lemma {:induction false} NextRoot(trees: seq<Tree>, excluded: Excluded, k: nat)
    requires k < |trees|
    ensures VisitRoots(trees[..k + 1], excluded) == Plus(VisitRoots(trees[..k], excluded), Visit(trees[k], excluded, 0))
  {
    assert trees[..k + 1][..k] == trees[..k];
  }

  /** Further roots are visited after the earlier ones. */
  lemma {:induction false} RootsGrow(trees: seq<Tree>, excluded: Excluded, k: nat)
    requires k <= |trees|
    ensures VisitRoots(trees[..k], excluded).rows <= VisitRoots(trees, excluded).rows
    ensures k == |trees| ==> VisitRoots(trees[..k], excluded) == VisitRoots(trees, excluded)
    decreases |trees|
  {
    var n := |trees| - 1;
    if k <= n {
      RootsGrow(trees[..n], excluded, k);
      assert trees[..n][..k] == trees[..k];
    } else {
      assert trees[..k] == trees;
    }
  }

  // ---------- the two row writers ----------

  datatype Mode = Exact | Legacy

  /** Everything but identity and generation. */
  function Material(row: Row): Row {
    row.(id := 0, indexedAt := 0)
  }

  predicate SameRow(mode: Mode, was: Row, row: Row) {
    Material(was) == Material(row) && (mode == Legacy ==> was.indexedAt == row.indexedAt)
  }

  /** How SQLite chooses an unused id. */
  type PickId = set<int> -> int

  ghost predicate Unused(pick: PickId) {
    forall ids :: pick(ids) !in ids
  }

  function IdsOf(rows: Rows): set<int> {
    set p | p in rows :: rows[p].id
  }

  /** `SCANNER_FILE_UPSERT_SQL` and `FILE_UPSERT_SQL`. */
  function UpsertRow(mode: Mode, pick: PickId, rows: Rows, row: Row): Rows {
    if row.path !in rows then rows[row.path := row.(id := pick(IdsOf(rows)))]
    else if SameRow(mode, rows[row.path], row) then rows
    else rows[row.path := row.(id := rows[row.path].id)]
  }

  function Stamped(row: Row, generation: I64): Row {
    row.(indexedAt := generation)
  }

  function UpsertAll(mode: Mode, pick: PickId, rows: Rows, visited: seq<Row>, generation: I64): Rows {
    if visited == [] then rows
    else UpsertRow(mode, pick, UpsertAll(mode, pick, rows, visited[..|visited| - 1], generation),
                   Stamped(visited[|visited| - 1], generation))
  }

  predicate IsVisited(visited: seq<Row>, path: Text) {
    exists i :: 0 <= i < |visited| && visited[i].path == path
  }

  lemma {:induction false} VisitedSnoc(visited: seq<Row>, path: Text)
    requires visited != []
    ensures IsVisited(visited, path)
            <==> IsVisited(visited[..|visited| - 1], path) || visited[|visited| - 1].path == path
  {
    var init := visited[..|visited| - 1];
    if IsVisited(init, path) {
      var i :| 0 <= i < |init| && init[i].path == path;
      assert visited[i].path == path;
    }
    if IsVisited(visited, path) {
      var i :| 0 <= i < |visited| && visited[i].path == path;
      assert i < |init| ==> init[i].path == path;
    }
  }

  lemma {:induction false} UpsertKeepsTable(mode: Mode, pick: PickId, rows: Rows, row: Row, after: Rows)
    requires TableOk(rows) && Unused(pick) && after == UpsertRow(mode, pick, rows, row)
    ensures TableOk(after)
    ensures forall p :: p in rows ==> p in after && after[p].id == rows[p].id
    ensures forall p :: p in after <==> p in rows || p == row.path
    ensures forall p :: p in rows && p != row.path ==> after[p] == rows[p]
    ensures Material(after[row.path]) == Material(row)
  {
    if row.path !in rows {
      NewIdIsUnused(pick, rows);
    }
  }

  lemma {:induction false} NewIdIsUnused(pick: PickId, rows: Rows)
    requires Unused(pick)
    ensures forall p :: p in rows ==> rows[p].id != pick(IdsOf(rows))
  {
    assert forall p :: p in rows ==> rows[p].id in IdsOf(rows);
  }

  /** What a whole visit leaves: the same table, with every visited path present. */
  lemma {:induction false} UpsertAllKeepsTable(mode: Mode, pick: PickId, rows: Rows, visited: seq<Row>, generation: I64)
    requires TableOk(rows) && Unused(pick)
    ensures var after := UpsertAll(mode, pick, rows, visited, generation);
            && TableOk(after)
            && (forall p :: p in after <==> p in rows || IsVisited(visited, p))
            && (forall p :: p in rows ==> after[p].id == rows[p].id)
            && forall p :: p in rows && !IsVisited(visited, p) ==> after[p] == rows[p]
  {
    if visited != [] {
      var n := |visited| - 1;
      UpsertAllKeepsTable(mode, pick, rows, visited[..n], generation);
      UpsertKeepsTable(mode, pick, UpsertAll(mode, pick, rows, visited[..n], generation),
                       Stamped(visited[n], generation), UpsertAll(mode, pick, rows, visited, generation));
      forall p ensures IsVisited(visited, p) <==> IsVisited(visited[..n], p) || visited[n].path == p {
        VisitedSnoc(visited, p);
      }
    }
  }

  /** Both writers hold the same ids and contents; only the legacy one restamps everything. */
  ghost predicate SameUpToGeneration(exact: Rows, legacy: Rows) {
    exact.Keys == legacy.Keys && forall p :: p in exact ==> exact[p].(indexedAt := 0) == legacy[p].(indexedAt := 0)
  }

  lemma {:induction false} SameIds(exact: Rows, legacy: Rows)
    requires SameUpToGeneration(exact, legacy)
    ensures IdsOf(exact) == IdsOf(legacy)
  {
    forall id ensures id in IdsOf(exact) <==> id in IdsOf(legacy) {
      if id in IdsOf(exact) {
        var p :| p in exact && exact[p].id == id;
        assert legacy[p].id == legacy[p].(indexedAt := 0).id;
      }
      if id in IdsOf(legacy) {
        var p :| p in legacy && legacy[p].id == id;
        assert exact[p].id == exact[p].(indexedAt := 0).id;
      }
    }
  }

  lemma {:induction false} UpsertsStayAlike(pick: PickId, exact: Rows, legacy: Rows, row: Row)
    requires SameUpToGeneration(exact, legacy)
    ensures SameUpToGeneration(UpsertRow(Exact, pick, exact, row), UpsertRow(Legacy, pick, legacy, row))
    ensures row.path in UpsertRow(Legacy, pick, legacy, row)
    ensures UpsertRow(Legacy, pick, legacy, row)[row.path].indexedAt == row.indexedAt
  {
    SameIds(exact, legacy);
    if row.path in exact {
      var a, b := exact[row.path], legacy[row.path];
      assert a.id == a.(indexedAt := 0).id == b.id;
      assert Material(a) == Material(a.(indexedAt := 0)) == Material(b);
    }
  }

  lemma {:induction false} WritersStayAlike(pick: PickId, rows: Rows, visited: seq<Row>, generation: I64)
    requires TableOk(rows) && Unused(pick)
    ensures SameUpToGeneration(UpsertAll(Exact, pick, rows, visited, generation),
                               UpsertAll(Legacy, pick, rows, visited, generation))
    ensures forall p :: IsVisited(visited, p) ==>
                          && p in UpsertAll(Legacy, pick, rows, visited, generation)
                          && UpsertAll(Legacy, pick, rows, visited, generation)[p].indexedAt == generation
  {
    if visited != [] {
      var n := |visited| - 1;
      var row := Stamped(visited[n], generation);
      WritersStayAlike(pick, rows, visited[..n], generation);
      UpsertsStayAlike(pick, UpsertAll(Exact, pick, rows, visited[..n], generation),
                       UpsertAll(Legacy, pick, rows, visited[..n], generation), row);
      UpsertAllKeepsTable(Legacy, pick, rows, visited[..n], generation);
      UpsertKeepsTable(Legacy, pick, UpsertAll(Legacy, pick, rows, visited[..n], generation), row,
                       UpsertAll(Legacy, pick, rows, visited, generation));
      forall p | IsVisited(visited, p)
        ensures p in UpsertAll(Legacy, pick, rows, visited, generation)
        ensures UpsertAll(Legacy, pick, rows, visited, generation)[p].indexedAt == generation
      {
        VisitedSnoc(visited, p);
      }
    }
  }

  /** A row whose content the visit confirms keeps its id and its generation. */
  lemma {:induction false} UnchangedRowsAreKept(pick: PickId, rows: Rows, visited: seq<Row>, generation: I64,
                                                path: Text)
    requires TableOk(rows) && Unused(pick) && path in rows
    requires forall i :: 0 <= i < |visited| && visited[i].path == path ==> Material(visited[i]) == Material(rows[path])
    ensures path in UpsertAll(Exact, pick, rows, visited, generation)
    ensures UpsertAll(Exact, pick, rows, visited, generation)[path] == rows[path]
  {
    if visited != [] {
      var n := |visited| - 1;
      UnchangedRowsAreKept(pick, rows, visited[..n], generation, path);
    }
  }

  // ---------- the results of a complete refresh ----------

  /** Upsert everything visited, then drop what lies under the roots and was not visited. */
  ghost predicate IsExactResult(pick: PickId, rows: Rows, after: Rows, roots: seq<Text>, visited: seq<Row>,
                                generation: I64) {
    var upserted := UpsertAll(Exact, pick, rows, visited, generation);
    && (forall p :: p in after <==> p in upserted && (UnderRoots(roots, p) ==> IsVisited(visited, p)))
    && forall p :: p in after ==> after[p] == upserted[p]
  }

  /** Upsert everything visited, then drop what lies under the roots and carries an older stamp. */
  ghost predicate IsLegacyResult(pick: PickId, rows: Rows, after: Rows, roots: seq<Text>, visited: seq<Row>,
                                 generation: I64) {
    var upserted := UpsertAll(Legacy, pick, rows, visited, generation);
    && (forall p :: p in after <==> p in upserted && (UnderRoots(roots, p) ==> upserted[p].indexedAt >= generation))
    && forall p :: p in after ==> after[p] == upserted[p]
  }

  /** Rows under the roots that the visit missed although their stamp is not older. */
  ghost predicate NoNewerLeftovers(rows: Rows, roots: seq<Text>, visited: seq<Row>, generation: I64) {
    forall p :: p in rows && UnderRoots(roots, p) && !IsVisited(visited, p) ==> rows[p].indexedAt < generation
  }

  /** Exact and legacy refresh leave the same rows if and only if no row that vanished from
      disk carries a stamp from the future: the legacy refresh would keep it. */
  lemma {:induction false} RefreshesAgree(pick: PickId, rows: Rows, exact: Rows, legacy: Rows, roots: seq<Text>,
                                          visited: seq<Row>, generation: I64)
    requires TableOk(rows) && Unused(pick)
    requires IsExactResult(pick, rows, exact, roots, visited, generation)
    requires IsLegacyResult(pick, rows, legacy, roots, visited, generation)
    ensures SameUpToGeneration(exact, legacy) <==> NoNewerLeftovers(rows, roots, visited, generation)
  {
    WritersStayAlike(pick, rows, visited, generation);
    UpsertAllKeepsTable(Exact, pick, rows, visited, generation);
    UpsertAllKeepsTable(Legacy, pick, rows, visited, generation);
    if NoNewerLeftovers(rows, roots, visited, generation) {
      forall p ensures p in exact <==> p in legacy {
      }
    } else {
      var p :| p in rows && UnderRoots(roots, p) && !IsVisited(visited, p) && rows[p].indexedAt >= generation;
      assert p in legacy && p !in exact;
    }
  }

  /** Every path of the tree lies under one of the roots. */
  ghost predicate RowsUnder(roots: seq<Text>, visited: seq<Row>) {
    forall i :: 0 <= i < |visited| ==> UnderRoots(roots, visited[i].path)
  }

  /** The content that the last visit of a path found. */
  function LastVisited(visited: seq<Row>, path: Text): (row: Row)
    requires IsVisited(visited, path)
    ensures row in visited && row.path == path
    decreases |visited|
  {
    var n := |visited| - 1;
    if visited[n].path == path then visited[n]
    else
      VisitedSnoc(visited, path);
      assert forall row :: row in visited[..n] ==> row in visited;
      LastVisited(visited[..n], path)
  }

  /** A visited path ends with the content of its last visit, stamped now if it is new. */
  lemma {:induction false} VisitedContentIsKept(pick: PickId, rows: Rows, visited: seq<Row>, generation: I64,
                                                path: Text)
    requires TableOk(rows) && Unused(pick) && IsVisited(visited, path)
    ensures var after := UpsertAll(Exact, pick, rows, visited, generation);
            && path in after && Material(after[path]) == Material(LastVisited(visited, path))
            && (path !in rows ==> after[path].indexedAt == generation)
  {
    var n := |visited| - 1;
    var before := UpsertAll(Exact, pick, rows, visited[..n], generation);
    UpsertAllKeepsTable(Exact, pick, rows, visited[..n], generation);
    UpsertKeepsTable(Exact, pick, before, Stamped(visited[n], generation),
                     UpsertAll(Exact, pick, rows, visited, generation));
    VisitedSnoc(visited, path);
    if IsVisited(visited[..n], path) {
      VisitedContentIsKept(pick, rows, visited[..n], generation, path);
    }
  }

  /** Every visit of the path found the content that its row has. */
  ghost predicate Confirms(visited: seq<Row>, row: Row) {
    forall i :: 0 <= i < |visited| && visited[i].path == row.path ==> Material(visited[i]) == Material(row)
  }

  /** A complete exact refresh leaves, under the roots, exactly the visited paths with the contents
      last visited; ids of surviving rows are kept, and their generation too where the content is
      unchanged; nothing else is touched. */
  lemma {:induction false} ExactRefreshMeaning(pick: PickId, rows: Rows, after: Rows, roots: seq<Text>,
                                               visited: seq<Row>, generation: I64)
    requires TableOk(rows) && Unused(pick) && RowsUnder(roots, visited)
    requires IsExactResult(pick, rows, after, roots, visited, generation)
    ensures TableOk(after)
    ensures forall p :: UnderRoots(roots, p) ==> (p in after <==> IsVisited(visited, p))
    ensures forall p :: IsVisited(visited, p) ==> p in after && Material(after[p]) == Material(LastVisited(visited, p))
    ensures forall p :: IsVisited(visited, p) && p !in rows ==> p in after && after[p].indexedAt == generation
    ensures forall p :: IsVisited(visited, p) && p in rows && Confirms(visited, rows[p]) ==>
              p in after && after[p] == rows[p]
    ensures forall p :: !UnderRoots(roots, p) ==> (p in after <==> p in rows) && (p in rows ==> after[p] == rows[p])
    ensures forall p :: p in after && p in rows ==> after[p].id == rows[p].id
  {
    UpsertAllKeepsTable(Exact, pick, rows, visited, generation);
    forall p | IsVisited(visited, p)
      ensures p in after && Material(after[p]) == Material(LastVisited(visited, p))
      ensures (p !in rows ==> after[p].indexedAt == generation)
    {
      VisitedContentIsKept(pick, rows, visited, generation, p);
    }
    forall p | IsVisited(visited, p) && p in rows && Confirms(visited, rows[p])
      ensures p in after && after[p] == rows[p]
    {
      UnchangedRowsAreKept(pick, rows, visited, generation, p);
    }
  }

  /** A row under a root whose file has vanished and whose stamp is not older than the new
      generation: the exact refresh drops it, the legacy refresh keeps it. */
  lemma {:induction false} NewerLeftoverSurvivesLegacy(pick: PickId, row: Row)
    requires row.path == [SLASH, 0x61, SLASH, 0x62] && row.indexedAt == 7
    ensures var rows: Rows, roots: seq<Text> := map[row.path := row], [[SLASH, 0x61]];
            && TableOk(rows) && !NoNewerLeftovers(rows, roots, [], 5)
            && IsExactResult(pick, rows, map[], roots, [], 5) && IsLegacyResult(pick, rows, rows, roots, [], 5)
            && !SameUpToGeneration(map[], rows)
  {
    var roots: seq<Text>, rows := [[SLASH, 0x61]], map[row.path := row];
    ChildIsUnder();
    assert UnderRoot(roots[0], row.path);
    assert !IsVisited([], row.path);
  }

  /** `/a/b` and `/a` are at or below `/a`. */
  lemma {:induction false} ChildIsUnder()
    ensures UnderRoot([SLASH, 0x61], [SLASH, 0x61, SLASH, 0x62]) && UnderRoot([SLASH, 0x61], [SLASH, 0x61])
  {
    var root: Text, child: Text := [SLASH, 0x61], [SLASH, 0x61, SLASH, 0x62];
    assert child[..3] == root + [SLASH];
    assert TrimSlashes(root) == root;
  }

  // ---------- trees that hang under their path ----------

  /** What `Path::join` puts before the name of an entry. */
  function JoinBase(path: Text): Text {
    if path != [] && path[|path| - 1] == SLASH then path else path + [SLASH]
  }

  /** Entries of a folder carry its path and a name. */
  ghost predicate RootedAt(tree: Tree, path: Text)
    decreases tree
  {
    && PathOf(tree) == path
    && (tree.Folder? ==> forall i :: 0 <= i < |tree.entries| && !tree.entries[i].Broken? ==>
          StartsWith(PathOf(tree.entries[i]), JoinBase(path)) && RootedAt(tree.entries[i], PathOf(tree.entries[i])))
  }

  predicate AtOrBelow(path: Text, other: Text) {
    other == path || StartsWith(other, JoinBase(path))
  }

  lemma {:induction false} PrefixTransits(a: Text, b: Text, c: Text)
    requires StartsWith(a, b) && StartsWith(b, c)
    ensures StartsWith(a, c)
  {
    assert a[..|c|] == a[..|b|][..|c|];
  }

  lemma {:induction false} BelowTransits(path: Text, entry: Text, other: Text)
    requires StartsWith(entry, JoinBase(path)) && AtOrBelow(entry, other)
    ensures AtOrBelow(path, other)
  {
    if other != entry {
      assert StartsWith(JoinBase(entry), entry);
      PrefixTransits(other, JoinBase(entry), entry);
      PrefixTransits(other, entry, JoinBase(path));
    }
  }

  ghost predicate AllBelow(path: Text, rows: seq<Row>) {
    forall i :: 0 <= i < |rows| ==> AtOrBelow(path, rows[i].path)
  }

  lemma {:induction false} VisitStaysBelow(tree: Tree, excluded: Excluded, depth: nat, path: Text)
    requires RootedAt(tree, path)
    ensures AllBelow(path, Visit(tree, excluded, depth).rows)
    decreases tree, 0
  {
    if tree.Folder? && depth <= MAX_SCAN_DEPTH && !excluded(PathOf(tree)) {
      EntriesStayBelow(tree.entries, excluded, depth + 1, path);
    }
  }

  lemma {:induction false} EntriesStayBelow(entries: seq<Tree>, excluded: Excluded, depth: nat, path: Text)
    requires forall i :: 0 <= i < |entries| && !entries[i].Broken? ==>
               StartsWith(PathOf(entries[i]), JoinBase(path)) && RootedAt(entries[i], PathOf(entries[i]))
    ensures AllBelow(path, VisitAll(entries, excluded, depth).rows)
    decreases entries, 1
  {
    if entries != [] {
      var head, visited := entries[0], VisitEntry(entries[0], excluded, depth).rows;
      if !head.Broken? {
        VisitStaysBelow(head, excluded, depth, PathOf(head));
        forall i | 0 <= i < |visited| ensures AtOrBelow(path, visited[i].path) {
          BelowTransits(path, PathOf(head), visited[i].path);
        }
      }
      EntriesStayBelow(entries[1..], excluded, depth, path);
    }
  }

  lemma {:induction false} TrimmedIsPrefix(path: Text)
    ensures StartsWith(path, TrimSlashes(path))
    ensures forall i :: |TrimSlashes(path)| <= i < |path| ==> path[i] == SLASH
  {
    if path != [] && path[|path| - 1] == SLASH {
      var init := path[..|path| - 1];
      TrimmedIsPrefix(init);
      assert path[..|TrimSlashes(init)|] == init[..|TrimSlashes(init)|];
      assert forall i :: 0 <= i < |init| ==> path[i] == init[i];
    }
  }

  /** What hangs under a root path lies in the key range of the root. */
  lemma {:induction false} BelowIsUnderRoot(root: Text, other: Text)
    requires root != [] && AtOrBelow(root, other)
    ensures UnderRoot(root, other)
  {
    TrimmedIsPrefix(root);
    var trimmed := TrimSlashes(root);
    if trimmed == [] {
      assert root[0] == SLASH && JoinBase(root)[0] == SLASH;
      assert other[0] == SLASH && other[..1] == [SLASH];
    } else if other != root || root != trimmed {
      var base := if other == root then root else JoinBase(root);
      assert base[..|trimmed|] == trimmed && base[|trimmed|] == SLASH;
      assert base[..|trimmed| + 1] == trimmed + [SLASH];
      assert StartsWith(other, base) by {
        assert other[..|other|] == other;
      }
      PrefixTransits(other, base, trimmed + [SLASH]);
    }
  }

  /** Each root is scanned as a tree that hangs under it. */
  ghost predicate ScanOf(roots: seq<Text>, trees: seq<Tree>) {
    |trees| == |roots| && forall i :: 0 <= i < |trees| ==> roots[i] != [] && RootedAt(trees[i], roots[i])
  }

  /** Everything a scan delivers lies under one of its roots. */
  lemma {:induction false} ScanStaysUnderRoots(roots: seq<Text>, trees: seq<Tree>, excluded: Excluded)
    requires ScanOf(roots, trees)
    ensures RowsUnder(roots, VisitRoots(trees, excluded).rows)
  {
    if trees != [] {
      var n := |trees| - 1;
      ScanStaysUnderRoots(roots[..n], trees[..n], excluded);
      VisitStaysBelow(trees[n], excluded, 0, roots[n]);
      LastRootAdds(roots, VisitRoots(trees[..n], excluded).rows, Visit(trees[n], excluded, 0).rows);
    }
  }

  lemma {:induction false} LastRootAdds(roots: seq<Text>, before: seq<Row>, last: seq<Row>)
    requires roots != [] && roots[|roots| - 1] != []
    requires RowsUnder(roots[..|roots| - 1], before) && AllBelow(roots[|roots| - 1], last)
    ensures RowsUnder(roots, before + last)
  {
    var n := |roots| - 1;
    var visited := before + last;
    assert roots[..n + 1] == roots;
    forall i | 0 <= i < |visited| ensures UnderRoots(roots, visited[i].path) {
      if i < |before| {
        UnderOneMoreRoot(roots, n, before[i].path);
      } else {
        BelowIsUnderRoot(roots[n], last[i - |before|].path);
      }
    }
  }

  // ---------- the scan as it runs ----------

  /** Ids of the rows at the visited paths. */
  predicate IsVisitedId(rows: Rows, visited: seq<Row>, id: int) {
    exists i :: 0 <= i < |visited| && visited[i].path in rows && rows[visited[i].path].id == id
  }

  lemma {:induction false} VisitedIdSnoc(pick: PickId, mode: Mode, rows: Rows, visited: seq<Row>, row: Row,
                                         generation: I64, after: Rows, id: int)
    requires TableOk(rows) && Unused(pick) && after == UpsertRow(mode, pick, rows, Stamped(row, generation))
    requires forall i :: 0 <= i < |visited| ==> visited[i].path in rows
    ensures IsVisitedId(after, visited + [row], id) <==> IsVisitedId(rows, visited, id) || after[row.path].id == id
  {
    UpsertKeepsTable(mode, pick, rows, Stamped(row, generation), after);
    var more := visited + [row];
    if IsVisitedId(after, more, id) {
      var i :| 0 <= i < |more| && more[i].path in after && after[more[i].path].id == id;
      assert i < |visited| ==> more[i] == visited[i];
    }
    if IsVisitedId(rows, visited, id) {
      var i :| 0 <= i < |visited| && visited[i].path in rows && rows[visited[i].path].id == id;
      assert more[i] == visited[i];
    }
    if after[row.path].id == id {
      assert more[|visited|].path in after;
    }
  }

  ghost predicate HasUpserted(mode: Mode, pick: PickId, generation: I64, start: Rows, visited: seq<Row>, rows: Rows) {
    && TableOk(start) && TableOk(rows) && Unused(pick)
    && rows == UpsertAll(mode, pick, start, visited, generation)
    && forall i :: 0 <= i < |visited| ==> visited[i].path in rows
  }

  /** The seen set holds exactly the ids of the visited rows. */
  ghost predicate HasSeen(pages: map<int, Page>, rows: Rows, visited: seq<Row>) {
    forall id :: InPages(pages, id) <==> IsVisitedId(rows, visited, id)
  }

  lemma {:induction false} UpsertExtends(mode: Mode, pick: PickId, generation: I64, start: Rows, visited: seq<Row>,
                                         rows: Rows, content: Row, after: Rows)
    requires HasUpserted(mode, pick, generation, start, visited, rows)
    requires after == UpsertRow(mode, pick, rows, Stamped(content, generation))
    ensures HasUpserted(mode, pick, generation, start, visited + [content], after)
    ensures content.path in after
  {
    UpsertKeepsTable(mode, pick, rows, Stamped(content, generation), after);
    assert (visited + [content])[..|visited|] == visited;
  }

  lemma {:induction false} SeenExtends(mode: Mode, pick: PickId, generation: I64, start: Rows, visited: seq<Row>,
                                       rows: Rows, content: Row, after: Rows)
    requires HasUpserted(mode, pick, generation, start, visited, rows)
    requires after == UpsertRow(mode, pick, rows, Stamped(content, generation))
    requires content.path in after
    ensures forall id ::
              IsVisitedId(after, visited + [content], id)
              <==> IsVisitedId(rows, visited, id) || after[content.path].id == id
  {
    forall id
      ensures IsVisitedId(after, visited + [content], id)
              <==> IsVisitedId(rows, visited, id) || after[content.path].id == id
    {
      VisitedIdSnoc(pick, mode, rows, visited, content, generation, after, id);
    }
  }

  /** The pages of the seen set that the ids of the visited rows need. */
  ghost function PagesNeeded(rows: Rows, visited: seq<Row>): set<int> {
    set i | 0 <= i < |visited| && visited[i].path in rows :: PageOf(rows[visited[i].path].id)
  }

  lemma {:induction false} NeededPage(rows: Rows, visited: seq<Row>, page: int)
    ensures page in PagesNeeded(rows, visited) <==> exists id :: IsVisitedId(rows, visited, id) && PageOf(id) == page
  {
    if page in PagesNeeded(rows, visited) {
      var i :| 0 <= i < |visited| && visited[i].path in rows && page == PageOf(rows[visited[i].path].id);
      assert IsVisitedId(rows, visited, rows[visited[i].path].id);
    }
    if exists id :: IsVisitedId(rows, visited, id) && PageOf(id) == page {
      var id :| IsVisitedId(rows, visited, id) && PageOf(id) == page;
      var i :| 0 <= i < |visited| && visited[i].path in rows && rows[visited[i].path].id == id;
      assert page == PageOf(rows[visited[i].path].id);
    }
  }

  /** One more visited row needs the page of its id. */
  lemma {:induction false} PagesExtend(mode: Mode, pick: PickId, generation: I64, start: Rows, visited: seq<Row>,
                                       rows: Rows, content: Row, after: Rows)
    requires HasUpserted(mode, pick, generation, start, visited, rows)
    requires after == UpsertRow(mode, pick, rows, Stamped(content, generation))
    requires content.path in after
    ensures PagesNeeded(after, visited + [content])
            == PagesNeeded(rows, visited) + {PageOf(after[content.path].id)}
  {
    SeenExtends(mode, pick, generation, start, visited, rows, content, after);
    forall page
      ensures page in PagesNeeded(after, visited + [content])
              <==> page in PagesNeeded(rows, visited) || page == PageOf(after[content.path].id)
    {
      NeededPage(after, visited + [content], page);
      NeededPage(rows, visited, page);
    }
  }

  /** What part of a visit needs, the whole needs. */
  lemma {:induction false} PagesGrow(mode: Mode, pick: PickId, generation: I64, start: Rows, visited: seq<Row>,
                                     whole: seq<Row>)
    requires TableOk(start) && Unused(pick) && visited <= whole
    ensures PagesNeeded(UpsertAll(mode, pick, start, visited, generation), visited)
         <= PagesNeeded(UpsertAll(mode, pick, start, whole, generation), whole)
    decreases |whole|
  {
    if |visited| < |whole| {
      PagesGrow(mode, pick, generation, start, visited, whole[..|whole| - 1]);
      LastRowNeedsMore(mode, pick, generation, start, whole);
    } else {
      assert visited == whole;
    }
  }

  lemma {:induction false} LastRowNeedsMore(mode: Mode, pick: PickId, generation: I64, start: Rows, whole: seq<Row>)
    requires TableOk(start) && Unused(pick) && whole != []
    ensures PagesNeeded(UpsertAll(mode, pick, start, whole[..|whole| - 1], generation), whole[..|whole| - 1])
         <= PagesNeeded(UpsertAll(mode, pick, start, whole, generation), whole)
  {
    var n := |whole| - 1;
    var rows, after := UpsertAll(mode, pick, start, whole[..n], generation),
                       UpsertAll(mode, pick, start, whole, generation);
    HasUpsertedAll(mode, pick, generation, start, whole[..n]);
    UpsertExtends(mode, pick, generation, start, whole[..n], rows, whole[n], after);
    PagesExtend(mode, pick, generation, start, whole[..n], rows, whole[n], after);
    assert whole[..n] + [whole[n]] == whole;
  }

  lemma {:induction false} HasUpsertedAll(mode: Mode, pick: PickId, generation: I64, start: Rows, visited: seq<Row>)
    requires TableOk(start) && Unused(pick)
    ensures HasUpserted(mode, pick, generation, start, visited,
                        UpsertAll(mode, pick, start, visited, generation))
  {
    UpsertAllKeepsTable(mode, pick, start, visited, generation);
    forall i | 0 <= i < |visited| ensures visited[i].path in UpsertAll(mode, pick, start, visited, generation) {
      assert IsVisited(visited, visited[i].path);
    }
  }

  /** When a complete visit cannot be trusted to clean up by ids: something could not be read, or the
      ids of the visited rows are spread over more pages than the budget allows. */
  ghost predicate FallsBack(pick: PickId, generation: I64, start: Rows, scan: Scan, maxPages: nat) {
    || scan.warnings > 0
    || |PagesNeeded(UpsertAll(Exact, pick, start, scan.rows, generation), scan.rows)| > maxPages
  }

  /** The budget of the seen set, kept or overrun. */
  ghost predicate PagesOk(exceeded: bool, pages: map<int, Page>, maxPages: nat, rows: Rows, visited: seq<Row>) {
    if exceeded then |PagesNeeded(rows, visited)| > maxPages else pages.Keys == PagesNeeded(rows, visited)
  }

  lemma {:induction false} PagesStayOk(mode: Mode, pick: PickId, generation: I64, start: Rows, visited: seq<Row>,
                                       rows: Rows, content: Row, after: Rows, exceeded: bool, pages: map<int, Page>,
                                       maxPages: nat, admitted: bool, next: map<int, Page>)
    requires HasUpserted(mode, pick, generation, start, visited, rows)
    requires after == UpsertRow(mode, pick, rows, Stamped(content, generation)) && content.path in after
    requires PagesOk(exceeded, pages, maxPages, rows, visited) && |pages| <= maxPages
    requires admitted <==> PageOf(after[content.path].id) in pages || |pages| < maxPages
    requires admitted ==> next.Keys == pages.Keys + {PageOf(after[content.path].id)}
    ensures PagesOk(exceeded || !admitted, next, maxPages, after, visited + [content])
  {
    PagesExtend(mode, pick, generation, start, visited, rows, content, after);
    if exceeded {
      SubsetSize(PagesNeeded(rows, visited), PagesNeeded(after, visited + [content]));
    } else if !admitted {
      assert PagesNeeded(after, visited + [content]) == pages.Keys + {PageOf(after[content.path].id)};
      assert |pages.Keys| == |pages|;
    }
  }

  /** The row writer of one scan, with what it has been given so far. */
  class Writer {
    const mode: Mode
    const pick: PickId
    const generation: I64
    const table: FileTable
    const seen: SeenIds
    var exceeded: bool
    var warnings: nat
    ghost const start: Rows
    ghost var visited: seq<Row>

    ghost predicate Valid()
      reads this`exceeded, this`visited, table, seen
    {
      && seen.Valid() && (mode == Legacy ==> !exceeded)
      && HasUpserted(mode, pick, generation, start, visited, table.rows)
      && (mode == Exact && !exceeded ==> HasSeen(seen.pages, table.rows, visited))
      && (mode == Exact ==> PagesOk(exceeded, seen.pages, seen.maxPages, table.rows, visited))
    }

    constructor (mode: Mode, pick: PickId, generation: I64, table: FileTable, maxPages: nat)
      requires TableOk(table.rows) && Unused(pick)
      ensures Valid() && this.mode == mode && this.pick == pick && this.generation == generation && this.table == table
      ensures start == table.rows && visited == [] && warnings == 0 && !exceeded
      ensures fresh(seen) && seen.maxPages == maxPages
    {
      this.mode := mode;
      this.pick := pick;
      this.generation := generation;
      this.table := table;
      this.seen := new SeenIds(maxPages);
      this.exceeded := false;
      this.warnings := 0;
      this.start := table.rows;
      this.visited := [];
    }

    /** The exact writer first probes for an unchanged row and notes its id; otherwise it
        upserts and notes the id that the path then has. */
    method Upsert(content: Row) returns (written: bool)
      requires Valid()
      modifies this`exceeded, this`visited, table, seen
      ensures Valid() && visited == old(visited) + [content]
      ensures old(exceeded) ==> exceeded
      ensures mode == Exact ==> (written <==> table.rows != old(table.rows) || content.path !in old(table.rows))
    {
      ghost var before := table.rows;
      var row := Stamped(content, generation);
      var probed := mode == Exact && row.path in table.rows && Material(table.rows[row.path]) == Material(row);
      if probed {
        written := false;
      } else {
        written := !(row.path in table.rows && SameRow(mode, table.rows[row.path], row));
        table.rows := UpsertRow(mode, pick, table.rows, row);
      }
      UpsertExtends(mode, pick, generation, start, visited, before, content, table.rows);
      if mode == Exact {
        ghost var pages := seen.pages;
        var id := table.rows[row.path].id;
        var admitted := seen.Insert(id);
        PagesStayOk(mode, pick, generation, start, visited, before, content, table.rows, exceeded, pages,
                    seen.maxPages, admitted, seen.pages);
        exceeded := exceeded || !admitted;
        SeenExtends(mode, pick, generation, start, visited, before, content, table.rows);
      }
      visited := visited + [content];
    }

    /** `scan_path_inner`: unless the pages run out, exactly the records of the visit, in
        order, reach the table. */
    method ScanPath(tree: Tree, excluded: Excluded, depth: nat)
      requires Valid()
      modifies this`exceeded, this`visited, this`warnings, table, seen
      ensures Valid() && (old(exceeded) ==> exceeded)
      ensures !exceeded ==>
                Scan(visited, warnings) == Plus(Scan(old(visited), old(warnings)), Visit(tree, excluded, depth))
      ensures visited <= old(visited) + Visit(tree, excluded, depth).rows
      decreases tree, 2
    {
      if depth > MAX_SCAN_DEPTH {
        warnings := warnings + 1;
      } else if !excluded(PathOf(tree)) {
        if tree.Unreadable? || tree.Broken? {
          warnings := warnings + 1;
        } else {
          ScanFound(tree, excluded, depth);
        }
      }
    }

    /** A path whose metadata could be read. */
    method ScanFound(tree: Tree, excluded: Excluded, depth: nat)
      requires Valid() && depth <= MAX_SCAN_DEPTH && !excluded(PathOf(tree)) && !tree.Unreadable? && !tree.Broken?
      modifies this`exceeded, this`visited, this`warnings, table, seen
      ensures Valid() && (old(exceeded) ==> exceeded)
      ensures !exceeded ==>
                Scan(visited, warnings) == Plus(Scan(old(visited), old(warnings)), Visit(tree, excluded, depth))
      ensures visited <= old(visited) + Visit(tree, excluded, depth).rows
      decreases tree, 1
    {
      InsideFollows(Scan(visited, warnings), tree, excluded, depth);
      var _ := Upsert(tree.content);
      ScanInside(tree, excluded, depth);
    }

    method ScanInside(tree: Tree, excluded: Excluded, depth: nat)
      requires Valid()
      modifies this`exceeded, this`visited, this`warnings, table, seen
      ensures Valid() && (old(exceeded) ==> exceeded)
      ensures !exceeded ==>
                Scan(visited, warnings) == Plus(Scan(old(visited), old(warnings)), Inside(tree, excluded, depth))
      ensures visited <= old(visited) + Inside(tree, excluded, depth).rows
      decreases tree, 0
    {
      if tree.Sealed? {
        warnings := warnings + 1;
      } else if tree.Folder? {
        ScanEntries(tree.entries, excluded, depth + 1);
      }
    }

    /** The loop over the entries of one directory. */
    method ScanEntries(entries: seq<Tree>, excluded: Excluded, depth: nat)
      requires Valid()
      modifies this`exceeded, this`visited, this`warnings, table, seen
      ensures Valid() && (old(exceeded) ==> exceeded)
      ensures !exceeded ==>
                Scan(visited, warnings) == Plus(Scan(old(visited), old(warnings)), VisitAll(entries, excluded, depth))
      ensures visited <= old(visited) + VisitAll(entries, excluded, depth).rows
      decreases entries, 4
    {
      ghost var total := Plus(Scan(visited, warnings), VisitAll(entries, excluded, depth));
      var k := 0;
      assert entries[0..] == entries;
      while k < |entries| && !exceeded
        invariant k <= |entries| && Valid() && (old(exceeded) ==> exceeded)
        invariant !exceeded ==> Plus(Scan(visited, warnings), VisitAll(entries[k..], excluded, depth)) == total
        invariant visited <= total.rows
      {
        NextEntry(Scan(visited, warnings), entries, k, excluded, depth);
        ScanEntry(entries[k], excluded, depth);
        k := k + 1;
      }
    }

    method ScanEntry(entry: Tree, excluded: Excluded, depth: nat)
      requires Valid()
      modifies this`exceeded, this`visited, this`warnings, table, seen
      ensures Valid() && (old(exceeded) ==> exceeded)
      ensures !exceeded ==>
                Scan(visited, warnings) == Plus(Scan(old(visited), old(warnings)), VisitEntry(entry, excluded, depth))
      ensures visited <= old(visited) + VisitEntry(entry, excluded, depth).rows
      decreases entry, 3
    {
      if entry.Broken? {
        warnings := warnings + 1;
      } else {
        ScanPath(entry, excluded, depth);
      }
    }

    /** All roots in turn, stopping when the pages run out. */
    method ScanRoots(trees: seq<Tree>, excluded: Excluded)
      requires Valid() && visited == [] && warnings == 0
      modifies this`exceeded, this`visited, this`warnings, table, seen
      ensures Valid() && (old(exceeded) ==> exceeded)
      ensures !exceeded ==> Scan(visited, warnings) == VisitRoots(trees, excluded)
      ensures visited <= VisitRoots(trees, excluded).rows
    {
      var k := 0;
      while k < |trees| && !exceeded
        invariant k <= |trees| && Valid() && (old(exceeded) ==> exceeded)
        invariant !exceeded ==> Scan(visited, warnings) == VisitRoots(trees[..k], excluded)
        invariant visited <= VisitRoots(trees[..k], excluded).rows
      {
        NextRoot(trees, excluded, k);
        ScanPath(trees[k], excluded, 0);
        k := k + 1;
      }
      RootsGrow(trees, excluded, k);
    }
  }

  // ---------- cleanup by generation ----------

  /** The key range of `DELETE_STALE_PREFIX_SQL` and `DELETE_PATH_PREFIX_SQL`. */
  predicate InRange(b: Bounds, path: Text) {
    path == b.root || (Compare(path, b.lower) != Less && Compare(path, b.upper) == Less)
  }

  lemma {:induction false} RangeIsUnderRoot(root: Text, path: Text)
    ensures UnderRoot(root, path) <==> PathPrefixBounds(root).Some? && InRange(PathPrefixBounds(root).value, path)
  {
    if PathPrefixBounds(root).Some? {
      RangeIsSubtree(PathPrefixBounds(root).value, path);
    }
  }

  /** `DELETE_STALE_PREFIX_SQL` */
  function DropStale(rows: Rows, bounds: Bounds, generation: I64): Rows {
    map p | p in rows && !(InRange(bounds, p) && rows[p].indexedAt < generation) :: rows[p]
  }

  /** `DELETE_PATH_PREFIX_SQL` */
  function DropRange(rows: Rows, bounds: Bounds): Rows {
    map p | p in rows && !InRange(bounds, p) :: rows[p]
  }

  ghost predicate StaleDropped(rows: Rows, after: Rows, roots: seq<Text>, generation: I64) {
    && (forall p :: p in after <==> p in rows && !(UnderRoots(roots, p) && rows[p].indexedAt < generation))
    && forall p :: p in after ==> after[p] == rows[p]
  }

  method DeleteStaleUnderRoots(table: FileTable, roots: seq<Text>, generation: I64)
    requires TableOk(table.rows)
    modifies table
    ensures TableOk(table.rows) && StaleDropped(old(table.rows), table.rows, roots, generation)
  {
    for k := 0 to |roots|
      invariant TableOk(table.rows) && StaleDropped(old(table.rows), table.rows, roots[..k], generation)
    {
      forall p ensures UnderRoots(roots[..k + 1], p) <==> UnderRoots(roots[..k], p) || UnderRoot(roots[k], p) {
        UnderOneMoreRoot(roots, k, p);
      }
      forall p
        ensures UnderRoot(roots[k], p)
                <==> PathPrefixBounds(roots[k]).Some? && InRange(PathPrefixBounds(roots[k]).value, p)
      {
        RangeIsUnderRoot(roots[k], p);
      }
      var bounds := PathPrefixBounds(roots[k]);
      if bounds.Some? {
        table.rows := DropStale(table.rows, bounds.value, generation);
      }
    }
    assert roots[..|roots|] == roots;
  }

  // ---------- refresh ----------

  /** One legacy refresh: cleanup is deferred when anything could not be read. */
  ghost predicate IsLegacyOutcome(pick: PickId, rows: Rows, after: Rows, roots: seq<Text>, scan: Scan,
                                  generation: I64) {
    if scan.warnings == 0 then IsLegacyResult(pick, rows, after, roots, scan.rows, generation)
    else after == UpsertAll(Legacy, pick, rows, scan.rows, generation)
  }

  /** What a legacy refresh leaves is determined, so a fallback that satisfies the same
      statement leaves the same rows as running legacy alone. */
  lemma {:induction false} LegacyOutcomeIsUnique(pick: PickId, rows: Rows, after: Rows, other: Rows, roots: seq<Text>,
                                                 scan: Scan, generation: I64)
    requires IsLegacyOutcome(pick, rows, after, roots, scan, generation)
    requires IsLegacyOutcome(pick, rows, other, roots, scan, generation)
    ensures after == other
  {
    if scan.warnings == 0 {
      assert after.Keys == other.Keys;
    }
  }

  method RefreshLegacy(table: FileTable, roots: seq<Text>, trees: seq<Tree>, excluded: Excluded, pick: PickId,
                       generation: I64)
    requires TableOk(table.rows) && Unused(pick)
    modifies table
    ensures TableOk(table.rows)
    ensures IsLegacyOutcome(pick, old(table.rows), table.rows, roots, VisitRoots(trees, excluded), generation)
  {
    var writer := new Writer(Legacy, pick, generation, table, 0);
    writer.ScanRoots(trees, excluded);
    if writer.warnings == 0 {
      DeleteStaleUnderRoots(table, roots, generation);
    }
  }

  lemma {:induction false} UnseenIsUnvisited(mode: Mode, pick: PickId, start: Rows, rows: Rows, visited: seq<Row>,
                                             generation: I64, p: Text)
    requires TableOk(rows) && p in rows
    requires forall i :: 0 <= i < |visited| ==> visited[i].path in rows
    ensures IsVisitedId(rows, visited, rows[p].id) <==> IsVisited(visited, p)
  {
  }

  /** `refresh_roots_with_budget` in exact mode. `later` is what the retry scan observes. */
  method RefreshRoots(table: FileTable, roots: seq<Text>, trees: seq<Tree>, later: seq<Tree>, excluded: Excluded,
                      pick: PickId, generation: I64, retryGeneration: I64, maxPages: nat)
    returns (fallback: bool)
    requires TableOk(table.rows) && Unused(pick)
    modifies table
    ensures TableOk(table.rows)
    ensures fallback <==> FallsBack(pick, generation, old(table.rows), VisitRoots(trees, excluded), maxPages)
    ensures !fallback ==>
              IsExactResult(pick, old(table.rows), table.rows, roots, VisitRoots(trees, excluded).rows, generation)
    ensures fallback ==>
              IsLegacyOutcome(pick, old(table.rows), table.rows, roots, VisitRoots(later, excluded), retryGeneration)
  {
    var begun := table.rows;
    fallback := ScanExactly(table, roots, trees, true, excluded, pick, generation, maxPages);
    if fallback {
      table.rows := begun;
      RefreshLegacy(table, roots, later, excluded, pick, retryGeneration);
    }
  }

  /** Overrunning the budget part of the way means overrunning it on the whole visit. */
  lemma {:induction false} FallbackIsNeeded(pick: PickId, generation: I64, start: Rows, visited: seq<Row>, scan: Scan,
                                            exceeded: bool, pages: map<int, Page>, maxPages: nat)
    requires TableOk(start) && Unused(pick) && visited <= scan.rows && |pages| <= maxPages
    requires PagesOk(exceeded, pages, maxPages, UpsertAll(Exact, pick, start, visited, generation), visited)
    ensures exceeded ==> FallsBack(pick, generation, start, scan, maxPages)
    ensures !exceeded && visited == scan.rows && scan.warnings == 0 ==>
              !FallsBack(pick, generation, start, scan, maxPages)
  {
    if exceeded {
      PagesGrow(Exact, pick, generation, start, visited, scan.rows);
      SubsetSize(PagesNeeded(UpsertAll(Exact, pick, start, visited, generation), visited),
                 PagesNeeded(UpsertAll(Exact, pick, start, scan.rows, generation), scan.rows));
    } else {
      assert |pages.Keys| == |pages|;
    }
  }

  /** The exact scan, with its cleanup when nothing speaks against it. */
  method ScanExactly(table: FileTable, roots: seq<Text>, trees: seq<Tree>, cleanup: bool, excluded: Excluded,
                     pick: PickId, generation: I64, maxPages: nat)
    returns (fallback: bool)
    requires TableOk(table.rows) && Unused(pick)
    modifies table
    ensures fallback <==> FallsBack(pick, generation, old(table.rows), VisitRoots(trees, excluded), maxPages)
    ensures !fallback ==> TableOk(table.rows)
    ensures !fallback && cleanup ==>
              IsExactResult(pick, old(table.rows), table.rows, roots, VisitRoots(trees, excluded).rows, generation)
    ensures !fallback && !cleanup ==>
              table.rows == UpsertAll(Exact, pick, old(table.rows), VisitRoots(trees, excluded).rows, generation)
  {
    ghost var begun := table.rows;
    var writer := new Writer(Exact, pick, generation, table, maxPages);
    writer.ScanRoots(trees, excluded);
    fallback := writer.exceeded || writer.warnings > 0;
    FallbackIsNeeded(pick, generation, begun, writer.visited, VisitRoots(trees, excluded), writer.exceeded,
                     writer.seen.pages, maxPages);
    if !fallback && cleanup {
      ghost var upserted, visited := table.rows, writer.visited;
      forall p | p in upserted ensures InPages(writer.seen.pages, upserted[p].id) <==> IsVisited(visited, p) {
        UnseenIsUnvisited(Exact, pick, begun, upserted, visited, generation, p);
      }
      var _ := table.DeleteUnseenUnderRoots(roots, writer.seen);
    }
  }

  // ---------- one path ----------

  /** What the first look at the path finds. Errors other than absence end the refresh. */
  datatype Look = Absent | Present(isDirectory: bool) | Failed

  ghost predicate Cleared(rows: Rows, after: Rows, path: Text) {
    && (forall p :: p in after <==> p in rows && !UnderRoot(path, p))
    && forall p :: p in after ==> after[p] == rows[p]
  }

  /** `delete_path_prefix` */
  method DeletePathPrefix(table: FileTable, path: Text)
    requires TableOk(table.rows)
    modifies table
    ensures TableOk(table.rows) && Cleared(old(table.rows), table.rows, path)
  {
    forall p ensures UnderRoot(path, p) <==> PathPrefixBounds(path).Some? && InRange(PathPrefixBounds(path).value, p) {
      RangeIsUnderRoot(path, p);
    }
    var bounds := PathPrefixBounds(path);
    if bounds.Some? {
      table.rows := DropRange(table.rows, bounds.value);
    }
  }

  /** Whether the rows below the path are dropped before the scan. */
  predicate ClearsFirst(rows: Rows, path: Text, look: Look) {
    look == Present(false) && path in rows && (rows[path].kind == Directory || rows[path].kind == App)
  }

  /** The rows at the start of the scan of a path. */
  ghost function ScanStart(rows: Rows, path: Text, look: Look): Rows {
    if ClearsFirst(rows, path, look) then map p | p in rows && !UnderRoot(path, p) :: rows[p] else rows
  }

  /** The outcome of refreshing one path: `begun` are the rows at the start of the scan. */
  ghost predicate IsPathResult(mode: Mode, pick: PickId, begun: Rows, after: Rows, path: Text, look: Look, scan: Scan,
                               generation: I64) {
    if look == Present(true) then
      if mode == Exact then IsExactResult(pick, begun, after, [path], scan.rows, generation)
      else IsLegacyOutcome(pick, begun, after, [path], scan, generation)
    else after == UpsertAll(mode, pick, begun, scan.rows, generation)
  }

  ghost predicate PathRefreshed(mode: Mode, pick: PickId, rows: Rows, after: Rows, path: Text, look: Look, scan: Scan,
                                generation: I64) {
    if look == Failed then after == rows
    else if look == Absent then Cleared(rows, after, path)
    else exists begun ::
      && (if ClearsFirst(rows, path, look) then Cleared(rows, begun, path) else begun == rows)
      && TableOk(begun) && IsPathResult(mode, pick, begun, after, path, look, scan, generation)
  }

  method RefreshPathLegacy(table: FileTable, path: Text, look: Look, tree: Tree, excluded: Excluded, pick: PickId,
                           generation: I64)
    requires TableOk(table.rows) && Unused(pick)
    modifies table
    ensures TableOk(table.rows)
    ensures PathRefreshed(Legacy, pick, old(table.rows), table.rows, path, look, VisitRoots([tree], excluded),
                          generation)
  {
    if look == Failed {
      return;
    }
    if look == Absent {
      DeletePathPrefix(table, path);
      return;
    }
    if ClearsFirst(table.rows, path, look) {
      DeletePathPrefix(table, path);
    }
    ghost var begun := table.rows;
    var writer := new Writer(Legacy, pick, generation, table, 0);
    writer.ScanRoots([tree], excluded);
    if look == Present(true) && writer.warnings == 0 {
      DeleteStaleUnderRoots(table, [path], generation);
    }
    assert IsPathResult(Legacy, pick, begun, table.rows, path, look, VisitRoots([tree], excluded), generation);
  }

  datatype PathOutcome = Skipped | LookFailed | Refreshed(fallback: bool)

  /** `refresh_path_with_budget` in exact mode. `laterLook` and `later` are what the retry observes. */
  method RefreshPath(table: FileTable, path: Text, look: Look, tree: Tree, laterLook: Look, later: Tree,
                     excluded: Excluded,
                     pick: PickId, generation: I64, retryGeneration: I64, maxPages: nat) returns (outcome: PathOutcome)
    requires TableOk(table.rows) && Unused(pick)
    modifies table
    ensures TableOk(table.rows)
    ensures outcome == Skipped <==> excluded(path)
    ensures outcome == LookFailed <==> !excluded(path) && look == Failed
    ensures !outcome.Refreshed? ==> table.rows == old(table.rows)
    ensures outcome == Refreshed(true) ==>
              PathRefreshed(Legacy, pick, old(table.rows), table.rows, path, laterLook, VisitRoots([later], excluded),
                            retryGeneration)
    ensures outcome == Refreshed(false) ==>
              PathRefreshed(Exact, pick, old(table.rows), table.rows, path, look, VisitRoots([tree], excluded),
                            generation)
    ensures outcome.Refreshed? ==>
              (outcome.fallback <==>
                 look != Absent && FallsBack(pick, generation, ScanStart(old(table.rows), path, look),
                                             VisitRoots([tree], excluded), maxPages))
  {
    if excluded(path) {
      return Skipped;
    }
    if look == Failed {
      return LookFailed;
    }
    var started := table.rows;
    if look == Absent {
      DeletePathPrefix(table, path);
      return Refreshed(false);
    }
    if ClearsFirst(table.rows, path, look) {
      DeletePathPrefix(table, path);
    }
    ghost var begun := table.rows;
    assert begun == ScanStart(old(table.rows), path, look);
    var fallback := ScanExactly(table, [path], [tree], look == Present(true), excluded, pick, generation, maxPages);
    if fallback {
      table.rows := started;
      RefreshPathLegacy(table, path, laterLook, later, excluded, pick, retryGeneration);
    } else {
      assert IsPathResult(Exact, pick, begun, table.rows, path, look, VisitRoots([tree], excluded), generation);
    }
    return Refreshed(fallback);
  }

  /** Rows under the path that a refresh does not visit. */
  ghost predicate Orphans(rows: Rows, path: Text, visited: seq<Row>) {
    exists p :: p in rows && UnderRoot(path, p) && !IsVisited(visited, p)
  }

  /** What a caller can check: the path is gone, is a directory, was recorded as one, or has no other
      row below it. */
  ghost predicate LeavesNothing(rows: Rows, path: Text, look: Look, visited: seq<Row>) {
    look == Absent || look == Present(true) || ClearsFirst(rows, path, look) || !Orphans(rows, path, visited)
  }

  /** After a complete exact refresh of a path, the rows at and below it are exactly the visited
      ones if and only if the path is gone, is a directory, was a directory, or had no other row
      below it: a plain file that was never recorded as a directory keeps its orphans. */
  lemma {:induction false} PathRefreshMeaning(pick: PickId, rows: Rows, after: Rows, path: Text, look: Look,
                                              scan: Scan, generation: I64)
    requires TableOk(rows) && Unused(pick) && RowsUnder([path], scan.rows) && (look == Absent ==> scan.rows == [])
    requires look != Failed
    requires PathRefreshed(Exact, pick, rows, after, path, look, scan, generation)
    ensures (forall p :: UnderRoot(path, p) ==> (p in after <==> IsVisited(scan.rows, p)))
            <==> LeavesNothing(rows, path, look, scan.rows)
    ensures forall p :: !UnderRoot(path, p) ==> (p in after <==> p in rows) && (p in rows ==> after[p] == rows[p])
  {
    forall p ensures UnderRoots([path], p) <==> UnderRoot(path, p) {
      UnderOneMoreRoot([path], 0, p);
      assert [path][..1] == [path];
    }
    if look != Absent {
      var begun :| (if ClearsFirst(rows, path, look) then Cleared(rows, begun, path) else begun == rows)
        && TableOk(begun) && IsPathResult(Exact, pick, begun, after, path, look, scan, generation);
      UpsertAllKeepsTable(Exact, pick, begun, scan.rows, generation);
      VisitedIsUnder([path], scan.rows);
    }
  }

  /** A plain file whose path was never recorded, with a row below it left from earlier: the
      refresh keeps the orphan. */
  lemma {:induction false} OrphanSurvives(pick: PickId, orphan: Row, file: Row)
    requires Unused(pick) && orphan.path == [SLASH, 0x61, SLASH, 0x62] && file.path == [SLASH, 0x61]
    ensures var rows: Rows, path: Text, scan := map[orphan.path := orphan], file.path, Scan([file], 0);
            var after := UpsertAll(Exact, pick, rows, scan.rows, 5);
            && TableOk(rows) && RowsUnder([path], scan.rows) && Orphans(rows, path, scan.rows)
            && PathRefreshed(Exact, pick, rows, after, path, Present(false), scan, 5)
            && UnderRoot(path, orphan.path) && orphan.path in after && !IsVisited(scan.rows, orphan.path)
  {
    var rows: Rows, path := map[orphan.path := orphan], file.path;
    var scan := Scan([file], 0);
    ChildIsUnder();
    UpsertAllKeepsTable(Exact, pick, rows, scan.rows, 5);
    assert UnderRoot([path][0], path);
    assert !IsVisited(scan.rows, orphan.path);
    assert IsPathResult(Exact, pick, rows, UpsertAll(Exact, pick, rows, scan.rows, 5), path, Present(false), scan, 5);
  }

  lemma {:induction false} VisitedIsUnder(roots: seq<Text>, visited: seq<Row>)
    requires RowsUnder(roots, visited)
    ensures forall p :: IsVisited(visited, p) ==> UnderRoots(roots, p)
  {
    forall p | IsVisited(visited, p) ensures UnderRoots(roots, p) {
      var i :| 0 <= i < |visited| && visited[i].path == p;
    }
  }

  // ---------- generations ----------

  /** A generation that no earlier scan has had, unless the integers are used up, and that does not lag
      behind the clock. */
  predicate IsLater(last: I64, wallNow: I64, generation: I64) {
    generation >= wallNow && (generation > last || generation == I64_MAX)
  }

  /** `next_index_generation`: the least such generation. */
  method NextGeneration(last: I64, wallNow: I64) returns (generation: I64)
    ensures IsLater(last, wallNow, generation)
    ensures forall other: I64 :: IsLater(last, wallNow, other) ==> generation <= other
  {
    generation := Max(wallNow, Min(last + 1, I64_MAX));
  }
}

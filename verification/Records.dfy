/** File records as stored, borrowed and decoded (`src/model.rs`, `src/db.rs`). */
module Records {
  import opened Common

  datatype FileKind = File | Directory | Symlink | App | Other

  /** An owned record; `pathLower` is always the effective lowercase path. */
  datatype FileRecord = FileRecord(
    id: int, path: Text, pathLower: Text, basename: Text, basenameLower: Text, extLower: Option<Text>,
    kind: FileKind, size: Option<I64>, mtime: Option<I64>, ctime: Option<I64>, dev: Option<I64>, inode: Option<I64>,
    indexedAt: I64)

  /** A row of the `files` table, and its borrowed form `DbRecordRef`: `path_lower` may be NULL. */
  datatype Row = Row(
    id: int, path: Text, pathLower: Option<Text>, basename: Text, basenameLower: Text, extLower: Option<Text>,
    kind: FileKind, size: Option<I64>, mtime: Option<I64>, ctime: Option<I64>, dev: Option<I64>, inode: Option<I64>,
    indexedAt: I64)

  /** `str::to_lowercase`, of which nothing but being a function is used. */
  type Lowercase = Text -> Text

  /** NULL and empty stored lowercase paths fall back to lowering the path itself. */
  function Effective(lower: Lowercase, row: Row): Text {
    if row.pathLower.Some? && row.pathLower.value != [] then row.pathLower.value else lower(row.path)
  }

  /** `row_to_record` */
  function Decode(lower: Lowercase, row: Row): FileRecord {
    FileRecord(row.id, row.path, Effective(lower, row), row.basename, row.basenameLower, row.extLower,
               row.kind, row.size, row.mtime, row.ctime, row.dev, row.inode, row.indexedAt)
  }

  /** `borrow_record` */
  function Borrow(record: FileRecord): Row {
    Row(record.id, record.path, Some(record.pathLower), record.basename, record.basenameLower, record.extLower,
        record.kind, record.size, record.mtime, record.ctime, record.dev, record.inode, record.indexedAt)
  }

  /** `ORDER BY id` over a primary key. */
  ghost predicate InIdOrder(rows: seq<Row>) {
    forall i, j :: 0 <= i < j < |rows| ==> rows[i].id < rows[j].id
  }
}

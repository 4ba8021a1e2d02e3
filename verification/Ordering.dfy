/** Byte order of paths and order of hits (`src/search.rs`). */
module Ordering {
  import opened Common

  datatype Order = Less | Equal | Greater {
    function Then(other: Order): Order {
      if this == Equal then other else this
    }
  }

  function CompareInt(a: int, b: int): Order {
    if a < b then Less else if a == b then Equal else Greater
  }

  /** `Option<i64>` order: a missing value is least. */
  function CompareOption(a: Option<int>, b: Option<int>): Order {
    match (a, b)
    case (None, None) => Equal
    case (None, Some(_)) => Less
    case (Some(_), None) => Greater
    case (Some(x), Some(y)) => CompareInt(x, y)
  }

  /** Lexicographic order of byte slices. */
  function Compare(a: Text, b: Text): Order {
    if a == [] then (if b == [] then Equal else Less)
    else if b == [] then Greater
    else if a[0] != b[0] then CompareInt(a[0], b[0])
    else Compare(a[1..], b[1..])
  }

  lemma {:induction false} CompareEqual(a: Text, b: Text)
    ensures Compare(a, b) == Equal <==> a == b
  {
    if a != [] && b != [] && a[0] == b[0] {
      assert a == [a[0]] + a[1..] && b == [b[0]] + b[1..];
      CompareEqual(a[1..], b[1..]);
    }
  }

  function Reverse(order: Order): Order {
    match order
    case Less => Greater
    case Equal => Equal
    case Greater => Less
  }

  lemma {:induction false} CompareReverses(a: Text, b: Text)
    ensures Compare(b, a) == Reverse(Compare(a, b))
  {
    if a != [] && b != [] && a[0] == b[0] {
      CompareReverses(a[1..], b[1..]);
    }
  }

  lemma {:induction false} CompareTransits(a: Text, b: Text, c: Text)
    requires Compare(a, b) == Less && Compare(b, c) == Less
    ensures Compare(a, c) == Less
  {
    if a != [] && b != [] && c != [] && a[0] == b[0] == c[0] {
      CompareTransits(a[1..], b[1..], c[1..]);
    }
  }

  /** Chunks of equal length decide the order, or leave it to what follows. */
  lemma {:induction false} CompareChunks(x: Text, y: Text, a: Text, b: Text)
    requires |x| == |y|
    ensures Compare(x + a, y + b) == Compare(x, y).Then(Compare(a, b))
  {
    if x == [] {
      assert x + a == a && y + b == b;
    } else {
      assert (x + a)[1..] == x[1..] + a && (y + b)[1..] == y[1..] + b;
      if x[0] == y[0] {
        CompareChunks(x[1..], y[1..], a, b);
      }
    }
  }

  /** The strings with a given nonempty prefix are a half-open interval, whose upper end is
      the prefix with its last byte increased. */
  lemma {:induction false} PrefixIsInterval(lower: Text, upper: Text, s: Text)
    requires lower != [] && lower[|lower| - 1] < 255
    requires upper == lower[..|lower| - 1] + [lower[|lower| - 1] + 1]
    ensures StartsWith(s, lower) <==> Compare(s, lower) != Less && Compare(s, upper) == Less
  {
    if s == [] {
    } else if |lower| == 1 {
      assert s[..1] == [s[0]] && lower == [lower[0]];
      assert Compare(s[1..], []) != Less;
    } else {
      assert upper[1..] == lower[1..][..|lower| - 2] + [lower[1..][|lower| - 2] + 1];
      PrefixIsInterval(lower[1..], upper[1..], s[1..]);
      assert StartsWith(s, lower) <==> s[0] == lower[0] && StartsWith(s[1..], lower[1..]) by {
        if |lower| <= |s| {
          assert s[..|lower|] == [s[0]] + s[1..][..|lower| - 1];
          assert lower == [lower[0]] + lower[1..];
        }
      }
    }
  }

  // ---------- PathView ----------

  /** A path in two pieces; `address` is where the shared prefix lives. */
  datatype PathView = PathView(address: int, prefix: Text, suffix: Text) {
    function Whole(): Text {
      prefix + suffix
    }
  }

  /** One address holds one string of a given length. */
  predicate SharedMemory(a: PathView, b: PathView) {
    a.address == b.address && |a.prefix| == |b.prefix| ==> a.prefix == b.prefix
  }

  function Part(v: PathView, i: nat): Text {
    if i == 0 then v.prefix else if i == 1 then v.suffix else []
  }

  /** What is left of a path from offset `offset` of piece `i` on. */
  function Rest(v: PathView, i: nat, offset: nat): Text
    requires offset <= |Part(v, i)|
  {
    Part(v, i)[offset..] + (if i == 0 then v.suffix else [])
  }

  lemma {:induction false} RestSplits(v: PathView, i: nat, offset: nat, n: nat)
    requires offset + n <= |Part(v, i)|
    ensures Rest(v, i, offset) == Part(v, i)[offset..offset + n] + Rest(v, i, offset + n)
  {
  }

  lemma {:induction false} ChunkDecides(a: PathView, b: PathView, l: nat, r: nat, lo: nat, ro: nat, n: nat)
    requires lo + n <= |Part(a, l)| && ro + n <= |Part(b, r)|
    ensures Compare(Rest(a, l, lo), Rest(b, r, ro))
            == Compare(Part(a, l)[lo..lo + n],
                       Part(b, r)[ro..ro + n]).Then(Compare(Rest(a, l, lo + n), Rest(b, r, ro + n)))
    ensures |Rest(a, l, lo)| == n + |Rest(a, l, lo + n)| && |Rest(b, r, ro)| == n + |Rest(b, r, ro + n)|
  {
    RestSplits(a, l, lo, n);
    RestSplits(b, r, ro, n);
    CompareChunks(Part(a, l)[lo..lo + n], Part(b, r)[ro..ro + n], Rest(a, l, lo + n), Rest(b, r, ro + n));
  }

  method SkipSpent(v: PathView, i: nat, offset: nat) returns (j: nat, at: nat)
    requires i <= 2 && offset <= |Part(v, i)|
    ensures i <= j <= 2 && at <= |Part(v, j)| && Rest(v, j, at) == Rest(v, i, offset)
    ensures j < 2 ==> at < |Part(v, j)|
    ensures j == i ==> at == offset
    ensures j == 2 ==> Rest(v, i, offset) == []
  {
    j, at := i, offset;
    while j < 2 && at == |Part(v, j)|
      invariant i <= j <= 2 && at <= |Part(v, j)| && Rest(v, j, at) == Rest(v, i, offset)
      invariant j == i ==> at == offset
    {
      j, at := j + 1, 0;
    }
  }

  lemma {:induction false} EndDecides(a: PathView, b: PathView, l: nat, r: nat, lo: nat, ro: nat)
    requires l <= 2 && r <= 2 && lo <= |Part(a, l)| && ro <= |Part(b, r)|
    requires l < 2 ==> lo < |Part(a, l)|
    requires r < 2 ==> ro < |Part(b, r)|
    requires l == 2 || r == 2
    ensures Compare(Rest(a, l, lo), Rest(b, r, ro)) == if r == 2 then (if l == 2 then Equal else Greater) else Less
  {
    assert l < 2 ==> Rest(a, l, lo) != [];
    assert r < 2 ==> Rest(b, r, ro) != [];
  }

  /** Comparison in pieces is comparison of the concatenations, wherever the paths are split. */
  method ComparePaths(a: PathView, b: PathView) returns (order: Order)
    requires SharedMemory(a, b)
    ensures order == Compare(a.Whole(), b.Whole())
  {
    if a.address == b.address && |a.prefix| == |b.prefix| {
      CompareChunks(a.prefix, b.prefix, a.suffix, b.suffix);
      CompareEqual(a.prefix, b.prefix);
      return Compare(a.suffix, b.suffix);
    }
    order := ComparePieces(a, b);
  }

  /** The longest chunk the two current pieces have in common, and its order. */
  method CompareChunk(a: PathView, b: PathView, l: nat, r: nat, lo: nat, ro: nat) returns (order: Order, length: nat)
    requires l < 2 && r < 2 && lo < |Part(a, l)| && ro < |Part(b, r)|
    ensures length > 0 && lo + length <= |Part(a, l)| && ro + length <= |Part(b, r)|
    ensures |Rest(a, l, lo + length)| < |Rest(a, l, lo)|
    ensures Compare(Rest(a, l, lo), Rest(b, r, ro))
            == order.Then(Compare(Rest(a, l, lo + length), Rest(b, r, ro + length)))
  {
    length := Min(|Part(a, l)| - lo, |Part(b, r)| - ro);
    ChunkDecides(a, b, l, r, lo, ro, length);
    order := Compare(Part(a, l)[lo..lo + length], Part(b, r)[ro..ro + length]);
  }

  method ComparePieces(a: PathView, b: PathView) returns (order: Order)
    ensures order == Compare(a.Whole(), b.Whole())
  {
    ghost var x, y := a.Whole(), b.Whole();
    var l: nat, r: nat, lo: nat, ro: nat := 0, 0, 0, 0;
    assert Rest(a, 0, 0) == a.Whole() && Rest(b, 0, 0) == b.Whole();
    while true
      invariant l <= 2 && r <= 2 && lo <= |Part(a, l)| && ro <= |Part(b, r)|
      invariant x == Rest(a, l, lo) && y == Rest(b, r, ro)
      invariant Compare(a.Whole(), b.Whole()) == Compare(x, y)
      decreases |x|
    {
      l, lo := SkipSpent(a, l, lo);
      r, ro := SkipSpent(b, r, ro);
      if l == 2 || r == 2 {
        EndDecides(a, b, l, r, lo, ro);
        return if r == 2 then (if l == 2 then Equal else Greater) else Less;
      }
      var length;
      order, length := CompareChunk(a, b, l, r, lo, ro);
      if order != Equal {
        return;
      }
      lo := lo + length;
      ro := ro + length;
      x, y := Rest(a, l, lo), Rest(b, r, ro);
    }
  }

  // ---------- the order of hits ----------

  /** What decides a hit's place: score ascending, newer first, shorter path first, path bytes,
      and finally the row's position (packed index) or id (SQLite). */
  datatype Key = Key(score: int, mtime: Option<int>, path: Text, tie: int)

  function CompareKeys(a: Key, b: Key): Order {
    CompareInt(a.score, b.score)
      .Then(CompareOption(b.mtime, a.mtime))
      .Then(CompareInt(|a.path|, |b.path|))
      .Then(Compare(a.path, b.path))
      .Then(CompareInt(a.tie, b.tie))
  }

  predicate Before(a: Key, b: Key) {
    CompareKeys(a, b) == Less
  }

  lemma {:induction false} KeysAreTotal(a: Key, b: Key)
    ensures CompareKeys(a, b) == Equal <==> a == b
    ensures CompareKeys(b, a) == Reverse(CompareKeys(a, b))
  {
    CompareReverses(a.path, b.path);
    CompareEqual(a.path, b.path);
  }

  lemma {:induction false} BeforeTransits(a: Key, b: Key, c: Key)
    requires Before(a, b) && Before(b, c)
    ensures Before(a, c)
  {
    CompareEqual(a.path, b.path);
    CompareEqual(b.path, c.path);
    if Compare(a.path, b.path) == Less && Compare(b.path, c.path) == Less {
      CompareTransits(a.path, b.path, c.path);
    }
  }
}

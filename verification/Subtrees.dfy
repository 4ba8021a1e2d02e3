/** The key range of a subtree of paths (`path_prefix_bounds`, `src/db.rs`). */
module Subtrees {
  import opened Common
  import opened Ordering

  const ZERO: Byte := 0x30

  function TrimSlashes(path: Text): (r: Text)
    ensures r != [] ==> r[|r| - 1] != SLASH
  {
    if path != [] && path[|path| - 1] == SLASH then TrimSlashes(path[..|path| - 1]) else path
  }

  datatype Bounds = Bounds(root: Text, lower: Text, upper: Text)

  /** What the paths strictly below a root start with. */
  function Below(root: Text): Text {
    if root == [SLASH] then [SLASH] else root + [SLASH]
  }

  function PathPrefixBounds(path: Text): (bounds: Option<Bounds>)
    ensures bounds.Some? ==> bounds.value.root != [] && bounds.value.lower == Below(bounds.value.root)
    ensures bounds.Some? ==> (bounds.value.root == [SLASH] || bounds.value.root[|bounds.value.root| - 1] != SLASH)
    ensures bounds.Some? ==> bounds.value.upper == bounds.value.lower[..|bounds.value.lower| - 1] + [ZERO]
  {
    var trimmed := TrimSlashes(path);
    var root := if trimmed == [] && path != [] && path[0] == SLASH then [SLASH] else trimmed;
    if root == [] then None
    else
      var lower := Below(root);
      Some(Bounds(root, lower, lower[..|lower| - 1] + [ZERO]))
  }

  /** A path at or below a root. */
  predicate InSubtree(root: Text, path: Text) {
    path == root || StartsWith(path, Below(root))
  }

  predicate IsBounds(b: Bounds) {
    b.root != [] && b.lower == Below(b.root) && b.upper == b.lower[..|b.lower| - 1] + [ZERO]
  }

  // ---------- order of prefixes ----------

  lemma {:induction false} CompareSelf(a: Text)
    ensures Compare(a, a) == Equal
  {
    CompareEqual(a, a);
  }

  lemma {:induction false} PrefixIsNotGreater(s: Text, p: Text)
    requires StartsWith(s, p)
    ensures Compare(p, s) != Greater && (|p| < |s| ==> Compare(p, s) == Less)
  {
    if p != [] {
      assert s[0] == s[..|p|][0] == p[0];
      assert s[1..][..|p| - 1] == s[..|p|][1..];
      PrefixIsNotGreater(s[1..], p[1..]);
    }
  }

  /** The half-open key range selects exactly the rows strictly below the root. */
  lemma {:induction false} RangeIsSubtree(b: Bounds, path: Text)
    requires IsBounds(b)
    ensures path == b.root || (Compare(path, b.lower) != Less && Compare(path, b.upper) == Less)
            <==> InSubtree(b.root, path)
  {
    PrefixIsInterval(b.lower, b.upper, path);
  }

  /** Everything in the subtree lies between the root and the upper bound. */
  lemma {:induction false} SubtreeIsBracketed(b: Bounds, path: Text)
    requires IsBounds(b) && InSubtree(b.root, path)
    ensures Compare(path, b.root) != Less && Compare(path, b.upper) == Less
  {
    CompareSelf(b.root);
    if path == b.root {
      RootIsBelowUpper(b);
    } else {
      PrefixIsInterval(b.lower, b.upper, path);
      assert StartsWith(path, b.root) by {
        assert path[..|b.lower|][..|b.root|] == path[..|b.root|] && b.lower[..|b.root|] == b.root;
      }
      PrefixIsNotGreater(path, b.root);
      CompareReverses(path, b.root);
    }
  }

  lemma {:induction false} RootIsBelowUpper(b: Bounds)
    requires IsBounds(b)
    ensures Compare(b.root, b.upper) == Less
  {
    if b.root == [SLASH] {
      assert b.upper == [ZERO];
    } else {
      assert b.upper == b.root + [ZERO];
      assert b.upper[..|b.root|] == b.root;
      PrefixIsNotGreater(b.upper, b.root);
    }
  }
}

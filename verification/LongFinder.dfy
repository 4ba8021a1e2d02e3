/** Substring search for long needles (`src/search.rs`). */
module LongFinder {
  import opened Common

  // Horspool with a comparison budget and a Knuth-Morris-Pratt fallback, for needles of
  // eight bytes and more.

  // ---------- the failure table ----------

  /** The first `k` bytes of the needle end at position `i` of the text. */
  ghost predicate Ends(text: Text, i: nat, needle: Text, k: nat) {
    k <= i <= |text| && k <= |needle| && needle[..k] == text[i - k..i]
  }

  /** `q` is the longest needle prefix below `bound` that ends at `i`. */
  ghost predicate Longest(text: Text, i: nat, needle: Text, q: nat, bound: nat) {
    && q < bound && Ends(text, i, needle, q)
    && forall k :: q < k < bound ==> !Ends(text, i, needle, k)
  }

  /** Entry `i` is the longest proper border of `needle[..i + 1]`. */
  ghost predicate IsTable(needle: Text, table: seq<nat>, upTo: nat) {
    && upTo <= |needle| && upTo <= |table|
    && forall i :: 0 <= i < upTo ==> Longest(needle, i + 1, needle, table[i], i + 1)
  }

  /** A needle prefix ends one byte later iff a shorter one ends here and the byte agrees. */
  lemma {:induction false} EndsStep(text: Text, i: nat, needle: Text, k: nat)
    requires i < |text| && k < |needle|
    ensures Ends(text, i + 1, needle, k + 1) <==> Ends(text, i, needle, k) && needle[k] == text[i]
  {
    assert needle[..k + 1] == needle[..k] + [needle[k]];
    if k <= i {
      assert text[i - k..i + 1] == text[i - k..i] + [text[i]];
    }
  }

  /** Prefixes ending at the same place are borders of each other. */
  lemma {:induction false} EndsNest(text: Text, i: nat, needle: Text, k: nat, q: nat)
    requires k <= q && Ends(text, i, needle, q)
    ensures Ends(text, i, needle, k) <==> Ends(needle, q, needle, k)
  {
    assert needle[..q][q - k..] == needle[q - k..q];
    assert text[i - q..i][q - k..] == text[i - k..i];
  }

  /** One turn of the fallback loop: no prefix between the border and `q` can be extended. */
  lemma {:induction false} FallbackSkips(text: Text, i: nat, needle: Text, table: seq<nat>, q: nat)
    requires 0 < q <= |needle| && Ends(text, i, needle, q) && IsTable(needle, table, q)
    ensures table[q - 1] < q && Ends(text, i, needle, table[q - 1])
    ensures forall k :: table[q - 1] < k < q ==> !Ends(text, i, needle, k)
  {
    assert Longest(needle, q, needle, table[q - 1], q);
    EndsNest(text, i, needle, table[q - 1], q);
    forall k | table[q - 1] < k < q ensures !Ends(text, i, needle, k) {
      EndsNest(text, i, needle, k, q);
    }
  }

  /** Following the failure table to the longest prefix that the next byte extends. */
  method Extend(text: Text, i: nat, needle: Text, table: seq<nat>, from: nat, ghost bound: nat) returns (q: nat)
    requires i < |text| && bound <= |needle| && IsTable(needle, table, from)
    requires Longest(text, i, needle, from, bound)
    ensures Longest(text, i + 1, needle, q, bound + 1)
    ensures q <= from + 1
  {
    q := from;
    while q > 0 && text[i] != needle[q]
      invariant q <= from && Ends(text, i, needle, q)
      invariant forall k :: q < k < bound && Ends(text, i, needle, k) ==> needle[k] != text[i]
    {
      FallbackSkips(text, i, needle, table, q);
      q := table[q - 1];
    }
    ghost var next: nat := i + 1;
    EndsStep(text, i, needle, q);
    forall k: nat | q + 1 < k < bound + 1 ensures !Ends(text, next, needle, k) {
      EndsStep(text, i, needle, k - 1);
    }
    if text[i] == needle[q] {
      q := q + 1;
    }
  }

  method BuildTable(needle: Text) returns (table: seq<nat>)
    requires needle != []
    ensures |table| == |needle| && IsTable(needle, table, |needle|)
  {
    table := seq(|needle|, _ => 0);
    for i := 1 to |needle|
      invariant |table| == |needle| && IsTable(needle, table, i)
    {
      var matched := Extend(needle, i, needle, table, table[i - 1], i);
      table := table[i := matched];
    }
  }

  // ---------- the bad-byte table ----------

  /** A shift by `skip[b]` moves no occurrence of `b` (the last needle byte aside) past the window end. */
  ghost predicate IsSkip(needle: Text, skip: seq<nat>, upTo: nat) {
    && |skip| == 256 && upTo < |needle|
    && (forall b: Byte :: 1 <= skip[b] <= |needle|)
    && forall i :: 0 <= i < upTo ==> skip[needle[i]] <= |needle| - i - 1
  }

  method BuildSkip(needle: Text) returns (skip: seq<nat>)
    requires needle != []
    ensures IsSkip(needle, skip, |needle| - 1)
  {
    skip := seq(256, _ => |needle|);
    for i := 0 to |needle| - 1
      invariant IsSkip(needle, skip, i)
    {
      skip := skip[needle[i] := |needle| - i - 1];
    }
  }

  /** No occurrence starts strictly between an offset and the offset the shift leads to. */
  lemma {:induction false} ShiftIsSafe(haystack: Text, needle: Text, skip: seq<nat>, offset: nat, at: nat)
    requires needle != [] && IsSkip(needle, skip, |needle| - 1)
    requires offset + |needle| <= |haystack|
    requires offset < at < offset + skip[haystack[offset + |needle| - 1]]
    ensures !OccursAt(haystack, needle, at)
  {
    var m, d := |needle|, at - offset;
    assert skip[needle[m - 1 - d]] <= d;
    if at + m <= |haystack| {
      assert haystack[at..at + m][m - 1 - d] == haystack[offset + m - 1];
    }
  }

  // ---------- the two searches ----------

  method LinearFind(haystack: Text, needle: Text, table: seq<nat>) returns (found: Option<nat>)
    requires needle != [] && |table| == |needle| && IsTable(needle, table, |needle|)
    ensures IsFirst(haystack, needle, found)
  {
    var m := |needle|;
    var matched := 0;
    for i := 0 to |haystack|
      invariant Longest(haystack, i, needle, matched, m)
      invariant forall at :: at + m <= i ==> !OccursAt(haystack, needle, at)
    {
      matched := Extend(haystack, i, needle, table, matched, m);
      assert Ends(haystack, i + 1, needle, m) <==> OccursAt(haystack, needle, i + 1 - m);
      if matched == m {
        return Some(i + 1 - matched);
      }
    }
    return None;
  }

  method FindLong(haystack: Text, needle: Text, skip: seq<nat>, table: seq<nat>) returns (found: Option<nat>)
    requires needle != [] && IsSkip(needle, skip, |needle| - 1)
    requires |table| == |needle| && IsTable(needle, table, |needle|)
    ensures IsFirst(haystack, needle, found)
  {
    if |needle| > |haystack| {
      return None;
    }
    var offset, compared := 0, 0;
    var budget := |haystack| * 4;
    while offset <= |haystack| - |needle|
      invariant 0 <= offset && compared <= budget
      invariant forall at :: at < offset ==> !OccursAt(haystack, needle, at)
    {
      var i := |needle|;
      while i > 0 && haystack[offset + i - 1] == needle[i - 1]
        invariant 0 <= i <= |needle|
        invariant haystack[offset + i..offset + |needle|] == needle[i..]
      {
        assert haystack[offset + i - 1..offset + |needle|]
               == [haystack[offset + i - 1]] + haystack[offset + i..offset + |needle|];
        assert needle[i - 1..] == [needle[i - 1]] + needle[i..];
        i := i - 1;
        compared := compared + 1;
      }
      if i == 0 {
        assert needle[0..] == needle;
        return Some(offset);
      }
      assert haystack[offset..offset + |needle|][i - 1] != needle[i - 1];
      assert !OccursAt(haystack, needle, offset);
      compared := compared + 1;
      if compared > budget {
        found := LinearFind(haystack, needle, table);
        return;
      }
      var shift := skip[haystack[offset + |needle| - 1]];
      forall at | offset < at < offset + shift ensures !OccursAt(haystack, needle, at) {
        ShiftIsSafe(haystack, needle, skip, offset, at);
      }
      offset := offset + shift;
    }
    return None;
  }
}

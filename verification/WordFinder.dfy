/**
 The word-at-a-time filter for needles of two to seven bytes (`src/search.rs`):
 eight candidate starts are tested at once by their first and last byte.
 */
module WordFinder {
  import opened Common

  /** `zero_byte_mask`: the high bit of every zero byte, and possibly of some others. */
  function ZeroByteMask(word: bv64): bv64 {
    (word - 0x0101_0101_0101_0101) & !word & 0x8080_8080_8080_8080
  }

  /** Little-endian assembly of eight bytes. */
  function Word(b0: bv64, b1: bv64, b2: bv64, b3: bv64, b4: bv64, b5: bv64, b6: bv64, b7: bv64): bv64 {
    b0 | (b1 << 8) | (b2 << 16) | (b3 << 24) | (b4 << 32) | (b5 << 40) | (b6 << 48) | (b7 << 56)
  }

  function Bits(b: Byte): (w: bv64)
    ensures w < 256
  {
    (b as bv8) as bv64
  }

  /** `u64::from_le_bytes([b; 8])` */
  function Broadcast(b: Byte): bv64 {
    var c := Bits(b);
    Word(c, c, c, c, c, c, c, c)
  }

  /** `u64::from_le_bytes(s[at..at + 8])` */
  function Load(s: Text, at: nat): bv64
    requires at + 8 <= |s|
  {
    Word(Bits(s[at]), Bits(s[at + 1]), Bits(s[at + 2]), Bits(s[at + 3]),
         Bits(s[at + 4]), Bits(s[at + 5]), Bits(s[at + 6]), Bits(s[at + 7]))
  }

  /** The candidate bit of byte lane `k`. */
  predicate Lane(w: bv64, k: nat)
    requires k < 8
  {
    match k
    case 0 => w & 0x80 != 0
    case 1 => w & 0x8000 != 0
    case 2 => w & 0x80_0000 != 0
    case 3 => w & 0x8000_0000 != 0
    case 4 => w & 0x80_0000_0000 != 0
    case 5 => w & 0x8000_0000_0000 != 0
    case 6 => w & 0x80_0000_0000_0000 != 0
    case _ => w & 0x8000_0000_0000_0000 != 0
  }

  predicate ByteIsZero(w: bv64, k: nat)
    requires k < 8
  {
    match k
    case 0 => w & 0xFF == 0
    case 1 => w & 0xFF00 == 0
    case 2 => w & 0xFF_0000 == 0
    case 3 => w & 0xFF00_0000 == 0
    case 4 => w & 0xFF_0000_0000 == 0
    case 5 => w & 0xFF00_0000_0000 == 0
    case 6 => w & 0xFF_0000_0000_0000 == 0
    case _ => w & 0xFF00_0000_0000_0000 == 0
  }

  lemma {:induction false} ZeroByteIsFlagged(w: bv64, k: nat)
    requires k < 8 && ByteIsZero(w, k)
    ensures Lane(ZeroByteMask(w), k)
  {
    match k
    case 0 => case 1 => case 2 => case 3 => case 4 => case 5 => case 6 => case _ =>
  }

  /** Lane `k` as a byte. */
  function ByteOf(w: bv64, k: nat): bv64
    requires k < 8
  {
    match k
    case 0 => w & 0xFF
    case 1 => (w >> 8) & 0xFF
    case 2 => (w >> 16) & 0xFF
    case 3 => (w >> 24) & 0xFF
    case 4 => (w >> 32) & 0xFF
    case 5 => (w >> 40) & 0xFF
    case 6 => (w >> 48) & 0xFF
    case _ => (w >> 56) & 0xFF
  }

  lemma {:induction false} BytesOfWord(b0: bv64, b1: bv64, b2: bv64, b3: bv64, b4: bv64, b5: bv64, b6: bv64, b7: bv64)
    requires b0 < 256 && b1 < 256 && b2 < 256 && b3 < 256 && b4 < 256 && b5 < 256 && b6 < 256 && b7 < 256
    ensures var w := Word(b0, b1, b2, b3, b4, b5, b6, b7);
            && w & 0xFF == b0 && (w >> 8) & 0xFF == b1 && (w >> 16) & 0xFF == b2 && (w >> 24) & 0xFF == b3
            && (w >> 32) & 0xFF == b4 && (w >> 40) & 0xFF == b5 && (w >> 48) & 0xFF == b6 && (w >> 56) & 0xFF == b7
  {
  }

  /** The filter has no false negatives: lanes that hold the same byte are flagged. */
  lemma {:induction false} EqualBytesAreFlagged(a: bv64, b: bv64, k: nat)
    requires k < 8 && ByteOf(a, k) == ByteOf(b, k)
    ensures Lane(ZeroByteMask(a ^ b), k)
  {
    assert ByteIsZero(a ^ b, k) by {
      match k
      case 0 => case 1 => case 2 => case 3 => case 4 => case 5 => case 6 => case _ =>
    }
    ZeroByteIsFlagged(a ^ b, k);
  }

  lemma {:induction false} ByteOfLoad(s: Text, at: nat, k: nat)
    requires at + 8 <= |s| && k < 8
    ensures ByteOf(Load(s, at), k) == Bits(s[at + k])
  {
    BytesOfWord(Bits(s[at]), Bits(s[at + 1]), Bits(s[at + 2]), Bits(s[at + 3]),
                Bits(s[at + 4]), Bits(s[at + 5]), Bits(s[at + 6]), Bits(s[at + 7]));
  }

  lemma {:induction false} ByteOfBroadcast(b: Byte, k: nat)
    requires k < 8
    ensures ByteOf(Broadcast(b), k) == Bits(b)
  {
    var c := Bits(b);
    BytesOfWord(c, c, c, c, c, c, c, c);
  }

  /** The high bit of lane `k` survives for every start `at + k` whose byte agrees. */
  lemma {:induction false} EqualLoadsAreFlagged(s: Text, at: nat, c: Byte, k: nat, load: bv64, wanted: bv64)
    requires at + 8 <= |s| && k < 8 && s[at + k] == c
    requires load == Load(s, at) && wanted == Broadcast(c)
    ensures Lane(ZeroByteMask(load ^ wanted), k)
  {
    assert ByteOf(load, k) == ByteOf(wanted, k) by {
      ByteOfLoad(s, at, k);
      ByteOfBroadcast(c, k);
    }
    EqualBytesAreFlagged(load, wanted, k);
  }

  /** Only high bits of byte lanes are set. */
  predicate OnlyLanes(w: bv64) {
    w & 0x7F7F_7F7F_7F7F_7F7F == 0
  }

  lemma {:induction false} LaneOfAnd(a: bv64, b: bv64, k: nat)
    requires k < 8 && Lane(a, k) && Lane(b, k)
    ensures Lane(a & b, k)
  {
    match k
    case 0 => case 1 => case 2 => case 3 => case 4 => case 5 => case 6 => case _ =>
  }

  lemma {:induction false} MasksAreLanes(a: bv64, b: bv64)
    requires OnlyLanes(a) && OnlyLanes(b)
    ensures OnlyLanes(a & b)
  {
  }

  // ---------- enumerating the candidates of a word ----------

  /** `u64::trailing_zeros` */
  function TrailingZeros(w: bv64): nat
    requires w != 0
    decreases w
  {
    if w & 1 != 0 then 0 else HalfIsSmaller(w); 1 + TrailingZeros(w >> 1)
  }

  lemma {:induction false} HalfIsSmaller(w: bv64)
    requires w != 0 && w & 1 == 0
    ensures w >> 1 < w && w >> 1 != 0
  {
  }

  lemma {:induction false} TrailingZeroByte(w: bv64)
    requires w != 0 && w & 0xFF == 0
    ensures w >> 8 != 0 && TrailingZeros(w) == 8 + TrailingZeros(w >> 8)
  {
    assert w & 1 == 0 && (w >> 1) & 1 == 0 && (w >> 2) & 1 == 0 && (w >> 3) & 1 == 0;
    assert (w >> 4) & 1 == 0 && (w >> 5) & 1 == 0 && (w >> 6) & 1 == 0 && (w >> 7) & 1 == 0;
    assert (w >> 1) >> 1 == w >> 2 && (w >> 2) >> 1 == w >> 3 && (w >> 3) >> 1 == w >> 4;
    assert (w >> 4) >> 1 == w >> 5 && (w >> 5) >> 1 == w >> 6 && (w >> 6) >> 1 == w >> 7 && (w >> 7) >> 1 == w >> 8;
    assert TrailingZeros(w) == 1 + TrailingZeros(w >> 1);
    assert TrailingZeros(w >> 1) == 1 + TrailingZeros(w >> 2);
    assert TrailingZeros(w >> 2) == 1 + TrailingZeros(w >> 3);
    assert TrailingZeros(w >> 3) == 1 + TrailingZeros(w >> 4);
    assert TrailingZeros(w >> 4) == 1 + TrailingZeros(w >> 5);
    assert TrailingZeros(w >> 5) == 1 + TrailingZeros(w >> 6);
    assert TrailingZeros(w >> 6) == 1 + TrailingZeros(w >> 7);
    assert TrailingZeros(w >> 7) == 1 + TrailingZeros(w >> 8);
  }

  lemma {:induction false} TrailingSevenZeros(w: bv64)
    requires w & 0xFF == 0x80
    ensures w != 0 && TrailingZeros(w) == 7
  {
    assert w & 1 == 0 && (w >> 1) & 1 == 0 && (w >> 2) & 1 == 0 && (w >> 3) & 1 == 0;
    assert (w >> 4) & 1 == 0 && (w >> 5) & 1 == 0 && (w >> 6) & 1 == 0 && (w >> 7) & 1 != 0;
    assert (w >> 1) >> 1 == w >> 2 && (w >> 2) >> 1 == w >> 3 && (w >> 3) >> 1 == w >> 4;
    assert (w >> 4) >> 1 == w >> 5 && (w >> 5) >> 1 == w >> 6 && (w >> 6) >> 1 == w >> 7;
    assert TrailingZeros(w >> 7) == 0;
    assert TrailingZeros(w >> 6) == 1;
    assert TrailingZeros(w >> 5) == 2;
    assert TrailingZeros(w >> 4) == 3;
    assert TrailingZeros(w >> 3) == 4;
    assert TrailingZeros(w >> 2) == 5;
    assert TrailingZeros(w >> 1) == 6;
  }

  /** The lowest candidate of a word is where `trailing_zeros / 8` says. */
  lemma {:induction false} LowestLane(w: bv64) returns (k: nat)
    requires w != 0 && OnlyLanes(w)
    ensures k < 8 && TrailingZeros(w) / 8 == k
    ensures Lane(w, k) && forall j :: 0 <= j < k ==> !Lane(w, j)
    decreases w
  {
    if Lane(w, 0) {
      assert w & 0xFF == 0x80;
      TrailingSevenZeros(w);
      k := 0;
    } else {
      var next := w >> 8;
      assert w & 0xFF == 0 && next < w && OnlyLanes(next);
      TrailingZeroByte(w);
      k := LowestLane(next);
      forall j | 0 <= j < 7 ensures Lane(next, j) <==> Lane(w, j + 1) {
        ShiftedLane(w, j);
      }
      assert !Lane(next, 7);
      k := k + 1;
      forall j | 0 <= j < k ensures !Lane(w, j) {
        if j > 0 {
          assert !Lane(next, j - 1);
        }
      }
    }
  }

  lemma {:induction false} ShiftedLane(w: bv64, j: nat)
    requires j < 7
    ensures Lane(w >> 8, j) <==> Lane(w, j + 1)
  {
    match j
    case 0 => case 1 => case 2 => case 3 => case 4 => case 5 => case _ =>
  }

  /** `w & (w - 1)` drops exactly the lowest candidate. */
  lemma {:induction false} ClearLowest(w: bv64, k: nat, rest: bv64)
    requires rest == w & (w - 1)
    requires k < 8 && OnlyLanes(w) && Lane(w, k) && forall i :: 0 <= i < k ==> !Lane(w, i)
    ensures OnlyLanes(rest) && rest < w
    ensures forall j :: 0 <= j < 8 ==> (Lane(rest, j) <==> Lane(w, j) && j != k)
  {
    assert w != 0;
    assert k > 0 ==> !Lane(w, 0);
    assert k > 1 ==> !Lane(w, 1);
    assert k > 2 ==> !Lane(w, 2);
    assert k > 3 ==> !Lane(w, 3);
    assert k > 4 ==> !Lane(w, 4);
    assert k > 5 ==> !Lane(w, 5);
    assert k > 6 ==> !Lane(w, 6);
  }

  // ---------- the search ----------

  /** The candidates of one word, in ascending order, each settled by a full comparison. */
  method FirstCandidate(haystack: Text, needle: Text, offset: nat, flagged: bv64) returns (found: Option<nat>)
    requires offset + 8 + |needle| - 1 <= |haystack| && OnlyLanes(flagged)
    requires forall at :: at < offset ==> !OccursAt(haystack, needle, at)
    requires forall k :: 0 <= k < 8 && OccursAt(haystack, needle, offset + k) ==> Lane(flagged, k)
    ensures found.Some? ==> IsFirst(haystack, needle, found)
    ensures found.None? ==> forall at :: at < offset + 8 ==> !OccursAt(haystack, needle, at)
  {
    var candidates := flagged;
    while candidates != 0
      invariant OnlyLanes(candidates)
      invariant forall k :: 0 <= k < 8 && OccursAt(haystack, needle, offset + k) ==> Lane(candidates, k)
      decreases candidates
    {
      ghost var k := LowestLane(candidates);
      var candidate := offset + TrailingZeros(candidates) / 8;
      forall at | at < candidate ensures !OccursAt(haystack, needle, at) {
        assert at >= offset ==> !Lane(candidates, at - offset);
      }
      if haystack[candidate..candidate + |needle|] == needle {
        return Some(candidate);
      }
      assert !OccursAt(haystack, needle, offset + k);
      var rest := candidates & (candidates - 1);
      ClearLowest(candidates, k, rest);
      candidates := rest;
    }
    forall at | at < offset + 8 ensures !OccursAt(haystack, needle, at) {
      assert at >= offset ==> !Lane(candidates, at - offset);
    }
    return None;
  }

  method FindBytes(haystack: Text, needle: Text) returns (found: Option<nat>)
    requires 2 <= |needle| <= 7
    ensures IsFirst(haystack, needle, found)
  {
    var n := |needle|;
    if |haystack| < n {
      return None;
    }
    var starts := |haystack| - n + 1;
    var first, last := Broadcast(needle[0]), Broadcast(needle[n - 1]);
    var offset := 0;
    while starts - offset >= 8
      invariant 0 <= offset <= starts
      invariant forall at :: at < offset ==> !OccursAt(haystack, needle, at)
    {
      var candidates := Candidates(haystack, offset, needle, first, last);
      found := FirstCandidate(haystack, needle, offset, candidates);
      if found.Some? {
        return;
      }
      offset := offset + 8;
    }
    while offset < starts
      invariant 0 <= offset <= starts
      invariant forall at :: at < offset ==> !OccursAt(haystack, needle, at)
    {
      if haystack[offset..offset + n] == needle {
        return Some(offset);
      }
      offset := offset + 1;
    }
    return None;
  }

  /** The candidate starts of one word: those whose first and last byte may agree. */
  method Candidates(haystack: Text, offset: nat, needle: Text, first: bv64, last: bv64) returns (candidates: bv64)
    requires 2 <= |needle| && offset + |needle| + 7 <= |haystack|
    requires first == Broadcast(needle[0]) && last == Broadcast(needle[|needle| - 1])
    ensures OnlyLanes(candidates)
    ensures forall k :: 0 <= k < 8 && OccursAt(haystack, needle, offset + k) ==> Lane(candidates, k)
  {
    var maskFirst := Mask(haystack, offset, needle[0], first);
    var maskLast := Mask(haystack, offset + |needle| - 1, needle[|needle| - 1], last);
    candidates := maskFirst & maskLast;
    MasksAreLanes(maskFirst, maskLast);
    forall k | 0 <= k < 8 && OccursAt(haystack, needle, offset + k) ensures Lane(candidates, k) {
      OccurrenceEnds(haystack, needle, offset, k);
      LaneOfAnd(maskFirst, maskLast, k);
    }
  }

  /** `zero_byte_mask(load ^ wanted)` flags every lane that holds the sought byte. */
  method Mask(s: Text, at: nat, c: Byte, wanted: bv64) returns (mask: bv64)
    requires at + 8 <= |s| && wanted == Broadcast(c)
    ensures OnlyLanes(mask)
    ensures forall k :: 0 <= k < 8 && s[at + k] == c ==> Lane(mask, k)
  {
    var load := Load(s, at);
    mask := ZeroByteMask(load ^ wanted);
    forall k | 0 <= k < 8 && s[at + k] == c ensures Lane(mask, k) {
      EqualLoadsAreFlagged(s, at, c, k, load, wanted);
    }
  }

  lemma {:induction false} OccurrenceEnds(haystack: Text, needle: Text, offset: nat, k: nat)
    requires needle != [] && OccursAt(haystack, needle, offset + k)
    ensures haystack[offset + k] == needle[0] && haystack[offset + |needle| - 1 + k] == needle[|needle| - 1]
  {
    var occurrence := haystack[offset + k..offset + k + |needle|];
    assert occurrence[0] == haystack[offset + k] && occurrence[|needle| - 1] == haystack[offset + |needle| - 1 + k];
  }
}

/** Types shared by every component of the model. */
module Common {

  datatype Option<+T> = None | Some(value: T)

  datatype Result<+T, +E> = Ok(value: T) | Err(error: E)

  /** A byte of a UTF-8 string. All text in the model is its byte sequence. */
  type Byte = b: int | 0 <= b < 256

  type Text = seq<Byte>

  const SLASH: Byte := 0x2f
  const STAR: Byte := 0x2a
  const QUESTION: Byte := 0x3f

  const U32_MAX := 0xffff_ffff
  const I64_MIN := -0x8000_0000_0000_0000
  const I64_MAX := 0x7fff_ffff_ffff_ffff

  /** The dictionary id that means no entry. */
  const NO_PREFIX := U32_MAX

  type I64 = v: int | I64_MIN <= v <= I64_MAX

  function Min(a: int, b: int): int {
    if a <= b then a else b
  }

  function Max(a: int, b: int): int {
    if a >= b then a else b
  }

  predicate StartsWith(s: Text, prefix: Text) {
    |prefix| <= |s| && s[..|prefix|] == prefix
  }

  predicate EndsWith(s: Text, suffix: Text) {
    |suffix| <= |s| && s[|s| - |suffix|..] == suffix
  }

  /** `needle` occupies the bytes of `haystack` from `at` on. */
  predicate OccursAt(haystack: Text, needle: Text, at: int) {
    0 <= at && at + |needle| <= |haystack| && haystack[at..at + |needle|] == needle
  }

  ghost predicate Contains(haystack: Text, needle: Text) {
    exists at :: OccursAt(haystack, needle, at)
  }

  /** The answer promised by every substring finder: the least offset of an occurrence. */
  ghost predicate IsFirst(haystack: Text, needle: Text, found: Option<nat>) {
    match found
    case None => forall at :: !OccursAt(haystack, needle, at)
    case Some(first) =>
      && OccursAt(haystack, needle, first)
      && forall at :: at < first ==> !OccursAt(haystack, needle, at)
  }

  function FirstFrom(haystack: Text, needle: Text, from: nat): (found: Option<nat>)
    requires from <= |haystack|
    ensures found.Some? ==>
              && from <= found.value && OccursAt(haystack, needle, found.value)
              && forall at :: from <= at < found.value ==> !OccursAt(haystack, needle, at)
    ensures found.None? ==> forall at :: from <= at ==> !OccursAt(haystack, needle, at)
    decreases |haystack| - from
  {
    if OccursAt(haystack, needle, from) then Some(from)
    else if from == |haystack| then None
    else FirstFrom(haystack, needle, from + 1)
  }

  /** The reference substring search: try every offset from the left. */
  function First(haystack: Text, needle: Text): (found: Option<nat>)
    ensures IsFirst(haystack, needle, found)
  {
    FirstFrom(haystack, needle, 0)
  }

  lemma {:induction false} FirstIsUnique(haystack: Text, needle: Text, found: Option<nat>)
    requires IsFirst(haystack, needle, found)
    ensures found == First(haystack, needle)
  {
    var first := First(haystack, needle);
    if found.Some? && first.Some? {
      assert !(found.value < first.value) && !(first.value < found.value);
    }
  }

  /** `try_reserve_exact`: the allocator may grant more than was asked for. */
  method Grant(asked: nat) returns (granted: nat)
    ensures granted >= asked
  {
    granted :| granted >= asked;
  }

  lemma {:induction false} SubsetSize<T>(a: set<T>, b: set<T>)
    requires a <= b
    ensures |a| <= |b|
  {
    assert b == a + (b - a);
  }
}

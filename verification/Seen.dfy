/** The exact, page-bounded bitmap of visited row ids (`SeenIds`, `src/db.rs`). */
module Seen {
  import opened Common

  const PAGE_BITS := 4096

  /** `1 << k` */
  function Bit(k: bv6): bv64 {
    (1 as bv64) << k
  }

  predicate HasBit(word: bv64, k: bv6) {
    word & Bit(k) != 0
  }

  /** One-hot words meet only when equal. */
  lemma {:induction false} OneHotWordsMeet(word: bv64, one: bv64, other: bv64)
    requires one != 0 && one & (one - 1) == 0 && other != 0 && other & (other - 1) == 0
    ensures (word | one) & other != 0 <==> word & other != 0 || one == other
  {
  }

  lemma {:induction false} BitIsOneHot(k: bv6)
    ensures Bit(k) != 0 && Bit(k) & (Bit(k) - 1) == 0
  {
  }

  lemma {:induction false} BitsAreDistinct(j: bv6, k: bv6)
    ensures Bit(j) == Bit(k) <==> j == k
  {
  }

  /** `word |= 1 << j` sets bit `j` and no other. */
  lemma {:induction false} WordGainsOneBit(word: bv64, j: bv6, k: bv6, one: bv64, other: bv64)
    requires one == Bit(j) && other == Bit(k)
    ensures (word | one) & other != 0 <==> word & other != 0 || j == k
  {
    BitIsOneHot(j);
    BitIsOneHot(k);
    BitsAreDistinct(j, k);
    OneHotWordsMeet(word, one, other);
  }

  /** The bit of its word that `bit` selects. */
  function InWord(bit: nat): bv6 {
    (bit % 64) as bv6
  }

  lemma {:induction false} ConvertsBack(a: nat)
    requires a < 64
    ensures (a as bv6) as int == a
  {
  }

  lemma {:induction false} InWordIsInjective(bit: nat, other: nat)
    ensures InWord(bit) == InWord(other) <==> bit % 64 == other % 64
  {
    ConvertsBack(bit % 64);
    ConvertsBack(other % 64);
  }

  /** A page holds 64 words of 64 bits. */
  type Page = words: seq<bv64> | |words| == 64 witness seq(64, _ => 0)

  const EMPTY_PAGE: Page := seq(64, _ => 0)

  function PageOf(id: int): int {
    id / PAGE_BITS
  }

  function BitOf(id: int): (bit: nat)
    ensures bit < PAGE_BITS
  {
    id % PAGE_BITS
  }

  predicate InPages(pages: map<int, Page>, id: int) {
    PageOf(id) in pages && Has(pages[PageOf(id)], BitOf(id))
  }

  predicate Has(page: Page, bit: nat)
    requires bit < PAGE_BITS
  {
    HasBit(page[bit / 64], InWord(bit))
  }

  function Mark(page: Page, bit: nat): Page
    requires bit < PAGE_BITS
  {
    page[bit / 64 := page[bit / 64] | Bit(InWord(bit))]
  }

  lemma {:induction false} MarkSetsOneBit(page: Page, bit: nat, other: nat)
    requires bit < PAGE_BITS && other < PAGE_BITS
    ensures Has(Mark(page, bit), other) <==> Has(page, other) || other == bit
  {
    MarkedWord(page, bit / 64, other / 64, InWord(bit), InWord(other));
    InWordIsInjective(bit, other);
  }

  lemma {:induction false} MarkedWord(page: Page, w: nat, v: nat, j: bv6, k: bv6)
    requires w < 64 && v < 64
    ensures HasBit(page[w := page[w] | Bit(j)][v], k) <==> HasBit(page[v], k) || (w == v && j == k)
  {
    if w == v {
      WordGainsOneBit(page[w], j, k, Bit(j), Bit(k));
    }
  }

  lemma {:induction false} EmptyPageHasNothing(bit: nat)
    requires bit < PAGE_BITS
    ensures !Has(EMPTY_PAGE, bit)
  {
  }

  class SeenIds {
    var pages: map<int, Page>
    const maxPages: nat

    ghost predicate Valid()
      reads this
    {
      |pages| <= maxPages
    }

    constructor (maxPages: nat)
      ensures Valid() && this.maxPages == maxPages && pages == map[]
      ensures forall id :: !InPages(pages, id)
    {
      pages := map[];
      this.maxPages := maxPages;
    }

    /** Membership is exact for every id, negative ones included. */
    method Insert(id: int) returns (admitted: bool)
      requires Valid()
      modifies this
      ensures Valid()
      ensures admitted <==> PageOf(id) in old(pages) || |old(pages)| < maxPages
      ensures admitted ==> forall other :: InPages(pages, other) <==> InPages(old(pages), other) || other == id
      ensures !admitted ==> pages == old(pages)
      ensures admitted ==> pages.Keys == old(pages).Keys + {PageOf(id)}
    {
      var page, bit := PageOf(id), BitOf(id);
      var words := EMPTY_PAGE;
      if page in pages {
        words := pages[page];
      } else if |pages| >= maxPages {
        return false;
      }
      words := Mark(words, bit);
      InsertedMembers(pages, words, id);
      PageCount(pages, page, words);
      pages := pages[page := words];
      return true;
    }

    method Contains(id: int) returns (present: bool)
      requires Valid()
      ensures present == InPages(pages, id)
    {
      var page, bit := PageOf(id), BitOf(id);
      present := page in pages && HasBit(pages[page][bit / 64], InWord(bit));
    }
  }

  lemma {:induction false} PageCount(pages: map<int, Page>, page: int, words: Page)
    ensures |pages[page := words]| == if page in pages then |pages| else |pages| + 1
  {
    assert pages[page := words].Keys == pages.Keys + {page};
  }

  lemma {:induction false} InsertedMembership(pages: map<int, Page>, words: Page, id: int, other: int)
    requires words == if PageOf(id) in pages then pages[PageOf(id)] else EMPTY_PAGE
    ensures InPages(pages[PageOf(id) := Mark(words, BitOf(id))], other) <==> InPages(pages, other) || other == id
  {
    MarkSetsOneBit(words, BitOf(id), BitOf(other));
    EmptyPageHasNothing(BitOf(other));
    assert id == PageOf(id) * PAGE_BITS + BitOf(id) && other == PageOf(other) * PAGE_BITS + BitOf(other);
  }

  lemma {:induction false} InsertedMembers(pages: map<int, Page>, words: Page, id: int)
    requires words == Mark(if PageOf(id) in pages then pages[PageOf(id)] else EMPTY_PAGE, BitOf(id))
    ensures forall other :: InPages(pages[PageOf(id) := words], other) <==> InPages(pages, other) || other == id
  {
    forall other ensures InPages(pages[PageOf(id) := words], other) <==> InPages(pages, other) || other == id {
      InsertedMembership(pages, if PageOf(id) in pages then pages[PageOf(id)] else EMPTY_PAGE, id, other);
    }
  }
}

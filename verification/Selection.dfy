/** The bounded heaps of `src/search.rs`. */
module Selection {
  import opened Common
  import opened Ordering

  // The heap of the standard library is represented by its ascending contents: `peek` is
  // the last element, `into_sorted_vec` the whole.

  // ---------- the reference: sort everything, keep the first K ----------

  /** Insertion after every key that is not greater. */
  function Insert(s: seq<Key>, k: Key): (r: seq<Key>)
    ensures multiset(r) == multiset(s) + multiset{k}
    ensures |r| == |s| + 1
  {
    if s == [] then [k]
    else if Before(k, s[0]) then [k] + s
    else
      assert s == [s[0]] + s[1..];
      [s[0]] + Insert(s[1..], k)
  }

  /** Stable insertion sort of the candidates in order of arrival. */
  function Sort(keys: seq<Key>): (r: seq<Key>)
    ensures multiset(r) == multiset(keys) && |r| == |keys|
  {
    if keys == [] then []
    else
      assert keys == keys[..|keys| - 1] + [keys[|keys| - 1]];
      Insert(Sort(keys[..|keys| - 1]), keys[|keys| - 1])
  }

  function Take(s: seq<Key>, limit: nat): seq<Key> {
    if |s| <= limit then s else s[..limit]
  }

  /** The first `limit` candidates of the sorted whole. */
  function Best(keys: seq<Key>, limit: nat): seq<Key> {
    Take(Sort(keys), limit)
  }

  lemma {:induction false} BestIsFrom(keys: seq<Key>, limit: nat, i: nat)
    requires i < |Best(keys, limit)|
    ensures Best(keys, limit)[i] in keys
  {
    assert Sort(keys)[i] in multiset(Sort(keys));
  }

  predicate Sorted(s: seq<Key>) {
    forall i, j :: 0 <= i < j < |s| ==> !Before(s[j], s[i])
  }

  lemma {:induction false} NotBeforeTransits(a: Key, b: Key, c: Key)
    requires !Before(b, a) && !Before(c, b)
    ensures !Before(c, a)
  {
    KeysAreTotal(a, b);
    KeysAreTotal(b, c);
    if Before(c, a) && Before(a, b) {
      BeforeTransits(c, a, b);
    }
  }

  lemma {:induction false} InsertSorted(s: seq<Key>, k: Key)
    requires Sorted(s)
    ensures Sorted(Insert(s, k))
  {
    if s != [] {
      KeysAreTotal(k, s[0]);
      KeysAreTotal(s[0], s[0]);
      if Before(k, s[0]) {
        forall j | 0 <= j < |s| ensures !Before(s[j], k) {
          NotBeforeTransits(k, s[0], s[j]);
        }
      } else {
        InsertSorted(s[1..], k);
        var r := Insert(s[1..], k);
        forall j | 0 <= j < |r| ensures !Before(r[j], s[0]) {
          assert r[j] in multiset(s[1..]) + multiset{k};
        }
      }
    }
  }

  lemma {:induction false} SortSorted(keys: seq<Key>)
    ensures Sorted(Sort(keys))
  {
    if keys != [] {
      SortSorted(keys[..|keys| - 1]);
      InsertSorted(Sort(keys[..|keys| - 1]), keys[|keys| - 1]);
    }
  }

  /** The order is total, so a sorted sequence is determined by its contents. */
  lemma {:induction false} SortedIsUnique(a: seq<Key>, b: seq<Key>)
    requires Sorted(a) && Sorted(b) && multiset(a) == multiset(b)
    ensures a == b
  {
    assert |multiset(a)| == |a| && |multiset(b)| == |b|;
    if a != [] {
      LeastIsFirst(a, b);
      LeastIsFirst(b, a);
      KeysAreTotal(a[0], b[0]);
      MultisetTail(a);
      MultisetTail(b);
      SortedIsUnique(a[1..], b[1..]);
    }
  }

  lemma {:induction false} LeastIsFirst(a: seq<Key>, b: seq<Key>)
    requires Sorted(a) && a != [] && b != [] && multiset(a) == multiset(b)
    ensures !Before(b[0], a[0])
  {
    assert b[0] in multiset(a);
    KeysAreTotal(a[0], a[0]);
  }

  lemma {:induction false} MultisetTail(s: seq<Key>)
    requires s != []
    ensures multiset(s[1..]) == multiset(s) - multiset{s[0]}
  {
    assert s == [s[0]] + s[1..];
  }

  /** The order in which candidates arrive is irrelevant. */
  lemma {:induction false} BestIgnoresOrder(a: seq<Key>, b: seq<Key>, limit: nat)
    requires multiset(a) == multiset(b)
    ensures Best(a, limit) == Best(b, limit)
  {
    SortSorted(a);
    SortSorted(b);
    SortedIsUnique(Sort(a), Sort(b));
  }

  // ---------- what the heap may forget ----------

  /** Keys beyond the limit never matter for later arrivals. */
  lemma {:induction false} TakeInsert(s: seq<Key>, k: Key, limit: nat)
    ensures Take(Insert(Take(s, limit), k), limit) == Take(Insert(s, k), limit)
  {
    if limit > 0 && s != [] {
      var kept := Take(s, limit);
      TakeCons(s[0], s[1..], limit);
      assert s == [s[0]] + s[1..];
      if Before(k, s[0]) {
        assert Take([k] + kept, limit) == Take([k] + s, limit);
      } else {
        assert kept[1..] == Take(s[1..], limit - 1);
        TakeInsert(s[1..], k, limit - 1);
        TakeCons(s[0], Insert(s[1..], k), limit);
        TakeCons(s[0], Insert(kept[1..], k), limit);
      }
    }
  }

  lemma {:induction false} TakeCons(x: Key, t: seq<Key>, limit: nat)
    requires limit > 0
    ensures Take([x] + t, limit) == [x] + Take(t, limit - 1)
  {
  }

  /** A key that does not come before the last one kept changes nothing when the heap is full. */
  lemma {:induction false} InsertLate(s: seq<Key>, k: Key)
    requires Sorted(s) && s != [] && !Before(k, s[|s| - 1])
    ensures Insert(s, k) == s + [k]
  {
    KeysAreTotal(k, s[0]);
    NotBeforeTransits(s[0], s[|s| - 1], k) by {
      if |s| == 1 {
        KeysAreTotal(s[0], s[0]);
      }
    }
    if |s| == 1 {
      assert s[1..] == [];
    } else {
      assert s[1..][|s| - 2] == s[|s| - 1];
      InsertLate(s[1..], k);
    }
  }

  lemma {:induction false} FullHeapKeeps(keys: seq<Key>, k: Key, limit: nat)
    requires |Best(keys, limit)| == limit > 0 && !Before(k, Best(keys, limit)[limit - 1])
    ensures Best(keys + [k], limit) == Best(keys, limit)
  {
    var best := Best(keys, limit);
    assert (keys + [k])[..|keys|] == keys;
    SortSorted(keys);
    TakeInsert(Sort(keys), k, limit);
    InsertLate(best, k);
  }

  lemma {:induction false} BestExtends(keys: seq<Key>, k: Key, limit: nat)
    ensures Best(keys + [k], limit) == Take(Insert(Best(keys, limit), k), limit)
  {
    assert (keys + [k])[..|keys|] == keys;
    TakeInsert(Sort(keys), k, limit);
  }

  /** A better key displaces exactly the last one kept. */
  lemma {:induction false} InsertDropsLast(s: seq<Key>, k: Key)
    requires Sorted(s) && s != [] && Before(k, s[|s| - 1])
    ensures Insert(s, k)[..|s|] == Insert(s[..|s| - 1], k)
  {
    if Before(k, s[0]) {
      if |s| > 1 {
        assert s[..|s| - 1][0] == s[0];
      }
    } else {
      assert |s| > 1;
      var t := s[1..];
      assert t[|t| - 1] == s[|s| - 1];
      InsertDropsLast(t, k);
      assert s[..|s| - 1][0] == s[0] && s[..|s| - 1][1..] == t[..|t| - 1];
    }
  }

  lemma {:induction false} FullHeapReplaces(keys: seq<Key>, k: Key, limit: nat)
    requires |Best(keys, limit)| == limit > 0 && Before(k, Best(keys, limit)[limit - 1])
    ensures Best(keys + [k], limit) == Insert(Best(keys, limit)[..limit - 1], k)
  {
    BestExtends(keys, k, limit);
    SortSorted(keys);
    InsertDropsLast(Best(keys, limit), k);
  }

  /** One step of the bounded heap. */
  function Offer(best: seq<Key>, k: Key, limit: nat): seq<Key>
    requires |best| <= limit
  {
    if |best| < limit then Insert(best, k)
    else if limit > 0 && Before(k, best[limit - 1]) then Insert(best[..limit - 1], k)
    else best
  }

  lemma {:induction false} OfferIsBest(keys: seq<Key>, best: seq<Key>, k: Key, limit: nat)
    requires best == Best(keys, limit)
    ensures |best| <= limit && Best(keys + [k], limit) == Offer(best, k, limit)
  {
    if |best| < limit {
      BestExtends(keys, k, limit);
    } else if limit > 0 {
      if Before(k, best[limit - 1]) {
        FullHeapReplaces(keys, k, limit);
      } else {
        FullHeapKeeps(keys, k, limit);
      }
    }
  }

  /** The part of the order that needs no path bytes. */
  predicate LosesEarly(score: int, mtime: Option<int>, pathLen: nat, worst: Key) {
    CompareInt(score, worst.score).Then(CompareOption(worst.mtime, mtime)).Then(CompareInt(pathLen, |worst.path|))
    == Greater
  }

  /** Rejection by score, time and path length alone never discards a winner. */
  lemma {:induction false} LazyRejectionIsSafe(k: Key, worst: Key)
    requires LosesEarly(k.score, k.mtime, |k.path|, worst)
    ensures !Before(k, worst)
  {
  }

  /** If the kept hits all score below what any other candidate can score, the other
      candidates need not be visited. */
  lemma {:induction false} UnvisitedCannotWin(visited: seq<Key>, others: seq<Key>, limit: nat, bound: int)
    requires |Best(visited, limit)| == limit > 0 && Best(visited, limit)[limit - 1].score < bound
    requires forall i :: 0 <= i < |others| ==> others[i].score >= bound
    ensures Best(visited + others, limit) == Best(visited, limit)
  {
    if others == [] {
      assert visited + others == visited;
    } else {
      var n := |others| - 1;
      UnvisitedCannotWin(visited, others[..n], limit, bound);
      assert visited + others == (visited + others[..n]) + [others[n]];
      FullHeapKeeps(visited + others[..n], others[n], limit);
    }
  }

  /** A hit list holds the smallest keys: nothing left out comes before anything kept. */
  lemma {:induction false} BestIsLeast(keys: seq<Key>, limit: nat) returns (rest: seq<Key>)
    ensures Sorted(Best(keys, limit)) && |Best(keys, limit)| == Min(limit, |keys|)
    ensures multiset(keys) == multiset(Best(keys, limit)) + multiset(rest)
    ensures forall i, j :: 0 <= i < |Best(keys, limit)| && 0 <= j < |rest| ==> !Before(rest[j], Best(keys, limit)[i])
  {
    SortSorted(keys);
    rest := SplitSorted(Sort(keys), limit);
  }

  lemma {:induction false} SplitSorted(all: seq<Key>, limit: nat) returns (rest: seq<Key>)
    requires Sorted(all)
    ensures all == Take(all, limit) + rest && Sorted(Take(all, limit))
    ensures forall i, j :: 0 <= i < |Take(all, limit)| && 0 <= j < |rest| ==> !Before(rest[j], Take(all, limit)[i])
  {
    rest := all[|Take(all, limit)|..];
  }

  // ---------- TopHits ----------

  /** `TopHits::consider`. `path` stands for the closure that slices the path of a hit that is not
      rejected by its score, time and path length alone. */
  method Consider(heap: seq<Key>, limit: nat, index: int, score: int, mtime: Option<int>, pathLen: nat, path: Text)
    returns (next: seq<Key>)
    requires |heap| <= limit && pathLen == |path|
    ensures next == Offer(heap, Key(score, mtime, path, index), limit)
  {
    if limit == 0 {
      return heap;
    }
    if |heap| >= limit {
      var worst := heap[|heap| - 1];
      if LosesEarly(score, mtime, pathLen, worst) {
        LazyRejectionIsSafe(Key(score, mtime, path, index), worst);
        return heap;
      }
    }
    var hit := Key(score, mtime, path, index);
    if |heap| < limit {
      return Insert(heap, hit);
    } else if Before(hit, heap[|heap| - 1]) {
      return Insert(heap[..|heap| - 1], hit);
    }
    return heap;
  }
}

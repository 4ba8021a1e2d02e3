/** The `*`/`?` byte globs of `src/search.rs`. */
module Glob {
  import opened Common

  // `GlobMatch` is the greedy matcher that only ever backtracks to the last star;
  // `Accepts` is the recursive meaning of a glob. The matcher tests its literal branch
  // before its star branch, so a star byte *in the haystack* can swallow a star of the
  // pattern. It is therefore sound for every input, and exact precisely when no such
  // collision is possible.

  /** A pattern byte that the literal branch lets stand for one haystack byte. */
  predicate Single(p: Byte, h: Byte) {
    p == QUESTION || p == h
  }

  /** The meaning of a glob: `*` is any byte string, `?` any one byte. */
  predicate Accepts(h: Text, p: Text)
    decreases |h| + |p|
  {
    if p == [] then h == []
    else if p[0] == STAR then Accepts(h, p[1..]) || (h != [] && Accepts(h[1..], p))
    else h != [] && Single(p[0], h[0]) && Accepts(h[1..], p[1..])
  }

  predicate AllStars(p: Text) {
    forall i :: 0 <= i < |p| ==> p[i] == STAR
  }

  /** No byte of the haystack can be mistaken for a star of the pattern. */
  predicate NoCollision(h: Text, p: Text) {
    STAR !in h || STAR !in p
  }

  // ---------- facts about the meaning ----------

  /** A leading star absorbs any prefix. */
  lemma {:induction false} StarAbsorbs(h: Text, p: Text, k: nat)
    requires p != [] && p[0] == STAR && k <= |h|
    requires Accepts(h[k..], p[1..])
    ensures Accepts(h, p)
    decreases k
  {
    if k == 0 {
      assert h[0..] == h;
    } else {
      assert h[1..][k - 1..] == h[k..];
      StarAbsorbs(h[1..], p, k - 1);
    }
  }

  /** An accepted haystack gives a leading star a definite prefix. */
  lemma {:induction false} StarSplits(h: Text, p: Text) returns (k: nat)
    requires p != [] && p[0] == STAR && Accepts(h, p)
    ensures k <= |h| && Accepts(h[k..], p[1..])
    decreases h
  {
    if Accepts(h, p[1..]) {
      k := 0;
      assert h[0..] == h;
    } else {
      var j := StarSplits(h[1..], p);
      k := j + 1;
      assert h[1..][j..] == h[k..];
    }
  }

  lemma {:induction false} AcceptsEmpty(p: Text)
    ensures Accepts([], p) <==> AllStars(p)
  {
    if p != [] {
      AcceptsEmpty(p[1..]);
      assert AllStars(p) <==> p[0] == STAR && AllStars(p[1..]) by {
        assert p == [p[0]] + p[1..];
      }
    }
  }

  lemma {:induction false} AllStarsAccept(h: Text, p: Text)
    requires AllStars(p) && p != []
    ensures Accepts(h, p)
  {
    AcceptsEmpty(p[1..]);
    assert h[|h|..] == [];
    StarAbsorbs(h, p, |h|);
  }

  /** Pattern bytes that are no stars use up one haystack byte each. */
  lemma {:induction false} PlainBytesConsume(h: Text, p: Text, m: nat)
    requires m <= |p| && (forall i :: 0 <= i < m ==> p[i] != STAR)
    requires Accepts(h, p)
    ensures m <= |h| && Accepts(h[m..], p[m..])
    decreases m
  {
    if m == 0 {
      assert h[0..] == h && p[0..] == p;
    } else {
      PlainBytesConsume(h[1..], p[1..], m - 1);
      assert h[1..][m - 1..] == h[m..] && p[1..][m - 1..] == p[m..];
    }
  }

  /** Number of pattern bytes that need a haystack byte. */
  function Needed(p: Text): nat {
    if p == [] then 0 else (if p[0] == STAR then 0 else 1) + Needed(p[1..])
  }

  lemma {:induction false} AcceptedIsLongEnough(h: Text, p: Text)
    requires Accepts(h, p)
    ensures Needed(p) <= |h|
    decreases |h| + |p|
  {
    if p != [] {
      if p[0] == STAR {
        if Accepts(h, p[1..]) {
          AcceptedIsLongEnough(h, p[1..]);
        } else {
          AcceptedIsLongEnough(h[1..], p);
        }
      } else {
        AcceptedIsLongEnough(h[1..], p[1..]);
      }
    }
  }

  // ---------- the greedy matcher ----------

  /** Haystack and pattern cursors, the last star taken and where it resumes. */
  datatype Cursor = Cursor(h: nat, p: nat, star: Option<nat>, resume: nat)

  const START := Cursor(0, 0, None, 0)

  predicate InRange(h: Text, p: Text, c: Cursor) {
    && c.h <= |h| && c.p <= |p|
    && c.resume <= c.h
    && (c.star.Some? ==>
          && c.star.value < c.p && p[c.star.value] == STAR
          && c.h - c.resume == c.p - (c.star.value + 1))
  }

  /** The matcher from cursor `c` on, branch by branch. */
  predicate Run(h: Text, p: Text, c: Cursor)
    requires InRange(h, p, c)
    decreases |h| - c.resume, |h| - c.h, |p| - c.p
  {
    if c.h < |h| then
      if c.p < |p| && Single(p[c.p], h[c.h]) then
        Run(h, p, c.(h := c.h + 1, p := c.p + 1))
      else if c.p < |p| && p[c.p] == STAR then
        Run(h, p, Cursor(c.h, c.p + 1, Some(c.p), c.h))
      else if c.star.Some? then
        Run(h, p, Cursor(c.resume + 1, c.star.value + 1, c.star, c.resume + 1))
      else
        false
    else
      AllStars(p[c.p..])
  }

  predicate Greedy(h: Text, p: Text) {
    Run(h, p, START)
  }

  method GlobMatch(haystack: Text, pattern: Text) returns (matched: bool)
    ensures matched == Greedy(haystack, pattern)
    ensures matched ==> Accepts(haystack, pattern)
    ensures NoCollision(haystack, pattern) ==> matched == Accepts(haystack, pattern)
  {
    GreedyIsSound(haystack, pattern);
    if NoCollision(haystack, pattern) {
      GreedyIsExact(haystack, pattern);
    }
    var h: nat, p: nat := 0, 0;
    var star: Option<nat> := None;
    var resume: nat := 0;
    while h < |haystack|
      invariant InRange(haystack, pattern, Cursor(h, p, star, resume))
      invariant Greedy(haystack, pattern) == Run(haystack, pattern, Cursor(h, p, star, resume))
      decreases |haystack| - resume, |haystack| - h, |pattern| - p
    {
      if p < |pattern| && (pattern[p] == QUESTION || pattern[p] == haystack[h]) {
        h := h + 1;
        p := p + 1;
      } else if p < |pattern| && pattern[p] == STAR {
        star := Some(p);
        resume := h;
        p := p + 1;
      } else if star.Some? {
        p := star.value + 1;
        resume := resume + 1;
        h := resume;
      } else {
        return false;
      }
    }
    ghost var rest := p;
    while p < |pattern| && pattern[p] == STAR
      invariant rest <= p <= |pattern|
      invariant forall i :: rest <= i < p ==> pattern[i] == STAR
    {
      p := p + 1;
    }
    if p < |pattern| {
      assert pattern[rest..][p - rest] != STAR;
    }
    return p == |pattern|;
  }

  /** The literal branch is a legitimate reading of the pattern even when it meets a star. */
  lemma {:induction false} SingleStepSound(h: Text, p: Text)
    requires h != [] && p != [] && Single(p[0], h[0])
    requires Accepts(h[1..], p[1..])
    ensures Accepts(h, p)
  {
    if p[0] == STAR {
      StarAbsorbs(h, p, 1);
    }
  }

  /** Success from cursor `c` would be a match of `h[a..]` by `p[b..]`. */
  ghost predicate Promising(h: Text, p: Text, c: Cursor, a: nat, b: nat)
    requires InRange(h, p, c) && a <= |h| && b <= |p|
  {
    && (Accepts(h[c.h..], p[c.p..]) ==> Accepts(h[a..], p[b..]))
    && (c.star.Some? ==>
          forall r :: c.resume <= r <= |h| && Accepts(h[r..], p[c.star.value + 1..]) ==> Accepts(h[a..], p[b..]))
  }

  lemma {:induction false} RunIsSound(h: Text, p: Text, c: Cursor, a: nat, b: nat)
    requires InRange(h, p, c) && a <= |h| && b <= |p| && Promising(h, p, c, a, b)
    requires Run(h, p, c)
    ensures Accepts(h[a..], p[b..])
    decreases |h| - c.resume, |h| - c.h, |p| - c.p
  {
    if c.h < |h| {
      if c.p < |p| && Single(p[c.p], h[c.h]) {
        if Accepts(h[c.h + 1..], p[c.p + 1..]) {
          assert h[c.h..][1..] == h[c.h + 1..] && p[c.p..][1..] == p[c.p + 1..];
          SingleStepSound(h[c.h..], p[c.p..]);
        }
        RunIsSound(h, p, c.(h := c.h + 1, p := c.p + 1), a, b);
      } else if c.p < |p| && p[c.p] == STAR {
        forall r | c.h <= r <= |h| && Accepts(h[r..], p[c.p + 1..])
          ensures Accepts(h[a..], p[b..])
        {
          assert h[c.h..][r - c.h..] == h[r..] && p[c.p..][1..] == p[c.p + 1..];
          StarAbsorbs(h[c.h..], p[c.p..], r - c.h);
        }
        RunIsSound(h, p, Cursor(c.h, c.p + 1, Some(c.p), c.h), a, b);
      } else {
        RunIsSound(h, p, Cursor(c.resume + 1, c.star.value + 1, c.star, c.resume + 1), a, b);
      }
    } else {
      AcceptsEmpty(p[c.p..]);
    }
  }

  /** Whatever the bytes of the haystack, a match reported by the matcher is a match. */
  lemma {:induction false} GreedyIsSound(h: Text, p: Text)
    ensures Greedy(h, p) ==> Accepts(h, p)
  {
    assert h[0..] == h && p[0..] == p;
    if Greedy(h, p) {
      RunIsSound(h, p, START, 0, 0);
    }
  }

  /** A matching haystack is still matched by what the cursor has left to try: the greedy
      choice of the leftmost resume point loses nothing. */
  ghost predicate Hopeful(h: Text, p: Text, c: Cursor)
    requires InRange(h, p, c)
  {
    match c.star
    case None => Accepts(h[c.h..], p[c.p..])
    case Some(s) =>
      && Accepts(h[c.resume..], p[s..])
      && forall i :: s < i < c.p ==> p[i] != STAR
  }

  /** Any reading in which the last star absorbs `k` more bytes continues at the cursor. */
  lemma {:induction false} LastStarContinues(h: Text, p: Text, c: Cursor, k: nat)
    requires InRange(h, p, c) && c.star.Some? && Hopeful(h, p, c)
    requires c.resume + k <= |h| && Accepts(h[c.resume + k..], p[c.star.value + 1..])
    ensures c.h + k <= |h| && Accepts(h[c.h + k..], p[c.p..])
  {
    var m := c.p - (c.star.value + 1);
    var tail, rest := h[c.resume + k..], p[c.star.value + 1..];
    PlainBytesConsume(tail, rest, m);
    assert tail[m..] == h[c.h + k..] && rest[m..] == p[c.p..];
  }

  lemma {:induction false} RunIsComplete(h: Text, p: Text, c: Cursor)
    requires NoCollision(h, p)
    requires InRange(h, p, c) && Hopeful(h, p, c)
    ensures Run(h, p, c)
    decreases |h| - c.resume, |h| - c.h, |p| - c.p
  {
    var rest, pattern := h[c.h..], p[c.p..];
    if c.h < |h| {
      assert rest[1..] == h[c.h + 1..];
      if c.p < |p| && Single(p[c.p], h[c.h]) {
        assert pattern[1..] == p[c.p + 1..];
        RunIsComplete(h, p, c.(h := c.h + 1, p := c.p + 1));
      } else if c.p < |p| && p[c.p] == STAR {
        if c.star.Some? {
          assert p[c.star.value..][1..] == p[c.star.value + 1..];
          var k := StarSplits(h[c.resume..], p[c.star.value..]);
          assert h[c.resume..][k..] == h[c.resume + k..];
          LastStarContinues(h, p, c, k);
          assert h[c.h + k..] == rest[k..];
          StarSwallows(rest, pattern, k);
        }
        RunIsComplete(h, p, Cursor(c.h, c.p + 1, Some(c.p), c.h));
      } else {
        RetryIsComplete(h, p, c);
        RunIsComplete(h, p, Cursor(c.resume + 1, c.star.value + 1, c.star, c.resume + 1));
      }
    } else {
      if c.star.Some? {
        assert p[c.star.value..][1..] == p[c.star.value + 1..];
        var k := StarSplits(h[c.resume..], p[c.star.value..]);
        assert h[c.resume..][k..] == h[c.resume + k..];
        LastStarContinues(h, p, c, k);
      }
      assert h[c.h..] == [];
      AcceptsEmpty(pattern);
    }
  }

  /** A star in front of an accepted haystack accepts it with any prefix put back. */
  lemma {:induction false} StarSwallows(h: Text, p: Text, k: nat)
    requires p != [] && p[0] == STAR && k <= |h| && Accepts(h[k..], p)
    ensures Accepts(h, p)
    decreases k
  {
    if k == 0 {
      assert h[0..] == h;
    } else {
      assert h[1..][k - 1..] == h[k..];
      StarSwallows(h[1..], p, k - 1);
    }
  }

  /** At a mismatch the last star must absorb one byte more; without a star all is lost. */
  lemma {:induction false} RetryIsComplete(h: Text, p: Text, c: Cursor)
    requires InRange(h, p, c) && Hopeful(h, p, c) && c.h < |h|
    requires c.p < |p| ==> !Single(p[c.p], h[c.h]) && p[c.p] != STAR
    ensures c.star.Some? && Accepts(h[c.resume + 1..], p[c.star.value..])
  {
    assert !Accepts(h[c.h..], p[c.p..]);
    if c.star.Some? {
      var tail, pattern := h[c.resume..], p[c.star.value..];
      assert pattern[1..] == p[c.star.value + 1..] && tail[1..] == h[c.resume + 1..];
      if Accepts(tail, pattern[1..]) {
        LastStarContinues(h, p, c, 0);
      }
    }
  }

  lemma {:induction false} GreedyIsExact(h: Text, p: Text)
    requires NoCollision(h, p)
    ensures Greedy(h, p) <==> Accepts(h, p)
  {
    GreedyIsSound(h, p);
    assert h[0..] == h && p[0..] == p;
    if Accepts(h, p) {
      RunIsComplete(h, p, START);
    }
  }

  // ---------- exactly where the matcher meets its specification ----------

  /** `*?` means "at least one byte", yet the matcher refuses the haystack `*`: it takes the star of
      the pattern for the star of the haystack. */
  lemma {:induction false} StarInHaystackFails()
    ensures Accepts([STAR], [STAR, QUESTION])
    ensures !Greedy([STAR], [STAR, QUESTION])
  {
    var h: Text, p: Text := [STAR], [STAR, QUESTION];
    assert h[0..] == h && p[1..] == [QUESTION];
    assert Accepts(h, [QUESTION]) by {
      var question: Text := [QUESTION];
      assert h[1..] == [] && question[1..] == [];
    }
    StarAbsorbs(h, p, 0);
    assert !Run(h, p, Cursor(1, 1, None, 0));
  }

  /** Without a star taken, single-byte steps lead from one cursor to the next. */
  lemma {:induction false} SinglesAdvance(h: Text, p: Text, k: nat, n: nat)
    requires k <= n <= |h| && n <= |p|
    requires forall i :: k <= i < n ==> Single(p[i], h[i])
    ensures Run(h, p, Cursor(k, k, None, 0)) == Run(h, p, Cursor(n, n, None, 0))
    decreases n - k
  {
    if k < n {
      SinglesAdvance(h, p, k + 1, n);
    }
  }

  lemma {:induction false} SinglesAccept(h: Text, p: Text, n: nat)
    requires n <= |h| && n <= |p|
    requires forall i :: 0 <= i < n ==> Single(p[i], h[i])
    requires Accepts(h[n..], p[n..])
    ensures Accepts(h, p)
    decreases n
  {
    if n == 0 {
      assert h[0..] == h && p[0..] == p;
    } else {
      assert h[1..][n - 1..] == h[n..] && p[1..][n - 1..] == p[n..];
      SinglesAccept(h[1..], p[1..], n - 1);
      SingleStepSound(h, p);
    }
  }

  function Questions(n: nat): (q: Text)
    ensures |q| == n && forall i :: 0 <= i < n ==> q[i] == QUESTION
  {
    seq(n, _ => QUESTION)
  }

  function Stars(n: nat): (s: Text)
    ensures |s| == n && forall i :: 0 <= i < n ==> s[i] == STAR
  {
    seq(n, _ => STAR)
  }

  /** A shortest member of a glob: stars absorb nothing, `?` is `b`. */
  function Sample(p: Text, b: Byte): (h: Text)
    ensures Accepts(h, p) && |h| == Needed(p)
  {
    if p == [] then []
    else if p[0] == STAR then Sample(p[1..], b)
    else
      var h := [if p[0] == QUESTION then b else p[0]] + Sample(p[1..], b);
      assert h[1..] == Sample(p[1..], b);
      h
  }

  /** Up to its first star a pattern and its sample agree byte by byte. */
  lemma {:induction false} SampleOfPlain(p: Text, b: Byte, i: nat)
    requires i <= |p| && STAR !in p[..i]
    ensures i <= |Sample(p, b)| && Sample(p, b)[i..] == Sample(p[i..], b)
    ensures forall j :: 0 <= j < i ==> Single(p[j], Sample(p, b)[j])
    decreases i
  {
    if i == 0 {
      assert p[0..] == p;
    } else {
      assert p[0] == p[..i][0] != STAR;
      assert p[1..][..i - 1] == p[..i][1..];
      SampleOfPlain(p[1..], b, i - 1);
      assert p[1..][i - 1..] == p[i..];
      assert Sample(p, b)[i..] == Sample(p[1..], b)[i - 1..];
      forall j | 0 <= j < i ensures Single(p[j], Sample(p, b)[j]) {
        if j > 0 {
          assert p[j] == p[1..][j - 1] && Sample(p, b)[j] == Sample(p[1..], b)[j - 1];
        }
      }
    }
  }

  lemma {:induction false} SampleSkipsStars(p: Text, b: Byte, n: nat)
    requires n <= |p| && forall i :: 0 <= i < n ==> p[i] == STAR
    ensures Sample(p, b) == Sample(p[n..], b) && Needed(p) == Needed(p[n..])
    decreases n
  {
    if n == 0 {
      assert p[0..] == p;
    } else {
      assert p[1..][n - 1..] == p[n..];
      SampleSkipsStars(p[1..], b, n - 1);
    }
  }

  /** A haystack containing a star is misjudged by some pattern. */
  lemma {:induction false} StarHaystackHasBadPattern(h: Text, i: nat) returns (p: Text)
    requires i < |h| && h[i] == STAR && STAR !in h[..i]
    ensures Accepts(h, p) && !Greedy(h, p) && STAR in p && QUESTION in p
  {
    var n := |h| - i;
    p := h[..i] + [STAR] + Questions(n);
    forall j | 0 <= j < |h| ensures Single(p[j], h[j]) {
      if j > i {
        assert p[j] == Questions(n)[j - i - 1];
      }
    }
    SinglesAdvance(h, p, 0, |h|);
    assert p[|h|..][0] == QUESTION;

    var rest, glob := h[i..], p[i..];
    assert glob[1..] == Questions(n) && rest[n..] == [] && glob[1..][n..] == [];
    SinglesAccept(rest, glob[1..], n);
    assert rest[0..] == rest;
    StarAbsorbs(rest, glob, 0);
    SinglesAccept(h, p, i);
  }

  function StarRun(p: Text, i: nat): (j: nat)
    requires i <= |p|
    ensures i <= j <= |p| && (forall k :: i <= k < j ==> p[k] == STAR) && (j < |p| ==> p[j] != STAR)
    decreases |p| - i
  {
    if i < |p| && p[i] == STAR then StarRun(p, i + 1) else i
  }

  /** A star that is followed by `?` misses a haystack one byte too short. */
  lemma {:induction false} StarThenQuestionIsMisread(p: Text, i: nat, j: nat)
    requires i < j < |p| && j == StarRun(p, i) && STAR !in p[..i] && p[j] == QUESTION
    ensures Accepts(Sample(p, STAR), p) && !Greedy(Sample(p, STAR), p)
  {
    var h := Sample(p, STAR);
    SampleOfPlain(p, STAR, i);
    forall k | 0 <= k < j - i ensures p[i..][k] == STAR {
    }
    SampleSkipsStars(p[i..], STAR, j - i);
    assert p[i..][j - i..] == p[j..];
    assert h[i] == h[i..][0] == STAR;
    SinglesAdvance(h, p, 0, i + 1);
    var c := Cursor(i + 1, i + 1, None, 0);
    assert p[i..][1..] == p[i + 1..];
    assert |h[i..]| == Needed(p[i..]) == Needed(p[i + 1..]);
    if Greedy(h, p) {
      RunIsSound(h, p, c, i + 1, i + 1);
      AcceptedIsLongEnough(h[i + 1..], p[i + 1..]);
    }
  }

  /** A star followed by a literal, or by nothing, misses a haystack that spells the star out. */
  lemma {:induction false} StarThenLiteralIsMisread(p: Text, i: nat, j: nat) returns (h: Text)
    requires i < j <= |p| && j == StarRun(p, i) && STAR !in p[..i] && (j < |p| ==> p[j] != QUESTION)
    ensures Accepts(h, p) && !Greedy(h, p)
  {
    var x: Byte := if j < |p| && p[j] == 0x61 then 0x62 else 0x61;
    var tail := Sample(p[i + 1..], 0x61);
    var head := Sample(p[..i], 0x61);
    assert p[..i][..i] == p[..i] && p[..i][i..] == [];
    SampleOfPlain(p[..i], 0x61, i);
    h := head + Stars(j - i) + [x] + tail;
    assert |head| == i by { assert head[i..] == []; }
    forall k | 0 <= k < j ensures Single(p[k], h[k]) {
      if k < i {
        assert p[k] == p[..i][k] && h[k] == head[k];
      }
    }
    SinglesAdvance(h, p, 0, j);
    assert h[j] == x;
    assert !Run(h, p, Cursor(j, j, None, 0));

    var rest, glob := h[i..], p[i..];
    assert rest[j - i + 1..] == tail && glob[1..] == p[i + 1..];
    StarAbsorbs(rest, glob, j - i + 1);
    SinglesAccept(h, p, i);
  }

  lemma {:induction false} FirstStar(s: Text) returns (i: nat)
    requires STAR in s
    ensures i < |s| && s[i] == STAR && STAR !in s[..i]
  {
    if s[0] == STAR {
      i := 0;
    } else {
      i := FirstStar(s[1..]);
      i := i + 1;
      assert s[..i] == [s[0]] + s[1..][..i - 1];
    }
  }

  /** A haystack is judged correctly by every pattern exactly when it holds no star byte. */
  lemma {:induction false} ExactForHaystack(h: Text)
    ensures (forall p :: Greedy(h, p) <==> Accepts(h, p)) <==> STAR !in h
  {
    if STAR in h {
      var i := FirstStar(h);
      var p := StarHaystackHasBadPattern(h, i);
      assert !(Greedy(h, p) <==> Accepts(h, p));
    } else {
      forall p ensures Greedy(h, p) <==> Accepts(h, p) {
        GreedyIsExact(h, p);
      }
    }
  }

  /** A pattern judges every haystack correctly exactly when it holds no star: no pattern
      with a star is safe against all file names. */
  lemma {:induction false} ExactForPattern(p: Text)
    ensures (forall h :: Greedy(h, p) <==> Accepts(h, p)) <==> STAR !in p
  {
    if STAR in p {
      var i := FirstStar(p);
      var j := StarRun(p, i);
      var h: Text;
      if j < |p| && p[j] == QUESTION {
        StarThenQuestionIsMisread(p, i, j);
        h := Sample(p, STAR);
      } else {
        h := StarThenLiteralIsMisread(p, i, j);
      }
      assert !(Greedy(h, p) <==> Accepts(h, p));
    } else {
      forall h ensures Greedy(h, p) <==> Accepts(h, p) {
        GreedyIsExact(h, p);
      }
    }
  }
}

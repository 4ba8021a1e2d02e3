/** Prepared substring finders and globs (`src/search.rs`). */
module Patterns {
  import opened Common
  import opened Glob
  import LongFinder
  import WordFinder

  // The dispatch between the word filter and Horspool, and the fast paths of a glob score.

  // ---------- Finder ----------

  datatype Finder = Finder(value: Text, skip: Option<seq<nat>>, prefix: seq<nat>)

  /** The tables of a finder are those its constructor builds for the needle. */
  ghost predicate Prepared(f: Finder) {
    match f.skip
    case None => |f.value| < 8
    case Some(skip) =>
      && f.value != [] && |f.prefix| == |f.value|
      && LongFinder.IsSkip(f.value, skip, |f.value| - 1)
      && LongFinder.IsTable(f.value, f.prefix, |f.value|)
  }

  method NewFinder(value: Text) returns (f: Finder)
    ensures Prepared(f) && f.value == value
  {
    if |value| >= 8 {
      var skip := LongFinder.BuildSkip(value);
      var prefix := LongFinder.BuildTable(value);
      f := Finder(value, Some(skip), prefix);
    } else {
      f := Finder(value, None, []);
    }
  }

  method FindByte(haystack: Text, b: Byte) returns (found: Option<nat>)
    ensures IsFirst(haystack, [b], found)
  {
    for i := 0 to |haystack|
      invariant forall at :: at < i ==> !OccursAt(haystack, [b], at)
    {
      assert haystack[i..i + 1] == [haystack[i]];
      if haystack[i] == b {
        return Some(i);
      }
    }
    return None;
  }

  /** Every prepared finder answers with the least offset of an occurrence. */
  method Find(f: Finder, haystack: Text) returns (found: Option<nat>)
    requires Prepared(f)
    ensures IsFirst(haystack, f.value, found) && found == First(haystack, f.value)
  {
    if f.skip.Some? {
      found := LongFinder.FindLong(haystack, f.value, f.skip.value, f.prefix);
    } else if |f.value| == 0 {
      found := Some(0);
    } else if |f.value| == 1 {
      assert f.value == [f.value[0]];
      found := FindByte(haystack, f.value[0]);
    } else {
      found := WordFinder.FindBytes(haystack, f.value);
    }
    FirstIsUnique(haystack, f.value, found);
  }

  // ---------- literal segments of a glob ----------

  predicate Wild(b: Byte) {
    b == STAR || b == QUESTION
  }

  predicate HasGlobSyntax(p: Text) {
    STAR in p || QUESTION in p
  }

  /** Length of the literal run a pattern starts with. */
  function RunLength(p: Text): (n: nat)
    ensures n <= |p| && (forall i :: 0 <= i < n ==> !Wild(p[i])) && (n < |p| ==> Wild(p[n]))
  {
    if p == [] || Wild(p[0]) then 0 else 1 + RunLength(p[1..])
  }

  /** The nonempty pieces of `split(['*', '?'])`, in order. */
  function Literals(p: Text): (ls: seq<Text>)
    ensures forall l :: l in ls ==> l != [] && forall b :: b in l ==> !Wild(b)
  {
    if p == [] then []
    else if Wild(p[0]) then Literals(p[1..])
    else
      var n := RunLength(p);
      [p[..n]] + Literals(p[n..])
  }

  lemma {:induction false} ContainsTail(h: Text, k: nat, l: Text)
    requires k <= |h| && Contains(h[k..], l)
    ensures Contains(h, l)
  {
    var at :| OccursAt(h[k..], l, at);
    assert h[k..][at..at + |l|] == h[at + k..at + k + |l|];
    assert OccursAt(h, l, at + k);
  }

  /** Every literal segment is necessary: an accepted haystack contains all of them. */
  lemma {:induction false} LiteralsAreNecessary(h: Text, p: Text, l: Text)
    requires Accepts(h, p) && l in Literals(p)
    ensures Contains(h, l)
    decreases |p|
  {
    if p[0] == STAR {
      var k := StarSplits(h, p);
      LiteralsAreNecessary(h[k..], p[1..], l);
      ContainsTail(h, k, l);
    } else if p[0] == QUESTION {
      LiteralsAreNecessary(h[1..], p[1..], l);
      ContainsTail(h, 1, l);
    } else {
      var n := RunLength(p);
      LiteralRunMatches(h, p, n);
      if l == p[..n] {
        assert OccursAt(h, l, 0);
      } else {
        LiteralsAreNecessary(h[n..], p[n..], l);
        ContainsTail(h, n, l);
      }
    }
  }

  lemma {:induction false} LiteralRunMatches(h: Text, p: Text, n: nat)
    requires n <= |p| && (forall i :: 0 <= i < n ==> !Wild(p[i]))
    ensures Accepts(h, p) <==> n <= |h| && h[..n] == p[..n] && Accepts(h[n..], p[n..])
    decreases n
  {
    if n == 0 {
      assert h[0..] == h && p[0..] == p;
    } else if h != [] && h[0] == p[0] {
      LiteralRunMatches(h[1..], p[1..], n - 1);
      assert p[1..][n - 1..] == p[n..] && p[..n] == [p[0]] + p[1..][..n - 1];
      if n <= |h| {
        assert h[1..][n - 1..] == h[n..] && h[..n] == [h[0]] + h[1..][..n - 1];
      }
    } else if n <= |h| {
      assert h[..n][0] == h[0] && p[..n][0] == p[0];
    }
  }

  // ---------- PreparedGlob ----------

  datatype PreparedGlob = PreparedGlob(pattern: Text, literal: Option<Finder>, allStars: bool, singleLiteral: bool)

  predicate SingleLiteral(p: Text) {
    QUESTION !in p && |Literals(p)| <= 1
  }

  ghost predicate GlobPrepared(g: PreparedGlob) {
    && g.allStars == AllStars(g.pattern)
    && g.singleLiteral == SingleLiteral(g.pattern)
    && (g.literal.None? <==> Literals(g.pattern) == [])
    && (g.literal.Some? ==> Prepared(g.literal.value) && g.literal.value.value == Literals(g.pattern)[0])
  }

  method NewGlob(pattern: Text) returns (g: PreparedGlob)
    ensures GlobPrepared(g) && g.pattern == pattern
  {
    var literals := Literals(pattern);
    var literal := None;
    if literals != [] {
      var f := NewFinder(literals[0]);
      literal := Some(f);
    }
    var singleLiteral := QUESTION !in pattern && |literals| <= 1;
    g := PreparedGlob(pattern, literal, AllStars(pattern), singleLiteral);
  }

  /** What decides a glob once its first literal is known to occur. */
  predicate Decide(h: Text, p: Text)
    requires !AllStars(p)
  {
    if SingleLiteral(p) && Literals(p) != [] then
      && (p[0] == STAR || StartsWith(h, Literals(p)[0]))
      && (p[|p| - 1] == STAR || EndsWith(h, Literals(p)[0]))
    else
      Greedy(h, p)
  }

  /** `PreparedGlob::score` as a function. */
  function Score(h: Text, p: Text): (score: Option<nat>)
  {
    if AllStars(p) then Some(|p|)
    else
      var start := if Literals(p) == [] then Some(0) else First(h, Literals(p)[0]);
      if start.Some? && Decide(h, p) then Some(2 * start.value + |p|) else None
  }

  method GlobScore(g: PreparedGlob, haystack: Text) returns (score: Option<nat>)
    requires GlobPrepared(g)
    ensures score == Score(haystack, g.pattern)
  {
    if g.allStars {
      return Some(|g.pattern|);
    }
    var start := Some(0);
    if g.literal.Some? {
      start := Find(g.literal.value, haystack);
      if start.None? {
        return None;
      }
    }
    var matches: bool;
    if g.singleLiteral {
      NoWildMeansLiteral(g.pattern);
      var literal := g.literal.value.value;
      matches :=
        && (g.pattern[0] == STAR || StartsWith(haystack, literal))
        && (g.pattern[|g.pattern| - 1] == STAR || EndsWith(haystack, literal));
    } else {
      matches := GlobMatch(haystack, g.pattern);
    }
    return if matches then Some(start.value * 2 + |g.pattern|) else None;
  }

  /** The unwrap of the single-literal path is safe. */
  lemma {:induction false} NoWildMeansLiteral(p: Text)
    requires QUESTION !in p && !AllStars(p)
    ensures Literals(p) != []
    decreases |p|
  {
    if p[0] == STAR {
      assert !AllStars(p[1..]) by {
        assert p == [p[0]] + p[1..];
      }
      NoWildMeansLiteral(p[1..]);
    }
  }

  // ---------- the fast paths agree with the meaning ----------

  /** A star-only tail accepts everything. */
  lemma {:induction false} StarTailAccepts(h: Text, p: Text)
    requires AllStars(p)
    ensures Accepts(h, p) <==> p != [] || h == []
  {
    if p != [] {
      AllStarsAccept(h, p);
    }
  }

  /** Literal followed by stars: a prefix test, or equality when there are no stars. */
  lemma {:induction false} LiteralThenStars(h: Text, p: Text, n: nat)
    requires n <= |p| && (forall i :: 0 <= i < n ==> !Wild(p[i])) && AllStars(p[n..])
    ensures Accepts(h, p) <==> (if n < |p| then StartsWith(h, p[..n]) else h == p)
  {
    LiteralRunMatches(h, p, n);
    if n <= |h| {
      StarTailAccepts(h[n..], p[n..]);
    }
    if n == |p| {
      assert p[..n] == p;
      if n <= |h| {
        assert h == h[..n] + h[n..];
      }
    }
  }

  /** The shape of a pattern with a single literal and no `?`. */
  lemma {:induction false} SingleLiteralShape(p: Text) returns (a: nat, b: nat)
    requires QUESTION !in p && |Literals(p)| == 1
    ensures a < b <= |p| && Literals(p)[0] == p[a..b]
    ensures (forall i :: 0 <= i < a ==> p[i] == STAR) && AllStars(p[b..])
    ensures forall i :: a <= i < b ==> !Wild(p[i])
    decreases |p|
  {
    if Wild(p[0]) {
      a, b := SingleLiteralShape(p[1..]);
      assert p[1..][a..b] == p[a + 1..b + 1] && p[1..][b..] == p[b + 1..];
      forall i | 0 <= i < a + 1 ensures p[i] == STAR {
        assert i > 0 ==> p[i] == p[1..][i - 1];
      }
      forall i | a + 1 <= i < b + 1 ensures !Wild(p[i]) {
        assert p[i] == p[1..][i - 1];
      }
      a, b := a + 1, b + 1;
    } else {
      a, b := 0, RunLength(p);
      NoLiteralMeansWild(p[b..]);
    }
  }

  lemma {:induction false} NoLiteralMeansWild(p: Text)
    requires Literals(p) == []
    ensures forall i :: 0 <= i < |p| ==> Wild(p[i])
    decreases |p|
  {
    if p != [] {
      NoLiteralMeansWild(p[1..]);
      assert forall i :: 0 < i < |p| ==> p[i] == p[1..][i - 1];
    }
  }

  /** The single-literal fast path never disagrees with the meaning of the glob. */
  lemma {:induction false} SingleLiteralIsExact(h: Text, p: Text)
    requires HasGlobSyntax(p) && SingleLiteral(p) && Literals(p) != []
    ensures !AllStars(p)
    ensures Accepts(h, p) <==> First(h, Literals(p)[0]).Some? && Decide(h, p)
  {
    var a, b := SingleLiteralShape(p);
    var l, tail := Literals(p)[0], p[a..];
    assert !Wild(p[a]) && tail[..b - a] == l && tail[b - a..] == p[b..];
    assert p[|p| - 1] == STAR <==> b < |p| by {
      if b < |p| {
        assert p[|p| - 1] == p[b..][|p| - 1 - b];
      }
    }
    assert p[0] == STAR <==> a > 0;
    if Accepts(h, p) {
      LiteralsAreNecessary(h, p, l);
    }
    if a == 0 {
      assert tail == p && b < |p|;
      LiteralThenStars(h, p, b);
      if StartsWith(h, l) {
        assert OccursAt(h, l, 0);
      }
    } else {
      LeadingStars(h, p, a);
      SomeSuffixMatches(h, tail, l);
    }
  }

  /** After a leading star, a literal matches somewhere, or at the very end. */
  lemma {:induction false} SomeSuffixMatches(h: Text, tail: Text, l: Text)
    requires l != [] && (forall i :: 0 <= i < |l| ==> !Wild(l[i])) && |l| <= |tail| && tail[..|l|] == l
    requires AllStars(tail[|l|..])
    ensures (exists k :: 0 <= k <= |h| && Accepts(h[k..], tail))
            <==> First(h, l).Some? && (|l| < |tail| || EndsWith(h, l))
  {
    if exists k :: 0 <= k <= |h| && Accepts(h[k..], tail) {
      var k :| 0 <= k <= |h| && Accepts(h[k..], tail);
      SuffixHoldsLiteral(h, tail, l, k);
    }
    if First(h, l).Some? && (|l| < |tail| || EndsWith(h, l)) {
      var k: nat := if |l| == |tail| then |h| - |l| else First(h, l).value;
      LiteralStartsSuffix(h, tail, l, k);
    }
  }

  lemma {:induction false} SuffixHoldsLiteral(h: Text, tail: Text, l: Text, k: nat)
    requires l != [] && (forall i :: 0 <= i < |l| ==> !Wild(l[i])) && |l| <= |tail| && tail[..|l|] == l
    requires AllStars(tail[|l|..])
    requires k <= |h| && Accepts(h[k..], tail)
    ensures First(h, l).Some? && (|l| < |tail| || EndsWith(h, l))
  {
    assert forall i :: 0 <= i < |l| ==> tail[i] == l[i];
    LiteralThenStars(h[k..], tail, |l|);
    assert |l| == |tail| ==> tail == l;
    assert k + |l| <= |h| && h[k..][..|l|] == h[k..k + |l|];
    assert OccursAt(h, l, k);
  }

  lemma {:induction false} LiteralStartsSuffix(h: Text, tail: Text, l: Text, k: nat)
    requires l != [] && (forall i :: 0 <= i < |l| ==> !Wild(l[i])) && |l| <= |tail| && tail[..|l|] == l
    requires AllStars(tail[|l|..])
    requires OccursAt(h, l, k) && (|l| == |tail| ==> k + |l| == |h|)
    ensures Accepts(h[k..], tail)
  {
    assert forall i :: 0 <= i < |l| ==> tail[i] == l[i];
    assert h[k..][..|l|] == h[k..k + |l|];
    LiteralThenStars(h[k..], tail, |l|);
    assert |l| == |tail| ==> tail == l && h[k..] == l;
  }

  /** One or more leading stars mean "some suffix of the haystack". */
  lemma {:induction false} LeadingStars(h: Text, p: Text, a: nat)
    requires 0 < a <= |p| && forall i :: 0 <= i < a ==> p[i] == STAR
    ensures Accepts(h, p) <==> exists k :: 0 <= k <= |h| && Accepts(h[k..], p[a..])
    decreases a
  {
    if Accepts(h, p) {
      var k := StarSplits(h, p);
      if a > 1 {
        LeadingStars(h[k..], p[1..], a - 1);
        var j :| 0 <= j <= |h[k..]| && Accepts(h[k..][j..], p[1..][a - 1..]);
        assert h[k..][j..] == h[k + j..] && p[1..][a - 1..] == p[a..];
      }
    }
    if exists k :: 0 <= k <= |h| && Accepts(h[k..], p[a..]) {
      var k :| 0 <= k <= |h| && Accepts(h[k..], p[a..]);
      if a > 1 {
        assert p[1..][a - 1..] == p[a..] && h[k..][0..] == h[k..];
        LeadingStars(h[k..], p[1..], a - 1);
      }
      StarAbsorbs(h, p, k);
    }
  }

  /** The inputs on which no haystack byte can be mistaken for a pattern star. */
  predicate Faithful(h: Text, p: Text) {
    AllStars(p) || SingleLiteral(p) || NoCollision(h, p)
  }

  /** A score is only ever given to a match; it is twice the offset of the first literal plus
      the pattern length; and outside the star collision every match gets one. */
  lemma {:induction false} ScoreMeaning(h: Text, p: Text)
    requires HasGlobSyntax(p)
    ensures Score(h, p).Some? ==> Accepts(h, p)
    ensures Faithful(h, p) ==> (Score(h, p).Some? <==> Accepts(h, p))
    ensures Score(h, p).Some? ==> Score(h, p).value >= |p|
    ensures Score(h, p).Some? && Literals(p) != [] ==>
              First(h, Literals(p)[0]).Some? && Score(h, p).value == 2 * First(h, Literals(p)[0]).value + |p|
    ensures Score(h, p).Some? && Literals(p) == [] ==> Score(h, p).value == |p|
  {
    if AllStars(p) {
      AllStarsAccept(h, p);
      AllStarsHaveNoLiteral(p);
    } else {
      if Literals(p) != [] && Accepts(h, p) {
        LiteralsAreNecessary(h, p, Literals(p)[0]);
        var at :| OccursAt(h, Literals(p)[0], at);
        assert First(h, Literals(p)[0]).Some?;
      }
      if SingleLiteral(p) {
        NoWildMeansLiteral(p);
        SingleLiteralIsExact(h, p);
      } else {
        GreedyIsSound(h, p);
        if NoCollision(h, p) {
          GreedyIsExact(h, p);
        }
      }
    }
  }

  lemma {:induction false} AllStarsHaveNoLiteral(p: Text)
    requires AllStars(p)
    ensures Literals(p) == []
  {
    if p != [] {
      AllStarsHaveNoLiteral(p[1..]);
    }
  }

  /** A file name is scored correctly by every glob exactly when it holds no star byte. */
  lemma {:induction false} ScoreExactForHaystack(h: Text)
    ensures (forall p :: HasGlobSyntax(p) ==> (Score(h, p).Some? <==> Accepts(h, p))) <==> STAR !in h
  {
    if STAR in h {
      var i := FirstStar(h);
      var p := StarHaystackHasBadPattern(h, i);
      assert HasGlobSyntax(p) && QUESTION in p && !AllStars(p);
      assert !(Score(h, p).Some? <==> Accepts(h, p));
    } else {
      forall p | HasGlobSyntax(p) ensures Score(h, p).Some? <==> Accepts(h, p) {
        ScoreMeaning(h, p);
      }
    }
  }

  /** The file name `*` is matched by the glob `*?`, which gives it no score. */
  lemma {:induction false} StarNameIsMissed()
    ensures HasGlobSyntax([STAR, QUESTION])
    ensures Accepts([STAR], [STAR, QUESTION]) && Score([STAR], [STAR, QUESTION]).None?
  {
    StarInHaystackFails();
    var p: Text := [STAR, QUESTION];
    assert p[0] == STAR && p[1] == QUESTION;
  }

  /** A glob scores every file name correctly exactly when a fast path handles it or it holds no
      star. */
  lemma {:induction false} ScoreExactForPattern(p: Text)
    requires HasGlobSyntax(p)
    ensures (forall h :: Score(h, p).Some? <==> Accepts(h, p)) <==> AllStars(p) || SingleLiteral(p) || STAR !in p
  {
    ExactForPattern(p);
    if AllStars(p) || SingleLiteral(p) {
      forall h ensures Score(h, p).Some? <==> Accepts(h, p) {
        ScoreMeaning(h, p);
      }
    } else {
      forall h ensures Score(h, p).Some? <==> Greedy(h, p) && Accepts(h, p) {
        ScoreIsGreedy(h, p);
      }
      if STAR in p {
        var h :| !(Greedy(h, p) <==> Accepts(h, p));
        GreedyIsSound(h, p);
        assert Accepts(h, p) && !Greedy(h, p);
      }
    }
  }

  /** Without a fast path, a score is given exactly when the matcher accepts. */
  lemma {:induction false} ScoreIsGreedy(h: Text, p: Text)
    requires HasGlobSyntax(p) && !AllStars(p) && !SingleLiteral(p)
    ensures Score(h, p).Some? <==> Greedy(h, p) && Accepts(h, p)
  {
    GreedyIsSound(h, p);
    if Literals(p) != [] && Accepts(h, p) {
      LiteralsAreNecessary(h, p, Literals(p)[0]);
      var at :| OccursAt(h, Literals(p)[0], at);
      assert First(h, Literals(p)[0]).Some?;
    }
  }
}

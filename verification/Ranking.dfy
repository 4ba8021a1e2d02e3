/** Scoring a record against a query (`src/search.rs`). */
module Ranking {
  import opened Common
  import opened Records
  import opened Glob
  import opened Patterns

  // ---------- fuzzy score ----------

  predicate Continuation(b: Byte) {
    0x80 <= b < 0xC0
  }

  function CharLength(s: Text): (n: nat)
    requires s != []
    ensures 1 <= n <= |s|
  {
    if |s| > 1 && Continuation(s[1]) then 1 + CharLength(s[1..]) else 1
  }

  /** `str::chars`: a byte followed by its UTF-8 continuation bytes. */
  function Chars(s: Text): (cs: seq<Text>)
    ensures s != [] ==> cs != []
  {
    if s == [] then [] else [s[..CharLength(s)]] + Chars(s[CharLength(s)..])
  }

  /** Leftmost walk: the first occurrence of each needle character after the previous one. */
  function Walk(hs: seq<Text>, ns: seq<Text>, i: nat, j: nat, last: Option<nat>, start: nat,
                gaps: nat): (score: Option<nat>)
    requires i <= |hs| && j < |ns| && (last.Some? ==> last.value < i)
    ensures score.Some? <==> Subsequence(ns[j..], hs[i..])
    decreases |hs| - i
  {
    if i == |hs| then None
    else if hs[i] == ns[j] then
      var gaps' := if last.Some? then gaps + (i - last.value - 1) else gaps;
      var start' := if last.None? then i else start;
      assert hs[i..][1..] == hs[i + 1..] && ns[j..][1..] == ns[j + 1..];
      if j + 1 == |ns| then Some(start' * 3 + gaps' * 5)
      else Walk(hs, ns, i + 1, j + 1, Some(i), start', gaps')
    else
      assert hs[i..][1..] == hs[i + 1..];
      Walk(hs, ns, i + 1, j, last, start, gaps)
  }

  /** `ns` can be read off `hs` from left to right, skipping characters. */
  predicate Subsequence(ns: seq<Text>, hs: seq<Text>) {
    if ns == [] then true
    else if hs == [] then false
    else if ns[0] == hs[0] then Subsequence(ns[1..], hs[1..])
    else Subsequence(ns, hs[1..])
  }

  /** The reference notion: strictly increasing positions hold the needle characters. */
  ghost predicate Embeds(ns: seq<Text>, hs: seq<Text>, at: seq<nat>) {
    && |at| == |ns|
    && (forall k :: 0 <= k < |at| ==> at[k] < |hs| && hs[at[k]] == ns[k])
    && forall k, l :: 0 <= k < l < |at| ==> at[k] < at[l]
  }

  /** Taking every character at its first chance loses no embedding. */
  lemma {:induction false} GreedyFindsEmbedding(ns: seq<Text>, hs: seq<Text>, at: seq<nat>)
    requires Embeds(ns, hs, at)
    ensures Subsequence(ns, hs)
    decreases |hs|
  {
    if ns != [] {
      assert at[0] < |hs|;
      if ns[0] == hs[0] {
        var rest := seq(|at| - 1, k requires 0 <= k < |at| - 1 => assert at[0] < at[k + 1]; at[k + 1] - 1);
        assert Embeds(ns[1..], hs[1..], rest);
        GreedyFindsEmbedding(ns[1..], hs[1..], rest);
      } else {
        var rest := seq(|at|, k requires 0 <= k < |at| => assert at[0] <= at[k] && at[0] != 0; at[k] - 1);
        assert Embeds(ns, hs[1..], rest);
        GreedyFindsEmbedding(ns, hs[1..], rest);
      }
    }
  }

  lemma {:induction false} SubsequenceEmbeds(ns: seq<Text>, hs: seq<Text>) returns (at: seq<nat>)
    requires Subsequence(ns, hs)
    ensures Embeds(ns, hs, at)
    decreases |hs|
  {
    if ns == [] {
      at := [];
    } else if ns[0] == hs[0] {
      var rest := SubsequenceEmbeds(ns[1..], hs[1..]);
      at := [0] + seq(|rest|, k requires 0 <= k < |rest| => rest[k] + 1);
    } else {
      var rest := SubsequenceEmbeds(ns, hs[1..]);
      at := seq(|rest|, k requires 0 <= k < |rest| => rest[k] + 1);
    }
  }

  function FuzzyScore(haystack: Text, needle: Text): Option<nat> {
    if needle == [] then Some(0)
    else
      var walk := Walk(Chars(haystack), Chars(needle), 0, 0, None, 0, 0);
      if walk.Some? then Some(walk.value + |needle|) else None
  }

  ghost predicate HasEmbedding(ns: seq<Text>, hs: seq<Text>) {
    exists at :: Embeds(ns, hs, at)
  }

  lemma {:induction false} SubsequenceMeansEmbedding(ns: seq<Text>, hs: seq<Text>)
    ensures Subsequence(ns, hs) <==> HasEmbedding(ns, hs)
  {
    if Subsequence(ns, hs) {
      var at := SubsequenceEmbeds(ns, hs);
    }
    if HasEmbedding(ns, hs) {
      var at :| Embeds(ns, hs, at);
      GreedyFindsEmbedding(ns, hs, at);
    }
  }

  /** Fuzzy matching accepts exactly the haystacks that contain the needle's characters in order. */
  lemma {:induction false} FuzzyMatchesSubsequences(haystack: Text, needle: Text)
    requires needle != []
    ensures FuzzyScore(haystack, needle).Some? <==> HasEmbedding(Chars(needle), Chars(haystack))
  {
    var hs, ns := Chars(haystack), Chars(needle);
    SubsequenceMeansEmbedding(ns, hs);
    assert ns[0..] == ns && hs[0..] == hs;
  }

  method ComputeFuzzyScore(haystack: Text, needle: Text) returns (score: Option<nat>)
    ensures score == FuzzyScore(haystack, needle)
  {
    if needle == [] {
      return Some(0);
    }
    var hs, ns := Chars(haystack), Chars(needle);
    var last: Option<nat> := None;
    var gaps, start, j := 0, 0, 0;
    for i := 0 to |hs|
      invariant 0 <= j < |ns| && gaps >= 0 && start >= 0 && (last.Some? ==> last.value < i)
      invariant Walk(hs, ns, 0, 0, None, 0, 0) == Walk(hs, ns, i, j, last, start, gaps)
    {
      if hs[i] == ns[j] {
        if last.Some? {
          gaps := gaps + Max(i - last.value - 1, 0);
        } else {
          start := i;
        }
        last := Some(i);
        if j + 1 < |ns| {
          j := j + 1;
        } else {
          return Some(start * 3 + gaps * 5 + |needle|);
        }
      }
    }
    return None;
  }

  // ---------- queries ----------

  datatype PathFilterMode = Anywhere | Component

  datatype PathFilter = PathFilter(mode: PathFilterMode, finder: Finder, glob: Option<PreparedGlob>)

  datatype Term = Term(finder: Finder, glob: Option<PreparedGlob>)

  /** Normalised search options together with the prepared terms and path filters. */
  datatype Query = Query(
    terms: seq<Term>, pathFilters: seq<PathFilter>, excludedPathFilters: seq<PathFilter>,
    fuzzy: bool, needsText: bool, pathOnly: bool,
    kindFilters: seq<FileKind>, excludedKindFilters: seq<FileKind>,
    extFilters: seq<Text>, excludedExtFilters: seq<Text>,
    modifiedAfter: Option<int>, modifiedBefore: Option<int>)

  ghost predicate PreparedPattern(finder: Finder, glob: Option<PreparedGlob>) {
    && Prepared(finder)
    && (glob.Some? <==> HasGlobSyntax(finder.value))
    && (glob.Some? ==> GlobPrepared(glob.value) && glob.value.pattern == finder.value)
  }

  ghost predicate PreparedTerms(terms: seq<Term>) {
    forall i :: 0 <= i < |terms| ==> PreparedPattern(terms[i].finder, terms[i].glob)
  }

  ghost predicate PreparedFilters(filters: seq<PathFilter>) {
    forall i :: 0 <= i < |filters| ==> PreparedPattern(filters[i].finder, filters[i].glob)
  }

  ghost predicate PreparedQuery(q: Query) {
    && PreparedTerms(q.terms) && PreparedFilters(q.pathFilters) && PreparedFilters(q.excludedPathFilters)
    && q.needsText == (q.pathFilters != [] || q.excludedPathFilters != []
                       || exists i :: 0 <= i < |q.terms| && (q.terms[i].glob.None? || !q.terms[i].glob.value.allStars))
  }

  // ---------- metadata and path filters ----------

  predicate MatchesMetadata(q: Query, kind: FileKind, mtime: Option<int>, ext: Option<Text>) {
    && (q.kindFilters == [] || kind in q.kindFilters)
    && kind !in q.excludedKindFilters
    && (q.modifiedAfter.Some? ==> mtime.Some? && mtime.value >= q.modifiedAfter.value)
    && (q.modifiedBefore.Some? && mtime.Some? ==> mtime.value < q.modifiedBefore.value)
    && (q.extFilters != [] ==> ext.Some? && ext.value in q.extFilters)
    && (ext.Some? ==> ext.value !in q.excludedExtFilters)
  }

  function ComponentLength(path: Text): (n: nat)
    ensures n <= |path| && (forall i :: 0 <= i < n ==> path[i] != SLASH) && (n < |path| ==> path[n] == SLASH)
  {
    if path == [] || path[0] == SLASH then 0 else 1 + ComponentLength(path[1..])
  }

  /** The nonempty parts of `split('/')`. */
  function Components(path: Text): seq<Text> {
    if path == [] then []
    else if path[0] == SLASH then Components(path[1..])
    else [path[..ComponentLength(path)]] + Components(path[ComponentLength(path)..])
  }

  predicate FilterMatchesText(f: PathFilter, text: Text, component: bool) {
    if f.glob.Some? then Score(text, f.glob.value.pattern).Some?
    else if component then text == f.finder.value
    else First(text, f.finder.value).Some?
  }

  predicate FilterMatches(f: PathFilter, path: Text) {
    match f.mode
    case Anywhere => FilterMatchesText(f, path, false)
    case Component => exists i :: 0 <= i < |Components(path)| && FilterMatchesText(f, Components(path)[i], true)
  }

  predicate PassesPathFilters(q: Query, path: Text) {
    && (forall i :: 0 <= i < |q.pathFilters| ==> FilterMatches(q.pathFilters[i], path))
    && forall i :: 0 <= i < |q.excludedPathFilters| ==> !FilterMatches(q.excludedPathFilters[i], path)
  }

  method MatchText(f: PathFilter, text: Text, component: bool) returns (matched: bool)
    requires PreparedPattern(f.finder, f.glob)
    ensures matched == FilterMatchesText(f, text, component)
  {
    if f.glob.Some? {
      var score := GlobScore(f.glob.value, text);
      matched := score.Some?;
    } else if component {
      matched := text == f.finder.value;
    } else {
      var found := Find(f.finder, text);
      matched := found.Some?;
    }
  }

  method MatchFilter(f: PathFilter, path: Text) returns (matched: bool)
    requires PreparedPattern(f.finder, f.glob)
    ensures matched == FilterMatches(f, path)
  {
    if f.mode == Anywhere {
      matched := MatchText(f, path, false);
      return;
    }
    var parts := Components(path);
    for i := 0 to |parts|
      invariant forall k :: 0 <= k < i ==> !FilterMatchesText(f, parts[k], true)
    {
      matched := MatchText(f, parts[i], true);
      if matched {
        return;
      }
    }
    return false;
  }

  method MatchPathFilters(q: Query, path: Text) returns (passes: bool)
    requires PreparedQuery(q)
    ensures passes == PassesPathFilters(q, path)
  {
    for i := 0 to |q.pathFilters|
      invariant forall k :: 0 <= k < i ==> FilterMatches(q.pathFilters[k], path)
    {
      var matched := MatchFilter(q.pathFilters[i], path);
      if !matched {
        return false;
      }
    }
    for i := 0 to |q.excludedPathFilters|
      invariant forall k :: 0 <= k < i ==> !FilterMatches(q.excludedPathFilters[k], path)
    {
      var matched := MatchFilter(q.excludedPathFilters[i], path);
      if matched {
        return false;
      }
    }
    return true;
  }

  // ---------- the score ----------

  function Plus(score: Option<nat>, n: nat): Option<nat> {
    if score.Some? then Some(score.value + n) else None
  }

  function Else(score: Option<nat>, other: Option<nat>): Option<nat> {
    if score.Some? then score else other
  }

  /** The score of one term: lower is better. */
  function TermScore(t: Term, pathOnly: bool, fuzzy: bool, path: Text, basename: Text): Option<nat> {
    var token := t.finder.value;
    if t.glob.Some? then
      var p := t.glob.value.pattern;
      if pathOnly then Plus(Score(path, p), 450)
      else Else(Plus(Score(basename, p), 180), Plus(Score(path, p), 520))
    else if pathOnly then
      if First(path, token).Some? then Some(300 + Min(First(path, token).value, 500)) else None
    else if basename == token then Some(0)
    else if StartsWith(basename, token) then Some(100 + |token|)
    else if First(basename, token).Some? then Some(250 + First(basename, token).value)
    else if First(path, token).Some? then Some(550 + Min(First(path, token).value, 500))
    else if fuzzy then Else(Plus(FuzzyScore(basename, token), 1000), Plus(FuzzyScore(path, token), 1900))
    else None
  }

  /** Terms are ANDed and their scores added. */
  function SumScores(terms: seq<Term>, pathOnly: bool, fuzzy: bool, path: Text, basename: Text,
                     sum: nat): (score: Option<nat>)
    ensures score.Some? ==> score.value >= sum
  {
    if terms == [] then Some(sum)
    else
      var s := TermScore(terms[0], pathOnly, fuzzy, path, basename);
      if s.Some? then SumScores(terms[1..], pathOnly, fuzzy, path, basename, sum + s.value) else None
  }

  /** A match matches every term and scores at least as high as each. */
  lemma {:induction false} SumCoversTerm(terms: seq<Term>, pathOnly: bool, fuzzy: bool, path: Text, basename: Text,
                                         sum: nat, i: nat)
    requires i < |terms| && SumScores(terms, pathOnly, fuzzy, path, basename, sum).Some?
    ensures var s := TermScore(terms[i], pathOnly, fuzzy, path, basename);
            s.Some? && SumScores(terms, pathOnly, fuzzy, path, basename, sum).value >= sum + s.value
  {
    var s := TermScore(terms[0], pathOnly, fuzzy, path, basename);
    if i > 0 {
      assert terms[1..][i - 1] == terms[i];
      SumCoversTerm(terms[1..], pathOnly, fuzzy, path, basename, sum + s.value, i - 1);
    }
  }

  /** `rank_lowered` as a function. */
  function Rank(q: Query, path: Text, basename: Text, pathLen: nat, mtime: Option<int>): Option<int> {
    if !PassesPathFilters(q, path) then None
    else if q.terms == [] then Some(10_000 - Min(if mtime.Some? then mtime.value else 0, 9_000))
    else
      var sum := SumScores(q.terms, q.pathOnly, q.fuzzy, path, basename, 0);
      if sum.Some? then Some(sum.value + Min(pathLen, 500)) else None
  }

  method ComputeTermScore(t: Term, pathOnly: bool, fuzzy: bool, path: Text, basename: Text) returns (score: Option<nat>)
    requires PreparedPattern(t.finder, t.glob)
    ensures score == TermScore(t, pathOnly, fuzzy, path, basename)
  {
    if t.glob.Some? {
      if pathOnly {
        var s := GlobScore(t.glob.value, path);
        return Plus(s, 450);
      }
      var s := GlobScore(t.glob.value, basename);
      if s.Some? {
        return Plus(s, 180);
      }
      s := GlobScore(t.glob.value, path);
      return Plus(s, 520);
    }
    var index: Option<nat>;
    if pathOnly {
      index := Find(t.finder, path);
      return if index.Some? then Some(300 + Min(index.value, 500)) else None;
    }
    if basename == t.finder.value {
      return Some(0);
    }
    if StartsWith(basename, t.finder.value) {
      return Some(100 + |t.finder.value|);
    }
    index := Find(t.finder, basename);
    if index.Some? {
      return Some(250 + index.value);
    }
    index := Find(t.finder, path);
    if index.Some? {
      return Some(550 + Min(index.value, 500));
    }
    if fuzzy {
      var s := ComputeFuzzyScore(basename, t.finder.value);
      if s.Some? {
        return Plus(s, 1000);
      }
      s := ComputeFuzzyScore(path, t.finder.value);
      return Plus(s, 1900);
    }
    return None;
  }

  method RankLowered(q: Query, path: Text, basename: Text, pathLen: nat, mtime: Option<int>) returns (rank: Option<int>)
    requires PreparedQuery(q)
    ensures rank == Rank(q, path, basename, pathLen, mtime)
  {
    var passes := MatchPathFilters(q, path);
    if !passes {
      return None;
    }
    if q.terms == [] {
      return Some(10_000 - Min(if mtime.Some? then mtime.value else 0, 9_000));
    }
    var sum := SumTermScores(q.terms, q.pathOnly, q.fuzzy, path, basename);
    return if sum.Some? then Some(sum.value + Min(pathLen, 500)) else None;
  }

  method SumTermScores(terms: seq<Term>, pathOnly: bool, fuzzy: bool, path: Text, basename: Text)
    returns (sum: Option<nat>)
    requires PreparedTerms(terms)
    ensures sum == SumScores(terms, pathOnly, fuzzy, path, basename, 0)
  {
    var score := 0;
    for i := 0 to |terms|
      invariant score >= 0
      invariant SumScores(terms, pathOnly, fuzzy, path, basename, 0)
                == SumScores(terms[i..], pathOnly, fuzzy, path, basename, score)
    {
      assert terms[i..][1..] == terms[i + 1..];
      var s := ComputeTermScore(terms[i], pathOnly, fuzzy, path, basename);
      if s.None? {
        return None;
      }
      score := score + s.value;
    }
    return Some(score);
  }

  // ---------- recency ----------

  /** Without terms the score is taken from the modification time; it fits the signed 64-bit score of the
      code exactly when that time is not within 10,000 seconds of the least 64-bit integer. */
  lemma {:induction false} RecencyFits(q: Query, path: Text, basename: Text, pathLen: nat, mtime: Option<I64>)
    requires q.terms == [] && PassesPathFilters(q, path)
    ensures Rank(q, path, basename, pathLen, mtime).Some?
    ensures I64_MIN <= Rank(q, path, basename, pathLen, mtime).value <= I64_MAX
            <==> mtime.None? || mtime.value > I64_MIN + 10_000
  {
  }

  /** The least modification time overflows it. */
  lemma {:induction false} RecencyOverflows(q: Query, path: Text)
    requires q.terms == [] && PassesPathFilters(q, path)
    ensures Rank(q, path, [], |path|, Some(I64_MIN)).Some? && Rank(q, path, [], |path|, Some(I64_MIN)).value > I64_MAX
  {
  }

  // ---------- text a query does not look at ----------

  lemma {:induction false} StarTermsIgnoreText(terms: seq<Term>, pathOnly: bool, fuzzy: bool, path: Text,
                                               basename: Text, path': Text, basename': Text, sum: nat)
    requires forall i :: 0 <= i < |terms| ==> terms[i].glob.Some? && AllStars(terms[i].glob.value.pattern)
    ensures SumScores(terms, pathOnly, fuzzy, path, basename, sum)
            == SumScores(terms, pathOnly, fuzzy, path', basename', sum)
  {
    if terms != [] {
      var s := TermScore(terms[0], pathOnly, fuzzy, path, basename);
      assert s == TermScore(terms[0], pathOnly, fuzzy, path', basename');
      if s.Some? {
        StarTermsIgnoreText(terms[1..], pathOnly, fuzzy, path, basename, path', basename', sum + s.value);
      }
    }
  }

  /** The packed scan may pass empty strings when the query says it needs no text. */
  lemma {:induction false} UnneededTextIsIgnored(q: Query, path: Text, basename: Text, pathLen: nat, mtime: Option<int>)
    requires PreparedQuery(q) && !q.needsText
    ensures Rank(q, path, basename, pathLen, mtime) == Rank(q, [], [], pathLen, mtime)
  {
    forall i | 0 <= i < |q.terms| ensures q.terms[i].glob.Some? && AllStars(q.terms[i].glob.value.pattern) {
    }
    StarTermsIgnoreText(q.terms, q.pathOnly, q.fuzzy, path, basename, [], [], 0);
  }

  lemma {:induction false} PathTermsIgnoreBasename(terms: seq<Term>, fuzzy: bool, path: Text, basename: Text,
                                                   basename': Text, sum: nat)
    ensures SumScores(terms, true, fuzzy, path, basename, sum) == SumScores(terms, true, fuzzy, path, basename', sum)
  {
    if terms != [] {
      var s := TermScore(terms[0], true, fuzzy, path, basename);
      if s.Some? {
        PathTermsIgnoreBasename(terms[1..], fuzzy, path, basename, basename', sum + s.value);
      }
    }
  }

  predicate NeedsBasename(q: Query) {
    !q.pathOnly && q.terms != [] && q.needsText
  }

  lemma {:induction false} UnneededBasenameIsIgnored(q: Query, path: Text, basename: Text, pathLen: nat,
                                                     mtime: Option<int>)
    requires q.pathOnly || q.terms == []
    ensures Rank(q, path, basename, pathLen, mtime) == Rank(q, path, [], pathLen, mtime)
  {
    if q.pathOnly {
      PathTermsIgnoreBasename(q.terms, q.fuzzy, path, basename, [], 0);
    }
  }

  // ---------- bounds that let a pass stop early ----------

  /** With one plain term, a basename that does not start with it scores at least 250. */
  lemma {:induction false} NonPrefixScoresHigh(q: Query, path: Text, basename: Text, pathLen: nat, mtime: Option<int>)
    requires !q.pathOnly && |q.terms| == 1 && q.terms[0].glob.None?
    requires !StartsWith(basename, q.terms[0].finder.value)
    ensures Rank(q, path, basename, pathLen, mtime).Some? ==> Rank(q, path, basename, pathLen, mtime).value >= 250
  {
    var t := q.terms[0];
    assert basename != t.finder.value by {
      assert t.finder.value[..|t.finder.value|] == t.finder.value;
    }
  }

  /** A literal every true match of a term must contain, unless the term matches fuzzily. */
  predicate LiteralOf(t: Term, literal: Text) {
    if t.glob.Some? then literal in Literals(t.glob.value.pattern) else literal == t.finder.value
  }

  /** The least score of a term whose literal the basename lacks. */
  function BoundOf(t: Term): nat {
    if t.glob.Some? then |t.glob.value.pattern| + 520 else 550
  }

  lemma {:induction false} GlobScoreNeedsLiteral(h: Text, p: Text, literal: Text)
    requires literal in Literals(p)
    ensures Score(h, p).Some? ==> Contains(h, literal)
  {
    if AllStars(p) {
      AllStarsHaveNoLiteral(p);
    }
    if Score(h, p).Some? {
      if SingleLiteral(p) {
        assert literal == Literals(p)[0];
        assert OccursAt(h, literal, First(h, literal).value);
      } else {
        GreedyIsSound(h, p);
        LiteralsAreNecessary(h, p, literal);
      }
    }
  }

  lemma {:induction false} FoundMeansContained(h: Text, needle: Text)
    ensures First(h, needle).Some? <==> Contains(h, needle)
  {
    if First(h, needle).Some? {
      assert OccursAt(h, needle, First(h, needle).value);
    }
  }

  lemma {:induction false} PrefixIsContained(s: Text, prefix: Text)
    requires StartsWith(s, prefix)
    ensures Contains(s, prefix)
  {
    assert OccursAt(s, prefix, 0);
  }

  lemma {:induction false} TermWithoutLiteralScoresHigh(t: Term, literal: Text, fuzzy: bool, path: Text, basename: Text)
    requires LiteralOf(t, literal) && !Contains(basename, literal)
    ensures var s := TermScore(t, false, fuzzy, path, basename);
            s.Some? ==> s.value >= BoundOf(t)
  {
    if t.glob.Some? {
      GlobScoreNeedsLiteral(basename, t.glob.value.pattern, literal);
    } else {
      FoundMeansContained(basename, literal);
      if StartsWith(basename, literal) {
        PrefixIsContained(basename, literal);
      }
      assert literal[..|literal|] == literal;
    }
  }

  /** Without fuzzy matching, the literal of a term occurs in the basename or the path of every match. */
  lemma {:induction false} MatchHoldsLiteral(t: Term, literal: Text, pathOnly: bool, path: Text, basename: Text)
    requires LiteralOf(t, literal) && TermScore(t, pathOnly, false, path, basename).Some?
    ensures Contains(path, literal) || (!pathOnly && Contains(basename, literal))
  {
    if t.glob.Some? {
      GlobScoreNeedsLiteral(path, t.glob.value.pattern, literal);
      GlobScoreNeedsLiteral(basename, t.glob.value.pattern, literal);
    } else {
      FoundMeansContained(path, literal);
      FoundMeansContained(basename, literal);
      if StartsWith(basename, literal) {
        PrefixIsContained(basename, literal);
      }
      assert literal[..|literal|] == literal;
    }
  }
}

/** Which match ranks above which (`src/search.rs`). */
module Relevance {
  import opened Common
  import opened Records
  import opened Glob
  import opened Patterns
  import opened Ranking

  // `Rank` is a sum of numbers. Here it is said of two rows, in terms of their names and paths alone,
  // which of them comes first.

  // ---------- what a fuzzy score measures ----------

  /** Positions from `i` on that hold the characters of `ns` from `j` on, in order. */
  ghost predicate Placed(hs: seq<Text>, ns: seq<Text>, i: nat, j: nat, at: seq<nat>)
    requires j <= |ns|
  {
    && |at| == |ns| - j
    && (forall k :: 0 <= k < |at| ==> i <= at[k] < |hs| && hs[at[k]] == ns[j + k])
    && forall k, l :: 0 <= k < l < |at| ==> at[k] < at[l]
  }

  ghost predicate NoLater(at: seq<nat>, other: seq<nat>) {
    |at| == |other| && forall k :: 0 <= k < |at| ==> at[k] <= other[k]
  }

  ghost predicate LeftmostFrom(hs: seq<Text>, ns: seq<Text>, i: nat, j: nat, at: seq<nat>)
    requires j <= |ns|
  {
    Placed(hs, ns, i, j, at) && forall other :: Placed(hs, ns, i, j, other) ==> NoLater(at, other)
  }

  /** Each character of the needle at its first chance. */
  ghost predicate Spells(needle: Text, haystack: Text, at: seq<nat>) {
    needle != [] && LeftmostFrom(Chars(haystack), Chars(needle), 0, 0, at)
  }

  /** Characters skipped between the first and the last position. */
  function Gaps(at: seq<nat>): int {
    if at == [] then 0 else at[|at| - 1] - at[0] - (|at| - 1)
  }

  /** The value of a fuzzy match: three for each character before it, five for each one inside it
      that is skipped, and the length of the needle. */
  function Spelling(needle: Text, at: seq<nat>): int {
    if at == [] then 0 else 3 * at[0] + 5 * Gaps(at) + |needle|
  }

  lemma {:induction false} TailIsPlaced(hs: seq<Text>, ns: seq<Text>, i: nat, j: nat, at: seq<nat>)
    requires j < |ns| && Placed(hs, ns, i, j, at)
    ensures Placed(hs, ns, i + 1, j + 1, at[1..])
  {
    forall k | 0 <= k < |at| - 1 ensures i + 1 <= at[1..][k] < |hs| && hs[at[1..][k]] == ns[j + 1 + k] {
      assert at[1..][k] == at[k + 1] && at[0] < at[k + 1];
      assert ns[j + (k + 1)] == ns[j + 1 + k];
    }
  }

  lemma {:induction false} TakesFirstChance(hs: seq<Text>, ns: seq<Text>, i: nat, j: nat, rest: seq<nat>)
    requires i < |hs| && j < |ns| && hs[i] == ns[j] && LeftmostFrom(hs, ns, i + 1, j + 1, rest)
    ensures LeftmostFrom(hs, ns, i, j, [i] + rest)
  {
    var at := [i] + rest;
    forall k | 0 <= k < |at| ensures i <= at[k] < |hs| && hs[at[k]] == ns[j + k] {
      assert k > 0 ==> at[k] == rest[k - 1];
    }
    forall other | Placed(hs, ns, i, j, other) ensures NoLater(at, other) {
      TailIsPlaced(hs, ns, i, j, other);
      assert forall k :: 0 < k < |at| ==> at[k] == rest[k - 1] && other[k] == other[1..][k - 1];
    }
  }

  lemma {:induction false} SkipsOthers(hs: seq<Text>, ns: seq<Text>, i: nat, j: nat, at: seq<nat>)
    requires i < |hs| && j < |ns| && hs[i] != ns[j] && LeftmostFrom(hs, ns, i + 1, j, at)
    ensures LeftmostFrom(hs, ns, i, j, at)
  {
    forall other | Placed(hs, ns, i, j, other) ensures NoLater(at, other) {
      assert other[0] != i by {
        assert hs[other[0]] == ns[j + 0];
      }
      forall k | 0 <= k < |other| ensures i + 1 <= other[k] {
        assert k > 0 ==> other[0] < other[k];
      }
      assert Placed(hs, ns, i + 1, j, other);
    }
  }

  /** The walk visits the leftmost positions, and counts what lies before and between them. */
  lemma {:induction false} WalkIsLeftmost(hs: seq<Text>, ns: seq<Text>, i: nat, j: nat, last: Option<nat>, start: nat,
                                          gaps: nat)
    returns (at: seq<nat>)
    requires i <= |hs| && j < |ns| && (last.Some? ==> last.value < i)
    requires Walk(hs, ns, i, j, last, start, gaps).Some?
    ensures LeftmostFrom(hs, ns, i, j, at)
    ensures var before := if last.None? then Gaps(at) else at[|at| - 1] - last.value - |at|;
            Walk(hs, ns, i, j, last, start, gaps).value
            == 3 * (if last.None? then at[0] else start) + 5 * (gaps + before)
    decreases |hs| - i
  {
    if hs[i] == ns[j] {
      var rest: seq<nat> := [];
      if j + 1 == |ns| {
        assert LeftmostFrom(hs, ns, i + 1, j + 1, rest);
      } else {
        var gaps' := if last.Some? then gaps + (i - last.value - 1) else gaps;
        rest := WalkIsLeftmost(hs, ns, i + 1, j + 1, Some(i), if last.None? then i else start, gaps');
      }
      TakesFirstChance(hs, ns, i, j, rest);
      at := [i] + rest;
      assert at[|at| - 1] == if rest == [] then i else rest[|rest| - 1];
    } else {
      at := WalkIsLeftmost(hs, ns, i + 1, j, last, start, gaps);
      SkipsOthers(hs, ns, i, j, at);
    }
  }

  lemma {:induction false} OneLeftmost(hs: seq<Text>, ns: seq<Text>, a: seq<nat>, b: seq<nat>)
    requires LeftmostFrom(hs, ns, 0, 0, a) && LeftmostFrom(hs, ns, 0, 0, b)
    ensures a == b
  {
    assert NoLater(a, b) && NoLater(b, a);
  }

  lemma {:induction false} PlacedEmbeds(hs: seq<Text>, ns: seq<Text>, at: seq<nat>)
    requires Placed(hs, ns, 0, 0, at)
    ensures HasEmbedding(ns, hs)
  {
    forall k | 0 <= k < |at| ensures at[k] < |hs| && hs[at[k]] == ns[k] {
      assert ns[0 + k] == ns[k];
    }
    assert Embeds(ns, hs, at);
  }

  /** A fuzzy score is the value of the leftmost spelling, and there is one whenever there is any. */
  lemma {:induction false} FuzzyValue(haystack: Text, needle: Text)
    requires needle != []
    ensures FuzzyScore(haystack, needle).Some? <==> exists at :: Spells(needle, haystack, at)
    ensures forall at :: Spells(needle, haystack, at) ==>
              FuzzyScore(haystack, needle).Some? && FuzzyScore(haystack, needle).value == Spelling(needle, at)
  {
    if FuzzyScore(haystack, needle).Some? {
      var found := WalkIsLeftmost(Chars(haystack), Chars(needle), 0, 0, None, 0, 0);
      assert Spells(needle, haystack, found);
    }
    forall at | Spells(needle, haystack, at)
      ensures FuzzyScore(haystack, needle).Some? && FuzzyScore(haystack, needle).value == Spelling(needle, at)
    {
      SpellingValue(haystack, needle, at);
    }
  }

  lemma {:induction false} SpellingValue(haystack: Text, needle: Text, at: seq<nat>)
    requires Spells(needle, haystack, at)
    ensures FuzzyScore(haystack, needle).Some? && FuzzyScore(haystack, needle).value == Spelling(needle, at)
  {
    var hs, ns := Chars(haystack), Chars(needle);
    PlacedEmbeds(hs, ns, at);
    FuzzyMatchesSubsequences(haystack, needle);
    var found := WalkIsLeftmost(hs, ns, 0, 0, None, 0, 0);
    OneLeftmost(hs, ns, at, found);
  }

  // ---------- where a plain term matches ----------

  /** The kinds of match of a plain term, best first. */
  datatype Place =
    | NameIs
    | NameStarts
    | NameHolds(at: nat)
    | PathHolds(at: nat)
    | NameSpells(letters: seq<nat>)
    | PathSpells(letters: seq<nat>)

  ghost predicate IsPlace(token: Text, fuzzy: bool, path: Text, basename: Text, place: Place) {
    match place
    case NameIs => basename == token
    case NameStarts => basename != token && StartsWith(basename, token)
    case NameHolds(at) => !StartsWith(basename, token) && IsFirst(basename, token, Some(at))
    case PathHolds(at) => !Contains(basename, token) && IsFirst(path, token, Some(at))
    case NameSpells(at) =>
      fuzzy && !Contains(basename, token) && !Contains(path, token) && Spells(token, basename, at)
    case PathSpells(at) =>
      && fuzzy && !Contains(basename, token) && !Contains(path, token) && Spells(token, path, at)
      && forall other :: !Spells(token, basename, other)
  }

  function Penalty(token: Text, place: Place): int {
    match place
    case NameIs => 0
    case NameStarts => 100 + |token|
    case NameHolds(at) => 250 + at
    case PathHolds(at) => 550 + Min(at, 500)
    case NameSpells(at) => 1000 + Spelling(token, at)
    case PathSpells(at) => 1900 + Spelling(token, at)
  }

  predicate IsPlain(t: Term) {
    t.glob.None?
  }

  lemma {:induction false} WholeIsPrefix(s: Text)
    ensures StartsWith(s, s) && StartsWith(s, [])
  {
    assert s[..|s|] == s && s[..0] == [];
  }

  lemma {:induction false} NotContained(s: Text, token: Text)
    ensures First(s, token).None? <==> !Contains(s, token)
    ensures !Contains(s, token) ==> !StartsWith(s, token) && s != token
  {
    FoundMeansContained(s, token);
    WholeIsPrefix(s);
    if StartsWith(s, token) {
      PrefixIsContained(s, token);
    }
  }

  /** Where the text is found is where it is first found. */
  lemma {:induction false} FirstIs(s: Text, token: Text, at: nat)
    requires IsFirst(s, token, Some(at))
    ensures First(s, token) == Some(at) && Contains(s, token) && (at == 0 <==> StartsWith(s, token))
  {
    FirstIsUnique(s, token, Some(at));
    assert OccursAt(s, token, at);
    assert OccursAt(s, token, 0) <==> StartsWith(s, token);
  }

  /** A place gives the score. */
  lemma {:induction false} PlaceScores(t: Term, fuzzy: bool, path: Text, basename: Text, place: Place)
    requires IsPlain(t) && IsPlace(t.finder.value, fuzzy, path, basename, place)
    ensures TermScore(t, false, fuzzy, path, basename).Some?
    ensures TermScore(t, false, fuzzy, path, basename).value == Penalty(t.finder.value, place)
  {
    var token := t.finder.value;
    NotContained(basename, token);
    NotContained(path, token);
    match place
    case NameIs =>
    case NameStarts =>
    case NameHolds(at) => FirstIs(basename, token, at); WholeIsPrefix(basename);
    case PathHolds(at) => FirstIs(path, token, at);
    case NameSpells(at) => FuzzyValue(basename, token);
    case PathSpells(at) => FuzzyValue(basename, token); FuzzyValue(path, token);
  }

  /** Every match has a place. */
  lemma {:induction false} MatchHasPlace(t: Term, fuzzy: bool, path: Text, basename: Text) returns (place: Place)
    requires IsPlain(t) && TermScore(t, false, fuzzy, path, basename).Some?
    ensures IsPlace(t.finder.value, fuzzy, path, basename, place)
  {
    var token := t.finder.value;
    NotContained(basename, token);
    NotContained(path, token);
    if basename == token {
      place := NameIs;
    } else if StartsWith(basename, token) {
      place := NameStarts;
    } else if First(basename, token).Some? {
      place := NameHolds(First(basename, token).value);
    } else if First(path, token).Some? {
      place := PathHolds(First(path, token).value);
    } else {
      place := FuzzyPlace(token, path, basename);
    }
  }

  lemma {:induction false} FuzzyPlace(token: Text, path: Text, basename: Text) returns (place: Place)
    requires !Contains(basename, token) && !Contains(path, token)
    requires FuzzyScore(basename, token).Some? || FuzzyScore(path, token).Some?
    ensures IsPlace(token, true, path, basename, place)
  {
    WholeIsPrefix(path);
    if token == [] {
      PrefixIsContained(path, token);
      assert false;
    }
    FuzzyValue(basename, token);
    FuzzyValue(path, token);
    if FuzzyScore(basename, token).Some? {
      var at :| Spells(token, basename, at);
      place := NameSpells(at);
    } else {
      var at :| Spells(token, path, at);
      place := PathSpells(at);
    }
  }

  /** A plain term matches exactly the rows that have a place. */
  lemma {:induction false} MatchesHavePlaces(t: Term, fuzzy: bool, path: Text, basename: Text)
    requires IsPlain(t)
    ensures TermScore(t, false, fuzzy, path, basename).Some?
            <==> exists place :: IsPlace(t.finder.value, fuzzy, path, basename, place)
  {
    if TermScore(t, false, fuzzy, path, basename).Some? {
      var place := MatchHasPlace(t, fuzzy, path, basename);
    }
    if exists place :: IsPlace(t.finder.value, fuzzy, path, basename, place) {
      var place :| IsPlace(t.finder.value, fuzzy, path, basename, place);
      PlaceScores(t, fuzzy, path, basename, place);
    }
  }

  // ---------- which match comes first ----------

  function ScoreOf(t: Term, fuzzy: bool, path: Text, basename: Text): Option<nat> {
    TermScore(t, false, fuzzy, path, basename)
  }

  /** The first row matches, and scores below the second if that matches at all. */
  ghost predicate Beats(a: Option<nat>, b: Option<nat>) {
    a.Some? && (b.Some? ==> a.value < b.value)
  }

  /** The exact name scores below every other one, by 100 at least. */
  lemma {:induction false} ExactNameBeatsOthers(t: Term, fuzzy: bool, path: Text, path': Text, basename': Text)
    requires IsPlain(t) && basename' != t.finder.value
    ensures Beats(ScoreOf(t, fuzzy, path, t.finder.value), ScoreOf(t, fuzzy, path', basename'))
    ensures ScoreOf(t, fuzzy, path', basename').Some? ==>
              ScoreOf(t, fuzzy, path', basename').value >= ScoreOf(t, fuzzy, path, t.finder.value).value + 100
  {
    PlaceScores(t, fuzzy, path, t.finder.value, NameIs);
    if ScoreOf(t, fuzzy, path', basename').Some? {
      var place := MatchHasPlace(t, fuzzy, path', basename');
      PlaceScores(t, fuzzy, path', basename', place);
      PenaltyIsPositive(t.finder.value, fuzzy, path', basename', place);
    }
  }

  lemma {:induction false} PenaltyIsPositive(token: Text, fuzzy: bool, path: Text, basename: Text, place: Place)
    requires IsPlace(token, fuzzy, path, basename, place)
    ensures place.NameIs? || Penalty(token, place) >= 100
  {
    match place
    case NameSpells(at) => SpellingIsPositive(token, basename, at);
    case PathSpells(at) => SpellingIsPositive(token, path, at);
    case _ =>
  }

  lemma {:induction false} SpellingIsPositive(needle: Text, haystack: Text, at: seq<nat>)
    requires Spells(needle, haystack, at)
    ensures Spelling(needle, at) >= |needle| > 0
  {
    if at != [] {
      IncreasingSpreads(at, |at| - 1);
    }
  }

  lemma {:induction false} IncreasingSpreads(at: seq<nat>, k: nat)
    requires k < |at| && forall i, j :: 0 <= i < j < |at| ==> at[i] < at[j]
    ensures at[k] >= at[0] + k
  {
    if k > 0 {
      IncreasingSpreads(at, k - 1);
    }
  }

  /** A name that starts with the token against one that holds it further in: the former wins for all
      tokens up to 150 bytes, a longer one may lose to an early occurrence. */
  lemma {:induction false} StartAgainstInside(t: Term, fuzzy: bool, path: Text, basename: Text, path': Text,
                                              basename': Text, at: nat)
    requires IsPlain(t) && IsPlace(t.finder.value, fuzzy, path, basename, NameStarts)
    requires IsPlace(t.finder.value, fuzzy, path', basename', NameHolds(at))
    ensures Beats(ScoreOf(t, fuzzy, path, basename), ScoreOf(t, fuzzy, path', basename'))
            <==> |t.finder.value| < 150 + at
    ensures |t.finder.value| <= 150 ==>
              Beats(ScoreOf(t, fuzzy, path, basename), ScoreOf(t, fuzzy, path', basename'))
  {
    PlaceScores(t, fuzzy, path, basename, NameStarts);
    PlaceScores(t, fuzzy, path', basename', NameHolds(at));
    FirstIs(basename', t.finder.value, at);
  }

  /** Of two names that hold the token further in, the earlier occurrence wins. */
  lemma {:induction false} EarlierInsideWins(t: Term, fuzzy: bool, path: Text, basename: Text, at: nat, path': Text,
                                             basename': Text, at': nat)
    requires IsPlain(t) && IsPlace(t.finder.value, fuzzy, path, basename, NameHolds(at))
    requires IsPlace(t.finder.value, fuzzy, path', basename', NameHolds(at'))
    ensures Beats(ScoreOf(t, fuzzy, path, basename), ScoreOf(t, fuzzy, path', basename')) <==> at < at'
  {
    PlaceScores(t, fuzzy, path, basename, NameHolds(at));
    PlaceScores(t, fuzzy, path', basename', NameHolds(at'));
  }

  /** A match in the name against one in the path only: it wins unless the token is long or far in. */
  lemma {:induction false} NameAgainstPath(t: Term, fuzzy: bool, path: Text, basename: Text, place: Place, path': Text,
                                           basename': Text, at': nat)
    requires IsPlain(t) && IsPlace(t.finder.value, fuzzy, path, basename, place)
    requires IsPlace(t.finder.value, fuzzy, path', basename', PathHolds(at'))
    ensures place.NameStarts? ==>
              (Beats(ScoreOf(t, fuzzy, path, basename), ScoreOf(t, fuzzy, path', basename'))
               <==> |t.finder.value| < 450 + Min(at', 500))
    ensures place.NameHolds? ==>
              (Beats(ScoreOf(t, fuzzy, path, basename), ScoreOf(t, fuzzy, path', basename'))
               <==> place.at < 300 + Min(at', 500))
    ensures place.PathHolds? ==>
              (Beats(ScoreOf(t, fuzzy, path, basename), ScoreOf(t, fuzzy, path', basename'))
               <==> Min(place.at, 500) < Min(at', 500))
  {
    PlaceScores(t, fuzzy, path, basename, place);
    PlaceScores(t, fuzzy, path', basename', PathHolds(at'));
  }

  /** A substring of the path against a spelling in the name, and the latter against one in the path. */
  lemma {:induction false} FoundAgainstSpelled(t: Term, path: Text, basename: Text, place: Place, path': Text,
                                               basename': Text, place': Place)
    requires IsPlain(t) && IsPlace(t.finder.value, true, path, basename, place)
    requires IsPlace(t.finder.value, true, path', basename', place')
    ensures place.PathHolds? && place'.NameSpells? ==>
              (Beats(ScoreOf(t, true, path, basename), ScoreOf(t, true, path', basename'))
               <==> Min(place.at, 500) < 450 + Spelling(t.finder.value, place'.letters))
    ensures place.NameSpells? && place'.NameSpells? ==>
              (Beats(ScoreOf(t, true, path, basename), ScoreOf(t, true, path', basename'))
               <==> 3 * place.letters[0] + 5 * Gaps(place.letters) < 3 * place'.letters[0] + 5 * Gaps(place'.letters))
    ensures place.NameSpells? && place'.PathSpells? ==>
              (Beats(ScoreOf(t, true, path, basename), ScoreOf(t, true, path', basename'))
               <==> Spelling(t.finder.value, place.letters) < 900 + Spelling(t.finder.value, place'.letters))
  {
    PlaceScores(t, true, path, basename, place);
    PlaceScores(t, true, path', basename', place');
  }

  // ---------- path-only terms and globs ----------

  /** Restricted to paths, a plain term scores by its first position there. */
  lemma {:induction false} PathOnlyScores(t: Term, fuzzy: bool, path: Text, basename: Text)
    requires IsPlain(t)
    ensures TermScore(t, true, fuzzy, path, basename).Some? <==> Contains(path, t.finder.value)
    ensures forall at: nat :: IsFirst(path, t.finder.value, Some(at)) ==>
              TermScore(t, true, fuzzy, path, basename) == Some(300 + Min(at, 500))
  {
    NotContained(path, t.finder.value);
    forall at: nat | IsFirst(path, t.finder.value, Some(at)) ensures First(path, t.finder.value) == Some(at) {
      FirstIs(path, t.finder.value, at);
    }
  }

  /** Where the first literal of a glob begins. */
  function LiteralAt(h: Text, p: Text): nat {
    if Literals(p) == [] then 0 else if First(h, Literals(p)[0]).Some? then First(h, Literals(p)[0]).value else 0
  }

  lemma {:induction false} ScoreIs(h: Text, p: Text)
    requires HasGlobSyntax(p)
    ensures Score(h, p).Some? ==> Score(h, p).value == 2 * LiteralAt(h, p) + |p|
  {
    ScoreMeaning(h, p);
  }

  /** A glob scores by the place of its first literal in the name, and where the name does not match
      by that in the path. */
  lemma {:induction false} GlobScores(t: Term, fuzzy: bool, path: Text, basename: Text)
    requires t.glob.Some? && HasGlobSyntax(t.glob.value.pattern)
    ensures var (p, s) := (t.glob.value.pattern, ScoreOf(t, fuzzy, path, basename));
            && (s.Some? <==> Score(basename, p).Some? || Score(path, p).Some?)
            && (Score(basename, p).Some? ==> s.value == 180 + 2 * LiteralAt(basename, p) + |p|)
            && (Score(basename, p).None? && Score(path, p).Some? ==> s.value == 520 + 2 * LiteralAt(path, p) + |p|)
    ensures TermScore(t, true, fuzzy, path, basename)
            == if Score(path, t.glob.value.pattern).Some?
               then Some(450 + 2 * LiteralAt(path, t.glob.value.pattern) + |t.glob.value.pattern|) else None
  {
    ScoreIs(basename, t.glob.value.pattern);
    ScoreIs(path, t.glob.value.pattern);
  }

  /** Of two names that match a glob, the earlier literal wins; a matching name wins against a matching
      path unless its literal begins 170 bytes further in. */
  lemma {:induction false} GlobOrder(t: Term, fuzzy: bool, path: Text, basename: Text, path': Text, basename': Text)
    requires t.glob.Some? && HasGlobSyntax(t.glob.value.pattern)
    requires Score(basename, t.glob.value.pattern).Some?
    ensures var p := t.glob.value.pattern;
            && (Score(basename', p).Some? ==>
                  (Beats(ScoreOf(t, fuzzy, path, basename), ScoreOf(t, fuzzy, path', basename'))
                   <==> LiteralAt(basename, p) < LiteralAt(basename', p)))
            && (Score(basename', p).None? && Score(path', p).Some? ==>
                  (Beats(ScoreOf(t, fuzzy, path, basename), ScoreOf(t, fuzzy, path', basename'))
                   <==> LiteralAt(basename, p) < 170 + LiteralAt(path', p)))
  {
    GlobScores(t, fuzzy, path, basename);
    GlobScores(t, fuzzy, path', basename');
  }

  // ---------- whole queries ----------

  /** The rank of a query of one term. */
  lemma {:induction false} OneTermRank(q: Query, t: Term, path: Text, basename: Text, pathLen: nat, mtime: Option<int>)
    requires q.terms == [t] && PassesPathFilters(q, path)
    ensures var s := TermScore(t, q.pathOnly, q.fuzzy, path, basename);
            Rank(q, path, basename, pathLen, mtime) == if s.Some? then Some(s.value + Min(pathLen, 500)) else None
  {
    var s := TermScore(t, q.pathOnly, q.fuzzy, path, basename);
    assert q.terms[1..] == [];
    assert s.Some? ==> SumScores([], q.pathOnly, q.fuzzy, path, basename, s.value) == Some(s.value);
  }

  /** For a query of one plain term, the row with the exact name comes before another row if and only if
      its path is not longer by as much as the other match costs, which is 100 at least. */
  lemma {:induction false} ExactNameRanksFirst(q: Query, t: Term, path: Text, pathLen: nat, mtime: Option<int>,
                                               path': Text, basename': Text, pathLen': nat, mtime': Option<int>)
    requires q.terms == [t] && IsPlain(t) && !q.pathOnly && basename' != t.finder.value
    requires PassesPathFilters(q, path) && PassesPathFilters(q, path')
    requires Rank(q, path', basename', pathLen', mtime').Some?
    ensures var (first, other) := (Rank(q, path, t.finder.value, pathLen, mtime),
                                   Rank(q, path', basename', pathLen', mtime'));
            && first.Some? && ScoreOf(t, q.fuzzy, path', basename').Some?
            && (first.value < other.value
                <==> Min(pathLen, 500) < ScoreOf(t, q.fuzzy, path', basename').value + Min(pathLen', 500))
            && (pathLen < pathLen' + 100 ==> first.value < other.value)
  {
    OneTermRank(q, t, path, t.finder.value, pathLen, mtime);
    OneTermRank(q, t, path', basename', pathLen', mtime');
    ExactNameBeatsOthers(t, q.fuzzy, path, path', basename');
    PlaceScores(t, q.fuzzy, path, t.finder.value, NameIs);
  }

  /** An exact name at the end of a path of 500 bytes loses to `ab` in a path of 100, for the term `a`. */
  lemma {:induction false} LongPathLoses(q: Query, t: Term, path: Text, path': Text, mtime: Option<int>)
    requires q.terms == [t] && IsPlain(t) && !q.pathOnly && t.finder.value == [0x61]
    requires PassesPathFilters(q, path) && PassesPathFilters(q, path')
    ensures var (exact, other) := (Rank(q, path, [0x61], 500, mtime), Rank(q, path', [0x61, 0x62], 100, mtime));
            exact.Some? && other.Some? && other.value < exact.value
  {
    OneTermRank(q, t, path, [0x61], 500, mtime);
    OneTermRank(q, t, path', [0x61, 0x62], 100, mtime);
    PlaceScores(t, q.fuzzy, path, [0x61], NameIs);
    var ab: Text := [0x61, 0x62];
    assert ab[..1] == [0x61];
    PlaceScores(t, q.fuzzy, path', ab, NameStarts);
  }

  // ---------- several terms ----------

  /** What each term makes of one row. */
  type TermValue = Term -> Option<nat>

  function ValueOf(pathOnly: bool, fuzzy: bool, path: Text, basename: Text): TermValue {
    t => TermScore(t, pathOnly, fuzzy, path, basename)
  }

  function Add(a: Option<nat>, b: Option<nat>): Option<nat> {
    if a.Some? && b.Some? then Some(a.value + b.value) else None
  }

  function Total(value: TermValue, terms: seq<Term>): Option<nat> {
    if terms == [] then Some(0) else Add(value(terms[0]), Total(value, terms[1..]))
  }

  function SumWith(value: TermValue, terms: seq<Term>, sum: nat): Option<nat> {
    if terms == [] then Some(sum)
    else if value(terms[0]).Some? then SumWith(value, terms[1..], sum + value(terms[0]).value)
    else None
  }

  lemma {:induction false} SumWithIsTotal(value: TermValue, terms: seq<Term>, sum: nat)
    ensures SumWith(value, terms, sum) == Add(Total(value, terms), Some(sum))
  {
    if terms != [] && value(terms[0]).Some? {
      SumWithIsTotal(value, terms[1..], sum + value(terms[0]).value);
    }
  }

  lemma {:induction false} SumsAgree(terms: seq<Term>, pathOnly: bool, fuzzy: bool, path: Text, basename: Text,
                                     sum: nat, value: TermValue)
    requires value == ValueOf(pathOnly, fuzzy, path, basename)
    ensures SumScores(terms, pathOnly, fuzzy, path, basename, sum) == SumWith(value, terms, sum)
  {
    if terms != [] {
      var first := value(terms[0]);
      SumUnfolds(terms, pathOnly, fuzzy, path, basename, sum, first);
      SumsAgree(terms[1..], pathOnly, fuzzy, path, basename, sum + (if first.Some? then first.value else 0), value);
    }
  }

  lemma {:induction false} SumUnfolds(terms: seq<Term>, pathOnly: bool, fuzzy: bool, path: Text, basename: Text,
                                      sum: nat, first: Option<nat>)
    requires terms != [] && first == TermScore(terms[0], pathOnly, fuzzy, path, basename)
    ensures SumScores(terms, pathOnly, fuzzy, path, basename, sum)
            == if first.Some? then SumScores(terms[1..], pathOnly, fuzzy, path, basename, sum + first.value) else None
  {
  }

  /** Every term has to match, and the scores are added. */
  lemma {:induction false} SumIsTotal(terms: seq<Term>, pathOnly: bool, fuzzy: bool, path: Text, basename: Text,
                                      sum: nat)
    ensures SumScores(terms, pathOnly, fuzzy, path, basename, sum)
            == Add(Total(ValueOf(pathOnly, fuzzy, path, basename), terms), Some(sum))
  {
    SumsAgree(terms, pathOnly, fuzzy, path, basename, sum, ValueOf(pathOnly, fuzzy, path, basename));
    SumWithIsTotal(ValueOf(pathOnly, fuzzy, path, basename), terms, sum);
  }

  function Without(terms: seq<Term>, i: nat): seq<Term>
    requires i < |terms|
  {
    terms[..i] + terms[i + 1..]
  }

  /** A term may be taken first. */
  lemma {:induction false} TotalTakesFirst(value: TermValue, terms: seq<Term>, i: nat)
    requires i < |terms|
    ensures Total(value, terms) == Add(value(terms[i]), Total(value, Without(terms, i)))
  {
    if i == 0 {
      assert Without(terms, 0) == terms[1..];
    } else {
      var rest := terms[1..];
      TotalTakesFirst(value, rest, i - 1);
      assert Without(terms, i)[1..] == Without(rest, i - 1);
    }
  }

  lemma {:induction false} TotalIgnoresOrder(value: TermValue, terms: seq<Term>, others: seq<Term>)
    requires multiset(terms) == multiset(others)
    ensures Total(value, terms) == Total(value, others)
  {
    assert |multiset(terms)| == |terms| && |multiset(others)| == |others|;
    if terms != [] {
      var i := FirstAmong(terms, others);
      TotalIgnoresOrder(value, terms[1..], Without(others, i));
      TotalTakesFirst(value, others, i);
    }
  }

  lemma {:induction false} FirstAmong(terms: seq<Term>, others: seq<Term>) returns (i: nat)
    requires multiset(terms) == multiset(others) && terms != []
    ensures i < |others| && others[i] == terms[0]
    ensures multiset(terms[1..]) == multiset(Without(others, i))
  {
    assert terms[0] in multiset(others);
    i :| 0 <= i < |others| && others[i] == terms[0];
    WithoutTakesOne(terms, 0);
    WithoutTakesOne(others, i);
    assert Without(terms, 0) == terms[1..];
  }

  lemma {:induction false} WithoutTakesOne(terms: seq<Term>, i: nat)
    requires i < |terms|
    ensures multiset(Without(terms, i)) == multiset(terms) - multiset{terms[i]}
  {
    assert terms == terms[..i] + [terms[i]] + terms[i + 1..];
    assert multiset(terms) == multiset(terms[..i]) + multiset{terms[i]} + multiset(terms[i + 1..]);
    assert multiset(Without(terms, i)) == multiset(terms[..i]) + multiset(terms[i + 1..]);
  }

  /** The order in which terms are given does not matter. */
  lemma {:induction false} RankIgnoresTermOrder(q: Query, terms: seq<Term>, path: Text, basename: Text, pathLen: nat,
                                                mtime: Option<int>)
    requires multiset(terms) == multiset(q.terms)
    ensures Rank(q.(terms := terms), path, basename, pathLen, mtime) == Rank(q, path, basename, pathLen, mtime)
  {
    SumIsTotal(terms, q.pathOnly, q.fuzzy, path, basename, 0);
    SumIsTotal(q.terms, q.pathOnly, q.fuzzy, path, basename, 0);
    TotalIgnoresOrder(ValueOf(q.pathOnly, q.fuzzy, path, basename), terms, q.terms);
    assert |multiset(terms)| == |terms| && |multiset(q.terms)| == |q.terms|;
    assert PassesPathFilters(q.(terms := terms), path) <==> PassesPathFilters(q, path);
  }

  lemma {:induction false} TotalIsMonotone(value: TermValue, other: TermValue, terms: seq<Term>)
    requires Total(other, terms).Some?
    requires forall i :: 0 <= i < |terms| ==> NotWorse(value(terms[i]), other(terms[i]))
    ensures Total(value, terms).Some? && Total(value, terms).value <= Total(other, terms).value
  {
    if terms != [] {
      forall i | 0 <= i < |terms[1..]| ensures NotWorse(value(terms[1..][i]), other(terms[1..][i])) {
        assert terms[1..][i] == terms[i + 1];
      }
      assert NotWorse(value(terms[0]), other(terms[0]));
      TotalIsMonotone(value, other, terms[1..]);
    }
  }

  predicate NotWorse(score: Option<nat>, other: Option<nat>) {
    other.Some? ==> score.Some? && score.value <= other.value
  }

  /** A row that every term matches at least as well as another row, on a path that is not longer, does
      not rank after it. */
  lemma {:induction false} BetterMatchesRankFirst(q: Query, path: Text, basename: Text, pathLen: nat,
                                                  mtime: Option<int>, path': Text, basename': Text, pathLen': nat,
                                                  mtime': Option<int>)
    requires q.terms != [] && PassesPathFilters(q, path) && Rank(q, path', basename', pathLen', mtime').Some?
    requires forall i :: 0 <= i < |q.terms| ==>
               NotWorse(TermScore(q.terms[i], q.pathOnly, q.fuzzy, path, basename),
                        TermScore(q.terms[i], q.pathOnly, q.fuzzy, path', basename'))
    requires pathLen <= pathLen'
    ensures Rank(q, path, basename, pathLen, mtime).Some?
    ensures Rank(q, path, basename, pathLen, mtime).value <= Rank(q, path', basename', pathLen', mtime').value
  {
    SumIsTotal(q.terms, q.pathOnly, q.fuzzy, path, basename, 0);
    SumIsTotal(q.terms, q.pathOnly, q.fuzzy, path', basename', 0);
    TotalIsMonotone(ValueOf(q.pathOnly, q.fuzzy, path, basename), ValueOf(q.pathOnly, q.fuzzy, path', basename'),
                    q.terms);
  }

  // ---------- path filters ----------

  /** `c` stands between slashes or ends of the path, and holds none. */
  ghost predicate IsComponent(path: Text, c: Text, at: nat) {
    && OccursAt(path, c, at) && c != [] && SLASH !in c
    && (at == 0 || path[at - 1] == SLASH)
    && (at + |c| == |path| || path[at + |c|] == SLASH)
  }

  ghost predicate HasComponent(path: Text, c: Text) {
    exists at: nat :: IsComponent(path, c, at)
  }

  lemma {:induction false} ComponentLater(path: Text, n: nat, c: Text, at: nat)
    requires n <= |path| && (n > 0 || (path != [] && path[0] == SLASH))
    requires n < |path| ==> path[n] == SLASH
    ensures at >= n && (n == 0 || at > n) && IsComponent(path, c, at) ==> IsComponent(path[n..], c, at - n)
    ensures IsComponent(path[n..], c, at) ==> IsComponent(path, c, at + n)
  {
    if at >= n && OccursAt(path, c, at) {
      assert path[n..][at - n..at - n + |c|] == path[at..at + |c|];
    }
    if OccursAt(path[n..], c, at) && c != [] {
      assert path[at + n..at + n + |c|] == path[n..][at..at + |c|];
      assert c[0] == path[n..][at];
    }
  }

  lemma {:induction false} SlashIsSkipped(path: Text, c: Text)
    requires path != [] && path[0] == SLASH
    ensures HasComponent(path, c) <==> HasComponent(path[1..], c)
  {
    if HasComponent(path, c) {
      var at: nat :| IsComponent(path, c, at);
      assert c[0] == path[at];
      assert path[1..][at - 1..at - 1 + |c|] == path[at..at + |c|];
      assert IsComponent(path[1..], c, at - 1);
    }
    if HasComponent(path[1..], c) {
      var at: nat :| IsComponent(path[1..], c, at);
      assert path[at + 1..at + 1 + |c|] == path[1..][at..at + |c|];
      assert IsComponent(path, c, at + 1);
    }
  }

  lemma {:induction false} FirstComponent(path: Text, n: nat, c: Text)
    requires 0 < n <= |path| && (forall i :: 0 <= i < n ==> path[i] != SLASH) && (n < |path| ==> path[n] == SLASH)
    ensures IsComponent(path, c, 0) <==> c == path[..n]
  {
    if IsComponent(path, c, 0) {
      assert path[0..|c|] == c;
      assert forall i :: 0 <= i < |c| ==> c[i] == path[i];
      assert |c| == n;
      assert path[0..n] == path[..n];
    }
    if c == path[..n] {
      assert path[0..n] == c;
    }
  }

  lemma {:induction false} ComponentsSplit(path: Text, n: nat, c: Text)
    requires 0 < n <= |path| && (forall i :: 0 <= i < n ==> path[i] != SLASH) && (n < |path| ==> path[n] == SLASH)
    ensures HasComponent(path, c) <==> c == path[..n] || HasComponent(path[n..], c)
  {
    FirstComponent(path, n, c);
    if c == path[..n] {
      assert IsComponent(path, c, 0);
    }
    if HasComponent(path[n..], c) {
      var at: nat :| IsComponent(path[n..], c, at);
      ComponentLater(path, n, c, at);
    }
    if HasComponent(path, c) && c != path[..n] {
      var at: nat :| IsComponent(path, c, at);
      assert at > n by {
        assert path[at - 1] == SLASH && c[0] == path[at];
      }
      ComponentLater(path, n, c, at);
    }
  }

  /** Splitting at slashes yields exactly the components. */
  lemma {:induction false} ComponentsAreParts(path: Text, c: Text)
    ensures c in Components(path) <==> HasComponent(path, c)
    decreases |path|
  {
    if path != [] {
      if path[0] == SLASH {
        SlashIsSkipped(path, c);
        ComponentsAreParts(path[1..], c);
      } else {
        var n := ComponentLength(path);
        ComponentsSplit(path, n, c);
        ComponentsAreParts(path[n..], c);
      }
    }
  }

  /** A plain filter asks for a substring of the path, or for a whole component of it. */
  lemma {:induction false} PlainFilterMeaning(f: PathFilter, path: Text)
    requires f.glob.None?
    ensures FilterMatches(f, path)
            <==> if f.mode == Anywhere then Contains(path, f.finder.value) else HasComponent(path, f.finder.value)
  {
    NotContained(path, f.finder.value);
    ComponentsAreParts(path, f.finder.value);
  }

  /** A glob filter asks for the path, or for a component of it, to be accepted; in a path without `*` that
      is what it finds. */
  lemma {:induction false} GlobFilterMeaning(f: PathFilter, path: Text)
    requires f.glob.Some? && HasGlobSyntax(f.glob.value.pattern) && STAR !in path
    ensures FilterMatches(f, path)
            <==> if f.mode == Anywhere then Accepts(path, f.glob.value.pattern)
                 else exists c :: HasComponent(path, c) && Accepts(c, f.glob.value.pattern)
  {
    var p := f.glob.value.pattern;
    if f.mode == Anywhere {
      ScoreMeaning(path, p);
    } else {
      forall c | HasComponent(path, c) ensures c in Components(path) && (Score(c, p).Some? <==> Accepts(c, p)) {
        ComponentsAreParts(path, c);
        var at: nat :| IsComponent(path, c, at);
        assert forall i :: 0 <= i < |c| ==> c[i] == path[at + i];
        ScoreMeaning(c, p);
      }
      forall c | c in Components(path) ensures HasComponent(path, c) {
        ComponentsAreParts(path, c);
      }
    }
  }
}

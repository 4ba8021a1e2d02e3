/** Exclusion patterns (`src/scanner.rs`). */
module Excludes {
  import opened Common
  import Ranking

  type Parts = seq<Text>

  /** The components of a trimmed pattern. */
  function PartsOf(pattern: Text): Parts {
    Ranking.Components(pattern)
  }

  /** The parts are the components of the path from `at` on. */
  predicate WindowAt(path: Parts, parts: Parts, at: nat) {
    at + |parts| <= |path| && path[at..at + |parts|] == parts
  }

  /** The contract of the patterns: some nonempty pattern is a window of the path. */
  ghost predicate IsExcluded(patterns: seq<Text>, path: Parts) {
    exists k, at: nat :: 0 <= k < |patterns| && PartsOf(patterns[k]) != [] && WindowAt(path, PartsOf(patterns[k]), at)
  }

  /** The grouped form: first component to the suffixes that may follow it. */
  type Groups = map<Text, seq<Parts>>

  ghost predicate InGroups(groups: Groups, parts: Parts) {
    parts != [] && parts[0] in groups && parts[1..] in groups[parts[0]]
  }

  ghost predicate Grouped(patterns: seq<Text>, n: nat, groups: Groups)
    requires n <= |patterns|
  {
    forall parts :: InGroups(groups, parts) <==> parts != [] && exists k :: 0 <= k < n && PartsOf(patterns[k]) == parts
  }

  lemma {:induction false} WindowSplits(path: Parts, parts: Parts, at: nat)
    requires parts != []
    ensures WindowAt(path, parts, at) <==> at < |path| && path[at] == parts[0] && WindowAt(path, parts[1..], at + 1)
  {
    assert parts == [parts[0]] + parts[1..];
    if at + |parts| <= |path| {
      assert path[at..at + |parts|] == [path[at]] + path[at + 1..at + |parts|];
    }
  }

  class ExcludeMatcher {
    var groups: Groups
    ghost const patterns: seq<Text>

    ghost predicate Valid()
      reads this
    {
      Grouped(patterns, |patterns|, groups)
    }

    /** Empty patterns are dropped and equal suffixes kept once. */
    constructor (excludes: seq<Text>)
      ensures Valid() && patterns == excludes
    {
      patterns := excludes;
      groups := map[];
      new;
      for n := 0 to |excludes|
        invariant Grouped(excludes, n, groups) && patterns == excludes
      {
        var parts := PartsOf(excludes[n]);
        ghost var before := groups;
        if parts != [] {
          var first, suffix := parts[0], parts[1..];
          var choices := if first in groups then groups[first] else [];
          groups := groups[first := if suffix in choices then choices else choices + [suffix]];
        }
        GroupedNext(excludes, n, before, groups, parts);
      }
    }

    /** A path is excluded if and only if some nonempty pattern is a window of its components. */
    method Excluded(path: Parts) returns (excluded: bool)
      requires Valid()
      ensures excluded <==> IsExcluded(patterns, path)
    {
      for at := 0 to |path|
        invariant forall parts, i :: 0 <= i < at && InGroups(groups, parts) ==> !WindowAt(path, parts, i)
      {
        var first := path[at];
        if first in groups {
          var suffixes := groups[first];
          for j := 0 to |suffixes|
            invariant forall i :: 0 <= i < j ==> !WindowAt(path, suffixes[i], at + 1)
          {
            var tail := path[at + 1..];
            if |suffixes[j]| <= |tail| && tail[..|suffixes[j]|] == suffixes[j] {
              ExcludedHere(patterns, groups, path, at, suffixes[j]);
              return true;
            }
            assert tail[..Min(|suffixes[j]|, |tail|)] == path[at + 1..at + 1 + Min(|suffixes[j]|, |tail|)];
          }
        }
        forall parts | InGroups(groups, parts) ensures !WindowAt(path, parts, at) {
          WindowSplits(path, parts, at);
        }
      }
      NothingExcluded(patterns, groups, path);
      return false;
    }
  }

  lemma {:induction false} GroupedNext(patterns: seq<Text>, n: nat, before: Groups, after: Groups, parts: Parts)
    requires n < |patterns| && parts == PartsOf(patterns[n]) && Grouped(patterns, n, before)
    requires after == if parts == [] then before
                      else var choices := if parts[0] in before then before[parts[0]] else [];
                           before[parts[0] := if parts[1..] in choices then choices else choices + [parts[1..]]]
    ensures Grouped(patterns, n + 1, after)
  {
    forall other
      ensures InGroups(after, other) <==> other != [] && exists k :: 0 <= k < n + 1 && PartsOf(patterns[k]) == other
    {
      assert InGroups(after, other) <==> InGroups(before, other) || (other != [] && other == parts) by {
        if other != [] && parts != [] {
          assert other == [other[0]] + other[1..] && parts == [parts[0]] + parts[1..];
        }
      }
    }
  }

  lemma {:induction false} ExcludedHere(patterns: seq<Text>, groups: Groups, path: Parts, at: nat, suffix: Parts)
    requires Grouped(patterns, |patterns|, groups) && at < |path| && path[at] in groups && suffix in groups[path[at]]
    requires |suffix| <= |path| - at - 1 && path[at + 1..][..|suffix|] == suffix
    ensures IsExcluded(patterns, path)
  {
    var parts := [path[at]] + suffix;
    assert parts[1..] == suffix;
    assert InGroups(groups, parts);
    var k :| 0 <= k < |patterns| && PartsOf(patterns[k]) == parts;
    assert path[at + 1..at + 1 + |suffix|] == path[at + 1..][..|suffix|];
    WindowSplits(path, parts, at);
    assert PartsOf(patterns[k]) != [] && WindowAt(path, PartsOf(patterns[k]), at);
  }

  lemma {:induction false} NothingExcluded(patterns: seq<Text>, groups: Groups, path: Parts)
    requires Grouped(patterns, |patterns|, groups)
    requires forall parts, i :: 0 <= i < |path| && InGroups(groups, parts) ==> !WindowAt(path, parts, i)
    ensures !IsExcluded(patterns, path)
  {
    forall k, at: nat | 0 <= k < |patterns| && PartsOf(patterns[k]) != []
      ensures !WindowAt(path, PartsOf(patterns[k]), at)
    {
      assert InGroups(groups, PartsOf(patterns[k]));
    }
  }
}

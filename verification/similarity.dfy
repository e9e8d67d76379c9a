/**
 `find_similar_packages`: a case-insensitive wrapper around a close-match
 oracle. The oracle stands for `difflib.get_close_matches`, whose similarity
 score is not modelled; all the wrapper relies on is that the oracle returns
 at most `n` entries of the pool it was given.
 */
module Similarity {
  import opened Text

  /** `get_close_matches(word, possibilities, n, cutoff)`. */
  type Matcher = (string, seq<string>, nat, real) -> seq<string>

  /** The `n` the wrapper passes to the oracle. */
  const MaxMatches: nat := 5
  /** The cutoff both call sites in the scanner use. */
  const Cutoff: real := 0.8

  /** What the wrapper assumes of the oracle: at most `n` results, each taken
      from the pool; the query word itself contributes nothing. */
  ghost predicate ValidMatcher(closeMatches: Matcher) {
    forall word, pool, n, cutoff ::
      |closeMatches(word, pool, n, cutoff)| <= n &&
      forall k :: 0 <= k < |closeMatches(word, pool, n, cutoff)| ==> closeMatches(word, pool, n, cutoff)[k] in pool
  }

  /** `[pkg.lower() for pkg in package_list]` */
  function LowerAll(pool: seq<string>): (lowered: seq<string>)
    ensures |lowered| == |pool|
    ensures forall k :: 0 <= k < |pool| ==> lowered[k] == Lower(pool[k])
  {
    if pool == [] then [] else [Lower(pool[0])] + LowerAll(pool[1..])
  }

  /** `list.index(x)`: the position of the first occurrence of `x`. */
  function IndexOf(s: seq<string>, x: string): (k: nat)
    requires x in s
    ensures k < |s| && s[k] == x
    ensures forall j :: 0 <= j < k ==> s[j] != x
  {
    if s[0] == x then 0 else 1 + IndexOf(s[1..], x)
  }

  /** Position `k` holds the first entry of `pool` whose lower-case form is `key`. */
  predicate FirstWithLower(pool: seq<string>, key: string, k: int) {
    0 <= k < |pool| && Lower(pool[k]) == key &&
    forall j :: 0 <= j < k ==> Lower(pool[j]) != key
  }

  /** Maps each lower-case match back to the first pool entry that folds to it. */
  function MapBack(matches: seq<string>, pool: seq<string>, lowered: seq<string>): (r: seq<string>)
    requires |lowered| == |pool| && forall k :: 0 <= k < |pool| ==> lowered[k] == Lower(pool[k])
    requires forall i :: 0 <= i < |matches| ==> matches[i] in lowered
    ensures |r| == |matches|
    ensures forall i :: 0 <= i < |r| ==> exists k :: FirstWithLower(pool, matches[i], k) && r[i] == pool[k]
  {
    if matches == [] then []
    else
      var k := IndexOf(lowered, matches[0]);
      assert forall i :: 0 <= i < |matches[1..]| ==> matches[1..][i] == matches[i + 1];
      var rest := MapBack(matches[1..], pool, lowered);
      MapBackCons(matches, pool, lowered, k, rest);
      [pool[k]] + rest
  }

  /** The inductive step of `MapBack`: prepending the first match's entry. */
  lemma MapBackCons(matches: seq<string>, pool: seq<string>, lowered: seq<string>, k: int, rest: seq<string>)
    requires |lowered| == |pool| && forall j :: 0 <= j < |pool| ==> lowered[j] == Lower(pool[j])
    requires matches != [] && 0 <= k < |lowered| && lowered[k] == matches[0]
    requires forall j :: 0 <= j < k ==> lowered[j] != matches[0]
    requires |rest| == |matches| - 1
    requires forall i :: 0 <= i < |rest| ==> exists k' :: FirstWithLower(pool, matches[1..][i], k') && rest[i] == pool[k']
    ensures forall i :: 0 <= i < |rest| + 1 ==> exists k' :: FirstWithLower(pool, matches[i], k') && ([pool[k]] + rest)[i] == pool[k']
  {
    var r := [pool[k]] + rest;
    assert FirstWithLower(pool, matches[0], k);
    forall i | 1 <= i < |r|
      ensures exists k' :: FirstWithLower(pool, matches[i], k') && r[i] == pool[k']
    {
      assert matches[i] == matches[1..][i - 1] && r[i] == rest[i - 1];
    }
  }

  /** The oracle's answer for `name` against the lower-cased pool. */
  function CloseMatches(name: string, pool: seq<string>, cutoff: real, closeMatches: Matcher): seq<string> {
    closeMatches(Lower(name), LowerAll(pool), MaxMatches, cutoff)
  }

  /** `find_similar_packages(package_name, package_list, cutoff)`. */
  function FindSimilarPackages(name: string, pool: seq<string>, cutoff: real, closeMatches: Matcher): (r: seq<string>)
    requires ValidMatcher(closeMatches)
    ensures |r| <= MaxMatches
    ensures forall i :: 0 <= i < |r| ==> r[i] in pool
    ensures pool == [] ==> r == []
  {
    var lowered := LowerAll(pool);
    var matches := closeMatches(Lower(name), lowered, MaxMatches, cutoff);
    MapBack(matches, pool, lowered)
  }

  /** The wrapper answers one name per oracle match, in the oracle's order:
      the first pool entry whose lower-case form is that match. */
  lemma FindSimilarMapsBackToFirst(name: string, pool: seq<string>, cutoff: real, closeMatches: Matcher)
    requires ValidMatcher(closeMatches)
    ensures var r := FindSimilarPackages(name, pool, cutoff, closeMatches);
            var matches := CloseMatches(name, pool, cutoff, closeMatches);
            && |r| == |matches|
            && forall i :: 0 <= i < |r| ==> exists k :: FirstWithLower(pool, matches[i], k) && r[i] == pool[k]
  {
  }

  /** Over a pool already in lower case the wrapper returns the oracle's answer
      verbatim: mapping back to the original casing changes nothing. */
  lemma {:induction false} LowerCasePoolReturnedVerbatim(name: string, pool: seq<string>, cutoff: real, closeMatches: Matcher)
    requires ValidMatcher(closeMatches)
    requires forall k :: 0 <= k < |pool| ==> IsLowerCase(pool[k])
    ensures FindSimilarPackages(name, pool, cutoff, closeMatches) == closeMatches(Lower(name), pool, MaxMatches, cutoff)
  {
    forall k | 0 <= k < |pool|
      ensures Lower(pool[k]) == pool[k]
    {
      LowerIdempotent(pool[k]);
    }
    assert LowerAll(pool) == pool;
    var matches := closeMatches(Lower(name), pool, MaxMatches, cutoff);
    var r := FindSimilarPackages(name, pool, cutoff, closeMatches);
    FindSimilarMapsBackToFirst(name, pool, cutoff, closeMatches);
    forall i | 0 <= i < |r|
      ensures r[i] == matches[i]
    {
      var k :| FirstWithLower(pool, matches[i], k) && r[i] == pool[k];
    }
  }
}

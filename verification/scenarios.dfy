/**
 Four examples of the scanner's behaviour: a typo, a registry hit and a
 typosquat, each for a single package, and a whole run that ends with no
 risks. The oracle answers each example fixes are stated as requirements.
 Each example instantiates a lemma about an arbitrary name, so the verifier
 does not evaluate the string functions on the literal names.
 */
module Scenarios {
  import opened Text
  import opened Manifest
  import opened Similarity
  import opened Classifier
  import opened Summary

  /** With a one-name allowlist, a different lower-case name the oracle finds
      close to it is a typo of it; the registry is never asked. */
  lemma AllowlistNearMiss(env: Env, package: string, entry: string)
    requires env.Valid()
    requires env.allowlist == {entry} && env.allowlistOrder == [entry]
    requires IsLowerCase(package) && IsLowerCase(entry) && package != entry
    requires env.closeMatches(package, [entry], MaxMatches, Cutoff) == [entry]
    ensures Classify(package, env) == Verdict(TypoOf([entry]), [AllowlistMatcher])
    ensures Step(EmptyReport, package, env) == Report([(package, [entry])], [])
  {
    LowerIdempotent(package);
    LowerCasePoolReturnedVerbatim(package, [entry], Cutoff, env.closeMatches);
  }

  lemma TypoScenario(env: Env)
    requires env.Valid()
    requires env.allowlist == {"requests"} && env.allowlistOrder == ["requests"]
    requires env.closeMatches("reqeusts", ["requests"], MaxMatches, Cutoff) == ["requests"]
    ensures Classify("reqeusts", env) == Verdict(TypoOf(["requests"]), [AllowlistMatcher])
    ensures Step(EmptyReport, "reqeusts", env) == Report([("reqeusts", ["requests"])], [])
  {
    AllowlistNearMiss(env, "reqeusts", "requests");
  }

  /** With an empty allowlist, a name the registry knows is reported as itself. */
  lemma RegistryHit(env: Env, package: string)
    requires env.Valid()
    requires env.allowlist == {} && env.allowlistOrder == [] && env.onRegistry(package)
    ensures Classify(package, env) == Verdict(ExistsOnRegistry, [AllowlistMatcher, RegistryLookup])
    ensures Step(EmptyReport, package, env) == Report([], [package])
  {
  }

  lemma ConfusionScenario(env: Env)
    requires env.Valid()
    requires env.allowlist == {} && env.allowlistOrder == [] && env.onRegistry("internal-tool")
    ensures Classify("internal-tool", env) == Verdict(ExistsOnRegistry, [AllowlistMatcher, RegistryLookup])
    ensures Step(EmptyReport, "internal-tool", env) == Report([], ["internal-tool"])
  {
    RegistryHit(env, "internal-tool");
  }

  /** With an empty allowlist, a lower-case name missing from the registry is
      reported through the oracle's matches in a lower-case pool. */
  lemma RegistryNearMiss(env: Env, package: string, matches: seq<string>)
    requires env.Valid()
    requires env.allowlist == {} && env.allowlistOrder == [] && !env.onRegistry(package)
    requires IsLowerCase(package) && forall k :: 0 <= k < |env.pool| ==> IsLowerCase(env.pool[k])
    requires env.closeMatches(package, env.pool, MaxMatches, Cutoff) == matches != []
    ensures Classify(package, env).outcome == SimilarToRegistry(matches)
    ensures Step(EmptyReport, package, env) == Report([], matches)
  {
    LowerIdempotent(package);
    LowerCasePoolReturnedVerbatim(package, env.pool, Cutoff, env.closeMatches);
  }

  lemma TyposquatScenario(env: Env)
    requires env.Valid()
    requires env.allowlist == {} && env.allowlistOrder == [] && !env.onRegistry("my-intern-lib")
    requires env.pool == ["my-internal-lib"]
    requires env.closeMatches("my-intern-lib", ["my-internal-lib"], MaxMatches, Cutoff) == ["my-internal-lib"]
    ensures Classify("my-intern-lib", env).outcome == SimilarToRegistry(["my-internal-lib"])
    ensures Step(EmptyReport, "my-intern-lib", env) == Report([], ["my-internal-lib"])
  {
    RegistryNearMiss(env, "my-intern-lib", ["my-internal-lib"]);
  }

  /** A manifest of one plain name, with no allowlist, that is neither on the
      registry nor close to a registry name, leaves both summary sections empty. */
  lemma QuietRun(package: string, pool: seq<string>, onRegistry: string -> bool, closeMatches: Matcher)
    requires ValidMatcher(closeMatches)
    requires package != [] && !IsSpace(package[0]) && !IsSpace(package[|package| - 1])
    requires package[0] != CommentMarker && VersionPin[0] !in package
    requires IsLowerCase(package) && !onRegistry(package)
    requires closeMatches(package, LowerAll(pool), MaxMatches, Cutoff) == []
    ensures Audit([package], [], [], pool, onRegistry, closeMatches) == RunSummary(NoTypoSection, NoRisksDetected)
  {
    StripUnpadded(package);
    assert !Contains(package, VersionPin) by {
      forall i | 0 <= i <= |package|
        ensures !OccursAt(package, VersionPin, i)
      {
        if i + |VersionPin| <= |package| {
          assert package[i..i + |VersionPin|][0] == package[i];
        }
      }
    }
    assert LoadRequirements([package]) == [package] by {
      assert Names([package]) == [package] + Names([]);
    }
    LowerIdempotent(package);
    var env := Env({}, [], pool, onRegistry, closeMatches);
    assert Classify(package, env).outcome == NoRisk;
    assert Run([package], env) == RunFrom(Step(EmptyReport, package, env), [], env);
  }

  lemma NoRiskScenario(pool: seq<string>, onRegistry: string -> bool, closeMatches: Matcher)
    requires ValidMatcher(closeMatches)
    requires !onRegistry("safe-pkg")
    requires closeMatches("safe-pkg", LowerAll(pool), MaxMatches, Cutoff) == []
    ensures Audit(["safe-pkg"], [], [], pool, onRegistry, closeMatches) == RunSummary(NoTypoSection, NoRisksDetected)
  {
    var package := "safe-pkg";
    assert IsLowerCase(package) by {
      forall i | 0 <= i < |package| ensures !IsUpper(package[i]) { }
    }
    assert !IsSpace(package[0]) && !IsSpace(package[|package| - 1]);
    assert package[0] != CommentMarker && VersionPin[0] !in package;
    QuietRun(package, pool, onRegistry, closeMatches);
  }
}

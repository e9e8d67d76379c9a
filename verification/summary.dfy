/**
 The end of a run: the two summary sections `main` prints after the scan
 loop, and the whole run from the two files' lines to that summary.
 */
module Summary {
  import opened Text
  import opened Manifest
  import opened Similarity
  import opened Classifier

  /** The typo section appears only when some typo alert was raised. */
  datatype TypoSection = NoTypoSection | TypoSection(alerts: seq<TypoAlert>)

  /** Either the "no risks detected" message or the deduplicated risk names,
      whose printing order Python leaves unspecified. */
  datatype RiskSection = NoRisksDetected | RisksDetected(names: set<string>)

  datatype RunSummary = RunSummary(typos: TypoSection, risks: RiskSection)

  /** `set(xs)` */
  function Elements(xs: seq<string>): set<string> {
    set x | x in xs
  }

  predicate Distinct(xs: seq<string>) {
    forall i, j :: 0 <= i < j < |xs| ==> xs[i] != xs[j]
  }

  /** Deduplicating never adds names, and keeps them all exactly when no
      name occurs twice. */
  lemma {:induction false} ElementsCardinality(xs: seq<string>)
    ensures |Elements(xs)| <= |xs|
    ensures |Elements(xs)| == |xs| <==> Distinct(xs)
    decreases |xs|
  {
    if xs != [] {
      var rest := xs[1..];
      ElementsCardinality(rest);
      assert Elements(xs) == {xs[0]} + Elements(rest);
      if xs[0] in rest {
        assert Elements(xs) == Elements(rest);
        var j :| 0 <= j < |rest| && rest[j] == xs[0];
        assert xs[0] == xs[j + 1];
        assert !Distinct(xs);
      } else {
        assert |Elements(xs)| == |Elements(rest)| + 1;
        if Distinct(rest) {
          forall i, j | 0 <= i < j < |xs|
            ensures xs[i] != xs[j]
          {
            if i == 0 {
              assert xs[j] == rest[j - 1];
            } else {
              assert xs[i] == rest[i - 1] && xs[j] == rest[j - 1];
            }
          }
        } else {
          var i, j :| 0 <= i < j < |rest| && rest[i] == rest[j];
          assert xs[i + 1] == xs[j + 1];
        }
      }
    }
  }

  /** The two summary sections `main` prints after the loop. */
  function Summarize(report: Report): (summary: RunSummary)
    ensures summary.typos.TypoSection? <==> report.typoAlerts != []
    ensures summary.typos.TypoSection? ==> summary.typos.alerts == report.typoAlerts
    ensures summary.risks.NoRisksDetected? <==> report.potentialRisks == []
    ensures summary.risks.RisksDetected? ==>
              && (forall x :: x in summary.risks.names <==> x in report.potentialRisks)
              && 0 < |summary.risks.names| <= |report.potentialRisks|
              && (|summary.risks.names| == |report.potentialRisks| <==> Distinct(report.potentialRisks))
  {
    var typos := if report.typoAlerts == [] then NoTypoSection else TypoSection(report.typoAlerts);
    if report.potentialRisks == [] then
      RunSummary(typos, NoRisksDetected)
    else
      ElementsCardinality(report.potentialRisks);
      assert report.potentialRisks[0] in Elements(report.potentialRisks);
      RunSummary(typos, RisksDetected(Elements(report.potentialRisks)))
  }

  /** Every name in the summary of a whole run is a declared package or a
      registry name, and none is allowlisted; every typo alert names a
      declared, non-allowlisted package with 1-5 allowlist suggestions. */
  lemma SummaryWellFormed(packages: seq<string>, env: Env)
    requires env.Valid()
    ensures var summary := Summarize(Run(packages, env));
            summary.risks.RisksDetected? ==>
              forall x :: x in summary.risks.names ==>
                Lower(x) !in env.allowlist && (x in packages || x in env.pool)
    ensures var summary := Summarize(Run(packages, env));
            summary.typos.TypoSection? ==>
              forall a :: a in summary.typos.alerts ==>
                && a.0 in packages
                && Lower(a.0) !in env.allowlist
                && 0 < |a.1| <= MaxMatches
                && forall i :: 0 <= i < |a.1| ==> a.1[i] in env.allowlist
  {
    RunWellFormed(packages, env);
  }

  /** The summary of a whole run lists exactly what the packages' outcomes
      contribute to `typo_alerts` and `potential_risks`. */
  lemma SummaryExact(packages: seq<string>, env: Env)
    requires env.Valid()
    ensures var summary := Summarize(Run(packages, env));
            summary.risks.RisksDetected? ==>
              forall x :: x in summary.risks.names ==>
                exists p :: p in packages && x in RisksOf(p, Classify(p, env).outcome)
    ensures var summary := Summarize(Run(packages, env));
            summary.typos.TypoSection? ==>
              forall a :: a in summary.typos.alerts ==> a.0 in packages && Classify(a.0, env).outcome == TypoOf(a.1)
  {
    RunOnlyContributions(packages, env);
  }

  /** The summary of a whole run shows every package's typo outcome and every
      risk it contributes, and each section is empty exactly when no package
      contributes to it. */
  lemma SummaryComplete(packages: seq<string>, env: Env)
    requires env.Valid()
    ensures var summary := Summarize(Run(packages, env));
            forall p :: p in packages ==>
              var o := Classify(p, env).outcome;
              && (o.TypoOf? ==> summary.typos.TypoSection? && (p, o.suggestions) in summary.typos.alerts)
              && (o.ExistsOnRegistry? ==> summary.risks.RisksDetected? && p in summary.risks.names)
              && (o.SimilarToRegistry? ==>
                    && summary.risks.RisksDetected?
                    && forall k :: 0 <= k < |o.suggestions| ==> o.suggestions[k] in summary.risks.names)
    ensures Summarize(Run(packages, env)).typos.NoTypoSection? <==>
              forall p :: p in packages ==> !Classify(p, env).outcome.TypoOf?
    ensures Summarize(Run(packages, env)).risks.NoRisksDetected? <==>
              forall p :: p in packages ==>
                !Classify(p, env).outcome.ExistsOnRegistry? && !Classify(p, env).outcome.SimilarToRegistry?
  {
    RunComplete(packages, env);
  }

  /** The run's environment: the loaded allowlist plus the inputs `main`
      takes from the registry, the oracle and the set's iteration order. */
  function Setting(allowlistLines: seq<string>, allowlistOrder: seq<string>,
                   pool: seq<string>, onRegistry: string -> bool, closeMatches: Matcher): (env: Env)
    requires ValidMatcher(closeMatches)
    requires forall x :: x in allowlistOrder <==> x in LoadAllowlist(allowlistLines)
    ensures env.Valid()
    ensures env.allowlist == LoadAllowlist(allowlistLines) && env.pool == pool
  {
    Env(LoadAllowlist(allowlistLines), allowlistOrder, pool, onRegistry, closeMatches)
  }

  /** A whole run of `main`: read both files, scan every declared package,
      summarise. The registry listing, the registry lookup, the close-match
      oracle and the iteration order of the allowlist set are inputs. The
      summary shows exactly what the declared packages' outcomes contribute:
      every contribution appears, and nothing else does. */
  function Audit(requirementLines: seq<string>, allowlistLines: seq<string>, allowlistOrder: seq<string>,
                 pool: seq<string>, onRegistry: string -> bool, closeMatches: Matcher): (summary: RunSummary)
    requires ValidMatcher(closeMatches)
    requires forall x :: x in allowlistOrder <==> x in LoadAllowlist(allowlistLines)
    ensures var packages := LoadRequirements(requirementLines);
            var env := Setting(allowlistLines, allowlistOrder, pool, onRegistry, closeMatches);
            // every risk name is a non-allowlisted contribution of a declared package
            && (summary.risks.RisksDetected? ==>
                  forall x :: x in summary.risks.names ==>
                    && Lower(x) !in env.allowlist
                    && (x in packages || x in pool)
                    && exists p :: p in packages && x in RisksOf(p, Classify(p, env).outcome))
            // every typo alert is a declared package's typo outcome
            && (summary.typos.TypoSection? ==>
                  forall a :: a in summary.typos.alerts ==>
                    && a.0 in packages
                    && Lower(a.0) !in env.allowlist
                    && 0 < |a.1| <= MaxMatches
                    && (forall i :: 0 <= i < |a.1| ==> a.1[i] in env.allowlist)
                    && Classify(a.0, env).outcome == TypoOf(a.1))
            // every declared package's contribution appears
            && (forall p :: p in packages ==>
                  var o := Classify(p, env).outcome;
                  && (o.TypoOf? ==> summary.typos.TypoSection? && (p, o.suggestions) in summary.typos.alerts)
                  && (o.ExistsOnRegistry? ==> summary.risks.RisksDetected? && p in summary.risks.names)
                  && (o.SimilarToRegistry? ==>
                        && summary.risks.RisksDetected?
                        && forall k :: 0 <= k < |o.suggestions| ==> o.suggestions[k] in summary.risks.names))
            // a section is empty exactly when no declared package contributes to it
            && (summary.typos.NoTypoSection? <==> forall p :: p in packages ==> !Classify(p, env).outcome.TypoOf?)
            && (summary.risks.NoRisksDetected? <==>
                  forall p :: p in packages ==>
                    !Classify(p, env).outcome.ExistsOnRegistry? && !Classify(p, env).outcome.SimilarToRegistry?)
  {
    var packages := LoadRequirements(requirementLines);
    var env := Setting(allowlistLines, allowlistOrder, pool, onRegistry, closeMatches);
    SummaryWellFormed(packages, env);
    SummaryExact(packages, env);
    SummaryComplete(packages, env);
    Summarize(Run(packages, env))
  }
}

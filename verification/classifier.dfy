/**
 The per-package decision procedure of the scan loop and the fold of its
 verdicts into the two run-wide accumulators `typo_alerts` and
 `potential_risks`. The registry lookup and the close-match oracle are
 parameters; the registry's name pool is fetched once and passed in.
 */
module Classifier {
  import opened Text
  import opened Similarity

  /** What the scan loop has to work with for every package. */
  datatype Env = Env(
    allowlist: set<string>,
    // `list(allowlist)`: Python leaves the order of a set unspecified, so it is an input
    allowlistOrder: seq<string>,
    // the registry's full name listing, fetched once per run
    pool: seq<string>,
    // the registry existence check; a failed request already reads as `false`
    onRegistry: string -> bool,
    closeMatches: Matcher)
  {
    ghost predicate Valid() {
      && ValidMatcher(closeMatches)
      && (forall x :: x in allowlistOrder <==> x in allowlist)
    }
  }

  /** The one outcome each declared package receives. */
  datatype Outcome =
    | Allowed
    | TypoOf(suggestions: seq<string>)
    | ExistsOnRegistry
    | SimilarToRegistry(suggestions: seq<string>)
    | NoRisk

  /** The collaborators the decision procedure can consult, in the order it does. */
  datatype Collaborator = AllowlistMatcher | RegistryLookup | PoolMatcher

  datatype Verdict = Verdict(outcome: Outcome, consulted: seq<Collaborator>)

  predicate IsAllowlisted(package: string, env: Env) {
    Lower(package) in env.allowlist
  }

  /** The close matches of `package` among the allowlist entries. */
  function Typos(package: string, env: Env): (typos: seq<string>)
    requires env.Valid()
    ensures |typos| <= MaxMatches
    ensures forall i :: 0 <= i < |typos| ==> typos[i] in env.allowlist
  {
    FindSimilarPackages(package, env.allowlistOrder, Cutoff, env.closeMatches)
  }

  /** `[pkg for pkg in xs if pkg.lower() not in allowlist]` */
  function Unallowed(xs: seq<string>, allowlist: set<string>): (r: seq<string>)
    ensures |r| <= |xs|
    ensures forall i :: 0 <= i < |r| ==> r[i] in xs && Lower(r[i]) !in allowlist
    ensures forall i :: 0 <= i < |xs| && Lower(xs[i]) !in allowlist ==> xs[i] in r
    ensures (forall i :: 0 <= i < |xs| ==> Lower(xs[i]) !in allowlist) ==> r == xs
  {
    if xs == [] then []
    else
      var rest := Unallowed(xs[1..], allowlist);
      UnallowedCons(xs, allowlist, rest);
      if Lower(xs[0]) in allowlist then rest else [xs[0]] + rest
  }

  /** The inductive step of `Unallowed`: what holds of the filtered tail
      holds of the filtered list once its head is kept or dropped. */
  lemma UnallowedCons(xs: seq<string>, allowlist: set<string>, rest: seq<string>)
    requires xs != [] && |rest| <= |xs| - 1
    requires forall i :: 0 <= i < |rest| ==> rest[i] in xs[1..] && Lower(rest[i]) !in allowlist
    requires forall i :: 1 <= i < |xs| && Lower(xs[i]) !in allowlist ==> xs[i] in rest
    requires (forall i :: 1 <= i < |xs| ==> Lower(xs[i]) !in allowlist) ==> rest == xs[1..]
    ensures var r := if Lower(xs[0]) in allowlist then rest else [xs[0]] + rest;
            && |r| <= |xs|
            && (forall i :: 0 <= i < |r| ==> r[i] in xs && Lower(r[i]) !in allowlist)
            && (forall i :: 0 <= i < |xs| && Lower(xs[i]) !in allowlist ==> xs[i] in r)
            && ((forall i :: 0 <= i < |xs| ==> Lower(xs[i]) !in allowlist) ==> r == xs)
  {
    assert xs == [xs[0]] + xs[1..];
  }

  /** The filter decides name by name: it keeps a single name exactly when
      that name is not allowlisted. */
  lemma UnallowedSingle(x: string, allowlist: set<string>)
    ensures Unallowed([x], allowlist) == if Lower(x) in allowlist then [] else [x]
  {
    assert [x][1..] == [];
  }

  /** Filtering a concatenation filters each part and concatenates the results,
      so the kept names stay in input order, repeats included. */
  lemma {:induction false} UnallowedAppend(xs: seq<string>, ys: seq<string>, allowlist: set<string>)
    ensures Unallowed(xs + ys, allowlist) == Unallowed(xs, allowlist) + Unallowed(ys, allowlist)
    decreases |xs|
  {
    if xs == [] {
      assert [] + ys == ys;
    } else {
      assert (xs + ys)[0] == xs[0];
      assert (xs + ys)[1..] == xs[1..] + ys;
      UnallowedAppend(xs[1..], ys, allowlist);
      var head := if Lower(xs[0]) in allowlist then [] else [xs[0]];
      assert head + (Unallowed(xs[1..], allowlist) + Unallowed(ys, allowlist))
          == (head + Unallowed(xs[1..], allowlist)) + Unallowed(ys, allowlist);
    }
  }

  /** The registry names close to `package`, with allowlisted names dropped. */
  function RegistryNeighbours(package: string, env: Env): (similar: seq<string>)
    requires env.Valid()
    ensures |similar| <= MaxMatches
    ensures forall i :: 0 <= i < |similar| ==> similar[i] in env.pool && Lower(similar[i]) !in env.allowlist
  {
    var found := FindSimilarPackages(package, env.pool, Cutoff, env.closeMatches);
    Unallowed(found, env.allowlist)
  }

  /** The decision procedure for one package: the first step that applies wins. */
  function Classify(package: string, env: Env): (v: Verdict)
    requires env.Valid()
    ensures v.outcome.Allowed? <==> IsAllowlisted(package, env)
    ensures v.consulted == [] <==> IsAllowlisted(package, env)
    ensures RegistryLookup in v.consulted <==> !IsAllowlisted(package, env) && Typos(package, env) == []
    ensures PoolMatcher in v.consulted <==> RegistryLookup in v.consulted && !env.onRegistry(package)
    ensures v.outcome.TypoOf? <==> !IsAllowlisted(package, env) && RegistryLookup !in v.consulted
    ensures v.outcome.ExistsOnRegistry? <==> RegistryLookup in v.consulted && PoolMatcher !in v.consulted
    ensures v.outcome.NoRisk? ==> PoolMatcher in v.consulted
    ensures v.outcome.TypoOf? ==>
              && 0 < |v.outcome.suggestions| <= MaxMatches
              && forall i :: 0 <= i < |v.outcome.suggestions| ==> v.outcome.suggestions[i] in env.allowlist
    ensures v.outcome.SimilarToRegistry? ==>
              && 0 < |v.outcome.suggestions| <= MaxMatches
              && forall i :: 0 <= i < |v.outcome.suggestions| ==>
                   v.outcome.suggestions[i] in env.pool && Lower(v.outcome.suggestions[i]) !in env.allowlist
  {
    if IsAllowlisted(package, env) then
      Verdict(Allowed, [])
    else
      var typos := Typos(package, env);
      if typos != [] then
        Verdict(TypoOf(typos), [AllowlistMatcher])
      else if env.onRegistry(package) then
        Verdict(ExistsOnRegistry, [AllowlistMatcher, RegistryLookup])
      else
        var similar := RegistryNeighbours(package, env);
        if similar != [] then
          Verdict(SimilarToRegistry(similar), [AllowlistMatcher, RegistryLookup, PoolMatcher])
        else
          Verdict(NoRisk, [AllowlistMatcher, RegistryLookup, PoolMatcher])
  }

  /** Two spellings of a name that differ only in case are classified alike,
      as long as the registry answers alike for both. */
  lemma ClassifyIgnoresCase(p: string, q: string, env: Env)
    requires env.Valid()
    requires Lower(p) == Lower(q) && env.onRegistry(p) == env.onRegistry(q)
    ensures Classify(p, env) == Classify(q, env)
  {
  }

  /** With an allowlist in lower case, as the allowlist reader produces it,
      every allowlist entry the oracle reports close to a non-allowlisted
      package is among that package's typo suggestions. */
  lemma TypoOfEveryCloseAllowlistEntry(package: string, env: Env, entry: string)
    requires env.Valid()
    requires forall x :: x in env.allowlist ==> IsLowerCase(x)
    requires !IsAllowlisted(package, env)
    requires entry in env.closeMatches(Lower(package), env.allowlistOrder, MaxMatches, Cutoff)
    ensures Classify(package, env).outcome.TypoOf?
    ensures entry in Classify(package, env).outcome.suggestions
  {
    LowerCasePoolReturnedVerbatim(package, env.allowlistOrder, Cutoff, env.closeMatches);
  }

  /** One entry of `typo_alerts`: the package and the allowlist names it may misspell. */
  type TypoAlert = (string, seq<string>)

  datatype Report = Report(typoAlerts: seq<TypoAlert>, potentialRisks: seq<string>)

  const EmptyReport: Report := Report([], [])

  /** What an outcome appends to `typo_alerts`. */
  function AlertsOf(package: string, outcome: Outcome): seq<TypoAlert> {
    if outcome.TypoOf? then [(package, outcome.suggestions)] else []
  }

  /** What an outcome appends to `potential_risks`. */
  function RisksOf(package: string, outcome: Outcome): seq<string> {
    match outcome
    case ExistsOnRegistry => [package]
    case SimilarToRegistry(suggestions) => suggestions
    case _ => []
  }

  /** Folding one package's outcome into the accumulators. */
  function Apply(acc: Report, package: string, outcome: Outcome): Report {
    Report(acc.typoAlerts + AlertsOf(package, outcome), acc.potentialRisks + RisksOf(package, outcome))
  }

  /** One iteration of the scan loop. */
  function Step(acc: Report, package: string, env: Env): (next: Report)
    requires env.Valid()
    ensures IsAllowlisted(package, env) ==> next == acc
    ensures !IsAllowlisted(package, env) && Typos(package, env) != [] ==>
              next == Report(acc.typoAlerts + [(package, Typos(package, env))], acc.potentialRisks)
    ensures !IsAllowlisted(package, env) && Typos(package, env) == [] && env.onRegistry(package) ==>
              next == Report(acc.typoAlerts, acc.potentialRisks + [package])
    ensures !IsAllowlisted(package, env) && Typos(package, env) == [] && !env.onRegistry(package) ==>
              next == Report(acc.typoAlerts, acc.potentialRisks + RegistryNeighbours(package, env))
    ensures next.typoAlerts == acc.typoAlerts || next.potentialRisks == acc.potentialRisks
  {
    Apply(acc, package, Classify(package, env).outcome)
  }

  /** The scan loop of `main` from accumulator `acc` over `packages`, in order. */
  function RunFrom(acc: Report, packages: seq<string>, env: Env): Report
    requires env.Valid()
    decreases |packages|
  {
    if packages == [] then acc else RunFrom(Step(acc, packages[0], env), packages[1..], env)
  }

  /** The whole scan loop, starting from two empty accumulators. */
  function Run(packages: seq<string>, env: Env): Report
    requires env.Valid()
  {
    RunFrom(EmptyReport, packages, env)
  }

  /** The properties of an outcome that the decision procedure guarantees. */
  predicate Sound(package: string, outcome: Outcome, env: Env) {
    && (outcome.Allowed? <==> Lower(package) in env.allowlist)
    && (outcome.TypoOf? ==>
          && 0 < |outcome.suggestions| <= MaxMatches
          && forall i :: 0 <= i < |outcome.suggestions| ==> outcome.suggestions[i] in env.allowlist)
    && (outcome.SimilarToRegistry? ==>
          && 0 < |outcome.suggestions| <= MaxMatches
          && forall i :: 0 <= i < |outcome.suggestions| ==>
               outcome.suggestions[i] in env.pool && Lower(outcome.suggestions[i]) !in env.allowlist)
  }

  /** Every package's outcome, in manifest order. */
  function Outcomes(packages: seq<string>, env: Env): (outcomes: seq<Outcome>)
    requires env.Valid()
    ensures |outcomes| == |packages|
  {
    if packages == [] then [] else [Classify(packages[0], env).outcome] + Outcomes(packages[1..], env)
  }

  /** Each outcome is the classification of the package at the same position. */
  lemma {:induction false} OutcomesAt(packages: seq<string>, env: Env, i: int)
    requires env.Valid() && 0 <= i < |packages|
    ensures Outcomes(packages, env)[i] == Classify(packages[i], env).outcome
    ensures Sound(packages[i], Outcomes(packages, env)[i], env)
    decreases i
  {
    var head := [Classify(packages[0], env).outcome];
    assert Outcomes(packages, env) == head + Outcomes(packages[1..], env);
    if i > 0 {
      OutcomesAt(packages[1..], env, i - 1);
      assert packages[1..][i - 1] == packages[i];
    }
  }

  lemma OutcomesSound(packages: seq<string>, env: Env)
    requires env.Valid()
    ensures forall i :: 0 <= i < |packages| ==> Sound(packages[i], Outcomes(packages, env)[i], env)
  {
    forall i | 0 <= i < |packages|
      ensures Sound(packages[i], Outcomes(packages, env)[i], env)
    {
      OutcomesAt(packages, env, i);
    }
  }

  lemma OutcomesCons(p: string, rest: seq<string>, env: Env)
    requires env.Valid()
    ensures Outcomes([p] + rest, env) == [Classify(p, env).outcome] + Outcomes(rest, env)
  {
    assert ([p] + rest)[0] == p;
    assert ([p] + rest)[1..] == rest;
  }

  /** Outcomes are computed package by package. */
  lemma {:induction false} OutcomesSplit(a: seq<string>, b: seq<string>, env: Env)
    requires env.Valid()
    ensures Outcomes(a + b, env) == Outcomes(a, env) + Outcomes(b, env)
    decreases |a|
  {
    if a == [] {
      assert [] + b == b;
    } else {
      var head := [Classify(a[0], env).outcome];
      assert a == [a[0]] + a[1..];
      assert a + b == [a[0]] + (a[1..] + b);
      OutcomesCons(a[0], a[1..] + b, env);
      OutcomesCons(a[0], a[1..], env);
      OutcomesSplit(a[1..], b, env);
      assert head + (Outcomes(a[1..], env) + Outcomes(b, env))
          == (head + Outcomes(a[1..], env)) + Outcomes(b, env);
    }
  }

  /** The fold of given outcomes into the accumulators. */
  function Tally(acc: Report, packages: seq<string>, outcomes: seq<Outcome>): Report
    requires |outcomes| == |packages|
    decreases |packages|
  {
    if packages == [] then acc else Tally(Apply(acc, packages[0], outcomes[0]), packages[1..], outcomes[1..])
  }

  /** The scan loop is the fold of the packages' outcomes: classifying a
      package never depends on what earlier packages contributed. */
  lemma {:induction false} RunFromIsTally(acc: Report, packages: seq<string>, env: Env)
    requires env.Valid()
    ensures RunFrom(acc, packages, env) == Tally(acc, packages, Outcomes(packages, env))
    decreases |packages|
  {
    if packages != [] {
      var outcomes := Outcomes(packages, env);
      var next := Apply(acc, packages[0], outcomes[0]);
      assert Step(acc, packages[0], env) == next;
      assert outcomes[1..] == Outcomes(packages[1..], env);
      RunFromIsTally(next, packages[1..], env);
    }
  }

  /** A typo alert as the scan produces it: a declared, non-allowlisted
      package and between one and five allowlist names. */
  predicate WellFormedAlert(alert: TypoAlert, packages: seq<string>, env: Env) {
    && alert.0 in packages
    && Lower(alert.0) !in env.allowlist
    && 0 < |alert.1| <= MaxMatches
    && forall i :: 0 <= i < |alert.1| ==> alert.1[i] in env.allowlist
  }

  /** A reported risk: never allowlisted, and either a declared package or a registry name. */
  predicate WellFormedRisk(risk: string, packages: seq<string>, env: Env) {
    && Lower(risk) !in env.allowlist
    && (risk in packages || risk in env.pool)
  }

  /** Every package's contribution to `typo_alerts`, in manifest order. */
  function AllAlerts(packages: seq<string>, outcomes: seq<Outcome>): seq<TypoAlert>
    requires |outcomes| == |packages|
    decreases |packages|
  {
    if packages == [] then [] else AlertsOf(packages[0], outcomes[0]) + AllAlerts(packages[1..], outcomes[1..])
  }

  /** Every package's contribution to `potential_risks`, in manifest order. */
  function AllRisks(packages: seq<string>, outcomes: seq<Outcome>): seq<string>
    requires |outcomes| == |packages|
    decreases |packages|
  {
    if packages == [] then [] else RisksOf(packages[0], outcomes[0]) + AllRisks(packages[1..], outcomes[1..])
  }

  /** The accumulators end up as the per-package contributions concatenated
      in manifest order, after what they held before. */
  lemma {:induction false} TallyAppends(acc: Report, packages: seq<string>, outcomes: seq<Outcome>)
    requires |outcomes| == |packages|
    ensures Tally(acc, packages, outcomes)
         == Report(acc.typoAlerts + AllAlerts(packages, outcomes), acc.potentialRisks + AllRisks(packages, outcomes))
    decreases |packages|
  {
    if packages == [] {
      assert acc.typoAlerts + [] == acc.typoAlerts;
      assert acc.potentialRisks + [] == acc.potentialRisks;
    } else {
      var alerts, risks := AlertsOf(packages[0], outcomes[0]), RisksOf(packages[0], outcomes[0]);
      var next := Report(acc.typoAlerts + alerts, acc.potentialRisks + risks);
      assert Tally(acc, packages, outcomes) == Tally(next, packages[1..], outcomes[1..]);
      TallyAppends(next, packages[1..], outcomes[1..]);
      assert (acc.typoAlerts + alerts) + AllAlerts(packages[1..], outcomes[1..])
          == acc.typoAlerts + (alerts + AllAlerts(packages[1..], outcomes[1..]));
      assert (acc.potentialRisks + risks) + AllRisks(packages[1..], outcomes[1..])
          == acc.potentialRisks + (risks + AllRisks(packages[1..], outcomes[1..]));
    }
  }

  /** The scan loop appends each package's contribution, in manifest order,
      after what the accumulators held before. */
  lemma RunFromAppends(acc: Report, packages: seq<string>, env: Env)
    requires env.Valid()
    ensures RunFrom(acc, packages, env)
         == Report(acc.typoAlerts + AllAlerts(packages, Outcomes(packages, env)),
                   acc.potentialRisks + AllRisks(packages, Outcomes(packages, env)))
  {
    RunFromIsTally(acc, packages, env);
    TallyAppends(acc, packages, Outcomes(packages, env));
  }

  /** Sound outcomes contribute at most one alert and five risks per package,
      and every contributed entry is well formed. */
  lemma {:induction false} ContributionsWellFormed(packages: seq<string>, outcomes: seq<Outcome>, env: Env)
    requires |outcomes| == |packages|
    requires forall i :: 0 <= i < |packages| ==> Sound(packages[i], outcomes[i], env)
    ensures |AllAlerts(packages, outcomes)| <= |packages|
    ensures |AllRisks(packages, outcomes)| <= MaxMatches * |packages|
    ensures forall a :: a in AllAlerts(packages, outcomes) ==> WellFormedAlert(a, packages, env)
    ensures forall x :: x in AllRisks(packages, outcomes) ==> WellFormedRisk(x, packages, env)
    decreases |packages|
  {
    if packages != [] {
      var p, o := packages[0], outcomes[0];
      var rest, others := packages[1..], outcomes[1..];
      assert Sound(p, o, env);
      forall i | 0 <= i < |rest|
        ensures Sound(rest[i], others[i], env)
      {
        assert rest[i] == packages[i + 1] && others[i] == outcomes[i + 1];
      }
      ContributionsWellFormed(rest, others, env);
      forall a | a in AllAlerts(packages, outcomes)
        ensures WellFormedAlert(a, packages, env)
      {
        if a !in AlertsOf(p, o) {
          assert WellFormedAlert(a, rest, env);
          assert a.0 in rest;
        }
      }
      forall x | x in AllRisks(packages, outcomes)
        ensures WellFormedRisk(x, packages, env)
      {
        if x !in RisksOf(p, o) {
          assert WellFormedRisk(x, rest, env);
        }
      }
    }
  }

  /** Nothing a package contributes is lost: its alerts and risks all occur in
      the concatenated contributions. */
  lemma {:induction false} ContributionIncluded(packages: seq<string>, outcomes: seq<Outcome>, i: int)
    requires |outcomes| == |packages| && 0 <= i < |packages|
    ensures forall a :: a in AlertsOf(packages[i], outcomes[i]) ==> a in AllAlerts(packages, outcomes)
    ensures forall x :: x in RisksOf(packages[i], outcomes[i]) ==> x in AllRisks(packages, outcomes)
    decreases i
  {
    if i > 0 {
      ContributionIncluded(packages[1..], outcomes[1..], i - 1);
      assert packages[1..][i - 1] == packages[i] && outcomes[1..][i - 1] == outcomes[i];
    }
  }

  /** Every entry of the concatenated contributions comes from some package. */
  lemma {:induction false} ContributionSource(packages: seq<string>, outcomes: seq<Outcome>)
    requires |outcomes| == |packages|
    ensures forall a :: a in AllAlerts(packages, outcomes) ==>
              exists i :: 0 <= i < |packages| && a in AlertsOf(packages[i], outcomes[i])
    ensures forall x :: x in AllRisks(packages, outcomes) ==>
              exists i :: 0 <= i < |packages| && x in RisksOf(packages[i], outcomes[i])
    decreases |packages|
  {
    if packages != [] {
      var ps, os := packages[1..], outcomes[1..];
      ContributionSource(ps, os);
      assert AllAlerts(packages, outcomes) == AlertsOf(packages[0], outcomes[0]) + AllAlerts(ps, os);
      assert AllRisks(packages, outcomes) == RisksOf(packages[0], outcomes[0]) + AllRisks(ps, os);
      forall i | 0 <= i < |ps|
        ensures ps[i] == packages[i + 1] && os[i] == outcomes[i + 1]
      {
      }
      forall a | a in AllAlerts(packages, outcomes)
        ensures exists i :: 0 <= i < |packages| && a in AlertsOf(packages[i], outcomes[i])
      {
        if a !in AlertsOf(packages[0], outcomes[0]) {
          assert a in AllAlerts(ps, os);
          var i :| 0 <= i < |ps| && a in AlertsOf(ps[i], os[i]);
          assert a in AlertsOf(packages[i + 1], outcomes[i + 1]);
        }
      }
      forall x | x in AllRisks(packages, outcomes)
        ensures exists i :: 0 <= i < |packages| && x in RisksOf(packages[i], outcomes[i])
      {
        if x !in RisksOf(packages[0], outcomes[0]) {
          assert x in AllRisks(ps, os);
          var i :| 0 <= i < |ps| && x in RisksOf(ps[i], os[i]);
          assert x in RisksOf(packages[i + 1], outcomes[i + 1]);
        }
      }
    }
  }

  /** The concatenated contributions are empty exactly when every package contributes nothing. */
  lemma {:induction false} ContributionsEmpty(packages: seq<string>, outcomes: seq<Outcome>)
    requires |outcomes| == |packages|
    ensures AllAlerts(packages, outcomes) == [] <==>
              forall i :: 0 <= i < |packages| ==> AlertsOf(packages[i], outcomes[i]) == []
    ensures AllRisks(packages, outcomes) == [] <==>
              forall i :: 0 <= i < |packages| ==> RisksOf(packages[i], outcomes[i]) == []
    decreases |packages|
  {
    if packages != [] {
      ContributionsEmpty(packages[1..], outcomes[1..]);
      forall i | 1 <= i < |packages|
        ensures packages[i] == packages[1..][i - 1] && outcomes[i] == outcomes[1..][i - 1]
      {
      }
    }
  }

  /** What one declared package contributes is in the final accumulators. */
  lemma PackageReported(packages: seq<string>, env: Env, i: int)
    requires env.Valid() && 0 <= i < |packages|
    ensures var o := Classify(packages[i], env).outcome;
            var r := Run(packages, env);
            && (forall a :: a in AlertsOf(packages[i], o) ==> a in r.typoAlerts)
            && (forall x :: x in RisksOf(packages[i], o) ==> x in r.potentialRisks)
  {
    RunFromAppends(EmptyReport, packages, env);
    OutcomesAt(packages, env, i);
    ContributionIncluded(packages, Outcomes(packages, env), i);
  }

  /** An accumulator ends empty exactly when no package contributes to it. */
  lemma RunEmpty(packages: seq<string>, env: Env)
    requires env.Valid()
    ensures Run(packages, env).typoAlerts == [] <==>
              forall i :: 0 <= i < |packages| ==> AlertsOf(packages[i], Classify(packages[i], env).outcome) == []
    ensures Run(packages, env).potentialRisks == [] <==>
              forall i :: 0 <= i < |packages| ==> RisksOf(packages[i], Classify(packages[i], env).outcome) == []
  {
    var outcomes := Outcomes(packages, env);
    RunFromAppends(EmptyReport, packages, env);
    ContributionsEmpty(packages, outcomes);
    forall i | 0 <= i < |packages|
      ensures outcomes[i] == Classify(packages[i], env).outcome
    {
      OutcomesAt(packages, env, i);
    }
  }

  /** Nothing else is reported: every typo alert and every risk of a whole run
      is what some declared package's outcome contributes. */
  lemma RunOnlyContributions(packages: seq<string>, env: Env)
    requires env.Valid()
    ensures forall a :: a in Run(packages, env).typoAlerts ==>
              exists i :: 0 <= i < |packages| && a in AlertsOf(packages[i], Classify(packages[i], env).outcome)
    ensures forall x :: x in Run(packages, env).potentialRisks ==>
              exists i :: 0 <= i < |packages| && x in RisksOf(packages[i], Classify(packages[i], env).outcome)
  {
    var outcomes := Outcomes(packages, env);
    RunFromAppends(EmptyReport, packages, env);
    ContributionSource(packages, outcomes);
    forall i | 0 <= i < |packages|
      ensures outcomes[i] == Classify(packages[i], env).outcome
    {
      OutcomesAt(packages, env, i);
    }
  }

  /** Every declared package's outcome is reported: each typo alert, each
      package found on the registry and each filtered registry neighbour ends up
      in the accumulators. */
  lemma RunCompleteReported(packages: seq<string>, env: Env)
    requires env.Valid()
    ensures var r := Run(packages, env);
            forall p :: p in packages ==>
              var o := Classify(p, env).outcome;
              && (o.TypoOf? ==> (p, o.suggestions) in r.typoAlerts)
              && (o.ExistsOnRegistry? ==> p in r.potentialRisks)
              && (o.SimilarToRegistry? ==> forall k :: 0 <= k < |o.suggestions| ==> o.suggestions[k] in r.potentialRisks)
  {
    forall p | p in packages
      ensures var o := Classify(p, env).outcome;
              var r := Run(packages, env);
              && (o.TypoOf? ==> (p, o.suggestions) in r.typoAlerts)
              && (o.ExistsOnRegistry? ==> p in r.potentialRisks)
              && (o.SimilarToRegistry? ==> forall k :: 0 <= k < |o.suggestions| ==> o.suggestions[k] in r.potentialRisks)
    {
      var i :| 0 <= i < |packages| && packages[i] == p;
      PackageReported(packages, env, i);
    }
  }

  /** An accumulator stays empty exactly when no declared package reaches the
      branches that append to it. */
  lemma RunCompleteEmpty(packages: seq<string>, env: Env)
    requires env.Valid()
    ensures Run(packages, env).typoAlerts == [] <==>
              forall p :: p in packages ==> !Classify(p, env).outcome.TypoOf?
    ensures Run(packages, env).potentialRisks == [] <==>
              forall p :: p in packages ==>
                !Classify(p, env).outcome.ExistsOnRegistry? && !Classify(p, env).outcome.SimilarToRegistry?
  {
    RunEmpty(packages, env);
    forall i | 0 <= i < |packages|
      ensures var o := Classify(packages[i], env).outcome;
              && (AlertsOf(packages[i], o) == [] <==> !o.TypoOf?)
              && (RisksOf(packages[i], o) == [] <==> !o.ExistsOnRegistry? && !o.SimilarToRegistry?)
    {
    }
    forall p | p in packages
      ensures exists i :: 0 <= i < |packages| && packages[i] == p
    {
    }
  }

  /** Every declared package's outcome is reported, and an accumulator stays
      empty exactly when no package reaches the branches that append to it. */
  lemma RunComplete(packages: seq<string>, env: Env)
    requires env.Valid()
    ensures var r := Run(packages, env);
            forall p :: p in packages ==>
              var o := Classify(p, env).outcome;
              && (o.TypoOf? ==> (p, o.suggestions) in r.typoAlerts)
              && (o.ExistsOnRegistry? ==> p in r.potentialRisks)
              && (o.SimilarToRegistry? ==> forall k :: 0 <= k < |o.suggestions| ==> o.suggestions[k] in r.potentialRisks)
    ensures Run(packages, env).typoAlerts == [] <==>
              forall p :: p in packages ==> !Classify(p, env).outcome.TypoOf?
    ensures Run(packages, env).potentialRisks == [] <==>
              forall p :: p in packages ==>
                !Classify(p, env).outcome.ExistsOnRegistry? && !Classify(p, env).outcome.SimilarToRegistry?
  {
    RunCompleteReported(packages, env);
    RunCompleteEmpty(packages, env);
  }

  /** What the scan loop accumulates over a whole manifest. */
  lemma RunWellFormed(packages: seq<string>, env: Env)
    requires env.Valid()
    ensures var r := Run(packages, env);
            && |r.typoAlerts| <= |packages|
            && |r.potentialRisks| <= MaxMatches * |packages|
            && (forall a :: a in r.typoAlerts ==> WellFormedAlert(a, packages, env))
            && (forall x :: x in r.potentialRisks ==> WellFormedRisk(x, packages, env))
  {
    var outcomes := Outcomes(packages, env);
    RunFromAppends(EmptyReport, packages, env);
    assert Run(packages, env) == Report(AllAlerts(packages, outcomes), AllRisks(packages, outcomes));
    OutcomesSound(packages, env);
    ContributionsWellFormed(packages, outcomes, env);
  }

  /** Scanning a manifest in two parts, the second continuing from the first's
      accumulators, gives the same report as scanning it at once. */
  lemma {:induction false} RunSplits(acc: Report, a: seq<string>, b: seq<string>, env: Env)
    requires env.Valid()
    ensures RunFrom(RunFrom(acc, a, env), b, env) == RunFrom(acc, a + b, env)
    decreases |a|
  {
    if a == [] {
      assert [] + b == b;
    } else {
      var next := Step(acc, a[0], env);
      assert RunFrom(acc, a + b, env) == RunFrom(next, a[1..] + b, env) by {
        assert (a + b)[0] == a[0];
        assert (a + b)[1..] == a[1..] + b;
      }
      RunSplits(next, a[1..], b, env);
    }
  }
}

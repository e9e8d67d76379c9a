# DeCAF scanner core in Dafny

DeCAF reads a pip requirements list and an allowlist of trusted names. For
every declared package it decides, in a fixed priority order, whether the
package is trusted, a likely typo of a trusted name, a name that already
exists on PyPI (a dependency-confusion risk), or a near miss of PyPI names
(a typosquatting risk). It then prints a two-part summary.

This project models that decision logic as pure functions. The network and
the similarity scorer become parameters.

- `Text` (`text.dfy`): the string operations the scanner relies on. These are
  `str.strip()`, `str.lower()` and `str.split('==')[0]`, over ASCII.
- `Manifest` (`manifest.dfy`): `load_requirements` and `load_allowlist`. Each
  file is given as the sequence of its lines.
- `Similarity` (`similarity.dfy`): `find_similar_packages`, wrapped around an
  abstract close-match oracle that stands for `difflib.get_close_matches`.
  The oracle is only assumed to return at most `n` entries of the pool it is
  given.
- `Classifier` (`classifier.dfy`): the per-package decision procedure of the
  scan loop in `main`. The outcomes are folded into the two accumulators,
  `typo_alerts` and `potential_risks`.
  - Each verdict records which collaborators were consulted: the allowlist
    matcher, the registry lookup and the registry-pool matcher. This makes
    "the registry is not asked" a provable statement.
  - The registry existence check is a function `string -> bool`. A failed
    request already reads as `false`.
- `Summary` (`summary.dfy`): the end-of-run summary, and `Audit`, a whole run
  from the two files' lines to that summary.
- `Scenarios` (`scenarios.dfy`): four examples. Three of them classify a
  single package: a typo, a registry hit and a typosquat. Only the fourth is a
  whole run, through `Audit`, and it ends with no risks. Each example
  fixes the oracle answers it depends on. The `Allowed` outcome has no
  example of its own; `Classify` and `Step` state it for every package.

The order in which Python iterates the allowlist set (`list(allowlist)`) is
unspecified. It is therefore an input to the model: a sequence required to
hold exactly the allowlist's elements.

## Model

| member | source | states |
|---|---|---|
| Text.ContentStart | DeCAF.py:15 | The text of a line begins at its first non-whitespace character, and only whitespace comes before it |
| Text.ContentEnd | DeCAF.py:15 | The text of a line ends after its last non-whitespace character, and only whitespace follows it |
| Text.Strip | DeCAF.py:15 | The stripped line is no longer than the line, starts and ends with a non-space character when non-empty, and is empty exactly when the line is all whitespace |
| Text.StripKeepsInfix | DeCAF.py:15 | Stripping yields a contiguous infix of the line, and only whitespace is removed before and after it |
| Text.StripIdempotent | DeCAF.py:15 | Stripping an already stripped line changes nothing |
| Text.StripUnpadded | DeCAF.py:15 | A line with no whitespace at either end is its own stripped form |
| Text.LowerChar | DeCAF.py:28 | Case-folding a character never yields an upper-case letter. It moves `A`-`Z` by the fixed offset to `a`-`z` and leaves every other character alone |
| Text.Lower | DeCAF.py:28 | A lower-cased string keeps its length, folds character by character, and contains no upper-case letter |
| Text.LowerIdempotent | DeCAF.py:28 | Lower-casing twice equals lower-casing once, and a string is unchanged by it exactly when it has no upper-case letter |
| Text.SplitHead | DeCAF.py:17 | The head is a prefix of the line with no `==` inside it. It ends where the first `==` begins, or is the whole line exactly when the line contains no `==` |
| Manifest.LoadRequirements | DeCAF.py:11-19 | At most one name per line (`IsEntry` decides which lines count, and `RequirementName` gives the name). No name contains `==`. A name is returned exactly when it is the `==`-head of some stripped, non-blank, non-comment line |
| Manifest.NamesDeclared | DeCAF.py:14-18 | The names that `Names` collects line by line are exactly the heads of the entry lines, at most one per line, none containing `==` |
| Manifest.LoadRequirementsLineByLine | DeCAF.py:14-18 | One more line appends its name, if it has one, after all earlier names, in file order. Blank and comment lines append nothing |
| Manifest.LoadAllowlist | DeCAF.py:21-28 | A name is in the allowlist exactly when it is the lower-cased stripped form of some entry line (`AllowlistName`). Every entry is non-empty, does not start with `#`, and is in lower case |
| Manifest.AllowlistNameWellFormed | DeCAF.py:26-28 | An entry line's allowlist name is non-empty, not a comment, and in lower case |
| Manifest.LoadAllowlistUnion | DeCAF.py:22-28 | The allowlist of a concatenation of lines is the union of the two parts' allowlists, so line order and repeated lines do not matter |
| Similarity.LowerAll | DeCAF.py:43 | The lower-cased pool has the pool's length, and position `k` holds the lower-case form of pool entry `k` |
| Similarity.IndexOf | DeCAF.py:46 | `list.index` returns the position of the first occurrence of the value |
| Similarity.MapBack | DeCAF.py:45-46 | One name per match, in match order. Each name is the first pool entry whose lower-case form is that match |
| Similarity.FindSimilarPackages | DeCAF.py:41-47 | At most 5 names, each an element of the pool. An empty pool gives an empty result |
| Similarity.FindSimilarMapsBackToFirst | DeCAF.py:42-46 | The result has one entry per oracle match on the lower-cased query and pool. Entry `i` is the first pool entry folding to match `i` |
| Similarity.LowerCasePoolReturnedVerbatim | DeCAF.py:43-46 | Over an already lower-case pool, the wrapper returns the oracle's answer unchanged |
| Classifier.Typos | DeCAF.py:68 | The typo suggestions are at most 5 allowlist entries |
| Classifier.Unallowed | DeCAF.py:82 | The filter keeps only names from its input whose lower-case form is not allowlisted. It keeps every such name, and keeps the whole list when none is allowlisted |
| Classifier.UnallowedSingle | DeCAF.py:82 | A single name is kept exactly when its lower-case form is not allowlisted |
| Classifier.UnallowedAppend | DeCAF.py:82 | Filtering two lists one after the other equals filtering their concatenation. With `UnallowedSingle` this pins the result: the kept names in input order, repeats included |
| Classifier.RegistryNeighbours | DeCAF.py:81-82 | The typosquat suggestions are at most 5 registry names, none of whose lower-case forms is allowlisted |
| Classifier.Classify | DeCAF.py:59-85 | The decision procedure's priority. The outcome is `Allowed` exactly when the lower-cased name is allowlisted, and then nothing is consulted. The registry is consulted exactly when the package is not allowlisted and has no typo suggestions. The registry pool is searched exactly when the registry was consulted and said no. The outcome is a typo exactly when the package is not allowlisted and the registry is not consulted, and "exists on the registry" exactly when the registry is consulted but the pool is not. "No risk" comes only after the pool search. Typo outcomes carry 1-5 allowlist names; typosquat outcomes carry 1-5 non-allowlisted registry names |
| Classifier.ClassifyIgnoresCase | DeCAF.py:60-68 | Two spellings with the same lower-case form are classified identically, when the registry answers alike for both |
| Classifier.TypoOfEveryCloseAllowlistEntry | DeCAF.py:67-72 | For a lower-case allowlist, every allowlist entry the oracle reports close to a non-allowlisted package makes it a typo, with that entry among its suggestions |
| Classifier.Step | DeCAF.py:59-85 | The effect of one loop iteration on the accumulators (`Apply` of the package's outcome), by branch. An allowlisted package changes nothing. A typo appends `(package, suggestions)` to `typo_alerts` only. A package on the registry appends exactly itself to `potential_risks`. Otherwise the filtered suggestions are appended, and an empty filter result appends nothing. No iteration touches both accumulators |
| Classifier.OutcomesAt | DeCAF.py:59-85 | The outcome recorded at position `i` is the classification of package `i`, and it is sound |
| Classifier.OutcomesSound | DeCAF.py:59-85 | Every recorded outcome satisfies the decision procedure's guarantees |
| Classifier.OutcomesSplit | DeCAF.py:59 | The outcomes of a concatenated manifest are the outcomes of its two parts, concatenated |
| Classifier.RunFromIsTally | DeCAF.py:59-85 | The scan loop (`RunFrom`, and `Run` from empty accumulators) equals the fold of the per-package outcomes. Classifying a package never depends on earlier packages' contributions |
| Classifier.TallyAppends | DeCAF.py:53-85 | Folding only appends: the accumulators end as their old contents followed by every package's contribution (`AlertsOf`, `RisksOf`), in manifest order |
| Classifier.RunFromAppends | DeCAF.py:59-85 | The scan loop appends every package's contribution, in manifest order, after the accumulators' earlier contents |
| Classifier.ContributionsWellFormed | DeCAF.py:71-85 | Sound outcomes contribute at most one typo alert and at most 5 risks per package. Every alert names a declared, non-allowlisted package with 1-5 allowlist suggestions. Every risk is non-allowlisted and is either declared or a registry name |
| Classifier.RunWellFormed | DeCAF.py:53-85 | Over a whole manifest: at most one typo alert per package, at most 5 risks per package, and every alert and every risk is well formed as above |
| Classifier.ContributionIncluded | DeCAF.py:71-85 | Whatever package `i` contributes to either accumulator is among the accumulated entries |
| Classifier.ContributionsEmpty | DeCAF.py:53-85 | An accumulator ends empty exactly when no package contributes to it |
| Classifier.PackageReported | DeCAF.py:59-85 | For a whole run, every typo alert and every risk that package `i`'s outcome produces is in the final accumulators |
| Classifier.RunEmpty | DeCAF.py:53-85 | For a whole run, `typo_alerts` ends empty exactly when no package produces a typo alert, and `potential_risks` exactly when no package produces a risk |
| Classifier.ContributionSource | DeCAF.py:53-85 | Every entry of the concatenated contributions comes from some package's own contribution |
| Classifier.RunOnlyContributions | DeCAF.py:53-85 | For a whole run, every typo alert and every risk is what some declared package's outcome contributes: the loop appends nothing else |
| Classifier.RunCompleteReported | DeCAF.py:59-85 | For a whole run, every typo outcome is in `typo_alerts` with its suggestions, and every registry hit and every filtered neighbour is in `potential_risks` |
| Classifier.RunCompleteEmpty | DeCAF.py:53-85 | For a whole run, `typo_alerts` is empty exactly when no package is a typo, and `potential_risks` exactly when no package reaches a registry branch that reports something |
| Classifier.RunComplete | DeCAF.py:59-85 | For a whole run, every typo outcome is in `typo_alerts` with its suggestions, every registry hit is in `potential_risks`, and so is every filtered neighbour. `typo_alerts` is empty exactly when no package is a typo, and `potential_risks` exactly when no package reaches a registry branch that reports something |
| Classifier.RunSplits | DeCAF.py:59-85 | Scanning a manifest in two parts, the second continuing from the first's accumulators, gives the same report as scanning it at once |
| Summary.ElementsCardinality | DeCAF.py:96 | `set(xs)` has at most `len(xs)` names, and exactly that many when `xs` has no repeated name |
| Summary.Summarize | DeCAF.py:87-100 | The typo section appears exactly when some typo alert was raised, and lists those alerts. The "no risks detected" message appears exactly when `potential_risks` is empty, whatever the typo alerts are. Otherwise the risk names are the deduplicated `potential_risks`: the same members (`Elements`, which is `set(xs)`), at least one, and fewer exactly when some name repeats |
| Summary.SummaryWellFormed | DeCAF.py:87-100 | Every risk name in a run's summary is non-allowlisted and is a declared package or a registry name. Every typo alert names a declared, non-allowlisted package with 1-5 allowlist suggestions |
| Summary.SummaryExact | DeCAF.py:87-100 | Nothing else is shown: every risk name is what some declared package's outcome contributes, and every typo alert `(p, s)` is a declared package whose outcome is a typo with suggestions `s` |
| Summary.SummaryComplete | DeCAF.py:87-100 | Everything is shown: every typo outcome appears in the typo section, and every registry hit and filtered neighbour among the risk names. Each section is empty exactly when no package contributes to it |
| Summary.Audit | DeCAF.py:49-100 | For a whole run, from the two files' lines, with `Setting` building the environment from the loaded allowlist and the inputs: the summary shows exactly the declared packages' contributions. Every risk name is some declared package's registry hit or filtered neighbour, so it is non-allowlisted and declared or a registry name. Every typo alert is a declared, non-allowlisted package whose outcome is a typo with those 1-5 allowlist suggestions. Conversely, every typo outcome appears in the typo section, and every registry hit and every filtered neighbour appears among the risk names. The typo section is absent exactly when no declared package is a typo. The "no risks detected" message appears exactly when no declared package reaches a registry branch that reports something |
| Scenarios.AllowlistNearMiss | DeCAF.py:63-72 | With a one-name allowlist, a different lower-case name that the oracle finds close to that name is a typo of it, and only the allowlist matcher is consulted |
| Scenarios.TypoScenario | DeCAF.py:67-72 | `reqeusts` against the allowlist `requests` gives exactly one typo alert, `('reqeusts', ['requests'])`, with no registry lookup and no risk |
| Scenarios.RegistryHit | DeCAF.py:74-77 | With an empty allowlist, a name the registry knows is reported as itself, and the registry pool is never searched |
| Scenarios.ConfusionScenario | DeCAF.py:74-77 | `internal-tool`, found on the registry, becomes the one risk `internal-tool` |
| Scenarios.RegistryNearMiss | DeCAF.py:78-85 | With an empty allowlist and a lower-case pool, a lower-case name missing from the registry is reported through exactly the oracle's non-empty match list |
| Scenarios.TyposquatScenario | DeCAF.py:78-85 | `my-intern-lib`, missing from the registry, with the oracle matching `my-internal-lib`, reports exactly `my-internal-lib` |
| Scenarios.QuietRun | DeCAF.py:49-100 | A manifest holding one plain lower-case name, with no allowlist lines, no registry hit and no close match, ends with no typo section and the "no risks detected" message |
| Scenarios.NoRiskScenario | DeCAF.py:49-100 | The run over the manifest line `safe-pkg`, under those conditions, ends with no typo section and the "no risks detected" message |

### Behaviour worth knowing

- The typo step matches the lower-cased name against the lower-cased
  allowlist (DeCAF.py:42-43).
- Both close-match calls return at most 5 names (DeCAF.py:44).
- Typo suggestions are allowlisted names (DeCAF.py:68). `potential_risks`
  holds no allowlisted name: registry hits pass the allowlist check at
  DeCAF.py:63, and neighbours pass the filter at DeCAF.py:82.
- A requirement name is the stripped line cut at its first `==`, and it is
  not stripped again (DeCAF.py:15-17). So `requests ==2.0` declares
  `requests ` with a trailing space, and `requests>=2.0` declares the whole
  line. The line `==1.0` declares the empty name.
- When the pool holds two spellings with the same lower-case form, the
  mapping at DeCAF.py:46 returns the first spelling for both matches. The
  suggestion list can then repeat a name.

## Left out

- `check_pypi` (DeCAF.py:33-39) is the `onRegistry` parameter. It stands for
  the HTTP request, with a request error reading as `false`, as the source
  does.
- The registry's answer is assumed fixed per name for a whole run. In the
  source, a name declared twice is looked up twice (DeCAF.py:75). The first
  lookup could succeed and the second could fail with a network error
  (DeCAF.py:37-39). The model cannot express that.
- `get_pypi_package_list` (DeCAF.py:102-117) is the `pool` parameter. The
  HTML parsing and the `sys.exit(1)` on failure are outside the model,
  because the model starts after the listing was fetched.
- `difflib.get_close_matches` is the `closeMatches` parameter. It is assumed
  to return at most `n` entries of the pool it is given. The Ratcliff/Obershelp
  ratio, the cutoff comparison and the descending-score order of its result
  are floating-point library behaviour and are not modelled.
- Similarity.FindSimilarPackages: does not state that results are ordered by
  descending similarity score, because the score belongs to the oracle.
- Opening the files, the `FileNotFoundError` fallback to an empty allowlist
  (DeCAF.py:29-30), and the argument parsing (DeCAF.py:119-124) are left out.
  The model takes the files' lines as input; a missing allowlist is the empty
  sequence of lines.
- Every `print` and colorama call is left out. This includes the per-package
  messages and the text layout of the summary (`', '.join(suggestions)`).
- Summary.Summarize: gives the risk listing as a set of names, because
  Python's iteration order over `set(potential_risks)` is unspecified. The
  printing order is not modelled.
- `str.strip()` and `str.lower()` follow Unicode rules in Python. The model
  strips the ASCII characters Python treats as whitespace (9-13, 28-31, 32)
  and folds only `A`-`Z`.
- Python iterates the allowlist set (`list(allowlist)`, DeCAF.py:68) in an
  unspecified order. That order is the `allowlistOrder` input.

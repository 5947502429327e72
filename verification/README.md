# gromit in Dafny

A model of the parts of gromit that decide things, with proofs of what they promise. `dafny verify
dfyconfig.toml` checks all of it.

- **Package retention** (`Semver`, `Precedence`, `Tracks`, `Packages`, `Plan`, `Retention`, `Verdicts`,
  `Filter`, `Sets`, `Clean`, `CleanRuns`). Versions are strings, cut and compared by the grammar and the
  precedence of Semantic Versioning 2.0.0; what that grammar and that order are is stated apart from how they
  are computed.
  On them stand the release tracks, the retention plan, the older filter, and the deletion run as a
  protocol of one producer and any number of workers. `BuildPlan` is proved equal to a plan defined
  without loops; which packages it prunes, what it counts, when it fails, idempotence, the windows and the
  agreement of plan, filter and deletion run are theorems about that.
- **The configuration cascade** (`Builds`, `BuildIds`, `Cascade`, `Policy`, `Levels`), over heap objects: builds
  behind pointers, and `Env` slices behind backing arrays that a shallow copy shares. That branches do not
  disturb each other is a statement about objects.
- **Test variations** (`Variations`, `VariationKeys`): the inheriting tree, the flat table, and exactly when
  the table agrees with the tree.
- **The template bundle** (`Trees`, `Bundle`): the in-place insertion refines an insertion into a tree of
  values, whose leaves are accounted for.
- **The table of JavaScript references** (`RefTable`): reference counts, the pool of free ids, NaN-boxed
  references in linear memory, over every run of stores and finalizes.
- **Customization manifests** (`Json`, `Manifest`) and **image names** (`ImageName`, `Text`).

Where the code and what is written about it differ, the model follows the code:

- A malformed `versioncutoff` is not rejected: it canonicalises to the empty string, and the version rule
  is switched off (`Filter.MakeFilter`; pkgs/filter.go:51-54).
- The configuration says that a version that is not semver is not removed (config/config.yaml:882-883).
  The filter does remove it once it is older than a non-zero age cutoff, and the plan, which keeps it,
  does not show that (`Filter.PlanPreviewsFilter` gives the exact family, `Filter.OldNonSemverDisagrees` a
  member).
- `pkgs clean` can hang exactly when it has no workers and the filter selects some package, now or later
  (`Clean.FinishesExactly`).
- `cgo: false` on a branch never overrides `true` (`Policy.CopyingIsNearest`).
- Builds can be given at the group level, and the repository's README.md:543 says that values cascade from
  the group, but those builds are overwritten and reach no branch (`Policy.GroupBuildsIgnored`,
  `Cascade.GroupBuildLost`). `Policy.CascadeReachedExactly` says when that makes no difference.
- The concatenated keys of test variations can clash (`Variations.KeysCanClash`), and build ids can, when
  an architecture name holds a dash (`BuildIds.DashesCanClash`).
- A path added to a bundle below one that is already a leaf takes that leaf's place (`Trees.PrefixSwallows`).
  `Trees.LeavesExactly` and `Trees.BundleExact` say from the paths exactly when none is lost.
- `setInt64` writes words that disagree for a negative number with a fraction that rounds to a multiple of
  2^32, such as -0.5 (`RefTable.Int64RoundTrip`, `RefTable.NegativeFractionMisread`).
- Null annotations in the desired manifest let the apply script edit again after every stamp
  (`Manifest.NullAnnotationsEditTwice`); with any others it edits at most once.

## Model

| member | source | states |
|---|---|---|
| Semver.CompareTotalPreorder | pkgs/tracks.go:58-63 | version precedence is reflexive, antisymmetric in sign, transitive and total on all strings, and a chain that ends equal is equal throughout |
| Semver.NumValueInjective | config/config.yaml:857-860 | numeric parts of equal value are the same string, as leading zeros are invalid |
| Semver.ParseAssemble | config/config.yaml:857-860 | what is assembled from valid parts parses back to them, with `vMAJOR` and `vMAJOR.MINOR` padded |
| Semver.MajorMinorParse | pkgs/tracks.go:98 | the series of a valid version is valid and keeps its major and minor parts |
| Semver.MajorMinorIdempotent | pkgs/tracks.go:114-117 | the series of a series is itself; an invalid version has none |
| Semver.MajorMinorMonotone | pkgs/plan.go:138 | taking the series is monotone for precedence |
| Semver.CanonicalEquivalent | pkgs/filter.go:51 | canonicalising keeps validity and precedence, so padding and build metadata never matter; anything invalid becomes the empty string |
| Semver.EqualSeriesIdentical | pkgs/tracks.go:118 | series of equal precedence are identical strings, so looking the anchor up by string equality is looking it up by precedence |
| Semver.SeriesStrictOrder | pkgs/tracks.go:104 | precedence is a strict total order on series |
| Precedence.VersionsExactly | config/config.yaml:857-860 | the versions are exactly the spellings `vX.Y.Z`, `vX.Y` and `vX` with numbers without leading zeros, and of the first also with dotted pre-release and build identifiers |
| Precedence.SpelledParses | config/config.yaml:857-860 | parsing undoes spelling: shorthands are padded, build metadata is dropped |
| Precedence.SpelledForms | pkgs/filter.go:51 | the series of a version is `vMAJOR.MINOR` and its canonical form `vMAJOR.MINOR.PATCH-PRE`, spelled out |
| Precedence.PrecedesExactly | pkgs/tracks.go:58-63 | a version comes after whatever is none; of two versions the first of major, minor and patch that differs decides, fewer digits or a smaller first differing digit first, then pre-releases, which come before the release |
| Precedence.SpelledOrder | pkgs/plan.go:138-140 | the same order in terms of the parts two versions are spelled from; identifiers of a pre-release by value, numbers before text, a proper prefix first |
| Ordering.SortIncreasing | pkgs/tracks.go:104 | sorting distinct keys yields a strictly increasing list with the same elements |
| Ordering.IncreasingUnique | pkgs/tracks.go:100-104 | a sorted list is determined by its elements, so map order never shows |
| Ordering.SortedKeys | util/set.go:28-35 | listing map keys in any order and sorting gives the one sorted list of them |
| Tracks.Validate | pkgs/tracks.go:44-65 | no error exactly for complete, parseable, strictly ordered tracks; an error names a real defect, whichever field is looked at first |
| Tracks.ValidExactly | pkgs/tracks.go:44-65 | a track is valid exactly when none of the errors describes it |
| Tracks.Anchor | pkgs/tracks.go:69-88 | the loop computes the window asked for: no editions and unknown editions are errors, "ee" anywhere wins |
| Tracks.MinorSeries | pkgs/tracks.go:92-106 | the result is the strictly increasing list of exactly the series of the valid inputs |
| Tracks.WindowExact | pkgs/tracks.go:113-127 | the number of shipped series from the cutoff up to below the anchor is the smaller of the depth and the number shipped below the anchor |
| Tracks.PrunedBeyondDepth | pkgs/tracks.go:113-127 | a shipped series below the anchor falls under the cutoff exactly when, counting itself, more than `depth` shipped series lie below the anchor from it on |
| Tracks.NewerReleasesIgnored | pkgs/tracks.go:108-112 | shipping series newer than the anchor never moves the cutoff |
| Tracks.CutoffNotAboveAnchor | pkgs/tracks.go:113-127 | the cutoff is a shipped series not above the anchor |
| Tracks.CutoffNotEmpty | pkgs/plan.go:136 | a derived cutoff is never empty, so the empty-cutoff test cannot switch a track rule off |
| Tracks.ReferenceSeriesOrder | pkgs/tracks.go:58-63 | the series of a valid track's reference versions are in the order of the versions |
| Tracks.LongestWindowWins | pkgs/tracks.go:67-88 | for a valid track and any shipped versions the "ee" cutoff is never newer than the "ce" cutoff, nor than the series of any reference version |
| Packages.TooOldForever | pkgs/plan.go:143 | a package past the age cutoff stays past it, even where the subtraction of times saturates |
| Packages.WrapFits | pkgs/plan.go:149-151 | 64-bit wrap-around keeps the sum modulo 2^64, and exactly when it fits |
| Packages.TranslateJoins | pkgs/plan.go:88-92 | a version is cut at every tilde and joined with hyphens |
| Packages.TooOldExactly | pkgs/plan.go:143 | past the age cutoff means created more than that before now; a cutoff of zero, or the longest there is, is never passed |
| Packages.ParseInt64Exactly | pkgs/plan.go:149 | what parses is exactly a 64-bit number in decimal, with or without sign and leading zeros, and it parses to that number |
| Plan.BuildPlan | pkgs/plan.go:79-166 | the loops compute the plan defined without loops, errors included, for every map order |
| Plan.ClassifyAll | pkgs/plan.go:118-164 | the classification loop computes the counts, sizes, tallies and prune list of one policy |
| Plan.ClassifyOne | pkgs/plan.go:123-163 | one round of the loop applies the verdict: exceptions first, then not semver, then the rules |
| Plan.Decide | pkgs/plan.go:135-145 | the version rule, by series for a track and by full version otherwise, or the age rule |
| Plan.AccountStep | pkgs/plan.go:123-163 | one more package changes the whole account by exactly its verdict |
| Retention.AccountingConserved | pkgs/plan.go:123-164 | retained and pruned add up to the packages; pruned is the length of the prune list and the sum over series; protected and non-semver stay within retained; the prune list is the in-order subsequence of exactly the pruned packages, each with its seven fields |
| Retention.PrunedBytesExact | pkgs/plan.go:149-151 | the bytes are the sum of the parseable sizes of the pruned packages exactly when that sum fits 64 bits, and always modulo 2^64 |
| Retention.TallySum | pkgs/plan.go:148 | the counts of a tally add up to the number of keys |
| Retention.CountDownSubset | pkgs/tracks.go:118-126 | over fewer series the cutoff never rises above a series that was kept |
| Retention.SurvivorsJudgedAlike | pkgs/plan.go:123-164 | a retained package gets the same verdict when planning again over what was retained |
| Retention.RetentionIdempotent | pkgs/plan.go:94-164 | planning again over what a plan retains, at the same moment, prunes nothing and reports the same packages held, if it succeeds |
| Retention.ReplanSucceedsWithoutAge | pkgs/plan.go:94-164 | without an age cutoff the second plan always succeeds with the same anchor, cutoff and account |
| Retention.ReplanSucceedsExactly | pkgs/tracks.go:118-121 | the second plan succeeds exactly when there is no track or some package of the anchor's series is an exception or within the age cutoff |
| Retention.MoreEditionsPruneNoMore | pkgs/plan.go:100-115 | adding editions, in any order, never prunes a package that was retained |
| Retention.ReferenceSeriesSafe | pkgs/plan.go:100-115 | an "ee" plan never prunes by version in the series of a track's reference versions |
| Verdicts.ValidTrackExactly | pkgs/tracks.go:44-65 | a valid track is three versions, each before the next by number and pre-release |
| Verdicts.PrunesExactly | pkgs/plan.go:94-145 | a plan prunes a package exactly when its version is not an exception and is semver, and it is below a valid static cutoff, or has, counting itself, more than 2 shipped series up to the current feature release ("ee": 3, to the oldest LTS), or was created longer ago than the age cutoff |
| Verdicts.PlanFailsExactly | pkgs/plan.go:100-115 | planning fails exactly for an unknown track, no edition, an unknown edition, a malformed or an unshipped reference version, with the error of the first of these |
| Verdicts.HeaderExactly | pkgs/plan.go:80-116 | the header repeats the inputs; the series are the shipped ones in order; the cutoff keeps 2 ("ee": 3) shipped series below the anchor's, or all there are |
| Verdicts.CountsExactly | pkgs/plan.go:123-163 | every number in a plan counts packages: kept, pruned, not semver, of each exception, pruned of each series |
| Verdicts.TotalSizeAdds | pkgs/plan.go:149-151 | sizes add up package by package, one that does not parse counting as nothing |
| Sets.Set.FromSlices | util/set.go:12-20 | the set of everything in the slices |
| Sets.Set.Add | util/set.go:22-26 | adds exactly the values |
| Sets.Set.Members | util/set.go:28-35 | the members sorted and without repetition, whatever the map order |
| Filter.MakeFilter | pkgs/filter.go:46-61 | fails exactly for an unknown repo; a malformed cutoff never fails |
| Filter.Filter.Satisfies | pkgs/filter.go:76-99 | selects exactly what the config says: not an exception, and below a valid cutoff or past the age cutoff |
| Filter.Filter.IncTotal | pkgs/filter.go:107-111 | counts one examined package and nothing else |
| Filter.Filter.IncFiltered | pkgs/filter.go:101-105 | counts one selected package and nothing else |
| Filter.SelectsForever | pkgs/filter.go:76-99 | a package selected once stays selected as time passes |
| Filter.PlanPreviewsFilter | pkgs/plan.go:76-78 | without a track, plan and filter agree on a package exactly unless it is not exempt, not semver and past a non-zero age cutoff; the plan never prunes what the filter keeps |
| Filter.OldNonSemverDisagrees | pkgs/filter.go:89-92 | a package the filter selects and every plan keeps as not semver |
| Clean.InitInv | pkgs/client.go:104-108 | the start of a run satisfies the invariant |
| Clean.NextInv | pkgs/client.go:108-135 | every step of producer and workers keeps the invariant |
| Clean.DeletionSafe | pkgs/client.go:227-245 | in every interleaving a deleted package was selected by the filter during the run, taken by a worker and, when backing up, downloaded; deletion was asked for; no exception is deleted |
| Clean.DeleteStepSafe | pkgs/client.go:229-242 | the step that deletes starts with that package's own download already done and the package not yet deleted |
| Clean.OneWorkerPerPackage | pkgs/client.go:225-227 | at no moment are two workers busy with one package |
| Clean.HistoryGrows | pkgs/client.go:121-127 | no package is taken twice or gets two outcomes, and what happened is never undone |
| Clean.CountersExact | pkgs/client.go:122-125 | at every moment total is the number examined, filtered is the number sent or one behind, progress the number done |
| Clean.FinishesExactly | pkgs/client.go:225-252 | every run that can go no further is complete exactly when there is a worker or the filter selects no package, now or later |
| Clean.SelectsSomeExactly | pkgs/filter.go:76-99 | the filter selects a package now or later exactly when one that is not an exception is below the version cutoff or there is an age cutoff that time can pass |
| Clean.MeasureDecreases | pkgs/client.go:111-135 | every step makes a natural number smaller |
| Clean.RunsEnd | pkgs/client.go:104-138 | no run is longer than the measure of its start |
| Clean.MaximalRunsFinish | cmd/pkgs.go:92-96 | with at least one worker, a run that can go no further is complete |
| Clean.FinalAccount | pkgs/client.go:216-254 | at the end exactly the selected packages were handled, each once; counters are exact; without a failed fetch everything was examined; with deletion on, deleted is exactly done |
| Clean.PlanPreviewsClean | pkgs/plan.go:76-78 | without a track, a complete run without a failed fetch hands over everything a plan made at its start prunes, and deletes only what a plan made now prunes, or old non-semver packages |
| CleanRuns.FailedExactly | pkgs/client.go:108-135 | a producer that is done returned an error exactly when one of its fetches failed |
| CleanRuns.OutcomesCounted | pkgs/client.go:229-248 | over every run, failed downloads, failed deletions and packages done are as many as the steps that say so |
| CleanRuns.EveryEndingHappens | pkgs/client.go:104-254 | with a worker and a page, for any choice of which downloads and deletions fail, some run completes without an error, examines every package and ends each selected one as chosen |
| Builds.Append | policy/policy.go:358 | appending writes in place when the capacity allows and else copies; the contents are the concatenation and nothing else changes |
| Builds.MergeInto | policy/policy.go:358 | non-empty text overrides, slices append, no object but the destination (and its spare capacity) changes |
| Builds.AppendTwice | policy/policy.go:341-343 | what is left of a first branch's `Env` after a second one appends to the same shallow copy: intact unless both appends fit the shared array |
| Builds.OverlayHarmless | policy/policy.go:341-343 | the second append leaves the first result intact exactly where the two agree on their overlap |
| Builds.CopyAll | policy/policy.go:339-343 | fresh, pairwise distinct copies of every repo build |
| Builds.ClearReplaced | policy/policy.go:344-357 | in a copy, archs and flags are cleared exactly where the branch gives its own |
| Builds.MergeAll | policy/policy.go:358-360 | every copy ends up with the branch's values over it, none disturbing another; its `Env` is in a new array where the branch appends and in the repo's otherwise |
| Builds.ClearThenAppend | policy/policy.go:344-358 | clearing and then appending is merging: archs and flags replace, env appends, text overrides |
| Builds.MergeBuilds | policy/policy.go:338-362 | nothing that existed changes; builds the repo names are new objects with the merged value, whose `Env` is in a new array where the branch appends and in the repo's own otherwise; builds only the branch names are its own |
| BuildIds.MoreFeaturesMoreBuilds | policy/policy.go:321-332 | more features never lose or change a build |
| BuildIds.SameIdExactly | policy/templates/subtemplates/goreleaser.yml.d/builds.gotmpl:5-7 | two `build-arch` ids coincide exactly when build and architecture do, or one build's name continues the other's with the start of its architecture |
| BuildIds.IdsDistinctExactly | policy/policy.go:334-337 | the generated ids are distinct exactly when architectures are distinct in each build and no build shadows another |
| BuildIds.DashFreeIdsDistinct | policy/templates/subtemplates/goreleaser.yml.d/builds.gotmpl:5-7 | with architecture names free of dashes the ids are distinct, whatever the builds are called |
| BuildIds.DashesCanClash | policy/templates/subtemplates/goreleaser.yml.d/builds.gotmpl:5-7 | a pair of builds whose ids clash because an architecture has a dash |
| BuildIds.BranchIdsDistinct | policy/policy.go:334-362 | merging and filtering keep architectures distinct, so a branch's ids are distinct |
| Cascade.AddsNothingExactly | policy/policy.go:358 | merging over a build changes nothing exactly when every field below is empty or said again, and there is no `Env` below |
| Cascade.MergeAssociative | policy/policy.go:334-362 | merging three levels may be done from either end |
| Cascade.GroupBuildsMissedExactly | policy/policy.go:288-303 | a branch's builds are those of overlaying group, repo and branch exactly when no group build can be missed |
| Cascade.GroupBuildLost | policy/policy.go:288-303 | a build that only the group gives, which the overlay has and no branch gets |
| Policy.CopyingIsNearest | policy/policy.go:288-300 | copying group, repo and branch over each other leaves the nearest non-empty value of every field; cgo holds as soon as one level sets it |
| Policy.Union | policy/policy.go:305-306 | the sorted union of the lists without repetition |
| Policy.FilterBuildsByFeature | policy/policy.go:321-332 | keeps exactly the builds that are nil, ask for no feature, or ask for one the branch has |
| Policy.BuildsFor | policy/policy.go:303-308 | the merged and filtered builds of a branch are what the levels' values say |
| Policy.BranchFor | policy/policy.go:285-312 | one branch's settings and builds come from its own levels alone |
| Policy.AllBranches | policy/policy.go:284-313 | in any order of branches, every branch gets its own values, no two share a build that the repo names, and two share an `Env` array of one exactly when neither appends to it |
| Policy.GetRepoPolicy | policy/policy.go:256-317 | fails exactly for a repo in no group; else every branch of the repo is computed from a group that lists it, and no object that existed before changes |
| Policy.GroupBuildsIgnored | policy/policy.go:288-303 | whatever builds the group gives, every branch gets the same settings and builds that say the same |
| Policy.CascadeReachedExactly | policy/policy.go:288-308 | a branch of the computed policy has the builds of the full overlay exactly when none of the group's can be missed |
| Levels.SettingsExactly | policy/policy.go:285-308 | every setting of a branch: the nearest non-empty of branch, repo and group, `cgo` as soon as one sets it, features the sorted union of the three and deleted files of four lists |
| Levels.BuildKeptExactly | policy/policy.go:321-332 | a branch has a build exactly when repo or branch names it and the feature it asks for, if any, is given by group, repo or branch |
| Levels.BuildSaysExactly | policy/policy.go:338-361 | what each build of a branch says: text of the branch where it gives some, env of the repo and then the branch, flags and archs of the branch if it gives any |
| Variations.RemoveDuplicates | policy/variations.go:131-140 | the bucket loop keeps the first occurrence of every element, in order |
| Variations.DedupElements | policy/variations.go:131-140 | de-duplication keeps the elements and leaves no repetition |
| Variations.DedupNested | policy/variations.go:202-205 | de-duplicating what is inherited before appending it changes nothing |
| Variations.InheritFrom | policy/variations.go:201-205 | a level's env files and lists come before those it inherits |
| Variations.LeafLists | policy/variations.go:199-227 | a leaf's pump, sink, deb and rpm lists are one de-duplication of the whole path, leaf first |
| Variations.LeafEnv | policy/variations.go:201 | a leaf's env files are those of the whole path, leaf first |
| Variations.Variations.Parse | policy/variations.go:199-228 | appends exactly the paths below the node, each once, for any map order, and overwrites the table with their leaves in that order |
| Variations.Load | policy/variations.go:175-197 | the paths are exactly the depth-four paths of the tree, each once |
| Variations.TableFaithfulExactly | policy/variations.go:214-217 | the table gives every path its own leaf, in whatever order they were recorded, exactly when no two paths with one key have different leaves |
| Variations.LookupGivesLeaf | policy/variations.go:114-121 | when keys tell leaves apart, looking up a path gives its env files leaf to root and its lists de-duplicated once |
| Variations.LookupNeedsKeys | policy/variations.go:114-121 | if every path looks up its own leaf, keys told the leaves apart |
| Variations.LookupFallsBack | policy/variations.go:116-119 | a branch without a path of its own gets what master gets |
| Variations.KeysCanClash | policy/variations.go:123-129 | two paths of one tree with the same key and different leaves |
| VariationKeys.DedupInOrder | policy/variations.go:131-143 | what is kept stands in the order of first occurrence |
| VariationKeys.KeyTellsOne | policy/variations.go:123-129 | paths with one key that agree in three components agree in the fourth |
| VariationKeys.NamesTellPaths | policy/variations.go:123-129 | keys tell all paths apart when on each of the four levels no name used in the tree starts another |
| VariationKeys.LookupByNames | policy/variations.go:114-121 | then a lookup gives the env files from the repo's level up to the top, and each list of these levels without repetitions |
| Trees.AddLeaves | policy/bundle.go:59-84 | for any tree and any path, one leaf comes, the swallowed one (if any) goes, all others stay |
| Trees.SwallowedIsLeaf | policy/bundle.go:66-80 | what is swallowed is a leaf whose path is a proper prefix of the one added |
| Trees.CountAfterAdd | policy/bundle.go:193-202 | adding raises the count by one, unless it swallows a leaf |
| Trees.CountIsLeaves | policy/bundle.go:193-202 | `Count` is the number of leaves |
| Trees.RenderedIsShown | policy/bundle.go:89-124 | rendering lists, depth first, exactly the leaves with no `.d` directory above them |
| Trees.HiddenExactly | policy/bundle.go:94-96 | a name is passed over exactly when it is something followed by `.d`; `.github` and `.dockerignore` are not |
| Trees.RenderedExactly | policy/bundle.go:89-124 | a path is rendered exactly when it is a leaf's and no name from the root down to it ends in `.d` |
| Trees.WalkAdd | policy/bundle.go:65-81 | adding makes present what is on the way to the new leaf and opens what is above it, and nothing else: for any tree and any path |
| Trees.SwallowsExactly | policy/bundle.go:65-83 | a path takes the place of a leaf exactly when an earlier path is a proper prefix of it and of no other earlier path |
| Trees.LeavesExactly | policy/bundle.go:59-84 | the leaves of a bundle are exactly the paths added, and as many, precisely when each path in turn takes no leaf's place |
| Trees.BundleExact | policy/bundle.go:89-124 | for distinct paths without hidden components, rendering returns each exactly once precisely when no leaf is lost, and `Count` is then their number |
| Trees.PrefixFreeKeepsAll | policy/bundle.go:59-84 | prefix-free paths are distinct and lose no leaf |
| Trees.PrefixSwallows | policy/bundle.go:82-83 | adding `a` and then `a/b` leaves one file |
| Bundle.Bundle.constructor | policy/bundle.go:260 | the empty tree |
| Bundle.Bundle.Append | policy/bundle.go:78-83 | a new last child changes the tree at its parent's place and nowhere else |
| Bundle.Bundle.FindChild | policy/bundle.go:69-75 | the first child with the name |
| Bundle.Bundle.Descend | policy/bundle.go:66-81 | one round of the walk, found or made, leaves what remains to be added unchanged |
| Bundle.Bundle.Add | policy/bundle.go:59-84 | the in-place walk does to the objects what insertion does to the tree of values |
| Bundle.Bundle.Render | policy/bundle.go:89-124 | the recursive walk returns the rendered paths of the tree |
| Bundle.Bundle.CountLeaves | policy/bundle.go:193-202 | the recursive walk returns the count of the tree |
| Bundle.NewBundle | policy/bundle.go:206-273 | adding the walked files in order builds the tree of their paths |
| RefTable.SetUint32 | wasm/wasm_exec.js:162-163 | the four bytes read back as the word and no other byte changes |
| RefTable.SetInt64 | wasm/wasm_exec.js:161-164 | the low word of the number rounded towards zero and the high word of its quotient rounded down, nothing else changed |
| RefTable.Int64RoundTrip | wasm/wasm_exec.js:161-170 | `getInt64` gives the number rounded towards zero exactly when that has 64 bits and the number is not negative with a fraction and rounded to a multiple of 2^32 |
| RefTable.NegativeFractionMisread | wasm/wasm_exec.js:161-170 | -0.5 reads back as -2^32 |
| RefTable.WordInMemory | wasm/wasm_exec.js:162-163 | a word lies least significant byte first |
| RefTable.SpecialDoubles | wasm/wasm_exec.js:172-183 | which bit patterns are NaNs and zeros (sections 3.4 and 6.2.1 of IEEE 754-2019) |
| RefTable.InitialInv | wasm/wasm_exec.js:511-529 | the first table satisfies the invariant |
| RefTable.StoredInv | wasm/wasm_exec.js:200-213 | storing keeps the invariant, and a boxed value's id is live and holds it |
| RefTable.FinalizedInv | wasm/wasm_exec.js:342-352 | finalizing a live reference keeps the invariant |
| RefTable.FinalizedInvExactly | wasm/wasm_exec.js:345-351 | finalizing an id of the table keeps the invariant exactly when Go holds it |
| RefTable.LastFinalizeFrees | wasm/wasm_exec.js:342-352 | the last finalize leaves null at the id and forgets its value, and the next new value gets this id |
| RefTable.NewIdsAppend | wasm/wasm_exec.js:203-209 | with no id free a new value gets the next new one |
| RefTable.ReferenceKinds | wasm/wasm_exec.js:185-232 | what is written: NaN and undefined by their own patterns, numbers as they are, references with the id below and 1 for objects, 2 for strings, 3 for symbols, 4 for functions, else 0 added to 0x7FF80000 above |
| RefTable.ReferenceBytes | wasm/wasm_exec.js:231-232 | the eight bytes of a stored reference |
| RefTable.DecodeEncode | wasm/wasm_exec.js:172-183 | every boxed pattern is a NaN that leads to its id: numbers, NaN, zero, undefined and references all decode to what was encoded, up to the sign of zero |
| RefTable.CountsAreStoresMinusFinalizes | wasm/wasm_exec.js:213 | over every run an id's count rises by its stores minus its finalizes |
| RefTable.StepKeeps | wasm/wasm_exec.js:204-209 | a step never hands a live id to another value |
| RefTable.RunKeeps | wasm/wasm_exec.js:204-209 | an id held throughout a run keeps its value |
| RefTable.HeldExactly | wasm/wasm_exec.js:342-352 | an id is held throughout a run exactly when no prefix finalizes it as often as it was counted and stored |
| RefTable.StoreRunLoad | wasm/wasm_exec.js:172-233 | what was stored loads again, up to the sign of zero, after any run that holds the reference |
| RefTable.LiveIdsDistinct | wasm/wasm_exec.js:519-526 | two live ids never hold the same value |
| RefTable.ReservedForEver | wasm/wasm_exec.js:511-526 | after every run the ids 0 to 6 are live and stand for NaN, 0, null, true, false, the global object and the Go object |
| RefTable.Go.constructor | wasm/wasm_exec.js:509-527 | the table starts as `run` sets it up |
| RefTable.Go.StoreValue | wasm/wasm_exec.js:185-233 | the table becomes the stored one, the eight bytes hold the encoding, no other byte changes |
| RefTable.Go.LoadValue | wasm/wasm_exec.js:172-183 | the value the bytes decode to |
| RefTable.Go.FinalizeRef | wasm/wasm_exec.js:342-352 | the table becomes the finalized one, and the invariant stays exactly when Go held the reference |
| Json.EscapedPrefix | dhi/manifest.go:27 | no escape is a prefix of another, so escapes can be read back |
| Json.QuotePrefix | dhi/manifest.go:27 | where a quoted string ends shows in the string |
| Json.PrintPrefix | dhi/manifest.go:27-34 | canonical printing is injective, even before a delimiter |
| Json.PrintInjective | dhi/manifest.go:35 | two values print alike exactly when they are equal |
| Json.PrintableExactly | dhi/manifest.go:27 | a value can be printed exactly when nothing inside it is without a form in JSON |
| Manifest.DecodeCustomization | dhi/manifest.go:38-70 | the in-place deletions compute the normal form, and every malformed input its error |
| Manifest.DecodesExactly | dhi/manifest.go:38-55 | decoding succeeds exactly for a single mapping with something in it; which input gives which error |
| Manifest.NormalExactly | dhi/manifest.go:57-69 | normal forms agree exactly when manifests differ at most in id, rebuild trigger and written-out empty annotations |
| Manifest.CompareExactly | dhi/manifest.go:17-36 | comparing answers exactly for two manifests that decode and print, and says equal exactly when they are for the same image |
| Manifest.EqualIsEquivalence | dhi/manifest.go:15-36 | "equal" is reflexive, symmetric and transitive |
| Manifest.StampKeepsImage | dhi/manifest.go:58-63 | a rebuild stamp keeps a manifest equal to the desired one, unless that has null annotations |
| Manifest.ApplySyncs | dhi/apply-plugin-compiler-customization.sh:68-99 | one apply brings the remote manifest in sync |
| Manifest.AtMostOneEdit | dhi/apply-plugin-compiler-customization.sh:75-99 | over any run of stamps and applies the script edits at most once |
| Manifest.NoEditUncompared | dhi/apply-plugin-compiler-customization.sh:75-81 | a desired manifest that cannot be compared never leads to an edit |
| Manifest.NullAnnotationsEditTwice | dhi/apply-plugin-compiler-customization.sh:75-99 | with null annotations, apply, stamp, apply edits twice |
| Manifest.AtMostOneEditExactly | dhi/apply-plugin-compiler-customization.sh:75-99 | at most one edit, for every remote state and run, exactly when the desired manifest cannot be compared or does not have null annotations |
| ImageName.ParseImageName | policy/manifests.go:48-75 | the parser's assignments compute the parse |
| ImageName.ParseAtSlash | policy/manifests.go:51-73 | the parse in terms of the first slash and the last colon after it |
| ImageName.ParsePrintExactly | policy/manifests.go:130 | parsing a printed name gives the parts back exactly when the registry has no slash and the tag no colon |
| ImageName.PrintParseExactly | policy/manifests.go:48-75 | printing a parsed name gives the name back exactly when it has a slash, and a colon after its first slash |
| ImageName.DefaultsFilledIn | policy/manifests.go:51-73 | a missing registry is docker.io and a missing tag is latest |
| ImageName.GetMatches | policy/manifests.go:117-137 | fails exactly for a registry without usable credentials; else the matches are exactly the repos whose query found the tag, each with a name that parses back |
| Text.JoinSplit | policy/manifests.go:51-60 | joining what was split gives the string back |
| Text.SplitJoin | policy/bundle.go:61-62 | splitting what was joined gives the parts back, when no part holds the separator |

## Left out

- HTTP, rate limiting, JSON decoding and hashing in pkgs/client.go: fetching, downloading and deleting are steps that may fail. That a file already downloaded is not fetched again is not modelled. A transport error crashes the program in `get`, which reads the status of a response that is not there (pkgs/client.go:89-90); the model's failed fetch closes the channel, as every other failure does.
- Clean: the goroutines of pkgs/client.go are a state machine on values, whose steps are the sends, receives and calls of the source; mutexes and progress bars are single steps.
- Plan.BuildPlan: `Render` and the formatting of plans, filters and error messages.
- Tracks.Validate: which of several defects is reported is left open, as the source walks a map.
- golang.org/x/mod/semver is not part of this model: versions follow Semantic Versioning 2.0.0 with the shorthands noted in config/config.yaml:857-860.
- copier, mergo, viper and yaml are not part of this model: merging has its documented meaning (the repository's README.md:543-547), an empty list counts as empty whether or not it is nil, and a `plugincompiler` block is one value.
- Builds.MergeBuilds: excludes a repo-level `Env` with spare capacity, which slices decoded from the configuration do not have; `Builds.AppendTwice` gives exactly what would be left of it. A nil repo-level build, on which the source panics, is excluded by its type.
- Builds.MergeAll: excludes a repo-level `Env` with spare capacity, as in Builds.MergeBuilds.
- Policy.BuildsFor: excludes a repo-level `Env` with spare capacity, as in Builds.MergeBuilds.
- Policy.BranchFor: excludes a repo-level `Env` with spare capacity, as in Builds.MergeBuilds.
- Policy.AllBranches: excludes a repo-level `Env` with spare capacity, as in Builds.MergeBuilds.
- Policy.GetRepoPolicy: excludes a repo-level `Env` with spare capacity, as in Builds.MergeBuilds; leaves out the top-level values of the policy (owner, package name and the like) and the ambiguity of a repo listed in several groups, which is declared undefined.
- Variations: reading and decoding the files, and the listing functions `Repos`, `Branches`, `Triggers` and `Testsuites`.
- Bundle.Bundle.Add: paths are clean, as directory walks give them, so that `filepath.Join` only joins; templates, their execution, formatting and validation are left out.
- Bundle.NewBundle: the directory walk itself; the files it finds are a parameter.
- RefTable.SetInt64: NaN and the infinities, for which the host stores zeros, have no real number; rounding when `getInt64` reads words that no `setInt64` wrote is not modelled.
- RefTable.Go.FinalizeRef: ids beyond the end of the table, for which the host would invent properties, are excluded.
- RefTable: the table is below 2^32-1 entries, the longest array the host has.
- Json.PrintInjective: is about values as printing tells them apart: a number stands for its printed text, and a timestamp is the string it prints as, so that a timestamp and that string are one value. How the host prints floating point numbers is not modelled.
- Manifest.StampKeepsImage: the stamp is its effect on top-level annotations that are missing, null without a word after the key, or a block mapping. The script also drops `io.tyk.rebuild-trigger` lines at any depth, and it appends a second `annotations` key, which is not valid, when the first is written in flow style or with an explicit `null`.
- Manifest: parsing YAML, and listing and editing over the network.
- ImageName.GetMatches: the registry queries and whether credentials decode are parameters; `Match` is left out.
- policy/git.go, policy/github.go, policy/jira.go, env/, orgs/, util/gpg.go, util/gpgagent/, util/secrets.go, the rest of policy/ and cmd/, and the host interface in wasm/wasm_exec.js: network clients, file emission, fixed tables and plumbing.

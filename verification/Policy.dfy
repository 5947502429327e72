/** `GetRepoPolicy`: the group, repo and branch levels of the configuration, folded into the values of
    every branch. */
module Policy {
  import opened Wrappers
  import opened Ordering
  import opened Builds
  import opened BuildIds
  import opened Cascade
  import Sets

  /** A `plugincompiler` block, replaced as a whole by the next level that has one. */
  datatype PluginCompiler = PluginCompiler(settings: map<string, string>)

  /** What can be set at the group, the repo and the branch level, builds apart. */
  datatype Settings = Settings(
    buildenv: string, baseImage: string, distrolessBaseImage: string, cgo: bool, configFile: string,
    versionPackage: string, upgradeFromVer: string, tests: seq<string>, features: seq<string>,
    pluginCompiler: PluginCompiler, deletedFiles: seq<string>)

  const NO_SETTINGS := Settings("", "", "", false, "", "", "", [], [], PluginCompiler(map[]), [])

  datatype BranchVals = BranchVals(settings: Settings, builds: map<string, Build?>)

  datatype RepoConfig = RepoConfig(settings: Settings, builds: map<string, Build>, branches: map<string, BranchVals>)

  datatype Group = Group(settings: Settings, builds: map<string, Build?>, repos: map<string, RepoConfig>)

  datatype Policies = Policies(deletedFiles: seq<string>, groups: map<string, Group>)

  // ---------- Settings ----------

  /** `copier.CopyWithOption` with `IgnoreEmpty`: an empty or zero field is not copied. */
  function CopyNonEmpty(to: Settings, from: Settings): Settings {
    Settings(
      Override(to.buildenv, from.buildenv), Override(to.baseImage, from.baseImage),
      Override(to.distrolessBaseImage, from.distrolessBaseImage),
      if from.cgo then true else to.cgo,
      Override(to.configFile, from.configFile), Override(to.versionPackage, from.versionPackage),
      Override(to.upgradeFromVer, from.upgradeFromVer),
      if from.tests == [] then to.tests else from.tests,
      if from.features == [] then to.features else from.features,
      if from.pluginCompiler.settings == map[] then to.pluginCompiler else from.pluginCompiler,
      if from.deletedFiles == [] then to.deletedFiles else from.deletedFiles)
  }

  /** The value set nearest to the branch: the first of `levels` that is not `empty`. */
  function Nearest<T(==)>(empty: T, levels: seq<T>): T {
    if levels == [] then empty
    else if levels[0] != empty then levels[0]
    else Nearest(empty, levels[1..])
  }

  /** The settings of one branch. `cgo` holds as soon as one level sets it: no level can unset it. */
  ghost function SettingsFor(deleted: seq<string>, g: Settings, r: Settings, b: Settings): Settings {
    Settings(
      Nearest("", [b.buildenv, r.buildenv, g.buildenv]),
      Nearest("", [b.baseImage, r.baseImage, g.baseImage]),
      Nearest("", [b.distrolessBaseImage, r.distrolessBaseImage, g.distrolessBaseImage]),
      b.cgo || r.cgo || g.cgo,
      Nearest("", [b.configFile, r.configFile, g.configFile]),
      Nearest("", [b.versionPackage, r.versionPackage, g.versionPackage]),
      Nearest("", [b.upgradeFromVer, r.upgradeFromVer, g.upgradeFromVer]),
      Nearest([], [b.tests, r.tests, g.tests]),
      SortedStrings(Sets.UnionOf([g.features, r.features, b.features])),
      Nearest(PluginCompiler(map[]), [b.pluginCompiler, r.pluginCompiler, g.pluginCompiler]),
      SortedStrings(Sets.UnionOf([deleted, g.deletedFiles, r.deletedFiles, b.deletedFiles])))
  }

  lemma NearestOfThree<T>(empty: T, b: T, r: T, g: T)
    ensures Nearest(empty, [b, r, g]) ==
            if b != empty then b else if r != empty then r else if g != empty then g else empty
  {
    assert [b, r, g][1..] == [r, g] && [r, g][1..] == [g] && [g][1..] == [];
    assert Nearest(empty, [g]) == if g != empty then g else empty;
    assert Nearest(empty, [r, g]) == if r != empty then r else Nearest(empty, [g]);
  }

  /** Copying level over level, group first, leaves the nearest non-empty value of every field. */
  lemma CopyingIsNearest(g: Settings, r: Settings, b: Settings, deleted: seq<string>, out: Settings)
    requires out == CopyNonEmpty(CopyNonEmpty(CopyNonEmpty(NO_SETTINGS, g), r), b)
    ensures var s := SettingsFor(deleted, g, r, b);
            out.(features := s.features, deletedFiles := s.deletedFiles) == s
  {
    NearestOfThree("", b.buildenv, r.buildenv, g.buildenv);
    NearestOfThree("", b.baseImage, r.baseImage, g.baseImage);
    NearestOfThree("", b.distrolessBaseImage, r.distrolessBaseImage, g.distrolessBaseImage);
    NearestOfThree("", b.configFile, r.configFile, g.configFile);
    NearestOfThree("", b.versionPackage, r.versionPackage, g.versionPackage);
    NearestOfThree("", b.upgradeFromVer, r.upgradeFromVer, g.upgradeFromVer);
    NearestOfThree([], b.tests, r.tests, g.tests);
    NearestOfThree(PluginCompiler(map[]), b.pluginCompiler, r.pluginCompiler, g.pluginCompiler);
  }

  // ---------- Builds of a branch ----------

  /** What a repo's builds say, and what a branch's say, where a pointer may be nil. */
  type RepoVals = map<string, BuildVal>

  type NamedVals = map<string, Option<BuildVal>>

  ghost predicate IsVal(b: Build?, v: Option<BuildVal>)
    reads b, if b == null then {} else {b.env.buf}
  {
    (b != null ==> b.Valid()) && ValOf(b) == v
  }

  ghost predicate BuildsAre(builds: map<string, Build?>, v: NamedVals)
    reads set k | k in builds :: builds[k], set k | k in builds && builds[k] != null :: builds[k].env.buf
  {
    && (forall k :: k in builds <==> k in v)
    && (forall k | k in builds :: IsVal(builds[k], v[k]))
  }

  predicate Wanted(b: Build?, features: seq<string>)
    reads b
  {
    b == null || b.text.feature == "" || b.text.feature in features
  }

  /** `filterBuildsByFeature`: drops builds whose feature the branch does not have. */
  method FilterBuildsByFeature(builds: map<string, Build?>, features: seq<string>) returns (filtered: map<string, Build?>)
    ensures forall k :: k in filtered <==> k in builds && Wanted(builds[k], features)
    ensures forall k | k in filtered :: filtered[k] == builds[k]
  {
    var featureSet := new Sets.Set.FromSlices([features]);
    assert Sets.UnionOf([features]) == Elements(features) by {
      assert forall x | x in features :: x in [features][0];
    }
    filtered := map[];
    var todo := builds.Keys;
    while todo != {}
      invariant todo <= builds.Keys && featureSet.elems == Elements(features)
      invariant forall k :: k in filtered <==>
                  k in builds && k !in todo && Wanted(builds[k], features)
      invariant forall k | k in filtered :: filtered[k] == builds[k]
      decreases |todo|
    {
      var name :| name in todo;
      todo := todo - {name};
      var b := builds[name];
      if b != null && b.text.feature != "" && !featureSet.Has(b.text.feature) {
        continue;
      }
      filtered := filtered[name := b];
    }
  }

  /** `rv` and `bv` are what the two build maps say, reading only objects in `fp`; no repo-level `Env` has
      spare capacity. */
  ghost predicate InputsAre(fp: set<object>, r: map<string, Build>, b: map<string, Build?>,
                            rv: RepoVals, bv: NamedVals)
    reads fp
  {
    && (forall k :: k in r <==> k in rv)
    && (forall k | k in r :: r[k] in fp && r[k].env.buf in fp && Says(r[k], rv[k]) && r[k].env.len == r[k].env.buf.Length)
    && (forall k :: k in b <==> k in bv)
    && (forall k | k in b && b[k] != null :: b[k] in fp && b[k].env.buf in fp)
    && (forall k | k in b :: IsVal(b[k], bv[k]))
  }

  /** The branch adds to the `Env` of the build of this name. */
  predicate Appends(bv: NamedVals, k: string) {
    k in bv && bv[k].Some? && bv[k].value.env != []
  }

  lemma InputReady(fp: set<object>, r: map<string, Build>, b: map<string, Build?>, rv: RepoVals, bv: NamedVals, k: string)
    requires InputsAre(fp, r, b, rv, bv) && k in r
    ensures Ready(r[k], Named(b, k)) && k in rv && Overlaid(rv, bv, k).Some?
    ensures GoalOf(r[k], Named(b, k)) == Goal(Overlaid(rv, bv, k).value, Appends(bv, k), r[k].env)
  {
  }

  lemma FilteredAre(merged: map<string, Build?>, filtered: map<string, Build?>, rv: RepoVals,
                    bv: NamedVals, features: seq<string>)
    requires forall k :: k in merged <==> k in rv || k in bv
    requires forall k | k in merged :: IsVal(merged[k], Overlaid(rv, bv, k))
    requires forall k :: k in filtered <==> k in merged && Wanted(merged[k], features)
    requires forall k | k in filtered :: filtered[k] == merged[k]
    ensures BuildsAre(filtered, BranchBuilds(rv, bv, features))
  {
  }

  /** The builds of one branch: merged, then filtered. */
  method BuildsFor(r: map<string, Build>, b: map<string, Build?>, features: seq<string>,
                   ghost fp: set<object>, ghost rv: RepoVals, ghost bv: NamedVals, ghost known: set<object>)
    returns (out: map<string, Build?>)
    requires InputsAre(fp, r, b, rv, bv)
    ensures BuildsAre(out, BranchBuilds(rv, bv, features))
    ensures forall k | k in out && k in r ::
              out[k] != null && fresh(out[k]) && EnvPlaced(out[k], Appends(bv, k), r[k].env, known)
    ensures forall k | k in out && k !in r :: k in b && out[k] == b[k]
  {
    hide Says, EnvPlaced, GoalOf, Ready, Overlaid, Appends, BuildsAre, BranchBuilds, InputsAre;
    forall k | k in r
      ensures Ready(r[k], Named(b, k)) && k in rv && Overlaid(rv, bv, k).Some?
      ensures GoalOf(r[k], Named(b, k)) == Goal(Overlaid(rv, bv, k).value, Appends(bv, k), r[k].env)
    {
      InputReady(fp, r, b, rv, bv, k);
    }
    var merged := MergeBuilds(r, b, known);
    MergedAre(fp, r, b, merged, rv, bv);
    out := FilterBuildsByFeature(merged, features);
    FilteredAre(merged, out, rv, bv, features);
  }

  lemma MergedAre(fp: set<object>, r: map<string, Build>, b: map<string, Build?>, merged: map<string, Build?>,
                  rv: RepoVals, bv: NamedVals)
    requires InputsAre(fp, r, b, rv, bv)
    requires forall k :: k in merged <==> k in r || k in b
    requires forall k | k in r ::
               merged[k] != null && Overlaid(rv, bv, k).Some? && Says(merged[k], Overlaid(rv, bv, k).value)
    requires forall k | k in b && k !in r :: merged[k] == b[k]
    ensures forall k :: k in merged <==> k in rv || k in bv
    ensures forall k | k in merged :: IsVal(merged[k], Overlaid(rv, bv, k))
  {
  }

  // ---------- The branches of a repo ----------

  /** One round of the loop over branches. What the levels' builds are copied to is overwritten. */
  method BranchFor(deleted: seq<string>, g: Group, r: RepoConfig, bbv: BranchVals,
                   ghost fp: set<object>, ghost rv: RepoVals, ghost bv: NamedVals, ghost known: set<object>)
    returns (rbv: BranchVals)
    requires InputsAre(fp, r.builds, bbv.builds, rv, bv)
    ensures BranchAsConfigured(rbv, deleted, g.settings, r.settings, bbv.settings, rv, bv)
    ensures forall k | k in rbv.builds && k in r.builds ::
              rbv.builds[k] != null && fresh(rbv.builds[k]) &&
              EnvPlaced(rbv.builds[k], Appends(bv, k), r.builds[k].env, known)
    ensures forall k | k in rbv.builds && k !in r.builds :: k in bbv.builds && rbv.builds[k] == bbv.builds[k]
  {
    hide InputsAre, BuildsAre, BranchBuilds, CopyNonEmpty, Nearest, SortedStrings, Sets.UnionOf, EnvPlaced, Appends;
    var s := CopyNonEmpty(NO_SETTINGS, g.settings);
    var builds: map<string, Build?> := g.builds;
    s := CopyNonEmpty(s, r.settings);
    builds := if |r.builds| == 0 then builds else r.builds;
    s := CopyNonEmpty(s, bbv.settings);
    builds := if |bbv.builds| == 0 then builds else bbv.builds;
    CopyingIsNearest(g.settings, r.settings, bbv.settings, deleted, s);
    var features := Union([g.settings.features, r.settings.features, bbv.settings.features]);
    var deletedFiles := Union([deleted, g.settings.deletedFiles, r.settings.deletedFiles, bbv.settings.deletedFiles]);
    s := s.(features := features, deletedFiles := deletedFiles);
    assert s == SettingsFor(deleted, g.settings, r.settings, bbv.settings);
    builds := BuildsFor(r.builds, bbv.builds, features, fp, rv, bv, known);
    rbv := BranchVals(s, builds);
  }

  /** `NewSetFromSlices(vals...).Members()`. */
  method Union(vals: seq<seq<string>>) returns (r: seq<string>)
    ensures r == SortedStrings(Sets.UnionOf(vals))
  {
    var s := new Sets.Set.FromSlices(vals);
    r := s.Members();
  }

  /** `rv` and `want` are what the repo's and its branches' build maps say. */
  ghost predicate ConfigIs(fp: set<object>, r: RepoConfig, rv: RepoVals,
                           want: map<string, NamedVals>)
    reads fp
  {
    forall b | b in r.branches :: b in want && InputsAre(fp, r.builds, r.branches[b].builds, rv, want[b])
  }

  /** The values of one branch, from the configuration alone. */
  ghost predicate BranchAsConfigured(out: BranchVals, deleted: seq<string>, g: Settings, r: Settings, b: Settings,
                                     rv: RepoVals, bv: NamedVals)
    reads set k | k in out.builds :: out.builds[k],
          set k | k in out.builds && out.builds[k] != null :: out.builds[k].env.buf
  {
    var s := SettingsFor(deleted, g, r, b);
    out.settings == s && BuildsAre(out.builds, BranchBuilds(rv, bv, s.features))
  }

  /** `BranchAsConfigured`, reading only objects in `seen`. */
  ghost predicate ConfiguredIn(seen: set<object>, out: BranchVals, deleted: seq<string>, g: Settings, r: Settings,
                               b: Settings, rv: RepoVals, bv: NamedVals)
    reads seen
  {
    && (forall k | k in out.builds && out.builds[k] != null :: out.builds[k] in seen && out.builds[k].env.buf in seen)
    && BranchAsConfigured(out, deleted, g, r, b, rv, bv)
  }

  ghost function Footprint(builds: map<string, Build?>): set<object>
    reads set k | k in builds :: builds[k]
  {
    (set k | k in builds && builds[k] != null :: builds[k] as object) +
    (set k | k in builds && builds[k] != null :: builds[k].env.buf as object)
  }

  ghost predicate Done(seen: set<object>, all: map<string, BranchVals>, deleted: seq<string>, g: Settings, r: RepoConfig,
                       rv: RepoVals, want: map<string, NamedVals>)
    reads seen
  {
    forall b | b in all :: b in r.branches && b in want &&
      ConfiguredIn(seen, all[b], deleted, g, r.settings, r.branches[b].settings, rv, want[b])
  }

  lemma DoneExtend(seen: set<object>, all: map<string, BranchVals>, deleted: seq<string>, g: Settings, r: RepoConfig,
                   rv: RepoVals, want: map<string, NamedVals>, b: string, rbv: BranchVals)
    requires Done(seen, all, deleted, g, r, rv, want) && b in r.branches && b in want
    requires BranchAsConfigured(rbv, deleted, g, r.settings, r.branches[b].settings, rv, want[b])
    ensures Done(seen + Footprint(rbv.builds), all[b := rbv], deleted, g, r, rv, want)
  {
    hide BranchAsConfigured;
  }

  /** No build the repo names is the same object in two branches. Their `Env` may still share an array: see
      `EnvsSharedExactly`. */
  ghost predicate Apart(r: map<string, Build>, all: map<string, BranchVals>) {
    forall b, c, j, k | b in all && c in all && b != c && j in r && j in all[b].builds && k in all[c].builds ::
      all[b].builds[j] != all[c].builds[k]
  }

  /** Builds the repo names are in `made`, the others in `shared`. */
  ghost predicate Owns(r: map<string, Build>, builds: map<string, Build?>, made: set<Build?>, shared: set<Build?>) {
    forall k | k in builds :: builds[k] in if k in r then made else shared
  }

  ghost predicate Sharing(r: RepoConfig, all: map<string, BranchVals>, made: set<Build?>) {
    Apart(r.builds, all) && forall b | b in all :: Owns(r.builds, all[b].builds, made, Configured(r))
  }

  ghost function Configured(r: RepoConfig): set<Build?> {
    set b, k | b in r.branches && k in r.branches[b].builds :: r.branches[b].builds[k]
  }

  ghost function Made(r: RepoConfig, rbv: BranchVals): set<Build?> {
    set k | k in rbv.builds && k in r.builds :: rbv.builds[k]
  }

  lemma SharingExtend(r: RepoConfig, all: map<string, BranchVals>, b: string, rbv: BranchVals, made: set<Build?>)
    requires Sharing(r, all, made) && b in r.branches && b !in all
    requires made !! Configured(r) && Made(r, rbv) !! made + Configured(r)
    requires forall k | k in rbv.builds && k !in r.builds ::
               k in r.branches[b].builds && rbv.builds[k] == r.branches[b].builds[k]
    ensures Sharing(r, all[b := rbv], made + Made(r, rbv))
  {
    assert Owns(r.builds, rbv.builds, Made(r, rbv), Configured(r));
  }

  // ---------- Shared arrays ----------

  ghost predicate SharesEnv(m: Build?, n: Build?)
    requires m != null && n != null
    reads m, n
  {
    m.env.buf == n.env.buf
  }

  /** In two branches, a build that the repo names has its `Env` in one array exactly when neither branch
      appends to it: it is then the repo's own. */
  ghost predicate EnvsSharedExactly(r: map<string, Build>, all: map<string, BranchVals>, want: map<string, NamedVals>)
    reads set b, k | b in all && k in all[b].builds :: all[b].builds[k]
  {
    forall b, c, k | b in all && c in all && b != c && k in r && k in all[b].builds && k in all[c].builds ::
      b in want && c in want && all[b].builds[k] != null && all[c].builds[k] != null &&
      (SharesEnv(all[b].builds[k], all[c].builds[k]) <==> !Appends(want[b], k) && !Appends(want[c], k))
  }

  /** The same, reading only objects in `fp` and `seen`, with what says where the arrays are. */
  ghost predicate EnvsIn(fp: set<object>, seen: set<object>, r: map<string, Build>, all: map<string, BranchVals>,
                         want: map<string, NamedVals>)
    reads fp, seen
  {
    && (forall b | b in all :: b in want && EnvsOf(fp, seen, r, all[b].builds, want[b]))
    && (forall b, c, k | b in all && c in all && b != c && k in r && k in all[b].builds && k in all[c].builds ::
          SharesEnv(all[b].builds[k], all[c].builds[k]) <==> !Appends(want[b], k) && !Appends(want[c], k))
  }

  ghost predicate EnvsOf(fp: set<object>, seen: set<object>, r: map<string, Build>, builds: map<string, Build?>, bv: NamedVals)
    reads fp, seen
  {
    forall k | k in r && k in builds ::
      r[k] in fp && r[k].env.buf in fp && builds[k] != null && builds[k] in seen && builds[k].env.buf in seen &&
      EnvPlaced(builds[k], Appends(bv, k), r[k].env, fp)
  }

  lemma EnvsExtend(fp: set<object>, seen: set<object>, r: map<string, Build>, all: map<string, BranchVals>,
                   want: map<string, NamedVals>, b: string, rbv: BranchVals)
    requires EnvsIn(fp, seen, r, all, want) && b in want && b !in all
    requires forall k | k in r :: r[k] in fp && r[k].env.buf in fp
    requires forall k | k in rbv.builds && k in r ::
               rbv.builds[k] != null && EnvPlaced(rbv.builds[k], Appends(want[b], k), r[k].env, fp + seen)
    ensures EnvsIn(fp, seen + Footprint(rbv.builds), r, all[b := rbv], want)
  {
    hide Appends;
  }

  lemma InputFootprint(fp: set<object>, r: map<string, Build>, b: map<string, Build?>, rv: RepoVals, bv: NamedVals)
    requires InputsAre(fp, r, b, rv, bv)
    ensures forall k | k in r :: r[k] in fp && r[k].env.buf in fp
  {
  }

  /** How far the loop over branches has come: what it has computed, and with which objects. */
  ghost predicate Progress(fp: set<object>, seen: set<object>, made: set<Build?>, all: map<string, BranchVals>,
                           deleted: seq<string>, g: Settings, r: RepoConfig, rv: RepoVals, want: map<string, NamedVals>)
    reads fp, seen
  {
    && Done(seen, all, deleted, g, r, rv, want)
    && Sharing(r, all, made) && made !! Configured(r)
    && EnvsIn(fp, seen, r.builds, all, want)
  }

  /** One round of the loop over branches, with the objects it makes. */
  method NextBranch(deleted: seq<string>, g: Group, r: RepoConfig, ghost all: map<string, BranchVals>, b: string,
                    ghost fp: set<object>, ghost rv: RepoVals, ghost want: map<string, NamedVals>,
                    ghost seen: set<object>, ghost made: set<Build?>)
    returns (rbv: BranchVals, ghost seen2: set<object>, ghost made2: set<Build?>)
    requires ConfigIs(fp, r, rv, want) && b in r.branches && b !in all
    requires Progress(fp, seen, made, all, deleted, g.settings, r, rv, want)
    ensures Progress(fp, seen2, made2, all[b := rbv], deleted, g.settings, r, rv, want)
  {
    hide InputsAre, BranchAsConfigured, Done, Sharing, EnvsIn, Footprint, EnvPlaced, Appends;
    ghost var given := Configured(r);
    assert forall m | m in given :: m == null || !fresh(m);
    InputFootprint(fp, r.builds, r.branches[b].builds, rv, want[b]);
    rbv := BranchFor(deleted, g, r, r.branches[b], fp, rv, want[b], fp + seen);
    assert forall m | m in Made(r, rbv) :: m != null && fresh(m);
    assert forall m | m in Made(r, rbv) :: m !in made && m !in given;
    DoneExtend(seen, all, deleted, g.settings, r, rv, want, b, rbv);
    SharingExtend(r, all, b, rbv, made);
    EnvsExtend(fp, seen, r.builds, all, want, b, rbv);
    seen2, made2 := seen + Footprint(rbv.builds), made + Made(r, rbv);
  }

  /** The loop over branches, in whatever order the map gives them. */
  method AllBranches(deleted: seq<string>, g: Group, r: RepoConfig, ghost fp: set<object>,
                     ghost rv: RepoVals, ghost want: map<string, NamedVals>)
    returns (all: map<string, BranchVals>)
    requires ConfigIs(fp, r, rv, want)
    ensures forall b :: b in all <==> b in r.branches
    ensures forall b | b in all :: b in want &&
              BranchAsConfigured(all[b], deleted, g.settings, r.settings, r.branches[b].settings, rv, want[b])
    ensures Apart(r.builds, all) && EnvsSharedExactly(r.builds, all, want)
  {
    hide ConfigIs, Progress, BranchAsConfigured, Apart, EnvsSharedExactly;
    ghost var seen: set<object>, made: set<Build?> := {}, {};
    all := map[];
    NothingDone(fp, seen, deleted, g.settings, r, rv, want);
    var todo := r.branches.Keys;
    while todo != {}
      invariant todo <= r.branches.Keys
      invariant forall b :: b in all <==> b in r.branches && b !in todo
      invariant ConfigIs(fp, r, rv, want) && Progress(fp, seen, made, all, deleted, g.settings, r, rv, want)
      decreases |todo|
    {
      var b :| b in todo;
      todo := todo - {b};
      var rbv;
      rbv, seen, made := NextBranch(deleted, g, r, all, b, fp, rv, want, seen, made);
      all := all[b := rbv];
    }
    AllDone(fp, seen, all, deleted, g.settings, r, rv, want, made);
  }

  lemma NothingDone(fp: set<object>, seen: set<object>, deleted: seq<string>, g: Settings, r: RepoConfig,
                    rv: RepoVals, want: map<string, NamedVals>)
    ensures Progress(fp, seen, {}, map[], deleted, g, r, rv, want)
  {
  }

  lemma AllDone(fp: set<object>, seen: set<object>, all: map<string, BranchVals>, deleted: seq<string>, g: Settings,
                r: RepoConfig, rv: RepoVals, want: map<string, NamedVals>, made: set<Build?>)
    requires Progress(fp, seen, made, all, deleted, g, r, rv, want)
    ensures forall b | b in all :: b in r.branches && b in want &&
              BranchAsConfigured(all[b], deleted, g, r.settings, r.branches[b].settings, rv, want[b])
    ensures Apart(r.builds, all) && EnvsSharedExactly(r.builds, all, want)
  {
    hide BranchAsConfigured, Apart, Owns, Appends, EnvPlaced;
  }

  /** What one repo's build maps say, at the repo level and in each branch. */
  datatype RepoView = RepoView(builds: RepoVals, branches: map<string, NamedVals>)

  /** The branches computed for a repo: each from its own levels alone, each once, none sharing a build
      that the repo names. */
  ghost predicate RepoAsConfigured(all: map<string, BranchVals>, deleted: seq<string>, g: Group, r: RepoConfig,
                                   view: RepoView)
    reads set b, k | b in all && k in all[b].builds :: all[b].builds[k],
          set b, k | b in all && k in all[b].builds && all[b].builds[k] != null :: all[b].builds[k].env.buf
  {
    && (forall b :: b in all <==> b in r.branches)
    && (forall b | b in all :: b in r.branches && b in view.branches &&
          BranchAsConfigured(all[b], deleted, g.settings, r.settings, r.branches[b].settings,
                             view.builds, view.branches[b]))
    && Apart(r.builds, all) && EnvsSharedExactly(r.builds, all, view.branches)
  }

  /** `GetRepoPolicy`, up to the top-level values of the policy. It changes no object that existed before.
      A repo listed in several groups is taken from any one of them. */
  method GetRepoPolicy(p: Policies, repo: string, ghost fp: set<object>, ghost views: map<string, RepoView>)
    returns (res: Result<map<string, BranchVals>, string>)
    requires forall g | g in p.groups && repo in p.groups[g].repos ::
               g in views && ConfigIs(fp, p.groups[g].repos[repo], views[g].builds, views[g].branches)
    ensures res.Failure? <==> forall g | g in p.groups :: repo !in p.groups[g].repos
    ensures res.Success? ==> exists g | g in p.groups && repo in p.groups[g].repos && g in views ::
              RepoAsConfigured(res.value, p.deletedFiles, p.groups[g], p.groups[g].repos[repo], views[g])
  {
    hide ConfigIs, BranchAsConfigured, Apart, EnvsSharedExactly;
    var todo := p.groups.Keys;
    while todo != {}
      invariant todo <= p.groups.Keys
      invariant forall g | g in p.groups && g !in todo :: repo !in p.groups[g].repos
      decreases |todo|
    {
      var grpName :| grpName in todo;
      todo := todo - {grpName};
      var group := p.groups[grpName];
      if repo in group.repos {
        var view := views[grpName];
        var all := AllBranches(p.deletedFiles, group, group.repos[repo], fp, view.builds, view.branches);
        assert RepoAsConfigured(all, p.deletedFiles, group, group.repos[repo], view);
        return Success(all);
      }
    }
    return Failure("repo " + repo + " unknown");
  }

  // ---------- Builds of the group ----------

  /** A map of builds says one thing. */
  lemma BuildsAreOne(builds: map<string, Build?>, v: NamedVals, w: NamedVals)
    requires BuildsAre(builds, v)
    ensures BuildsAre(builds, w) <==> v == w
  {
    if BuildsAre(builds, w) {
      assert forall k :: k in v <==> k in w;
      assert forall k | k in v :: v[k] == ValOf(builds[k]) == w[k];
    }
  }

  /** Whatever builds the group gives, every branch of the repo gets the same settings and builds that say
      the same. */
  lemma GroupBuildsIgnored(one: map<string, BranchVals>, two: map<string, BranchVals>, deleted: seq<string>, g: Group,
                           other: map<string, Build?>, r: RepoConfig, view: RepoView)
    requires RepoAsConfigured(one, deleted, g, r, view)
    requires RepoAsConfigured(two, deleted, g.(builds := other), r, view)
    ensures forall b :: b in one <==> b in two
    ensures forall b | b in one :: one[b].settings == two[b].settings &&
              exists v :: BuildsAre(one[b].builds, v) && BuildsAre(two[b].builds, v)
  {
    hide Apart, EnvsSharedExactly, BuildsAre;
    forall b | b in one
      ensures one[b].settings == two[b].settings && exists v :: BuildsAre(one[b].builds, v) && BuildsAre(two[b].builds, v)
    {
      var v := BranchBuilds(view.builds, view.branches[b], one[b].settings.features);
      assert BuildsAre(one[b].builds, v) && BuildsAre(two[b].builds, v);
    }
  }

  /** A branch gets the builds that overlaying group, repo and branch would give exactly when none of the
      group's builds can be missed. */
  lemma CascadeReachedExactly(all: map<string, BranchVals>, deleted: seq<string>, g: Group, r: RepoConfig, view: RepoView,
                              gv: NamedVals, b: string)
    requires RepoAsConfigured(all, deleted, g, r, view) && b in all && BuildsAre(g.builds, gv)
    ensures b in view.branches
    ensures BuildsAre(all[b].builds, CascadedBuilds(gv, view.builds, view.branches[b], all[b].settings.features)) <==>
            forall k | k in gv :: Unmissed(gv[k], k, view.builds, view.branches[b], all[b].settings.features)
  {
    hide Apart, EnvsSharedExactly, BuildsAre, Unmissed, CascadedBuilds, BranchBuilds;
    var bv, f := view.branches[b], all[b].settings.features;
    BuildsAreOne(all[b].builds, BranchBuilds(view.builds, bv, f), CascadedBuilds(gv, view.builds, bv, f));
    GroupBuildsMissedExactly(gv, view.builds, bv, f);
  }
}

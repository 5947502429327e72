/** What a configured branch comes to, field by field, in terms of what the levels say. */
module Levels {
  import opened Wrappers
  import opened Ordering
  import opened Builds
  import opened BuildIds
  import opened Policy
  import Sets

  // ---------- Settings ----------

  /** `x` is what the nearest of branch, repo and group gives, or `empty` when none gives anything. */
  predicate FromNearest<T(==)>(x: T, empty: T, b: T, r: T, g: T) {
    && (b != empty ==> x == b)
    && (b == empty && r != empty ==> x == r)
    && (b == empty && r == empty ==> x == g)
  }

  ghost predicate SortedUnion(xs: seq<string>, lists: seq<seq<string>>) {
    Increasing(StringLess, xs) && forall f :: f in xs <==> exists i | 0 <= i < |lists| :: f in lists[i]
  }

  lemma UnionIsSorted(lists: seq<seq<string>>)
    ensures SortedUnion(SortedStrings(Sets.UnionOf(lists)), lists)
  {
    var xs := SortedStrings(Sets.UnionOf(lists));
    forall f ensures f in xs <==> exists i | 0 <= i < |lists| :: f in lists[i] {
      assert f in xs <==> f in Elements(xs);
    }
  }

  lemma NearestIs<T>(empty: T, b: T, r: T, g: T)
    ensures FromNearest(Nearest(empty, [b, r, g]), empty, b, r, g)
  {
    NearestOfThree(empty, b, r, g);
  }

  /** Every setting of a branch: nearest value, except that `cgo` is set by any level, features are the sorted
      union of three levels and deleted files that of four. */
  lemma SettingsExactly(out: BranchVals, deleted: seq<string>, g: Settings, r: Settings, b: Settings,
                        rv: RepoVals, bv: NamedVals)
    requires BranchAsConfigured(out, deleted, g, r, b, rv, bv)
    ensures var s := out.settings;
            && FromNearest(s.buildenv, "", b.buildenv, r.buildenv, g.buildenv)
            && FromNearest(s.baseImage, "", b.baseImage, r.baseImage, g.baseImage)
            && FromNearest(s.distrolessBaseImage, "", b.distrolessBaseImage, r.distrolessBaseImage, g.distrolessBaseImage)
            && FromNearest(s.configFile, "", b.configFile, r.configFile, g.configFile)
            && FromNearest(s.versionPackage, "", b.versionPackage, r.versionPackage, g.versionPackage)
            && FromNearest(s.upgradeFromVer, "", b.upgradeFromVer, r.upgradeFromVer, g.upgradeFromVer)
            && FromNearest(s.tests, [], b.tests, r.tests, g.tests)
            && FromNearest(s.pluginCompiler, PluginCompiler(map[]), b.pluginCompiler, r.pluginCompiler, g.pluginCompiler)
            && (s.cgo <==> b.cgo || r.cgo || g.cgo)
            && SortedUnion(s.features, [g.features, r.features, b.features])
            && SortedUnion(s.deletedFiles, [deleted, g.deletedFiles, r.deletedFiles, b.deletedFiles])
  {
    hide BuildsAre, Nearest, SortedStrings, SortedUnion, FromNearest;
    NearestIs("", b.buildenv, r.buildenv, g.buildenv);
    NearestIs("", b.baseImage, r.baseImage, g.baseImage);
    NearestIs("", b.distrolessBaseImage, r.distrolessBaseImage, g.distrolessBaseImage);
    NearestIs("", b.configFile, r.configFile, g.configFile);
    NearestIs("", b.versionPackage, r.versionPackage, g.versionPackage);
    NearestIs("", b.upgradeFromVer, r.upgradeFromVer, g.upgradeFromVer);
    NearestIs([], b.tests, r.tests, g.tests);
    NearestIs(PluginCompiler(map[]), b.pluginCompiler, r.pluginCompiler, g.pluginCompiler);
    UnionIsSorted([g.features, r.features, b.features]);
    UnionIsSorted([deleted, g.deletedFiles, r.deletedFiles, b.deletedFiles]);
  }

  // ---------- Builds ----------

  /** The branch's text wherever it gives one. */
  predicate Picks(x: string, above: string, below: string) {
    (above != "" ==> x == above) && (above == "" ==> x == below)
  }

  predicate TextPicked(t: BuildText, s: BuildText, d: BuildText) {
    && Picks(t.dir, s.dir, d.dir) && Picks(t.main, s.main, d.main) && Picks(t.binary, s.binary, d.binary)
    && Picks(t.versionPackage, s.versionPackage, d.versionPackage)
    && Picks(t.buildPackageName, s.buildPackageName, d.buildPackageName)
    && Picks(t.description, s.description, d.description) && Picks(t.imageTitle, s.imageTitle, d.imageTitle)
    && Picks(t.pcRepo, s.pcRepo, d.pcRepo) && Picks(t.upgradeRepo, s.upgradeRepo, d.upgradeRepo)
    && Picks(t.dhRepo, s.dhRepo, d.dhRepo) && Picks(t.csRepo, s.csRepo, d.csRepo) && Picks(t.ciRepo, s.ciRepo, d.ciRepo)
    && Picks(t.dockerBaseImage, s.dockerBaseImage, d.dockerBaseImage) && Picks(t.feature, s.feature, d.feature)
  }

  /** `v` is the repo's build with the branch's over it. */
  predicate Overlays(v: BuildVal, s: BuildVal, d: BuildVal) {
    && TextPicked(v.text, s.text, d.text)
    && v.env == d.env + s.env
    && v.flags == (if s.flags == [] then d.flags else s.flags)
    && v.archs == (if s.archs == [] then d.archs else s.archs)
  }

  /** The feature the build of this name asks for: the branch's if it gives one, else the repo's; "" for none. */
  function FeatureOf(rv: RepoVals, bv: NamedVals, k: string): string {
    if k in bv && bv[k].Some? && bv[k].value.text.feature != "" then bv[k].value.text.feature
    else if k in rv then rv[k].text.feature
    else ""
  }

  /** A branch has a build exactly when the repo or the branch names it and it asks for no feature, or for one
      that the group, the repo or the branch gives. */
  lemma BuildKeptExactly(out: BranchVals, deleted: seq<string>, g: Settings, r: Settings, b: Settings,
                         rv: RepoVals, bv: NamedVals, k: string)
    requires BranchAsConfigured(out, deleted, g, r, b, rv, bv)
    ensures k in out.builds <==>
            (k in rv || k in bv) &&
            var f := FeatureOf(rv, bv, k);
            f == "" || f in g.features || f in r.features || f in b.features
  {
    var lists := [g.features, r.features, b.features];
    UnionIsSorted(lists);
    var f := FeatureOf(rv, bv, k);
    assert f in out.settings.features <==> f in lists[0] || f in lists[1] || f in lists[2];
  }

  /** What each build of a branch says: both levels over each other, or the only level that gives it. */
  lemma BuildSaysExactly(out: BranchVals, deleted: seq<string>, g: Settings, r: Settings, b: Settings,
                         rv: RepoVals, bv: NamedVals, k: string)
    requires BranchAsConfigured(out, deleted, g, r, b, rv, bv)
    requires k in out.builds
    ensures out.builds[k] == null <==> k !in rv && k in bv && bv[k].None?
    ensures out.builds[k] != null ==>
              out.builds[k].Valid() &&
              var v := out.builds[k].Val();
              && (k in rv && k in bv && bv[k].Some? ==> Overlays(v, bv[k].value, rv[k]))
              && (k in rv && (k !in bv || bv[k].None?) ==> v == rv[k])
              && (k !in rv ==> k in bv && bv[k] == Some(v))
  {
    assert IsVal(out.builds[k], Overlaid(rv, bv, k));
  }
}

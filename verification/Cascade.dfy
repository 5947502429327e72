/** Builds given at the group level: what overlaying group, repo and branch would make of them, and exactly
    when the values a branch gets are that. */
module Cascade {
  import opened Wrappers
  import opened Builds
  import opened BuildIds

  /** One build over another, where either may be a nil pointer. */
  function Over(below: Option<BuildVal>, above: Option<BuildVal>): Option<BuildVal> {
    if above.None? then below else if below.None? then above else Some(MergeVal(below.value, above.value))
  }

  function At(m: map<string, Option<BuildVal>>, k: string): Option<BuildVal> {
    if k in m then m[k] else None
  }

  /** The build of one name with all three levels over each other. */
  function CascadedAt(g: map<string, Option<BuildVal>>, r: map<string, BuildVal>, b: map<string, Option<BuildVal>>, k: string)
    : Option<BuildVal>
  {
    Over(Over(At(g, k), if k in r then Some(r[k]) else None), At(b, k))
  }

  /** The builds a branch would get if values cascaded from the group. */
  function CascadedBuilds(g: map<string, Option<BuildVal>>, r: map<string, BuildVal>, b: map<string, Option<BuildVal>>,
                          features: seq<string>): map<string, Option<BuildVal>>
  {
    map k | k in g.Keys + r.Keys + b.Keys && Kept(CascadedAt(g, r, b, k), features) :: CascadedAt(g, r, b, k)
  }

  predicate Hidden(below: string, above: string) {
    below == "" || above != ""
  }

  /** Everything `d` says is said again by `s`, and it has no `Env`. */
  predicate AddsNothing(d: BuildVal, s: BuildVal) {
    var x, y := d.text, s.text;
    && Hidden(x.dir, y.dir) && Hidden(x.main, y.main) && Hidden(x.binary, y.binary)
    && Hidden(x.versionPackage, y.versionPackage) && Hidden(x.buildPackageName, y.buildPackageName)
    && Hidden(x.description, y.description) && Hidden(x.imageTitle, y.imageTitle)
    && Hidden(x.pcRepo, y.pcRepo) && Hidden(x.upgradeRepo, y.upgradeRepo) && Hidden(x.dhRepo, y.dhRepo)
    && Hidden(x.csRepo, y.csRepo) && Hidden(x.ciRepo, y.ciRepo)
    && Hidden(x.dockerBaseImage, y.dockerBaseImage) && Hidden(x.feature, y.feature)
    && (d.flags == [] || s.flags != []) && d.env == [] && (d.archs == [] || s.archs != [])
  }

  lemma AddsNothingExactly(d: BuildVal, s: BuildVal)
    ensures MergeVal(d, s) == s <==> AddsNothing(d, s)
  {
    assert |d.env + s.env| == |d.env| + |s.env|;
  }

  /** Merging may be done from either end. */
  lemma MergeAssociative(a: BuildVal, b: BuildVal, c: BuildVal)
    ensures MergeVal(MergeVal(a, b), c) == MergeVal(a, MergeVal(b, c))
  {
    assert (a.env + b.env) + c.env == a.env + (b.env + c.env);
  }

  /** The group's build of this name cannot be missed: another level gives the name and either says all that
      it says or is dropped for its feature, or no level does and its own feature drops it. */
  predicate Unmissed(g: Option<BuildVal>, k: string, r: map<string, BuildVal>, b: map<string, Option<BuildVal>>,
                     features: seq<string>)
  {
    if k !in r && k !in b then !Kept(g, features)
    else
      g.None? || (Overlaid(r, b, k).Some? &&
                  (AddsNothing(g.value, Overlaid(r, b, k).value) || !Kept(Overlaid(r, b, k), features)))
  }

  lemma CascadedUnder(g: map<string, Option<BuildVal>>, r: map<string, BuildVal>, b: map<string, Option<BuildVal>>, k: string)
    requires k in r || k in b
    ensures CascadedAt(g, r, b, k) == Over(At(g, k), Overlaid(r, b, k))
  {
    hide MergeVal;
    if At(g, k).Some? && k in r && At(b, k).Some? {
      MergeAssociative(g[k].value, r[k], b[k].value);
    }
  }

  lemma UnmissedExactly(g: map<string, Option<BuildVal>>, r: map<string, BuildVal>, b: map<string, Option<BuildVal>>,
                        features: seq<string>, k: string)
    requires k in g
    ensures Unmissed(g[k], k, r, b, features) <==>
            (k in CascadedBuilds(g, r, b, features) <==> k in BranchBuilds(r, b, features)) &&
            (k in BranchBuilds(r, b, features) ==> CascadedBuilds(g, r, b, features)[k] == BranchBuilds(r, b, features)[k])
  {
    hide AddsNothing;
    if k in r || k in b {
      CascadedUnder(g, r, b, k);
      if g[k].Some? && Overlaid(r, b, k).Some? {
        AddsNothingExactly(g[k].value, Overlaid(r, b, k).value);
      }
    }
  }

  /** A branch gets what overlaying group, repo and branch would give exactly when no group build can be
      missed. */
  lemma GroupBuildsMissedExactly(g: map<string, Option<BuildVal>>, r: map<string, BuildVal>, b: map<string, Option<BuildVal>>,
                                 features: seq<string>)
    ensures BranchBuilds(r, b, features) == CascadedBuilds(g, r, b, features) <==>
            forall k | k in g :: Unmissed(g[k], k, r, b, features)
  {
    hide Unmissed, MergeVal;
    var got, wanted := BranchBuilds(r, b, features), CascadedBuilds(g, r, b, features);
    forall k
      ensures (k in wanted <==> k in got) && (k in got ==> wanted[k] == got[k]) <==> k !in g || Unmissed(g[k], k, r, b, features)
    {
      if k in g {
        UnmissedExactly(g, r, b, features, k);
      } else if k in r || k in b {
        CascadedUnder(g, r, b, k);
      }
    }
    if forall k | k in g :: Unmissed(g[k], k, r, b, features) {
      assert wanted == got;
    }
  }

  /** A build that only the group gives, for any repo and branch without builds: it reaches no branch. */
  lemma GroupBuildLost() returns (g: map<string, Option<BuildVal>>)
    ensures "std" in CascadedBuilds(g, map[], map[], []) && "std" !in BranchBuilds(map[], map[], [])
  {
    var blank := BuildText("", "", "", "", "", "", "", "", "", "", "", "", "", "");
    g := map["std" := Some(BuildVal(blank, [], [], []))];
  }
}

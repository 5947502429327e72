/** The decision procedure of `pkgs clean`, and how far the plan previews it. */
module Filter {
  import opened Wrappers
  import opened Packages
  import opened Semver
  import opened Tracks
  import opened Plan
  import opened Ordering
  import opened Sets

  predicate VersionSelects(cfg: PkgConfig, v: string) {
    IsValid(cfg.versionCutoff) && IsValid(v) && Precedes(v, cfg.versionCutoff)
  }

  /** What a filter made from `cfg` selects for removal at `now`, straight from the config. */
  predicate Selects(cfg: PkgConfig, item: Package, now: int) {
    var v := VersionOf(item);
    v !in cfg.exceptions && (VersionSelects(cfg, v) || TooOld(cfg.ageCutoff, item, now))
  }

  datatype FilterError = UnknownRepo(name: string) | BadCutoff(cutoff: string)

  class Filter {
    const exceptions: Set
    const version: string
    const age: Duration
    var total: nat
    var filtered: nat

    constructor (exceptions: Set, version: string, age: Duration)
      ensures this.exceptions == exceptions && this.version == version && this.age == age
      ensures total == 0 && filtered == 0
    {
      this.exceptions, this.version, this.age := exceptions, version, age;
      total, filtered := 0, 0;
    }

    /** This filter was made from `cfg`. */
    ghost predicate MadeFrom(cfg: PkgConfig)
      reads exceptions
    {
      exceptions.elems == Elements(cfg.exceptions) && version == Canonical(cfg.versionCutoff) && age == cfg.ageCutoff
    }

    method Satisfies(item: Package, now: int, ghost cfg: PkgConfig) returns (selected: bool)
      requires MadeFrom(cfg)
      ensures selected <==> Selects(cfg, item, now)
    {
      hide Parse;
      CanonicalEquivalent(cfg.versionCutoff, VersionOf(item));
      EmptyNotAVersion();
      var v := "v" + Translate(item.version);
      if exceptions.Has(v) {
        return false;
      }
      if version != "" && IsValid(v) {
        if Compare(v, version) < 0 {
          return true;
        }
      }
      if age != 0 {
        var pAge := TimeSub(now, item.createTime);
        if pAge > age {
          return true;
        }
      }
      return false;
    }

    method IncTotal()
      modifies this
      ensures total == old(total) + 1 && filtered == old(filtered)
    {
      total := total + 1;
    }

    method IncFiltered()
      modifies this
      ensures filtered == old(filtered) + 1 && total == old(total)
    {
      filtered := filtered + 1;
    }
  }

  lemma EmptyNotAVersion()
    ensures !IsValid("")
  {
  }

  /** The error branch for a malformed cutoff is dead: a malformed cutoff canonicalises to the
      empty string and silently switches the version rule off. */
  method MakeFilter(repos: map<string, PkgConfig>, repoName: string) returns (r: Result<Filter, FilterError>)
    ensures repoName !in repos ==> r == Failure(UnknownRepo(repoName))
    ensures repoName in repos ==> r.Success? && fresh(r.value) && fresh(r.value.exceptions)
                                  && r.value.MadeFrom(repos[repoName]) && r.value.total == 0 && r.value.filtered == 0
  {
    if repoName !in repos {
      return Failure(UnknownRepo(repoName));
    }
    var repo := repos[repoName];
    var v := Canonical(repo.versionCutoff);
    CanonicalEquivalent(repo.versionCutoff, "");
    if v != "" && !IsValid(v) {
      return Failure(BadCutoff(repo.versionCutoff));
    }
    var exceptions := new Set.FromSlices([repo.exceptions]);
    assert UnionOf([repo.exceptions]) == Elements(repo.exceptions) by {
      assert [repo.exceptions][0] == repo.exceptions;
      UnionOfAppend([], repo.exceptions);
      assert [] + [repo.exceptions] == [repo.exceptions];
    }
    var f := new Filter(exceptions, v, repo.ageCutoff);
    return Success(f);
  }

  /** A version that is not exempt and is selected once stays selected: waiting only ages packages. */
  lemma SelectsForever(cfg: PkgConfig, item: Package, now: int, later: int)
    requires Selects(cfg, item, now) && now <= later
    ensures Selects(cfg, item, later)
  {
    hide Parse, Compare;
    if TooOld(cfg.ageCutoff, item, now) {
      TooOldForever(cfg.ageCutoff, item, now, later);
    }
  }

  /** Without a track, the plan prunes exactly what the filter selects, but for one family: packages
      that are not exempt, whose version is not semver, and that are older than a non-zero age cutoff.
      The plan keeps those; the filter selects them. */
  lemma PlanPreviewsFilter(cfg: PkgConfig, tracks: map<string, Track>, series: seq<string>, item: Package, now: int)
    requires cfg.track == ""
    ensures Resolve(cfg, tracks, series).Success?
    ensures var d := PolicyFor(cfg, Resolve(cfg, tracks, series).value.rule, now);
            (Classify(d, item) == Prune <==> Selects(cfg, item, now)) <==>
            !(VersionOf(item) !in cfg.exceptions && !IsValid(VersionOf(item)) && TooOld(cfg.ageCutoff, item, now))
    ensures var d := PolicyFor(cfg, Resolve(cfg, tracks, series).value.rule, now);
            Classify(d, item) == Prune ==> Selects(cfg, item, now)
  {
    hide Parse;
    CanonicalEquivalent(cfg.versionCutoff, VersionOf(item));
    EmptyNotAVersion();
  }

  /** The family is not empty: a package without a version, two nanoseconds old, under an age cutoff of one.
      The filter selects it and the plan keeps it. */
  lemma OldNonSemverDisagrees() returns (cfg: PkgConfig, item: Package, now: int)
    ensures cfg.track == "" && !IsValid(VersionOf(item)) && Selects(cfg, item, now)
    ensures forall tracks, series | Resolve(cfg, tracks, series).Success? ::
              Classify(PolicyFor(cfg, Resolve(cfg, tracks, series).value.rule, now), item) == NonSemver
  {
    hide Parse, Resolve;
    cfg := PkgConfig([], "", 1, false, "", []);
    item := Package("", "", "", "", "", "", "", 0);
    now := 2;
    assert VersionOf(item) == "v" + "";
    EmptyIsInvalid();
  }
}

/** The dry-run retention plan: `BuildPlan`, and the declarative plan it is proved equal to. */
module Plan {
  import opened Wrappers
  import opened Packages
  import opened Tracks
  import opened Semver
  import opened Ordering

  datatype PlanPackage = PlanPackage(
    name: string, version: string, arch: string, distroVersion: string,
    filename: string, sha256Sum: string, createTime: int)

  datatype Plan = Plan(
    repo: string, generatedAt: int, track: string, editions: seq<string>,
    anchor: string, cutoff: string, series: seq<string>,
    retained: nat, pruned: nat, prunedBytes: int,
    prunedSeries: map<string, nat>, protected: map<string, nat>, nonSemver: nat,
    packages: seq<PlanPackage>)

  // ---------- The decision for one package ----------

  datatype Rule = NoRule | FullVersion(cutoff: string) | BySeries(cutoff: string)

  datatype Policy = Policy(exceptions: set<string>, rule: Rule, age: Duration, now: int)

  datatype Verdict = Protected | NonSemver | Prune | Keep

  predicate VersionPrunes(rule: Rule, v: string) {
    match rule
    case NoRule => false
    case FullVersion(cutoff) => Precedes(v, cutoff)
    case BySeries(cutoff) => Precedes(MajorMinor(v), cutoff)
  }

  /** Precedence of the rules: exceptions, then non-semver, then version cutoff, then age cutoff. */
  function Classify(d: Policy, item: Package): Verdict {
    var v := VersionOf(item);
    if v in d.exceptions then Protected
    else if !IsValid(v) then NonSemver
    else if VersionPrunes(d.rule, v) || TooOld(d.age, item, d.now) then Prune
    else Keep
  }

  // ---------- The rule a config asks for ----------

  datatype Resolved = Resolved(anchor: string, cutoff: string, rule: Rule)

  function Resolve(cfg: PkgConfig, tracks: map<string, Track>, series: seq<string>): Result<Resolved, PlanError> {
    if cfg.track == "" then
      var cutoff := Canonical(cfg.versionCutoff);
      Success(Resolved("", cutoff, if cutoff == "" then NoRule else FullVersion(cutoff)))
    else if cfg.track !in tracks then Failure(UnknownTrack(cfg.track))
    else
      var (anchor, depth) :- AnchorOf(tracks[cfg.track], cfg.editions);
      var cutoff :- DeriveCutoff(series, anchor, depth);
      Success(Resolved(anchor, cutoff, BySeries(cutoff)))
  }

  // ---------- The declarative plan ----------

  /** The items with one of the wanted verdicts, in order. */
  function Select(d: Policy, items: seq<Package>, wanted: set<Verdict>): seq<Package> {
    if items == [] then []
    else
      var last := items[|items| - 1];
      Select(d, items[..|items| - 1], wanted) + if Classify(d, last) in wanted then [last] else []
  }

  const RETAINED := {Protected, NonSemver, Keep}

  function Versions(items: seq<Package>): seq<string> {
    seq(|items|, i requires 0 <= i < |items| => VersionOf(items[i]))
  }

  function SeriesKeys(items: seq<Package>): seq<string> {
    seq(|items|, i requires 0 <= i < |items| => MajorMinor(VersionOf(items[i])))
  }

  function Identify(item: Package): PlanPackage {
    PlanPackage(item.name, item.version, item.arch, item.distroVersion, item.filename, item.sha256Sum, item.createTime)
  }

  function Identities(items: seq<Package>): seq<PlanPackage> {
    seq(|items|, i requires 0 <= i < |items| => Identify(items[i]))
  }

  /** How often each key occurs. */
  function Tally(keys: seq<string>): map<string, nat> {
    map k | k in keys :: multiset(keys)[k]
  }

  /** The sum of the sizes that parse. */
  function TotalSize(items: seq<Package>): int {
    if items == [] then 0
    else
      var size := ParseInt64(items[|items| - 1].size);
      TotalSize(items[..|items| - 1]) + if size.Some? then size.value else 0
  }

  function AccountOf(base: Plan, retained: seq<Package>, pruned: seq<Package>,
                     protected: seq<Package>, nonSemver: seq<Package>): Plan
  {
    base.(
      retained := |retained|,
      pruned := |pruned|,
      prunedBytes := Wrap64(TotalSize(pruned)),
      prunedSeries := Tally(SeriesKeys(pruned)),
      protected := Tally(Versions(protected)),
      nonSemver := |nonSemver|,
      packages := Identities(pruned))
  }

  /** What a plan says about `items` under one policy, counted independently of any loop. */
  function Account(base: Plan, d: Policy, items: seq<Package>): Plan {
    AccountOf(base, Select(d, items, RETAINED), Select(d, items, {Prune}),
              Select(d, items, {Protected}), Select(d, items, {NonSemver}))
  }

  function PolicyFor(cfg: PkgConfig, rule: Rule, now: int): Policy {
    Policy(Elements(cfg.exceptions), rule, cfg.ageCutoff, now)
  }

  /** The header of a plan: everything the classification loop does not touch. */
  function Header(repo: string, cfg: PkgConfig, now: int, r: Resolved, series: seq<string>): Plan {
    Plan(repo, now, cfg.track, cfg.editions, r.anchor, r.cutoff, series, 0, 0, 0, map[], map[], 0, [])
  }

  ghost function PlanFor(repo: string, cfg: PkgConfig, tracks: map<string, Track>, items: seq<Package>, now: int)
    : Result<Plan, PlanError>
  {
    var series := SeriesOf(Versions(items));
    var r :- Resolve(cfg, tracks, series);
    Success(Account(Header(repo, cfg, now, r, series), PolicyFor(cfg, r.rule, now), items))
  }

  // ---------- The loop ----------

  lemma SelectAppend(d: Policy, items: seq<Package>, item: Package, wanted: set<Verdict>)
    ensures Select(d, items + [item], wanted) ==
            Select(d, items, wanted) + if Classify(d, item) in wanted then [item] else []
  {
    assert (items + [item])[..|items|] == items;
  }

  lemma TallyAppend(keys: seq<string>, k: string)
    ensures Tally(keys + [k]) == Increment(Tally(keys), k)
  {
  }

  lemma PruneAppend(pruned: seq<Package>, item: Package)
    ensures SeriesKeys(pruned + [item]) == SeriesKeys(pruned) + [MajorMinor(VersionOf(item))]
    ensures Identities(pruned + [item]) == Identities(pruned) + [Identify(item)]
    ensures var size := ParseInt64(item.size);
            TotalSize(pruned + [item]) == TotalSize(pruned) + if size.Some? then size.value else 0
  {
    assert (pruned + [item])[..|pruned|] == pruned;
  }

  lemma VersionsAppend(items: seq<Package>, item: Package)
    ensures Versions(items + [item]) == Versions(items) + [VersionOf(item)]
  {
  }

  function Increment(m: map<string, nat>, k: string): map<string, nat> {
    m[k := if k in m then m[k] + 1 else 1]
  }

  method BuildPlan(repo: string, cfg: PkgConfig, tracks: map<string, Track>, items: seq<Package>, now: int)
    returns (r: Result<Plan, PlanError>)
    ensures r == PlanFor(repo, cfg, tracks, items, now)
  {
    hide Parse, SortedSeq, Account, DeriveCutoff, AnchorOf;
    var versions: seq<string> := [];
    for i := 0 to |items|
      invariant versions == Versions(items[..i])
    {
      assert items[..i + 1] == items[..i] + [items[i]];
      VersionsAppend(items[..i], items[i]);
      versions := versions + ["v" + Translate(items[i].version)];
    }
    assert items[..|items|] == items;
    var series := MinorSeries(versions);

    var cutoff := Canonical(cfg.versionCutoff);
    var bySeries := false;
    var anchorName := "";
    if cfg.track != "" {
      if cfg.track !in tracks {
        return Failure(UnknownTrack(cfg.track));
      }
      var anchor := Anchor(tracks[cfg.track], cfg.editions);
      if anchor.Failure? {
        return Failure(anchor.error);
      }
      anchorName := anchor.value.0;
      var derived := DeriveCutoff(series, anchor.value.0, anchor.value.1);
      if derived.Failure? {
        return Failure(derived.error);
      }
      CutoffNotEmpty(versions, anchor.value.0, anchor.value.1);
      cutoff := derived.value;
      bySeries := true;
    }
    ghost var rule := if bySeries then BySeries(cutoff) else if cutoff == "" then NoRule else FullVersion(cutoff);
    ghost var res := Resolved(anchorName, cutoff, rule);
    assert Resolve(cfg, tracks, series) == Success(res);
    var header := Plan(repo, now, cfg.track, cfg.editions, anchorName, cutoff, series, 0, 0, 0, map[], map[], 0, []);
    var plan := ClassifyAll(header, cfg, cutoff, bySeries, rule, items, now);
    return Success(plan);
  }

  /** The classification loop of `BuildPlan`. */
  method ClassifyAll(header: Plan, cfg: PkgConfig, cutoff: string, bySeries: bool, ghost rule: Rule,
                     items: seq<Package>, now: int)
    returns (p: Plan)
    requires rule == if bySeries then BySeries(cutoff) else if cutoff == "" then NoRule else FullVersion(cutoff)
    requires bySeries ==> cutoff != ""
    requires header == header.(retained := 0, pruned := 0, prunedBytes := 0, prunedSeries := map[],
                               protected := map[], nonSemver := 0, packages := [])
    ensures p == Account(header, PolicyFor(cfg, rule, now), items)
  {
    p := header;
    var exceptions: set<string> := {};
    for i := 0 to |cfg.exceptions|
      invariant exceptions == Elements(cfg.exceptions[..i])
    {
      assert cfg.exceptions[..i + 1] == cfg.exceptions[..i] + [cfg.exceptions[i]];
      exceptions := exceptions + {cfg.exceptions[i]};
    }
    assert cfg.exceptions[..|cfg.exceptions|] == cfg.exceptions;
    ghost var d := PolicyFor(cfg, rule, now);
    for i := 0 to |items|
      invariant p == Account(header, d, items[..i])
    {
      assert items[..i + 1] == items[..i] + [items[i]];
      AccountStep(header, d, items[..i], items[i]);
      p := ClassifyOne(p, cfg, exceptions, cutoff, bySeries, rule, items[i], now);
    }
    assert items[..|items|] == items;
  }

  /** One round of the classification loop. */
  method ClassifyOne(p0: Plan, cfg: PkgConfig, exceptions: set<string>, cutoff: string, bySeries: bool,
                     ghost rule: Rule, item: Package, now: int)
    returns (p: Plan)
    requires exceptions == Elements(cfg.exceptions)
    requires rule == if bySeries then BySeries(cutoff) else if cutoff == "" then NoRule else FullVersion(cutoff)
    requires bySeries ==> cutoff != ""
    ensures p == Step(p0, Classify(PolicyFor(cfg, rule, now), item), item)
  {
    hide Parse, Compare;
    p := p0;
    var v := "v" + Translate(item.version);
    if v in exceptions {
      p := p.(protected := Increment(p.protected, v), retained := p.retained + 1);
      return;
    }
    if !IsValid(v) {
      p := p.(nonSemver := p.nonSemver + 1, retained := p.retained + 1);
      return;
    }
    var prune := Decide(cfg, cutoff, bySeries, rule, v, item, now);
    if prune {
      p := p.(pruned := p.pruned + 1, prunedSeries := Increment(p.prunedSeries, MajorMinor(v)));
      var size := ParseInt64(item.size);
      if size.Some? {
        p := p.(prunedBytes := Wrap64(p.prunedBytes + size.value));
      }
      p := p.(packages := p.packages + [Identify(item)]);
    } else {
      p := p.(retained := p.retained + 1);
    }
  }

  /** The version rule, then the age rule. */
  method Decide(cfg: PkgConfig, cutoff: string, bySeries: bool, ghost rule: Rule, v: string, item: Package, now: int)
    returns (prune: bool)
    requires rule == if bySeries then BySeries(cutoff) else if cutoff == "" then NoRule else FullVersion(cutoff)
    requires bySeries ==> cutoff != ""
    ensures prune <==> VersionPrunes(rule, v) || TooOld(cfg.ageCutoff, item, now)
  {
    prune := false;
    if cutoff != "" {
      if bySeries {
        prune := Compare(MajorMinor(v), cutoff) < 0;
      } else {
        prune := Compare(v, cutoff) < 0;
      }
    }
    if !prune && cfg.ageCutoff != 0 && TimeSub(now, item.createTime) > cfg.ageCutoff {
      prune := true;
    }
  }

  /** How one verdict changes a plan. */
  function Step(p: Plan, verdict: Verdict, item: Package): Plan {
    match verdict
    case Protected => p.(protected := Increment(p.protected, VersionOf(item)), retained := p.retained + 1)
    case NonSemver => p.(nonSemver := p.nonSemver + 1, retained := p.retained + 1)
    case Keep => p.(retained := p.retained + 1)
    case Prune =>
      var size := ParseInt64(item.size);
      p.(pruned := p.pruned + 1,
         prunedSeries := Increment(p.prunedSeries, MajorMinor(VersionOf(item))),
         prunedBytes := if size.Some? then Wrap64(p.prunedBytes + size.value) else p.prunedBytes,
         packages := p.packages + [Identify(item)])
  }

  lemma ProtectStep(base: Plan, r: seq<Package>, u: seq<Package>, t: seq<Package>, n: seq<Package>, item: Package)
    ensures AccountOf(base, r + [item], u, t + [item], n) == Step(AccountOf(base, r, u, t, n), Protected, item)
  {
    VersionsAppend(t, item);
    TallyAppend(Versions(t), VersionOf(item));
  }

  lemma PruneStep(base: Plan, r: seq<Package>, u: seq<Package>, t: seq<Package>, n: seq<Package>, item: Package)
    ensures AccountOf(base, r, u + [item], t, n) == Step(AccountOf(base, r, u, t, n), Prune, item)
  {
    hide Parse;
    PruneAppend(u, item);
    TallyAppend(SeriesKeys(u), MajorMinor(VersionOf(item)));
    var size := ParseInt64(item.size);
    WrapAdd(TotalSize(u), if size.Some? then size.value else 0);
  }

  /** The account of one package more is one step on: the loop computes the declarative plan. */
  lemma AccountStep(base: Plan, d: Policy, items: seq<Package>, item: Package)
    ensures Account(base, d, items + [item]) == Step(Account(base, d, items), Classify(d, item), item)
  {
    var r, u := Select(d, items, RETAINED), Select(d, items, {Prune});
    var t, n := Select(d, items, {Protected}), Select(d, items, {NonSemver});
    SelectAppend(d, items, item, RETAINED);
    SelectAppend(d, items, item, {Prune});
    SelectAppend(d, items, item, {Protected});
    SelectAppend(d, items, item, {NonSemver});
    assert r + [] == r && u + [] == u && t + [] == t && n + [] == n;
    match Classify(d, item)
    case Protected => ProtectStep(base, r, u, t, n, item);
    case Prune => PruneStep(base, r, u, t, n, item);
    case _ =>
  }
}

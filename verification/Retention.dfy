/** What the retention plan promises over all inputs: conserved accounts, idempotence, and
    windows that only grow with the editions. */
module Retention {
  import opened Wrappers
  import opened Packages
  import opened Tracks
  import opened Plan
  import opened Semver
  import opened Ordering

  // ---------- Accounting ----------

  lemma {:induction false} SelectSizes(d: Policy, items: seq<Package>)
    ensures |Select(d, items, RETAINED)| + |Select(d, items, {Prune})| == |items|
    ensures |Select(d, items, {Protected})| + |Select(d, items, {NonSemver})| <= |Select(d, items, RETAINED)|
  {
    hide Classify;
    if items != [] {
      SelectSizes(d, items[..|items| - 1]);
      var v := Classify(d, items[|items| - 1]);
      assert v in RETAINED <==> v != Prune;
    }
  }

  /** The sum of the counts of a tally. */
  ghost function SumCounts(m: map<string, nat>): nat {
    if m == map[] then 0
    else
      var k :| k in m;
      m[k] + SumCounts(m - {k})
  }

  lemma {:induction false} SumCountsRemove(m: map<string, nat>, k: string)
    requires k in m
    ensures SumCounts(m) == m[k] + SumCounts(m - {k})
    decreases |m|
  {
    var j :| j in m && SumCounts(m) == m[j] + SumCounts(m - {j});
    if j != k {
      SumCountsRemove(m - {j}, k);
      SumCountsRemove(m - {k}, j);
      assert m - {j} - {k} == m - {k} - {j};
    }
  }

  lemma {:induction false} TallySum(keys: seq<string>)
    ensures SumCounts(Tally(keys)) == |keys|
  {
    hide Tally, Increment;
    if keys == [] {
      NothingTallied();
    } else {
      var init, k := keys[..|keys| - 1], keys[|keys| - 1];
      assert keys == init + [k];
      TallySum(init);
      TallyAppend(init, k);
      SumCountsIncrement(Tally(init), k);
    }
  }

  lemma NothingTallied()
    ensures SumCounts(Tally([])) == 0
  {
    assert Tally([]) == map[];
  }

  lemma SumCountsIncrement(m: map<string, nat>, k: string)
    ensures SumCounts(Increment(m, k)) == SumCounts(m) + 1
  {
    hide SumCounts;
    var n := Increment(m, k);
    SumCountsRemove(n, k);
    if k in m {
      SumCountsRemove(m, k);
      assert n - {k} == m - {k};
    } else {
      assert n - {k} == m;
    }
  }

  /** The positions of the pruned items. */
  function PrunedPositions(d: Policy, items: seq<Package>): seq<nat> {
    if items == [] then []
    else
      var n := |items| - 1;
      PrunedPositions(d, items[..n]) + if Classify(d, items[n]) == Prune then [n] else []
  }

  predicate Ascending(pos: seq<nat>) {
    forall i, j | 0 <= i < j < |pos| :: pos[i] < pos[j]
  }

  lemma {:induction false} PrunedPositionsExact(d: Policy, items: seq<Package>)
    ensures forall i :: i in PrunedPositions(d, items) <==> 0 <= i < |items| && Classify(d, items[i]) == Prune
    ensures Ascending(PrunedPositions(d, items))
  {
    hide Classify;
    if items != [] {
      var n := |items| - 1;
      PrunedPositionsExact(d, items[..n]);
      var rest := PrunedPositions(d, items[..n]);
      assert forall k | 0 <= k < |rest| :: rest[k] in rest;
      assert forall i | 0 <= i < n :: items[..n][i] == items[i];
    }
  }

  lemma {:induction false} PrunedAtPositions(d: Policy, items: seq<Package>)
    ensures |Select(d, items, {Prune})| == |PrunedPositions(d, items)|
    ensures forall i | 0 <= i < |PrunedPositions(d, items)| ::
              PrunedPositions(d, items)[i] < |items| &&
              Select(d, items, {Prune})[i] == items[PrunedPositions(d, items)[i]]
  {
    hide Classify;
    if items != [] {
      PrunedAtPositions(d, items[..|items| - 1]);
    }
  }

  predicate Describes(p: PlanPackage, item: Package) {
    && p.name == item.name && p.version == item.version && p.arch == item.arch
    && p.distroVersion == item.distroVersion && p.filename == item.filename
    && p.sha256Sum == item.sha256Sum && p.createTime == item.createTime
  }

  /** Every package is accounted for exactly once, and the prune list is the in-order
      subsequence of exactly the packages the policy prunes, each with its own fields. */
  lemma AccountingConserved(repo: string, cfg: PkgConfig, tracks: map<string, Track>, items: seq<Package>, now: int)
    requires PlanFor(repo, cfg, tracks, items, now).Success?
    ensures var p := PlanFor(repo, cfg, tracks, items, now).value;
            var d := PolicyOf(repo, cfg, tracks, items, now);
            var pos := PrunedPositions(d, items);
            && p.retained + p.pruned == |items|
            && p.pruned == |p.packages| == SumCounts(p.prunedSeries)
            && SumCounts(p.protected) + p.nonSemver <= p.retained
            && |p.packages| == |pos|
            && Ascending(pos)
            && (forall i :: i in pos <==> 0 <= i < |items| && Classify(d, items[i]) == Prune)
            && (forall i | 0 <= i < |pos| :: pos[i] < |items| && Describes(p.packages[i], items[pos[i]]))
  {
    hide Parse, Classify, Resolve, SortedSeq, PrunedPositions;
    var d := PolicyOf(repo, cfg, tracks, items, now);
    SelectSizes(d, items);
    TallySum(SeriesKeys(Select(d, items, {Prune})));
    TallySum(Versions(Select(d, items, {Protected})));
    PrunedPositionsExact(d, items);
    PrunedAtPositions(d, items);
  }

  /** The bytes reported are the sum of the parseable sizes of the pruned packages, whenever
      that sum fits in 64 bits. */
  lemma PrunedBytesExact(repo: string, cfg: PkgConfig, tracks: map<string, Track>, items: seq<Package>, now: int)
    requires PlanFor(repo, cfg, tracks, items, now).Success?
    ensures var p := PlanFor(repo, cfg, tracks, items, now).value;
            var sum := TotalSize(Select(PolicyOf(repo, cfg, tracks, items, now), items, {Prune}));
            && (p.prunedBytes == sum <==> MIN_INT64 <= sum <= MAX_INT64)
            && (p.prunedBytes - sum) % TWO_64 == 0
  {
    hide Parse, Classify, Resolve, SortedSeq;
    WrapFits(TotalSize(Select(PolicyOf(repo, cfg, tracks, items, now), items, {Prune})));
  }

  /** The policy a successful plan classifies with. */
  ghost function PolicyOf(repo: string, cfg: PkgConfig, tracks: map<string, Track>, items: seq<Package>, now: int): Policy
    requires PlanFor(repo, cfg, tracks, items, now).Success?
  {
    PolicyFor(cfg, Resolve(cfg, tracks, SeriesOf(Versions(items))).value.rule, now)
  }

  // ---------- Idempotence ----------

  /** The packages a plan leaves in the repository. */
  ghost function Survivors(repo: string, cfg: PkgConfig, tracks: map<string, Track>, items: seq<Package>, now: int): seq<Package>
    requires PlanFor(repo, cfg, tracks, items, now).Success?
  {
    Select(PolicyOf(repo, cfg, tracks, items, now), items, RETAINED)
  }

  /** On a subset of a sorted sequence, counting down from the same place never lands above an
      element that was already at or above the first result. */
  lemma CountDownSubset<T(!new)>(less: (T, T) -> bool, xs: seq<T>, ys: seq<T>, a: T, depth: nat, y: T)
    requires StrictOrderOn(less, Elements(xs)) && Increasing(less, xs)
    requires StrictOrderOn(less, Elements(ys)) && Increasing(less, ys)
    requires Elements(ys) <= Elements(xs)
    requires CountDown(xs, a, depth).Some? && CountDown(ys, a, depth).Some?
    requires y in Elements(ys) && !less(y, CountDown(xs, a, depth).value)
    ensures !less(y, CountDown(ys, a, depth).value)
  {
    var c := CountDown(xs, a, depth).value;
    var idx := IndexIn(ys, a);
    var k :| 0 <= k < |ys| && ys[k] == y;
    var lo := if idx - depth < 0 then 0 else idx - depth;
    SamePositions(less, ys, k, lo);
    if k < lo {
      SliceByOrder(less, ys, k, idx);
      CountDownExact(less, xs, a, depth);
      var tail := Elements(ys[k..idx]);
      var window := AtOrAbove(less, Below(less, Elements(xs), a), c);
      forall x | x in tail ensures x in window {
        assert x in Elements(xs) && y in Elements(xs) && c in Elements(xs);
        assert !less(x, y) && !less(y, c);
        assert less(x, c) ==> x == y || less(y, x);
        assert less(y, x) && less(x, c) ==> less(y, c);
      }
      SubsetSize(tail, window);
    }
  }

  lemma {:induction false} SubsetSize<T(!new)>(s: set<T>, t: set<T>)
    requires s <= t
    ensures |s| <= |t|
  {
    if s != {} {
      var x :| x in s;
      SubsetSize(s - {x}, t - {x});
    }
  }

  /** Dropping only elements below the result leaves the result where it was. */
  lemma CountDownKept<T(!new)>(less: (T, T) -> bool, xs: seq<T>, ys: seq<T>, a: T, depth: nat)
    requires StrictOrderOn(less, Elements(xs)) && Increasing(less, xs)
    requires StrictOrderOn(less, Elements(ys)) && Increasing(less, ys)
    requires Elements(ys) <= Elements(xs)
    requires CountDown(xs, a, depth).Some?
    requires forall x | x in Elements(xs) && !less(x, CountDown(xs, a, depth).value) :: x in Elements(ys)
    ensures CountDown(ys, a, depth) == CountDown(xs, a, depth)
  {
    var c := CountDown(xs, a, depth).value;
    var i := IndexIn(xs, a);
    var lo := if i - depth < 0 then 0 else i - depth;
    SamePositions(less, xs, i, lo);
    assert xs[i] in Elements(xs) && xs[lo] in Elements(xs);
    assert a in Elements(ys) && c in Elements(ys);
    var j := IndexIn(ys, a);
    var p :| 0 <= p < |ys| && ys[p] == c;
    SamePositions(less, ys, j, p);
    SliceByOrder(less, xs, lo, i);
    SliceByOrder(less, ys, p, j);
    assert Elements(xs[lo..i]) == Elements(ys[p..j]);
    assert i - lo == j - p;
    if i < depth {
      assert c == xs[0];
      forall k | 0 <= k < |xs| ensures !less(xs[k], c) {
        SamePositions(less, xs, k, 0);
      }
      SamePositions(less, ys, 0, p);
      assert ys[0] in Elements(xs);
      assert p == 0;
    }
  }

  lemma {:induction false} SelectMembers(d: Policy, items: seq<Package>, wanted: set<Verdict>)
    ensures forall item :: item in Select(d, items, wanted) <==> item in items && Classify(d, item) in wanted
  {
    hide Classify;
    if items != [] {
      var n := |items| - 1;
      SelectMembers(d, items[..n], wanted);
      assert items == items[..n] + [items[n]];
    }
  }

  lemma {:induction false} SelectNothing(d: Policy, items: seq<Package>, wanted: set<Verdict>)
    requires forall item | item in items :: Classify(d, item) !in wanted
    ensures Select(d, items, wanted) == []
  {
    hide Classify;
    if items != [] {
      SelectNothing(d, items[..|items| - 1], wanted);
      assert items[|items| - 1] in items;
    }
  }

  /** Selecting from the survivors under a policy that judges them alike selects the same packages. */
  lemma {:induction false} SelectTwice(d: Policy, e: Policy, items: seq<Package>, wanted: set<Verdict>)
    requires wanted <= RETAINED
    requires forall item | item in items && Classify(d, item) in RETAINED :: Classify(e, item) == Classify(d, item)
    ensures Select(e, Select(d, items, RETAINED), wanted) == Select(d, items, wanted)
  {
    hide Classify;
    if items != [] {
      var n := |items| - 1;
      var init, last := items[..n], items[n];
      assert items == init + [last];
      SelectTwice(d, e, init, wanted);
      SelectAppend(d, init, last, RETAINED);
      SelectAppend(d, init, last, wanted);
      assert last in items;
      assert Select(d, init, RETAINED) + [] == Select(d, init, RETAINED);
      assert Select(d, init, wanted) + [] == Select(d, init, wanted);
      if Classify(d, last) in RETAINED {
        SelectAppend(e, Select(d, init, RETAINED), last, wanted);
      }
    }
  }

  lemma SeriesOfItem(items: seq<Package>, item: Package)
    requires item in items && IsValid(VersionOf(item))
    ensures MajorMinor(VersionOf(item)) in SeriesSet(Versions(items))
  {
    hide Parse;
    var i :| 0 <= i < |items| && items[i] == item;
    assert Versions(items)[i] == VersionOf(item);
  }

  lemma ItemOfSeries(items: seq<Package>, s: string) returns (item: Package)
    requires s in SeriesSet(Versions(items))
    ensures item in items && IsValid(VersionOf(item)) && MajorMinor(VersionOf(item)) == s
  {
    hide Parse;
    var v :| v in Versions(items) && IsValid(v) && MajorMinor(v) == s;
    var i :| 0 <= i < |items| && Versions(items)[i] == v;
    item := items[i];
  }

  /** Fewer packages ship fewer series. */
  lemma SeriesSubset(items: seq<Package>, kept: seq<Package>)
    requires forall item | item in kept :: item in items
    ensures SeriesSet(Versions(kept)) <= SeriesSet(Versions(items))
  {
    hide Parse, MajorMinor, SeriesSet;
    forall s | s in SeriesSet(Versions(kept)) ensures s in SeriesSet(Versions(items)) {
      var item := ItemOfSeries(kept, s);
      SeriesOfItem(items, item);
    }
  }

  /** The two derived policies of a track agree on every survivor of the first. */
  lemma SurvivorsJudgedAlike(cfg: PkgConfig, tracks: map<string, Track>, items: seq<Package>, kept: seq<Package>,
                             r1: Resolved, r2: Resolved, now: int)
    requires Resolve(cfg, tracks, SeriesOf(Versions(items))) == Success(r1)
    requires Resolve(cfg, tracks, SeriesOf(Versions(kept))) == Success(r2)
    requires kept == Select(PolicyFor(cfg, r1.rule, now), items, RETAINED)
    ensures forall item | item in kept ::
              Classify(PolicyFor(cfg, r2.rule, now), item) == Classify(PolicyFor(cfg, r1.rule, now), item)
  {
    hide Parse, Precedes, SeriesSet, SortedSeq, MajorMinor;
    var d, e := PolicyFor(cfg, r1.rule, now), PolicyFor(cfg, r2.rule, now);
    SelectMembers(d, items, RETAINED);
    forall item | item in kept ensures Classify(e, item) == Classify(d, item) {
      assert Classify(d, item) in RETAINED;
      if Classify(d, item) == Keep && cfg.track != "" {
        var (anchor, depth) := AnchorOf(tracks[cfg.track], cfg.editions).value;
        SeriesSubset(items, kept);
        SeriesOfItem(kept, item);
        SeriesSetOrder(Versions(items));
        SeriesSetOrder(Versions(kept));
        CountDownSubset(Precedes, SeriesOf(Versions(items)), SeriesOf(Versions(kept)),
                        MajorMinor("v" + anchor), depth, MajorMinor(VersionOf(item)));
      }
    }
  }

  /** Retention is idempotent: planning again over what a plan retains, at the same moment, prunes
      nothing and reports the same packages held, even where exceptions keep series below the cutoff
      or the age rule emptied series inside the window. */
  lemma RetentionIdempotent(repo: string, cfg: PkgConfig, tracks: map<string, Track>, items: seq<Package>, now: int)
    requires PlanFor(repo, cfg, tracks, items, now).Success?
    requires PlanFor(repo, cfg, tracks, Survivors(repo, cfg, tracks, items, now), now).Success?
    ensures var first := PlanFor(repo, cfg, tracks, items, now).value;
            var again := PlanFor(repo, cfg, tracks, Survivors(repo, cfg, tracks, items, now), now).value;
            && again.pruned == 0 && again.packages == [] && again.prunedBytes == 0 && again.prunedSeries == map[]
            && again.retained == first.retained
            && again.protected == first.protected
            && again.nonSemver == first.nonSemver
  {
    hide Parse, Classify, Resolve, SortedSeq;
    var kept := Survivors(repo, cfg, tracks, items, now);
    var r1 := Resolve(cfg, tracks, SeriesOf(Versions(items))).value;
    var r2 := Resolve(cfg, tracks, SeriesOf(Versions(kept))).value;
    AccountOfSurvivors(Header(repo, cfg, now, r2, SeriesOf(Versions(kept))), cfg, tracks, items, kept, r1, r2, now);
  }

  lemma AccountOfSurvivors(base: Plan, cfg: PkgConfig, tracks: map<string, Track>, items: seq<Package>, kept: seq<Package>,
                           r1: Resolved, r2: Resolved, now: int)
    requires Resolve(cfg, tracks, SeriesOf(Versions(items))) == Success(r1)
    requires Resolve(cfg, tracks, SeriesOf(Versions(kept))) == Success(r2)
    requires kept == Select(PolicyFor(cfg, r1.rule, now), items, RETAINED)
    ensures Account(base, PolicyFor(cfg, r2.rule, now), kept) ==
            Account(base, PolicyFor(cfg, r1.rule, now), items).(
              pruned := 0, prunedBytes := 0, prunedSeries := map[], packages := [])
  {
    hide Parse, Classify, Resolve, SortedSeq;
    var d, e := PolicyFor(cfg, r1.rule, now), PolicyFor(cfg, r2.rule, now);
    SurvivorsJudgedAlike(cfg, tracks, items, kept, r1, r2, now);
    SelectMembers(d, items, RETAINED);
    SelectTwice(d, e, items, RETAINED);
    SelectTwice(d, e, items, {Protected});
    SelectTwice(d, e, items, {NonSemver});
    SelectNothing(e, kept, {Prune});
    assert Tally(SeriesKeys([])) == map[];
    WrapFits(0);
  }

  /** Without an age cutoff the second plan always succeeds, with the same anchor, cutoff and account. */
  lemma ReplanSucceedsWithoutAge(repo: string, cfg: PkgConfig, tracks: map<string, Track>, items: seq<Package>, now: int)
    requires PlanFor(repo, cfg, tracks, items, now).Success?
    requires cfg.ageCutoff == 0
    ensures var first := PlanFor(repo, cfg, tracks, items, now).value;
            var kept := Survivors(repo, cfg, tracks, items, now);
            PlanFor(repo, cfg, tracks, kept, now) == Success(first.(
              series := SeriesOf(Versions(kept)), pruned := 0, prunedBytes := 0, prunedSeries := map[], packages := []))
  {
    hide Parse, Classify, Resolve, SortedSeq;
    var kept := Survivors(repo, cfg, tracks, items, now);
    var r1 := Resolve(cfg, tracks, SeriesOf(Versions(items))).value;
    SameResolution(cfg, tracks, items, kept, r1, now);
    AccountOfSurvivors(Header(repo, cfg, now, r1, SeriesOf(Versions(kept))), cfg, tracks, items, kept, r1, r1, now);
  }

  lemma SameResolution(cfg: PkgConfig, tracks: map<string, Track>, items: seq<Package>, kept: seq<Package>,
                       r1: Resolved, now: int)
    requires Resolve(cfg, tracks, SeriesOf(Versions(items))) == Success(r1)
    requires kept == Select(PolicyFor(cfg, r1.rule, now), items, RETAINED)
    requires cfg.ageCutoff == 0
    ensures Resolve(cfg, tracks, SeriesOf(Versions(kept))) == Success(r1)
  {
    hide Parse, Precedes, SeriesSet, SortedSeq, MajorMinor;
    var d := PolicyFor(cfg, r1.rule, now);
    SelectMembers(d, items, RETAINED);
    if cfg.track != "" {
      var (anchor, depth) := AnchorOf(tracks[cfg.track], cfg.editions).value;
      SeriesSubset(items, kept);
      SeriesSetOrder(Versions(items));
      SeriesSetOrder(Versions(kept));
      forall s | s in SeriesSet(Versions(items)) && !Precedes(s, r1.cutoff) ensures s in SeriesSet(Versions(kept)) {
        var item := ItemOfSeries(items, s);
        assert Classify(d, item) in RETAINED;
        SeriesOfItem(kept, item);
      }
      CountDownKept(Precedes, SeriesOf(Versions(items)), SeriesOf(Versions(kept)), MajorMinor("v" + anchor), depth);
    }
  }

  /** A package of the anchor's series that keeps the series alive: the age rule does not reach it. */
  predicate KeepsAnchor(cfg: PkgConfig, anchor: string, item: Package, now: int) {
    var v := VersionOf(item);
    IsValid(v) && MajorMinor(v) == MajorMinor("v" + anchor) && (v in cfg.exceptions || !TooOld(cfg.ageCutoff, item, now))
  }

  /** The version rule never prunes the anchor's own series. */
  lemma AnchorSeriesKept(cfg: PkgConfig, tracks: map<string, Track>, items: seq<Package>, item: Package, now: int)
    requires cfg.track != "" && Resolve(cfg, tracks, SeriesOf(Versions(items))).Success?
    ensures var r := Resolve(cfg, tracks, SeriesOf(Versions(items))).value;
            IsValid(VersionOf(item)) && MajorMinor(VersionOf(item)) == MajorMinor("v" + r.anchor) ==>
              (Classify(PolicyFor(cfg, r.rule, now), item) in RETAINED <==> KeepsAnchor(cfg, r.anchor, item, now))
  {
    hide Parse, SortedSeq, MajorMinor, SeriesSet, Precedes;
    var (anchor, depth) := AnchorOf(tracks[cfg.track], cfg.editions).value;
    CutoffNotAboveAnchor(Versions(items), anchor, depth);
  }

  /** The second plan succeeds exactly when there is no track, or some package of the anchor's series is an
      exception or within the age cutoff. */
  lemma ReplanSucceedsExactly(repo: string, cfg: PkgConfig, tracks: map<string, Track>, items: seq<Package>, now: int)
    requires PlanFor(repo, cfg, tracks, items, now).Success?
    ensures var anchor := PlanFor(repo, cfg, tracks, items, now).value.anchor;
            PlanFor(repo, cfg, tracks, Survivors(repo, cfg, tracks, items, now), now).Success? <==>
            cfg.track == "" || exists item | item in items :: KeepsAnchor(cfg, anchor, item, now)
  {
    hide Parse, Classify, SortedSeq, Select, MajorMinor, SeriesSet, KeepsAnchor;
    var kept := Survivors(repo, cfg, tracks, items, now);
    var anchor := PlanFor(repo, cfg, tracks, items, now).value.anchor;
    var a := MajorMinor("v" + anchor);
    assert a in SeriesOf(Versions(kept)) <==> a in Elements(SeriesOf(Versions(kept)));
    if cfg.track != "" {
      AnchorKeptExactly(cfg, tracks, items, kept, now);
    }
  }

  lemma AnchorKeptExactly(cfg: PkgConfig, tracks: map<string, Track>, items: seq<Package>, kept: seq<Package>, now: int)
    requires cfg.track != "" && Resolve(cfg, tracks, SeriesOf(Versions(items))).Success?
    requires kept == Select(PolicyFor(cfg, Resolve(cfg, tracks, SeriesOf(Versions(items))).value.rule, now), items, RETAINED)
    ensures var anchor := Resolve(cfg, tracks, SeriesOf(Versions(items))).value.anchor;
            MajorMinor("v" + anchor) in SeriesSet(Versions(kept)) <==>
            exists item | item in items :: KeepsAnchor(cfg, anchor, item, now)
  {
    hide Parse, Classify, SortedSeq, Select, MajorMinor, SeriesSet, Resolve;
    var r := Resolve(cfg, tracks, SeriesOf(Versions(items))).value;
    var a := MajorMinor("v" + r.anchor);
    SelectMembers(PolicyFor(cfg, r.rule, now), items, RETAINED);
    if a in SeriesSet(Versions(kept)) {
      var item := ItemOfSeries(kept, a);
      AnchorSeriesKept(cfg, tracks, items, item, now);
    }
    forall item | item in items && KeepsAnchor(cfg, r.anchor, item, now) ensures a in SeriesSet(Versions(kept)) {
      AnchorSeriesKept(cfg, tracks, items, item, now);
      SeriesOfItem(kept, item);
    }
  }

  // ---------- Editions ----------

  /** Adding editions, in any order, never prunes a package that was retained. */
  lemma MoreEditionsPruneNoMore(repo: string, cfg: PkgConfig, more: seq<string>, tracks: map<string, Track>,
                                items: seq<Package>, now: int, item: Package)
    requires forall name | name in tracks :: ValidTrack(tracks[name])
    requires Elements(cfg.editions) <= Elements(more)
    requires PlanFor(repo, cfg, tracks, items, now).Success?
    requires PlanFor(repo, cfg.(editions := more), tracks, items, now).Success?
    ensures Classify(PolicyOf(repo, cfg.(editions := more), tracks, items, now), item) == Prune ==>
            Classify(PolicyOf(repo, cfg, tracks, items, now), item) == Prune
  {
    hide Parse, Precedes, SeriesSet, SortedSeq, MajorMinor, Account;
    if cfg.track != "" {
      var t := tracks[cfg.track];
      var versions := Versions(items);
      assert "ee" in cfg.editions ==> "ee" in Elements(more);
      if "ee" in more && "ee" !in cfg.editions {
        LongestWindowWins(t, versions);
        var ee := DeriveCutoff(SeriesOf(versions), t.ltsMinus1, EE_ANCHOR_DEPTH).value;
        var ce := DeriveCutoff(SeriesOf(versions), t.currentFeature, CE_ANCHOR_DEPTH).value;
        var s := MajorMinor(VersionOf(item));
        if Precedes(s, ee) {
          PrecedesWeaken(s, ee, ce);
        }
      }
    }
  }

  lemma PrecedesWeaken(s: string, u: string, v: string)
    requires Precedes(s, u) && !Precedes(v, u)
    ensures Precedes(s, v)
  {
    hide Parse;
    CompareTotalPreorder(s, u, v);
    CompareTotalPreorder(u, v, v);
    CompareTotalPreorder(s, v, v);
  }

  /** An "ee" plan never prunes by version anything in the series of the track's reference versions. */
  lemma ReferenceSeriesSafe(repo: string, cfg: PkgConfig, tracks: map<string, Track>, items: seq<Package>, now: int, item: Package)
    requires forall name | name in tracks :: ValidTrack(tracks[name])
    requires cfg.track != "" && "ee" in cfg.editions
    requires PlanFor(repo, cfg, tracks, items, now).Success?
    requires var t := tracks[cfg.track];
             MajorMinor(VersionOf(item)) in
             [MajorMinor("v" + t.ltsMinus1), MajorMinor("v" + t.currentLts), MajorMinor("v" + t.currentFeature)]
    ensures Classify(PolicyOf(repo, cfg, tracks, items, now), item) == Prune ==> TooOld(cfg.ageCutoff, item, now)
  {
    hide Parse, Precedes, SeriesSet, SortedSeq, MajorMinor, Account;
    LongestWindowWins(tracks[cfg.track], Versions(items));
  }
}

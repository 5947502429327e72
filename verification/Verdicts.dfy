/** What a retention plan says, in terms of its inputs alone: which packages it prunes, what it counts, and
    when it fails. */
module Verdicts {
  import opened Wrappers
  import opened Packages
  import opened Precedence
  import opened Tracks
  import opened Plan
  import opened Semver
  import opened Ordering
  import opened Retention
  import Filter

  // ---------- Which tracks are valid ----------

  /** The versions of a valid track are three versions, each after the one before. */
  lemma ValidTrackExactly(t: Track)
    ensures ValidTrack(t) <==>
            var m, l, f := Parse("v" + t.ltsMinus1), Parse("v" + t.currentLts), Parse("v" + t.currentFeature);
            m.Some? && l.Some? && f.Some? && Before(m.value, l.value) && Before(l.value, f.value)
  {
    hide Parse, Compare, Before;
    PrecedesExactly("v" + t.ltsMinus1, "v" + t.currentLts);
    PrecedesExactly("v" + t.currentLts, "v" + t.currentFeature);
  }

  // ---------- Which packages are pruned ----------

  /** The reference version of a track that a plan counts down from, and how far. */
  function Window(t: Track, editions: seq<string>): (string, nat) {
    if "ee" in editions then (t.ltsMinus1, 3) else (t.currentFeature, 2)
  }

  function SeriesOfItem(item: Package): string {
    MajorMinor(VersionOf(item))
  }

  /** The series of `items` from `s` up to below `a`. */
  ghost function ShippedBetween(items: seq<Package>, s: string, a: string): set<string> {
    set item | item in items && IsValid(VersionOf(item)) && !Precedes(SeriesOfItem(item), s) && Precedes(SeriesOfItem(item), a)
      :: SeriesOfItem(item)
  }

  /** Without a track, below a valid version cutoff; with one, of a series below the reference version's that
      has, counting itself, more than the allowed number of shipped series up to there. */
  ghost predicate BelowCutoff(cfg: PkgConfig, tracks: map<string, Track>, items: seq<Package>, item: Package)
    requires cfg.track != "" ==> cfg.track in tracks
  {
    if cfg.track == "" then IsValid(cfg.versionCutoff) && Precedes(VersionOf(item), cfg.versionCutoff)
    else
      var (anchor, depth) := Window(tracks[cfg.track], cfg.editions);
      var s, a := SeriesOfItem(item), MajorMinor("v" + anchor);
      Precedes(s, a) && |ShippedBetween(items, s, a)| > depth
  }

  /** Created longer ago than the age cutoff, if there is one. */
  predicate PastAge(cfg: PkgConfig, item: Package, now: int) {
    cfg.ageCutoff != 0 && cfg.ageCutoff < MAX_INT64 && item.createTime + cfg.ageCutoff < now
  }

  lemma ShippedBetweenIs(items: seq<Package>, s: string, a: string)
    ensures ShippedBetween(items, s, a) == AtOrAbove(Precedes, Below(Precedes, SeriesSet(Versions(items)), a), s)
  {
    hide Parse, Precedes, MajorMinor;
    var shipped := SeriesSet(Versions(items));
    forall x | x in shipped && Precedes(x, a) && !Precedes(x, s) ensures x in ShippedBetween(items, s, a) {
      var item := ItemOfSeries(items, x);
      assert SeriesOfItem(item) == x;
    }
    forall x | x in ShippedBetween(items, s, a) ensures x in shipped {
      var item :| item in items && IsValid(VersionOf(item)) && SeriesOfItem(item) == x;
      Retention.SeriesOfItem(items, item);
    }
  }

  lemma TrackRule(cfg: PkgConfig, tracks: map<string, Track>, items: seq<Package>, item: Package)
    requires cfg.track != "" && Resolve(cfg, tracks, SeriesOf(Versions(items))).Success?
    requires item in items && IsValid(VersionOf(item))
    ensures cfg.track in tracks
    ensures VersionPrunes(Resolve(cfg, tracks, SeriesOf(Versions(items))).value.rule, VersionOf(item)) <==>
            BelowCutoff(cfg, tracks, items, item)
  {
    hide Parse, Compare, SeriesSet, SortedSeq, MajorMinor;
    var (anchor, depth) := Window(tracks[cfg.track], cfg.editions);
    var s, a := SeriesOfItem(item), MajorMinor("v" + anchor);
    Retention.SeriesOfItem(items, item);
    ShippedBetweenIs(items, s, a);
    CutoffNotAboveAnchor(Versions(items), anchor, depth);
    if Precedes(s, a) {
      PrunedBeyondDepth(Versions(items), anchor, depth, s);
    } else {
      NotPrecedesTransitive(DeriveCutoff(SeriesOf(Versions(items)), anchor, depth).value, a, s);
    }
  }

  /** A plan prunes a package exactly when its version is not an exception and is semver, and it is below the
      cutoff or past the age cutoff. */
  lemma PrunesExactly(repo: string, cfg: PkgConfig, tracks: map<string, Track>, items: seq<Package>, now: int, item: Package)
    requires PlanFor(repo, cfg, tracks, items, now).Success? && item in items
    ensures cfg.track != "" ==> cfg.track in tracks
    ensures Classify(PolicyOf(repo, cfg, tracks, items, now), item) == Prune <==>
            VersionOf(item) !in cfg.exceptions && IsValid(VersionOf(item)) &&
            (BelowCutoff(cfg, tracks, items, item) || PastAge(cfg, item, now))
  {
    hide Parse, Compare, SeriesSet, SortedSeq, MajorMinor, TooOld;
    TooOldExactly(cfg.ageCutoff, item, now);
    if cfg.track == "" {
      CanonicalEquivalent(cfg.versionCutoff, VersionOf(item));
      assert !IsValid("") by { Filter.EmptyNotAVersion(); }
    } else if IsValid(VersionOf(item)) {
      TrackRule(cfg, tracks, items, item);
    }
  }

  // ---------- When a plan fails ----------

  predicate Edition(e: string) {
    e == "ce" || e == "ee"
  }

  /** Some package is of the series of version `anchor`. */
  predicate Shipped(items: seq<Package>, anchor: string) {
    exists item | item in items :: IsValid(VersionOf(item)) && SeriesOfItem(item) == MajorMinor("v" + anchor)
  }

  predicate FirstNotEdition(editions: seq<string>, e: string) {
    exists i | 0 <= i < |editions| :: editions[i] == e && !Edition(e) && forall j | 0 <= j < i :: Edition(editions[j])
  }

  lemma {:induction false} FirstUnknownIs(editions: seq<string>, e: string)
    ensures FirstUnknown(editions) == Some(e) <==> FirstNotEdition(editions, e)
    ensures FirstUnknown(editions).None? <==> forall f | f in editions :: Edition(f)
  {
    if editions != [] {
      var rest := editions[1..];
      FirstUnknownIs(rest, e);
      assert editions == [editions[0]] + rest;
      if Edition(editions[0]) {
        if FirstNotEdition(rest, e) {
          var i :| 0 <= i < |rest| && rest[i] == e && !Edition(e) && forall j | 0 <= j < i :: Edition(rest[j]);
          assert editions[i + 1] == e && forall j | 0 <= j < i + 1 :: Edition(editions[j]);
        }
        if FirstNotEdition(editions, e) {
          var i :| 0 <= i < |editions| && editions[i] == e && !Edition(e) && forall j | 0 <= j < i :: Edition(editions[j]);
          assert rest[i - 1] == e && forall j | 0 <= j < i - 1 :: Edition(rest[j]);
        }
      }
    }
  }

  lemma AnchorShipped(items: seq<Package>, anchor: string, depth: nat)
    requires IsValid("v" + anchor)
    ensures CountDown(SeriesOf(Versions(items)), MajorMinor("v" + anchor), depth).Some? <==> Shipped(items, anchor)
  {
    hide Parse, Compare, SeriesSet, SortedSeq, MajorMinor;
    var a := MajorMinor("v" + anchor);
    assert a in SeriesOf(Versions(items)) <==> a in SeriesSet(Versions(items));
    if a in SeriesSet(Versions(items)) {
      var item := ItemOfSeries(items, a);
    }
    if item :| item in items && IsValid(VersionOf(item)) && SeriesOfItem(item) == a {
      Retention.SeriesOfItem(items, item);
    }
  }

  /** Planning fails exactly for an unknown track, no editions, an unknown edition, a reference version that is
      not a version, and one whose series did not ship; each with its own error, in that order. */
  lemma PlanFailsExactly(repo: string, cfg: PkgConfig, tracks: map<string, Track>, items: seq<Package>, now: int)
    ensures var r := PlanFor(repo, cfg, tracks, items, now);
            if cfg.track == "" then r.Success?
            else if cfg.track !in tracks then r == Failure(UnknownTrack(cfg.track))
            else if cfg.editions == [] then r == Failure(NoEditions)
            else if exists e | e in cfg.editions :: !Edition(e) then
              r.Failure? && r.error.UnknownEdition? && FirstNotEdition(cfg.editions, r.error.edition)
            else
              var anchor := Window(tracks[cfg.track], cfg.editions).0;
              if !IsValid("v" + anchor) then r == Failure(BadAnchor(anchor))
              else if !Shipped(items, anchor) then r == Failure(AnchorNotShipped(MajorMinor("v" + anchor)))
              else r.Success?
  {
    hide Parse, Shipped, SeriesOf, CountDown, FirstNotEdition, Account, MajorMinor, Canonical;
    if cfg.track != "" && cfg.track in tracks && cfg.editions != [] {
      FirstUnknownIs(cfg.editions, if FirstUnknown(cfg.editions).Some? then FirstUnknown(cfg.editions).value else "");
      var (anchor, depth) := Window(tracks[cfg.track], cfg.editions);
      MajorMinorIdempotent("v" + anchor);
      if IsValid("v" + anchor) {
        AnchorShipped(items, anchor, depth);
      }
    }
  }

  // ---------- The header ----------

  ghost function ShippedSeries(items: seq<Package>): set<string> {
    set item | item in items && IsValid(VersionOf(item)) :: SeriesOfItem(item)
  }

  lemma ShippedSeriesIs(items: seq<Package>)
    ensures ShippedSeries(items) == SeriesSet(Versions(items))
  {
    hide Parse, MajorMinor;
    forall x | x in SeriesSet(Versions(items)) ensures x in ShippedSeries(items) {
      var item := ItemOfSeries(items, x);
      assert SeriesOfItem(item) == x;
    }
    forall x | x in ShippedSeries(items) ensures x in SeriesSet(Versions(items)) {
      var item :| item in items && IsValid(VersionOf(item)) && SeriesOfItem(item) == x;
      Retention.SeriesOfItem(items, item);
    }
  }

  function Min(m: nat, n: nat): nat {
    if m < n then m else n
  }

  /** What a plan reports besides the packages. With a track, the cutoff keeps two shipped series below the
      current feature version's, or three below the oldest LTS version's when "ee" is asked for, or all there are. */
  lemma HeaderExactly(repo: string, cfg: PkgConfig, tracks: map<string, Track>, items: seq<Package>, now: int)
    requires PlanFor(repo, cfg, tracks, items, now).Success?
    ensures var p := PlanFor(repo, cfg, tracks, items, now).value;
            && p.repo == repo && p.generatedAt == now && p.track == cfg.track && p.editions == cfg.editions
            && Increasing(Precedes, p.series) && Elements(p.series) == ShippedSeries(items)
            && (cfg.track == "" ==> p.anchor == "" && p.cutoff == Canonical(cfg.versionCutoff))
            && (cfg.track != "" ==>
                  cfg.track in tracks &&
                  var t := tracks[cfg.track];
                  var a := MajorMinor("v" + p.anchor);
                  var below := set s | s in ShippedSeries(items) && Precedes(s, a);
                  && p.anchor == (if "ee" in cfg.editions then t.ltsMinus1 else t.currentFeature)
                  && p.cutoff in ShippedSeries(items) && !Precedes(a, p.cutoff)
                  && |ShippedBetween(items, p.cutoff, a)| == Min(if "ee" in cfg.editions then 3 else 2, |below|))
  {
    hide Parse, Compare, SeriesSet, SortedSeq, MajorMinor, Account, Canonical;
    ShippedSeriesIs(items);
    AccountKeepsHeader(repo, cfg, tracks, items, now);
    if cfg.track != "" {
      var (anchor, depth) := Window(tracks[cfg.track], cfg.editions);
      WindowExact(Versions(items), anchor, depth);
      var cutoff, a := DeriveCutoff(SeriesOf(Versions(items)), anchor, depth).value, MajorMinor("v" + anchor);
      ShippedBetweenIs(items, cutoff, a);
      assert (set s | s in ShippedSeries(items) && Precedes(s, a)) == Below(Precedes, SeriesSet(Versions(items)), a);
    }
  }

  lemma AccountKeepsHeader(repo: string, cfg: PkgConfig, tracks: map<string, Track>, items: seq<Package>, now: int)
    requires PlanFor(repo, cfg, tracks, items, now).Success?
    ensures var p := PlanFor(repo, cfg, tracks, items, now).value;
            var series := SeriesOf(Versions(items));
            var r := Resolve(cfg, tracks, series).value;
            p.repo == repo && p.generatedAt == now && p.track == cfg.track && p.editions == cfg.editions &&
            p.anchor == r.anchor && p.cutoff == r.cutoff && p.series == series
  {
    hide Resolve, SeriesOf, Select, Versions;
  }

  // ---------- The counts ----------

  /** The positions of the packages with a wanted verdict. */
  ghost function Judged(d: Policy, items: seq<Package>, wanted: set<Verdict>): set<nat> {
    set i: nat | i < |items| && Classify(d, items[i]) in wanted
  }

  /** Of these, the positions of those whose key is `k`. */
  ghost function JudgedAs(d: Policy, items: seq<Package>, wanted: set<Verdict>, key: Package -> string, k: string): set<nat> {
    set i | i in Judged(d, items, wanted) && key(items[i]) == k
  }

  ghost function PrunedAt(d: Policy, items: seq<Package>): set<nat> {
    set i: nat | i < |items| && Classify(d, items[i]) == Prune
  }

  ghost function KeptAt(d: Policy, items: seq<Package>): set<nat> {
    set i: nat | i < |items| && Classify(d, items[i]) != Prune
  }

  ghost function PrunedOfSeries(d: Policy, items: seq<Package>, s: string): set<nat> {
    set i: nat | i < |items| && Classify(d, items[i]) == Prune && SeriesOfItem(items[i]) == s
  }

  ghost function Excepted(exceptions: seq<string>, items: seq<Package>, v: string): set<nat> {
    set i: nat | i < |items| && VersionOf(items[i]) in exceptions && VersionOf(items[i]) == v
  }

  ghost function NotVersions(exceptions: seq<string>, items: seq<Package>): set<nat> {
    set i: nat | i < |items| && VersionOf(items[i]) !in exceptions && !IsValid(VersionOf(items[i]))
  }

  lemma SizeSnoc(s: set<nat>, t: set<nat>, n: nat, more: bool)
    requires n !in s && t == s + if more then {n} else {}
    ensures |t| == |s| + if more then 1 else 0
  {
  }

  lemma JudgedSnoc(d: Policy, init: seq<Package>, last: Package, wanted: set<Verdict>)
    ensures Judged(d, init + [last], wanted) == Judged(d, init, wanted) + if Classify(d, last) in wanted then {|init|} else {}
  {
    hide Classify;
  }

  lemma JudgedAsSnoc(d: Policy, init: seq<Package>, last: Package, wanted: set<Verdict>, key: Package -> string, k: string)
    ensures JudgedAs(d, init + [last], wanted, key, k) ==
            JudgedAs(d, init, wanted, key, k) + if Classify(d, last) in wanted && key(last) == k then {|init|} else {}
    ensures |init| !in JudgedAs(d, init, wanted, key, k)
  {
    hide Classify;
    JudgedSnoc(d, init, last, wanted);
  }

  lemma {:induction false} SelectCount(d: Policy, items: seq<Package>, wanted: set<Verdict>)
    ensures |Select(d, items, wanted)| == |Judged(d, items, wanted)|
  {
    hide Classify;
    if items == [] {
      assert Judged(d, items, wanted) == {};
    } else {
      var init, last := items[..|items| - 1], items[|items| - 1];
      assert items == init + [last];
      SelectCount(d, init, wanted);
      JudgedSnoc(d, init, last, wanted);
      SizeSnoc(Judged(d, init, wanted), Judged(d, items, wanted), |init|, Classify(d, last) in wanted);
    }
  }

  lemma {:induction false} KeyCount(d: Policy, items: seq<Package>, wanted: set<Verdict>, key: Package -> string,
                                    keys: seq<string>, k: string)
    requires |keys| == |Select(d, items, wanted)|
    requires forall i | 0 <= i < |keys| :: keys[i] == key(Select(d, items, wanted)[i])
    ensures multiset(keys)[k] == |JudgedAs(d, items, wanted, key, k)|
  {
    hide Classify, Judged, JudgedAs, Select;
    if items == [] {
      NoneJudged(d, wanted, key, k);
      NoneSelected(d, wanted);
    } else {
      var init, last := items[..|items| - 1], items[|items| - 1];
      assert items == init + [last];
      var more := Classify(d, last) in wanted;
      SelectAppend(d, init, last, wanted);
      JudgedAsSnoc(d, init, last, wanted, key, k);
      SizeSnoc(JudgedAs(d, init, wanted, key, k), JudgedAs(d, items, wanted, key, k), |init|, more && key(last) == k);
      if more {
        var front := keys[..|keys| - 1];
        KeyCount(d, init, wanted, key, front, k);
        CountSnoc(front, key(last), k);
        assert keys == front + [key(last)];
      } else {
        assert Select(d, init, wanted) + [] == Select(d, init, wanted);
        KeyCount(d, init, wanted, key, keys, k);
      }
    }
  }

  lemma CountSnoc(keys: seq<string>, x: string, k: string)
    ensures multiset(keys + [x])[k] == multiset(keys)[k] + if x == k then 1 else 0
  {
  }

  lemma NoneSelected(d: Policy, wanted: set<Verdict>)
    ensures Select(d, [], wanted) == []
  {
  }

  lemma NoneJudged(d: Policy, wanted: set<Verdict>, key: Package -> string, k: string)
    ensures JudgedAs(d, [], wanted, key, k) == {}
  {
  }

  lemma VerdictMeans(d: Policy, item: Package)
    ensures Classify(d, item) == Protected <==> VersionOf(item) in d.exceptions
    ensures Classify(d, item) == NonSemver <==> VersionOf(item) !in d.exceptions && !IsValid(VersionOf(item))
  {
  }

  lemma JudgedMeans(cfg: PkgConfig, rule: Rule, items: seq<Package>, now: int, k: string)
    ensures var d := PolicyFor(cfg, rule, now);
            && Judged(d, items, {Prune}) == PrunedAt(d, items)
            && Judged(d, items, RETAINED) == KeptAt(d, items)
            && Judged(d, items, {NonSemver}) == NotVersions(cfg.exceptions, items)
            && JudgedAs(d, items, {Protected}, VersionOf, k) == Excepted(cfg.exceptions, items, k)
            && JudgedAs(d, items, {Prune}, SeriesOfItem, k) == PrunedOfSeries(d, items, k)
  {
    hide Classify, VersionOf, SeriesOfItem, Parse;
    var d := PolicyFor(cfg, rule, now);
    forall item
      ensures Classify(d, item) == Protected <==> VersionOf(item) in cfg.exceptions
      ensures Classify(d, item) == NonSemver <==> VersionOf(item) !in cfg.exceptions && !IsValid(VersionOf(item))
    {
      VerdictMeans(d, item);
    }
  }

  function CountIn(m: map<string, nat>, k: string): nat {
    if k in m then m[k] else 0
  }

  /** Every number a plan reports counts packages: how many stay and go, how many are not semver, how many of
      each excepted version, and how many go of each series. */
  lemma CountsExactly(repo: string, cfg: PkgConfig, tracks: map<string, Track>, items: seq<Package>, now: int, k: string)
    requires PlanFor(repo, cfg, tracks, items, now).Success?
    ensures var p := PlanFor(repo, cfg, tracks, items, now).value;
            var d := PolicyOf(repo, cfg, tracks, items, now);
            && p.pruned == |PrunedAt(d, items)|
            && p.retained == |KeptAt(d, items)|
            && p.nonSemver == |NotVersions(cfg.exceptions, items)|
            && CountIn(p.protected, k) == |Excepted(cfg.exceptions, items, k)|
            && CountIn(p.prunedSeries, k) == |PrunedOfSeries(d, items, k)|
  {
    hide Parse, Resolve, SortedSeq, Classify, MajorMinor, Select, Judged, JudgedAs, Translate,
      PrunedAt, KeptAt, NotVersions, Excepted, PrunedOfSeries;
    var d := PolicyOf(repo, cfg, tracks, items, now);
    SelectCount(d, items, {Prune});
    SelectCount(d, items, RETAINED);
    SelectCount(d, items, {NonSemver});
    KeyCount(d, items, {Protected}, VersionOf, Versions(Select(d, items, {Protected})), k);
    KeyCount(d, items, {Prune}, SeriesOfItem, SeriesKeys(Select(d, items, {Prune})), k);
    JudgedMeans(cfg, Resolve(cfg, tracks, SeriesOf(Versions(items))).value.rule, items, now, k);
  }

  /** The sizes add up package by package, and a size that is not a number counts as nothing. */
  lemma {:induction false} TotalSizeAdds(a: seq<Package>, b: seq<Package>)
    ensures TotalSize(a + b) == TotalSize(a) + TotalSize(b)
    ensures |a| == 1 ==> if ParseInt64(a[0].size).Some? then ParseInt64(a[0].size) == Some(TotalSize(a)) else TotalSize(a) == 0
  {
    if b == [] {
      assert a + b == a;
      assert |a| == 1 ==> a[..0] == [];
    } else {
      assert (a + b)[..|a + b| - 1] == a + b[..|b| - 1];
      TotalSizeAdds(a, b[..|b| - 1]);
    }
  }
}

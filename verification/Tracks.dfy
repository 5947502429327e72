/** Release tracks: which reference release a retention window counts down from, and how far. */
module Tracks {
  import opened Wrappers
  import opened Ordering
  import opened Semver

  datatype Track = Track(currentFeature: string, currentLts: string, ltsMinus1: string)

  datatype Field = CurrentFeature | CurrentLts | LtsMinus1

  datatype TrackError =
    | NotSet(field: Field)
    | NotAVersion(field: Field)
    | LtsNotOlder
    | FeatureNotNewer

  datatype PlanError =
    | UnknownTrack(name: string)
    | NoEditions
    | UnknownEdition(edition: string)
    | BadAnchor(anchor: string)
    | AnchorNotShipped(anchor: string)

  const CE_ANCHOR_DEPTH: nat := 2
  const EE_ANCHOR_DEPTH: nat := 3

  // ---------- Validation ----------

  function Fields(t: Track): map<Field, string> {
    map[CurrentFeature := t.currentFeature, CurrentLts := t.currentLts, LtsMinus1 := t.ltsMinus1]
  }

  /** The versions of a valid track are set, parseable and strictly ordered by precedence. */
  predicate ValidTrack(t: Track) {
    && IsValid("v" + t.currentFeature)
    && IsValid("v" + t.currentLts)
    && IsValid("v" + t.ltsMinus1)
    && Precedes("v" + t.ltsMinus1, "v" + t.currentLts)
    && Precedes("v" + t.currentLts, "v" + t.currentFeature)
  }

  /** `e` describes something that is really wrong with `t`. */
  predicate IsDefect(t: Track, e: TrackError) {
    match e
    case NotSet(f) => f in Fields(t) && Fields(t)[f] == ""
    case NotAVersion(f) => f in Fields(t) && Fields(t)[f] != "" && !IsValid("v" + Fields(t)[f])
    case LtsNotOlder => !Precedes("v" + t.ltsMinus1, "v" + t.currentLts)
    case FeatureNotNewer => !Precedes("v" + t.currentLts, "v" + t.currentFeature)
  }

  /** A track is valid exactly when nothing is wrong with it. */
  lemma ValidExactly(t: Track)
    ensures ValidTrack(t) <==> forall e :: !IsDefect(t, e)
  {
    hide Parse, Compare;
    EmptyIsInvalid();
    if forall e :: !IsDefect(t, e) {
      forall f | f in Fields(t) ensures IsValid("v" + Fields(t)[f]) {
        assert !IsDefect(t, NotSet(f)) && !IsDefect(t, NotAVersion(f));
      }
      assert CurrentFeature in Fields(t) && CurrentLts in Fields(t) && LtsMinus1 in Fields(t);
      assert !IsDefect(t, LtsNotOlder) && !IsDefect(t, FeatureNotNewer);
    } else {
      var e :| IsDefect(t, e);
    }
  }

  /** Go hands out the fields in any order, so which of several defects is reported is left open. */
  method Validate(t: Track) returns (err: Option<TrackError>)
    ensures err.None? <==> ValidTrack(t)
    ensures err.Some? ==> IsDefect(t, err.value)
  {
    hide Parse, Compare;
    var fields := Fields(t);
    var todo := fields.Keys;
    while todo != {}
      invariant todo <= fields.Keys
      invariant forall f | f in fields && f !in todo :: IsValid("v" + fields[f])
      decreases |todo|
    {
      var name :| name in todo;
      if fields[name] == "" {
        EmptyIsInvalid();
        return Some(NotSet(name));
      }
      if !IsValid("v" + fields[name]) {
        return Some(NotAVersion(name));
      }
      todo := todo - {name};
    }
    assert IsValid("v" + fields[CurrentFeature]);
    assert IsValid("v" + fields[CurrentLts]);
    assert IsValid("v" + fields[LtsMinus1]);
    if !Precedes("v" + t.ltsMinus1, "v" + t.currentLts) {
      return Some(LtsNotOlder);
    }
    if !Precedes("v" + t.currentLts, "v" + t.currentFeature) {
      return Some(FeatureNotNewer);
    }
    return None;
  }

  lemma EmptyIsInvalid()
    ensures !IsValid("v" + "")
  {
    assert "v" + "" == "v";
    assert Cut("v").nums == [""];
    assert "" in Cut("v").nums;
  }

  // ---------- The anchor ----------

  predicate KnownEdition(e: string) {
    e == "ce" || e == "ee"
  }

  function FirstUnknown(editions: seq<string>): Option<string> {
    if editions == [] then None
    else if !KnownEdition(editions[0]) then Some(editions[0])
    else FirstUnknown(editions[1..])
  }

  /** The window an edition list asks for: "ee" anywhere in it wins. */
  function AnchorOf(t: Track, editions: seq<string>): Result<(string, nat), PlanError> {
    if editions == [] then Failure(NoEditions)
    else
      match FirstUnknown(editions)
      case Some(e) => Failure(UnknownEdition(e))
      case None =>
        if "ee" in editions then Success((t.ltsMinus1, EE_ANCHOR_DEPTH))
        else Success((t.currentFeature, CE_ANCHOR_DEPTH))
  }

  lemma {:induction false} FirstUnknownAppend(a: seq<string>, b: seq<string>)
    ensures FirstUnknown(a + b) == if FirstUnknown(a).Some? then FirstUnknown(a) else FirstUnknown(b)
    ensures FirstUnknown(a).None? ==> forall e | e in a :: KnownEdition(e)
  {
    if a == [] {
      assert a + b == b;
    } else {
      assert (a + b)[1..] == a[1..] + b;
      FirstUnknownAppend(a[1..], b);
    }
  }

  method Anchor(t: Track, editions: seq<string>) returns (r: Result<(string, nat), PlanError>)
    ensures r == AnchorOf(t, editions)
  {
    if |editions| == 0 {
      return Failure(NoEditions);
    }
    var longest := "";
    for i := 0 to |editions|
      invariant FirstUnknown(editions[..i]).None?
      invariant longest == if i == 0 then "" else if "ee" in editions[..i] then "ee" else "ce"
    {
      var e := editions[i];
      assert editions == editions[..i] + editions[i..];
      assert editions[..i + 1] == editions[..i] + [e];
      FirstUnknownAppend(editions[..i], editions[i..]);
      FirstUnknownAppend(editions[..i], [e]);
      if e == "ce" || e == "ee" {
        if longest == "" || e == "ee" {
          longest := e;
        }
      } else {
        return Failure(UnknownEdition(e));
      }
    }
    assert editions[..|editions|] == editions;
    if longest == "ee" {
      return Success((t.ltsMinus1, EE_ANCHOR_DEPTH));
    }
    return Success((t.currentFeature, CE_ANCHOR_DEPTH));
  }

  // ---------- Shipped series ----------

  function SeriesSet(versions: seq<string>): set<string> {
    set v | v in versions && IsValid(v) :: MajorMinor(v)
  }

  lemma SeriesSetOrder(versions: seq<string>)
    ensures StrictOrderOn(Precedes, SeriesSet(versions))
    ensures forall s | s in SeriesSet(versions) :: IsValid(s) && MajorMinor(s) == s
  {
    forall s | s in SeriesSet(versions) ensures IsValid(s) && MajorMinor(s) == s {
      var v :| v in versions && IsValid(v) && MajorMinor(v) == s;
      MajorMinorIdempotent(v);
    }
    SeriesStrictOrder(SeriesSet(versions));
  }

  /** The shipped series, oldest first, each once. */
  ghost function SeriesOf(versions: seq<string>): (series: seq<string>)
    ensures Elements(series) == SeriesSet(versions)
    ensures Increasing(Precedes, series)
  {
    SeriesSetOrder(versions);
    SortedSeq(Precedes, SeriesSet(versions))
  }

  /** The result does not depend on the order in which the map hands out its keys. */
  method MinorSeries(versions: seq<string>) returns (series: seq<string>)
    ensures series == SeriesOf(versions)
  {
    var found: set<string> := {};
    for i := 0 to |versions|
      invariant found == SeriesSet(versions[..i])
    {
      var v := versions[i];
      assert versions[..i + 1] == versions[..i] + [v];
      if IsValid(v) {
        found := found + {MajorMinor(v)};
      }
    }
    assert versions[..|versions|] == versions;
    SeriesSetOrder(versions);
    series := SortedKeys(Precedes, found);
    IncreasingUnique(Precedes, series, SeriesOf(versions));
  }

  // ---------- The cutoff ----------

  /** The element `depth` places before `a`, or the first one when there are fewer. */
  function CountDown<T(==)>(xs: seq<T>, a: T, depth: nat): Option<T> {
    var idx := IndexIn(xs, a);
    if idx < 0 then None
    else Some(xs[if idx - depth < 0 then 0 else idx - depth])
  }

  /** The oldest retained series: `depth` shipped series below the anchor, or the oldest there is. */
  function DeriveCutoff(series: seq<string>, anchor: string, depth: nat): Result<string, PlanError> {
    var a := MajorMinor("v" + anchor);
    if !IsValid(a) then Failure(BadAnchor(anchor))
    else
      match CountDown(series, a, depth)
      case None => Failure(AnchorNotShipped(a))
      case Some(cutoff) => Success(cutoff)
  }

  ghost function Below<T(!new)>(less: (T, T) -> bool, s: set<T>, a: T): set<T> {
    set x | x in s && less(x, a)
  }

  ghost function AtOrAbove<T(!new)>(less: (T, T) -> bool, s: set<T>, c: T): set<T> {
    set x | x in s && !less(x, c)
  }

  lemma CountDownExact<T(!new)>(less: (T, T) -> bool, xs: seq<T>, a: T, depth: nat)
    requires StrictOrderOn(less, Elements(xs)) && Increasing(less, xs)
    requires CountDown(xs, a, depth).Some?
    ensures var c := CountDown(xs, a, depth).value;
            var below := Below(less, Elements(xs), a);
            var window := AtOrAbove(less, below, c);
            && a in Elements(xs) && c in Elements(xs) && !less(a, c)
            && |window| == if depth < |below| then depth else |below|
  {
    var idx := IndexIn(xs, a);
    var lo := if idx - depth < 0 then 0 else idx - depth;
    SamePositions(less, xs, idx, lo);
    CountBetween(less, xs, lo, idx);
  }

  lemma CountDownIgnoresNewer<T(!new)>(less: (T, T) -> bool, xs: seq<T>, ys: seq<T>, a: T, depth: nat)
    requires StrictOrderOn(less, Elements(xs)) && Increasing(less, xs)
    requires StrictOrderOn(less, Elements(ys)) && Increasing(less, ys)
    requires Elements(xs) <= Elements(ys)
    requires forall y | y in Elements(ys) - Elements(xs) :: less(a, y)
    requires !less(a, a)
    ensures CountDown(xs, a, depth) == CountDown(ys, a, depth)
  {
    SamePrefix(less, xs, ys, a);
  }

  /** Counting further down from a lower place ends lower. */
  lemma CountDownMonotone<T(!new)>(less: (T, T) -> bool, xs: seq<T>, a: T, b: T, m: nat, n: nat)
    requires StrictOrderOn(less, Elements(xs)) && Increasing(less, xs)
    requires CountDown(xs, a, m).Some? && CountDown(xs, b, n).Some?
    requires !less(b, a) && n <= m
    ensures !less(CountDown(xs, b, n).value, CountDown(xs, a, m).value)
  {
    var i, j := IndexIn(xs, a), IndexIn(xs, b);
    SamePositions(less, xs, j, i);
    SamePositions(less, xs, if j - n < 0 then 0 else j - n, if i - m < 0 then 0 else i - m);
  }

  /** The window is exact: it holds `depth` shipped series below the anchor, or all of them when
      fewer shipped, however many series were skipped and whatever majors it crosses. */
  lemma WindowExact(versions: seq<string>, anchor: string, depth: nat)
    requires DeriveCutoff(SeriesOf(versions), anchor, depth).Success?
    ensures var cutoff := DeriveCutoff(SeriesOf(versions), anchor, depth).value;
            var a := MajorMinor("v" + anchor);
            var below := Below(Precedes, SeriesSet(versions), a);
            var window := AtOrAbove(Precedes, below, cutoff);
            && a in SeriesSet(versions)
            && cutoff in SeriesSet(versions)
            && !Precedes(a, cutoff)
            && |window| == if depth < |below| then depth else |below|
  {
    SeriesSetOrder(versions);
    CountDownExact(Precedes, SeriesOf(versions), MajorMinor("v" + anchor), depth);
  }

  /** An element lies below the result of a count-down exactly when it is more than `depth` places
      below the start. */
  lemma CountDownDistance<T(!new)>(less: (T, T) -> bool, xs: seq<T>, a: T, depth: nat, x: T)
    requires StrictOrderOn(less, Elements(xs)) && Increasing(less, xs)
    requires CountDown(xs, a, depth).Some?
    requires x in Elements(xs) && less(x, a)
    ensures less(x, CountDown(xs, a, depth).value) <==> |AtOrAbove(less, Below(less, Elements(xs), a), x)| > depth
  {
    var idx := IndexIn(xs, a);
    var k :| 0 <= k < |xs| && xs[k] == x;
    SamePositions(less, xs, k, idx);
    SamePositions(less, xs, k, if idx - depth < 0 then 0 else idx - depth);
    CountBetween(less, xs, k, idx);
  }

  /** A shipped series below the anchor is pruned exactly when, counting itself, more than `depth`
      shipped series lie between it and the anchor. */
  lemma PrunedBeyondDepth(versions: seq<string>, anchor: string, depth: nat, s: string)
    requires DeriveCutoff(SeriesOf(versions), anchor, depth).Success?
    requires s in SeriesSet(versions) && Precedes(s, MajorMinor("v" + anchor))
    ensures var below := Below(Precedes, SeriesSet(versions), MajorMinor("v" + anchor));
            Precedes(s, DeriveCutoff(SeriesOf(versions), anchor, depth).value) <==>
            |AtOrAbove(Precedes, below, s)| > depth
  {
    hide Parse;
    SeriesSetOrder(versions);
    CountDownDistance(Precedes, SeriesOf(versions), MajorMinor("v" + anchor), depth, s);
  }

  /** Releases in series newer than the anchor never move the cutoff. */
  lemma NewerReleasesIgnored(versions: seq<string>, newer: seq<string>, anchor: string, depth: nat)
    requires forall v | v in newer && IsValid(v) :: Precedes(MajorMinor("v" + anchor), MajorMinor(v))
    ensures DeriveCutoff(SeriesOf(versions + newer), anchor, depth) == DeriveCutoff(SeriesOf(versions), anchor, depth)
  {
    var a := MajorMinor("v" + anchor);
    SeriesSetAppend(versions, newer, a);
    PrecedesIrreflexive(a);
    CountDownIgnoresNewer(Precedes, SeriesOf(versions), SeriesOf(versions + newer), a, depth);
  }

  lemma SeriesSetAppend(versions: seq<string>, newer: seq<string>, a: string)
    requires forall v | v in newer && IsValid(v) :: Precedes(a, MajorMinor(v))
    ensures SeriesSet(versions) <= SeriesSet(versions + newer)
    ensures forall s | s in SeriesSet(versions + newer) - SeriesSet(versions) :: Precedes(a, s)
    ensures StrictOrderOn(Precedes, SeriesSet(versions))
    ensures StrictOrderOn(Precedes, SeriesSet(versions + newer))
  {
    SeriesSetOrder(versions);
    SeriesSetOrder(versions + newer);
    assert forall v | v in versions + newer :: v in versions || v in newer;
    assert forall v | v in versions :: v in versions + newer;
  }

  /** The cutoff is a shipped series not above the anchor. */
  lemma CutoffNotAboveAnchor(versions: seq<string>, anchor: string, depth: nat)
    requires DeriveCutoff(SeriesOf(versions), anchor, depth).Success?
    ensures var cutoff := DeriveCutoff(SeriesOf(versions), anchor, depth).value;
            && !Precedes(MajorMinor("v" + anchor), cutoff)
            && cutoff in SeriesSet(versions)
  {
    SeriesSetOrder(versions);
    CountDownExact(Precedes, SeriesOf(versions), MajorMinor("v" + anchor), depth);
  }

  lemma CutoffNotEmpty(versions: seq<string>, anchor: string, depth: nat)
    requires DeriveCutoff(SeriesOf(versions), anchor, depth).Success?
    ensures DeriveCutoff(SeriesOf(versions), anchor, depth).value != ""
  {
    CutoffNotAboveAnchor(versions, anchor, depth);
    SeriesSetOrder(versions);
    assert !IsValid("");
  }

  lemma NotPrecedesTransitive(u: string, v: string, w: string)
    requires !Precedes(v, u) && !Precedes(w, v)
    ensures !Precedes(w, u)
  {
    CompareTotalPreorder(u, v, w);
    CompareTotalPreorder(v, w, w);
    CompareTotalPreorder(u, w, w);
  }

  /** The series of a valid track's reference versions are in the order of the versions. */
  lemma ReferenceSeriesOrder(t: Track)
    requires ValidTrack(t)
    ensures var m, l, f := MajorMinor("v" + t.ltsMinus1), MajorMinor("v" + t.currentLts), MajorMinor("v" + t.currentFeature);
            !Precedes(l, m) && !Precedes(f, l) && !Precedes(f, m)
  {
    var m, l, f := "v" + t.ltsMinus1, "v" + t.currentLts, "v" + t.currentFeature;
    MajorMinorMonotone(m, l);
    MajorMinorMonotone(l, f);
    CompareTotalPreorder(MajorMinor(m), MajorMinor(l), MajorMinor(l));
    CompareTotalPreorder(MajorMinor(l), MajorMinor(f), MajorMinor(f));
    NotPrecedesTransitive(MajorMinor(m), MajorMinor(l), MajorMinor(f));
  }

  /** The longest window wins: over any shipped versions, the "ee" cutoff of a valid track is never
      newer than its "ce" cutoff, and never newer than the series of any reference version. */
  lemma LongestWindowWins(t: Track, versions: seq<string>)
    requires ValidTrack(t)
    requires DeriveCutoff(SeriesOf(versions), t.ltsMinus1, EE_ANCHOR_DEPTH).Success?
    ensures var ee := DeriveCutoff(SeriesOf(versions), t.ltsMinus1, EE_ANCHOR_DEPTH).value;
            var ce := DeriveCutoff(SeriesOf(versions), t.currentFeature, CE_ANCHOR_DEPTH);
            && (ce.Success? ==> !Precedes(ce.value, ee))
            && !Precedes(MajorMinor("v" + t.ltsMinus1), ee)
            && !Precedes(MajorMinor("v" + t.currentLts), ee)
            && !Precedes(MajorMinor("v" + t.currentFeature), ee)
  {
    var series := SeriesOf(versions);
    var ee := DeriveCutoff(series, t.ltsMinus1, EE_ANCHOR_DEPTH).value;
    var m, l, f := MajorMinor("v" + t.ltsMinus1), MajorMinor("v" + t.currentLts), MajorMinor("v" + t.currentFeature);
    ReferenceSeriesOrder(t);
    CutoffNotAboveAnchor(versions, t.ltsMinus1, EE_ANCHOR_DEPTH);
    NotPrecedesTransitive(ee, m, l);
    NotPrecedesTransitive(ee, m, f);
    SeriesSetOrder(versions);
    if DeriveCutoff(series, t.currentFeature, CE_ANCHOR_DEPTH).Success? {
      CountDownMonotone(Precedes, series, m, f, EE_ANCHOR_DEPTH, CE_ANCHOR_DEPTH);
    }
  }
}

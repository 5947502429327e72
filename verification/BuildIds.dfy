/** What a branch's builds come to as values, and the goreleaser build ids generated from them. */
module BuildIds {
  import opened Wrappers
  import opened Ordering
  import opened Builds

  // ---------- Merged and filtered builds, as values ----------

  /** The repo's build of this name with the branch's over it; None is a nil pointer. */
  function Overlaid(r: map<string, BuildVal>, b: map<string, Option<BuildVal>>, k: string): Option<BuildVal>
    requires k in r || k in b
  {
    if k !in r then b[k]
    else if k in b && b[k].Some? then Some(MergeVal(r[k], b[k].value))
    else Some(r[k])
  }

  predicate Kept(v: Option<BuildVal>, features: seq<string>) {
    v.None? || v.value.text.feature == "" || v.value.text.feature in features
  }

  function BranchBuilds(r: map<string, BuildVal>, b: map<string, Option<BuildVal>>, features: seq<string>)
    : map<string, Option<BuildVal>>
  {
    map k | k in r.Keys + b.Keys && Kept(Overlaid(r, b, k), features) :: Overlaid(r, b, k)
  }

  /** More features never lose a build, and never change one. */
  lemma MoreFeaturesMoreBuilds(r: map<string, BuildVal>, b: map<string, Option<BuildVal>>,
                               f1: seq<string>, f2: seq<string>)
    requires forall f | f in f1 :: f in f2
    ensures forall k | k in BranchBuilds(r, b, f1) ::
              k in BranchBuilds(r, b, f2) && BranchBuilds(r, b, f2)[k] == BranchBuilds(r, b, f1)[k]
  {
  }

  // ---------- Generated ids ----------

  function Id(build: string, goArch: string): string {
    build + "-" + goArch
  }

  /** Every (build, architecture) pair the template goes through, in its order. */
  function Pairs(keys: seq<string>, m: map<string, BuildVal>): seq<(string, string)>
    requires forall k | k in keys :: k in m
  {
    if keys == [] then []
    else
      var archs := m[keys[0]].archs;
      seq(|archs|, i requires 0 <= i < |archs| => (keys[0], archs[i].goArch)) + Pairs(keys[1..], m)
  }

  function Ids(pairs: seq<(string, string)>): seq<string> {
    seq(|pairs|, i requires 0 <= i < |pairs| => Id(pairs[i].0, pairs[i].1))
  }

  /** Go architecture names are distinct within the build. */
  ghost predicate ArchsDistinct(v: BuildVal) {
    forall i, j | 0 <= i < j < |v.archs| :: v.archs[i].goArch != v.archs[j].goArch
  }

  /** Build `k` continues the name of build `j` with the very part that starts `j`'s architecture. */
  predicate Shadows(j: string, a: string, k: string, c: string) {
    |j| < |k| && k[..|j| + 1] == j + "-" && a == k[|j| + 1..] + "-" + c
  }

  lemma SameIdExactly(j: string, a: string, k: string, c: string)
    ensures Id(j, a) == Id(k, c) <==> (j == k && a == c) || Shadows(j, a, k, c) || Shadows(k, c, j, a)
  {
    var x, y := Id(j, a), Id(k, c);
    if |j| <= |k| {
      SameIdOneWay(j, a, k, c);
    } else {
      SameIdOneWay(k, c, j, a);
    }
  }

  lemma SameIdOneWay(j: string, a: string, k: string, c: string)
    requires |j| <= |k|
    ensures Id(j, a) == Id(k, c) <==> (j == k && a == c) || Shadows(j, a, k, c)
  {
    var x, y := Id(j, a), Id(k, c);
    assert x[..|j|] == j && x[|j| + 1..] == a;
    assert y[..|k|] == k && y[|k| + 1..] == c;
    if |j| < |k| {
      assert x[..|j| + 1] == j + "-";
      assert y[..|j| + 1] == k[..|j| + 1];
      assert y[|j| + 1..] == k[|j| + 1..] + "-" + c;
      assert x == x[..|j| + 1] + x[|j| + 1..] && y == y[..|j| + 1] + y[|j| + 1..];
    }
  }

  lemma {:induction false} PairsDistinct(keys: seq<string>, m: map<string, BuildVal>)
    requires forall k | k in keys :: k in m
    requires NoDuplicates(keys)
    ensures NoDuplicates(Pairs(keys, m)) <==> forall k | k in keys :: ArchsDistinct(m[k])
    ensures forall p :: p in Pairs(keys, m) <==>
              p.0 in keys && exists i | 0 <= i < |m[p.0].archs| :: m[p.0].archs[i].goArch == p.1
  {
    if keys != [] {
      var rest := keys[1..];
      PairsDistinct(rest, m);
      assert keys == [keys[0]] + rest && keys[0] !in rest;
      var archs := m[keys[0]].archs;
      var first := seq(|archs|, i requires 0 <= i < |archs| => (keys[0], archs[i].goArch));
      var all := Pairs(keys, m);
      assert all == first + Pairs(rest, m);
      FirstDistinct(m[keys[0]], keys[0], first);
      assert forall p | p in first :: p.0 == keys[0];
      ConcatDistinct(first, Pairs(rest, m));
      forall p
        ensures p in first <==> p.0 == keys[0] && exists i | 0 <= i < |m[p.0].archs| :: m[p.0].archs[i].goArch == p.1
      {
        if p.0 == keys[0] && exists i | 0 <= i < |archs| :: archs[i].goArch == p.1 {
          var i :| 0 <= i < |archs| && archs[i].goArch == p.1;
          assert first[i] == p;
        }
      }
    }
  }

  lemma FirstDistinct(v: BuildVal, k: string, first: seq<(string, string)>)
    requires |first| == |v.archs| && forall i | 0 <= i < |first| :: first[i] == (k, v.archs[i].goArch)
    ensures NoDuplicates(first) <==> ArchsDistinct(v)
  {
  }

  /** The ids are pairwise distinct exactly when architectures are distinct within each build and no
      build shadows another. */
  lemma IdsDistinctExactly(keys: seq<string>, m: map<string, BuildVal>)
    requires forall k | k in keys :: k in m
    requires NoDuplicates(keys)
    ensures NoDuplicates(Ids(Pairs(keys, m))) <==>
              (forall k | k in keys :: ArchsDistinct(m[k])) &&
              (forall p, q | p in Pairs(keys, m) && q in Pairs(keys, m) :: !Shadows(p.0, p.1, q.0, q.1))
  {
    PairsDistinct(keys, m);
    var ps := Pairs(keys, m);
    var ids := Ids(ps);
    forall p, q | p in ps && q in ps
      ensures Id(p.0, p.1) == Id(q.0, q.1) <==>
              p == q || Shadows(p.0, p.1, q.0, q.1) || Shadows(q.0, q.1, p.0, p.1)
    {
      SameIdExactly(p.0, p.1, q.0, q.1);
    }
    if NoDuplicates(ids) {
      forall i, j | 0 <= i < j < |ps| ensures ps[i] != ps[j] {
        assert ids[i] != ids[j];
      }
      forall p, q | p in ps && q in ps ensures !Shadows(p.0, p.1, q.0, q.1) {
        var i :| 0 <= i < |ps| && ps[i] == p;
        var j :| 0 <= j < |ps| && ps[j] == q;
        assert ids[i] == Id(p.0, p.1) && ids[j] == Id(q.0, q.1);
        assert i < j || j < i ==> ids[i] != ids[j];
      }
    }
  }

  predicate DashFree(v: BuildVal) {
    forall i | 0 <= i < |v.archs| :: '-' !in v.archs[i].goArch
  }

  lemma DashFreeNeverShadows(j: string, a: string, k: string, c: string)
    requires '-' !in a
    ensures !Shadows(j, a, k, c)
  {
    if |j| < |k| {
      var t := k[|j| + 1..] + "-" + c;
      assert t[|k| - |j| - 1] == '-';
    }
  }

  /** Architecture names without a dash never shadow, whatever the builds are called. */
  lemma DashFreeIdsDistinct(keys: seq<string>, m: map<string, BuildVal>)
    requires forall k | k in keys :: k in m && ArchsDistinct(m[k]) && DashFree(m[k])
    requires NoDuplicates(keys)
    ensures NoDuplicates(Ids(Pairs(keys, m)))
  {
    PairsDistinct(keys, m);
    var ps := Pairs(keys, m);
    forall p, q | p in ps && q in ps ensures !Shadows(p.0, p.1, q.0, q.1) {
      DashFreeNeverShadows(p.0, p.1, q.0, q.1);
    }
    IdsDistinctExactly(keys, m);
  }

  /** Two builds that do clash: "std" for "x-amd64", and "std-x" for "amd64". */
  lemma DashesCanClash() returns (m: map<string, BuildVal>)
    ensures forall k | k in m :: ArchsDistinct(m[k])
    ensures "std" in m && "std-x" in m && !NoDuplicates(Ids(Pairs(["std", "std-x"], m)))
  {
    var blank := BuildText("", "", "", "", "", "", "", "", "", "", "", "", "", "");
    var one := BuildVal(blank, [], [], [Arch("", "", "x-amd64", false)]);
    var two := BuildVal(blank, [], [], [Arch("", "", "amd64", false)]);
    m := map["std" := one, "std-x" := two];
    var keys := ["std", "std-x"];
    PairsDistinct(keys, m);
    assert one.archs[0].goArch == "x-amd64" && two.archs[0].goArch == "amd64";
    var p, q := ("std", "x-amd64"), ("std-x", "amd64");
    assert p in Pairs(keys, m) && q in Pairs(keys, m);
    assert Shadows(p.0, p.1, q.0, q.1) by {
      assert "std-x"[..4] == "std" + "-" && "x-amd64" == "std-x"[4..] + "-" + "amd64";
    }
    IdsDistinctExactly(keys, m);
  }

  /** Merging and filtering keep architectures distinct, so the ids of a branch's builds are distinct. */
  lemma BranchIdsDistinct(r: map<string, BuildVal>, b: map<string, Option<BuildVal>>, features: seq<string>,
                          keys: seq<string>, m: map<string, BuildVal>)
    requires forall k | k in r :: ArchsDistinct(r[k]) && DashFree(r[k])
    requires forall k | k in b && b[k].Some? :: ArchsDistinct(b[k].value) && DashFree(b[k].value)
    requires forall k :: k in m ==> k in BranchBuilds(r, b, features) && BranchBuilds(r, b, features)[k] == Some(m[k])
    requires NoDuplicates(keys) && forall k | k in keys :: k in m
    ensures NoDuplicates(Ids(Pairs(keys, m)))
  {
    forall k | k in keys ensures ArchsDistinct(m[k]) && DashFree(m[k]) {
      assert Overlaid(r, b, k) == Some(m[k]);
    }
    DashFreeIdsDistinct(keys, m);
  }
}

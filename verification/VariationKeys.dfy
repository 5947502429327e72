/** When the concatenated keys of test variations tell paths apart, and what a lookup gives, written out level
    by level. */
module VariationKeys {
  import opened Ordering
  import opened Variations

  // ---------- Removing duplicates keeps the order ----------

  lemma IndexInIs(xs: seq<string>, x: string, i: nat)
    requires i < |xs| && xs[i] == x && x !in xs[..i]
    ensures IndexIn(xs, x) == i
  {
    var j := IndexIn(xs, x);
    assert x in xs;
    assert forall k | 0 <= k < i :: xs[..i][k] == xs[k];
    assert forall k | 0 <= k < j :: xs[..j][k] == xs[k];
  }

  lemma IndexInAppend(a: seq<string>, b: seq<string>, x: string)
    requires x in a
    ensures IndexIn(a + b, x) == IndexIn(a, x) >= 0
  {
    var i := IndexIn(a, x);
    assert (a + b)[..i] == a[..i];
    IndexInIs(a + b, x, i);
  }

  /** What is kept stands in the order of first occurrence. */
  lemma {:induction false} DedupInOrder(s: seq<string>)
    ensures forall i, j | 0 <= i < j < |Dedup(s)| :: 0 <= IndexIn(s, Dedup(s)[i]) < IndexIn(s, Dedup(s)[j])
  {
    if s == [] {
      assert Dedup(s) == [];
    } else {
      var init, x := s[..|s| - 1], s[|s| - 1];
      var d, e := Dedup(init), Dedup(s);
      assert s == init + [x];
      DedupInOrder(init);
      DedupElements(init);
      forall i | 0 <= i < |d| ensures e[i] == d[i] && IndexIn(s, e[i]) == IndexIn(init, d[i]) >= 0 {
        assert d[i] in Elements(init);
        IndexInAppend(init, [x], d[i]);
      }
      if x !in init {
        assert s[..|init|] == init;
        IndexInIs(s, x, |init|);
      }
      forall i, j | 0 <= i < j < |e| ensures 0 <= IndexIn(s, e[i]) < IndexIn(s, e[j]) {
        assert j < |d| ==> IndexIn(init, d[i]) < IndexIn(init, d[j]);
      }
    }
  }

  // ---------- Keys ----------

  lemma SameHead(a: string, x: string, b: string, y: string)
    requires a + x == b + y
    ensures a <= b || b <= a
    ensures a == b <==> x == y
  {
    assert a == (a + x)[..|a|] && x == (a + x)[|a|..];
    assert b == (b + y)[..|b|] && y == (b + y)[|b|..];
    assert |a| <= |b| ==> a == (b + y)[..|a|] == b[..|a|];
    assert |b| <= |a| ==> b == (a + x)[..|b|] == a[..|b|];
  }

  /** Paths with one key that agree in three components agree in the fourth. */
  lemma KeyTellsOne(p: Path, q: Path)
    requires PathKey(p) == PathKey(q)
    ensures p.branch == q.branch && p.trigger == q.trigger && p.testsuite == q.testsuite ==> p.repo == q.repo
    ensures p.repo == q.repo && p.trigger == q.trigger && p.testsuite == q.testsuite ==> p.branch == q.branch
    ensures p.repo == q.repo && p.branch == q.branch && p.testsuite == q.testsuite ==> p.trigger == q.trigger
    ensures p.repo == q.repo && p.branch == q.branch && p.trigger == q.trigger ==> p.testsuite == q.testsuite
  {
    KeyParts(p);
    KeyParts(q);
    SameHead(p.repo, p.branch + (p.trigger + p.testsuite), q.repo, q.branch + (q.trigger + q.testsuite));
    if p.repo == q.repo {
      SameHead(p.branch, p.trigger + p.testsuite, q.branch, q.trigger + q.testsuite);
      if p.branch == q.branch {
        SameHead(p.trigger, p.testsuite, q.trigger, q.testsuite);
      }
    }
  }

  lemma KeyParts(p: Path)
    ensures PathKey(p) == p.repo + (p.branch + (p.trigger + p.testsuite))
  {
  }

  /** Some node at this depth of the tree has a level of this name. */
  ghost predicate Used(m: Matrix, depth: nat, name: string) {
    if depth == 0 then name in m.level
    else exists k | k in m.level :: Used(m.level[k], depth - 1, name)
  }

  /** On each of the four levels, no name used in the tree starts another. */
  ghost predicate NamesTell(m: Matrix) {
    forall depth: nat, a, b | depth < 4 && Used(m, depth, a) && Used(m, depth, b) && a <= b :: a == b
  }

  lemma {:induction false} PathNames(m: Matrix, depth: nat, p: Path, d: nat)
    requires depth <= 4 && HasPath(m, depth, p) && depth + d < 4
    ensures Used(m, d, KeyAt(p, depth + d))
    decreases d
  {
    if d > 0 {
      PathNames(m.level[KeyAt(p, depth)], depth + 1, p, d - 1);
    }
  }

  /** Keys tell all paths apart when, on each of the four levels, no name used in the tree starts another. */
  lemma NamesTellPaths(m: Matrix, p: Path, q: Path)
    requires NamesTell(m) && HasPath(m, 0, p) && HasPath(m, 0, q)
    ensures PathKey(p) == PathKey(q) <==> p == q
  {
    hide Used, HasPath, PathKey;
    if PathKey(p) == PathKey(q) {
      NamesComparable(m, p, q, REPO);
      NamesComparable(m, p, q, BRANCH);
      NamesComparable(m, p, q, TRIGGER);
      KeyParts(p);
      KeyParts(q);
      SameHead(p.repo, p.branch + (p.trigger + p.testsuite), q.repo, q.branch + (q.trigger + q.testsuite));
      SameHead(p.branch, p.trigger + p.testsuite, q.branch, q.trigger + q.testsuite);
      SameHead(p.trigger, p.testsuite, q.trigger, q.testsuite);
    }
  }

  lemma NamesComparable(m: Matrix, p: Path, q: Path, depth: nat)
    requires NamesTell(m) && HasPath(m, 0, p) && HasPath(m, 0, q) && depth < 4
    ensures KeyAt(p, depth) <= KeyAt(q, depth) || KeyAt(q, depth) <= KeyAt(p, depth) ==> KeyAt(p, depth) == KeyAt(q, depth)
  {
    hide Used, HasPath;
    PathNames(m, 0, p, depth);
    PathNames(m, 0, q, depth);
  }

  // ---------- Lookups, written out ----------

  /** The node of a tree under these names: testsuite, then branch, then trigger, then repo. */
  ghost predicate Under(m: Matrix, testsuite: string, branch: string, trigger: string, repo: string,
                        t: Matrix, b: Matrix, g: Matrix, r: Matrix)
  {
    && testsuite in m.level && m.level[testsuite] == t
    && branch in t.level && t.level[branch] == b
    && trigger in b.level && b.level[trigger] == g
    && repo in g.level && g.level[repo] == r
  }

  lemma Along(m: Matrix, p: Path, t: Matrix, b: Matrix, g: Matrix, r: Matrix)
    requires Under(m, p.testsuite, p.branch, p.trigger, p.repo, t, b, g, r)
    ensures HasPath(m, 0, p)
    ensures EnvAlong(m, 0, p) == r.envFiles + g.envFiles + b.envFiles + t.envFiles + m.envFiles
    ensures forall f :: ListAlong(m, 0, p, f) == Get(r, f) + Get(g, f) + Get(b, f) + Get(t, f) + Get(m, f)
  {
    hide Get;
    assert HasPath(g, 3, p) && HasPath(b, 2, p) && HasPath(t, 1, p);
    assert EnvAlong(g, 3, p) == r.envFiles + g.envFiles;
    assert EnvAlong(b, 2, p) == r.envFiles + g.envFiles + b.envFiles;
    assert EnvAlong(t, 1, p) == r.envFiles + g.envFiles + b.envFiles + t.envFiles;
    forall f ensures ListAlong(m, 0, p, f) == Get(r, f) + Get(g, f) + Get(b, f) + Get(t, f) + Get(m, f) {
      assert ListAlong(g, 3, p, f) == Get(r, f) + Get(g, f);
      assert ListAlong(b, 2, p, f) == Get(r, f) + Get(g, f) + Get(b, f);
      assert ListAlong(t, 1, p, f) == Get(r, f) + Get(g, f) + Get(b, f) + Get(t, f);
    }
  }

  /** When no level name starts another, a lookup gives, from the repo's level up to the top, all env files and
      each list without repetitions. */
  lemma LookupByNames(v: Variations, saved: Matrix, testsuite: string, branch: string, trigger: string, repo: string,
                      t: Matrix, b: Matrix, g: Matrix, r: Matrix)
    requires v.Loaded(saved) && NamesTell(saved)
    requires Under(saved, testsuite, branch, trigger, repo, t, b, g, r)
    ensures var found := v.Lookup(repo, branch, trigger, testsuite);
            && found.envFiles == r.envFiles + g.envFiles + b.envFiles + t.envFiles + saved.envFiles
            && found.pump == Dedup(r.pump + g.pump + b.pump + t.pump + saved.pump)
            && found.sink == Dedup(r.sink + g.sink + b.sink + t.sink + saved.sink)
            && found.deb == Dedup(r.deb + g.deb + b.deb + t.deb + saved.deb)
            && found.rpm == Dedup(r.rpm + g.rpm + b.rpm + t.rpm + saved.rpm)
  {
    hide HasPath, Table, LeafFrom, EnvAlong, ListAlong, NamesTell, PathKey, Dedup;
    var p := Path(testsuite, trigger, branch, repo);
    Along(saved, p, t, b, g, r);
    forall x, y | x in v.paths && y in v.paths && PathKey(x) == PathKey(y) ensures LeafFrom(saved, 0, x) == LeafFrom(saved, 0, y) {
      NamesTellPaths(saved, x, y);
    }
    LookupGivesLeaf(v, saved, p);
    var found := v.Lookup(repo, branch, trigger, testsuite);
    assert Get(found, Pump) == Dedup(ListAlong(saved, 0, p, Pump));
    assert Get(found, Sink) == Dedup(ListAlong(saved, 0, p, Sink));
    assert Get(found, Deb) == Dedup(ListAlong(saved, 0, p, Deb));
    assert Get(found, Rpm) == Dedup(ListAlong(saved, 0, p, Rpm));
  }
}

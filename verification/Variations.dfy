/** Test variations: a tree saved testsuite by branch by trigger by repo, in which every level inherits
    from the one above, unrolled into a flat table. */
module Variations {
  import opened Ordering

  datatype EnvFile = EnvFile(cache: string, db: string, config: string, apiMarkers: string, uiMarkers: string,
                             gwDash: string, pump: string, sink: string)

  datatype Matrix = Matrix(envFiles: seq<EnvFile>, pump: seq<string>, sink: seq<string>,
                           deb: seq<string>, rpm: seq<string>, level: map<string, Matrix>)

  /** The lists that are inherited without repetition. */
  datatype Field = Pump | Sink | Deb | Rpm

  function Get(m: Matrix, f: Field): seq<string> {
    match f
    case Pump => m.pump
    case Sink => m.sink
    case Deb => m.deb
    case Rpm => m.rpm
  }

  datatype Path = Path(testsuite: string, trigger: string, branch: string, repo: string)

  const ZERO := Matrix([], [], [], [], [], map[])

  const TESTSUITE := 0
  const BRANCH := 1
  const TRIGGER := 2
  const REPO := 3

  // ---------- Removing duplicates ----------

  /** The first occurrence of every element, in order. */
  function Dedup(s: seq<string>): seq<string> {
    if s == [] then []
    else
      var init, x := s[..|s| - 1], s[|s| - 1];
      if x in init then Dedup(init) else Dedup(init) + [x]
  }

  method RemoveDuplicates(s: seq<string>) returns (result: seq<string>)
    ensures result == Dedup(s)
  {
    var bucket: set<string> := {};
    result := [];
    for i := 0 to |s|
      invariant bucket == Elements(s[..i])
      invariant result == Dedup(s[..i])
    {
      assert s[..i + 1][..i] == s[..i];
      if s[i] !in bucket {
        bucket := bucket + {s[i]};
        result := result + [s[i]];
      }
    }
    assert s[..|s|] == s;
  }

  lemma {:induction false} DedupElements(s: seq<string>)
    ensures Elements(Dedup(s)) == Elements(s)
    ensures NoDuplicates(Dedup(s))
  {
    if s != [] {
      var init, x := s[..|s| - 1], s[|s| - 1];
      DedupElements(init);
      assert s == init + [x];
      assert x in init <==> x in Elements(Dedup(init));
      if x !in init {
        AppendElement(Dedup(init), x);
      }
    }
  }

  lemma DedupSnoc(s: seq<string>, x: string)
    ensures Dedup(s + [x]) == if x in s then Dedup(s) else Dedup(s) + [x]
  {
    assert (s + [x])[..|s|] == s;
  }

  /** De-duplicating what is inherited before appending it changes nothing. */
  lemma {:induction false} DedupNested(a: seq<string>, b: seq<string>)
    ensures Dedup(a + Dedup(b)) == Dedup(a + b)
  {
    if b != [] {
      var init, x := b[..|b| - 1], b[|b| - 1];
      DedupNested(a, init);
      DedupElements(init);
      assert x in init <==> x in Elements(Dedup(init));
      assert a + b == (a + init) + [x];
      DedupSnoc(a + init, x);
      assert a + (Dedup(init) + [x]) == (a + Dedup(init)) + [x];
      DedupSnoc(a + Dedup(init), x);
    }
  }

  // ---------- The tree ----------

  function KeyAt(p: Path, depth: nat): string {
    if depth == TESTSUITE then p.testsuite
    else if depth == BRANCH then p.branch
    else if depth == TRIGGER then p.trigger
    else p.repo
  }

  function Step(p: Path, depth: nat, level: string): Path {
    if depth == TESTSUITE then p.(testsuite := level)
    else if depth == BRANCH then p.(branch := level)
    else if depth == TRIGGER then p.(trigger := level)
    else if depth == REPO then p.(repo := level)
    else p
  }

  /** The path leads from a node at `depth` down to a node at depth four. */
  predicate HasPath(m: Matrix, depth: nat, p: Path)
    requires depth <= 4
    decreases 4 - depth
  {
    depth == 4 || (KeyAt(p, depth) in m.level && HasPath(m.level[KeyAt(p, depth)], depth + 1, p))
  }

  function Inherit(child: Matrix, parent: Matrix): Matrix {
    Matrix(child.envFiles + parent.envFiles, Dedup(child.pump + parent.pump), Dedup(child.sink + parent.sink),
           Dedup(child.deb + parent.deb), Dedup(child.rpm + parent.rpm), child.level)
  }

  lemma InheritList(child: Matrix, parent: Matrix, f: Field)
    ensures Get(Inherit(child, parent), f) == Dedup(Get(child, f) + Get(parent, f))
  {
  }

  /** The node at depth four, each level having inherited from the one above. */
  function LeafFrom(m: Matrix, depth: nat, p: Path): Matrix
    requires depth <= 4 && HasPath(m, depth, p)
    decreases 4 - depth
  {
    if depth == 4 then m else LeafFrom(Inherit(m.level[KeyAt(p, depth)], m), depth + 1, p)
  }

  /** Env files along the path, leaf first. */
  function EnvAlong(m: Matrix, depth: nat, p: Path): seq<EnvFile>
    requires depth <= 4 && HasPath(m, depth, p)
    decreases 4 - depth
  {
    if depth == 4 then m.envFiles else EnvAlong(m.level[KeyAt(p, depth)], depth + 1, p) + m.envFiles
  }

  /** One of the lists along the path, leaf first, repetitions and all. */
  function ListAlong(m: Matrix, depth: nat, p: Path, f: Field): seq<string>
    requires depth <= 4 && HasPath(m, depth, p)
    decreases 4 - depth
  {
    if depth == 4 then Get(m, f) else ListAlong(m.level[KeyAt(p, depth)], depth + 1, p, f) + Get(m, f)
  }

  /** What a node itself says comes last along every path below it. */
  lemma {:induction false} AlongSplits(m: Matrix, n: Matrix, depth: nat, p: Path, f: Field) returns (above: seq<string>)
    requires depth <= 4 && HasPath(m, depth, p) && m.level == n.level
    ensures HasPath(n, depth, p)
    ensures ListAlong(m, depth, p, f) == above + Get(m, f)
    ensures ListAlong(n, depth, p, f) == above + Get(n, f)
  {
    above := if depth == 4 then [] else ListAlong(m.level[KeyAt(p, depth)], depth + 1, p, f);
  }

  /** A leaf's lists are one de-duplication of the whole path: the nested ones collapse. */
  lemma {:induction false} LeafLists(m: Matrix, depth: nat, p: Path, f: Field)
    requires depth < 4 && HasPath(m, depth, p)
    ensures Get(LeafFrom(m, depth, p), f) == Dedup(ListAlong(m, depth, p, f))
    decreases 4 - depth
  {
    hide Dedup, Get;
    var child := m.level[KeyAt(p, depth)];
    var heir := Inherit(child, m);
    InheritList(child, m, f);
    if depth < 3 {
      LeafLists(heir, depth + 1, p, f);
      var above := AlongSplits(child, heir, depth + 1, p, f);
      DedupNested(above, Get(child, f) + Get(m, f));
      assert above + (Get(child, f) + Get(m, f)) == above + Get(child, f) + Get(m, f);
    }
  }

  lemma {:induction false} LeafEnv(m: Matrix, depth: nat, p: Path)
    requires depth <= 4 && HasPath(m, depth, p)
    ensures LeafFrom(m, depth, p).envFiles == EnvAlong(m, depth, p)
    decreases 4 - depth
  {
    if depth < 4 {
      var child := m.level[KeyAt(p, depth)];
      LeafEnv(Inherit(child, m), depth + 1, p);
      if depth < 3 {
        var deeper := EnvAlong(child.level[KeyAt(p, depth + 1)], depth + 2, p);
        assert deeper + (child.envFiles + m.envFiles) == deeper + child.envFiles + m.envFiles;
      }
    }
  }

  // ---------- The table ----------

  /** `createVariationKey`: the parts run together, with nothing between them. */
  function Key(repo: string, branch: string, trigger: string, testsuite: string): string {
    repo + branch + trigger + testsuite
  }

  function PathKey(p: Path): string {
    Key(p.repo, p.branch, p.trigger, p.testsuite)
  }

  ghost predicate AllPaths(m: Matrix, depth: nat, ps: seq<Path>)
    requires depth <= 4
  {
    forall p | p in ps :: HasPath(m, depth, p)
  }

  /** The path leads to the same leaf from `m` as from the node below it. */
  ghost predicate SameLeaf(m: Matrix, depth: nat, n: Matrix, q: Path)
    requires depth < 4
  {
    HasPath(m, depth, q) && HasPath(n, depth + 1, q) && LeafFrom(n, depth + 1, q) == LeafFrom(m, depth, q)
  }

  /** The table after recording `ps` in order: a later path with the same key overwrites. */
  ghost function Table(m: Matrix, depth: nat, ps: seq<Path>, base: map<string, Matrix>): map<string, Matrix>
    requires depth <= 4 && AllPaths(m, depth, ps)
  {
    if ps == [] then base
    else
      var last := ps[|ps| - 1];
      Table(m, depth, ps[..|ps| - 1], base)[PathKey(last) := LeafFrom(m, depth, last)]
  }

  lemma {:induction false} TableAppend(m: Matrix, depth: nat, n: Matrix, base: map<string, Matrix>,
                                       ps: seq<Path>, qs: seq<Path>)
    requires depth < 4
    requires AllPaths(m, depth, ps)
    requires AllPaths(m, depth, ps + qs) && AllPaths(n, depth + 1, qs)
    requires forall q | q in qs :: SameLeaf(m, depth, n, q)
    ensures Table(m, depth, ps + qs, base) == Table(n, depth + 1, qs, Table(m, depth, ps, base))
  {
    hide HasPath, LeafFrom, PathKey;
    if qs == [] {
      assert ps + qs == ps;
    } else {
      var init, last := qs[..|qs| - 1], qs[|qs| - 1];
      assert (ps + qs)[..|ps + qs| - 1] == ps + init && (ps + qs)[|ps + qs| - 1] == last;
      TableAppend(m, depth, n, base, ps, init);
      assert SameLeaf(m, depth, n, last);
      assert Table(m, depth, ps + qs, base) == Table(m, depth, ps + init, base)[PathKey(last) := LeafFrom(m, depth, last)];
    }
  }

  /** Every key in the table comes from the last path recorded under it. */
  lemma {:induction false} TableHas(m: Matrix, ps: seq<Path>, p: Path) returns (q: Path)
    requires AllPaths(m, 0, ps)
    requires p in ps
    ensures q in ps && PathKey(q) == PathKey(p)
    ensures PathKey(p) in Table(m, 0, ps, map[]) && Table(m, 0, ps, map[])[PathKey(p)] == LeafFrom(m, 0, q)
  {
    var init, last := ps[..|ps| - 1], ps[|ps| - 1];
    if PathKey(last) == PathKey(p) {
      q := last;
    } else {
      assert ps == init + [last];
      q := TableHas(m, init, p);
    }
  }

  lemma {:induction false} TableOnly(m: Matrix, ps: seq<Path>)
    requires AllPaths(m, 0, ps)
    ensures forall k | k in Table(m, 0, ps, map[]) :: exists p | p in ps :: PathKey(p) == k
  {
    if ps != [] {
      var init, last := ps[..|ps| - 1], ps[|ps| - 1];
      assert ps == init + [last];
      TableOnly(m, init);
    }
  }

  /** The table gives every path its own leaf. */
  ghost predicate Faithful(m: Matrix, ps: seq<Path>, table: map<string, Matrix>)
    requires AllPaths(m, 0, ps)
  {
    forall p | p in ps :: PathKey(p) in table && table[PathKey(p)] == LeafFrom(m, 0, p)
  }

  /** No two paths with one key have different leaves. */
  ghost predicate KeysTell(m: Matrix, ps: seq<Path>)
    requires AllPaths(m, 0, ps)
  {
    forall p, q {:trigger PathKey(p), PathKey(q)} | p in ps && q in ps && PathKey(p) == PathKey(q) ::
      LeafFrom(m, 0, p) == LeafFrom(m, 0, q)
  }

  /** Flattening loses nothing, in whatever order the paths were recorded, exactly when keys tell
      different leaves apart. */
  lemma TableFaithfulExactly(m: Matrix, ps: seq<Path>)
    requires AllPaths(m, 0, ps)
    ensures Faithful(m, ps, Table(m, 0, ps, map[])) <==> KeysTell(m, ps)
  {
    hide Table, LeafFrom, HasPath, PathKey;
    var table := Table(m, 0, ps, map[]);
    if KeysTell(m, ps) {
      forall p | p in ps ensures PathKey(p) in table && table[PathKey(p)] == LeafFrom(m, 0, p) {
        var q := TableHas(m, ps, p);
      }
    }
  }

  // ---------- Parsing ----------

  ghost predicate Agrees(p: Path, path: Path, depth: nat) {
    forall d | 0 <= d < depth :: KeyAt(p, d) == KeyAt(path, d)
  }

  /** What is below one level name of a node. */
  lemma Below(m: Matrix, depth: nat, level: string, path0: Path, path: Path, p: Path)
    requires depth < 4 && level in m.level
    requires Agrees(path, path0, depth) && KeyAt(path, depth) == level
    ensures var heir := Inherit(m.level[level], m);
            (Agrees(p, path, depth + 1) && HasPath(heir, depth + 1, p) <==>
               Agrees(p, path0, depth) && KeyAt(p, depth) == level && HasPath(m, depth, p)) &&
            (Agrees(p, path, depth + 1) && HasPath(heir, depth + 1, p) ==>
               LeafFrom(heir, depth + 1, p) == LeafFrom(m, depth, p))
  {
    assert Agrees(p, path, depth + 1) <==> Agrees(p, path0, depth) && KeyAt(p, depth) == level;
  }

  /** `ps` lists, without repetition, the paths below a node at `depth` on `path0`, except those that
      go on with a name in `skip`. */
  ghost predicate Lists(ps: seq<Path>, m: Matrix, depth: nat, path0: Path, skip: set<string>)
    requires depth <= 4
  {
    NoDuplicates(ps) &&
    forall p :: p in ps <==> depth < 4 && Agrees(p, path0, depth) && HasPath(m, depth, p) && KeyAt(p, depth) !in skip
  }

  lemma AgreesToTheEnd(p: Path, path: Path)
    ensures Agrees(p, path, 4) <==> p == path
  {
    if Agrees(p, path, 4) {
      assert KeyAt(p, 0) == KeyAt(path, 0) && KeyAt(p, 1) == KeyAt(path, 1) && KeyAt(p, 2) == KeyAt(path, 2)
          && KeyAt(p, 3) == KeyAt(path, 3);
    }
  }

  /** Going through one more level name. */
  lemma ListsMore(m: Matrix, depth: nat, path0: Path, ps: seq<Path>, skip: set<string>, level: string, path: Path,
                  qs: seq<Path>, base: map<string, Matrix>)
    requires depth < 4 && level in m.level && level in skip
    requires Agrees(path, path0, depth) && KeyAt(path, depth) == level
    requires Lists(ps, m, depth, path0, skip) && AllPaths(m, depth, ps)
    requires var heir := Inherit(m.level[level], m);
             if depth == REPO then qs == [path] else Lists(qs, heir, depth + 1, path, {})
    requires AllPaths(Inherit(m.level[level], m), depth + 1, qs)
    ensures AllPaths(m, depth, ps + qs)
    ensures Lists(ps + qs, m, depth, path0, skip - {level})
    ensures Table(m, depth, ps + qs, base) ==
            Table(Inherit(m.level[level], m), depth + 1, qs, Table(m, depth, ps, base))
  {
    hide Table, LeafFrom, HasPath, Inherit;
    var heir := Inherit(m.level[level], m);
    forall p
      ensures p in qs <==> Agrees(p, path0, depth) && KeyAt(p, depth) == level && HasPath(m, depth, p)
      ensures p in qs ==> LeafFrom(heir, depth + 1, p) == LeafFrom(m, depth, p)
    {
      Below(m, depth, level, path0, path, p);
      if depth == REPO {
        AgreesToTheEnd(p, path);
        AtTheEnd(heir, p);
      }
    }
    ConcatDistinct(ps, qs);
    TableAppend(m, depth, heir, base, ps, qs);
  }

  lemma AtTheEnd(m: Matrix, p: Path)
    ensures HasPath(m, 4, p)
  {
  }

  class Variations {
    var leaves: map<string, Matrix>
    var paths: seq<Path>

    constructor ()
      ensures leaves == map[] && paths == []
    {
      leaves, paths := map[], [];
    }

    /** The paths are exactly those of the tree, each once, and the table was filled from them in order. */
    ghost predicate Loaded(saved: Matrix)
      reads this
    {
      && AllPaths(saved, 0, paths)
      && (forall p :: p in paths <==> HasPath(saved, 0, p))
      && NoDuplicates(paths)
      && leaves == Table(saved, 0, paths, map[])
    }

    /** A branch without variations of its own takes those of master; nothing at all is the zero matrix. */
    function Lookup(repo: string, branch: string, trigger: string, testsuite: string): Matrix
      reads this
    {
      if Key(repo, branch, trigger, testsuite) in leaves then leaves[Key(repo, branch, trigger, testsuite)]
      else if Key(repo, "master", trigger, testsuite) in leaves then leaves[Key(repo, "master", trigger, testsuite)]
      else ZERO
    }

    /** `parseVariations`. Level names are taken in any order; levels below the fourth are ignored.
        `added` is what the call appends to the list of paths. */
    method Parse(sv: Matrix, depth: nat, path0: Path) returns (ghost added: seq<Path>)
      requires depth <= 4
      modifies this
      ensures paths == old(paths) + added
      ensures (AllPaths(sv, depth, added)) && Lists(added, sv, depth, path0, {})
      ensures leaves == Table(sv, depth, added, old(leaves))
      decreases 4 - depth
    {
      hide HasPath, Inherit, Agrees, Lists, PathKey, Table;
      var path := path0;
      added := [];
      var todo := sv.level.Keys;
      NothingRecorded(sv, depth, path0, leaves);
      while todo != {}
        invariant todo <= sv.level.Keys
        invariant paths == old(paths) + added && depth <= 4
        invariant Agrees(path, path0, depth)
        invariant AllPaths(sv, depth, added)
        invariant Lists(added, sv, depth, path0, todo)
        invariant leaves == Table(sv, depth, added, old(leaves))
        decreases |todo|
      {
        var level :| level in todo;
        var levelMatrix := InheritFrom(sv.level[level], sv);
        if depth > REPO {
          EmptyLists(added, sv, path0, todo);
          return;
        }
        StepAgrees(path, path0, depth, level);
        path := Step(path, depth, level);
        if depth == REPO {
          OneRecorded(levelMatrix, path, leaves);
          ListsMore(sv, depth, path0, added, todo, level, path, [path], old(leaves));
          leaves := leaves[PathKey(path) := levelMatrix];
          paths := paths + [path];
          added := added + [path];
        }
        ghost var soFar := leaves;
        ghost var deeper := Parse(levelMatrix, depth + 1, path);
        if depth == REPO {
          EmptyLists(deeper, levelMatrix, path, {});
          NothingRecorded(levelMatrix, depth + 1, path, soFar);
        } else {
          ListsMore(sv, depth, path0, added, todo, level, path, deeper, old(leaves));
          added := added + deeper;
        }
        todo := todo - {level};
      }
    }
  }

  /** `loadVariation`, once the file is decoded. */
  method Load(saved: Matrix) returns (v: Variations)
    ensures fresh(v) && v.Loaded(saved)
  {
    hide HasPath, Table;
    v := new Variations();
    var top := Path("", "", "", "");
    ghost var added := v.Parse(saved, 0, top);
    assert v.paths == added;
  }

  lemma NothingRecorded(m: Matrix, depth: nat, path0: Path, base: map<string, Matrix>)
    requires depth <= 4
    ensures Table(m, depth, [], base) == base
    ensures Agrees(path0, path0, depth) && Lists([], m, depth, path0, m.level.Keys)
  {
  }

  lemma OneRecorded(m: Matrix, path: Path, base: map<string, Matrix>)
    ensures HasPath(m, 4, path)
    ensures Table(m, 4, [path], base) == base[PathKey(path) := m]
  {
    assert [path][..0] == [];
  }

  lemma EmptyLists(ps: seq<Path>, m: Matrix, path0: Path, skip: set<string>)
    requires Lists(ps, m, 4, path0, skip)
    ensures ps == [] && Lists(ps, m, 4, path0, {})
  {
    assert Elements(ps) == {};
    ElementsEmpty(ps);
  }

  lemma StepAgrees(path: Path, path0: Path, depth: nat, level: string)
    requires depth < 4 && Agrees(path, path0, depth)
    ensures Agrees(Step(path, depth, level), path0, depth) && KeyAt(Step(path, depth, level), depth) == level
  {
  }

  method InheritFrom(child: Matrix, parent: Matrix) returns (m: Matrix)
    ensures m == Inherit(child, parent)
  {
    var pump := RemoveDuplicates(child.pump + parent.pump);
    var sink := RemoveDuplicates(child.sink + parent.sink);
    var deb := RemoveDuplicates(child.deb + parent.deb);
    var rpm := RemoveDuplicates(child.rpm + parent.rpm);
    m := Matrix(child.envFiles + parent.envFiles, pump, sink, deb, rpm, child.level);
  }

  // ---------- Looking up ----------

  /** Flattening preserves meaning: when keys tell leaves apart, looking up a path of the tree gives its
      env files concatenated leaf to root, and each list de-duplicated once over the whole path. */
  lemma LookupGivesLeaf(v: Variations, saved: Matrix, p: Path)
    requires v.Loaded(saved) && KeysTell(saved, v.paths) && HasPath(saved, 0, p)
    ensures v.Lookup(p.repo, p.branch, p.trigger, p.testsuite).envFiles == EnvAlong(saved, 0, p)
    ensures forall f :: Get(v.Lookup(p.repo, p.branch, p.trigger, p.testsuite), f) == Dedup(ListAlong(saved, 0, p, f))
  {
    hide HasPath, Table, LeafFrom, EnvAlong, ListAlong, KeysTell, Get, Dedup;
    TableFaithfulExactly(saved, v.paths);
    LeafEnv(saved, 0, p);
    forall f ensures Get(LeafFrom(saved, 0, p), f) == Dedup(ListAlong(saved, 0, p, f)) {
      LeafLists(saved, 0, p, f);
    }
  }

  /** Conversely, if every path looks up its own leaf then keys told the leaves apart. */
  lemma LookupNeedsKeys(v: Variations, saved: Matrix)
    requires v.Loaded(saved)
    requires forall p | p in v.paths :: v.Lookup(p.repo, p.branch, p.trigger, p.testsuite) == LeafFrom(saved, 0, p)
    ensures KeysTell(saved, v.paths)
  {
    hide HasPath, Table, LeafFrom, KeysTell;
    forall p | p in v.paths ensures PathKey(p) in v.leaves && v.leaves[PathKey(p)] == LeafFrom(saved, 0, p) {
      var q := TableHas(saved, v.paths, p);
    }
    TableFaithfulExactly(saved, v.paths);
  }

  /** A branch with no path of its own gets what master gets. */
  lemma LookupFallsBack(v: Variations, saved: Matrix, p: Path)
    requires v.Loaded(saved) && forall q | q in v.paths :: PathKey(q) != PathKey(p)
    ensures v.Lookup(p.repo, p.branch, p.trigger, p.testsuite) == v.Lookup(p.repo, "master", p.trigger, p.testsuite)
  {
    hide HasPath, Table, PathKey;
    TableOnly(saved, v.paths);
    assert PathKey(p) == Key(p.repo, p.branch, p.trigger, p.testsuite) by {
      KeyOfPath(p);
    }
  }

  lemma KeyOfPath(p: Path)
    ensures PathKey(p) == Key(p.repo, p.branch, p.trigger, p.testsuite)
  {
  }

  /** Keys need not tell: repo "a" with branch "bc" runs together with repo "ab" with branch "c". */
  lemma KeysCanClash() returns (saved: Matrix, p: Path, q: Path)
    ensures HasPath(saved, 0, p) && HasPath(saved, 0, q) && PathKey(p) == PathKey(q)
    ensures LeafFrom(saved, 0, p) != LeafFrom(saved, 0, q)
  {
    hide HasPath, LeafFrom;
    var one := ZERO.(pump := ["mongo"]);
    var c, d := ZERO.(level := map["a" := one]), ZERO.(level := map["ab" := ZERO]);
    var b, e := ZERO.(level := map["x" := c]), ZERO.(level := map["x" := d]);
    var a := ZERO.(level := map["bc" := b, "c" := e]);
    saved := ZERO.(level := map["t" := a]);
    p, q := Path("t", "x", "bc", "a"), Path("t", "x", "c", "ab");
    assert PathKey(p) == "abcxt" == PathKey(q);
    ChainLeaf(saved, a, b, c, one, p);
    ChainLeaf(saved, a, e, d, ZERO, q);
    assert "mongo" in Elements(one.pump);
  }

  /** Along a path on which only the leaf names pumps, the leaf's are all there are. */
  lemma ChainLeaf(m: Matrix, a: Matrix, b: Matrix, c: Matrix, leaf: Matrix, p: Path)
    requires p.testsuite in m.level && m.level[p.testsuite] == a && p.branch in a.level && a.level[p.branch] == b
    requires p.trigger in b.level && b.level[p.trigger] == c && p.repo in c.level && c.level[p.repo] == leaf
    requires m.pump == a.pump == b.pump == c.pump == []
    ensures HasPath(m, 0, p) && Elements(LeafFrom(m, 0, p).pump) == Elements(leaf.pump)
  {
    hide Dedup, LeafFrom;
    assert HasPath(c, 3, p);
    assert HasPath(b, 2, p);
    assert HasPath(a, 1, p);
    assert ListAlong(c, 3, p, Pump) == leaf.pump;
    assert ListAlong(b, 2, p, Pump) == leaf.pump;
    assert ListAlong(a, 1, p, Pump) == leaf.pump;
    LeafLists(m, 0, p, Pump);
    DedupElements(leaf.pump);
  }
}

/** The template bundle as a tree of values: what adding a path does to its leaves, and what rendering
    and counting see of it. */
module Trees {
  import opened Wrappers
  import opened Ordering
  import opened Text

  datatype Tree = Tree(name: string, path: string, kids: seq<Tree>)

  function Leaf(name: string, path: string): Tree {
    Tree(name, path, [])
  }

  /** Position of the first kid called `c`, or the number of kids. */
  function Find(kids: seq<Tree>, c: string): (i: nat)
    ensures i <= |kids|
    ensures i < |kids| ==> kids[i].name == c
    ensures forall j | 0 <= j < i :: kids[j].name != c
  {
    if kids == [] || kids[0].name == c then 0
    else
      var i := Find(kids[1..], c);
      assert forall j | 1 <= j <= i :: kids[j] == kids[1..][j - 1];
      i + 1
  }

  /** `Add`: down the first kids that match all but the last component, creating the ones that are
      missing, then a new leaf. */
  function AddTo(t: Tree, components: seq<string>, path: string): Tree
    requires components != []
    decreases |components|
  {
    var c := components[0];
    if |components| == 1 then t.(kids := t.kids + [Leaf(c, path)])
    else
      var i := Find(t.kids, c);
      if i < |t.kids| then t.(kids := t.kids[i := AddTo(t.kids[i], components[1..], path)])
      else t.(kids := t.kids + [AddTo(Leaf(c, path), components[1..], path)])
  }

  // ---------- Leaves ----------

  /** A leaf: the names that lead to it, and the path it was given. */
  datatype Entry = Entry(trail: seq<string>, path: string)

  function Under(c: string, es: seq<Entry>): seq<Entry> {
    seq(|es|, i requires 0 <= i < |es| => Entry([c] + es[i].trail, es[i].path))
  }

  /** The leaves, depth first. */
  function Leaves(t: Tree): seq<Entry> {
    if t.kids == [] then [Entry([], t.path)] else LeavesOf(t.kids)
  }

  function LeavesOf(kids: seq<Tree>): seq<Entry> {
    if kids == [] then [] else Under(kids[0].name, Leaves(kids[0])) + LeavesOf(kids[1..])
  }

  lemma {:induction false} LeavesOfConcat(a: seq<Tree>, b: seq<Tree>)
    ensures LeavesOf(a + b) == LeavesOf(a) + LeavesOf(b)
  {
    hide Under, Leaves;
    if a == [] {
      assert a + b == b;
    } else {
      LeavesOfConcat(a[1..], b);
      assert (a + b)[1..] == a[1..] + b && (a + b)[0] == a[0];
      var first := Under(a[0].name, Leaves(a[0]));
      assert LeavesOf(a + b) == first + LeavesOf(a[1..] + b);
      assert LeavesOf(a) == first + LeavesOf(a[1..]);
    }
  }

  lemma LeavesBelow(t: Tree)
    requires t.kids != []
    ensures Leaves(t) == LeavesOf(t.kids)
  {
  }

  lemma LeavesOfOne(t: Tree)
    ensures LeavesOf([t]) == Under(t.name, Leaves(t))
  {
    assert [t][1..] == [];
  }

  lemma CountParts(a: seq<Entry>, x: seq<Entry>, b: seq<Entry>, e: Entry)
    ensures multiset(a + x + b)[e] == multiset(a)[e] + multiset(x)[e] + multiset(b)[e]
  {
  }

  lemma LeavesOfSplit(kids: seq<Tree>, i: nat)
    requires i < |kids|
    ensures LeavesOf(kids) == LeavesOf(kids[..i]) + Under(kids[i].name, Leaves(kids[i])) + LeavesOf(kids[i + 1..])
  {
    assert kids == kids[..i] + kids[i..];
    LeavesOfConcat(kids[..i], kids[i..]);
    assert kids[i..][1..] == kids[i + 1..];
  }

  lemma {:induction false} UnderCount(c: string, es: seq<Entry>, e: Entry)
    ensures multiset(Under(c, es))[Entry([c] + e.trail, e.path)] == multiset(es)[e]
    ensures e.trail == [] || e.trail[0] != c ==> multiset(Under(c, es))[e] == 0
  {
    if es != [] {
      UnderCount(c, es[1..], e);
      assert es == [es[0]] + es[1..];
      assert Under(c, es) == [Entry([c] + es[0].trail, es[0].path)] + Under(c, es[1..]);
      assert ([c] + e.trail)[1..] == e.trail && ([c] + es[0].trail)[1..] == es[0].trail;
    }
  }

  /** The leaf that stops being one when a path is added below it, if there is one. */
  function Swallowed(t: Tree, components: seq<string>): Option<Entry>
    requires components != []
    decreases |components|
  {
    if t.kids == [] then Some(Entry([], t.path))
    else if |components| == 1 then None
    else
      var i := Find(t.kids, components[0]);
      if i == |t.kids| then None
      else
        var s := Swallowed(t.kids[i], components[1..]);
        if s == None then None else Some(Entry([components[0]] + s.value.trail, s.value.path))
  }

  function Times(o: Option<Entry>, e: Entry): nat {
    if o == Some(e) then 1 else 0
  }

  /** One leaf comes, the swallowed one goes, and all others stay: for any tree and any path. */
  lemma {:induction false} AddLeaves(t: Tree, components: seq<string>, path: string, e: Entry)
    requires components != []
    ensures multiset(Leaves(AddTo(t, components, path)))[e] + Times(Swallowed(t, components), e) ==
            multiset(Leaves(t))[e] + Times(Some(Entry(components, path)), e)
    decreases |components|
  {
    hide Leaves, Under, LeavesOf;
    var c, u := components[0], AddTo(t, components, path);
    var i := Find(t.kids, c);
    if |components| > 1 && i < |t.kids| {
      AddBelow(t, components, path, i, e);
    } else {
      var kid := if |components| == 1 then Leaf(c, path) else AddTo(Leaf(c, path), components[1..], path);
      AddChain(c, components, path, kid);
      AddLast(t, u, kid, Entry(components, path), e);
    }
  }

  lemma AddLast(t: Tree, u: Tree, kid: Tree, added: Entry, e: Entry)
    requires u.kids == t.kids + [kid] && Under(kid.name, Leaves(kid)) == [added]
    ensures multiset(Leaves(u))[e] + (if t.kids == [] then Times(Some(Entry([], t.path)), e) else 0) ==
            multiset(Leaves(t))[e] + Times(Some(added), e)
  {
    LeavesBelow(u);
    LeavesOfConcat(t.kids, [kid]);
    LeavesOfOne(kid);
    CountParts(LeavesOf(t.kids), [added], [], e);
    assert Leaves(u) == LeavesOf(t.kids) + [added] + [];
  }

  /** A chain of new nodes has one leaf. */
  lemma {:induction false} AddChain(c: string, components: seq<string>, path: string, kid: Tree)
    requires components != [] && c == components[0]
    requires kid == if |components| == 1 then Leaf(c, path) else AddTo(Leaf(c, path), components[1..], path)
    ensures kid.name == c && Under(c, Leaves(kid)) == [Entry(components, path)]
    decreases |components|
  {
    if |components| > 1 {
      var rest := components[1..];
      var next := if |rest| == 1 then Leaf(rest[0], path) else AddTo(Leaf(rest[0], path), rest[1..], path);
      AddChain(rest[0], rest, path, next);
      assert kid.kids == [next];
      assert [next][1..] == [];
      assert LeavesOf([next]) == [Entry(rest, path)];
      assert [c] + rest == components;
    } else {
      assert [c] + [] == components;
    }
  }

  lemma {:induction false} AddBelow(t: Tree, components: seq<string>, path: string, i: nat, e: Entry)
    requires |components| > 1 && i == Find(t.kids, components[0]) < |t.kids|
    ensures multiset(Leaves(AddTo(t, components, path)))[e] + Times(Swallowed(t, components), e) ==
            multiset(Leaves(t))[e] + Times(Some(Entry(components, path)), e)
    decreases |components|, 0
  {
    hide Leaves, Under, LeavesOf, Find;
    var c, rest, u := components[0], components[1..], AddTo(t, components, path);
    var before, after := t.kids[i], AddTo(t.kids[i], components[1..], path);
    LeavesBelow(t);
    LeavesBelow(u);
    LeavesOfSplit(t.kids, i);
    LeavesOfSplit(u.kids, i);
    AddToKeepsName(before, rest, path);
    assert u.kids[..i] == t.kids[..i] && u.kids[i + 1..] == t.kids[i + 1..] && u.kids[i] == after;
    CountParts(LeavesOf(t.kids[..i]), Under(c, Leaves(before)), LeavesOf(t.kids[i + 1..]), e);
    CountParts(LeavesOf(t.kids[..i]), Under(c, Leaves(after)), LeavesOf(t.kids[i + 1..]), e);
    if e.trail != [] && e.trail[0] == c {
      var below := Entry(e.trail[1..], e.path);
      AddLeaves(before, rest, path, below);
      UnderCount(c, Leaves(before), below);
      UnderCount(c, Leaves(after), below);
      assert [c] + below.trail == e.trail && [c] + rest == components;
      SwallowedBelow(c, Swallowed(before, rest), below, e);
    } else {
      UnderCount(c, Leaves(before), e);
      UnderCount(c, Leaves(after), e);
    }
  }

  lemma SwallowedBelow(c: string, s: Option<Entry>, below: Entry, e: Entry)
    requires e == Entry([c] + below.trail, below.path)
    ensures s.Some? ==> (Entry([c] + s.value.trail, s.value.path) == e <==> s.value == below)
  {
    if s.Some? {
      assert ([c] + s.value.trail)[1..] == s.value.trail && ([c] + below.trail)[1..] == below.trail;
    }
  }

  lemma AddToKeepsName(t: Tree, components: seq<string>, path: string)
    requires components != []
    ensures AddTo(t, components, path).name == t.name && AddTo(t, components, path).kids != []
  {
  }

  lemma {:induction false} SwallowedIsLeaf(t: Tree, components: seq<string>)
    requires components != [] && Swallowed(t, components).Some?
    ensures var s := Swallowed(t, components).value;
            s in Leaves(t) && |s.trail| < |components| && s.trail <= components
    decreases |components|
  {
    if t.kids != [] {
      var i := Find(t.kids, components[0]);
      SwallowedIsLeaf(t.kids[i], components[1..]);
      var s := Swallowed(t.kids[i], components[1..]).value;
      var es := Leaves(t.kids[i]);
      var k :| 0 <= k < |es| && es[k] == s;
      assert Under(components[0], es)[k] == Swallowed(t, components).value;
      LeavesOfSplit(t.kids, i);
    }
  }

  // ---------- Counting and rendering ----------

  function Count(t: Tree): nat {
    if t.kids == [] then 1 else CountOf(t.kids)
  }

  function CountOf(kids: seq<Tree>): nat {
    if kids == [] then 0 else Count(kids[0]) + CountOf(kids[1..])
  }

  lemma {:induction false} CountIsLeaves(t: Tree)
    ensures Count(t) == |Leaves(t)|
  {
    if t.kids != [] {
      CountOfIsLeaves(t.kids);
    }
  }

  lemma {:induction false} CountOfIsLeaves(kids: seq<Tree>)
    ensures CountOf(kids) == |LeavesOf(kids)|
  {
    if kids != [] {
      CountIsLeaves(kids[0]);
      CountOfIsLeaves(kids[1..]);
    }
  }

  /** Adding a path raises the count by one, unless it swallows a leaf: exactly then it stays. */
  lemma CountAfterAdd(t: Tree, components: seq<string>, path: string)
    requires components != []
    ensures Count(AddTo(t, components, path)) == if Swallowed(t, components).Some? then Count(t) else Count(t) + 1
  {
    hide Leaves, AddTo, Swallowed, Count;
    var u, s := AddTo(t, components, path), Swallowed(t, components);
    CountIsLeaves(t);
    CountIsLeaves(u);
    var gone := if s.Some? then multiset{s.value} else multiset{};
    var before, after := multiset(Leaves(t)) + multiset{Entry(components, path)}, multiset(Leaves(u)) + gone;
    forall e ensures after[e] == before[e] {
      AddLeaves(t, components, path, e);
    }
    assert after == before;
    assert |multiset(Leaves(u))| + |gone| == |after| == |before| == |multiset(Leaves(t))| + 1;
  }

  /** Sub-templates live in directories called `<file>.d`, which are not rendered. */
  predicate IsHidden(name: string) {
    |name| >= 2 && name[|name| - 2..] == ".d"
  }

  function Rendered(t: Tree): seq<string> {
    if IsHidden(t.name) then []
    else if t.kids == [] then [t.path]
    else RenderedOf(t.kids)
  }

  function RenderedOf(kids: seq<Tree>): seq<string> {
    if kids == [] then [] else Rendered(kids[0]) + RenderedOf(kids[1..])
  }

  lemma {:induction false} RenderedOfSnoc(kids: seq<Tree>, i: nat)
    requires i < |kids|
    ensures RenderedOf(kids[..i + 1]) == RenderedOf(kids[..i]) + Rendered(kids[i])
    ensures CountOf(kids[..i + 1]) == CountOf(kids[..i]) + Count(kids[i])
  {
    hide Rendered, Count;
    if i == 0 {
      assert kids[..1] == [kids[0]] && [kids[0]][1..] == [] && kids[..0] == [];
    } else {
      RenderedOfSnoc(kids[1..], i - 1);
      assert kids[..i + 1][1..] == kids[1..][..i] && kids[..i][1..] == kids[1..][..i - 1];
    }
  }

  /** The paths of the leaves that have no hidden name above them. */
  function Shown(es: seq<Entry>): seq<string> {
    if es == [] then []
    else ShownOne(es[0]) + Shown(es[1..])
  }

  function ShownOne(e: Entry): seq<string> {
    if forall c | c in e.trail :: !IsHidden(c) then [e.path] else []
  }

  lemma {:induction false} ShownConcat(a: seq<Entry>, b: seq<Entry>)
    ensures Shown(a + b) == Shown(a) + Shown(b)
  {
    hide ShownOne;
    if a == [] {
      assert a + b == b;
    } else {
      ShownConcat(a[1..], b);
      assert (a + b)[1..] == a[1..] + b && (a + b)[0] == a[0];
      assert Shown(a + b) == ShownOne(a[0]) + Shown(a[1..] + b);
    }
  }

  lemma {:induction false} ShownUnder(c: string, es: seq<Entry>)
    ensures Shown(Under(c, es)) == if IsHidden(c) then [] else Shown(es)
  {
    hide IsHidden, ShownOne;
    if es == [] {
      assert Under(c, es) == [];
    } else {
      ShownUnder(c, es[1..]);
      ShownOneUnder(c, es[0]);
      assert Under(c, es)[1..] == Under(c, es[1..]) && Under(c, es)[0] == Entry([c] + es[0].trail, es[0].path);
    }
  }

  lemma ShownOneUnder(c: string, e: Entry)
    ensures ShownOne(Entry([c] + e.trail, e.path)) == if IsHidden(c) then [] else ShownOne(e)
  {
    hide IsHidden;
    assert c in [c] + e.trail;
    assert forall d | d in e.trail :: d in [c] + e.trail;
  }

  /** Rendering lists, depth first, exactly the leaves with no hidden name above them: for any tree. */
  lemma {:induction false} RenderedIsShown(t: Tree)
    ensures Rendered(t) == if IsHidden(t.name) then [] else Shown(Leaves(t))
  {
    if t.kids == [] {
      assert Shown([Entry([], t.path)]) == [t.path];
    } else {
      RenderedOfIsShown(t.kids);
    }
  }

  ghost predicate EndsInD(name: string) {
    exists stem: string :: name == stem + ".d"
  }

  /** A component is passed over exactly when it ends in `.d`; one that starts with a dot, as `.github` or
      `.dockerignore`, is not. */
  lemma HiddenExactly(name: string)
    ensures IsHidden(name) <==> EndsInD(name)
    ensures !IsHidden(".github") && !IsHidden(".dockerignore")
  {
    if IsHidden(name) {
      assert name == name[..|name| - 2] + ".d";
    }
    if stem: string :| name == stem + ".d" {
      assert name[|name| - 2..] == ".d";
    }
    HiddenLast(".github");
    HiddenLast(".dockerignore");
  }

  lemma HiddenLast(name: string)
    ensures IsHidden(name) ==> name[|name| - 1] == 'd'
  {
    assert IsHidden(name) ==> name[|name| - 2..][1] == name[|name| - 1];
  }

  /** A path is rendered exactly when it is that of a leaf under which nothing, from the root down, ends in `.d`. */
  lemma RenderedExactly(t: Tree, f: string)
    ensures f in Rendered(t) <==>
            !EndsInD(t.name) && exists e | e in Leaves(t) :: e.path == f && forall c | c in e.trail :: !EndsInD(c)
  {
    hide Leaves, Shown, IsHidden, EndsInD;
    RenderedIsShown(t);
    forall c: string ensures IsHidden(c) <==> EndsInD(c) {
      HiddenExactly(c);
    }
    ShownExactly(Leaves(t), f);
  }

  lemma {:induction false} ShownExactly(es: seq<Entry>, f: string)
    ensures f in Shown(es) <==> exists e | e in es :: e.path == f && forall c | c in e.trail :: !IsHidden(c)
  {
    hide IsHidden;
    if es != [] {
      ShownExactly(es[1..], f);
      assert es == [es[0]] + es[1..];
    }
  }

  lemma {:induction false} RenderedOfIsShown(kids: seq<Tree>)
    ensures RenderedOf(kids) == Shown(LeavesOf(kids))
  {
    if kids != [] {
      RenderedIsShown(kids[0]);
      RenderedOfIsShown(kids[1..]);
      ShownUnder(kids[0].name, Leaves(kids[0]));
      ShownConcat(Under(kids[0].name, Leaves(kids[0])), LeavesOf(kids[1..]));
    }
  }

  // ---------- Whole bundles ----------

  predicate AllNonEmpty(ps: seq<seq<string>>) {
    forall i | 0 <= i < |ps| :: ps[i] != []
  }

  /** The tree after adding `ps` in order to the root of an empty bundle. */
  function Built(ps: seq<seq<string>>): Tree
    requires AllNonEmpty(ps)
  {
    if ps == [] then Leaf("", "")
    else
      var last := ps[|ps| - 1];
      AddTo(Built(ps[..|ps| - 1]), last, Join(last, '/'))
  }

  function Entries(ps: seq<seq<string>>): seq<Entry> {
    seq(|ps|, i requires 0 <= i < |ps| => Entry(ps[i], Join(ps[i], '/')))
  }

  // ---------- Walks ----------

  /** Going down the first kids along `p` ends at a node. */
  predicate Present(t: Tree, p: seq<string>)
    decreases |p|
  {
    p == [] || (Find(t.kids, p[0]) < |t.kids| && Present(t.kids[Find(t.kids, p[0])], p[1..]))
  }

  /** It ends at a node that has kids. */
  predicate Open(t: Tree, p: seq<string>)
    decreases |p|
  {
    if p == [] then t.kids != []
    else Find(t.kids, p[0]) < |t.kids| && Open(t.kids[Find(t.kids, p[0])], p[1..])
  }

  lemma {:induction false} FindIs(kids: seq<Tree>, c: string, i: nat)
    requires i <= |kids| && (i < |kids| ==> kids[i].name == c) && forall j | 0 <= j < i :: kids[j].name != c
    ensures Find(kids, c) == i
  {
  }

  lemma FindAppended(kids: seq<Tree>, kid: Tree, c: string)
    ensures Find(kids + [kid], c) ==
            if Find(kids, c) < |kids| || kid.name == c then Find(kids, c) else |kids| + 1
  {
    var i := Find(kids, c);
    FindIs(kids + [kid], c, if i < |kids| || kid.name == c then i else |kids| + 1);
  }

  lemma FindReplaced(kids: seq<Tree>, i: nat, kid: Tree, c: string)
    requires i < |kids| && kid.name == kids[i].name
    ensures Find(kids[i := kid], c) == Find(kids, c)
  {
    FindIs(kids[i := kid], c, Find(kids, c));
  }

  /** Adding makes present what is on the way to the new leaf, and opens what is above it; all else is as it
      was: for any tree and any path. */
  lemma {:induction false} WalkAdd(t: Tree, cs: seq<string>, path: string, p: seq<string>)
    requires cs != []
    ensures Present(AddTo(t, cs, path), p) <==> Present(t, p) || p <= cs
    ensures Open(AddTo(t, cs, path), p) <==> Open(t, p) || p < cs
    decreases |cs|
  {
    if p != [] {
      var i := Find(t.kids, cs[0]);
      PrefixCons(p, cs);
      if |cs| > 1 && i < |t.kids| {
        FindReplaced(t.kids, i, AddTo(t.kids[i], cs[1..], path), p[0]);
        WalkAdd(t.kids[i], cs[1..], path, p[1..]);
      } else {
        WalkAppended(t, cs, path, p);
      }
    }
  }

  lemma PrefixCons(p: seq<string>, q: seq<string>)
    requires p != [] && q != []
    ensures p <= q <==> p[0] == q[0] && p[1..] <= q[1..]
    ensures p < q <==> p[0] == q[0] && p[1..] < q[1..]
  {
    assert p == [p[0]] + p[1..] && q == [q[0]] + q[1..];
  }

  lemma {:induction false} WalkAppended(t: Tree, cs: seq<string>, path: string, p: seq<string>)
    requires cs != [] && p != [] && (|cs| > 1 ==> Find(t.kids, cs[0]) == |t.kids|)
    ensures Present(AddTo(t, cs, path), p) <==> Present(t, p) || p <= cs
    ensures Open(AddTo(t, cs, path), p) <==> Open(t, p) || p < cs
    decreases |cs|, 0
  {
    var kid := if |cs| == 1 then Leaf(cs[0], path) else AddTo(Leaf(cs[0], path), cs[1..], path);
    assert AddTo(t, cs, path).kids == t.kids + [kid] && kid.name == cs[0];
    FindAppended(t.kids, kid, p[0]);
    PrefixCons(p, cs);
    if |cs| > 1 {
      WalkAdd(Leaf(cs[0], path), cs[1..], path, p[1..]);
    }
  }

  /** A path swallows a leaf exactly when the walk along it meets a node without kids before its end. */
  lemma {:induction false} SwallowedWalk(t: Tree, cs: seq<string>)
    requires cs != []
    ensures Swallowed(t, cs).Some? <==> exists n | 0 <= n < |cs| :: Present(t, cs[..n]) && !Open(t, cs[..n])
    decreases |cs|
  {
    assert cs[..0] == [];
    if t.kids == [] {
      assert Present(t, cs[..0]) && !Open(t, cs[..0]);
    } else {
      var i := Find(t.kids, cs[0]);
      forall n | 0 < n < |cs|
        ensures Present(t, cs[..n]) <==> i < |t.kids| && Present(t.kids[i], cs[1..][..n - 1])
        ensures Open(t, cs[..n]) <==> i < |t.kids| && Open(t.kids[i], cs[1..][..n - 1])
      {
        assert cs[..n][1..] == cs[1..][..n - 1] && cs[..n][0] == cs[0];
      }
      if |cs| > 1 && i < |t.kids| {
        SwallowedWalk(t.kids[i], cs[1..]);
        if n :| 0 <= n < |cs| - 1 && Present(t.kids[i], cs[1..][..n]) && !Open(t.kids[i], cs[1..][..n]) {
          assert Present(t, cs[..n + 1]) && !Open(t, cs[..n + 1]);
        }
      }
    }
  }

  /** What a bundle has present and open, from the paths added to it. */
  lemma {:induction false} BuiltWalks(ps: seq<seq<string>>, p: seq<string>)
    requires AllNonEmpty(ps)
    ensures Present(Built(ps), p) <==> p == [] || exists i | 0 <= i < |ps| :: p <= ps[i]
    ensures Open(Built(ps), p) <==> exists i | 0 <= i < |ps| :: p < ps[i]
  {
    hide Present, Open, AddTo, Join;
    if ps == [] {
      EmptyWalks(p);
    } else {
      var init, last := ps[..|ps| - 1], ps[|ps| - 1];
      BuiltWalks(init, p);
      WalkAdd(Built(init), last, Join(last, '/'), p);
      assert forall i | 0 <= i < |init| :: init[i] == ps[i];
    }
  }

  lemma EmptyWalks(p: seq<string>)
    ensures (Present(Built([]), p) <==> p == []) && !Open(Built([]), p)
  {
  }

  /** Whatever earlier path is a proper prefix of `last` is one of another earlier path too: it stands for a
      directory already. */
  ghost predicate KeepsNext(ps: seq<seq<string>>, last: seq<string>) {
    forall i | 0 <= i < |ps| && ps[i] < last :: exists k | 0 <= k < |ps| :: ps[i] < ps[k]
  }

  /** When a path swallows a leaf of a bundle, told from the paths alone. */
  lemma SwallowsExactly(ps: seq<seq<string>>, last: seq<string>)
    requires ps != [] && AllNonEmpty(ps) && last != []
    ensures Swallowed(Built(ps), last) == None <==> KeepsNext(ps, last)
  {
    hide Built, Swallowed, Present, Open;
    var t := Built(ps);
    SwallowedWalk(t, last);
    forall n | 0 <= n < |last|
      ensures Present(t, last[..n]) <==> n == 0 || exists i | 0 <= i < |ps| :: last[..n] <= ps[i]
      ensures Open(t, last[..n]) <==> exists i | 0 <= i < |ps| :: last[..n] < ps[i]
    {
      BuiltWalks(ps, last[..n]);
    }
    assert last[..0] == [] && last[..0] < ps[0];
    forall i | 0 <= i < |ps| && ps[i] < last ensures Present(t, last[..|ps[i]|]) && last[..|ps[i]|] == ps[i] {
    }
    forall n | 0 <= n < |last| && Present(t, last[..n]) && !Open(t, last[..n]) ensures !KeepsNext(ps, last) {
      var i :| 0 <= i < |ps| && last[..n] <= ps[i];
      assert last[..n] == ps[i];
    }
  }

  // ---------- What whole bundles keep ----------

  /** Each path in turn swallows nothing. */
  ghost predicate KeepsAll(ps: seq<seq<string>>) {
    forall j | 0 <= j < |ps| :: KeepsNext(ps[..j], ps[j])
  }

  /** No leaf is lost over a whole bundle exactly when the paths say so: by count, and leaf by leaf. */
  lemma {:induction false} LeavesExactly(ps: seq<seq<string>>)
    requires ps != [] && AllNonEmpty(ps)
    ensures Count(Built(ps)) <= |ps|
    ensures Count(Built(ps)) == |ps| <==> KeepsAll(ps)
    ensures multiset(Leaves(Built(ps))) == multiset(Entries(ps)) <==> KeepsAll(ps)
  {
    hide Leaves, Swallowed, Built, Entries, Count, KeepsNext;
    var init, last := ps[..|ps| - 1], ps[|ps| - 1];
    assert ps == init + [last];
    KeepsInit(init, last);
    BuiltCount(init, last);
    if init != [] {
      LeavesExactly(init);
      SwallowsExactly(init, last);
    }
    if KeepsAll(ps) {
      BuiltStep(init, last);
    }
    assert init == [] ==> KeepsNext(init, last) by {
      KeepsFirst(last);
    }
    CountIsLeaves(Built(ps));
    SameSize(Leaves(Built(ps)), Entries(ps));
    assert |Entries(ps)| == |ps| by {
      EntriesSize(ps);
    }
  }

  lemma KeepsFirst(last: seq<string>)
    ensures KeepsNext([], last)
  {
  }

  lemma EntriesSize(ps: seq<seq<string>>)
    ensures |Entries(ps)| == |ps|
  {
  }

  lemma SameSize(a: seq<Entry>, b: seq<Entry>)
    ensures multiset(a) == multiset(b) ==> |a| == |b|
  {
    assert |multiset(a)| == |a| && |multiset(b)| == |b|;
  }

  lemma BuiltCount(init: seq<seq<string>>, last: seq<string>)
    requires AllNonEmpty(init) && last != []
    ensures AllNonEmpty(init + [last])
    ensures Count(Built(init + [last])) ==
            if init == [] then 1 else if Swallowed(Built(init), last).Some? then Count(Built(init)) else Count(Built(init)) + 1
  {
    hide AddTo, Swallowed, Join;
    var ps := init + [last];
    assert ps[..|ps| - 1] == init;
    EmptyBundle(last);
    CountAfterAdd(Built(init), last, Join(last, '/'));
  }

  lemma KeepsInit(init: seq<seq<string>>, last: seq<string>)
    ensures KeepsAll(init + [last]) <==> KeepsAll(init) && KeepsNext(init, last)
  {
    hide KeepsNext;
    var ps := init + [last];
    assert ps[..|init|] == init && ps[|init|] == last;
    assert forall j | 0 <= j < |init| :: ps[..j] == init[..j] && ps[j] == init[j];
  }

  lemma BuiltStep(init: seq<seq<string>>, last: seq<string>)
    requires AllNonEmpty(init) && last != []
    requires init != [] ==>
               multiset(Leaves(Built(init))) == multiset(Entries(init)) && Swallowed(Built(init), last) == None
    ensures AllNonEmpty(init + [last]) && multiset(Leaves(Built(init + [last]))) == multiset(Entries(init + [last]))
  {
    hide Leaves, AddTo, Swallowed, Join, Entries;
    var ps, added := init + [last], Entry(last, Join(last, '/'));
    assert ps[..|ps| - 1] == init;
    EntriesSnoc(init, last);
    EmptyBundle(last);
    forall e ensures multiset(Leaves(Built(ps)))[e] == multiset(Entries(ps))[e] {
      AddLeaves(Built(init), last, added.path, e);
    }
  }

  lemma EntriesSnoc(init: seq<seq<string>>, last: seq<string>)
    ensures Entries([]) == [] && Entries(init + [last]) == Entries(init) + [Entry(last, Join(last, '/'))]
  {
    hide Join;
  }

  lemma EmptyBundle(p: seq<string>)
    requires p != []
    ensures Leaves(Built([])) == [Entry([], "")] && Swallowed(Built([]), p) == Some(Entry([], ""))
  {
  }

  /** A path with at least one component, none of them hidden or holding a separator. */
  ghost predicate PlainNames(p: seq<string>) {
    p != [] && forall c | c in p :: '/' !in c && !IsHidden(c)
  }

  lemma {:induction false} ShownAll(es: seq<Entry>)
    requires forall e | e in es :: forall c | c in e.trail :: !IsHidden(c)
    ensures |Shown(es)| == |es| && forall i | 0 <= i < |es| :: Shown(es)[i] == es[i].path
  {
    if es != [] {
      ShownAll(es[1..]);
      assert es[0] in es;
    }
  }

  lemma JoinInjective(p: seq<string>, q: seq<string>)
    requires PlainNames(p) && PlainNames(q) && Join(p, '/') == Join(q, '/')
    ensures p == q
  {
    SplitJoin(p, '/');
    SplitJoin(q, '/');
  }

  /** The rendered paths are those of `ps`, each exactly once. */
  ghost predicate RendersOnce(ps: seq<seq<string>>, rendered: seq<string>) {
    NoDuplicates(rendered) && forall f :: f in rendered <==> exists p | p in ps :: Join(p, '/') == f
  }

  /** For distinct plain paths, rendering their bundle returns each exactly once precisely when no leaf is
      lost; prefix-free paths are a special case. */
  lemma BundleExact(ps: seq<seq<string>>)
    requires ps != [] && NoDuplicates(ps) && AllNonEmpty(ps) && forall p | p in ps :: PlainNames(p)
    ensures RendersOnce(ps, Rendered(Built(ps))) <==> KeepsAll(ps)
    ensures KeepsAll(ps) ==> Count(Built(ps)) == |ps| == |Rendered(Built(ps))|
  {
    hide Leaves, Built, Shown, Count, Rendered, PlainNames, KeepsAll, Entries, RendersOnce;
    var t := Built(ps);
    LeavesExactly(ps);
    BuiltName(ps);
    CountIsLeaves(t);
    RenderedIsShown(t);
    ShownNoMore(Leaves(t));
    if KeepsAll(ps) {
      ShownIsPaths(ps, Leaves(t));
    }
    OnceIsAsMany(ps, Shown(Leaves(t)));
  }

  /** No path is a prefix of another, or occurs twice. */
  ghost predicate PrefixFree(ps: seq<seq<string>>) {
    forall i, j | 0 <= i < |ps| && 0 <= j < |ps| && i != j :: !(ps[i] <= ps[j])
  }

  lemma PrefixFreeKeepsAll(ps: seq<seq<string>>)
    requires PrefixFree(ps)
    ensures KeepsAll(ps) && NoDuplicates(ps)
  {
    forall i, j | 0 <= i < j < |ps| ensures ps[i] != ps[j] {
      assert !(ps[i] <= ps[j]);
    }
  }

  lemma {:induction false} ShownNoMore(es: seq<Entry>)
    ensures |Shown(es)| <= |es|
  {
    if es != [] {
      ShownNoMore(es[1..]);
    }
  }

  /** Distinct paths rendered once each are as many as the paths. */
  lemma OnceIsAsMany(ps: seq<seq<string>>, rendered: seq<string>)
    requires NoDuplicates(ps) && forall p | p in ps :: PlainNames(p)
    ensures RendersOnce(ps, rendered) ==> |rendered| == |ps|
  {
    hide Join, PlainNames;
    var joined := seq(|ps|, i requires 0 <= i < |ps| => Join(ps[i], '/'));
    forall i, j | 0 <= i < j < |ps| ensures joined[i] != joined[j] {
      assert ps[i] in ps && ps[j] in ps;
      if joined[i] == joined[j] {
        JoinInjective(ps[i], ps[j]);
      }
    }
    NoDuplicatesCardinality(joined);
    if RendersOnce(ps, rendered) {
      NoDuplicatesCardinality(rendered);
      forall f ensures f in Elements(rendered) <==> f in Elements(joined) {
        if f in rendered {
          var p :| p in ps && Join(p, '/') == f;
          var i :| 0 <= i < |ps| && ps[i] == p;
          assert joined[i] == f;
        }
      }
      assert Elements(rendered) == Elements(joined);
    }
  }

  /** Showing entries that are, in some order, those of `ps`. */
  lemma ShownIsPaths(ps: seq<seq<string>>, es: seq<Entry>)
    requires NoDuplicates(ps) && forall p | p in ps :: PlainNames(p)
    requires multiset(es) == multiset(Entries(ps))
    ensures |Shown(es)| == |es| == |ps| && RendersOnce(ps, Shown(es))
  {
    hide Shown, Join, IsHidden;
    assert |multiset(es)| == |multiset(Entries(ps))|;
    SameEntries(ps, es);
    ShownAll(es);
    SameEntriesDistinct(ps, es);
    forall i, j | 0 <= i < j < |es| ensures es[i].path != es[j].path {
      assert es[i] in es && es[j] in es;
      if es[i].path == es[j].path {
        JoinInjective(es[i].trail, es[j].trail);
      }
    }
    forall p | p in ps ensures Join(p, '/') in Shown(es) {
      var i :| 0 <= i < |es| && es[i] == Entry(p, Join(p, '/'));
      assert Shown(es)[i] == es[i].path;
    }
    forall f | f in Shown(es) ensures exists p | p in ps :: Join(p, '/') == f {
      var i :| 0 <= i < |es| && Shown(es)[i] == f;
      assert es[i] in es;
    }
  }

  lemma SameEntries(ps: seq<seq<string>>, es: seq<Entry>)
    requires multiset(es) == multiset(Entries(ps))
    ensures forall e | e in es :: e.trail in ps && e.path == Join(e.trail, '/')
    ensures forall p | p in ps :: Entry(p, Join(p, '/')) in es
  {
    hide Join;
    var all := Entries(ps);
    assert forall e :: e in es <==> e in multiset(es);
    assert forall e :: e in all <==> e in multiset(all);
    forall e | e in es ensures e.trail in ps && e.path == Join(e.trail, '/') {
      var i :| 0 <= i < |all| && all[i] == e;
    }
    forall p | p in ps ensures Entry(p, Join(p, '/')) in es {
      var i :| 0 <= i < |ps| && ps[i] == p;
      assert all[i] == Entry(p, Join(p, '/'));
    }
  }

  lemma SameEntriesDistinct(ps: seq<seq<string>>, es: seq<Entry>)
    requires NoDuplicates(ps) && multiset(es) == multiset(Entries(ps))
    ensures NoDuplicates(es)
  {
    var all := Entries(ps);
    forall i, j | 0 <= i < j < |all| ensures all[i] != all[j] {
      assert all[i].trail == ps[i] != ps[j] == all[j].trail;
    }
    forall e ensures multiset(all)[e] <= 1 {
      OnceOnly(all, e);
    }
    forall i, j | 0 <= i < j < |es| ensures es[i] != es[j] {
      TwiceCounts(es, i, j);
    }
  }

  lemma {:induction false} OnceOnly<T(!new)>(xs: seq<T>, x: T)
    requires NoDuplicates(xs)
    ensures multiset(xs)[x] <= 1
  {
    if xs != [] {
      assert xs == [xs[0]] + xs[1..];
      OnceOnly(xs[1..], x);
      assert xs[0] !in xs[1..];
    }
  }

  lemma TwiceCounts<T(!new)>(xs: seq<T>, i: nat, j: nat)
    requires i < j < |xs|
    ensures xs[i] == xs[j] ==> multiset(xs)[xs[i]] >= 2
  {
    assert xs == xs[..i] + [xs[i]] + xs[i + 1..j] + [xs[j]] + xs[j + 1..];
  }

  /** A path added below an earlier one swallows it: one leaf is left of two paths. */
  lemma PrefixSwallows()
    ensures Count(Built([["a"], ["a", "b"]])) == 1
    ensures Rendered(Built([["a"], ["a", "b"]])) == ["a/b"]
  {
    var one, two := ["a"], ["a", "b"];
    assert [one, two][..1] == [one] && [one][..0] == [];
    assert Built([]) == Leaf("", "");
    assert Built([one]) == Tree("", "", [Leaf("a", "a")]);
    assert two[1..] == ["b"];
    assert Join(two, '/') == "a/b";
    assert Built([one, two]) == AddTo(Built([one]), two, "a/b");
    assert AddTo(Leaf("a", "a"), ["b"], "a/b") == Tree("a", "a", [Leaf("b", "a/b")]);
    assert Built([one, two]) == Tree("", "", [Tree("a", "a", [Leaf("b", "a/b")])]);
  }

  lemma {:induction false} BuiltName(ps: seq<seq<string>>)
    requires AllNonEmpty(ps)
    ensures Built(ps).name == ""
  {
    if ps != [] {
      BuiltName(ps[..|ps| - 1]);
    }
  }
}

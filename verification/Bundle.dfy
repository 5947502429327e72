/** The template bundle as objects: `Add` walks the nodes and appends in place. */
module Bundle {
  import opened Trees
  import opened Text

  class Node {
    const name: string
    const path: string
    var children: seq<Node>

    constructor (name: string, path: string)
      ensures this.name == name && this.path == path && children == []
    {
      this.name, this.path, children := name, path, [];
    }
  }

  // ---------- The shape of the objects ----------

  /** Where every node sits, as the child positions that lead to it from the root; its children; the node
      above it; and a bound on how deep the tree goes. */
  datatype Layout = Layout(at: map<Node, seq<nat>>, kids: map<Node, seq<Node>>, up: map<Node, Node>, depth: nat)

  ghost function Kids(s: Layout, n: Node): seq<Node> {
    if n in s.kids then s.kids[n] else []
  }

  /** The `i`th child of `n` sits `i`th below it. */
  ghost predicate Child(s: Layout, n: Node, i: nat)
    requires n in s.at && i < |Kids(s, n)|
  {
    var c := Kids(s, n)[i];
    c in s.at && |s.at[c]| <= s.depth && s.at[c] == s.at[n] + [i]
  }

  /** `n` is the child it says it is of the node above it. */
  ghost predicate Hangs(s: Layout, n: Node)
    requires n in s.at
  {
    n in s.up && s.up[n] in s.at && s.at[n] != [] && s.at[s.up[n]] == s.at[n][..|s.at[n]| - 1] &&
    s.at[n][|s.at[n]| - 1] < |Kids(s, s.up[n])| && Kids(s, s.up[n])[s.at[n][|s.at[n]| - 1]] == n
  }

  /** Children sit below their parents. */
  ghost predicate Shape(s: Layout) {
    (forall n | n in s.at :: |s.at[n]| <= s.depth) &&
    forall n, i: nat {:trigger Child(s, n, i)} | n in s.at && i < |Kids(s, n)| :: Child(s, n, i)
  }

  /** All nodes hang below the root, no two in one place. */
  ghost predicate Linked(s: Layout, root: Node) {
    && root in s.at && s.at[root] == []
    && (forall n {:trigger Hangs(s, n)} | n in s.at && n != root :: Hangs(s, n))
    && (forall m, n {:trigger s.at[m], s.at[n]} | m in s.at && n in s.at && s.at[m] == s.at[n] :: m == n)
  }

  ghost function Value(s: Layout, n: Node): (t: Tree)
    requires Shape(s) && n in s.at
    ensures |t.kids| == |Kids(s, n)|
    decreases s.depth - |s.at[n]|, |Kids(s, n)| + 1
  {
    Tree(n.name, n.path, Values(s, n, |Kids(s, n)|))
  }

  ghost function Values(s: Layout, n: Node, k: nat): (ts: seq<Tree>)
    requires Shape(s) && n in s.at && k <= |Kids(s, n)|
    ensures |ts| == k
    decreases s.depth - |s.at[n]|, k
  {
    if k == 0 then [] else
      assert Child(s, n, k - 1);
      Values(s, n, k - 1) + [Value(s, Kids(s, n)[k - 1])]
  }

  lemma ChildOf(s: Layout, n: Node, i: nat)
    requires Shape(s) && n in s.at && i < |Kids(s, n)|
    ensures Child(s, n, i) && |s.at[n]| < |s.at[Kids(s, n)[i]]| <= s.depth
  {
    assert Child(s, n, i);
  }

  lemma {:induction false} ValuesAt(s: Layout, n: Node, k: nat, i: nat)
    requires Shape(s) && n in s.at && i < k <= |Kids(s, n)|
    ensures Child(s, n, i) && Values(s, n, k)[i] == Value(s, Kids(s, n)[i])
  {
    hide Shape, Value;
    ChildOf(s, n, i);
    if i < k - 1 {
      ValuesAt(s, n, k - 1, i);
    }
  }

  lemma KidsAre(s: Layout, n: Node)
    requires Shape(s) && n in s.at
    ensures forall i: nat | i < |Kids(s, n)| :: Child(s, n, i) && Value(s, n).kids[i] == Value(s, Kids(s, n)[i])
    ensures forall i: nat | i < |Kids(s, n)| :: Value(s, n).kids[i].name == Kids(s, n)[i].name
  {
    hide Shape;
    forall i: nat | i < |Kids(s, n)| ensures Child(s, n, i) && Value(s, n).kids[i] == Value(s, Kids(s, n)[i]) {
      ValuesAt(s, n, |Kids(s, n)|, i);
    }
  }

  // ---------- Replacing a subtree ----------

  /** The place exists in the tree. */
  ghost predicate Has(t: Tree, place: seq<nat>)
    decreases |place|
  {
    place == [] || (place[0] < |t.kids| && Has(t.kids[place[0]], place[1..]))
  }

  ghost function Sub(t: Tree, place: seq<nat>): Tree
    requires Has(t, place)
    decreases |place|
  {
    if place == [] then t else Sub(t.kids[place[0]], place[1..])
  }

  ghost function Put(t: Tree, place: seq<nat>, s: Tree): Tree
    requires Has(t, place)
    decreases |place|
  {
    if place == [] then s
    else t.(kids := t.kids[place[0] := Put(t.kids[place[0]], place[1..], s)])
  }

  lemma {:induction false} PutSub(t: Tree, place: seq<nat>)
    requires Has(t, place)
    ensures Put(t, place, Sub(t, place)) == t
    decreases |place|
  {
    if place != [] {
      PutSub(t.kids[place[0]], place[1..]);
    }
  }

  /** Replacing a subtree and then a part of the replacement. */
  lemma {:induction false} PutDeeper(t: Tree, place: seq<nat>, s: Tree, i: nat, u: Tree)
    requires Has(t, place) && i < |s.kids|
    ensures Has(Put(t, place, s), place + [i])
    ensures Put(Put(t, place, s), place + [i], u) == Put(t, place, s.(kids := s.kids[i := u]))
    decreases |place|
  {
    if place == [] {
      assert [i][1..] == [] && place + [i] == [i];
    } else {
      PutDeeper(t.kids[place[0]], place[1..], s, i, u);
      assert (place + [i])[1..] == place[1..] + [i] && (place + [i])[0] == place[0];
    }
  }

  lemma {:induction false} SubConcat(t: Tree, a: seq<nat>, b: seq<nat>)
    requires Has(t, a)
    ensures Has(t, a + b) <==> Has(Sub(t, a), b)
    ensures Has(t, a + b) ==> Sub(t, a + b) == Sub(Sub(t, a), b)
    decreases |a|
  {
    if a == [] {
      assert a + b == b;
    } else {
      SubConcat(t.kids[a[0]], a[1..], b);
      assert (a + b)[1..] == a[1..] + b && (a + b)[0] == a[0];
    }
  }

  lemma OneDown(t: Tree, i: nat)
    requires i < |t.kids|
    ensures Has(t, [i]) && Sub(t, [i]) == t.kids[i]
  {
    assert [i][1..] == [];
  }

  /** A node's value is the subtree at its place. */
  lemma {:induction false} SubIsValue(s: Layout, root: Node, n: Node)
    requires Shape(s) && Linked(s, root) && n in s.at
    ensures Has(Value(s, root), s.at[n]) && Sub(Value(s, root), s.at[n]) == Value(s, n)
    decreases |s.at[n]|
  {
    hide Value, Shape;
    if n == root {
    } else {
      assert Hangs(s, n);
      var q, i := s.up[n], s.at[n][|s.at[n]| - 1];
      SubIsValue(s, root, q);
      SubConcat(Value(s, root), s.at[q], [i]);
      KidsAre(s, q);
      assert s.at[n] == s.at[q] + [i];
      OneDown(Value(s, q), i);
    }
  }

  // ---------- Appending a child ----------

  /** `u` is the layout after giving `p` a new last child `c`. */
  ghost predicate Grows(s: Layout, u: Layout, p: Node, c: Node) {
    && p in s.at && c !in s.at && c in u.at && u.at[c] == s.at[p] + [|Kids(s, p)|] && s.depth <= u.depth
    && (forall n | n in s.at ::
          n in u.at && u.at[n] == s.at[n] && Kids(u, n) == if n == p then Kids(s, p) + [c] else Kids(s, n))
    && Kids(u, c) == []
  }

  /** Nodes that are not above `p` have the value they had. */
  lemma {:induction false} Untouched(s: Layout, u: Layout, n: Node, p: Node, c: Node)
    requires Shape(s) && Shape(u) && Grows(s, u, p, c) && n in s.at && !(s.at[n] <= s.at[p])
    ensures Value(u, n) == Value(s, n)
    decreases s.depth - |s.at[n]|, |Kids(s, n)| + 1
  {
    hide Shape;
    UntouchedKids(s, u, n, p, c, |Kids(s, n)|);
  }

  lemma {:induction false} UntouchedKids(s: Layout, u: Layout, n: Node, p: Node, c: Node, k: nat)
    requires Shape(s) && Shape(u) && Grows(s, u, p, c) && n in s.at
    requires (n == p || !(s.at[n] <= s.at[p])) && k <= |Kids(s, n)|
    ensures k <= |Kids(u, n)| && Values(u, n, k) == Values(s, n, k)
    decreases s.depth - |s.at[n]|, k
  {
    hide Shape, Value;
    if k > 0 {
      ChildOf(s, n, k - 1);
      UntouchedKids(s, u, n, p, c, k - 1);
      Untouched(s, u, Kids(s, n)[k - 1], p, c);
    }
  }

  ghost function Fuller(t: Tree, c: Node): Tree {
    t.(kids := t.kids + [Leaf(c.name, c.path)])
  }

  lemma ValueOfParent(s: Layout, u: Layout, p: Node, c: Node)
    requires Shape(s) && Shape(u) && Grows(s, u, p, c)
    ensures Value(u, p) == Fuller(Value(s, p), c) && Value(u, c) == Leaf(c.name, c.path)
  {
    hide Shape;
    UntouchedKids(s, u, p, p, c, |Kids(s, p)|);
    var k := |Kids(s, p)|;
    assert Kids(u, p)[k] == c && |Kids(u, p)| == k + 1;
    assert Values(u, c, 0) == [];
    assert Values(u, p, k + 1) == Values(u, p, k) + [Value(u, c)];
  }

  /** The value of a node above `p` has `p`'s place replaced. */
  lemma {:induction false} ValueAbove(s: Layout, u: Layout, n: Node, p: Node, c: Node, root: Node)
    requires Shape(s) && Shape(u) && Grows(s, u, p, c) && Linked(s, root) && n in s.at && s.at[n] <= s.at[p]
    requires Has(Value(s, n), s.at[p][|s.at[n]|..]) && Sub(Value(s, n), s.at[p][|s.at[n]|..]) == Value(s, p)
    ensures Value(u, n) == Put(Value(s, n), s.at[p][|s.at[n]|..], Fuller(Value(s, p), c))
    decreases s.depth - |s.at[n]|
  {
    hide Value, Fuller, Shape;
    var place := s.at[p][|s.at[n]|..];
    if n == p {
      ValueOfParent(s, u, p, c);
    } else {
      var was, i := Value(s, n), place[0];
      SubStep(was, place, Fuller(Value(s, p), c));
      ChildOf(s, n, i);
      KidsAre(s, n);
      var kid := Kids(s, n)[i];
      assert place[1..] == s.at[p][|s.at[kid]|..];
      ValueAbove(s, u, kid, p, c, root);
      OtherKids(s, u, n, p, c, i);
    }
  }

  lemma OtherKids(s: Layout, u: Layout, n: Node, p: Node, c: Node, i: nat)
    requires Shape(s) && Shape(u) && Grows(s, u, p, c) && n in s.at && n != p && i < |Kids(s, n)|
    requires Child(s, n, i) && s.at[Kids(s, n)[i]] <= s.at[p]
    ensures Value(u, n) == Value(s, n).(kids := Value(s, n).kids[i := Value(u, Kids(s, n)[i])])
  {
    hide Shape;
    KidsAre(s, n);
    KidsAre(u, n);
    forall j: nat | j < |Kids(s, n)| && j != i ensures Value(u, n).kids[j] == Value(s, n).kids[j] {
      ChildOf(s, n, j);
      assert s.at[Kids(s, n)[j]][|s.at[n]|] == j && s.at[Kids(s, n)[i]][|s.at[n]|] == i;
      Untouched(s, u, Kids(s, n)[j], p, c);
    }
  }

  lemma SubStep(t: Tree, place: seq<nat>, s: Tree)
    requires place != [] && Has(t, place)
    ensures place[0] < |t.kids| && Has(t.kids[place[0]], place[1..])
    ensures Sub(t, place) == Sub(t.kids[place[0]], place[1..])
    ensures Put(t, place, s) == t.(kids := t.kids[place[0] := Put(t.kids[place[0]], place[1..], s)])
  {
  }

  /** The layout that `Add` reaches with one new node. */
  ghost function Grown(s: Layout, p: Node, c: Node): Layout
    requires p in s.at
  {
    Layout(s.at[c := s.at[p] + [|Kids(s, p)|]], s.kids[p := Kids(s, p) + [c]][c := []], s.up[c := p], s.depth + 1)
  }

  lemma GrownGrows(s: Layout, root: Node, p: Node, c: Node)
    requires Shape(s) && Linked(s, root) && p in s.at && c !in s.at
    ensures Shape(Grown(s, p, c)) && Grows(s, Grown(s, p, c), p, c) && Linked(Grown(s, p, c), root)
  {
    hide Shape, Linked;
    ShapeBounds(s);
    var u := Grown(s, p, c);
    assert Grows(s, u, p, c);
    GrownShape(s, p, c);
    GrownLinked(s, root, p, c);
  }

  lemma ShapeBounds(s: Layout)
    requires Shape(s)
    ensures forall n | n in s.at :: |s.at[n]| <= s.depth
  {
  }

  lemma GrownShape(s: Layout, p: Node, c: Node)
    requires Shape(s) && p in s.at && c !in s.at && Grows(s, Grown(s, p, c), p, c)
    ensures Shape(Grown(s, p, c))
  {
    hide Shape, Grown;
    var u := Grown(s, p, c);
    ShapeBounds(s);
    GrownDepth(s, p, c);
    forall n, i: nat | n in u.at && i < |Kids(u, n)| ensures Child(u, n, i) {
      if n != c && i < |Kids(s, n)| {
        ChildOf(s, n, i);
      }
    }
    ShapeFrom(u);
  }

  lemma GrownDepth(s: Layout, p: Node, c: Node)
    requires p in s.at && c !in s.at
    ensures Grown(s, p, c).depth == s.depth + 1
    ensures forall n | n in Grown(s, p, c).at :: n in s.at || n == c
    ensures forall n | n in s.at && n in s.up :: n in Grown(s, p, c).up && Grown(s, p, c).up[n] == s.up[n]
    ensures c in Grown(s, p, c).up && Grown(s, p, c).up[c] == p
  {
  }

  lemma ShapeFrom(s: Layout)
    requires forall n | n in s.at :: |s.at[n]| <= s.depth
    requires forall n, i: nat {:trigger Child(s, n, i)} | n in s.at && i < |Kids(s, n)| :: Child(s, n, i)
    ensures Shape(s)
  {
  }

  lemma GrownLinked(s: Layout, root: Node, p: Node, c: Node)
    requires Linked(s, root) && p in s.at && c !in s.at && Grows(s, Grown(s, p, c), p, c)
    ensures Linked(Grown(s, p, c), root)
  {
    hide Grown;
    var u := Grown(s, p, c);
    GrownDepth(s, p, c);
    assert u.at[c][..|u.at[c]| - 1] == s.at[p];
    forall n | n in u.at && n != root ensures Hangs(u, n) {
      if n != c {
        assert Hangs(s, n);
      }
    }
    forall n | n in s.at ensures s.at[n] != u.at[c] {
      NewPlace(s, root, p, n);
    }
    forall m, n | m in u.at && n in u.at && u.at[m] == u.at[n] ensures m == n {
      assert m != c ==> m in s.at && u.at[m] == s.at[m];
      assert n != c ==> n in s.at && u.at[n] == s.at[n];
    }
  }

  /** The place of the new child is free. */
  lemma NewPlace(s: Layout, root: Node, p: Node, n: Node)
    requires Linked(s, root) && p in s.at && n in s.at
    ensures s.at[n] != s.at[p] + [|Kids(s, p)|]
  {
    var place := s.at[p] + [|Kids(s, p)|];
    assert place[..|place| - 1] == s.at[p] && place[|place| - 1] == |Kids(s, p)|;
    if n != root {
      assert Hangs(s, n);
      var q := s.up[n];
      assert q == p ==> s.at[n][|s.at[n]| - 1] < |Kids(s, p)|;
      assert s.at[q] == s.at[p] ==> q == p;
    }
  }

  // ---------- The bundle ----------

  class Bundle {
    const tree: Node
    ghost var layout: Layout

    ghost predicate Valid()
      reads this, layout.at.Keys
    {
      && Shape(layout) && Linked(layout, tree)
      && forall n | n in layout.at :: n.children == Kids(layout, n)
    }

    ghost function Tree(): Tree
      requires Valid()
      reads this, layout.at.Keys
    {
      Value(layout, tree)
    }

    ghost function ValueOf(n: Node): Tree
      requires Valid() && n in layout.at
      reads this, layout.at.Keys
    {
      Value(layout, n)
    }

    /** The empty tree that `NewBundle` starts from. */
    constructor ()
      ensures Valid() && fresh(layout.at.Keys) && Tree() == Built([])
    {
      tree := new Node("", "");
      new;
      layout := Layout(map[tree := []], map[], map[], 0);
    }

    /** `parent.Children = append(parent.Children, newNode)`. */
    method Append(parent: Node, name: string, path: string) returns (c: Node)
      requires Valid() && parent in layout.at
      modifies this, parent
      ensures Valid() && fresh(c) && layout.at.Keys == old(layout.at.Keys) + {c} && c.name == name && c.path == path
      ensures layout.at[parent] == old(layout.at[parent]) && layout.at[c] == layout.at[parent] + [|old(parent.children)|]
      ensures var s := old(layout);
              var fuller := Value(s, parent).(kids := Value(s, parent).kids + [Leaf(name, path)]);
              Has(Value(s, tree), s.at[parent]) && Tree() == Put(Value(s, tree), s.at[parent], fuller)
      ensures Value(layout, c) == Leaf(name, path)
    {
      hide Shape, Linked, Grown, Value, Has, Sub, Put;
      ghost var s := layout;
      c := new Node(name, path);
      parent.children := parent.children + [c];
      GrownGrows(s, tree, parent, c);
      GrownDepth(s, parent, c);
      layout := Grown(s, parent, c);
      SubIsValue(s, tree, parent);
      RootPlace(s, tree);
      assert s.at[parent][|s.at[tree]|..] == s.at[parent];
      ValueAbove(s, layout, tree, parent, c, tree);
      ValueOfParent(s, layout, parent, c);
    }
  
    /** `Add`. The path has the two leading components that are dropped, and is clean: what
        `filepath.Join` makes of the rest is the rest. */
    method Add(path: string)
      requires Valid() && |Split(path, '/')| >= 3
      modifies this, layout.at.Keys
      ensures Valid() && fresh(layout.at.Keys - old(layout.at.Keys))
      ensures Tree() == AddTo(old(Tree()), Split(path, '/')[2..], Join(Split(path, '/')[2..], '/'))
    {
      hide Valid, Tree, ValueOf, Value, Has, Sub, Put, AddTo, Join, Split;
      var components := Split(path, '/')[2..];
      var p := Join(components, '/');
      var parent := tree;
      Start(AddTo(Tree(), components, p));
      assert components[0..] == components;
      ghost var goal := AddTo(Tree(), components, p);
      var i := 0;
      while i < |components| - 1
        invariant 0 <= i < |components| && Valid() && parent in layout.at
        invariant fresh(layout.at.Keys - old(layout.at.Keys))
        invariant Has(Tree(), layout.at[parent])
        invariant goal == Put(Tree(), layout.at[parent], AddTo(ValueOf(parent), components[i..], p))
      {
        ghost var rest := components[i + 1..];
        assert components[i..] == [components[i]] + rest;
        parent := Descend(parent, components[i], p, rest);
        i := i + 1;
      }
      assert components[i..] == [components[i]];
      var leaf := AppendLeaf(parent, components[|components| - 1], p);
    }

    lemma Start(s: Tree)
      requires Valid()
      ensures tree in layout.at && layout.at[tree] == [] && ValueOf(tree) == Tree()
      ensures Has(Tree(), []) && Put(Tree(), [], s) == s
    {
    }

    /** The last line of `Add`. */
    method AppendLeaf(parent: Node, name: string, path: string) returns (c: Node)
      requires Valid() && parent in layout.at
      modifies this, parent
      ensures Valid() && fresh(layout.at.Keys - old(layout.at.Keys))
      ensures Has(old(Tree()), old(layout.at[parent]))
      ensures Tree() == Put(old(Tree()), old(layout.at[parent]), AddTo(old(ValueOf(parent)), [name], path))
    {
      hide Shape, Linked, Value, Has, Sub, Put, AddTo;
      SubIsValue(layout, tree, parent);
      AddOne(Value(layout, parent), name, path);
      c := Append(parent, name, path);
    }

    /** One round of the loop in `Add`: to the first child called `c`, made if there is none. `rest` is
        what is still to be added below. */
    method Descend(parent: Node, c: string, path: string, ghost rest: seq<string>) returns (next: Node)
      requires Valid() && parent in layout.at && rest != []
      modifies this, parent
      ensures Valid() && next in layout.at && fresh(layout.at.Keys - old(layout.at.Keys))
      ensures Has(Tree(), layout.at[next]) && Has(old(Tree()), old(layout.at[parent]))
      ensures Put(Tree(), layout.at[next], AddTo(ValueOf(next), rest, path)) ==
              Put(old(Tree()), old(layout.at[parent]), AddTo(old(ValueOf(parent)), [c] + rest, path))
    {
      hide Shape, Linked, Value, Has, Sub, Put, AddTo;
      var found := FindChild(parent, c);
      assert ([c] + rest)[0] == c && ([c] + rest)[1..] == rest;
      SubIsValue(layout, tree, parent);
      KidsAre(layout, parent);
      if found < |parent.children| {
        AddFound(Tree(), layout.at[parent], Value(layout, parent), [c] + rest, path, found);
        next := parent.children[found];
      } else {
        AddMissing(Tree(), layout.at[parent], Value(layout, parent), [c] + rest, path);
        next := Append(parent, c, path);
      }
    }

    /** The search among a node's children: the position of the first one called `c`. */
    method FindChild(parent: Node, c: string) returns (j: nat)
      requires Valid() && parent in layout.at
      ensures j == Find(Value(layout, parent).kids, c)
    {
      hide Shape, Linked, Value;
      KidsAre(layout, parent);
      j := 0;
      while j < |parent.children| && parent.children[j].name != c
        invariant 0 <= j <= |parent.children|
        invariant forall k | 0 <= k < j :: parent.children[k].name != c
      {
        j := j + 1;
      }
    }
  
    /** `Render`, up to executing the templates: the paths written, depth first. */
    method Render(n: Node) returns (renderedFiles: seq<string>)
      requires Valid() && n in layout.at
      ensures renderedFiles == Rendered(ValueOf(n))
      decreases layout.depth - |layout.at[n]|
    {
      hide Shape, Linked;
      renderedFiles := [];
      if IsHidden(n.name) {
        return [];
      }
      KidsAre(layout, n);
      ghost var kids := ValueOf(n).kids;
      for i := 0 to |n.children|
        invariant renderedFiles == RenderedOf(kids[..i])
      {
        ChildOf(layout, n, i);
        var f := Render(n.children[i]);
        RenderedOfSnoc(kids, i);
        renderedFiles := renderedFiles + f;
      }
      assert kids[..|kids|] == kids;
      if |n.children| == 0 {
        renderedFiles := renderedFiles + [n.path];
      }
    }

    /** `Count`. */
    method CountLeaves(n: Node) returns (count: nat)
      requires Valid() && n in layout.at
      ensures count == Count(ValueOf(n))
      decreases layout.depth - |layout.at[n]|
    {
      hide Shape, Linked;
      count := 0;
      if |n.children| == 0 {
        return 1;
      }
      KidsAre(layout, n);
      ghost var kids := ValueOf(n).kids;
      for i := 0 to |n.children|
        invariant count == CountOf(kids[..i])
      {
        ChildOf(layout, n, i);
        var c := CountLeaves(n.children[i]);
        RenderedOfSnoc(kids, i);
        count := count + c;
      }
      assert kids[..|kids|] == kids;
    }
  }

  /** What `Add` keeps of a path. */
  function Components(path: string): seq<string>
    requires |Split(path, '/')| >= 3
  {
    Split(path, '/')[2..]
  }

  function AllComponents(paths: seq<string>): seq<seq<string>>
    requires forall p | p in paths :: |Split(p, '/')| >= 3
  {
    seq(|paths|, i requires 0 <= i < |paths| => Components(paths[i]))
  }

  lemma BuiltMore(ps: seq<seq<string>>, p: seq<string>)
    requires AllNonEmpty(ps) && p != []
    ensures AllNonEmpty(ps + [p]) && Built(ps + [p]) == AddTo(Built(ps), p, Join(p, '/'))
  {
    hide AddTo, Join;
    assert (ps + [p])[..|ps|] == ps;
  }

  /** `NewBundle`, given the template files in the order the feature directories are walked. */
  method NewBundle(paths: seq<string>) returns (b: Bundle)
    requires forall p | p in paths :: |Split(p, '/')| >= 3
    ensures fresh(b) && b.Valid() && AllNonEmpty(AllComponents(paths)) && b.Tree() == Built(AllComponents(paths))
  {
    hide Split, AddTo, Join, Built, Bundle.Valid, Bundle.Tree;
    b := new Bundle();
    ghost var all := AllComponents(paths);
    for i := 0 to |paths|
      invariant b.Valid() && fresh(b.layout.at.Keys) && AllNonEmpty(all[..i]) && b.Tree() == Built(all[..i])
    {
      b.Add(paths[i]);
      assert all[..i + 1] == all[..i] + [Components(paths[i])];
      BuiltMore(all[..i], Components(paths[i]));
    }
    assert all[..|paths|] == all;
  }

  /** Going down to a child that is there. */
  lemma AddFound(t: Tree, place: seq<nat>, v: Tree, cs: seq<string>, path: string, i: nat)
    requires Has(t, place) && Sub(t, place) == v && |cs| > 1 && i == Find(v.kids, cs[0]) < |v.kids|
    ensures Has(t, place + [i])
    ensures Put(t, place, AddTo(v, cs, path)) == Put(t, place + [i], AddTo(v.kids[i], cs[1..], path))
  {
    PutSub(t, place);
    PutDeeper(t, place, v, i, AddTo(v.kids[i], cs[1..], path));
  }

  /** Making a child that is missing, and going down to it. */
  lemma AddMissing(t: Tree, place: seq<nat>, v: Tree, cs: seq<string>, path: string)
    requires Has(t, place) && |cs| > 1 && Find(v.kids, cs[0]) == |v.kids|
    ensures var u := Put(t, place, v.(kids := v.kids + [Leaf(cs[0], path)]));
            var k := place + [|v.kids|];
            Has(u, k) && Put(t, place, AddTo(v, cs, path)) == Put(u, k, AddTo(Leaf(cs[0], path), cs[1..], path))
  {
    var w := v.(kids := v.kids + [Leaf(cs[0], path)]);
    var below := AddTo(Leaf(cs[0], path), cs[1..], path);
    PutDeeper(t, place, w, |v.kids|, below);
    assert w.kids[|v.kids| := below] == v.kids + [below];
  }

  lemma AddOne(v: Tree, c: string, path: string)
    ensures AddTo(v, [c], path) == v.(kids := v.kids + [Leaf(c, path)])
  {
  }

  lemma RootPlace(s: Layout, root: Node)
    requires Linked(s, root)
    ensures root in s.at && s.at[root] == []
  {
  }
}

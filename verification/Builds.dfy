/** Build definitions and `mergeBuilds`, over heap objects: a build is reached through a pointer, and
    its `Env` slice through a backing array that a shallow copy shares. */
module Builds {
  import opened Wrappers

  datatype Arch = Arch(docker: string, deb: string, goArch: string, skipDocker: bool)

  datatype BuildText = BuildText(
    dir: string, main: string, binary: string, versionPackage: string, buildPackageName: string,
    description: string, imageTitle: string, pcRepo: string, upgradeRepo: string, dhRepo: string,
    csRepo: string, ciRepo: string, dockerBaseImage: string, feature: string)

  /** What a build says, without its pointers. */
  datatype BuildVal = BuildVal(text: BuildText, flags: seq<string>, env: seq<string>, archs: seq<Arch>)

  // ---------- Merge semantics on values ----------

  /** An empty value never overrides. */
  function Override(below: string, above: string): string {
    if above == "" then below else above
  }

  function OverrideText(d: BuildText, s: BuildText): BuildText {
    BuildText(
      Override(d.dir, s.dir), Override(d.main, s.main), Override(d.binary, s.binary),
      Override(d.versionPackage, s.versionPackage), Override(d.buildPackageName, s.buildPackageName),
      Override(d.description, s.description), Override(d.imageTitle, s.imageTitle),
      Override(d.pcRepo, s.pcRepo), Override(d.upgradeRepo, s.upgradeRepo), Override(d.dhRepo, s.dhRepo),
      Override(d.csRepo, s.csRepo), Override(d.ciRepo, s.ciRepo),
      Override(d.dockerBaseImage, s.dockerBaseImage), Override(d.feature, s.feature))
  }

  /** A branch's build over the repo's: text overrides, `Env` appends, `Flags` and `Archs` replace. */
  function MergeVal(d: BuildVal, s: BuildVal): BuildVal {
    BuildVal(
      OverrideText(d.text, s.text),
      if s.flags == [] then d.flags else s.flags,
      d.env + s.env,
      if s.archs == [] then d.archs else s.archs)
  }

  // ---------- Slices ----------

  /** A Go slice that starts at the start of its backing array; its capacity is the array's length. */
  datatype Slice = Slice(buf: array<string>, len: nat)
  {
    ghost predicate Valid() {
      len <= buf.Length
    }

    ghost function Contents(): seq<string>
      requires Valid()
      reads buf
    {
      buf[..len]
    }

    /** `append` would write `n` more elements into this slice's own array. */
    predicate Fits(n: nat) {
      0 < n && len + n <= buf.Length
    }
  }

  /** `append(dst, src...)`: in place when the capacity allows, else into a new array that may have
      room to spare. */
  method Append(dst: Slice, src: Slice) returns (r: Slice)
    requires dst.Valid() && src.Valid()
    modifies if dst.Fits(src.len) then {dst.buf} else {}
    ensures r.Valid() && r.Contents() == old(dst.Contents()) + old(src.Contents())
    ensures dst.Fits(src.len) ==> r.buf == dst.buf
    ensures src.len == 0 ==> r == dst
    ensures 0 < src.len && !dst.Fits(src.len) ==> fresh(r.buf)
    ensures forall i | 0 <= i < dst.buf.Length && !(dst.len <= i < dst.len + src.len) :: dst.buf[i] == old(dst.buf[i])
  {
    if src.len == 0 {
      return dst;
    }
    var n := dst.len + src.len;
    if n <= dst.buf.Length {
      forall i | 0 <= i < src.len {
        dst.buf[dst.len + i] := src.buf[i];
      }
      r := Slice(dst.buf, n);
    } else {
      var capacity: nat :| n <= capacity;
      var buf := new string[capacity](_ => "");
      forall i | 0 <= i < n {
        buf[i] := if i < dst.len then dst.buf[i] else src.buf[i - dst.len];
      }
      r := Slice(buf, n);
    }
  }

  // ---------- Builds ----------

  /** The fields of a build as they stand in memory: the slice header, not what it points at. */
  datatype BuildHead = BuildHead(text: BuildText, flags: seq<string>, env: Slice, archs: seq<Arch>)

  class Build {
    var text: BuildText
    var flags: seq<string>
    var env: Slice
    var archs: seq<Arch>

    constructor (text: BuildText, flags: seq<string>, env: Slice, archs: seq<Arch>)
      ensures this.text == text && this.flags == flags && this.env == env && this.archs == archs
    {
      this.text, this.flags, this.env, this.archs := text, flags, env, archs;
    }

    ghost predicate Valid()
      reads this
    {
      env.Valid()
    }

    ghost function Head(): BuildHead
      reads this
    {
      BuildHead(text, flags, env, archs)
    }

    ghost function Val(): BuildVal
      requires Valid()
      reads this, env.buf
    {
      BuildVal(text, flags, env.Contents(), archs)
    }
  }

  /** `mergo.Merge` of one build into another, overriding and appending slices. */
  method MergeInto(dst: Build, src: Build)
    requires dst.Valid() && src.Valid() && dst != src
    modifies dst, if dst.env.Fits(src.env.len) then {dst.env.buf} else {}
    ensures dst.Valid()
    ensures dst.text == OverrideText(old(dst.text), src.text)
    ensures dst.flags == old(dst.flags) + src.flags
    ensures dst.archs == old(dst.archs) + src.archs
    ensures dst.env.Contents() == old(dst.env.Contents()) + old(src.env.Contents())
    ensures if old(dst.env).Fits(src.env.len) then dst.env.buf == old(dst.env.buf)
            else if src.env.len == 0 then dst.env == old(dst.env) else fresh(dst.env.buf)
    ensures forall i | 0 <= i < old(dst.env).buf.Length && !(old(dst.env.len) <= i < old(dst.env.len) + src.env.len) ::
              old(dst.env).buf[i] == old(dst.env.buf[i])
  {
    dst.text := OverrideText(dst.text, src.text);
    dst.flags := dst.flags + src.flags;
    dst.archs := dst.archs + src.archs;
    dst.env := Append(dst.env, src.env);
  }

  /** What is left of `e1` when `e2` is written over its start. */
  function Overlay(e1: seq<string>, e2: seq<string>): seq<string> {
    if |e2| <= |e1| then e2 + e1[|e2|..] else e2[..|e1|]
  }

  lemma OverlayHarmless(e1: seq<string>, e2: seq<string>)
    ensures Overlay(e1, e2) == e1 <==> forall i | 0 <= i < |e1| && i < |e2| :: e1[i] == e2[i]
  {
    assert forall i | 0 <= i < |e1| :: Overlay(e1, e2)[i] == if i < |e2| then e2[i] else e1[i];
  }

  /** An array written twice from position `n` on. */
  lemma WrittenTwice(a1: seq<string>, a2: seq<string>, n: nat, e1: seq<string>, e2: seq<string>)
    requires |a1| == |a2| && n + |e1| <= |a1| && n + |e2| <= |a2|
    requires a1[n..n + |e1|] == e1 && a2[n..n + |e2|] == e2
    requires forall i | 0 <= i < |a1| && !(n <= i < n + |e2|) :: a2[i] == a1[i]
    ensures a2[..n + |e1|] == a1[..n] + Overlay(e1, e2)
  {
    forall i | n <= i < n + |e1| ensures a2[i] == Overlay(e1, e2)[i - n] {
      assert a1[i] == a1[n..n + |e1|][i - n];
      if i < n + |e2| {
        assert a2[i] == a2[n..n + |e2|][i - n];
      }
    }
  }

  /** Why spare capacity is excluded below: two branches that append to one shared `Env` disturb each
      other when both appends fit the shared array; the second then overwrites the first. By
      `OverlayHarmless` that shows exactly when the two disagree where they overlap. */
  method AppendTwice(shared: Slice, s1: Slice, s2: Slice) returns (r1: Slice, r2: Slice)
    requires shared.Valid() && s1.Valid() && s2.Valid()
    requires s1.buf != shared.buf && s2.buf != shared.buf
    modifies shared.buf
    ensures r1.Valid() && r2.Valid()
    ensures r2.Contents() == old(shared.Contents()) + old(s2.Contents())
    ensures r1.Contents() == old(shared.Contents()) +
                             if shared.Fits(s1.len) && shared.Fits(s2.len)
                             then Overlay(old(s1.Contents()), old(s2.Contents()))
                             else old(s1.Contents())
  {
    hide Overlay;
    r1 := Append(shared, s1);
    ghost var a1, n := shared.buf[..], shared.len;
    ghost var e1, e2 := s1.Contents(), s2.Contents();
    ghost var c1 := r1.Contents();
    r2 := Append(shared, s2);
    if shared.Fits(s1.len) && shared.Fits(s2.len) {
      ghost var a2 := shared.buf[..];
      assert a1[n..n + |e1|] == c1[n..] == e1;
      assert a2[n..n + |e2|] == r2.Contents()[n..] == e2;
      WrittenTwice(a1, a2, n, e1, e2);
      assert r1.Contents() == a2[..n + |e1|];
      assert a1[..n] == old(shared.Contents());
    } else {
      assert r1.Contents() == c1;
    }
  }

  // ---------- mergeBuilds ----------

  ghost function ValOf(b: Build?): Option<BuildVal>
    requires b != null ==> b.Valid()
    reads b, if b == null then {} else {b.env.buf}
  {
    if b == null then None else Some(b.Val())
  }

  /** The pointer a branch gives for `k`, or nil. */
  function Named(b: map<string, Build?>, k: string): Build? {
    if k in b then b[k] else null
  }

  /** A repo-level build and the branch's pointer (or nil) of the same name. No append can write into the
      array behind the repo's `Env`: the config decoder allocates every slice at its exact length. */
  ghost predicate Ready(rb: Build, bb: Build?)
    reads rb, bb
  {
    rb.Valid() && rb.env.len == rb.env.buf.Length && (bb != null ==> bb.Valid())
  }

  /** A repo-level build as a branch sees it. */
  ghost function Merged(rb: Build, bb: Build?): BuildVal
    requires Ready(rb, bb)
    reads rb, rb.env.buf, bb, if bb == null then {} else {bb.env.buf}
  {
    if bb == null then rb.Val() else MergeVal(rb.Val(), bb.Val())
  }

  ghost predicate Says(m: Build, v: BuildVal)
    reads m, m.env.buf
  {
    m.Valid() && m.Val() == v
  }

  /** The branch's build appends to the repo's `Env`. */
  ghost predicate AppendsEnv(bb: Build?)
    reads bb
  {
    bb != null && bb.env.len > 0
  }

  /** What merging makes of a repo-level build: its value, and whether its `Env` moves to a new array or
      stays in the repo's. */
  datatype Goal = Goal(val: BuildVal, appends: bool, env: Slice)

  ghost function GoalOf(rb: Build, bb: Build?): Goal
    requires Ready(rb, bb)
    reads rb, rb.env.buf, bb, if bb == null then {} else {bb.env.buf}
  {
    Goal(Merged(rb, bb), AppendsEnv(bb), rb.env)
  }

  /** The `Env` is in an array that is none of those in `known`, or is the slice it was. */
  ghost predicate EnvPlaced(m: Build, appends: bool, env: Slice, known: set<object>)
    reads m
  {
    if appends then m.env.buf !in known else m.env == env
  }

  ghost predicate Meets(m: Build, g: Goal, known: set<object>)
    reads m, m.env.buf
  {
    Says(m, g.val) && EnvPlaced(m, g.appends, g.env, known)
  }

  ghost predicate Separate(m: map<string, Build>) {
    forall j, k {:trigger m[j], m[k]} | j in m && k in m && j != k :: m[j] != m[k]
  }

  /** `cp := *v`. */
  method Copy(v: Build) returns (cp: Build)
    ensures fresh(cp) && cp.Head() == v.Head()
  {
    cp := new Build(v.text, v.flags, v.env, v.archs);
  }

  /** The first pass: shallow copies, which share the repo's `Env` arrays. */
  method CopyAll(r: map<string, Build>) returns (merged: map<string, Build>)
    ensures (forall k :: k in merged <==> k in r) && Separate(merged)
    ensures forall k | k in r :: fresh(merged[k]) && merged[k].Head() == r[k].Head()
  {
    hide Build.Head;
    merged := map[];
    var todo := r.Keys;
    while todo != {}
      invariant todo <= r.Keys && forall k :: k in merged <==> k in r && k !in todo
      invariant Separate(merged)
      invariant forall k | k in merged :: fresh(merged[k]) && merged[k].Head() == r[k].Head()
      decreases |todo|
    {
      var k :| k in todo;
      var cp := Copy(r[k]);
      merged := merged[k := cp];
      todo := todo - {k};
    }
  }

  /** What the second pass leaves of a copy. */
  ghost function ClearedHead(h: BuildHead, bv: Build?): BuildHead
    reads bv
  {
    if bv == null then h
    else h.(archs := if bv.archs == [] then h.archs else [], flags := if bv.flags == [] then h.flags else [])
  }

  method ClearOne(m: Build, bv: Build)
    requires m != bv
    modifies m
    ensures m.Head() == ClearedHead(old(m.Head()), bv)
  {
    if |bv.archs| > 0 {
      m.archs := [];
    }
    if |bv.flags| > 0 {
      m.flags := [];
    }
  }

  /** The second pass: clear what the branch replaces. */
  method ClearReplaced(merged: map<string, Build>, b: map<string, Build?>)
    requires Separate(merged)
    requires forall j, k {:trigger merged[j], Named(b, k)} | j in merged :: merged[j] != Named(b, k)
    modifies set k | k in merged :: merged[k]
    ensures forall k | k in merged :: merged[k].Head() == ClearedHead(old(merged[k].Head()), Named(b, k))
  {
    var todo := b.Keys;
    while todo != {}
      invariant todo <= b.Keys
      invariant forall k | k in merged :: merged[k].Head() ==
                  if k in b && k !in todo then ClearedHead(old(merged[k].Head()), Named(b, k)) else old(merged[k].Head())
      decreases |todo|
    {
      var k :| k in todo;
      var bv := b[k];
      assert bv == Named(b, k);
      if bv != null && k in merged {
        ClearOne(merged[k], bv);
      }
      todo := todo - {k};
    }
  }

  /** Override and append, as `mergo` does for one build. */
  function AppendVal(d: BuildVal, s: BuildVal): BuildVal {
    BuildVal(OverrideText(d.text, s.text), d.flags + s.flags, d.env + s.env, d.archs + s.archs)
  }

  ghost function Appended(d: Build, s: Build?): BuildVal
    requires Ready(d, s)
    reads d, d.env.buf, s, if s == null then {} else {s.env.buf}
  {
    if s == null then d.Val() else AppendVal(d.Val(), s.Val())
  }

  /** What the third pass still has to make of `d`. */
  ghost predicate Owes(d: Build, s: Build?, g: Goal)
    reads d, d.env.buf, s, if s == null then {} else {s.env.buf}
  {
    Ready(d, s) && Appended(d, s) == g.val && AppendsEnv(s) == g.appends && d.env == g.env
  }

  lemma OwesNothing(d: Build, g: Goal, known: set<object>)
    requires Owes(d, null, g)
    ensures Meets(d, g, known)
  {
  }

  method MergeNamed(dst: Build, src: Build?, ghost g: Goal, ghost known: set<object>)
    requires dst != src && Owes(dst, src, g)
    modifies dst
    ensures Meets(dst, g, known)
  {
    hide OverrideText;
    if src != null {
      MergeInto(dst, src);
    }
  }

  /** The third pass, for the builds of the repo level. */
  method MergeAll(merged: map<string, Build>, b: map<string, Build?>, ghost goals: map<string, Goal>, ghost known: set<object>)
    requires Separate(merged) && forall k :: k in merged ==> k in goals
    requires forall j, k {:trigger merged[j], Named(b, k)} | j in merged :: merged[j] != Named(b, k)
    requires forall k | k in merged :: Owes(merged[k], Named(b, k), goals[k])
    modifies set k | k in merged :: merged[k]
    ensures forall k | k in merged :: Meets(merged[k], goals[k], known)
  {
    hide Owes, Meets;
    forall k | k in merged && k !in b ensures Meets(merged[k], goals[k], known) {
      OwesNothing(merged[k], goals[k], known);
    }
    var todo := b.Keys;
    while todo != {}
      invariant todo <= b.Keys
      invariant forall k | k in merged && k in todo :: Owes(merged[k], Named(b, k), goals[k])
      invariant forall k | k in merged && k !in todo :: Meets(merged[k], goals[k], known)
      decreases |todo|
    {
      var k :| k in todo;
      var bv := b[k];
      assert bv == Named(b, k);
      if k in merged {
        label Before:
        MergeNamed(merged[k], bv, goals[k], known);
        assert forall j | j in merged && j != k :: unchanged@Before(merged[j]) && unchanged@Before(merged[j].env.buf);
        assert forall j | j in merged && Named(b, j) != null ::
            unchanged@Before(Named(b, j)) && unchanged@Before(Named(b, j).env.buf);
      }
      todo := todo - {k};
    }
  }

  /** Clearing and then appending is merging. */
  lemma ClearThenAppend(h: BuildVal, s: BuildVal, c: BuildVal)
    requires c == h.(archs := if s.archs == [] then h.archs else [], flags := if s.flags == [] then h.flags else [])
    ensures AppendVal(c, s) == MergeVal(h, s)
  {
  }

  /** `mergeBuilds` changes no object that existed before. Builds the repo names are new objects that meet
      their goals; builds only the branch names are the branch's own, shared. `known` may be any objects. */
  method MergeBuilds(r: map<string, Build>, b: map<string, Build?>, ghost known: set<object>) returns (all: map<string, Build?>)
    requires forall k | k in r :: Ready(r[k], Named(b, k))
    ensures forall k :: k in all <==> k in r || k in b
    ensures forall k | k in r :: all[k] != null && fresh(all[k]) && Meets(all[k], old(GoalOf(r[k], Named(b, k))), known)
    ensures forall k | k in b && k !in r :: all[k] == b[k]
  {
    hide Owes, Meets, GoalOf, ClearedHead, Build.Head;
    ghost var goals := map k | k in r :: GoalOf(r[k], Named(b, k));
    var merged := CopyAll(r);
    ClearReplaced(merged, b);
    forall k | k in r ensures Owes(merged[k], Named(b, k), goals[k]) {
      assert merged[k].Head() == ClearedHead(r[k].Head(), Named(b, k));
      ClearedOwes(r[k], merged[k], Named(b, k));
    }
    MergeAll(merged, b, goals, known);
    all := map k | k in r.Keys + b.Keys :: if k in r then merged[k] else b[k];
  }

  lemma ClearedOwes(r: Build, m: Build, bv: Build?)
    requires Ready(r, bv) && m.Head() == ClearedHead(r.Head(), bv)
    ensures Owes(m, bv, GoalOf(r, bv))
  {
    if bv != null {
      ClearThenAppend(r.Val(), bv.Val(), m.Val());
    }
  }
}

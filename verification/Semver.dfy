/** Version strings as `golang.org/x/mod/semver` reads them: Semantic Versioning 2.0.0 with a
    leading `v`, where `vMAJOR` and `vMAJOR.MINOR` stand for their zero-padded forms.
    Strings are cut and compared concretely; nothing about precedence is postulated. */
module Semver {
  import opened Wrappers
  import Ordering
  import Text

  // ---------- Grammar: sections 2, 9 and 10 ----------

  datatype Parts = Parts(nums: seq<string>, pre: Option<seq<string>>, build: Option<seq<string>>)

  datatype Version = Version(major: string, minor: string, patch: string, pre: seq<string>)

  predicate IsDigit(c: char) {
    '0' <= c <= '9'
  }

  predicate IsIdentChar(c: char) {
    IsDigit(c) || 'a' <= c <= 'z' || 'A' <= c <= 'Z' || c == '-'
  }

  predicate AllDigits(s: string) {
    forall c | c in s :: IsDigit(c)
  }

  predicate ValidNum(s: string) {
    s != "" && AllDigits(s) && (|s| > 1 ==> s[0] != '0')
  }

  predicate ValidBuildIdent(s: string) {
    s != "" && forall c | c in s :: IsIdentChar(c)
  }

  predicate ValidPreIdent(s: string) {
    ValidBuildIdent(s) && (AllDigits(s) ==> ValidNum(s))
  }

  /** Cuts a version at its first `+`, then at its first `-`, then at its dots. */
  function Cut(v: string): Parts
    requires v != "" && v[0] == 'v'
  {
    var plus := Text.IndexOf(v, '+');
    var head := v[..plus];
    var dash := Text.IndexOf(head, '-');
    Parts(
      Text.Split(head[1..dash], '.'),
      if dash == |head| then None else Some(Text.Split(head[dash + 1..], '.')),
      if plus == |v| then None else Some(Text.Split(v[plus + 1..], '.')))
  }

  predicate WellFormed(p: Parts) {
    && 1 <= |p.nums| <= 3
    && (forall n | n in p.nums :: ValidNum(n))
    && (p.pre.Some? || p.build.Some? ==> |p.nums| == 3)
    && (p.pre.Some? ==> forall i | i in p.pre.value :: ValidPreIdent(i))
    && (p.build.Some? ==> forall i | i in p.build.value :: ValidBuildIdent(i))
  }

  function Parse(v: string): Option<Version> {
    if v == "" || v[0] != 'v' then None
    else
      var p := Cut(v);
      if !WellFormed(p) then None
      else Some(Version(
        p.nums[0],
        if |p.nums| > 1 then p.nums[1] else "0",
        if |p.nums| > 2 then p.nums[2] else "0",
        if p.pre.Some? then p.pre.value else []))
  }

  predicate IsValid(v: string) {
    Parse(v).Some?
  }

  function Assemble(nums: seq<string>, pre: seq<string>): string {
    "v" + Text.Join(nums, '.') + (if pre == [] then "" else "-" + Text.Join(pre, '.'))
  }

  /** Pads the shorthands and drops build metadata; "" for anything that is not a version. */
  function Canonical(v: string): string {
    match Parse(v)
    case None => ""
    case Some(p) => Assemble([p.major, p.minor, p.patch], p.pre)
  }

  /** The `vMAJOR.MINOR` series of a version; "" for anything that is not a version. */
  function MajorMinor(v: string): string {
    match Parse(v)
    case None => ""
    case Some(p) => Assemble([p.major, p.minor], [])
  }

  // ---------- Precedence: section 11 ----------

  function NumValue(s: string): nat
    requires AllDigits(s)
  {
    if s == "" then 0
    else
      assert s[|s| - 1] in s;
      10 * NumValue(s[..|s| - 1]) + (s[|s| - 1] - '0') as nat
  }

  function CompareNat(a: nat, b: nat): int {
    if a < b then -1 else if a == b then 0 else 1
  }

  function CompareText(a: string, b: string): int {
    if a == b then 0 else if Ordering.StringLess(a, b) then -1 else 1
  }

  function CompareIdent(a: string, b: string): int {
    if AllDigits(a) && AllDigits(b) then CompareNat(NumValue(a), NumValue(b))
    else if AllDigits(a) then -1
    else if AllDigits(b) then 1
    else CompareText(a, b)
  }

  function CompareIdents(a: seq<string>, b: seq<string>): int {
    if a == [] then (if b == [] then 0 else -1)
    else if b == [] then 1
    else
      var c := CompareIdent(a[0], b[0]);
      if c != 0 then c else CompareIdents(a[1..], b[1..])
  }

  function ComparePre(a: seq<string>, b: seq<string>): int {
    if a == [] then (if b == [] then 0 else 1)
    else if b == [] then -1
    else CompareIdents(a, b)
  }

  predicate NumericParts(p: Version) {
    ValidNum(p.major) && ValidNum(p.minor) && ValidNum(p.patch)
  }

  lemma ParseNumeric(v: string)
    requires IsValid(v)
    ensures NumericParts(Parse(v).value)
    ensures forall i | i in Parse(v).value.pre :: ValidPreIdent(i)
  {
    assert ValidNum("0");
  }

  function CompareSeries(p: Version, q: Version): int
    requires NumericParts(p) && NumericParts(q)
  {
    var c := CompareNat(NumValue(p.major), NumValue(q.major));
    if c != 0 then c else CompareNat(NumValue(p.minor), NumValue(q.minor))
  }

  function CompareVersions(p: Version, q: Version): int
    requires NumericParts(p) && NumericParts(q)
  {
    var c := CompareSeries(p, q);
    if c != 0 then c
    else
      var d := CompareNat(NumValue(p.patch), NumValue(q.patch));
      if d != 0 then d else ComparePre(p.pre, q.pre)
  }

  /** An invalid version sorts before every valid one and equal to the other invalid ones. */
  function Compare(v: string, w: string): int {
    match (Parse(v), Parse(w))
    case (None, None) => 0
    case (None, Some(_)) => -1
    case (Some(_), None) => 1
    case (Some(p), Some(q)) =>
      ParseNumeric(v);
      ParseNumeric(w);
      CompareVersions(p, q)
  }

  predicate Precedes(v: string, w: string) {
    Compare(v, w) < 0
  }

  // ---------- Numbers ----------

  lemma {:induction false} NumValueInjective(a: string, b: string)
    requires ValidNum(a) && ValidNum(b)
    requires NumValue(a) == NumValue(b)
    ensures a == b
  {
    NumValuePositive(a);
    NumValuePositive(b);
    var a', b' := a[..|a| - 1], b[..|b| - 1];
    assert a == a' + [a[|a| - 1]] && b == b' + [b[|b| - 1]];
    assert a[|a| - 1] in a && b[|b| - 1] in b;
    assert AllDigits(a') && AllDigits(b');
    assert NumValue(a') == NumValue(b') && a[|a| - 1] == b[|b| - 1];
    if a' != "" {
      NumValuePositive(a');
      NumValueInjective(a', b');
    } else if b' != "" {
      NumValuePositive(b');
    }
  }

  lemma {:induction false} NumValuePositive(s: string)
    requires ValidNum(s)
    ensures NumValue(s) > 0 || |s| == 1
    ensures |s| > 1 ==> NumValue(s[..|s| - 1]) > 0
  {
    if |s| > 1 {
      var t := s[..|s| - 1];
      assert s[0] in s && s[|s| - 1] in s && t[0] == s[0];
      assert AllDigits(t) by { assert forall c | c in t :: c in s; }
      NumValuePositive(t);
      if |t| == 1 {
        assert t[..0] == "";
        assert NumValue(t) == (t[0] - '0') as nat;
      }
    }
  }

  // ---------- Precedence is a total preorder ----------

  lemma CompareIdentTrans(a: string, b: string, c: string)
    ensures CompareIdent(a, b) == -CompareIdent(b, a)
    ensures CompareIdent(a, b) <= 0 && CompareIdent(b, c) <= 0 ==> CompareIdent(a, c) <= 0
    ensures CompareIdent(a, b) <= 0 && CompareIdent(b, c) <= 0 && CompareIdent(a, c) == 0
            ==> CompareIdent(a, b) == 0 && CompareIdent(b, c) == 0
  {
    Ordering.StringLessTotal(a, b);
    Ordering.StringLessTotal(b, c);
    Ordering.StringLessTotal(a, c);
    if Ordering.StringLess(a, b) && Ordering.StringLess(b, c) {
      Ordering.StringLessTransitive(a, b, c);
    }
  }

  lemma {:induction false} CompareIdentsTrans(a: seq<string>, b: seq<string>, c: seq<string>)
    ensures CompareIdents(a, b) == -CompareIdents(b, a)
    ensures CompareIdents(a, b) <= 0 && CompareIdents(b, c) <= 0 ==> CompareIdents(a, c) <= 0
    ensures CompareIdents(a, b) <= 0 && CompareIdents(b, c) <= 0 && CompareIdents(a, c) == 0
            ==> CompareIdents(a, b) == 0 && CompareIdents(b, c) == 0
  {
    if a != [] && b != [] {
      CompareIdentTrans(a[0], b[0], if c == [] then "" else c[0]);
      CompareIdentsTrans(a[1..], b[1..], if c == [] then [] else c[1..]);
      if c != [] {
        CompareIdentTrans(b[0], c[0], a[0]);
      }
    }
  }

  lemma CompareVersionsTrans(p: Version, q: Version, r: Version)
    requires NumericParts(p) && NumericParts(q) && NumericParts(r)
    ensures CompareVersions(p, q) == -CompareVersions(q, p)
    ensures CompareVersions(p, q) <= 0 && CompareVersions(q, r) <= 0 ==> CompareVersions(p, r) <= 0
    ensures CompareVersions(p, q) <= 0 && CompareVersions(q, r) <= 0 && CompareVersions(p, r) == 0
            ==> CompareVersions(p, q) == 0 && CompareVersions(q, r) == 0
  {
    CompareIdentsTrans(p.pre, q.pre, r.pre);
  }

  /** Section 11: precedence is total, reflexive and transitive; a chain that ends equal is
      equal throughout. */
  lemma CompareTotalPreorder(u: string, v: string, w: string)
    ensures Compare(u, u) == 0
    ensures Compare(u, v) == -Compare(v, u)
    ensures Compare(u, v) <= 0 && Compare(v, w) <= 0 ==> Compare(u, w) <= 0
    ensures Compare(u, v) <= 0 && Compare(v, w) <= 0 && Compare(u, w) == 0
            ==> Compare(u, v) == 0 && Compare(v, w) == 0
  {
    if IsValid(u) {
      ParseNumeric(u);
      CompareVersionsTrans(Parse(u).value, Parse(u).value, Parse(u).value);
      if IsValid(v) {
        ParseNumeric(v);
        CompareVersionsTrans(Parse(u).value, Parse(v).value, Parse(v).value);
        if IsValid(w) {
          ParseNumeric(w);
          CompareVersionsTrans(Parse(u).value, Parse(v).value, Parse(w).value);
        }
      }
    }
  }

  lemma PrecedesIrreflexive(v: string)
    ensures !Precedes(v, v)
  {
    CompareTotalPreorder(v, v, v);
  }

  // ---------- Reading back what was assembled ----------

  lemma {:induction false} JoinAvoids(parts: seq<string>, sep: char, c: char)
    requires forall p | p in parts :: c !in p
    requires c != sep
    ensures c !in Text.Join(parts, sep)
  {
    if |parts| > 1 {
      assert parts[0] in parts;
      JoinAvoids(parts[1..], sep, c);
    } else if |parts| == 1 {
      assert parts[0] in parts;
    }
  }

  lemma ParseAssemble(nums: seq<string>, pre: seq<string>)
    requires 1 <= |nums| <= 3 && (pre != [] ==> |nums| == 3)
    requires forall n | n in nums :: ValidNum(n)
    requires forall i | i in pre :: ValidPreIdent(i)
    ensures Parse(Assemble(nums, pre)) == Some(Version(
              nums[0],
              if |nums| > 1 then nums[1] else "0",
              if |nums| > 2 then nums[2] else "0",
              pre))
  {
    hide Text.Join, Text.Split, Cut, WellFormed, ValidNum, ValidPreIdent;
    var v := Assemble(nums, pre);
    var body := Text.Join(nums, '.');
    forall n | n in nums ensures '+' !in n && '-' !in n && '.' !in n {
      NumPlain(n);
    }
    forall i | i in pre ensures '+' !in i && '.' !in i {
      IdentPlain(i);
    }
    JoinAvoids(nums, '.', '+');
    JoinAvoids(nums, '.', '-');
    JoinAvoids(pre, '.', '+');
    Text.SplitJoin(nums, '.');
    if pre == [] {
      assert v == "v" + body;
      CutPlain(body);
    } else {
      Text.SplitJoin(pre, '.');
      assert v == "v" + body + ['-'] + Text.Join(pre, '.');
      CutPre(body, Text.Join(pre, '.'));
    }
    PartsWellFormed(nums, pre);
  }

  lemma NumPlain(n: string)
    requires ValidNum(n)
    ensures '+' !in n && '-' !in n && '.' !in n
  {
  }

  lemma IdentPlain(i: string)
    requires ValidPreIdent(i)
    ensures '+' !in i && '.' !in i
  {
  }

  lemma PartsWellFormed(nums: seq<string>, pre: seq<string>)
    requires 1 <= |nums| <= 3 && (pre != [] ==> |nums| == 3)
    requires forall n | n in nums :: ValidNum(n)
    requires forall i | i in pre :: ValidPreIdent(i)
    ensures WellFormed(Parts(nums, if pre == [] then None else Some(pre), None))
  {
  }

  lemma CutPlain(body: string)
    requires '+' !in body && '-' !in body
    ensures Cut("v" + body) == Parts(Text.Split(body, '.'), None, None)
  {
    var v := "v" + body;
    Text.IndexOfAppend(v, '+', "");
    assert v[..|v|] == v;
    Text.IndexOfAppend(v, '-', "");
    assert v[1..|v|] == body;
  }

  lemma CutPre(body: string, tail: string)
    requires '+' !in body && '-' !in body && '+' !in tail
    ensures Cut("v" + body + ['-'] + tail) == Parts(Text.Split(body, '.'), Some(Text.Split(tail, '.')), None)
  {
    var v := "v" + body + ['-'] + tail;
    Text.IndexOfAppend(v, '+', "");
    assert v[..|v|] == v;
    Text.IndexOfAppend("v" + body, '-', tail);
    assert v[1..|body| + 1] == body && v[|body| + 2..] == tail;
  }

  lemma MajorMinorParse(v: string)
    requires IsValid(v)
    ensures IsValid(MajorMinor(v))
    ensures var p := Parse(v).value;
            Parse(MajorMinor(v)) == Some(Version(p.major, p.minor, "0", []))
  {
    ParseNumeric(v);
    var p := Parse(v).value;
    ParseAssemble([p.major, p.minor], []);
  }

  /** The series of a series is itself, and an invalid version has no series. */
  lemma MajorMinorIdempotent(v: string)
    ensures MajorMinor(MajorMinor(v)) == MajorMinor(v)
    ensures IsValid(MajorMinor(v)) <==> IsValid(v)
    ensures !IsValid(v) ==> MajorMinor(v) == ""
  {
    if IsValid(v) {
      MajorMinorParse(v);
    }
  }

  /** Section 10: padding and build metadata do not change precedence. */
  lemma CanonicalEquivalent(v: string, w: string)
    ensures IsValid(Canonical(v)) <==> IsValid(v)
    ensures !IsValid(v) ==> Canonical(v) == ""
    ensures Compare(w, Canonical(v)) == Compare(w, v)
  {
    if IsValid(v) {
      ParseNumeric(v);
      var p := Parse(v).value;
      ParseAssemble([p.major, p.minor, p.patch], p.pre);
    }
  }

  /** Taking the series is monotone for precedence. */
  lemma MajorMinorMonotone(v: string, w: string)
    requires Compare(v, w) <= 0
    ensures Compare(MajorMinor(v), MajorMinor(w)) <= 0
  {
    if IsValid(v) {
      MajorMinorParse(v);
      ParseNumeric(v);
    }
    if IsValid(w) {
      MajorMinorParse(w);
      ParseNumeric(w);
    }
  }

  /** Series of equal precedence are the same string. */
  lemma EqualSeriesIdentical(v: string, w: string)
    requires IsValid(v)
    requires Compare(MajorMinor(v), MajorMinor(w)) == 0
    ensures MajorMinor(v) == MajorMinor(w)
  {
    MajorMinorIdempotent(v);
    MajorMinorIdempotent(w);
    MajorMinorParse(v);
    MajorMinorParse(w);
    ParseNumeric(v);
    ParseNumeric(w);
    var p, q := Parse(v).value, Parse(w).value;
    NumValueInjective(p.major, q.major);
    NumValueInjective(p.minor, q.minor);
  }

  /** Precedence is a strict total order on series strings. */
  lemma SeriesStrictOrder(s: set<string>)
    requires forall x | x in s :: IsValid(x) && MajorMinor(x) == x
    ensures Ordering.StrictOrderOn(Precedes, s)
  {
    forall x, y | x in s && y in s
      ensures !Precedes(x, x) && (x == y || Precedes(x, y) || Precedes(y, x))
    {
      CompareTotalPreorder(x, y, y);
      if Compare(x, y) == 0 {
        EqualSeriesIdentical(x, y);
      }
    }
    forall x, y, z | x in s && y in s && z in s && Precedes(x, y) && Precedes(y, z)
      ensures Precedes(x, z)
    {
      CompareTotalPreorder(x, y, z);
    }
  }
}

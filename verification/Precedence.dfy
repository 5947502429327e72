/** What versions mean, apart from how they are cut and compared: which strings are versions, and which of
    two comes first (sections 2, 9, 10 and 11 of Semantic Versioning 2.0.0). */
module Precedence {
  import opened Wrappers
  import opened Semver
  import Ordering
  import Text

  // ---------- Which strings are versions ----------

  const DIGITS := "0123456789"
  const CAPITALS := "ABCDEFGHIJKLMNOPQRSTUVWXYZ"
  const LETTERS := "abcdefghijklmnopqrstuvwxyz"

  predicate Only(s: string, chars: string) {
    forall i | 0 <= i < |s| :: s[i] in chars
  }

  /** A number without leading zeros. */
  predicate Numeral(s: string) {
    s == "0" || (s != "" && s[0] != '0' && Only(s, DIGITS))
  }

  predicate Identifier(s: string) {
    s != "" && forall i | 0 <= i < |s| :: s[i] in DIGITS || s[i] in CAPITALS || s[i] in LETTERS || s[i] == '-'
  }

  /** The parts of a version, or of one of its shorthands `vMAJOR` and `vMAJOR.MINOR`. */
  predicate Grammatical(p: Parts) {
    && |p.nums| in {1, 2, 3}
    && (forall i | 0 <= i < |p.nums| :: Numeral(p.nums[i]))
    && (p.pre.Some? ==> |p.nums| == 3 && Listed(p.pre.value) &&
                        forall i | 0 <= i < |p.pre.value| :: Only(p.pre.value[i], DIGITS) ==> Numeral(p.pre.value[i]))
    && (p.build.Some? ==> |p.nums| == 3 && Listed(p.build.value))
  }

  predicate Listed(ids: seq<string>) {
    ids != [] && forall i | 0 <= i < |ids| :: Identifier(ids[i])
  }

  function SpellList(mark: string, ids: Option<seq<string>>): string {
    if ids.None? then "" else mark + Text.Join(ids.value, '.')
  }

  function Spell(p: Parts): string {
    "v" + Text.Join(p.nums, '.') + SpellList("-", p.pre) + SpellList("+", p.build)
  }

  lemma DigitExactly(c: char)
    ensures IsDigit(c) <==> c in DIGITS
  {
    if IsDigit(c) {
      assert DIGITS[(c - '0') as int] == c;
    }
  }

  lemma CapitalExactly(c: char)
    ensures 'A' <= c <= 'Z' <==> c in CAPITALS
  {
    assert forall i | 0 <= i < 26 :: CAPITALS[i] == 'A' + i as char;
    if 'A' <= c <= 'Z' {
      assert CAPITALS[(c - 'A') as int] == c;
    }
  }

  lemma LetterExactly(c: char)
    ensures 'a' <= c <= 'z' <==> c in LETTERS
  {
    assert forall i | 0 <= i < 26 :: LETTERS[i] == 'a' + i as char;
    if 'a' <= c <= 'z' {
      assert LETTERS[(c - 'a') as int] == c;
    }
  }

  lemma IdentCharExactly(c: char)
    ensures IsIdentChar(c) <==> c in DIGITS || c in CAPITALS || c in LETTERS || c == '-'
  {
    DigitExactly(c);
    CapitalExactly(c);
    LetterExactly(c);
  }

  lemma NumeralExactly(s: string)
    ensures AllDigits(s) <==> Only(s, DIGITS)
    ensures ValidNum(s) <==> Numeral(s)
  {
    forall c: char ensures IsDigit(c) <==> c in DIGITS {
      DigitExactly(c);
    }
  }

  lemma IdentifierExactly(s: string)
    ensures ValidBuildIdent(s) <==> Identifier(s)
    ensures ValidPreIdent(s) <==> Identifier(s) && (Only(s, DIGITS) ==> Numeral(s))
  {
    hide IsIdentChar, AllDigits, ValidNum, Numeral;
    NumeralExactly(s);
    forall c: char
      ensures IsIdentChar(c) <==> c in DIGITS || c in CAPITALS || c in LETTERS || c == '-'
    {
      IdentCharExactly(c);
    }
  }

  lemma GrammarExactly(p: Parts)
    requires p.pre != Some([]) && p.build != Some([])
    ensures WellFormed(p) <==> Grammatical(p)
  {
    hide ValidNum, ValidPreIdent, ValidBuildIdent, Numeral, Identifier, Only;
    forall s: string ensures ValidNum(s) <==> Numeral(s) {
      NumeralExactly(s);
    }
    forall s: string
      ensures ValidBuildIdent(s) <==> Identifier(s)
      ensures ValidPreIdent(s) <==> Identifier(s) && (Only(s, DIGITS) ==> Numeral(s))
    {
      IdentifierExactly(s);
    }
  }

  // ---------- Cutting undoes spelling ----------

  lemma CutBuild(head: string, tail: string)
    requires head != "" && head[0] == 'v' && '+' !in head
    ensures Cut(head + "+" + tail) == Cut(head).(build := Some(Text.Split(tail, '.')))
  {
    hide Text.IndexOf, Text.Split;
    var v := head + "+" + tail;
    assert "+" == ['+'];
    Text.IndexOfAppend(head, '+', tail);
    assert v[..|head|] == head && v[|head| + 1..] == tail;
    assert head[..|head|] == head;
  }

  /** Names without separators, joined. */
  lemma JoinedPlain(ids: seq<string>)
    requires Listed(ids)
    ensures '+' !in Text.Join(ids, '.') && Text.Split(Text.Join(ids, '.'), '.') == ids
  {
    hide Text.Join, Text.Split, Identifier;
    forall i | i in ids ensures '+' !in i && '.' !in i {
      IdentifierPlain(i);
    }
    JoinAvoids(ids, '.', '+');
    Text.SplitJoin(ids, '.');
  }

  lemma IdentifierPlain(i: string)
    requires Identifier(i)
    ensures '+' !in i && '.' !in i
  {
    IdentifierExactly(i);
  }

  lemma CutSpell(p: Parts)
    requires Grammatical(p)
    ensures Spell(p) != "" && Spell(p)[0] == 'v' && Cut(Spell(p)) == p
  {
    hide Text.Join, Text.Split, Cut, Numeral, Only;
    var body := Text.Join(p.nums, '.');
    forall n | n in p.nums ensures '+' !in n && '-' !in n && '.' !in n {
      NumeralExactly(n);
      NumPlain(n);
    }
    JoinAvoids(p.nums, '.', '+');
    JoinAvoids(p.nums, '.', '-');
    Text.SplitJoin(p.nums, '.');
    var head := "v" + body + SpellList("-", p.pre);
    if p.pre.None? {
      assert head == "v" + body;
      CutPlain(body);
    } else {
      JoinedPlain(p.pre.value);
      assert head == "v" + body + ['-'] + Text.Join(p.pre.value, '.');
      CutPre(body, Text.Join(p.pre.value, '.'));
    }
    if p.build.None? {
      assert Spell(p) == head;
    } else {
      JoinedPlain(p.build.value);
      assert Spell(p) == head + "+" + Text.Join(p.build.value, '.');
      CutBuild(head, Text.Join(p.build.value, '.'));
    }
  }

  lemma SpellCut(v: string)
    requires v != "" && v[0] == 'v'
    ensures Spell(Cut(v)) == v && Cut(v).pre != Some([]) && Cut(v).build != Some([])
  {
    hide Text.IndexOf, Text.Split, Text.Join, SpellList;
    SpellTail(v);
    SpellHead(v[..Text.IndexOf(v, '+')]);
  }

  lemma SpellTail(v: string)
    requires v != "" && v[0] == 'v'
    ensures var plus := Text.IndexOf(v, '+');
            0 < plus && v[..plus] + SpellList("+", if plus == |v| then None else Some(Text.Split(v[plus + 1..], '.'))) == v
  {
    hide Text.IndexOf, Text.Split, Text.Join;
    var plus := Text.IndexOf(v, '+');
    if plus < |v| {
      Text.IndexOfFirst(v, '+');
      Text.JoinSplit(v[plus + 1..], '.');
      CutAtPlus(v, plus);
    } else {
      CutAtEnd(v);
    }
    PlusAfterV(v);
  }

  lemma PlusAfterV(v: string)
    requires v != "" && v[0] == 'v'
    ensures 0 < Text.IndexOf(v, '+')
  {
  }

  lemma CutAtPlus(s: string, n: nat)
    requires n < |s| && s[n] == '+'
    ensures s[..n] + ("+" + s[n + 1..]) == s
  {
  }

  lemma CutAtEnd(s: string)
    ensures s[..|s|] + "" == s
  {
  }

  lemma SpellHead(head: string)
    requires head != "" && head[0] == 'v'
    ensures var dash := Text.IndexOf(head, '-');
            0 < dash &&
            "v" + Text.Join(Text.Split(head[1..dash], '.'), '.') +
            SpellList("-", if dash == |head| then None else Some(Text.Split(head[dash + 1..], '.'))) == head
  {
    hide Text.IndexOf, Text.Split, Text.Join;
    var dash := Text.IndexOf(head, '-');
    AfterV(head);
    Text.JoinSplit(head[1..dash], '.');
    Text.IndexOfFirst(head, '-');
    if dash < |head| {
      Text.JoinSplit(head[dash + 1..], '.');
      CutAtMark(head, dash);
    } else {
      CutAfterV(head);
    }
  }

  lemma CutAfterV(head: string)
    requires head != "" && head[0] == 'v'
    ensures "v" + head[1..|head|] + "" == head
  {
  }

  lemma AfterV(head: string)
    requires head != "" && head[0] == 'v'
    ensures 0 < Text.IndexOf(head, '-')
  {
  }

  lemma CutAtMark(s: string, n: nat)
    requires 0 < n < |s| && s[0] == 'v' && s[n] == '-'
    ensures "v" + s[1..n] + ("-" + s[n + 1..]) == s
  {
  }

  /** Spelling out parts and parsing them gives the parts back, padded; build metadata is dropped. */
  lemma SpelledParses(p: Parts)
    requires Grammatical(p)
    ensures Parse(Spell(p)) == Some(Version(
              p.nums[0],
              if |p.nums| > 1 then p.nums[1] else "0",
              if |p.nums| > 2 then p.nums[2] else "0",
              if p.pre.Some? then p.pre.value else []))
  {
    hide Spell, Cut, WellFormed;
    CutSpell(p);
    GrammarExactly(p);
  }

  /** The versions are exactly the spellings of grammatical parts. */
  lemma VersionsExactly(v: string)
    ensures IsValid(v) <==> exists p :: Grammatical(p) && Spell(p) == v
  {
    hide Spell, Cut, WellFormed, Grammatical;
    if IsValid(v) {
      SpellCut(v);
      GrammarExactly(Cut(v));
    }
    forall p | Grammatical(p) && Spell(p) == v ensures IsValid(v) {
      SpelledParses(p);
    }
  }

  /** The series of a version and its canonical form, spelled out. */
  lemma SpelledForms(p: Parts)
    requires Grammatical(p)
    ensures var minor := if |p.nums| > 1 then p.nums[1] else "0";
            var patch := if |p.nums| > 2 then p.nums[2] else "0";
            && MajorMinor(Spell(p)) == "v" + p.nums[0] + "." + minor
            && Canonical(Spell(p)) == "v" + p.nums[0] + "." + minor + "." + patch + SpellList("-", p.pre)
  {
    hide Spell, Parse, Assemble, Numeral, Identifier, Only;
    SpelledParses(p);
    var q := Parse(Spell(p)).value;
    SeriesForm(q.major, q.minor);
    FullForm(q.major, q.minor, q.patch, q.pre);
  }

  lemma SeriesForm(a: string, b: string)
    ensures Assemble([a, b], []) == "v" + a + "." + b
  {
    hide Text.Join;
    Text.JoinCons(a, [b], '.');
    JoinOne(b);
    assert [a] + [b] == [a, b];
    assert "v" + (a + ['.'] + b) + "" == "v" + a + "." + b;
  }

  lemma FullForm(a: string, b: string, c: string, pre: seq<string>)
    ensures Assemble([a, b, c], pre) == "v" + a + "." + b + "." + c + if pre == [] then "" else "-" + Text.Join(pre, '.')
  {
    hide Text.Join;
    Text.JoinCons(a, [b, c], '.');
    Text.JoinCons(b, [c], '.');
    JoinOne(c);
    assert [a] + [b, c] == [a, b, c] && [b] + [c] == [b, c];
    assert "v" + (a + ['.'] + (b + ['.'] + c)) == "v" + a + "." + b + "." + c;
  }

  lemma JoinOne(a: string)
    ensures Text.Join([a], '.') == a
  {
  }

  // ---------- Which of two comes first ----------

  /** Fewer digits, or as many and a smaller first digit that differs. */
  predicate NumeralBefore(a: string, b: string) {
    |a| < |b| || (|a| == |b| && exists i | 0 <= i < |a| :: a[..i] == b[..i] && a[i] < b[i])
  }

  /** A proper prefix, or a smaller first character that differs. */
  ghost predicate TextBefore(a: string, b: string) {
    exists i: nat :: TextParts(a, b, i)
  }

  predicate TextParts(a: string, b: string, i: nat) {
    i <= |a| && i < |b| && a[..i] == b[..i] && (i == |a| || a[i] < b[i])
  }

  /** Section 11.4: numbers by value and below anything else, the rest as text. */
  ghost predicate IdentBefore(a: string, b: string) {
    if Only(a, DIGITS) then !Only(b, DIGITS) || NumeralBefore(a, b) else !Only(b, DIGITS) && TextBefore(a, b)
  }

  /** A proper prefix, or a smaller first identifier that differs. */
  ghost predicate ListBefore(a: seq<string>, b: seq<string>) {
    exists i: nat :: ListParts(a, b, i)
  }

  ghost predicate ListParts(a: seq<string>, b: seq<string>, i: nat) {
    i <= |a| && i < |b| && a[..i] == b[..i] && (i == |a| || IdentBefore(a[i], b[i]))
  }

  /** A release comes after its pre-releases. */
  ghost predicate PreBefore(a: seq<string>, b: seq<string>) {
    a != [] && (b == [] || ListBefore(a, b))
  }

  /** The first of major, minor and patch that differs decides, then the pre-release. */
  ghost predicate Before(p: Version, q: Version) {
    if p.major != q.major then NumeralBefore(p.major, q.major)
    else if p.minor != q.minor then NumeralBefore(p.minor, q.minor)
    else if p.patch != q.patch then NumeralBefore(p.patch, q.patch)
    else PreBefore(p.pre, q.pre)
  }

  lemma Snoc(s: string)
    requires s != "" && AllDigits(s)
    ensures var t := s[..|s| - 1];
            AllDigits(t) && IsDigit(s[|s| - 1]) && NumValue(s) == 10 * NumValue(t) + (s[|s| - 1] - '0') as nat
  {
    assert s[|s| - 1] in s;
    assert forall c | c in s[..|s| - 1] :: c in s;
  }

  lemma {:induction false} FewerDigits(a: string, b: string)
    requires ValidNum(a) && ValidNum(b) && |a| < |b|
    ensures NumValue(a) < NumValue(b)
  {
    hide NumValue;
    Snoc(a);
    Snoc(b);
    NumValuePositive(b);
    if |a| > 1 {
      FewerDigits(a[..|a| - 1], b[..|b| - 1]);
    } else {
      assert NumValue(a[..0]) == 0 by { EmptyValue(a); }
    }
  }

  lemma EmptyValue(a: string)
    ensures NumValue(a[..0]) == 0
  {
  }

  lemma {:induction false} FirstDigitDecides(a: string, b: string, i: nat)
    requires AllDigits(a) && AllDigits(b) && i < |a| == |b|
    requires a[..i] == b[..i] && a[i] < b[i]
    ensures NumValue(a) < NumValue(b)
  {
    hide NumValue;
    Snoc(a);
    Snoc(b);
    var a', b' := a[..|a| - 1], b[..|b| - 1];
    if i == |a'| {
      assert a' == b';
    } else {
      assert a'[..i] == a[..i] && b'[..i] == b[..i];
      FirstDigitDecides(a', b', i);
    }
  }

  /** Texts differ first somewhere, unless one is a prefix of the other. */
  lemma {:induction false} FirstDifference<T>(a: seq<T>, b: seq<T>) returns (i: nat)
    ensures i <= |a| && i <= |b| && a[..i] == b[..i]
    ensures if i < |a| && i < |b| then a[i] != b[i] else |a| == |b| ==> a == b
  {
    if a == [] || b == [] || a[0] != b[0] {
      i := 0;
    } else {
      var j := FirstDifference(a[1..], b[1..]);
      i := j + 1;
      assert a == [a[0]] + a[1..] && b == [b[0]] + b[1..];
      assert a[..i] == [a[0]] + a[1..][..j] && b[..i] == [b[0]] + b[1..][..j];
    }
  }

  lemma NumeralOrder(a: string, b: string)
    requires ValidNum(a) && ValidNum(b)
    ensures CompareNat(NumValue(a), NumValue(b)) == if a == b then 0 else if NumeralBefore(a, b) then -1 else 1
  {
    hide NumValue, ValidNum;
    if |a| < |b| {
      FewerDigits(a, b);
    } else if |b| < |a| {
      FewerDigits(b, a);
    } else if a != b {
      var i := FirstDifference(a, b);
      forall k | 0 <= k < |a| && a[..k] == b[..k] && a[k] != b[k] ensures k == i {
        SoleDifference(a, b, i, k);
        SoleDifference(a, b, k, i);
      }
      ValidDigits(a);
      ValidDigits(b);
      if a[i] < b[i] {
        FirstDigitDecides(a, b, i);
      } else {
        FirstDigitDecides(b, a, i);
      }
    }
  }

  lemma SoleDifference(a: string, b: string, i: nat, k: nat)
    requires i <= |a| && i <= |b| && a[..i] == b[..i]
    requires k < |a| && k < |b| && a[k] != b[k]
    ensures i <= k
  {
    assert forall j | 0 <= j < i :: a[..i][j] == a[j] && b[..i][j] == b[j];
  }

  lemma ValidDigits(a: string)
    requires ValidNum(a)
    ensures AllDigits(a)
  {
  }

  lemma {:induction false} TextOrder(a: string, b: string)
    ensures Ordering.StringLess(a, b) <==> TextBefore(a, b)
  {
    if a != "" && b != "" {
      TextOrder(a[1..], b[1..]);
      TextBeforeCons(a, b);
    } else if a == "" {
      assert b != "" ==> TextParts(a, b, 0);
    }
  }

  lemma TextBeforeCons(a: string, b: string)
    requires a != "" && b != ""
    ensures TextBefore(a, b) <==> a[0] < b[0] || (a[0] == b[0] && TextBefore(a[1..], b[1..]))
  {
    assert TextParts(a, b, 0) <==> a[0] < b[0];
    forall i: nat ensures TextParts(a, b, i + 1) <==> a[0] == b[0] && TextParts(a[1..], b[1..], i) {
      TakeCons(a, b, i);
    }
    if TextBefore(a, b) {
      var i: nat :| TextParts(a, b, i);
      assert i > 0 ==> a[0] == b[0] && TextParts(a[1..], b[1..], i - 1);
    }
  }

  lemma TakeCons<T>(a: seq<T>, b: seq<T>, i: nat)
    requires a != [] && b != []
    ensures i < |a| && i < |b| ==> (a[..i + 1] == b[..i + 1] <==> a[0] == b[0] && a[1..][..i] == b[1..][..i])
  {
    if i < |a| && i < |b| {
      assert a[..i + 1] == [a[0]] + a[1..][..i] && b[..i + 1] == [b[0]] + b[1..][..i];
    }
  }

  lemma IdentOrder(a: string, b: string)
    requires ValidPreIdent(a) && ValidPreIdent(b)
    ensures CompareIdent(a, b) == if a == b then 0 else if IdentBefore(a, b) then -1 else 1
  {
    hide NumeralBefore, TextBefore, Ordering.StringLess, ValidNum, AllDigits, Only, Numeral, CompareNat;
    NumeralExactly(a);
    NumeralExactly(b);
    if AllDigits(a) && AllDigits(b) {
      NumeralOrder(a, b);
    }
    TextOrder(a, b);
  }

  lemma IdentIrreflexive(a: string)
    ensures !IdentBefore(a, a)
  {
  }

  lemma {:induction false} ListOrder(a: seq<string>, b: seq<string>)
    requires forall i | i in a :: ValidPreIdent(i)
    requires forall i | i in b :: ValidPreIdent(i)
    ensures CompareIdents(a, b) == if a == b then 0 else if ListBefore(a, b) then -1 else 1
  {
    hide ValidPreIdent, IdentBefore, CompareIdent;
    if a == [] || b == [] {
      assert a == [] && b != [] ==> ListParts(a, b, 0);
    } else {
      assert a[0] in a && b[0] in b;
      IdentOrder(a[0], b[0]);
      IdentIrreflexive(a[0]);
      ListOrder(a[1..], b[1..]);
      assert a == [a[0]] + a[1..] && b == [b[0]] + b[1..];
      ListBeforeCons(a, b);
    }
  }

  lemma ListBeforeCons(a: seq<string>, b: seq<string>)
    requires a != [] && b != []
    ensures a[0] == b[0] ==> (ListBefore(a, b) <==> ListBefore(a[1..], b[1..]) || IdentBefore(a[0], b[0]))
    ensures a[0] != b[0] ==> (ListBefore(a, b) <==> IdentBefore(a[0], b[0]))
  {
    hide IdentBefore;
    assert ListParts(a, b, 0) <==> IdentBefore(a[0], b[0]);
    forall i: nat ensures ListParts(a, b, i + 1) <==> a[0] == b[0] && ListParts(a[1..], b[1..], i) {
      TakeCons(a, b, i);
    }
    if ListBefore(a, b) {
      var i: nat :| ListParts(a, b, i);
      assert i > 0 ==> a[0] == b[0] && ListParts(a[1..], b[1..], i - 1);
    }
  }

  /** Precedence, exactly: a version comes after whatever is not one, and two versions are ordered by the first
      of major, minor and patch that differs, then by their pre-releases. */
  lemma PrecedesExactly(v: string, w: string)
    ensures Precedes(v, w) <==> IsValid(w) && (!IsValid(v) || Before(Parse(v).value, Parse(w).value))
  {
    hide Parse, CompareVersions, Before, ValidPreIdent, NumericParts;
    if IsValid(v) && IsValid(w) {
      BeforeIrreflexive(Parse(v).value);
      ParseNumeric(v);
      ParseNumeric(w);
      PartsOrder(Parse(v).value, Parse(w).value);
    }
  }

  lemma BeforeIrreflexive(p: Version)
    ensures !Before(p, p)
  {
    hide IdentBefore;
    forall i | 0 <= i < |p.pre| ensures !IdentBefore(p.pre[i], p.pre[i]) {
      IdentIrreflexive(p.pre[i]);
    }
  }

  lemma PreOrder(a: seq<string>, b: seq<string>)
    requires forall i | i in a :: ValidPreIdent(i)
    requires forall i | i in b :: ValidPreIdent(i)
    ensures ComparePre(a, b) == if a == b then 0 else if PreBefore(a, b) then -1 else 1
  {
    hide CompareIdents, ListBefore;
    ListOrder(a, b);
  }

  lemma SeriesOrder(p: Version, q: Version)
    requires NumericParts(p) && NumericParts(q)
    ensures CompareSeries(p, q) ==
            if p.major != q.major then (if NumeralBefore(p.major, q.major) then -1 else 1)
            else if p.minor != q.minor then (if NumeralBefore(p.minor, q.minor) then -1 else 1)
            else 0
  {
    hide NumValue, ValidNum, NumeralBefore, CompareNat;
    NumeralOrder(p.major, q.major);
    NumeralOrder(p.minor, q.minor);
  }

  lemma PartsOrder(p: Version, q: Version)
    requires NumericParts(p) && NumericParts(q)
    requires forall i | i in p.pre :: ValidPreIdent(i)
    requires forall i | i in q.pre :: ValidPreIdent(i)
    ensures CompareVersions(p, q) == if p == q then 0 else if Before(p, q) then -1 else 1
  {
    hide NumValue, ValidPreIdent, ValidNum, ComparePre, PreBefore, NumeralBefore, CompareNat, CompareSeries;
    SeriesOrder(p, q);
    NumeralOrder(p.patch, q.patch);
    PreOrder(p.pre, q.pre);
    assert p == q <==> p.major == q.major && p.minor == q.minor && p.patch == q.patch && p.pre == q.pre;
  }

  /** The same of versions spelled out from their parts. */
  lemma SpelledOrder(p: Parts, q: Parts)
    requires Grammatical(p) && Grammatical(q)
    requires |p.nums| == |q.nums| == 3
    ensures Precedes(Spell(p), Spell(q)) <==>
            if p.nums[0] != q.nums[0] then NumeralBefore(p.nums[0], q.nums[0])
            else if p.nums[1] != q.nums[1] then NumeralBefore(p.nums[1], q.nums[1])
            else if p.nums[2] != q.nums[2] then NumeralBefore(p.nums[2], q.nums[2])
            else p.pre.Some? && (q.pre.None? || ListBefore(p.pre.value, q.pre.value))
  {
    hide Spell, Parse, Compare, NumeralBefore, ListBefore, Numeral, Identifier, Only;
    SpelledParses(p);
    SpelledParses(q);
    PrecedesExactly(Spell(p), Spell(q));
  }
}

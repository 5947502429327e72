/** Packages of a packagecloud repository, the retention config of a repository, and the Go
    integer and time operations both decision procedures rest on. */
module Packages {
  import opened Wrappers
  import Precedence
  import Semver
  import Text

  const MAX_INT64 := 0x7FFF_FFFF_FFFF_FFFF
  const MIN_INT64 := -0x8000_0000_0000_0000

  /** `time.Duration`: a 64-bit count of nanoseconds. */
  type Duration = x: int | MIN_INT64 <= x <= MAX_INT64

  datatype Package = Package(
    name: string, version: string, arch: string, distroVersion: string,
    filename: string, sha256Sum: string, size: string, createTime: int)

  datatype PkgConfig = PkgConfig(
    exceptions: seq<string>, versionCutoff: string, ageCutoff: Duration, notBackup: bool,
    track: string, editions: seq<string>)

  /** `strings.NewReplacer("~", "-")`. */
  function Translate(version: string): string {
    seq(|version|, i requires 0 <= i < |version| => if version[i] == '~' then '-' else version[i])
  }

  /** It cuts at every tilde and joins with hyphens. */
  lemma {:induction false} TranslateJoins(version: string)
    ensures Translate(version) == Text.Join(Text.Split(version, '~'), '-')
    decreases |version|
  {
    hide Text.IndexOf, Text.Join;
    var n := Text.IndexOf(version, '~');
    Text.IndexOfFirst(version, '~');
    if n < |version| {
      var head, rest := version[..n], version[n + 1..];
      TranslateJoins(rest);
      Text.JoinCons(head, Text.Split(rest, '~'), '-');
      assert Translate(version) == head + ['-'] + Translate(rest);
    } else {
      assert Translate(version) == version;
      JoinAlone(version);
    }
  }

  lemma JoinAlone(s: string)
    ensures Text.Join([s], '-') == s
  {
  }

  /** The version a package is judged by. */
  function VersionOf(item: Package): string {
    "v" + Translate(item.version)
  }

  /** `time.Time.Sub` saturates instead of overflowing. */
  function TimeSub(t: int, u: int): Duration {
    if t - u > MAX_INT64 then MAX_INT64 else if t - u < MIN_INT64 then MIN_INT64 else t - u
  }

  predicate TooOld(age: Duration, item: Package, now: int) {
    age != 0 && TimeSub(now, item.createTime) > age
  }

  /** Too old means created more than `age` before `now`. An age of zero, or the longest there is, never passes. */
  lemma TooOldExactly(age: Duration, item: Package, now: int)
    ensures TooOld(age, item, now) <==> age != 0 && age < MAX_INT64 && item.createTime + age < now
  {
  }

  /** A package that is too old stays too old, even where the subtraction saturates. */
  lemma TooOldForever(age: Duration, item: Package, now: int, later: int)
    requires TooOld(age, item, now) && now <= later
    ensures TooOld(age, item, later)
  {
  }

  const TWO_64 := 0x1_0000_0000_0000_0000

  /** Two's complement wrap-around of `int64` addition. */
  function Wrap64(x: int): int {
    (x - MIN_INT64) % TWO_64 + MIN_INT64
  }

  /** Wrapping keeps the value modulo 2^64, and keeps it exactly when it fits. */
  lemma WrapFits(x: int)
    ensures MIN_INT64 <= Wrap64(x) <= MAX_INT64
    ensures (Wrap64(x) - x) % TWO_64 == 0
    ensures Wrap64(x) == x <==> MIN_INT64 <= x <= MAX_INT64
  {
  }

  lemma WrapAdd(x: int, y: int)
    ensures Wrap64(Wrap64(x) + y) == Wrap64(x + y)
  {
    WrapFits(x);
    var k := (Wrap64(x) - x) / TWO_64;
    assert Wrap64(x) == x + k * TWO_64;
  }

  /** `strconv.ParseInt(s, 10, 64)`: an optional sign, digits, and the range of `int64`. */
  function ParseInt64(s: string): Option<int> {
    var signed := s != "" && (s[0] == '-' || s[0] == '+');
    var digits := if signed then s[1..] else s;
    if digits == "" || !Semver.AllDigits(digits) then None
    else
      var n: int := Semver.NumValue(digits);
      var v := if signed && s[0] == '-' then -n else n;
      if MIN_INT64 <= v <= MAX_INT64 then Some(v) else None
  }

  // ---------- What decimal text parses to ----------

  function Decimal(n: nat): string {
    if n < 10 then [Precedence.DIGITS[n]] else Decimal(n / 10) + [Precedence.DIGITS[n % 10]]
  }

  function Zeros(k: nat): string {
    seq(k, _ => '0')
  }

  /** `s` is `n` in decimal, after a sign that may be missing and any number of zeros. */
  predicate Writes(s: string, n: int, sign: string, k: nat) {
    && (sign == "-" || sign == "+" || sign == "")
    && (if sign == "-" then n <= 0 else n >= 0)
    && s == sign + (Zeros(k) + Decimal(if n < 0 then -n else n))
  }

  lemma SnocValue(t: string, c: char)
    requires Semver.AllDigits(t) && Semver.IsDigit(c)
    ensures Semver.AllDigits(t + [c]) && Semver.NumValue(t + [c]) == 10 * Semver.NumValue(t) + (c - '0') as nat
  {
    assert (t + [c])[..|t|] == t;
  }

  lemma DigitAt(d: nat)
    requires d < 10
    ensures Semver.IsDigit(Precedence.DIGITS[d]) && (Precedence.DIGITS[d] - '0') as nat == d
  {
  }

  lemma {:induction false} ZerosValue(k: nat)
    ensures Semver.AllDigits(Zeros(k)) && Semver.NumValue(Zeros(k)) == 0
  {
    if k > 0 {
      ZerosValue(k - 1);
      SnocValue(Zeros(k - 1), '0');
      assert Zeros(k) == Zeros(k - 1) + ['0'];
    }
  }

  lemma {:induction false} DecimalValue(k: nat, n: nat)
    ensures Semver.AllDigits(Zeros(k) + Decimal(n)) && Semver.NumValue(Zeros(k) + Decimal(n)) == n
    ensures Decimal(n) != ""
  {
    hide Semver.NumValue, Semver.AllDigits, Semver.IsDigit;
    DigitAt(n % 10);
    if n < 10 {
      ZerosValue(k);
      SnocValue(Zeros(k), Precedence.DIGITS[n]);
    } else {
      DecimalValue(k, n / 10);
      SnocValue(Zeros(k) + Decimal(n / 10), Precedence.DIGITS[n % 10]);
      assert Zeros(k) + Decimal(n) == Zeros(k) + Decimal(n / 10) + [Precedence.DIGITS[n % 10]];
    }
  }

  lemma {:induction false} DigitsAreDecimal(s: string) returns (k: nat)
    requires s != "" && Semver.AllDigits(s)
    ensures s == Zeros(k) + Decimal(Semver.NumValue(s))
  {
    hide Semver.NumValue, Decimal, Zeros;
    Precedence.Snoc(s);
    var t, c := s[..|s| - 1], s[|s| - 1];
    var d := (c - '0') as nat;
    assert s == t + [c];
    DigitOf(c);
    DecimalSnoc(Semver.NumValue(t), d);
    if t == "" {
      k := 0;
      ZerosValue(0);
      ZerosNone();
    } else {
      var j := DigitsAreDecimal(t);
      ZerosMore(j);
      k := if Semver.NumValue(t) == 0 then j + 1 else j;
    }
  }

  lemma DigitOf(c: char)
    requires Semver.IsDigit(c)
    ensures c - '0' < 10 as char && Precedence.DIGITS[(c - '0') as nat] == c
  {
  }

  lemma DecimalSnoc(m: nat, d: nat)
    requires d < 10
    ensures Decimal(10 * m + d) == if m == 0 then [Precedence.DIGITS[d]] else Decimal(m) + [Precedence.DIGITS[d]]
  {
  }

  lemma ZerosNone()
    ensures Zeros(0) == ""
  {
  }

  lemma ZerosMore(k: nat)
    ensures Zeros(k) + Decimal(0) == Zeros(k + 1)
  {
  }

  /** What parses is exactly a number of 64 bits written in decimal, and it parses to that number. */
  lemma ParseInt64Exactly(s: string, n: int)
    ensures ParseInt64(s) == Some(n) <==> MIN_INT64 <= n <= MAX_INT64 && exists sign, k: nat :: Writes(s, n, sign, k)
  {
    hide Semver.NumValue, Semver.AllDigits, Decimal, Zeros;
    if ParseInt64(s) == Some(n) {
      var signed := s != "" && (s[0] == '-' || s[0] == '+');
      var sign, digits := if signed then s[..1] else "", if signed then s[1..] else s;
      var k := DigitsAreDecimal(digits);
      assert s == sign + digits;
      assert Writes(s, n, sign, k);
    }
    forall sign, k: nat | MIN_INT64 <= n <= MAX_INT64 && Writes(s, n, sign, k) ensures ParseInt64(s) == Some(n) {
      var digits := Zeros(k) + Decimal(if n < 0 then -n else n);
      DecimalValue(k, if n < 0 then -n else n);
      HeadIsDigit(digits);
      assert sign != "" ==> s[1..] == digits;
      assert sign == "" ==> s == digits;
    }
  }

  lemma HeadIsDigit(digits: string)
    requires Semver.AllDigits(digits) && digits != ""
    ensures digits[0] != '-' && digits[0] != '+'
  {
    assert digits[0] in digits;
  }
}

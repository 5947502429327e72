/** Canonical JSON, as `json.Marshal` prints it: object keys sorted, no spaces, strings escaped. Printing
    is injective (sections 3 to 7 of RFC 8259). */
module Json {
  import opened Ordering

  /** A decoded YAML value, as far as printing can tell: a number stands for its printed text, a timestamp is
      the string it prints as, and `Unprintable` is what JSON has no form for, such as an infinity or a
      mapping with keys that are not strings. */
  datatype Json =
    | Null | Bool(b: bool) | Number(text: string) | Str(s: string)
    | Array(items: seq<Json>) | Object(fields: map<string, Json>) | Unprintable

  predicate NumberChar(c: char) {
    '0' <= c <= '9' || c in "+-.eE"
  }

  ghost predicate Printable(v: Json) {
    match v
    case Null => true
    case Bool(_) => true
    case Number(text) => text != "" && forall i | 0 <= i < |text| :: NumberChar(text[i])
    case Str(_) => true
    case Array(items) => forall i | 0 <= i < |items| :: Printable(items[i])
    case Object(fields) => forall k | k in fields :: Printable(fields[k])
    case Unprintable => false
  }

  /** `w` is `v`, or is somewhere inside it. */
  ghost predicate Inside(w: Json, v: Json) {
    w == v || match v
              case Array(items) => exists i | 0 <= i < |items| :: Inside(w, items[i])
              case Object(fields) => exists k | k in fields :: Inside(w, fields[k])
              case _ => false
  }

  /** A value has no form only for what has none itself, or for a number that is not the text of one. */
  predicate NoForm(w: Json) {
    w.Unprintable? || (w.Number? && (w.text == "" || exists c | c in w.text :: c !in "0123456789+-.eE"))
  }

  lemma NumberCharExactly(c: char)
    ensures NumberChar(c) <==> c in "0123456789+-.eE"
  {
    if '0' <= c <= '9' {
      assert "0123456789+-.eE"[(c - '0') as int] == c;
    }
    assert c in "+-.eE" ==> c in "0123456789" + "+-.eE";
    assert "0123456789" + "+-.eE" == "0123456789+-.eE";
  }

  /** A value can be printed exactly when nothing inside it has no form. */
  lemma {:induction false} PrintableExactly(v: Json)
    ensures Printable(v) <==> forall w | Inside(w, v) :: !NoForm(w)
    decreases v
  {
    hide NumberChar;
    forall c: char ensures NumberChar(c) <==> c in "0123456789+-.eE" {
      NumberCharExactly(c);
    }
    assert Inside(v, v);
    match v {
      case Array(items) =>
        forall i | 0 <= i < |items| ensures Printable(items[i]) <==> forall w | Inside(w, items[i]) :: !NoForm(w) {
          PrintableExactly(items[i]);
        }
      case Object(fields) =>
        forall k | k in fields ensures Printable(fields[k]) <==> forall w | Inside(w, fields[k]) :: !NoForm(w) {
          PrintableExactly(fields[k]);
        }
      case _ =>
    }
  }

  // ---------- Strings ----------

  function Hex(d: nat): char
    requires d < 16
  {
    "0123456789abcdef"[d]
  }

  function Hex4(n: nat): (h: string)
    requires n < 0x1_0000
    ensures |h| == 4
  {
    var p := n / 16;
    var q := p / 16;
    [Hex(q / 16), Hex(q % 16), Hex(p % 16), Hex(n % 16)]
  }

  /** Control characters, the characters that are special in HTML, and the two line separators. */
  predicate ByCode(c: char) {
    c < ' ' || c in "<>&" || c == '\U{2028}' || c == '\U{2029}'
  }

  function Escaped(c: char): string {
    if c == '"' then "\\\""
    else if c == '\\' then "\\\\"
    else if c == '\U{8}' then "\\b"
    else if c == '\U{c}' then "\\f"
    else if c == '\n' then "\\n"
    else if c == '\r' then "\\r"
    else if c == '\t' then "\\t"
    else if ByCode(c) then "\\u" + Hex4(c as int)
    else [c]
  }

  function EscapedAll(s: string): string {
    if s == "" then "" else Escaped(s[0]) + EscapedAll(s[1..])
  }

  function Quote(s: string): string {
    "\"" + EscapedAll(s) + "\""
  }

  lemma HexInjective(a: nat, b: nat)
    requires a < 16 && b < 16 && Hex(a) == Hex(b)
    ensures a == b
  {
  }

  lemma Hex4Injective(m: nat, n: nat)
    requires m < 0x1_0000 && n < 0x1_0000 && Hex4(m) == Hex4(n)
    ensures m == n
  {
    hide Hex;
    assert Hex4(m)[0] == Hex4(n)[0] && Hex4(m)[1] == Hex4(n)[1] && Hex4(m)[2] == Hex4(n)[2] && Hex4(m)[3] == Hex4(n)[3];
    HexInjective(m / 16 / 16 / 16, n / 16 / 16 / 16);
    HexInjective(m / 16 / 16 % 16, n / 16 / 16 % 16);
    HexInjective(m / 16 % 16, n / 16 % 16);
    HexInjective(m % 16, n % 16);
  }

  /** How long an escape is shows in its first two characters. */
  lemma EscapedShape(c: char)
    ensures var e := Escaped(c);
            |e| > 0 && e[0] != '"' &&
            (e[0] != '\\' ==> e == [c]) &&
            (e[0] == '\\' ==> |e| == (if |e| > 1 && e[1] == 'u' then 6 else 2))
  {
  }

  lemma EscapedInjective(c: char, d: char)
    requires Escaped(c) == Escaped(d)
    ensures c == d
  {
    hide Hex4;
    if ByCode(c) && ByCode(d) && |Escaped(c)| == 6 && |Escaped(d)| == 6 {
      assert Escaped(c)[2..] == Hex4(c as int) && Escaped(d)[2..] == Hex4(d as int);
      Hex4Injective(c as int, d as int);
    }
  }

  /** No escape is a prefix of another. */
  lemma EscapedPrefix(c: char, d: char, x: string, y: string)
    requires Escaped(c) + x == Escaped(d) + y
    ensures c == d && x == y
  {
    hide Escaped;
    var e, f := Escaped(c), Escaped(d);
    EscapedShape(c);
    EscapedShape(d);
    assert (e + x)[0] == e[0] && (f + y)[0] == f[0];
    assert |e| > 1 ==> (e + x)[1] == e[1];
    assert |f| > 1 ==> (f + y)[1] == f[1];
    assert |e| == |f|;
    assert e == (e + x)[..|e|] && f == (f + y)[..|f|];
    assert x == (e + x)[|e|..] && y == (f + y)[|f|..];
    EscapedInjective(c, d);
  }

  lemma HeadQuote(s: string, x: string)
    ensures (EscapedAll(s) + "\"" + x)[0] == '"' <==> s == ""
  {
    if s != "" {
      EscapedShape(s[0]);
      assert (EscapedAll(s) + "\"" + x)[0] == Escaped(s[0])[0];
    }
  }

  lemma {:induction false} EscapedAllPrefix(s: string, t: string, x: string, y: string)
    requires EscapedAll(s) + "\"" + x == EscapedAll(t) + "\"" + y
    ensures s == t && x == y
  {
    hide Escaped;
    var a, b := EscapedAll(s) + "\"" + x, EscapedAll(t) + "\"" + y;
    HeadQuote(s, x);
    HeadQuote(t, y);
    if s == "" {
      assert a[1..] == x && b[1..] == y;
    } else {
      var a', b' := EscapedAll(s[1..]) + "\"" + x, EscapedAll(t[1..]) + "\"" + y;
      assert a == Escaped(s[0]) + a' && b == Escaped(t[0]) + b';
      EscapedPrefix(s[0], t[0], a', b');
      EscapedAllPrefix(s[1..], t[1..], x, y);
      assert s == [s[0]] + s[1..] && t == [t[0]] + t[1..];
    }
  }

  /** Where a quoted string ends shows in the string itself. */
  lemma QuotePrefix(s: string, t: string, x: string, y: string)
    requires Quote(s) + x == Quote(t) + y
    ensures s == t && x == y
  {
    hide EscapedAll;
    assert (Quote(s) + x)[1..] == EscapedAll(s) + "\"" + x;
    assert (Quote(t) + y)[1..] == EscapedAll(t) + "\"" + y;
    EscapedAllPrefix(s, t, x, y);
  }

  // ---------- Values ----------

  ghost function Print(v: Json): string
    requires Printable(v)
    decreases v
  {
    match v
    case Null => "null"
    case Bool(b) => if b then "true" else "false"
    case Number(text) => text
    case Str(s) => Quote(s)
    case Array(items) => "[" + PrintItems(v, 0)
    case Object(fields) => "{" + PrintFields(v, 0)
  }

  function Comma(i: nat): string {
    if i == 0 then "" else ","
  }

  /** The items from the `i`th on, and the closing bracket. */
  ghost function PrintItems(v: Json, i: nat): string
    requires v.Array? && Printable(v) && i <= |v.items|
    decreases v, |v.items| - i
  {
    if i == |v.items| then "]"
    else Comma(i) + Print(v.items[i]) + PrintItems(v, i + 1)
  }

  ghost function KeysOf(v: Json): (ks: seq<string>)
    requires v.Object?
    ensures Elements(ks) == v.fields.Keys
    ensures forall i | 0 <= i < |ks| :: ks[i] in v.fields
  {
    assert forall k | k in SortedStrings(v.fields.Keys) :: k in Elements(SortedStrings(v.fields.Keys));
    SortedStrings(v.fields.Keys)
  }

  /** The fields from the `i`th key on, and the closing brace. */
  ghost function PrintFields(v: Json, i: nat): string
    requires v.Object? && Printable(v) && i <= |KeysOf(v)|
    decreases v, |KeysOf(v)| - i
  {
    var ks := KeysOf(v);
    if i == |ks| then "}"
    else Comma(i) + Quote(ks[i]) + ":" + Print(v.fields[ks[i]]) + PrintFields(v, i + 1)
  }

  /** What may follow a value inside a document. */
  predicate Ends(r: string) {
    r == "" || r[0] in ",]}"
  }

  function Kind(c: char): nat {
    if c == 'n' then 0 else if c == 't' || c == 'f' then 1 else if c == '"' then 3
    else if c == '[' then 4 else if c == '{' then 5 else 2
  }

  function KindOf(v: Json): nat {
    match v
    case Null => 0
    case Bool(_) => 1
    case Number(_) => 2
    case Str(_) => 3
    case Array(_) => 4
    case Object(_) => 5
    case Unprintable => 6
  }

  /** The first character tells what kind of value follows. */
  lemma FirstChar(v: Json)
    requires Printable(v)
    ensures Print(v) != "" && Kind(Print(v)[0]) == KindOf(v) && Print(v)[0] !in ",]}"
  {
    hide EscapedAll, PrintItems, PrintFields;
  }

  /** How many characters a text could start a number with. */
  function NumberRun(s: string): nat {
    if s == "" || !NumberChar(s[0]) then 0 else NumberRun(s[1..]) + 1
  }

  lemma {:induction false} NumberRunEnds(a: string, x: string)
    requires Ends(x) && forall i | 0 <= i < |a| :: NumberChar(a[i])
    ensures NumberRun(a + x) == |a|
  {
    if a == "" {
      assert a + x == x;
    } else {
      NumberRunEnds(a[1..], x);
      assert (a + x)[1..] == a[1..] + x && (a + x)[0] == a[0];
    }
  }

  /** Printing is injective, even before a delimiter: where a value ends shows in its text. */
  lemma {:induction false} PrintPrefix(v: Json, w: Json, x: string, y: string)
    requires Printable(v) && Printable(w) && Ends(x) && Ends(y)
    requires Print(v) + x == Print(w) + y
    ensures v == w && x == y
    decreases v
  {
    hide Printable, Ends, Kind, Print, PrintItems, PrintFields, KeysOf;
    FirstChar(v);
    FirstChar(w);
    assert (Print(v) + x)[0] == Print(v)[0] && (Print(w) + y)[0] == Print(w)[0];
    if v.Array? {
      Opens(v, x);
      Opens(w, y);
      ItemsPrefix(v, w, 0, x, y);
    } else if v.Object? {
      Opens(v, x);
      Opens(w, y);
      FieldsPrefix(v, w, 0, x, y);
      SameFields(v, w);
    } else {
      AtomPrefix(v, w, x, y);
    }
  }

  lemma Opens(v: Json, x: string)
    requires Printable(v) && (v.Array? || v.Object?)
    ensures Print(v) != ""
    ensures v.Array? ==> (Print(v) + x)[1..] == PrintItems(v, 0) + x
    ensures v.Object? ==> (Print(v) + x)[1..] == PrintFields(v, 0) + x
  {
    hide PrintItems, PrintFields, KeysOf, Printable;
  }

  lemma AtomPrefix(v: Json, w: Json, x: string, y: string)
    requires Printable(v) && Printable(w) && Ends(x) && Ends(y) && Print(v) + x == Print(w) + y
    requires KindOf(v) == KindOf(w) && !v.Array? && !v.Object?
    ensures v == w && x == y
  {
    hide Ends, Kind, NumberChar, Quote;
    match v {
      case Null => SamePrefixRest("null", x, y);
      case Bool(b) => BoolPrefix(b, w.b, x, y);
      case Number(text) =>
        NumberRunEnds(text, x);
        NumberRunEnds(w.text, y);
        assert text == (text + x)[..|text|] == w.text;
        SamePrefixRest(text, x, y);
      case Str(s) => QuotePrefix(s, w.s, x, y);
    }
  }

  lemma SamePrefixRest(a: string, x: string, y: string)
    requires a + x == a + y
    ensures x == y
  {
    assert x == (a + x)[|a|..] && y == (a + y)[|a|..];
  }

  lemma BoolPrefix(a: bool, b: bool, x: string, y: string)
    requires (if a then "true" else "false") + x == (if b then "true" else "false") + y
    ensures a == b && x == y
  {
    var s := (if a then "true" else "false") + x;
    assert s[0] == (if a then 't' else 'f') == (if b then 't' else 'f');
    SamePrefixRest(if a then "true" else "false", x, y);
  }

  lemma ItemsStep(v: Json, i: nat, x: string)
    requires v.Array? && Printable(v) && i < |v.items|
    ensures Printable(v.items[i])
    ensures PrintItems(v, i) + x == Comma(i) + (Print(v.items[i]) + (PrintItems(v, i + 1) + x))
  {
    hide Print, Printable;
    ItemPrintable(v, i);
  }

  lemma FieldsStep(v: Json, i: nat, x: string)
    requires v.Object? && Printable(v) && i < |KeysOf(v)|
    ensures Printable(v.fields[KeysOf(v)[i]])
    ensures PrintFields(v, i) + x ==
            Comma(i) + (Quote(KeysOf(v)[i]) + (":" + (Print(v.fields[KeysOf(v)[i]]) + (PrintFields(v, i + 1) + x))))
  {
    hide Print, Printable, Quote, KeysOf;
    FieldPrintable(v, KeysOf(v)[i]);
  }

  lemma {:induction false} ItemsPrefix(v: Json, w: Json, i: nat, x: string, y: string)
    requires v.Array? && w.Array? && Printable(v) && Printable(w) && Ends(x) && Ends(y)
    requires i <= |v.items| && i <= |w.items| && v.items[..i] == w.items[..i]
    requires PrintItems(v, i) + x == PrintItems(w, i) + y
    ensures v == w && x == y
    decreases v, |v.items| - i
  {
    hide Printable, Ends, Print, PrintItems, Comma;
    ItemsHead(v, i, x);
    ItemsHead(w, i, y);
    if i == |v.items| || i == |w.items| {
      assert v.items[..i] == v.items && w.items[..i] == w.items;
      ItemsClose(v, i);
      ItemsClose(w, i);
      SamePrefixRest("]", x, y);
    } else {
      ItemsStep(v, i, x);
      ItemsStep(w, i, y);
      var a, b := PrintItems(v, i + 1) + x, PrintItems(w, i + 1) + y;
      SamePrefixRest(Comma(i), Print(v.items[i]) + a, Print(w.items[i]) + b);
      ItemsEnd(v, i + 1, x);
      ItemsEnd(w, i + 1, y);
      PrintPrefix(v.items[i], w.items[i], a, b);
      assert v.items[..i + 1] == v.items[..i] + [v.items[i]] && w.items[..i + 1] == w.items[..i] + [w.items[i]];
      ItemsPrefix(v, w, i + 1, x, y);
    }
  }

  lemma ItemsClose(v: Json, i: nat)
    requires v.Array? && Printable(v) && i <= |v.items|
    ensures i == |v.items| ==> PrintItems(v, i) == "]"
  {
  }

  lemma FieldsClose(v: Json, i: nat)
    requires v.Object? && Printable(v) && i <= |KeysOf(v)|
    ensures i == |KeysOf(v)| ==> PrintFields(v, i) == "}"
  {
  }

  lemma ItemPrintable(v: Json, i: nat)
    requires v.Array? && Printable(v) && i < |v.items|
    ensures Printable(v.items[i])
  {
  }

  /** A closing bracket shows that the list is at its end. */
  lemma ItemsHead(v: Json, i: nat, x: string)
    requires v.Array? && Printable(v) && i <= |v.items|
    ensures PrintItems(v, i) != "" && ((PrintItems(v, i) + x)[0] == ']' <==> i == |v.items|)
  {
    if i < |v.items| {
      FirstChar(v.items[i]);
    }
  }

  lemma ItemsEnd(v: Json, i: nat, x: string)
    requires v.Array? && Printable(v) && 0 < i <= |v.items|
    ensures Ends(PrintItems(v, i) + x)
  {
  }

  lemma {:induction false} FieldsPrefix(v: Json, w: Json, i: nat, x: string, y: string)
    requires v.Object? && w.Object? && Printable(v) && Printable(w) && Ends(x) && Ends(y)
    requires i <= |KeysOf(v)| && i <= |KeysOf(w)|
    requires PrintFields(v, i) + x == PrintFields(w, i) + y
    ensures KeysOf(v)[i..] == KeysOf(w)[i..] && x == y
    ensures forall j | i <= j < |KeysOf(v)| :: v.fields[KeysOf(v)[j]] == w.fields[KeysOf(v)[j]]
    decreases v, |KeysOf(v)| - i
  {
    hide Printable, Ends, Print, Quote, KeysOf, PrintFields, Comma;
    var ks, ls := KeysOf(v), KeysOf(w);
    FieldsHead(v, i, x);
    FieldsHead(w, i, y);
    if i == |ks| || i == |ls| {
      FieldsClose(v, i);
      FieldsClose(w, i);
      SamePrefixRest("}", x, y);
    } else {
      FieldsStep(v, i, x);
      FieldsStep(w, i, y);
      var a, b := PrintFields(v, i + 1) + x, PrintFields(w, i + 1) + y;
      var c, d := Print(v.fields[ks[i]]) + a, Print(w.fields[ls[i]]) + b;
      SamePrefixRest(Comma(i), Quote(ks[i]) + (":" + c), Quote(ls[i]) + (":" + d));
      QuotePrefix(ks[i], ls[i], ":" + c, ":" + d);
      SamePrefixRest(":", c, d);
      FieldsEnd(v, i + 1, x);
      FieldsEnd(w, i + 1, y);
      PrintPrefix(v.fields[ks[i]], w.fields[ls[i]], a, b);
      FieldsPrefix(v, w, i + 1, x, y);
      assert ks[i..] == [ks[i]] + ks[i + 1..] && ls[i..] == [ls[i]] + ls[i + 1..];
    }
  }

  lemma FieldPrintable(v: Json, k: string)
    requires v.Object? && Printable(v) && k in v.fields
    ensures Printable(v.fields[k])
  {
  }

  lemma FieldsHead(v: Json, i: nat, x: string)
    requires v.Object? && Printable(v) && i <= |KeysOf(v)|
    ensures PrintFields(v, i) != "" && ((PrintFields(v, i) + x)[0] == '}' <==> i == |KeysOf(v)|)
  {
    hide KeysOf, EscapedAll, Print;
  }

  lemma FieldsEnd(v: Json, i: nat, x: string)
    requires v.Object? && Printable(v) && 0 < i <= |KeysOf(v)|
    ensures Ends(PrintFields(v, i) + x)
  {
    hide KeysOf, EscapedAll, Print;
  }

  /** Objects with the same sorted keys and the same field under each are the same. */
  lemma SameFields(v: Json, w: Json)
    requires v.Object? && w.Object? && KeysOf(v)[0..] == KeysOf(w)[0..]
    requires forall j | 0 <= j < |KeysOf(v)| :: v.fields[KeysOf(v)[j]] == w.fields[KeysOf(v)[j]]
    ensures v == w
  {
    hide KeysOf;
    assert KeysOf(v) == KeysOf(w);
    forall k | k in v.fields ensures v.fields[k] == w.fields[k] {
      assert k in Elements(KeysOf(v));
    }
    assert v.fields == w.fields;
  }

  lemma PrintInjective(v: Json, w: Json)
    requires Printable(v) && Printable(w)
    ensures Print(v) == Print(w) <==> v == w
  {
    hide Print, Printable;
    if Print(v) == Print(w) {
      PrintPrefix(v, w, "", "");
    }
  }
}

/** The table of JavaScript values a Go program holds references to: reference counting, a pool of free
    ids, and references boxed in the bits of NaNs, in the program's linear memory. */
module RefTable {
  import opened Ordering

  type Byte = b: int | 0 <= b < 0x100
  type Word = w: int | 0 <= w < 0x1_0000_0000

  // ---------- Linear memory ----------

  function GetUint32(m: seq<Byte>, addr: nat): Word
    requires addr + 4 <= |m|
  {
    m[addr] as int + 0x100 * m[addr + 1] as int + 0x1_0000 * m[addr + 2] as int + 0x100_0000 * m[addr + 3] as int
  }

  function GetInt32(m: seq<Byte>, addr: nat): int
    requires addr + 4 <= |m|
  {
    var w := GetUint32(m, addr);
    if w < 0x8000_0000 then w else w - 0x1_0000_0000
  }

  /** A word lies in memory least significant byte first. */
  lemma WordInMemory(m: seq<Byte>, addr: nat)
    requires addr + 4 <= |m|
    ensures var w: int := GetUint32(m, addr);
            m[addr] == w % 0x100 && m[addr + 1] == w / 0x100 % 0x100 &&
            m[addr + 2] == w / 0x1_0000 % 0x100 && m[addr + 3] == w / 0x100_0000
  {
    FourBytes(m[addr], m[addr + 1], m[addr + 2], m[addr + 3]);
  }

  lemma FourBytes(a: Byte, b: Byte, c: Byte, d: Byte)
    ensures var w: int := a as int + 0x100 * b as int + 0x1_0000 * c as int + 0x100_0000 * d as int;
            w % 0x100 == a && w / 0x100 % 0x100 == b && w / 0x1_0000 % 0x100 == c && w / 0x100_0000 == d
  {
    var w: int := a as int + 0x100 * b as int + 0x1_0000 * c as int + 0x100_0000 * d as int;
    assert w / 0x100 == b as int + 0x100 * c as int + 0x1_0000 * d as int;
    assert w / 0x1_0000 == c as int + 0x100 * d as int;
  }

  /** `m` after a write that touches only `n` bytes from `addr`. */
  ghost predicate SameBut(m: seq<Byte>, before: seq<Byte>, addr: nat, n: nat) {
    |m| == |before| && forall i | 0 <= i < |m| && !(addr <= i < addr + n) :: m[i] == before[i]
  }

  method SetUint32(mem: array<Byte>, addr: nat, w: Word)
    requires addr + 4 <= mem.Length
    modifies mem
    ensures GetUint32(mem[..], addr) == w
    ensures SameBut(mem[..], old(mem[..]), addr, 4)
  {
    mem[addr] := w % 0x100;
    mem[addr + 1] := w / 0x100 % 0x100;
    mem[addr + 2] := w / 0x1_0000 % 0x100;
    mem[addr + 3] := w / 0x100_0000;
    WordBytes(w);
  }

  lemma WordBytes(w: Word)
    ensures w == w % 0x100 + 0x100 * (w / 0x100 % 0x100) + 0x1_0000 * (w / 0x1_0000 % 0x100)
                 + 0x100_0000 * (w / 0x100_0000)
  {
    var x, y := w / 0x100, w / 0x1_0000;
    assert w == w % 0x100 + 0x100 * x;
    assert x == x % 0x100 + 0x100 * y;
    assert y == y % 0x100 + 0x100 * (w / 0x100_0000);
  }

  const TWO_32 := 0x1_0000_0000

  /** Rounding towards zero, as the host does when it stores a number in a word. */
  function Trunc(v: real): int {
    if v >= 0.0 then v.Floor else -(-v).Floor
  }

  /** `setInt64`. The host's numbers are doubles, which are reals, and dividing one by 2^32 is exact. */
  method SetInt64(mem: array<Byte>, addr: nat, v: real)
    requires addr + 8 <= mem.Length
    modifies mem
    ensures GetUint32(mem[..], addr) == Trunc(v) % TWO_32
    ensures GetUint32(mem[..], addr + 4) == (v / 4294967296.0).Floor % TWO_32
    ensures SameBut(mem[..], old(mem[..]), addr, 8)
  {
    SetUint32(mem, addr, Trunc(v) % TWO_32);
    SetUint32(mem, addr + 4, (v / 4294967296.0).Floor % TWO_32);
  }

  function GetInt64(m: seq<Byte>, addr: nat): int
    requires addr + 8 <= |m|
  {
    GetUint32(m, addr) + GetInt32(m, addr + 4) * TWO_32
  }

  lemma FloorOfQuotient(v: real)
    ensures (v / 4294967296.0).Floor == v.Floor / TWO_32
  {
    var n := v.Floor;
    var m := n / TWO_32;
    assert m * TWO_32 <= n <= m * TWO_32 + TWO_32 - 1;
    assert m as real <= v / 4294967296.0 < m as real + 1.0;
  }

  /** What `setInt64` leaves in memory reads back as the number rounded towards zero exactly when that has 64
      bits and the number is not just below a multiple of 2^32 from zero down: there the words disagree. */
  lemma Int64RoundTrip(m: seq<Byte>, addr: nat, v: real)
    requires addr + 8 <= |m|
    requires GetUint32(m, addr) == Trunc(v) % TWO_32
    requires GetUint32(m, addr + 4) == (v / 4294967296.0).Floor % TWO_32
    ensures GetInt64(m, addr) == Trunc(v) <==>
            -0x8000_0000_0000_0000 <= Trunc(v) < 0x8000_0000_0000_0000 &&
            (v >= 0.0 || v == Trunc(v) as real || Trunc(v) % TWO_32 != 0)
  {
    FloorOfQuotient(v);
    WordsRoundTrip(m, addr, Trunc(v), v.Floor / TWO_32);
    assert v.Floor == Trunc(v) || v.Floor == Trunc(v) - 1;
    assert v >= 0.0 || v == Trunc(v) as real <==> v.Floor == Trunc(v);
  }

  /** Half below zero reads back as -2^32: its words are those of zero and of minus one. */
  lemma NegativeFractionMisread(m: seq<Byte>, addr: nat)
    requires addr + 8 <= |m|
    requires GetUint32(m, addr) == Trunc(-0.5) % TWO_32
    requires GetUint32(m, addr + 4) == (-0.5 / 4294967296.0).Floor % TWO_32
    ensures Trunc(-0.5) == 0 && GetInt64(m, addr) == -TWO_32
  {
    FloorOfQuotient(-0.5);
    assert (-0.5 as real).Floor == -1;
  }

  lemma WordsRoundTrip(m: seq<Byte>, addr: nat, t: int, q: int)
    requires addr + 8 <= |m|
    requires GetUint32(m, addr) == t % TWO_32 && GetUint32(m, addr + 4) == q % TWO_32
    requires q == t / TWO_32 || q == (t - 1) / TWO_32
    ensures GetInt64(m, addr) == t <==> q == t / TWO_32 && -0x8000_0000_0000_0000 <= t < 0x8000_0000_0000_0000
  {
    hide GetUint32;
    assert t == t / TWO_32 * TWO_32 + t % TWO_32;
  }

  // ---------- Values ----------

  /** A double, as its two words (section 3.4 of IEEE 754-2019, binary64). */
  datatype Double = Double(hi: Word, lo: Word)

  const SIGN := 0x8000_0000
  const EXPONENT := 0x7FF0_0000
  const NAN_HEAD: Word := 0x7FF8_0000

  /** All exponent bits set and a significand that is not zero (section 6.2.1). */
  predicate IsNaN(d: Double) {
    d.hi % SIGN > EXPONENT || (d.hi % SIGN == EXPONENT && d.lo > 0)
  }

  predicate IsZero(d: Double) {
    d.hi % SIGN == 0 && d.lo == 0
  }

  const POSITIVE_ZERO := Double(0, 0)

  /** A NaN has the biased exponent 2047, of eleven bits, and a trailing significand, of 20 and 32, that is not
      zero. There are two zeros. */
  lemma SpecialDoubles(d: Double)
    ensures IsNaN(d) <==> d.hi / 0x10_0000 % 2048 == 2047 && (d.hi % 0x10_0000 != 0 || d.lo != 0)
    ensures IsZero(d) <==> d == Double(0, 0) || d == Double(0x8000_0000, 0)
  {
  }

  type Numeric = d: Double | !IsNaN(d) witness POSITIVE_ZERO

  /** A JavaScript value. The language has one NaN, so `Number` is never one. */
  datatype Value =
    | Undefined | Null | NotANumber | Number(d: Numeric) | Bool(b: bool) | BigInt(i: int)
    | Str(s: string) | Symbol(n: nat) | Object(n: nat) | Function(n: nat)

  const GLOBAL := Object(0)
  const GO := Object(1)

  /** Values that are stored as a reference. Zero is one of them: its bits would read as undefined. */
  predicate Boxed(v: Value) {
    !v.Undefined? && !v.NotANumber? && !(v.Number? && !IsZero(v.d))
  }

  /** A `Map` does not tell the two zeros apart. */
  function KeyOf(v: Value): Value {
    if v.Number? && IsZero(v.d) then Number(POSITIVE_ZERO) else v
  }

  type Flag = f: int | 0 <= f <= 4

  function TypeFlag(v: Value): Flag {
    match v
    case Object(_) => 1
    case Str(_) => 2
    case Symbol(_) => 3
    case Function(_) => 4
    case _ => 0
  }

  // ---------- The table as a value ----------

  datatype Count = Finite(n: int) | Infinity

  datatype Table = Table(values: seq<Value>, counts: seq<Count>, ids: map<Value, nat>, pool: seq<nat>)

  const RESERVED := 7

  const FIRST_VALUES := [NotANumber, Number(POSITIVE_ZERO), Null, Bool(true), Bool(false), GLOBAL, GO]

  const FIRST_IDS := map[Number(POSITIVE_ZERO) := 1, Null := 2, Bool(true) := 3, Bool(false) := 4, GLOBAL := 5, GO := 6]

  const INITIAL :=
    Table(FIRST_VALUES, [Infinity, Infinity, Infinity, Infinity, Infinity, Infinity, Infinity], FIRST_IDS, [])

  /** Go holds a reference to `id`. */
  predicate Live(t: Table, id: nat) {
    id < |t.counts| && (t.counts[id] == Infinity || t.counts[id].n > 0)
  }

  function Plus(c: Count, k: int): Count {
    if c == Infinity then Infinity else Finite(c.n + k)
  }

  /** The id `v` is stored under: its own, else the last one freed, else a new one. */
  function IdFor(t: Table, v: Value): nat {
    if KeyOf(v) in t.ids then t.ids[KeyOf(v)]
    else if t.pool != [] then t.pool[|t.pool| - 1]
    else |t.values|
  }

  function Stored(t: Table, v: Value): Table
    requires Sized(t)
  {
    var id := IdFor(t, v);
    if !Boxed(v) then t
    else if KeyOf(v) in t.ids then t.(counts := t.counts[id := Plus(t.counts[id], 1)])
    else if t.pool != [] then
      Table(t.values[id := v], t.counts[id := Finite(1)], t.ids[KeyOf(v) := id], t.pool[..|t.pool| - 1])
    else
      Table(t.values + [v], t.counts + [Finite(1)], t.ids[KeyOf(v) := id], t.pool)
  }

  function Finalized(t: Table, id: nat): Table
    requires Sized(t) && id < |t.values|
  {
    var counts := t.counts[id := Plus(t.counts[id], -1)];
    if counts[id] == Finite(0) then
      Table(t.values[id := Null], counts, t.ids - {KeyOf(t.values[id])}, t.pool + [id])
    else t.(counts := counts)
  }

  /** Every id in use is an index. */
  ghost predicate Sized(t: Table) {
    && |t.counts| == |t.values|
    && (forall v | v in t.ids :: t.ids[v] < |t.values|)
    && (forall i | 0 <= i < |t.pool| :: t.pool[i] < |t.values|)
  }

  /** Reserved ids hold their values for ever and are never counted. */
  ghost predicate ReservedKept(t: Table)
    requires Sized(t)
  {
    && RESERVED <= |t.values|
    && (forall id | 0 <= id < RESERVED :: t.values[id] == FIRST_VALUES[id] && t.counts[id] == Infinity)
    && (forall id | RESERVED <= id < |t.counts| :: t.counts[id].Finite? && t.counts[id].n >= 0)
  }

  /** Every key leads to a live id that holds it. */
  ghost predicate IdsSound(t: Table)
    requires Sized(t)
  {
    forall v | v in t.ids :: 1 <= t.ids[v] && Live(t, t.ids[v]) && t.values[t.ids[v]] == v && Boxed(v) && KeyOf(v) == v
  }

  /** Every live id, except that of NaN, is led to by what it holds. */
  ghost predicate IdsComplete(t: Table)
    requires Sized(t)
  {
    forall id | 1 <= id < |t.values| && Live(t, id) :: t.values[id] in t.ids && t.ids[t.values[id]] == id
  }

  /** The pool lists the ids that are not live, each once. */
  ghost predicate PoolExact(t: Table)
    requires Sized(t)
  {
    && NoDuplicates(t.pool)
    && (forall id | 0 <= id < |t.values| :: id in t.pool <==> !Live(t, id))
  }

  ghost predicate Inv(t: Table) {
    Sized(t) && ReservedKept(t) && IdsSound(t) && IdsComplete(t) && PoolExact(t)
  }

  lemma InitialInv()
    ensures Inv(INITIAL)
  {
    hide Inv;
    InitialIds();
    InitialPool();
    assert Inv(INITIAL) by {
      InvOf(INITIAL);
    }
  }

  lemma InvOf(t: Table)
    requires Sized(t) && ReservedKept(t) && IdsSound(t) && IdsComplete(t) && PoolExact(t)
    ensures Inv(t)
  {
  }

  lemma InitialIds()
    ensures Sized(INITIAL) && ReservedKept(INITIAL) && IdsSound(INITIAL)
  {
    hide ReservedKept, IdsSound;
    InitialReserved();
    InitialSound();
  }

  lemma InitialReserved()
    ensures Sized(INITIAL) && ReservedKept(INITIAL)
  {
  }

  lemma InitialSound()
    ensures Sized(INITIAL) && IdsSound(INITIAL)
  {
  }

  lemma InitialPool()
    ensures Sized(INITIAL) && IdsComplete(INITIAL) && PoolExact(INITIAL)
  {
  }

  /** A value without an id is its own key: zero always has its reserved id. */
  lemma NewKey(t: Table, v: Value)
    requires Inv(t) && Boxed(v) && KeyOf(v) !in t.ids
    ensures KeyOf(v) == v
  {
    assert Live(t, 1) && t.values[1] == Number(POSITIVE_ZERO);
  }

  /** `u` is `t` but for what is held and counted at `id`. */
  ghost predicate SameElsewhere(t: Table, u: Table, id: nat) {
    && |u.values| == |u.counts| && |t.values| <= |u.values| <= |t.values| + 1 && |t.counts| == |t.values|
    && id < |u.values| && (|t.values| < |u.values| ==> id == |t.values|)
    && (forall i | 0 <= i < |t.values| && i != id :: u.values[i] == t.values[i] && u.counts[i] == t.counts[i])
  }

  /** Counting a live id up or down, as long as it stays live. */
  lemma RecountInv(t: Table, u: Table, id: nat)
    requires Inv(t) && SameElsewhere(t, u, id) && Live(t, id) && Live(u, id)
    requires |u.values| == |t.values| && u.values[id] == t.values[id] && u.ids == t.ids && u.pool == t.pool
    requires t.counts[id] == Infinity <==> u.counts[id] == Infinity
    ensures Inv(u)
  {
    hide Boxed, KeyOf;
  }

  /** Giving an id that is not live, or the next new one, to a value that has none. */
  lemma ClaimInv(t: Table, u: Table, id: nat, v: Value)
    requires Inv(t) && SameElsewhere(t, u, id) && !Live(t, id) && RESERVED <= id
    requires Boxed(v) && KeyOf(v) == v && v !in t.ids
    requires u.values[id] == v && u.counts[id] == Finite(1) && u.ids == t.ids[v := id]
    requires if |u.values| == |t.values| then t.pool == u.pool + [id] else t.pool == u.pool
    ensures Inv(u)
  {
    hide Inv;
    ClaimIds(t, u, id, v);
    ClaimPool(t, u, id);
    InvOf(u);
  }

  lemma ClaimIds(t: Table, u: Table, id: nat, v: Value)
    requires Inv(t) && SameElsewhere(t, u, id) && !Live(t, id) && RESERVED <= id
    requires Boxed(v) && KeyOf(v) == v && v !in t.ids
    requires u.values[id] == v && u.counts[id] == Finite(1) && u.ids == t.ids[v := id]
    requires if |u.values| == |t.values| then t.pool == u.pool + [id] else t.pool == u.pool
    ensures Sized(u) && ReservedKept(u) && IdsSound(u) && IdsComplete(u)
  {
    hide Boxed, KeyOf, PoolExact, IdsSound, IdsComplete;
    assert forall i | 0 <= i < |u.pool| :: u.pool[i] == t.pool[i];
    ClaimSound(t, u, id, v);
    ClaimComplete(t, u, id, v);
  }

  lemma ClaimSound(t: Table, u: Table, id: nat, v: Value)
    requires Inv(t) && SameElsewhere(t, u, id) && !Live(t, id) && RESERVED <= id && Sized(u)
    requires Boxed(v) && KeyOf(v) == v
    requires u.values[id] == v && u.counts[id] == Finite(1) && u.ids == t.ids[v := id]
    ensures IdsSound(u)
  {
    hide Boxed, KeyOf, PoolExact, ReservedKept, IdsComplete;
    assert forall w | w in t.ids :: t.ids[w] != id;
  }

  lemma ClaimComplete(t: Table, u: Table, id: nat, v: Value)
    requires Inv(t) && SameElsewhere(t, u, id) && Sized(u) && v !in t.ids
    requires u.values[id] == v && u.ids == t.ids[v := id]
    ensures IdsComplete(u)
  {
    hide Boxed, KeyOf, PoolExact, ReservedKept, IdsSound;
  }

  lemma ClaimPool(t: Table, u: Table, id: nat)
    requires Inv(t) && SameElsewhere(t, u, id) && !Live(t, id) && Live(u, id) && Sized(u)
    requires if |u.values| == |t.values| then t.pool == u.pool + [id] else t.pool == u.pool
    ensures PoolExact(u)
  {
    hide IdsSound, IdsComplete, ReservedKept;
    assert forall i | 0 <= i < |u.pool| :: u.pool[i] == t.pool[i];
    assert |u.values| == |t.values| ==> t.pool[|u.pool|] == id;
    assert forall i | i in u.pool :: i in t.pool && i != id;
    assert forall i | i in t.pool && i != id :: i in u.pool;
    assert forall i | 0 <= i < |t.values| && i != id :: Live(u, i) == Live(t, i);
  }

  /** Freeing a live id. */
  lemma ReleaseInv(t: Table, u: Table, id: nat)
    requires Inv(t) && SameElsewhere(t, u, id) && Live(t, id) && RESERVED <= id
    requires |u.values| == |t.values| && u.counts[id] == Finite(0)
    requires u.ids == t.ids - {t.values[id]} && u.pool == t.pool + [id]
    ensures Inv(u)
  {
    hide Inv;
    ReleaseIds(t, u, id);
    ReleasePool(t, u, id);
    InvOf(u);
  }

  lemma ReleaseIds(t: Table, u: Table, id: nat)
    requires Inv(t) && SameElsewhere(t, u, id) && Live(t, id) && RESERVED <= id
    requires |u.values| == |t.values| && u.counts[id] == Finite(0)
    requires u.ids == t.ids - {t.values[id]} && u.pool == t.pool + [id]
    ensures Sized(u) && ReservedKept(u) && IdsSound(u) && IdsComplete(u)
  {
    hide Boxed, KeyOf, PoolExact;
    assert forall w | w in u.ids :: u.ids[w] == t.ids[w] && t.ids[w] != id;
  }

  lemma ReleasePool(t: Table, u: Table, id: nat)
    requires Inv(t) && SameElsewhere(t, u, id) && Live(t, id) && !Live(u, id) && Sized(u)
    requires |u.values| == |t.values| && u.pool == t.pool + [id]
    ensures PoolExact(u)
  {
    hide IdsSound, IdsComplete, ReservedKept;
    assert id !in t.pool;
    assert forall i :: i in u.pool <==> i in t.pool || i == id;
  }

  lemma StoredInv(t: Table, v: Value)
    requires Inv(t)
    ensures Inv(Stored(t, v))
    ensures Boxed(v) ==> Live(Stored(t, v), IdFor(t, v)) && Stored(t, v).values[IdFor(t, v)] == KeyOf(v)
  {
    hide Boxed, KeyOf, IdsComplete;
    if Boxed(v) {
      var id, u := IdFor(t, v), Stored(t, v);
      if KeyOf(v) in t.ids {
        RecountInv(t, u, id);
      } else {
        NewKey(t, v);
        assert t.pool != [] ==> id in t.pool;
        ClaimInv(t, u, id, v);
      }
    }
  }

  lemma FinalizedInv(t: Table, id: nat)
    requires Inv(t) && Live(t, id)
    ensures Inv(Finalized(t, id))
  {
    hide Boxed, KeyOf, PoolExact;
    var u := Finalized(t, id);
    if t.counts[id] == Finite(1) {
      assert KeyOf(t.values[id]) == t.values[id];
      ReleaseInv(t, u, id);
    } else {
      RecountInv(t, u, id);
    }
  }

  /** Finalizing keeps the invariant exactly when Go holds the reference; otherwise a count falls below zero. */
  lemma FinalizedInvExactly(t: Table, id: nat)
    requires Inv(t) && id < |t.values|
    ensures Inv(Finalized(t, id)) <==> Live(t, id)
  {
    hide IdsSound, IdsComplete, KeyOf;
    if Live(t, id) {
      FinalizedInv(t, id);
    } else {
      assert id >= RESERVED && Finalized(t, id).counts[id] == Finite(-1);
    }
  }

  /** Finalizing the last reference frees its id: null stands there, its value has no id any more, and the next
      value that needs an id gets this one. */
  lemma LastFinalizeFrees(t: Table, id: nat, v: Value)
    requires Inv(t) && RESERVED <= id < |t.values| && t.counts[id] == Finite(1)
    ensures var u := Finalized(t, id);
            && !Live(u, id) && u.values[id] == Null && t.values[id] !in u.ids
            && (Boxed(v) && KeyOf(v) !in u.ids ==>
                  IdFor(u, v) == id && Stored(u, v).values == t.values[id := v] && Stored(u, v).pool == t.pool)
  {
    hide PoolExact, Boxed;
    assert KeyOf(t.values[id]) == t.values[id];
    var u := Finalized(t, id);
    assert u.pool[..|u.pool| - 1] == t.pool;
  }

  /** With no id free, a value that needs one gets the next new one. */
  lemma NewIdsAppend(t: Table, v: Value)
    requires Inv(t) && t.pool == [] && Boxed(v) && KeyOf(v) !in t.ids
    ensures IdFor(t, v) == |t.values| && Stored(t, v).values == t.values + [v]
  {
  }

  // ---------- References ----------

  /** The bits `storeValue` writes for `v`, stored under `id` when it is boxed. */
  function Encode(v: Value, id: Word): Double {
    if v.Number? && !IsZero(v.d) then v.d
    else if v.NotANumber? then Double(NAN_HEAD, 0)
    else if v.Undefined? then POSITIVE_ZERO
    else Double(NAN_HEAD + TypeFlag(v), id)
  }

  /** What Go reads off a reference: the id in the low word, and in the high word which kind of value it is. */
  lemma ReferenceKinds(v: Value, id: Word)
    ensures v.NotANumber? ==> Encode(v, id) == Double(0x7FF8_0000, 0)
    ensures v.Undefined? ==> Encode(v, id) == Double(0, 0)
    ensures v.Number? && !IsZero(v.d) ==> Encode(v, id) == v.d
    ensures var kind := if v.Object? then 1 else if v.Str? then 2 else if v.Symbol? then 3 else if v.Function? then 4 else 0;
            Boxed(v) ==> Encode(v, id) == Double(0x7FF8_0000 + kind, id)
  {
  }

  /** The eight bytes of a stored reference. */
  lemma ReferenceBytes(m: seq<Byte>, addr: nat, v: Value, id: Word)
    requires addr + 8 <= |m| && Boxed(v) && GetFloat64(m, addr) == Encode(v, id)
    ensures m[addr..addr + 8] ==
            [id % 0x100, id / 0x100 % 0x100, id / 0x1_0000 % 0x100, id / 0x100_0000,
             if v.Object? then 1 else if v.Str? then 2 else if v.Symbol? then 3 else if v.Function? then 4 else 0,
             0, 0xF8, 0x7F]
  {
    hide GetUint32;
    ReferenceKinds(v, id);
    WordInMemory(m, addr);
    WordInMemory(m, addr + 4);
  }

  /** The value `loadValue` makes of the bits. */
  function Decode(t: Table, d: Double): Value {
    if IsZero(d) then Undefined
    else if !IsNaN(d) then Number(d)
    else if d.lo < |t.values| then t.values[d.lo]
    else Undefined
  }

  /** Every boxed pattern is a NaN, and its low word is the id. */
  lemma DecodeEncode(t: Table, v: Value, id: Word)
    requires Inv(t)
    requires Boxed(v) ==> id < |t.values| && t.values[id] == KeyOf(v)
    ensures Decode(t, Encode(v, id)) == KeyOf(v)
  {
  }

  // ---------- Runs ----------

  datatype Op = Store(v: Value) | Finalize(id: nat)

  /** An array holds fewer than 2^32 elements; Go finalizes only ids it holds. */
  predicate CanStep(t: Table, op: Op) {
    match op
    case Store(_) => |t.values| < 0xFFFF_FFFF
    case Finalize(id) => Live(t, id)
  }

  function Step(t: Table, op: Op): Table
    requires Sized(t) && CanStep(t, op)
  {
    match op
    case Store(v) => Stored(t, v)
    case Finalize(id) => Finalized(t, id)
  }

  ghost predicate CanRun(t: Table, ops: seq<Op>)
    requires Inv(t)
    decreases |ops|
  {
    ops == [] || (CanStep(t, ops[0]) && (StepInv(t, ops[0]); CanRun(Step(t, ops[0]), ops[1..])))
  }

  ghost function Run(t: Table, ops: seq<Op>): (u: Table)
    requires Inv(t) && CanRun(t, ops)
    ensures Inv(u)
    decreases |ops|
  {
    if ops == [] then t else StepInv(t, ops[0]); Run(Step(t, ops[0]), ops[1..])
  }

  lemma StepInv(t: Table, op: Op)
    requires Inv(t) && CanStep(t, op)
    ensures Inv(Step(t, op))
  {
    hide Inv, Stored, Finalized;
    match op {
      case Store(v) => StoredInv(t, v);
      case Finalize(id) => FinalizedInv(t, id);
    }
  }

  /** How often `op` stores (1) or finalizes (-1) a reference to `id`. */
  function Delta(t: Table, op: Op, id: nat): int {
    match op
    case Store(v) => if Boxed(v) && IdFor(t, v) == id then 1 else 0
    case Finalize(i) => if i == id then -1 else 0
  }

  /** Stores minus finalizes of `id` over a run. */
  ghost function Balance(t: Table, ops: seq<Op>, id: nat): int
    requires Inv(t) && CanRun(t, ops)
    decreases |ops|
  {
    if ops == [] then 0
    else StepInv(t, ops[0]); Delta(t, ops[0], id) + Balance(Step(t, ops[0]), ops[1..], id)
  }

  function CountOf(t: Table, id: nat): int {
    if id < |t.counts| && t.counts[id].Finite? then t.counts[id].n else 0
  }

  lemma StepCounts(t: Table, op: Op, id: nat)
    requires Inv(t) && CanStep(t, op) && RESERVED <= id
    ensures CountOf(Step(t, op), id) == CountOf(t, id) + Delta(t, op, id)
  {
    hide Boxed, KeyOf, IdsComplete;
    match op {
      case Store(v) =>
        assert t.pool != [] ==> t.pool[|t.pool| - 1] in t.pool;
      case Finalize(_) =>
    }
  }

  /** Over every run, a count has gone up by stores minus finalizes. */
  lemma {:induction false} CountsAreStoresMinusFinalizes(t: Table, ops: seq<Op>, id: nat)
    requires Inv(t) && CanRun(t, ops) && RESERVED <= id
    ensures CountOf(Run(t, ops), id) == CountOf(t, id) + Balance(t, ops, id)
    decreases |ops|
  {
    hide ReservedKept, IdsSound, IdsComplete, PoolExact, Step, Delta, CountOf;
    if ops != [] {
      StepInv(t, ops[0]);
      StepCounts(t, ops[0], id);
      CountsAreStoresMinusFinalizes(Step(t, ops[0]), ops[1..], id);
    }
  }

  /** An id that stays live keeps its value: it is never handed to another. */
  lemma StepKeeps(t: Table, op: Op, id: nat)
    requires Inv(t) && CanStep(t, op) && Live(t, id)
    ensures |t.values| <= |Step(t, op).values|
    ensures Live(Step(t, op), id) ==> Step(t, op).values[id] == t.values[id]
  {
    hide Boxed, KeyOf, IdsComplete;
    match op {
      case Store(v) =>
        assert t.pool != [] ==> t.pool[|t.pool| - 1] in t.pool;
      case Finalize(_) =>
    }
  }

  /** Go holds `id` throughout the run. */
  ghost predicate LiveThroughout(t: Table, ops: seq<Op>, id: nat)
    requires Inv(t) && CanRun(t, ops)
    decreases |ops|
  {
    Live(t, id) && (ops != [] ==> (StepInv(t, ops[0]); LiveThroughout(Step(t, ops[0]), ops[1..], id)))
  }

  lemma {:induction false} RunKeeps(t: Table, ops: seq<Op>, id: nat)
    requires Inv(t) && CanRun(t, ops) && LiveThroughout(t, ops, id)
    ensures Live(Run(t, ops), id) && id < |t.values| <= |Run(t, ops).values|
    ensures Run(t, ops).values[id] == t.values[id]
    decreases |ops|
  {
    hide ReservedKept, IdsSound, IdsComplete, PoolExact, Step;
    if ops != [] {
      StepInv(t, ops[0]);
      StepKeeps(t, ops[0], id);
      RunKeeps(Step(t, ops[0]), ops[1..], id);
    }
  }

  lemma LiveIsCounted(t: Table, id: nat)
    requires Inv(t) && RESERVED <= id
    ensures Live(t, id) <==> CountOf(t, id) > 0
  {
  }

  /** Go holds `id` throughout a run exactly when no prefix of it finalizes `id` as often as it was
      counted at the start and stored since. */
  lemma {:induction false} HeldExactly(t: Table, ops: seq<Op>, id: nat)
    requires Inv(t) && CanRun(t, ops) && RESERVED <= id
    ensures LiveThroughout(t, ops, id) <==>
              forall n | 0 <= n <= |ops| :: CanRun(t, ops[..n]) && CountOf(t, id) + Balance(t, ops[..n], id) > 0
    decreases |ops|
  {
    hide ReservedKept, IdsSound, IdsComplete, PoolExact, Step, Delta, CountOf, Live, CanStep;
    LiveIsCounted(t, id);
    assert ops[..0] == [];
    if ops != [] {
      var next, rest := Step(t, ops[0]), ops[1..];
      StepInv(t, ops[0]);
      StepCounts(t, ops[0], id);
      HeldExactly(next, rest, id);
      forall n | 0 <= n <= |rest|
        ensures CanRun(next, rest[..n]) && CanRun(t, ops[..n + 1])
        ensures Balance(t, ops[..n + 1], id) == Delta(t, ops[0], id) + Balance(next, rest[..n], id)
      {
        CanRunPrefix(next, rest, n);
        CanRunPrefix(t, ops, n + 1);
        assert ops[..n + 1][1..] == rest[..n] && ops[..n + 1][0] == ops[0];
      }
      if LiveThroughout(t, ops, id) {
        forall n | 0 <= n <= |ops| ensures CanRun(t, ops[..n]) && CountOf(t, id) + Balance(t, ops[..n], id) > 0 {
          if n > 0 {
            var k := n - 1;
            assert CountOf(next, id) + Balance(next, rest[..k], id) > 0;
            assert ops[..k + 1] == ops[..n];
          }
        }
      } else if Live(t, id) {
        var k :| 0 <= k <= |rest| && !(CanRun(next, rest[..k]) && CountOf(next, id) + Balance(next, rest[..k], id) > 0);
        assert CountOf(t, id) + Balance(t, ops[..k + 1], id) <= 0;
      }
    }
  }

  lemma {:induction false} CanRunPrefix(t: Table, ops: seq<Op>, n: nat)
    requires Inv(t) && CanRun(t, ops) && n <= |ops|
    ensures CanRun(t, ops[..n])
    decreases |ops|
  {
    hide ReservedKept, IdsSound, IdsComplete, PoolExact, Step;
    if n > 0 {
      StepInv(t, ops[0]);
      CanRunPrefix(Step(t, ops[0]), ops[1..], n - 1);
      assert ops[..n][1..] == ops[1..][..n - 1];
    }
  }

  /** What was stored loads again, up to the sign of zero, after any run that holds the reference. */
  lemma StoreRunLoad(t: Table, v: Value, ops: seq<Op>)
    requires Inv(t) && CanStep(t, Store(v))
    requires Inv(Stored(t, v)) && CanRun(Stored(t, v), ops)
    requires Boxed(v) ==> LiveThroughout(Stored(t, v), ops, IdFor(t, v))
    ensures IdFor(t, v) < 0xFFFF_FFFF
    ensures Decode(Run(Stored(t, v), ops), Encode(v, IdFor(t, v))) == KeyOf(v)
  {
    hide Encode, Decode, KeyOf, Boxed;
    StoredInv(t, v);
    if Boxed(v) {
      RunKeeps(Stored(t, v), ops, IdFor(t, v));
    }
    DecodeEncode(Run(Stored(t, v), ops), v, IdFor(t, v));
  }

  /** Two live ids never hold the same value. */
  lemma LiveIdsDistinct(t: Table, i: nat, j: nat)
    requires Inv(t) && Live(t, i) && Live(t, j) && i != j
    ensures t.values[i] != t.values[j]
  {
    assert i == 0 || j == 0 ==> t.values[0] == NotANumber;
  }

  /** In every reachable table the ids 0 to 6 are live and stand for NaN, zero, null, true, false, the global
      object and the Go object. */
  lemma ReservedForEver(ops: seq<Op>)
    requires Inv(INITIAL) && CanRun(INITIAL, ops)
    ensures var t := Run(INITIAL, ops);
            && (forall id | 0 <= id < 7 :: Live(t, id))
            && 7 <= |t.values|
            && t.values[..7] == [NotANumber, Number(Double(0, 0)), Null, Bool(true), Bool(false), Object(0), Object(1)]
  {
  }

  // ---------- The object ----------

  class Go {
    var values: seq<Value>
    var refCounts: seq<Count>
    var ids: map<Value, nat>
    var idPool: seq<nat>
    const mem: array<Byte>

    ghost function State(): Table
      reads this
    {
      Table(values, refCounts, ids, idPool)
    }

    /** The start of `run`. */
    constructor (mem: array<Byte>)
      ensures State() == INITIAL && this.mem == mem
    {
      this.mem := mem;
      values := FIRST_VALUES;
      refCounts := [Infinity, Infinity, Infinity, Infinity, Infinity, Infinity, Infinity];
      ids := FIRST_IDS;
      idPool := [];
    }

    /** `setFloat64`, little-endian. */
    method SetFloat64(addr: nat, d: Double)
      requires addr + 8 <= mem.Length
      modifies mem
      ensures GetFloat64(mem[..], addr) == d
      ensures SameBut(mem[..], old(mem[..]), addr, 8)
    {
      SetUint32(mem, addr + 4, d.hi);
      SetUint32(mem, addr, d.lo);
    }

    method StoreValue(addr: nat, v: Value)
      requires Inv(State()) && CanStep(State(), Store(v)) && addr + 8 <= mem.Length
      modifies this, mem
      ensures State() == Stored(old(State()), v) && Inv(State())
      ensures IdFor(old(State()), v) < 0xFFFF_FFFF
      ensures GetFloat64(mem[..], addr) == Encode(v, IdFor(old(State()), v))
      ensures SameBut(mem[..], old(mem[..]), addr, 8)
    {
      hide Inv, KeyOf, GetFloat64, SameBut, TypeFlag, IsZero, Live;
      ghost var t := State();
      StoredInv(t, v);
      IdFits(t, v);
      if v.Number? && !IsZero(v.d) {
        SetFloat64(addr, v.d);
        return;
      }
      if v.NotANumber? {
        SetFloat64(addr, Double(NAN_HEAD, 0));
        return;
      }
      if v.Undefined? {
        SetFloat64(addr, POSITIVE_ZERO);
        return;
      }
      assert Boxed(v) && !(v.Number? && !IsZero(v.d));
      hide Boxed;
      var key := KeyOf(v);
      var id: nat;
      if key in ids {
        id := ids[key];
      } else {
        if idPool != [] {
          id := idPool[|idPool| - 1];
          idPool := idPool[..|idPool| - 1];
        } else {
          id := |values|;
        }
        values := if id < |values| then values[id := v] else values + [v];
        refCounts := if id < |refCounts| then refCounts[id := Finite(0)] else refCounts + [Finite(0)];
        ids := ids[key := id];
      }
      refCounts := refCounts[id := Plus(refCounts[id], 1)];
      assert State() == Stored(t, v);
      SetFloat64(addr, Double(NAN_HEAD + TypeFlag(v), id));
    }

    method LoadValue(addr: nat) returns (v: Value)
      requires addr + 8 <= mem.Length
      ensures v == Decode(State(), GetFloat64(mem[..], addr))
    {
      var f := GetFloat64(mem[..], addr);
      if IsZero(f) {
        return Undefined;
      }
      if !IsNaN(f) {
        return Number(f);
      }
      var id := GetUint32(mem[..], addr);
      v := if id < |values| then values[id] else Undefined;
    }

    /** `finalizeRef`. Go calls it only with a reference it holds; any other id in the table is counted
        below zero, which the invariant excludes. */
    method FinalizeRef(sp: nat)
      requires sp + 12 <= mem.Length
      requires Inv(State()) && GetUint32(mem[..], sp + 8) < |values|
      modifies this
      ensures State() == Finalized(old(State()), GetUint32(mem[..], sp + 8))
      ensures Inv(State()) <==> old(Live(State(), GetUint32(mem[..], sp + 8)))
    {
      var id := GetUint32(mem[..], sp + 8);
      FinalizedInvExactly(State(), id);
      refCounts := refCounts[id := Plus(refCounts[id], -1)];
      if refCounts[id] == Finite(0) {
        var v := values[id];
        values := values[id := Null];
        ids := ids - {KeyOf(v)};
        idPool := idPool + [id];
      }
    }
  }

  function GetFloat64(m: seq<Byte>, addr: nat): Double
    requires addr + 8 <= |m|
  {
    Double(GetUint32(m, addr + 4), GetUint32(m, addr))
  }

  lemma IdFits(t: Table, v: Value)
    requires Inv(t) && CanStep(t, Store(v))
    ensures Sized(t) && IdFor(t, v) < 0xFFFF_FFFF
  {
  }
}

/**
 Bytes, little-endian fields and the wrap-around of C++ integer conversions.
 Machine integers are modelled as mathematical integers; every place where the
 program truncates says so with `% TWO_32`, `% TWO_64` or `Int32`.
 */
module Bytes {

  type byte = x: int | 0 <= x < 256

  const TWO_32: int := 0x1_0000_0000
  const TWO_64: int := 0x1_0000_0000_0000_0000

  /** 256 to the power `n`. */
  function Pow256(n: nat): (p: int)
    ensures p > 0
  {
    if n == 0 then 1 else 256 * Pow256(n - 1)
  }

  /** The `n` bytes a little-endian store of `v` leaves in memory. */
  function Store(v: int, n: nat): (s: seq<byte>)
    ensures |s| == n
  {
    seq(n, i requires 0 <= i < n => (v / Pow256(i)) % 256)
  }

  /** The unsigned value a little-endian load of `s` yields. */
  function Load(s: seq<byte>): (v: int)
    ensures 0 <= v < Pow256(|s|)
  {
    if s == [] then 0 else s[0] + 256 * Load(s[1..])
  }

  /** Conversion to `int32_t`. */
  function Int32(x: int): (r: int)
    ensures -0x8000_0000 <= r < 0x8000_0000
    ensures r % TWO_32 == x % TWO_32
    ensures r == x <==> -0x8000_0000 <= x < 0x8000_0000
  {
    var u := x % TWO_32;
    if u < 0x8000_0000 then u else u - TWO_32
  }

  /** What conversion to `int32_t` loses: nothing exactly if the value fits. */
  function Lost(x: int): (r: int)
    ensures r == 0 <==> -0x8000_0000 <= x < 0x8000_0000
  {
    x - Int32(x)
  }

  lemma Widths()
    ensures Pow256(4) == TWO_32 && Pow256(8) == TWO_64
  {
    assert Pow256(2) == 256 * Pow256(1);
    assert Pow256(4) == 256 * Pow256(3) == 256 * (256 * Pow256(2));
    assert Pow256(6) == 256 * Pow256(5) == 256 * (256 * Pow256(4));
    assert Pow256(8) == 256 * Pow256(7) == 256 * (256 * Pow256(6));
  }

  /** Division with remainder is unique. */
  lemma RemainderUnique(x: int, m: int, q: int, r: int)
    requires m > 0 && x == q * m + r && 0 <= r < m
    ensures x % m == r && x / m == q
  {
    var d := x / m - q;
    assert x == (x / m) * m + x % m;
    assert d * m == r - x % m;
    if d >= 1 {
      Multiple(d, m);
    } else if d <= -1 {
      Multiple(-d, m);
    }
  }

  lemma Multiple(d: int, m: int)
    requires d >= 1 && m > 0
    ensures d * m >= m
    ensures -d * m <= -m
  {
    assert d * m == (d - 1) * m + m;
  }

  /** `v` split into its low byte and the rest, seen modulo and divided by 256 times `p`. */
  lemma SplitByte(v: int, p: int)
    requires p > 0
    ensures v % (256 * p) == v % 256 + 256 * ((v / 256) % p)
    ensures v / (256 * p) == (v / 256) / p
  {
    var high := v / 256;
    assert 256 * ((high / p) * p) == (high / p) * (256 * p);
    RemainderUnique(v, 256 * p, high / p, v % 256 + 256 * (high % p));
  }

  lemma {:induction false} DivideTwice(v: int, n: nat, i: nat)
    ensures v / Pow256(n + i) == (v / Pow256(n)) / Pow256(i)
    decreases n
  {
    if n > 0 {
      SplitByte(v, Pow256(n - 1 + i));
      SplitByte(v, Pow256(n - 1));
      DivideTwice(v / 256, n - 1, i);
    }
  }

  lemma StoreTail(v: int, n: nat)
    requires n > 0
    ensures Store(v, n) == [v % 256] + Store(v / 256, n - 1)
  {
    forall i | 0 < i < n ensures Store(v, n)[i] == Store(v / 256, n - 1)[i - 1] {
      SplitByte(v, Pow256(i - 1));
    }
  }

  /** Loading what was stored gives the value back, reduced to the width of the field. */
  lemma {:induction false} LoadStore(v: int, n: nat)
    ensures Load(Store(v, n)) == v % Pow256(n)
    decreases n
  {
    if n > 0 {
      StoreTail(v, n);
      LoadStore(v / 256, n - 1);
      SplitByte(v, Pow256(n - 1));
      assert Store(v, n)[1..] == Store(v / 256, n - 1);
    }
  }

  lemma LowByte(low: byte, rest: int)
    ensures (low + 256 * rest) % 256 == low && (low + 256 * rest) / 256 == rest
  {}

  /** Storing what was loaded gives the same bytes back. */
  lemma {:induction false} StoreLoad(s: seq<byte>)
    ensures Store(Load(s), |s|) == s
  {
    if s != [] {
      StoreLoad(s[1..]);
      var rest := Load(s[1..]);
      LowByte(s[0], rest);
      StoreTail(s[0] + 256 * rest, |s|);
    }
  }

  /** Two values have the same stored bytes exactly when they agree modulo the field. */
  lemma StoreEqual(v: int, w: int, n: nat)
    ensures Store(v, n) == Store(w, n) <==> v % Pow256(n) == w % Pow256(n)
  {
    LoadStore(v, n);
    LoadStore(w, n);
    if v % Pow256(n) == w % Pow256(n) {
      StoreLoad(Store(v, n));
      StoreLoad(Store(w, n));
    }
  }

  /** A 32-bit field read back as `int32_t`. */
  lemma LoadStore32(v: int)
    ensures Load(Store(v, 4)) == v % TWO_32
    ensures Int32(Load(Store(v, 4))) == Int32(v)
  {
    LoadStoreWidth(v, 4, TWO_32) by { Widths(); }
    SameLow32(Load(Store(v, 4)), v);
  }

  lemma SameLow32(x: int, y: int)
    requires x == y % TWO_32
    ensures Int32(x) == Int32(y)
  {}

  lemma LoadStoreWidth(v: int, n: nat, p: int)
    requires Pow256(n) == p
    ensures Load(Store(v, n)) == v % p
  {
    LoadStore(v, n);
  }

  lemma LoadStore64(v: int)
    ensures Load(Store(v, 8)) == v % TWO_64
  {
    LoadStoreWidth(v, 8, TWO_64) by { Widths(); }
  }

  /** `pattern` stands at offset `i` of `s`; false when it would run past the end. */
  predicate HasAt(s: seq<byte>, i: int, pattern: seq<byte>) {
    0 <= i && i + |pattern| <= |s| && s[i..i + |pattern|] == pattern
  }

  lemma LoadSmall(d: byte)
    ensures Load([d, 0, 0, 0]) == d
  {
    assert [d, 0, 0, 0][1..] == [0, 0, 0] && [0, 0, 0][1..] == [0, 0] && [0, 0][1..] == [0] && [0][1..] == [];
    assert Load([0]) == 0 + 256 * Load([]);
    assert Load([0, 0]) == 0 + 256 * Load([0]);
    assert Load([0, 0, 0]) == 0 + 256 * Load([0, 0]);
  }
}

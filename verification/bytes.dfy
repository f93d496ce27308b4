/**
 * Bytes and the little-endian integers the on-disk formats are made of:
 * `uN::from_le_bytes` over a slice of `N / 8` bytes, and the byte slices
 * `to_le_bytes` writes.
 */
module Bytes {
  type byte = bv8

  /** `256^n`. */
  function Pow256(n: nat): (p: nat)
    ensures p >= 1
  {
    if n == 0 then 1 else 256 * Pow256(n - 1)
  }

  /** The little-endian value of `s`: `s[0]` is the least significant byte. */
  function Le(s: seq<byte>): nat
    decreases |s|
  {
    if s == [] then 0 else s[0] as nat + 256 * Le(s[1..])
  }

  /** The `n`-byte little-endian field at `off`. */
  function LeAt(raw: seq<byte>, off: nat, n: nat): nat
    requires off + n <= |raw|
  {
    Le(raw[off..off + n])
  }

  /** `v.to_le_bytes()` for a `n`-byte integer, keeping the low `n` bytes. */
  function ToLe(v: nat, n: nat): (s: seq<byte>)
    ensures |s| == n
  {
    if n == 0 then [] else [(v % 256) as byte] + ToLe(v / 256, n - 1)
  }

  /** An `n`-byte field holds a value below `256^n`. */
  lemma {:induction false} LeBound(s: seq<byte>)
    ensures Le(s) < Pow256(|s|)
    decreases |s|
  {
    if s != [] {
      LeBound(s[1..]);
    }
  }

  /** A field split in two: the low part, plus the high part scaled past it. */
  lemma {:induction false} LeSplit(a: seq<byte>, b: seq<byte>)
    ensures Le(a + b) == Le(a) + Pow256(|a|) * Le(b)
    decreases |a|
  {
    if a == [] {
      assert a + b == b;
    } else {
      assert (a + b)[0] == a[0];
      assert (a + b)[1..] == a[1..] + b;
      LeSplit(a[1..], b);
      var x, p, y := Le(a[1..]), Pow256(|a| - 1), Le(b);
      assert Le(a + b) == a[0] as nat + 256 * (x + p * y);
      MulDistrib(256, x, p * y);
      MulAssoc(256, p, y);
    }
  }

  lemma MulDistrib(k: nat, x: nat, y: nat)
    ensures k * (x + y) == k * x + k * y
  {
  }

  lemma MulComm(a: nat, b: nat)
    ensures a * b == b * a
  {
  }

  lemma MulAssoc(a: nat, b: nat, c: nat)
    ensures a * (b * c) == (a * b) * c
  {
  }

  /** Splitting a field: its low `k` bytes are its value modulo `256^k`, its high bytes the quotient. */
  lemma LeLowHigh(s: seq<byte>, k: nat)
    requires k <= |s|
    ensures Le(s) % Pow256(k) == Le(s[..k])
    ensures Le(s) / Pow256(k) == Le(s[k..])
  {
    assert s == s[..k] + s[k..];
    LeConcatDivMod(s[..k], s[k..]);
  }

  lemma LeConcatDivMod(lo: seq<byte>, hi: seq<byte>)
    ensures Le(lo + hi) % Pow256(|lo|) == Le(lo)
    ensures Le(lo + hi) / Pow256(|lo|) == Le(hi)
  {
    LeSplit(lo, hi);
    LeBound(lo);
    DivModSum(Le(lo + hi), Pow256(|lo|), Le(hi), Le(lo));
  }

  lemma DivModSum(x: nat, d: nat, q: nat, r: nat)
    requires 0 < d && r < d && x == r + d * q
    ensures x % d == r && x / d == q
  {
    MulComm(d, q);
    DivModUnique(x, d, q, r);
  }

  /** Division is determined by any quotient and in-range remainder. */
  lemma DivModUnique(x: nat, d: nat, q: nat, r: nat)
    requires 0 < d && r < d && x == q * d + r
    ensures x % d == r && x / d == q
  {
    var q2, r2 := x / d, x % d;
    assert x == q2 * d + r2;
    if q > q2 {
      MulAtLeast(q - q2, d);
    } else if q < q2 {
      MulAtLeast(q2 - q, d);
    }
  }

  lemma MulAtLeast(k: nat, d: nat)
    requires k >= 1
    ensures k * d >= d
  {
    assert k * d == (k - 1) * d + d;
  }

  /** Writing a value below `256^n` and reading it back gives the value. */
  lemma {:induction false} LeToLe(v: nat, n: nat)
    requires v < Pow256(n)
    ensures Le(ToLe(v, n)) == v
    decreases n
  {
    if n > 0 {
      var lo, hi := v % 256, v / 256;
      DivBound(v, 256, Pow256(n - 1));
      LeToLe(hi, n - 1);
      LeCons(lo as byte, ToLe(hi, n - 1));
      ByteOfSmall(lo);
    }
  }

  /** A byte in front of a field is its low byte. */
  lemma LeCons(b: byte, t: seq<byte>)
    ensures Le([b] + t) == b as nat + 256 * Le(t)
  {
    assert ([b] + t)[1..] == t;
  }

  /** A number below 256 survives the trip through a byte. */
  lemma ByteOfSmall(x: nat)
    requires x < 256
    ensures (x as byte) as nat == x
  {
    ByteCast(ByteOf(x));
  }

  /** The byte holding `x`, built by counting up so that no integer-to-bit-vector cast is needed. */
  function ByteOf(x: nat): (b: byte)
    requires x < 256
    ensures b as nat == x
  {
    if x == 0 then 0
    else
      var p := ByteOf(x - 1);
      assert p < 255;
      p + 1
  }

  /** A byte survives the trip through its value. */
  lemma ByteCast(b: byte)
    ensures (b as int) as byte == b
  {
  }

  lemma DivBound(v: nat, d: nat, p: nat)
    requires 0 < d && v < d * p
    ensures v / d < p
  {
    if v / d >= p {
      MulMono(d, p, v / d);
    }
  }

  lemma MulMono(d: nat, a: nat, b: nat)
    requires a <= b
    ensures d * a <= d * b
  {
    assert d * b == d * a + d * (b - a);
  }

  /** Reading `n` bytes and writing them back gives the bytes. */
  lemma {:induction false} ToLeLe(s: seq<byte>)
    ensures ToLe(Le(s), |s|) == s
    decreases |s|
  {
    if s != [] {
      var v := Le(s);
      DivModUnique(v, 256, Le(s[1..]), s[0] as nat);
      ToLeLe(s[1..]);
      assert ((v % 256) as byte) == s[0];
    }
  }

  /** A field of `b` keeps its value behind a prefix `a`. */
  lemma LeAtShift(a: seq<byte>, b: seq<byte>, at: nat, off: nat, n: nat)
    requires at == |a| + off && off + n <= |b|
    ensures LeAt(a + b, at, n) == LeAt(b, off, n)
  {
    assert (a + b)[|a| + off..|a| + off + n] == b[off..off + n];
  }

  /** A field of `a` keeps its value when `b` is appended. */
  lemma LeAtPrefix(a: seq<byte>, b: seq<byte>, off: nat, n: nat)
    requires off + n <= |a|
    ensures LeAt(a + b, off, n) == LeAt(a, off, n)
  {
    assert (a + b)[off..off + n] == a[off..off + n];
  }

  /** A whole `n`-byte field written with `ToLe` reads back as its value. */
  lemma LeAtWhole(v: nat, n: nat)
    requires v < Pow256(n)
    ensures LeAt(ToLe(v, n), 0, n) == v
  {
    assert ToLe(v, n)[0..n] == ToLe(v, n);
    LeToLe(v, n);
  }

  /** `u8`, `u16` and `u32` little-endian fields, with their ranges. */
  function U8At(raw: seq<byte>, off: nat): (v: nat)
    requires off + 1 <= |raw|
    ensures v == LeAt(raw, off, 1) && v < 0x100
  {
    LeBound(raw[off..off + 1]);
    LeAt(raw, off, 1)
  }

  function U16At(raw: seq<byte>, off: nat): (v: nat)
    requires off + 2 <= |raw|
    ensures v == LeAt(raw, off, 2) && v < 0x1_0000
  {
    LeBound(raw[off..off + 2]);
    assert Pow256(2) == 0x1_0000;
    LeAt(raw, off, 2)
  }

  function U32At(raw: seq<byte>, off: nat): (v: nat)
    requires off + 4 <= |raw|
    ensures v == LeAt(raw, off, 4) && v < 0x1_0000_0000
  {
    LeBound(raw[off..off + 4]);
    assert Pow256(4) == 0x1_0000_0000;
    LeAt(raw, off, 4)
  }

  /** A one-byte field is the byte. */
  lemma ByteValue(raw: seq<byte>, i: nat)
    requires i < |raw|
    ensures U8At(raw, i) == raw[i] as nat
  {
    assert raw[i..i + 1] == [raw[i]];
  }

  /** Dividing twice is dividing by the product. */
  lemma DivDiv(x: nat, a: nat, b: nat)
    requires a > 0 && b > 0
    ensures x / a / b == x / (a * b)
  {
    var q := x / a / b;
    var r := x / a % b;
    var s := x % a;
    assert x == (q * b + r) * a + s;
    assert x == q * (a * b) + (r * a + s) by {
      MulDistrib(a, q * b, r);
      MulComm(q * b + r, a);
      MulComm(q, b);
      MulAssoc(a, b, q);
      MulComm(a * b, q);
      MulComm(r, a);
    }
    assert r * a + s < a * b by {
      MulMono(a, r, b - 1);
      MulComm(r, a);
      MulDistrib(a, b - 1, 1);
    }
    DivModUnique(x, a * b, q, r * a + s);
  }
}

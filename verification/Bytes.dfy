/** Fixed-width integers as the wire sees them: big-endian byte strings, two's
    complement, and the byte swaps of postgres_conversion.hpp. */
module Bytes {

  type byte = x: int | 0 <= x < 256

  function Pow(b: nat, e: nat): (p: nat)
    ensures b > 0 ==> p > 0
  {
    if e == 0 then 1
    else
      var q := Pow(b, e - 1);
      assert b > 0 && q > 0 ==> b * q > 0;
      b * q
  }

  lemma {:induction false} PowAdd(b: nat, e: nat, f: nat)
    ensures Pow(b, e + f) == Pow(b, e) * Pow(b, f)
  {
    if e > 0 {
      PowAdd(b, e - 1, f);
      MulAssociates(b, Pow(b, e - 1), Pow(b, f));
    }
  }

  lemma MulAssociates(n: nat, d: nat, p: nat)
    ensures n * (d * p) == n * d * p
  {
  }

  lemma {:induction false} PowMonotone(b: nat, e: nat, f: nat)
    requires b > 0 && e <= f
    ensures Pow(b, e) <= Pow(b, f)
    decreases f
  {
    if e < f {
      PowMonotone(b, e, f - 1);
      assert Pow(b, f) == b * Pow(b, f - 1) >= Pow(b, f - 1);
    }
  }

  /** The n low-order bytes of v, most significant first. */
  function Be(n: nat, v: nat): (s: seq<byte>)
    ensures |s| == n
  {
    if n == 0 then [] else Be(n - 1, v / 256) + [v % 256]
  }

  /** The number a big-endian byte string denotes. */
  function Val(s: seq<byte>): nat {
    if s == [] then 0 else Val(s[..|s| - 1]) * 256 + s[|s| - 1]
  }

  lemma {:induction false} ValBe(n: nat, v: nat)
    requires v < Pow(256, n)
    ensures Val(Be(n, v)) == v
  {
    if n > 0 {
      ValBe(n - 1, v / 256);
      assert Be(n, v)[..n - 1] == Be(n - 1, v / 256);
    }
  }

  lemma {:induction false} BeVal(s: seq<byte>)
    ensures Val(s) < Pow(256, |s|)
    ensures Be(|s|, Val(s)) == s
  {
    if s != [] {
      BeVal(s[..|s| - 1]);
      assert Val(s) / 256 == Val(s[..|s| - 1]);
      assert Be(|s|, Val(s)) == s[..|s| - 1] + [s[|s| - 1]];
    }
  }

  /** Network byte order: byte i carries the digit of weight 256^(n - 1 - i). */
  lemma {:induction false} BeDigit(n: nat, v: nat, i: nat)
    requires i < n
    ensures Be(n, v)[i] == v / Pow(256, n - 1 - i) % 256
    decreases n
  {
    if i == n - 1 {
      assert Pow(256, 0) == 1 && v / 1 == v;
    } else {
      var p := Pow(256, n - 2 - i);
      BeDigit(n - 1, v / 256, i);
      assert Be(n, v)[i] == Be(n - 1, v / 256)[i];
      assert Pow(256, n - 1 - i) == 256 * p;
      DivTwice(v, 256, p);
    }
  }

  lemma DivTwice(v: nat, a: nat, b: nat)
    requires a > 0 && b > 0
    ensures v / (a * b) == v / a / b
  {
    var q, r := v / a / b, v / a % b;
    var m := r * a + v % a;
    assert v / a == q * b + r && v == v / a * a + v % a;
    assert (q * b + r) * a == q * (a * b) + r * a;
    assert r * a <= (b - 1) * a && (b - 1) * a == a * b - a;
    DivModUnique(v, a * b, q, m);
  }

  /** The quotient and the remainder are determined by the division equation. */
  lemma DivModUnique(x: int, m: int, q: int, r: int)
    requires m > 0 && 0 <= r < m && x == q * m + r
    ensures x / m == q && x % m == r
  {
    var d := q - x / m;
    assert d * m == x % m - r;
    assert d >= 1 ==> d * m >= m;
    assert d <= -1 ==> d * m <= -m;
  }

  /** Values of the n-byte integer types. */
  predicate IsSigned(n: nat, x: int) {
    var m: int := Pow(256, n);
    -m <= 2 * x < m
  }

  predicate IsUnsigned(n: nat, x: int) {
    0 <= x < Pow(256, n)
  }

  /** Conversion of any integer to an n-byte unsigned type: modulo 2^(8n). */
  function ToUnsigned(n: nat, x: int): (u: nat)
    ensures IsUnsigned(n, u)
  {
    x % Pow(256, n)
  }

  /** Reinterpretation of an n-byte unsigned value as a signed one. */
  function ToSigned(n: nat, u: nat): (x: int)
    requires IsUnsigned(n, u)
    ensures IsSigned(n, x)
  {
    if 2 * u < Pow(256, n) then u else u - Pow(256, n)
  }

  lemma SignedRoundTrip(n: nat, x: int)
    requires IsSigned(n, x)
    ensures ToSigned(n, ToUnsigned(n, x)) == x
    ensures ToUnsigned(n, x) == if x < 0 then x + Pow(256, n) else x
  {
    var m: int := Pow(256, n);
    if x < 0 {
      DivModUnique(x, m, -1, x + m);
    } else {
      DivModUnique(x, m, 0, x);
    }
  }

  lemma UnsignedRoundTrip(n: nat, u: nat)
    requires IsUnsigned(n, u)
    ensures ToUnsigned(n, u) == u
    ensures ToUnsigned(n, ToSigned(n, u)) == u
  {
    var m: int := Pow(256, n);
    DivModUnique(u, m, 0, u);
    if 2 * u >= m {
      DivModUnique(u - m, m, -1, u);
    }
  }

  /** What WriteRawInteger of an n-byte type puts on the stream. */
  function Put(n: nat, x: int): (s: seq<byte>)
    ensures |s| == n
  {
    Be(n, ToUnsigned(n, x))
  }

  lemma PutGet(n: nat, x: int)
    ensures Val(Put(n, x)) == ToUnsigned(n, x)
    ensures IsUnsigned(n, x) ==> Val(Put(n, x)) == x
    ensures IsSigned(n, x) ==> ToSigned(n, Val(Put(n, x))) == x
  {
    ValBe(n, ToUnsigned(n, x));
    if IsUnsigned(n, x) {
      UnsignedRoundTrip(n, x);
    }
    if IsSigned(n, x) {
      SignedRoundTrip(n, x);
    }
  }

  /** The powers of 256 that occur as integer sizes. */
  lemma Sizes()
    ensures Pow(256, 0) == 1 && Pow(256, 1) == 0x100 && Pow(256, 2) == 0x1_0000
    ensures Pow(256, 4) == 0x1_0000_0000 && Pow(256, 8) == 0x1_0000_0000_0000_0000
  {
    assert Pow(256, 3) == 256 * Pow(256, 2);
    assert Pow(256, 5) == 256 * Pow(256, 4);
    assert Pow(256, 7) == 256 * Pow(256, 6);
  }
}

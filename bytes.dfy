/**
 * Unsigned little-endian arithmetic over byte sequences: the layout that
 * Rust's `to_le_bytes` and `from_le_bytes` use for every fixed-width
 * numeric type of the program.
 */
module Bytes {

  /** An unsigned 8-bit value, Rust's `u8`. */
  type byte = b: int | 0 <= b < 256

  /** 256 to the power `n`: the number of distinct values of `n` bytes. */
  function Pow256(n: nat): (r: nat)
    ensures r >= 1
  {
    if n == 0 then 1 else 256 * Pow256(n - 1)
  }

  /** The first `n` bytes of `u`, least significant byte first. */
  function LeBytes(u: nat, n: nat): (r: seq<byte>)
    ensures |r| == n
  {
    if n == 0 then [] else [u % 256] + LeBytes(u / 256, n - 1)
  }

  /** The unsigned number whose little-endian representation is `s`. */
  function LeValue(s: seq<byte>): (r: nat)
    ensures r < Pow256(|s|)
  {
    if s == [] then 0 else s[0] + 256 * LeValue(s[1..])
  }

  /** Reading back the bytes of a number that fits recovers the number. */
  lemma {:induction false} LeValueOfLeBytes(u: nat, n: nat)
    requires u < Pow256(n)
    ensures LeValue(LeBytes(u, n)) == u
  {
    if n > 0 {
      LeValueOfLeBytes(u / 256, n - 1);
      assert LeBytes(u, n)[1..] == LeBytes(u / 256, n - 1);
    }
  }

  /** Writing out the value of a byte sequence recovers the sequence. */
  lemma {:induction false} LeBytesOfLeValue(s: seq<byte>)
    ensures LeBytes(LeValue(s), |s|) == s
  {
    if s != [] {
      LeBytesOfLeValue(s[1..]);
      var v := LeValue(s);
      assert v % 256 == s[0];
      assert v / 256 == LeValue(s[1..]);
    }
  }

  /** A product of a positive multiplier and a positive factor is at least the factor. */
  lemma {:induction false} MulAtLeast(k: nat, d: nat)
    requires k >= 1 && d > 0
    ensures k * d >= d
  {
    if k > 1 {
      MulAtLeast(k - 1, d);
      assert k * d == (k - 1) * d + d;
    }
  }

  /** Quotient and remainder are the only ones of their kind. */
  lemma DivUnique(u: int, d: int, q: int, r: int)
    requires d > 0 && 0 <= r < d && u == q * d + r
    ensures u / d == q && u % d == r
  {
    var q0, r0 := u / d, u % d;
    assert (q - q0) * d == r0 - r;
    if q > q0 {
      MulAtLeast(q - q0, d);
    } else if q < q0 {
      MulAtLeast(q0 - q, d);
    }
  }

  /** Dividing by 256 and then by `a` is dividing by `256 * a`. */
  lemma DivDiv256(u: nat, a: nat)
    requires a > 0
    ensures u / 256 / a == u / (256 * a)
  {
    var q, r := u / (256 * a), u % (256 * a);
    assert u == 256 * (q * a) + r;
    assert r == 256 * (r / 256) + r % 256;
    assert u == 256 * (q * a + r / 256) + r % 256;
    DivUnique(u, 256, q * a + r / 256, r % 256);
    assert r / 256 < a;
    DivUnique(q * a + r / 256, a, q, r / 256);
  }

  /** Byte `k` of the encoding is bits `8k` to `8k + 7` of the number. */
  lemma {:induction false} LeBytesAt(u: nat, n: nat, k: nat)
    requires k < n
    ensures LeBytes(u, n)[k] == u / Pow256(k) % 256
  {
    if k > 0 {
      LeBytesAt(u / 256, n - 1, k - 1);
      DivDiv256(u, Pow256(k - 1));
    }
  }

  /** The last byte of a sequence carries the highest weight. */
  lemma {:induction false} LeValueLast(s: seq<byte>)
    requires |s| > 0
    ensures LeValue(s) == LeValue(s[..|s| - 1]) + s[|s| - 1] * Pow256(|s| - 1)
  {
    var m := |s| - 1;
    if m > 0 {
      var tail := s[1..];
      LeValueLast(tail);
      assert tail[..m - 1] == s[..m][1..];
      assert tail[m - 1] == s[m];
      var low, top := LeValue(tail[..m - 1]), s[m] * Pow256(m - 1);
      calc {
        LeValue(s);
        s[0] + 256 * LeValue(tail);
        s[0] + 256 * (low + top);
        s[0] + 256 * low + 256 * top;
        { assert LeValue(s[..m]) == s[0] + 256 * low; }
        LeValue(s[..m]) + 256 * top;
        { MulShift(s[m], Pow256(m - 1)); }
        LeValue(s[..m]) + s[m] * Pow256(m);
      }
    }
  }

  /** Moving a factor of 256 inside a product. */
  lemma MulShift(a: int, p: int)
    ensures 256 * (a * p) == a * (256 * p)
  {
  }

  /** The top byte decides whether the value reaches the upper half of its range. */
  lemma LeValueTop(s: seq<byte>)
    requires |s| > 0
    ensures LeValue(s) >= 128 * Pow256(|s| - 1) <==> s[|s| - 1] >= 128
  {
    var m := |s| - 1;
    var p := Pow256(m);
    LeValueLast(s);
    var low, top := LeValue(s[..m]), s[m];
    assert |s[..m]| == m;
    assert low < p;
    if top >= 128 {
      MulMonotone(128, top, p);
    } else {
      MulMonotone(top, 127, p);
    }
  }

  /** Multiplying by a non-negative factor keeps the order. */
  lemma MulMonotone(a: int, b: int, c: nat)
    requires a <= b
    ensures a * c <= b * c
  {
    if a < b && c > 0 {
      MulAtLeast(b - a, c);
      assert b * c - a * c == (b - a) * c;
    }
  }
}

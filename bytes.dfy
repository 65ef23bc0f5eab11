/** Bytes, powers of 256, and the little- and big-endian readings of a byte string. */
module Bytes {

  type byte = x: int | 0 <= x < 256

  function Pow256(n: nat): (r: nat)
    ensures r >= 1
  {
    if n == 0 then 1 else 256 * Pow256(n - 1)
  }

  /** `n` zero bytes: the contents of a freshly allocated `Uint8Array(n)`. */
  function Zeros(n: nat): (r: seq<byte>)
    ensures |r| == n && forall i :: 0 <= i < n ==> r[i] == 0
  {
    seq(n, _ => 0)
  }

  /** The value of `bs` read little-endian: byte `i` weighs `256^i`. */
  function LeValue(bs: seq<byte>): nat
  {
    if |bs| == 0 then 0 else bs[0] + 256 * LeValue(bs[1..])
  }

  /** The value of `bs` read big-endian: the last byte is the least significant. */
  function BeValue(bs: seq<byte>): nat
  {
    if |bs| == 0 then 0 else 256 * BeValue(bs[..|bs| - 1]) + bs[|bs| - 1]
  }

  /** The `n`-byte little-endian representation of `v`. */
  function LeBytes(v: nat, n: nat): (r: seq<byte>)
    requires v < Pow256(n)
    ensures |r| == n && LeValue(r) == v
  {
    if n == 0 then [] else [v % 256] + LeBytes(v / 256, n - 1)
  }

  /** The `n`-byte big-endian representation of `v`. */
  function BeBytes(v: nat, n: nat): (r: seq<byte>)
    requires v < Pow256(n)
    ensures |r| == n && BeValue(r) == v
  {
    if n == 0 then [] else
      var r := BeBytes(v / 256, n - 1) + [v % 256];
      assert r[..|r| - 1] == BeBytes(v / 256, n - 1);
      r
  }

  /** `s` back to front. */
  function Reverse(s: seq<byte>): (r: seq<byte>)
    ensures |r| == |s|
  {
    if |s| == 0 then [] else [s[|s| - 1]] + Reverse(s[..|s| - 1])
  }

  lemma {:induction false} ReverseAt(s: seq<byte>, k: nat)
    requires k < |s|
    ensures Reverse(s)[k] == s[|s| - 1 - k]
  {
    if k > 0 {
      ReverseAt(s[..|s| - 1], k - 1);
    }
  }

  lemma {:induction false} ReverseAppend(a: seq<byte>, b: seq<byte>)
    ensures Reverse(a + b) == Reverse(b) + Reverse(a)
  {
    if |b| == 0 {
      assert a + b == a;
    } else {
      assert (a + b)[..|a + b| - 1] == a + b[..|b| - 1];
      ReverseAppend(a, b[..|b| - 1]);
    }
  }

  lemma {:induction false} ReverseZeros(n: nat)
    ensures Reverse(Zeros(n)) == Zeros(n)
  {
    if n > 0 {
      assert Zeros(n)[..n - 1] == Zeros(n - 1);
      ReverseZeros(n - 1);
      assert [0] + Zeros(n - 1) == Zeros(n);
    }
  }

  /** A value below `256^n` has exactly the bytes below `n` in its little-endian form:
      byte `i` is `(v / 256^i) % 256`. */
  lemma {:induction false} LeBytesAt(v: nat, n: nat, i: nat)
    requires v < Pow256(n) && i < n
    ensures LeBytes(v, n)[i] == (v / Pow256(i)) % 256
  {
    if i > 0 {
      LeBytesAt(v / 256, n - 1, i - 1);
      DivDiv(v, 256, Pow256(i - 1));
    }
  }

  lemma DivDiv(v: nat, a: nat, b: nat)
    requires a > 0 && b > 0
    ensures v / a / b == v / (a * b)
  {
    var q, r := v / a, v % a;
    var q2, r2 := q / b, q % b;
    DivDivParts(a, b, q, r, q2, r2);
    DivUnique(v, a * b, q2, a * r2 + r);
  }

  /** `a * (b * q2 + r2) + r` regrouped as a quotient and remainder by `a * b`. */
  lemma DivDivParts(a: nat, b: nat, q: nat, r: nat, q2: nat, r2: nat)
    requires a > 0 && b > 0 && r < a && r2 < b && q == b * q2 + r2
    ensures a * q + r == (a * b) * q2 + (a * r2 + r)
    ensures a * r2 + r < a * b
  {
    MulDistributes(a, b * q2, r2);
    MulAssociates(a, b, q2);
    MulMonotone(a, r2, b - 1);
    MulDistributes(a, b - 1, 1);
  }

  lemma MulDistributes(a: int, b: int, c: int)
    ensures a * (b + c) == a * b + a * c
  {
  }

  lemma MulAssociates(a: int, b: int, c: int)
    ensures a * (b * c) == (a * b) * c
  {
  }

  lemma MulMonotone(a: nat, x: nat, y: nat)
    requires x <= y
    ensures a * x <= a * y
  {
    MulDistributes(a, x, y - x);
  }

  /** Euclidean division is determined by quotient and remainder. */
  lemma DivUnique(v: nat, d: nat, q: nat, r: nat)
    requires d > 0 && r < d && v == d * q + r
    ensures v / d == q && v % d == r
  {
    var q0, r0 := v / d, v % d;
    assert v == d * q0 + r0;
    if q0 < q {
      MulMonotone(d, q0 + 1, q);
      MulDistributes(d, q0, 1);
      assert false;
    } else if q0 > q {
      MulMonotone(d, q + 1, q0);
      MulDistributes(d, q, 1);
      assert false;
    }
  }

  lemma {:induction false} LeValueBound(bs: seq<byte>)
    ensures LeValue(bs) < Pow256(|bs|)
  {
    if |bs| > 0 {
      LeValueBound(bs[1..]);
    }
  }

  lemma {:induction false} BeValueBound(bs: seq<byte>)
    ensures BeValue(bs) < Pow256(|bs|)
  {
    if |bs| > 0 {
      BeValueBound(bs[..|bs| - 1]);
    }
  }

  /** Reading little-endian is injective at a fixed width: `LeBytes` inverts `LeValue`. */
  lemma {:induction false} LeBytesOfLeValue(bs: seq<byte>)
    ensures LeValue(bs) < Pow256(|bs|) && LeBytes(LeValue(bs), |bs|) == bs
  {
    LeValueBound(bs);
    if |bs| > 0 {
      LeBytesOfLeValue(bs[1..]);
      var v := LeValue(bs);
      DivUnique(v, 256, LeValue(bs[1..]), bs[0]);
      assert bs == [bs[0]] + bs[1..];
    }
  }

  /** `BeBytes` inverts `BeValue` at a fixed width. */
  lemma {:induction false} BeBytesOfBeValue(bs: seq<byte>)
    ensures BeValue(bs) < Pow256(|bs|) && BeBytes(BeValue(bs), |bs|) == bs
  {
    BeValueBound(bs);
    if |bs| > 0 {
      var init := bs[..|bs| - 1];
      BeBytesOfBeValue(init);
      DivUnique(BeValue(bs), 256, BeValue(init), bs[|bs| - 1]);
      assert bs == init + [bs[|bs| - 1]];
    }
  }

  /** The big-endian form is the little-endian form back to front. */
  lemma {:induction false} ReverseBeBytes(v: nat, n: nat)
    requires v < Pow256(n)
    ensures Reverse(BeBytes(v, n)) == LeBytes(v, n)
  {
    if n > 0 {
      var b := BeBytes(v, n);
      assert b[..|b| - 1] == BeBytes(v / 256, n - 1);
      ReverseBeBytes(v / 256, n - 1);
    }
  }

  lemma {:induction false} BeBytesZero(n: nat)
    ensures BeBytes(0, n) == Zeros(n)
  {
    if n > 0 {
      BeBytesZero(n - 1);
      assert Zeros(n - 1) + [0] == Zeros(n);
    }
  }

  lemma {:induction false} Pow256Monotone(m: nat, n: nat)
    requires m <= n
    ensures Pow256(m) <= Pow256(n)
  {
    if m < n {
      Pow256Monotone(m, n - 1);
    }
  }

  /** The powers the variable-length tiers and the fixed-width fields use. */
  lemma Pow256Values()
    ensures Pow256(1) == 0x100 && Pow256(2) == 0x1_0000 && Pow256(4) == 0x1_0000_0000
    ensures Pow256(8) == 0x1_0000_0000_0000_0000
  {
    assert Pow256(2) == 0x1_0000;
    assert Pow256(4) == 0x1_0000_0000;
    assert Pow256(6) == 0x1_0000_0000_0000;
    assert Pow256(8) == 0x1_0000_0000_0000_0000;
  }
}

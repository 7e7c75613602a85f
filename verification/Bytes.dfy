/** Bytes and the little-endian integers of Python's struct module. */
module Bytes {
  type byte = x: int | 0 <= x < 256

  /** 256 to the power width: how many values fit in width bytes. */
  function Pow256(width: nat): (p: nat)
    ensures p > 0
  {
    if width == 0 then 1 else 256 * Pow256(width - 1)
  }

  /** The width low-order bytes of x, least significant first.  Every encoder masks its
      argument first; masking a Python integer is reduction modulo a power of two, also
      when the integer is negative, which is Dafny's Euclidean %. */
  function Le(x: int, width: nat): (s: seq<byte>)
    ensures |s| == width
    decreases width
  {
    if width == 0 then [] else [x % 256] + Le(x / 256, width - 1)
  }

  /** The unsigned integer that a little-endian byte string denotes. */
  function FromLe(s: seq<byte>): nat {
    if s == [] then 0 else s[0] + 256 * FromLe(s[1..])
  }

  /** Two's complement: what struct's signed formats make of an unsigned value. */
  function Signed(x: nat, width: nat): int {
    if 2 * x < Pow256(width) then x else x - Pow256(width)
  }

  lemma ModUnique(x: int, m: int, k: int, r: int)
    requires 0 <= r < m && x == m * k + r
    ensures x % m == r
  {
    var d := x / m - k;
    assert m * d == r - x % m by {
      assert m * (x / m - k) == m * (x / m) - m * k;
    }
    MulAtLeast(m, d);
  }

  lemma MulAtLeast(m: int, d: int)
    requires m > 0
    ensures d >= 1 ==> m * d >= m
    ensures d <= -1 ==> m * d <= -m
  {
  }

  /** Reducing digit by digit is reducing at once. */
  lemma ModDigits(x: int, p: int)
    requires p > 0
    ensures x % (256 * p) == x % 256 + 256 * (x / 256 % p)
  {
    var q, r := x / 256, x % 256;
    var low := 256 * (q % p) + r;
    Regroup(x, p, q, r);
    ModUnique(x, 256 * p, q / p, low);
  }

  lemma Regroup(x: int, p: int, q: int, r: int)
    requires p > 0 && x == 256 * q + r
    ensures x == (256 * p) * (q / p) + (256 * (q % p) + r)
  {
    assert q == p * (q / p) + q % p;
    assert (256 * p) * (q / p) == 256 * (p * (q / p));
  }

  /** Writing x into width bytes and reading it back reduces x modulo 256^width; so the round
      trip is the identity exactly on the values that fit. */
  lemma {:induction false} LeRoundTrip(x: int, width: nat)
    ensures FromLe(Le(x, width)) == x % Pow256(width)
    ensures FromLe(Le(x, width)) == x <==> 0 <= x < Pow256(width)
    decreases width
  {
    if width > 0 {
      LeRoundTrip(x / 256, width - 1);
      assert Le(x, width)[1..] == Le(x / 256, width - 1);
      ModDigits(x, Pow256(width - 1));
    }
    if 0 <= x < Pow256(width) {
      ModUnique(x, Pow256(width), 0, x);
    }
  }

  /** Reading and writing back restores the bytes. */
  lemma {:induction false} FromLeRoundTrip(s: seq<byte>)
    ensures FromLe(s) < Pow256(|s|)
    ensures Le(FromLe(s), |s|) == s
  {
    if s != [] {
      FromLeRoundTrip(s[1..]);
      var b, rest := s[0], FromLe(s[1..]);
      ModUnique(FromLe(s), 256, rest, b);
      assert FromLe(s) / 256 == rest;
      assert s == [s[0]] + s[1..];
    }
  }

  /** The least significant byte comes first. */
  lemma {:induction false} LeAt(x: int, width: nat, k: nat)
    requires k < width
    ensures Le(x, width)[k] == x / Pow256(k) % 256
    decreases width
  {
    if k > 0 {
      LeAt(x / 256, width - 1, k - 1);
      DivDigits(x, Pow256(k - 1));
    }
  }

  lemma DivDigits(x: int, p: int)
    requires p > 0
    ensures x / (256 * p) == x / 256 / p
  {
    var q := x / 256;
    Regroup(x, p, q, x % 256);
    DivUnique(x, 256 * p, q / p, 256 * (q % p) + x % 256);
  }

  lemma DivUnique(x: int, m: int, k: int, r: int)
    requires 0 <= r < m && x == m * k + r
    ensures x / m == k
  {
    ModUnique(x, m, k, r);
    var d := x / m - k;
    assert m * d == 0 by {
      assert m * (x / m - k) == m * (x / m) - m * k;
    }
    MulAtLeast(m, d);
  }

  /** Two bytes as a little-endian integer: lo | (hi << 8). */
  function Pair(lo: byte, hi: byte): nat {
    lo + 256 * hi
  }

  lemma FromLePair(lo: byte, hi: byte)
    ensures FromLe([lo, hi]) == Pair(lo, hi) == 256 * (hi as nat) + lo
  {
    assert [lo, hi][1..] == [hi] && [hi][1..] == [];
    assert FromLe([hi]) == hi as nat;
  }

  /** A signed field survives the round trip exactly when it fits. */
  lemma SignedRoundTrip(x: int, width: nat)
    requires width > 0
    requires -(Pow256(width) as int) <= 2 * x < Pow256(width)
    ensures Signed(FromLe(Le(x, width)), width) == x
  {
    LeRoundTrip(x, width);
    if x >= 0 {
      ModUnique(x, Pow256(width), 0, x);
    } else {
      ModUnique(x, Pow256(width), -1, x + Pow256(width));
    }
  }
}

/** Bytes, and the big-endian integers of a given width that Python's `int.to_bytes` and `int.from_bytes` give. */
module Bytes {

  type Byte = b: int | 0 <= b < 256

  function Pow256(n: nat): (r: nat)
    ensures r >= 1
  {
    if n == 0 then 1 else 256 * Pow256(n - 1)
  }

  function FromBigEndian(s: seq<Byte>): nat {
    if s == [] then 0 else 256 * FromBigEndian(s[..|s| - 1]) + s[|s| - 1]
  }

  function ToBigEndian(v: nat, n: nat): (s: seq<Byte>)
    requires v < Pow256(n)
    ensures |s| == n
  {
    if n == 0 then [] else ToBigEndian(v / 256, n - 1) + [v % 256]
  }

  lemma {:induction false} FromTo(v: nat, n: nat)
    requires v < Pow256(n)
    ensures FromBigEndian(ToBigEndian(v, n)) == v
  {
    if n > 0 {
      FromTo(v / 256, n - 1);
      var s := ToBigEndian(v, n);
      assert s[..|s| - 1] == ToBigEndian(v / 256, n - 1);
    }
  }

  lemma {:induction false} FromIsBounded(s: seq<Byte>)
    ensures FromBigEndian(s) < Pow256(|s|)
  {
    if s != [] {
      FromIsBounded(s[..|s| - 1]);
    }
  }

  lemma {:induction false} ToFrom(s: seq<Byte>)
    ensures FromBigEndian(s) < Pow256(|s|) && ToBigEndian(FromBigEndian(s), |s|) == s
  {
    FromIsBounded(s);
    if s != [] {
      ToFrom(s[..|s| - 1]);
      assert s == s[..|s| - 1] + [s[|s| - 1]];
    }
  }

  lemma Swap(a: nat, unit: nat)
    ensures 256 * (a * unit) == a * (256 * unit)
  {
  }

  lemma {:induction false} FirstByte(s: seq<Byte>)
    requires s != []
    ensures FromBigEndian(s) == s[0] * Pow256(|s| - 1) + FromBigEndian(s[1..])
  {
    if |s| > 1 {
      var init := s[..|s| - 1];
      FirstByte(init);
      assert init[1..] == s[1..][..|s| - 2];
      assert s[1..][|s| - 2] == s[|s| - 1];
      Swap(s[0], Pow256(|s| - 2));
    } else {
      assert s[..0] == [] && s[1..] == [];
      assert Pow256(0) == 1;
    }
  }

  lemma {:induction false} Pow256Grows(m: nat, n: nat)
    requires m <= n
    ensures Pow256(m) <= Pow256(n)
  {
    if m < n {
      Pow256Grows(m, n - 1);
    }
  }

  lemma {:induction false} MulGrows(a: nat, b: nat, unit: nat)
    requires a <= b
    ensures a * unit <= b * unit
  {
    if a < b {
      MulGrows(a, b - 1, unit);
      assert b * unit == (b - 1) * unit + unit;
    }
  }

  lemma HalfOfRange(first: nat, unit: nat, rest: nat)
    requires first < 256 && rest < unit
    ensures first >= 128 <==> 2 * (first * unit + rest) >= 256 * unit
  {
    if first >= 128 {
      MulGrows(128, first, unit);
    } else {
      MulGrows(first, 127, unit);
    }
  }

  /** The top bit of the first byte tells whether the value reaches half of the range. */
  lemma TopBit(s: seq<Byte>)
    requires s != []
    ensures s[0] >= 128 <==> 2 * FromBigEndian(s) >= Pow256(|s|)
  {
    FirstByte(s);
    FromIsBounded(s[1..]);
    HalfOfRange(s[0], Pow256(|s| - 1), FromBigEndian(s[1..]));
  }

  // ---- Two's complement ----

  predicate FitsSigned(v: int, n: nat) {
    0 <= 2 * v + Pow256(n) && 2 * v < Pow256(n)
  }

  function FromSigned(s: seq<Byte>): int {
    if s != [] && s[0] >= 128 then FromBigEndian(s) - Pow256(|s|) else FromBigEndian(s)
  }

  function ToSigned(v: int, n: nat): (s: seq<Byte>)
    requires FitsSigned(v, n)
    ensures |s| == n
  {
    ToBigEndian(if v < 0 then v + Pow256(n) else v, n)
  }

  lemma FromToSigned(v: int, n: nat)
    requires FitsSigned(v, n)
    ensures FromSigned(ToSigned(v, n)) == v
  {
    var u := if v < 0 then v + Pow256(n) else v;
    FromTo(u, n);
    if n > 0 {
      TopBit(ToSigned(v, n));
    }
  }

  lemma FromSignedFits(s: seq<Byte>)
    ensures FitsSigned(FromSigned(s), |s|)
  {
    FromIsBounded(s);
    if s != [] {
      TopBit(s);
    }
  }

  // ---- Bit lengths ----

  function Pow2(n: nat): (r: nat)
    ensures r >= 1
  {
    if n == 0 then 1 else 2 * Pow2(n - 1)
  }

  function BitLength(m: nat): nat {
    if m == 0 then 0 else 1 + BitLength(m / 2)
  }

  lemma {:induction false} BitLengthBounds(m: nat)
    requires m > 0
    ensures BitLength(m) > 0 && Pow2(BitLength(m) - 1) <= m < Pow2(BitLength(m))
  {
    if m > 1 {
      BitLengthBounds(m / 2);
    } else {
      assert BitLength(1) == 1 + BitLength(0);
    }
  }

  lemma {:induction false} Pow2Grows(m: nat, n: nat)
    requires m <= n
    ensures Pow2(m) <= Pow2(n)
  {
    if m < n {
      Pow2Grows(m, n - 1);
    }
  }

  lemma {:induction false} Pow256IsPow2(n: nat)
    ensures Pow256(n) == Pow2(8 * n)
  {
    if n > 0 {
      Pow256IsPow2(n - 1);
      var b := 8 * (n - 1);
      assert Pow2(b + 2) == 4 * Pow2(b);
      assert Pow2(b + 4) == 4 * Pow2(b + 2);
      assert Pow2(b + 6) == 4 * Pow2(b + 4);
      assert Pow2(b + 8) == 4 * Pow2(b + 6);
    }
  }
}

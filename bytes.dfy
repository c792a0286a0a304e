/**
 * Fixed-width integers and the byte helpers of the Whisper node:
 * containsOnlyZeros, validateSymmetricKey and the two byte-to-uint64 decoders
 * (whisper/whisperv5/whisper.go:443-471).
 */
module Bytes {

  type byte = bv8

  const TWO32: int := 0x1_0000_0000
  const TWO64: int := 0x1_0000_0000_0000_0000

  /** Go's uint32 (timestamps and time-to-live values). */
  newtype u32 = x: int | 0 <= x < 0x1_0000_0000

  /** Go's uint64 (versions and decoded integers). */
  newtype u64 = x: int | 0 <= x < 0x1_0000_0000_0000_0000

  /** uint32 subtraction as Go performs it: it wraps modulo 2^32. */
  function Sub32(a: u32, b: u32): (r: u32)
    ensures b <= a ==> r as int == a as int - b as int
    ensures a < b ==> r as int == a as int - b as int + TWO32
  {
    ((a as int - b as int) % TWO32) as u32
  }

  /** uint32 addition as Go performs it: it wraps modulo 2^32. */
  function Add32(a: u32, b: u32): (r: u32)
    ensures a as int + b as int < TWO32 ==> r as int == a as int + b as int
    ensures a as int + b as int >= TWO32 ==> r as int == a as int + b as int - TWO32
  {
    ((a as int + b as int) % TWO32) as u32
  }

  /** Every byte of `data` is zero (vacuously true of the empty slice). */
  predicate AllZeros(data: seq<byte>)
  {
    forall i :: 0 <= i < |data| ==> data[i] == 0
  }

  /** containsOnlyZeros: scans the slice and stops at the first non-zero byte. */
  method ContainsOnlyZeros(data: seq<byte>) returns (r: bool)
    ensures r <==> AllZeros(data)
    ensures !r <==> exists i :: 0 <= i < |data| && data[i] != 0
  {
    for i := 0 to |data|
      invariant forall j :: 0 <= j < i ==> data[j] == 0
    {
      if data[i] != 0 {
        return false;
      }
    }
    return true;
  }

  /** A symmetric key is usable when it is non-empty and not all zeros. */
  predicate IsValidSymmetricKey(k: seq<byte>)
  {
    |k| > 0 && !AllZeros(k)
  }

  /** validateSymmetricKey. */
  method ValidateSymmetricKey(k: seq<byte>) returns (ok: bool)
    ensures ok <==> |k| > 0 && exists i :: 0 <= i < |k| && k[i] != 0
    ensures ok == IsValidSymmetricKey(k)
  {
    if |k| == 0 {
      return false;
    }
    var zeros := ContainsOnlyZeros(k);
    ok := !zeros;
  }

  function Pow256(n: nat): (r: nat)
    ensures r >= 1
  {
    if n == 0 then 1 else 256 * Pow256(n - 1)
  }

  /** The unbounded value of `b` read least-significant byte first. */
  function LittleEndian(b: seq<byte>): nat
  {
    if |b| == 0 then 0
    else LittleEndian(b[..|b| - 1]) + (b[|b| - 1] as nat) * Pow256(|b| - 1)
  }

  /** The unbounded value of `b` read most-significant byte first. */
  function BigEndian(b: seq<byte>): nat
  {
    if |b| == 0 then 0
    else BigEndian(b[..|b| - 1]) * 256 + b[|b| - 1] as nat
  }

  /** The bytes of `b` in the opposite order. */
  function Reverse(b: seq<byte>): (r: seq<byte>)
    ensures |r| == |b|
  {
    if |b| == 0 then [] else [b[|b| - 1]] + Reverse(b[..|b| - 1])
  }

  // Modular arithmetic used by the decoders' loop invariants.

  lemma ModUnique(x: int, m: int, q: int, r: int)
    requires 0 < m && 0 <= r < m && x == m * q + r
    ensures x % m == r && x / m == q
  {
    var q', r' := x / m, x % m;
    assert x == m * q' + r';
    if q' < q {
      assert m * (q - q') >= m by { MulAtLeast(m, q - q'); }
      assert false;
    } else if q' > q {
      assert m * (q' - q) >= m by { MulAtLeast(m, q' - q); }
      assert false;
    }
  }

  lemma MulAtLeast(m: int, k: int)
    requires 0 < m && 1 <= k
    ensures m * k >= m
  {
  }

  lemma MulLe(x: nat, y: nat, z: nat)
    requires x <= y
    ensures x * z <= y * z
  {
  }

  lemma ModShift(x: int, k: int, m: int)
    requires 0 < m
    ensures (x + m * k) % m == x % m
  {
    var q, r := x / m, x % m;
    assert x + m * k == m * (q + k) + r;
    ModUnique(x + m * k, m, q + k, r);
  }

  lemma ModAdd(a: int, b: int, m: int)
    requires 0 < m
    ensures (a % m + b % m) % m == (a + b) % m
  {
    var qa, qb := a / m, b / m;
    assert a + b == (a % m + b % m) + m * (qa + qb);
    ModShift(a % m + b % m, qa + qb, m);
  }

  lemma ModMulRight(a: int, b: int, m: int)
    requires 0 < m
    ensures (a * (b % m)) % m == (a * b) % m
  {
    var q := b / m;
    assert b == m * q + b % m;
    assert a * b == a * (b % m) + m * (a * q) by {
      assert a * b == a * (m * q + b % m);
    }
    ModShift(a * (b % m), a * q, m);
  }

  lemma ModOfMod(a: int, m: int)
    requires 0 < m
    ensures (a % m) % m == a % m
  {
    ModUnique(a % m, m, 0, a % m);
  }

  /** One iteration of bytesToIntLittleEndian, reduced modulo 2^64. */
  lemma LittleEndianStep(prev: int, x: int, p: int)
    ensures ((prev % TWO64) + (x * (p % TWO64)) % TWO64) % TWO64 == (prev + x * p) % TWO64
    ensures ((p % TWO64) * 256) % TWO64 == (256 * p) % TWO64
  {
    ModMulRight(x, p, TWO64);
    ModOfMod(prev, TWO64);
    ModAdd(prev, x * p, TWO64);
    ModMulRight(256, p, TWO64);
  }

  /** One iteration of BytesToIntBigEndian, reduced modulo 2^64. */
  lemma BigEndianStep(prev: int, x: int)
    requires 0 <= x < 256
    ensures (((prev % TWO64) * 256) % TWO64 + x) % TWO64 == (prev * 256 + x) % TWO64
  {
    ModMulRight(256, prev, TWO64);
    ModOfMod(x, TWO64);
    ModAdd(256 * prev, x, TWO64);
  }

  /** bytesToIntLittleEndian; `res` and `mul` are uint64 and wrap, so only the first eight bytes count. */
  method BytesToIntLittleEndian(b: seq<byte>) returns (res: u64)
    ensures res as int == LittleEndian(b) % TWO64
  {
    res := 0;
    var mul: u64 := 1;
    for i := 0 to |b|
      invariant res as int == LittleEndian(b[..i]) % TWO64
      invariant mul as int == Pow256(i) % TWO64
    {
      ghost var prev := LittleEndian(b[..i]);
      var term := (b[i] as int * mul as int) % TWO64;
      res := ((res as int + term) % TWO64) as u64;
      mul := ((mul as int * 256) % TWO64) as u64;
      assert b[..i + 1][..i] == b[..i];
      LittleEndianStep(prev, b[i] as int, Pow256(i));
    }
    assert b[..|b|] == b;
  }

  /** BytesToIntBigEndian; `res` is uint64 and wraps, so only the last eight bytes count. */
  method BytesToIntBigEndian(b: seq<byte>) returns (res: u64)
    ensures res as int == BigEndian(b) % TWO64
  {
    res := 0;
    for i := 0 to |b|
      invariant res as int == BigEndian(b[..i]) % TWO64
    {
      ghost var prev := BigEndian(b[..i]);
      res := ((res as int * 256) % TWO64) as u64;
      res := ((res as int + b[i] as int) % TWO64) as u64;
      assert b[..i + 1][..i] == b[..i];
      BigEndianStep(prev, b[i] as int);
    }
    assert b[..|b|] == b;
  }

  lemma {:induction false} Pow256Add(m: nat, n: nat)
    ensures Pow256(m + n) == Pow256(m) * Pow256(n)
    decreases n
  {
    if n > 0 {
      Pow256Add(m, n - 1);
      assert Pow256(m + n) == 256 * Pow256(m + n - 1);
    }
  }

  lemma Pow256Eight()
    ensures Pow256(8) == TWO64
  {
  }

  /** A little-endian value of n bytes is below 256^n. */
  lemma {:induction false} LittleEndianBound(b: seq<byte>)
    ensures LittleEndian(b) < Pow256(|b|)
    decreases |b|
  {
    if |b| > 0 {
      var n := |b| - 1;
      LittleEndianBound(b[..n]);
      MulLe(b[n] as nat, 255, Pow256(n));
      assert LittleEndian(b) < Pow256(n) + 255 * Pow256(n);
    }
  }

  lemma MulDistributes(p: int, l: int, x: int, q: int)
    ensures p * (l + x * q) == p * l + x * (p * q)
  {
    assert p * (x * q) == x * (p * q);
  }

  lemma ShiftDistributes(a: int, q: int, l: int, x: int)
    ensures (a * q + l) * 256 + x == a * (q * 256) + (l * 256 + x)
  {
  }

  /** Appending bytes to a little-endian encoding adds them at the next positions. */
  lemma {:induction false} LittleEndianAppend(a: seq<byte>, c: seq<byte>)
    ensures LittleEndian(a + c) == LittleEndian(a) + Pow256(|a|) * LittleEndian(c)
    decreases |c|
  {
    if |c| == 0 {
      assert a + c == a;
    } else {
      var n := |c| - 1;
      var ac := a + c;
      assert ac[..|ac| - 1] == a + c[..n];
      assert ac[|ac| - 1] == c[n];
      assert LittleEndian(ac) == LittleEndian(a + c[..n]) + (c[n] as nat) * Pow256(|a| + n);
      LittleEndianAppend(a, c[..n]);
      Pow256Add(|a|, n);
      MulDistributes(Pow256(|a|), LittleEndian(c[..n]), c[n] as nat, Pow256(n));
    }
  }

  /** Appending bytes to a big-endian encoding shifts what came before. */
  lemma {:induction false} BigEndianAppend(a: seq<byte>, c: seq<byte>)
    ensures BigEndian(a + c) == BigEndian(a) * Pow256(|c|) + BigEndian(c)
    decreases |c|
  {
    if |c| == 0 {
      assert a + c == a;
    } else {
      var n := |c| - 1;
      var ac := a + c;
      assert ac[..|ac| - 1] == a + c[..n];
      assert ac[|ac| - 1] == c[n];
      assert BigEndian(ac) == BigEndian(a + c[..n]) * 256 + c[n] as nat;
      BigEndianAppend(a, c[..n]);
      ShiftDistributes(BigEndian(a), Pow256(n), BigEndian(c[..n]), c[n] as nat);
      assert Pow256(|c|) == Pow256(n) * 256;
    }
  }

  /** Reading big-endian is reading the reversed bytes little-endian. */
  lemma {:induction false} BigEndianIsReversedLittleEndian(b: seq<byte>)
    ensures BigEndian(b) == LittleEndian(Reverse(b))
    decreases |b|
  {
    if |b| > 0 {
      var n := |b| - 1;
      BigEndianIsReversedLittleEndian(b[..n]);
      LittleEndianAppend([b[n]], Reverse(b[..n]));
      assert LittleEndian([b[n]]) == b[n] as nat by {
        assert [b[n]][..0] == [];
      }
    }
  }

  /** bytesToIntLittleEndian is exact on inputs of at most eight bytes. */
  lemma LittleEndianExactUpToEight(b: seq<byte>)
    requires |b| <= 8
    ensures LittleEndian(b) % TWO64 == LittleEndian(b)
  {
    LittleEndianBound(b);
    Pow256Add(|b|, 8 - |b|);
    assert Pow256(|b|) <= Pow256(8) by {
      assert Pow256(8) == Pow256(|b|) * Pow256(8 - |b|);
    }
    ModUnique(LittleEndian(b), TWO64, 0, LittleEndian(b));
  }

  /** bytesToIntLittleEndian ignores every byte after the eighth. */
  lemma LittleEndianKeepsFirstEight(b: seq<byte>)
    requires |b| >= 8
    ensures LittleEndian(b) % TWO64 == LittleEndian(b[..8])
  {
    assert b == b[..8] + b[8..];
    LittleEndianAppend(b[..8], b[8..]);
    LittleEndianExactUpToEight(b[..8]);
    ModShift(LittleEndian(b[..8]), LittleEndian(b[8..]), TWO64);
  }

  /** BytesToIntBigEndian is exact on inputs of at most eight bytes. */
  lemma BigEndianExactUpToEight(b: seq<byte>)
    requires |b| <= 8
    ensures BigEndian(b) % TWO64 == BigEndian(b)
  {
    BigEndianIsReversedLittleEndian(b);
    LittleEndianExactUpToEight(Reverse(b));
  }

  /** BytesToIntBigEndian ignores every byte before the last eight. */
  lemma BigEndianKeepsLastEight(b: seq<byte>)
    requires |b| >= 8
    ensures BigEndian(b) % TWO64 == BigEndian(b[|b| - 8..])
  {
    var k := |b| - 8;
    assert b == b[..k] + b[k..];
    BigEndianAppend(b[..k], b[k..]);
    BigEndianExactUpToEight(b[k..]);
    Pow256Eight();
    ModShift(BigEndian(b[k..]), BigEndian(b[..k]), TWO64);
  }
}

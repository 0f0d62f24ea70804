/** Fixed-width integers of the C library, the little-endian 32-bit
    conversion used by the image header, and the PIF_min, PIF_max and
    PIF_swap helpers of pif.h. */
module Bytes {

  type uint8 = b: int | 0 <= b < 0x100
  type uint32 = v: int | 0 <= v < 0x1_0000_0000

  /** PIF_bytesToU32: the first four bytes, least significant first. */
  function BytesToU32(b: seq<uint8>): (v: uint32)
    requires |b| >= 4
  {
    b[0] as int + 0x100 * (b[1] as int) + 0x1_0000 * (b[2] as int) + 0x100_0000 * (b[3] as int)
  }

  /** PIF_u32ToBytes: four bytes, least significant first. */
  function U32ToBytes(v: uint32): (b: seq<uint8>)
    ensures |b| == 4
  {
    [v % 0x100, (v / 0x100) % 0x100, (v / 0x1_0000) % 0x100, v / 0x100_0000]
  }

  /** Writing a value as four bytes and reading them back gives the value. */
  lemma U32RoundTrip(v: uint32)
    ensures BytesToU32(U32ToBytes(v)) == v
  {
    var b := U32ToBytes(v);
    calc {
      BytesToU32(b);
      v % 0x100 + 0x100 * ((v / 0x100) % 0x100) + 0x1_0000 * ((v / 0x1_0000) % 0x100) + 0x100_0000 * (v / 0x100_0000);
      { assert (v / 0x100) % 0x100 == (v / 0x100) - 0x100 * (v / 0x1_0000);
        assert (v / 0x1_0000) % 0x100 == (v / 0x1_0000) - 0x100 * (v / 0x100_0000); }
      v % 0x100 + 0x100 * (v / 0x100);
      v;
    }
  }

  /** Reading four bytes and writing the value back gives the same bytes. */
  lemma BytesRoundTrip(b: seq<uint8>)
    requires |b| == 4
    ensures U32ToBytes(BytesToU32(b)) == b
  {
    var v := BytesToU32(b) as int;
    var hi2 := b[2] as int + 0x100 * (b[3] as int);
    var hi1 := b[1] as int + 0x100 * hi2;
    assert v == b[0] as int + 0x100 * hi1;
    assert v == b[0] as int + 0x100 * (b[1] as int) + 0x1_0000 * hi2;
    DivModUnique(v, 0x100, hi1, b[0] as int);
    DivModUnique(hi1, 0x100, hi2, b[1] as int);
    DivModUnique(v, 0x1_0000, hi2, b[0] as int + 0x100 * (b[1] as int));
    DivModUnique(hi2, 0x100, b[3] as int, b[2] as int);
  }

  lemma MulMonotone(w: nat, a: int, b: int)
    requires a <= b
    ensures w * a <= w * b
  {
    assert w * b - w * a == w * (b - a);
  }

  lemma MulOneBounds(a: int, m: int)
    requires a > 0
    ensures m >= 1 ==> a * m >= a
    ensures m <= -1 ==> a * m <= -a
  {
    if m >= 1 {
      assert a * m == a + a * (m - 1);
      MulMonotone(a, 0, m - 1);
    } else if m <= -1 {
      assert a * m == -a - a * (-m - 1);
      MulMonotone(a, 0, -m - 1);
    }
  }

  lemma DivModUnique(a: int, n: int, q: int, r: int)
    requires n > 0 && a == n * q + r && 0 <= r < n
    ensures a / n == q && a % n == r
  {
    var q', r' := a / n, a % n;
    assert a == n * q' + r';
    MulOneBounds(n, q - q');
    assert n * (q - q') == r' - r;
  }

  function Abs(a: int): (r: nat)
    ensures r == a || r == -a
  {
    if a < 0 then -a else a
  }

  /** PIF_max: one of its operands, no smaller than either; B on a tie. */
  function Max(a: int, b: int): (r: int)
    ensures (r == a || r == b) && r >= a && r >= b
    ensures a == b ==> r == b
  {
    if a > b then a else b
  }

  /** PIF_min: one of its operands, no larger than either; A on a tie. */
  function Min(a: int, b: int): (r: int)
    ensures (r == a || r == b) && r <= a && r <= b
    ensures a == b ==> r == a
  {
    if a > b then b else a
  }

  /** PIF_swap: the two values change places and nothing else changes. */
  method Swap<T>(a: T, b: T) returns (a': T, b': T)
    ensures a' == b && b' == a
  {
    var tmp := a;
    a' := b;
    b' := tmp;
  }
}

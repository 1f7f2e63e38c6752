/** Bytes and little-endian fields, shared by the framing and file modules. */
module Bytes {
  import opened Align

  type byte = x: int | 0 <= x < 256
  type U2 = x: nat | x < 0x1_0000
  type U4 = x: nat | x < 0x1_0000_0000
  type U8 = x: nat | x < 0x1_0000_0000_0000_0000

  function Pow256(k: nat): (p: nat)
    ensures p >= 1
  {
    if k == 0 then 1 else 256 * Pow256(k - 1)
  }

  /** The low k bytes of v, least significant first. */
  function LE(v: nat, k: nat): (s: seq<byte>)
    ensures |s| == k
  {
    if k == 0 then [] else [v % 256] + LE(v / 256, k - 1)
  }

  function FromLE(s: seq<byte>): nat {
    if s == [] then 0 else s[0] + 256 * FromLE(s[1..])
  }

  lemma {:induction false} FromLEBound(s: seq<byte>)
    ensures FromLE(s) < Pow256(|s|)
  {
    if s == [] {
    } else {
      FromLEBound(s[1..]);
    }
  }

  lemma {:induction false} FromLEofLE(v: nat, k: nat)
    requires v < Pow256(k)
    ensures FromLE(LE(v, k)) == v
  {
    if k == 0 {
    } else {
      assert v / 256 < Pow256(k - 1);
      FromLEofLE(v / 256, k - 1);
      assert LE(v, k)[1..] == LE(v / 256, k - 1);
    }
  }

  /** Dividing by 256 first. */
  lemma DivideTwice(v: nat, p: nat)
    requires p > 0
    ensures v / 256 / p == v / (256 * p)
  {
    var q, r := v / (256 * p), v % (256 * p);
    assert v == 256 * p * q + r;
    var x := q * p;
    assert 256 * p * q == 256 * x;
    assert v / 256 == x + r / 256;
    DivMul(q, p, r / 256);
  }

  /** Byte i of the encoding is digit i of the number to base 256. */
  lemma {:induction false} LEByte(v: nat, k: nat, i: nat)
    requires i < k
    ensures LE(v, k)[i] == v / Pow256(i) % 256
  {
    if i == 0 {
    } else {
      LEByte(v / 256, k - 1, i - 1);
      DivideTwice(v, Pow256(i - 1));
    }
  }

  lemma {:induction false} LEofFromLE(s: seq<byte>)
    ensures LE(FromLE(s), |s|) == s
  {
    if s == [] {
    } else {
      LEofFromLE(s[1..]);
    }
  }
}

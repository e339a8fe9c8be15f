/**
 * Unsigned big integers and their big-endian byte strings, the semantics of
 * the OpenSSL calls `BN_num_bits`, `BN_bn2bin` and `BN_bin2bn` that
 * `bigNumToBase64` and `base64URLToBignum` rely on
 * (ios/RCTCrypto/RCTRsaUtils.swift). A `BIGNUM` is a `nat`.
 */
module BigNum {
  import opened Bytes

  function Pow2(k: nat): (p: nat)
    ensures p >= 1
  {
    if k == 0 then 1 else 2 * Pow2(k - 1)
  }

  function Pow256(k: nat): (p: nat)
    ensures p >= 1
  {
    if k == 0 then 1 else 256 * Pow256(k - 1)
  }

  lemma {:induction false} Pow256IsPow2(k: nat)
    ensures Pow256(k) == Pow2(8 * k)
  {
    if k > 0 {
      Pow256IsPow2(k - 1);
      assert Pow2(8 * k) == 256 * Pow2(8 * (k - 1)) by {
        var m := 8 * (k - 1);
        assert Pow2(m + 8) == 2 * Pow2(m + 7) == 4 * Pow2(m + 6) == 8 * Pow2(m + 5) == 16 * Pow2(m + 4);
        assert Pow2(m + 4) == 2 * Pow2(m + 3) == 4 * Pow2(m + 2) == 8 * Pow2(m + 1) == 16 * Pow2(m);
      }
    }
  }

  lemma {:induction false} Pow2Below(a: nat, b: nat)
    requires a < b
    ensures Pow2(a) < Pow2(b)
    decreases b
  {
    if a < b - 1 {
      Pow2Below(a, b - 1);
    }
  }

  /** `BN_num_bits`: the number of significant bits, 0 for zero. */
  function NumBits(v: nat): (r: nat)
    ensures v == 0 <==> r == 0
    ensures v > 0 ==> Pow2(r - 1) <= v < Pow2(r)
  {
    if v == 0 then 0 else 1 + NumBits(v / 2)
  }

  /**
   * The minimal big-endian bytes of `v`, as `BN_bn2bin` writes them: no
   * leading zero byte, and zero as the empty string.
   */
  function ToBigEndian(v: nat): (r: seq<Byte>)
    ensures v == 0 <==> r == []
    ensures r != [] ==> r[0] != 0
    ensures r != [] ==> Pow256(|r| - 1) <= v < Pow256(|r|)
  {
    if v == 0 then [] else ToBigEndian(v / 256) + [v % 256]
  }

  /** `BN_bin2bn`: the unsigned value of big-endian bytes, 0 for the empty string. */
  function FromBigEndian(b: seq<Byte>): (v: nat)
    ensures v < Pow256(|b|)
  {
    if b == [] then 0 else 256 * FromBigEndian(b[..|b| - 1]) + b[|b| - 1]
  }

  /** Leading zero bytes dropped. */
  function StripLeadingZeros(b: seq<Byte>): (r: seq<Byte>)
    ensures |r| <= |b|
    ensures r == [] || r[0] != 0
  {
    if b != [] && b[0] == 0 then StripLeadingZeros(b[1..]) else b
  }

  /** What `StripLeadingZeros` drops is a run of zero bytes, and what it keeps is the rest. */
  lemma {:induction false} StripLeadingZerosSplit(b: seq<Byte>)
    ensures var r := StripLeadingZeros(b);
      && r == b[|b| - |r|..]
      && forall i :: 0 <= i < |b| - |r| ==> b[i] == 0
  {
    if b != [] && b[0] == 0 {
      StripLeadingZerosSplit(b[1..]);
    }
  }

  /** A number below `2^a` and at least `2^(b - 1)` forces `b <= a`. */
  lemma ExponentOrder(v: nat, a: nat, b: nat)
    requires b >= 1 && Pow2(b - 1) <= v < Pow2(a)
    ensures b <= a
  {
    if b > a {
      Pow2Below(a, b - 1);
    }
  }

  /** A value of `n` bytes has between `8 * n - 7` and `8 * n` significant bits. */
  lemma BitsOfBytes(v: nat)
    requires v > 0
    ensures 8 * |ToBigEndian(v)| - 7 <= NumBits(v) <= 8 * |ToBigEndian(v)|
  {
    var n, m := |ToBigEndian(v)|, NumBits(v);
    Pow256IsPow2(n);
    Pow256IsPow2(n - 1);
    ExponentOrder(v, 8 * n, m);
    ExponentOrder(v, m, 8 * (n - 1) + 1);
  }

  /** `BN_num_bytes`: the byte length is the bit length rounded up to whole bytes. */
  lemma ByteLength(v: nat)
    ensures |ToBigEndian(v)| == (NumBits(v) + 7) / 8
  {
    if v > 0 {
      BitsOfBytes(v);
      var n, m := |ToBigEndian(v)|, NumBits(v);
      assert 8 * (n - 1) <= m - 1 < 8 * n;
    }
  }

  /** `BN_bin2bn` inverts `BN_bn2bin`. */
  lemma {:induction false} FromToBigEndian(v: nat)
    ensures FromBigEndian(ToBigEndian(v)) == v
  {
    if v > 0 {
      var r := ToBigEndian(v);
      assert r[..|r| - 1] == ToBigEndian(v / 256);
      FromToBigEndian(v / 256);
    }
  }

  lemma {:induction false} StripAppend(a: seq<Byte>, x: Byte)
    ensures StripLeadingZeros(a + [x]) ==
      if StripLeadingZeros(a) == [] && x == 0 then [] else StripLeadingZeros(a) + [x]
  {
    if a != [] && a[0] == 0 {
      assert (a + [x])[1..] == a[1..] + [x];
      StripAppend(a[1..], x);
    } else if a == [] {
      assert StripLeadingZeros([x]) == if x == 0 then StripLeadingZeros([]) else [x];
    }
  }

  /** `BN_bn2bin` after `BN_bin2bn` gives back the input without its leading zero bytes. */
  lemma {:induction false} ToFromBigEndian(b: seq<Byte>)
    ensures ToBigEndian(FromBigEndian(b)) == StripLeadingZeros(b)
  {
    if b != [] {
      var init, x := b[..|b| - 1], b[|b| - 1];
      assert b == init + [x];
      ToFromBigEndian(init);
      StripAppend(init, x);
      var f := FromBigEndian(init);
      var v := 256 * f + x;
      assert v / 256 == f && v % 256 == x;
    }
  }

  /**
   * `BN_bn2bin(v, to)` into a buffer of `(BN_num_bits(v) + 7) / 8` bytes:
   * fills it from the last byte back with the big-endian digits of `v`.
   */
  method Bn2Bin(v: nat, to: array<Byte>)
    requires to.Length == (NumBits(v) + 7) / 8
    modifies to
    ensures to[..] == ToBigEndian(v)
  {
    ByteLength(v);
    var x, i := v, to.Length;
    while i > 0
      invariant 0 <= i <= to.Length
      invariant ToBigEndian(x) + to[i..] == ToBigEndian(v)
    {
      var digits := ToBigEndian(x / 256);
      assert ToBigEndian(x) == digits + [x % 256];
      i := i - 1;
      to[i] := x % 256;
      assert digits + to[i..] == ToBigEndian(v) by {
        assert to[i..] == [x % 256] + to[i + 1..];
      }
      x := x / 256;
    }
    assert to[..] == to[0..];
  }
}

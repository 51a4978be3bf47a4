/** Bytes and the fixed-width integer encodings used by the UnityFS metadata and the LZMA framing. */
module Bytes {

  newtype byte = x: int | 0 <= x < 256

  /** 256 to the power `w`: one more than the largest value a `w`-byte field holds. */
  function Pow256(w: nat): (r: nat)
    ensures r >= 1
  {
    if w == 0 then 1 else 256 * Pow256(w - 1)
  }

  const UINT32_LIMIT: nat := 0x1_0000_0000
  const UINT64_LIMIT: nat := 0x1_0000_0000_0000_0000

  /** C++ `uint32_t`, `uint64_t` and `uint16_t` values. */
  type u16 = x: int | 0 <= x < 0x1_0000
  type u32 = x: int | 0 <= x < 0x1_0000_0000
  type u64 = x: int | 0 <= x < 0x1_0000_0000_0000_0000

  lemma Pow256Values()
    ensures Pow256(2) == 0x1_0000 && Pow256(4) == UINT32_LIMIT && Pow256(8) == UINT64_LIMIT
  {
    assert Pow256(4) == 256 * 256 * Pow256(2);
    assert Pow256(8) == 256 * 256 * 256 * 256 * Pow256(4);
  }

  /** Big-endian u16, u32 and u64 fields. */
  function DecodeU16(s: seq<byte>): u16
    requires |s| == 2
  {
    Pow256Values();
    DecodeBE(s)
  }

  function DecodeU32(s: seq<byte>): u32
    requires |s| == 4
  {
    Pow256Values();
    DecodeBE(s)
  }

  function DecodeU64(s: seq<byte>): u64
    requires |s| == 8
  {
    Pow256Values();
    DecodeBE(s)
  }

  /** `n` written as `w` bytes, most significant first (the byte order of every UnityFS field). */
  function EncodeBE(n: nat, w: nat): (r: seq<byte>)
    requires n < Pow256(w)
    ensures |r| == w
  {
    if w == 0 then [] else EncodeBE(n / 256, w - 1) + [(n % 256) as byte]
  }

  /** The unsigned value of a big-endian byte sequence. */
  function DecodeBE(s: seq<byte>): (r: nat)
    ensures r < Pow256(|s|)
  {
    if s == [] then 0 else DecodeBE(s[..|s| - 1]) * 256 + s[|s| - 1] as nat
  }

  lemma {:induction false} DecodeEncodeBE(n: nat, w: nat)
    requires n < Pow256(w)
    ensures DecodeBE(EncodeBE(n, w)) == n
  {
    if w > 0 {
      var s := EncodeBE(n, w);
      assert s[..|s| - 1] == EncodeBE(n / 256, w - 1);
      DecodeEncodeBE(n / 256, w - 1);
    }
  }

  lemma {:induction false} EncodeDecodeBE(s: seq<byte>)
    ensures EncodeBE(DecodeBE(s), |s|) == s
  {
    if s != [] {
      EncodeDecodeBE(s[..|s| - 1]);
      assert s == s[..|s| - 1] + [s[|s| - 1]];
    }
  }

  /** `n` written as `w` bytes, least significant first (the LZMA-alone size field). */
  function EncodeLE(n: nat, w: nat): (r: seq<byte>)
    ensures |r| == w
  {
    if w == 0 then [] else [(n % 256) as byte] + EncodeLE(n / 256, w - 1)
  }

  /** The unsigned value of a little-endian byte sequence. */
  function DecodeLE(s: seq<byte>): (r: nat)
    ensures r < Pow256(|s|)
  {
    if s == [] then 0 else s[0] as nat + 256 * DecodeLE(s[1..])
  }

  lemma {:induction false} DecodeEncodeLE(n: nat, w: nat)
    requires n < Pow256(w)
    ensures DecodeLE(EncodeLE(n, w)) == n
  {
    if w > 0 {
      var s := EncodeLE(n, w);
      assert s[1..] == EncodeLE(n / 256, w - 1);
      DecodeEncodeLE(n / 256, w - 1);
    }
  }

  /** Byte `i` of the little-endian form is `(n >> 8i) & 0xFF`, as the C++ loop computes it. */
  lemma {:induction false} EncodeLEAt(n: nat, w: nat, i: nat)
    requires i < w
    ensures EncodeLE(n, w)[i] as nat == (n / Pow256(i)) % 256
  {
    if i > 0 {
      EncodeLEAt(n / 256, w - 1, i - 1);
      DivDiv(n, 256, Pow256(i - 1));
    }
  }

  lemma DivDiv(n: nat, a: nat, b: nat)
    requires a > 0 && b > 0
    ensures n / a / b == n / (a * b)
  {
    var q, r := n / a, n % a;
    var q2, r2 := q / b, q % b;
    DivDivSplit(n, a, b, q, r, q2, r2);
    DivDivBound(a, b, r, r2);
    DivUnique(n, a * b, q2, a * r2 + r);
  }

  lemma DivDivSplit(n: nat, a: nat, b: nat, q: nat, r: nat, q2: nat, r2: nat)
    requires n == a * q + r && q == b * q2 + r2
    ensures n == (a * b) * q2 + (a * r2 + r)
  {
    calc {
      n;
      a * (b * q2 + r2) + r;
      { MulDistrib(a, b * q2, r2); }
      a * (b * q2) + a * r2 + r;
      { MulAssoc(a, b, q2); }
      (a * b) * q2 + (a * r2 + r);
    }
  }

  lemma DivDivBound(a: nat, b: nat, r: nat, r2: nat)
    requires r < a && r2 < b
    ensures a * r2 + r < a * b
  {
    MulLeq(a, r2, b - 1);
    MulDistrib(a, b - 1, 1);
  }

  lemma MulDistrib(a: int, b: int, c: int)
    ensures a * (b + c) == a * b + a * c
  {
  }

  lemma MulAssoc(a: int, b: int, c: int)
    ensures a * (b * c) == (a * b) * c
  {
  }

  lemma MulLeq(a: nat, x: nat, y: nat)
    requires x <= y
    ensures a * x <= a * y
  {
  }

  lemma DivUnique(n: nat, d: nat, q: nat, r: nat)
    requires d > 0 && r < d && n == d * q + r
    ensures n / d == q
  {
    var q', r' := n / d, n % d;
    assert n == d * q' + r';
    if q' > q {
      MulLeq(d, q + 1, q');
      MulDistrib(d, q, 1);
    } else if q' < q {
      MulLeq(d, q' + 1, q);
      MulDistrib(d, q', 1);
    }
  }

  /** Once `n` fits in `k` bytes, every byte of the little-endian form from `k` on is zero. */
  lemma {:induction false} EncodeLEHighZero(n: nat, w: nat, k: nat, i: nat)
    requires n < Pow256(k) && k <= i < w
    ensures EncodeLE(n, w)[i] == 0
  {
    EncodeLEAt(n, w, i);
    Pow256Mono(k, i);
    DivUnique(n, Pow256(i), 0, n);
  }

  lemma {:induction false} Pow256Mono(a: nat, b: nat)
    requires a <= b
    ensures Pow256(a) <= Pow256(b)
  {
    if a < b { Pow256Mono(a, b - 1); }
  }

  /** A NUL-free byte string followed by its terminator, as `ReadStringToNull` expects it. */
  predicate NulFree(s: seq<byte>)
  {
    forall i :: 0 <= i < |s| ==> s[i] != 0
  }

  /** The length of the NUL-free prefix of `s`. */
  function NulIndex(s: seq<byte>): (r: nat)
    ensures r <= |s|
    ensures NulFree(s[..r])
    ensures r < |s| ==> s[r] == 0
  {
    if s == [] then 0
    else if s[0] == 0 then 0
    else
      var k := NulIndex(s[1..]);
      assert s[..k + 1] == [s[0]] + s[1..][..k];
      k + 1
  }

  lemma {:induction false} NulIndexOfTerminated(p: seq<byte>, rest: seq<byte>)
    requires NulFree(p)
    ensures NulIndex(p + [0] + rest) == |p|
  {
    if p != [] {
      assert (p + [0] + rest)[1..] == p[1..] + [0] + rest;
      NulIndexOfTerminated(p[1..], rest);
    }
  }

  /** `memcpy(dst + offset, src, |src|)`. */
  method CopyInto(src: seq<byte>, dst: array<byte>, offset: nat)
    requires offset + |src| <= dst.Length
    modifies dst
    ensures dst[..] == old(dst[..offset]) + src + old(dst[offset + |src|..])
  {
    var i := 0;
    while i < |src|
      invariant 0 <= i <= |src|
      invariant dst[..offset] == old(dst[..offset])
      invariant dst[offset..offset + i] == src[..i]
      invariant dst[offset + i..] == old(dst[offset + i..])
    {
      dst[offset + i] := src[i];
      i := i + 1;
      assert dst[offset..offset + i] == dst[offset..offset + i - 1] + [dst[offset + i - 1]];
    }
    assert dst[..] == dst[..offset] + dst[offset..offset + |src|] + dst[offset + |src|..];
  }
}

/** Bytes of a DataView and the little-endian integer codec that `getUintN`/`setUintN`
    (with `littleEndian = true`) implement. */
module Bytes {

  type byte = b: int | 0 <= b < 256

  /** 256^w: the number of distinct values of a w-byte field. */
  function Pow256(w: nat): (p: nat)
    ensures p >= 1
    ensures w >= 1 ==> p >= 256 && p % 2 == 0
  {
    if w == 0 then 1 else 256 * Pow256(w - 1)
  }

  /** Unsigned little-endian value of `s`: `s[0]` is the least significant byte. */
  function DecodeLE(s: seq<byte>): (n: nat)
    ensures n < Pow256(|s|)
  {
    if s == [] then 0
    else
      var rest := DecodeLE(s[1..]);
      assert 256 * rest <= 256 * (Pow256(|s| - 1) - 1);
      s[0] + 256 * rest
  }

  /** The w bytes that `setUint{8w}(off, n, true)` stores: ToUint{8w} is reduction modulo 256^w,
      which happens here byte by byte. */
  function EncodeLE(n: int, w: nat): (s: seq<byte>)
    ensures |s| == w
    decreases w
  {
    if w == 0 then [] else [n % 256] + EncodeLE(n / 256, w - 1)
  }

  /** Two's-complement reading of an unsigned w-byte value (`getInt{8w}`). */
  function ToSigned(u: nat, w: nat): (v: int)
    requires 1 <= w && u < Pow256(w)
    ensures 0 <= v + Pow256(w) / 2 && v < Pow256(w) / 2
    ensures v % Pow256(w) == u
  {
    var p := Pow256(w);
    if u >= p / 2 then
      DivModUnique(u - p, p, -1, u);
      u - p
    else
      DivModUnique(u, p, 0, u);
      u
  }

  /** The value of the w bytes at `off` (`getUint{8w}(off, true)`). */
  function ReadLE(buf: seq<byte>, off: nat, w: nat): (n: nat)
    requires off + w <= |buf|
    ensures n < Pow256(w)
  {
    DecodeLE(buf[off..off + w])
  }

  /** `buf` with `bytes` stored from `off` onwards; bytes that would fall past the end of
      `buf` are dropped, since a typed array never grows. */
  function Overlay(buf: seq<byte>, off: nat, bytes: seq<byte>): (r: seq<byte>)
    ensures |r| == |buf|
    ensures off + |bytes| <= |buf| ==> r[off..off + |bytes|] == bytes
    ensures forall k :: 0 <= k < |buf| && !(off <= k < off + |bytes|) ==> r[k] == buf[k]
    ensures forall k :: off <= k < |buf| && k < off + |bytes| ==> r[k] == bytes[k - off]
  {
    seq(|buf|, k requires 0 <= k < |buf| => if off <= k < off + |bytes| then bytes[k - off] else buf[k])
  }

  /** Bytes stored up to the very end of `buf` replace its tail. */
  lemma OverlayTail(buf: seq<byte>, off: nat, bytes: seq<byte>)
    requires off + |bytes| == |buf|
    ensures Overlay(buf, off, bytes) == buf[..off] + bytes
  {
    var r := Overlay(buf, off, bytes);
    assert forall k :: 0 <= k < |buf| ==> r[k] == (buf[..off] + bytes)[k];
  }

  /** Storing the bytes a buffer already holds changes nothing. */
  lemma OverlaySame(buf: seq<byte>, off: nat, bytes: seq<byte>)
    requires off + |bytes| <= |buf| && buf[off..off + |bytes|] == bytes
    ensures Overlay(buf, off, bytes) == buf
  {
    var r := Overlay(buf, off, bytes);
    forall k | 0 <= k < |buf|
      ensures r[k] == buf[k]
    {
      if off <= k < off + |bytes| {
        assert buf[off..off + |bytes|][k - off] == buf[k];
      }
    }
  }

  /** n mod (a*b) splits into the low digit and the next one up. */
  lemma ModOfProduct(n: int, a: int, b: int)
    requires a > 0 && b > 0
    ensures n % (a * b) == n % a + a * ((n / a) % b)
  {
    var q := n / a;
    var r := n % a;
    var q2 := q / b;
    var r2 := q % b;
    assert n == a * q + r;
    assert q == b * q2 + r2;
    assert n == (a * b) * q2 + (a * r2 + r) by {
      assert a * q == a * (b * q2 + r2) == (a * b) * q2 + a * r2;
    }
    assert 0 <= a * r2 + r < a * b by {
      var gap := b - 1 - r2;
      MulNonNegative(a, r2);
      MulNonNegative(a, gap);
      assert a * b == a * r2 + a * gap + a;
    }
    DivModUnique(n, a * b, q2, a * r2 + r);
  }

  lemma DivModUnique(n: int, d: int, q: int, r: int)
    requires d > 0 && 0 <= r < d && n == d * q + r
    ensures n % d == r && n / d == q
  {
    var q0, r0 := n / d, n % d;
    assert d * q0 + r0 == n;
    if q0 != q {
      var k := q0 - q;
      assert d * k == r - r0 by {
        assert d * q0 - d * q == d * k;
      }
      if k >= 1 {
        MulAtLeast(d, k);
      } else {
        MulAtLeast(d, -k);
      }
    }
  }

  lemma MulNonNegative(a: nat, b: nat)
    ensures a * b >= 0
  {
  }

  /** n copies of m are one copy and n - 1 more. */
  lemma MulPred(n: nat, m: nat)
    requires n > 0
    ensures n * m == m + (n - 1) * m
  {
  }

  lemma MulAtLeast(d: int, k: int)
    requires d > 0 && k >= 1
    ensures d * k >= d
  {
    assert d * k == d + d * (k - 1);
  }

  /** Reading back what was stored gives the stored value reduced to the field width. */
  lemma {:induction false} DecodeEncode(n: int, w: nat)
    ensures DecodeLE(EncodeLE(n, w)) == n % Pow256(w)
    decreases w
  {
    if w > 0 {
      var s := EncodeLE(n, w);
      assert s[1..] == EncodeLE(n / 256, w - 1);
      DecodeEncode(n / 256, w - 1);
      ModOfProduct(n, 256, Pow256(w - 1));
    }
  }

  /** A value that fits in w bytes is read back exactly. */
  lemma DecodeEncodeFits(n: nat, w: nat)
    requires n < Pow256(w)
    ensures DecodeLE(EncodeLE(n, w)) == n
  {
    DecodeEncode(n, w);
    DivModUnique(n, Pow256(w), 0, n);
  }

  /** Storing the value just read rewrites the same bytes. */
  lemma {:induction false} EncodeDecode(s: seq<byte>)
    ensures EncodeLE(DecodeLE(s), |s|) == s
  {
    if s != [] {
      var n := DecodeLE(s);
      assert n == s[0] + 256 * DecodeLE(s[1..]);
      assert n % 256 == s[0] && n / 256 == DecodeLE(s[1..]) by {
        DivModUnique(n, 256, DecodeLE(s[1..]), s[0]);
      }
      EncodeDecode(s[1..]);
    }
  }

  /** Only the value modulo 256^w reaches the buffer (JavaScript's ToUint32/ToInt32 and friends). */
  lemma EncodeMod(n: int, w: nat)
    ensures EncodeLE(n, w) == EncodeLE(n % Pow256(w), w)
  {
    DecodeEncode(n, w);
    EncodeDecode(EncodeLE(n, w));
  }

  /** Reading the w bytes just stored at `off` yields the stored value modulo 256^w. */
  lemma ReadOverlay(buf: seq<byte>, off: nat, n: int, w: nat)
    requires off + w <= |buf|
    ensures ReadLE(Overlay(buf, off, EncodeLE(n, w)), off, w) == n % Pow256(w)
  {
    DecodeEncode(n, w);
  }
}

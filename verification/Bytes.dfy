/** Bytes, fixed-width integers and their little-endian form. */
module Bytes {

  type byte = b: int | 0 <= b < 256
  type uint8 = n: int | 0 <= n < 0x100
  type uint16 = n: int | 0 <= n < 0x1_0000
  type uint32 = n: int | 0 <= n < 0x1_0000_0000
  type uint64 = n: int | 0 <= n < 0x1_0000_0000_0000_0000
  type int8 = n: int | -0x80 <= n < 0x80
  type int16 = n: int | -0x8000 <= n < 0x8000
  type int32 = n: int | -0x8000_0000 <= n < 0x8000_0000
  type int64 = n: int | -0x8000_0000_0000_0000 <= n < 0x8000_0000_0000_0000

  /** A Go string: any sequence of bytes. */
  type GoString = seq<byte>

  function Pow256(w: nat): (p: nat)
    ensures p > 0
  {
    if w == 0 then 1 else 256 * Pow256(w - 1)
  }

  /** The low `w` bytes of `n`, least significant first. */
  function LE(n: nat, w: nat): (s: seq<byte>)
    ensures |s| == w
  {
    if w == 0 then [] else [n % 256] + LE(n / 256, w - 1)
  }

  function FromLE(s: seq<byte>): nat {
    if s == [] then 0 else s[0] + 256 * FromLE(s[1..])
  }

  lemma {:induction false} LERoundTrip(n: nat, w: nat)
    requires n < Pow256(w)
    ensures FromLE(LE(n, w)) == n
  {
    if w > 0 {
      LERoundTrip(n / 256, w - 1);
      assert LE(n, w)[1..] == LE(n / 256, w - 1);
    }
  }

  lemma {:induction false} FromLEBound(s: seq<byte>)
    ensures FromLE(s) < Pow256(|s|)
  {
    if s != [] {
      FromLEBound(s[1..]);
    }
  }

  lemma {:induction false} FromLERoundTrip(s: seq<byte>)
    ensures LE(FromLE(s), |s|) == s
  {
    if s != [] {
      FromLERoundTrip(s[1..]);
      assert FromLE(s) / 256 == FromLE(s[1..]);
      assert s == [s[0]] + s[1..];
    }
  }

  /** The number that bytes stand for when each weighs 256 times as much as the one
      before it. */
  function Weighted(s: seq<byte>): nat {
    if s == [] then 0 else Weighted(s[..|s| - 1]) + s[|s| - 1] * Pow256(|s| - 1)
  }

  /** The byte that counts least comes first. */
  lemma {:induction false} FromLEIsWeighted(s: seq<byte>)
    ensures FromLE(s) == Weighted(s)
  {
    if s != [] {
      var front, last := s[..|s| - 1], s[|s| - 1];
      FromLEIsWeighted(front);
      FromLESnoc(front, last);
      assert s == front + [last];
    }
  }

  lemma {:induction false} FromLESnoc(s: seq<byte>, b: byte)
    ensures FromLE(s + [b]) == FromLE(s) + b * Pow256(|s|)
  {
    if s == [] {
      assert ([b])[1..] == [];
    } else {
      assert (s + [b])[1..] == s[1..] + [b];
      FromLESnoc(s[1..], b);
      OneByteUp(b, Pow256(|s| - 1));
    }
  }

  lemma OneByteUp(b: nat, p: nat)
    ensures b * (256 * p) == 256 * (b * p)
  {
  }

  /** The bytes of a number are its digits to the base 256, the last one first. */
  lemma {:induction false} LEIsWeighted(n: nat, w: nat)
    requires n < Pow256(w)
    ensures Weighted(LE(n, w)) == n
  {
    LERoundTrip(n, w);
    FromLEIsWeighted(LE(n, w));
  }

  /** Quotient and remainder are unique. */
  lemma DivisionIs(n: nat, q: nat, r: nat, m: nat)
    requires r < m && n == q * m + r
    ensures n / m == q && n % m == r
  {
    var d := n / m - q;
    assert n == (n / m) * m + n % m;
    assert d * m == r - n % m;
    MultipleIsFar(d, m);
  }

  lemma MultipleIsFar(d: int, m: nat)
    ensures d >= 1 ==> d * m >= m
    ensures d <= -1 ==> d * m + m <= 0
  {
    if d >= 1 {
      assert (d - 1) * m >= 0;
    } else if d <= -1 {
      assert (-1 - d) * m >= 0;
    }
  }

  /** The widths in use, spelt out for the solver. */
  lemma Pow256Values()
    ensures Pow256(1) == 0x100 && Pow256(2) == 0x1_0000
    ensures Pow256(4) == 0x1_0000_0000 && Pow256(8) == 0x1_0000_0000_0000_0000
  {
    assert Pow256(3) == 0x100_0000;
    assert Pow256(5) == 0x100_0000_0000;
    assert Pow256(6) == 0x1_0000_0000_0000;
    assert Pow256(7) == 0x100_0000_0000_0000;
  }

  /** Two's complement of a signed integer in `w` bytes, as an unsigned one. */
  function TwosComplement(i: int, w: nat): (n: nat)
    requires w > 0 && 0 <= 2 * i + Pow256(w) < 2 * Pow256(w)
    ensures n < Pow256(w)
  {
    if i < 0 then i + Pow256(w) else i
  }

  function FromTwosComplement(n: nat, w: nat): (i: int)
    requires w > 0 && n < Pow256(w)
    ensures 0 <= 2 * i + Pow256(w) < 2 * Pow256(w)
  {
    if 2 * n >= Pow256(w) then n - Pow256(w) else n
  }

  function Zeros(n: nat): (s: seq<byte>)
    ensures |s| == n && forall k :: 0 <= k < n ==> s[k] == 0
  {
    seq(n, _ => 0)
  }

  /** `copy(img[off:], d)` on a value. */
  function Blit(img: seq<byte>, off: nat, d: seq<byte>): (r: seq<byte>)
    requires off + |d| <= |img|
    ensures |r| == |img|
    ensures r[off..off + |d|] == d
    ensures forall k :: 0 <= k < |img| && !(off <= k < off + |d|) ==> r[k] == img[k]
  {
    img[..off] + d + img[off + |d|..]
  }

  /** `data` carries `bytes` at position `off`. */
  predicate HoldsAt(data: seq<byte>, off: nat, bytes: seq<byte>) {
    off + |bytes| <= |data| && data[off..off + |bytes|] == bytes
  }

  lemma HoldsAtSplit(data: seq<byte>, off: nat, a: seq<byte>, b: seq<byte>)
    requires HoldsAt(data, off, a + b)
    ensures HoldsAt(data, off, a) && HoldsAt(data, off + |a|, b)
  {
    var window := data[off..off + |a + b|];
    assert data[off..off + |a|] == window[..|a|] == a;
    assert data[off + |a|..off + |a| + |b|] == window[|a|..] == b;
  }

  /** A buffer that carries an image carries what the image carries. */
  lemma HoldsAtNested(data: seq<byte>, off: nat, img: seq<byte>, at: nat, part: seq<byte>)
    requires HoldsAt(data, off, img) && HoldsAt(img, at, part)
    ensures HoldsAt(data[off..], at, part)
  {
    var tail := data[off..];
    assert tail[..|img|] == img;
    SliceOfPrefix(tail, |img|, at, at + |part|);
  }

  lemma SliceOfPrefix(s: seq<byte>, n: nat, low: nat, high: nat)
    requires low <= high <= n <= |s|
    ensures s[..n][low..high] == s[low..high]
  {
  }

  lemma HoldsAtDrop(data: seq<byte>, a: nat, b: nat, bytes: seq<byte>)
    requires HoldsAt(data, b + a, bytes)
    ensures a <= |data| && b <= |data[a..]| && HoldsAt(data[a..][b..], 0, bytes)
  {
    assert data[a..][b..][..|bytes|] == data[b + a..b + a + |bytes|];
  }
}

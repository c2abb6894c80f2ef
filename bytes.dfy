/** Bytes, fixed-width little-endian integers (Ruby's `pack('L<')` and
    `pack('Q<')`) and the effect of writing bytes into a file at a position. */
module Bytes {

  newtype byte = b: int | 0 <= b < 256

  /** The number of values an unsigned 32-bit field can hold. */
  const U32Limit: nat := 0x1_0000_0000
  /** The number of values an unsigned 64-bit field can hold. */
  const U64Limit: nat := 0x1_0000_0000_0000_0000

  function Max(a: int, b: int): int {
    if a < b then b else a
  }

  function Pow256(width: nat): (r: nat)
    ensures r >= 1
  {
    if width == 0 then 1 else 256 * Pow256(width - 1)
  }

  lemma Pow256Limits()
    ensures Pow256(4) == U32Limit
    ensures Pow256(8) == U64Limit
  {
    assert Pow256(4) == 256 * 256 * 256 * 256;
  }

  /** The low `width` bytes of `x`, least significant first. Like `pack`,
      this keeps only the bits that fit: higher bits are dropped. */
  function LeBytes(x: nat, width: nat): (r: seq<byte>)
    ensures |r| == width
  {
    if width == 0 then [] else [(x % 256) as byte] + LeBytes(x / 256, width - 1)
  }

  /** The unsigned number whose little-endian bytes are `s` (`unpack`). */
  function LeValue(s: seq<byte>): nat
  {
    if s == [] then 0 else s[0] as nat + 256 * LeValue(s[1..])
  }

  function U32(x: nat): (r: seq<byte>)
    ensures |r| == 4
  {
    LeBytes(x, 4)
  }

  function U64(x: nat): (r: seq<byte>)
    ensures |r| == 8
  {
    LeBytes(x, 8)
  }

  /** Decoding what was encoded gives the number back when it fits. */
  lemma {:induction false} LeRoundTrip(x: nat, width: nat)
    requires x < Pow256(width)
    ensures LeValue(LeBytes(x, width)) == x
  {
    if width > 0 {
      assert x / 256 < Pow256(width - 1);
      LeRoundTrip(x / 256, width - 1);
      assert LeBytes(x, width)[1..] == LeBytes(x / 256, width - 1);
    }
  }

  /** Encoding a decoded field gives the same bytes back, and a decoded
      field always fits its width. */
  lemma {:induction false} LeValueRoundTrip(s: seq<byte>)
    ensures LeValue(s) < Pow256(|s|)
    ensures LeBytes(LeValue(s), |s|) == s
  {
    if s != [] {
      LeValueRoundTrip(s[1..]);
      var v := LeValue(s);
      assert v % 256 == s[0] as nat && v / 256 == LeValue(s[1..]);
      assert LeBytes(v, |s|) == [s[0]] + s[1..];
    }
  }

  /** A field that is too large is stored modulo its width, as `pack` does. */
  lemma {:induction false} LeTruncates(x: nat, width: nat)
    ensures LeValue(LeBytes(x, width)) == x % Pow256(width)
  {
    if width > 0 {
      LeTruncates(x / 256, width - 1);
      assert LeBytes(x, width)[1..] == LeBytes(x / 256, width - 1);
      ModNested(x, Pow256(width - 1));
    }
  }

  lemma ModNested(x: nat, p: nat)
    requires p > 0
    ensures x % (256 * p) == x % 256 + 256 * ((x / 256) % p)
  {
    var q, r0 := x / 256, x % 256;
    var q2, r1 := q / p, q % p;
    assert x == 256 * q + r0;
    assert q == p * q2 + r1;
    MulAssoc(256, p, q2);
    assert x == (256 * p) * q2 + (256 * r1 + r0);
    ModOfSum(x, 256 * p, q2, 256 * r1 + r0);
  }

  lemma MulAssoc(a: nat, b: nat, c: nat)
    ensures a * (b * c) == (a * b) * c
  {
  }

  lemma ModOfSum(x: nat, m: nat, q: nat, r: nat)
    requires m > 0 && r < m && x == m * q + r
    ensures x % m == r
  {
    var q', r' := x / m, x % m;
    assert x == m * q' + r';
    if q > q' {
      assert m * (q - q') == r' - r;
      MulAtLeast(m, q - q');
    } else if q < q' {
      assert m * (q' - q) == r - r';
      MulAtLeast(m, q' - q);
    }
  }

  lemma {:induction false} MulAtLeast(m: nat, d: nat)
    requires d >= 1
    ensures m * d >= m
  {
    if d > 1 {
      MulAtLeast(m, d - 1);
      assert m * d == m * (d - 1) + m;
    }
  }

  lemma U32RoundTrip(x: nat)
    requires x < U32Limit
    ensures LeValue(U32(x)) == x
  {
    Pow256Limits();
    LeRoundTrip(x, 4);
  }

  lemma U64RoundTrip(x: nat)
    requires x < U64Limit
    ensures LeValue(U64(x)) == x
  {
    Pow256Limits();
    LeRoundTrip(x, 8);
  }

  function Zeros(n: nat): (r: seq<byte>)
    ensures |r| == n
    ensures forall i | 0 <= i < n :: r[i] == 0
  {
    seq(n, _ => 0)
  }

  /** The file contents after writing `bytes` at position `pos`: the written
      bytes replace what was there, the file grows when the write runs past
      its end, and a gap between the old end and `pos` reads as zeros. An
      empty write changes nothing, even past the end. */
  function Overwrite(s: seq<byte>, pos: nat, bytes: seq<byte>): (r: seq<byte>)
    ensures |r| == if bytes == [] then |s| else Max(|s|, pos + |bytes|)
    ensures forall i | pos <= i < pos + |bytes| :: r[i] == bytes[i - pos]
    ensures forall i | 0 <= i < |s| && !(pos <= i < pos + |bytes|) :: r[i] == s[i]
    ensures forall i | |s| <= i < pos && i < |r| :: r[i] == 0
  {
    if bytes == [] then s else
    seq(Max(|s|, pos + |bytes|), i =>
      if pos <= i < pos + |bytes| then bytes[i - pos]
      else if 0 <= i < |s| then s[i]
      else 0)
  }

  /** An empty write leaves the file as it was, wherever the cursor is. */
  lemma OverwriteNothing(s: seq<byte>, pos: nat)
    ensures Overwrite(s, pos, []) == s
  {
  }

  lemma OverwriteAppends(s: seq<byte>, bytes: seq<byte>)
    ensures Overwrite(s, |s|, bytes) == s + bytes
  {
    var r := Overwrite(s, |s|, bytes);
    assert forall i | 0 <= i < |r| :: r[i] == (s + bytes)[i];
  }

  /** Two writes back to back are one write of both. */
  lemma OverwriteTwice(s: seq<byte>, pos: nat, a: seq<byte>, b: seq<byte>)
    ensures Overwrite(Overwrite(s, pos, a), pos + |a|, b) == Overwrite(s, pos, a + b)
  {
    var l := Overwrite(Overwrite(s, pos, a), pos + |a|, b);
    var r := Overwrite(s, pos, a + b);
    assert |l| == |r|;
    forall i | 0 <= i < |r| ensures l[i] == r[i] {
      if pos <= i < pos + |a| {
        assert (a + b)[i - pos] == a[i - pos];
      } else if pos + |a| <= i < pos + |a| + |b| {
        assert (a + b)[i - pos] == b[i - pos - |a|];
      }
    }
  }

  /** Bytes outside the written range keep their value. */
  lemma OverwriteKeeps(s: seq<byte>, pos: nat, bytes: seq<byte>, lo: nat, hi: nat)
    requires lo <= hi <= |s|
    requires hi <= pos || pos + |bytes| <= lo
    ensures Overwrite(s, pos, bytes)[lo..hi] == s[lo..hi]
  {
  }

  /** The written range reads as the written bytes. */
  lemma Written(s: seq<byte>, pos: nat, bytes: seq<byte>)
    requires bytes != [] || pos <= |s|
    ensures pos + |bytes| <= |Overwrite(s, pos, bytes)|
    ensures Overwrite(s, pos, bytes)[pos..pos + |bytes|] == bytes
  {
  }

  lemma DropAppend(a: seq<byte>, b: seq<byte>, n: nat)
    requires n <= |a|
    ensures (a + b)[n..] == a[n..] + b
  {
  }

  /** Slices of a concatenation that fall in one of its parts. */
  lemma AppendSlices(a: seq<byte>, b: seq<byte>, lo: nat, hi: nat)
    requires lo <= hi <= |a|
    ensures (a + b)[lo..hi] == a[lo..hi]
    ensures (a + b)[|a|..|a| + |b|] == b
  {
  }

  lemma MiddleSlice(a: seq<byte>, b: seq<byte>, c: seq<byte>)
    ensures (a + b + c)[|a|..|a| + |b|] == b
  {
  }

  lemma ConcatAssoc(a: seq<byte>, b: seq<byte>, c: seq<byte>, d: seq<byte>)
    ensures a + (b + c + d) == a + b + c + d
  {
  }

  /** Rewriting a middle piece with one of the same length. */
  lemma OverwriteMiddle(a: seq<byte>, b: seq<byte>, c: seq<byte>, b': seq<byte>)
    requires |b'| == |b|
    ensures Overwrite(a + b + c, |a|, b') == a + b' + c
  {
    var l := Overwrite(a + b + c, |a|, b');
    var r := a + b' + c;
    assert |l| == |r|;
    forall i | 0 <= i < |r| ensures l[i] == r[i] {
      if i < |a| {
        assert l[i] == (a + b + c)[i] == a[i];
      } else if i >= |a| + |b| {
        assert l[i] == (a + b + c)[i] == c[i - |a| - |b|];
      }
    }
  }
}

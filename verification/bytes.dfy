/** Bytes, little-endian fields, and storing byte strings in place. */
module Bytes {

  type byte = x: int | 0 <= x < 256

  // Little-endian fields.

  function Pow256(n: nat): (r: nat)
    ensures r > 0
  {
    if n == 0 then 1 else 256 * Pow256(n - 1)
  }

  /** The low `n` bytes of `v`. */
  function Le(v: nat, n: nat): (s: seq<byte>)
    ensures |s| == n
  {
    if n == 0 then [] else [v % 256] + Le(v / 256, n - 1)
  }

  function FromLe(s: seq<byte>): nat {
    if s == [] then 0 else s[0] + 256 * FromLe(s[1..])
  }

  /** A field holds a value modulo its width. */
  lemma {:induction false} LeRoundTrip(v: nat, n: nat)
    ensures FromLe(Le(v, n)) == v % Pow256(n)
  {
    if n > 0 {
      LeRoundTrip(v / 256, n - 1);
      assert Le(v, n)[1..] == Le(v / 256, n - 1);
      ModStep(v, Pow256(n - 1));
    }
  }

  lemma ModStep(v: nat, m: nat)
    requires m > 0
    ensures v % (256 * m) == v % 256 + 256 * (v / 256 % m)
  {
    var q, r := v / 256, v % 256;
    var a, b := q / m, q % m;
    assert q == a * m + b;
    assert v == (256 * m) * a + (256 * b + r) by {
      assert 256 * (a * m) == (256 * m) * a;
    }
    DivUnique(v, 256 * m, a, 256 * b + r);
  }

  lemma DivUnique(v: nat, d: nat, a: nat, r: nat)
    requires d > 0 && v == d * a + r && r < d
    ensures v % d == r
  {
    if a < v / d {
      MulMono(d, a, v / d);
    } else if v / d < a {
      MulMono(d, v / d, a);
    }
  }

  lemma {:induction false} MulMono(d: nat, x: nat, y: nat)
    requires x < y
    ensures d * x + d <= d * y
    decreases y
  {
    assert d * y == d * (y - 1) + d;
    if x + 1 < y {
      MulMono(d, x, y - 1);
    }
  }

  /** 16- and 32-bit fields. */
  lemma LeWords(v: nat)
    ensures FromLe(Le(v, 2)) == v % WORD16 && FromLe(Le(v, 4)) == v % WORD32
  {
    assert Pow256(1) == 256 && Pow256(3) == 0x100_0000;
    LeRoundTrip(v, 2);
    LeRoundTrip(v, 4);
  }

  const WORD16: nat := 65536
  const WORD32: nat := 0x1_0000_0000

  lemma {:induction false} FromLeBound(s: seq<byte>)
    ensures FromLe(s) < Pow256(|s|)
  {
    if s != [] {
      FromLeBound(s[1..]);
    }
  }

  // Storing.

  /** `b` with the bytes `bs` stored at `at`. */
  function Put(b: seq<byte>, at: nat, bs: seq<byte>): (r: seq<byte>)
    requires at + |bs| <= |b|
    ensures |r| == |b|
  {
    b[..at] + bs + b[at + |bs|..]
  }

  /** Stores the low `n` bytes of `v` at `at`. */
  method PutLe(buf: array<byte>, at: nat, v: nat, n: nat)
    requires at + n <= buf.Length
    modifies buf
    ensures buf[..] == Put(old(buf[..]), at, Le(v, n))
    decreases n
  {
    if n > 0 {
      ghost var b := buf[..];
      buf[at] := v % 256;
      assert buf[..] == Put(b, at, [v % 256]);
      PutLe(buf, at + 1, v / 256, n - 1);
      PutTwice(b, at, [v % 256], Le(v / 256, n - 1));
    }
  }

  /** Storing two byte strings one after the other. */
  lemma PutTwice(b: seq<byte>, at: nat, x: seq<byte>, y: seq<byte>)
    requires at + |x| + |y| <= |b|
    ensures Put(Put(b, at, x), at + |x|, y) == Put(b, at, x + y)
  {
  }

  /** Storing over the part `x` of a byte string. */
  lemma PutIn(b: seq<byte>, p: seq<byte>, x: seq<byte>, y: seq<byte>, q: seq<byte>)
    requires |x| == |y| && b == p + x + q
    ensures Put(b, |p|, y) == p + y + q
  {
  }

  lemma Reassoc(a: seq<byte>, b: seq<byte>, c: seq<byte>)
    ensures a + b + c == a + (b + c)
  {
  }
}

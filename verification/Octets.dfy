/**
 Octets, windows of a buffer, and the big-endian integer codecs of
 rabbitmq-c's amqp_private.h.
 */
module Octets {

  type byte = x: int | 0 <= x < 256

  function Pow2(n: nat): (p: nat)
    ensures p >= 1
  {
    if n == 0 then 1 else 2 * Pow2(n - 1)
  }

  function Pow256(n: nat): (p: nat)
    ensures p >= 1
  {
    if n == 0 then 1 else 256 * Pow256(n - 1)
  }

  lemma Pow256Values()
    ensures Pow256(1) == 0x100
    ensures Pow256(2) == 0x1_0000
    ensures Pow256(4) == 0x1_0000_0000
    ensures Pow256(8) == 0x1_0000_0000_0000_0000
  {
    assert Pow256(3) == 0x100_0000;
    assert Pow256(4) == 0x1_0000_0000;
    assert Pow256(5) == 0x100_0000_0000;
    assert Pow256(6) == 0x1_0000_0000_0000;
    assert Pow256(7) == 0x100_0000_0000_0000;
  }

  // ------------------------------------------------------------------
  // Integers on the wire
  // ------------------------------------------------------------------

  /** The `n` octets of `v` as they travel, most significant first. */
  function BigEndian(n: nat, v: nat): (s: seq<byte>)
    ensures |s| == n
  {
    if n == 0 then [] else BigEndian(n - 1, v / 256) + [v % 256]
  }

  /** The integer that a run of octets stands for. */
  function Natural(s: seq<byte>): nat {
    if s == [] then 0 else 256 * Natural(s[..|s| - 1]) + s[|s| - 1]
  }

  lemma {:induction false} NaturalOfBigEndian(n: nat, v: nat)
    requires v < Pow256(n)
    ensures Natural(BigEndian(n, v)) == v
  {
    if n > 0 {
      var s := BigEndian(n, v);
      assert s[..n - 1] == BigEndian(n - 1, v / 256);
      NaturalOfBigEndian(n - 1, v / 256);
    }
  }

  lemma {:induction false} BigEndianOfNatural(s: seq<byte>)
    ensures Natural(s) < Pow256(|s|)
    ensures BigEndian(|s|, Natural(s)) == s
  {
    if s != [] {
      BigEndianOfNatural(s[..|s| - 1]);
    }
  }

  /** Which octet is where: the one of weight 256^k is `k` places in front of the last. */
  lemma {:induction false} BigEndianOctet(n: nat, v: nat, i: nat)
    requires i < n
    ensures BigEndian(n, v)[i] == v / Pow256(n - 1 - i) % 256
    decreases n
  {
    if i < n - 1 {
      BigEndianOctet(n - 1, v / 256, i);
      DivideTwice(v, Pow256(n - 2 - i));
    }
  }

  lemma OneOctet(n: nat)
    requires n < 256
    ensures BigEndian(1, n) == [n]
  {
    assert BigEndian(0, 0) == [];
  }

  lemma TwoOctets(n: nat)
    requires n < 0x1_0000
    ensures BigEndian(2, n) == [n / 256, n % 256]
  {
    OneOctet(n / 256);
  }

  lemma FourOctets(n: nat)
    requires n < 0x1_0000_0000
    ensures BigEndian(4, n) == [n / 0x100_0000, n / 0x1_0000 % 256, n / 256 % 256, n % 256]
  {
    TwoOctets(n / 256 / 256);
    assert BigEndian(3, n / 256) == BigEndian(2, n / 256 / 256) + [n / 256 % 256];
  }

  lemma DivideTwice(v: nat, p: nat)
    requires p > 0
    ensures v / 256 / p == v / (256 * p)
  {
    var q, r := v / 256 / p, v / 256 % p;
    var low := v - 256 * (v / 256);
    assert v / 256 == q * p + r;
    assert v == (256 * p) * q + (256 * r + low);
    QuotientIs(v, 256 * p, q, 256 * r + low);
  }

  lemma QuotientIs(v: nat, d: nat, q: nat, r: nat)
    requires v == d * q + r && r < d
    ensures v / d == q
  {
    SameQuotient(d, v / d, v % d, q, r);
  }

  lemma SameQuotient(d: nat, a: nat, m: nat, q: nat, r: nat)
    requires d * a + m == d * q + r && m < d && r < d
    ensures a == q
  {
    if a < q {
      Multiples(d, a + 1, q);
    } else if q < a {
      Multiples(d, q + 1, a);
    }
  }

  lemma Multiples(d: nat, a: nat, b: nat)
    requires a <= b
    ensures d * a <= d * b && d * a == d * (a - 1) + d
  {
  }

  /** An octet stands for itself; an octet in front weighs 256 to the number of those behind it. */
  lemma {:induction false} NaturalConcat(s: seq<byte>, t: seq<byte>)
    ensures Natural(s + t) == Natural(s) * Pow256(|t|) + Natural(t)
    ensures forall b: byte :: Natural([b]) == b
  {
    NaturalOfOne();
    if t == [] {
      assert s + t == s;
    } else {
      var front, last := t[..|t| - 1], t[|t| - 1];
      NaturalConcat(s, front);
      assert (s + t)[..|s + t| - 1] == s + front && (s + t)[|s + t| - 1] == last;
      assert 256 * (Natural(s) * Pow256(|front|)) == Natural(s) * Pow256(|t|);
    }
  }

  lemma NaturalOfOne()
    ensures forall b: byte :: Natural([b]) == b
  {
    forall b: byte ensures Natural([b]) == b {
      assert [b][..0] == [];
    }
  }

  // ------------------------------------------------------------------
  // Windows of a buffer
  // ------------------------------------------------------------------

  /** The buffer `s` holds exactly `t` at position `at`. */
  predicate Holds(s: seq<byte>, at: nat, t: seq<byte>) {
    at + |t| <= |s| && s[at..at + |t|] == t
  }

  lemma HoldsConcat(s: seq<byte>, at: nat, t: seq<byte>, u: seq<byte>)
    ensures Holds(s, at, t + u) <==> Holds(s, at, t) && Holds(s, at + |t|, u)
  {
    if at + |t| + |u| <= |s| {
      var w := s[at..at + |t| + |u|];
      assert w[..|t|] == s[at..at + |t|];
      assert w[|t|..] == s[at + |t|..at + |t| + |u|];
      assert w == w[..|t|] + w[|t|..];
    }
  }

  /** `s` with `t` written over it from position `at` on. */
  function Splice(s: seq<byte>, at: nat, t: seq<byte>): (r: seq<byte>)
    requires at + |t| <= |s|
    ensures |r| == |s|
    ensures Holds(r, at, t)
  {
    s[..at] + t + s[at + |t|..]
  }

  /** Writing two adjacent runs is writing their concatenation. */
  lemma SpliceConcat(s: seq<byte>, at: nat, t: seq<byte>, u: seq<byte>)
    requires at + |t| + |u| <= |s|
    ensures Splice(Splice(s, at, t), at + |t|, u) == Splice(s, at, t + u)
  {
  }

  /** Leaving a hole of four octets and filling it in afterwards. */
  lemma SpliceBackPatch(s: seq<byte>, at: nat, hole: seq<byte>, t: seq<byte>)
    requires at + |hole| + |t| <= |s|
    ensures Splice(Splice(s, at + |hole|, t), at, hole) == Splice(s, at, hole + t)
  {
  }

  /** Only positions from `lo` up to `hi` may differ. */
  predicate OnlyWithin(before: seq<byte>, after: seq<byte>, lo: nat, hi: nat) {
    |before| == |after| && forall i :: 0 <= i < |before| && (i < lo || hi <= i) ==> before[i] == after[i]
  }

  /**
   What a write of `text` at `offset` into the window that ends at `end` did: nothing
   outside the window changed, and on success exactly `text` was written over it.
   */
  predicate Written(before: seq<byte>, after: seq<byte>, offset: nat, end: nat, text: seq<byte>, ok: bool) {
    && OnlyWithin(before, after, offset, end)
    && (ok && offset + |text| <= end <= |before| ==> after == Splice(before, offset, text))
  }

  lemma WrittenNothing(s: seq<byte>, offset: nat, end: nat)
    ensures Written(s, s, offset, end, [], true)
  {
  }

  /** Two writes in a row are one write of the concatenation. */
  lemma WrittenThen(before: seq<byte>, middle: seq<byte>, after: seq<byte>,
                    offset: nat, end: nat, t: seq<byte>, u: seq<byte>, ok: bool)
    requires Written(before, middle, offset, end, t, true)
    requires Written(middle, after, offset + |t|, end, u, ok)
    ensures Written(before, after, offset, end, t + u, ok)
  {
    if ok && offset + |t| + |u| <= end <= |before| {
      SpliceConcat(before, offset, t, u);
    }
  }

  /** A failure after a write is a failure of the whole. */
  lemma WrittenThenFailed(before: seq<byte>, after: seq<byte>, offset: nat, end: nat, t: seq<byte>, u: seq<byte>,
                          ok: bool)
    requires Written(before, after, offset, end, t, ok)
    ensures Written(before, after, offset, end, u, false)
  {
  }

  /** A body written behind a hole, then the hole filled in. */
  lemma WrittenAroundHole(before: seq<byte>, middle: seq<byte>, after: seq<byte>,
                          offset: nat, end: nat, hole: seq<byte>, body: seq<byte>, ok: bool)
    requires Written(before, middle, offset + |hole|, end, body, true)
    requires Written(middle, after, offset, end, hole, ok)
    ensures Written(before, after, offset, end, hole + body, ok)
  {
    if ok && offset + |hole| + |body| <= end <= |before| {
      SpliceBackPatch(before, offset, hole, body);
    }
  }

  lemma WrittenWider(before: seq<byte>, after: seq<byte>, lo: nat, offset: nat, end: nat, t: seq<byte>, u: seq<byte>)
    requires lo <= offset && Written(before, after, offset, end, t, false)
    ensures Written(before, after, lo, end, u, false)
  {
  }

  /** `amqp_encode_8/16/32/64`: the offset moves even when the value does not fit. */
  method EncodeInteger(buffer: array<byte>, end: nat, offset: nat, width: nat, v: nat) returns (ok: bool, next: nat)
    requires end <= buffer.Length
    modifies buffer
    ensures next == offset + width
    ensures ok <==> offset + width <= end
    ensures Written(old(buffer[..]), buffer[..], offset, end, BigEndian(width, v), ok)
    ensures ok ==> forall k :: offset <= k < next ==> buffer[k] == v / Pow256(next - 1 - k) % 256
  {
    next := offset + width;
    ok := next <= end;
    if ok {
      WriteOctets(buffer, offset, BigEndian(width, v));
      forall k | offset <= k < next ensures buffer[k] == v / Pow256(next - 1 - k) % 256 {
        assert buffer[k] == buffer[..][offset..next][k - offset];
        BigEndianOctet(width, v, k - offset);
      }
    }
  }

  /** `amqp_encode_bytes`: an empty run always succeeds and leaves the offset alone. */
  method EncodeBytes(buffer: array<byte>, end: nat, offset: nat, input: seq<byte>) returns (ok: bool, next: nat)
    requires end <= buffer.Length
    modifies buffer
    ensures next == offset + |input|
    ensures ok <==> |input| == 0 || offset + |input| <= end
    ensures Written(old(buffer[..]), buffer[..], offset, end, input, ok)
  {
    next := offset + |input|;
    if |input| == 0 {
      return true, offset;
    }
    ok := next <= end;
    if ok {
      WriteOctets(buffer, offset, input);
    }
  }

  /** memcpy into the buffer. */
  method WriteOctets(buffer: array<byte>, at: nat, t: seq<byte>)
    requires at + |t| <= buffer.Length
    modifies buffer
    ensures buffer[..] == Splice(old(buffer[..]), at, t)
  {
    forall i | 0 <= i < |t| {
      buffer[at + i] := t[i];
    }
  }
}

/** Cutting a byte stream into 64-byte blocks, and 32-bit words. */
module Blocks {
  import opened Basics

  type Word = w: int | 0 <= w < 0x1_0000_0000

  const BLOCK := 64
  const WORD_RANGE := 0x1_0000_0000
  const COUNT_RANGE := 0x1_0000_0000_0000_0000

  // Folds the compression function over the whole blocks of s.
  ghost function Absorb<H>(f: (H, seq<Byte>) -> H, h: H, s: seq<Byte>): H
    decreases |s|
  {
    if |s| < BLOCK then h else Absorb(f, f(h, s[..BLOCK]), s[BLOCK..])
  }

  // What is left behind the whole blocks.
  ghost function Tail(s: seq<Byte>): seq<Byte> {
    s[|s| - |s| % BLOCK..]
  }

  lemma {:induction false} AbsorbConcat<H>(f: (H, seq<Byte>) -> H, h: H, a: seq<Byte>, b: seq<Byte>)
    requires |a| % BLOCK == 0
    ensures Absorb(f, h, a + b) == Absorb(f, Absorb(f, h, a), b)
    decreases |a|
  {
    if a == [] {
      assert a + b == b;
    } else {
      assert (a + b)[..BLOCK] == a[..BLOCK] && (a + b)[BLOCK..] == a[BLOCK..] + b;
      AbsorbConcat(f, f(h, a[..BLOCK]), a[BLOCK..], b);
    }
  }

  // Only whole blocks count.
  lemma {:induction false} AbsorbTail<H>(f: (H, seq<Byte>) -> H, h: H, s: seq<Byte>)
    ensures Absorb(f, h, s) == Absorb(f, h, s[..|s| - |s| % BLOCK])
  {
    var n := |s| - |s| % BLOCK;
    assert s == s[..n] + s[n..];
    AbsorbConcat(f, h, s[..n], s[n..]);
  }

  lemma {:induction false} AbsorbBlock<H>(f: (H, seq<Byte>) -> H, h: H, a: seq<Byte>, b: seq<Byte>)
    requires |a| % BLOCK == 0 && |b| == BLOCK
    ensures Absorb(f, h, a + b) == f(Absorb(f, h, a), b)
  {
    AbsorbConcat(f, h, a, b);
    assert b[..BLOCK] == b;
    assert Absorb(f, f(Absorb(f, h, a), b), b[BLOCK..]) == f(Absorb(f, h, a), b);
  }

  // The buffered tail, filled up, is the next block.
  lemma {:induction false} FirstBlock<H>(f: (H, seq<Byte>) -> H, h: H, m: seq<Byte>, part: seq<Byte>)
    requires |part| == BLOCK - |m| % BLOCK
    ensures f(Absorb(f, h, m), Tail(m) + part) == Absorb(f, h, m + part)
    ensures |m + part| % BLOCK == 0
  {
    var n := |m| - |m| % BLOCK;
    AbsorbTail(f, h, m);
    AbsorbBlock(f, h, m[..n], Tail(m) + part);
    assert m[..n] + (Tail(m) + part) == m + part;
  }

  lemma {:induction false} Advance<H>(f: (H, seq<Byte>) -> H, h: H, m: seq<Byte>, input: seq<Byte>, p: nat, i: nat)
    requires p <= i <= |input| < i + BLOCK && (i - p) % BLOCK == 0 && |m + input[..p]| % BLOCK == 0
    ensures Absorb(f, Absorb(f, h, m + input[..p]), input[p..i]) == Absorb(f, h, m + input)
    ensures Tail(m + input) == input[i..] && |m + input| % BLOCK == |input| - i
  {
    hide Absorb;
    var a := m + input[..p];
    AbsorbConcat(f, h, a, input[p..i]);
    assert a + input[p..i] == m + input[..i];
    assert |m + input[..i]| % BLOCK == 0;
    assert m + input == (m + input[..i]) + input[i..];
    AbsorbTail(f, h, m + input);
    assert (m + input)[..|m| + i] == m + input[..i];
  }

  lemma {:induction false} TailGrows<H>(f: (H, seq<Byte>) -> H, h: H, m: seq<Byte>, input: seq<Byte>)
    requires |m| % BLOCK + |input| < BLOCK
    ensures Absorb(f, h, m + input) == Absorb(f, h, m)
    ensures Tail(m + input) == Tail(m) + input && |m + input| % BLOCK == |m| % BLOCK + |input|
  {
    var n := |m| - |m| % BLOCK;
    AbsorbTail(f, h, m);
    AbsorbTail(f, h, m + input);
    assert (m + input)[..n] == m[..n];
  }

  // ----- padding -----

  function Zeros(n: nat): (s: seq<Byte>)
    ensures |s| == n
  {
    if n == 0 then [] else Zeros(n - 1) + [0]
  }

  // One 1 bit, then 0 bits, up to 8 bytes before the end of a block.
  ghost function PadLength(n: nat): nat {
    if n % BLOCK < 56 then 56 - n % BLOCK else 120 - n % BLOCK
  }

  function Padding(n: nat): (s: seq<Byte>)
    requires n > 0
    ensures |s| == n
  {
    [0x80] + Zeros(n - 1)
  }

  // p is m, a 1 bit, 0 bits and 8 more bytes, up to the next possible end
  // of a block.
  ghost predicate IsPadded(m: seq<Byte>, p: seq<Byte>) {
    && |p| % BLOCK == 0 && |m| + 9 <= |p| < |m| + 9 + BLOCK
    && p[..|m|] == m && p[|m|] == 0x80 && forall i | |m| < i < |p| - 8 :: p[i] == 0
  }

  lemma {:induction false} ZerosAt(n: nat, i: nat)
    requires i < n
    ensures Zeros(n)[i] == 0
  {
    if i < n - 1 {
      ZerosAt(n - 1, i);
    }
  }

  lemma {:induction false} PaddingForm(m: seq<Byte>, last: seq<Byte>)
    requires |last| == 8
    ensures var p := m + Padding(PadLength(|m|)) + last;
            IsPadded(m, p) && p[|p| - 8..] == last
  {
    var n := PadLength(|m|);
    var p := m + Padding(n) + last;
    assert |p| == BLOCK * (|m| / BLOCK + (if |m| % BLOCK < 56 then 1 else 2));
    forall i | |m| < i < |p| - 8 ensures p[i] == 0 {
      assert p[i] == Padding(n)[i - |m|] == Zeros(n - 1)[i - |m| - 1];
      ZerosAt(n - 1, i - |m| - 1);
    }
  }

  // ----- words -----

  // The number that bytes stand for, low byte first and high byte first.
  ghost function LeValue(s: seq<Byte>): nat {
    if s == [] then 0 else s[0] + 256 * LeValue(s[1..])
  }

  ghost function BeValue(s: seq<Byte>): nat {
    if s == [] then 0 else 256 * BeValue(s[..|s| - 1]) + s[|s| - 1]
  }

  lemma {:induction false} WordParts(w: int)
    requires 0 <= w < WORD_RANGE
    ensures w == w % 256 + 256 * (w / 0x100 % 256 + 256 * (w / 0x1_0000 % 256 + 256 * (w / 0x100_0000 % 256)))
  {
    assert w / 0x100 / 256 == w / 0x1_0000 && w / 0x1_0000 / 256 == w / 0x100_0000;
    assert w / 0x100_0000 % 256 == w / 0x100_0000;
  }

  lemma LeNone()
    ensures LeValue([]) == BeValue([]) == 0
  {
  }

  lemma {:induction false} LePush(a: Byte, s: seq<Byte>)
    ensures LeValue([a] + s) == a + 256 * LeValue(s)
  {
    assert ([a] + s)[1..] == s;
  }

  lemma {:induction false} BePush(s: seq<Byte>, a: Byte)
    ensures BeValue(s + [a]) == 256 * BeValue(s) + a
  {
    assert (s + [a])[..|s|] == s;
  }

  lemma {:induction false} LeFour(a: Byte, b: Byte, c: Byte, d: Byte)
    ensures LeValue([a, b, c, d]) == a + 256 * (b + 256 * (c + 256 * d))
  {
    LePush(d, []);
    LePush(c, [d]);
    LePush(b, [c, d]);
    LePush(a, [b, c, d]);
    hide LeValue;
    assert [d] + [] == [d] && [c] + [d] == [c, d] && [b] + [c, d] == [b, c, d] && [a] + [b, c, d] == [a, b, c, d];
    LeNone();
  }

  lemma {:induction false} BeFour(a: Byte, b: Byte, c: Byte, d: Byte)
    ensures BeValue([a, b, c, d]) == d + 256 * (c + 256 * (b + 256 * a))
  {
    BePush([], a);
    BePush([a], b);
    BePush([a, b], c);
    BePush([a, b, c], d);
    hide BeValue;
    assert [] + [a] == [a] && [a] + [b] == [a, b] && [a, b] + [c] == [a, b, c] && [a, b, c] + [d] == [a, b, c, d];
    LeNone();
  }

  lemma {:induction false} LeBytesValue(w: int)
    requires 0 <= w < WORD_RANGE
    ensures LeValue(LeBytes(w)) == w
  {
    WordParts(w);
    LeFour(w % 256, w / 0x100 % 256, w / 0x1_0000 % 256, w / 0x100_0000 % 256);
  }

  lemma {:induction false} BeBytesValue(w: int)
    requires 0 <= w < WORD_RANGE
    ensures BeValue(BeBytes(w)) == w
  {
    WordParts(w);
    BeFour(w / 0x100_0000 % 256, w / 0x1_0000 % 256, w / 0x100 % 256, w % 256);
  }

  lemma {:induction false} LeTwo(s: seq<Byte>, t: seq<Byte>)
    requires |s| == |t| == 4
    ensures LeValue(s + t) == LeValue(s) + WORD_RANGE * LeValue(t)
  {
    hide LeValue;
    var u := s + t;
    LePush(s[3], t);
    LePush(s[2], [s[3]] + t);
    LePush(s[1], [s[2]] + ([s[3]] + t));
    LePush(s[0], [s[1]] + ([s[2]] + ([s[3]] + t)));
    assert u == [s[0]] + ([s[1]] + ([s[2]] + ([s[3]] + t)));
    assert s == [s[0], s[1], s[2], s[3]];
    LeFour(s[0], s[1], s[2], s[3]);
  }

  lemma {:induction false} BeTwo(s: seq<Byte>, t: seq<Byte>)
    requires |s| == |t| == 4
    ensures BeValue(s + t) == WORD_RANGE * BeValue(s) + BeValue(t)
  {
    hide BeValue;
    var u := s + t;
    BePush(s, t[0]);
    BePush(s + [t[0]], t[1]);
    BePush(s + [t[0]] + [t[1]], t[2]);
    BePush(s + [t[0]] + [t[1]] + [t[2]], t[3]);
    assert u == s + [t[0]] + [t[1]] + [t[2]] + [t[3]];
    assert t == [t[0], t[1], t[2], t[3]];
    BeFour(t[0], t[1], t[2], t[3]);
  }

  function LeBytes(w: int): (s: seq<Byte>)
    requires 0 <= w < WORD_RANGE
    ensures |s| == 4
  {
    [w % 256, w / 0x100 % 256, w / 0x1_0000 % 256, w / 0x100_0000 % 256]
  }

  function BeBytes(w: int): (s: seq<Byte>)
    requires 0 <= w < WORD_RANGE
    ensures |s| == 4
  {
    [w / 0x100_0000 % 256, w / 0x1_0000 % 256, w / 0x100 % 256, w % 256]
  }

  // ----- the bit counter in two words -----

  ghost predicate Counts(hi: int, lo: int, n: nat) {
    0 <= hi < WORD_RANGE && 0 <= lo < WORD_RANGE && hi * WORD_RANGE + lo == 8 * n % COUNT_RANGE
  }

  lemma {:induction false} CountIndex(hi: int, lo: int, n: nat)
    requires Counts(hi, lo, n)
    ensures lo / 8 % BLOCK == n % BLOCK
  {
    var q := 8 * n / COUNT_RANGE;
    assert 8 * n == q * COUNT_RANGE + hi * WORD_RANGE + lo;
    assert lo % 8 == 0 by {
      assert lo == 8 * (n - q * (COUNT_RANGE / 8) - hi * (WORD_RANGE / 8));
    }
    var m := q * (COUNT_RANGE / 8) + hi * (WORD_RANGE / 8);
    assert n == m + lo / 8;
    assert m == BLOCK * (q * (COUNT_RANGE / 512) + hi * (WORD_RANGE / 512));
    AddMultiple(lo / 8, q * (COUNT_RANGE / 512) + hi * (WORD_RANGE / 512));
  }

  lemma AddMultiple(x: int, k: int)
    ensures (BLOCK * k + x) % BLOCK == x % BLOCK
  {
  }

  lemma {:induction false} CountParts(hi: int, lo: int, n: nat)
    requires Counts(hi, lo, n)
    ensures 0 <= lo < WORD_RANGE && 0 <= hi < WORD_RANGE
    ensures lo == 8 * n % COUNT_RANGE % WORD_RANGE && hi == 8 * n % COUNT_RANGE / WORD_RANGE
  {
  }

  // Adding the low words and carrying when the sum wraps.
  lemma {:induction false} CountAdd(hi: int, lo: int, n: nat, k: nat, hi': int, lo': int)
    requires Counts(hi, lo, n) && k < WORD_RANGE
    requires lo' == (lo + 8 * k % WORD_RANGE) % WORD_RANGE
    requires hi' == (hi + (if lo + 8 * k % WORD_RANGE >= WORD_RANGE then 1 else 0) + k / 0x2000_0000) % WORD_RANGE
    ensures Counts(hi', lo', n + k)
  {
    var x, y := 8 * k % WORD_RANGE, k / 0x2000_0000;
    assert 8 * k == y * WORD_RANGE + x;
    var c := if lo + x >= WORD_RANGE then 1 else 0;
    assert lo' == lo + x - c * WORD_RANGE;
    var q, r := 8 * n / COUNT_RANGE, (hi + c + y) / WORD_RANGE;
    assert hi' == hi + c + y - r * WORD_RANGE;
    assert 8 * n == q * COUNT_RANGE + hi * WORD_RANGE + lo;
    assert 8 * (n + k) == (q + r) * COUNT_RANGE + (hi' * WORD_RANGE + lo');
    Remainder(8 * (n + k), q + r, hi' * WORD_RANGE + lo');
  }

  // The wrapped sum is below an addend if and only if it has wrapped.
  lemma Wraps(lo: int, x: int)
    requires 0 <= lo < WORD_RANGE && 0 <= x < WORD_RANGE
    ensures (lo + x) % WORD_RANGE < x <==> lo + x >= WORD_RANGE
    ensures (lo + x) % WORD_RANGE < lo <==> lo + x >= WORD_RANGE
  {
  }

  lemma AddTwice(hi: int, y: int)
    ensures ((hi + 1) % WORD_RANGE + y) % WORD_RANGE == (hi + 1 + y) % WORD_RANGE
  {
  }

  lemma {:induction false} Remainder(x: int, q: int, r: int)
    requires x == q * COUNT_RANGE + r && 0 <= r < COUNT_RANGE
    ensures x % COUNT_RANGE == r
  {
  }
}

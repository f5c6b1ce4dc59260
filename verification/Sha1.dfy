/** SHA-1 as it takes a message piece by piece. */
module Sha1 {
  import opened Basics
  import opened Blocks

  datatype Quint = Quint(a: Word, b: Word, c: Word, d: Word, e: Word)

  const INIT := Quint(0x67452301, 0xefcdab89, 0x98badcfe, 0x10325476, 0xc3d2e1f0)

  function Join(a: int, b: int, c: int, d: int): Word
    requires 0 <= a < 256 && 0 <= b < 256 && 0 <= c < 256 && 0 <= d < 256
  {
    0x100_0000 * a + 0x1_0000 * b + 0x100 * c + d
  }

  // Word number k of a block, high byte first.
  function BeWord(s: seq<Byte>, k: nat): Word {
    if 4 * k + 4 <= |s| then Join(s[4 * k], s[4 * k + 1], s[4 * k + 2], s[4 * k + 3]) else 0
  }

  // Word number k as a little-endian machine reads it.
  function LeWord(s: seq<Byte>, k: nat): Word {
    if 4 * k + 4 <= |s| then Join(s[4 * k + 3], s[4 * k + 2], s[4 * k + 1], s[4 * k]) else 0
  }

  function BeWords(s: seq<Byte>): (ws: seq<Word>) {
    seq(16, k requires 0 <= k => BeWord(s, k))
  }

  function LeWords(s: seq<Byte>): (ws: seq<Word>) {
    seq(16, k requires 0 <= k => LeWord(s, k))
  }

  // The compression function f takes 16 words.
  type Compression = (Quint, seq<Word>) -> Quint

  ghost function OnBytes(f: Compression): (Quint, seq<Byte>) -> Quint {
    (h: Quint, s: seq<Byte>) => f(h, BeWords(s))
  }

  // The bit count, high word first, high byte first.
  ghost function LengthBytes(n: nat): (s: seq<Byte>)
    ensures |s| == 8
  {
    BeBytes(8 * n % COUNT_RANGE / WORD_RANGE) + BeBytes(8 * n % COUNT_RANGE % WORD_RANGE)
  }

  // Section 4 of RFC 3174.
  ghost function Padded(m: seq<Byte>): seq<Byte> {
    m + Padding(PadLength(|m|)) + LengthBytes(|m|)
  }

  // The message, a 1 bit, 0 bits up to 8 bytes before the end of a block,
  // and the number of its bits modulo 2^64, high byte first.
  lemma {:induction false} PaddedMeaning(m: seq<Byte>)
    ensures var p := Padded(m);
            IsPadded(m, p) && BeValue(p[|p| - 8..]) == 8 * |m| % COUNT_RANGE
  {
    hide BeValue, BeBytes, Padding;
    var n := 8 * |m| % COUNT_RANGE;
    PaddingForm(m, LengthBytes(|m|));
    BeBytesValue(n % WORD_RANGE);
    BeBytesValue(n / WORD_RANGE);
    BeTwo(BeBytes(n / WORD_RANGE), BeBytes(n % WORD_RANGE));
  }

  function Encoded(q: Quint): (s: seq<Byte>)
    ensures |s| == 20
  {
    BeBytes(q.a) + BeBytes(q.b) + BeBytes(q.c) + BeBytes(q.d) + BeBytes(q.e)
  }

  // Read four bytes at a time, high byte first, a digest is the words of
  // the state in order.
  lemma {:induction false} EncodedWords(q: Quint, k: nat)
    requires k < 5
    ensures BeValue(Encoded(q)[4 * k..4 * k + 4]) == [q.a, q.b, q.c, q.d, q.e][k]
  {
    hide BeValue, BeBytes;
    var w := [q.a, q.b, q.c, q.d, q.e][k];
    BeBytesValue(w);
    assert Encoded(q)[4 * k..4 * k + 4] == BeBytes(w);
  }

  // The words of a block are its bytes, four at a time, high byte first.
  lemma {:induction false} BlockWords(s: seq<Byte>, k: nat)
    requires |s| == BLOCK && k < 16
    ensures BeWords(s)[k] == BeValue(s[4 * k..4 * k + 4])
  {
    hide BeValue;
    assert s[4 * k..4 * k + 4] == [s[4 * k], s[4 * k + 1], s[4 * k + 2], s[4 * k + 3]];
    BeFour(s[4 * k], s[4 * k + 1], s[4 * k + 2], s[4 * k + 3]);
  }

  // Section 6.1 of RFC 3174.
  lemma StartBytes()
    ensures Encoded(INIT) == [0x67, 0x45, 0x23, 0x01, 0xef, 0xcd, 0xab, 0x89, 0x98, 0xba, 0xdc, 0xfe,
                              0x10, 0x32, 0x54, 0x76, 0xc3, 0xd2, 0xe1, 0xf0]
  {
  }

  // The digest of a whole message at once.
  ghost function Digest(f: Compression, m: seq<Byte>): seq<Byte> {
    Encoded(Absorb(OnBytes(f), INIT, Padded(m)))
  }

  // Each word's bytes in the opposite order.
  ghost predicate Reversed(s: seq<Byte>, r: seq<Byte>) {
    && |s| == |r| == BLOCK
    && forall k | 0 <= k < 16 ::
         r[4 * k] == s[4 * k + 3] && r[4 * k + 1] == s[4 * k + 2] && r[4 * k + 2] == s[4 * k + 1] &&
           r[4 * k + 3] == s[4 * k]
  }

  lemma {:induction false} ReversedWords(s: seq<Byte>, r: seq<Byte>)
    requires Reversed(s, r)
    ensures LeWords(r) == BeWords(s)
  {
    forall k: nat | k < 16 ensures LeWord(r, k) == BeWord(s, k) {
    }
  }

  // maybe_byte_reverse on a little-endian machine.
  method ByteReverse(data: array<Byte>)
    requires data.Length == BLOCK
    modifies data
    ensures Reversed(old(data[..]), data[..])
  {
    for i := 0 to 16
      invariant forall k | 0 <= k < i ::
                  && data[4 * k] == old(data[4 * k + 3]) && data[4 * k + 1] == old(data[4 * k + 2])
                  && data[4 * k + 2] == old(data[4 * k + 1]) && data[4 * k + 3] == old(data[4 * k])
      invariant forall k | 4 * i <= k < BLOCK :: data[k] == old(data[k])
    {
      var c0, c1, c2, c3 := data[4 * i], data[4 * i + 1], data[4 * i + 2], data[4 * i + 3];
      data[4 * i] := c3;
      data[4 * i + 1] := c2;
      data[4 * i + 2] := c1;
      data[4 * i + 3] := c0;
    }
  }

  class Context {
    const f: Compression
    var digest: Quint
    var countLo: int
    var countHi: int
    var local: nat
    const data: array<Byte>
    ghost var message: seq<Byte>  // all that was put in so far

    ghost predicate Valid()
      reads this, data
    {
      && data.Length == BLOCK
      && Counts(countHi, countLo, |message|)
      && digest == Absorb(OnBytes(f), INIT, message)
      && local == |message| % BLOCK
      && data[..local] == Tail(message)
    }

    // apr_sha1_init.
    constructor (f: Compression)
      ensures Valid() && this.f == f && message == [] && fresh(data)
    {
      this.f := f;
      digest, countLo, countHi, local, message := INIT, 0, 0, 0, [];
      data := new Byte[BLOCK];
    }

    method CountUp(n: nat)
      requires Counts(countHi, countLo, |message|) && n < WORD_RANGE
      modifies this`countLo, this`countHi
      ensures Counts(countHi, countLo, |message| + n)
    {
      ghost var hi, lo := countHi, countLo;
      assert 0 <= lo < WORD_RANGE;
      hide Counts;
      var x := 8 * n % WORD_RANGE;
      Wraps(lo, x);
      AddTwice(hi, n / 0x2000_0000);
      if (countLo + x) % WORD_RANGE < countLo {
        countHi := (countHi + 1) % WORD_RANGE;
      }
      countLo := (countLo + x) % WORD_RANGE;
      countHi := (countHi + n / 0x2000_0000) % WORD_RANGE;
      CountAdd(hi, lo, |message|, n, countHi, countLo);
    }

    method Copy(at: nat, s: seq<Byte>)
      requires data.Length == BLOCK && at + |s| <= BLOCK
      modifies data
      ensures data[..at + |s|] == old(data[..at]) + s
    {
      forall i | 0 <= i < |s| {
        data[at + i] := s[i];
      }
    }

    // maybe_byte_reverse and sha_transform on a full block.
    method Compress()
      requires data.Length == BLOCK
      modifies this`digest, data
      ensures digest == OnBytes(f)(old(digest), old(data[..]))
    {
      ghost var s := data[..];
      ByteReverse(data);
      ReversedWords(s, data[..]);
      digest := f(digest, LeWords(data[..]));
    }

    // apr_sha1_update_binary.
    method Update(buffer: seq<Byte>)
      requires Valid() && |buffer| < WORD_RANGE
      modifies this`digest, this`countLo, this`countHi, this`local, this`message, data
      ensures Valid() && message == old(message) + buffer
    {
      hide Counts, Absorb, Tail;
      CountUp(|buffer|);
      ghost var g := OnBytes(f);
      hide OnBytes;
      var i := 0;
      if local != 0 {
        i := BLOCK - local;
        if i > |buffer| {
          i := |buffer|;
        }
        Copy(local, buffer[..i]);
        local := local + i;
        if local == BLOCK {
          FirstBlock(g, INIT, message, buffer[..i]);
          assert data[..] == data[..BLOCK];
          Compress();
        } else {
          assert buffer[..i] == buffer;
          TailGrows(g, INIT, message, buffer);
          message := message + buffer;
          return;
        }
      }
      WholeSoFar(g, INIT, message, buffer, i);
      var j := WholeBlocks(buffer, i);
      Copy(0, buffer[j..]);
      local := |buffer| - j;
      Advance(g, INIT, message, buffer, i, j);
      assert data[..local] == [] + buffer[j..];
      message := message + buffer;
    }

    method WholeBlocks(buffer: seq<Byte>, i: nat) returns (j: nat)
      requires data.Length == BLOCK && i <= |buffer|
      modifies this`digest, data
      ensures i <= j <= |buffer| < j + BLOCK && (j - i) % BLOCK == 0
      ensures digest == Absorb(OnBytes(f), old(digest), buffer[i..j])
    {
      ghost var g := OnBytes(f);
      assert buffer[i..i] == [] && Absorb(g, digest, []) == digest;
      hide OnBytes, Absorb;
      j := i;
      while |buffer| - j >= BLOCK
        invariant i <= j <= |buffer| && (j - i) % BLOCK == 0 && digest == Absorb(g, old(digest), buffer[i..j])
      {
        AbsorbBlock(g, old(digest), buffer[i..j], buffer[j..j + BLOCK]);
        assert buffer[i..j] + buffer[j..j + BLOCK] == buffer[i..j + BLOCK];
        Copy(0, buffer[j..j + BLOCK]);
        assert data[..] == data[..BLOCK] == [] + buffer[j..j + BLOCK];
        j := j + BLOCK;
        Compress();
      }
    }

    // Puts word k in place, low byte first.
    method StoreWord(k: nat, w: Word)
      requires data.Length == BLOCK && k < 16
      modifies data
      ensures LeWords(data[..]) == LeWords(old(data[..]))[k := w]
    {
      ghost var s := data[..];
      forall i | 0 <= i < 4 {
        data[4 * k + i] := LeBytes(w)[i];
      }
      LeJoin(w);
      forall i: nat | i < 16 ensures LeWord(data[..], i) == if i == k then w else LeWord(s, i) {
      }
    }

    // The block's last eight bytes become the bit count.
    method CompressLast(hi: Word, lo: Word)
      requires data.Length == BLOCK
      modifies this`digest, data
      ensures digest == OnBytes(f)(old(digest), old(data[..56]) + (BeBytes(hi) + BeBytes(lo)))
    {
      hide LeWords, BeWords, LeBytes, BeBytes, Reversed;
      ghost var s := data[..];
      ByteReverse(data);
      LengthWords(s, data[..], hi, lo);
      StoreWord(14, hi);
      StoreWord(15, lo);
      assert s[..56] == old(data[..56]);
      digest := f(digest, LeWords(data[..]));
    }

    // The tail, the 1 bit and 0 bits, up to where the bit count goes.
    method PadTail()
      requires Valid()
      modifies this`digest, data
      ensures Absorb(OnBytes(f), INIT, Padded(message)) == OnBytes(f)(digest, data[..56] + LengthBytes(|message|))
    {
      hide Counts, Absorb, OnBytes, Zeros, LengthBytes, Padded;
      CountIndex(countHi, countLo, |message|);
      ghost var g := OnBytes(f);
      var count := countLo / 8 % BLOCK;
      Copy(count, [0x80]);
      count := count + 1;
      if count > BLOCK - 8 {
        LongTail(g, INIT, message);
        Copy(count, Zeros(BLOCK - count));
        assert data[..] == data[..BLOCK];
        Compress();
        Copy(0, Zeros(BLOCK - 8));
        assert data[..56] == [] + Zeros(56) == Zeros(56);
      } else {
        ShortTail(g, INIT, message);
        Copy(count, Zeros(BLOCK - 8 - count));
      }
    }

    // apr_sha1_final.
    method Final() returns (out: seq<Byte>)
      requires Valid()
      modifies this`digest, data
      ensures out == Digest(f, message)
    {
      hide Counts, Absorb, OnBytes, BeBytes, Padded, Encoded;
      CountParts(countHi, countLo, |message|);
      var lo, hi := countLo, countHi;
      PadTail();
      CompressLast(hi, lo);
      out := Encoded(digest);
    }
  }

  // However a message is cut into pieces, the digest is that of the whole.
  method DigestOf(f: Compression, chunks: seq<seq<Byte>>) returns (digest: seq<Byte>)
    requires forall c | c in chunks :: |c| < WORD_RANGE
    ensures digest == Digest(f, Concat(chunks))
  {
    hide Digest;
    var context := new Context(f);
    for i := 0 to |chunks|
      invariant context.Valid() && context.f == f && context.message == Concat(chunks[..i])
      invariant fresh(context) && fresh(context.data)
    {
      assert chunks[..i + 1][..i] == chunks[..i];
      context.Update(chunks[i]);
    }
    assert chunks[..|chunks|] == chunks;
    digest := context.Final();
  }

  // ----- the last block -----

  lemma {:induction false} FourBytes(w: Word)
    ensures w == 0x100_0000 * (w / 0x100_0000) + 0x1_0000 * (w / 0x1_0000 % 256) + 0x100 * (w / 0x100 % 256) + w % 256
    ensures w / 0x100_0000 % 256 == w / 0x100_0000
  {
    assert w / 0x100 / 256 == w / 0x1_0000 && w / 0x1_0000 / 256 == w / 0x100_0000;
    assert w == 256 * (w / 0x100) + w % 256;
    assert w / 0x100 == 256 * (w / 0x1_0000) + w / 0x100 % 256;
    assert w / 0x1_0000 == 256 * (w / 0x100_0000) + w / 0x1_0000 % 256;
  }

  lemma {:induction false} LeJoin(w: Word)
    ensures Join(LeBytes(w)[3], LeBytes(w)[2], LeBytes(w)[1], LeBytes(w)[0]) == w
  {
    FourBytes(w);
  }

  // The bit count fits behind the tail.
  lemma {:induction false} ShortTail(g: (Quint, seq<Byte>) -> Quint, h: Quint, m: seq<Byte>)
    requires |m| % BLOCK < 56
    ensures Absorb(g, h, Padded(m)) ==
            g(Absorb(g, h, m), (Tail(m) + [0x80] + Zeros(55 - |m| % BLOCK)) + LengthBytes(|m|))
  {
    hide Absorb, LengthBytes, Zeros;
    var c := |m| % BLOCK;
    var body := m[..|m| - c];
    AbsorbTail(g, h, m);
    AbsorbBlock(g, h, body, (Tail(m) + [0x80] + Zeros(55 - c)) + LengthBytes(|m|));
    assert body + Tail(m) == m;
    Regroup(body, Tail(m), [0x80], Zeros(55 - c), [], LengthBytes(|m|));
    assert [] + LengthBytes(|m|) == LengthBytes(|m|);
    assert body + ((Tail(m) + [0x80] + Zeros(55 - c)) + LengthBytes(|m|)) ==
      body + (Tail(m) + [0x80] + Zeros(55 - c)) + LengthBytes(|m|);
    assert [0x80] + Zeros(55 - c) + [] == Padding(PadLength(|m|));
  }

  // It does not: one more block.
  lemma {:induction false} LongTail(g: (Quint, seq<Byte>) -> Quint, h: Quint, m: seq<Byte>)
    requires |m| % BLOCK >= 56
    ensures Absorb(g, h, Padded(m))
         == g(g(Absorb(g, h, m), Tail(m) + [0x80] + Zeros(63 - |m| % BLOCK)), Zeros(56) + LengthBytes(|m|))
  {
    hide Absorb, LengthBytes, Zeros;
    var c := |m| % BLOCK;
    var body, first, last := m[..|m| - c], Tail(m) + [0x80] + Zeros(63 - c), Zeros(56) + LengthBytes(|m|);
    AbsorbTail(g, h, m);
    AbsorbBlock(g, h, body, first);
    AbsorbBlock(g, h, body + first, last);
    ZerosSplit(63 - c, 56);
    assert body + Tail(m) == m;
    Regroup(body, Tail(m), [0x80], Zeros(63 - c), Zeros(56), LengthBytes(|m|));
    assert [0x80] + Zeros(63 - c) + Zeros(56) == Padding(PadLength(|m|));
  }

  lemma {:induction false} Regroup(a: seq<Byte>, t: seq<Byte>, o: seq<Byte>, z: seq<Byte>, y: seq<Byte>, l: seq<Byte>)
    ensures a + (t + o + z) + (y + l) == (a + t) + (o + z + y) + l
  {
    assert a + (t + o + z) == (a + t) + (o + z);
    assert (a + t) + (o + z) + (y + l) == (a + t) + (o + z) + y + l;
    assert (a + t) + (o + z) + y == (a + t) + (o + z + y);
  }

  lemma {:induction false} ZerosSplit(a: nat, b: nat)
    ensures Zeros(a + b) == Zeros(a) + Zeros(b)
  {
    if b > 0 {
      ZerosSplit(a, b - 1);
    }
  }

  // Words 14 and 15 are written over the block's last eight bytes.
  lemma {:induction false} LengthWords(s: seq<Byte>, r: seq<Byte>, hi: Word, lo: Word)
    requires Reversed(s, r)
    ensures LeWords(r)[14 := hi][15 := lo] == BeWords(s[..56] + (BeBytes(hi) + BeBytes(lo)))
  {
    ReversedWords(s, r);
    var t := s[..56] + (BeBytes(hi) + BeBytes(lo));
    JoinBytes(hi);
    JoinBytes(lo);
    hide BeBytes;
    forall k: nat | k < 16 ensures LeWords(r)[14 := hi][15 := lo][k] == BeWord(t, k) {
      if k < 14 {
        assert t[4 * k] == s[4 * k] && t[4 * k + 1] == s[4 * k + 1] && t[4 * k + 2] == s[4 * k + 2] &&
          t[4 * k + 3] == s[4 * k + 3];
      }
    }
  }

  lemma {:induction false} JoinBytes(w: Word)
    ensures BeBytes(w) == [BeBytes(w)[0], BeBytes(w)[1], BeBytes(w)[2], BeBytes(w)[3]]
    ensures Join(BeBytes(w)[0], BeBytes(w)[1], BeBytes(w)[2], BeBytes(w)[3]) == w
  {
    FourBytes(w);
  }

  lemma {:induction false} WholeSoFar(g: (Quint, seq<Byte>) -> Quint, h: Quint, m: seq<Byte>, buffer: seq<Byte>, i: nat)
    requires i <= |buffer| && (if |m| % BLOCK == 0 then i == 0 else i == BLOCK - |m| % BLOCK)
    ensures |m + buffer[..i]| % BLOCK == 0
    ensures |m| % BLOCK == 0 ==> m + buffer[..i] == m
  {
  }
}

/** MD4 and MD5 as they take a message piece by piece. */
module Md {
  import opened Basics
  import opened Blocks

  datatype Quad = Quad(a: Word, b: Word, c: Word, d: Word)

  const INIT := Quad(0x67452301, 0xefcdab89, 0x98badcfe, 0x10325476)

  // The bit count, low word first, low byte first.
  ghost function LengthBytes(n: nat): (s: seq<Byte>)
    ensures |s| == 8
  {
    LeBytes(8 * n % COUNT_RANGE % WORD_RANGE) + LeBytes(8 * n % COUNT_RANGE / WORD_RANGE)
  }

  // Sections 3.1 and 3.2 of RFC 1321 and of RFC 1320.
  ghost function Padded(m: seq<Byte>): seq<Byte> {
    m + Padding(PadLength(|m|)) + LengthBytes(|m|)
  }

  lemma {:induction false} PaddedWhole(m: seq<Byte>)
    ensures |Padded(m)| % BLOCK == 0
  {
    hide LengthBytes;
    assert |LengthBytes(|m|)| == 8;
    assert |m| + PadLength(|m|) + 8 == BLOCK * (|m| / BLOCK + (if |m| % BLOCK < 56 then 1 else 2));
  }

  // The message, a 1 bit, 0 bits up to 8 bytes before the end of a block,
  // and the number of its bits modulo 2^64, low byte first.
  lemma {:induction false} PaddedMeaning(m: seq<Byte>)
    ensures var p := Padded(m);
            IsPadded(m, p) && LeValue(p[|p| - 8..]) == 8 * |m| % COUNT_RANGE
  {
    hide LeValue, LeBytes, Padding;
    var n := 8 * |m| % COUNT_RANGE;
    PaddingForm(m, LengthBytes(|m|));
    LeBytesValue(n % WORD_RANGE);
    LeBytesValue(n / WORD_RANGE);
    LeTwo(LeBytes(n % WORD_RANGE), LeBytes(n / WORD_RANGE));
  }

  function Encoded(q: Quad): (s: seq<Byte>)
    ensures |s| == 16
  {
    LeBytes(q.a) + LeBytes(q.b) + LeBytes(q.c) + LeBytes(q.d)
  }

  // Read four bytes at a time, low byte first, a digest is the words of
  // the state in order.
  lemma {:induction false} EncodedWords(q: Quad, k: nat)
    requires k < 4
    ensures LeValue(Encoded(q)[4 * k..4 * k + 4]) == [q.a, q.b, q.c, q.d][k]
  {
    hide LeValue, LeBytes;
    var w := [q.a, q.b, q.c, q.d][k];
    LeBytesValue(w);
    assert Encoded(q)[4 * k..4 * k + 4] == LeBytes(w);
  }

  // Section 3.3 of RFC 1321 and of RFC 1320.
  lemma StartBytes()
    ensures Encoded(INIT) == [0x01, 0x23, 0x45, 0x67, 0x89, 0xab, 0xcd, 0xef,
                              0xfe, 0xdc, 0xba, 0x98, 0x76, 0x54, 0x32, 0x10]
  {
  }

  // The digest of a whole message at once.
  ghost function Digest(f: (Quad, seq<Byte>) -> Quad, m: seq<Byte>): seq<Byte> {
    Encoded(Absorb(f, INIT, Padded(m)))
  }

  // ----- the index of the loop over whole blocks -----

  // The loop's guard; its index is a 32-bit word.
  predicate GoesOn(i: nat, n: nat) {
    (i + 63) % WORD_RANGE < n
  }

  // The place behind the last whole block of n bytes of input, of which
  // the first complete the block in the buffer.
  ghost function LastPlace(idx: nat, n: nat): nat
    requires idx < BLOCK && BLOCK - idx <= n
  {
    BLOCK - idx + (n - (BLOCK - idx)) / BLOCK * BLOCK
  }

  ghost predicate IndexWraps(idx: nat, n: nat)
    requires idx < BLOCK
  {
    BLOCK - idx <= n && LastPlace(idx, n) + 63 >= WORD_RANGE
  }

  // The loop stops behind the last whole block if and only if the sum in
  // its guard does not wrap there.
  lemma {:induction false} StopsExactly(idx: nat, n: nat)
    requires idx < BLOCK && BLOCK - idx <= n
    ensures GoesOn(LastPlace(idx, n), n) <==> IndexWraps(idx, n)
  {
    var e := LastPlace(idx, n);
    assert e <= n < e + BLOCK;
    if WORD_RANGE <= e + 63 && n < WORD_RANGE {
      assert (e + 63) % WORD_RANGE == e + 63 - WORD_RANGE;
    }
  }

  // Otherwise it goes on behind the end of the input, or for ever.
  lemma {:induction false} WrapGoesWrong(idx: nat, n: nat)
    requires idx < BLOCK && IndexWraps(idx, n)
    ensures n < WORD_RANGE ==> GoesOn(LastPlace(idx, n), n) && n < LastPlace(idx, n) + BLOCK
    ensures n >= WORD_RANGE ==> forall i: nat :: GoesOn(i, n)
  {
    StopsExactly(idx, n);
  }

  // The sum wraps if and only if the bytes in the buffer and the input
  // together are 2^32 or more.
  lemma {:induction false} WrapsExactly(idx: nat, n: nat)
    requires idx < BLOCK
    ensures IndexWraps(idx, n) <==> idx + n >= WORD_RANGE
  {
    if BLOCK - idx <= n {
      assert LastPlace(idx, n) == (idx + n) / BLOCK * BLOCK - idx;
    }
  }

  class Context {
    const f: (Quad, seq<Byte>) -> Quad  // the compression function
    var count0: int
    var count1: int
    const buffer: array<Byte>
    var state: Quad
    ghost var message: seq<Byte>        // all that was put in so far

    ghost predicate Valid()
      reads this, buffer
    {
      && buffer.Length == BLOCK
      && Counts(count1, count0, |message|)
      && state == Absorb(f, INIT, message)
      && buffer[..|message| % BLOCK] == Tail(message)
    }

    // apr_md5_init, apr_md4_init.
    constructor (f: (Quad, seq<Byte>) -> Quad)
      ensures Valid() && this.f == f && message == [] && fresh(buffer)
    {
      this.f := f;
      count0, count1, state, message := 0, 0, INIT, [];
      buffer := new Byte[BLOCK];
    }

    method CountUp(n: nat)
      requires Counts(count1, count0, |message|) && n < WORD_RANGE
      modifies this`count0, this`count1
      ensures Counts(count1, count0, |message| + n)
    {
      ghost var hi, lo := count1, count0;
      assert 0 <= lo < WORD_RANGE;
      hide Counts;
      var x := 8 * n % WORD_RANGE;
      Wraps(lo, x);
      AddTwice(hi, n / 0x2000_0000);
      count0 := (count0 + x) % WORD_RANGE;
      if count0 < x {
        count1 := (count1 + 1) % WORD_RANGE;
      }
      count1 := (count1 + n / 0x2000_0000) % WORD_RANGE;
      CountAdd(hi, lo, |message|, n, count1, count0);
    }

    method Copy(at: nat, s: seq<Byte>)
      requires buffer.Length == BLOCK && at + |s| <= BLOCK
      modifies buffer
      ensures buffer[..at + |s|] == old(buffer[..at]) + s
    {
      forall i | 0 <= i < |s| {
        buffer[at + i] := s[i];
      }
    }

    // Whole blocks straight from the input, from place i on, up to a wrap
    // of the index.
    method Blocks(input: seq<Byte>, i: nat) returns (ended: bool, j: nat)
      requires i <= |input|
      modifies this`state
      ensures ended ==> i <= j <= |input| < j + BLOCK && (j - i) % BLOCK == 0 && j + 63 < WORD_RANGE
      ensures ended ==> state == Absorb(f, old(state), input[i..j])
      ensures !ended ==> i <= j <= |input| && (j - i) % BLOCK == 0 && j + 63 >= WORD_RANGE
    {
      j := i;
      while GoesOn(j, |input|)
        invariant i <= j <= |input| && (j - i) % BLOCK == 0 && state == Absorb(f, old(state), input[i..j])
        decreases |input| - j
      {
        if j + 63 >= WORD_RANGE {
          return false, j;
        }
        AbsorbBlock(f, old(state), input[i..j], input[j..j + BLOCK]);
        assert input[i..j] + input[j..j + BLOCK] == input[i..j + BLOCK];
        state := f(state, input[j..j + BLOCK]);
        j := j + BLOCK;
      }
      ended := j + 63 < WORD_RANGE;
    }

    lemma {:induction false} EndIsLast(idx: nat, n: nat, j: nat)
      requires idx < BLOCK && BLOCK - idx <= j <= n && (j - (BLOCK - idx)) % BLOCK == 0
      ensures j <= LastPlace(idx, n) && (n < j + BLOCK ==> j == LastPlace(idx, n))
    {
    }

    // Input that completes the block in the buffer.
    method LongInput(idx: nat, input: seq<Byte>) returns (ended: bool)
      requires buffer.Length == BLOCK && idx == |message| % BLOCK && buffer[..idx] == Tail(message)
      requires state == Absorb(f, INIT, message) && BLOCK - idx <= |input|
      modifies this`state, buffer
      ensures ended <==> !IndexWraps(idx, |input|)
      ensures ended ==> state == Absorb(f, INIT, message + input)
      ensures ended ==> buffer[..|message + input| % BLOCK] == Tail(message + input)
    {
      hide Absorb, Tail;
      var partLen := BLOCK - idx;
      Copy(idx, input[..partLen]);
      FirstBlock(f, INIT, message, input[..partLen]);
      assert buffer[..] == buffer[..BLOCK];
      state := f(state, buffer[..]);
      var i;
      ended, i := Blocks(input, partLen);
      EndIsLast(idx, |input|, i);
      if !ended {
        return;
      }
      Copy(0, input[i..]);
      Advance(f, INIT, message, input, partLen, i);
      assert buffer[..|input| - i] == [] + input[i..];
    }

    // apr_md5_update, apr_md4_update. It ends, and ends well, unless the
    // index of its loop wraps.
    method Update(input: seq<Byte>) returns (ended: bool)
      requires Valid()
      modifies this`count0, this`count1, this`state, this`message, buffer
      ensures ended <==> |old(message)| % BLOCK + |input| < WORD_RANGE
      ensures ended ==> Valid() && message == old(message) + input
    {
      hide Counts, Absorb, Tail, IndexWraps;
      CountIndex(count1, count0, |message|);
      var idx := count0 / 8 % BLOCK;
      WrapsExactly(idx, |input|);
      CountUp(|input| % WORD_RANGE);
      if |input| >= BLOCK - idx {
        ended := LongInput(idx, input);
      } else {
        TailGrows(f, INIT, message, input);
        Copy(idx, input);
        ended := true;
      }
      message := message + input;
    }

    // apr_md5_final, apr_md4_final. The context is wiped.
    method Final() returns (digest: seq<Byte>)
      requires Valid()
      modifies this`count0, this`count1, this`state, this`message, buffer
      ensures digest == Digest(f, old(message))
    {
      hide Counts, Absorb, LeBytes, Zeros, Tail;
      CountIndex(count1, count0, |message|);
      CountParts(count1, count0, |message|);
      var bits := LeBytes(count0) + LeBytes(count1);
      var idx := count0 / 8 % BLOCK;
      var padLen := if idx < 56 then 56 - idx else 120 - idx;
      var ended := Update(Padding(padLen));
      ended := Update(bits);
      assert message == Padded(old(message));
      digest := Encoded(state);
      count0, count1, state, message := 0, 0, Quad(0, 0, 0, 0), [];
      Copy(0, Zeros(BLOCK));
    }
  }

  // Piece i and what is then in the buffer are less than 2^32 bytes.
  ghost predicate Fits(chunks: seq<seq<Byte>>, i: nat)
    requires i < |chunks|
  {
    |Concat(chunks[..i])| % BLOCK + |chunks[i]| < WORD_RANGE
  }

  lemma {:induction false} FitsMeans(chunks: seq<seq<Byte>>, i: nat, m: seq<Byte>)
    requires i < |chunks| && m == Concat(chunks[..i])
    ensures Fits(chunks, i) <==> |m| % BLOCK + |chunks[i]| < WORD_RANGE
  {
  }

  lemma {:induction false} ConcatMore(chunks: seq<seq<Byte>>, i: nat)
    requires i < |chunks|
    ensures Concat(chunks[..i + 1]) == Concat(chunks[..i]) + chunks[i]
  {
    assert chunks[..i + 1][..i] == chunks[..i];
  }

  // Takes the pieces one after the other.
  method TakeAll(context: Context, chunks: seq<seq<Byte>>) returns (ended: bool)
    requires context.Valid() && context.message == []
    modifies context, context.buffer
    ensures ended <==> forall i | 0 <= i < |chunks| :: Fits(chunks, i)
    ensures ended ==> context.Valid() && context.message == Concat(chunks)
  {
    assert Concat(chunks[..0]) == [];
    hide Concat, Fits, Context.Valid;
    for i := 0 to |chunks|
      invariant context.Valid() && context.message == Concat(chunks[..i])
      invariant forall k | 0 <= k < i :: Fits(chunks, k)
    {
      ConcatMore(chunks, i);
      FitsMeans(chunks, i, context.message);
      ended := context.Update(chunks[i]);
      if !ended {
        return;
      }
    }
    assert chunks[..|chunks|] == chunks;
    ended := true;
  }

  // However a message is cut into pieces that fit, the digest is that of
  // the whole; and no other piece can be taken.
  method DigestOf(f: (Quad, seq<Byte>) -> Quad, chunks: seq<seq<Byte>>) returns (ended: bool, digest: seq<Byte>)
    ensures ended <==> forall i | 0 <= i < |chunks| :: Fits(chunks, i)
    ensures ended ==> digest == Digest(f, Concat(chunks))
  {
    hide Digest, Concat, Fits, Context.Valid;
    var context := new Context(f);
    ended := TakeAll(context, chunks);
    digest := [];
    if ended {
      digest := context.Final();
    }
  }
}

/** The base-64 code of bcrypt hashes. */
module BcryptCode {
  import opened Basics

  // BF_itoa64: the digits of the code are . / A-Z a-z 0-9, in this order.
  function Letter(x: int): char
    requires 0 <= x < 64
  {
    if x < 2 then (46 + x) as char
    else if x < 28 then ('A' as int + x - 2) as char
    else if x < 54 then ('a' as int + x - 28) as char
    else ('0' as int + x - 54) as char
  }

  // BF_atoi64: the digit's value, 64 for any other character.
  function Value(c: char): (x: int)
    ensures 0 <= x <= 64
  {
    if '.' <= c <= '/' then c as int - 46
    else if 'A' <= c <= 'Z' then c as int - 'A' as int + 2
    else if 'a' <= c <= 'z' then c as int - 'a' as int + 28
    else if '0' <= c <= '9' then c as int - '0' as int + 54
    else 64
  }

  lemma LetterValue(x: int)
    requires 0 <= x < 64
    ensures Value(Letter(x)) == x
  {
  }

  lemma ValueLetter(c: char)
    requires Value(c) < 64
    ensures Letter(Value(c)) == c
  {
  }

  // The digits in order of their values.
  const CAPITALS := "ABCDEFGHIJKLMNOPQRSTUVWXYZ"
  const SMALLS := "abcdefghijklmnopqrstuvwxyz"
  const TABLE := "./" + CAPITALS + SMALLS + "0123456789"

  lemma CapitalAt(i: int)
    requires 0 <= i < 26
    ensures |CAPITALS| == 26 && CAPITALS[i] == ('A' as int + i) as char
  {
  }

  lemma SmallAt(i: int)
    requires 0 <= i < 26
    ensures |SMALLS| == 26 && SMALLS[i] == ('a' as int + i) as char
  {
  }

  lemma {:induction false} LetterTable(x: int)
    requires 0 <= x < 64
    ensures |TABLE| == 64 && Letter(x) == TABLE[x]
  {
    CapitalAt(if 2 <= x < 28 then x - 2 else 0);
    SmallAt(if 28 <= x < 54 then x - 28 else 0);
    InTable(CAPITALS, SMALLS, x);
  }

  lemma {:induction false} InTable(a: string, b: string, x: int)
    requires |a| == |b| == 26 && 0 <= x < 64
    ensures var t := "./" + a + b + "0123456789";
            && |t| == 64
            && (x < 2 ==> t[x] == "./"[x]) && (2 <= x < 28 ==> t[x] == a[x - 2])
            && (28 <= x < 54 ==> t[x] == b[x - 28]) && (54 <= x ==> t[x] == ('0' as int + x - 54) as char)
  {
  }

  // A character is the digit of its place in the table, or no digit.
  lemma {:induction false} ValueTable(c: char)
    ensures Value(c) < 64 ==> TABLE[Value(c)] == c
    ensures Value(c) == 64 ==> c !in TABLE
  {
    if Value(c) < 64 {
      ValueLetter(c);
      LetterTable(Value(c));
    } else {
      forall x | 0 <= x < 64 ensures TABLE[x] != c {
        LetterTable(x);
        LetterValue(x);
      }
    }
  }

  datatype Option<T> = None | Some(value: T)

  // ----- reference -----

  // Three bytes are four digits; one or two bytes at the end are two or
  // three digits, the last filled up with zero bits.
  function Encoded(s: seq<Byte>): string
    requires s != []
  {
    Chunk(s) + (if |s| <= 3 then "" else Encoded(s[3..]))
  }

  // The digits of the first three bytes.
  function Chunk(s: seq<Byte>): string
    requires s != []
  {
    if |s| == 1 then [Letter(s[0] / 4), Letter(s[0] % 4 * 16)]
    else if |s| == 2 then [Letter(s[0] / 4), Letter(s[0] % 4 * 16 + s[1] / 16), Letter(s[1] % 16 * 4)]
    else Group(s[0], s[1], s[2])
  }

  function Group(a: int, b: int, c: int): string
    requires 0 <= a < 256 && 0 <= b < 256 && 0 <= c < 256
  {
    [Letter(a / 4), Letter(a % 4 * 16 + b / 16), Letter(b % 16 * 4 + c / 64), Letter(c % 64)]
  }

  // Digits are the bits of the bytes, the highest first, six at a time, and
  // zero bits behind the last byte.
  lemma {:induction false} ChunkNumber(s: seq<Byte>)
    requires s != []
    ensures var d := Chunk(s);
            && |d| == (if |s| == 1 then 2 else if |s| == 2 then 3 else 4)
            && (|s| == 1 ==> 64 * Value(d[0]) + Value(d[1]) == 16 * (s[0] as int))
            && (|s| == 2 ==>
                  64 * (64 * Value(d[0]) + Value(d[1])) + Value(d[2]) == 4 * (256 * (s[0] as int) + (s[1] as int)))
            && (|s| >= 3 ==>
                  64 * (64 * (64 * Value(d[0]) + Value(d[1])) + Value(d[2])) + Value(d[3]) ==
                  256 * (256 * (s[0] as int) + (s[1] as int)) + (s[2] as int))
  {
    hide Letter, Value;
    LetterValue(s[0] / 4);
    if |s| == 1 {
      LetterValue(s[0] % 4 * 16);
    } else {
      LetterValue(s[0] % 4 * 16 + s[1] / 16);
      if |s| == 2 {
        LetterValue(s[1] % 16 * 4);
      } else {
        LetterValue(s[1] % 16 * 4 + s[2] / 64);
        LetterValue(s[2] % 64);
      }
    }
  }

  // The number of digits for n bytes.
  function Digits(n: nat): nat {
    n / 3 * 4 + (if n % 3 == 0 then 0 else n % 3 + 1)
  }

  // The text is followed by a zero byte.
  function ValueAt(t: string, i: nat): (x: int)
    ensures 0 <= x <= 64 && (x < 64 ==> i < |t|)
  {
    if i < |t| then Value(t[i]) else 64
  }

  // The first n bytes that a text stands for; None if there is anything
  // but a digit before they are complete.
  function Decoded(t: string, n: nat): (r: Option<seq<Byte>>)
    requires n > 0
    ensures r.Some? ==> |r.value| == n
    decreases n
  {
    var c1, c2 := ValueAt(t, 0), ValueAt(t, 1);
    if c1 > 63 || c2 > 63 then None
    else if n == 1 then Some([First(c1, c2)])
    else
      var c3 := ValueAt(t, 2);
      if c3 > 63 then None
      else if n == 2 then Some([First(c1, c2), Second(c2, c3)])
      else
        var c4 := ValueAt(t, 3);
        if c4 > 63 then None
        else if n == 3 then Some([First(c1, c2), Second(c2, c3), Third(c3, c4)])
        else
          match Decoded(t[4..], n - 3)
          case None => None
          case Some(rest) => Some([First(c1, c2), Second(c2, c3), Third(c3, c4)] + rest)
  }

  function First(c1: int, c2: int): Byte
    requires 0 <= c1 < 64 && 0 <= c2 < 64
  {
    c1 * 4 + c2 / 16
  }

  function Second(c2: int, c3: int): Byte
    requires 0 <= c2 < 64 && 0 <= c3 < 64
  {
    c2 % 16 * 16 + c3 / 4
  }

  function Third(c3: int, c4: int): Byte
    requires 0 <= c3 < 64 && 0 <= c4 < 64
  {
    c3 % 4 * 64 + c4
  }

  lemma {:induction false} EncodedLength(s: seq<Byte>)
    requires s != []
    ensures |Encoded(s)| == Digits(|s|)
  {
    if |s| > 3 {
      EncodedLength(s[3..]);
    }
  }

  // Decoding undoes encoding, whatever follows.
  lemma {:induction false} DecodeEncode(s: seq<Byte>, rest: string)
    requires s != []
    ensures Decoded(Encoded(s) + rest, |s|) == Some(s)
    decreases |s|
  {
    hide Decoded, Chunk;
    if |s| <= 3 {
      assert Encoded(s) == Chunk(s);
      ChunkUndone(s, Encoded(s) + rest);
    } else {
      var t, more := Encoded(s) + rest, Encoded(s[3..]) + rest;
      ChunkLength(s);
      assert t == Chunk(s) + more;
      assert t[..4] == Chunk(s) && t[4..] == more;
      hide Encoded;
      ThreeUndone(s, t);
      DecodeEncode(s[3..], rest);
      DecodedStep(t, |s|);
      assert [s[0], s[1], s[2]] + s[3..] == s;
    }
  }

  lemma ChunkLength(s: seq<Byte>)
    requires s != []
    ensures |Chunk(s)| == if |s| < 3 then |s| + 1 else 4
  {
  }

  lemma {:induction false} ChunkUndone(s: seq<Byte>, t: string)
    requires 1 <= |s| <= 3 && |Chunk(s)| <= |t| && t[..|Chunk(s)|] == Chunk(s)
    ensures Decoded(t, |s|) == Some(s)
  {
    hide Decoded, Letter;
    ChunkLength(s);
    if |s| < 3 {
      ShortUndone(s, t);
    } else {
      ThreeUndone(s, t);
      assert s == [s[0], s[1], s[2]];
    }
  }

  lemma {:induction false} ThreeUndone(s: seq<Byte>, t: string)
    requires |s| >= 3 && |t| >= 4 && t[..4] == Chunk(s)
    ensures Decoded(t, 3) == Some([s[0], s[1], s[2]])
  {
    hide Letter, Value, First, Second, Third;
    GroupUndone(s[0], s[1], s[2]);
    var g := Group(s[0], s[1], s[2]);
    assert t[0] == g[0] && t[1] == g[1] && t[2] == g[2] && t[3] == g[3];
  }

  // One or two bytes at the end.
  lemma {:induction false} ShortUndone(s: seq<Byte>, t: string)
    requires 1 <= |s| <= 2 && Digits(|s|) <= |t| && t[..Digits(|s|)] == Encoded(s)
    ensures Decoded(t, |s|) == Some(s)
  {
    hide Letter, Value;
    var a := s[0];
    var e := Encoded(s);
    LetterValue(a / 4);
    assert t[0] == e[0] && t[1] == e[1];
    if |s| == 1 {
      LetterValue(a % 4 * 16);
      assert s == [s[0]];
    } else {
      assert s == [s[0], s[1]];
      assert t[2] == e[2];
      LetterValue(a % 4 * 16 + s[1] / 16);
      LetterValue(s[1] % 16 * 4);
    }
  }

  lemma {:induction false} GroupUndone(a: int, b: int, c: int)
    requires 0 <= a < 256 && 0 <= b < 256 && 0 <= c < 256
    ensures var g := Group(a, b, c);
            var c1, c2, c3, c4 := Value(g[0]), Value(g[1]), Value(g[2]), Value(g[3]);
            && c1 < 64 && c2 < 64 && c3 < 64 && c4 < 64
            && First(c1, c2) == a && Second(c2, c3) == b && Third(c3, c4) == c
  {
    LetterValue(a / 4);
    LetterValue(a % 4 * 16 + b / 16);
    LetterValue(b % 16 * 4 + c / 64);
    LetterValue(c % 64);
  }

  // Digits of a last group that is not full keep their upper bits only.
  function Masked(c: char, n: nat): char {
    var v := Value(c);
    if v > 63 then c
    else if n % 3 == 1 then Letter(v / 16 * 16)
    else if n % 3 == 2 then Letter(v / 4 * 4)
    else c
  }

  // The sextets of the bytes made of sextets.
  lemma {:induction false} Bits(c1: int, c2: int, c3: int, c4: int)
    requires 0 <= c1 < 64 && 0 <= c2 < 64 && 0 <= c3 < 64 && 0 <= c4 < 64
    ensures First(c1, c2) / 4 == c1 && First(c1, c2) % 4 == c2 / 16
    ensures First(c1, c2) % 4 * 16 + Second(c2, c3) / 16 == c2 && Second(c2, c3) % 16 == c3 / 4
    ensures Second(c2, c3) % 16 * 4 + Third(c3, c4) / 64 == c3 && Third(c3, c4) % 64 == c4
  {
  }

  // Encoding what was decoded gives the text back, its last digit masked.
  lemma {:induction false} EncodeDecode(t: string, n: nat)
    requires n > 0 && Decoded(t, n).Some?
    ensures |Decoded(t, n).value| == n && Digits(n) <= |t|
    ensures Encoded(Decoded(t, n).value) == t[..Digits(n) - 1] + [Masked(t[Digits(n) - 1], n)]
    decreases n
  {
    hide Letter, Value, First, Second, Third;
    if n < 3 {
      ShortRedone(t, n);
    } else {
      GroupRedone(t[0], t[1], t[2], t[3]);
      if n == 3 {
        assert [t[0], t[1], t[2], t[3]] == t[..3] + [t[3]];
      } else {
        LongRedone(t, n);
      }
    }
  }

  lemma {:induction false} LongRedone(t: string, n: nat)
    requires n > 3 && Decoded(t, n).Some?
    ensures |Decoded(t, n).value| == n && Digits(n) <= |t|
    ensures Encoded(Decoded(t, n).value) == t[..Digits(n) - 1] + [Masked(t[Digits(n) - 1], n)]
    decreases n, 0
  {
    hide Letter, Value, First, Second, Third, Masked, Digits;
    DigitsStep(n);
    GroupRedone(t[0], t[1], t[2], t[3]);
    EncodeDecode(t[4..], n - 3);
    var s, k := Decoded(t, n).value, Digits(n - 3);
    assert s[3..] == Decoded(t[4..], n - 3).value;
    TextParts(t, k, Masked(t[k + 3], n - 3));
    MaskedSame(t[k + 3], n);
  }

  lemma DigitsStep(n: nat)
    requires n > 3
    ensures Digits(n) == Digits(n - 3) + 4 && Digits(n - 3) > 0
  {
  }

  lemma TextParts(t: string, k: nat, m: char)
    requires k > 0 && k + 4 <= |t|
    ensures [t[0], t[1], t[2], t[3]] + (t[4..][..k - 1] + [m]) == t[..k + 3] + [m]
  {
  }

  lemma MaskedSame(c: char, n: nat)
    requires n > 3
    ensures Masked(c, n - 3) == Masked(c, n)
  {
  }

  lemma {:induction false} ShortRedone(t: string, n: nat)
    requires 1 <= n <= 2 && Decoded(t, n).Some?
    ensures |Decoded(t, n).value| == n && Digits(n) <= |t|
    ensures Encoded(Decoded(t, n).value) == t[..Digits(n) - 1] + [Masked(t[Digits(n) - 1], n)]
  {
    hide Letter, Value, First, Second, Third;
    var c1, c2 := Value(t[0]), Value(t[1]);
    ValueLetter(t[0]);
    ValueLetter(t[1]);
    if n == 1 {
      Bits(c1, c2, 0, 0);
    } else {
      ValueLetter(t[2]);
      Bits(c1, c2, Value(t[2]), 0);
    }
  }

  lemma {:induction false} GroupRedone(a: char, b: char, c: char, d: char)
    requires Value(a) < 64 && Value(b) < 64 && Value(c) < 64 && Value(d) < 64
    ensures Group(First(Value(a), Value(b)), Second(Value(b), Value(c)), Third(Value(c), Value(d))) == [a, b, c, d]
  {
    hide Letter, Value, First, Second, Third;
    ValueLetter(a);
    ValueLetter(b);
    ValueLetter(c);
    ValueLetter(d);
    Bits(Value(a), Value(b), Value(c), Value(d));
  }

  // A 16-byte salt is written as its 22 digits, the last one masked as
  // BF_crypt masks it.
  lemma {:induction false} SaltRewritten(setting: string, salt: seq<Byte>)
    requires |setting| >= 22 && |salt| == 16 && Decoded(setting, |salt|) == Some(salt)
    ensures Encoded(salt) == setting[..21] + [SaltEnd(setting[21])]
  {
    hide Decoded, Encoded, Letter, Value;
    EncodeDecode(setting, |salt|);
  }

  // BF_itoa64[BF_atoi64[c] & 0x30].
  function SaltEnd(c: char): char {
    if Value(c) > 63 then c else Letter(Value(c) / 16 * 16)
  }

  // ----- the loops -----

  ghost predicate Holds<T>(a: array<T>, n: nat, s: seq<T>)
    reads a
  {
    n == |s| <= a.Length && a[..n] == s
  }

  method Put<T>(a: array<T>, at: nat, x: T, ghost done: seq<T>) returns (next: nat)
    requires Holds(a, at, done) && at < a.Length
    modifies a
    ensures next == at + 1 && Holds(a, next, done + [x])
  {
    a[at] := x;
    next := at + 1;
  }

  // One turn of the loop of BF_encode; s is what is left of the source.
  method EncodeGroup(dst: array<char>, at: nat, s: seq<Byte>, ghost done: string) returns (next: nat)
    requires s != [] && Holds(dst, at, done) && at + |Chunk(s)| <= dst.Length
    modifies dst
    ensures next == at + |Chunk(s)| && Holds(dst, next, done + Chunk(s))
  {
    hide Letter, Holds;
    next := Put(dst, at, Letter(s[0] / 4), done);
    ghost var d := done + [Letter(s[0] / 4)];
    var c1 := s[0] % 4 * 16;
    if |s| == 1 {
      next := Put(dst, next, Letter(c1), d);
      assert d + [Letter(c1)] == done + Chunk(s);
      return;
    }
    next := Put(dst, next, Letter(c1 + s[1] / 16), d);
    d := d + [Letter(c1 + s[1] / 16)];
    c1 := s[1] % 16 * 4;
    if |s| == 2 {
      next := Put(dst, next, Letter(c1), d);
      assert d + [Letter(c1)] == done + Chunk(s);
      return;
    }
    next := Put(dst, next, Letter(c1 + s[2] / 64), d);
    d := d + [Letter(c1 + s[2] / 64)];
    next := Put(dst, next, Letter(s[2] % 64), d);
    assert d + [Letter(s[2] % 64)] == done + Chunk(s);
  }

  // BF_encode.
  method Encode(dst: array<char>, src: seq<Byte>)
    requires src != [] && Digits(|src|) <= dst.Length
    modifies dst
    ensures Holds(dst, Digits(|src|), Encoded(src))
  {
    hide Holds, Chunk;
    EncodedLength(src);
    var i, d := 0, 0;
    ghost var done := "";
    NothingYet(dst);
    assert src[0..] == src && "" + Encoded(src) == Encoded(src);
    while i < |src|
      invariant 0 <= i <= |src| && Holds(dst, d, done) && d == |done|
      invariant if i < |src| then done + Encoded(src[i..]) == Encoded(src) else done == Encoded(src)
    {
      ghost var rest := if |src| - i <= 3 then "" else Encoded(src[i..][3..]);
      assert Encoded(src[i..]) == Chunk(src[i..]) + rest;
      d := EncodeGroup(dst, d, src[i..], done);
      assert done + (Chunk(src[i..]) + rest) == (done + Chunk(src[i..])) + rest;
      done := done + Chunk(src[i..]);
      assert |src| - i > 3 ==> src[i..][3..] == src[i + 3..];
      assert |src| - i <= 3 ==> done + rest == done;
      i := if |src| - i < 3 then |src| else i + 3;
    }
  }

  lemma NothingYet<T>(a: array<T>)
    ensures Holds(a, 0, [])
  {
  }

  // One turn of the loop of BF_decode, up to three bytes.
  method DecodeGroup(dst: array<Byte>, at: nat, t: string, n: nat, ghost done: seq<Byte>) returns (ok: bool, next: nat)
    requires n > 0 && Holds(dst, at, done) && at + n <= dst.Length
    modifies dst
    ensures ok == Decoded(t, if n < 3 then n else 3).Some?
    ensures ok ==> Holds(dst, next, done + Decoded(t, if n < 3 then n else 3).value)
    ensures ok ==> next == at + if n < 3 then n else 3
  {
    hide Value, First, Second, Third, Holds;
    next := at;
    var c1 := ValueAt(t, 0);
    if c1 > 63 {
      return false, next;
    }
    var c2 := ValueAt(t, 1);
    if c2 > 63 {
      return false, next;
    }
    next := Put(dst, next, First(c1, c2), done);
    ghost var d := done + [First(c1, c2)];
    if n == 1 {
      return true, next;
    }
    var c3 := ValueAt(t, 2);
    if c3 > 63 {
      return false, next;
    }
    next := Put(dst, next, Second(c2, c3), d);
    d := d + [Second(c2, c3)];
    if n == 2 {
      assert d == done + [First(c1, c2), Second(c2, c3)];
      return true, next;
    }
    var c4 := ValueAt(t, 3);
    if c4 > 63 {
      return false, next;
    }
    next := Put(dst, next, Third(c3, c4), d);
    assert d + [Third(c3, c4)] == done + [First(c1, c2), Second(c2, c3), Third(c3, c4)];
    ok := true;
  }

  lemma {:induction false} DecodedStep(t: string, n: nat)
    requires n > 3
    ensures Decoded(t, 3).None? ==> Decoded(t, n).None?
    ensures Decoded(t, 3).Some? ==>
              && |t| >= 4
              && Decoded(t, n) ==
                 match Decoded(t[4..], n - 3) case None => None case Some(rest) => Some(Decoded(t, 3).value + rest)
  {
    hide Value, First, Second, Third;
  }

  // BF_decode: false for -1.
  method Decode(dst: array<Byte>, src: string, size: nat) returns (ok: bool)
    requires 0 < size <= dst.Length
    modifies dst
    ensures ok == Decoded(src, size).Some?
    ensures ok ==> Holds(dst, size, Decoded(src, size).value)
  {
    hide Holds, Decoded;
    var i, d := 0, 0;
    ghost var done: seq<Byte> := [];
    NothingYet(dst);
    assert src[0..] == src;
    ghost var all := Decoded(src, size);
    assert Prefixed([], Decoded(src[0..], size)) == all by { PrefixedNone(all); }
    while d < size
      invariant d <= size && i <= |src| && Holds(dst, d, done)
      invariant if d < size then Prefixed(done, Decoded(src[i..], size - d)) == all else all == Some(done)
    {
      var n := size - d;
      ghost var t := src[i..];
      ok, d := DecodeGroup(dst, d, src[i..], n, done);
      if n > 3 {
        DecodedStep(t, n);
      }
      if !ok {
        return;
      }
      ghost var part := Decoded(t, if n < 3 then n else 3).value;
      if n > 3 {
        PrefixedMore(done, part, Decoded(t[4..], n - 3));
        assert t[4..] == src[i + 4..];
        i := i + 4;
      }
      done := done + part;
    }
    ok := true;
  }

  ghost function Prefixed(done: seq<Byte>, r: Option<seq<Byte>>): Option<seq<Byte>> {
    match r
    case None => None
    case Some(s) => Some(done + s)
  }

  lemma PrefixedNone(r: Option<seq<Byte>>)
    ensures Prefixed([], r) == r
  {
    assert r.Some? ==> [] + r.value == r.value;
  }

  lemma PrefixedMore(done: seq<Byte>, part: seq<Byte>, r: Option<seq<Byte>>)
    ensures Prefixed(done, Prefixed(part, r)) == Prefixed(done + part, r)
  {
    assert r.Some? ==> done + (part + r.value) == (done + part) + r.value;
  }
}

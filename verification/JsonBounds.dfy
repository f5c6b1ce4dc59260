/** When the parser stays inside its text, and what its \u escapes mean. */
module JsonBounds {
  import opened Basics
  import opened Json

  function TrailingBackslashes(s: string): (n: nat)
    ensures n <= |s|
  {
    if s != "" && s[|s| - 1] == '\\' then TrailingBackslashes(s[..|s| - 1]) + 1 else 0
  }

  // A backslash escapes what follows it, unless it is escaped itself.
  predicate Escapes(s: string) {
    TrailingBackslashes(s) % 2 == 1
  }

  lemma {:induction false} TrailingOfTail(s: string, k: nat)
    requires k <= |s|
    ensures TrailingBackslashes(s[k..]) < |s| - k ==> TrailingBackslashes(s) == TrailingBackslashes(s[k..])
    ensures TrailingBackslashes(s[k..]) == |s| - k ==> TrailingBackslashes(s) == TrailingBackslashes(s[..k]) + |s| - k
  {
    if k == |s| {
      assert s[..k] == s;
    } else {
      var t := s[..|s| - 1];
      assert t[k..] == s[k..][..|s| - k - 1] && t[..k] == s[..k];
      TrailingOfTail(t, k);
    }
  }

  ghost predicate QuotesEscaped(s: string) {
    forall i | 0 <= i < |s| && s[i] == '\"' :: Escapes(s[..i])
  }

  // The sizing scan of a string literal leaves the text if and only if
  // the text ends in an unescaped backslash and no quote in it is
  // unescaped.
  lemma {:induction false} ScanExact(s: string)
    ensures ScanOverruns(s) <==> Escapes(s) && QuotesEscaped(s)
    decreases |s|
  {
    if s == "" {
    } else if s[0] == '\"' {
      assert !Escapes(s[..0]);
    } else if s == "\\" {
      assert TrailingBackslashes(s[..0]) == 0;
    } else {
      hide Escapes, QuotesEscaped;
      var k := if s[0] == '\\' then 2 else 1;
      ParityShift(s, k);
      QuotesShift(s, k);
      ScanExact(s[k..]);
      assert |s| == 1 ==> s != "\\" && s[0] != '\\';
    }
  }

  lemma {:induction false} QuotesShift(s: string, k: nat)
    requires k <= |s| && (k == 1 || k == 2) && (s[0] == '\\' <==> k == 2) && s[0] != '\"'
    ensures QuotesEscaped(s) == QuotesEscaped(s[k..])
  {
    hide Escapes;
    forall i | 0 <= i < |s| - k ensures s[k..][i] == s[i + k] && Escapes(s[k..][..i]) == Escapes(s[..i + k]) {
      assert s[..i + k][k..] == s[k..][..i];
      ParityShift(s[..i + k], k);
    }
    if k == 2 {
      OneBackslash(s);
    }
    assert forall i | k <= i < |s| :: s[k..][i - k] == s[i];
  }

  lemma {:induction false} OneBackslash(s: string)
    requires s != "" && s[0] == '\\'
    ensures Escapes(s[..1])
  {
    assert s[..1][..0] == "" && TrailingBackslashes(s[..1]) == 1;
  }

  lemma {:induction false} ParityShift(s: string, k: nat)
    requires k <= |s| && (k == 1 || k == 2) && (s[0] == '\\' <==> k == 2)
    ensures Escapes(s) == Escapes(s[k..])
  {
    TrailingOfTail(s, k);
    assert TrailingBackslashes(s[..k][..k - 1][..0]) == 0;
    if k == 2 {
      assert s[..2][..1] == s[..1] && s[..1][..0] == "";
    } else {
      assert s[..1][0] == s[0];
    }
  }

  // ----- the whole parser -----

  ghost predicate Tail(r: string, s: string) {
    |r| <= |s| && r == s[|s| - |r|..]
  }

  lemma {:induction false} TailTail(a: string, b: string, c: string)
    requires Tail(a, b) && Tail(b, c)
    ensures Tail(a, c)
  {
  }

  lemma {:induction false} SkipTail(s: string)
    ensures Tail(Skip(s), s)
  {
    if s != "" && s[0] as int <= 32 {
      SkipTail(s[1..]);
    }
  }

  lemma {:induction false} DigitsTail(s: string, n: nat)
    ensures Tail(ParseDigits(s, n).1, s)
  {
    if s != "" && IsDigit(s[0]) {
      DigitsTail(s[1..], 10 * n + DigitValue(s[0]));
    }
  }

  lemma {:induction false} EscapeTail(s: string)
    requires s != ""
    ensures Tail(Escape(s).1, s)
  {
    hide Utf8, Combine, Hex4;
  }

  lemma {:induction false} UnescapeTail(s: string)
    requires !ScanOverruns(s)
    ensures Tail(Unescape(s).1, s)
    decreases |s|
  {
    if s == "" || s[0] == '\"' {
    } else if s[0] != '\\' {
      UnescapeTail(s[1..]);
    } else {
      ScanAcrossEscape(s[1..]);
      EscapeTail(s[1..]);
      hide Escape;
      UnescapeTail(Escape(s[1..]).1);
      TailTail(Unescape(s).1, Escape(s[1..]).1, s[1..]);
    }
  }

  // Text in which a string literal can overrun.
  ghost predicate Risky(s: string) {
    Escapes(s) && TrailingBackslashes(s) < |s|
  }

  lemma {:induction false} RiskyTail(r: string, s: string)
    requires Tail(r, s) && Risky(r)
    ensures Risky(s)
  {
    TrailingOfTail(s, |s| - |r|);
  }

  ghost predicate Fine<T>(r: Result<T>, s: string) {
    (r.Ok? ==> Tail(r.rest, s)) && (r.Overrun? ==> Risky(s))
  }

  lemma {:induction false} StringFine(s: string)
    ensures Fine(ParseString(s), s)
  {
    if StartsWith(s, '\"') {
      if ScanOverruns(s[1..]) {
        ScanExact(s[1..]);
        TrailingOfTail(s, 1);
        assert TrailingBackslashes(s[..1]) == 0;
      } else {
        UnescapeTail(s[1..]);
      }
    }
  }

  lemma {:induction false} NumberFine(s: string)
    ensures Fine(ParseNumber(s), s)
  {
    var s1 := if StartsWith(s, '-') then s[1..] else s;
    var s2 := if StartsWith(s1, '0') then s1[1..] else s1;
    DigitsTail(s2, 0);
    hide ParseDigits;
  }

  lemma {:induction false} FineThen<T, U>(r: Result<T>, s1: string, s: string, u: Result<U>)
    requires Fine(r, s1) && Tail(s1, s)
    requires u.Ok? ==> r.Ok? && u.rest == r.rest
    requires u.Overrun? ==> r.Overrun?
    ensures Fine(u, s)
  {
    if u.Ok? {
      TailTail(r.rest, s1, s);
    }
    if u.Overrun? {
      RiskyTail(s1, s);
    }
  }

  lemma {:induction false} ValueFine(s: string)
    ensures Fine(ParseValue(s), s)
    decreases |s|, 1
  {
    hide ParseString, ParseNumber, ParseArray, ParseObject, Risky;
    StringFine(s);
    NumberFine(s);
    if StartsWith(s, '[') {
      ArrayFine(s);
    } else if StartsWith(s, '{') {
      ObjectFine(s);
    }
  }

  lemma {:induction false} ArrayFine(s: string)
    requires StartsWith(s, '[')
    ensures Fine(ParseArray(s), s)
    decreases |s|, 0
  {
    hide ParseItems, Risky;
    SkipTail(s[1..]);
    ItemsFine(Skip(s[1..]));
    FineThen(ParseItems(Skip(s[1..])), Skip(s[1..]), s, ParseItems(Skip(s[1..])));
  }

  lemma {:induction false} ItemsFine(s: string)
    ensures Fine(ParseItems(s), s)
    decreases |s|, 2
  {
    hide ParseValue, MoreItems, Risky;
    ValueFine(s);
    if ParseValue(s).Ok? {
      var s1 := ParseValue(s).rest;
      SkipTail(s1);
      TailTail(Skip(s1), s1, s);
      MoreItemsFine(Skip(s1));
      FineThen(MoreItems(Skip(s1)), Skip(s1), s, ParseItems(s));
    }
  }

  lemma {:induction false} MoreItemsFine(s: string)
    ensures Fine(MoreItems(s), s)
    decreases |s|, 0
  {
    hide ParseItems, Risky;
    if StartsWith(s, ',') {
      var s1 := Skip(s[1..]);
      SkipTail(s[1..]);
      ItemsFine(s1);
      FineThen(ParseItems(s1), s1, s, ParseItems(s1));
    }
  }

  lemma {:induction false} ObjectFine(s: string)
    requires StartsWith(s, '{')
    ensures Fine(ParseObject(s), s)
    decreases |s|, 0
  {
    hide ParseMembers, Risky;
    SkipTail(s[1..]);
    MembersFine(Skip(s[1..]));
    FineThen(ParseMembers(Skip(s[1..])), Skip(s[1..]), s, ParseMembers(Skip(s[1..])));
  }

  lemma {:induction false} MemberFine(s: string)
    ensures Fine(ParseMember(s), s)
    decreases |s|, 2
  {
    hide ParseString, ParseValue, Risky;
    StringFine(s);
    if ParseString(s).Ok? {
      var s1 := ParseString(s).rest;
      var s2 := Skip(s1);
      SkipTail(s1);
      TailTail(s2, s1, s);
      if StartsWith(s2, ':') {
        var s3 := Skip(s2[1..]);
        SkipTail(s2[1..]);
        TailTail(s3, s2[1..], s);
        ValueFine(s3);
        FineThen(ParseValue(s3), s3, s, ParseMember(s));
      }
    }
  }

  lemma {:induction false} MembersFine(s: string)
    ensures Fine(ParseMembers(s), s)
    decreases |s|, 3
  {
    hide ParseMember, MoreMembers, Risky;
    MemberFine(s);
    if ParseMember(s).Ok? {
      var s1 := ParseMember(s).rest;
      SkipTail(s1);
      TailTail(Skip(s1), s1, s);
      MoreMembersFine(Skip(s1));
      FineThen(MoreMembers(Skip(s1)), Skip(s1), s, ParseMembers(s));
    }
  }

  lemma {:induction false} MoreMembersFine(s: string)
    ensures Fine(MoreMembers(s), s)
    decreases |s|, 0
  {
    hide ParseMembers, Risky;
    if StartsWith(s, ',') {
      var s1 := Skip(s[1..]);
      SkipTail(s[1..]);
      MembersFine(s1);
      FineThen(ParseMembers(s1), s1, s, ParseMembers(s1));
    }
  }

  // No text that ends in an even number of backslashes makes the parser
  // read behind its end, and what a parse leaves is a tail of the text.
  lemma {:induction false} StaysInside(s: string)
    ensures TrailingBackslashes(s) % 2 == 0 ==> !Parse(s).Overrun?
    ensures Parse(s).Ok? ==> Tail(Parse(s).rest, s)
  {
    SkipTail(s);
    ValueFine(Skip(s));
    FineThen(Parse(s), Skip(s), s, Parse(s));
  }

  // A string literal cut off behind a backslash.
  lemma RunsOver()
    ensures Parse("\"\\").Overrun?
  {
    assert "\"\\"[1..] == "\\";
  }

  // ----- surrogate pairs -----

  // The code point a pair of surrogates stands for, section 7 of RFC 8259.
  ghost function PairMeaning(high: nat, low: nat): int
    requires IsHigh(high) && IsLow(low)
  {
    0x1_0000 + (high - 0xD800) * 0x400 + (low - 0xDC00)
  }

  // The halves are joined with "or": right if and only if bit 6 of the
  // high surrogate is clear.
  lemma {:induction false} PairExact(high: nat, low: nat)
    requires IsHigh(high) && IsLow(low)
    ensures Combine(high, low) == PairMeaning(high, low) <==> high / 0x40 % 2 == 0
  {
    var x := (high - 0xD800) * 0x400 + (low - 0xDC00);
    assert high % 0x400 == high - 0xD800 && low % 0x400 == low - 0xDC00;
    assert x / 0x1_0000 == (high - 0xD800) / 0x40;
  }

  lemma {:induction false} Utf8Injective(u: nat, v: nat)
    requires u < 0x11_0000 && v < 0x11_0000 && Utf8(u) == Utf8(v)
    ensures u == v
  {
    hide Utf8;
    Utf8Value(u);
    Utf8Value(v);
  }

  // A code point can be read back from its bytes.
  ghost function CodePoint(s: string): int {
    if |s| == 1 then s[0] as int
    else if |s| == 2 then (s[0] as int - 0xC0) * 0x40 + s[1] as int - 0x80
    else if |s| == 3 then (s[0] as int - 0xE0) * 0x1000 + (s[1] as int - 0x80) * 0x40 + s[2] as int - 0x80
    else if |s| == 4 then
      (s[0] as int - 0xF0) * 0x4_0000 + (s[1] as int - 0x80) * 0x1000 + (s[2] as int - 0x80) * 0x40 + s[3] as int - 0x80
    else -1
  }

  lemma {:induction false} Utf8Value(u: nat)
    requires u < 0x11_0000
    ensures CodePoint(Utf8(u)) == u
  {
    assert u / 0x1000 == u / 0x40 / 0x40 && u / 0x4_0000 == u / 0x1000 / 0x40;
  }

  // A string literal that holds two escapes: the surrogates h and l.
  function PairLiteral(h: string, l: string): string {
    "\"\\u" + h + "\\u" + l + "\""
  }

  ghost predicate IsPair(h: string, l: string) {
    |h| == |l| == 4 && IsHex4(h) && IsHex4(l) && IsHigh(Hex4(h)) && IsLow(Hex4(l))
  }

  lemma {:induction false} PairEscape(h: string, l: string, rest: string)
    requires IsPair(h, l)
    ensures UnicodeEscape("u" + h + "\\u" + l + rest) == (Utf8(Combine(Hex4(h), Hex4(l))), rest)
  {
    hide Utf8, Combine;
    var s := "u" + h + "\\u" + l + rest;
    assert s[1..] == h + ("\\u" + l + rest);
    assert s[7..] == l + rest && s[11..] == rest;
    assert Hex4(s[1..]) == Hex4(h) && Hex4(s[7..]) == Hex4(l);
  }

  lemma {:induction false} PairUnescaped(h: string, l: string, rest: string)
    requires IsPair(h, l)
    ensures var s := "\\" + ("u" + h + "\\u" + l + ("\"" + rest));
            !ScanOverruns(s) && Unescape(s) == (Utf8(Combine(Hex4(h), Hex4(l))), rest)
  {
    hide Utf8, Combine, Escape, UnicodeEscape, ScanOverruns, Hex4;
    var tail := "\"" + rest;
    var inner := "u" + h + "\\u" + l + tail;
    var s := "\\" + inner;
    PairEscape(h, l, tail);
    EscapeU(inner);
    PairScan(h, l, rest);
    assert s[1..] == inner;
    EmptyLiteral(rest);
    EscapeFirst(s);
    assert Unescape(tail).0 == "" && Escape(inner).0 + "" == Escape(inner).0;
  }

  lemma {:induction false} EmptyLiteral(rest: string)
    ensures !ScanOverruns("\"" + rest) && Unescape("\"" + rest) == ("", rest)
  {
    assert ("\"" + rest)[1..] == rest;
  }

  lemma {:induction false} EscapeFirst(s: string)
    requires !ScanOverruns(s) && |s| > 1 && s[0] == '\\' && !ScanOverruns(Escape(s[1..]).1)
    ensures Unescape(s).0 == Escape(s[1..]).0 + Unescape(Escape(s[1..]).1).0
    ensures Unescape(s).1 == Unescape(Escape(s[1..]).1).1
  {
    hide Escape, ScanOverruns;
  }

  // What the parser makes of a pair: always a string, with the bytes of
  // the joined halves.
  lemma {:induction false} PairParsed(h: string, l: string, rest: string)
    requires IsPair(h, l)
    ensures ParseValue(PairLiteral(h, l) + rest) == Ok(Str(Utf8(Combine(Hex4(h), Hex4(l)))), rest)
  {
    hide Utf8, Combine, Unescape, ScanOverruns, Hex4, ParseNumber, ParseArray, ParseObject;
    var s := PairLiteral(h, l) + rest;
    assert s[1..] == "\\" + ("u" + h + "\\u" + l + ("\"" + rest));
    PairUnescaped(h, l, rest);
    assert s[0] != 'n' && s[0] != 't' && s[0] != 'f';
    assert ParseString(s) == Ok(Utf8(Combine(Hex4(h), Hex4(l))), rest);
    StringValue(s);
  }

  lemma {:induction false} StringValue(s: string)
    requires ParseString(s).Ok?
    ensures ParseValue(s) == Ok(Str(ParseString(s).value), ParseString(s).rest)
  {
    hide Unescape, ScanOverruns;
    assert forall n | 0 < n <= |s| :: s[..n][0] == '\"';
  }

  lemma {:induction false} EscapeU(s: string)
    requires StartsWith(s, 'u')
    ensures Escape(s) == UnicodeEscape(s)
  {
  }

  lemma {:induction false} PairScan(h: string, l: string, rest: string)
    requires IsPair(h, l)
    ensures !ScanOverruns("\\u" + h + "\\u" + l + ("\"" + rest))
    ensures "\\u" + h + "\\u" + l + ("\"" + rest) == "\\" + ("u" + h + "\\u" + l + ("\"" + rest))
  {
    var tail := "\"" + rest;
    var s3 := l + tail;
    var s2 := "\\u" + s3;
    var s1 := h + s2;
    assert "\\u" + h + "\\u" + l + tail == "\\u" + s1;
    assert ("\\u" + s1)[2..] == s1 && s1[4..] == s2 && s2[2..] == s3 && s3[4..] == tail;
    ScanAcross(s1, 4);
    ScanAcross(s3, 4);
  }

  // The parse is the string that RFC 8259 means if and only if bit 6 of
  // the high surrogate is clear.
  lemma {:induction false} PairParsedExactly(h: string, l: string, rest: string)
    requires IsPair(h, l)
    ensures ParseValue(PairLiteral(h, l) + rest) == Ok(Str(Utf8(PairMeaning(Hex4(h), Hex4(l)))), rest)
            <==> Hex4(h) / 0x40 % 2 == 0
  {
    hide Utf8, Combine, ParseValue;
    PairParsed(h, l, rest);
    PairExact(Hex4(h), Hex4(l));
    if Utf8(Combine(Hex4(h), Hex4(l))) == Utf8(PairMeaning(Hex4(h), Hex4(l))) {
      Utf8Injective(Combine(Hex4(h), Hex4(l)), PairMeaning(Hex4(h), Hex4(l)));
    }
  }

  // The pair D840 DC00 means 0x20000 and is read as 0x10000.
  lemma PairMisread()
    ensures IsPair("d840", "dc00") && PairMeaning(Hex4("d840"), Hex4("dc00")) == 0x2_0000
    ensures ParseValue(PairLiteral("d840", "dc00")) == Ok(Str(Utf8(0x1_0000)), "")
  {
    hide Utf8, ParseValue;
    PairParsed("d840", "dc00", "");
    assert PairLiteral("d840", "dc00") + "" == PairLiteral("d840", "dc00");
  }

  // ----- the joining, bit by bit -----

  ghost function Or(a: nat, b: nat): nat {
    if a == 0 then b else 2 * Or(a / 2, b / 2) + (if a % 2 == 1 || b % 2 == 1 then 1 else 0)
  }

  ghost function And(a: nat, b: nat): nat {
    if a == 0 then 0 else 2 * And(a / 2, b / 2) + (if a % 2 == 1 && b % 2 == 1 then 1 else 0)
  }

  lemma {:induction false} OrStep(a: nat, b: nat)
    ensures Or(a, b) == 2 * Or(a / 2, b / 2) + (if a % 2 == 1 || b % 2 == 1 then 1 else 0)
  {
  }

  lemma {:induction false} OrDouble(a: nat, b: nat, c: nat, d: nat, e: nat)
    requires Or(a + b / 2, c + d / 2) == e + Or(b / 2, d / 2)
    ensures Or(2 * a + b, 2 * c + d) == 2 * e + Or(b, d)
  {
    hide Or;
    OrStep(2 * a + b, 2 * c + d);
    OrStep(b, d);
  }

  lemma Pow2Step(k: nat)
    ensures Pow2(k) == if k == 0 then 1 else 2 * Pow2(k - 1)
  {
  }

  lemma Double(x: nat, p: nat)
    ensures x * (2 * p) == 2 * (x * p)
  {
  }

  // Or works on the bits below and above place k apart.
  lemma {:induction false} OrSplit(a: nat, b: nat, c: nat, d: nat, k: nat)
    requires b < Pow2(k) && d < Pow2(k)
    ensures Or(a * Pow2(k) + b, c * Pow2(k) + d) == Or(a, c) * Pow2(k) + Or(b, d)
    decreases k
  {
    hide Or, Pow2;
    Pow2Step(k);
    if k == 0 {
      OrZero();
    } else {
      var p := Pow2(k - 1);
      Double(a, p);
      Double(c, p);
      Double(Or(a, c), p);
      OrSplit(a, b / 2, c, d / 2, k - 1);
      OrDouble(a * p, b, c * p, d, Or(a, c) * p);
    }
  }

  lemma {:induction false} AndMask(x: nat, k: nat)
    ensures And(x, Pow2(k) - 1) == x % Pow2(k)
  {
    if k == 0 {
      AndZero(x);
    } else if x != 0 {
      var p := Pow2(k - 1);
      AndMask(x / 2, k - 1);
      assert (2 * p - 1) / 2 == p - 1 && (2 * p - 1) % 2 == 1;
      ModDouble(x, p);
    }
  }

  lemma {:induction false} AndZero(x: nat)
    ensures And(x, 0) == 0
  {
    if x != 0 {
      AndZero(x / 2);
    }
  }

  lemma {:induction false} ModDouble(x: nat, p: nat)
    requires p > 0
    ensures x % (2 * p) == 2 * (x / 2 % p) + x % 2
  {
    var q, r := x / 2 / p, x / 2 % p;
    assert x == q * (2 * p) + (2 * r + x % 2) by {
      assert x / 2 == q * p + r;
      assert 2 * (q * p) == q * (2 * p);
    }
    ModOf(q, 2 * p, 2 * r + x % 2);
  }

  lemma {:induction false} ModOf(q: nat, p: nat, r: nat)
    requires r < p
    ensures (q * p + r) % p == r
  {
    var x := q * p + r;
    var k := x / p - q;
    assert r == k * p + x % p by {
      assert x == x / p * p + x % p;
    }
    Multiples(k, p);
  }

  lemma Multiples(k: int, p: int)
    requires p > 0
    ensures k > 0 ==> k * p >= p
    ensures k < 0 ==> k * p <= -p
  {
  }

  lemma Powers()
    ensures Pow2(6) == 0x40 && Pow2(10) == 0x400
  {
    assert Pow2(5) == 0x20;
  }

  // Combine is the joining as it is written, 0x10000 | ((high & 0x3FF) <<
  // 10) | (low & 0x3FF), for all numbers.
  lemma {:induction false} JoinedHalves(high: nat, low: nat)
    ensures Or(Or(0x1_0000, And(high, 0x3FF) * 0x400), And(low, 0x3FF)) == Combine(high, low)
  {
    hide Or, And, Pow2;
    Powers();
    AndMask(high, 10);
    AndMask(low, 10);
    var h, l := high % 0x400, low % 0x400;
    OrSplit(0x40, 0, h, 0, 10);
    OrZero();
    var hi, lo := h / 0x40, h % 0x40;
    OrSplit(1, 0, hi, lo, 6);
    OrOne(hi);
    OrZeroLeft(lo);
    OrSplit(Or(0x40, h), 0, 0, l, 10);
    OrZeroRight(Or(0x40, h));
    OrZeroLeft(l);
    assert Or(0x40, h) == if hi % 2 == 0 then h + 0x40 else h;
    assert (h * 0x400 + l) / 0x1_0000 == hi;
  }

  lemma OrZero()
    ensures Or(0, 0) == 0
  {
  }

  lemma OrZeroLeft(x: nat)
    ensures Or(0, x) == x
  {
  }

  lemma {:induction false} OrZeroRight(x: nat)
    ensures Or(x, 0) == x
  {
    if x != 0 {
      OrZeroRight(x / 2);
    }
  }

  lemma {:induction false} OrOne(x: nat)
    ensures Or(1, x) == if x % 2 == 0 then x + 1 else x
  {
    assert Or(1, x) == 2 * Or(0, x / 2) + 1;
  }
}

/** Printed JSON parses back to the value it was printed from. */
module JsonRoundTrip {
  import opened CStrings
  import opened Json

  // ----- numbers -----

  lemma {:induction false} DecimalParses(n: nat, tail: string)
    ensures ParseDigits(Decimal(n) + tail, 0) == ParseDigits(tail, n)
  {
    hide ParseDigits, Digit;
    var d := Digit(n % 10);
    if n < 10 {
      assert Decimal(n) + tail == [d] + tail;
      DigitParses(n, 0, tail);
    } else {
      assert Decimal(n) + tail == Decimal(n / 10) + ([d] + tail);
      DecimalParses(n / 10, [d] + tail);
      DigitParses(n % 10, n / 10, tail);
    }
  }

  lemma {:induction false} DigitParses(d: nat, n: nat, tail: string)
    requires d < 10
    ensures ParseDigits([Digit(d)] + tail, n) == ParseDigits(tail, 10 * n + d)
  {
    assert ([Digit(d)] + tail)[1..] == tail;
  }

  lemma {:induction false} DecimalStart(n: nat)
    ensures Decimal(n) != "" && IsDigit(Decimal(n)[0]) && (n > 0 ==> Decimal(n)[0] != '0')
  {
    if n >= 10 {
      DecimalStart(n / 10);
    }
  }

  // Text that cannot be taken for more of a number.
  ghost predicate EndsNumber(s: string) {
    s != "" ==> !IsDigit(s[0]) && s[0] != '.' && s[0] != 'e' && s[0] != 'E'
  }

  lemma {:induction false} NumberRoundTrip(n: int, rest: string)
    requires INT_MIN <= n <= INT_MAX && EndsNumber(rest)
    ensures ParseNumber(PrintNumber(n) + rest) == Ok(Num(n), rest)
  {
    hide Decimal, ParseDigits, ParseNumber;
    var m: nat := if n < 0 then -n else n;
    DecimalStart(m);
    DecimalParses(m, rest);
    NoDigitMore(rest, m);
    DecimalZero();
    var s := Decimal(m) + rest;
    assert s[0] == Decimal(m)[0];
    if n < 0 {
      assert PrintNumber(n) + rest == "-" + s;
      SignedParses(s, m, rest);
    } else {
      DigitsParse(s, m, rest);
    }
  }

  lemma DecimalZero()
    ensures Decimal(0) == "0"
  {
  }

  lemma {:induction false} NoDigitMore(rest: string, n: nat)
    requires EndsNumber(rest)
    ensures ParseDigits(rest, n) == (n, rest)
  {
  }

  // Digits at the start of s, as ParseNumber reads them behind the sign.
  ghost predicate ReadsAs(s: string, m: nat, rest: string) {
    && s != "" && IsDigit(s[0])
    && if m == 0 then s == "0" + rest else s[0] != '0' && ParseDigits(s, 0) == (m, rest)
  }

  lemma {:induction false} DigitsParse(s: string, m: nat, rest: string)
    requires EndsNumber(rest) && m <= INT_MAX && ReadsAs(s, m, rest)
    ensures ParseNumber(s) == Ok(Num(m), rest)
  {
    hide ParseDigits;
    assert m == 0 ==> s[1..] == rest;
  }

  lemma {:induction false} SignedParses(s: string, m: int, rest: string)
    requires EndsNumber(rest) && 0 <= m <= -INT_MIN && ReadsAs(s, m, rest)
    ensures ParseNumber("-" + s) == Ok(Num(-m), rest)
  {
    hide ParseDigits;
    assert ("-" + s)[1..] == s;
    assert m == 0 ==> s[1..] == rest;
  }

  // ----- strings -----

  lemma {:induction false} EscapeUndone(c: char, tail: string)
    requires c != '\0'
    ensures ScanOverruns(Escaped(c) + tail) == ScanOverruns(tail)
    ensures !ScanOverruns(tail) ==>
              Unescape(Escaped(c) + tail) == ([c] + Unescape(tail).0, Unescape(tail).1)
  {
    var e := Escaped(c);
    var s := e + tail;
    if |e| == 1 {
      assert s[1..] == tail;
    } else if |e| == 2 {
      assert s[1..][1..] == tail && s[2..] == tail;
    } else {
      ControlEscape(c, tail);
    }
  }

  lemma {:induction false} ControlEscape(c: char, tail: string)
    requires 0 < c as int < 32
    ensures var s := "\\u00" + [Digit(c as int / 16), Digit(c as int % 16)] + tail;
            && ScanOverruns(s) == ScanOverruns(tail)
            && (!ScanOverruns(tail) ==> Unescape(s) == ([c] + Unescape(tail).0, Unescape(tail).1))
  {
    var h := [Digit(c as int / 16), Digit(c as int % 16)];
    var s := "\\u00" + h + tail;
    assert s[1..] == "u00" + h + tail && s[2..] == "00" + h + tail && s[1..][1..] == s[2..];
    assert s[2..][4..] == tail && s[1..][5..] == tail;
    HexDigits(c as int / 16);
    HexDigits(c as int % 16);
    assert Hex4(s[2..]) == c as int;
    ScanAcross(s[2..], 4);
    assert Escape(s[1..]) == ([c], tail);
  }

  lemma HexDigits(d: nat)
    requires d < 16
    ensures IsHex(Digit(d)) && HexValue(Digit(d)) == d
  {
  }

  lemma {:induction false} StringRoundTrip(s: string, rest: string)
    requires NulFree(s)
    ensures ParseString(PrintString(s) + rest) == Ok(s, rest)
  {
    assert (PrintString(s) + rest)[1..] == EscapedAll(s) + ("\"" + rest);
    InsideRoundTrip(s, rest);
  }

  lemma {:induction false} InsideRoundTrip(s: string, rest: string)
    requires NulFree(s)
    ensures var t := EscapedAll(s) + ("\"" + rest);
            !ScanOverruns(t) && Unescape(t) == (s, rest)
  {
    var q := "\"" + rest;
    if s == "" {
      assert EscapedAll(s) + q == q;
      assert q[1..] == rest;
    } else {
      hide Unescape, ScanOverruns, Escaped;
      var tail := EscapedAll(s[1..]) + q;
      InsideRoundTrip(s[1..], rest);
      EscapeUndone(s[0], tail);
      assert EscapedAll(s) + q == Escaped(s[0]) + tail;
      assert [s[0]] + s[1..] == s;
    }
  }

  // ----- blanks -----

  ghost predicate Blank(w: string) {
    forall i | 0 <= i < |w| :: w[i] as int <= 32
  }

  ghost predicate Solid(s: string) {
    s != "" && s[0] as int > 32
  }

  lemma {:induction false} SkipBlank(w: string, s: string)
    requires Blank(w) && Solid(s)
    ensures Skip(w + s) == s
  {
    if w == "" {
      assert w + s == s;
    } else {
      assert (w + s)[1..] == w[1..] + s;
      SkipBlank(w[1..], s);
    }
  }

  lemma {:induction false} TabsBlank(n: nat)
    ensures Blank(Tabs(n))
  {
    if n > 0 {
      TabsBlank(n - 1);
    }
  }

  // What the first character of a printed value can be.
  lemma {:induction false} PrintStart(v: Json, depth: nat, fmt: bool)
    ensures var p := Print(v, depth, fmt);
            p != "" && match v {
              case Null => p[0] == 'n'
              case False => p[0] == 'f'
              case True => p[0] == 't'
              case Num(n) => p[0] == '-' || IsDigit(p[0])
              case Str(s) => p[0] == '\"'
              case Arr(items) => p[0] == '['
              case Obj(members) => p[0] == '{'
            }
    ensures Solid(Print(v, depth, fmt))
  {
    if v.Num? {
      DecimalStart(if v.n < 0 then -v.n else v.n);
    }
  }

  // ----- values -----

  // Every value comes back, whatever follows it, and the parser stops
  // where the printed text ends.
  lemma {:induction false} ValueRoundTrip(v: Json, depth: nat, fmt: bool, rest: string)
    requires Plain(v) && (v.Num? ==> EndsNumber(rest))
    ensures ParseValue(Print(v, depth, fmt) + rest) == Ok(v, rest)
    decreases v, 0
  {
    hide ParseNumber, ParseString, ParseArray, ParseObject;
    PrintStart(v, depth, fmt);
    var s := Print(v, depth, fmt) + rest;
    assert s[0] == Print(v, depth, fmt)[0];
    match v {
      case Null => assert s[..4] == "null" && s[4..] == rest;
      case False => assert s[..5] == "false" && s[5..] == rest;
      case True => assert s[..4] == "true" && s[4..] == rest;
      case Num(n) => NumberRoundTrip(n, rest);
      case Str(t) => StringRoundTrip(t, rest);
      case Arr(items) => ArrayRoundTrip(items, depth, fmt, rest);
      case Obj(members) => ObjectRoundTrip(members, depth, fmt, rest);
    }
  }

  lemma {:induction false} EmptyArray(s: string, rest: string)
    requires s == "[" + ("]" + rest)
    ensures ParseArray(s) == Ok(NoItem, rest)
  {
    assert s[1..] == "]" + rest && ("]" + rest)[1..] == rest;
  }

  lemma {:induction false} ArrayOf(s: string, inside: string)
    requires s == "[" + inside && Solid(inside) && inside[0] != ']'
    ensures ParseArray(s) == ParseItems(inside)
  {
    hide ParseItems;
    assert s[1..] == inside;
  }

  lemma {:induction false} LastItem(s: string, v: Json, rest: string)
    requires ParseValue(s) == Ok(v, "]" + rest)
    ensures ParseItems(s) == Ok(Item(v, NoItem), rest)
  {
    hide ParseValue;
    assert ("]" + rest)[1..] == rest;
  }

  lemma {:induction false} OneItem(s: string, v: Json, w: string, more: string, items: Items, rest: string)
    requires ParseValue(s) == Ok(v, "," + (w + more)) && Blank(w) && Solid(more) && ParseItems(more) == Ok(items, rest)
    ensures ParseItems(s) == Ok(Item(v, items), rest)
  {
    hide ParseValue;
    assert ("," + (w + more))[1..] == w + more;
    SkipBlank(w, more);
  }

  lemma {:induction false} ArrayRoundTrip(items: Items, depth: nat, fmt: bool, rest: string)
    requires PlainItems(items)
    ensures ParseArray(Print(Arr(items), depth, fmt) + rest) == Ok(items, rest)
    decreases items, 1
  {
    hide ParseArray, ParseItems;
    var s := Print(Arr(items), depth, fmt) + rest;
    if items.NoItem? {
      assert s == "[" + ("]" + rest);
      EmptyArray(s, rest);
    } else {
      var inside := PrintItems(items, depth + 1, fmt) + "]" + rest;
      assert s == "[" + inside;
      PrintStart(items.value, depth + 1, fmt);
      assert Print(items.value, depth + 1, fmt)[0] == inside[0];
      hide Print, PrintItems;
      ArrayOf(s, inside);
      ItemsRoundTrip(items, depth + 1, fmt, rest);
    }
  }

  lemma {:induction false} ItemsRoundTrip(items: Items, depth: nat, fmt: bool, rest: string)
    requires PlainItems(items) && items.Item?
    ensures ParseItems(PrintItems(items, depth, fmt) + "]" + rest) == Ok(items, rest)
    decreases items, 0
  {
    hide ParseValue, ParseItems, Print;
    var s := PrintItems(items, depth, fmt) + "]" + rest;
    var p := Print(items.value, depth, fmt);
    if items.next.NoItem? {
      assert s == p + ("]" + rest);
      ValueRoundTrip(items.value, depth, fmt, "]" + rest);
      LastItem(s, items.value, rest);
    } else {
      var w := When(fmt, " ");
      var more := PrintItems(items.next, depth, fmt) + "]" + rest;
      assert s == p + ("," + (w + more));
      PrintStart(items.next.value, depth, fmt);
      assert Print(items.next.value, depth, fmt)[0] == more[0];
      ValueRoundTrip(items.value, depth, fmt, "," + (w + more));
      ItemsRoundTrip(items.next, depth, fmt, rest);
      OneItem(s, items.value, w, more, items.next, rest);
    }
  }

  lemma {:induction false} EmptyObject(s: string, w: string, rest: string)
    requires s == "{" + (w + ("}" + rest)) && Blank(w)
    ensures ParseObject(s) == Ok(NoMember, rest)
  {
    assert s[1..] == w + ("}" + rest) && ("}" + rest)[1..] == rest;
    SkipBlank(w, "}" + rest);
  }

  lemma {:induction false} ObjectOf(s: string, w: string, inside: string)
    requires s == "{" + (w + inside) && Blank(w) && Solid(inside) && inside[0] != '}'
    ensures ParseObject(s) == ParseMembers(inside)
  {
    hide ParseMembers;
    assert s[1..] == w + inside;
    SkipBlank(w, inside);
  }

  lemma {:induction false} LastMember(s: string, name: string, v: Json, w: string, rest: string)
    requires ParseMember(s) == Ok((name, v), w + ("}" + rest)) && Blank(w)
    ensures ParseMembers(s) == Ok(Member(name, v, NoMember), rest)
  {
    hide ParseMember;
    assert ("}" + rest)[1..] == rest;
    SkipBlank(w, "}" + rest);
  }

  lemma {:induction false} OneMember(s: string, name: string, v: Json, w: string, more: string,
      members: Members, rest: string)
    requires ParseMember(s) == Ok((name, v), "," + (w + more)) && Blank(w) && Solid(more) &&
             ParseMembers(more) == Ok(members, rest)
    ensures ParseMembers(s) == Ok(Member(name, v, members), rest)
  {
    hide ParseMember;
    assert ("," + (w + more))[1..] == w + more;
    SkipBlank(w, more);
  }

  // The text of a member behind its tabs.
  ghost function Pair(name: string, text: string, fmt: bool): string {
    PrintString(name) + (":" + (When(fmt, "\t") + text))
  }

  lemma {:induction false} PairRoundTrip(name: string, v: Json, depth: nat, fmt: bool, rest: string)
    requires NulFree(name) && Plain(v) && EndsNumber(rest)
    ensures ParseMember(Pair(name, Print(v, depth, fmt) + rest, fmt)) == Ok((name, v), rest)
    decreases v, 1
  {
    hide ParseValue, Print, ParseString, PrintString, Skip;
    var w, p := When(fmt, "\t"), Print(v, depth, fmt) + rest;
    var tail := ":" + (w + p);
    assert tail[1..] == w + p;
    StringRoundTrip(name, tail);
    PrintStart(v, depth, fmt);
    SkipSolid(tail);
    SkipBlank(w, p);
    ValueRoundTrip(v, depth, fmt, rest);
  }

  lemma SkipSolid(s: string)
    requires Solid(s)
    ensures Skip(s) == s
  {
  }

  // What follows the tabs in PrintMembers(members) + close + "}" + rest.
  ghost function Body(members: Members, depth: nat, fmt: bool, close: string, rest: string): string
    requires members.Member?
  {
    var text := Print(members.value, depth, fmt);
    var nl := When(fmt, "\n");
    if members.next.NoMember? then Pair(members.name, text + (nl + close + ("}" + rest)), fmt)
    else
      var more := nl + When(fmt, Tabs(depth)) + Body(members.next, depth, fmt, close, rest);
      Pair(members.name, text + ("," + more), fmt)
  }

  lemma {:induction false} Regroup(m: string, c: string, nl: string, p: string, close: string, rest: string)
    ensures m + c + nl + p + close + "}" + rest == m + (c + (nl + (p + close + "}" + rest)))
  {
    var tail := close + "}" + rest;
    assert m + c + nl + p + close + "}" + rest == m + c + nl + p + tail;
    assert p + close + "}" + rest == p + tail;
    assert m + c + nl + p + tail == m + c + nl + (p + tail);
    assert m + c + nl + (p + tail) == m + c + (nl + (p + tail));
  }

  lemma {:induction false} BodyIs(members: Members, depth: nat, fmt: bool, close: string, rest: string)
    requires members.Member?
    ensures PrintMembers(members, depth, fmt) + close + "}" + rest ==
            When(fmt, Tabs(depth)) + Body(members, depth, fmt, close, rest)
  {
    hide Print, PrintString, Tabs;
    var Member(name, v, next) := members;
    var text, nl, tabs := Print(v, depth, fmt), When(fmt, "\n"), When(fmt, Tabs(depth));
    var m := PrintMember(name, text, depth, fmt);
    if next.NoMember? {
      var tail := nl + close + ("}" + rest);
      Regroup(m, "", nl, "", close, rest);
      assert PrintMembers(members, depth, fmt) + close + "}" + rest == m + tail;
      PairIs(name, text, tail, depth, fmt);
    } else {
      var tail := "," + (nl + tabs + Body(next, depth, fmt, close, rest));
      BodyIs(next, depth, fmt, close, rest);
      Regroup(m, ",", nl, PrintMembers(next, depth, fmt), close, rest);
      assert nl + (tabs + Body(next, depth, fmt, close, rest)) == nl + tabs + Body(next, depth, fmt, close, rest);
      PairIs(name, text, tail, depth, fmt);
    }
  }

  lemma {:induction false} PairIs(name: string, text: string, tail: string, depth: nat, fmt: bool)
    ensures PrintMember(name, text, depth, fmt) + tail == When(fmt, Tabs(depth)) + Pair(name, text + tail, fmt)
  {
    hide Tabs, PrintString;
  }

  lemma {:induction false} BodyRoundTrip(members: Members, depth: nat, fmt: bool, close: string, rest: string)
    requires PlainMembers(members) && members.Member? && Blank(close)
    ensures ParseMembers(Body(members, depth, fmt, close, rest)) == Ok(members, rest)
    decreases members, 0
  {
    hide ParseMember, ParseMembers, Print, Tabs, Pair;
    var Member(name, v, next) := members;
    var nl := When(fmt, "\n");
    TabsBlank(depth);
    var s := Body(members, depth, fmt, close, rest);
    if next.NoMember? {
      var tail := nl + close + ("}" + rest);
      PairRoundTrip(name, v, depth, fmt, tail);
      LastMember(s, name, v, nl + close, rest);
    } else {
      var w, more := nl + When(fmt, Tabs(depth)), Body(next, depth, fmt, close, rest);
      PairRoundTrip(name, v, depth, fmt, "," + (w + more));
      BodyStart(next, depth, fmt, close, rest);
      BodyRoundTrip(next, depth, fmt, close, rest);
      OneMember(s, name, v, w, more, next, rest);
    }
  }

  lemma {:induction false} BodyStart(members: Members, depth: nat, fmt: bool, close: string, rest: string)
    requires members.Member?
    ensures Solid(Body(members, depth, fmt, close, rest)) && Body(members, depth, fmt, close, rest)[0] == '\"'
  {
    hide Print, Tabs, EscapedAll;
  }

  lemma {:induction false} Brackets(nl: string, p: string, close: string, rest: string)
    ensures "{" + nl + p + close + "}" + rest == "{" + (nl + (p + close + "}" + rest))
  {
    var tail := close + "}" + rest;
    assert "{" + nl + p + close + "}" + rest == "{" + nl + p + tail;
    assert p + close + "}" + rest == p + tail;
    assert "{" + nl + p + tail == "{" + nl + (p + tail);
  }

  lemma {:induction false} ObjectRoundTrip(members: Members, depth: nat, fmt: bool, rest: string)
    requires PlainMembers(members)
    ensures ParseObject(Print(Obj(members), depth, fmt) + rest) == Ok(members, rest)
    decreases members, 1
  {
    hide ParseObject, ParseMembers, Body, Tabs;
    var s := Print(Obj(members), depth, fmt) + rest;
    var nl, close := When(fmt, "\n"), When(fmt, Tabs(depth));
    TabsBlank(depth);
    if members.NoMember? {
      Brackets(nl, "", close, rest);
      assert nl + ("" + close + "}" + rest) == (nl + close) + ("}" + rest);
      EmptyObject(s, nl + close, rest);
    } else {
      var tabs, body := When(fmt, Tabs(depth + 1)), Body(members, depth + 1, fmt, close, rest);
      TabsBlank(depth + 1);
      BodyIs(members, depth + 1, fmt, close, rest);
      Brackets(nl, PrintMembers(members, depth + 1, fmt), close, rest);
      assert nl + (tabs + body) == nl + tabs + body;
      BodyStart(members, depth + 1, fmt, close, rest);
      BodyRoundTrip(members, depth + 1, fmt, close, rest);
      ObjectOf(s, nl + tabs, body);
    }
  }

  // cJSON_Parse undoes cJSON_Print and cJSON_PrintUnformatted.
  lemma {:induction false} RoundTrip(v: Json, fmt: bool)
    requires Plain(v)
    ensures Parse(Print(v, 0, fmt)) == Ok(v, "")
  {
    PrintStart(v, 0, fmt);
    assert Print(v, 0, fmt) + "" == Print(v, 0, fmt);
    ValueRoundTrip(v, 0, fmt, "");
  }
}

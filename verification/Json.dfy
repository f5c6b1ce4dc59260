/** JSON values, their printed text, and what the parser makes of a text. */
module Json {
  import opened CStrings

  // Items and members are chained as the parser and the printer see them.
  datatype Json =
    | Null
    | False
    | True
    | Num(n: int)
    | Str(s: string)
    | Arr(items: Items)
    | Obj(members: Members)
  datatype Items = NoItem | Item(value: Json, next: Items)
  datatype Members = NoMember | Member(name: string, value: Json, next: Members)

  const INT_MIN := -0x8000_0000
  const INT_MAX := 0x7fff_ffff

  // Integer numbers and C strings.
  ghost predicate Plain(v: Json) {
    match v
    case Num(n) => INT_MIN <= n <= INT_MAX
    case Str(s) => NulFree(s)
    case Arr(items) => PlainItems(items)
    case Obj(members) => PlainMembers(members)
    case _ => true
  }

  ghost predicate PlainItems(items: Items) {
    items.Item? ==> Plain(items.value) && PlainItems(items.next)
  }

  ghost predicate PlainMembers(members: Members) {
    members.Member? ==> NulFree(members.name) && Plain(members.value) && PlainMembers(members.next)
  }

  // ----- printing -----

  function Digit(d: nat): char
    requires d < 16
  {
    "0123456789abcdef"[d]
  }

  function Decimal(n: nat): string {
    (if n < 10 then "" else Decimal(n / 10)) + [Digit(n % 10)]
  }

  function PrintNumber(n: int): string {
    if n < 0 then "-" + Decimal(-n) else Decimal(n)
  }

  function Escaped(c: char): string {
    if c == '\\' then "\\\\"
    else if c == '\"' then "\\\""
    else if c as int > 31 then [c]
    else if c as int == 8 then "\\b"
    else if c as int == 12 then "\\f"
    else if c == '\n' then "\\n"
    else if c == '\r' then "\\r"
    else if c == '\t' then "\\t"
    else "\\u00" + [Digit(c as int / 16), Digit(c as int % 16)]
  }

  function EscapedAll(s: string): string {
    if s == "" then "" else Escaped(s[0]) + EscapedAll(s[1..])
  }

  function PrintString(s: string): string {
    "\"" + EscapedAll(s) + "\""
  }

  function Tabs(n: nat): string {
    if n == 0 then "" else Tabs(n - 1) + "\t"
  }

  function When(fmt: bool, s: string): string {
    if fmt then s else ""
  }

  function Print(v: Json, depth: nat, fmt: bool): string {
    match v
    case Null => "null"
    case False => "false"
    case True => "true"
    case Num(n) => PrintNumber(n)
    case Str(s) => PrintString(s)
    case Arr(items) => "[" + PrintItems(items, depth + 1, fmt) + "]"
    case Obj(members) =>
      "{" + When(fmt, "\n") + PrintMembers(members, depth + 1, fmt) + When(fmt, Tabs(depth)) + "}"
  }

  function PrintItems(items: Items, depth: nat, fmt: bool): string {
    match items
    case NoItem => ""
    case Item(v, NoItem) => Print(v, depth, fmt)
    case Item(v, next) => Print(v, depth, fmt) + "," + When(fmt, " ") + PrintItems(next, depth, fmt)
  }

  function PrintMember(name: string, text: string, depth: nat, fmt: bool): string {
    When(fmt, Tabs(depth)) + PrintString(name) + ":" + When(fmt, "\t") + text
  }

  function PrintMembers(members: Members, depth: nat, fmt: bool): string {
    match members
    case NoMember => ""
    case Member(name, v, next) =>
      PrintMember(name, Print(v, depth, fmt), depth, fmt) +
      (if next.NoMember? then "" else ",") + When(fmt, "\n") + PrintMembers(next, depth, fmt)
  }

  // ----- parsing -----

  // Inexact: a number that is not a plain 32-bit integer. Overrun: the
  // parser reads behind the terminating zero byte.
  datatype Result<T> = Ok(value: T, rest: string) | Fail | Inexact | Overrun {
    predicate IsFailure() {
      !Ok?
    }

    function PropagateFailure<U>(): Result<U>
      requires IsFailure()
    {
      match this
      case Fail => Fail
      case Inexact => Inexact
      case Overrun => Overrun
    }

    function Extract(): (T, string)
      requires !IsFailure()
    {
      (value, rest)
    }
  }

  predicate StartsWith(s: string, c: char) {
    s != "" && s[0] == c
  }

  function Skip(s: string): (r: string)
    ensures |r| <= |s|
  {
    if s != "" && s[0] as int <= 32 then Skip(s[1..]) else s
  }

  predicate IsDigit(c: char) {
    '0' <= c <= '9'
  }

  function DigitValue(c: char): nat
    requires IsDigit(c)
  {
    c as int - '0' as int
  }

  // The value of the digits at the start of s, behind those read already.
  function ParseDigits(s: string, n: nat): (r: (nat, string))
    ensures |r.1| <= |s|
  {
    if s != "" && IsDigit(s[0]) then ParseDigits(s[1..], 10 * n + DigitValue(s[0])) else (n, s)
  }

  function Signed(negative: bool, n: int): int {
    if negative then -n else n
  }

  // What follows the digits decides whether the number is an integer.
  function EndNumber(value: int, s: string): Result<Json> {
    if StartsWith(s, '.') && |s| > 1 && IsDigit(s[1]) then Inexact
    else if StartsWith(s, 'e') || StartsWith(s, 'E') then Inexact
    else if INT_MIN <= value <= INT_MAX then Ok(Num(value), s)
    else Inexact
  }

  function ParseNumber(s: string): (r: Result<Json>)
    ensures r.Ok? ==> |r.rest| <= |s|
  {
    var negative := StartsWith(s, '-');
    var s1 := if negative then s[1..] else s;
    var s2 := if StartsWith(s1, '0') then s1[1..] else s1;
    var (n, s3) := if s2 != "" && '1' <= s2[0] <= '9' then ParseDigits(s2, 0) else (0, s2);
    EndNumber(Signed(negative, n), s3)
  }

  // The scan that sizes a string runs past the end of the text.
  predicate ScanOverruns(s: string) {
    if s == "" || s[0] == '\"' then false
    else if s[0] != '\\' then ScanOverruns(s[1..])
    else if |s| == 1 then true
    else ScanOverruns(s[2..])
  }

  predicate IsHex(c: char) {
    IsDigit(c) || 'a' <= c <= 'f' || 'A' <= c <= 'F'
  }

  function HexValue(c: char): (d: nat)
    requires IsHex(c)
    ensures d < 16
  {
    if IsDigit(c) then DigitValue(c)
    else if 'a' <= c <= 'f' then c as int - 'a' as int + 10
    else c as int - 'A' as int + 10
  }

  predicate IsHex4(s: string) {
    |s| >= 4 && IsHex(s[0]) && IsHex(s[1]) && IsHex(s[2]) && IsHex(s[3])
  }

  function Hex4(s: string): (u: nat)
    requires IsHex4(s)
    ensures u < 0x10000
  {
    0x1000 * HexValue(s[0]) + 0x100 * HexValue(s[1]) + 0x10 * HexValue(s[2]) + HexValue(s[3])
  }

  // 0x10000 | x, for x below 2^20.
  function SetBit16(x: nat): nat {
    if x / 0x10000 % 2 == 0 then x + 0x10000 else x
  }

  function Combine(high: nat, low: nat): (u: nat)
    ensures 0x1_0000 <= u < 0x11_0000
  {
    SetBit16(high % 0x400 * 0x400 + low % 0x400)
  }

  function Ch(n: nat): char
    requires n < 256
  {
    n as char
  }

  // The bytes of code point u in UTF-8, as they are put together here.
  function Utf8(u: nat): (s: string)
    requires u < 0x11_0000
    ensures 1 <= |s| <= 4
  {
    if u < 0x80 then [Ch(u)]
    else if u < 0x800 then [Ch(0xC0 + u / 0x40), Ch(0x80 + u % 0x40)]
    else if u < 0x1_0000 then [Ch(0xE0 + u / 0x1000), Ch(0x80 + u / 0x40 % 0x40), Ch(0x80 + u % 0x40)]
    else [Ch(0xF0 + u / 0x4_0000), Ch(0x80 + u / 0x1000 % 0x40), Ch(0x80 + u / 0x40 % 0x40), Ch(0x80 + u % 0x40)]
  }

  predicate IsHigh(u: nat) {
    0xD800 <= u <= 0xDBFF
  }

  predicate IsLow(u: nat) {
    0xDC00 <= u <= 0xDFFF
  }

  // A \u escape; s starts at the u. What it stands for, and what follows.
  function UnicodeEscape(s: string): (r: (string, string))
    requires StartsWith(s, 'u')
    ensures |r.0| + |r.1| < |s|
  {
    if !IsHex4(s[1..]) then ("", s[1..])
    else
      var u := Hex4(s[1..]);
      if IsLow(u) || u == 0 then ("", s[5..])
      else if !IsHigh(u) then (Utf8(u), s[5..])
      else if |s| < 7 || s[5] != '\\' || s[6] != 'u' || !IsHex4(s[7..]) then ("", s[5..])
      else if !IsLow(Hex4(s[7..])) then ("", s[11..])
      else (Utf8(Combine(u, Hex4(s[7..]))), s[11..])
  }

  // What a backslash makes of the text s behind it.
  function Escape(s: string): (r: (string, string))
    requires s != ""
    ensures |r.1| < |s|
  {
    match s[0]
    case 'b' => ([Ch(8)], s[1..])
    case 'f' => ([Ch(12)], s[1..])
    case 'n' => ("\n", s[1..])
    case 'r' => ("\r", s[1..])
    case 't' => ("\t", s[1..])
    case 'u' => UnicodeEscape(s)
    case _ => ([s[0]], s[1..])
  }

  // The string whose inside starts at s, and what follows it.
  function Unescape(s: string): (r: (string, string))
    requires !ScanOverruns(s)
    ensures |r.1| <= |s|
    decreases |s|
  {
    if s == "" then ("", "")
    else if s[0] == '\"' then ("", s[1..])
    else if s[0] != '\\' then
      var (out, rest) := Unescape(s[1..]);
      ([s[0]] + out, rest)
    else
      var (c, s1) := Escape(s[1..]);
      ScanAcrossEscape(s[1..]);
      var (out, rest) := Unescape(s1);
      (c + out, rest)
  }

  lemma {:induction false} ScanAcrossEscape(s: string)
    requires s != ""
    ensures ScanOverruns(Escape(s).1) == ScanOverruns(s[1..])
  {
    if s[0] == 'u' && IsHex4(s[1..]) {
      ScanAcross(s[1..], 4);
      assert s[1..][4..] == s[5..];
      if |s| >= 7 && s[5] == '\\' && s[6] == 'u' && IsHex4(s[7..]) {
        assert s[5..][2..] == s[7..];
        ScanAcross(s[7..], 4);
        assert s[7..][4..] == s[11..];
      }
    }
  }

  lemma {:induction false} ScanAcross(s: string, n: nat)
    requires n <= |s| && forall i | 0 <= i < n :: IsHex(s[i])
    ensures ScanOverruns(s[n..]) == ScanOverruns(s)
  {
    if n > 0 {
      ScanAcross(s[1..], n - 1);
      assert s[1..][n - 1..] == s[n..];
    } else {
      assert s[0..] == s;
    }
  }

  function ParseString(s: string): (r: Result<string>)
    ensures r.Ok? ==> |r.rest| < |s|
  {
    if !StartsWith(s, '\"') then Fail
    else if ScanOverruns(s[1..]) then Overrun
    else
      var (out, rest) := Unescape(s[1..]);
      Ok(out, rest)
  }

  predicate HasPrefix(s: string, p: string) {
    |p| <= |s| && s[..|p|] == p
  }

  function ParseValue(s: string): (r: Result<Json>)
    ensures r.Ok? ==> |r.rest| <= |s|
    decreases |s|, 1
  {
    if HasPrefix(s, "null") then Ok(Null, s[4..])
    else if HasPrefix(s, "false") then Ok(False, s[5..])
    else if HasPrefix(s, "true") then Ok(True, s[4..])
    else if StartsWith(s, '\"') then
      var (out, rest) :- ParseString(s);
      Ok(Str(out), rest)
    else if StartsWith(s, '-') || (s != "" && IsDigit(s[0])) then ParseNumber(s)
    else if StartsWith(s, '[') then
      var (items, rest) :- ParseArray(s);
      Ok(Arr(items), rest)
    else if StartsWith(s, '{') then
      var (members, rest) :- ParseObject(s);
      Ok(Obj(members), rest)
    else Fail
  }

  function ParseArray(s: string): (r: Result<Items>)
    requires StartsWith(s, '[')
    ensures r.Ok? ==> |r.rest| <= |s|
    decreases |s|, 0
  {
    var s1 := Skip(s[1..]);
    if StartsWith(s1, ']') then Ok(NoItem, s1[1..]) else ParseItems(s1)
  }

  // The items from s on, and the closing bracket.
  function ParseItems(s: string): (r: Result<Items>)
    ensures r.Ok? ==> |r.rest| <= |s|
    decreases |s|, 2
  {
    var (v, s1) :- ParseValue(s);
    var (items, rest) :- MoreItems(Skip(s1));
    Ok(Item(v, items), rest)
  }

  function MoreItems(s: string): (r: Result<Items>)
    ensures r.Ok? ==> |r.rest| <= |s|
    decreases |s|, 0
  {
    if StartsWith(s, ',') then ParseItems(Skip(s[1..]))
    else if StartsWith(s, ']') then Ok(NoItem, s[1..])
    else Fail
  }

  function ParseObject(s: string): (r: Result<Members>)
    requires StartsWith(s, '{')
    ensures r.Ok? ==> |r.rest| <= |s|
    decreases |s|, 0
  {
    var s1 := Skip(s[1..]);
    if StartsWith(s1, '}') then Ok(NoMember, s1[1..]) else ParseMembers(s1)
  }

  // A member's name, colon and value.
  function ParseMember(s: string): (r: Result<(string, Json)>)
    ensures r.Ok? ==> |r.rest| <= |s|
    decreases |s|, 2
  {
    var (name, s1) :- ParseString(s);
    var s2 := Skip(s1);
    if !StartsWith(s2, ':') then Fail
    else
      var (v, rest) :- ParseValue(Skip(s2[1..]));
      Ok((name, v), rest)
  }

  function ParseMembers(s: string): (r: Result<Members>)
    ensures r.Ok? ==> |r.rest| <= |s|
    decreases |s|, 3
  {
    var (m, s1) :- ParseMember(s);
    var (members, rest) :- MoreMembers(Skip(s1));
    Ok(Member(m.0, m.1, members), rest)
  }

  function MoreMembers(s: string): (r: Result<Members>)
    ensures r.Ok? ==> |r.rest| <= |s|
    decreases |s|, 0
  {
    if StartsWith(s, ',') then ParseMembers(Skip(s[1..]))
    else if StartsWith(s, '}') then Ok(NoMember, s[1..])
    else Fail
  }

  // cJSON_Parse.
  function Parse(s: string): Result<Json> {
    ParseValue(Skip(s))
  }
}

/** The grammar of RFC 8259 and what its texts mean, apart from the parser. */
module JsonGrammar {
  import opened CStrings
  import opened Json
  import opened JsonBounds
  import opened JsonRoundTrip

  // ----- texts -----

  // One character of a string: as itself, as a two-character escape, as
  // \u and four hexadecimal digits, or as a pair of these. upper says
  // which digits are written as capital letters.
  datatype Sign =
    | Raw(c: char)
    | Short(c: char)
    | Unit(u: nat, upper: seq<bool>)
    | Halves(high: nat, low: nat, upper: seq<bool>)

  // A value as it is written, with all its blanks.
  datatype Syntax =
    | WNull
    | WFalse
    | WTrue
    | WNum(minus: bool, digits: string)
    | WStr(signs: seq<Sign>)
    | WNoItems(blanks: string)
    | WArr(blanks: string, items: WItems)
    | WNoMembers(blanks: string)
    | WObj(blanks: string, members: WMembers)

  // Items with the blanks behind them, and behind the comma.
  datatype WItems =
    | LastItem(value: Syntax, w: string)
    | MoreItem(value: Syntax, w: string, comma: string, next: WItems)

  // A name, the blanks before and behind the colon, a value and blanks.
  datatype WMembers =
    | LastMember(name: seq<Sign>, v: string, colon: string, value: Syntax, w: string)
    | MoreMember(name: seq<Sign>, v: string, colon: string, value: Syntax, w: string, comma: string, next: WMembers)

  function HexDigit(d: nat, upper: bool): char
    requires d < 16
  {
    if upper then "0123456789ABCDEF"[d] else "0123456789abcdef"[d]
  }

  function IsUpper(upper: seq<bool>, i: nat): bool {
    i < |upper| && upper[i]
  }

  // Four digits of u, the highest first; capital letters from place i on.
  function HexText(u: nat, upper: seq<bool>, i: nat): string {
    [HexDigit(u / 0x1000 % 16, IsUpper(upper, i)), HexDigit(u / 0x100 % 16, IsUpper(upper, i + 1)),
     HexDigit(u / 0x10 % 16, IsUpper(upper, i + 2)), HexDigit(u % 16, IsUpper(upper, i + 3))]
  }

  function SignText(sign: Sign): string {
    match sign
    case Raw(c) => [c]
    case Short(c) => "\\" + [c]
    case Unit(u, upper) => "\\u" + HexText(u, upper, 0)
    case Halves(high, low, upper) => "\\u" + HexText(high, upper, 0) + "\\u" + HexText(low, upper, 4)
  }

  // In what follows, tail is the text behind.
  function SignsText(signs: seq<Sign>, tail: string): string {
    if signs == [] then tail else SignText(signs[0]) + SignsText(signs[1..], tail)
  }

  function StringText(signs: seq<Sign>, tail: string): string {
    "\"" + SignsText(signs, "\"" + tail)
  }

  function ValueText(x: Syntax, tail: string): string {
    match x
    case WNull => "null" + tail
    case WFalse => "false" + tail
    case WTrue => "true" + tail
    case WNum(minus, digits) => (if minus then "-" else "") + (digits + tail)
    case WStr(signs) => StringText(signs, tail)
    case WNoItems(w) => "[" + (w + ("]" + tail))
    case WArr(w, items) => "[" + (w + ItemsText(items, "]" + tail))
    case WNoMembers(w) => "{" + (w + ("}" + tail))
    case WObj(w, members) => "{" + (w + MembersText(members, "}" + tail))
  }

  function ItemsText(items: WItems, tail: string): string {
    match items
    case LastItem(value, w) => ValueText(value, w + tail)
    case MoreItem(value, w, comma, next) => ValueText(value, w + ("," + (comma + ItemsText(next, tail))))
  }

  function MembersText(members: WMembers, tail: string): string {
    match members
    case LastMember(name, v, colon, value, w) => StringText(name, v + (":" + (colon + ValueText(value, w + tail))))
    case MoreMember(name, v, colon, value, w, comma, next) =>
      StringText(name, v + (":" + (colon + ValueText(value, w + ("," + (comma + MembersText(next, tail)))))))
  }

  // ----- what is allowed -----

  // Section 2 of RFC 8259.
  ghost predicate White(w: string) {
    forall i | 0 <= i < |w| :: w[i] in " \t\n\r"
  }

  // Section 7. A pair of surrogates is left out if it is misread.
  ghost predicate SignOk(sign: Sign) {
    match sign
    case Raw(c) => c as int >= 0x20 && c != '\"' && c != '\\'
    case Short(c) => c in "\"\\/bfnrt"
    case Unit(u, _) => 0 < u < 0x1_0000 && !(0xD800 <= u <= 0xDFFF)
    case Halves(high, low, _) => 0xD800 <= high <= 0xDBFF && 0xDC00 <= low <= 0xDFFF && high / 0x40 % 2 == 0
  }

  ghost predicate SignsOk(signs: seq<Sign>) {
    forall i | 0 <= i < |signs| :: SignOk(signs[i])
  }

  // Section 6: the integers.
  ghost predicate DigitsOk(digits: string) {
    && digits != "" && (forall i | 0 <= i < |digits| :: '0' <= digits[i] <= '9')
    && (digits[0] == '0' ==> |digits| == 1)
  }

  ghost function DecimalValue(digits: string): int {
    if digits == "" then 0
    else 10 * DecimalValue(digits[..|digits| - 1]) + (digits[|digits| - 1] as int - '0' as int)
  }

  ghost predicate SyntaxOk(x: Syntax) {
    match x
    case WNum(minus, digits) =>
      && DigitsOk(digits)
      && -0x8000_0000 <= (if minus then -DecimalValue(digits) else DecimalValue(digits)) <= 0x7fff_ffff
    case WStr(signs) => SignsOk(signs)
    case WNoItems(w) => White(w)
    case WArr(w, items) => White(w) && ItemsOk(items)
    case WNoMembers(w) => White(w)
    case WObj(w, members) => White(w) && MembersOk(members)
    case _ => true
  }

  ghost predicate ItemsOk(items: WItems) {
    match items
    case LastItem(value, w) => SyntaxOk(value) && White(w)
    case MoreItem(value, w, comma, next) => SyntaxOk(value) && White(w) && White(comma) && ItemsOk(next)
  }

  ghost predicate MembersOk(members: WMembers) {
    match members
    case LastMember(name, v, colon, value, w) =>
      SignsOk(name) && White(v) && White(colon) && SyntaxOk(value) && White(w)
    case MoreMember(name, v, colon, value, w, comma, next) =>
      && SignsOk(name) && White(v) && White(colon) && SyntaxOk(value) && White(w) && White(comma)
      && MembersOk(next)
  }

  // ----- what it means -----

  // The bytes of code point u, section 3 of RFC 3629.
  ghost predicate Encodes(s: string, u: nat) {
    if u < 0x80 then |s| == 1 && s[0] as int == u
    else if u < 0x800 then
      && |s| == 2 && 0xC0 <= s[0] as int < 0xE0 && Follows(s[1])
      && u == (s[0] as int - 0xC0) * 0x40 + (s[1] as int - 0x80)
    else if u < 0x1_0000 then
      && |s| == 3 && 0xE0 <= s[0] as int < 0xF0 && Follows(s[1]) && Follows(s[2])
      && u == (s[0] as int - 0xE0) * 0x1000 + (s[1] as int - 0x80) * 0x40 + (s[2] as int - 0x80)
    else
      && |s| == 4 && 0xF0 <= s[0] as int < 0xF8 && Follows(s[1]) && Follows(s[2]) && Follows(s[3])
      && u == (s[0] as int - 0xF0) * 0x4_0000 + (s[1] as int - 0x80) * 0x1000 + (s[2] as int - 0x80) * 0x40
              + (s[3] as int - 0x80)
  }

  ghost predicate Follows(c: char) {
    0x80 <= c as int < 0xC0
  }

  // Utf8 gives these bytes, and no others are those of u.
  lemma {:induction false} Utf8Exactly(s: string, u: nat)
    requires u < 0x11_0000
    ensures Encodes(s, u) <==> s == Utf8(u)
  {
    assert u / 0x1000 == u / 0x40 / 0x40 && u / 0x4_0000 == u / 0x1000 / 0x40;
    if Encodes(s, u) {
      EncodesOnce(s, Utf8(u), u);
    }
  }

  lemma {:induction false} SameSix(a: int, b: int, c: int, d: int)
    requires a * 0x40 + b == c * 0x40 + d && 0 <= b < 0x40 && 0 <= d < 0x40
    ensures a == c && b == d
  {
  }

  lemma {:induction false} EncodesOnce(s: string, t: string, u: nat)
    requires u < 0x11_0000 && Encodes(s, u) && Encodes(t, u)
    ensures s == t
  {
    var n := |s| - 1;
    assert |t| == |s|;
    var f := (r: string, i: nat) requires i < |r| => r[i] as int;
    if n >= 1 {
      var top := (r: string) requires |r| == |s| =>
        if n == 1 then f(r, 0) - 0xC0
        else if n == 2 then (f(r, 0) - 0xE0) * 0x40 + f(r, 1) - 0x80
        else ((f(r, 0) - 0xF0) * 0x40 + f(r, 1) - 0x80) * 0x40 + f(r, 2) - 0x80;
      SameSix(top(s), f(s, n) - 0x80, top(t), f(t, n) - 0x80);
      if n == 2 {
        SameSix(f(s, 0) - 0xE0, f(s, 1) - 0x80, f(t, 0) - 0xE0, f(t, 1) - 0x80);
      } else if n == 3 {
        SameSix((f(s, 0) - 0xF0) * 0x40 + f(s, 1) - 0x80, f(s, 2) - 0x80,
          (f(t, 0) - 0xF0) * 0x40 + f(t, 1) - 0x80, f(t, 2) - 0x80);
        SameSix(f(s, 0) - 0xF0, f(s, 1) - 0x80, f(t, 0) - 0xF0, f(t, 1) - 0x80);
      }
    }
  }

  ghost function ShortMeaning(c: char): char {
    match c
    case 'b' => 8 as char
    case 'f' => 12 as char
    case 'n' => 10 as char
    case 'r' => 13 as char
    case 't' => 9 as char
    case _ => c
  }

  ghost function SignMeaning(sign: Sign): string
    requires SignOk(sign)
  {
    match sign
    case Raw(c) => [c]
    case Short(c) => [ShortMeaning(c)]
    case Unit(u, _) => Utf8(u)
    case Halves(high, low, _) => Utf8(0x1_0000 + (high - 0xD800) * 0x400 + (low - 0xDC00))
  }

  ghost function SignsMeaning(signs: seq<Sign>): string
    requires SignsOk(signs)
  {
    if signs == [] then "" else SignMeaning(signs[0]) + SignsMeaning(signs[1..])
  }

  ghost function Meaning(x: Syntax): Json
    requires SyntaxOk(x)
  {
    match x
    case WNull => Null
    case WFalse => False
    case WTrue => True
    case WNum(minus, digits) => Num(if minus then -DecimalValue(digits) else DecimalValue(digits))
    case WStr(signs) => Str(SignsMeaning(signs))
    case WNoItems(_) => Arr(NoItem)
    case WArr(_, items) => Arr(ItemsMeaning(items))
    case WNoMembers(_) => Obj(NoMember)
    case WObj(_, members) => Obj(MembersMeaning(members))
  }

  ghost function ItemsMeaning(items: WItems): Items
    requires ItemsOk(items)
  {
    match items
    case LastItem(value, _) => Item(Meaning(value), NoItem)
    case MoreItem(value, _, _, next) => Item(Meaning(value), ItemsMeaning(next))
  }

  ghost function MembersMeaning(members: WMembers): Members
    requires MembersOk(members)
  {
    match members
    case LastMember(name, _, _, value, _) => Member(SignsMeaning(name), Meaning(value), NoMember)
    case MoreMember(name, _, _, value, _, _, next) =>
      Member(SignsMeaning(name), Meaning(value), MembersMeaning(next))
  }

  // A text of the grammar and the value it stands for.
  ghost predicate Denotes(text: string, v: Json) {
    exists before: string, x: Syntax, behind: string ::
      White(before) && White(behind) && SyntaxOk(x) && text == before + ValueText(x, behind) && v == Meaning(x)
  }

  // ----- the parser on these texts: strings -----

  lemma {:induction false} HexDigitReads(d: nat, upper: bool)
    requires d < 16
    ensures IsHex(HexDigit(d, upper)) && HexValue(HexDigit(d, upper)) == d
  {
  }

  lemma {:induction false} HexTextReads(u: nat, upper: seq<bool>, i: nat, tail: string)
    requires u < 0x1_0000
    ensures IsHex4(HexText(u, upper, i)) && Hex4(HexText(u, upper, i)) == u
    ensures IsHex4(HexText(u, upper, i) + tail) && Hex4(HexText(u, upper, i) + tail) == u
    ensures (HexText(u, upper, i) + tail)[4..] == tail
  {
    hide HexDigit, HexValue, IsHex;
    HexDigitReads(u / 0x1000 % 16, IsUpper(upper, i));
    HexDigitReads(u / 0x100 % 16, IsUpper(upper, i + 1));
    HexDigitReads(u / 0x10 % 16, IsUpper(upper, i + 2));
    HexDigitReads(u % 16, IsUpper(upper, i + 3));
    assert u / 0x100 == u / 0x10 / 0x10 && u / 0x1000 == u / 0x100 / 0x10;
  }

  // An escape e stands for out.
  ghost predicate Reads(e: string, out: string, tail: string) {
    && ScanOverruns(e + tail) == ScanOverruns(tail)
    && (!ScanOverruns(tail) ==> Unescape(e + tail) == (out + Unescape(tail).0, Unescape(tail).1))
  }

  lemma {:induction false} RawReads(c: char, tail: string)
    requires c != '\"' && c != '\\'
    ensures Reads([c], [c], tail)
  {
    assert ([c] + tail)[1..] == tail;
  }

  lemma {:induction false} ShortReads(c: char, tail: string)
    requires c in "\"\\/bfnrt"
    ensures Reads("\\" + [c], [ShortMeaning(c)], tail)
  {
    var s := "\\" + [c] + tail;
    assert s[1..] == [c] + tail && s[2..] == tail && s[1..][1..] == tail;
  }

  lemma {:induction false} UnitReads(u: nat, upper: seq<bool>, tail: string)
    requires 0 < u < 0x1_0000 && !(0xD800 <= u <= 0xDFFF)
    ensures Reads("\\u" + HexText(u, upper, 0), Utf8(u), tail)
  {
    var h := HexText(u, upper, 0);
    HexTextReads(u, upper, 0, tail);
    hide HexText, Utf8, Hex4;
    var s := "\\u" + h + tail;
    assert s[1..] == "u" + (h + tail) && s[2..] == h + tail && s[1..][1..] == h + tail;
    ScanAcross(h + tail, 4);
    assert s[1..][5..] == tail;
    assert Escape(s[1..]) == UnicodeEscape(s[1..]) == (Utf8(u), tail);
    UnescapeStep(s, Utf8(u), tail);
  }

  lemma {:induction false} UnescapeStep(s: string, out: string, tail: string)
    requires |s| > 1 && s[0] == '\\' && Escape(s[1..]) == (out, tail) && ScanOverruns(s) == ScanOverruns(tail)
    ensures !ScanOverruns(tail) ==> Unescape(s) == (out + Unescape(tail).0, Unescape(tail).1)
  {
    hide Escape, ScanOverruns;
  }

  lemma {:induction false} PairReads(h: string, l: string, tail: string)
    requires IsPair(h, l)
    ensures Reads("\\u" + h + "\\u" + l, Utf8(Combine(Hex4(h), Hex4(l))), tail)
  {
    hide Utf8, Hex4, Combine, ScanOverruns, Unescape, UnicodeEscape;
    var s := "\\u" + h + "\\u" + l + tail;
    var inner := "u" + h + "\\u" + l + tail;
    TwoScan(h, l, tail);
    PairEscape(h, l, tail);
    EscapeU(inner);
    assert s[1..] == inner;
    UnescapeStep(s, Utf8(Combine(Hex4(h), Hex4(l))), tail);
  }

  lemma {:induction false} HalvesRead(high: nat, low: nat, upper: seq<bool>, tail: string)
    requires 0xD800 <= high <= 0xDBFF && 0xDC00 <= low <= 0xDFFF && high / 0x40 % 2 == 0
    ensures Reads("\\u" + HexText(high, upper, 0) + "\\u" + HexText(low, upper, 4),
              Utf8(0x1_0000 + (high - 0xD800) * 0x400 + (low - 0xDC00)), tail)
  {
    var h, l := HexText(high, upper, 0), HexText(low, upper, 4);
    HexTextReads(high, upper, 0, "");
    HexTextReads(low, upper, 4, "");
    assert |h| == |l| == 4;
    hide HexText, Utf8, Hex4, Combine, Reads;
    PairExact(high, low);
    PairReads(h, l, tail);
  }

  // ----- escapes outside the grammar -----

  // Any other character behind a backslash stands for itself.
  lemma {:induction false} OtherReads(c: char, tail: string)
    requires c !in "bfnrtu"
    ensures Reads("\\" + [c], [c], tail)
  {
    var s := "\\" + [c] + tail;
    assert s[1..] == [c] + tail && s[2..] == tail && s[1..][1..] == tail;
  }

  // Without four digits only the \u goes.
  lemma {:induction false} BareReads(tail: string)
    requires !IsHex4(tail)
    ensures Reads("\\u", "", tail)
  {
    var s := "\\u" + tail;
    assert s[1..] == "u" + tail && s[2..] == tail && s[1..][1..] == tail;
    assert Escape(s[1..]) == ("", tail);
    UnescapeStep(s, "", tail);
  }

  // Zero, a low surrogate, and a high one without a second escape go.
  lemma {:induction false} LoneReads(u: nat, upper: seq<bool>, tail: string)
    requires u < 0x1_0000
    requires u == 0 || 0xDC00 <= u <= 0xDFFF ||
             (0xD800 <= u <= 0xDBFF && !(|tail| >= 2 && tail[..2] == "\\u" && IsHex4(tail[2..])))
    ensures Reads("\\u" + HexText(u, upper, 0), "", tail)
  {
    var h := HexText(u, upper, 0);
    HexTextReads(u, upper, 0, tail);
    hide HexText, Utf8, Hex4, Combine;
    var s := "\\u" + h + tail;
    var s1 := s[1..];
    assert s1 == "u" + (h + tail) && s[2..] == h + tail && s1[1..] == h + tail;
    ScanAcross(h + tail, 4);
    assert s1[5..] == tail;
    assert |s1| >= 7 ==> s1[5] == tail[0] && s1[6] == tail[1] && s1[7..] == tail[2..];
    assert |s1| >= 7 && s1[5] == '\\' && s1[6] == 'u' ==> tail[..2] == "\\u";
    assert Escape(s1) == ("", tail);
    UnescapeStep(s, "", tail);
  }

  // A high surrogate and a second escape that is no low one both go.
  lemma {:induction false} BadPairReads(u: nat, w: nat, upper: seq<bool>, tail: string)
    requires 0xD800 <= u <= 0xDBFF && w < 0x1_0000 && !(0xDC00 <= w <= 0xDFFF)
    ensures Reads("\\u" + HexText(u, upper, 0) + "\\u" + HexText(w, upper, 4), "", tail)
  {
    var h, l := HexText(u, upper, 0), HexText(w, upper, 4);
    HexTextReads(u, upper, 0, "");
    HexTextReads(w, upper, 4, "");
    assert |h| == |l| == 4;
    hide HexText, Hex4, Reads;
    BadPairGoes(h, l, tail);
  }

  lemma {:induction false} BadPairGoes(h: string, l: string, tail: string)
    requires |h| == |l| == 4 && IsHex4(h) && IsHex4(l) && IsHigh(Hex4(h)) && !IsLow(Hex4(l))
    ensures Reads("\\u" + h + "\\u" + l, "", tail)
  {
    hide Hex4, ScanOverruns, Unescape, Escape;
    var s := "\\u" + h + "\\u" + l + tail;
    BadPairEscape(h, l, tail);
    TwoScan(h, l, tail);
    assert s[1..] == "u" + h + "\\u" + l + tail;
    UnescapeStep(s, "", tail);
  }

  lemma {:induction false} BadPairEscape(h: string, l: string, tail: string)
    requires |h| == |l| == 4 && IsHex4(h) && IsHex4(l) && IsHigh(Hex4(h)) && !IsLow(Hex4(l))
    ensures Escape("u" + h + "\\u" + l + tail) == ("", tail)
  {
    hide Utf8, Combine;
    var s := "u" + h + "\\u" + l + tail;
    assert s[1..] == h + ("\\u" + l + tail) && s[7..] == l + tail && s[11..] == tail;
    assert Hex4(s[1..]) == Hex4(h) && Hex4(s[7..]) == Hex4(l);
    hide UnicodeEscape;
    EscapeU(s);
    UnicodeOf(s, h, l, tail);
  }

  lemma {:induction false} UnicodeOf(s: string, h: string, l: string, tail: string)
    requires |s| >= 11 && s[0] == 'u' && IsHex4(s[1..]) && IsHigh(Hex4(s[1..])) && s[5] == '\\' && s[6] == 'u'
    requires IsHex4(s[7..]) && !IsLow(Hex4(s[7..])) && s[11..] == tail
    ensures UnicodeEscape(s) == ("", tail)
  {
    hide Utf8, Combine, Hex4;
  }

  lemma {:induction false} TwoScan(h: string, l: string, tail: string)
    requires |h| == |l| == 4 && IsHex4(h) && IsHex4(l)
    ensures ScanOverruns("\\u" + h + "\\u" + l + tail) == ScanOverruns(tail)
  {
    var s3 := l + tail;
    var s2 := "\\u" + s3;
    var s1 := h + s2;
    assert "\\u" + h + "\\u" + l + tail == "\\u" + s1;
    assert ("\\u" + s1)[2..] == s1 && s1[4..] == s2 && s2[2..] == s3 && s3[4..] == tail;
    ScanAcross(s1, 4);
    ScanAcross(s3, 4);
  }

  lemma {:induction false} SignReads(sign: Sign, tail: string)
    requires SignOk(sign)
    ensures Reads(SignText(sign), SignMeaning(sign), tail)
  {
    hide Reads, HexText, Utf8;
    match sign {
      case Raw(c) => RawReads(c, tail);
      case Short(c) => ShortReads(c, tail);
      case Unit(u, upper) => UnitReads(u, upper, tail);
      case Halves(high, low, upper) => HalvesRead(high, low, upper, tail);
    }
  }

  lemma {:induction false} SignsRead(signs: seq<Sign>, tail: string)
    requires SignsOk(signs)
    ensures var s := SignsText(signs, "\"" + tail);
            !ScanOverruns(s) && Unescape(s) == (SignsMeaning(signs), tail)
  {
    if signs == [] {
      EmptyLiteral(tail);
    } else {
      hide Unescape, ScanOverruns, SignText, SignMeaning;
      SignsRead(signs[1..], tail);
      SignReads(signs[0], SignsText(signs[1..], "\"" + tail));
    }
  }

  // Every spelling of a string is read as the string it means.
  lemma {:induction false} StringReads(signs: seq<Sign>, tail: string)
    requires SignsOk(signs)
    ensures ParseString(StringText(signs, tail)) == Ok(SignsMeaning(signs), tail)
  {
    hide Unescape, ScanOverruns, SignsText;
    var s := StringText(signs, tail);
    SignsRead(signs, tail);
    assert s[1..] == SignsText(signs, "\"" + tail);
  }

  // ----- numbers -----

  lemma {:induction false} DecimalMore(digits: string, i: nat)
    requires i < |digits|
    ensures DecimalValue(digits[..i + 1]) == 10 * DecimalValue(digits[..i]) + (digits[i] as int - '0' as int)
  {
    assert digits[..i + 1][..i] == digits[..i];
  }

  ghost predicate AllDigits(digits: string) {
    forall i | 0 <= i < |digits| :: '0' <= digits[i] <= '9'
  }

  // Not negative, and zero only if the first digit is.
  lemma {:induction false} DecimalSign(digits: string)
    requires AllDigits(digits)
    ensures DecimalValue(digits) >= 0 && (digits != "" && digits[0] != '0' ==> DecimalValue(digits) > 0)
  {
    if digits != "" {
      DecimalSign(digits[..|digits| - 1]);
    }
  }

  lemma {:induction false} DigitsRead(digits: string, i: nat, rest: string)
    requires i <= |digits| && AllDigits(digits) && EndsNumber(rest)
    ensures DecimalValue(digits[..i]) >= 0 && DecimalValue(digits) >= 0
    ensures ParseDigits(digits[i..] + rest, DecimalValue(digits[..i])) == (DecimalValue(digits), rest)
    decreases |digits| - i
  {
    hide DecimalValue;
    DecimalSign(digits);
    DecimalSign(digits[..i]);
    if i == |digits| {
      assert digits[i..] + rest == rest && digits[..i] == digits;
    } else {
      var s := digits[i..] + rest;
      assert s[1..] == digits[i + 1..] + rest && s[0] == digits[i];
      DecimalMore(digits, i);
      DigitsRead(digits, i + 1, rest);
    }
  }

  lemma {:induction false} NumberReads(minus: bool, digits: string, rest: string)
    requires SyntaxOk(WNum(minus, digits)) && EndsNumber(rest)
    ensures ParseNumber(ValueText(WNum(minus, digits), rest)) == Ok(Meaning(WNum(minus, digits)), rest)
  {
    hide ParseNumber, DecimalValue, ReadsAs, DigitsOk;
    var m := DecimalValue(digits);
    var s := digits + rest;
    DigitsReadAs(digits, rest);
    if minus {
      SignedParses(s, m, rest);
    } else {
      DigitsParse(s, m, rest);
      assert "" + s == s;
    }
  }

  lemma {:induction false} DigitsReadAs(digits: string, rest: string)
    requires DigitsOk(digits) && EndsNumber(rest)
    ensures DecimalValue(digits) >= 0 && ReadsAs(digits + rest, DecimalValue(digits), rest)
  {
    hide ParseDigits, DecimalValue;
    DecimalSign(digits);
    DigitsRead(digits, 0, rest);
    assert digits[..0] == "" && digits[0..] == digits;
    assert (digits + rest)[0] == digits[0];
    DecimalNothing();
    if digits[0] == '0' {
      assert digits == "0";
    }
  }

  lemma DecimalNothing()
    ensures DecimalValue("") == 0 && DecimalValue("0") == 0
  {
    assert "0"[..0] == "";
  }

  // ----- values -----

  lemma {:induction false} WhiteBlank(w: string)
    requires White(w)
    ensures Blank(w)
  {
  }

  lemma {:induction false} SkipToEnd(w: string)
    requires Blank(w)
    ensures Skip(w) == ""
  {
    if w != "" {
      SkipToEnd(w[1..]);
    }
  }

  // What can stand behind a value in a list.
  ghost predicate Stops(s: string) {
    s == "" || Solid(s)
  }

  lemma {:induction false} SkipWhite(w: string, s: string)
    requires White(w) && Stops(s)
    ensures Skip(w + s) == s
  {
    hide Skip;
    WhiteBlank(w);
    if s == "" {
      assert w + s == w;
      SkipToEnd(w);
    } else {
      SkipBlank(w, s);
    }
  }

  lemma {:induction false} WhiteEnds(w: string, s: string)
    requires White(w) && EndsNumber(s)
    ensures EndsNumber(w + s)
  {
    if w != "" {
      assert (w + s)[0] == w[0] && w[0] in " \t\n\r";
    } else {
      assert w + s == s;
    }
  }

  // How a value's text begins.
  lemma {:induction false} ValueStart(x: Syntax, tail: string)
    requires SyntaxOk(x)
    ensures var s := ValueText(x, tail);
            && Solid(s) && s[0] != ']' && s[0] != '}'
            && match x {
              case WNull => s[0] == 'n'
              case WFalse => s[0] == 'f'
              case WTrue => s[0] == 't'
              case WNum(_, _) => s[0] == '-' || IsDigit(s[0])
              case WStr(_) => s[0] == '\"'
              case WNoItems(_) => s[0] == '['
              case WArr(_, _) => s[0] == '['
              case WNoMembers(_) => s[0] == '{'
              case WObj(_, _) => s[0] == '{'
            }
  {
    hide SignsText, ItemsText, MembersText, DecimalValue;
    if x.WNum? && !x.minus {
      assert "" + (x.digits + tail) == x.digits + tail;
      assert (x.digits + tail)[0] == x.digits[0];
    }
  }

  // Every text of the grammar is read as the value it means, whatever
  // follows it, and the parser stops where it ends.
  lemma {:induction false} ValueReads(x: Syntax, tail: string)
    requires SyntaxOk(x) && (x.WNum? ==> EndsNumber(tail))
    ensures ParseValue(ValueText(x, tail)) == Ok(Meaning(x), tail)
    decreases x, 1
  {
    hide ParseNumber, ParseString, ParseArray, ParseObject, StringText, ItemsText, MembersText, DecimalValue, HasPrefix;
    ValueStart(x, tail);
    Prefixes(ValueText(x, tail));
    match x {
      case WNull => WordReads("null", tail);
      case WFalse => WordReads("false", tail);
      case WTrue => WordReads("true", tail);
      case WNum(minus, digits) => NumberReads(minus, digits, tail);
      case WStr(signs) => StringReads(signs, tail);
      case WNoItems(w) => NoItemsRead(w, tail);
      case WArr(w, items) => ArrayReads(w, items, tail);
      case WNoMembers(w) => NoMembersRead(w, tail);
      case WObj(w, members) => ObjectReads(w, members, tail);
    }
  }

  lemma {:induction false} Prefixes(s: string)
    ensures HasPrefix(s, "null") ==> s != "" && s[0] == 'n'
    ensures HasPrefix(s, "false") ==> s != "" && s[0] == 'f'
    ensures HasPrefix(s, "true") ==> s != "" && s[0] == 't'
  {
    assert forall n | 0 < n <= |s| :: s[..n][0] == s[0];
  }

  lemma {:induction false} WordReads(word: string, tail: string)
    ensures HasPrefix(word + tail, word) && (word + tail)[|word|..] == tail
  {
  }

  lemma {:induction false} NoItemsRead(w: string, tail: string)
    requires White(w)
    ensures ParseArray("[" + (w + ("]" + tail))) == Ok(NoItem, tail)
  {
    hide ParseItems, Skip;
    var s := "[" + (w + ("]" + tail));
    assert s[1..] == w + ("]" + tail) && ("]" + tail)[1..] == tail;
    SkipWhite(w, "]" + tail);
  }

  lemma {:induction false} NoMembersRead(w: string, tail: string)
    requires White(w)
    ensures ParseObject("{" + (w + ("}" + tail))) == Ok(NoMember, tail)
  {
    hide ParseMembers, Skip;
    var s := "{" + (w + ("}" + tail));
    assert s[1..] == w + ("}" + tail) && ("}" + tail)[1..] == tail;
    SkipWhite(w, "}" + tail);
  }

  lemma {:induction false} ItemsStart(items: WItems, tail: string)
    requires ItemsOk(items)
    ensures Solid(ItemsText(items, tail)) && ItemsText(items, tail)[0] != ']'
  {
    hide ValueText, SyntaxOk;
    match items {
      case LastItem(value, w) => ValueStart(value, w + tail);
      case MoreItem(value, w, comma, next) => ValueStart(value, w + ("," + (comma + ItemsText(next, tail))));
    }
  }

  // An array's items are read behind its bracket.
  lemma {:induction false} Bracketed(w: string, items: WItems, tail: string)
    requires White(w) && ItemsOk(items)
    ensures ParseArray("[" + (w + ItemsText(items, tail))) == ParseItems(ItemsText(items, tail))
  {
    hide ParseItems, Skip, ItemsText;
    var s := "[" + (w + ItemsText(items, tail));
    assert s[1..] == w + ItemsText(items, tail);
    ItemsStart(items, tail);
    SkipWhite(w, ItemsText(items, tail));
  }

  lemma {:induction false} ArrayReads(w: string, items: WItems, tail: string)
    requires White(w) && ItemsOk(items)
    ensures ParseArray("[" + (w + ItemsText(items, "]" + tail))) == Ok(ItemsMeaning(items), tail)
    decreases items, 1
  {
    hide ParseArray, ParseItems, ItemsText;
    Bracketed(w, items, "]" + tail);
    ItemsRead(items, tail);
  }

  // A value, blanks, and what MoreItems makes of the rest.
  lemma {:induction false} ItemThen(s: string, v: Json, w: string, k: string)
    requires ParseValue(s) == Ok(v, w + k) && White(w) && Stops(k)
    ensures MoreItems(k).Ok? ==> ParseItems(s) == Ok(Item(v, MoreItems(k).value), MoreItems(k).rest)
    ensures MoreItems(k).Fail? ==> ParseItems(s) == Fail
  {
    hide ParseValue, MoreItems, Skip;
    SkipWhite(w, k);
  }

  lemma {:induction false} CommaThen(comma: string, s: string)
    requires White(comma) && Solid(s)
    ensures MoreItems("," + (comma + s)) == ParseItems(s)
  {
    hide ParseItems, Skip;
    assert ("," + (comma + s))[1..] == comma + s;
    SkipWhite(comma, s);
  }

  lemma {:induction false} BracketEnds(tail: string)
    ensures MoreItems("]" + tail) == Ok(NoItem, tail)
  {
    assert ("]" + tail)[1..] == tail;
  }

  lemma {:induction false} ItemsRead(items: WItems, tail: string)
    requires ItemsOk(items)
    ensures ParseItems(ItemsText(items, "]" + tail)) == Ok(ItemsMeaning(items), tail)
    decreases items, 0
  {
    hide ParseValue, ParseItems, MoreItems, ValueText;
    match items {
      case LastItem(value, w) =>
        var k := "]" + tail;
        WhiteEnds(w, k);
        ValueReads(value, w + k);
        BracketEnds(tail);
        ItemThen(ItemsText(items, k), Meaning(value), w, k);
      case MoreItem(value, w, comma, next) =>
        var more := ItemsText(next, "]" + tail);
        var k := "," + (comma + more);
        WhiteEnds(w, k);
        ValueReads(value, w + k);
        ItemsRead(next, tail);
        ItemsStart(next, "]" + tail);
        CommaThen(comma, more);
        ItemThen(ItemsText(items, "]" + tail), Meaning(value), w, k);
    }
  }

  lemma {:induction false} MembersStart(members: WMembers, tail: string)
    ensures Solid(MembersText(members, tail)) && MembersText(members, tail)[0] == '\"'
  {
    hide ValueText, SignsText;
  }

  lemma {:induction false} Braced(w: string, members: WMembers, tail: string)
    requires White(w)
    ensures ParseObject("{" + (w + MembersText(members, tail))) == ParseMembers(MembersText(members, tail))
  {
    hide ParseMembers, Skip, MembersText;
    var s := "{" + (w + MembersText(members, tail));
    assert s[1..] == w + MembersText(members, tail);
    MembersStart(members, tail);
    SkipWhite(w, MembersText(members, tail));
  }

  lemma {:induction false} ObjectReads(w: string, members: WMembers, tail: string)
    requires White(w) && MembersOk(members)
    ensures ParseObject("{" + (w + MembersText(members, "}" + tail))) == Ok(MembersMeaning(members), tail)
    decreases members, 1
  {
    hide ParseObject, ParseMembers, MembersText;
    Braced(w, members, "}" + tail);
    MembersRead(members, tail);
  }

  // A name, a colon and a value that is read as v.
  lemma {:induction false} MemberReads(name: seq<Sign>, v: string, colon: string, text: string, value: Json, k: string)
    requires SignsOk(name) && White(v) && White(colon) && Solid(text) && ParseValue(text) == Ok(value, k)
    ensures ParseMember(StringText(name, v + (":" + (colon + text)))) == Ok((SignsMeaning(name), value), k)
  {
    hide ParseValue, ParseString, StringText, SignsMeaning, Skip;
    var tail := ":" + (colon + text);
    StringReads(name, v + tail);
    SkipWhite(v, tail);
    assert tail[1..] == colon + text;
    SkipWhite(colon, text);
  }

  lemma {:induction false} MemberThen(s: string, m: (string, Json), w: string, k: string)
    requires ParseMember(s) == Ok(m, w + k) && White(w) && Stops(k)
    ensures MoreMembers(k).Ok? ==> ParseMembers(s) == Ok(Member(m.0, m.1, MoreMembers(k).value), MoreMembers(k).rest)
    ensures MoreMembers(k).Fail? ==> ParseMembers(s) == Fail
  {
    hide ParseMember, MoreMembers, Skip;
    SkipWhite(w, k);
  }

  lemma {:induction false} CommaThenMember(comma: string, s: string)
    requires White(comma) && Solid(s)
    ensures MoreMembers("," + (comma + s)) == ParseMembers(s)
  {
    hide ParseMembers, Skip;
    assert ("," + (comma + s))[1..] == comma + s;
    SkipWhite(comma, s);
  }

  lemma {:induction false} BraceEnds(tail: string)
    ensures MoreMembers("}" + tail) == Ok(NoMember, tail)
  {
    assert ("}" + tail)[1..] == tail;
  }

  lemma {:induction false} MembersRead(members: WMembers, tail: string)
    requires MembersOk(members)
    ensures ParseMembers(MembersText(members, "}" + tail)) == Ok(MembersMeaning(members), tail)
    decreases members, 0
  {
    hide ParseValue, ParseMember, ParseMembers, MoreMembers, ValueText, StringText, SignsMeaning;
    match members {
      case LastMember(name, v, colon, value, w) =>
        var k := "}" + tail;
        WhiteEnds(w, k);
        ValueReads(value, w + k);
        ValueStart(value, w + k);
        MemberReads(name, v, colon, ValueText(value, w + k), Meaning(value), w + k);
        BraceEnds(tail);
        MemberThen(MembersText(members, k), (SignsMeaning(name), Meaning(value)), w, k);
      case MoreMember(name, v, colon, value, w, comma, next) =>
        var more := MembersText(next, "}" + tail);
        var k := "," + (comma + more);
        WhiteEnds(w, k);
        ValueReads(value, w + k);
        ValueStart(value, w + k);
        MemberReads(name, v, colon, ValueText(value, w + k), Meaning(value), w + k);
        MembersRead(next, tail);
        MembersStart(next, "}" + tail);
        CommaThenMember(comma, more);
        MemberThen(MembersText(members, "}" + tail), (SignsMeaning(name), Meaning(value)), w, k);
    }
  }

  // cJSON_Parse gives the value that a text of RFC 8259 stands for.
  lemma {:induction false} DenotesParses(text: string, v: Json)
    requires Denotes(text, v)
    ensures Parse(text).Ok? && Parse(text).value == v && White(Parse(text).rest)
  {
    hide ParseValue, ValueText, Skip;
    var before: string, x: Syntax, behind: string :|
      White(before) && White(behind) && SyntaxOk(x) && text == before + ValueText(x, behind) && v == Meaning(x);
    ValueStart(x, behind);
    SkipWhite(before, ValueText(x, behind));
    WhiteEnds(behind, "");
    assert behind + "" == behind;
    ValueReads(x, behind);
  }

  // So no text stands for two values.
  lemma {:induction false} DenotesOnce(text: string, v: Json, u: Json)
    requires Denotes(text, v) && Denotes(text, u)
    ensures v == u
  {
    hide Denotes;
    DenotesParses(text, v);
    DenotesParses(text, u);
  }

  // tail is what follows the text.
  lemma {:induction false} ValueTail(x: Syntax, tail: string)
    ensures ValueText(x, tail) == ValueText(x, "") + tail
  {
    hide StringText, ItemsText, MembersText;
    match x {
      case WNull => WordTail("null", tail);
      case WFalse => WordTail("false", tail);
      case WTrue => WordTail("true", tail);
      case WStr(signs) => StringTail(signs, tail);
      case WArr(w, items) =>
        ItemsTail(items, "]" + tail);
        ItemsTail(items, "]");
        assert "]" + "" == "]";
        Regrouped("[", w, ItemsText(items, ""), "]", tail);
      case WObj(w, members) =>
        MembersTail(members, "}" + tail);
        MembersTail(members, "}");
        assert "}" + "" == "}";
        Regrouped("{", w, MembersText(members, ""), "}", tail);
      case WNoItems(w) => Regrouped("[", w, "", "]", tail);
      case WNoMembers(w) => Regrouped("{", w, "", "}", tail);
      case WNum(minus, digits) => DigitsTail(if minus then "-" else "", digits, tail);
    }
  }

  lemma {:induction false} WordTail(word: string, tail: string)
    ensures word + tail == word + "" + tail
  {
  }

  lemma {:induction false} DigitsTail(sign: string, digits: string, tail: string)
    ensures sign + (digits + tail) == sign + (digits + "") + tail
  {
  }

  lemma {:induction false} Regrouped(open: string, w: string, s: string, close: string, tail: string)
    ensures open + (w + (s + (close + tail))) == open + (w + (s + close)) + tail
    ensures open + (w + (close + tail)) == open + (w + close) + tail
  {
  }

  lemma {:induction false} StringTail(signs: seq<Sign>, tail: string)
    ensures StringText(signs, tail) == StringText(signs, "") + tail
  {
    SignsTail(signs, "\"" + tail);
    SignsTail(signs, "\"");
    assert "\"" + "" == "\"";
  }

  lemma {:induction false} SignsTail(signs: seq<Sign>, tail: string)
    ensures SignsText(signs, tail) == SignsText(signs, "") + tail
  {
    if signs != [] {
      hide SignText;
      SignsTail(signs[1..], tail);
    }
  }

  lemma {:induction false} ItemsTail(items: WItems, tail: string)
    ensures ItemsText(items, tail) == ItemsText(items, "") + tail
  {
    match items {
      case LastItem(value, w) =>
        ValueTail(value, w + tail);
        ValueTail(value, w + "");
      case MoreItem(value, w, comma, next) =>
        var more := ItemsText(next, "");
        ItemsTail(next, tail);
        ValueTail(value, w + ("," + (comma + ItemsText(next, tail))));
        ValueTail(value, w + ("," + (comma + more)));
        assert w + ("," + (comma + (more + tail))) == w + ("," + (comma + more)) + tail;
    }
  }

  lemma {:induction false} MembersTail(members: WMembers, tail: string)
    ensures MembersText(members, tail) == MembersText(members, "") + tail
  {
    hide StringText;
    match members {
      case LastMember(name, v, colon, value, w) =>
        var s := ValueText(value, "");
        ValueTail(value, w + tail);
        ValueTail(value, w + "");
        StringTail(name, v + (":" + (colon + ValueText(value, w + tail))));
        StringTail(name, v + (":" + (colon + ValueText(value, w + ""))));
        assert v + (":" + (colon + (s + (w + tail)))) == v + (":" + (colon + (s + (w + "")))) + tail;
      case MoreMember(name, v, colon, value, w, comma, next) =>
        var s, more := ValueText(value, ""), MembersText(next, "");
        MembersTail(next, tail);
        ValueTail(value, w + ("," + (comma + MembersText(next, tail))));
        ValueTail(value, w + ("," + (comma + more)));
        StringTail(name, v + (":" + (colon + ValueText(value, w + ("," + (comma + MembersText(next, tail)))))));
        StringTail(name, v + (":" + (colon + ValueText(value, w + ("," + (comma + more))))));
        assert w + ("," + (comma + (more + tail))) == w + ("," + (comma + more)) + tail;
        var rest := w + ("," + (comma + more));
        assert v + (":" + (colon + (s + (rest + tail)))) == v + (":" + (colon + (s + rest))) + tail;
    }
  }

  // Any four hexadecimal digits of a code point that is no surrogate are
  // read as its bytes.
  lemma {:induction false} EscapeMeans(u: nat, upper: seq<bool>, rest: string) returns (s: string)
    requires 0 < u < 0x1_0000 && !(0xD800 <= u <= 0xDFFF)
    ensures ParseValue("\"\\u" + HexText(u, upper, 0) + "\"" + rest) == Ok(Str(s), rest) && Encodes(s, u)
  {
    hide ParseValue, Utf8, HexText;
    var signs := [Unit(u, upper)];
    s := Utf8(u);
    assert signs[1..] == [];
    assert SignsMeaning(signs) == s + SignsMeaning([]) == s;
    assert SignsText(signs, "\"" + rest) == "\\u" + HexText(u, upper, 0) + ("\"" + rest);
    assert ValueText(WStr(signs), rest) == "\"\\u" + HexText(u, upper, 0) + "\"" + rest;
    ValueReads(WStr(signs), rest);
    Utf8Exactly(s, u);
  }

  // ----- texts that are refused -----

  // No value begins like this.
  ghost predicate NoValue(s: string) {
    s != "" ==> s[0] !in "nft\"-[{" && !('0' <= s[0] <= '9')
  }

  lemma {:induction false} NoValueFails(s: string)
    requires NoValue(s)
    ensures ParseValue(s) == Fail
  {
    hide HasPrefix;
    Prefixes(s);
  }

  ghost function LastBlanks(items: WItems): string {
    match items
    case LastItem(_, w) => w
    case MoreItem(_, _, _, next) => LastBlanks(next)
  }

  ghost function LastBlanksOf(members: WMembers): string {
    match members
    case LastMember(_, _, _, _, w) => w
    case MoreMember(_, _, _, _, _, _, next) => LastBlanksOf(next)
  }

  // Behind the last item comes neither a comma nor a bracket; or behind
  // the comma comes no value.
  ghost predicate BreaksOff(s: string, close: char) {
    || s == ""
    || (Solid(s) && s[0] != ',' && s[0] != close)
  }

  lemma {:induction false} NoMoreItems(k: string)
    requires BreaksOff(k, ']') || exists w, s :: White(w) && Stops(s) && NoValue(s) && k == "," + (w + s)
    ensures Stops(k) && MoreItems(k) == Fail
  {
    hide ParseValue, Skip;
    if w, s :| White(w) && Stops(s) && NoValue(s) && k == "," + (w + s) {
      assert k[1..] == w + s;
      SkipWhite(w, s);
      NoValueFails(s);
    }
  }

  // An array that is not continued or closed behind an item is refused.
  lemma {:induction false} ArrayRefused(w: string, items: WItems, k: string)
    requires White(w) && ItemsOk(items) && EndsNumber(LastBlanks(items) + k)
    requires BreaksOff(k, ']') || exists v, s :: White(v) && Stops(s) && NoValue(s) && k == "," + (v + s)
    ensures ParseValue("[" + (w + ItemsText(items, k))) == Fail
  {
    hide ParseArray, ParseItems, ItemsText, HasPrefix;
    NoMoreItems(k);
    Bracketed(w, items, k);
    ItemsRefused(items, k);
    Prefixes("[" + (w + ItemsText(items, k)));
  }

  lemma {:induction false} ItemsRefused(items: WItems, k: string)
    requires ItemsOk(items) && EndsNumber(LastBlanks(items) + k) && Stops(k) && MoreItems(k) == Fail
    ensures ParseItems(ItemsText(items, k)) == Fail
  {
    hide ParseValue, ParseItems, MoreItems, ValueText;
    match items {
      case LastItem(value, w) =>
        ValueReads(value, w + k);
        ItemThen(ItemsText(items, k), Meaning(value), w, k);
      case MoreItem(value, w, comma, next) =>
        var more := ItemsText(next, k);
        var j := "," + (comma + more);
        WhiteEnds(w, j);
        ValueReads(value, w + j);
        ItemsRefused(next, k);
        ItemsStart(next, k);
        CommaThen(comma, more);
        ItemThen(ItemsText(items, k), Meaning(value), w, j);
    }
  }

  lemma {:induction false} NoMoreMembers(k: string)
    requires BreaksOff(k, '}') ||
             exists w, s :: White(w) && Stops(s) && (s != "" ==> s[0] != '\"') && k == "," + (w + s)
    ensures Stops(k) && MoreMembers(k) == Fail
  {
    hide ParseString, Skip;
    if w, s :| White(w) && Stops(s) && (s != "" ==> s[0] != '\"') && k == "," + (w + s) {
      assert k[1..] == w + s;
      SkipWhite(w, s);
      NoName(s);
    }
  }

  lemma {:induction false} NoName(s: string)
    requires s != "" ==> s[0] != '\"'
    ensures ParseString(s) == Fail && ParseMembers(s) == Fail
  {
  }

  // An object that is not continued or closed behind a member is refused.
  lemma {:induction false} ObjectRefused(w: string, members: WMembers, k: string)
    requires White(w) && MembersOk(members) && EndsNumber(LastBlanksOf(members) + k)
    requires BreaksOff(k, '}') ||
             exists v, s :: White(v) && Stops(s) && (s != "" ==> s[0] != '\"') && k == "," + (v + s)
    ensures ParseValue("{" + (w + MembersText(members, k))) == Fail
  {
    hide ParseObject, ParseMembers, MembersText, HasPrefix;
    NoMoreMembers(k);
    Braced(w, members, k);
    MembersRefused(members, k);
    Prefixes("{" + (w + MembersText(members, k)));
  }

  lemma {:induction false} MembersRefused(members: WMembers, k: string)
    requires MembersOk(members) && EndsNumber(LastBlanksOf(members) + k) && Stops(k) && MoreMembers(k) == Fail
    ensures ParseMembers(MembersText(members, k)) == Fail
  {
    hide ParseValue, ParseMember, ParseMembers, MoreMembers, ValueText, StringText, SignsMeaning;
    match members {
      case LastMember(name, v, colon, value, w) =>
        ValueReads(value, w + k);
        ValueStart(value, w + k);
        MemberReads(name, v, colon, ValueText(value, w + k), Meaning(value), w + k);
        MemberThen(MembersText(members, k), (SignsMeaning(name), Meaning(value)), w, k);
      case MoreMember(name, v, colon, value, w, comma, next) =>
        var more := MembersText(next, k);
        var j := "," + (comma + more);
        WhiteEnds(w, j);
        ValueReads(value, w + j);
        ValueStart(value, w + j);
        MemberReads(name, v, colon, ValueText(value, w + j), Meaning(value), w + j);
        MembersRefused(next, k);
        MembersStart(next, k);
        CommaThenMember(comma, more);
        MemberThen(MembersText(members, k), (SignsMeaning(name), Meaning(value)), w, j);
    }
  }

  // A first name without a colon is refused.
  lemma {:induction false} ColonRefused(w: string, name: seq<Sign>, v: string, k: string)
    requires White(w) && SignsOk(name) && White(v) && (k == "" || (Solid(k) && k[0] != ':'))
    ensures ParseValue("{" + (w + StringText(name, v + k))) == Fail
  {
    hide ParseString, Skip, HasPrefix, SignsText, SignsMeaning;
    var s := StringText(name, v + k);
    var all := "{" + (w + s);
    assert Solid(s) && s[0] == '\"' && all[1..] == w + s;
    SkipWhite(w, s);
    StringReads(name, v + k);
    SkipWhite(v, k);
    Prefixes(all);
    hide StringText;
    assert ParseMember(s) == Fail;
    assert ParseMembers(s) == Fail;
    assert ParseObject(all) == Fail;
  }

  // ----- what the printer writes -----

  ghost function SignOf(c: char): Sign {
    if c == '\\' || c == '\"' then Short(c)
    else if c as int > 31 then Raw(c)
    else if c as int == 8 then Short('b')
    else if c as int == 12 then Short('f')
    else if c as int == 10 then Short('n')
    else if c as int == 13 then Short('r')
    else if c as int == 9 then Short('t')
    else Unit(c as int, [])
  }

  lemma {:induction false} SignPrinted(c: char)
    requires c != '\0'
    ensures SignOk(SignOf(c)) && SignText(SignOf(c)) == Escaped(c) && SignMeaning(SignOf(c)) == [c]
  {
    var u := c as int;
    if u < 32 {
      assert u / 0x1000 % 16 == 0 && u / 0x100 % 16 == 0 && u / 0x10 % 16 == u / 16;
      assert HexText(u, [], 0) == "00" + [Digit(u / 16), Digit(u % 16)];
    }
  }

  ghost function SignsOf(s: string): seq<Sign> {
    if s == "" then [] else [SignOf(s[0])] + SignsOf(s[1..])
  }

  lemma {:induction false} SignsPrinted(s: string, tail: string)
    requires NulFree(s)
    ensures SignsOk(SignsOf(s)) && SignsMeaning(SignsOf(s)) == s && SignsText(SignsOf(s), tail) == EscapedAll(s) + tail
  {
    if s == "" {
      assert EscapedAll(s) + tail == tail;
    } else {
      hide SignOf, SignOk, SignText, SignMeaning, Escaped;
      SignPrinted(s[0]);
      SignsPrinted(s[1..], tail);
      assert SignsOf(s)[1..] == SignsOf(s[1..]);
      assert Escaped(s[0]) + EscapedAll(s[1..]) + tail == Escaped(s[0]) + (EscapedAll(s[1..]) + tail);
      assert [s[0]] + s[1..] == s;
    }
  }

  lemma {:induction false} StringPrinted(s: string, tail: string)
    requires NulFree(s)
    ensures SignsOk(SignsOf(s)) && SignsMeaning(SignsOf(s)) == s
    ensures StringText(SignsOf(s), tail) == PrintString(s) + tail
  {
    hide SignsText, EscapedAll;
    SignsPrinted(s, "\"" + tail);
    assert "\"" + (EscapedAll(s) + ("\"" + tail)) == "\"" + EscapedAll(s) + "\"" + tail;
  }

  lemma {:induction false} DigitPrinted(d: nat)
    requires d < 10
    ensures '0' <= Digit(d) <= '9' && Digit(d) as int - '0' as int == d
  {
  }

  lemma {:induction false} DecimalPrinted(n: nat)
    ensures AllDigits(Decimal(n)) && DecimalValue(Decimal(n)) == n
    ensures Decimal(n) != "" && (Decimal(n)[0] == '0' ==> |Decimal(n)| == 1)
  {
    hide Digit;
    DigitPrinted(n % 10);
    var d := [Digit(n % 10)];
    if n < 10 {
      assert Decimal(n) == d && d[..0] == "";
    } else {
      DecimalStart(n);
      var front := Decimal(n / 10);
      DecimalPrinted(n / 10);
      var all := front + d;
      assert Decimal(n) == all;
      hide Decimal;
      assert all[..|front|] == front && all[|front|] == d[0];
    }
  }

  lemma {:induction false} NumberPrinted(n: int, tail: string)
    requires INT_MIN <= n <= INT_MAX
    ensures var x := WNum(n < 0, Decimal(if n < 0 then -n else n));
            SyntaxOk(x) && Meaning(x) == Num(n) && ValueText(x, tail) == PrintNumber(n) + tail
  {
    hide Decimal, DecimalValue;
    var m: nat := if n < 0 then -n else n;
    DecimalPrinted(m);
    SignPrefix(Decimal(m), tail);
  }

  lemma {:induction false} SignPrefix(d: string, tail: string)
    ensures "-" + (d + tail) == "-" + d + tail && "" + (d + tail) == d + tail
  {
  }

  // The syntax of a printed value.
  ghost function SyntaxOf(v: Json, depth: nat, fmt: bool): Syntax
    decreases v, 1
  {
    match v
    case Null => WNull
    case False => WFalse
    case True => WTrue
    case Num(n) => WNum(n < 0, Decimal(if n < 0 then -n else n))
    case Str(s) => WStr(SignsOf(s))
    case Arr(items) => if items.NoItem? then WNoItems("") else WArr("", ItemsSyntax(items, depth + 1, fmt))
    case Obj(members) =>
      var nl, close := When(fmt, "\n"), When(fmt, Tabs(depth));
      if members.NoMember? then WNoMembers(nl + close)
      else WObj(nl + When(fmt, Tabs(depth + 1)), MembersSyntax(members, depth + 1, fmt, close))
  }

  ghost function ItemsSyntax(items: Items, depth: nat, fmt: bool): WItems
    requires items.Item?
    decreases items, 0
  {
    var x := SyntaxOf(items.value, depth, fmt);
    if items.next.NoItem? then LastItem(x, "")
    else MoreItem(x, "", When(fmt, " "), ItemsSyntax(items.next, depth, fmt))
  }

  ghost function MembersSyntax(members: Members, depth: nat, fmt: bool, close: string): WMembers
    requires members.Member?
    decreases members, 0
  {
    var name, x := SignsOf(members.name), SyntaxOf(members.value, depth, fmt);
    var nl, tab := When(fmt, "\n"), When(fmt, "\t");
    if members.next.NoMember? then LastMember(name, "", tab, x, nl + close)
    else
      MoreMember(name, "", tab, x, "", nl + When(fmt, Tabs(depth)), MembersSyntax(members.next, depth, fmt, close))
  }

  lemma {:induction false} TabsWhite(n: nat)
    ensures White(Tabs(n))
  {
    if n > 0 {
      TabsWhite(n - 1);
    }
  }

  lemma {:induction false} WhiteJoin(v: string, w: string)
    requires White(v) && White(w)
    ensures White(v + w)
  {
  }

  // The printer keeps to the grammar, and its text means the value.
  lemma {:induction false} ValuePrinted(v: Json, depth: nat, fmt: bool, tail: string)
    requires Plain(v)
    ensures var x := SyntaxOf(v, depth, fmt);
            SyntaxOk(x) && Meaning(x) == v && ValueText(x, tail) == Print(v, depth, fmt) + tail
    decreases v, 1
  {
    hide StringText, ItemsText, MembersText, ItemsMeaning, MembersMeaning, SignsMeaning, SignsOf, Tabs, PrintString;
    match v {
      case Num(n) => NumberPrinted(n, tail);
      case Str(s) => StringPrinted(s, tail);
      case Arr(items) => ArrayPrinted(items, depth, fmt, tail);
      case Obj(members) => ObjectPrinted(members, depth, fmt, tail);
      case _ =>
    }
  }

  lemma {:induction false} ArrayPrinted(items: Items, depth: nat, fmt: bool, tail: string)
    requires PlainItems(items)
    ensures var x := SyntaxOf(Arr(items), depth, fmt);
            SyntaxOk(x) && Meaning(x) == Arr(items) && ValueText(x, tail) == Print(Arr(items), depth, fmt) + tail
    decreases items, 1
  {
    hide ItemsText, PrintItems, ItemsSyntax;
    if items.NoItem? {
      NoneBetween(tail);
      EmptyItems(depth + 1, fmt);
    } else {
      ItemsPrinted(items, depth + 1, fmt, "]" + tail);
      Regrouped("[", "", PrintItems(items, depth + 1, fmt), "]", tail);
      EmptyFront(PrintItems(items, depth + 1, fmt), "]");
    }
  }

  lemma NoneBetween(tail: string)
    ensures "[" + ("" + ("]" + tail)) == "[" + "" + "]" + tail
  {
  }

  lemma EmptyItems(depth: nat, fmt: bool)
    ensures PrintItems(NoItem, depth, fmt) == ""
  {
  }

  lemma EmptyFront(p: string, close: string)
    ensures "[" + ("" + (p + close)) == "[" + p + close
  {
  }

  lemma {:induction false} ItemsPrinted(items: Items, depth: nat, fmt: bool, tail: string)
    requires PlainItems(items) && items.Item?
    ensures var x := ItemsSyntax(items, depth, fmt);
            ItemsOk(x) && ItemsMeaning(x) == items && ItemsText(x, tail) == PrintItems(items, depth, fmt) + tail
    decreases items, 0
  {
    hide ValueText, Print, SyntaxOf, SyntaxOk, Meaning;
    var p := Print(items.value, depth, fmt);
    if items.next.NoItem? {
      ValuePrinted(items.value, depth, fmt, "" + tail);
      assert "" + tail == tail;
    } else {
      var w := When(fmt, " ");
      var q := PrintItems(items.next, depth, fmt);
      ItemsPrinted(items.next, depth, fmt, tail);
      ValuePrinted(items.value, depth, fmt, "" + ("," + (w + (q + tail))));
      assert p + ("" + ("," + (w + (q + tail)))) == p + "," + w + q + tail;
    }
  }

  lemma {:induction false} ObjectPrinted(members: Members, depth: nat, fmt: bool, tail: string)
    requires PlainMembers(members)
    ensures var x := SyntaxOf(Obj(members), depth, fmt);
            SyntaxOk(x) && Meaning(x) == Obj(members) && ValueText(x, tail) == Print(Obj(members), depth, fmt) + tail
    decreases members, 1
  {
    hide MembersText, MembersSyntax, MembersOk, MembersMeaning, Tabs, Body, PrintMembers, White, When;
    var nl, close, tabs := When(fmt, "\n"), When(fmt, Tabs(depth)), When(fmt, Tabs(depth + 1));
    WhenWhite(fmt, depth);
    WhenWhite(fmt, depth + 1);
    WhiteJoin(nl, close);
    WhiteJoin(nl, tabs);
    if members.NoMember? {
      EmptyPrinted(nl, close, tail);
      EmptyMembers(depth + 1, fmt);
    } else {
      BodyIs(members, depth + 1, fmt, close, tail);
      MembersPrinted(members, depth + 1, fmt, close, tail);
      var body := Body(members, depth + 1, fmt, close, tail);
      FullPrinted(nl, tabs, PrintMembers(members, depth + 1, fmt), close, body, tail);
    }
  }

  lemma {:induction false} WhenWhite(fmt: bool, depth: nat)
    ensures White(When(fmt, "\n")) && White(When(fmt, Tabs(depth)))
  {
    TabsWhite(depth);
  }

  lemma EmptyMembers(depth: nat, fmt: bool)
    ensures PrintMembers(NoMember, depth, fmt) == ""
  {
  }

  lemma {:induction false} EmptyPrinted(nl: string, close: string, tail: string)
    ensures "{" + nl + "" + close + "}" + tail == "{" + ((nl + close) + ("}" + tail))
  {
    Brackets(nl, "", close, tail);
    assert nl + ("" + close + "}" + tail) == (nl + close) + ("}" + tail);
  }

  lemma {:induction false} FullPrinted(nl: string, tabs: string, p: string, close: string, body: string, tail: string)
    requires p + close + "}" + tail == tabs + body
    ensures "{" + nl + p + close + "}" + tail == "{" + ((nl + tabs) + body)
  {
    Brackets(nl, p, close, tail);
    assert nl + (tabs + body) == (nl + tabs) + body;
  }

  lemma {:induction false} MembersPrinted(members: Members, depth: nat, fmt: bool, close: string, tail: string)
    requires PlainMembers(members) && members.Member? && White(close)
    ensures var x := MembersSyntax(members, depth, fmt, close);
            && MembersOk(x) && MembersMeaning(x) == members
            && MembersText(x, "}" + tail) == Body(members, depth, fmt, close, tail)
    decreases members, 0
  {
    hide ValueText, Print, SyntaxOf, SyntaxOk, Meaning, StringText, SignsOf, SignsOk, SignsMeaning, Tabs, PrintString;
    var Member(name, v, next) := members;
    var p, nl, tab, tabs := Print(v, depth, fmt), When(fmt, "\n"), When(fmt, "\t"), When(fmt, Tabs(depth));
    TabsWhite(depth);
    WhiteJoin(nl, close);
    WhiteJoin(nl, tabs);
    if next.NoMember? {
      var k := nl + close + ("}" + tail);
      ValuePrinted(v, depth, fmt, k);
      StringPrinted(name, "" + (":" + (tab + (p + k))));
      assert "" + (":" + (tab + (p + k))) == ":" + (tab + (p + k));
    } else {
      var more := Body(next, depth, fmt, close, tail);
      MembersPrinted(next, depth, fmt, close, tail);
      var k := "," + (nl + tabs + more);
      assert "" + k == k;
      ValuePrinted(v, depth, fmt, k);
      StringPrinted(name, "" + (":" + (tab + (p + k))));
      assert "" + (":" + (tab + (p + k))) == ":" + (tab + (p + k));
    }
  }

  // The layout: one member to a line, with its tabs before it and one tab
  // behind the colon; the brace on a line of its own.
  lemma {:induction false} ObjectLayout(a: string, x: Json, b: string, y: Json, depth: nat)
    ensures var first := PrintString(a) + ":\t" + Print(x, depth + 1, true);
            var second := PrintString(b) + ":\t" + Print(y, depth + 1, true);
            var tabs := Tabs(depth + 1);
            Print(Obj(Member(a, x, Member(b, y, NoMember))), depth, true) ==
            "{\n" + (tabs + first + ",\n") + (tabs + second + "\n") + Tabs(depth) + "}"
    ensures Print(Obj(Member(a, x, Member(b, y, NoMember))), depth, false) ==
            "{" + (PrintString(a) + ":" + Print(x, depth + 1, false)) + "," +
            (PrintString(b) + ":" + Print(y, depth + 1, false)) + "}"
  {
    hide PrintString, Tabs;
    var last := Member(b, y, NoMember);
    var all := Member(a, x, last);
    LastLaid(b, y, depth + 1, true);
    LastLaid(b, y, depth + 1, false);
    FirstLaid(a, x, last, depth + 1, true);
    FirstLaid(a, x, last, depth + 1, false);
    hide PrintMembers, PrintMember;
    assert Print(Obj(all), depth, true) == "{" + "\n" + PrintMembers(all, depth + 1, true) + Tabs(depth) + "}";
    assert Print(Obj(all), depth, false) == "{" + "" + PrintMembers(all, depth + 1, false) + "" + "}";
  }

  lemma {:induction false} TabsCount(n: nat)
    ensures Tabs(n) == seq(n, i => '\t')
  {
    if n > 0 {
      TabsCount(n - 1);
    }
  }

  lemma {:induction false} LastLaid(name: string, v: Json, depth: nat, fmt: bool)
    ensures PrintMembers(Member(name, v, NoMember), depth, fmt) ==
            if fmt then Tabs(depth) + (PrintString(name) + ":\t" + Print(v, depth, fmt)) + "\n"
            else PrintString(name) + ":" + Print(v, depth, fmt)
  {
    hide PrintString, Tabs, Print;
  }

  lemma {:induction false} FirstLaid(name: string, v: Json, next: Members, depth: nat, fmt: bool)
    requires next.Member?
    ensures PrintMembers(Member(name, v, next), depth, fmt) ==
            (if fmt then Tabs(depth) + (PrintString(name) + ":\t" + Print(v, depth, fmt)) + ",\n"
             else PrintString(name) + ":" + Print(v, depth, fmt) + ",") + PrintMembers(next, depth, fmt)
  {
    hide PrintString, Tabs, Print;
    assert PrintMembers(Member(name, v, next), depth, fmt) ==
      PrintMember(name, Print(v, depth, fmt), depth, fmt) + "," + When(fmt, "\n") + PrintMembers(next, depth, fmt);
  }

  // Items on one line, with a blank behind each comma.
  lemma {:induction false} ArrayLayout(x: Json, y: Json, depth: nat, fmt: bool)
    ensures Print(Arr(Item(x, Item(y, NoItem))), depth, fmt) ==
            "[" + (Print(x, depth + 1, fmt) + (if fmt then ", " else ",") + Print(y, depth + 1, fmt)) + "]"
  {
    TwoLaid(x, y, depth + 1, fmt);
    hide PrintItems;
  }

  lemma {:induction false} TwoLaid(x: Json, y: Json, depth: nat, fmt: bool)
    ensures PrintItems(Item(x, Item(y, NoItem)), depth, fmt) ==
            Print(x, depth, fmt) + (if fmt then ", " else ",") + Print(y, depth, fmt)
  {
    hide Print;
    assert PrintItems(Item(y, NoItem), depth, fmt) == Print(y, depth, fmt);
  }

  // cJSON_Print and cJSON_PrintUnformatted write texts of RFC 8259.
  lemma {:induction false} PrintDenotes(v: Json, fmt: bool)
    requires Plain(v)
    ensures Denotes(Print(v, 0, fmt), v)
  {
    hide ValueText, Print, SyntaxOf, SyntaxOk, Meaning;
    var x := SyntaxOf(v, 0, fmt);
    ValuePrinted(v, 0, fmt, "");
    assert Print(v, 0, fmt) == "" + ValueText(x, "");
    assert White("");
  }
}

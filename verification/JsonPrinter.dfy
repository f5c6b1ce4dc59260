/** The printer's two passes: measure, allocate, write. */
module JsonPrinter {
  import opened CStrings
  import opened Json

  // ----- strings -----

  lemma {:induction false} EscapedNulFree(s: string)
    requires NulFree(s)
    ensures NulFree(EscapedAll(s))
  {
    if s != "" {
      EscapedNulFree(s[1..]);
      assert NulFree(Escaped(s[0]));
    }
  }

  lemma {:induction false} EscapedMore(s: string, i: nat)
    requires i < |s|
    ensures EscapedAll(s[..i + 1]) == EscapedAll(s[..i]) + Escaped(s[i])
  {
    hide Escaped;
    if i == 0 {
      assert s[..1] == [s[0]] && s[..1][1..] == "" && s[..0] == "";
      assert Escaped(s[0]) + "" == "" + Escaped(s[0]);
    } else {
      EscapedMore(s[1..], i - 1);
      var t := s[1..];
      assert t[..i] == s[..i + 1][1..] && t[..i - 1] == s[..i][1..];
      assert Escaped(s[0]) + (EscapedAll(t[..i - 1]) + Escaped(t[i - 1])) ==
        (Escaped(s[0]) + EscapedAll(t[..i - 1])) + Escaped(t[i - 1]);
    }
  }

  lemma {:induction false} EscapedGrows(s: string, i: nat)
    requires i <= |s|
    ensures |EscapedAll(s[..i])| <= |EscapedAll(s)|
    decreases |s| - i
  {
    if i < |s| {
      EscapedMore(s, i);
      EscapedGrows(s, i + 1);
    } else {
      assert s[..i] == s;
    }
  }

  function CharRoom(c: char): nat {
    if c == '\"' || c == '\\' || c as int == 8 || c as int == 12 || c == '\n' || c == '\r' || c == '\t' then 2
    else if c as int < 32 then 6
    else 1
  }

  // The escape of one character, written byte by byte.
  method PutEscaped(out: array<char>, at: nat, c: char, ghost done: string) returns (next: nat)
    requires Begins(out, at, done) && at + |Escaped(c)| <= out.Length
    modifies out
    ensures next == at + |Escaped(c)| && Begins(out, next, done + Escaped(c))
  {
    hide Begins;
    if c as int > 31 && c != '\"' && c != '\\' {
      next := Put(out, at, c, done);
      return;
    }
    next := Put(out, at, '\\', done);
    ghost var d := done + "\\";
    if c as int < 32 && CharRoom(c) == 6 {
      next := PutHex(out, next, c, d);
      assert d + ("u00" + [Digit(c as int / 16), Digit(c as int % 16)]) == done + Escaped(c);
    } else {
      var letter :=
        if c == '\\' then '\\'
        else if c == '\"' then '\"'
        else if c as int == 8 then 'b'
        else if c as int == 12 then 'f'
        else if c == '\n' then 'n'
        else if c == '\r' then 'r'
        else 't';
      next := Put(out, next, letter, d);
      assert d + [letter] == done + Escaped(c);
    }
  }

  // "u%04x".
  method PutHex(out: array<char>, at: nat, c: char, ghost done: string) returns (next: nat)
    requires Begins(out, at, done) && c as int < 256 && at + 5 <= out.Length
    modifies out
    ensures next == at + 5 && Begins(out, next, done + ("u00" + [Digit(c as int / 16), Digit(c as int % 16)]))
  {
    hide Begins;
    var h, l := Digit(c as int / 16), Digit(c as int % 16);
    next := Put(out, at, 'u', done);
    next := Put(out, next, '0', done + "u");
    next := Put(out, next, '0', done + "u" + "0");
    next := Put(out, next, h, done + "u" + "0" + "0");
    next := Put(out, next, l, done + "u" + "0" + "0" + [h]);
    assert done + "u" + "0" + "0" + [h] + [l] == done + ("u00" + [h, l]);
  }

  lemma EscapedNone()
    ensures EscapedAll("") == ""
  {
  }

  // The first pass of print_string_ptr.
  method EscapedLength(s: string) returns (len: nat)
    ensures len == |EscapedAll(s)|
  {
    len := 0;
    for i := 0 to |s|
      invariant len == |EscapedAll(s[..i])|
    {
      EscapedMore(s, i);
      len := len + CharRoom(s[i]);
    }
    assert s[..|s|] == s;
  }

  method PutEscapedAll(out: array<char>, at: nat, s: string, ghost done: string) returns (next: nat)
    requires Begins(out, at, done) && at + |EscapedAll(s)| <= out.Length
    modifies out
    ensures next == at + |EscapedAll(s)| && Begins(out, next, done + EscapedAll(s))
  {
    hide EscapedAll, Escaped, Begins;
    EscapedNone();
    next := at;
    assert s[..0] == "" && done + "" == done;
    for i := 0 to |s|
      invariant next == at + |EscapedAll(s[..i])| && Begins(out, next, done + EscapedAll(s[..i]))
    {
      EscapedMore(s, i);
      EscapedGrows(s, i + 1);
      next := PutEscaped(out, next, s[i], done + EscapedAll(s[..i]));
      assert done + EscapedAll(s[..i]) + Escaped(s[i]) == done + EscapedAll(s[..i + 1]);
    }
    assert s[..|s|] == s;
  }

  // print_string_ptr: the buffer is exactly as long as needed.
  method PrintStringPtr(s: string) returns (out: array<char>)
    requires NulFree(s)
    ensures fresh(out) && IsCString(out, PrintString(s)) && out.Length == |PrintString(s)| + 1
  {
    EscapedNulFree(s);
    hide EscapedAll, Escaped, Begins;
    var len := EscapedLength(s);
    out := new char[len + 3];
    Start(out);
    var ptr: nat := Put(out, 0, '\"', "");
    assert "" + "\"" == "\"";
    ptr := PutEscapedAll(out, ptr, s, "\"");
    ptr := Put(out, ptr, '\"', "\"" + EscapedAll(s));
    Terminate(out, ptr, PrintString(s));
  }

  // ----- numbers -----

  lemma {:induction false} DecimalShort(n: nat, k: nat)
    requires n < Pow10(k) && k > 0
    ensures |Decimal(n)| <= k && NulFree(Decimal(n))
  {
    if n >= 10 {
      DecimalShort(n / 10, k - 1);
    }
  }

  function Pow10(k: nat): (p: nat)
    ensures p > 0
  {
    if k == 0 then 1 else 10 * Pow10(k - 1)
  }

  // print_number for a 32-bit integer: "%d" into 21 bytes.
  method PrintInteger(n: int) returns (out: array<char>)
    requires INT_MIN <= n <= INT_MAX
    ensures fresh(out) && IsCString(out, PrintNumber(n))
  {
    assert Pow10(5) == 100000 && Pow10(10) == 10000000000;
    DecimalShort(if n < 0 then -n else n, 10);
    var text := PrintNumber(n);
    hide PrintNumber;
    out := new char[21];
    Start(out);
    var ptr: nat := 0;
    for i := 0 to |text|
      invariant fresh(out) && out.Length == 21 && ptr == i && Begins(out, ptr, text[..i])
    {
      ptr := Put(out, ptr, text[i], text[..i]);
    }
    assert text[..|text|] == text;
    Terminate(out, ptr, text);
  }

  // ----- arrays -----

  ghost function ItemTexts(items: Items, depth: nat, fmt: bool): seq<string> {
    if items.NoItem? then [] else [Print(items.value, depth, fmt)] + ItemTexts(items.next, depth, fmt)
  }

  ghost function Joined(texts: seq<string>, fmt: bool): string {
    if texts == [] then ""
    else if |texts| == 1 then texts[0]
    else texts[0] + "," + When(fmt, " ") + Joined(texts[1..], fmt)
  }

  lemma {:induction false} JoinedItems(items: Items, depth: nat, fmt: bool)
    ensures Joined(ItemTexts(items, depth, fmt), fmt) == PrintItems(items, depth, fmt)
  {
    hide Print;
    if items.Item? {
      JoinedItems(items.next, depth, fmt);
      var texts := ItemTexts(items, depth, fmt);
      assert texts[1..] == ItemTexts(items.next, depth, fmt);
    }
  }

  // What the first pass sets aside for the entries.
  ghost function ItemsRoom(texts: seq<string>, fmt: bool): nat {
    if texts == [] then 0 else |texts[0]| + 2 + (if fmt then 1 else 0) + ItemsRoom(texts[1..], fmt)
  }

  // Entries printed so far hold their texts.
  ghost predicate Entries(entries: seq<array<char>>, texts: seq<string>)
    reads set k | 0 <= k < |entries| :: entries[k]
  {
    |entries| <= |texts| && forall k | 0 <= k < |entries| :: IsCString(entries[k], texts[k])
  }

  lemma {:induction false} OneMoreEntry(entries: seq<array<char>>, texts: seq<string>, entry: array<char>)
    requires Entries(entries, texts) && |entries| < |texts| && IsCString(entry, texts[|entries|])
    ensures Entries(entries + [entry], texts)
  {
  }

  lemma NoEntries(texts: seq<string>)
    ensures Entries([], texts)
  {
  }

  // One more item, of those whose texts are from number k on.
  lemma {:induction false} ItemTextsStep(items: Items, depth: nat, fmt: bool, texts: seq<string>, k: nat)
    requires items.Item? && k <= |texts| && ItemTexts(items, depth, fmt) == texts[k..]
    ensures k < |texts| && texts[k] == Print(items.value, depth, fmt) &&
            ItemTexts(items.next, depth, fmt) == texts[k + 1..]
    ensures ItemsRoom(texts[k..], fmt) == |texts[k]| + 2 + (if fmt then 1 else 0) + ItemsRoom(texts[k + 1..], fmt)
  {
    hide Print;
    assert ItemTexts(items, depth, fmt)[1..] == ItemTexts(items.next, depth, fmt);
    assert texts[k..][1..] == texts[k + 1..] && texts[k..][0] == texts[k];
  }

  lemma ItemTextsNone(depth: nat, fmt: bool)
    ensures ItemTexts(NoItem, depth, fmt) == [] && ItemsRoom([], fmt) == 0
  {
  }

  ghost function Separator(last: bool, fmt: bool): string {
    if last then "" else "," + When(fmt, " ")
  }

  // One entry and, if more follow, a separator.
  method PutItem(out: array<char>, at: nat, entry: array<char>, ghost text: string, last: bool, fmt: bool,
      ghost done: string)
    returns (next: nat)
    requires Begins(out, at, done) && IsCString(entry, text) && entry != out && at + |text| + 3 < out.Length
    modifies out
    ensures next == at + |text| + |Separator(last, fmt)|
    ensures Begins(out, next, done + (text + Separator(last, fmt)))
  {
    hide Begins, IsCString;
    var n := StrLen(entry, text);
    StrCpy(out, at, entry, text, done);
    next := at + n;
    ghost var d := done + text;
    if !last {
      next := Put(out, next, ',', d);
      d := d + ",";
      if fmt {
        next := Put(out, next, ' ', d);
        d := d + " ";
      }
      Terminate(out, next, d);
    }
    assert d == done + (text + Separator(last, fmt));
  }

  lemma {:induction false} JoinedStep(texts: seq<string>, i: nat, fmt: bool)
    requires i < |texts|
    ensures Joined(texts[i..], fmt) == texts[i] + Separator(i == |texts| - 1, fmt) + Joined(texts[i + 1..], fmt)
    ensures ItemsRoom(texts[i..], fmt) == |texts[i]| + 2 + (if fmt then 1 else 0) + ItemsRoom(texts[i + 1..], fmt)
  {
    assert texts[i..][1..] == texts[i + 1..] && texts[i..][0] == texts[i];
  }

  method PutItems(out: array<char>, at: nat, entries: seq<array<char>>, ghost texts: seq<string>, fmt: bool,
      ghost start: string)
    returns (next: nat)
    requires Begins(out, at, start) && Entries(entries, texts) && |entries| == |texts| && out !in entries
    requires at + ItemsRoom(texts, fmt) + 4 <= out.Length
    modifies out
    ensures next + 4 <= out.Length && Begins(out, next, start + Joined(texts, fmt))
  {
    hide Joined, ItemsRoom, NulFree, Separator, Begins, IsCString;
    next := at;
    ghost var done := start;
    assert texts[0..] == texts;
    for i := 0 to |entries|
      invariant Entries(entries, texts) && Begins(out, next, done)
      invariant next + ItemsRoom(texts[i..], fmt) + 4 <= out.Length
      invariant done + Joined(texts[i..], fmt) == start + Joined(texts, fmt)
    {
      ghost var one := texts[i] + Separator(i == |texts| - 1, fmt);
      JoinedStep(texts, i, fmt);
      SeparatorShort(i == |texts| - 1, fmt);
      next := PutItem(out, next, entries[i], texts[i], i == |entries| - 1, fmt, done);
      assert (done + one) + Joined(texts[i + 1..], fmt) == done + (one + Joined(texts[i + 1..], fmt));
      done := done + one;
    }
    NoneJoined(texts, fmt);
    assert done + "" == done;
  }

  // The second pass of print_array.
  method ComposeArray(entries: seq<array<char>>, ghost texts: seq<string>, len: nat,
      fmt: bool) returns (out: array<char>)
    requires Entries(entries, texts) && |entries| == |texts| && len == 5 + ItemsRoom(texts, fmt)
    ensures fresh(out) && out.Length == len && IsCString(out, "[" + Joined(texts, fmt) + "]")
  {
    JoinedNulFree(texts, fmt);
    BracketsNulFree("[", Joined(texts, fmt), "]");
    hide Joined, ItemsRoom, NulFree, Begins, IsCString;
    out := new char[len];
    Start(out);
    var ptr: nat := Put(out, 0, '[', "");
    assert "" + "[" == "[";
    Terminate(out, ptr, "[");
    ptr := PutItems(out, ptr, entries, texts, fmt, "[");
    ptr := Put(out, ptr, ']', "[" + Joined(texts, fmt));
    Terminate(out, ptr, "[" + Joined(texts, fmt) + "]");
  }

  lemma SeparatorShort(last: bool, fmt: bool)
    ensures |Separator(last, fmt)| <= if fmt then 2 else 1
  {
  }

  lemma NoneJoined(texts: seq<string>, fmt: bool)
    ensures texts[|texts|..] == [] && Joined(texts[|texts|..], fmt) == ""
  {
  }

  lemma BracketsNulFree(open: string, s: string, close: string)
    requires NulFree(open) && NulFree(s) && NulFree(close)
    ensures NulFree(open + s + close)
  {
  }

  lemma {:induction false} JoinedNulFree(texts: seq<string>, fmt: bool)
    requires forall k | 0 <= k < |texts| :: NulFree(texts[k])
    ensures NulFree(Joined(texts, fmt))
  {
    if texts != [] {
      JoinedNulFree(texts[1..], fmt);
    }
  }

  // ----- objects -----

  datatype Entry = Entry(name: string, value: string)

  ghost function MemberTexts(members: Members, depth: nat, fmt: bool): seq<Entry> {
    if members.NoMember? then []
    else [Entry(PrintString(members.name), Print(members.value, depth, fmt))] + MemberTexts(members.next, depth, fmt)
  }

  ghost function OneMember(e: Entry, last: bool, depth: nat, fmt: bool): string {
    When(fmt, Tabs(depth)) + e.name + ":" + When(fmt, "\t") + e.value + (if last then "" else ",") + When(fmt, "\n")
  }

  ghost function MembersText(texts: seq<Entry>, depth: nat, fmt: bool): string {
    if texts == [] then ""
    else OneMember(texts[0], |texts| == 1, depth, fmt) + MembersText(texts[1..], depth, fmt)
  }

  lemma {:induction false} MembersTextIs(members: Members, depth: nat, fmt: bool)
    ensures MembersText(MemberTexts(members, depth, fmt), depth, fmt) == PrintMembers(members, depth, fmt)
  {
    hide Print, PrintString, Tabs;
    if members.Member? {
      MembersTextIs(members.next, depth, fmt);
      var texts := MemberTexts(members, depth, fmt);
      assert texts[1..] == MemberTexts(members.next, depth, fmt);
    }
  }

  // What the first pass sets aside for the entries.
  ghost function MembersRoom(texts: seq<Entry>, depth: nat, fmt: bool): nat {
    if texts == [] then 0
    else |texts[0].value| + |texts[0].name| + 2 + (if fmt then 2 + depth else 0) + MembersRoom(texts[1..], depth, fmt)
  }

  lemma {:induction false} MembersStep(texts: seq<Entry>, i: nat, depth: nat, fmt: bool)
    requires i < |texts|
    ensures MembersText(texts[i..], depth, fmt) ==
            OneMember(texts[i], i == |texts| - 1, depth, fmt) + MembersText(texts[i + 1..], depth, fmt)
    ensures MembersRoom(texts[i..], depth, fmt)
         == |texts[i].value| + |texts[i].name| + 2 + (if fmt then 2 + depth else 0) +
           MembersRoom(texts[i + 1..], depth, fmt)
    ensures |OneMember(texts[i], i == |texts| - 1, depth, fmt)| <= |texts[i].value| + |texts[i].name| + 2 +
            (if fmt then 2 + depth else 0)
  {
    assert texts[i..][1..] == texts[i + 1..] && texts[i..][0] == texts[i];
    TabsLength(depth);
    hide Tabs;
  }

  lemma {:induction false} TabsLength(n: nat)
    ensures |Tabs(n)| == n && NulFree(Tabs(n))
  {
    if n > 0 {
      TabsLength(n - 1);
    }
  }

  method PutTabs(out: array<char>, at: nat, n: nat, ghost done: string) returns (next: nat)
    requires Begins(out, at, done) && at + n < out.Length
    modifies out
    ensures next == at + n && Begins(out, next, done + Tabs(n))
  {
    hide Begins;
    next := at;
    assert done + Tabs(0) == done;
    for j := 0 to n
      invariant next == at + j && Begins(out, next, done + Tabs(j))
    {
      next := Put(out, next, '\t', done + Tabs(j));
      assert done + Tabs(j) + "\t" == done + Tabs(j + 1);
    }
  }

  ghost predicate MemberEntries(names: seq<array<char>>, values: seq<array<char>>, texts: seq<Entry>)
    reads set k | 0 <= k < |names| :: names[k]
    reads set k | 0 <= k < |values| :: values[k]
  {
    && |names| == |values| <= |texts|
    && (forall k | 0 <= k < |names| :: IsCString(names[k], texts[k].name))
    && (forall k | 0 <= k < |values| :: IsCString(values[k], texts[k].value))
  }

  lemma {:induction false} OneMoreMember(names: seq<array<char>>, values: seq<array<char>>, texts: seq<Entry>,
      name: array<char>, value: array<char>)
    requires MemberEntries(names, values, texts) && |names| < |texts|
    requires IsCString(name, texts[|names|].name) && IsCString(value, texts[|names|].value)
    ensures MemberEntries(names + [name], values + [value], texts)
  {
  }

  lemma NoMemberEntries(texts: seq<Entry>)
    ensures MemberEntries([], [], texts)
  {
  }

  method PutMember(out: array<char>, at: nat, name: array<char>, value: array<char>, ghost text: Entry,
      last: bool, depth: nat, fmt: bool, ghost done: string)
    returns (next: nat)
    requires Begins(out, at, done) && IsCString(name, text.name) && IsCString(value, text.value) && name != out &&
             value != out
    requires at + |text.value| + |text.name| + 2 + (if fmt then 2 + depth else 0) + 1 < out.Length
    modifies out
    ensures next == at + |OneMember(text, last, depth, fmt)|
    ensures Begins(out, next, done + OneMember(text, last, depth, fmt))
  {
    TabsLength(depth);
    hide Tabs, Begins, IsCString, OneMember;
    next := at;
    ghost var d := done + When(fmt, Tabs(depth));
    if fmt {
      next := PutTabs(out, next, depth, done);
    } else {
      assert d == done;
    }
    var n := StrLen(name, text.name);
    StrCpy(out, next, name, text.name, d);
    next := Put(out, next + n, ':', d + text.name);
    ghost var d1 := d + text.name + ":" + When(fmt, "\t");
    if fmt {
      next := Put(out, next, '\t', d + text.name + ":");
    } else {
      assert d1 == d + text.name + ":";
    }
    n := StrLen(value, text.value);
    StrCpy(out, next, value, text.value, d1);
    next := PutMemberEnd(out, next + n, last, fmt, d1 + text.value);
    MemberParts(done, text, last, depth, fmt);
  }

  method PutMemberEnd(out: array<char>, at: nat, last: bool, fmt: bool, ghost done: string) returns (next: nat)
    requires Begins(out, at, done) && at + 2 < out.Length
    modifies out
    ensures next == at + (if last then 0 else 1) + (if fmt then 1 else 0)
    ensures Begins(out, next, done + ((if last then "" else ",") + When(fmt, "\n")))
  {
    hide Begins;
    next := at;
    ghost var d := done;
    if !last {
      next := Put(out, next, ',', d);
      d := d + ",";
    }
    if fmt {
      next := Put(out, next, '\n', d);
      d := d + "\n";
    }
    Terminate(out, next, d);
    assert d == done + ((if last then "" else ",") + When(fmt, "\n"));
  }

  lemma {:induction false} MemberParts(done: string, text: Entry, last: bool, depth: nat, fmt: bool)
    ensures done + When(fmt, Tabs(depth)) + text.name + ":" + When(fmt, "\t") + text.value +
            ((if last then "" else ",") + When(fmt, "\n"))
         == done + OneMember(text, last, depth, fmt)
    ensures |OneMember(text, last, depth, fmt)|
         == |When(fmt, Tabs(depth))| + |text.name| + 1 + |When(fmt, "\t")| + |text.value| + (if last then 0 else 1) +
           |When(fmt, "\n")|
  {
    hide Tabs;
    var a, b := When(fmt, Tabs(depth)) + text.name + ":" + When(fmt, "\t") + text.value, if last then "" else ",";
    assert done + When(fmt, Tabs(depth)) + text.name + ":" + When(fmt, "\t") + text.value == done + a;
    assert (done + a) + (b + When(fmt, "\n")) == done + (a + b + When(fmt, "\n"));
  }

  lemma {:induction false} MembersNulFree(texts: seq<Entry>, depth: nat, fmt: bool)
    requires forall k | 0 <= k < |texts| :: NulFree(texts[k].name) && NulFree(texts[k].value)
    ensures NulFree(MembersText(texts, depth, fmt))
  {
    if texts != [] {
      TabsLength(depth);
      hide Tabs;
      MembersNulFree(texts[1..], depth, fmt);
    }
  }

  method PutMembers(out: array<char>, at: nat, names: seq<array<char>>, values: seq<array<char>>,
      ghost texts: seq<Entry>, depth: nat, fmt: bool, ghost start: string)
    returns (next: nat)
    requires Begins(out, at, start) && MemberEntries(names, values, texts) && |names| == |texts|
    requires out !in names && out !in values
    requires at + MembersRoom(texts, depth, fmt) + (if fmt then depth else 0) + 4 <= out.Length
    modifies out
    ensures next + (if fmt then depth else 0) + 4 <= out.Length &&
            Begins(out, next, start + MembersText(texts, depth, fmt))
  {
    hide MembersText, MembersRoom, NulFree, OneMember, Tabs, Begins, IsCString;
    next := at;
    ghost var done := start;
    assert texts[0..] == texts;
    for i := 0 to |names|
      invariant MemberEntries(names, values, texts) && Begins(out, next, done)
      invariant next + MembersRoom(texts[i..], depth, fmt) + (if fmt then depth else 0) + 4 <= out.Length
      invariant done + MembersText(texts[i..], depth, fmt) == start + MembersText(texts, depth, fmt)
    {
      ghost var one, rest := OneMember(texts[i], i == |texts| - 1, depth, fmt), MembersText(texts[i + 1..], depth, fmt);
      MembersStep(texts, i, depth, fmt);
      next := PutMember(out, next, names[i], values[i], texts[i], i == |names| - 1, depth, fmt, done);
      assert (done + one) + rest == done + (one + rest);
      done := done + one;
    }
    NoMembers(texts, depth, fmt);
    assert done + "" == done;
  }

  lemma {:induction false} EntriesNulFree(names: seq<array<char>>, values: seq<array<char>>, texts: seq<Entry>,
      depth: nat, fmt: bool)
    requires MemberEntries(names, values, texts) && |names| == |texts| && depth > 0
    ensures NulFree("{" + When(fmt, "\n") + MembersText(texts, depth, fmt) + When(fmt, Tabs(depth - 1)) + "}")
  {
    hide MembersText, Tabs;
    forall k | 0 <= k < |texts| ensures NulFree(texts[k].name) && NulFree(texts[k].value) {
      assert IsCString(names[k], texts[k].name) && IsCString(values[k], texts[k].value);
    }
    MembersNulFree(texts, depth, fmt);
    ObjectNulFree(MembersText(texts, depth, fmt), depth - 1, fmt);
  }

  // The second pass of print_object, at the depth of the members.
  method ComposeObject(names: seq<array<char>>, values: seq<array<char>>, ghost texts: seq<Entry>, len: nat,
      depth: nat, fmt: bool)
    returns (out: array<char>)
    requires MemberEntries(names, values, texts) && |names| == |texts| && depth > 0
    requires len == 7 + (if fmt then depth else 0) + MembersRoom(texts, depth, fmt)
    ensures fresh(out) && out.Length == len
    ensures IsCString(out, "{" + When(fmt, "\n") + MembersText(texts, depth, fmt) + When(fmt, Tabs(depth - 1)) + "}")
  {
    hide MembersText, MembersRoom, NulFree, OneMember, Tabs, Begins, IsCString;
    EntriesNulFree(names, values, texts, depth, fmt);
    out := new char[len];
    var ptr := OpenObject(out, fmt);
    ptr := PutMembers(out, ptr, names, values, texts, depth, fmt, "{" + When(fmt, "\n"));
    CloseObject(out, ptr, depth - 1, fmt, "{" + When(fmt, "\n") + MembersText(texts, depth, fmt));
  }

  method OpenObject(out: array<char>, fmt: bool) returns (ptr: nat)
    requires out.Length >= 7
    modifies out
    ensures ptr <= 2 && Begins(out, ptr, "{" + When(fmt, "\n"))
  {
    hide Begins, IsCString;
    Start(out);
    ptr := Put(out, 0, '{', "");
    assert "" + "{" == "{";
    if fmt {
      ptr := Put(out, ptr, '\n', "{");
    } else {
      assert "{" + When(fmt, "\n") == "{";
    }
    Terminate(out, ptr, "{" + When(fmt, "\n"));
  }

  method CloseObject(out: array<char>, at: nat, depth: nat, fmt: bool, ghost done: string)
    requires Begins(out, at, done) && at + (if fmt then depth else 0) + 1 < out.Length
    requires NulFree(done + When(fmt, Tabs(depth)) + "}")
    modifies out
    ensures IsCString(out, done + When(fmt, Tabs(depth)) + "}")
  {
    hide Begins, NulFree, Tabs;
    var ptr := at;
    ghost var d := done + When(fmt, Tabs(depth));
    if fmt {
      ptr := PutTabs(out, ptr, depth, done);
    } else {
      assert d == done;
    }
    ptr := Put(out, ptr, '}', d);
    Terminate(out, ptr, d + "}");
  }

  lemma NoMembers(texts: seq<Entry>, depth: nat, fmt: bool)
    ensures texts[|texts|..] == [] && MembersText(texts[|texts|..], depth, fmt) == ""
  {
  }

  lemma ObjectNulFree(s: string, depth: nat, fmt: bool)
    requires NulFree(s)
    ensures NulFree("{" + When(fmt, "\n") + s + When(fmt, Tabs(depth)) + "}")
  {
    TabsLength(depth);
    hide Tabs;
  }

  // ----- values -----

  // print_value: a buffer of its own with the text and a zero byte.
  method PrintValue(v: Json, depth: nat, fmt: bool) returns (out: array<char>)
    requires Plain(v)
    ensures fresh(out) && IsCString(out, Print(v, depth, fmt))
    decreases v, 0
  {
    hide IsCString;
    match v {
      case Null => out := StrDup("null");
      case False => out := StrDup("false");
      case True => out := StrDup("true");
      case Num(n) => out := PrintInteger(n);
      case Str(s) => out := PrintStringPtr(s);
      case Arr(items) => out := PrintArray(items, depth, fmt);
      case Obj(members) => out := PrintObject(members, depth, fmt);
    }
  }

  method StrDup(s: string) returns (out: array<char>)
    requires NulFree(s)
    ensures fresh(out) && IsCString(out, s)
  {
    out := new char[|s| + 1];
    Start(out);
    var ptr: nat := 0;
    for i := 0 to |s|
      invariant fresh(out) && out.Length == |s| + 1 && ptr == i && Begins(out, ptr, s[..i])
    {
      ptr := Put(out, ptr, s[i], s[..i]);
    }
    assert s[..|s|] == s;
    Terminate(out, ptr, s);
  }

  // print_array: the first pass prints and measures the items.
  method PrintArray(items: Items, depth: nat, fmt: bool) returns (out: array<char>)
    requires PlainItems(items)
    ensures fresh(out) && IsCString(out, Print(Arr(items), depth, fmt))
    decreases items, 1
  {
    hide IsCString, Print, Joined, PrintItems, Entries, ItemTexts, ItemsRoom;
    ghost var texts := ItemTexts(items, depth + 1, fmt);
    JoinedItems(items, depth + 1, fmt);
    ItemTextsNone(depth + 1, fmt);
    NoEntries(texts);
    assert texts[0..] == texts;
    var entries, len, child := [], 5, items;
    while child.Item?
      invariant PlainItems(child) && (child == items || child < items)
      invariant |entries| <= |texts| && Entries(entries, texts) &&
                ItemTexts(child, depth + 1, fmt) == texts[|entries|..]
      invariant len + ItemsRoom(texts[|entries|..], fmt) == 5 + ItemsRoom(texts, fmt)
      decreases child
    {
      ItemTextsStep(child, depth + 1, fmt, texts, |entries|);
      var ret := PrintValue(child.value, depth + 1, fmt);
      var n := StrLen(ret, texts[|entries|]);
      OneMoreEntry(entries, texts, ret);
      entries := entries + [ret];
      len := len + n + 2 + (if fmt then 1 else 0);
      child := child.next;
    }
    out := ComposeArray(entries, texts, len, fmt);
    PrintArr(items, depth, fmt);
  }

  lemma PrintArr(items: Items, depth: nat, fmt: bool)
    ensures Print(Arr(items), depth, fmt) == "[" + PrintItems(items, depth + 1, fmt) + "]"
  {
  }

  // print_object: the first pass prints and measures names and values.
  method PrintObject(members: Members, depth: nat, fmt: bool) returns (out: array<char>)
    requires PlainMembers(members)
    ensures fresh(out) && IsCString(out, Print(Obj(members), depth, fmt))
    decreases members, 1
  {
    hide IsCString, Print, PrintString, MembersText, MemberTexts, MembersRoom, PrintMembers, Tabs, MemberEntries;
    ghost var texts := MemberTexts(members, depth + 1, fmt);
    MembersTextIs(members, depth + 1, fmt);
    MemberTextsNone(depth + 1, fmt);
    NoMemberEntries(texts);
    assert texts[0..] == texts;
    var names, values, len, child := [], [], 7 + (if fmt then depth + 1 else 0), members;
    while child.Member?
      invariant PlainMembers(child) && (child == members || child < members)
      invariant |names| <= |texts| && MemberEntries(names, values, texts) &&
                MemberTexts(child, depth + 1, fmt) == texts[|names|..]
      invariant len + MembersRoom(texts[|names|..], depth + 1, fmt)
             == 7 + (if fmt then depth + 1 else 0) + MembersRoom(texts, depth + 1, fmt)
      decreases child
    {
      MemberTextsStep(child, depth + 1, fmt, texts, |names|);
      var str, ret, n := PrintEntry(child.name, child.value, depth + 1, fmt);
      OneMoreMember(names, values, texts, str, ret);
      names, values := names + [str], values + [ret];
      len := len + n + 2 + (if fmt then 2 + depth + 1 else 0);
      child := child.next;
    }
    out := ComposeObject(names, values, texts, len, depth + 1, fmt);
    PrintObj(members, depth, fmt);
  }

  method PrintEntry(name: string, v: Json, depth: nat, fmt: bool) returns (str: array<char>, ret: array<char>, n: nat)
    requires NulFree(name) && Plain(v)
    ensures fresh(str) && IsCString(str, PrintString(name))
    ensures fresh(ret) && IsCString(ret, Print(v, depth, fmt))
    ensures n == |Print(v, depth, fmt)| + |PrintString(name)|
    decreases v, 1
  {
    hide IsCString, Print, PrintString;
    str := PrintStringPtr(name);
    ret := PrintValue(v, depth, fmt);
    n := StrLen(ret, Print(v, depth, fmt));
    var m := StrLen(str, PrintString(name));
    n := n + m;
  }

  // One more member, of those whose texts are from number k on.
  lemma {:induction false} MemberTextsStep(members: Members, depth: nat, fmt: bool, texts: seq<Entry>, k: nat)
    requires members.Member? && k <= |texts| && MemberTexts(members, depth, fmt) == texts[k..]
    ensures k < |texts| && texts[k] == Entry(PrintString(members.name), Print(members.value, depth, fmt))
    ensures MemberTexts(members.next, depth, fmt) == texts[k + 1..]
    ensures MembersRoom(texts[k..], depth, fmt)
         == |texts[k].value| + |texts[k].name| + 2 + (if fmt then 2 + depth else 0) +
           MembersRoom(texts[k + 1..], depth, fmt)
  {
    hide Print, PrintString;
    assert MemberTexts(members, depth, fmt)[1..] == MemberTexts(members.next, depth, fmt);
    assert texts[k..][1..] == texts[k + 1..] && texts[k..][0] == texts[k];
  }

  lemma MemberTextsNone(depth: nat, fmt: bool)
    ensures MemberTexts(NoMember, depth, fmt) == [] && MembersRoom([], depth, fmt) == 0
  {
  }

  lemma PrintObj(members: Members, depth: nat, fmt: bool)
    ensures Print(Obj(members), depth, fmt)
         == "{" + When(fmt, "\n") + PrintMembers(members, depth + 1, fmt) + When(fmt, Tabs(depth)) + "}"
  {
  }
}

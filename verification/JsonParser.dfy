/** The parser as it runs: an index into the text, buffers and loops. */
module JsonParser {
  import opened CStrings
  import opened Json
  import JsonGrammar
  import JsonReparse

  // What a parse step returns, with the place in the text where it ends.
  datatype Outcome<T> = Done(value: T, at: nat) | Failed | NotInteger | RanOver

  ghost predicate Agrees<T>(o: Outcome<T>, t: string, r: Result<T>) {
    match o
    case Done(value, at) => at <= |t| && r == Ok(value, t[at..])
    case Failed => r == Fail
    case NotInteger => r == Inexact
    case RanOver => r == Overrun
  }

  // The byte at place i; the text is followed by a zero byte.
  function At(t: string, i: nat): char
    requires i <= |t|
  {
    if i < |t| then t[i] else '\0'
  }

  method SkipBlanks(t: string, i: nat) returns (j: nat)
    requires NulFree(t) && i <= |t|
    ensures i <= j <= |t| && t[j..] == Skip(t[i..])
  {
    j := i;
    while At(t, j) != '\0' && At(t, j) as int <= 32
      invariant i <= j <= |t| && Skip(t[j..]) == Skip(t[i..])
      decreases |t| - j
    {
      assert t[j..][1..] == t[j + 1..];
      j := j + 1;
    }
  }

  // ----- numbers -----

  method ReadDigits(t: string, i: nat) returns (n: nat, j: nat)
    requires NulFree(t) && i <= |t|
    ensures i <= j <= |t| && ParseDigits(t[i..], 0) == (n, t[j..])
  {
    n, j := 0, i;
    while '0' <= At(t, j) <= '9'
      invariant i <= j <= |t| && ParseDigits(t[j..], n) == ParseDigits(t[i..], 0)
      decreases |t| - j
    {
      assert t[j..][1..] == t[j + 1..];
      n := n * 10 + DigitValue(At(t, j));
      j := j + 1;
    }
  }

  lemma {:induction false} Ahead(t: string, i: nat)
    requires NulFree(t) && i < |t|
    ensures t[i..] != "" && t[i..][0] == t[i] == At(t, i) && t[i..][1..] == t[i + 1..]
  {
  }

  // parse_number.
  method ReadNumber(t: string, i: nat) returns (o: Outcome<Json>)
    requires NulFree(t) && i <= |t|
    ensures Agrees(o, t, ParseNumber(t[i..]))
  {
    hide ParseDigits;
    var j, n, negative := i, 0, false;
    if At(t, j) == '-' {
      Ahead(t, j);
      negative, j := true, j + 1;
    }
    ghost var s1 := t[j..];
    assert s1 == if StartsWith(t[i..], '-') then t[i..][1..] else t[i..];
    if At(t, j) == '0' {
      Ahead(t, j);
      j := j + 1;
    }
    ghost var s2 := t[j..];
    assert s2 == if StartsWith(s1, '0') then s1[1..] else s1;
    if '1' <= At(t, j) <= '9' {
      n, j := ReadDigits(t, j);
    }
    o := FinishNumber(t, j, Signed(negative, n));
  }

  // What the characters behind the digits make of the number.
  method FinishNumber(t: string, j: nat, value: int) returns (o: Outcome<Json>)
    requires NulFree(t) && j <= |t|
    ensures Agrees(o, t, EndNumber(value, t[j..]))
  {
    if At(t, j) == '.' && '0' <= At(t, j + 1) <= '9' {
      return NotInteger;
    }
    if At(t, j) == 'e' || At(t, j) == 'E' {
      return NotInteger;
    }
    o := if INT_MIN <= value <= INT_MAX then Done(Num(value), j) else NotInteger;
  }

  // ----- strings -----

  // Turns of the sizing scan.
  ghost function ScanCount(s: string): nat {
    if s == "" || s[0] == '\"' then 0
    else if s[0] == '\\' then 1 + (if |s| == 1 then 0 else ScanCount(s[2..]))
    else 1 + ScanCount(s[1..])
  }

  lemma {:induction false} CountHex(s: string, n: nat)
    requires n <= |s| && forall k | 0 <= k < n :: IsHex(s[k])
    ensures ScanCount(s) == n + ScanCount(s[n..])
  {
    if n > 0 {
      CountHex(s[1..], n - 1);
      assert s[1..][n - 1..] == s[n..];
    } else {
      assert s[0..] == s;
    }
  }

  // What an escape writes never exceeds what the scan counted for it.
  lemma {:induction false} EscapeFits(s: string)
    requires s != ""
    ensures |Escape(s).0| + ScanCount(Escape(s).1) <= 1 + ScanCount(s[1..])
  {
    hide Utf8, Combine, Hex4;
    if s[0] == 'u' && IsHex4(s[1..]) {
      CountHex(s[1..], 4);
      assert s[1..][4..] == s[5..];
      if |s| >= 7 && s[5] == '\\' && s[6] == 'u' && IsHex4(s[7..]) {
        assert s[5..][2..] == s[7..];
        CountHex(s[7..], 4);
        assert s[7..][4..] == s[11..];
      }
      Utf8Short(Hex4(s[1..]));
    }
  }

  lemma Utf8Short(u: nat)
    requires u < 0x1_0000
    ensures |Utf8(u)| <= 3
  {
  }

  // The sizing pass; it has left the text when it skips the zero byte.
  method ScanString(t: string, i: nat) returns (overran: bool, len: nat)
    requires NulFree(t) && i <= |t|
    ensures overran == ScanOverruns(t[i..])
    ensures !overran ==> len == ScanCount(t[i..])
  {
    len := 0;
    var j := i;
    while At(t, j) != '\"' && At(t, j) != '\0'
      invariant i <= j <= |t|
      invariant ScanOverruns(t[j..]) == ScanOverruns(t[i..]) && len + ScanCount(t[j..]) == ScanCount(t[i..])
      decreases |t| - j
    {
      Ahead(t, j);
      len := len + 1;
      if At(t, j) == '\\' {
        j := j + 1;
        if j == |t| {
          return true, len;
        }
        assert t[j - 1..][2..] == t[j + 1..];
      }
      j := j + 1;
    }
    overran := false;
  }

  // Writes the bytes of a code point from the last to the first.
  method PutUtf8(out: array<char>, at: nat, u: nat, ghost done: string) returns (next: nat)
    requires u < 0x11_0000 && Begins(out, at, done) && at + |Utf8(u)| <= out.Length
    modifies out
    ensures next == at + |Utf8(u)| && Begins(out, next, done + Utf8(u))
  {
    SixBits(u);
    var w := u / 0x40;
    if u < 0x80 {
      out[at] := Ch(u);
      next := at + 1;
    } else if u < 0x800 {
      next := PutBytes(out, at, [Ch(0xC0 + w), Ch(0x80 + u % 0x40)], done);
    } else if u < 0x1_0000 {
      next := PutBytes(out, at, [Ch(0xE0 + w / 0x40), Ch(0x80 + w % 0x40), Ch(0x80 + u % 0x40)], done);
    } else {
      next := PutBytes(out, at, [Ch(0xF0 + w / 0x40 / 0x40), Ch(0x80 + w / 0x40 % 0x40), Ch(0x80 + w % 0x40),
        Ch(0x80 + u % 0x40)], done);
    }
  }

  method PutBytes(out: array<char>, at: nat, s: string, ghost done: string) returns (next: nat)
    requires Begins(out, at, done) && at + |s| <= out.Length
    modifies out
    ensures next == at + |s| && Begins(out, next, done + s)
  {
    var k := |s|;
    while k > 0
      invariant 0 <= k <= |s| && out[..at] == done && out[at + k..at + |s|] == s[k..]
    {
      k := k - 1;
      out[at + k] := s[k];
    }
    next := at + |s|;
    assert out[..next] == out[..at] + out[at..next];
  }

  lemma SixBits(u: nat)
    ensures u / 0x40 / 0x40 == u / 0x1000 && u / 0x1000 / 0x40 == u / 0x4_0000
  {
  }

  // scan_unicode.
  method ScanUnicode(t: string, i: nat) returns (ok: bool, u: nat)
    requires NulFree(t) && i <= |t|
    ensures ok == IsHex4(t[i..]) && (ok ==> i + 4 <= |t| && u == Hex4(t[i..]))
  {
    ok := IsHex(At(t, i)) && IsHex(At(t, i + 1)) && IsHex(At(t, i + 2)) && IsHex(At(t, i + 3));
    u := 0;
    if ok {
      assert t[i..][0] == t[i] && t[i..][1] == t[i + 1] && t[i..][2] == t[i + 2] && t[i..][3] == t[i + 3];
      u := 0x1000 * HexValue(t[i]) + 0x100 * HexValue(t[i + 1]) + 0x10 * HexValue(t[i + 2]) + HexValue(t[i + 3]);
    }
  }

  // The \u case; t[i] is the u. The first half is read, then the second.
  method ReadUnicode(t: string, i: nat) returns (u: nat, j: nat)
    requires NulFree(t) && i < |t| && t[i] == 'u'
    ensures i < j <= |t| && u < 0x11_0000
    ensures UnicodeEscape(t[i..]) == (if u == 0 then "" else Utf8(u), t[j..])
  {
    hide Utf8, Combine, Hex4;
    Ahead(t, i);
    var ok;
    ok, u := ScanUnicode(t, i + 1);
    if !ok {
      return 0, i + 1;
    }
    assert t[i..][5..] == t[i + 5..];
    if IsLow(u) || u == 0 {
      return 0, i + 5;
    }
    if !IsHigh(u) {
      return u, i + 5;
    }
    if At(t, i + 5) != '\\' || At(t, i + 6) != 'u' {
      return 0, i + 5;
    }
    assert t[i..][7..] == t[i + 7..];
    var ok2, u2 := ScanUnicode(t, i + 7);
    if !ok2 {
      return 0, i + 5;
    }
    assert t[i..][11..] == t[i + 11..];
    if !IsLow(u2) {
      return 0, i + 11;
    }
    return Combine(u, u2), i + 11;
  }

  // What follows a backslash; t[i] is the character behind it.
  method ReadEscape(t: string, i: nat, out: array<char>, at: nat, ghost done: string) returns (j: nat, next: nat)
    requires NulFree(t) && i < |t| && Begins(out, at, done) && at + |Escape(t[i..]).0| <= out.Length
    modifies out
    ensures i < j <= |t| && t[j..] == Escape(t[i..]).1
    ensures next == at + |Escape(t[i..]).0| && Begins(out, next, done + Escape(t[i..]).0)
  {
    hide Begins, Utf8, UnicodeEscape;
    Ahead(t, i);
    if t[i] == 'u' {
      var u;
      u, j := ReadUnicode(t, i);
      next := at;
      if u == 0 {
        assert done + "" == done;
      } else {
        next := PutUtf8(out, at, u, done);
      }
    } else {
      var c :=
        if t[i] == 'b' then Ch(8)
        else if t[i] == 'f' then Ch(12)
        else if t[i] == 'n' then '\n'
        else if t[i] == 'r' then '\r'
        else if t[i] == 't' then '\t'
        else t[i];
      next := Put(out, at, c, done);
      j := i + 1;
    }
  }

  // The writing pass, into the buffer the scan has sized.
  method FillString(t: string, i: nat, out: array<char>) returns (j: nat, n: nat)
    requires NulFree(t) && i <= |t| && !ScanOverruns(t[i..]) && ScanCount(t[i..]) < out.Length
    modifies out
    ensures i <= j <= |t| && t[j..] == Unescape(t[i..]).1
    ensures n < out.Length && Begins(out, n, Unescape(t[i..]).0)
  {
    hide Begins;
    j, n := i, 0;
    ghost var done := "";
    Start(out);
    assert "" + Unescape(t[i..]).0 == Unescape(t[i..]).0;
    while At(t, j) != '\"' && At(t, j) != '\0'
      invariant i <= j <= |t| && Begins(out, n, done)
      invariant !ScanOverruns(t[j..]) && n + ScanCount(t[j..]) < out.Length
      invariant Unescape(t[i..]) == (done + Unescape(t[j..]).0, Unescape(t[j..]).1)
      decreases |t| - j
    {
      j, n, done := FillOne(t, j, out, n, done);
    }
    assert t[j..] == "" || t[j..][0] == '\"';
    assert done + "" == done;
    if At(t, j) == '\"' {
      Ahead(t, j);
      j := j + 1;
    }
  }

  // One turn of that loop.
  method FillOne(t: string, i: nat, out: array<char>, at: nat, ghost done: string) returns (j: nat, next: nat,
      ghost done': string)
    requires NulFree(t) && i < |t| && t[i] != '\"' && Begins(out, at, done)
    requires !ScanOverruns(t[i..]) && at + ScanCount(t[i..]) < out.Length
    modifies out
    ensures i < j <= |t| && Begins(out, next, done')
    ensures !ScanOverruns(t[j..]) && next + ScanCount(t[j..]) <= at + ScanCount(t[i..])
    ensures done + Unescape(t[i..]).0 == done' + Unescape(t[j..]).0 && Unescape(t[i..]).1 == Unescape(t[j..]).1
  {
    hide Begins, Escape, Unescape, ScanCount, ScanOverruns;
    UnescapeStep(t, i);
    if t[i] != '\\' {
      next := Put(out, at, t[i], done);
      j, done' := i + 1, done + [t[i]];
      assert done + ([t[i]] + Unescape(t[j..]).0) == done' + Unescape(t[j..]).0;
    } else {
      j, next := ReadEscape(t, i + 1, out, at, done);
      done' := done + Escape(t[i + 1..]).0;
      assert done + (Escape(t[i + 1..]).0 + Unescape(t[j..]).0) == done' + Unescape(t[j..]).0;
    }
  }

  // One character or escape of a literal.
  lemma {:induction false} UnescapeStep(t: string, i: nat)
    requires NulFree(t) && i < |t| && t[i] != '\"' && !ScanOverruns(t[i..])
    ensures t[i] != '\\' ==>
              && !ScanOverruns(t[i + 1..]) && ScanCount(t[i..]) == 1 + ScanCount(t[i + 1..])
              && Unescape(t[i..]) == ([t[i]] + Unescape(t[i + 1..]).0, Unescape(t[i + 1..]).1)
    ensures t[i] == '\\' ==> i + 1 < |t|
    ensures t[i] == '\\' ==>
              var e := Escape(t[i + 1..]);
              && !ScanOverruns(e.1) && |e.0| + ScanCount(e.1) <= ScanCount(t[i..])
              && Unescape(t[i..]) == (e.0 + Unescape(e.1).0, Unescape(e.1).1)
  {
    hide Escape;
    Ahead(t, i);
    if t[i] == '\\' {
      Ahead(t, i + 1);
      EscapeFits(t[i + 1..]);
      ScanAcrossEscape(t[i + 1..]);
      assert t[i..][2..] == t[i + 1..][1..];
    }
  }

  // parse_string: the value is in a buffer of its own.
  method ReadString(t: string, i: nat) returns (o: Outcome<string>, out: array?<char>)
    requires NulFree(t) && i <= |t|
    ensures Agrees(o, t, ParseString(t[i..]))
    ensures o.Done? ==> out != null && fresh(out) && IsCString(out, o.value)
  {
    hide Begins, Unescape, ScanOverruns, ScanCount;
    out := null;
    if At(t, i) != '\"' {
      return Failed, null;
    }
    Ahead(t, i);
    var overran, len := ScanString(t, i + 1);
    if overran {
      return RanOver, null;
    }
    JsonReparse.UnescapePlain(t[i + 1..]);
    out := new char[len + 1];
    var j, n := FillString(t, i + 1, out);
    ghost var value := Unescape(t[i + 1..]).0;
    Terminate(out, n, value);
    TakeString(out, n, value);
    o := Done(out[..n], j);
  }

  lemma TakeString(out: array<char>, n: nat, s: string)
    requires Begins(out, n, s)
    ensures n <= out.Length && out[..n] == s
  {
  }

  // ----- values -----

  function ItemChain(values: seq<Json>, end: Items): Items {
    if values == [] then end else ItemChain(values[..|values| - 1], Item(values[|values| - 1], end))
  }

  function MemberChain(pairs: seq<(string, Json)>, end: Members): Members {
    if pairs == [] then end
    else MemberChain(pairs[..|pairs| - 1], Member(pairs[|pairs| - 1].0, pairs[|pairs| - 1].1, end))
  }

  // The rest of the items, behind those read already.
  ghost function Behind(values: seq<Json>, r: Result<Items>): Result<Items> {
    if r.Ok? then Ok(ItemChain(values, r.value), r.rest) else r
  }

  ghost function MembersBehind(pairs: seq<(string, Json)>, r: Result<Members>): Result<Members> {
    if r.Ok? then Ok(MemberChain(pairs, r.value), r.rest) else r
  }

  lemma {:induction false} OneMoreItem(values: seq<Json>, s: string)
    ensures ParseValue(s).Ok? ==>
              Behind(values, ParseItems(s)) ==
                Behind(values + [ParseValue(s).value], MoreItems(Skip(ParseValue(s).rest)))
    ensures !ParseValue(s).Ok? ==> ParseItems(s) == ParseValue(s).PropagateFailure()
  {
    hide ParseValue, MoreItems;
    if ParseValue(s).Ok? {
      assert (values + [ParseValue(s).value])[..|values|] == values;
    }
  }

  lemma {:induction false} OneMorePair(pairs: seq<(string, Json)>, s: string)
    ensures ParseMember(s).Ok? ==>
              MembersBehind(pairs, ParseMembers(s)) ==
                MembersBehind(pairs + [ParseMember(s).value], MoreMembers(Skip(ParseMember(s).rest)))
    ensures !ParseMember(s).Ok? ==> ParseMembers(s) == ParseMember(s).PropagateFailure()
  {
    hide ParseMember, MoreMembers;
    if ParseMember(s).Ok? {
      assert (pairs + [ParseMember(s).value])[..|pairs|] == pairs;
    }
  }

  function Convert<T, U>(o: Outcome<T>): Outcome<U>
    requires !o.Done?
  {
    match o
    case Failed => Failed
    case NotInteger => NotInteger
    case RanOver => RanOver
  }

  method Matches(t: string, i: nat, word: string) returns (yes: bool)
    requires NulFree(t) && i <= |t|
    ensures yes == HasPrefix(t[i..], word) && (yes ==> i + |word| <= |t|)
  {
    yes := i + |word| <= |t| && t[i..i + |word|] == word;
    if i + |word| <= |t| {
      assert t[i..][..|word|] == t[i..i + |word|];
    }
  }

  // parse_value.
  method ReadValue(t: string, i: nat) returns (o: Outcome<Json>)
    requires NulFree(t) && i <= |t|
    ensures Agrees(o, t, ParseValue(t[i..]))
    decreases |t| - i, 1
  {
    hide ParseString, ParseNumber, ParseArray, ParseObject, IsCString;
    var yes := Matches(t, i, "null");
    if yes {
      assert t[i..][4..] == t[i + 4..];
      return Done(Null, i + 4);
    }
    yes := Matches(t, i, "false");
    if yes {
      assert t[i..][5..] == t[i + 5..];
      return Done(False, i + 5);
    }
    yes := Matches(t, i, "true");
    if yes {
      assert t[i..][4..] == t[i + 4..];
      return Done(True, i + 4);
    }
    var c := At(t, i);
    if i < |t| {
      Ahead(t, i);
    }
    if c == '\"' {
      var s, _ := ReadString(t, i);
      o := if s.Done? then Done(Str(s.value), s.at) else Convert(s);
    } else if c == '-' || '0' <= c <= '9' {
      o := ReadNumber(t, i);
    } else if c == '[' {
      var items := ReadArray(t, i);
      o := if items.Done? then Done(Arr(items.value), items.at) else Convert(items);
    } else if c == '{' {
      var members := ReadObject(t, i);
      o := if members.Done? then Done(Obj(members.value), members.at) else Convert(members);
    } else {
      o := Failed;
    }
  }

  // An item and the blanks around it.
  method ReadItem(t: string, i: nat, ghost values: seq<Json>) returns (v: Outcome<Json>, j: nat)
    requires NulFree(t) && i <= |t|
    ensures v.Done? ==>
              && i <= j <= |t|
              && Behind(values, ParseItems(t[i..])) == Behind(values + [v.value], MoreItems(t[j..]))
    ensures !v.Done? ==> Agrees(Convert(v), t, Behind(values, ParseItems(t[i..])))
    decreases |t| - i, 2
  {
    hide ParseValue, ParseItems, MoreItems, Skip;
    OneMoreItem(values, t[i..]);
    v := ReadValue(t, i);
    j := i;
    if v.Done? {
      j := SkipBlanks(t, v.at);
      Later(t, i, v.at, ParseValue(t[i..]));
    }
  }

  lemma Later<T>(t: string, i: nat, at: nat, r: Result<T>)
    requires i <= |t| && at <= |t| && r.Ok? && r.rest == t[at..] && |r.rest| <= |t[i..]|
    ensures i <= at
  {
  }

  // parse_array.
  method ReadArray(t: string, i: nat) returns (o: Outcome<Items>)
    requires NulFree(t) && i < |t| && t[i] == '['
    ensures Agrees(o, t, ParseArray(t[i..]))
    decreases |t| - i, 0
  {
    hide ParseItems, Skip, ItemChain;
    Ahead(t, i);
    var j := SkipBlanks(t, i + 1);
    if At(t, j) == ']' {
      Ahead(t, j);
      return Done(NoItem, j + 1);
    }
    NoneBehind(ParseItems(t[j..]));
    ghost var all := ParseItems(t[j..]);
    var v, k := ReadItem(t, j, []);
    if !v.Done? {
      return Convert(v);
    }
    var values := [v.value];
    assert [] + [v.value] == values;
    while At(t, k) == ','
      invariant i < k <= |t| && all == Behind(values, MoreItems(t[k..]))
      decreases |t| - k
    {
      Ahead(t, k);
      j := SkipBlanks(t, k + 1);
      v, k := ReadItem(t, j, values);
      if !v.Done? {
        return Convert(v);
      }
      values := values + [v.value];
    }
    if At(t, k) == ']' {
      Ahead(t, k);
      o := Done(ItemChain(values, NoItem), k + 1);
    } else {
      o := Failed;
    }
  }

  lemma NoneBehind(r: Result<Items>)
    ensures Behind([], r) == r
  {
  }

  // A member's name, the colon and its value.
  method ReadMember(t: string, i: nat) returns (o: Outcome<(string, Json)>)
    requires NulFree(t) && i <= |t|
    ensures Agrees(o, t, ParseMember(t[i..]))
    decreases |t| - i, 2
  {
    hide ParseString, ParseValue, Skip, IsCString;
    var name, _ := ReadString(t, i);
    if !name.Done? {
      return Convert(name);
    }
    Later(t, i, name.at, ParseString(t[i..]));
    var j := SkipBlanks(t, name.at);
    if At(t, j) != ':' {
      assert !StartsWith(t[j..], ':');
      return Failed;
    }
    Ahead(t, j);
    j := SkipBlanks(t, j + 1);
    var v := ReadValue(t, j);
    o := if v.Done? then Done((name.value, v.value), v.at) else Convert(v);
  }

  method ReadPair(t: string, i: nat, ghost pairs: seq<(string, Json)>) returns (m: Outcome<(string, Json)>, j: nat)
    requires NulFree(t) && i <= |t|
    ensures m.Done? ==>
              && i <= j <= |t|
              && MembersBehind(pairs, ParseMembers(t[i..])) == MembersBehind(pairs + [m.value], MoreMembers(t[j..]))
    ensures !m.Done? ==> Agrees(Convert(m), t, MembersBehind(pairs, ParseMembers(t[i..])))
    decreases |t| - i, 3
  {
    hide ParseMember, ParseMembers, MoreMembers, Skip;
    OneMorePair(pairs, t[i..]);
    m := ReadMember(t, i);
    j := i;
    if m.Done? {
      j := SkipBlanks(t, m.at);
      Later(t, i, m.at, ParseMember(t[i..]));
    }
  }

  // parse_object.
  method ReadObject(t: string, i: nat) returns (o: Outcome<Members>)
    requires NulFree(t) && i < |t| && t[i] == '{'
    ensures Agrees(o, t, ParseObject(t[i..]))
    decreases |t| - i, 0
  {
    hide ParseMembers, Skip, MemberChain;
    Ahead(t, i);
    var j := SkipBlanks(t, i + 1);
    if At(t, j) == '}' {
      Ahead(t, j);
      return Done(NoMember, j + 1);
    }
    NoMembersBehind(ParseMembers(t[j..]));
    ghost var all := ParseMembers(t[j..]);
    var m, k := ReadPair(t, j, []);
    if !m.Done? {
      return Convert(m);
    }
    var pairs := [m.value];
    assert [] + [m.value] == pairs;
    while At(t, k) == ','
      invariant i < k <= |t| && all == MembersBehind(pairs, MoreMembers(t[k..]))
      decreases |t| - k
    {
      Ahead(t, k);
      j := SkipBlanks(t, k + 1);
      m, k := ReadPair(t, j, pairs);
      if !m.Done? {
        return Convert(m);
      }
      pairs := pairs + [m.value];
    }
    if At(t, k) == '}' {
      Ahead(t, k);
      o := Done(MemberChain(pairs, NoMember), k + 1);
    } else {
      o := Failed;
    }
  }

  lemma NoMembersBehind(r: Result<Members>)
    ensures MembersBehind([], r) == r
  {
  }

  // cJSON_Parse.
  method ReadText(t: string) returns (o: Outcome<Json>)
    requires NulFree(t)
    ensures Agrees(o, t, Parse(t))
    ensures forall v | JsonGrammar.Denotes(t, v) :: o.Done? && o.value == v
  {
    hide ParseValue, Skip, JsonGrammar.Denotes;
    assert t[0..] == t;
    var i := SkipBlanks(t, 0);
    o := ReadValue(t, i);
    forall v | JsonGrammar.Denotes(t, v) ensures Parse(t).Ok? && Parse(t).value == v {
      JsonGrammar.DenotesParses(t, v);
    }
  }
}

/** Formatted output to memory: the collecting buffer and SQL escapes. */
module Mprintf {
  import opened Basics
  import opened CStrings

  // ----- mout -----

  class Collector {
    const base: array<char>
    var text: array<char>
    var nChar: nat
    var nTotal: nat
    var nAlloc: nat
    const grows: bool            // there is a function to reallocate with
    ghost var sent: string       // all pieces so far
    ghost var started: bool      // there was a piece

    // All that was sent, or as much of it as a fixed buffer can hold.
    ghost predicate Valid()
      reads this, text
    {
      && nAlloc == text.Length > 0 && nTotal == |sent|
      && nChar == (if grows then |sent| else Min(|sent|, nAlloc - 1)) < nAlloc
      && text[..nChar] == sent[..nChar]
      && (!grows ==> text == base)
      && (started ==> text[nChar] == '\0')
    }

    constructor (base: array<char>, grows: bool)
      requires base.Length > 0
      ensures Valid() && this.base == text == base && this.grows == grows && sent == "" && !started
    {
      this.base, this.text, this.grows := base, base, grows;
      nChar, nTotal, nAlloc, sent, started := 0, 0, base.Length, "", false;
    }

    // A bigger buffer with the same text.
    method Reallocate(size: nat) returns (z: array<char>)
      requires nChar <= text.Length && nChar <= size
      ensures fresh(z) && z.Length == size && z[..nChar] == text[..nChar]
    {
      z := new char[size];
      forall i | 0 <= i < nChar {
        z[i] := text[i];
      }
    }

    method Append(s: string, n: nat)
      requires n <= |s| && nChar + n < text.Length
      modifies this`nChar, text
      ensures nChar == old(nChar) + n && text[..nChar] == old(text[..nChar]) + s[..n] && text[nChar] == '\0'
    {
      forall i | 0 <= i < n {
        text[nChar + i] := s[i];
      }
      nChar := nChar + n;
      text[nChar] := '\0';
    }

    // mout.
    method Mout(s: string)
      requires Valid()
      modifies this, text
      ensures Valid() && sent == old(sent) + s && started
      ensures text == old(text) || fresh(text)
    {
      nTotal := nTotal + |s|;
      var n := |s|;
      if nChar + n + 1 > nAlloc {
        if !grows {
          n := nAlloc - nChar - 1;
        } else {
          nAlloc := nChar + n * 2 + 1;
          text := Reallocate(nAlloc);
        }
      }
      ghost var k := nChar;
      Append(s, n);
      sent, started := sent + s, true;
      assert text[..nChar] == sent[..k] + s[..n];
    }
  }

  // The pieces a printer sends, and the shrinking of base_vprintf. The
  // text is terminated if and only if there was a piece, or the buffer
  // happened to start with a zero byte.
  method Collect(base: array<char>, grows: bool, pieces: seq<string>) returns (out: array<char>, n: nat)
    requires base.Length > 0
    modifies base
    ensures n == (if grows then |Concat(pieces)| else Min(|Concat(pieces)|, base.Length - 1)) < out.Length
    ensures out[..n] == Concat(pieces)[..n]
    ensures out[n] == '\0' <==> pieces != [] || old(base[0]) == '\0'
    ensures !grows ==> out == base
  {
    var c := new Collector(base, grows);
    for i := 0 to |pieces|
      invariant fresh(c) && c.Valid() && c.sent == Concat(pieces[..i]) && (i > 0 ==> c.started)
      invariant c.base == base && c.grows == grows && (c.text == base || fresh(c.text))
      invariant i == 0 ==> c.text == base && base[0] == old(base[0])
    {
      assert pieces[..i + 1][..i] == pieces[..i];
      c.Mout(pieces[i]);
    }
    assert pieces[..|pieces|] == pieces;
    n, out := c.nChar, c.text;
    if grows {
      if c.text == c.base || c.nAlloc > c.nChar + 10 {
        out := new char[n + 1];
        forall i | 0 <= i <= n {
          out[i] := c.text[i];
        }
      }
    }
  }

  // Without any piece the terminator is whatever the buffer held.
  method CollectNothing(base: array<char>, grows: bool) returns (out: array<char>, n: nat)
    requires base.Length > 0
    modifies base
    ensures n == 0 < out.Length && (out[0] == '\0' <==> old(base[0]) == '\0')
  {
    out, n := Collect(base, grows, []);
  }

  lemma {:induction false} EmptyFirst(pieces: seq<string>)
    ensures Concat([""] + pieces) == Concat(pieces)
  {
    var all := [""] + pieces;
    if pieces == [] {
      assert all[..0] == [] && Concat(all) == "" + "";
    } else {
      assert all[..|all| - 1] == [""] + pieces[..|pieces| - 1];
      EmptyFirst(pieces[..|pieces| - 1]);
    }
  }

  // base_vprintf: vxprintf sends an empty piece before the text of the
  // format, so the result is always terminated. Without a way to grow it
  // ends after base.Length - 1 characters.
  method Print(base: array<char>, grows: bool, pieces: seq<string>) returns (out: array<char>, n: nat)
    requires base.Length > 0
    modifies base
    ensures n == (if grows then |Concat(pieces)| else Min(|Concat(pieces)|, base.Length - 1)) < out.Length
    ensures out[..n] == Concat(pieces)[..n] && out[n] == '\0'
    ensures !grows ==> out == base
  {
    EmptyFirst(pieces);
    out, n := Collect(base, grows, [""] + pieces);
  }

  // ----- %q, %Q, %w and %y -----

  const BUF_SIZE := 350

  // %q doubles single quotes; %Q also puts quotes around; %w doubles
  // backslashes too; %y puts a backslash before a quote.
  datatype Style = Doubled | Quoted | Both | Slashed

  predicate Special(c: char, style: Style) {
    c == '\'' || (style == Both && c == '\\')
  }

  function EscapedChar(c: char, style: Style): string {
    if !Special(c, style) then [c] else if style == Slashed then ['\\', c] else [c, c]
  }

  function EscapedAll(s: string, style: Style): string {
    if s == "" then "" else EscapedChar(s[0], style) + EscapedAll(s[1..], style)
  }

  datatype Arg = NullArg | Text(s: string)

  function ArgText(arg: Arg, style: Style): string {
    if arg.Text? then arg.s else if style == Quoted then "NULL" else "(NULL)"
  }

  function NeedQuote(arg: Arg, style: Style): bool {
    arg.Text? && style == Quoted
  }

  function Around(quote: bool, s: string): string {
    if quote then "'" + s + "'" else s
  }

  function Converted(arg: Arg, style: Style): string {
    Around(NeedQuote(arg, style), EscapedAll(ArgText(arg, style), style))
  }

  // %Q alone puts quotes around, and not around a null argument.
  lemma {:induction false} ConvertedPlain(s: string, style: Style)
    requires '\'' !in s && '\\' !in s
    ensures Converted(Text(s), style) == if style == Quoted then "'" + s + "'" else s
    ensures Converted(NullArg, style) == if style == Quoted then "NULL" else "(NULL)"
  {
    NothingEscaped(s, style);
    NothingEscaped("NULL", style);
    NothingEscaped("(NULL)", style);
  }

  lemma {:induction false} NothingEscaped(s: string, style: Style)
    requires '\'' !in s && '\\' !in s
    ensures EscapedAll(s, style) == s
  {
    if s != "" {
      NothingEscaped(s[1..], style);
      assert [s[0]] + s[1..] == s;
    }
  }

  // What is added to an argument: for %q, %w and %y only the escapes.
  lemma {:induction false} ConvertedSize(s: string, style: Style)
    ensures |Converted(Text(s), style)| ==
            |s| + Occurrences(s, '\'') + (if style == Both then Occurrences(s, '\\') else 0) +
            (if style == Quoted then 2 else 0)
  {
    hide EscapedAll, Occurrences;
    EscapedSize(s, style);
  }

  lemma {:induction false} EscapedMore(s: string, style: Style, i: nat)
    requires i < |s|
    ensures EscapedAll(s[..i + 1], style) == EscapedAll(s[..i], style) + EscapedChar(s[i], style)
  {
    hide EscapedChar;
    if i == 0 {
      assert s[..1][1..] == "" && s[..0] == "";
    } else {
      EscapedMore(s[1..], style, i - 1);
      assert s[1..][..i] == s[..i + 1][1..] && s[1..][..i - 1] == s[..i][1..];
    }
  }

  lemma {:induction false} EscapedGrows(s: string, style: Style, i: nat)
    requires i <= |s|
    ensures |EscapedAll(s[..i], style)| <= |EscapedAll(s, style)|
    decreases |s| - i
  {
    if i < |s| {
      EscapedMore(s, style, i);
      EscapedGrows(s, style, i + 1);
    } else {
      assert s[..i] == s;
    }
  }

  // The counting pass.
  method Count(s: string, style: Style) returns (n: nat)
    ensures n == |EscapedAll(s, style)|
  {
    n := 0;
    var i := 0;
    while i < |s|
      invariant i <= |s| && n + i == |EscapedAll(s[..i], style)|
    {
      EscapedMore(s, style, i);
      if Special(s[i], style) {
        n := n + 1;
      }
      i := i + 1;
    }
    assert s[..|s|] == s;
    n := n + i;
  }

  // One character; the backslash of %y is put in its place afterwards.
  method PutOne(out: array<char>, at: nat, c: char, style: Style, ghost done: string) returns (next: nat)
    requires Begins(out, at, done) && at + |EscapedChar(c, style)| <= out.Length
    modifies out
    ensures next == at + |EscapedChar(c, style)| && Begins(out, next, done + EscapedChar(c, style))
  {
    out[at] := c;
    next := at + 1;
    if Special(c, style) {
      out[next] := c;
      if style == Slashed {
        out[next - 1] := '\\';
      }
      next := next + 1;
    }
  }

  method PutAll(out: array<char>, at: nat, s: string, style: Style, ghost done: string) returns (next: nat)
    requires Begins(out, at, done) && at + |EscapedAll(s, style)| <= out.Length
    modifies out
    ensures next == at + |EscapedAll(s, style)| && Begins(out, next, done + EscapedAll(s, style))
  {
    assert EscapedAll(s[..0], style) == "";
    hide EscapedAll, EscapedChar, Begins;
    next := at;
    assert done + "" == done;
    for i := 0 to |s|
      invariant next == at + |EscapedAll(s[..i], style)| && Begins(out, next, done + EscapedAll(s[..i], style))
    {
      EscapedMore(s, style, i);
      EscapedGrows(s, style, i + 1);
      next := PutOne(out, next, s[i], style, done + EscapedAll(s[..i], style));
      assert done + EscapedAll(s[..i], style) + EscapedChar(s[i], style) == done + EscapedAll(s[..i + 1], style);
    }
    assert s[..|s|] == s;
  }

  // The conversion: the buffer is as big as the counting pass says, and
  // what is written fills exactly that.
  method Convert(arg: Arg, style: Style, buf: array<char>) returns (out: array<char>, length: nat, ghost n: nat)
    requires buf.Length == BUF_SIZE && (arg.Text? ==> NulFree(arg.s))
    modifies buf
    ensures length == |Converted(arg, style)| && n == length + 1 <= out.Length
    ensures out == buf || (fresh(out) && out.Length == n > BUF_SIZE)
    ensures Begins(out, length, Converted(arg, style)) && out[length] == '\0'
  {
    hide EscapedAll, Begins;
    var s, quote := ArgText(arg, style), NeedQuote(arg, style);
    var count := Count(s, style);
    var size := count + 1 + (if quote then 2 else 0);
    n := size;
    if size > BUF_SIZE {
      out := new char[size];
    } else {
      out := buf;
    }
    Start(out);
    length := 0;
    ghost var all := EscapedAll(s, style);
    if quote {
      length := Put(out, length, '\'', "");
      assert "" + "'" == "'";
      length := PutAll(out, length, s, style, "'");
      length := Put(out, length, '\'', "'" + all);
    } else {
      length := PutAll(out, length, s, style, "");
      assert "" + all == all;
    }
    End(out, length, Converted(arg, style));
  }

  method End(out: array<char>, at: nat, ghost done: string)
    requires Begins(out, at, done) && at < out.Length
    modifies out
    ensures Begins(out, at, done) && out[at] == '\0'
  {
    out[at] := '\0';
  }

  // ----- reading it back -----

  // How a reader of SQL takes the inside of a literal: a doubled quote is
  // a quote, a single one ends the literal. Some readers also take a
  // backslash and any character for that character.
  datatype Reader = Standard | Backslashes

  datatype Literal = Unclosed | Closed(value: string, rest: string)

  function Prefixed(c: char, r: Literal): Literal {
    if r.Unclosed? then r else Closed([c] + r.value, r.rest)
  }

  function Read(s: string, reader: Reader): Literal {
    if s == "" then Unclosed
    else if s[0] == '\'' then
      if |s| > 1 && s[1] == '\'' then Prefixed('\'', Read(s[2..], reader)) else Closed("", s[1..])
    else if s[0] == '\\' && reader == Backslashes then
      if |s| > 1 then Prefixed(s[1], Read(s[2..], reader)) else Unclosed
    else Prefixed(s[0], Read(s[1..], reader))
  }

  function Occurrences(s: string, c: char): nat {
    if s == "" then 0 else (if s[0] == c then 1 else 0) + Occurrences(s[1..], c)
  }

  lemma {:induction false} NoOccurrence(s: string, c: char)
    ensures Occurrences(s, c) == 0 <==> c !in s
  {
    if s != "" {
      NoOccurrence(s[1..], c);
      assert s == [s[0]] + s[1..];
    }
  }

  // The literal's end, and text that does not go on with a quote.
  ghost predicate Ends(rest: string) {
    rest != "" ==> rest[0] != '\''
  }

  // What a conversion makes of s reads back as s and ends at its quote.
  ghost predicate ReadsBack(s: string, style: Style, reader: Reader, rest: string) {
    Read(EscapedAll(s, style) + ("'" + rest), reader) == Closed(s, rest)
  }

  // Which arguments a reader gets back from which conversion.
  ghost predicate Safe(s: string, style: Style, reader: Reader) {
    match style
    case Doubled => reader == Backslashes ==> '\\' !in s
    case Quoted => reader == Backslashes ==> '\\' !in s
    case Both => reader == Standard ==> '\\' !in s
    case Slashed => if reader == Standard then '\'' !in s else '\\' !in s
  }

  lemma {:induction false} SafeReads(s: string, style: Style, reader: Reader, rest: string)
    requires Safe(s, style, reader) && Ends(rest)
    ensures ReadsBack(s, style, reader, rest)
  {
    var t := EscapedAll(s, style) + ("'" + rest);
    if s == "" {
      assert t == "'" + rest && t[1..] == rest;
    } else {
      var c, more := EscapedChar(s[0], style), EscapedAll(s[1..], style) + ("'" + rest);
      assert t == c + more;
      assert s == [s[0]] + s[1..];
      SafeReads(s[1..], style, reader, rest);
      CharReads(s[0], style, reader, more);
    }
  }

  // One escaped character, in front of more.
  lemma {:induction false} CharReads(c: char, style: Style, reader: Reader, more: string)
    requires Safe([c], style, reader)
    ensures Read(EscapedChar(c, style) + more, reader) == Prefixed(c, Read(more, reader))
  {
    var e := EscapedChar(c, style);
    var t := e + more;
    assert c in [c];
    if |e| == 1 {
      assert t[1..] == more;
    } else {
      assert t[2..] == more;
    }
  }

  lemma {:induction false} EscapedSize(s: string, style: Style)
    ensures |EscapedAll(s, style)| == |s| + Occurrences(s, '\'') + if style == Both then Occurrences(s, '\\') else 0
  {
    if s != "" {
      EscapedSize(s[1..], style);
    }
  }

  // A reader needs two characters for each quote it returns, and one that
  // knows backslashes also for each backslash.
  lemma {:induction false} ReadSize(s: string, reader: Reader)
    ensures var r := Read(s, reader);
            r.Closed? ==>
              && |s| - |r.rest| >= |r.value| + 1 + Occurrences(r.value, '\'')
                                  + (if reader == Backslashes then Occurrences(r.value, '\\') else 0)
              && (reader == Standard ==> |s| - |r.rest| == |r.value| + 1 + Occurrences(r.value, '\''))
    decreases |s|
  {
    if s == "" {
    } else if s[0] == '\'' {
      if |s| > 1 && s[1] == '\'' {
        ReadSize(s[2..], reader);
        OneMore('\'', Read(s[2..], reader));
      }
    } else if s[0] == '\\' && reader == Backslashes {
      if |s| > 1 {
        ReadSize(s[2..], reader);
        OneMore(s[1], Read(s[2..], reader));
      }
    } else {
      ReadSize(s[1..], reader);
      OneMore(s[0], Read(s[1..], reader));
    }
  }

  lemma {:induction false} OneMore(c: char, r: Literal)
    ensures r.Closed? ==>
              && Prefixed(c, r).value[1..] == r.value
              && forall d :: Occurrences(Prefixed(c, r).value, d) == (if c == d then 1 else 0) + Occurrences(r.value, d)
  {
    if r.Closed? {
      assert ([c] + r.value)[1..] == r.value;
    }
  }

  // Up to its first quote an argument reads as itself; there a standard
  // reader of the backslash form finds a backslash.
  lemma {:induction false} SlashedQuote(s: string, rest: string)
    requires '\'' in s
    ensures var r := Read(EscapedAll(s, Slashed) + ("'" + rest), Standard);
            r.Closed? ==> !(|r.value| >= |s| && r.value[..|s|] == s)
  {
    var t := EscapedAll(s, Slashed) + ("'" + rest);
    var c, more := EscapedChar(s[0], Slashed), EscapedAll(s[1..], Slashed) + ("'" + rest);
    assert t == c + more;
    if s[0] == '\'' {
      assert t[0] == '\\';
    } else {
      assert s == [s[0]] + s[1..];
      SlashedQuote(s[1..], rest);
      assert t[1..] == more;
      var r := Read(more, Standard);
      if r.Closed? {
        SameStart(s, r.value);
      }
    }
  }

  lemma SameStart(s: string, v: string)
    requires s != ""
    ensures |v| + 1 >= |s| && ([s[0]] + v)[..|s|] == s ==> v[..|s| - 1] == s[1..]
  {
    if |v| + 1 >= |s| {
      assert v[..|s| - 1] == ([s[0]] + v)[..|s|][1..];
    }
  }

  // For each conversion and each reader: the literal reads back as the
  // argument, and ends where the conversion ends it, if and only if the
  // argument has none of the characters that the reader takes otherwise.
  lemma {:induction false} ReadsBackExactly(s: string, style: Style, reader: Reader, rest: string)
    requires Ends(rest)
    ensures ReadsBack(s, style, reader, rest) <==> Safe(s, style, reader)
  {
    assert s[..|s|] == s;
    if Safe(s, style, reader) {
      SafeReads(s, style, reader, rest);
    } else if ReadsBack(s, style, reader, rest) {
      var t := EscapedAll(s, style) + ("'" + rest);
      EscapedSize(s, style);
      ReadSize(t, reader);
      NoOccurrence(s, '\\');
      if style == Slashed && reader == Standard {
        SlashedQuote(s, rest);
      }
      assert false;
    }
  }

  // %Q: the converted text and anything behind it.
  lemma {:induction false} QuotedReadsBack(s: string, rest: string)
    requires Ends(rest)
    ensures var t := Converted(Text(s), Quoted) + rest;
            t[0] == '\'' && Read(t[1..], Standard) == Closed(s, rest)
  {
    SafeReads(s, Quoted, Standard, rest);
    assert (Converted(Text(s), Quoted) + rest)[1..] == EscapedAll(s, Quoted) + ("'" + rest);
  }

  // ----- undoing it, without a reader -----

  // Two characters that stand for the second.
  predicate Pair(a: char, b: char, style: Style) {
    if style == Slashed then a == '\\' && b == '\'' else a == b && Special(a, style)
  }

  function Undone(s: string, style: Style): string {
    if s == "" then ""
    else if |s| > 1 && Pair(s[0], s[1], style) then [s[1]] + Undone(s[2..], style)
    else [s[0]] + Undone(s[1..], style)
  }

  // Halving the doubled characters gives the argument back.
  lemma {:induction false} UndoneEscaped(s: string, style: Style)
    ensures Undone(EscapedAll(s, style), style) == s
  {
    if s != "" {
      var rest := EscapedAll(s[1..], style);
      var e := EscapedAll(s, style);
      UndoneEscaped(s[1..], style);
      assert [s[0]] + s[1..] == s;
      if Special(s[0], style) {
        assert e[2..] == rest;
      } else {
        assert e[1..] == rest;
        NoQuoteFirst(s[1..], style);
      }
    }
  }

  // An escaped text for %y never starts with a bare quote.
  lemma {:induction false} NoQuoteFirst(s: string, style: Style)
    ensures style == Slashed && s != "" ==> EscapedAll(s, style)[0] != '\''
  {
  }
}

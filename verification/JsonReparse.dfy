/** What the parser returns can always be printed and parsed again. */
module JsonReparse {
  import opened CStrings
  import opened Json
  import opened JsonBounds
  import JsonRoundTrip

  lemma {:induction false} EscapePlain(s: string)
    requires s != "" && NulFree(s)
    ensures NulFree(Escape(s).0)
  {
    hide Utf8, Hex4, Combine;
    if s[0] == 'u' && IsHex4(s[1..]) {
      var u := Hex4(s[1..]);
      if u != 0 {
        Utf8Plain(u);
      }
      if IsHigh(u) && |s| >= 7 && IsHex4(s[7..]) {
        Utf8Plain(Combine(u, Hex4(s[7..])));
      }
    }
  }

  lemma {:induction false} Utf8Plain(u: nat)
    requires 0 < u < 0x11_0000
    ensures NulFree(Utf8(u))
  {
    forall i | 0 <= i < |Utf8(u)| ensures Utf8(u)[i] != '\0' {
      assert Utf8(u)[i] as int != 0;
    }
  }

  lemma {:induction false} UnescapePlain(s: string)
    requires !ScanOverruns(s) && NulFree(s)
    ensures NulFree(Unescape(s).0)
    decreases |s|
  {
    if s == "" || s[0] == '\"' {
    } else if s[0] != '\\' {
      UnescapePlain(s[1..]);
    } else {
      ScanAcrossEscape(s[1..]);
      EscapePlain(s[1..]);
      EscapeTail(s[1..]);
      hide Escape;
      UnescapePlain(Escape(s[1..]).1);
    }
  }

  lemma {:induction false} StringPlain(s: string)
    requires NulFree(s)
    ensures ParseString(s).Ok? ==> NulFree(ParseString(s).value) && NulFree(ParseString(s).rest)
  {
    StringFine(s);
    if StartsWith(s, '\"') && !ScanOverruns(s[1..]) {
      UnescapePlain(s[1..]);
    }
  }

  // Behind r, blanks and one more character.
  lemma {:induction false} NextPlain(r: string)
    requires NulFree(r)
    ensures NulFree(Skip(r)) && (Skip(r) != "" ==> NulFree(Skip(Skip(r)[1..])))
  {
    SkipTail(r);
    if Skip(r) != "" {
      SkipTail(Skip(r)[1..]);
    }
  }

  lemma {:induction false} ValuePlain(s: string)
    requires NulFree(s)
    ensures ParseValue(s).Ok? ==> Plain(ParseValue(s).value) && NulFree(ParseValue(s).rest)
    decreases |s|, 1
  {
    hide ParseString, ParseArray, ParseObject, Skip;
    StringPlain(s);
    ValueFine(s);
    if StartsWith(s, '[') {
      ArrayPlain(s);
    } else if StartsWith(s, '{') {
      ObjectPlain(s);
    }
  }

  lemma {:induction false} ArrayPlain(s: string)
    requires NulFree(s) && StartsWith(s, '[')
    ensures ParseArray(s).Ok? ==> PlainItems(ParseArray(s).value)
    decreases |s|, 0
  {
    hide ParseItems;
    NextPlain(s[1..]);
    ItemsPlain(Skip(s[1..]));
  }

  lemma {:induction false} ItemsPlain(s: string)
    requires NulFree(s)
    ensures ParseItems(s).Ok? ==> PlainItems(ParseItems(s).value)
    decreases |s|, 2
  {
    hide ParseValue, Skip;
    ValuePlain(s);
    if ParseValue(s).Ok? {
      var s2 := Skip(ParseValue(s).rest);
      NextPlain(ParseValue(s).rest);
      if StartsWith(s2, ',') {
        ItemsPlain(Skip(s2[1..]));
      }
    }
  }

  lemma {:induction false} ObjectPlain(s: string)
    requires NulFree(s) && StartsWith(s, '{')
    ensures ParseObject(s).Ok? ==> PlainMembers(ParseObject(s).value)
    decreases |s|, 0
  {
    hide ParseMembers;
    NextPlain(s[1..]);
    MembersPlain(Skip(s[1..]));
  }

  lemma {:induction false} MemberPlain(s: string)
    requires NulFree(s)
    ensures ParseMember(s).Ok? ==>
              var r := ParseMember(s);
              NulFree(r.value.0) && Plain(r.value.1) && NulFree(r.rest)
    decreases |s|, 2
  {
    hide ParseString, ParseValue, Skip;
    StringPlain(s);
    if ParseString(s).Ok? {
      var s2 := Skip(ParseString(s).rest);
      NextPlain(ParseString(s).rest);
      if StartsWith(s2, ':') {
        ValuePlain(Skip(s2[1..]));
      }
    }
  }

  lemma {:induction false} MembersPlain(s: string)
    requires NulFree(s)
    ensures ParseMembers(s).Ok? ==> PlainMembers(ParseMembers(s).value)
    decreases |s|, 3
  {
    hide ParseMember, Skip;
    MemberPlain(s);
    if ParseMember(s).Ok? {
      var s2 := Skip(ParseMember(s).rest);
      NextPlain(ParseMember(s).rest);
      if StartsWith(s2, ',') {
        MembersPlain(Skip(s2[1..]));
      }
    }
  }

  // Whatever the parser made of a text, printing that and parsing the
  // print gives the same value.
  lemma {:induction false} Reparse(s: string, fmt: bool)
    requires NulFree(s) && Parse(s).Ok?
    ensures Plain(Parse(s).value)
    ensures Parse(Print(Parse(s).value, 0, fmt)) == Ok(Parse(s).value, "")
  {
    NextPlain(s);
    ValuePlain(Skip(s));
    JsonRoundTrip.RoundTrip(Parse(s).value, fmt);
  }
}

/** C strings: bytes, a zero byte behind them, and buffers they are written to. */
module CStrings {
  // A character stands for one byte; a C string holds no zero byte.
  ghost predicate NulFree(s: string) {
    forall i | 0 <= i < |s| :: s[i] != '\0'
  }

  // The array holds s and a zero byte behind it.
  ghost predicate IsCString(a: array<char>, s: string)
    reads a
  {
    |s| < a.Length && a[..|s|] == s && a[|s|] == '\0' && NulFree(s)
  }

  method StrLen(a: array<char>, ghost s: string) returns (n: nat)
    requires IsCString(a, s)
    ensures n == |s|
  {
    n := 0;
    assert forall k | 0 <= k < |s| :: a[k] == a[..|s|][k] == s[k];
    while a[n] != '\0'
      invariant n <= |s|
      decreases |s| - n
    {
      n := n + 1;
    }
  }

  // What has been written so far.
  ghost predicate Begins(out: array<char>, at: nat, s: string)
    reads out
  {
    at == |s| <= out.Length && out[..at] == s
  }

  // Copies a string and its zero byte.
  method StrCpy(out: array<char>, at: nat, a: array<char>, ghost s: string, ghost done: string)
    requires IsCString(a, s) && a != out && at + |s| + 1 <= out.Length && Begins(out, at, done)
    modifies out
    ensures Begins(out, at + |s|, done + s) && out[at + |s|] == '\0'
  {
    var n := 0;
    assert forall k | 0 <= k < |s| :: a[k] == a[..|s|][k] == s[k];
    while a[n] != '\0'
      invariant n <= |s| && out[..at + n] == done + s[..n]
      invariant IsCString(a, s)
      decreases |s| - n
    {
      out[at + n] := a[n];
      n := n + 1;
    }
    out[at + n] := '\0';
    assert s[..|s|] == s;
  }

  // Writes one character.
  method Put(out: array<char>, at: nat, c: char, ghost done: string) returns (next: nat)
    requires Begins(out, at, done) && at < out.Length
    modifies out
    ensures next == at + 1 && Begins(out, next, done + [c])
  {
    out[at] := c;
    next := at + 1;
  }

  // Writes a zero byte behind what has been written.
  method Terminate(out: array<char>, at: nat, ghost done: string)
    requires Begins(out, at, done) && at < out.Length
    modifies out
    ensures Begins(out, at, done) && (NulFree(done) ==> IsCString(out, done))
  {
    out[at] := '\0';
  }

  lemma Start(out: array<char>)
    ensures Begins(out, 0, "")
  {
  }
}

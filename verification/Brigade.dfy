/** Bucket brigades: writing, splitting, measuring and reading them. */
module Brigades {
  import opened Basics
  import opened Buckets

  const BUFF_SIZE := 8000
  const LF: Byte := 10

  type Contents = map<Bucket, seq<Byte>>

  ghost predicate Owns(bs: seq<Bucket>, bytes: Contents) {
    && (forall b | b in bs :: b in bytes)
    && (forall i, j | 0 <= i < j < |bs| :: bs[i] != bs[j])
  }

  // What a brigade holds.
  ghost function Text(bs: seq<Bucket>, bytes: Contents): seq<Byte>
    requires forall b | b in bs :: b in bytes
  {
    if bs == [] then [] else bytes[bs[0]] + Text(bs[1..], bytes)
  }

  lemma {:induction false} TextConcat(bs: seq<Bucket>, cs: seq<Bucket>, bytes: Contents)
    requires forall b | b in bs + cs :: b in bytes
    ensures forall b | b in bs || b in cs :: b in bytes
    ensures Text(bs + cs, bytes) == Text(bs, bytes) + Text(cs, bytes)
  {
    assert forall b | b in bs || b in cs :: b in bs + cs;
    if bs == [] {
      assert bs + cs == cs;
    } else {
      assert (bs + cs)[0] == bs[0] && (bs + cs)[1..] == bs[1..] + cs;
      TextConcat(bs[1..], cs, bytes);
    }
  }

  lemma {:induction false} TextNone(bs: seq<Bucket>, bytes: Contents)
    requires forall b | b in bs :: b in bytes
    ensures bs[..0] == [] && Text(bs[..0], bytes) == []
  {
  }

  lemma {:induction false} TextOneMore(bs: seq<Bucket>, bytes: Contents, i: nat)
    requires i < |bs| && forall b | b in bs :: b in bytes
    ensures Text(bs[..i + 1], bytes) == Text(bs[..i], bytes) + bytes[bs[i]]
  {
    assert bs[..i + 1] == bs[..i] + [bs[i]];
    TextConcat(bs[..i], [bs[i]], bytes);
    assert Text([bs[i]], bytes) == bytes[bs[i]] + Text([], bytes);
  }

  lemma {:induction false} TextPrefix(bs: seq<Bucket>, bytes: Contents, i: nat)
    requires i <= |bs| && forall b | b in bs :: b in bytes
    ensures Text(bs, bytes) == Text(bs[..i], bytes) + Text(bs[i..], bytes)
  {
    assert bs == bs[..i] + bs[i..];
    TextConcat(bs[..i], bs[i..], bytes);
  }

  lemma {:induction false} TextFrame(bs: seq<Bucket>, bytes: Contents, bytes': Contents)
    requires forall b | b in bs :: b in bytes && b in bytes' && bytes'[b] == bytes[b]
    ensures Text(bs, bytes') == Text(bs, bytes)
  {
    if bs != [] {
      TextFrame(bs[1..], bytes, bytes');
    }
  }

  lemma {:induction false} TextPush(bs: seq<Bucket>, bytes: Contents, b: Bucket, content: seq<Byte>)
    requires Owns(bs, bytes) && b !in bytes
    ensures Owns(bs + [b], bytes[b := content])
    ensures Text(bs + [b], bytes[b := content]) == Text(bs, bytes) + content
  {
    TextFrame(bs, bytes, bytes[b := content]);
    TextConcat(bs, [b], bytes[b := content]);
    assert Text([b], bytes[b := content]) == content + Text([], bytes);
  }

  lemma {:induction false} TextLast(bs: seq<Bucket>, bytes: Contents, content: seq<Byte>)
    requires Owns(bs, bytes) && bs != []
    ensures var e := bs[|bs| - 1];
            && Owns(bs, bytes[e := bytes[e] + content])
            && Text(bs, bytes[e := bytes[e] + content]) == Text(bs, bytes) + content
  {
    var front, e := bs[..|bs| - 1], bs[|bs| - 1];
    var bytes' := bytes[e := bytes[e] + content];
    assert bs == front + [e];
    TextConcat(front, [e], bytes);
    TextConcat(front, [e], bytes');
    TextFrame(front, bytes, bytes');
    assert Text([e], bytes) == bytes[e] + Text([], bytes);
    assert Text([e], bytes') == bytes[e] + content + Text([], bytes);
  }

  // Cutting bucket e in two after its first k bytes.
  lemma {:induction false} TextCutParts(front: seq<Bucket>, e: Bucket, back: seq<Bucket>, bytes: Contents,
      bytes': Contents, b: Bucket, k: nat)
    requires forall c | c in front || c in back :: c in bytes && c in bytes' && bytes'[c] == bytes[c]
    requires e in bytes && e in bytes' && b in bytes' && k <= |bytes[e]|
    requires bytes'[e] == bytes[e][..k] && bytes'[b] == bytes[e][k..]
    ensures Text(front + [e] + [b] + back, bytes') == Text(front + [e] + back, bytes)
    ensures Text(front + [e], bytes') == Text(front, bytes) + bytes[e][..k]
  {
    TextOne(e, bytes);
    TextOne(e, bytes');
    TextOne(b, bytes');
    hide Text;
    TextFrame(front, bytes, bytes');
    TextFrame(back, bytes, bytes');
    TextConcat(front, [e], bytes);
    TextConcat(front + [e], back, bytes);
    TextConcat(front, [e], bytes');
    TextConcat(front + [e], [b], bytes');
    TextConcat(front + [e] + [b], back, bytes');
    assert bytes[e] == bytes[e][..k] + bytes[e][k..];
  }

  lemma {:induction false} TextOne(b: Bucket, bytes: Contents)
    requires b in bytes
    ensures Text([b], bytes) == bytes[b]
  {
    assert Text([b], bytes) == bytes[b] + Text([], bytes);
  }

  lemma {:induction false} OwnsCut(bs: seq<Bucket>, bytes: Contents, bytes': Contents, i: nat, b: Bucket)
    requires Owns(bs, bytes) && i < |bs| && b !in bytes && bytes'.Keys == bytes.Keys + {b}
    ensures Owns(bs[..i + 1] + [b] + bs[i + 1..], bytes')
  {
  }

  lemma {:induction false} TextCut(bs: seq<Bucket>, bytes: Contents, bytes': Contents, i: nat, b: Bucket, k: nat)
    requires Owns(bs, bytes) && i < |bs| && b !in bytes && k <= |bytes[bs[i]]|
    requires bytes' == bytes[bs[i] := bytes[bs[i]][..k]][b := bytes[bs[i]][k..]]
    ensures Owns(bs[..i + 1] + [b] + bs[i + 1..], bytes')
    ensures Text(bs[..i + 1] + [b] + bs[i + 1..], bytes') == Text(bs, bytes)
    ensures Text(bs[..i + 1], bytes') == Text(bs[..i], bytes) + bytes[bs[i]][..k]
  {
    var e, front, back := bs[i], bs[..i], bs[i + 1..];
    assert forall c | c in front || c in back :: c != e;
    OwnsCut(bs, bytes, bytes', i, b);
    hide Owns, Text;
    assert bs == front + [e] + back && bs[..i + 1] == front + [e];
    TextCutParts(front, e, back, bytes, bytes', b, k);
  }

  // Exactly str was added: at most the last bucket of bs changed, the
  // buckets behind it are new, and every other bucket holds what it held.
  ghost predicate Appended(bs: seq<Bucket>, bytes: Contents, bs': seq<Bucket>, bytes': Contents, str: seq<Byte>)
    requires Owns(bs, bytes)
  {
    && Owns(bs', bytes') && bs <= bs'
    && bytes'.Keys == bytes.Keys + (set b | b in bs')
    && (forall b | b in bs'[|bs|..] :: b !in bytes)
    && (forall b | b in bytes && (bs == [] || b != bs[|bs| - 1]) :: bytes'[b] == bytes[b])
    && Text(bs', bytes') == Text(bs, bytes) + str
  }

  lemma {:induction false} AppendedPush(bs: seq<Bucket>, bytes: Contents, b: Bucket, content: seq<Byte>)
    requires Owns(bs, bytes) && b !in bytes
    ensures Appended(bs, bytes, bs + [b], bytes[b := content], content)
  {
    hide Text;
    TextPush(bs, bytes, b, content);
    assert (bs + [b])[|bs|..] == [b];
  }

  lemma {:induction false} AppendedLast(bs: seq<Bucket>, bytes: Contents, content: seq<Byte>)
    requires Owns(bs, bytes) && bs != []
    ensures bs[|bs| - 1] in bytes
    ensures Appended(bs, bytes, bs, bytes[bs[|bs| - 1] := bytes[bs[|bs| - 1]] + content], content)
  {
    hide Text;
    TextLast(bs, bytes, content);
  }

  lemma {:induction false} AppendedNone(bs: seq<Bucket>, bytes: Contents)
    requires Owns(bs, bytes)
    ensures Appended(bs, bytes, bs, bytes, [])
  {
  }

  lemma {:induction false} AppendedThen(bs: seq<Bucket>, bytes: Contents, bs1: seq<Bucket>, bytes1: Contents,
      bs2: seq<Bucket>, bytes2: Contents, s: seq<Byte>, t: seq<Byte>)
    requires Owns(bs, bytes) && Appended(bs, bytes, bs1, bytes1, s) && Appended(bs1, bytes1, bs2, bytes2, t)
    ensures Appended(bs, bytes, bs2, bytes2, s + t)
  {
    hide Text;
    assert bs2[|bs|..] == bs1[|bs|..] + bs2[|bs1|..];
    assert Text(bs, bytes) + s + t == Text(bs, bytes) + (s + t);
    assert |bs1| > |bs| ==> bs1[|bs1| - 1] == bs1[|bs|..][|bs1| - |bs| - 1];
    assert |bs1| == |bs| ==> bs1 == bs;
  }

  // ----- scattered input -----

  lemma {:induction false} ConcatSplit(vec: seq<seq<Byte>>, i: nat)
    requires i <= |vec|
    ensures Concat(vec) == Concat(vec[..i]) + Concat(vec[i..])
  {
    if i == |vec| {
      assert vec[..i] == vec;
    } else {
      ConcatSplit(vec[..|vec| - 1], i);
      assert vec[..|vec| - 1][..i] == vec[..i] && vec[..|vec| - 1][i..] == vec[i..][..|vec[i..]| - 1];
    }
  }

  lemma {:induction false} ConcatOneMore(vec: seq<seq<Byte>>, i0: nat, i: nat)
    requires i0 <= i < |vec|
    ensures Concat(vec[i0..i + 1]) == Concat(vec[i0..i]) + vec[i]
  {
    assert vec[i0..i + 1][..i - i0] == vec[i0..i];
  }

  method TotalLength(vec: seq<seq<Byte>>) returns (total: nat)
    ensures total == |Concat(vec)|
  {
    total := 0;
    for i := 0 to |vec|
      invariant total == |Concat(vec[..i])|
    {
      ConcatOneMore(vec, 0, i);
      total := total + |vec[i]|;
    }
    assert vec[..|vec|] == vec;
  }

  // Copies the pieces from number first on behind e's window, up to the
  // first that does not fit into the room there, then lengthens e.
  method Fill(pool: Pool, e: Bucket, vec: seq<seq<Byte>>, first: nat, room: nat) returns (i: nat)
    requires pool.Valid() && e in pool.bytes && e.kind == Heap && e.heap != null && e.heap.refcount == 1
    requires first <= |vec| && e.start + e.length + room <= e.heap.base.Length
    modifies pool, e`heap, e`start, e`length, e.heap.base
    ensures pool.Valid() && pool.Repr() == old(pool.Repr()) && e.heap == old(e.heap)
    ensures first <= i <= |vec| && |Concat(vec[first..i])| <= room
    ensures i < |vec| ==> |Concat(vec[first..i])| + |vec[i]| > room
    ensures pool.bytes == old(pool.bytes)[e := old(pool.bytes)[e] + Concat(vec[first..i])]
  {
    hide Pool.Valid, Window, Concat, ReprOf;
    pool.See(e);
    var off := e.start + e.length;
    i := first;
    assert Concat(vec[first..first]) == [] by { assert vec[first..first] == []; ConcatNone(); }
    while i < |vec|
      invariant pool.Valid() && pool.bf.Keys == old(pool.bf.Keys) && pool.bytes == old(pool.bytes)
      invariant first <= i <= |vec| && off == e.start + e.length + |Concat(vec[first..i])|
      invariant off <= e.start + e.length + room
      invariant Window(e.heap.base[..], e.start, off - e.start) == pool.bytes[e] + Concat(vec[first..i])
      modifies pool`bf, e.heap.base
    {
      if off + |vec[i]| > e.start + e.length + room {
        break;
      }
      ghost var was := e.heap.base[..];
      pool.WriteAt(e, off, vec[i]);
      AppendedWindow(was, e.heap.base[..], e.start, off, vec[i]);
      ConcatOneMore(vec, first, i);
      off := off + |vec[i]|;
      i := i + 1;
    }
    pool.SetWindow(e, e.start, off - e.start);
    assert pool.bytes.Keys == old(pool.bytes.Keys);
  }

  lemma ConcatNone()
    ensures Concat<Byte>([]) == []
  {
  }

  lemma {:induction false} AllFit(vec: seq<seq<Byte>>, first: nat, i: nat, room: nat)
    requires first <= i <= |vec| && |Concat(vec[first..])| <= room
    requires i < |vec| ==> |Concat(vec[first..i])| + |vec[i]| > room
    ensures i == |vec| && vec[first..i] == vec[first..]
  {
    if i < |vec| {
      ConcatSplit(vec[first..], i + 1 - first);
      assert vec[first..][..i + 1 - first] == vec[first..i + 1];
      ConcatOneMore(vec, first, i);
      assert false;
    }
  }

  // The buffer begins with a bytes of the text; behind them it is as it was.
  ghost predicate Flat(c: array<Byte>, all: seq<Byte>, was: seq<Byte>, a: nat)
    reads c
  {
    a <= |all| && |was| == c.Length && a <= c.Length && c[..] == all[..a] + was[a..]
  }

  lemma FlatNone(c: array<Byte>, all: seq<Byte>)
    ensures Flat(c, all, c[..], 0)
  {
  }

  lemma FlatIs(c: array<Byte>, all: seq<Byte>, was: seq<Byte>, a: nat)
    requires Flat(c, all, was, a)
    ensures a <= |all| && a <= |was| && c[..] == all[..a] + was[a..]
  {
  }

  // Copies the next bytes of the text, as far as they fit.
  method CopyPart(c: array<Byte>, at: nat, str: seq<Byte>, len: nat, ghost all: seq<Byte>,
      ghost was: seq<Byte>) returns (n: nat)
    requires Flat(c, all, was, at) && at <= len <= c.Length
    requires at + |str| <= |all| && all[at..at + |str|] == str
    modifies c
    ensures n == Min(|str|, len - at) && Flat(c, all, was, at + n)
  {
    n := if |str| + at > len then len - at else |str|;
    ghost var before := c[..];
    PartOf(all, at, str, n);
    Memcpy(c, at, str[..n]);
    FlatStep(all, was, before, c[..], at, str[..n]);
  }

  lemma PartOf(all: seq<Byte>, at: nat, str: seq<Byte>, n: nat)
    requires at + |str| <= |all| && all[at..at + |str|] == str && n <= |str|
    ensures all[at..at + n] == str[..n]
  {
  }

  lemma {:induction false} FlatStep(all: seq<Byte>, was: seq<Byte>, before: seq<Byte>, after: seq<Byte>, a: nat,
      part: seq<Byte>)
    requires a + |part| <= |all| && a + |part| <= |was| && all[a..a + |part|] == part
    requires before == all[..a] + was[a..] && after == before[..a] + part + before[a + |part|..]
    ensures after == all[..a + |part|] + was[a + |part|..]
  {
    assert all[..a + |part|] == all[..a] + part;
  }

  class Brigade {
    var buckets: seq<Bucket>

    constructor ()
      ensures buckets == []
    {
      buckets := [];
    }

    ghost predicate Valid(pool: Pool)
      reads this, pool, pool.bk.Keys, pool.bf.Keys, set s | s in pool.bf :: s.base
    {
      pool.Valid() && Owns(buckets, pool.bytes)
    }

    // The last bucket, if its buffer is a heap buffer of its own, and the
    // room left behind it.
    method LastRoom(pool: Pool) returns (e: Bucket?, remaining: nat)
      requires Valid(pool)
      ensures e == null ==> remaining == BUFF_SIZE
      ensures e != null ==>
                && buckets != [] && e == buckets[|buckets| - 1] && e in pool.bytes
                && e.kind == Heap && e.heap != null && e.heap.refcount == 1
                && e.start + e.length + remaining == e.heap.base.Length
    {
      hide Pool.Valid, Window;
      e, remaining := null, BUFF_SIZE;
      if buckets != [] {
        var last := buckets[|buckets| - 1];
        pool.See(last);
        if last.kind == Heap && last.heap.refcount == 1 {
          e, remaining := last, last.heap.base.Length - (last.length + last.start);
        }
      }
    }

    // Appends an empty bucket with a buffer of its own.
    method NewRoom(pool: Pool) returns (e: Bucket)
      requires Valid(pool)
      modifies this, pool
      ensures Valid(pool) && fresh(e) && buckets == old(buckets) + [e] && pool.bytes == old(pool.bytes)[e := []]
      ensures e.kind == Heap && e.heap != null && fresh(e.heap) && e.heap.refcount == 1
      ensures e.start + e.length + BUFF_SIZE == e.heap.base.Length && fresh(e.heap.base)
      ensures forall o | o in pool.Repr() :: o in old(pool.Repr()) || fresh(o)
      ensures Appended(old(buckets), old(pool.bytes), buckets, pool.bytes, [])
    {
      hide Pool.Valid, Text, Appended, ReprOf;
      e := pool.RoomCreate(BUFF_SIZE);
      AppendedPush(buckets, old(pool.bytes), e, []);
      buckets := buckets + [e];
    }

    // apr_brigade_write without a flush callback.
    method Write(pool: Pool, str: seq<Byte>)
      requires Valid(pool)
      modifies this, pool, pool.Repr()
      ensures Valid(pool) && Appended(old(buckets), old(pool.bytes), buckets, pool.bytes, str)
      ensures forall o | o in pool.Repr() :: o in old(pool.Repr()) || fresh(o)
    {
      hide Pool.Valid, Text, Appended, ReprOf;
      var e, remaining := LastRoom(pool);
      assert pool.Repr() == old(pool.Repr());
      if |str| > remaining {
        e := pool.HeapCreate(str);
        AppendedPush(buckets, old(pool.bytes), e, str);
        buckets := buckets + [e];
      } else if e == null {
        WriteNew(pool, str);
      } else {
        pool.InRepr(e);
        AppendedLast(buckets, pool.bytes, str);
        pool.Extend(e, str);
      }
    }

    method WriteNew(pool: Pool, str: seq<Byte>)
      requires Valid(pool) && |str| <= BUFF_SIZE
      modifies this, pool
      ensures Valid(pool) && Appended(old(buckets), old(pool.bytes), buckets, pool.bytes, str)
      ensures forall o | o in pool.Repr() :: o in old(pool.Repr()) || fresh(o)
    {
      hide Pool.Valid, Text, Appended, ReprOf;
      var e := NewRoom(pool);
      ghost var bytes1 := pool.bytes;
      AppendedLast(buckets, pool.bytes, str);
      pool.Extend(e, str);
      AppendedThen(old(buckets), old(pool.bytes), buckets, bytes1, buckets, pool.bytes, [], str);
      assert [] + str == str;
    }

    // One heap bucket for each piece.
    method WriteEach(pool: Pool, vec: seq<seq<Byte>>)
      requires Valid(pool)
      modifies this, pool
      ensures Valid(pool) && Appended(old(buckets), old(pool.bytes), buckets, pool.bytes, Concat(vec))
      ensures forall o | o in pool.Repr() :: o in old(pool.Repr()) || fresh(o)
    {
      hide Pool.Valid, Text, Appended, ReprOf, Concat;
      ConcatNone();
      AppendedNone(buckets, pool.bytes);
      assert vec[..0] == [];
      for i := 0 to |vec|
        invariant Valid(pool) && Appended(old(buckets), old(pool.bytes), buckets, pool.bytes, Concat(vec[0..i]))
        invariant forall o | o in pool.Repr() :: o in old(pool.Repr()) || fresh(o)
      {
        ghost var bs1, bytes1, repr1 := buckets, pool.bytes, pool.Repr();
        var e := pool.HeapCreate(vec[i]);
        AppendedPush(bs1, bytes1, e, vec[i]);
        buckets := buckets + [e];
        AppendedThen(old(buckets), old(pool.bytes), bs1, bytes1, buckets, pool.bytes, Concat(vec[0..i]), vec[i]);
        ConcatOneMore(vec, 0, i);
        assert forall o | o in pool.Repr() :: o in repr1 || fresh(o);
      }
      assert vec[0..|vec|] == vec;
    }

    // The pieces from number first on, into one new buffer.
    method WriteRest(pool: Pool, vec: seq<seq<Byte>>, first: nat)
      requires Valid(pool) && first <= |vec| && |Concat(vec[first..])| <= BUFF_SIZE
      modifies this, pool
      ensures Valid(pool) && Appended(old(buckets), old(pool.bytes), buckets, pool.bytes, Concat(vec[first..]))
      ensures forall o | o in pool.Repr() :: o in old(pool.Repr()) || fresh(o)
    {
      hide Pool.Valid, Text, Appended, ReprOf, Concat;
      var e := NewRoom(pool);
      ghost var bytes1 := pool.bytes;
      var i := Fill(pool, e, vec, first, BUFF_SIZE);
      AllFit(vec, first, i, BUFF_SIZE);
      AppendedLast(buckets, bytes1, Concat(vec[first..]));
      AppendedThen(old(buckets), old(pool.bytes), buckets, bytes1, buckets, pool.bytes, [], Concat(vec[first..]));
      assert [] + Concat(vec[first..]) == Concat(vec[first..]);
    }

    // apr_brigade_writev without a flush callback.
    method Writev(pool: Pool, vec: seq<seq<Byte>>)
      requires Valid(pool)
      modifies this, pool, pool.Repr()
      ensures Valid(pool) && Appended(old(buckets), old(pool.bytes), buckets, pool.bytes, Concat(vec))
      ensures forall o | o in pool.Repr() :: o in old(pool.Repr()) || fresh(o)
    {
      hide Pool.Valid, Text, Appended, ReprOf, Concat;
      var total := TotalLength(vec);
      if total > BUFF_SIZE {
        WriteEach(pool, vec);
        return;
      }
      var e, remaining := LastRoom(pool);
      assert pool.Repr() == old(pool.Repr());
      assert vec[0..] == vec;
      if e == null {
        WriteRest(pool, vec, 0);
        return;
      }
      pool.InRepr(e);
      var i := Fill(pool, e, vec, 0, remaining);
      ConcatSplit(vec, i);
      assert vec[..i] == vec[0..i];
      AppendedLast(buckets, old(pool.bytes), Concat(vec[..i]));
      if remaining >= total {
        AllFit(vec, 0, i, remaining);
      } else {
        ghost var bytes1 := pool.bytes;
        WriteRest(pool, vec, i);
        AppendedThen(old(buckets), old(pool.bytes), old(buckets), bytes1, buckets, pool.bytes, Concat(vec[..i]),
          Concat(vec[i..]));
      }
    }

    // apr_brigade_length.
    method Length(pool: Pool) returns (total: nat)
      requires Valid(pool)
      ensures total == |Text(buckets, pool.bytes)|
    {
      hide Pool.Valid;
      total := 0;
      for i := 0 to |buckets|
        invariant total == |Text(buckets[..i], pool.bytes)|
      {
        pool.See(buckets[i]);
        TextOneMore(buckets, pool.bytes, i);
        total := total + buckets[i].length;
      }
      assert buckets[..|buckets|] == buckets;
    }

    // apr_brigade_flatten: the first len bytes, as far as there are any.
    method Flatten(pool: Pool, c: array<Byte>, len: nat) returns (actual: nat)
      requires Valid(pool) && len <= c.Length && forall s | s in pool.bf :: s.base != c
      modifies c
      ensures Valid(pool)
      ensures actual == Min(len, |Text(buckets, pool.bytes)|)
      ensures c[..] == Text(buckets, pool.bytes)[..actual] + old(c[..])[actual..]
    {
      hide Pool.Valid, Text, Flat;
      ghost var all, was := Text(buckets, pool.bytes), c[..];
      actual := 0;
      var i := 0;
      TextNone(buckets, pool.bytes);
      FlatNone(c, all);
      while i < |buckets|
        invariant i <= |buckets| && Valid(pool) && Flat(c, all, was, actual)
        invariant actual == |Text(buckets[..i], pool.bytes)| && actual <= len && (actual < len || i == 0)
      {
        var str := pool.Read(buckets[i]);
        TextOneMore(buckets, pool.bytes, i);
        TextPrefix(buckets, pool.bytes, i + 1);
        assert all[actual..actual + |str|] == str;
        var n := CopyPart(c, actual, str, len, all, was);
        actual, i := actual + n, i + 1;
        if actual >= len {
          break;
        }
      }
      assert buckets[..|buckets|] == buckets;
      FlatIs(c, all, was, actual);
    }

    // apr_brigade_cleanup: every bucket is destroyed.
    method Cleanup(pool: Pool)
      requires Valid(pool)
      modifies this, pool, pool.Repr()
      ensures Valid(pool) && buckets == [] && pool.Repr() <= old(pool.Repr())
      ensures pool.bytes == old(pool.bytes) - set b | b in old(buckets)
    {
      hide Pool.Valid, ReprOf;
      ghost var gone := {};
      while buckets != []
        invariant Valid(pool) && pool.Repr() <= old(pool.Repr())
        invariant gone + (set b | b in buckets) == (set b | b in old(buckets))
        invariant pool.bytes == old(pool.bytes) - gone
        decreases |buckets|
      {
        var e := buckets[0];
        pool.InRepr(e);
        assert buckets == [e] + buckets[1..];
        buckets := buckets[1..];
        pool.Destroy(e);
        gone := gone + {e};
      }
    }

    // apr_brigade_split_ex: the buckets from number at on move to a.
    method SplitEx(pool: Pool, at: nat, a: Brigade)
      requires Valid(pool) && a.Valid(pool) && a != this && at <= |buckets|
      requires forall b | b in buckets :: b !in a.buckets
      modifies this, a, pool, pool.Repr()
      ensures Valid(pool) && a.Valid(pool) && pool.Repr() <= old(pool.Repr())
      ensures buckets == old(buckets)[..at] && a.buckets == old(buckets)[at..]
      ensures pool.bytes == old(pool.bytes) - set b | b in old(a.buckets)
      ensures Text(buckets, pool.bytes) + Text(a.buckets, pool.bytes) == old(Text(buckets, pool.bytes))
    {
      hide Pool.Valid, ReprOf, Text;
      a.Cleanup(pool);
      TextFrame(buckets, old(pool.bytes), pool.bytes);
      TextPrefix(buckets, pool.bytes, at);
      a.buckets, buckets := buckets[at..], buckets[..at];
    }

    // Splits bucket i in place after its first k bytes.
    method Cut(pool: Pool, i: nat, k: nat)
      requires Valid(pool) && i < |buckets| && buckets[i].kind != Metadata && k <= |pool.bytes[buckets[i]]|
      modifies this, pool, pool.Repr()
      ensures Valid(pool) && forall o | o in pool.Repr() :: o in old(pool.Repr()) || fresh(o)
      ensures |buckets| == |old(buckets)| + 1 && buckets[..i + 1] == old(buckets)[..i + 1] &&
              buckets[i + 2..] == old(buckets)[i + 1..]
      ensures buckets[i + 1] !in old(pool.bytes)
      ensures var was := old(pool.bytes[buckets[i]]);
              pool.bytes == old(pool.bytes)[buckets[i] := was[..k]][buckets[i + 1] := was[k..]]
      ensures Text(buckets, pool.bytes) == old(Text(buckets, pool.bytes))
      ensures Text(buckets[..i + 1], pool.bytes) == old(Text(buckets[..i], pool.bytes) + pool.bytes[buckets[i]][..k])
      ensures Live(pool.bytes, buckets) == old(Live(pool.bytes, buckets))
    {
      hide Pool.Valid, Text, ReprOf, Live;
      var e := buckets[i];
      pool.InRepr(e);
      pool.See(e);
      var status, b := pool.Split(e, k);
      TextCut(buckets, old(pool.bytes), pool.bytes, i, b, k);
      LiveCut(buckets, old(pool.bytes), pool.bytes, i, b);
      buckets := buckets[..i + 1] + [b] + buckets[i + 1..];
    }

    // apr_brigade_partition: after is the number of the first bucket
    // behind point.
    method Partition(pool: Pool, point: int) returns (status: Status, after: nat)
      requires Valid(pool)
      modifies this, pool, pool.Repr()
      ensures Valid(pool) && forall o | o in pool.Repr() :: o in old(pool.Repr()) || fresh(o)
      ensures Text(buckets, pool.bytes) == old(Text(buckets, pool.bytes)) && after <= |buckets|
      ensures forall b | b in old(pool.bytes) && b !in old(buckets) ::
              b in pool.bytes && pool.bytes[b] == old(pool.bytes)[b]
      ensures status ==
              if point < 0 then EInval else if point > |Text(buckets, pool.bytes)| then Incomplete else Success
      ensures status == Success ==> Text(buckets[..after], pool.bytes) == old(Text(buckets, pool.bytes))[..point]
      ensures status == Incomplete ==> after == |buckets|
      ensures Live(pool.bytes, buckets) == old(Live(pool.bytes, buckets))
    {
      hide Pool.Valid, Text, ReprOf, Live;
      TextNone(buckets, pool.bytes);
      after := 0;
      if point < 0 {
        return EInval, 0;
      }
      if point == 0 {
        return Success, 0;
      }
      var left := point;
      while after < |buckets|
        invariant Valid(pool) && pool.bytes == old(pool.bytes) && pool.Repr() == old(pool.Repr()) &&
                  buckets == old(buckets)
        invariant after <= |buckets| && 0 < left == point - |Text(buckets[..after], pool.bytes)|
      {
        var e := buckets[after];
        pool.See(e);
        TextOneMore(buckets, pool.bytes, after);
        TextPrefix(buckets, pool.bytes, after + 1);
        if left < e.length {
          Cut(pool, after, left);
          return Success, after + 1;
        }
        after := after + 1;
        if left == e.length {
          status := Success;
          return;
        }
        left := left - e.length;
      }
      assert buckets[..|buckets|] == buckets;
      status := Incomplete;
    }
  }

  // ----- lines -----

  ghost function Live(bytes: Contents, bs: seq<Bucket>): set<Bucket> {
    bytes.Keys - set b | b in bs
  }

  lemma {:induction false} LiveCut(bs: seq<Bucket>, bytes: Contents, bytes': Contents, i: nat, b: Bucket)
    requires i < |bs| && b !in bytes && bytes'.Keys == bytes.Keys + {b}
    ensures Live(bytes', bs[..i + 1] + [b] + bs[i + 1..]) == Live(bytes, bs)
  {
    var bs' := bs[..i + 1] + [b] + bs[i + 1..];
    assert forall c | c in bs :: c in bs[..i + 1] || c in bs[i + 1..];
    assert forall c | c in bs' :: c in bs || c == b;
    assert forall c | c in bs :: c in bs';
    assert b in bs';
  }

  // The first |moved| bytes went from one brigade to the other; all other
  // buckets are the same, and hold the same.
  ghost predicate Moved(out0: seq<Bucket>, in0: seq<Bucket>, bytes0: Contents, out: seq<Bucket>,
      in1: seq<Bucket>, bytes: Contents, moved: seq<Byte>)
    requires Owns(out0 + in0, bytes0)
  {
    && Owns(out + in1, bytes)
    && Text(out, bytes) == Text(out0, bytes0) + moved
    && Text(in0, bytes0) == moved + Text(in1, bytes)
    && Live(bytes, out + in1) == Live(bytes0, out0 + in0)
    && (forall b | b in Live(bytes0, out0 + in0) :: b in bytes && bytes[b] == bytes0[b])
  }

  lemma {:induction false} MovedNone(out: seq<Bucket>, in1: seq<Bucket>, bytes: Contents)
    requires Owns(out + in1, bytes)
    ensures Moved(out, in1, bytes, out, in1, bytes, [])
  {
    TextConcat(out, in1, bytes);
    hide Text;
  }

  lemma {:induction false} MovedThen(out0: seq<Bucket>, in0: seq<Bucket>, bytes0: Contents, out: seq<Bucket>,
      in1: seq<Bucket>, bytes: Contents, moved: seq<Byte>, out': seq<Bucket>, in': seq<Bucket>,
      bytes': Contents, more: seq<Byte>)
    requires Owns(out0 + in0, bytes0) && Moved(out0, in0, bytes0, out, in1, bytes, moved) &&
             Moved(out, in1, bytes, out', in', bytes', more)
    ensures Moved(out0, in0, bytes0, out', in', bytes', moved + more)
  {
    hide Text, Live;
    assert Text(out', bytes') == Text(out0, bytes0) + (moved + more);
    assert Text(in0, bytes0) == (moved + more) + Text(in', bytes');
  }

  // The first bucket moves as it is.
  lemma {:induction false} MovedWhole(out: seq<Bucket>, in1: seq<Bucket>, bytes: Contents)
    requires Owns(out + in1, bytes) && in1 != []
    ensures in1[0] in bytes && Moved(out, in1, bytes, out + [in1[0]], in1[1..], bytes, bytes[in1[0]])
  {
    var e := in1[0];
    assert in1 == [e] + in1[1..] && (out + [e]) + in1[1..] == out + in1;
    TextOne(e, bytes);
    hide Text;
    TextConcat(out, in1, bytes);
    TextConcat(out, [e], bytes);
    TextConcat([e], in1[1..], bytes);
  }

  // The first bucket is cut in two.
  lemma {:induction false} MovedCut(out: seq<Bucket>, in1: seq<Bucket>, bytes: Contents, in': seq<Bucket>,
      bytes': Contents, b: Bucket, k: nat)
    requires Owns(out + in1, bytes) && in1 != [] && in1[0] in bytes && b !in bytes && k <= |bytes[in1[0]]|
    requires bytes' == bytes[in1[0] := bytes[in1[0]][..k]][b := bytes[in1[0]][k..]]
    requires in' == [in1[0], b] + in1[1..] && (forall c | c in in' :: c in bytes') &&
             Text(in', bytes') == Text(in1, bytes)
    ensures Moved(out, in1, bytes, out, in', bytes', [])
  {
    hide Text;
    var e := in1[0];
    assert forall i | 0 <= i < |out| :: (out + in1)[i] == out[i];
    assert (out + in1)[|out|] == e;
    assert out + in' == (out + in1)[..|out| + 1] + [b] + (out + in1)[|out| + 1..];
    OwnsCut(out + in1, bytes, bytes', |out|, b);
    TextFrame(out, bytes, bytes');
    assert bytes'.Keys == bytes.Keys + {b};
    assert forall c | c in out + in' :: c == b || c in out + in1;
    assert forall c | c in out + in1 :: c in out + in';
    assert Live(bytes', out + in') == Live(bytes, out + in1);
  }

  // The first bucket's bytes are copied and the bucket destroyed.
  lemma {:induction false} MovedCopy(out: seq<Bucket>, in1: seq<Bucket>, bytes: Contents, out': seq<Bucket>,
      bytes1: Contents)
    requires Owns(out + in1, bytes) && in1 != [] && in1[0] in bytes && Owns(out, bytes)
    requires Appended(out, bytes, out', bytes1, bytes[in1[0]])
    ensures Moved(out, in1, bytes, out', in1[1..], bytes1 - {in1[0]}, bytes[in1[0]])
  {
    var e, rest := in1[0], in1[1..];
    var bytes' := bytes1 - {e};
    TextOne(e, bytes);
    hide Text;
    assert in1 == [e] + rest;
    TextConcat([e], rest, bytes);
    OwnsCopy(out, in1, bytes, out', bytes1);
    TextFrame(rest, bytes, bytes');
    TextFrame(out', bytes1, bytes');
    LiveCopy(out, in1, bytes, out', bytes1);
  }

  lemma {:induction false} OwnsCopy(out: seq<Bucket>, in1: seq<Bucket>, bytes: Contents, out': seq<Bucket>,
      bytes1: Contents)
    requires Owns(out + in1, bytes) && in1 != [] && in1[0] in bytes && Owns(out, bytes)
    requires Appended(out, bytes, out', bytes1, bytes[in1[0]])
    ensures in1[0] !in out' && Owns(out' + in1[1..], bytes1 - {in1[0]})
    ensures forall b | b in in1[1..] :: b in bytes && b in bytes1 && b != in1[0] && b !in out && bytes1[b] == bytes[b]
  {
    hide Text;
    var all, n := out + in1, |out|;
    assert forall i | 0 <= i < n :: all[i] == out[i];
    assert forall i | 0 <= i < |in1| :: all[n + i] == in1[i];
    assert forall b | b in out' :: b in out || b in out'[n..];
    OwnsJoin(out', in1[1..], bytes1 - {in1[0]});
  }

  lemma {:induction false} OwnsJoin(bs: seq<Bucket>, cs: seq<Bucket>, bytes: Contents)
    requires Owns(bs, bytes) && Owns(cs, bytes) && forall b | b in bs :: b !in cs
    ensures Owns(bs + cs, bytes)
  {
    forall i, j | 0 <= i < j < |bs + cs| ensures (bs + cs)[i] != (bs + cs)[j] {
      if i < |bs| <= j {
        assert (bs + cs)[i] in bs && (bs + cs)[j] == cs[j - |bs|];
      }
    }
  }

  lemma {:induction false} LiveCopy(out: seq<Bucket>, in1: seq<Bucket>, bytes: Contents, out': seq<Bucket>,
      bytes1: Contents)
    requires Owns(out + in1, bytes) && in1 != [] && in1[0] in bytes && Owns(out, bytes)
    requires Appended(out, bytes, out', bytes1, bytes[in1[0]])
    ensures Live(bytes1 - {in1[0]}, out' + in1[1..]) == Live(bytes, out + in1)
    ensures forall b | b in Live(bytes, out + in1) :: b in bytes1 && b != in1[0] && bytes1[b] == bytes[b]
  {
    hide Text;
    assert in1 == [in1[0]] + in1[1..];
    assert forall b | b in out' :: b in out || b in out'[|out|..];
    assert forall b | b in out :: b in out';
  }

  method IndexOfLf(str: seq<Byte>) returns (pos: nat)
    ensures pos <= |str| && LF !in str[..pos] && (pos < |str| ==> str[pos] == LF)
  {
    pos := 0;
    while pos < |str| && str[pos] != LF
      invariant pos <= |str| && LF !in str[..pos]
    {
      pos := pos + 1;
    }
  }

  lemma {:induction false} OwnsParts(bs: seq<Bucket>, cs: seq<Bucket>, bytes: Contents)
    requires Owns(bs + cs, bytes)
    ensures Owns(bs, bytes) && Owns(cs, bytes) && forall b | b in bs :: b !in cs
  {
    assert forall i | 0 <= i < |bs| :: (bs + cs)[i] == bs[i];
    assert forall i | 0 <= i < |cs| :: (bs + cs)[|bs| + i] == cs[i];
  }

  // The first bucket's first k bytes move.
  method MoveCut(pool: Pool, bbOut: Brigade, bbIn: Brigade, k: nat)
    requires pool.Valid() && bbOut != bbIn && Owns(bbOut.buckets + bbIn.buckets, pool.bytes) && bbIn.buckets != []
    requires bbIn.buckets[0] in pool.bytes && bbIn.buckets[0].kind != Metadata && k <= |pool.bytes[bbIn.buckets[0]]|
    modifies bbOut, bbIn, pool, pool.Repr()
    ensures pool.Valid() && Owns(bbOut.buckets + bbIn.buckets, pool.bytes)
    ensures Moved(old(bbOut.buckets), old(bbIn.buckets), old(pool.bytes), bbOut.buckets, bbIn.buckets, pool.bytes,
            old(pool.bytes[bbIn.buckets[0]])[..k])
    ensures forall o | o in pool.Repr() :: o in old(pool.Repr()) || fresh(o)
  {
    hide Pool.Valid, Text, ReprOf, Moved, Live;
    OwnsParts(bbOut.buckets, bbIn.buckets, pool.bytes);
    var e := bbIn.buckets[0];
    ghost var out0, in0, bytes0 := bbOut.buckets, bbIn.buckets, pool.bytes;
    bbIn.Cut(pool, 0, k);
    ghost var b, in1, bytes1 := bbIn.buckets[1], bbIn.buckets, pool.bytes;
    assert in1 == [e, b] + in0[1..];
    MovedCut(out0, in0, bytes0, in1, bytes1, b, k);
    MovedOwns(out0, in0, bytes0, out0, in1, bytes1, []);
    MovedWhole(out0, in1, bytes1);
    MovedThen(out0, in0, bytes0, out0, in1, bytes1, [], out0 + [e], in1[1..], bytes1, bytes1[e]);
    MovedOwns(out0, in0, bytes0, out0 + [e], in1[1..], bytes1, [] + bytes1[e]);
    assert [] + bytes1[e] == bytes0[e][..k];
    bbOut.buckets, bbIn.buckets := bbOut.buckets + [e], bbIn.buckets[1..];
  }

  lemma {:induction false} MovedOwns(out0: seq<Bucket>, in0: seq<Bucket>, bytes0: Contents, out: seq<Bucket>,
      in1: seq<Bucket>, bytes: Contents, moved: seq<Byte>)
    requires Owns(out0 + in0, bytes0) && Moved(out0, in0, bytes0, out, in1, bytes, moved)
    ensures Owns(out + in1, bytes)
  {
  }

  // The first bucket's bytes are written, and the bucket destroyed.
  method MoveCopy(pool: Pool, bbOut: Brigade, bbIn: Brigade, str: seq<Byte>)
    requires pool.Valid() && bbOut != bbIn && Owns(bbOut.buckets + bbIn.buckets, pool.bytes) && bbIn.buckets != []
    requires bbIn.buckets[0] in pool.bytes && str == pool.bytes[bbIn.buckets[0]]
    modifies bbOut, bbIn, pool, pool.Repr()
    ensures pool.Valid() && Owns(bbOut.buckets + bbIn.buckets, pool.bytes)
    ensures bbIn.buckets == old(bbIn.buckets)[1..]
    ensures forall b | b in bbIn.buckets ::
              b in old(pool.bytes) && b in pool.bytes && pool.bytes[b] == old(pool.bytes)[b]
    ensures Moved(old(bbOut.buckets), old(bbIn.buckets), old(pool.bytes), bbOut.buckets, bbIn.buckets, pool.bytes, str)
    ensures forall o | o in pool.Repr() :: o in old(pool.Repr()) || fresh(o)
  {
    hide Pool.Valid, Text, ReprOf, Moved, Live, Appended;
    OwnsParts(bbOut.buckets, bbIn.buckets, pool.bytes);
    var e := bbIn.buckets[0];
    ghost var out0, in0, bytes0 := bbOut.buckets, bbIn.buckets, pool.bytes;
    bbIn.buckets := bbIn.buckets[1..];
    AppendedNone(out0, bytes0);
    if |str| > 0 {
      bbOut.Write(pool, str);
    }
    AppendedKeeps(out0, bytes0, bbOut.buckets, pool.bytes, str, e);
    OwnsCopy(out0, in0, bytes0, bbOut.buckets, pool.bytes);
    MovedCopy(out0, in0, bytes0, bbOut.buckets, pool.bytes);
    pool.InRepr(e);
    pool.Destroy(e);
    MovedOwns(out0, in0, bytes0, bbOut.buckets, bbIn.buckets, pool.bytes, str);
  }

  lemma {:induction false} AppendedKeeps(bs: seq<Bucket>, bytes: Contents, bs': seq<Bucket>, bytes': Contents,
      str: seq<Byte>, e: Bucket)
    requires Owns(bs, bytes) && Appended(bs, bytes, bs', bytes', str) && e in bytes
    ensures e in bytes'
  {
  }

  // One turn of the loop: the first bucket, or its part up to a line feed.
  method MoveFirst(pool: Pool, bbOut: Brigade, bbIn: Brigade) returns (found: bool, n: nat, ghost more: seq<Byte>)
    requires pool.Valid() && bbOut != bbIn && Owns(bbOut.buckets + bbIn.buckets, pool.bytes) && bbIn.buckets != []
    modifies bbOut, bbIn, pool, pool.Repr()
    ensures pool.Valid() && Owns(bbOut.buckets + bbIn.buckets, pool.bytes)
    ensures Moved(old(bbOut.buckets), old(bbIn.buckets), old(pool.bytes), bbOut.buckets, bbIn.buckets, pool.bytes, more)
    ensures n == |more|
    ensures found ==> more != [] && LF !in more[..n - 1] && more[n - 1] == LF
    ensures old(bbIn.buckets)[0] in old(pool.bytes) && n <= |old(pool.bytes)[old(bbIn.buckets)[0]]|
    ensures found ==> more == old(pool.bytes)[old(bbIn.buckets)[0]][..n]
    ensures !found ==> LF !in more && bbIn.buckets == old(bbIn.buckets)[1..]
    ensures !found ==> more == old(pool.bytes)[old(bbIn.buckets)[0]]
    ensures !found && old(bbIn.buckets[0].kind) == Metadata ==>
              bbOut.buckets == old(bbOut.buckets) + [old(bbIn.buckets)[0]] && pool.bytes == old(pool.bytes)
    ensures !found ==> forall b | b in bbIn.buckets ::
              b in old(pool.bytes) && b in pool.bytes && pool.bytes[b] == old(pool.bytes)[b]
    ensures forall o | o in pool.Repr() :: o in old(pool.Repr()) || fresh(o)
  {
    hide Pool.Valid, Text, ReprOf, Moved;
    var e := bbIn.buckets[0];
    OwnsParts(bbOut.buckets, bbIn.buckets, pool.bytes);
    var str := pool.Read(e);
    var pos := IndexOfLf(str);
    pool.See(e);
    assert pool.Repr() == old(pool.Repr());
    if pos < |str| {
      MoveCut(pool, bbOut, bbIn, pos + 1);
      return true, pos + 1, str[..pos + 1];
    }
    MovedWhole(bbOut.buckets, bbIn.buckets, pool.bytes);
    MovedOwns(bbOut.buckets, bbIn.buckets, pool.bytes, bbOut.buckets + [e], bbIn.buckets[1..], pool.bytes, str);
    if e.kind == Metadata || |str| > BUFF_SIZE / 4 {
      bbOut.buckets, bbIn.buckets := bbOut.buckets + [e], bbIn.buckets[1..];
    } else {
      MoveCopy(pool, bbOut, bbIn, str);
    }
    return false, |str|, str;
  }

  // How much apr_brigade_split_line moves of the buckets bs: the first k of
  // them whole, and the next one up to a line feed, if there is one. Before
  // bucket k the limit was not reached.
  ghost predicate LineEnds(bs: seq<Bucket>, bytes: Contents, maxbytes: int, k: nat, moved: seq<Byte>)
    requires forall b | b in bs :: b in bytes
  {
    && k <= |bs| && LF !in Text(bs[..k], bytes)
    && (forall j | 0 < j < k :: |Text(bs[..j], bytes)| < maxbytes)
    && (LF !in moved ==>
          moved == Text(bs[..k], bytes) && (k == |bs| || (k > 0 && |moved| >= maxbytes)))
    && (LF in moved ==>
          && k < |bs| && (k > 0 ==> |Text(bs[..k], bytes)| < maxbytes)
          && exists n :: 0 < n <= |bytes[bs[k]]| && bytes[bs[k]][n - 1] == LF && LF !in bytes[bs[k]][..n - 1]
                         && moved == Text(bs[..k], bytes) + bytes[bs[k]][..n])
  }

  // So no more moves than up to the bucket that reaches the limit.
  lemma {:induction false} LineBound(bs: seq<Bucket>, bytes: Contents, maxbytes: int, k: nat, moved: seq<Byte>, j: nat)
    requires (forall b | b in bs :: b in bytes) && LineEnds(bs, bytes, maxbytes, k, moved)
    requires 0 < j <= |bs| && |Text(bs[..j], bytes)| >= maxbytes
    ensures |moved| <= |Text(bs[..j], bytes)|
  {
    hide Text;
    assert j >= k;
    if LF in moved {
      TextOneMore(bs, bytes, k);
      TextGrows(bs, bytes, k + 1, j);
    } else {
      TextGrows(bs, bytes, k, j);
    }
  }

  lemma {:induction false} TextGrows(bs: seq<Bucket>, bytes: Contents, i: nat, j: nat)
    requires i <= j <= |bs| && forall b | b in bs :: b in bytes
    ensures |Text(bs[..i], bytes)| <= |Text(bs[..j], bytes)|
  {
    assert bs[..j][..i] == bs[..i];
    TextPrefix(bs[..j], bytes, i);
  }

  lemma {:induction false} LineWhole(bs: seq<Bucket>, bytes: Contents, maxbytes: int, k: nat)
    requires k <= |bs| && (forall b | b in bs :: b in bytes) && LF !in Text(bs[..k], bytes)
    requires forall j | 0 < j < k :: |Text(bs[..j], bytes)| < maxbytes
    requires k == |bs| || (k > 0 && |Text(bs[..k], bytes)| >= maxbytes)
    ensures LineEnds(bs, bytes, maxbytes, k, Text(bs[..k], bytes))
  {
    hide Text;
  }

  lemma {:induction false} LineFound(bs: seq<Bucket>, bytes: Contents, maxbytes: int, k: nat, n: nat)
    requires k < |bs| && (forall b | b in bs :: b in bytes) && LF !in Text(bs[..k], bytes)
    requires forall j | 0 < j <= k :: |Text(bs[..j], bytes)| < maxbytes
    requires 0 < n <= |bytes[bs[k]]| && bytes[bs[k]][n - 1] == LF && LF !in bytes[bs[k]][..n - 1]
    ensures LineEnds(bs, bytes, maxbytes, k, Text(bs[..k], bytes) + bytes[bs[k]][..n])
  {
    hide Text;
    var part := bytes[bs[k]][..n];
    assert part[n - 1] == LF;
  }

  // The loop has moved the first k buckets whole; the others are as they
  // were.
  ghost predicate Reading(bs: seq<Bucket>, bytes: Contents, rest: seq<Bucket>, bytes1: Contents, maxbytes: int, k: nat,
      moved: seq<Byte>)
  {
    && (forall b | b in bs :: b in bytes)
    && k <= |bs| && rest == bs[k..] && moved == Text(bs[..k], bytes) && LF !in moved
    && (forall b | b in rest :: b in bytes1 && bytes1[b] == bytes[b])
    && (forall j | 0 < j <= k :: |Text(bs[..j], bytes)| < maxbytes)
  }

  lemma {:induction false} ReadingStarts(bs: seq<Bucket>, bytes: Contents, maxbytes: int)
    requires forall b | b in bs :: b in bytes
    ensures Reading(bs, bytes, bs, bytes, maxbytes, 0, [])
  {
    TextNone(bs, bytes);
  }

  lemma {:induction false} ReadingFound(bs: seq<Bucket>, bytes: Contents, rest: seq<Bucket>, bytes1: Contents,
      maxbytes: int, k: nat, moved: seq<Byte>, n: nat)
    requires Reading(bs, bytes, rest, bytes1, maxbytes, k, moved) && rest != [] && rest[0] in bytes1
    requires var str := bytes1[rest[0]]; 0 < n <= |str| && str[n - 1] == LF && LF !in str[..n - 1]
    ensures forall b | b in bs :: b in bytes
    ensures LineEnds(bs, bytes, maxbytes, k, moved + bytes1[rest[0]][..n]) && LF in moved + bytes1[rest[0]][..n]
  {
    hide Text;
    var str := bytes1[rest[0]];
    assert rest[0] == bs[k] && str[..n][n - 1] == LF;
    assert (moved + str[..n])[|moved| + n - 1] == LF;
    LineFound(bs, bytes, maxbytes, k, n);
  }

  lemma {:induction false} ReadingNext(bs: seq<Bucket>, bytes: Contents, rest: seq<Bucket>, bytes1: Contents,
      maxbytes: int, k: nat, moved: seq<Byte>, bytes2: Contents)
    requires Reading(bs, bytes, rest, bytes1, maxbytes, k, moved) && rest != [] && rest[0] in bytes1
    requires LF !in bytes1[rest[0]]
    requires forall b | b in rest[1..] :: b in bytes1 && b in bytes2 && bytes2[b] == bytes1[b]
    ensures var moved' := moved + bytes1[rest[0]];
            && (forall b | b in bs :: b in bytes) && LF !in moved' && k < |bs| && rest[1..] == bs[k + 1..]
            && (|moved'| < maxbytes ==> Reading(bs, bytes, rest[1..], bytes2, maxbytes, k + 1, moved'))
            && (|moved'| >= maxbytes ==> LineEnds(bs, bytes, maxbytes, k + 1, moved'))
  {
    hide Text;
    assert rest[0] == bs[k];
    assert rest == [rest[0]] + rest[1..];
    TextOneMore(bs, bytes, k);
    if |moved + bytes1[rest[0]]| >= maxbytes {
      LineWhole(bs, bytes, maxbytes, k + 1);
    }
  }

  lemma {:induction false} ReadingEnds(bs: seq<Bucket>, bytes: Contents, bytes1: Contents, maxbytes: int, k: nat,
      moved: seq<Byte>)
    requires Reading(bs, bytes, [], bytes1, maxbytes, k, moved)
    ensures (forall b | b in bs :: b in bytes) && k <= |bs| && bs[k..] == [] && LineEnds(bs, bytes, maxbytes, k, moved)
  {
    hide Text;
    LineWhole(bs, bytes, maxbytes, k);
  }

  lemma {:induction false} ReadingPlain(bs: seq<Bucket>, bytes: Contents, rest: seq<Bucket>, bytes1: Contents,
      maxbytes: int, k: nat, moved: seq<Byte>)
    requires Reading(bs, bytes, rest, bytes1, maxbytes, k, moved)
    ensures LF !in moved
  {
  }

  // apr_brigade_split_line, when every bucket can be read.
  method SplitLine(pool: Pool, bbOut: Brigade, bbIn: Brigade, maxbytes: int)
    returns (ghost moved: seq<Byte>, ghost k: nat)
    requires pool.Valid() && bbOut != bbIn && Owns(bbOut.buckets + bbIn.buckets, pool.bytes)
    modifies bbOut, bbIn, pool, pool.Repr()
    ensures pool.Valid()
    ensures Moved(old(bbOut.buckets), old(bbIn.buckets), old(pool.bytes), bbOut.buckets, bbIn.buckets, pool.bytes,
            moved)
    ensures moved != [] ==> LF !in moved[..|moved| - 1]
    ensures LF !in moved ==> bbIn.buckets == [] || |moved| >= maxbytes
    ensures (forall b | b in old(bbIn.buckets) :: b in old(pool.bytes)) &&
            LineEnds(old(bbIn.buckets), old(pool.bytes), maxbytes, k, moved)
    ensures LF !in moved ==> k <= |old(bbIn.buckets)| && bbIn.buckets == old(bbIn.buckets)[k..]
    ensures forall o | o in pool.Repr() :: o in old(pool.Repr()) || fresh(o)
  {
    hide Pool.Valid, Text, ReprOf, Moved, Owns, LineEnds, Reading;
    OwnsIn(bbOut.buckets, bbIn.buckets, pool.bytes);
    ghost var out0, in0, bytes0 := bbOut.buckets, bbIn.buckets, pool.bytes;
    moved, k := [], 0;
    var readbytes := 0;
    MovedNone(out0, in0, bytes0);
    ReadingStarts(in0, bytes0, maxbytes);
    while bbIn.buckets != []
      invariant pool.Valid() && Owns(bbOut.buckets + bbIn.buckets, pool.bytes)
      invariant Moved(out0, in0, bytes0, bbOut.buckets, bbIn.buckets, pool.bytes, moved)
      invariant Reading(in0, bytes0, bbIn.buckets, pool.bytes, maxbytes, k, moved) && readbytes == |moved|
      invariant forall o | o in pool.Repr() :: o in old(pool.Repr()) || fresh(o)
      decreases |bbIn.buckets|
    {
      ghost var more;
      var found, n;
      ghost var out1, in1, bytes1 := bbOut.buckets, bbIn.buckets, pool.bytes;
      ReadingPlain(in0, bytes0, in1, bytes1, maxbytes, k, moved);
      found, n, more := MoveFirst(pool, bbOut, bbIn);
      MovedThen(out0, in0, bytes0, out1, in1, bytes1, moved, bbOut.buckets, bbIn.buckets, pool.bytes, more);
      readbytes := readbytes + n;
      if found {
        ReadingFound(in0, bytes0, in1, bytes1, maxbytes, k, moved, n);
        moved := moved + more;
        return;
      }
      ReadingNext(in0, bytes0, in1, bytes1, maxbytes, k, moved, pool.bytes);
      moved, k := moved + more, k + 1;
      if readbytes >= maxbytes {
        return;
      }
    }
    ReadingPlain(in0, bytes0, bbIn.buckets, pool.bytes, maxbytes, k, moved);
    ReadingEnds(in0, bytes0, pool.bytes, maxbytes, k, moved);
  }

  lemma {:induction false} OwnsIn(bs: seq<Bucket>, cs: seq<Bucket>, bytes: Contents)
    requires Owns(bs + cs, bytes)
    ensures forall b | b in cs :: b in bytes
  {
    OwnsParts(bs, cs, bytes);
  }
}

/** Runs of requests on several brigades that share their buffers. */
module BrigadeRuns {
  import opened Basics
  import opened Brigades
  import opened Buckets

  // Append, AppendAll: apr_brigade_write and apr_brigade_writev. Make: a new
  // bucket over memory nobody writes, at the tail. Copy: each bucket of
  // brigade k is copied to the tail of brigade j. Take: brigade k is cut at
  // point, and what is behind it moves to brigade j. Line: the next line of
  // brigade k moves to brigade j. Drop: brigade k is emptied.
  datatype Request =
    | Append(k: nat, str: seq<Byte>)
    | AppendAll(k: nat, vec: seq<seq<Byte>>)
    | Make(k: nat, kind: Kind, str: seq<Byte>)
    | Copy(k: nat, j: nat)
    | Take(k: nat, j: nat, point: int)
    | Line(k: nat, j: nat, maxbytes: int)
    | Drop(k: nat)

  ghost predicate Proper(r: Request, n: nat) {
    && r.k < n
    && (r.Copy? ==> r.j < n)
    && (r.Take? || r.Line? ==> r.j < n && r.j != r.k)
    && (r.Make? ==> r.kind != Heap && (r.kind == Metadata ==> r.str == []))
  }

  // What a request does to the texts of the brigades. How much of a long
  // line moves depends on the parts, what the buckets of brigade k hold.
  ghost predicate Step(texts: seq<seq<Byte>>, r: Request, parts: seq<seq<Byte>>, texts': seq<seq<Byte>>)
    requires Proper(r, |texts|)
  {
    Concat(parts) == texts[r.k] &&
    match r
    case Append(k, str) => texts' == texts[k := texts[k] + str]
    case AppendAll(k, vec) => texts' == texts[k := texts[k] + Concat(vec)]
    case Make(k, _, str) => texts' == texts[k := texts[k] + str]
    case Copy(k, j) => texts' == texts[j := texts[j] + texts[k]]
    case Take(k, j, point) =>
      texts' == if 0 <= point <= |texts[k]| then texts[k := texts[k][..point]][j := texts[k][point..]] else texts
    case Line(k, j, maxbytes) => exists i: nat, n: nat :: LineStep(texts, k, j, maxbytes, parts, i, n, texts')
    case Drop(k) => texts' == texts[k := []]
  }

  // The first n bytes move: i parts whole, up to the first that reaches
  // maxbytes, and the next up to a line feed, if that comes before.
  ghost predicate LineStep(texts: seq<seq<Byte>>, k: nat, j: nat, maxbytes: int, parts: seq<seq<Byte>>, i: nat, n: nat,
      texts': seq<seq<Byte>>)
    requires k < |texts| && j < |texts|
  {
    && n <= |texts[k]| && texts' == texts[k := texts[k][n..]][j := texts[j] + texts[k][..n]]
    && i <= |parts| && LF !in Concat(parts[..i])
    && (forall h | 0 < h < i :: |Concat(parts[..h])| < maxbytes)
    && (if LF in texts[k][..n] then
          && i < |parts| && (i > 0 ==> |Concat(parts[..i])| < maxbytes)
          && |Concat(parts[..i])| < n <= |Concat(parts[..i + 1])| && LF !in texts[k][..n - 1]
        else
          n == |Concat(parts[..i])| && (i == |parts| || (i > 0 && n >= maxbytes)))
  }

  // What the buckets hold, one by one.
  ghost function Parts(bs: seq<Bucket>, bytes: Contents): seq<seq<Byte>>
    requires forall b | b in bs :: b in bytes
  {
    seq(|bs|, i requires 0 <= i < |bs| => bytes[bs[i]])
  }

  lemma {:induction false} PartsText(bs: seq<Bucket>, bytes: Contents, i: nat)
    requires i <= |bs| && forall b | b in bs :: b in bytes
    ensures Concat(Parts(bs, bytes)[..i]) == Text(bs[..i], bytes)
  {
    if i == 0 {
      TextNone(bs, bytes);
    } else {
      PartsText(bs, bytes, i - 1);
      TextOneMore(bs, bytes, i - 1);
      assert Parts(bs, bytes)[..i][..i - 1] == Parts(bs, bytes)[..i - 1];
    }
  }

  lemma {:induction false} PartsWhole(bs: seq<Bucket>, bytes: Contents)
    requires forall b | b in bs :: b in bytes
    ensures Concat(Parts(bs, bytes)) == Text(bs, bytes)
  {
    PartsText(bs, bytes, |bs|);
    assert bs[..|bs|] == bs && Parts(bs, bytes)[..|bs|] == Parts(bs, bytes);
  }

  lemma {:induction false} LineStepped(texts: seq<seq<Byte>>, k: nat, j: nat, maxbytes: int, bs: seq<Bucket>,
      bytes: Contents, i: nat, moved: seq<Byte>)
    requires k < |texts| && j < |texts| && |moved| <= |texts[k]| && moved == texts[k][..|moved|]
    requires (forall b | b in bs :: b in bytes) && LineEnds(bs, bytes, maxbytes, i, moved)
    requires moved != [] ==> LF !in moved[..|moved| - 1]
    ensures LineStep(texts, k, j, maxbytes, Parts(bs, bytes), i, |moved|,
              texts[k := texts[k][|moved|..]][j := texts[j] + moved])
  {
    hide Text, Concat, Parts;
    var parts := Parts(bs, bytes);
    PartsSize(bs, bytes);
    forall h | 0 <= h <= |bs| ensures Concat(parts[..h]) == Text(bs[..h], bytes) {
      PartsText(bs, bytes, h);
    }
    if LF in moved {
      TextOneMore(bs, bytes, i);
      assert moved != [] && texts[k][..|moved| - 1] == moved[..|moved| - 1];
    }
  }

  lemma {:induction false} PartsSize(bs: seq<Bucket>, bytes: Contents)
    requires forall b | b in bs :: b in bytes
    ensures |Parts(bs, bytes)| == |bs|
  {
  }

  // ----- the brigades at one moment -----

  // Every live bucket is in one brigade, once, and the brigades hold texts.
  ghost predicate Shares(lists: seq<seq<Bucket>>, bytes: Contents, texts: seq<seq<Byte>>) {
    && |texts| == |lists|
    && (forall i | 0 <= i < |lists| :: Owns(lists[i], bytes) && Text(lists[i], bytes) == texts[i])
    && (forall i, j, b | 0 <= i < j < |lists| && b in lists[i] :: b !in lists[j])
    && (forall b | b in bytes :: exists i :: 0 <= i < |lists| && b in lists[i])
  }

  // One brigade changes, and no bucket outside it.
  lemma {:induction false} OneChanged(lists: seq<seq<Bucket>>, bytes: Contents, texts: seq<seq<Byte>>, k: nat,
      l: seq<Bucket>, bytes': Contents, t: seq<Byte>)
    requires Shares(lists, bytes, texts) && k < |lists| && Owns(l, bytes') && Text(l, bytes') == t
    requires Live(bytes', l) == Live(bytes, lists[k])
    requires forall b | b in Live(bytes, lists[k]) :: b in bytes' && bytes'[b] == bytes[b]
    ensures Shares(lists[k := l], bytes', texts[k := t])
  {
    hide Text;
    var lists', texts' := lists[k := l], texts[k := t];
    forall i | 0 <= i < |lists| && i != k
      ensures Owns(lists[i], bytes') && Text(lists[i], bytes') == texts[i] && forall b | b in lists[i] :: b !in l
    {
      Elsewhere(lists, bytes, texts, k, i);
      TextFrame(lists[i], bytes, bytes');
    }
    forall b | b in bytes' ensures exists i :: 0 <= i < |lists'| && b in lists'[i] {
      if b in l {
        assert b in lists'[k];
      } else {
        assert b in Live(bytes, lists[k]);
        var i :| 0 <= i < |lists| && b in lists[i];
        assert b in lists'[i];
      }
    }
  }

  lemma {:induction false} Elsewhere(lists: seq<seq<Bucket>>, bytes: Contents, texts: seq<seq<Byte>>, k: nat, i: nat)
    requires Shares(lists, bytes, texts) && k < |lists| && i < |lists| && i != k
    ensures forall b | b in lists[i] :: b in Live(bytes, lists[k])
  {
    hide Text;
    assert Owns(lists[i], bytes);
  }

  // Two brigades change, and no bucket outside them.
  lemma {:induction false} TwoChanged(lists: seq<seq<Bucket>>, bytes: Contents, texts: seq<seq<Byte>>, k: nat, j: nat,
      l: seq<Bucket>, m: seq<Bucket>, bytes': Contents, t: seq<Byte>, u: seq<Byte>)
    requires Shares(lists, bytes, texts) && k < |lists| && j < |lists| && j != k && Owns(m + l, bytes')
    requires OwnsBoth(m, l, bytes') && Text(l, bytes') == t && Text(m, bytes') == u
    requires Live(bytes', m + l) == Live(bytes, lists[j] + lists[k])
    requires forall b | b in Live(bytes, lists[j] + lists[k]) :: b in bytes' && bytes'[b] == bytes[b]
    ensures Shares(lists[k := l][j := m], bytes', texts[k := t][j := u])
  {
    hide Text;
    var lists', texts' := lists[k := l][j := m], texts[k := t][j := u];
    forall i | 0 <= i < |lists| && i != k && i != j
      ensures Owns(lists[i], bytes') && Text(lists[i], bytes') == texts[i]
      ensures forall b | b in lists[i] :: b !in l && b !in m
    {
      Elsewhere(lists, bytes, texts, k, i);
      Elsewhere(lists, bytes, texts, j, i);
      forall b | b in lists[i] ensures b in Live(bytes, lists[j] + lists[k]) {
      }
      TextFrame(lists[i], bytes, bytes');
    }
    forall b | b in bytes' ensures exists i :: 0 <= i < |lists'| && b in lists'[i] {
      if b in l {
        assert b in lists'[k];
      } else if b in m {
        assert b in lists'[j];
      } else {
        assert b in Live(bytes, lists[j] + lists[k]);
        var i :| 0 <= i < |lists| && b in lists[i];
        assert b in lists'[i];
      }
    }
  }

  ghost predicate OwnsBoth(m: seq<Bucket>, l: seq<Bucket>, bytes: Contents) {
    Owns(m, bytes) && Owns(l, bytes) && forall b | b in m :: b !in l
  }

  lemma {:induction false} AppendedLive(bs: seq<Bucket>, bytes: Contents, bs': seq<Bucket>, bytes': Contents,
      str: seq<Byte>)
    requires Owns(bs, bytes) && Appended(bs, bytes, bs', bytes', str)
    ensures Owns(bs', bytes') && Text(bs', bytes') == Text(bs, bytes) + str
    ensures Live(bytes', bs') == Live(bytes, bs)
    ensures forall b | b in Live(bytes, bs) :: b in bytes' && bytes'[b] == bytes[b]
  {
    hide Text;
    assert bs' == bs + bs'[|bs|..];
    assert forall b | b in bs' :: b in bs || b in bs'[|bs|..];
  }

  // ----- one request -----

  ghost function Lists(bs: seq<Brigade>): seq<seq<Bucket>>
    reads bs
  {
    seq(|bs|, i requires 0 <= i < |bs| reads bs => bs[i].buckets)
  }

  ghost predicate Distinct(bs: seq<Brigade>) {
    forall i, j | 0 <= i < j < |bs| :: bs[i] != bs[j]
  }

  ghost predicate Together(pool: Pool, bs: seq<Brigade>, texts: seq<seq<Byte>>)
    reads bs, pool, pool.bk.Keys, pool.bf.Keys, set s | s in pool.bf :: s.base
  {
    pool.Valid() && Distinct(bs) && Shares(Lists(bs), pool.bytes, texts)
  }

  lemma {:induction false} BrigadeValid(pool: Pool, bs: seq<Brigade>, texts: seq<seq<Byte>>, k: nat)
    requires Together(pool, bs, texts) && k < |bs| == |texts|
    ensures bs[k].Valid(pool) && Text(bs[k].buckets, pool.bytes) == texts[k]
  {
    hide Text, Pool.Valid;
    assert Lists(bs)[k] == bs[k].buckets;
  }

  lemma {:induction false} BrigadesApart(pool: Pool, bs: seq<Brigade>, texts: seq<seq<Byte>>, k: nat, j: nat)
    requires Together(pool, bs, texts) && k < |bs| && j < |bs| && j != k
    ensures bs[j] != bs[k] && OwnsBoth(bs[j].buckets, bs[k].buckets, pool.bytes)
  {
    hide Text, Pool.Valid;
    assert Lists(bs)[k] == bs[k].buckets && Lists(bs)[j] == bs[j].buckets;
  }

  lemma {:induction false} ListChanged(lists: seq<seq<Bucket>>, bs: seq<Brigade>, k: nat)
    requires k < |bs| == |lists| && forall i | 0 <= i < |bs| && i != k :: bs[i].buckets == lists[i]
    ensures Lists(bs) == lists[k := bs[k].buckets]
  {
  }

  lemma {:induction false} ListsChanged(lists: seq<seq<Bucket>>, bs: seq<Brigade>, k: nat, j: nat)
    requires k < |bs| == |lists| && j < |bs|
    requires forall i | 0 <= i < |bs| && i != k && i != j :: bs[i].buckets == lists[i]
    ensures Lists(bs) == lists[k := bs[k].buckets][j := bs[j].buckets]
  {
  }

  // Brigade k has str appended.
  lemma {:induction false} Joined(pool: Pool, bs: seq<Brigade>, lists: seq<seq<Bucket>>, bytes: Contents,
      texts: seq<seq<Byte>>, k: nat, str: seq<Byte>)
    requires Shares(lists, bytes, texts) && pool.Valid() && Distinct(bs) && k < |bs| == |lists|
    requires forall i | 0 <= i < |bs| && i != k :: bs[i].buckets == lists[i]
    requires Owns(lists[k], bytes) && Appended(lists[k], bytes, bs[k].buckets, pool.bytes, str)
    ensures Together(pool, bs, texts[k := texts[k] + str])
  {
    hide Text, Pool.Valid, Appended, Live, Owns;
    AppendedLive(lists[k], bytes, bs[k].buckets, pool.bytes, str);
    OneChanged(lists, bytes, texts, k, bs[k].buckets, pool.bytes, texts[k] + str);
    ListChanged(lists, bs, k);
  }

  method DoAppend(pool: Pool, bs: seq<Brigade>, k: nat, str: seq<Byte>, ghost texts: seq<seq<Byte>>)
    requires Together(pool, bs, texts) && k < |bs| == |texts|
    modifies pool, pool.Repr(), bs[k]
    ensures Together(pool, bs, texts[k := texts[k] + str])
    ensures forall o | o in pool.Repr() :: o in old(pool.Repr()) || fresh(o)
  {
    hide Text, Pool.Valid, Appended, ReprOf, Shares;
    ghost var lists, bytes := Lists(bs), pool.bytes;
    BrigadeValid(pool, bs, texts, k);
    bs[k].Write(pool, str);
    Joined(pool, bs, lists, bytes, texts, k, str);
  }

  method DoAppendAll(pool: Pool, bs: seq<Brigade>, k: nat, vec: seq<seq<Byte>>, ghost texts: seq<seq<Byte>>)
    requires Together(pool, bs, texts) && k < |bs| == |texts|
    modifies pool, pool.Repr(), bs[k]
    ensures Together(pool, bs, texts[k := texts[k] + Concat(vec)])
    ensures forall o | o in pool.Repr() :: o in old(pool.Repr()) || fresh(o)
  {
    hide Text, Pool.Valid, Appended, ReprOf, Shares, Concat;
    ghost var lists, bytes := Lists(bs), pool.bytes;
    BrigadeValid(pool, bs, texts, k);
    bs[k].Writev(pool, vec);
    Joined(pool, bs, lists, bytes, texts, k, Concat(vec));
  }

  lemma {:induction false} ReprMore(ks: set<Bucket>, ss: set<Buffer>, b: Bucket)
    ensures forall o | o in ReprOf(ks + {b}, ss) :: o in ReprOf(ks, ss) || o == b
  {
  }

  method DoMake(pool: Pool, bs: seq<Brigade>, k: nat, kind: Kind, str: seq<Byte>, ghost texts: seq<seq<Byte>>)
    requires Together(pool, bs, texts) && k < |bs| == |texts| && kind != Heap && (kind == Metadata ==> str == [])
    modifies pool, bs[k]
    ensures Together(pool, bs, texts[k := texts[k] + str])
    ensures forall o | o in pool.Repr() :: o in old(pool.Repr()) || fresh(o)
  {
    hide Text, Pool.Valid, Appended, ReprOf, Shares;
    ghost var lists, bytes := Lists(bs), pool.bytes;
    BrigadeValid(pool, bs, texts, k);
    var b := pool.SimpleMake(kind, str);
    ReprMore(bytes.Keys, pool.bf.Keys, b);
    assert pool.bytes.Keys == bytes.Keys + {b};
    AppendedPush(lists[k], bytes, b, str);
    bs[k].buckets := bs[k].buckets + [b];
    Joined(pool, bs, lists, bytes, texts, k, str);
  }

  method DoDrop(pool: Pool, bs: seq<Brigade>, k: nat, ghost texts: seq<seq<Byte>>)
    requires Together(pool, bs, texts) && k < |bs| == |texts|
    modifies pool, pool.Repr(), bs[k]
    ensures Together(pool, bs, texts[k := []]) && pool.Repr() <= old(pool.Repr())
  {
    hide Text, Pool.Valid, ReprOf, Shares;
    ghost var lists, bytes := Lists(bs), pool.bytes;
    BrigadeValid(pool, bs, texts, k);
    bs[k].Cleanup(pool);
    TextNone([], pool.bytes);
    OneChanged(lists, bytes, texts, k, [], pool.bytes, []);
    ListChanged(lists, bs, k);
  }

  // apr_brigade_partition, and apr_brigade_split_ex where it ended.
  method DoTake(pool: Pool, bs: seq<Brigade>, k: nat, j: nat, point: int, ghost texts: seq<seq<Byte>>)
    requires Together(pool, bs, texts) && k < |bs| == |texts| && j < |bs| && j != k
    modifies pool, pool.Repr(), bs[k], bs[j]
    ensures 0 <= point <= |texts[k]| ==> Together(pool, bs, texts[k := texts[k][..point]][j := texts[k][point..]])
    ensures !(0 <= point <= |texts[k]|) ==> Together(pool, bs, texts)
    ensures forall o | o in pool.Repr() :: o in old(pool.Repr()) || fresh(o)
  {
    hide Text, Pool.Valid, ReprOf, Shares, Owns, OwnsBoth;
    var status, after := DoPartition(pool, bs, k, point, texts);
    if status == Success {
      DoSplit(pool, bs, k, j, after, texts, point);
    }
  }

  method DoPartition(pool: Pool, bs: seq<Brigade>, k: nat, point: int, ghost texts: seq<seq<Byte>>)
    returns (status: Status, after: nat)
    requires Together(pool, bs, texts) && k < |bs| == |texts|
    modifies pool, pool.Repr(), bs[k]
    ensures Together(pool, bs, texts) && (status == Success <==> 0 <= point <= |texts[k]|)
    ensures status == Success ==>
              && after <= |bs[k].buckets| && (forall b | b in bs[k].buckets[..after] :: b in pool.bytes)
              && Text(bs[k].buckets[..after], pool.bytes) == texts[k][..point]
    ensures forall o | o in pool.Repr() :: o in old(pool.Repr()) || fresh(o)
  {
    hide Text, Pool.Valid, ReprOf, Shares;
    ghost var lists, bytes := Lists(bs), pool.bytes;
    BrigadeValid(pool, bs, texts, k);
    status, after := bs[k].Partition(pool, point);
    assert lists[k] == old(bs[k].buckets);
    OneChanged(lists, bytes, texts, k, bs[k].buckets, pool.bytes, texts[k]);
    ListChanged(lists, bs, k);
    assert texts[k := texts[k]] == texts;
  }

  method DoSplit(pool: Pool, bs: seq<Brigade>, k: nat, j: nat, at: nat, ghost texts: seq<seq<Byte>>, ghost point: nat)
    requires Together(pool, bs, texts) && k < |bs| == |texts| && j < |bs| && j != k
    requires at <= |bs[k].buckets| && (forall b | b in bs[k].buckets[..at] :: b in pool.bytes) && point <= |texts[k]|
    requires Text(bs[k].buckets[..at], pool.bytes) == texts[k][..point]
    modifies pool, pool.Repr(), bs[k], bs[j]
    ensures Together(pool, bs, texts[k := texts[k][..point]][j := texts[k][point..]])
    ensures pool.Repr() <= old(pool.Repr())
  {
    hide Text, Pool.Valid, ReprOf, Shares, Live;
    ghost var lists, bytes := Lists(bs), pool.bytes;
    BrigadeValid(pool, bs, texts, k);
    BrigadeValid(pool, bs, texts, j);
    BrigadesApart(pool, bs, texts, k, j);
    bs[k].SplitEx(pool, at, bs[j]);
    ghost var l, m := bs[k].buckets, bs[j].buckets;
    SplitApart(lists[k], lists[j], bytes, pool.bytes, at);
    TextFrame(l, bytes, pool.bytes);
    assert Text(l, pool.bytes) == texts[k][..point];
    assert Text(m, pool.bytes) == texts[k][point..] by {
      assert texts[k] == Text(l, pool.bytes) + Text(m, pool.bytes);
    }
    TwoChanged(lists, bytes, texts, k, j, l, m, pool.bytes, texts[k][..point], texts[k][point..]);
    ListsChanged(lists, bs, k, j);
  }

  lemma {:induction false} SplitApart(l: seq<Bucket>, m: seq<Bucket>, bytes: Contents, bytes': Contents, at: nat)
    requires OwnsBoth(m, l, bytes) && at <= |l| && bytes' == bytes - set b | b in m
    ensures OwnsBoth(l[at..], l[..at], bytes') && Owns(l[at..] + l[..at], bytes')
    ensures Live(bytes', l[at..] + l[..at]) == Live(bytes, m + l)
    ensures forall b | b in Live(bytes, m + l) :: b in bytes' && bytes'[b] == bytes[b]
  {
    assert l == l[..at] + l[at..];
    assert forall b :: b in l <==> b in l[..at] || b in l[at..];
    OwnsJoin(l[at..], l[..at], bytes');
  }

  method DoLine(pool: Pool, bs: seq<Brigade>, k: nat, j: nat, maxbytes: int, ghost texts: seq<seq<Byte>>)
    returns (ghost i: nat, ghost n: nat, ghost texts': seq<seq<Byte>>)
    requires Together(pool, bs, texts) && k < |bs| == |texts| && j < |bs| && j != k
    modifies pool, pool.Repr(), bs[k], bs[j]
    ensures Together(pool, bs, texts') && forall b | b in old(bs[k].buckets) :: b in old(pool.bytes)
    ensures LineStep(texts, k, j, maxbytes, Parts(old(bs[k].buckets), old(pool.bytes)), i, n, texts')
    ensures forall o | o in pool.Repr() :: o in old(pool.Repr()) || fresh(o)
  {
    hide Text, Pool.Valid, ReprOf, Shares, Live, Owns, Moved, LineEnds, LineStep, Parts;
    ghost var lists, bytes := Lists(bs), pool.bytes;
    BrigadeValid(pool, bs, texts, k);
    BrigadeValid(pool, bs, texts, j);
    BrigadesApart(pool, bs, texts, k, j);
    OwnsJoin(bs[j].buckets, bs[k].buckets, pool.bytes);
    ghost var moved;
    moved, i := SplitLine(pool, bs[j], bs[k], maxbytes);
    assert lists[k] == old(bs[k].buckets) && lists[j] == old(bs[j].buckets);
    LineMoved(lists[k], lists[j], bytes, bs[k].buckets, bs[j].buckets, pool.bytes, moved);
    assert texts[k] == moved + Text(bs[k].buckets, pool.bytes);
    n := |moved|;
    assert texts[k][..n] == moved && texts[k][n..] == Text(bs[k].buckets, pool.bytes);
    texts' := texts[k := texts[k][n..]][j := texts[j] + moved];
    TwoChanged(lists, bytes, texts, k, j, bs[k].buckets, bs[j].buckets, pool.bytes, texts[k][n..], texts[j] + moved);
    ListsChanged(lists, bs, k, j);
    LineStepped(texts, k, j, maxbytes, lists[k], bytes, i, moved);
  }

  lemma {:induction false} LineMoved(l: seq<Bucket>, m: seq<Bucket>, bytes: Contents, l': seq<Bucket>, m': seq<Bucket>,
      bytes': Contents, moved: seq<Byte>)
    requires Owns(m + l, bytes) && Moved(m, l, bytes, m', l', bytes', moved)
    ensures OwnsBoth(m, l, bytes) && OwnsBoth(m', l', bytes') && Owns(m' + l', bytes')
    ensures (forall b | b in m || b in l :: b in bytes) && (forall b | b in m' || b in l' :: b in bytes')
    ensures Text(m', bytes') == Text(m, bytes) + moved && Text(l, bytes) == moved + Text(l', bytes')
    ensures Live(bytes', m' + l') == Live(bytes, m + l)
    ensures forall b | b in Live(bytes, m + l) :: b in bytes' && bytes'[b] == bytes[b]
    ensures l' == [] ==> Text(l', bytes') == []
  {
    hide Live;
    OwnsParts(m, l, bytes);
    OwnsParts(m', l', bytes');
  }

  // apr_bucket_copy for each bucket of brigade k.
  method DoCopy(pool: Pool, bs: seq<Brigade>, k: nat, j: nat, ghost texts: seq<seq<Byte>>)
    requires Together(pool, bs, texts) && k < |bs| == |texts| && j < |bs|
    modifies pool, pool.Repr(), bs[j]
    ensures Together(pool, bs, texts[j := texts[j] + texts[k]])
    ensures forall o | o in pool.Repr() :: o in old(pool.Repr()) || fresh(o)
  {
    hide Text, Pool.Valid, ReprOf, Shares;
    ghost var bytes := pool.bytes;
    var list := bs[k].buckets;
    BrigadeValid(pool, bs, texts, k);
    TextNone(list, bytes);
    ghost var t := texts;
    assert texts[j] + [] == texts[j];
    for i := 0 to |list|
      invariant Together(pool, bs, t) && t == texts[j := texts[j] + Text(list[..i], bytes)]
      invariant forall b | b in list :: b in pool.bytes && pool.bytes[b] == bytes[b]
      invariant forall o | o in pool.Repr() :: o in old(pool.Repr()) || fresh(o)
    {
      CopyOne(pool, bs, j, list[i], t);
      TextOneMore(list, bytes, i);
      assert texts[j] + Text(list[..i], bytes) + bytes[list[i]] == texts[j] + Text(list[..i + 1], bytes);
      t := t[j := t[j] + bytes[list[i]]];
    }
    assert list[..|list|] == list;
  }

  method CopyOne(pool: Pool, bs: seq<Brigade>, j: nat, a: Bucket, ghost texts: seq<seq<Byte>>)
    requires Together(pool, bs, texts) && j < |bs| == |texts| && a in pool.bytes
    modifies pool, pool.Repr(), bs[j]
    ensures Together(pool, bs, texts[j := texts[j] + old(pool.bytes)[a]])
    ensures forall b | b in old(pool.bytes) :: b in pool.bytes && pool.bytes[b] == old(pool.bytes)[b]
    ensures forall o | o in pool.Repr() :: o in old(pool.Repr()) || fresh(o)
  {
    hide Text, Pool.Valid, Appended, ReprOf, Shares;
    ghost var lists, bytes := Lists(bs), pool.bytes;
    BrigadeValid(pool, bs, texts, j);
    pool.InRepr(a);
    var b := pool.Copy(a);
    ReprMore(bytes.Keys, pool.bf.Keys, b);
    assert pool.bytes.Keys == bytes.Keys + {b};
    AppendedPush(lists[j], bytes, b, bytes[a]);
    bs[j].buckets := bs[j].buckets + [b];
    Joined(pool, bs, lists, bytes, texts, j, bytes[a]);
  }

  // ----- runs -----

  lemma {:induction false} StartsEmpty(pool: Pool, bs: seq<Brigade>)
    requires pool.Valid() && pool.bytes == map[] && Distinct(bs) && forall i | 0 <= i < |bs| :: bs[i].buckets == []
    ensures Together(pool, bs, seq(|bs|, i => []))
  {
    hide Pool.Valid;
    assert forall i | 0 <= i < |bs| :: Lists(bs)[i] == bs[i].buckets;
  }

  // In every run of requests the brigades hold what a run on plain texts
  // gives. Each live bucket is in one brigade; a buffer's reference count
  // is the number of buckets in brigades that use it, and a buffer without
  // such a bucket is gone.
  method Serve(pool: Pool, bs: seq<Brigade>, reqs: seq<Request>, ghost texts: seq<seq<Byte>>)
    returns (ghost trace: seq<seq<seq<Byte>>>, ghost parts: seq<seq<seq<Byte>>>)
    requires Together(pool, bs, texts) && |texts| == |bs| && forall r | r in reqs :: Proper(r, |bs|)
    modifies pool, pool.Repr(), set b | b in bs
    ensures Traced(texts, reqs, trace, parts) && |trace[|reqs|]| == |bs|
    ensures pool.Valid() && forall i | 0 <= i < |bs| ::
            bs[i].Valid(pool) && Text(bs[i].buckets, pool.bytes) == trace[|reqs|][i]
    ensures forall b :: b in pool.bytes <==> exists i :: 0 <= i < |bs| && b in bs[i].buckets
    ensures forall s | s in pool.bf ::
              && !s.freed && s.refcount > 0
              && s.refcount == |set b | b in pool.bytes && b.kind == Heap && b.heap == s|
    ensures (forall i | 0 <= i < |bs| :: bs[i].buckets == []) ==> pool.bf == map[]
  {
    hide Text, Pool.Valid, ReprOf, Shares, Step, Distinct;
    trace, parts := [texts], [];
    for n := 0 to |reqs|
      invariant Traced(texts, reqs[..n], trace, parts) && |trace[n]| == |bs| && Together(pool, bs, trace[n])
      invariant forall o | o in pool.Repr() :: o in old(pool.Repr()) || fresh(o)
    {
      assert reqs[n] in reqs;
      ghost var t, p := DoOne(pool, bs, reqs[n], trace[n]);
      TracedMore(texts, reqs, trace, parts, n, t, p);
      trace, parts := trace + [t], parts + [p];
    }
    assert reqs[..|reqs|] == reqs;
    forall i | 0 <= i < |bs| ensures bs[i].Valid(pool) && Text(bs[i].buckets, pool.bytes) == trace[|reqs|][i] {
      BrigadeValid(pool, bs, trace[|reqs|], i);
    }
    AllInBrigades(pool, bs, trace[|reqs|]);
    forall s | s in pool.bf
      ensures !s.freed && s.refcount > 0 && s.refcount == |set b | b in pool.bytes && b.kind == Heap && b.heap == s|
    {
      pool.RefcountIsUsers(s);
    }
    NothingLeft(pool);
  }

  ghost predicate Traced(texts: seq<seq<Byte>>, reqs: seq<Request>, trace: seq<seq<seq<Byte>>>,
      parts: seq<seq<seq<Byte>>>)
  {
    && |trace| == |reqs| + 1 && |parts| == |reqs| && trace[0] == texts
    && forall n | 0 <= n < |reqs| :: Proper(reqs[n], |trace[n]|) && Step(trace[n], reqs[n], parts[n], trace[n + 1])
  }

  lemma {:induction false} TracedMore(texts: seq<seq<Byte>>, reqs: seq<Request>, trace: seq<seq<seq<Byte>>>,
      parts: seq<seq<seq<Byte>>>, n: nat, t: seq<seq<Byte>>, p: seq<seq<Byte>>)
    requires n < |reqs| && Traced(texts, reqs[..n], trace, parts)
    requires Proper(reqs[n], |trace[n]|) && Step(trace[n], reqs[n], p, t)
    ensures Traced(texts, reqs[..n + 1], trace + [t], parts + [p])
  {
    hide Step, Proper;
    assert forall i | 0 <= i < n :: reqs[..n + 1][i] == reqs[..n][i];
  }

  method DoOne(pool: Pool, bs: seq<Brigade>, r: Request, ghost texts: seq<seq<Byte>>)
    returns (ghost texts': seq<seq<Byte>>, ghost parts: seq<seq<Byte>>)
    requires Together(pool, bs, texts) && |texts| == |bs| && Proper(r, |bs|)
    modifies pool, pool.Repr(), set b | b in bs
    ensures Together(pool, bs, texts') && |texts'| == |bs| && Step(texts, r, parts, texts')
    ensures forall o | o in pool.Repr() :: o in old(pool.Repr()) || fresh(o)
  {
    hide Together, ReprOf, LineStep, Text, Concat, Parts;
    BrigadeHolds(pool, bs, texts, r.k);
    parts := Parts(bs[r.k].buckets, pool.bytes);
    match r {
      case Append(k, str) =>
        texts' := texts[k := texts[k] + str];
        DoAppend(pool, bs, k, str, texts);
      case AppendAll(k, vec) =>
        texts' := texts[k := texts[k] + Concat(vec)];
        DoAppendAll(pool, bs, k, vec, texts);
      case Make(k, kind, str) =>
        texts' := texts[k := texts[k] + str];
        DoMake(pool, bs, k, kind, str, texts);
      case Copy(k, j) =>
        texts' := texts[j := texts[j] + texts[k]];
        DoCopy(pool, bs, k, j, texts);
      case Take(k, j, point) =>
        texts' := if 0 <= point <= |texts[k]| then texts[k := texts[k][..point]][j := texts[k][point..]] else texts;
        DoTake(pool, bs, k, j, point, texts);
      case Line(k, j, maxbytes) =>
        ghost var i, n;
        i, n, texts' := DoLine(pool, bs, k, j, maxbytes, texts);
        LineSame(texts, k, j, maxbytes, parts, i, n, texts');
      case Drop(k) =>
        texts' := texts[k := []];
        DoDrop(pool, bs, k, texts);
    }
  }

  lemma {:induction false} BrigadeHolds(pool: Pool, bs: seq<Brigade>, texts: seq<seq<Byte>>, k: nat)
    requires Together(pool, bs, texts) && k < |bs| == |texts|
    ensures forall b | b in bs[k].buckets :: b in pool.bytes
    ensures Concat(Parts(bs[k].buckets, pool.bytes)) == texts[k]
  {
    hide Text, Pool.Valid, Shares, Concat, Parts;
    BrigadeValid(pool, bs, texts, k);
    PartsWhole(bs[k].buckets, pool.bytes);
  }

  lemma {:induction false} LineSame(texts: seq<seq<Byte>>, k: nat, j: nat, maxbytes: int, parts: seq<seq<Byte>>, i: nat,
      n: nat, texts': seq<seq<Byte>>)
    requires k < |texts| && j < |texts| && LineStep(texts, k, j, maxbytes, parts, i, n, texts')
    ensures |texts'| == |texts|
  {
  }

  lemma {:induction false} AllInBrigades(pool: Pool, bs: seq<Brigade>, texts: seq<seq<Byte>>)
    requires Together(pool, bs, texts)
    ensures forall b :: b in pool.bytes <==> exists i :: 0 <= i < |bs| && b in bs[i].buckets
  {
    hide Text, Pool.Valid;
    assert forall i | 0 <= i < |bs| :: Lists(bs)[i] == bs[i].buckets;
    forall b | b in pool.bytes ensures exists i :: 0 <= i < |bs| && b in bs[i].buckets {
      var i :| 0 <= i < |Lists(bs)| && b in Lists(bs)[i];
      assert b in bs[i].buckets;
    }
  }

  // Without buckets there are no buffers.
  lemma {:induction false} NothingLeft(pool: Pool)
    requires pool.Valid()
    ensures pool.bytes == map[] ==> pool.bf == map[]
  {
    forall s | s in pool.bf ensures pool.bytes != map[] {
      pool.RefcountIsUsers(s);
      var users := set b | b in pool.bytes && b.kind == Heap && b.heap == s;
      assert users != {};
      var b :| b in users;
    }
    assert pool.bf.Keys == {} ==> pool.bf == map[];
  }
}

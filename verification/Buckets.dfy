/** Buckets and the reference-counted buffers they share. */
module Buckets {
  import opened Basics

  datatype Status = Success | NotImpl | EInval | Incomplete

  datatype Kind = Heap | Transient | Immortal | Metadata

  // A heap buffer and the number of buckets that use it.
  class Buffer {
    var refcount: int
    const base: array<Byte>
    var freed: bool
    ghost var owners: set<Bucket>

    constructor (base: array<Byte>)
      ensures this.base == base && refcount == 0 && !freed && owners == {}
    {
      this.base := base;
      refcount, freed, owners := 0, false, {};
    }
  }

  // A window of length bytes from start on: into a heap buffer, or into
  // memory outside the bucket layer, which nobody writes.
  class Bucket {
    var kind: Kind
    var heap: Buffer?
    var outside: seq<Byte>
    var start: nat
    var length: nat

    constructor (kind: Kind, heap: Buffer?, outside: seq<Byte>, start: nat, length: nat)
      ensures this.kind == kind && this.heap == heap && this.outside == outside
      ensures this.start == start && this.length == length
    {
      this.kind, this.heap, this.outside, this.start, this.length := kind, heap, outside, start, length;
    }
  }

  // ----- the fields at one moment -----

  datatype BucketRec = BucketRec(kind: Kind, heap: Buffer?, outside: seq<Byte>, start: nat, length: nat)
  datatype BufferRec = BufferRec(refcount: int, freed: bool, owners: set<Bucket>, data: seq<Byte>)

  type BucketMap = map<Bucket, BucketRec>
  type BufferMap = map<Buffer, BufferRec>

  ghost function RecOf(b: Bucket): BucketRec
    reads b
  {
    BucketRec(b.kind, b.heap, b.outside, b.start, b.length)
  }

  ghost function BufferRecOf(s: Buffer): BufferRec
    reads s, s.base
  {
    BufferRec(s.refcount, s.freed, s.owners, s.base[..])
  }

  ghost function Window(d: seq<Byte>, start: nat, n: nat): seq<Byte>
    requires start + n <= |d|
  {
    d[start..start + n]
  }

  // Bucket b, whose fields are r, holds these bytes.
  ghost predicate Holds(b: Bucket, r: BucketRec, bf: BufferMap, content: seq<Byte>) {
    match r.kind
    case Heap =>
      && r.heap != null && r.heap in bf && b in bf[r.heap].owners
      && r.start + r.length <= |bf[r.heap].data|
      && content == Window(bf[r.heap].data, r.start, r.length)
    case Metadata => r.heap == null && r.length == 0 && content == []
    case _ =>
      && r.heap == null && r.start + r.length <= |r.outside|
      && content == Window(r.outside, r.start, r.length)
  }

  // A buffer's reference count is the number of buckets that use it.
  ghost predicate Counted(s: Buffer, r: BufferRec, bk: BucketMap) {
    && r.refcount == |r.owners| && r.owners != {} && !r.freed
    && forall o | o in r.owners :: o in bk && bk[o].kind == Heap && bk[o].heap == s
  }

  ghost predicate Good(bk: BucketMap, bf: BufferMap, bytes: map<Bucket, seq<Byte>>) {
    && bk.Keys == bytes.Keys
    && (forall b | b in bk :: Holds(b, bk[b], bf, bytes[b]))
    && (forall s | s in bf :: Counted(s, bf[s], bk))
  }

  // ----- one lemma an operation -----

  lemma {:induction false} HoldsKept(c: Bucket, r: BucketRec, bf: BufferMap, bf': BufferMap, content: seq<Byte>)
    requires Holds(c, r, bf, content)
    requires r.kind == Heap && r.heap != null && r.heap in bf ==>
               r.heap in bf' && bf'[r.heap].data == bf[r.heap].data && c in bf'[r.heap].owners
    ensures Holds(c, r, bf', content)
  {
  }

  lemma {:induction false} CountedKept(s: Buffer, r: BufferRec, bk: BucketMap, bk': BucketMap)
    requires Counted(s, r, bk)
    requires forall o | o in bk && o in r.owners :: o in bk' && bk'[o].kind == bk[o].kind && bk'[o].heap == bk[o].heap
    ensures Counted(s, r, bk')
  {
  }

  lemma {:induction false} HoldsHeap(b: Bucket, s: Buffer, out: seq<Byte>, start: nat, n: nat, bf: BufferMap)
    requires s in bf && b in bf[s].owners && start + n <= |bf[s].data|
    ensures Holds(b, BucketRec(Heap, s, out, start, n), bf, Window(bf[s].data, start, n))
  {
  }

  lemma {:induction false} CountedMore(s: Buffer, rec: BufferRec, bk: BucketMap, b: Bucket, r: BucketRec)
    requires Counted(s, rec, bk) && b !in bk && r.kind == Heap && r.heap == s
    ensures b !in rec.owners
    ensures Counted(s, BufferRec(rec.refcount + 1, rec.freed, rec.owners + {b}, rec.data), bk[b := r])
  {
  }

  lemma {:induction false} CountedData(s: Buffer, rec: BufferRec, rec': BufferRec, bk: BucketMap)
    requires Counted(s, rec, bk) && rec' == BufferRec(rec.refcount, rec.freed, rec.owners, rec'.data)
    ensures Counted(s, rec', bk)
  {
  }

  lemma {:induction false} CountedLess(s: Buffer, rec: BufferRec, bk: BucketMap, b: Bucket)
    requires Counted(s, rec, bk) && b in rec.owners && rec.refcount != 1
    ensures Counted(s, BufferRec(rec.refcount - 1, rec.freed, rec.owners - {b}, rec.data), bk - {b})
  {
    assert rec.owners == (rec.owners - {b}) + {b};
  }

  lemma {:induction false} HoldsSimple(b: Bucket, kind: Kind, out: seq<Byte>, start: nat, n: nat, bf: BufferMap)
    requires kind != Heap && start + n <= |out| && (kind == Metadata ==> n == 0)
    ensures Holds(b, BucketRec(kind, null, out, start, n), bf, Window(out, start, n))
  {
  }

  lemma {:induction false} HoldsShrunk(b: Bucket, r: BucketRec, n: nat, bf: BufferMap, content: seq<Byte>)
    requires r.kind != Heap && Holds(b, r, bf, content) && n <= r.length
    ensures |content| == r.length && Holds(b, BucketRec(r.kind, r.heap, r.outside, r.start, n), bf, content[..n])
  {
    if r.kind != Metadata {
      assert content[..n] == Window(r.outside, r.start, n);
    }
  }

  // What Good says about one heap bucket and its buffer.
  lemma {:induction false} HeapFacts(bk: BucketMap, bf: BufferMap, bytes: map<Bucket, seq<Byte>>, e: Bucket)
    requires Good(bk, bf, bytes) && e in bk && bk[e].kind == Heap
    ensures bk[e].heap != null && bk[e].heap in bf
    ensures var s := bk[e].heap;
            && e in bf[s].owners && bk[e].start + bk[e].length <= |bf[s].data|
            && bytes[e] == Window(bf[s].data, bk[e].start, bk[e].length)
            && Counted(s, bf[s], bk)
  {
    assert Holds(e, bk[e], bf, bytes[e]) && Counted(bk[e].heap, bf[bk[e].heap], bk);
  }

  // A buffer with one user is used by that bucket alone.
  lemma {:induction false} SoleOwner(bk: BucketMap, bf: BufferMap, bytes: map<Bucket, seq<Byte>>, e: Bucket)
    requires Good(bk, bf, bytes) && e in bk && bk[e].kind == Heap && bk[e].heap in bf && bf[bk[e].heap].refcount == 1
    ensures bf[bk[e].heap].owners == {e}
    ensures forall b | b in bk && b != e && bk[b].kind == Heap :: bk[b].heap != bk[e].heap
  {
    hide Holds, Window;
    HeapFacts(bk, bf, bytes, e);
    var s := bk[e].heap;
    var rest := bf[s].owners - {e};
    assert bf[s].owners == rest + {e} && |rest| == 0;
    hide Counted;
    forall b | b in bk && b != e && bk[b].kind == Heap ensures bk[b].heap != s {
      HeapFacts(bk, bf, bytes, b);
    }
  }

  lemma {:induction false} MakeHeapGood(bk: BucketMap, bf: BufferMap, bytes: map<Bucket, seq<Byte>>, b: Bucket,
      s: Buffer, data: seq<Byte>, n: nat)
    requires Good(bk, bf, bytes) && b !in bk && s !in bf && n <= |data|
    ensures Good(bk[b := BucketRec(Heap, s, [], 0, n)], bf[s := BufferRec(1, false, {b}, data)],
            bytes[b := Window(data, 0, n)])
  {
    var bk', bf', bytes' := bk[b := BucketRec(Heap, s, [], 0, n)], bf[s := BufferRec(1, false, {b}, data)],
      bytes[b := Window(data, 0, n)];
    forall c | c in bk' ensures Holds(c, bk'[c], bf', bytes'[c]) {
      if c != b { assert Holds(c, bk[c], bf, bytes[c]); }
    }
    forall t | t in bf' ensures Counted(t, bf'[t], bk') {
      if t != s { assert Counted(t, bf[t], bk); }
    }
  }

  // A bucket without a heap buffer is added or changed.
  lemma {:induction false} SimpleGood(bk: BucketMap, bf: BufferMap, bytes: map<Bucket, seq<Byte>>, b: Bucket,
      r: BucketRec, content: seq<Byte>)
    requires Good(bk, bf, bytes) && (b in bk ==> bk[b].kind != Heap)
    requires r.kind != Heap && Holds(b, r, bf, content)
    ensures Good(bk[b := r], bf, bytes[b := content])
  {
    var bk', bytes' := bk[b := r], bytes[b := content];
    forall c | c in bk' ensures Holds(c, bk'[c], bf, bytes'[c]) {
      if c != b { assert Holds(c, bk[c], bf, bytes[c]); }
    }
    forall t | t in bf ensures Counted(t, bf[t], bk') {
      assert Counted(t, bf[t], bk);
    }
  }

  // A heap bucket gets another window of its buffer.
  lemma {:induction false} WindowGood(bk: BucketMap, bf: BufferMap, bytes: map<Bucket, seq<Byte>>, e: Bucket,
      s: Buffer, out: seq<Byte>, start: nat, n: nat)
    requires Good(bk, bf, bytes) && e in bk && bk[e].kind == Heap && bk[e].heap == s && s in bf
    requires start + n <= |bf[s].data|
    ensures Good(bk[e := BucketRec(Heap, s, out, start, n)], bf, bytes[e := Window(bf[s].data, start, n)])
  {
    hide Holds, Counted, Window;
    HeapFacts(bk, bf, bytes, e);
    var r := BucketRec(Heap, s, out, start, n);
    HoldsHeap(e, s, out, start, n, bf);
    forall t | t in bf ensures Counted(t, bf[t], bk[e := r]) {
      CountedKept(t, bf[t], bk, bk[e := r]);
    }
  }

  // b, a new bucket, becomes another user of buffer s.
  lemma {:induction false} ShareGood(bk: BucketMap, bf: BufferMap, bytes: map<Bucket, seq<Byte>>, a: Bucket,
      b: Bucket, rec: BufferRec, out: seq<Byte>, start: nat, n: nat)
    requires Good(bk, bf, bytes) && a in bk && b !in bk && bk[a].kind == Heap && bk[a].heap in bf &&
             bf[bk[a].heap] == rec
    requires start + n <= |rec.data|
    ensures var s := bk[a].heap;
            Good(bk[b := BucketRec(Heap, s, out, start, n)],
              bf[s := BufferRec(rec.refcount + 1, rec.freed, rec.owners + {b}, rec.data)],
                 bytes[b := Window(rec.data, start, n)])
  {
    hide Holds, Counted, Window;
    HeapFacts(bk, bf, bytes, a);
    var s := bk[a].heap;
    var r, rec' := BucketRec(Heap, s, out, start, n),
      BufferRec(rec.refcount + 1, rec.freed, rec.owners + {b}, rec.data);
    var bk', bf' := bk[b := r], bf[s := rec'];
    CountedMore(s, rec, bk, b, r);
    HoldsHeap(b, s, out, start, n, bf');
    forall c | c in bk ensures Holds(c, bk[c], bf', bytes[c]) {
      HeapOrNot(bk, bf, bytes, c);
      HoldsKept(c, bk[c], bf, bf', bytes[c]);
    }
    forall t | t in bf && t != s ensures Counted(t, bf[t], bk') {
      CountedKept(t, bf[t], bk, bk');
    }
  }

  lemma {:induction false} HeapOrNot(bk: BucketMap, bf: BufferMap, bytes: map<Bucket, seq<Byte>>, c: Bucket)
    requires Good(bk, bf, bytes) && c in bk
    ensures bk[c].kind == Heap ==> bk[c].heap != null && bk[c].heap in bf && c in bf[bk[c].heap].owners
  {
    assert Holds(c, bk[c], bf, bytes[c]);
  }

  // A buffer's bytes behind its only user's window are written.
  lemma {:induction false} WriteGood(bk: BucketMap, bf: BufferMap, bytes: map<Bucket, seq<Byte>>, e: Bucket,
      rec: BufferRec, data: seq<Byte>)
    requires Good(bk, bf, bytes) && e in bk && bk[e].kind == Heap && bk[e].heap in bf && bf[bk[e].heap] == rec
    requires rec.refcount == 1 && |data| == |rec.data| && bk[e].start + bk[e].length <= |data|
    requires Window(data, bk[e].start, bk[e].length) == bytes[e]
    ensures Good(bk, bf[bk[e].heap := BufferRec(1, rec.freed, rec.owners, data)], bytes)
  {
    hide Holds, Counted, Window;
    SoleOwner(bk, bf, bytes, e);
    HeapFacts(bk, bf, bytes, e);
    var s := bk[e].heap;
    var rec' := BufferRec(1, rec.freed, rec.owners, data);
    var bf' := bf[s := rec'];
    HoldsHeap(e, s, bk[e].outside, bk[e].start, bk[e].length, bf');
    assert bk[e] == BucketRec(Heap, s, bk[e].outside, bk[e].start, bk[e].length);
    CountedData(s, rec, rec', bk);
    forall c | c in bk && c != e ensures Holds(c, bk[c], bf', bytes[c]) {
      HeapOrNot(bk, bf, bytes, c);
      HoldsKept(c, bk[c], bf, bf', bytes[c]);
    }
  }

  lemma {:induction false} NotUser(t: Buffer, rec: BufferRec, bk: BucketMap, b: Bucket)
    requires Counted(t, rec, bk) && b in bk && bk[b].kind != Heap
    ensures b !in rec.owners
  {
  }

  // A bucket without a heap buffer goes.
  lemma {:induction false} DropSimpleGood(bk: BucketMap, bf: BufferMap, bytes: map<Bucket, seq<Byte>>, b: Bucket)
    requires Good(bk, bf, bytes) && b in bk && bk[b].kind != Heap
    ensures Good(bk - {b}, bf, bytes - {b})
  {
    hide Holds, Counted;
    forall t | t in bf ensures Counted(t, bf[t], bk - {b}) {
      NotUser(t, bf[t], bk, b);
      CountedKept(t, bf[t], bk, bk - {b});
    }
  }

  // A heap bucket goes; its buffer stays if it has other users.
  lemma {:induction false} DropSharedGood(bk: BucketMap, bf: BufferMap, bytes: map<Bucket, seq<Byte>>,
      b: Bucket, rec: BufferRec)
    requires Good(bk, bf, bytes) && b in bk && bk[b].kind == Heap && bk[b].heap in bf && bf[bk[b].heap] == rec
    requires rec.refcount != 1
    ensures Good(bk - {b}, bf[bk[b].heap := BufferRec(rec.refcount - 1, rec.freed, rec.owners - {b}, rec.data)],
            bytes - {b})
  {
    hide Holds, Counted, Window;
    HeapFacts(bk, bf, bytes, b);
    var s := bk[b].heap;
    var rec' := BufferRec(rec.refcount - 1, rec.freed, rec.owners - {b}, rec.data);
    var bk', bf' := bk - {b}, bf[s := rec'];
    CountedLess(s, rec, bk, b);
    forall c | c in bk' ensures Holds(c, bk'[c], bf', bytes[c]) {
      HeapOrNot(bk, bf, bytes, c);
      HoldsKept(c, bk[c], bf, bf', bytes[c]);
    }
    forall t | t in bf && t != s ensures Counted(t, bf[t], bk') {
      NotOwner(bk, bf, bytes, b, t);
      CountedKept(t, bf[t], bk, bk');
    }
  }

  lemma {:induction false} NotOwner(bk: BucketMap, bf: BufferMap, bytes: map<Bucket, seq<Byte>>, b: Bucket, t: Buffer)
    requires Good(bk, bf, bytes) && b in bk && bk[b].heap != t && t in bf
    ensures b !in bf[t].owners && Counted(t, bf[t], bk)
  {
  }

  // A buffer's last user goes, and the buffer with it.
  lemma {:induction false} DropLastGood(bk: BucketMap, bf: BufferMap, bytes: map<Bucket, seq<Byte>>, b: Bucket)
    requires Good(bk, bf, bytes) && b in bk && bk[b].kind == Heap && bk[b].heap in bf && bf[bk[b].heap].refcount == 1
    ensures Good(bk - {b}, bf - {bk[b].heap}, bytes - {b})
  {
    hide Holds, Counted, Window;
    SoleOwner(bk, bf, bytes, b);
    var s := bk[b].heap;
    var bk', bf' := bk - {b}, bf - {s};
    forall c | c in bk' ensures Holds(c, bk'[c], bf', bytes[c]) {
      HeapOrNot(bk, bf, bytes, c);
      HoldsKept(c, bk[c], bf, bf', bytes[c]);
    }
    forall t | t in bf' ensures Counted(t, bf'[t], bk') {
      NotOwner(bk, bf, bytes, b, t);
      CountedKept(t, bf[t], bk, bk');
    }
  }

  // ----- the buckets themselves -----

  method Memcpy(base: array<Byte>, off: nat, str: seq<Byte>)
    requires off + |str| <= base.Length
    modifies base
    ensures base[..] == old(base[..])[..off] + str + old(base[..])[off + |str|..]
  {
    forall i | 0 <= i < |str| {
      base[off + i] := str[i];
    }
  }

  lemma {:induction false} BehindWindow(was: seq<Byte>, now: seq<Byte>, start: nat, n: nat, off: nat, str: seq<Byte>)
    requires start + n <= off && off + |str| <= |was| && now == was[..off] + str + was[off + |str|..]
    ensures Window(now, start, n) == Window(was, start, n)
  {
  }

  lemma {:induction false} WindowParts(d: seq<Byte>, start: nat, n: nat, k: nat)
    requires start + n <= |d| && k <= n
    ensures Window(d, start, k) == Window(d, start, n)[..k]
    ensures Window(d, start + k, n - k) == Window(d, start, n)[k..]
  {
  }

  lemma WholeWindow(d: seq<Byte>)
    ensures Window(d, 0, |d|) == d
  {
  }

  lemma {:induction false} AppendedWindow(was: seq<Byte>, now: seq<Byte>, start: nat, off: nat, str: seq<Byte>)
    requires start <= off && off + |str| <= |was| && now == was[..off] + str + was[off + |str|..]
    ensures Window(now, start, off - start) == Window(was, start, off - start)
    ensures Window(now, start, off - start + |str|) == Window(was, start, off - start) + str
  {
  }

  ghost function ReprOf(bs: set<Bucket>, ss: set<Buffer>): (r: set<object>)
    ensures forall o | o in r :: o is Bucket || o is Buffer || o is array<Byte>
  {
    (set b | b in bs :: b as object) + (set s | s in ss :: s as object) + (set s | s in ss :: s.base as object)
  }

  // All live buckets and buffers. The ghost maps follow the fields.
  class Pool {
    ghost var bytes: map<Bucket, seq<Byte>>  // what each live bucket holds
    ghost var bk: BucketMap
    ghost var bf: BufferMap

    ghost predicate Linked()
      reads this`bk, this`bf, bk.Keys, bf.Keys, set s | s in bf :: s.base
    {
      && (forall b | b in bk :: RecOf(b) == bk[b])
      && (forall s | s in bf :: BufferRecOf(s) == bf[s])
      && (forall s, t | s in bf && t in bf && s != t :: s.base != t.base)
    }

    ghost predicate Valid()
      reads this, bk.Keys, bf.Keys, set s | s in bf :: s.base
    {
      Good(bk, bf, bytes) && Linked()
    }

    constructor ()
      ensures Valid() && bytes == map[] && bf == map[]
    {
      bytes, bk, bf := map[], map[], map[];
    }

    ghost function Repr(): set<object>
      reads this
    {
      ReprOf(bytes.Keys, bf.Keys)
    }

    lemma {:induction false} InRepr(e: Bucket)
      requires Valid() && e in bytes
      ensures e in Repr() && (e.heap != null ==> e.heap in Repr() && e.heap.base in Repr())
    {
      See(e);
      assert e.heap != null ==> e.heap in bf;
    }

    // A live buffer's reference count is the number of live buckets on it.
    lemma {:induction false} RefcountIsUsers(s: Buffer)
      requires Valid() && s in bf
      ensures s.refcount == |set b | b in bytes && b.kind == Heap && b.heap == s| && s.refcount > 0 && !s.freed
    {
      hide Window;
      var users := set b | b in bytes && b.kind == Heap && b.heap == s;
      assert Counted(s, bf[s], bk) && bf[s] == BufferRecOf(s);
      forall b | b in users ensures b in s.owners {
        See(b);
      }
      forall b | b in s.owners ensures b in users {
        assert b in bk && RecOf(b) == bk[b];
      }
      assert users == s.owners;
      assert |s.owners| > 0;
    }

    // ----- single steps: fields and ghost maps together -----

    method NewBucket(kind: Kind, heap: Buffer?, outside: seq<Byte>, start: nat, n: nat) returns (b: Bucket)
      requires Linked()
      modifies this`bk
      ensures Linked() && fresh(b) && RecOf(b) == BucketRec(kind, heap, outside, start, n)
      ensures b !in old(bk) && bk == old(bk)[b := RecOf(b)]
    {
      b := new Bucket(kind, heap, outside, start, n);
      bk := bk[b := RecOf(b)];
    }

    method NewBuffer(base: array<Byte>, ghost owner: Bucket) returns (s: Buffer)
      requires Linked() && forall s | s in bf :: s.base != base
      modifies this`bf
      ensures Linked() && fresh(s) && s.base == base && BufferRecOf(s) == BufferRec(1, false, {owner}, base[..])
      ensures s !in old(bf) && bf == old(bf)[s := BufferRecOf(s)]
    {
      s := new Buffer(base);
      s.refcount := 1;
      s.owners := {owner};
      bf := bf[s := BufferRecOf(s)];
    }

    method SetFields(e: Bucket, heap: Buffer?, start: nat, n: nat)
      requires Linked() && e in bk
      modifies this`bk, e`heap, e`start, e`length
      ensures Linked() && RecOf(e) == BucketRec(old(e.kind), heap, old(e.outside), start, n)
      ensures bk == old(bk)[e := RecOf(e)]
    {
      e.heap, e.start, e.length := heap, start, n;
      bk := bk[e := RecOf(e)];
    }

    method SetUsers(s: Buffer, refcount: int, ghost owners: set<Bucket>)
      requires Linked() && s in bf
      modifies this`bf, s`refcount, s`owners
      ensures Linked() && BufferRecOf(s) == BufferRec(refcount, old(s.freed), owners, old(s.base[..]))
      ensures bf == old(bf)[s := BufferRecOf(s)]
    {
      s.refcount, s.owners := refcount, owners;
      bf := bf[s := BufferRecOf(s)];
    }

    method WriteBase(s: Buffer, off: nat, str: seq<Byte>)
      requires Linked() && s in bf && off + |str| <= s.base.Length
      modifies this`bf, s.base
      ensures Linked() && s.base[..] == old(s.base[..])[..off] + str + old(s.base[..])[off + |str|..]
      ensures bf == old(bf)[s := BufferRec(old(s.refcount), old(s.freed), old(s.owners), s.base[..])]
    {
      Memcpy(s.base, off, str);
      bf := bf[s := BufferRecOf(s)];
    }

    method FreeBuffer(s: Buffer)
      requires Linked() && s in bf
      modifies this`bf, s`freed
      ensures Linked() && s.freed && bf == old(bf) - {s}
    {
      s.freed := true;
      bf := bf - {s};
    }

    ghost method DropBucket(b: Bucket)
      requires Linked()
      modifies this`bk
      ensures Linked() && bk == old(bk) - {b}
    {
      bk := bk - {b};
    }

    lemma {:induction false} See(e: Bucket)
      requires Valid() && e in bytes
      ensures e in bk && bk[e] == RecOf(e)
      ensures e.kind == Heap ==>
                && e.heap != null && e.heap in bf && e.start + e.length <= e.heap.base.Length
                && bf[e.heap] == BufferRecOf(e.heap)
                && bytes[e] == Window(e.heap.base[..], e.start, e.length)
                && e.heap.refcount == |e.heap.owners| && !e.heap.freed && e in e.heap.owners
      ensures e.kind == Transient || e.kind == Immortal ==>
                e.heap == null && e.start + e.length <= |e.outside| && bytes[e] == Window(e.outside, e.start, e.length)
      ensures e.kind == Metadata ==> e.length == 0 && bytes[e] == [] && e.heap == null
      ensures |bytes[e]| == e.length
    {
      assert Holds(e, bk[e], bf, bytes[e]);
      if e.kind == Heap {
        HeapFacts(bk, bf, bytes, e);
      }
    }

    // ----- the operations -----

    // Writes behind the window of a bucket that is its buffer's only user.
    method WriteAt(e: Bucket, off: nat, str: seq<Byte>)
      requires Valid() && e in bytes && e.kind == Heap && e.heap != null && e.heap.refcount == 1
      requires e.start + e.length <= off && off + |str| <= e.heap.base.Length
      modifies this`bf, e.heap.base
      ensures Valid() && bf.Keys == old(bf.Keys)
      ensures e.heap.base[..] == old(e.heap.base[..])[..off] + str + old(e.heap.base[..])[off + |str|..]
    {
      hide Good, Linked, Window, Holds;
      See(e);
      ghost var s, rec := e.heap, bf[e.heap];
      WriteBase(e.heap, off, str);
      BehindWindow(rec.data, s.base[..], e.start, e.length, off, str);
      WriteGood(bk, old(bf), bytes, e, rec, s.base[..]);
    }

    // Gives a heap bucket another window of its buffer.
    method SetWindow(e: Bucket, start: nat, n: nat)
      requires Valid() && e in bytes && e.kind == Heap && e.heap != null && start + n <= e.heap.base.Length
      modifies this`bk, this`bytes, e`heap, e`start, e`length
      ensures Valid() && bytes == old(bytes)[e := Window(e.heap.base[..], start, n)]
      ensures e.heap == old(e.heap) && e.start == start && e.length == n
    {
      hide Good, Linked, Window, Holds;
      See(e);
      WindowGood(bk, bf, bytes, e, e.heap, e.outside, start, n);
      SetFields(e, e.heap, start, n);
      bytes := bytes[e := Window(e.heap.base[..], start, n)];
    }

    // Append in place, behind a bucket that is its buffer's only user.
    method Extend(e: Bucket, str: seq<Byte>)
      requires Valid() && e in bytes && e.kind == Heap && e.heap != null && e.heap.refcount == 1
      requires e.start + e.length + |str| <= e.heap.base.Length
      modifies this, e`heap, e`start, e`length, e.heap.base
      ensures Valid() && bytes == old(bytes)[e := old(bytes)[e] + str] && bf.Keys == old(bf.Keys)
      ensures e.heap == old(e.heap) && Repr() == old(Repr())
    {
      hide Valid, Window, ReprOf;
      See(e);
      assert bytes.Keys == bytes[e := bytes[e] + str].Keys;
      ghost var was := e.heap.base[..];
      WriteAt(e, e.start + e.length, str);
      AppendedWindow(was, e.heap.base[..], e.start, e.start + e.length, str);
      SetWindow(e, e.start, e.length + |str|);
    }

    // apr_bucket_read.
    method Read(e: Bucket) returns (str: seq<Byte>)
      requires Valid() && e in bytes
      ensures str == bytes[e]
    {
      hide Valid;
      See(e);
      if e.kind == Heap {
        str := e.heap.base[e.start..e.start + e.length];
      } else if e.kind == Metadata {
        str := [];
      } else {
        str := e.outside[e.start..e.start + e.length];
      }
    }

    // apr_bucket_heap_make on a buffer handed over by the caller.
    method HeapMake(base: array<Byte>) returns (b: Bucket)
      requires Valid() && forall s | s in bf :: s.base != base
      modifies this
      ensures Valid() && fresh(b) && bytes == old(bytes)[b := base[..]]
      ensures b.kind == Heap && b.heap != null && fresh(b.heap) && bf.Keys == old(bf.Keys) + {b.heap}
      ensures b.heap.base == base && b.heap.refcount == 1 && b.start == 0 && b.length == base.Length
    {
      hide Good, Linked, Window, Holds;
      b := NewBucket(Heap, null, [], 0, base.Length);
      var h := NewBuffer(base, b);
      SetFields(b, h, 0, base.Length);
      MakeHeapGood(old(bk), old(bf), bytes, b, h, base[..], base.Length);
      WholeWindow(base[..]);
      bytes := bytes[b := base[..]];
      assert bk == old(bk)[b := RecOf(b)];
    }

    // apr_bucket_heap_create with a copy of str.
    method HeapCreate(str: seq<Byte>) returns (b: Bucket)
      requires Valid()
      modifies this
      ensures Valid() && fresh(b) && bytes == old(bytes)[b := str] && b.kind == Heap
      ensures b.heap != null && fresh(b.heap) && fresh(b.heap.base)
      ensures bf.Keys == old(bf.Keys) + {b.heap} && b.heap.refcount == 1
      ensures forall o | o in Repr() :: o in old(Repr()) || fresh(o)
    {
      hide Valid;
      var base := new Byte[|str|];
      Memcpy(base, 0, str);
      assert base[..] == str;
      b := HeapMake(base);
    }

    // A bucket with a buffer of size n of its own and nothing in it yet.
    method RoomCreate(n: nat) returns (b: Bucket)
      requires Valid()
      modifies this
      ensures Valid() && fresh(b) && bytes == old(bytes)[b := []] && b.kind == Heap && b.start == b.length == 0
      ensures b.heap != null && fresh(b.heap) && fresh(b.heap.base) && b.heap.refcount == 1 && b.heap.base.Length == n
      ensures forall o | o in Repr() :: o in old(Repr()) || fresh(o)
    {
      hide Valid;
      var base := new Byte[n];
      b := HeapMake(base);
      SetWindow(b, 0, 0);
      assert bytes == old(bytes)[b := []];
    }

    // Transient, immortal and metadata buckets.
    method SimpleMake(kind: Kind, str: seq<Byte>) returns (b: Bucket)
      requires Valid() && kind != Heap && (kind == Metadata ==> str == [])
      modifies this
      ensures Valid() && fresh(b) && bytes == old(bytes)[b := str] && b.kind == kind && bf == old(bf)
    {
      hide Good, Linked, Window, Holds;
      b := NewBucket(kind, null, str, 0, |str|);
      WholeWindow(str);
      HoldsSimple(b, kind, str, 0, |str|, bf);
      SimpleGood(old(bk), bf, bytes, b, RecOf(b), str);
      bytes := bytes[b := str];
    }

    // Another bucket on a's buffer, with a window of its own.
    method Share(a: Bucket, start: nat, n: nat) returns (b: Bucket)
      requires Valid() && a in bytes && a.kind == Heap && a.heap != null && start + n <= a.heap.base.Length
      modifies this, a.heap`refcount, a.heap`owners
      ensures Valid() && fresh(b) && bytes == old(bytes)[b := Window(a.heap.base[..], start, n)]
      ensures b.kind == Heap && b.heap == a.heap && b.start == start && b.length == n
      ensures a.heap.refcount == old(a.heap.refcount) + 1 && bf.Keys == old(bf.Keys)
    {
      hide Good, Linked, Window, Holds;
      See(a);
      ghost var rec := bf[a.heap];
      b := NewBucket(Heap, a.heap, a.outside, start, n);
      SetUsers(a.heap, a.heap.refcount + 1, a.heap.owners + {b});
      ShareGood(old(bk), old(bf), bytes, a, b, rec, a.outside, start, n);
      bytes := bytes[b := Window(a.heap.base[..], start, n)];
    }

    // A window of the same outside memory, or another metadata bucket.
    method SimpleCopy(a: Bucket, start: nat, n: nat) returns (b: Bucket)
      requires Valid() && a in bytes && a.kind != Heap && start + n <= |a.outside| && (a.kind == Metadata ==> n == 0)
      modifies this
      ensures Valid() && fresh(b) && bytes == old(bytes)[b := Window(a.outside, start, n)]
      ensures b.kind == a.kind && bf == old(bf)
    {
      hide Good, Linked, Window, Holds;
      See(a);
      b := NewBucket(a.kind, null, a.outside, start, n);
      HoldsSimple(b, a.kind, a.outside, start, n, bf);
      SimpleGood(old(bk), bf, bytes, b, RecOf(b), Window(a.outside, start, n));
      bytes := bytes[b := Window(a.outside, start, n)];
    }

    // Cuts a bucket on outside memory off after n bytes.
    method SimpleShrink(a: Bucket, n: nat)
      requires Valid() && a in bytes && a.kind != Heap && n <= a.length
      modifies this`bk, this`bytes, a`heap, a`start, a`length
      ensures Valid() && a.heap == old(a.heap) && a.length == n && |old(bytes)[a]| == old(a.length) &&
              bytes == old(bytes)[a := old(bytes)[a][..n]]
    {
      hide Good, Linked, Window, Holds;
      See(a);
      HoldsShrunk(a, bk[a], n, bf, bytes[a]);
      SetFields(a, a.heap, a.start, n);
      SimpleGood(old(bk), bf, bytes, a, RecOf(a), bytes[a][..n]);
      bytes := bytes[a := bytes[a][..n]];
    }

    // apr_bucket_copy: a second bucket with the same bytes; a heap buffer
    // gains a user, and no byte moves.
    method Copy(a: Bucket) returns (b: Bucket)
      requires Valid() && a in bytes
      modifies this, a.heap
      ensures Valid() && fresh(b) && bytes == old(bytes)[b := old(bytes)[a]] && bf.Keys == old(bf.Keys)
      ensures b.kind == a.kind && (a.kind == Heap ==> b.heap == a.heap)
    {
      hide Valid, Window;
      See(a);
      if a.kind == Heap {
        b := Share(a, a.start, a.length);
      } else if a.kind == Metadata {
        b := SimpleMake(Metadata, []);
      } else {
        b := SimpleCopy(a, a.start, a.length);
      }
    }

    method SplitShared(a: Bucket, point: nat) returns (b: Bucket)
      requires Valid() && a in bytes && a.kind == Heap && point <= a.length
      modifies this, a`heap, a`start, a`length, a.heap
      ensures Valid() && bf.Keys == old(bf.Keys) && a.heap == old(a.heap) && point <= |old(bytes)[a]|
      ensures fresh(b) && b.kind == Heap
      ensures bytes == old(bytes)[a := old(bytes)[a][..point]][b := old(bytes)[a][point..]]
    {
      hide Valid, Window;
      See(a);
      WindowParts(a.heap.base[..], a.start, a.length, point);
      b := Share(a, a.start + point, a.length - point);
      SetWindow(a, a.start, point);
    }

    method SplitSimple(a: Bucket, point: nat) returns (b: Bucket)
      requires Valid() && a in bytes && a.kind != Heap && a.kind != Metadata && point <= a.length
      modifies this, a`heap, a`start, a`length
      ensures Valid() && bf.Keys == old(bf.Keys) && a.heap == old(a.heap) && point <= |old(bytes)[a]|
      ensures fresh(b) && b.kind == a.kind
      ensures bytes == old(bytes)[a := old(bytes)[a][..point]][b := old(bytes)[a][point..]]
    {
      hide Valid, Window;
      See(a);
      WindowParts(a.outside, a.start, a.length, point);
      b := SimpleCopy(a, a.start + point, a.length - point);
      SimpleShrink(a, point);
    }

    // apr_bucket_split: a keeps the first point bytes, b has the rest.
    method Split(a: Bucket, point: nat) returns (status: Status, b: Bucket?)
      requires Valid() && a in bytes
      modifies this, a`heap, a`start, a`length, a.heap
      ensures Valid() && bf.Keys == old(bf.Keys) && a.heap == old(a.heap)
      ensures forall o | o in Repr() :: o in old(Repr()) || fresh(o)
      ensures status == if a.kind == Metadata then NotImpl else if point > |old(bytes)[a]| then EInval else Success
      ensures status != Success ==> bytes == old(bytes)
      ensures status == Success ==>
                && b != null && fresh(b) && b.kind == a.kind
                && bytes == old(bytes)[a := old(bytes)[a][..point]][b := old(bytes)[a][point..]]
    {
      hide Valid, Window;
      See(a);
      if a.kind == Metadata {
        return NotImpl, null;
      }
      if point > a.length {
        return EInval, null;
      }
      if a.kind == Heap {
        b := SplitShared(a, point);
      } else {
        b := SplitSimple(a, point);
      }
      status := Success;
    }

    // apr_bucket_destroy: a heap buffer loses a user, and is freed with
    // the last one.
    method Destroy(b: Bucket)
      requires Valid() && b in bytes
      modifies this, b.heap
      ensures Valid() && bytes == old(bytes) - {b} && Repr() <= old(Repr())
      ensures forall s | s in old(bf) :: s !in bf <==> s == b.heap && old(s.refcount) == 1
      ensures b.heap != null && b.heap !in bf ==> b.heap.freed
    {
      hide Good, Linked, Window, Holds;
      See(b);
      if b.kind == Heap {
        ghost var rec := bf[b.heap];
        SetUsers(b.heap, b.heap.refcount - 1, b.heap.owners - {b});
        if b.heap.refcount == 0 {
          DropLastGood(old(bk), old(bf), bytes, b);
          FreeBuffer(b.heap);
          assert bf == old(bf) - {b.heap};
        } else {
          DropSharedGood(bk, old(bf), bytes, b, rec);
        }
      } else {
        DropSimpleGood(bk, bf, bytes, b);
      }
      DropBucket(b);
      bytes := bytes - {b};
    }
  }
}

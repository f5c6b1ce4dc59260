/** The free list that bucket structures are allocated from. */
module Allocator {
  // Sizes on a 64-bit machine.
  const HEADER := 32
  const SMALL := 160
  const LIST_SIZE := 32
  const ALLOC_AMT := 8152

  // Where a node starts: a memory node and a place in it.
  datatype Ptr = Ptr(mem: nat, offset: nat)

  // The header at a node's start.
  datatype Header = Header(memnode: nat, size: nat)

  // A byte of memory.
  type Cell = (nat, int)

  ghost function Cells(p: Ptr, size: nat): set<Cell> {
    set i | p.offset <= i < p.offset + size :: (p.mem, i)
  }

  // A piece of a block: behind the list, before the block's free part.
  ghost predicate Piece(home: nat, blocks: seq<nat>, avail: map<nat, nat>, heads: map<Ptr, Header>, x: Ptr) {
    && x.mem in blocks && x.mem in avail && x.offset + SMALL <= avail[x.mem]
    && (x.mem == home ==> LIST_SIZE <= x.offset)
    && x in heads && heads[x] == Header(x.mem, SMALL)
  }

  ghost predicate Apart(x: Ptr, y: Ptr) {
    x.mem != y.mem || x.offset + SMALL <= y.offset || y.offset + SMALL <= x.offset
  }

  // The blocks and all that was ever carved out of them.
  ghost predicate Carved(home: nat, blocks: seq<nat>, avail: map<nat, nat>, rooms: map<nat, nat>,
                         heads: map<Ptr, Header>,
                         small: set<Ptr>) {
    && home in blocks && home in avail && LIST_SIZE <= avail[home]
    && (forall b | b in blocks :: b in avail && b in rooms && avail[b] <= rooms[b])
    && (forall x | x in small :: Piece(home, blocks, avail, heads, x))
    && (forall x, y | x in small && y in small && x != y :: Apart(x, y))
  }

  // A node in a memory node of its own.
  ghost predicate Own(blocks: seq<nat>, rooms: map<nat, nat>, heads: map<Ptr, Header>, x: Ptr) {
    && x.offset == 0 && x.mem !in blocks && x.mem in rooms
    && x in heads && heads[x].memnode == x.mem && SMALL < heads[x].size <= rooms[x.mem]
  }

  // The next piece of a block lies behind all that were carved before.
  lemma {:induction false} CarveOne(home: nat, blocks: seq<nat>, avail: map<nat, nat>, rooms: map<nat, nat>,
                                    heads: map<Ptr, Header>, small: set<Ptr>, b: nat)
    requires Carved(home, blocks, avail, rooms, heads, small) && b in blocks && avail[b] + SMALL <= rooms[b]
    ensures var x := Ptr(b, avail[b]);
            && x !in small
            && Carved(home, blocks, avail[b := avail[b] + SMALL], rooms, heads[x := Header(b, SMALL)], small + {x})
  {
  }

  lemma {:induction false} NewBlock(home: nat, blocks: seq<nat>, avail: map<nat, nat>, rooms: map<nat, nat>,
                                    heads: map<Ptr, Header>, small: set<Ptr>, b: nat, room: nat)
    requires Carved(home, blocks, avail, rooms, heads, small) && b !in rooms
    ensures Carved(home, blocks + [b], avail[b := 0], rooms[b := room], heads, small)
  {
  }

  // Nodes of their own do not touch the blocks.
  lemma {:induction false} CarvedStays(home: nat, blocks: seq<nat>, avail: map<nat, nat>, rooms: map<nat, nat>,
                                       heads: map<Ptr, Header>, small: set<Ptr>, rooms': map<nat, nat>,
                                       heads': map<Ptr, Header>)
    requires Carved(home, blocks, avail, rooms, heads, small)
    requires forall b | b in blocks :: b in rooms' && rooms'[b] == rooms[b]
    requires forall x | x in small :: x in heads' && heads'[x] == heads[x]
    ensures Carved(home, blocks, avail, rooms', heads', small)
  {
  }

  ghost predicate NoRepeat(s: seq<Ptr>) {
    forall i, j | 0 <= i < j < |s| :: s[i] != s[j]
  }

  class BucketAlloc {
    const home: nat               // the memory node that the list lies in
    var blocks: seq<nat>          // the active one last
    var avail: map<nat, nat>      // where a block's free part starts
    var heads: map<Ptr, Header>
    var freelist: seq<Ptr>
    var rooms: map<nat, nat>      // the memory nodes taken, and their sizes
    ghost var live: set<Ptr>      // what callers have
    ghost var small: set<Ptr>     // every piece carved so far

    // A piece is free if and only if it is not live, and the memory nodes
    // taken are the blocks and the own nodes of live pointers.
    ghost predicate Valid()
      reads this
    {
      && Carved(home, blocks, avail, rooms, heads, small) && NoRepeat(freelist)
      && (forall x :: x in freelist <==> x in small && x !in live)
      && (forall x | x in live && x !in small :: Own(blocks, rooms, heads, x))
      && (forall m | m in rooms && m !in blocks :: Ptr(m, 0) in live)
    }

    // apr_bucket_alloc_create_ex in a memory node of the given room: the
    // list itself takes its first bytes.
    constructor (mem: nat, room: nat)
      requires room >= ALLOC_AMT
      ensures Valid() && home == mem && rooms == map[mem := room]
      ensures live == {} && freelist == [] && avail[home] == LIST_SIZE
    {
      home, blocks, avail, heads, freelist := mem, [mem], map[mem := LIST_SIZE], map[], [];
      rooms, live, small := map[mem := room], {}, {};
    }

    // apr_bucket_alloc. id and room: the memory node that the underlying
    // allocator would hand out; room is 0 if it has none.
    method Alloc(size: nat, id: nat, room: nat) returns (ok: bool, p: Ptr)
      requires Valid() && id !in rooms
      requires room == 0 || room >= if size + HEADER <= SMALL then ALLOC_AMT else size + HEADER
      modifies this
      ensures Valid() && (!ok ==> room == 0 && unchanged(this))
      ensures ok ==> p !in old(live) && live == old(live) + {p} && p in heads && heads[p].size >= size + HEADER
      ensures forall x | x in old(live) :: x in old(heads) && x in heads && heads[x] == old(heads)[x]
      ensures size + HEADER <= SMALL && old(freelist) != [] ==>
                ok && p == old(freelist)[0] && freelist == old(freelist)[1..] && rooms == old(rooms)
      ensures ok && size + HEADER <= SMALL ==> p in small && p.mem in blocks && heads[p] == Header(p.mem, SMALL)
      ensures size + HEADER <= SMALL && old(freelist) == [] && old(HasRoom()) ==>
                ok && rooms == old(rooms) && blocks == old(blocks) && p == old(NextPiece())
      ensures size + HEADER <= SMALL && old(freelist) == [] && !old(HasRoom()) ==>
                && (ok <==> room > 0)
                && (ok ==> rooms == old(rooms)[id := room] && blocks == old(blocks) + [id] && p == Ptr(id, 0))
      ensures ok && size + HEADER <= SMALL && old(freelist) == [] ==> p !in old(small) && freelist == []
      ensures ok && size + HEADER > SMALL ==> p.mem == id && rooms == old(rooms)[id := room] && blocks == old(blocks)
    {
      hide Carved, Own, NoRepeat;
      HeadsOfLive();
      if size + HEADER > SMALL {
        ok, p := AllocOwn(size + HEADER, id, room);
      } else if freelist != [] {
        p := Reuse();
        OwnElsewhere(p);
        ok := true;
      } else {
        ok, p := Carve(id, room);
      }
    }

    lemma {:induction false} HeadsOfLive()
      requires Valid()
      ensures forall x | x in small :: x in heads && heads[x] == Header(x.mem, SMALL)
      ensures forall x | x in live :: x in heads
      ensures forall x | x in live && x !in small :: heads[x].size > SMALL
    {
      forall x | x in small ensures x in heads && heads[x] == Header(x.mem, SMALL) {
        assert Piece(home, blocks, avail, heads, x);
      }
    }

    method AllocOwn(size: nat, id: nat, room: nat) returns (ok: bool, p: Ptr)
      requires Valid() && id !in rooms && size > SMALL && (room == 0 || room >= size)
      modifies this`heads, this`rooms, this`live
      ensures Valid() && ok == (room != 0) && p == Ptr(id, 0)
      ensures !ok ==> heads == old(heads) && rooms == old(rooms) && live == old(live)
      ensures ok ==> p !in old(live) && live == old(live) + {p} && p !in small
      ensures ok ==> rooms == old(rooms)[id := room] && heads == old(heads)[p := Header(id, size)]
    {
      p := Ptr(id, 0);
      IdIsNew(id);
      if room == 0 {
        return false, p;
      }
      CarvedStays(home, blocks, avail, rooms, heads, small, rooms[id := room], heads[p := Header(id, size)]);
      hide Carved, NoRepeat;
      heads, rooms := heads[p := Header(id, size)], rooms[id := room];
      live := live + {p};
      ok := true;
    }

    lemma {:induction false} IdIsNew(id: nat)
      requires Valid() && id !in rooms
      ensures Ptr(id, 0) !in live && Ptr(id, 0) !in small && id !in blocks
    {
      forall x | x in small ensures x.mem in blocks {
        assert Piece(home, blocks, avail, heads, x);
      }
    }

    method Reuse() returns (p: Ptr)
      requires Valid() && freelist != []
      modifies this`freelist, this`live
      ensures Valid() && p == old(freelist)[0] && freelist == old(freelist)[1..]
      ensures p in small && p !in old(live) && live == old(live) + {p}
    {
      hide Carved, Own;
      p := freelist[0];
      assert p in freelist;
      assert freelist == [p] + freelist[1..];
      freelist := freelist[1..];
      live := live + {p};
    }

    // The active block has room for a piece and a byte more.
    ghost predicate HasRoom()
      requires Valid()
      reads this
    {
      ActiveBlock();
      avail[Active()] + SMALL < rooms[Active()]
    }

    ghost function NextPiece(): Ptr
      requires Valid()
      reads this
    {
      ActiveBlock();
      Ptr(Active(), avail[Active()])
    }

    ghost function Active(): nat
      requires blocks != []
      reads this
    {
      blocks[|blocks| - 1]
    }

    lemma {:induction false} ActiveBlock()
      requires Valid()
      ensures blocks != [] && Active() in avail && Active() in rooms && Active() in blocks
    {
      assert home in blocks;
    }

    method Carve(id: nat, room: nat) returns (ok: bool, p: Ptr)
      requires Valid() && id !in rooms && freelist == [] && (room == 0 || room >= ALLOC_AMT)
      modifies this
      ensures Valid() && freelist == [] && (!ok ==> room == 0 && unchanged(this))
      ensures ok ==> p !in old(small) && p !in old(live) && live == old(live) + {p}
      ensures ok ==> small == old(small) + {p} && p.mem in blocks && heads == old(heads)[p := Header(p.mem, SMALL)]
      ensures old(HasRoom()) ==> ok && rooms == old(rooms) && blocks == old(blocks) && p == old(NextPiece())
      ensures !old(HasRoom()) ==>
                && (ok <==> room > 0)
                && (ok ==> rooms == old(rooms)[id := room] && blocks == old(blocks) + [id] && p == Ptr(id, 0))
    {
      hide Own, NoRepeat;
      var active := blocks[|blocks| - 1];
      if avail[active] + SMALL >= rooms[active] {
        if room == 0 {
          return false, Ptr(id, 0);
        }
        AddBlock(id, room);
        active := id;
      }
      p := TakePiece(active);
      ok := true;
    }

    method AddBlock(id: nat, room: nat)
      requires Valid() && id !in rooms
      modifies this`blocks, this`avail, this`rooms
      ensures Valid() && blocks == old(blocks) + [id] && avail == old(avail)[id := 0] && rooms == old(rooms)[id := room]
    {
      NewBlock(home, blocks, avail, rooms, heads, small, id, room);
      IdIsNew(id);
      hide Carved, NoRepeat;
      blocks, avail, rooms := blocks + [id], avail[id := 0], rooms[id := room];
    }

    method TakePiece(b: nat) returns (p: Ptr)
      requires Valid() && b in blocks && b in avail && b in rooms && avail[b] + SMALL <= rooms[b]
      modifies this`avail, this`heads, this`live, this`small
      ensures Valid() && p == Ptr(b, old(avail)[b]) && p !in old(small) && p !in old(live)
      ensures live == old(live) + {p} && small == old(small) + {p} && heads == old(heads)[p := Header(b, SMALL)]
    {
      CarveOne(home, blocks, avail, rooms, heads, small, b);
      p := Ptr(b, avail[b]);
      hide Carved, NoRepeat;
      avail, heads := avail[b := avail[b] + SMALL], heads[p := Header(b, SMALL)];
      small, live := small + {p}, live + {p};
    }

    // apr_bucket_free of a live pointer. The size in the header decides,
    // and decides rightly: a piece goes to the head of the free list, an
    // own memory node back to the allocator.
    method Free(p: Ptr)
      requires Valid() && p in live
      modifies this
      ensures Valid() && live == old(live) - {p} && small == old(small) && blocks == old(blocks)
      ensures forall x | x in live :: x in old(heads) && x in heads && heads[x] == old(heads)[x]
      ensures p in small ==> freelist == [p] + old(freelist) && rooms == old(rooms)
      ensures p !in small ==> freelist == old(freelist) && rooms == old(rooms) - {p.mem} && p.mem in old(rooms)
    {
      hide Carved, NoRepeat, Own;
      HeadsOfLive();
      if heads[p].size == SMALL {
        GivePiece(p);
      } else {
        GiveNode(p);
      }
    }

    method GivePiece(p: Ptr)
      requires Valid() && p in live && p in small
      modifies this`freelist, this`live
      ensures Valid() && live == old(live) - {p} && freelist == [p] + old(freelist)
    {
      hide Carved, Own;
      assert p !in freelist;
      OwnElsewhere(p);
      freelist := [p] + freelist;
      live := live - {p};
    }

    // A piece is not the start of an own memory node.
    lemma {:induction false} OwnElsewhere(p: Ptr)
      requires Valid() && p in small
      ensures p.mem in blocks
    {
      assert Piece(home, blocks, avail, heads, p);
    }

    method GiveNode(p: Ptr)
      requires Valid() && p in live && p !in small
      modifies this`heads, this`rooms, this`live
      ensures Valid() && live == old(live) - {p} && p.mem in old(rooms)
      ensures rooms == old(rooms) - {old(heads)[p].memnode} == old(rooms) - {p.mem} && heads == old(heads) - {p}
    {
      assert Own(blocks, rooms, heads, p);
      CarvedStays(home, blocks, avail, rooms, heads, small, rooms - {p.mem}, heads - {p});
      hide Carved, NoRepeat;
      rooms := rooms - {heads[p].memnode};
      heads := heads - {p};
      live := live - {p};
    }

    ghost function Bytes(p: Ptr): set<Cell>
      requires p in heads
      reads this
    {
      Cells(p, heads[p].size)
    }

    // The list's own bytes.
    ghost function ListBytes(): set<Cell> {
      Cells(Ptr(home, 0), LIST_SIZE)
    }

    // What callers have lies in memory that was taken, clear of the list.
    lemma {:induction false} LiveInside(x: Ptr)
      requires Valid() && x in live
      ensures x in heads && Bytes(x) !! ListBytes()
      ensures forall c | c in Bytes(x) :: c.0 in rooms && 0 <= c.1 < rooms[c.0]
    {
      if x in small {
        assert Piece(home, blocks, avail, heads, x);
      }
    }

    // Two live nodes never share a byte.
    lemma {:induction false} LiveApart(x: Ptr, y: Ptr)
      requires Valid() && x in live && y in live && x != y
      ensures x in heads && y in heads && Bytes(x) !! Bytes(y)
    {
      HeadsOfLive();
      if x in small {
        OwnElsewhere(x);
      }
      if y in small {
        OwnElsewhere(y);
      }
    }

    // A whole run of requests against any underlying allocator: pick says
    // which memory node it hands out at each moment. got: the nodes that
    // were allocated and not freed, by the request that asked for them.
    method Serve(reqs: seq<Request>, pick: (nat, set<nat>) -> nat) returns (got: map<nat, Ptr>)
      requires Valid() && live == {}
      requires forall k: nat, used: set<nat> :: pick(k, used) !in used
      requires forall k | 0 <= k < |reqs| :: Enough(reqs[k])
      modifies this
      ensures Valid() && live == got.Values && got.Keys <= Out(reqs, |reqs|)
      ensures (forall k | 0 <= k < |reqs| && reqs[k].Take? :: reqs[k].room > 0) ==> got.Keys == Out(reqs, |reqs|)
      ensures forall k | k in got ::
                got[k] in heads && k < |reqs| && reqs[k].Take? && heads[got[k]].size >= reqs[k].size + HEADER
      ensures forall k | k in got :: Bytes(got[k]) !! ListBytes()
      ensures forall j, k | j in got && k in got && j != k :: Bytes(got[j]) !! Bytes(got[k])
    {
      hide Valid, Bytes, ListBytes;
      got := map[];
      for n := 0 to |reqs|
        invariant Valid() && Holds(reqs, n, got)
      {
        match reqs[n] {
          case Take(size, room) => got := ServeTake(reqs, n, got, pick(n, rooms.Keys));
          case Give(k) => got := ServeGive(reqs, n, got);
        }
      }
      forall k | k in got ensures Bytes(got[k]) !! ListBytes() {
        LiveInside(got[k]);
      }
      forall j, k | j in got && k in got && j != k ensures Bytes(got[j]) !! Bytes(got[k]) {
        LiveApart(got[j], got[k]);
      }
    }

    // After n requests callers have got, and it is what they asked for.
    ghost predicate Holds(reqs: seq<Request>, n: nat, got: map<nat, Ptr>)
      requires n <= |reqs|
      reads this
    {
      && (forall k | k in got :: k < n && reqs[k].Take? && got[k] in live)
      && (forall x | x in live :: exists k :: k in got && got[k] == x)
      && (forall j, k | j in got && k in got && j != k :: got[j] != got[k])
      && (forall k | k in got :: got[k] in heads && heads[got[k]].size >= reqs[k].size + HEADER)
      && got.Keys <= Out(reqs, n)
      && ((forall k | 0 <= k < n && reqs[k].Take? :: reqs[k].room > 0) ==> got.Keys == Out(reqs, n))
    }

    method ServeTake(reqs: seq<Request>, n: nat, got: map<nat, Ptr>, id: nat) returns (got': map<nat, Ptr>)
      requires n < |reqs| && reqs[n].Take? && Enough(reqs[n]) && Valid() && Holds(reqs, n, got) && id !in rooms
      modifies this
      ensures Valid() && Holds(reqs, n + 1, got')
    {
      hide Valid;
      var ok, p := Alloc(reqs[n].size, id, reqs[n].room);
      got' := if ok then got[n := p] else got;
      forall x | x in live ensures exists k :: k in got' && got'[k] == x {
        if x in old(live) {
          var k :| k in got && got[k] == x;
          assert k in got' && got'[k] == x;
        } else {
          assert n in got' && got'[n] == x;
        }
      }
      assert !ok ==> reqs[n].room == 0;
    }

    method ServeGive(reqs: seq<Request>, n: nat, got: map<nat, Ptr>) returns (got': map<nat, Ptr>)
      requires n < |reqs| && reqs[n].Give? && Valid() && Holds(reqs, n, got)
      modifies this
      ensures Valid() && Holds(reqs, n + 1, got')
    {
      hide Valid;
      var k := reqs[n].k;
      if k in got {
        Free(got[k]);
      }
      got' := got - {k};
      forall x | x in live ensures exists j :: j in got' && got'[j] == x {
        var j :| j in got && got[j] == x;
        assert j in got' && got'[j] == x;
      }
    }
  }

  // Take: a size, and the room of the memory node that can be had, 0 for
  // none. Give: frees what request k got, if it has not been freed.
  datatype Request = Take(size: nat, room: nat) | Give(k: nat)

  ghost predicate Enough(req: Request) {
    req.Take? ==> req.room == 0 || req.room >= if req.size + HEADER <= SMALL then ALLOC_AMT else req.size + HEADER
  }

  // The first n requests' allocations that are not freed.
  ghost function Out(reqs: seq<Request>, n: nat): set<nat>
    requires n <= |reqs|
  {
    if n == 0 then {} else if reqs[n - 1].Take? then Out(reqs, n - 1) + {n - 1} else Out(reqs, n - 1) - {reqs[n - 1].k}
  }
}

/**
 What the pool's invariant means for its clients, and exactly when giving pages back takes nothing that is
 still in use.
 */
module PoolSafety {
  import opened PoolSlots
  import opened PoolLists
  import opened PoolChunk
  import opened PoolAllocator

  // ---------------------------------------------------------------- what clients hold

  /** A held pointer lies in its chunk, below the bump mark, with room for what was asked. */
  lemma HeldInside(pool: Pool, ptr: Ptr) returns (s: Slot)
    requires pool.Valid() && ptr in pool.live
    ensures ptr.chunk in pool.chunks && s in ptr.chunk.slots && s.live && s.at == ptr.at && s.size == pool.live[ptr]
    ensures 0 < pool.live[ptr] <= s.cap && ptr.at >= HEADER && ptr.at + s.cap <= ptr.chunk.fill <= CHUNK_SIZE
    ensures (ptr.chunk.base + ptr.at) % 16 == 0
  {
    hide Held, BytesHeld, Laid, Chunk.Valid;
    var i, k := pool.Locate(ptr);
    s := ptr.chunk.slots[k];
    LaidOf(ptr.chunk);
    SlotFits(ptr.chunk.slots, ptr.chunk.fill, k);
    AlignedAt(ptr.chunk, k);
  }

  function Address(ptr: Ptr): nat {
    ptr.chunk.base + ptr.at
  }

  /** No two held pointers share an address, headers included, in one chunk or in two. */
  lemma HeldDisjoint(pool: Pool, p: Ptr, q: Ptr)
    requires pool.Valid() && p in pool.live && q in pool.live && p != q
    ensures Address(p) + pool.live[p] <= Address(q) - HEADER || Address(q) + pool.live[q] <= Address(p) - HEADER
  {
    hide Held, BytesHeld, Laid, Chunk.Valid;
    if p.chunk == q.chunk {
      var i, k := pool.Locate(p);
      var j, l := pool.Locate(q);
      LaidOf(p.chunk);
      Apart(p.chunk.slots, p.chunk.fill, k, l);
    } else {
      var s := HeldInside(pool, p);
      var u := HeldInside(pool, q);
      assert p.chunk in pool.chunks + pool.freeChunks && q.chunk in pool.chunks + pool.freeChunks;
    }
  }

  lemma Apart(slots: seq<Slot>, fill: nat, k: nat, l: nat)
    requires Laid(slots, fill) && k < |slots| && l < |slots| && k != l
    ensures End(slots[k]) <= Start(slots[l]) || End(slots[l]) <= Start(slots[k])
    ensures (slots[k].live ==> slots[k].size <= slots[k].cap) && (slots[l].live ==> slots[l].size <= slots[l].cap)
  {
    SlotFits(slots, fill, k);
    SlotFits(slots, fill, l);
    if k > l {
      assert End(slots[l]) <= Start(slots[k]);
    }
  }

  /** What waits on a free list shares no byte with what a client holds. */
  lemma WaitingDisjoint(pool: Pool, p: Ptr, b: nat, j: nat) returns (s: Slot)
    requires pool.Valid() && p in pool.live && |p.chunk.freeHeads| == N_BUCKETS && b < N_BUCKETS && j < |p.chunk.freeHeads[b]|
    ensures s in p.chunk.slots && !s.live && s.at == p.chunk.freeHeads[b][j] && CapWord(p.chunk.caps, s.at) <= s.cap
    ensures p.at + pool.live[p] <= s.at - HEADER || s.at + s.cap <= p.at - HEADER
  {
    hide Held, BytesHeld, Laid, Listed, AllPages, Headed, AllApart;
    var i, k := pool.Locate(p);
    LaidOf(p.chunk);
    var l := NodeSlot(p.chunk.slots, p.chunk.freeHeads, b, j);
    HeaderAt(p.chunk.slots, p.chunk.caps, l);
    Apart(p.chunk.slots, p.chunk.fill, k, l);
    s := p.chunk.slots[l];
  }

  // ---------------------------------------------------------------- outstanding

  function LiveAts(slots: seq<Slot>): set<nat> {
    if slots == [] then {}
    else LiveAts(slots[..|slots| - 1]) + if slots[|slots| - 1].live then {slots[|slots| - 1].at} else {}
  }

  lemma {:induction false} LiveAtsIs(slots: seq<Slot>, at: nat)
    ensures at in LiveAts(slots) <==> exists k :: 0 <= k < |slots| && slots[k].live && slots[k].at == at
    decreases |slots|
  {
    if slots != [] {
      var n := |slots| - 1;
      LiveAtsIs(slots[..n], at);
      if at in LiveAts(slots[..n]) {
        var k :| 0 <= k < n && slots[..n][k].live && slots[..n][k].at == at;
        assert slots[k].live && slots[k].at == at;
      }
      if exists k :: 0 <= k < |slots| && slots[k].live && slots[k].at == at {
        var k :| 0 <= k < |slots| && slots[k].live && slots[k].at == at;
        assert k < n ==> slots[..n][k] == slots[k];
      }
    }
  }

  lemma {:induction false} LiveAtsSize(slots: seq<Slot>, fill: nat)
    requires Laid(slots, fill)
    ensures |LiveAts(slots)| == LiveCount(slots)
    decreases |slots|
  {
    hide Shaped;
    if slots != [] {
      var n := |slots| - 1;
      LiveAtsSize(slots[..n], fill);
      LiveAtsIs(slots[..n], slots[n].at);
      forall k: nat | k < n ensures slots[..n][k].at != slots[n].at {
        InOrder(slots, fill, k, n);
      }
    }
  }

  function PtrsTo(c: Chunk, ats: set<nat>): set<Ptr> {
    set at | at in ats :: Ptr(c, at)
  }

  lemma {:induction false} PtrsSize(c: Chunk, ats: set<nat>)
    ensures |PtrsTo(c, ats)| == |ats|
    decreases |ats|
  {
    if ats != {} {
      var at :| at in ats;
      PtrsSize(c, ats - {at});
      assert PtrsTo(c, ats) == PtrsTo(c, ats - {at}) + {Ptr(c, at)};
    }
  }

  /** A chunk counts as many outstanding slots as clients hold pointers into it. */
  lemma OutstandingCounts(pool: Pool, c: Chunk)
    requires pool.Valid() && c in pool.chunks
    ensures c.outstanding == |set ptr | ptr in pool.live && ptr.chunk == c|
  {
    hide Chunk.Valid, BytesHeld, LiveCount, LiveAts, Laid;
    LaidOf(c);
    LiveAtsSize(c.slots, c.fill);
    var held := set ptr | ptr in pool.live && ptr.chunk == c;
    forall ptr ensures ptr in held <==> ptr in PtrsTo(c, LiveAts(c.slots)) {
      LiveAtsIs(c.slots, ptr.at);
      if ptr in held {
        var k := HeldIndex(c.slots, c, pool.live, ptr);
      }
      if ptr.chunk == c && ptr.at in LiveAts(c.slots) {
        var k :| 0 <= k < |c.slots| && c.slots[k].live && c.slots[k].at == ptr.at;
        assert Ptr(c, c.slots[k].at) in pool.live;
      }
    }
    assert held == PtrsTo(c, LiveAts(c.slots));
    PtrsSize(c, LiveAts(c.slots));
  }

  /** A chunk on the recycle stack holds nothing a client has. */
  lemma RecycledUnused(pool: Pool, c: Chunk)
    requires pool.Valid() && c in pool.freeChunks
    ensures c !in pool.chunks && forall ptr | ptr in pool.live :: ptr.chunk != c
  {
    hide Chunk.Valid, BytesHeld, Held;
  }

  // ---------------------------------------------------------------- pages

  predicate Touches(s: Slot, p: nat, ps: nat) {
    Overlap(Start(s), End(s), PageLo(p, ps), PageHi(p, ps)) > 0
  }

  /**
   As long as every bump was for 16 bytes or more: allocated minus freed bytes of a page are the bytes
   its slots cover, so the two counters agree exactly when no slot touches the page.
   */
  lemma PageConservation(c: Chunk, p: nat)
    requires c.Valid() && c.regular && p < c.nPages
    ensures c.pageAlloc[p] == c.pageFreed[p] + Bytes(c.slots, PageLo(p, c.pageSize), PageHi(p, c.pageSize))
    ensures c.pageAlloc[p] == c.pageFreed[p] <==> forall s | s in c.slots :: !Touches(s, p, c.pageSize)
  {
    hide Laid, Listed, Headed, Aligned, Bytes, NodesIn, Below, LiveCount, CountTrue, PageLo, PageHi, Overlap;
    var lo, hi := PageLo(p, c.pageSize), PageHi(p, c.pageSize);
    assert PageOk(c.slots, c.fill, c.regular, c.pageAlloc[p], c.pageFreed[p], c.pageNodes[p], lo, hi);
    if Bytes(c.slots, lo, hi) == 0 {
      forall s | s in c.slots ensures !Touches(s, p, c.pageSize) {
        var i :| 0 <= i < |c.slots| && c.slots[i] == s;
        NoBytes(c.slots, lo, hi, i);
      }
    } else {
      var i := SomeBytes(c.slots, lo, hi);
      assert c.slots[i] in c.slots && Touches(c.slots[i], p, c.pageSize);
    }
  }

  /** The node counter of a page counts the waiting slots that start on it; there are at most 512. */
  lemma NodesCounted(c: Chunk, p: nat)
    requires c.Valid() && p < c.nPages
    ensures c.pageNodes[p] == NodesIn(c.slots, PageLo(p, c.pageSize), PageHi(p, c.pageSize)) <= 512
  {
    hide Listed, Headed, Aligned, Bytes, NodesIn, Below, LiveCount, CountTrue, PageLo, PageHi, Overlap, Laid;
    assert PageOk(c.slots, c.fill, c.regular, c.pageAlloc[p], c.pageFreed[p], c.pageNodes[p], PageLo(p, c.pageSize), PageHi(p, c.pageSize));
    NodesFit(c.slots, c.fill, p, c.pageSize);
  }

  /** A header lies on one page, and so does a link: a page takes all of it or none. */
  lemma HeaderOnOnePage(c: Chunk, k: nat)
    requires c.Valid() && k < |c.slots|
    ensures var at := c.slots[k].at;
      at >= HEADER && PageNo(at - HEADER, c.pageSize) == PageNo(at - 1, c.pageSize) && PageNo(at, c.pageSize) == PageNo(at + 7, c.pageSize)
  {
    hide Listed, Headed, AllPages, LiveCount, CountTrue;
    assert Shaped(c.slots[k]);
    assert (c.base + c.slots[k].at) % 16 == 0;
    OnePage(c.base, c.slots[k].at, c.pageSize);
  }

  lemma OnePage(base: nat, at: nat, ps: nat)
    requires PageSizeOk(ps) && base % ps == 0 && (base + at) % 16 == 0 && at >= HEADER
    ensures PageNo(at - HEADER, ps) == PageNo(at - 1, ps) && PageNo(at, ps) == PageNo(at + 7, ps)
  {
    hide PageNo;
    MultipleOf16(base, ps);
    SixteenOnPage(at - HEADER, 15, ps);
    SixteenOnPage(at, 7, ps);
  }

  /** Sixteen bytes from a multiple of 16 on lie on one page. */
  lemma SixteenOnPage(x: nat, k: nat, ps: nat)
    requires x % 16 == 0 && k < 16 && ps > 0 && ps % 16 == 0
    ensures PageNo(x, ps) == PageNo(x + k, ps)
  {
    hide PageNo, PageLo, PageHi;
    var p := PageNo(x, ps);
    PageOf(x, p, ps);
    PageEnd(p, ps);
    PageOf(x + k, p, ps);
  }

  lemma PageEnd(p: nat, ps: nat)
    requires ps > 0 && ps % 16 == 0
    ensures PageHi(p, ps) % 16 == 0
  {
    MultipleMod(p + 1, ps);
    Distribute(p, ps);
    MultipleOf16(PageHi(p, ps), ps);
  }

  lemma Distribute(p: nat, ps: nat)
    ensures (p + 1) * ps == p * ps + ps
  {
  }

  /**
   As long as every request was for 16 bytes or more, a sweep releases no byte of any slot exactly when every
   dead page has as many bytes freed as allocated, which can be read off the counters before.
   */
  lemma SweepHarmlessExactly(c: Chunk)
    requires c.Valid() && c.regular
    ensures c.CleanMarks() <==> forall s, p: nat | s in c.slots && p < c.nPages && c.dead[p] :: !Touches(s, p, c.pageSize)
  {
    hide Laid, Listed, Headed, Aligned, LiveCount, CountTrue, AllPages, Touches;
    forall p: nat | p < c.nPages
      ensures c.pageAlloc[p] == c.pageFreed[p] <==> forall s | s in c.slots :: !Touches(s, p, c.pageSize)
    {
      PageConservation(c, p);
    }
  }
}

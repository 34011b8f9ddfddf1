/**
 Runs in which the pool marks a page dead that is in use, and what the sweep then takes: a dead mark is
 not cleared by a later bump, and requests below 16 bytes are accounted short when served.
 */
module PoolRuns {
  import opened PoolSlots
  import opened PoolLists
  import opened PoolChunk
  import opened PoolAllocator
  import opened PoolSafety

  lemma PagesOf4096(c: Chunk)
    requires c.Valid() && c.pageSize == 4096
    ensures c.nPages == 16384 && |c.dead| == |c.pageAlloc| == |c.pageFreed| == |c.pageNodes| == 16384
  {
  }

  lemma BumpComputed(fill: nat, size: nat)
    requires fill % 16 == 0 && fill + HEADER + size + 16 <= CHUNK_SIZE
    ensures BumpAt(0, fill, 16) == fill + HEADER && BumpFits(0, fill, size, 16)
    ensures CapOf(size) == if size >= 16 then size else 16
  {
  }

  // ---------------------------------------------------------------- one slot on a stretch of pages

  /** A page a slot touches has bytes allocated. */
  lemma PageUsed(c: Chunk, s: Slot, p: nat)
    requires c.Valid() && c.regular && p < c.nPages && s in c.slots && Touches(s, p, c.pageSize)
    ensures p < |c.pageAlloc| && c.pageAlloc[p] > 0
  {
    hide Laid, Listed, Headed, Aligned, LiveCount, CountTrue, AllPages, Touches;
    PageConservation(c, p);
  }

  /** A page no slot touches has all bytes freed and no node. */
  lemma PageUnused(c: Chunk, p: nat)
    requires c.Valid() && c.regular && p < c.nPages && forall s | s in c.slots :: !Touches(s, p, c.pageSize)
    ensures p < |c.pageAlloc| == |c.pageFreed| == |c.pageNodes| && c.pageAlloc[p] == c.pageFreed[p] && c.pageNodes[p] == 0
  {
    hide Listed, Headed, Aligned, LiveCount, CountTrue, AllPages, Overlap, PageLo, PageHi, NodesIn, Bytes;
    PageConservation(c, p);
    NodesCounted(c, p);
    forall i: nat | i < |c.slots| ensures Shaped(c.slots[i]) && !Touches(c.slots[i], p, c.pageSize) {
      assert c.slots[i] in c.slots;
    }
    NoNodes(c.slots, PageLo(p, c.pageSize), PageHi(p, c.pageSize));
  }

  lemma {:induction false} NoNodes(slots: seq<Slot>, lo: nat, hi: nat)
    requires forall i: nat | i < |slots| :: Shaped(slots[i]) && Overlap(Start(slots[i]), End(slots[i]), lo, hi) <= 0
    ensures NodesIn(slots, lo, hi) == 0
    decreases |slots|
  {
    if slots != [] {
      NoNodes(slots[..|slots| - 1], lo, hi);
      assert Shaped(slots[|slots| - 1]);
    }
  }

  /** Free a slot of a page or more that alone touches pages `low` to `high`: they die. */
  method FreeLarge(c: Chunk, reuse: bool, ghost k: nat, at: nat, ghost low: nat, ghost high: nat)
    requires c.Valid() && c.regular && c.pageSize == 4096 && c.SlotAt(k, at) && c.slots[k].live && at in c.caps && c.slots[k].cap >= 4080
    requires high < 16384 && forall p: nat | low <= p <= high :: Touches(c.slots[k], p, 4096)
    requires forall i: nat, p: nat | i < |c.slots| && i != k && low <= p <= high :: !Touches(c.slots[i], p, 4096)
    modifies c`outstanding, c`pageNodes, c`pageFreed, c`dead, c`deadCount, c`freeHeads, c`slots
    ensures c.Valid() && c.slots == Without(old(c.slots), k) && c.outstanding == old(c.outstanding) - 1 && c.freeHeads == old(c.freeHeads)
    ensures c.pageNodes == old(c.pageNodes) && (c.Whole() <==> old(c.Whole()))
    ensures |c.dead| == |old(c.dead)| == 16384
    ensures forall p: nat | p < 16384 && (old(c.dead)[p] || low <= p <= high) :: c.dead[p]
  {
    hide Chunk.Valid, Chunk.Whole, Chunk.CleanMarks, AllocatedUpTo, FreedUpTo, FreedInFull, Bytes, Touches, DeadUpTo,
      PageNo, PushedOn, BucketOf;
    PagesOf4096(c);
    ghost var s, dead := c.slots[k], c.dead;
    forall p: nat | low <= p <= high ensures p < |c.pageAlloc| && c.pageAlloc[p] > 0 {
      PageUsed(c, s, p);
    }
    SlotOf(c, k);
    var pushed := c.FreeSlot(at, 16, reuse, k);
    PagesOf4096(c);
    forall p: nat | low <= p <= high ensures c.dead[p] {
      PageUnused(c, p);
      Spans(s, p);
      DeadNow(c.pageAlloc, c.pageFreed, c.pageNodes, dead, c.dead, PageNo(at - HEADER, 4096), PageNo(End(s) - 1, 4096) + 1, p);
    }
    StillDead(c.pageAlloc, c.pageFreed, c.pageNodes, dead, c.dead, PageNo(at - HEADER, 4096), PageNo(End(s) - 1, 4096) + 1);
  }

  lemma SlotOf(c: Chunk, k: nat)
    requires c.Valid() && k < |c.slots|
    ensures Shaped(c.slots[k])
  {
  }

  lemma Spans(s: Slot, p: nat)
    requires Shaped(s) && Touches(s, p, 4096)
    ensures PageNo(s.at - HEADER, 4096) <= p <= PageNo(End(s) - 1, 4096)
  {
    hide PageNo;
    SpanShare(Start(s), End(s), p, 4096);
  }

  lemma DeadNow(alloc: seq<nat>, freed: seq<nat>, nodes: seq<nat>, before: seq<bool>, now: seq<bool>, first: nat, p: nat, q: nat)
    requires DeadUpTo(alloc, freed, nodes, before, now, first, p) && first <= q < p && q < |alloc|
    requires |freed| == |alloc| == |nodes| && AllFreed(alloc[q], freed[q], nodes[q])
    ensures |now| == |alloc| && now[q]
  {
    hide AllFreed;
  }

  lemma StillDead(alloc: seq<nat>, freed: seq<nat>, nodes: seq<nat>, before: seq<bool>, now: seq<bool>, first: nat, p: nat)
    requires DeadUpTo(alloc, freed, nodes, before, now, first, p)
    ensures |now| == |before| && forall q: nat | q < |before| && before[q] :: now[q]
  {
    hide AllFreed;
  }

  // ---------------------------------------------------------------- a bump onto a dead page

  const KEPT := Slot(16, 16, 16, true)
  const SPAN := Slot(48, 163856, 163856, true)

  function Bumped(size: nat): Slot {
    Slot(163920, size, size, true)
  }

  /**
   A dead mark outlives the moment it was set: a slot bumped onto the page afterwards does not clear
   it. Here a slot over pages 0 to 40 is freed, and the next one starts on page 40.
   */
  method BumpOntoDeadPage(reuse: bool, size: nat) returns (c: Chunk)
    requires MIN_BUCKET_SIZE <= size < DIRECT_THRESHOLD
    ensures fresh(c) && c.Valid() && c.regular && c.Whole() && c.base == 0 && c.pageSize == 4096 && |c.dead| == 16384
    ensures c.slots == [KEPT, Bumped(size)] && c.fill == 163920 + size && c.outstanding == 2
    ensures (forall p: nat | 1 <= p <= 40 :: c.dead[p]) && Touches(Bumped(size), 40, c.pageSize)
  {
    hide Chunk.Valid, Chunk.Whole, Chunk.CleanMarks, AllocatedUpTo, BumpFits, BumpAt, CapOf, Touches, PageNo;
    c := new Chunk(0, 4096);
    BumpComputed(0, 16);
    BumpComputed(32, 163856);
    BumpComputed(163904, size);
    var a, first := c.TryBump(16, 16);
    var b, second := c.TryBump(163856, 16);
    assert c.slots == [KEPT, SPAN];
    SpanTouches(size);
    FreeLarge(c, reuse, 1, 48, 1, 40);
    assert c.slots == [KEPT];
    var d, third := c.TryBump(size, 16);
  }

  lemma SpanTouches(size: nat)
    ensures forall p: nat | 1 <= p <= 40 :: Touches(SPAN, p, 4096) && !Touches(KEPT, p, 4096)
    ensures Touches(Bumped(size), 40, 4096)
  {
  }

  // ---------------------------------------------------------------- what a sweep takes

  lemma {:induction false} CountFilled(bits: seq<bool>, a: nat, b: nat)
    requires a <= b <= |bits| && forall p: nat | a <= p < b :: bits[p]
    ensures CountTrue(bits[..b]) == CountTrue(bits[..a]) + (b - a)
    decreases b - a
  {
    hide CountTrue;
    if a < b {
      CountFilled(bits, a, b - 1);
      CountNext(bits, b - 1);
    }
  }

  lemma {:induction false} CountGrows(bits: seq<bool>, a: nat, b: nat)
    requires a <= b <= |bits|
    ensures CountTrue(bits[..a]) <= CountTrue(bits[..b])
    decreases b - a
  {
    hide CountTrue;
    if a < b {
      CountGrows(bits, a, b - 1);
      CountNext(bits, b - 1);
    }
  }

  /** Forty dead pages and twenty-nine more are enough for a sweep. */
  lemma ManyDead(c: Chunk, low: nat)
    requires c.Valid() && |c.dead| == 16384 && 40 < low < 100 && forall p: nat | 1 <= p <= 40 || low <= p < low + 29 :: c.dead[p]
    ensures c.deadCount >= 64
  {
    hide Chunk.Valid, CountTrue;
    CountOf(c);
    var bits := c.dead;
    CountFilled(bits, 1, 41);
    CountGrows(bits, 41, low);
    CountFilled(bits, low, low + 29);
    CountGrows(bits, low + 29, 16384);
    assert bits[..16384] == bits;
  }

  const LOST := Slot(163920, 100000, 100000, true)

  /**
   A client's slot loses its header, in either free mode and with every request above 15 bytes: its chunk can
   no longer be found, so it can never be given back.
   */
  method SweepLosesHeader(reuse: bool) returns (c: Chunk)
    ensures fresh(c) && c.Valid() && c.regular && c.slots == [KEPT, LOST] && LOST.live
    ensures LOST.at !in c.caps && !c.Whole()
  {
    hide Chunk.Valid, Chunk.CleanMarks, Listed, Reached, AllocatedUpTo, BumpFits, BumpAt, CapOf, Touches, PageNo,
      BucketOf, Spared, ListLeft;
    c := BumpOntoDeadPage(reuse, 100000);
    BumpComputed(263920, 120000);
    var ok, at := c.TryBump(120000, 16);
    assert c.slots == [KEPT, LOST, Slot(263936, 120000, 120000, true)];
    LargeAlone();
    FreeLarge(c, reuse, 2, 263936, 65, 93);
    assert c.slots == [KEPT, LOST];
    ManyDead(c, 65);
    OnPage40(163904, c.dead);
    var released := c.MaybeSweep();
    assert c.slots[1].at !in c.caps;
  }

  lemma LargeAlone()
    ensures forall p: nat | 65 <= p <= 93 ::
      Touches(Slot(263936, 120000, 120000, true), p, 4096) && !Touches(KEPT, p, 4096) && !Touches(LOST, p, 4096)
  {
  }

  lemma OnPage40(x: nat, gone: seq<bool>)
    requires 163840 <= x < 167936 && |gone| == 16384 && gone[40]
    ensures Zeroed(x, gone, 4096)
  {
  }

  const CUT := Slot(163920, 16, 16, false)
  const HEAD := Slot(163952, 16, 16, false)

  /**
   A waiting slot is cut off its list although the page counts it: the sweep releases a page with two nodes
   on it, which the dead mark of an earlier time allows.
   */
  method SweepCutsList() returns (c: Chunk)
    ensures fresh(c) && c.Valid() && c.regular && c.slots == [KEPT, CUT, HEAD] && |c.freeHeads| == N_BUCKETS
    ensures c.freeHeads[BucketOf(CUT.cap)] == [HEAD.at] && !c.Whole() && |c.pageNodes| > 40 && c.pageNodes[40] == 2
  {
    hide Chunk.Valid, Chunk.CleanMarks, Tagged, Listed, Touches, PageNo, BucketOf, Spared, HeadersLeft;
    c := TwoWaiting();
    TailAlone();
    FreeLarge(c, true, 3, 163984, 41, 69);
    assert c.slots == [KEPT, CUT, HEAD];
    ManyDead(c, 41);
    OnPage40(163952, c.dead);
    CutAfterFirst(163952, 163920, c.dead);
    var released := c.MaybeSweep();
    assert c.slots[1].at !in c.freeHeads[BucketOf(c.slots[1].cap)];
    TwoNodes(c);
  }

  /** Two small slots on the dead page wait on a list, and a large one behind them is in use. */
  method TwoWaiting() returns (c: Chunk)
    ensures fresh(c) && c.Valid() && c.regular && c.Whole() && c.base == 0 && c.pageSize == 4096 && |c.dead| == 16384
    ensures c.slots == [KEPT, CUT, HEAD, Slot(163984, 120000, 120000, true)] && 163984 in c.caps
    ensures (forall p: nat | 1 <= p <= 40 :: c.dead[p]) && |c.freeHeads| == N_BUCKETS && c.freeHeads[BucketOf(16)] == [HEAD.at, CUT.at]
  {
    hide Chunk.Valid, Chunk.Whole, Chunk.CleanMarks, Listed, AllocatedUpTo, FreedUpTo, DeadUpTo, FreedInFull,
      BumpFits, BumpAt, CapOf, Touches, PageNo, BucketOf;
    c := BumpOntoDeadPage(true, 16);
    BumpComputed(163936, 16);
    BumpComputed(163968, 120000);
    var a, second := c.TryBump(16, 16);
    var b, third := c.TryBump(120000, 16);
    assert c.slots == [KEPT, Bumped(16), HEAD.(live := true), Slot(163984, 120000, 120000, true)];
    NoneListed(c);
    IsReused(c, 3);
    IsReused(c, 2);
    AllTagged(c, 1);
    AllTagged(c, 2);
    var p1 := c.FreeSlot(163920, 16, true, 1);
    assert c.slots == [KEPT, CUT, HEAD.(live := true), Slot(163984, 120000, 120000, true)];
    var p2 := c.FreeSlot(163952, 16, true, 2);
    assert c.slots == [KEPT, CUT, HEAD, Slot(163984, 120000, 120000, true)];
  }

  lemma TailAlone()
    ensures forall p: nat | 41 <= p <= 69 ::
      Touches(Slot(163984, 120000, 120000, true), p, 4096) && !Touches(KEPT, p, 4096) && !Touches(CUT, p, 4096) && !Touches(HEAD, p, 4096)
  {
  }

  lemma CutAfterFirst(a: nat, b: nat, gone: seq<bool>)
    requires Zeroed(a, gone, 4096)
    ensures ListLeft([a, b], gone, 4096) == [a]
  {
  }

  lemma AllTagged(c: Chunk, k: nat)
    requires c.Whole() && k < |c.slots|
    ensures c.slots[k].at in c.caps
  {
  }

  lemma IsReused(c: Chunk, left: nat)
    requires c.pageSize == 4096 && left > 0
    ensures c.Reusable(16, 16, true, left)
  {
  }

  /** With every slot live, all lists are empty. */
  lemma NoneListed(c: Chunk)
    requires c.Valid() && forall i: nat | i < |c.slots| :: c.slots[i].live
    ensures |c.freeHeads| == N_BUCKETS && forall b: nat | b < N_BUCKETS :: c.freeHeads[b] == []
  {
    hide AllPages, Laid, Headed, LiveCount, CountTrue;
    ListsThere(c.slots, c.freeHeads);
    forall b: nat | b < N_BUCKETS ensures c.freeHeads[b] == [] {
      if c.freeHeads[b] != [] {
        var k := NodeSlot(c.slots, c.freeHeads, b, 0);
        assert false;
      }
    }
  }

  lemma TwoNodes(c: Chunk)
    requires c.Valid() && c.pageSize == 4096 && c.slots == [KEPT, CUT, HEAD]
    ensures |c.pageNodes| > 40 && c.pageNodes[40] == 2
  {
    hide Chunk.Valid;
    PagesOf4096(c);
    NodesCounted(c, 40);
    var lo, hi := PageLo(40, 4096), PageHi(40, 4096);
    AppendIn([], KEPT, lo, hi);
    AppendIn([KEPT], CUT, lo, hi);
    AppendIn([KEPT, CUT], HEAD, lo, hi);
    assert [KEPT, CUT, HEAD] == [KEPT, CUT] + [HEAD] && [KEPT, CUT] == [KEPT] + [CUT] && [KEPT] == [] + [KEPT];
  }

  // ---------------------------------------------------------------- short accounting

  const NEIGHBOUR := Slot(16, 16, 16, true)

  /** Slots of `m` bytes each, behind the neighbour. */
  function Small(m: nat, n: nat): (r: seq<Slot>)
    ensures |r| == n && forall j: nat | j < n :: r[j] == Slot(48 + 32 * j, 16, m, true)
  {
    seq(n, j requires 0 <= j < n => Slot(48 + 32 * j, 16, m, true))
  }

  /**
   Requests below 16 bytes are accounted short when bumped and in full when freed. For every size below 16,
   freeing 32 slots of that size makes up for a live neighbour, whose page is marked dead.
   */
  method SmallRequestsKillPage(m: nat) returns (c: Chunk)
    requires 0 < m < MIN_BUCKET_SIZE
    ensures fresh(c) && c.Valid() && !c.regular && c.nPages > 0
    ensures c.dead[0] && c.slots == [NEIGHBOUR] && NEIGHBOUR.live && Touches(NEIGHBOUR, 0, c.pageSize)
  {
    hide Chunk.Valid, Chunk.Whole, Chunk.CleanMarks, Touches;
    c := new Chunk(0, 4096);
    FreshPage(c);
    BumpSmall(c, 16, 0, 0);
    assert c.slots == [NEIGHBOUR] + Small(m, 0);
    for i := 0 to 32
      invariant c.Valid() && c.Whole() && c.slots == [NEIGHBOUR] + Small(m, i) && c.fill == 32 + 32 * i && (i > 0 ==> !c.regular)
      invariant |c.pageAlloc| == |c.pageFreed| == |c.pageNodes| == |c.dead| == 16384
      invariant c.pageAlloc[0] == 32 + Times(i, 16 + m) && c.pageFreed[0] == 0 && c.pageNodes[0] == 0
    {
      TimesBelow(i, 16 + m);
      BumpSmall(c, m, 32 + 32 * i, 32 + Times(i, 16 + m));
      assert c.slots == [NEIGHBOUR] + Small(m, i + 1);
    }
    TimesBelow(32, 16 + m);
    ghost var alloc, small := c.pageAlloc[0], Small(m, 32);
    for i := 0 to 32
      invariant c.Valid() && c.Whole() && c.slots == [NEIGHBOUR] + small[i..] && !c.regular
      invariant |c.pageAlloc| == |c.pageFreed| == |c.pageNodes| == |c.dead| == 16384
      invariant c.pageAlloc[0] == alloc && c.pageFreed[0] == (if 32 * i > alloc then alloc else 32 * i) && c.pageNodes[0] == 0
      invariant 32 * i >= alloc ==> c.dead[0]
    {
      assert c.slots[1] == small[i];
      FreeSmall(c, 48 + 32 * i, 1, c.pageFreed[0], alloc);
      assert c.slots == [NEIGHBOUR] + small[i + 1..];
    }
    assert c.slots == [NEIGHBOUR];
    NeighbourTouches();
    PagesOf4096(c);
  }

  function Times(n: nat, k: nat): nat {
    n * k
  }

  lemma TimesBelow(n: nat, k: nat)
    requires n <= 32 && 16 < k < 32
    ensures Times(n, k) <= n * 31 && Times(n + 1, k) == Times(n, k) + k && (n == 32 ==> 544 <= Times(n, k))
  {
  }

  lemma NeighbourTouches()
    ensures Touches(NEIGHBOUR, 0, 4096)
  {
  }

  lemma FreshPage(c: Chunk)
    requires c.Valid() && c.Empty() && c.pageSize == 4096
    ensures |c.pageAlloc| == |c.pageFreed| == |c.pageNodes| == |c.dead| == 16384 && c.pageAlloc[0] == c.pageFreed[0] == c.pageNodes[0] == 0
  {
    assert PageOk(c.slots, c.fill, c.regular, c.pageAlloc[0], c.pageFreed[0], c.pageNodes[0], PageLo(0, 4096), PageHi(0, 4096));
  }

  /** Bump on the first page: the counter grows by header and size, not by the capacity. */
  method BumpSmall(c: Chunk, size: nat, ghost fill: nat, ghost alloc: nat)
    requires c.Valid() && c.Whole() && c.pageSize == 4096 && c.base == 0 && c.fill == fill && fill % 16 == 0 && fill <= 2000 && 0 < size <= 16
    requires |c.pageAlloc| == 16384 && c.pageAlloc[0] == alloc && alloc <= 2000
    modifies c`outstanding, c`fill, c`pageAlloc, c`caps, c`slots, c`regular
    ensures c.Valid() && c.Whole() && c.fill == fill + 32 && |c.pageAlloc| == 16384 && c.pageAlloc[0] == alloc + 16 + size
    ensures c.slots == old(c.slots) + [Slot(fill + 16, 16, size, true)] && c.regular == (old(c.regular) && size >= 16)
  {
    hide Chunk.Valid, Chunk.Whole, Chunk.CleanMarks, AllocatedUpTo, BumpFits, BumpAt, CapOf, PageNo, Share;
    BumpComputed(fill, size);
    ghost var before := c.pageAlloc;
    var ok, at := c.TryBump(size, 16);
    SmallAlloc(before, c.pageAlloc, fill, fill + 16 + size);
  }

  lemma SmallAlloc(before: seq<nat>, now: seq<nat>, start: nat, end: nat)
    requires start < end <= 4096 && |before| > 0 && before[0] <= 2000
    requires AllocatedUpTo(before, now, start, end, 4096, PageNo(start, 4096), PageNo(end - 1, 4096) + 1)
    ensures |now| == |before| && now[0] == before[0] + (end - start)
  {
  }

  /** Free on the first page: the counter grows by header and capacity, up to what was allocated. */
  method FreeSmall(c: Chunk, at: nat, ghost k: nat, ghost freed: nat, ghost alloc: nat)
    requires c.Valid() && c.Whole() && c.pageSize == 4096 && c.SlotAt(k, at) && c.slots[k].live && c.slots[k].cap == 16 && 16 <= at <= 2000
    requires |c.pageAlloc| == |c.pageFreed| == |c.pageNodes| == |c.dead| == 16384
    requires c.pageFreed[0] == freed <= alloc == c.pageAlloc[0] && alloc > 0 && c.pageNodes[0] == 0
    modifies c`outstanding, c`pageNodes, c`pageFreed, c`dead, c`deadCount, c`freeHeads, c`slots
    ensures c.Valid() && c.Whole() && c.slots == Without(old(c.slots), k)
    ensures |c.pageFreed| == |c.pageNodes| == |c.dead| == 16384 && c.pageNodes[0] == 0
    ensures c.pageFreed[0] == (if freed + 32 > alloc then alloc else freed + 32)
    ensures c.pageFreed[0] == alloc || old(c.dead)[0] ==> c.dead[0]
  {
    hide Chunk.Valid, Chunk.Whole, Chunk.CleanMarks, FreedUpTo, FreedInFull, Bytes, PageNo, Chunk.Reusable, DeadUpTo,
      PushedOn, BucketOf;
    ghost var before, dead := c.pageFreed, c.dead;
    AllTagged(c, k);
    var pushed := c.FreeSlot(at, 16, false, k);
    NotReused(c, 16, c.outstanding);
    PagesOf4096(c);
    SmallFree(c.pageAlloc, before, c.pageFreed, c.pageNodes, dead, c.dead, at - 16, at + 16);
  }

  lemma NotReused(c: Chunk, cap: nat, left: nat)
    ensures !c.Reusable(cap, 16, false, left)
  {
  }

  lemma SmallFree(alloc: seq<nat>, before: seq<nat>, now: seq<nat>, nodes: seq<nat>, dead: seq<bool>, dead': seq<bool>, start: nat, end: nat)
    requires start + 32 == end <= 4096 && |alloc| > 0 && |nodes| == |alloc| && alloc[0] > 0 && nodes[0] == 0
    requires FreedUpTo(alloc, before, now, start, end, 4096, PageNo(start, 4096), PageNo(end - 1, 4096) + 1)
    requires DeadUpTo(alloc, now, nodes, dead, dead', PageNo(start, 4096), PageNo(end - 1, 4096) + 1)
    ensures |now| == |alloc| == |before| == |dead'| && now[0] == AddFreed(alloc[0], before[0], 32)
    ensures now[0] == alloc[0] || dead[0] ==> dead'[0]
  {
  }
}

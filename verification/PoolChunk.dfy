/**
 One chunk of the pool: a bump region with page counters, a bitset of dead pages and per-chunk free
 lists by bucket. Offsets are counted from the chunk's page-aligned base address.
 */
module PoolChunk {
  import opened PoolSlots
  import opened PoolLists
  import Numbers

  /** Payload addresses are multiples of 16. */
  ghost predicate Aligned(slots: seq<Slot>, base: nat) {
    forall i: nat | i < |slots| :: (base + slots[i].at) % 16 == 0
  }

  lemma AlignedKept(slots: seq<Slot>, base: nat, k: nat, s: Slot)
    requires Aligned(slots, base) && k < |slots|
    ensures s.at == slots[k].at ==> Aligned(slots[k := s], base)
    ensures Aligned(Without(slots, k), base)
  {
  }

  lemma AlignedBump(slots: seq<Slot>, base: nat, s: Slot)
    requires Aligned(slots, base) && (base + s.at) % 16 == 0
    ensures Aligned(slots + [s], base)
  {
  }

  // ---------------------------------------------------------------- counters

  function CountTrue(bits: seq<bool>): nat {
    if bits == [] then 0 else CountTrue(bits[..|bits| - 1]) + if bits[|bits| - 1] then 1 else 0
  }

  lemma CountNext(bits: seq<bool>, p: nat)
    requires p < |bits|
    ensures CountTrue(bits[..p + 1]) == CountTrue(bits[..p]) + if bits[p] then 1 else 0
  {
    assert bits[..p + 1][..p] == bits[..p];
  }

  lemma {:induction false} CountSet(bits: seq<bool>, p: nat)
    requires p < |bits| && !bits[p]
    ensures CountTrue(bits[p := true]) == CountTrue(bits) + 1
    decreases |bits|
  {
    var n := |bits| - 1;
    if p == n {
      assert bits[p := true][..n] == bits[..n];
    } else {
      assert bits[p := true][..n] == bits[..n][p := true];
      CountSet(bits[..n], p);
    }
  }

  lemma {:induction false} CountNone(bits: seq<bool>)
    requires forall p | 0 <= p < |bits| :: !bits[p]
    ensures CountTrue(bits) == 0
    decreases |bits|
  {
    if bits != [] {
      CountNone(bits[..|bits| - 1]);
    }
  }

  /** Bytes freed on a page, never counted past the bytes allocated. */
  function AddFreed(alloc: nat, freed: nat, more: nat): nat {
    if freed + more > alloc then alloc else freed + more
  }

  function Share(start: nat, end: nat, p: nat, ps: nat): nat {
    Overlap(start, end, PageLo(p, ps), PageHi(p, ps))
  }

  /** What the counters of one page say; `regular` when every bump so far was accounted in full. */
  ghost predicate PageOk(slots: seq<Slot>, fill: nat, regular: bool, alloc: nat, freed: nat, nodes: nat, lo: nat, hi: nat) {
    && freed <= alloc <= Below(fill, lo, hi) && nodes == NodesIn(slots, lo, hi)
    && (regular ==> alloc == freed + Bytes(slots, lo, hi))
  }

  ghost predicate AllPages(slots: seq<Slot>, fill: nat, regular: bool, alloc: seq<nat>, freed: seq<nat>, nodes: seq<nat>, ps: nat) {
    && |alloc| == |freed| == |nodes|
    && forall p: nat | p < |alloc| :: PageOk(slots, fill, regular, alloc[p], freed[p], nodes[p], PageLo(p, ps), PageHi(p, ps))
  }

  /** Serving a waiting slot takes one node off the page its payload starts on. */
  lemma PagesPop(slots: seq<Slot>, k: nat, s: Slot, fill: nat, regular: bool, alloc: seq<nat>, freed: seq<nat>, nodes: seq<nat>, ps: nat, pn: nat)
    requires AllPages(slots, fill, regular, alloc, freed, nodes, ps) && k < |slots| && !slots[k].live && s.live
    requires s.at == slots[k].at && s.cap == slots[k].cap && ps > 0 && pn == PageNo(s.at, ps) && pn < |nodes|
    ensures nodes[pn] >= 1
    ensures AllPages(slots[k := s], fill, regular, alloc, freed, nodes[pn := nodes[pn] - 1], ps)
  {
    hide Bytes, NodesIn, Below, PageLo, PageHi;
    PageOf(s.at, pn, ps);
    SomeNode(slots, PageLo(pn, ps), PageHi(pn, ps), k);
    forall p: nat | p < |alloc|
      ensures PageOk(slots[k := s], fill, regular, alloc[p], freed[p], nodes[pn := nodes[pn] - 1][p], PageLo(p, ps), PageHi(p, ps))
    {
      ChangeIn(slots, k, s, PageLo(p, ps), PageHi(p, ps));
      PageOf(s.at, p, ps);
    }
  }

  /** Putting a slot on a list adds one node to that page, of at most 512. */
  lemma PagesPush(slots: seq<Slot>, k: nat, s: Slot, fill: nat, regular: bool, alloc: seq<nat>, freed: seq<nat>, nodes: seq<nat>, ps: nat, pn: nat)
    requires AllPages(slots, fill, regular, alloc, freed, nodes, ps) && Laid(slots, fill) && k < |slots| && slots[k].live && !s.live
    requires s.at == slots[k].at && s.cap == slots[k].cap && PageSizeOk(ps) && pn == PageNo(s.at, ps) && pn < |nodes|
    ensures nodes[pn] < 512
    ensures AllPages(slots[k := s], fill, regular, alloc, freed, nodes[pn := nodes[pn] + 1], ps)
  {
    hide Bytes, NodesIn, Below, PageLo, PageHi;
    PageOf(s.at, pn, ps);
    NodesFit(slots[k := s], fill, pn, ps);
    forall p: nat | p < |alloc|
      ensures PageOk(slots[k := s], fill, regular, alloc[p], freed[p], nodes[pn := nodes[pn] + 1][p], PageLo(p, ps), PageHi(p, ps))
    {
      ChangeIn(slots, k, s, PageLo(p, ps), PageHi(p, ps));
      PageOf(s.at, p, ps);
    }
  }

  lemma NodesFit(slots: seq<Slot>, fill: nat, p: nat, ps: nat)
    requires Laid(slots, fill) && PageSizeOk(ps)
    ensures NodesIn(slots, PageLo(p, ps), PageHi(p, ps)) <= 512
  {
    hide NodesIn, Laid;
    NodesBound(slots, fill, PageLo(p, ps), PageHi(p, ps));
  }

  /** A bump adds its bytes, and nothing wraps: a page holds less than 2^16 bytes. */
  lemma PagesBump(slots: seq<Slot>, s: Slot, fill: nat, regular: bool, alloc: seq<nat>, alloc': seq<nat>, freed: seq<nat>, nodes: seq<nat>, ps: nat)
    requires AllPages(slots, fill, regular, alloc, freed, nodes, ps) && PageSizeOk(ps) && s.live && 0 < s.size <= s.cap
    requires s.at >= HEADER && Start(s) >= fill && (regular && s.size >= MIN_BUCKET_SIZE ==> s.cap == s.size)
    requires AllocatedUpTo(alloc, alloc', Start(s), s.at + s.size, ps, PageNo(Start(s), ps), PageNo(s.at + s.size - 1, ps) + 1)
    ensures AllPages(slots + [s], End(s), regular && s.size >= MIN_BUCKET_SIZE, alloc', freed, nodes, ps)
  {
    hide Bytes, NodesIn, Below, PageLo, PageHi, Overlap, AllocatedUpTo;
    var start, end := Start(s), s.at + s.size;
    BumpSizes(alloc, alloc', start, end, ps);
    forall p: nat | p < |alloc|
      ensures PageOk(slots + [s], End(s), regular && s.size >= MIN_BUCKET_SIZE, alloc'[p], freed[p], nodes[p], PageLo(p, ps), PageHi(p, ps))
    {
      var lo, hi := PageLo(p, ps), PageHi(p, ps);
      AppendIn(slots, s, lo, hi);
      PageWide(p, ps);
      BelowGrows(fill, start, end, lo, hi);
      BelowMore(end, End(s), lo, hi);
      BumpOne(alloc, alloc', start, end, ps, p);
    }
  }

  lemma BelowMore(a: nat, b: nat, lo: nat, hi: nat)
    requires a <= b
    ensures Below(a, lo, hi) <= Below(b, lo, hi)
  {
  }

  lemma BumpSizes(alloc: seq<nat>, alloc': seq<nat>, start: nat, end: nat, ps: nat)
    requires ps > 0 && start < end && AllocatedUpTo(alloc, alloc', start, end, ps, PageNo(start, ps), PageNo(end - 1, ps) + 1)
    ensures |alloc| == |alloc'|
  {
  }

  lemma BumpOne(alloc: seq<nat>, alloc': seq<nat>, start: nat, end: nat, ps: nat, p: nat)
    requires start < end && ps > 0 && p < |alloc| && AllocatedUpTo(alloc, alloc', start, end, ps, PageNo(start, ps), PageNo(end - 1, ps) + 1)
    requires alloc[p] + Share(start, end, p, ps) < 0x1_0000
    ensures |alloc| == |alloc'| && alloc'[p] == alloc[p] + Overlap(start, end, PageLo(p, ps), PageHi(p, ps))
  {
    hide Overlap, PageLo, PageHi;
    if !(PageNo(start, ps) <= p <= PageNo(end - 1, ps)) {
      Outside(start, end, p, ps);
    }
  }

  /**
   Forgetting a slot: every page counter stays right, the freed bytes never exceed the allocated ones,
   and a page that dies holds no slot any more.
   */
  lemma PagesForget(slots: seq<Slot>, k: nat, fill: nat, regular: bool, alloc: seq<nat>, freed: seq<nat>, freed': seq<nat>, nodes: seq<nat>, ps: nat)
    requires AllPages(slots, fill, regular, alloc, freed, nodes, ps) && ps > 0 && k < |slots| && slots[k].live && Shaped(slots[k])
    requires FreedUpTo(alloc, freed, freed', Start(slots[k]), End(slots[k]), ps, PageNo(Start(slots[k]), ps), PageNo(End(slots[k]) - 1, ps) + 1)
    ensures AllPages(Without(slots, k), fill, regular, alloc, freed', nodes, ps)
    ensures regular ==> forall p: nat | p < |alloc| :: freed'[p] == freed[p] + Share(Start(slots[k]), End(slots[k]), p, ps) <= alloc[p]
    ensures regular ==> forall p: nat | p < |alloc| && freed'[p] == alloc[p] :: Bytes(Without(slots, k), PageLo(p, ps), PageHi(p, ps)) == 0
  {
    hide Bytes, NodesIn, Below, PageLo, PageHi, Overlap, FreedUpTo, Without;
    var start, end := Start(slots[k]), End(slots[k]);
    FreeSizes(alloc, freed, freed', start, end, ps);
    forall p: nat | p < |alloc|
      ensures PageOk(Without(slots, k), fill, regular, alloc[p], freed'[p], nodes[p], PageLo(p, ps), PageHi(p, ps))
      ensures regular ==> freed'[p] == freed[p] + Share(start, end, p, ps) <= alloc[p]
    {
      RemoveIn(slots, k, PageLo(p, ps), PageHi(p, ps));
      FreeOne(alloc, freed, freed', start, end, ps, p);
    }
  }

  /** Every page marked dead has as many bytes freed as allocated. */
  ghost predicate Clean(dead: seq<bool>, alloc: seq<nat>, freed: seq<nat>) {
    |dead| == |alloc| == |freed| && forall p: nat | p < |dead| && dead[p] :: alloc[p] == freed[p]
  }

  ghost predicate NoneDead(dead: seq<bool>, first: nat, last: nat) {
    forall p: nat | first <= p <= last && p < |dead| :: !dead[p]
  }

  /** A bump leaves the marks clean exactly when it lands on no page that is marked. */
  lemma CleanBump(slots: seq<Slot>, s: Slot, fill: nat, regular: bool, alloc: seq<nat>, alloc': seq<nat>, freed: seq<nat>, nodes: seq<nat>, dead: seq<bool>, ps: nat)
    requires AllPages(slots, fill, regular, alloc, freed, nodes, ps) && PageSizeOk(ps) && 0 < s.size && s.at >= HEADER && Start(s) >= fill
    requires AllocatedUpTo(alloc, alloc', Start(s), s.at + s.size, ps, PageNo(Start(s), ps), PageNo(s.at + s.size - 1, ps) + 1)
    ensures Clean(dead, alloc', freed) <==>
      Clean(dead, alloc, freed) && NoneDead(dead, PageNo(Start(s), ps), PageNo(s.at + s.size - 1, ps))
  {
    hide Bytes, NodesIn, Below, PageLo, PageHi, Overlap, AllocatedUpTo;
    var start, end := Start(s), s.at + s.size;
    BumpSizes(alloc, alloc', start, end, ps);
    forall p: nat | p < |alloc|
      ensures alloc'[p] == freed[p] <==> alloc[p] == freed[p] && !(PageNo(start, ps) <= p <= PageNo(end - 1, ps))
    {
      var lo, hi := PageLo(p, ps), PageHi(p, ps);
      PageWide(p, ps);
      BelowGrows(fill, start, end, lo, hi);
      BumpOne(alloc, alloc', start, end, ps, p);
      SpanShare(start, end, p, ps);
    }
  }

  lemma SpanShare(start: nat, end: nat, p: nat, ps: nat)
    requires start < end && ps > 0
    ensures Share(start, end, p, ps) > 0 <==> PageNo(start, ps) <= p <= PageNo(end - 1, ps)
  {
    hide PageNo;
    if PageNo(start, ps) <= p <= PageNo(end - 1, ps) {
      Inside(start, end, p, ps);
    } else {
      Outside(start, end, p, ps);
    }
  }

  /** Freeing keeps clean marks clean. */
  lemma CleanFree(alloc: seq<nat>, freed: seq<nat>, freed': seq<nat>, nodes: seq<nat>, dead: seq<bool>, dead': seq<bool>, start: nat, end: nat, ps: nat, first: nat, p: nat)
    requires FreedUpTo(alloc, freed, freed', start, end, ps, first, p) && DeadUpTo(alloc, freed', nodes, dead, dead', first, p)
    requires Clean(dead, alloc, freed)
    ensures Clean(dead', alloc, freed')
  {
    hide Share;
  }

  /** When every request was for 16 bytes or more, no slot touches a page whose mark is clean. */
  lemma CleanUntouched(slots: seq<Slot>, fill: nat, alloc: seq<nat>, freed: seq<nat>, nodes: seq<nat>, dead: seq<bool>, ps: nat, i: nat, p: nat)
    requires AllPages(slots, fill, true, alloc, freed, nodes, ps) && Clean(dead, alloc, freed) && i < |slots| && p < |dead| && dead[p]
    ensures Overlap(Start(slots[i]), End(slots[i]), PageLo(p, ps), PageHi(p, ps)) == 0
  {
    hide Bytes, NodesIn, Below, PageLo, PageHi, Overlap;
    assert PageOk(slots, fill, true, alloc[p], freed[p], nodes[p], PageLo(p, ps), PageHi(p, ps));
    NoBytes(slots, PageLo(p, ps), PageHi(p, ps), i);
  }

  /** So pages with clean marks hold no header and no link. */
  lemma CleanSpares(slots: seq<Slot>, fill: nat, heads: seq<seq<nat>>, alloc: seq<nat>, freed: seq<nat>, nodes: seq<nat>, dead: seq<bool>, ps: nat)
    requires AllPages(slots, fill, true, alloc, freed, nodes, ps) && Clean(dead, alloc, freed) && ps > 0
    requires Laid(slots, fill) && Listed(slots, heads)
    ensures Spared(slots, heads, dead, ps)
  {
    hide AllPages, Clean, Listed, NodeOf, PageNo, Laid;
    forall i: nat | i < |slots| ensures !Zeroed(slots[i].at - HEADER, dead, ps) && !Zeroed(slots[i].at, dead, ps) {
      SlotFits(slots, fill, i);
      NotOn(slots, fill, alloc, freed, nodes, dead, ps, i, slots[i].at - HEADER);
      NotOn(slots, fill, alloc, freed, nodes, dead, ps, i, slots[i].at);
    }
    ListsThere(slots, heads);
    forall b: nat, j: nat | b < |heads| && j + 1 < |heads[b]| ensures !Zeroed(heads[b][j], dead, ps) {
      var k := NodeSlot(slots, heads, b, j);
    }
  }

  lemma NotOn(slots: seq<Slot>, fill: nat, alloc: seq<nat>, freed: seq<nat>, nodes: seq<nat>, dead: seq<bool>, ps: nat, i: nat, x: int)
    requires AllPages(slots, fill, true, alloc, freed, nodes, ps) && Clean(dead, alloc, freed) && ps > 0
    requires i < |slots| && Shaped(slots[i]) && Start(slots[i]) <= x < End(slots[i])
    ensures !Zeroed(x, dead, ps)
  {
    hide AllPages, Clean, PageNo, PageLo, PageHi;
    var p := PageNo(x, ps);
    PageOf(x, p, ps);
    if p < |dead| && dead[p] {
      CleanUntouched(slots, fill, alloc, freed, nodes, dead, ps, i, p);
    }
  }

  /** Every byte of the slot was counted as freed: nothing was clamped. */
  ghost predicate FreedInFull(before: seq<nat>, now: seq<nat>, s: Slot, ps: nat) {
    |before| == |now| && s.at >= HEADER && forall p: nat | p < |now| :: now[p] == before[p] + Share(s.at - HEADER, End(s), p, ps)
  }

  lemma FreeSizes(alloc: seq<nat>, freed: seq<nat>, freed': seq<nat>, start: nat, end: nat, ps: nat)
    requires start < end && ps > 0 && FreedUpTo(alloc, freed, freed', start, end, ps, PageNo(start, ps), PageNo(end - 1, ps) + 1)
    ensures |alloc| == |freed| == |freed'|
  {
  }

  lemma FreeOne(alloc: seq<nat>, freed: seq<nat>, freed': seq<nat>, start: nat, end: nat, ps: nat, p: nat)
    requires start < end && ps > 0 && FreedUpTo(alloc, freed, freed', start, end, ps, PageNo(start, ps), PageNo(end - 1, ps) + 1)
    requires p < |alloc| && |freed| == |alloc| && freed[p] <= alloc[p]
    ensures |freed'| == |alloc| && freed'[p] == AddFreed(alloc[p], freed[p], Share(start, end, p, ps))
  {
    hide Overlap, PageLo, PageHi;
    if !(PageNo(start, ps) <= p <= PageNo(end - 1, ps)) {
      Outside(start, end, p, ps);
    }
  }

  /** Addresses that are a multiple of `align`, a power of two. */
  function AlignUp(x: nat, align: nat): (r: nat)
    requires align > 0
    ensures x <= r < x + align && r % align == 0
  {
    AlignFacts(x, align);
    (x + align - 1) / align * align
  }

  /** Where the next slot's payload goes: room for the header, then up to the alignment. */
  function BumpAt(base: nat, fill: nat, align: nat): (r: nat)
    requires align > 0
    ensures r >= fill + HEADER && (base + r) % align == 0
  {
    AlignUp(base + fill + HEADER, align) - base
  }

  predicate BumpFits(base: nat, fill: nat, size: nat, align: nat)
    requires align > 0
  {
    BumpAt(base, fill, align) + CapOf(size) <= CHUNK_SIZE
  }

  lemma MultipleOf16(x: nat, align: nat)
    requires align >= 16 && align % 16 == 0 && x % align == 0
    ensures x % 16 == 0
  {
    var q, r := x / align, align / 16;
    assert x == q * align + x % align;
    assert align == r * 16;
    Regroup(q, r);
    MultipleMod(q * r, 16);
  }

  lemma Regroup(q: nat, r: nat)
    ensures q * (r * 16) == (q * r) * 16
  {
  }

  lemma AlignFacts(x: nat, align: nat)
    requires align > 0
    ensures x <= (x + align - 1) / align * align < x + align && (x + align - 1) / align * align % align == 0
  {
    var q, r := (x + align - 1) / align, (x + align - 1) % align;
    assert x + align - 1 == q * align + r;
    MultipleMod(q, align);
  }

  lemma MultipleMod(q: nat, n: nat)
    requires n > 0
    ensures q * n % n == 0
  {
    Numbers.ModOfMultiple(0, q, n);
  }

  /** Pages `first` to `p - 1` have had the span accounted as allocated. */
  ghost predicate AllocatedUpTo(before: seq<nat>, now: seq<nat>, start: nat, end: nat, ps: nat, first: nat, p: nat) {
    && |now| == |before|
    && forall q: nat | q < |before| :: now[q] == if first <= q < p then (before[q] + Share(start, end, q, ps)) % 0x1_0000 else before[q]
  }

  /** Pages `first` to `p - 1` have had the span accounted as freed. */
  ghost predicate FreedUpTo(alloc: seq<nat>, before: seq<nat>, now: seq<nat>, start: nat, end: nat, ps: nat, first: nat, p: nat) {
    && |now| == |before| == |alloc|
    && forall q: nat | q < |before| ::
         now[q] == if first <= q < p then AddFreed(alloc[q], before[q], Share(start, end, q, ps)) else before[q]
  }

  predicate AllFreed(alloc: nat, freed: nat, nodes: nat) {
    freed == alloc && alloc > 0 && nodes == 0
  }

  /** Of pages `first` to `p - 1`, those freed in full are dead; no other page changed. */
  ghost predicate DeadUpTo(alloc: seq<nat>, freed: seq<nat>, nodes: seq<nat>, before: seq<bool>, now: seq<bool>, first: nat, p: nat) {
    && |now| == |before| == |alloc| == |freed| == |nodes|
    && forall q: nat | q < |before| :: now[q] == (before[q] || (first <= q < p && AllFreed(alloc[q], freed[q], nodes[q])))
  }

  lemma FreedStep(alloc: seq<nat>, before: seq<nat>, now: seq<nat>, start: nat, end: nat, ps: nat, first: nat, p: nat)
    requires FreedUpTo(alloc, before, now, start, end, ps, first, p) && first <= p < |now|
    ensures FreedUpTo(alloc, before, now[p := AddFreed(alloc[p], now[p], Share(start, end, p, ps))], start, end, ps, first, p + 1)
  {
    hide Share, AddFreed;
  }

  lemma DeadStep(alloc: seq<nat>, freed: seq<nat>, nodes: seq<nat>, before: seq<bool>, now: seq<bool>, first: nat, p: nat, f: nat)
    requires DeadUpTo(alloc, freed, nodes, before, now, first, p) && first <= p < |now|
    ensures DeadUpTo(alloc, freed[p := f], nodes, before, now[p := now[p] || AllFreed(alloc[p], f, nodes[p])], first, p + 1)
  {
    hide AllFreed;
  }

  lemma EmptyPage(lo: nat, hi: nat)
    ensures PageOk([], 0, true, 0, 0, 0, lo, hi)
  {
  }

  // ---------------------------------------------------------------- the chunk

  class Chunk {
    const base: nat
    const pageSize: nat
    const nPages: nat
    var outstanding: nat
    var fill: nat
    var pageAlloc: seq<nat>
    var pageFreed: seq<nat>
    var pageNodes: seq<nat>
    var dead: seq<bool>
    var deadCount: nat
      // the capacity word in each slot's header, by payload offset
    var caps: map<nat, nat>
    var freeHeads: seq<seq<nat>>
    ghost var slots: seq<Slot>
      // no slot was bumped for fewer than MIN_BUCKET_SIZE bytes
    ghost var regular: bool

    ghost predicate Sized()
      reads this`pageAlloc, this`pageFreed, this`pageNodes, this`dead
    {
      && PageSizeOk(pageSize) && nPages == PagesIn(pageSize)
      && |pageAlloc| == |pageFreed| == |pageNodes| == |dead| == nPages
    }

    ghost predicate PagesOk()
      requires Sized()
      reads this
    {
      AllPages(slots, fill, regular, pageAlloc, pageFreed, pageNodes, pageSize)
    }

    /**
     Kept by every call. It says of headers and lists what is true even of pages that were handed back:
     a header that is left is right, and a list holds waiting slots only.
     */
    ghost predicate Valid()
      reads this
    {
      && Sized() && PageAligned(base, pageSize) && Laid(slots, fill) && fill <= CHUNK_SIZE && outstanding == LiveCount(slots)
      && Headed(slots, caps) && Listed(slots, freeHeads) && Aligned(slots, base) && PagesOk() && deadCount == CountTrue(dead)
    }

    /** Every slot has its header, and every waiting slot is on its list. */
    ghost predicate Whole()
      reads this`slots, this`caps, this`freeHeads
    {
      Tagged(slots, caps) && Reached(slots, freeHeads)
    }

    /** Every page marked dead has as many bytes freed as allocated. */
    ghost predicate CleanMarks()
      reads this`dead, this`pageAlloc, this`pageFreed
    {
      Clean(dead, pageAlloc, pageFreed)
    }

    /** No slots, nothing dead, nothing bumped. */
    ghost predicate Empty()
      reads this
    {
      slots == [] && fill == 0 && outstanding == 0 && regular && deadCount == 0
    }

    constructor (base: nat, pageSize: nat)
      requires PageSizeOk(pageSize) && PageAligned(base, pageSize)
      ensures this.base == base && this.pageSize == pageSize && Valid() && Empty() && Whole() && CleanMarks()
    {
      this.base, this.pageSize, this.nPages := base, pageSize, PagesIn(pageSize);
      var n := PagesIn(pageSize);
      pageAlloc, pageFreed, pageNodes := seq(n, p requires 0 <= p < n => 0), seq(n, p requires 0 <= p < n => 0), seq(n, p requires 0 <= p < n => 0);
      dead, deadCount := seq(n, p requires 0 <= p < n => false), 0;
      outstanding, fill, caps := 0, 0, map[];
      freeHeads := seq(N_BUCKETS, b requires 0 <= b < N_BUCKETS => []);
      slots, regular := [], true;
      new;
      CountNone(dead);
    }

    /** A chunk nobody uses starts over. */
    method Recycle()
      requires Valid() && outstanding == 0
      modifies this
      ensures Valid() && Empty() && Whole() && CleanMarks()
    {
      hide PageOk, PageLo, PageHi, CountTrue, BucketOf, Listed, Reached, Laid, Headed, Tagged, LiveCount, PagesIn,
        NodeOf, PageAligned;
      outstanding, fill := 0, 0;
      var n := nPages;
      var zeros := seq(n, p requires 0 <= p < n => 0);
      pageAlloc, pageFreed, pageNodes := zeros, zeros, zeros;
      dead, deadCount := seq(n, p requires 0 <= p < n => false), 0;
      freeHeads := seq(N_BUCKETS, b requires 0 <= b < N_BUCKETS => []);
      slots, regular := [], true;
      CountNone(dead);
      NothingListed(freeHeads);
      forall p: nat | p < nPages ensures PageOk([], 0, true, zeros[p], zeros[p], zeros[p], PageLo(p, pageSize), PageHi(p, pageSize)) {
        EmptyPage(PageLo(p, pageSize), PageHi(p, pageSize));
      }
    }

    // -------------------------------------------------------------- page accounting

    method OnAllocPages(start: nat, end: nat)
      requires Sized() && start < end <= CHUNK_SIZE
      modifies this`pageAlloc
      ensures Sized() && AllocatedUpTo(old(pageAlloc), pageAlloc, start, end, pageSize, PageNo(start, pageSize), PageNo(end - 1, pageSize) + 1)
    {
      hide Aligned, Headed, PageNo, PagesIn, Share;
      var first, last := PageNo(start, pageSize), PageNo(end - 1, pageSize);
      LastPage(end, pageSize, nPages);
      PageMonotone(start, end - 1, pageSize);
      for p := first to last + 1
        invariant AllocatedUpTo(old(pageAlloc), pageAlloc, start, end, pageSize, first, p)
      {
        ClipIs(start, end, p, pageSize);
        var lo := if start >= p * pageSize then start else p * pageSize;
        var hi := if end <= (p + 1) * pageSize then end else (p + 1) * pageSize;
        pageAlloc := pageAlloc[p := (pageAlloc[p] + (hi - lo)) % 0x1_0000];
      }
    }

    /** One page's part of freeing a slot. */
    method FreePage(p: nat, more: nat) returns (newlyDead: nat)
      requires |pageAlloc| == |pageFreed| == |pageNodes| == |dead| && p < |dead| && deadCount == CountTrue(dead)
      modifies this`pageFreed, this`dead, this`deadCount
      ensures pageFreed == old(pageFreed)[p := AddFreed(pageAlloc[p], old(pageFreed[p]), more)]
      ensures dead == old(dead)[p := old(dead[p]) || AllFreed(pageAlloc[p], pageFreed[p], pageNodes[p])]
      ensures deadCount == CountTrue(dead) == old(deadCount) + newlyDead
    {
      newlyDead := 0;
      var alloced := pageAlloc[p];
      var freed := pageFreed[p] + more;
      if freed > alloced {
        freed := alloced;
      }
      pageFreed := pageFreed[p := freed];
      if freed == alloced && alloced > 0 && pageNodes[p] == 0 {
        if !dead[p] {
          CountSet(dead, p);
          dead := dead[p := true];
          deadCount := deadCount + 1;
          newlyDead := newlyDead + 1;
        }
      }
    }

    /** Account a slot as freed; pages freed in full and without nodes become dead. */
    method OnFreePages(start: nat, end: nat) returns (newlyDead: nat)
      requires Sized() && start < end <= CHUNK_SIZE && deadCount == CountTrue(dead)
      modifies this`pageFreed, this`dead, this`deadCount
      ensures Sized() && deadCount == CountTrue(dead) && deadCount == old(deadCount) + newlyDead
      ensures FreedUpTo(pageAlloc, old(pageFreed), pageFreed, start, end, pageSize, PageNo(start, pageSize), PageNo(end - 1, pageSize) + 1)
      ensures DeadUpTo(pageAlloc, pageFreed, pageNodes, old(dead), dead, PageNo(start, pageSize), PageNo(end - 1, pageSize) + 1)
    {
      hide Aligned, Headed, PageNo, PagesIn, Share, CountTrue, AllFreed, AddFreed;
      var first, last := PageNo(start, pageSize), PageNo(end - 1, pageSize);
      LastPage(end, pageSize, nPages);
      PageMonotone(start, end - 1, pageSize);
      newlyDead := 0;
      for p := first to last + 1
        invariant deadCount == CountTrue(dead) && deadCount == old(deadCount) + newlyDead
        invariant FreedUpTo(pageAlloc, old(pageFreed), pageFreed, start, end, pageSize, first, p)
        invariant DeadUpTo(pageAlloc, pageFreed, pageNodes, old(dead), dead, first, p)
      {
        ClipIs(start, end, p, pageSize);
        var lo := if start >= p * pageSize then start else p * pageSize;
        var hi := if end <= (p + 1) * pageSize then end else (p + 1) * pageSize;
        FreedStep(pageAlloc, old(pageFreed), pageFreed, start, end, pageSize, first, p);
        DeadStep(pageAlloc, pageFreed, pageNodes, old(dead), dead, first, p, AddFreed(pageAlloc[p], pageFreed[p], hi - lo));
        var more := FreePage(p, hi - lo);
        newlyDead := newlyDead + more;
      }
    }

    // -------------------------------------------------------------- serving

    /** Where the slot with payload `at` stands. */
    ghost predicate SlotAt(k: nat, at: nat)
      reads this`slots
    {
      k < |slots| && slots[k].at == at
    }

    ghost predicate NoneServed(list: seq<nat>, caps: map<nat, nat>, size: nat) {
      forall i: nat | i < 32 && i < |list| :: CapWord(caps, list[i]) < size
    }

    /** The first node with a fitting capacity word, among the first 32. */
    ghost predicate ServedFrom(list: seq<nat>, caps: map<nat, nat>, size: nat, at: nat) {
      exists j: nat :: j < 32 && j < |list| && list[j] == at && CapWord(caps, at) >= size && forall i: nat | i < j :: CapWord(caps, list[i]) < size
    }

    /** Look for a node that fits among the first 32 of a bucket. */
    method FindNode(b: nat, size: nat) returns (found: bool, j: nat, ghost k: nat)
      requires Valid() && size > 0 && b < N_BUCKETS && |freeHeads| == N_BUCKETS
      ensures found ==> j < 32 && j < |freeHeads[b]| && SlotAt(k, freeHeads[b][j]) && !slots[k].live && slots[k].cap >= size
      ensures found ==> freeHeads[b][j] in caps && forall i: nat | i < j :: CapWord(caps, freeHeads[b][i]) < size
      ensures !found ==> NoneServed(freeHeads[b], caps, size)
    {
      hide Aligned, Headed, PageNo, PagesIn, Listed, AllPages, BucketOf, Laid, CountTrue, NodeOf;
      var list := freeHeads[b];
      j, k, found := 0, 0, false;
      while j < |list| && j < 32
        invariant j <= |list|
        invariant forall i: nat | i < j :: CapWord(caps, list[i]) < size
      {
        k := NodeSlot(slots, freeHeads, b, j);
        HeaderAt(slots, caps, k);
        // a header on a page that was handed back reads as capacity zero
        var cap := CapWord(caps, list[j]);
        if cap >= size {
          found := true;
          return;
        }
        j := j + 1;
      }
    }

    /** Serve a request from the bucket's list. */
    method TryReuse(size: nat) returns (found: bool, at: nat, ghost k: nat)
      requires Valid() && 0 < size < DIRECT_THRESHOLD
      modifies this`outstanding, this`pageNodes, this`freeHeads, this`slots
      ensures Valid()
      ensures found ==> k < |old(slots)| && !old(slots)[k].live && old(slots)[k].at == at && old(slots)[k].cap >= size
      ensures found ==> slots == old(slots)[k := Slot(at, old(slots)[k].cap, size, true)] && outstanding == old(outstanding) + 1
      ensures found ==> |old(freeHeads)| == N_BUCKETS && ServedFrom(old(freeHeads)[BucketOf(size)], caps, size, at) && at in caps
      ensures found ==> (Whole() <==> old(Whole()))
      ensures !found ==> unchanged(this)
      ensures !found ==> |freeHeads| == N_BUCKETS && NoneServed(freeHeads[BucketOf(size)], caps, size)
    {
      hide Aligned, Headed, PageNo, PagesIn, Listed, AllPages, BucketOf, Laid, CountTrue, NodeOf, CapWord, Tagged, Reached;
      at := 0;
      var b := BucketOf(size);
      ListsThere(slots, freeHeads);
      var j: nat;
      found, j, k := FindNode(b, size);
      if found {
        at := freeHeads[b][j];
        HeaderAt(slots, caps, k);
        assert ServedFrom(freeHeads[b], caps, size, at);
        ServeNode(b, j, k, size);
      }
    }

    /** Take the node off its list and hand its slot out. */
    method ServeNode(b: nat, j: nat, ghost k: nat, size: nat)
      requires Valid() && b < N_BUCKETS && |freeHeads| == N_BUCKETS && j < |freeHeads[b]| && SlotAt(k, freeHeads[b][j])
      requires 0 < size <= slots[k].cap
      modifies this`outstanding, this`pageNodes, this`freeHeads, this`slots
      ensures Valid() && !old(slots)[k].live && outstanding == old(outstanding) + 1 && (Whole() <==> old(Whole()))
      ensures slots == old(slots)[k := Slot(old(slots)[k].at, old(slots)[k].cap, size, true)]
    {
      hide Aligned, Laid, Headed, Tagged, Reached, PageNo, PagesIn, Listed, AllPages, BucketOf, CountTrue, NodeOf, LiveCount;
      var node := freeHeads[b][j];
      ghost var s := Slot(node, slots[k].cap, size, true);
      NodeIndex(slots, freeHeads, b, j, k, fill);
      ListedPop(slots, freeHeads, b, j, k, s, fill);
      ReachedPop(slots, freeHeads, b, j, k, s, fill);
      freeHeads := freeHeads[b := Unlink(freeHeads[b], j)];
      outstanding := outstanding + 1;
      Change(slots, k, s);
      var pn := PageNo(node, pageSize);
      SlotFits(slots, fill, k);
      SlotPage(slots[k], fill, pageSize, nPages);
      // the counter of a listed node's page is never zero, so no node is a phantom
      PagesPop(slots, k, s, fill, regular, pageAlloc, pageFreed, pageNodes, pageSize, pn);
      pageNodes := pageNodes[pn := pageNodes[pn] - 1];
      LaidChange(slots, k, s, fill);
      HeadersChange(slots, caps, k, s);
      AlignedKept(slots, base, k, s);
      slots := slots[k := s];
    }

    /** Cut a new slot off the bump region if it fits. */
    method TryBump(size: nat, align: nat) returns (ok: bool, at: nat)
      requires Valid() && 0 < size < DIRECT_THRESHOLD && align >= 16 && align % 16 == 0
      modifies this`outstanding, this`fill, this`pageAlloc, this`caps, this`slots, this`regular
      ensures Valid()
      ensures ok <==> BumpFits(base, old(fill), size, align)
      ensures ok ==> at == BumpAt(base, old(fill), align) && (base + at) % align == 0 && fill == at + CapOf(size)
      ensures ok ==> slots == old(slots) + [Slot(at, CapOf(size), size, true)] && outstanding == old(outstanding) + 1
      ensures ok ==> caps == old(caps)[at := CapOf(size)] && (Whole() <==> old(Whole()))
      ensures ok ==> at >= HEADER && (CleanMarks() <==>
        old(CleanMarks()) && NoneDead(dead, PageNo(at - HEADER, pageSize), PageNo(at + size - 1, pageSize)))
      ensures ok ==> regular == (old(regular) && size >= MIN_BUCKET_SIZE)
      ensures ok ==> at >= HEADER && AllocatedUpTo(old(pageAlloc), pageAlloc, at - HEADER, at + size, pageSize,
        PageNo(at - HEADER, pageSize), PageNo(at + size - 1, pageSize) + 1)
      ensures !ok ==> unchanged(this)
    {
      hide Valid, BumpAt;
      var data := BumpAt(base, fill, align);
      MultipleOf16(base + data, align);
      ok, at := false, 0;
      if data + CapOf(size) <= CHUNK_SIZE {
        Cut(data, size);
        ok, at := true, data;
      }
    }

    method Cut(data: nat, size: nat)
      requires Valid() && 0 < size < DIRECT_THRESHOLD && data >= fill + HEADER && data + CapOf(size) <= CHUNK_SIZE
      requires (base + data) % 16 == 0
      modifies this`outstanding, this`fill, this`pageAlloc, this`caps, this`slots, this`regular
      ensures Valid() && slots == old(slots) + [Slot(data, CapOf(size), size, true)] && fill == data + CapOf(size)
      ensures AllocatedUpTo(old(pageAlloc), pageAlloc, data - HEADER, data + size, pageSize,
        PageNo(data - HEADER, pageSize), PageNo(data + size - 1, pageSize) + 1)
      ensures outstanding == old(outstanding) + 1 && regular == (old(regular) && size >= MIN_BUCKET_SIZE)
      ensures caps == old(caps)[data := CapOf(size)] && (Whole() <==> old(Whole()))
      ensures CleanMarks() <==> old(CleanMarks()) && NoneDead(dead, PageNo(data - HEADER, pageSize), PageNo(data + size - 1, pageSize))
    {
      hide Aligned, Headed, Tagged, Reached, Clean, NoneDead, PageNo, PagesIn, Listed, AllPages, BucketOf, CountTrue,
        NodeOf, LiveCount, AllocatedUpTo, PageSizeOk, Laid, PageAligned, PageOk, Requested, BitLength, Share;
      var cap := CapOf(size);
      ghost var s, slots0, fill0, alloc0 := Slot(data, cap, size, true), slots, fill, pageAlloc;
      HeadersAppend(slots, caps, s, fill);
      caps := caps[data := cap];
      OnAllocPages(data - HEADER, data + size);
      fill := data + cap;
      outstanding := outstanding + 1;
      Append(slots0, s);
      ListedBump(slots0, freeHeads, s);
      ReachedBump(slots0, freeHeads, s);
      CleanBump(slots0, s, fill0, regular, alloc0, pageAlloc, pageFreed, pageNodes, dead, pageSize);
      PagesBump(slots0, s, fill0, regular, alloc0, pageAlloc, pageFreed, pageNodes, pageSize);
      LaidAppend(slots0, fill0, s);
      AlignedBump(slots0, base, s);
      slots := slots + [s];
      regular := regular && size >= MIN_BUCKET_SIZE;
    }

    // -------------------------------------------------------------- freeing

    /** Whether a freed slot goes onto a list; otherwise it is forgotten. */
    predicate Reusable(cap: nat, align: nat, reuse: bool, left: nat) {
      reuse && !(cap + HEADER >= pageSize) && cap >= MIN_BUCKET_SIZE && align <= MIN_BUCKET_SIZE && left > 0
    }

    /** Free the live slot with payload `at`, whose header is there. */
    method FreeSlot(at: nat, align: nat, reuse: bool, ghost k: nat) returns (pushed: bool)
      requires Valid() && SlotAt(k, at) && slots[k].live && at in caps
      modifies this`outstanding, this`pageNodes, this`pageFreed, this`dead, this`deadCount, this`freeHeads, this`slots
      ensures Valid() && outstanding == old(outstanding) - 1
      ensures pushed == Reusable(old(slots)[k].cap, align, reuse, outstanding)
      ensures slots == if pushed then old(slots)[k := old(slots)[k].(live := false)] else Without(old(slots), k)
      ensures at >= HEADER && at + old(slots)[k].cap <= CHUNK_SIZE
      ensures (Whole() <==> old(Whole())) && (old(CleanMarks()) ==> CleanMarks())
      ensures pushed ==> dead == old(dead) && pageFreed == old(pageFreed)
      ensures pushed ==> |old(freeHeads)| == N_BUCKETS && freeHeads == PushedOn(old(freeHeads), BucketOf(old(slots)[k].cap), at)
      ensures !pushed ==> pageNodes == old(pageNodes) && freeHeads == old(freeHeads)
      ensures !pushed ==> FreedUpTo(pageAlloc, old(pageFreed), pageFreed, at - HEADER, at + old(slots)[k].cap, pageSize,
        PageNo(at - HEADER, pageSize), PageNo(at + old(slots)[k].cap - 1, pageSize) + 1)
      ensures !pushed ==> DeadUpTo(pageAlloc, pageFreed, pageNodes, old(dead), dead,
        PageNo(at - HEADER, pageSize), PageNo(at + old(slots)[k].cap - 1, pageSize) + 1)
      ensures forall p: nat | p < nPages && dead[p] && !old(dead[p]) :: pageNodes[p] == 0
      ensures regular ==> forall p: nat | p < nPages && dead[p] && !old(dead[p]) :: Bytes(slots, PageLo(p, pageSize), PageHi(p, pageSize)) == 0
      ensures regular && !pushed ==> FreedInFull(old(pageFreed), pageFreed, old(slots)[k], pageSize)
    {
      hide Aligned, Headed, Tagged, Reached, PageNo, PagesIn, Listed, AllPages, BucketOf, CountTrue, NodeOf,
        LiveCount, Bytes, Share, PageLo, PageHi, Clean, CapWord;
      HeaderAt(slots, caps, k);
      CapThere(caps, at);
      var cap := caps[at];
      SomeLive(slots, k);
      SlotFits(slots, fill, k);
      outstanding := outstanding - 1;
      pushed := Reusable(cap, align, reuse, outstanding);
      if pushed {
        PushNode(at, cap, k);
      } else {
        Forget(at, cap, k);
      }
    }

    method PushNode(at: nat, cap: nat, ghost k: nat)
      requires Sized() && Laid(slots, fill) && fill <= CHUNK_SIZE && outstanding + 1 == LiveCount(slots)
      requires Headed(slots, caps) && Listed(slots, freeHeads) && Aligned(slots, base) && PagesOk() && deadCount == CountTrue(dead)
      requires PageAligned(base, pageSize) && SlotAt(k, at) && slots[k].live && cap == slots[k].cap && at in caps
      modifies this`pageNodes, this`freeHeads, this`slots
      ensures Valid() && slots == old(slots)[k := old(slots)[k].(live := false)] && (Whole() <==> old(Whole()))
      ensures |old(freeHeads)| == N_BUCKETS && freeHeads == PushedOn(old(freeHeads), BucketOf(cap), at)
    {
      hide Aligned, Laid, Headed, Tagged, Reached, PageNo, PagesIn, Listed, AllPages, BucketOf, CountTrue, NodeOf, LiveCount;
      ghost var s := slots[k].(live := false);
      var b := BucketOf(cap);
      var pn := PageNo(at, pageSize);
      SlotFits(slots, fill, k);
      SlotPage(slots[k], fill, pageSize, nPages);
      ListsThere(slots, freeHeads);
      ListedPush(slots, freeHeads, k, s, fill);
      ReachedPush(slots, freeHeads, k, s, fill);
      freeHeads := freeHeads[b := [at] + freeHeads[b]];
      // slots are 32 bytes apart, so the count stays within the slots of a page
      PagesPush(slots, k, s, fill, regular, pageAlloc, pageFreed, pageNodes, pageSize, pn);
      pageNodes := pageNodes[pn := pageNodes[pn] + 1];
      Change(slots, k, s);
      LaidChange(slots, k, s, fill);
      HeadersChange(slots, caps, k, s);
      AlignedKept(slots, base, k, s);
      slots := slots[k := s];
    }

    method Forget(at: nat, cap: nat, ghost k: nat)
      requires Sized() && Laid(slots, fill) && fill <= CHUNK_SIZE && outstanding + 1 == LiveCount(slots)
      requires Headed(slots, caps) && Listed(slots, freeHeads) && Aligned(slots, base) && PagesOk() && deadCount == CountTrue(dead)
      requires PageAligned(base, pageSize) && SlotAt(k, at) && slots[k].live && cap == slots[k].cap && at in caps
      modifies this`pageFreed, this`dead, this`deadCount, this`slots
      ensures Valid() && slots == Without(old(slots), k) && (Whole() <==> old(Whole())) && (old(CleanMarks()) ==> CleanMarks())
      ensures at >= HEADER && at + old(slots)[k].cap <= CHUNK_SIZE
      ensures FreedUpTo(pageAlloc, old(pageFreed), pageFreed, at - HEADER, at + old(slots)[k].cap, pageSize,
        PageNo(at - HEADER, pageSize), PageNo(at + old(slots)[k].cap - 1, pageSize) + 1)
      ensures DeadUpTo(pageAlloc, pageFreed, pageNodes, old(dead), dead,
        PageNo(at - HEADER, pageSize), PageNo(at + old(slots)[k].cap - 1, pageSize) + 1)
      ensures forall p: nat | p < nPages && dead[p] && !old(dead[p]) :: pageNodes[p] == 0
      ensures regular ==> forall p: nat | p < nPages && dead[p] && !old(dead[p]) :: Bytes(slots, PageLo(p, pageSize), PageHi(p, pageSize)) == 0
      ensures regular ==> FreedInFull(old(pageFreed), pageFreed, old(slots)[k], pageSize)
    {
      hide Aligned, Headed, Tagged, Reached, PageNo, PagesIn, Listed, AllPages, BucketOf, CountTrue, NodeOf,
        LiveCount, Bytes, Share, PageLo, PageHi, FreedUpTo, PageSizeOk, Clean;
      SlotFits(slots, fill, k);
      ghost var freed0, dead0, clean := pageFreed, dead, CleanMarks();
      ghost var first, last := PageNo(at - HEADER, pageSize), PageNo(at + cap - 1, pageSize);
      var newlyDead := OnFreePages(at - HEADER, at + cap);
      if clean {
        CleanFree(pageAlloc, freed0, pageFreed, pageNodes, dead0, dead, at - HEADER, at + cap, pageSize, first, last + 1);
      }
      PagesForget(slots, k, fill, regular, pageAlloc, freed0, pageFreed, pageNodes, pageSize);
      Remove(slots, k);
      ListedForget(slots, freeHeads, k);
      ReachedForget(slots, freeHeads, k);
      LaidWithout(slots, fill, k);
      HeadersWithout(slots, caps, k);
      AlignedKept(slots, base, k, slots[k]);
      slots := Without(slots, k);
    }

    // -------------------------------------------------------------- sweeping

    /** A run of pages goes back to the system and reads as zeros, headers and links included. */
    method MadvisePages(first: nat, count: nat)
      modifies this`caps, this`freeHeads
      ensures caps == HeadersLeft(old(caps), Run(first, count, nPages), pageSize)
      ensures freeHeads == ListsLeft(old(freeHeads), Run(first, count, nPages), pageSize)
    {
      caps, freeHeads := HeadersLeft(caps, Run(first, count, nPages), pageSize), ListsLeft(freeHeads, Run(first, count, nPages), pageSize);
    }

    /** The run of dead pages from `start` to `end - 1` goes back. */
    method ReleaseRun(start: nat, end: nat, ghost caps0: map<nat, nat>, ghost heads0: seq<seq<nat>>)
      requires |dead| == nPages && start <= end <= nPages && forall q: nat | start <= q < end :: dead[q]
      requires caps == HeadersLeft(caps0, UpTo(dead, start), pageSize) && freeHeads == ListsLeft(heads0, UpTo(dead, start), pageSize)
      modifies this`caps, this`freeHeads
      ensures caps == HeadersLeft(caps0, UpTo(dead, end), pageSize) && freeHeads == ListsLeft(heads0, UpTo(dead, end), pageSize)
    {
      hide HeadersLeft, ListLeft;
      LeftTwice(caps0, heads0, UpTo(dead, start), Run(start, end - start, nPages), UpTo(dead, end), pageSize);
      MadvisePages(start, end - start);
    }

    /** Walk the marks and hand back each run of dead pages. */
    method ReleaseRuns() returns (released: nat, runs: seq<(nat, nat)>)
      requires |dead| == nPages
      modifies this`caps, this`freeHeads
      ensures released == CountTrue(dead)
      ensures forall p: nat | p < nPages :: InRuns(runs, p) <==> dead[p]
      ensures caps == HeadersLeft(old(caps), dead, pageSize) && freeHeads == ListsLeft(old(freeHeads), dead, pageSize)
    {
      hide *;
      released, runs := 0, [];
      NoRuns();
      CountNone(dead[..0]);
      NothingLost(caps, freeHeads, UpTo(dead, 0), pageSize);
      var open, runStart := false, 0;
      for p := 0 to nPages
        invariant released + (if open then p - runStart else 0) == CountTrue(dead[..p]) && (open ==> runStart <= p)
        invariant forall q: nat | q < nPages :: (InRuns(runs, q) || (open && runStart <= q < p)) <==> q < p && dead[q]
        invariant caps == HeadersLeft(old(caps), UpTo(dead, if open then runStart else p), pageSize)
        invariant freeHeads == ListsLeft(old(freeHeads), UpTo(dead, if open then runStart else p), pageSize)
      {
        CountNext(dead, p);
        assert !dead[p] ==> UpTo(dead, p + 1) == UpTo(dead, p);
        if dead[p] {
          if !open {
            open, runStart := true, p;
          }
        } else if open {
          RunsSnoc(runs, runStart, p - runStart);
          ReleaseRun(runStart, p, old(caps), old(freeHeads));
          runs := runs + [(runStart, p - runStart)];
          released := released + (p - runStart);
          open := false;
        }
      }
      assert dead[..nPages] == dead == UpTo(dead, nPages);
      if open {
        RunsSnoc(runs, runStart, nPages - runStart);
        ReleaseRun(runStart, nPages, old(caps), old(freeHeads));
        runs := runs + [(runStart, nPages - runStart)];
        released := released + (nPages - runStart);
      }
    }

    /** Hand the dead pages back in contiguous runs. */
    method SweepDeadPages() returns (released: nat, runs: seq<(nat, nat)>)
      requires Valid()
      modifies this`dead, this`deadCount, this`caps, this`freeHeads
      ensures Valid() && CleanMarks() && deadCount == 0 && released == old(deadCount)
      ensures forall p: nat | p < nPages :: InRuns(runs, p) <==> old(dead)[p]
      ensures caps == HeadersLeft(old(caps), old(dead), pageSize) && freeHeads == ListsLeft(old(freeHeads), old(dead), pageSize)
      ensures Whole() <==> old(Whole()) && Spared(slots, old(freeHeads), old(dead), pageSize)
    {
      hide Listed, AllPages, Laid, Headed, Tagged, Reached, NodeOf, BucketOf, LiveCount, PagesIn, Spared,
        HeadersLeft, ListLeft, Aligned, InRuns;
      released, runs := 0, [];
      LeftKeeps(slots, caps, freeHeads, dead, pageSize);
      WholeExactly(slots, caps, freeHeads, dead, pageSize);
      if deadCount == 0 {
        NoRuns();
        forall p: nat | p < nPages ensures !dead[p] {
          NoneCounted(dead, p);
        }
        NothingLost(caps, freeHeads, dead, pageSize);
        return;
      }
      released, runs := ReleaseRuns();
      dead := seq(nPages, p requires 0 <= p < nPages => false);
      deadCount := 0;
      CountNone(dead);
    }

    /** Sweeping waits until 64 pages are dead. */
    method MaybeSweep() returns (released: nat)
      requires Valid()
      modifies this`dead, this`deadCount, this`caps, this`freeHeads
      ensures Valid() && released == if old(deadCount) < 64 then 0 else old(deadCount)
      ensures old(deadCount) < 64 ==> unchanged(this)
      ensures old(deadCount) >= 64 ==> deadCount == 0 && CleanMarks()
      ensures old(deadCount) >= 64 ==>
        caps == HeadersLeft(old(caps), old(dead), pageSize) && freeHeads == ListsLeft(old(freeHeads), old(dead), pageSize)
      ensures old(deadCount) >= 64 ==> (Whole() <==> old(Whole()) && Spared(slots, old(freeHeads), old(dead), pageSize))
      ensures old(regular && CleanMarks()) ==> (Whole() <==> old(Whole())) && Spared(slots, old(freeHeads), old(dead), pageSize)
    {
      hide Valid, Clean, Whole, Spared, HeadersLeft, ListLeft;
      released := 0;
      if regular && CleanMarks() {
        Untouched();
      }
      if deadCount < 64 {
        return;
      }
      var runs: seq<(nat, nat)>;
      released, runs := SweepDeadPages();
    }

    lemma Untouched()
      requires Valid() && regular && CleanMarks()
      ensures Spared(slots, freeHeads, dead, pageSize)
    {
      CleanSpares(slots, fill, freeHeads, pageAlloc, pageFreed, pageNodes, dead, pageSize);
    }

    /** The whole region goes back to the system. */
    method ReleaseAll()
      requires Valid()
      modifies this`caps, this`freeHeads
      ensures Valid()
    {
      hide Listed, AllPages, Laid, Headed, LiveCount, PagesIn, HeadersLeft, ListLeft, Aligned;
      LeftKeeps(slots, caps, freeHeads, Run(0, nPages, nPages), pageSize);
      MadvisePages(0, nPages);
    }

  }

  function PushedOn(heads: seq<seq<nat>>, b: nat, at: nat): seq<seq<nat>>
    requires b < |heads|
  {
    heads[b := [at] + heads[b]]
  }

  lemma CapThere(caps: map<nat, nat>, at: nat)
    requires at in caps
    ensures CapWord(caps, at) == caps[at]
  {
  }

  /** Pages `first` to `first + count - 1` of `n`. */
  function Run(first: nat, count: nat, n: nat): (r: seq<bool>)
    ensures |r| == n && forall p: nat | p < n :: r[p] == (first <= p < first + count)
  {
    seq(n, p requires 0 <= p < n => first <= p < first + count)
  }

  /** The marks of the pages below `k`. */
  function UpTo(marks: seq<bool>, k: nat): (r: seq<bool>)
    ensures |r| == |marks| && forall p: nat | p < |marks| :: r[p] == (p < k && marks[p])
  {
    seq(|marks|, p requires 0 <= p < |marks| => p < k && marks[p])
  }

  lemma NoRuns()
    ensures forall p: nat :: !InRuns([], p)
  {
  }

  predicate InRuns(runs: seq<(nat, nat)>, p: nat) {
    exists r :: 0 <= r < |runs| && runs[r].0 <= p < runs[r].0 + runs[r].1
  }

  lemma RunsSnoc(runs: seq<(nat, nat)>, start: nat, length: nat)
    ensures forall p: nat :: InRuns(runs + [(start, length)], p) <==> InRuns(runs, p) || start <= p < start + length
  {
    var after := runs + [(start, length)];
    forall p: nat ensures InRuns(after, p) <==> InRuns(runs, p) || start <= p < start + length {
      if InRuns(runs, p) {
        var r :| 0 <= r < |runs| && runs[r].0 <= p < runs[r].0 + runs[r].1;
        assert after[r] == runs[r];
      }
      assert after[|runs|] == (start, length);
    }
  }

  lemma {:induction false} NoneCounted(bits: seq<bool>, p: nat)
    requires CountTrue(bits) == 0 && p < |bits|
    ensures !bits[p]
    decreases |bits|
  {
    if p < |bits| - 1 {
      assert bits[..|bits| - 1][p] == bits[p];
      NoneCounted(bits[..|bits| - 1], p);
    }
  }

  lemma SlotPage(s: Slot, fill: nat, ps: nat, n: nat)
    requires Shaped(s) && End(s) <= fill <= CHUNK_SIZE && PageSizeOk(ps) && n == PagesIn(ps)
    ensures PageNo(s.at, ps) < n
  {
  }

  lemma LaidChange(slots: seq<Slot>, k: nat, s: Slot, fill: nat)
    requires Laid(slots, fill) && k < |slots| && s.at == slots[k].at && s.cap == slots[k].cap && (s.live ==> 0 < s.size <= s.cap)
    ensures Laid(slots[k := s], fill)
  {
  }

  lemma LaidAppend(slots: seq<Slot>, fill: nat, s: Slot)
    requires Laid(slots, fill) && Shaped(s) && Start(s) >= fill
    ensures Laid(slots + [s], End(s))
  {
  }

  lemma LaidWithout(slots: seq<Slot>, fill: nat, k: nat)
    requires Laid(slots, fill) && k < |slots|
    ensures Laid(Without(slots, k), fill)
  {
  }

  lemma {:induction false} SomeLive(slots: seq<Slot>, k: nat)
    requires k < |slots| && slots[k].live
    ensures LiveCount(slots) >= 1
    decreases |slots|
  {
    if k < |slots| - 1 {
      assert slots[..|slots| - 1][k] == slots[k];
      SomeLive(slots[..|slots| - 1], k);
    }
  }

  lemma SlotFits(slots: seq<Slot>, fill: nat, k: nat)
    requires Laid(slots, fill) && k < |slots|
    ensures Shaped(slots[k]) && End(slots[k]) <= fill
  {
  }

  lemma LastPage(end: nat, ps: nat, n: nat)
    requires PageSizeOk(ps) && n == PagesIn(ps) && 0 < end <= CHUNK_SIZE
    ensures PageNo(end - 1, ps) < n
  {
  }

  /** The clipped span is the page's share. */
  lemma ClipIs(start: nat, end: nat, p: nat, ps: nat)
    requires start < end && ps > 0 && PageNo(start, ps) <= p <= PageNo(end - 1, ps)
    ensures var lo := if start >= p * ps then start else p * ps;
      var hi := if end <= (p + 1) * ps then end else (p + 1) * ps;
      lo < hi && hi - lo == Share(start, end, p, ps)
  {
    Inside(start, end, p, ps);
    assert (p + 1) * ps == p * ps + ps;
  }
}

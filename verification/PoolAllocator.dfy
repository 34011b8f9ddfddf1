/**
 The pool: a list of chunks in use and a stack of chunks nobody uses. The ghost map `live` is what
 clients hold: each pointer handed out and not yet given back, with the size asked for.
 */
module PoolAllocator {
  import opened PoolSlots
  import opened PoolLists
  import opened PoolChunk
  import Numbers

  /** A payload by its chunk and offset. */
  datatype Ptr = Ptr(chunk: Chunk, at: nat)

  /**
   Where an allocation came from. `Untagged` is a block of the system's own, without a header, although a
   later deallocation will look for one: its size is one the pool takes back.
   */
  datatype Served = FromPool(ptr: Ptr) | FromSystem | Gated | Untagged | OutOfMemory

  /** What became of a deallocation; with its header zeroed, a slot has no chunk to go back to. */
  datatype Freed = TakenBack(pushed: bool) | NullChunk

  /** The header of a payload still names its chunk. */
  predicate HasHeader(ptr: Ptr)
    reads ptr.chunk`caps
  {
    ptr.at in ptr.chunk.caps
  }

  // ---------------------------------------------------------------- regions

  predicate RegionsApart(a: nat, b: nat) {
    a + CHUNK_SIZE <= b || b + CHUNK_SIZE <= a
  }

  /** No two chunks share an address. */
  ghost predicate AllApart(chunks: seq<Chunk>, free: seq<Chunk>) {
    forall c, d | c in chunks + free && d in chunks + free && c != d :: RegionsApart(c.base, d.base)
  }

  /** The system grants what it has not granted before. */
  ghost predicate Grantable(base: nat, chunks: seq<Chunk>, free: seq<Chunk>) {
    forall c | c in chunks + free :: RegionsApart(base, c.base)
  }

  lemma ApartStill(chunks: seq<Chunk>, free: seq<Chunk>, chunks': seq<Chunk>, free': seq<Chunk>)
    requires AllApart(chunks, free) && forall c | c in chunks' + free' :: c in chunks + free
    ensures AllApart(chunks', free')
  {
  }

  lemma ApartLink(c: Chunk, chunks: seq<Chunk>, free: seq<Chunk>)
    requires AllApart(chunks, free) && Grantable(c.base, chunks, free)
    ensures AllApart([c] + chunks, free)
  {
    hide RegionsApart;
    forall d, e | d in [c] + chunks + free && e in [c] + chunks + free && d != e ensures RegionsApart(d.base, e.base) {
      ApartSwap(d.base, e.base);
      ApartSwap(e.base, d.base);
    }
  }

  lemma ApartSwap(a: nat, b: nat)
    ensures RegionsApart(a, b) ==> RegionsApart(b, a)
  {
  }

  // ---------------------------------------------------------------- what clients hold

  predicate LiveAs(slots: seq<Slot>, at: nat, size: nat, k: nat) {
    k < |slots| && slots[k].live && slots[k].at == at && slots[k].size == size
  }

  ghost predicate LiveSlot(slots: seq<Slot>, at: nat, size: nat) {
    exists k: nat :: LiveAs(slots, at, size, k)
  }

  /** The pointers into chunk `c` that clients hold are exactly its live slots. */
  ghost predicate Held(slots: seq<Slot>, c: Chunk, live: map<Ptr, nat>) {
    && (forall ptr | ptr in live && ptr.chunk == c :: LiveSlot(slots, ptr.at, live[ptr]))
    && (forall k: nat | k < |slots| && slots[k].live :: Ptr(c, slots[k].at) in live)
  }

  lemma NothingHeld(slots: seq<Slot>, c: Chunk, live: map<Ptr, nat>)
    requires slots == [] && forall ptr | ptr in live :: ptr.chunk != c
    ensures Held(slots, c, live)
  {
  }

  lemma HeldElsewhere(slots: seq<Slot>, c: Chunk, live: map<Ptr, nat>, ptr: Ptr, size: nat)
    requires Held(slots, c, live) && ptr.chunk != c
    ensures Held(slots, c, live[ptr := size]) && Held(slots, c, live - {ptr})
  {
  }

  lemma HeldBump(slots: seq<Slot>, c: Chunk, live: map<Ptr, nat>, s: Slot, fill: nat)
    requires Held(slots, c, live) && Laid(slots, fill) && s.live && Start(s) >= fill
    ensures Ptr(c, s.at) !in live && Held(slots + [s], c, live[Ptr(c, s.at) := s.size])
  {
    var after, now := slots + [s], live[Ptr(c, s.at) := s.size];
    forall ptr | ptr in live && ptr.chunk == c ensures ptr.at != s.at && LiveSlot(after, ptr.at, live[ptr]) {
      var k: nat :| LiveAs(slots, ptr.at, live[ptr], k);
      assert Shaped(slots[k]);
      assert LiveAs(after, ptr.at, live[ptr], k);
    }
    assert LiveAs(after, s.at, s.size, |slots|);
    forall k: nat | k < |after| && after[k].live ensures Ptr(c, after[k].at) in now {
      if k < |slots| {
        assert after[k] == slots[k];
      }
    }
  }

  lemma HeldReuse(slots: seq<Slot>, c: Chunk, live: map<Ptr, nat>, k: nat, s: Slot, fill: nat)
    requires Held(slots, c, live) && Laid(slots, fill) && k < |slots| && !slots[k].live && s.live && s.at == slots[k].at
    ensures Ptr(c, s.at) !in live && Held(slots[k := s], c, live[Ptr(c, s.at) := s.size])
  {
    hide Laid;
    var after, now := slots[k := s], live[Ptr(c, s.at) := s.size];
    forall ptr | ptr in live && ptr.chunk == c ensures ptr.at != s.at && LiveSlot(after, ptr.at, live[ptr]) {
      var i: nat :| LiveAs(slots, ptr.at, live[ptr], i);
      if ptr.at == s.at {
        SameSlot(slots, fill, i, k);
      }
      assert LiveAs(after, ptr.at, live[ptr], i);
    }
    assert LiveAs(after, s.at, s.size, k);
    forall i: nat | i < |after| && after[i].live ensures Ptr(c, after[i].at) in now {
      if i != k {
        assert after[i] == slots[i];
      }
    }
  }

  lemma HeldFree(slots: seq<Slot>, c: Chunk, live: map<Ptr, nat>, k: nat, after: seq<Slot>, fill: nat)
    requires Held(slots, c, live) && Laid(slots, fill) && k < |slots| && slots[k].live
    requires after == slots[k := slots[k].(live := false)] || after == Without(slots, k)
    ensures Held(after, c, live - {Ptr(c, slots[k].at)})
  {
    hide Laid;
    var now := live - {Ptr(c, slots[k].at)};
    forall ptr | ptr in now && ptr.chunk == c ensures LiveSlot(after, ptr.at, now[ptr]) {
      var i: nat :| LiveAs(slots, ptr.at, live[ptr], i);
      var i' := if |after| < |slots| && i > k then i - 1 else i;
      assert LiveAs(after, ptr.at, now[ptr], i');
    }
    forall i: nat | i < |after| && after[i].live ensures Ptr(c, after[i].at) in now {
      var i' := if |after| < |slots| && i >= k then i + 1 else i;
      assert after[i] == slots[i'];
      if slots[i'].at == slots[k].at {
        SameSlot(slots, fill, i', k);
      }
    }
  }

  // ---------------------------------------------------------------- bytes over all chunks

  /** Bytes asked for, chunk by chunk. */
  ghost function Sizes(chunks: seq<Chunk>): (r: seq<nat>)
    reads chunks
    ensures |r| == |chunks| && forall i | 0 <= i < |chunks| :: r[i] == Requested(chunks[i].slots)
  {
    seq(|chunks|, i requires 0 <= i < |chunks| reads chunks => Requested(chunks[i].slots))
  }

  function SumOf(xs: seq<nat>): nat {
    if xs == [] then 0 else xs[0] + SumOf(xs[1..])
  }

  ghost function BytesHeld(chunks: seq<Chunk>): nat
    reads chunks
  {
    SumOf(Sizes(chunks))
  }

  predicate Distinct(chunks: seq<Chunk>) {
    forall i, j | 0 <= i < j < |chunks| :: chunks[i] != chunks[j]
  }

  lemma {:induction false} SumUpdate(xs: seq<nat>, i: nat, x: nat)
    requires i < |xs|
    ensures SumOf(xs[i := x]) + xs[i] == SumOf(xs) + x
    decreases |xs|
  {
    if i == 0 {
      assert xs[0 := x][1..] == xs[1..];
    } else {
      assert xs[i := x][1..] == xs[1..][i - 1 := x];
      SumUpdate(xs[1..], i - 1, x);
    }
  }

  lemma {:induction false} SumUnlink(xs: seq<nat>, i: nat)
    requires i < |xs|
    ensures SumOf(xs) == SumOf(xs[..i] + xs[i + 1..]) + xs[i]
    decreases |xs|
  {
    var r := xs[..i] + xs[i + 1..];
    if i == 0 {
      assert r == xs[1..];
    } else {
      assert r[1..] == xs[1..][..i - 1] + xs[1..][i..] && r[0] == xs[0];
      SumUnlink(xs[1..], i - 1);
    }
  }

  function Unlinked(chunks: seq<Chunk>, i: nat): (r: seq<Chunk>)
    requires i < |chunks|
    ensures |r| == |chunks| - 1 && forall j | 0 <= j < |r| :: r[j] == chunks[if j < i then j else j + 1]
  {
    chunks[..i] + chunks[i + 1..]
  }

  lemma BytesUnlink(chunks: seq<Chunk>, i: nat)
    requires i < |chunks|
    ensures BytesHeld(chunks) == BytesHeld(Unlinked(chunks, i)) + Requested(chunks[i].slots)
  {
    hide Requested, SumOf;
    SumUnlink(Sizes(chunks), i);
    assert Sizes(Unlinked(chunks, i)) == Sizes(chunks)[..i] + Sizes(chunks)[i + 1..];
  }

  lemma BytesFirst(c: Chunk, chunks: seq<Chunk>)
    requires c.slots == []
    ensures BytesHeld([c] + chunks) == BytesHeld(chunks)
  {
    assert Sizes([c] + chunks)[1..] == Sizes(chunks);
  }

  lemma {:induction false} NothingRequested(slots: seq<Slot>)
    requires LiveCount(slots) == 0
    ensures Requested(slots) == 0
    decreases |slots|
  {
    if slots != [] {
      NothingRequested(slots[..|slots| - 1]);
    }
  }

  // ---------------------------------------------------------------- the pool

  class Pool {
    const pageSize: nat
      // chunks in use, the newest first
    var chunks: seq<Chunk>
      // chunks awaiting reuse, top first
    var freeChunks: seq<Chunk>
    var pooling: bool
    var reuseMode: bool
    var chunksLive: nat
    var chunksRecycled: nat
    var bytesLive: nat
    var bytesAllocated: nat
    var pagesReleased: nat
    ghost var live: map<Ptr, nat>

    /** No chunk twice, none on both lists, and none of the waiting ones in use. */
    ghost predicate ChunksOk()
      reads this`chunks, this`freeChunks, chunks, freeChunks
    {
      && PageSizeOk(pageSize) && Distinct(chunks) && Distinct(freeChunks) && AllApart(chunks, freeChunks)
      && (forall c | c in chunks :: c !in freeChunks && c.Valid() && c.pageSize == pageSize)
      && (forall c | c in freeChunks :: c.Valid() && c.pageSize == pageSize && c.outstanding == 0)
    }

    ghost predicate LiveOk()
      reads this`chunks, this`live, chunks
    {
      && (forall ptr | ptr in live :: ptr.chunk in chunks)
      && (forall c | c in chunks :: Held(c.slots, c, live))
    }

    ghost predicate Valid()
      reads this, chunks, freeChunks
    {
      ChunksOk() && LiveOk() && chunksLive == |chunks| && bytesLive == BytesHeld(chunks)
    }

    constructor (pageSize: nat)
      requires PageSizeOk(pageSize)
      ensures Valid() && live == map[] && chunks == [] && freeChunks == []
    {
      this.pageSize := pageSize;
      chunks, freeChunks, pooling, reuseMode := [], [], true, true;
      chunksLive, chunksRecycled, bytesLive, bytesAllocated, pagesReleased := 0, 0, 0, 0, 0;
      live := map[];
    }

    method SetFreeMode(reuse: bool)
      requires Valid()
      modifies this`reuseMode
      ensures Valid() && reuseMode == reuse
    {
      reuseMode := reuse;
    }

    method SetPooling(on: bool)
      requires Valid()
      modifies this`pooling
      ensures Valid() && pooling == on
    {
      pooling := on;
    }

    /** The top of the recycle stack, emptied and linked in. */
    method PopRecycled() returns (recycled: Chunk)
      requires Valid() && |freeChunks| > 0
      modifies this`chunks, this`freeChunks, this`chunksLive, this`chunksRecycled, freeChunks[0]
      ensures Valid() && recycled == old(freeChunks)[0] && recycled.Empty()
      ensures chunks == [recycled] + old(chunks) && freeChunks == old(freeChunks)[1..] && chunksRecycled == old(chunksRecycled) + 1
    {
      hide SumOf, Requested, Held, Chunk.Valid, Chunk.Whole, Chunk.CleanMarks, BytesHeld, RegionsApart;
      recycled := freeChunks[0];
      // the recycled chunk is never still linked as in use
      assert recycled in freeChunks && recycled !in chunks;
      ghost var below := freeChunks[1..];
      ApartStill(chunks, freeChunks, chunks, below);
      freeChunks := freeChunks[1..];
      recycled.Recycle();
      Link(recycled);
      chunksRecycled := chunksRecycled + 1;
    }

    /** Put an empty chunk at the head of those in use. */
    method Link(c: Chunk)
      requires ChunksOk() && LiveOk() && chunksLive == |chunks| && bytesLive == BytesHeld(chunks)
      requires c !in chunks && c !in freeChunks && c.Valid() && c.Empty() && c.pageSize == pageSize && Grantable(c.base, chunks, freeChunks)
      modifies this`chunks, this`chunksLive
      ensures Valid() && chunks == [c] + old(chunks)
    {
      hide SumOf, Requested, Held, Chunk.Valid, BytesHeld, AllApart, Grantable;
      BytesFirst(c, chunks);
      ApartLink(c, chunks, freeChunks);
      NothingHeld(c.slots, c, live);
      chunks := [c] + chunks;
      chunksLive := chunksLive + 1;
    }

    /** What the system promises with a grant: a page boundary, and a region no chunk has. */
    ghost predicate Grants(granted: bool, base: nat)
      reads this`chunks, this`freeChunks
    {
      pageSize > 0 && (granted ==> PageAligned(base, pageSize) && Grantable(base, chunks, freeChunks))
    }

    /** A chunk from the recycle stack, else from the system if it grants one. */
    method NewChunk(granted: bool, base: nat) returns (c: Chunk?)
      requires Valid() && Grants(granted, base)
      modifies this`chunks, this`freeChunks, this`chunksLive, this`chunksRecycled, freeChunks
      ensures Valid() && forall q | q in live :: HasHeader(q) == old(HasHeader(q))
      ensures c == null <==> |old(freeChunks)| == 0 && !granted
      ensures c == null ==> unchanged(this)
      ensures c != null ==> c !in old(chunks) && chunks == [c] + old(chunks) && c.Empty()
      ensures c != null && |old(freeChunks)| > 0 ==> c == old(freeChunks)[0] && freeChunks == old(freeChunks)[1..] && chunksRecycled == old(chunksRecycled) + 1
      ensures c != null && |old(freeChunks)| == 0 ==> fresh(c) && freeChunks == []
    {
      hide SumOf, Requested, Held, Chunk.Valid, Chunk.Whole, Chunk.CleanMarks, BytesHeld, AllApart, Grantable, PageAligned;
      if |freeChunks| > 0 {
        assert freeChunks[0] in freeChunks;
        c := PopRecycled();
      } else {
        if !granted {
          return null;
        }
        var made := new Chunk(base, pageSize);
        Link(made);
        c := made;
      }
    }

    // -------------------------------------------------------------- serving

    /** A slot from the chunk's lists. */
    method ServeReuse(ghost i: nat, c: Chunk, size: nat) returns (found: bool, at: nat)
      requires Valid() && i < |chunks| && chunks[i] == c && 0 < size < DIRECT_THRESHOLD
      modifies c, this`live, this`bytesLive, this`bytesAllocated
      ensures Valid()
      ensures found ==> Ptr(c, at) !in old(live) && live == old(live)[Ptr(c, at) := size] && old(c.slots) != [] && OnSixteen(c.base, at)
      ensures found ==> bytesLive == old(bytesLive) + size && bytesAllocated == old(bytesAllocated) + size
      ensures c.caps == old(c.caps) && (found ==> at in c.caps)
      ensures !found ==> unchanged(this) && unchanged(c)
    {
      hide Chunk.Valid, Chunk.Whole, Chunk.ServedFrom, Chunk.NoneServed, BucketOf, Held, SumOf, Requested, Laid,
        OnSixteen, AllApart;
      ghost var slots, sizes := c.slots, Sizes(chunks);
      ghost var k: nat;
      LaidOf(c);
      found, at, k := c.TryReuse(size);
      if found {
        ghost var s := Slot(at, slots[k].cap, size, true);
        Change(slots, k, s);
        HeldReuse(slots, c, live, k, s, old(c.fill));
        AlignedAt(c, k);
        Serve(i, c, at, size, slots, sizes);
      }
    }

    /** A slot from the chunk's bump region. */
    method ServeBump(ghost i: nat, c: Chunk, size: nat, align: nat) returns (ok: bool, at: nat)
      requires Valid() && i < |chunks| && chunks[i] == c && 0 < size < DIRECT_THRESHOLD && align >= 16 && align % 16 == 0
      modifies c, this`live, this`bytesLive, this`bytesAllocated
      ensures Valid()
      ensures ok <==> BumpFits(c.base, old(c.fill), size, align)
      ensures ok ==> Ptr(c, at) !in old(live) && live == old(live)[Ptr(c, at) := size] && (c.base + at) % align == 0
      ensures ok ==> bytesLive == old(bytesLive) + size && bytesAllocated == old(bytesAllocated) + size
      ensures ok ==> c.caps == old(c.caps)[at := CapOf(size)]
      ensures !ok ==> unchanged(this) && unchanged(c)
    {
      hide Chunk.Valid, Chunk.Whole, Chunk.CleanMarks, NoneDead, AllApart, Held, SumOf, Requested, Laid,
        AllocatedUpTo, BumpFits, BumpAt, CapOf;
      ghost var slots, sizes := c.slots, Sizes(chunks);
      LaidOf(c);
      ok, at := c.TryBump(size, align);
      if ok {
        ghost var s := Slot(at, CapOf(size), size, true);
        Append(slots, s);
        HeldBump(slots, c, live, s, old(c.fill));
        Serve(i, c, at, size, slots, sizes);
      }
    }

    /** Bookkeeping once chunk `c` has served a slot. */
    method Serve(ghost i: nat, c: Chunk, at: nat, size: nat, ghost slots: seq<Slot>, ghost sizes: seq<nat>)
      requires ChunksOk() && i < |chunks| && chunks[i] == c && chunksLive == |chunks|
      requires forall ptr | ptr in live :: ptr.chunk in chunks
      requires forall d | d in chunks && d != c :: Held(d.slots, d, live)
      requires Held(c.slots, c, live[Ptr(c, at) := size]) && |sizes| == |chunks| && bytesLive == SumOf(sizes)
      requires sizes[i] == Requested(slots) && Requested(c.slots) == Requested(slots) + size
      requires forall j | 0 <= j < |chunks| && j != i :: sizes[j] == Requested(chunks[j].slots)
      modifies this`live, this`bytesLive, this`bytesAllocated
      ensures Valid() && live == old(live)[Ptr(c, at) := size]
      ensures bytesLive == old(bytesLive) + size && bytesAllocated == old(bytesAllocated) + size
    {
      hide Chunk.Valid, Held, SumOf, Requested;
      forall d | d in chunks && d != c ensures Held(d.slots, d, live[Ptr(c, at) := size]) {
        HeldElsewhere(d.slots, d, live, Ptr(c, at), size);
      }
      bytesLive := bytesLive + size;
      bytesAllocated := bytesAllocated + size;
      live := live[Ptr(c, at) := size];
      SumUpdate(sizes, i, Requested(c.slots));
      assert Sizes(chunks) == sizes[i := Requested(c.slots)];
    }

    /** Serve from one chunk: its lists first, then its bump region. */
    method TryChunk(i: nat, size: nat, align: nat) returns (served: bool, at: nat)
      requires Valid() && i < |chunks| && 0 < size < DIRECT_THRESHOLD && align >= 16 && align % 16 == 0
      modifies chunks[i], this`live, this`bytesLive, this`bytesAllocated
      ensures Valid()
      ensures served ==> Ptr(chunks[i], at) !in old(live) && live == old(live)[Ptr(chunks[i], at) := size]
      ensures served ==> (chunks[i].base + at) % align == 0
      ensures served ==> bytesLive == old(bytesLive) + size && bytesAllocated == old(bytesAllocated) + size
      ensures served ==> HasHeader(Ptr(chunks[i], at))
      ensures forall q | q in old(live) :: HasHeader(q) == old(HasHeader(q))
      ensures !served ==> unchanged(this) && unchanged(chunks[i])
      ensures old(chunks[i].slots) == [] && old(chunks[i].fill) == 0 && BumpFits(chunks[i].base, 0, size, align) ==> served
    {
      hide Valid, BumpFits, BumpAt;
      var chunk := chunks[i];
      if align <= MIN_BUCKET_SIZE {
        served, at := ServeReuse(i, chunk, size);
        if served {
          return;
        }
      }
      served, at := ServeBump(i, chunk, size, align);
    }

    /** Serve `size` bytes; the system may grant one chunk at address `base`. */
    method Alloc(size: nat, align: nat, granted: bool, base: nat) returns (r: Served)
      requires Valid() && PowerOfTwo(align) && Grants(granted, base)
      modifies this, chunks, freeChunks
      ensures Valid()
      ensures r.FromPool? ==> HasHeader(r.ptr)
      ensures forall q | q in old(live) :: HasHeader(q) == old(HasHeader(q))
      ensures r.Untagged? ==> 0 < size < DIRECT_THRESHOLD && old(pooling) && align >= CHUNK_SIZE
      ensures 0 < size < DIRECT_THRESHOLD && old(pooling) && align >= CHUNK_SIZE ==> r.FromPool? || r.Untagged? || r.OutOfMemory?
      ensures r.FromSystem? ==> size == 0 || size >= DIRECT_THRESHOLD
      ensures r.Gated? ==> 0 < size < DIRECT_THRESHOLD && !old(pooling)
      ensures size == 0 || size >= DIRECT_THRESHOLD ==> r == FromSystem
      ensures 0 < size < DIRECT_THRESHOLD && !old(pooling) ==> r == Gated
      ensures r.FromPool? ==> r.ptr !in old(live) && live == old(live)[r.ptr := size] && (r.ptr.chunk.base + r.ptr.at) % AtLeast16(align) == 0
      ensures r.FromPool? ==> bytesLive == old(bytesLive) + size && bytesAllocated == old(bytesAllocated) + size
      ensures !r.FromPool? ==> live == old(live) && bytesLive == old(bytesLive)
      ensures r.OutOfMemory? ==> !granted
      ensures forall c | c in chunks :: c in old(chunks) || c in old(freeChunks) || fresh(c)
      ensures forall c | c in freeChunks :: c in old(freeChunks)
      ensures reuseMode == old(reuseMode) && pooling == old(pooling) && pagesReleased == old(pagesReleased)
    {
      hide Valid, Chunk.Empty, BumpFits, PowerOfTwo, AtLeast16, HasHeader, Grants;
      if size >= DIRECT_THRESHOLD || size == 0 {
        return FromSystem;
      }
      if !pooling {
        return Gated;
      }
      var grown := false;
      if |chunks| == 0 {
        var first := NewChunk(granted, base);
        if first == null {
          return OutOfMemory;
        }
        grown := true;
      }
      r := AllocFrom(size, align, granted, base, grown);
    }

    /** Walk the chunks from the newest; grow once if all are full. */
    method AllocFrom(size: nat, align: nat, granted: bool, base: nat, grown0: bool) returns (r: Served)
      requires Valid() && PowerOfTwo(align) && 0 < size < DIRECT_THRESHOLD && |chunks| > 0
      requires if grown0 then chunks[0].Empty() else Grants(granted, base)
      modifies this, chunks, freeChunks
      ensures Valid() && !r.Gated? && !r.FromSystem? && (r.Untagged? ==> align >= CHUNK_SIZE)
      ensures r.FromPool? ==> HasHeader(r.ptr)
      ensures forall q | q in old(live) :: HasHeader(q) == old(HasHeader(q))
      ensures r.FromPool? ==> r.ptr !in old(live) && live == old(live)[r.ptr := size] && (r.ptr.chunk.base + r.ptr.at) % AtLeast16(align) == 0
      ensures r.FromPool? ==> bytesLive == old(bytesLive) + size && bytesAllocated == old(bytesAllocated) + size
      ensures !r.FromPool? ==> live == old(live) && bytesLive == old(bytesLive)
      ensures r.OutOfMemory? ==> !granted
      ensures forall c | c in chunks :: c in old(chunks) || c in old(freeChunks) || fresh(c)
      ensures forall c | c in freeChunks :: c in old(freeChunks)
      ensures reuseMode == old(reuseMode) && pooling == old(pooling) && pagesReleased == old(pagesReleased)
    {
      hide Valid, Chunk.Empty, BumpFits, PowerOfTwo, AtLeast16, HasHeader, Grants;
      var a := AtLeast16(align);
      AlignOk(align);
      var fits := HEADER + size + a <= CHUNK_SIZE;
      FitsExactly(size, align);
      var i, grown := 0, grown0;
      while true
        invariant Valid() && live == old(live) && bytesLive == old(bytesLive) && bytesAllocated == old(bytesAllocated) && i < |chunks|
        invariant forall c | c in chunks :: c in old(chunks) || c in old(freeChunks) || fresh(c)
        invariant forall c | c in freeChunks :: c in old(freeChunks)
        invariant reuseMode == old(reuseMode) && pooling == old(pooling) && pagesReleased == old(pagesReleased)
        invariant grown && fits ==> i == 0 && chunks[0].Empty()
        invariant forall q | q in old(live) :: HasHeader(q) == old(HasHeader(q))
        invariant !grown ==> !grown0 && chunks == old(chunks) && freeChunks == old(freeChunks)
        decreases if grown then 0 else 1, |chunks| - i
      {
        if grown && fits {
          EmptyOf(chunks[0]);
          FreshFits(chunks[0].base, size, align);
        }
        assert chunks[i] in chunks;
        var served, at := TryChunk(i, size, a);
        if served {
          return FromPool(Ptr(chunks[i], at));
        }
        if i + 1 == |chunks| {
          if !fits {
            return Untagged;
          }
          var made := NewChunk(granted, base);
          if made == null {
            return OutOfMemory;
          }
          grown, i := true, 0;
        } else {
          i := i + 1;
        }
      }
    }

    // -------------------------------------------------------------- freeing

    /**
     Take back a pointer; in reuse mode its slot waits on a list, otherwise it is forgotten. `marks` are the
     dead pages once the slot is free, before they are swept. A pointer whose header was swept away before
     leads nowhere.
     */
    method Dealloc(ptr: Ptr, size: nat, align: nat) returns (r: Freed, ghost k: nat, ghost marks: seq<bool>)
      requires Valid() && ptr in live && live[ptr] == size
      modifies this`live, this`bytesLive, this`chunks, this`freeChunks, this`chunksLive, this`pagesReleased, ptr.chunk
      ensures Valid() && (r.NullChunk? <==> !old(HasHeader(ptr)))
      ensures r.NullChunk? ==> unchanged(this) && unchanged(ptr.chunk)
      ensures r.TakenBack? ==> live == old(live) - {ptr} && bytesLive == old(bytesLive) - size
      ensures LiveAs(old(ptr.chunk.slots), ptr.at, size, k)
      ensures r.TakenBack? ==> ptr.chunk.outstanding == old(ptr.chunk.outstanding) - 1
      ensures r.TakenBack? ==> r.pushed == ptr.chunk.Reusable(old(ptr.chunk.slots)[k].cap, align, reuseMode, ptr.chunk.outstanding)
      ensures r.TakenBack? ==> ptr.chunk.slots == AfterFree(old(ptr.chunk.slots), k, r.pushed)
      ensures r.TakenBack? && r.pushed ==> marks == old(ptr.chunk.dead) && ptr.chunk.pageFreed == old(ptr.chunk.pageFreed)
      ensures r.TakenBack? && !r.pushed ==> Unpaged(ptr.chunk, old(ptr.chunk.pageFreed), old(ptr.chunk.dead), marks, old(ptr.chunk.slots)[k])
      ensures r.TakenBack? ==> pagesReleased == old(pagesReleased) + CountTrue(Swept(marks, ptr.chunk.outstanding))
      ensures r.TakenBack? ==> forall q | q in live ::
        HasHeader(q) <==> old(HasHeader(q)) && !(q.chunk == ptr.chunk && Zeroed(q.at - HEADER, Swept(marks, ptr.chunk.outstanding), pageSize))
      ensures old(ptr.chunk.regular && ptr.chunk.CleanMarks()) ==> forall q | q in live :: HasHeader(q) == old(HasHeader(q))
      ensures r.TakenBack? && old(ptr.chunk.CleanMarks()) && ptr.chunk.outstanding > 0 ==>
        ptr.chunk.CleanMarks() && (ptr.chunk.regular ==> (ptr.chunk.Whole() <==> old(ptr.chunk.Whole())))
      ensures r.TakenBack? && ptr.chunk.outstanding == 0 ==> freeChunks == [ptr.chunk] + old(freeChunks) && ptr.chunk !in chunks
      ensures r.TakenBack? && ptr.chunk.outstanding > 0 ==> chunks == old(chunks) && freeChunks == old(freeChunks)
      ensures forall c | c in old(chunks) && c != ptr.chunk :: c in chunks
    {
      hide Valid, LiveAs, AfterFree, Chunk.Reusable, HasHeader, Unpaged, Chunk.CleanMarks, Chunk.Whole;
      var chunk := ptr.chunk;
      ghost var i: nat;
      i, k := Locate(ptr);
      marks := [];
      if !HasHeader(ptr) {
        return NullChunk, k, marks;
      }
      var pushed: bool;
      pushed, marks := TakeBack(ptr, size, align, i, k);
      SweptIs(marks, chunk.outstanding, pageSize);
      if chunk.outstanding == 0 {
        DropChunk(chunk);
      } else {
        SweepChunk(chunk);
      }
      r := TakenBack(pushed);
    }

    lemma Locate(ptr: Ptr) returns (i: nat, k: nat)
      requires Valid() && ptr in live
      ensures i < |chunks| && chunks[i] == ptr.chunk && LiveAs(ptr.chunk.slots, ptr.at, live[ptr], k)
    {
      hide Chunk.Valid, Held, SumOf, Requested;
      i := ChunkIndex(chunks, ptr.chunk);
      k := HeldIndex(ptr.chunk.slots, ptr.chunk, live, ptr);
    }

    /** Release dead pages of a chunk once enough have gathered. */
    method SweepChunk(chunk: Chunk)
      requires Valid() && chunk in chunks
      modifies this`pagesReleased, chunk`dead, chunk`deadCount, chunk`caps, chunk`freeHeads
      ensures pagesReleased == old(pagesReleased) + CountTrue(Swept(old(chunk.dead), 1))
      ensures forall q | q in live ::
        HasHeader(q) <==> old(HasHeader(q)) && !(q.chunk == chunk && Zeroed(q.at - HEADER, Swept(old(chunk.dead), 1), pageSize))
      ensures old(chunk.CleanMarks()) ==> chunk.CleanMarks()
      ensures old(chunk.regular && chunk.CleanMarks()) ==>
        (chunk.Whole() <==> old(chunk.Whole())) && forall q | q in live :: HasHeader(q) == old(HasHeader(q))
      ensures Valid()
    {
      hide Chunk.Valid, Chunk.Whole, Chunk.CleanMarks, Held, SumOf, Requested, AllApart, CountTrue, Zeroed, Swept;
      ghost var sizes := Sizes(chunks);
      if chunk.regular && chunk.CleanMarks() {
        forall q | q in live && q.chunk == chunk ensures !Zeroed(q.at - HEADER, Swept(chunk.dead, 1), pageSize) {
          CleanKept(q);
          SweptIs(chunk.dead, 1, pageSize);
        }
      }
      var released := SweepIn(chunk);
      pagesReleased := pagesReleased + released;
      assert Sizes(chunks) == sizes;
    }

    /** A held pointer's header is on no page with a clean mark. */
    lemma CleanKept(q: Ptr)
      requires Valid() && q in live && q.chunk.regular && q.chunk.CleanMarks()
      ensures !Zeroed(q.at - HEADER, q.chunk.dead, pageSize)
    {
      hide Chunk.Valid, Chunk.CleanMarks, Held, SumOf, Requested, AllApart, Zeroed;
      var i, k := Locate(q);
      q.chunk.Untouched();
    }

    /** Free the slot in its chunk. */
    method TakeBack(ptr: Ptr, size: nat, align: nat, ghost i: nat, ghost k: nat) returns (pushed: bool, ghost marks: seq<bool>)
      requires Valid() && ptr in live && live[ptr] == size && i < |chunks| && chunks[i] == ptr.chunk && LiveAs(ptr.chunk.slots, ptr.at, size, k)
      requires HasHeader(ptr)
      modifies this`live, this`bytesLive, ptr.chunk`outstanding, ptr.chunk`pageNodes, ptr.chunk`pageFreed, ptr.chunk`dead, ptr.chunk`deadCount,
        ptr.chunk`freeHeads, ptr.chunk`slots
      ensures Valid() && live == old(live) - {ptr} && bytesLive == old(bytesLive) - size
      ensures ptr.chunk.outstanding == old(ptr.chunk.outstanding) - 1 && marks == ptr.chunk.dead
      ensures pushed == ptr.chunk.Reusable(old(ptr.chunk.slots)[k].cap, align, reuseMode, ptr.chunk.outstanding)
      ensures ptr.chunk.slots == AfterFree(old(ptr.chunk.slots), k, pushed)
      ensures pushed ==> marks == old(ptr.chunk.dead) && ptr.chunk.pageFreed == old(ptr.chunk.pageFreed)
      ensures !pushed ==> Unpaged(ptr.chunk, old(ptr.chunk.pageFreed), old(ptr.chunk.dead), marks, old(ptr.chunk.slots)[k])
      ensures (ptr.chunk.Whole() <==> old(ptr.chunk.Whole())) && (old(ptr.chunk.CleanMarks()) ==> ptr.chunk.CleanMarks())
    {
      hide Chunk.Valid, Chunk.Whole, Chunk.CleanMarks, Held, SumOf, Requested, Laid, Chunk.Reusable, LiveOk,
        AllApart, Unpaged, Without;
      var chunk := ptr.chunk;
      ghost var slots, sizes, fill := chunk.slots, Sizes(chunks), chunk.fill;
      HeldAll();
      LaidOf(chunk);
      // the slot lies in its chunk and the chunk has outstanding slots, so neither fatal is reached
      SlotFits(slots, fill, k);
      SomeLive(slots, k);
      FreedSizes(slots, k);
      pushed := FreeIn(chunk, ptr.at, align, reuseMode, k);
      marks := chunk.dead;
      HeldFree(slots, chunk, live, k, chunk.slots, fill);
      Unserve(i, ptr, size, slots, sizes);
    }

    lemma HeldAll()
      requires LiveOk()
      ensures (forall ptr | ptr in live :: ptr.chunk in chunks) && forall c | c in chunks :: Held(c.slots, c, live)
    {
    }

    /** Bookkeeping once the slot behind `ptr` is free. */
    method Unserve(ghost i: nat, ptr: Ptr, size: nat, ghost slots: seq<Slot>, ghost sizes: seq<nat>)
      requires ChunksOk() && i < |chunks| && chunks[i] == ptr.chunk && chunksLive == |chunks| && ptr in live
      requires forall q | q in live :: q.chunk in chunks
      requires forall d | d in chunks && d != ptr.chunk :: Held(d.slots, d, live)
      requires Held(ptr.chunk.slots, ptr.chunk, live - {ptr}) && |sizes| == |chunks| && bytesLive == SumOf(sizes)
      requires sizes[i] == Requested(slots) && Requested(slots) == Requested(ptr.chunk.slots) + size
      requires forall j | 0 <= j < |chunks| && j != i :: sizes[j] == Requested(chunks[j].slots)
      modifies this`live, this`bytesLive
      ensures Valid() && live == old(live) - {ptr} && bytesLive == old(bytesLive) - size
    {
      hide Chunk.Valid, Held, SumOf, Requested;
      SumMember(sizes, i);
      SumUpdate(sizes, i, Requested(ptr.chunk.slots));
      forall d | d in chunks && d != ptr.chunk ensures Held(d.slots, d, live - {ptr}) {
        HeldElsewhere(d.slots, d, live, ptr, size);
      }
      bytesLive := bytesLive - size;
      live := live - {ptr};
      assert Sizes(chunks) == sizes[i := Requested(ptr.chunk.slots)];
    }

    method Position(chunk: Chunk) returns (i: nat)
      requires chunk in chunks
      ensures i < |chunks| && chunks[i] == chunk
    {
      i := 0;
      while chunks[i] != chunk
        invariant i < |chunks| && chunk in chunks[i..]
        decreases |chunks| - i
      {
        i := i + 1;
      }
    }

    /** Move a chunk nobody uses from the list to the recycle stack; its region goes back to the system. */
    method DropChunk(chunk: Chunk)
      requires Valid() && chunk in chunks && chunk.outstanding == 0
      modifies this`chunks, this`freeChunks, this`chunksLive, chunk`caps, chunk`freeHeads
      ensures Valid() && freeChunks == [chunk] + old(freeChunks) && chunk !in chunks
      ensures forall q | q in live :: q.chunk != chunk && HasHeader(q) == old(HasHeader(q))
      ensures forall c | c in old(chunks) && c != chunk :: c in chunks
    {
      hide Chunk.Valid, Held, SumOf, Requested, AllApart, Grantable, BytesHeld;
      var i := Position(chunk);
      // the chunk is not yet on the recycle stack
      assert chunk !in freeChunks;
      UnlinkAt(i);
      chunk.ReleaseAll();
      ApartLink(chunk, chunks, freeChunks);
      ghost var recycled := [chunk] + freeChunks;
      ApartStill([chunk] + chunks, freeChunks, chunks, recycled);
      freeChunks := [chunk] + freeChunks;
    }

    /** Take the chunk at `i`, which nobody uses, off the list. */
    method UnlinkAt(i: nat)
      requires Valid() && i < |chunks| && chunks[i].outstanding == 0
      modifies this`chunks, this`chunksLive
      ensures Valid() && chunks == Unlinked(old(chunks), i) && Grantable(old(chunks)[i].base, chunks, freeChunks)
      ensures old(chunks)[i] !in chunks && forall c | c in old(chunks) && c != old(chunks)[i] :: c in chunks
      ensures forall q | q in live :: q.chunk != old(chunks)[i]
    {
      hide Chunk.Valid, Held, SumOf, Requested, RegionsApart;
      ghost var chunk := chunks[i];
      LaidOf(chunk);
      NothingRequested(chunk.slots);
      BytesUnlink(chunks, i);
      forall ptr | ptr in live ensures ptr.chunk != chunk {
        if ptr.chunk == chunk {
          NoneHeld(chunk.slots, chunk, live, ptr);
        }
      }
      UnlinkedIs(chunks, i);
      ghost var inUse := Unlinked(chunks, i);
      ApartStill(chunks, freeChunks, inUse, freeChunks);
      chunks := Unlinked(chunks, i);
      chunksLive := chunksLive - 1;
    }

    /** Serve the new size, copy, give the old slot back; `crashed` if that slot has no header any more. */
    method Realloc(ptr: Ptr, size: nat, align: nat, newSize: nat, granted: bool, base: nat) returns (r: Served, crashed: bool)
      requires Valid() && ptr in live && live[ptr] == size && PowerOfTwo(align) && Grants(granted, base)
      modifies this, chunks, freeChunks
      ensures Valid()
      ensures crashed <==> !r.OutOfMemory? && !old(HasHeader(ptr))
      ensures r.OutOfMemory? ==> live == old(live)
      ensures r.FromPool? ==> r.ptr !in old(live) && live == if crashed then old(live)[r.ptr := newSize] else old(live)[r.ptr := newSize] - {ptr}
      ensures r.FromSystem? || r.Gated? || r.Untagged? ==> live == if crashed then old(live) else old(live) - {ptr}
    {
      hide Chunk.Valid, Chunk.Whole, Chunk.CleanMarks, ChunksOk, Held, PowerOfTwo, AfterFree, Chunk.Reusable, LiveAs,
        HasHeader, Unpaged, Swept, Zeroed;
      crashed := false;
      r := Alloc(newSize, align, granted, base);
      if r.OutOfMemory? {
        return;
      }
      var back, k, marks := Dealloc(ptr, size, align);
      crashed := back.NullChunk?;
    }
  }

  /** The pages a sweep hands back: all that are marked, once there are 64 and the chunk is in use. */
  ghost function Swept(marks: seq<bool>, outstanding: nat): (r: seq<bool>)
    ensures |r| == |marks|
  {
    if outstanding > 0 && CountTrue(marks) >= 64 then marks else UpTo(marks, 0)
  }

  lemma SweptIs(marks: seq<bool>, outstanding: nat, ps: nat)
    ensures if outstanding > 0 && CountTrue(marks) >= 64 then Swept(marks, outstanding) == marks
      else CountTrue(Swept(marks, outstanding)) == 0 && forall x :: !Zeroed(x, Swept(marks, outstanding), ps)
  {
    hide CountTrue;
    CountNone(UpTo(marks, 0));
  }

  lemma SweptNone(marks: seq<bool>, outstanding: nat)
    requires outstanding == 0 || CountTrue(marks) < 64
    ensures forall p: nat | p < |marks| :: !Swept(marks, outstanding)[p]
  {
  }

  lemma CountOf(c: Chunk)
    requires c.Valid()
    ensures c.deadCount == CountTrue(c.dead) && c.pageSize > 0
  {
  }

  /** The page counters took the forgotten slot off, and marked what that freed in full. */
  ghost predicate Unpaged(c: Chunk, freed: seq<nat>, dead: seq<bool>, marks: seq<bool>, s: Slot)
    reads c`pageAlloc, c`pageFreed, c`pageNodes
  {
    && s.at >= HEADER && c.pageSize > 0
    && FreedUpTo(c.pageAlloc, freed, c.pageFreed, s.at - HEADER, End(s), c.pageSize, PageNo(s.at - HEADER, c.pageSize), PageNo(End(s) - 1, c.pageSize) + 1)
    && DeadUpTo(c.pageAlloc, c.pageFreed, c.pageNodes, dead, marks, PageNo(s.at - HEADER, c.pageSize), PageNo(End(s) - 1, c.pageSize) + 1)
  }

  /** Free a slot of the chunk, with what that does to its counters and marks. */
  method FreeIn(c: Chunk, at: nat, align: nat, reuse: bool, ghost k: nat) returns (pushed: bool)
    requires c.Valid() && c.SlotAt(k, at) && c.slots[k].live && at in c.caps
    modifies c`outstanding, c`pageNodes, c`pageFreed, c`dead, c`deadCount, c`freeHeads, c`slots
    ensures c.Valid() && c.outstanding == old(c.outstanding) - 1 && c.slots == AfterFree(old(c.slots), k, pushed)
    ensures pushed == c.Reusable(old(c.slots)[k].cap, align, reuse, c.outstanding)
    ensures pushed ==> c.dead == old(c.dead) && c.pageFreed == old(c.pageFreed)
    ensures !pushed ==> Unpaged(c, old(c.pageFreed), old(c.dead), c.dead, old(c.slots)[k])
    ensures (c.Whole() <==> old(c.Whole())) && (old(c.CleanMarks()) ==> c.CleanMarks())
  {
    hide Chunk.Valid, Chunk.Whole, Chunk.CleanMarks, Chunk.Reusable, FreedUpTo, DeadUpTo, FreedInFull, Bytes, PageNo,
      PageLo, PageHi, Without, BucketOf, PushedOn;
    SizedAt(c);
    pushed := c.FreeSlot(at, align, reuse, k);
  }

  /** What a sweep, if it is time for one, takes with it. */
  method SweepIn(c: Chunk) returns (released: nat)
    requires c.Valid()
    modifies c`dead, c`deadCount, c`caps, c`freeHeads
    ensures c.Valid() && released == CountTrue(Swept(old(c.dead), 1))
    ensures c.caps == HeadersLeft(old(c.caps), Swept(old(c.dead), 1), c.pageSize)
    ensures old(c.CleanMarks()) ==> c.CleanMarks()
    ensures old(c.regular && c.CleanMarks()) ==> (c.Whole() <==> old(c.Whole()))
  {
    hide Chunk.Valid, Chunk.Whole, Chunk.CleanMarks, Spared, HeadersLeft, ListLeft, CountTrue, Zeroed;
    CountOf(c);
    SweptIs(c.dead, 1, c.pageSize);
    if c.deadCount < 64 {
      SweptNone(c.dead, 1);
      NothingLost(c.caps, c.freeHeads, Swept(c.dead, 1), c.pageSize);
    }
    released := c.MaybeSweep();
  }

  lemma SizedAt(c: Chunk)
    requires c.Valid()
    ensures c.pageSize > 0
  {
  }

  function AfterFree(slots: seq<Slot>, k: nat, pushed: bool): seq<Slot>
    requires k < |slots|
  {
    if pushed then slots[k := slots[k].(live := false)] else Without(slots, k)
  }

  lemma ChunkIndex(chunks: seq<Chunk>, c: Chunk) returns (i: nat)
    requires c in chunks
    ensures i < |chunks| && chunks[i] == c
  {
    i :| i < |chunks| && chunks[i] == c;
  }

  lemma HeldIndex(slots: seq<Slot>, c: Chunk, live: map<Ptr, nat>, ptr: Ptr) returns (k: nat)
    requires Held(slots, c, live) && ptr in live && ptr.chunk == c
    ensures LiveAs(slots, ptr.at, live[ptr], k)
  {
    assert LiveSlot(slots, ptr.at, live[ptr]);
    k :| LiveAs(slots, ptr.at, live[ptr], k);
  }

  lemma NoneHeld(slots: seq<Slot>, c: Chunk, live: map<Ptr, nat>, ptr: Ptr)
    requires Held(slots, c, live) && ptr in live && LiveCount(slots) == 0
    ensures ptr.chunk != c
  {
    if ptr.chunk == c {
      var k := HeldIndex(slots, c, live, ptr);
      NoneLive(slots, k);
    }
  }

  lemma FreedSizes(slots: seq<Slot>, k: nat)
    requires k < |slots| && slots[k].live
    ensures Requested(slots) == Requested(slots[k := slots[k].(live := false)]) + slots[k].size
    ensures Requested(slots) == Requested(Without(slots, k)) + slots[k].size
  {
    hide Requested, Without;
    Change(slots, k, slots[k].(live := false));
    Remove(slots, k);
  }

  lemma {:induction false} SumMember(xs: seq<nat>, i: nat)
    requires i < |xs|
    ensures SumOf(xs) >= xs[i]
    decreases |xs|
  {
    if i > 0 {
      SumMember(xs[1..], i - 1);
    }
  }

  lemma UnlinkedIs(chunks: seq<Chunk>, i: nat)
    requires i < |chunks| && Distinct(chunks)
    ensures Distinct(Unlinked(chunks, i)) && chunks[i] !in Unlinked(chunks, i)
    ensures forall c | c in chunks && c != chunks[i] :: c in Unlinked(chunks, i)
    ensures forall c | c in Unlinked(chunks, i) :: c in chunks
  {
    var r := Unlinked(chunks, i);
    forall c | c in chunks && c != chunks[i] ensures c in r {
      var j :| 0 <= j < |chunks| && chunks[j] == c;
      assert r[if j < i then j else j - 1] == c;
    }
  }

  ghost predicate PowerOfTwo(align: nat) {
    exists n: nat :: align == Numbers.Pow2(n)
  }

  function AtLeast16(align: nat): (r: nat)
    ensures r >= 16
  {
    if align >= 16 then align else 16
  }

  lemma AlignOk(align: nat)
    requires PowerOfTwo(align)
    ensures AtLeast16(align) >= 16 && AtLeast16(align) % 16 == 0
  {
    if align >= 16 {
      var n: nat :| align == Numbers.Pow2(n);
      SixteenDivides(n);
    }
  }

  lemma SixteenDivides(n: nat)
    requires Numbers.Pow2(n) >= 16
    ensures n >= 4 && Numbers.Pow2(n) % 16 == 0
  {
    assert Numbers.Pow2(3) == 8 && Numbers.Pow2(4) == 16;
    if n < 4 {
      Numbers.Pow2Monotone(n, 3);
    } else {
      Numbers.Pow2Add(n - 4, 4);
      MultipleMod(Numbers.Pow2(n - 4), 16);
    }
  }

  lemma EmptyOf(c: Chunk)
    requires c.Empty()
    ensures c.slots == [] && c.fill == 0
  {
  }

  /** What fails the size test asks for an alignment of a whole chunk or more. */
  lemma FitsExactly(size: nat, align: nat)
    requires PowerOfTwo(align) && size < DIRECT_THRESHOLD
    ensures HEADER + size + AtLeast16(align) <= CHUNK_SIZE <==> align < CHUNK_SIZE
  {
    var n: nat :| align == Numbers.Pow2(n);
    BigPower();
    if n >= 26 {
      Numbers.Pow2Monotone(26, n);
    } else {
      Numbers.Pow2Monotone(n, 25);
    }
  }

  /** What fits a chunk by the size test fits a fresh one. */
  lemma FreshFits(base: nat, size: nat, align: nat)
    requires PowerOfTwo(align) && 0 < size < DIRECT_THRESHOLD && HEADER + size + AtLeast16(align) <= CHUNK_SIZE
    ensures BumpFits(base, 0, size, AtLeast16(align))
  {
    var n: nat :| align == Numbers.Pow2(n);
    if n >= 26 {
      Numbers.Pow2Monotone(26, n);
      BigPower();
    } else {
      Numbers.Pow2Monotone(n, 25);
      BigPower();
    }
  }

  lemma BigPower()
    ensures Numbers.Pow2(25) == CHUNK_SIZE / 2 && Numbers.Pow2(26) == CHUNK_SIZE
  {
    assert Numbers.Pow2(5) == 32;
    Numbers.Pow2Add(5, 5);
    Numbers.Pow2Add(10, 10);
    Numbers.Pow2Add(20, 5);
    assert Numbers.Pow2(26) == 2 * Numbers.Pow2(25);
  }

  predicate OnSixteen(base: nat, at: nat) {
    (base + at) % 16 == 0
  }

  lemma AlignedAt(c: Chunk, k: nat)
    requires c.Valid() && k < |c.slots|
    ensures OnSixteen(c.base, c.slots[k].at)
  {
  }

  lemma LaidOf(c: Chunk)
    requires c.Valid()
    ensures Laid(c.slots, c.fill) && c.fill <= CHUNK_SIZE && c.outstanding == LiveCount(c.slots)
  {
  }
}

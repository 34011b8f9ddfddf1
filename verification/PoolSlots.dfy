/**
 Slots of one pool chunk in address order: what is live, what waits on a free list, how many bytes
 of a page they cover, and which bucket a capacity belongs to.
 */
module PoolSlots {
  const CHUNK_SIZE: nat := 0x400_0000
  const DIRECT_THRESHOLD: nat := 0x10_0000
  const HEADER: nat := 16
  const MIN_BUCKET_SIZE: nat := 16
  const N_BUCKETS: nat := 17

  /** A page size the counters and the slots-per-page bound are good for. */
  predicate PageSizeOk(ps: nat): (r: bool)
    ensures r ==> ps >= 4096
  {
    ps == 4096 || ps == 8192 || ps == 16384
  }

  // ---------------------------------------------------------------- buckets

  /** Bits needed to write `n`. */
  function BitLength(n: nat): nat {
    if n == 0 then 0 else 1 + BitLength(n / 2)
  }

  function BucketOf(size: nat): (b: nat)
    ensures b < N_BUCKETS
  {
    var s := if size >= MIN_BUCKET_SIZE then size else MIN_BUCKET_SIZE;
    var lg := BitLength(s - 1);
    var capped := if lg <= N_BUCKETS - 1 + 4 then lg else N_BUCKETS - 1 + 4;
    if capped >= 4 then capped - 4 else 0
  }

  /** The capacity a request gets. */
  function CapOf(size: nat): (cap: nat)
    ensures cap >= size && cap >= MIN_BUCKET_SIZE
  {
    if size >= MIN_BUCKET_SIZE then size else MIN_BUCKET_SIZE
  }

  // ---------------------------------------------------------------- slots

  /** A slot by its payload's offset in the chunk; `size` is what was asked for. */
  datatype Slot = Slot(at: nat, cap: nat, size: nat, live: bool)

  function Start(s: Slot): int {
    s.at - HEADER
  }

  function End(s: Slot): int {
    s.at + s.cap
  }

  ghost predicate Shaped(s: Slot) {
    s.at >= HEADER && s.cap >= MIN_BUCKET_SIZE && (s.live ==> 0 < s.size <= s.cap) && s.cap < DIRECT_THRESHOLD
  }

  /** The system places a chunk at a page boundary. */
  predicate PageAligned(base: nat, ps: nat)
    requires ps > 0
  {
    base % ps == 0
  }

  /** Slots in address order, without overlap, below `fill`. */
  ghost predicate Laid(slots: seq<Slot>, fill: nat) {
    && (forall i | 0 <= i < |slots| :: Shaped(slots[i]) && End(slots[i]) <= fill)
    && (forall i, j | 0 <= i < j < |slots| :: End(slots[i]) <= Start(slots[j]))
  }

  lemma InOrder(slots: seq<Slot>, fill: nat, i: nat, j: nat)
    requires Laid(slots, fill) && i < j < |slots|
    ensures slots[i].at + 32 <= slots[j].at
  {
    assert Shaped(slots[i]) && Shaped(slots[j]) && End(slots[i]) <= Start(slots[j]);
  }

  lemma SameSlot(slots: seq<Slot>, fill: nat, i: nat, j: nat)
    requires Laid(slots, fill) && i < |slots| && j < |slots| && slots[i].at == slots[j].at
    ensures i == j
  {
    hide Laid;
    if i < j {
      InOrder(slots, fill, i, j);
    } else if j < i {
      InOrder(slots, fill, j, i);
    }
  }

  function LiveCount(slots: seq<Slot>): nat {
    if slots == [] then 0 else LiveCount(slots[..|slots| - 1]) + if slots[|slots| - 1].live then 1 else 0
  }

  /** Bytes asked for by the live slots. */
  function Requested(slots: seq<Slot>): nat {
    if slots == [] then 0 else Requested(slots[..|slots| - 1]) + if slots[|slots| - 1].live then slots[|slots| - 1].size else 0
  }

  /** Bytes that `[a, b)` and `[lo, hi)` share. */
  function Overlap(a: int, b: int, lo: int, hi: int): nat {
    var from := if a >= lo then a else lo;
    var to := if b <= hi then b else hi;
    if from < to then to - from else 0
  }

  /** Bytes of `[lo, hi)` covered by slots. */
  function Bytes(slots: seq<Slot>, lo: nat, hi: nat): nat {
    if slots == [] then 0
    else Bytes(slots[..|slots| - 1], lo, hi) + Overlap(Start(slots[|slots| - 1]), End(slots[|slots| - 1]), lo, hi)
  }

  /** Free-list nodes whose payload starts in `[lo, hi)`. */
  function NodesIn(slots: seq<Slot>, lo: nat, hi: nat): nat {
    if slots == [] then 0
    else NodesIn(slots[..|slots| - 1], lo, hi) + Waiting(slots[|slots| - 1], lo, hi)
  }

  function Waiting(s: Slot, lo: nat, hi: nat): nat {
    if !s.live && lo <= s.at < hi then 1 else 0
  }

  function Counted(s: Slot): nat {
    if s.live then 1 else 0
  }

  function Asked(s: Slot): nat {
    if s.live then s.size else 0
  }

  // ---------------------------------------------------------------- appending, changing and removing one slot

  lemma Append(slots: seq<Slot>, s: Slot)
    ensures LiveCount(slots + [s]) == LiveCount(slots) + Counted(s) && Requested(slots + [s]) == Requested(slots) + Asked(s)
  {
    assert (slots + [s])[..|slots|] == slots;
  }

  lemma AppendIn(slots: seq<Slot>, s: Slot, lo: nat, hi: nat)
    ensures Bytes(slots + [s], lo, hi) == Bytes(slots, lo, hi) + Overlap(Start(s), End(s), lo, hi)
    ensures NodesIn(slots + [s], lo, hi) == NodesIn(slots, lo, hi) + Waiting(s, lo, hi)
  {
    assert (slots + [s])[..|slots|] == slots;
  }

  lemma {:induction false} Change(slots: seq<Slot>, i: nat, s: Slot)
    requires i < |slots|
    ensures LiveCount(slots[i := s]) + Counted(slots[i]) == LiveCount(slots) + Counted(s)
    ensures Requested(slots[i := s]) + Asked(slots[i]) == Requested(slots) + Asked(s)
    decreases |slots|
  {
    var n := |slots| - 1;
    if i == n {
      assert slots[i := s][..n] == slots[..n];
    } else {
      assert slots[i := s][..n] == slots[..n][i := s];
      Change(slots[..n], i, s);
    }
  }

  lemma {:induction false} ChangeIn(slots: seq<Slot>, i: nat, s: Slot, lo: nat, hi: nat)
    requires i < |slots| && s.at == slots[i].at && s.cap == slots[i].cap
    ensures Bytes(slots[i := s], lo, hi) == Bytes(slots, lo, hi)
    ensures NodesIn(slots[i := s], lo, hi) + Waiting(slots[i], lo, hi) == NodesIn(slots, lo, hi) + Waiting(s, lo, hi)
    decreases |slots|
  {
    var n := |slots| - 1;
    if i == n {
      assert slots[i := s][..n] == slots[..n];
    } else {
      assert slots[i := s][..n] == slots[..n][i := s];
      ChangeIn(slots[..n], i, s, lo, hi);
    }
  }

  function Without(slots: seq<Slot>, i: nat): (r: seq<Slot>)
    requires i < |slots|
    ensures |r| == |slots| - 1 && forall j | 0 <= j < |r| :: r[j] == slots[if j < i then j else j + 1]
  {
    slots[..i] + slots[i + 1..]
  }

  lemma WithoutLast(slots: seq<Slot>, i: nat)
    requires i < |slots|
    ensures i == |slots| - 1 ==> Without(slots, i) == slots[..i]
    ensures i < |slots| - 1 ==> Without(slots, i)[..|slots| - 2] == Without(slots[..|slots| - 1], i)
    ensures i < |slots| - 1 ==> Without(slots, i)[|slots| - 2] == slots[|slots| - 1]
  {
  }

  lemma {:induction false} Remove(slots: seq<Slot>, i: nat)
    requires i < |slots|
    ensures LiveCount(slots) == LiveCount(Without(slots, i)) + Counted(slots[i])
    ensures Requested(slots) == Requested(Without(slots, i)) + Asked(slots[i])
    decreases |slots|
  {
    hide Without;
    WithoutLast(slots, i);
    if i < |slots| - 1 {
      Remove(slots[..|slots| - 1], i);
    }
  }

  lemma {:induction false} RemoveIn(slots: seq<Slot>, i: nat, lo: nat, hi: nat)
    requires i < |slots|
    ensures Bytes(slots, lo, hi) == Bytes(Without(slots, i), lo, hi) + Overlap(Start(slots[i]), End(slots[i]), lo, hi)
    ensures NodesIn(slots, lo, hi) == NodesIn(Without(slots, i), lo, hi) + Waiting(slots[i], lo, hi)
    decreases |slots|
  {
    hide Without, Overlap, Waiting;
    WithoutLast(slots, i);
    if i < |slots| - 1 {
      RemoveIn(slots[..|slots| - 1], i, lo, hi);
    }
  }

  // ---------------------------------------------------------------- what the counts mean

  /** No covered byte: no slot touches the interval. */
  lemma {:induction false} NoBytes(slots: seq<Slot>, lo: nat, hi: nat, i: nat)
    requires Bytes(slots, lo, hi) == 0 && i < |slots|
    ensures Overlap(Start(slots[i]), End(slots[i]), lo, hi) == 0
    decreases |slots|
  {
    hide Overlap;
    if i < |slots| - 1 {
      assert slots[..|slots| - 1][i] == slots[i];
      NoBytes(slots[..|slots| - 1], lo, hi, i);
    }
  }

  /** A covered byte belongs to some slot. */
  lemma {:induction false} SomeBytes(slots: seq<Slot>, lo: nat, hi: nat) returns (i: nat)
    requires Bytes(slots, lo, hi) > 0
    ensures i < |slots| && Overlap(Start(slots[i]), End(slots[i]), lo, hi) > 0
    decreases |slots|
  {
    hide Overlap;
    i := |slots| - 1;
    if Overlap(Start(slots[i]), End(slots[i]), lo, hi) == 0 {
      i := SomeBytes(slots[..i], lo, hi);
    }
  }

  lemma {:induction false} NoneLive(slots: seq<Slot>, i: nat)
    requires LiveCount(slots) == 0 && i < |slots|
    ensures !slots[i].live
    decreases |slots|
  {
    if i < |slots| - 1 {
      assert slots[..|slots| - 1][i] == slots[i];
      NoneLive(slots[..|slots| - 1], i);
    }
  }

  lemma {:induction false} SomeNode(slots: seq<Slot>, lo: nat, hi: nat, i: nat)
    requires i < |slots| && Waiting(slots[i], lo, hi) == 1
    ensures NodesIn(slots, lo, hi) >= 1
    decreases |slots|
  {
    if i < |slots| - 1 {
      assert slots[..|slots| - 1][i] == slots[i];
      SomeNode(slots[..|slots| - 1], lo, hi, i);
    }
  }

  /** Slots are at least 32 bytes apart, so only so many start in an interval. */
  lemma {:induction false} NodesSpread(slots: seq<Slot>, fill: nat, lo: nat, hi: nat)
    requires Laid(slots, fill)
    ensures NodesIn(slots, lo, hi) == 0 || 32 * NodesIn(slots, lo, hi) <= slots[|slots| - 1].at - lo + 32
    decreases |slots|
  {
    if slots != [] {
      var n := |slots| - 1;
      var before := slots[..n];
      NodesSpread(before, fill, lo, hi);
      if n > 0 {
        assert Shaped(slots[n - 1]) && Shaped(slots[n]) && End(slots[n - 1]) <= Start(slots[n]);
        assert before[|before| - 1] == slots[n - 1];
      }
    }
  }

  lemma {:induction false} NodesBound(slots: seq<Slot>, fill: nat, lo: nat, hi: nat)
    requires Laid(slots, fill) && lo < hi
    ensures 32 * NodesIn(slots, lo, hi) < hi - lo + 32
    decreases |slots|
  {
    if slots != [] {
      var n := |slots| - 1;
      if slots[n].at < hi {
        NodesSpread(slots, fill, lo, hi);
      } else {
        NodesBound(slots[..n], fill, lo, hi);
      }
    }
  }

  // ---------------------------------------------------------------- pages

  /** The page an offset lies on. */
  function PageNo(x: nat, ps: nat): nat
    requires ps > 0
  {
    x / ps
  }

  function PagesIn(ps: nat): nat
    requires ps > 0
  {
    CHUNK_SIZE / ps
  }

  function PageLo(p: nat, ps: nat): nat {
    p * ps
  }

  function PageHi(p: nat, ps: nat): nat {
    p * ps + ps
  }

  /** The pages a span of bytes touches. */
  lemma PageOf(x: nat, p: nat, ps: nat)
    requires ps > 0
    ensures PageNo(x, ps) == p <==> PageLo(p, ps) <= x < PageHi(p, ps)
  {
    var q := x / ps;
    assert x == q * ps + x % ps;
    if q < p {
      assert (q + 1) * ps <= p * ps by {
        Multiples(q + 1, p, ps);
      }
    } else if q > p {
      assert (p + 1) * ps <= q * ps by {
        Multiples(p + 1, q, ps);
      }
    }
  }

  lemma PageWide(p: nat, ps: nat)
    ensures PageHi(p, ps) == PageLo(p, ps) + ps
  {
  }

  lemma Multiples(a: nat, b: nat, c: nat)
    requires a <= b
    ensures a * c <= b * c
  {
  }

  lemma PageMonotone(a: nat, b: nat, ps: nat)
    requires a <= b && ps > 0
    ensures PageNo(a, ps) <= PageNo(b, ps)
  {
    hide PageNo, PageLo, PageHi;
    var p, q := PageNo(a, ps), PageNo(b, ps);
    PageOf(a, p, ps);
    PageOf(b, q, ps);
    if q < p {
      PageOrder(q, p, ps);
    }
  }

  lemma PageOrder(p: nat, q: nat, ps: nat)
    requires p < q
    ensures PageHi(p, ps) <= PageLo(q, ps)
  {
    Multiples(p + 1, q, ps);
  }

  /** Pages outside those of the first and the last byte share nothing with the span. */
  lemma Outside(a: nat, b: nat, p: nat, ps: nat)
    requires a < b && ps > 0 && !(PageNo(a, ps) <= p <= PageNo(b - 1, ps))
    ensures Overlap(a, b, PageLo(p, ps), PageHi(p, ps)) == 0
  {
    hide PageNo, PageLo, PageHi;
    PageOf(a, PageNo(a, ps), ps);
    PageOf(b - 1, PageNo(b - 1, ps), ps);
    if p < PageNo(a, ps) {
      PageOrder(p, PageNo(a, ps), ps);
    } else {
      PageOrder(PageNo(b - 1, ps), p, ps);
    }
  }

  lemma Inside(a: nat, b: nat, p: nat, ps: nat)
    requires a < b && ps > 0 && PageNo(a, ps) <= p <= PageNo(b - 1, ps)
    ensures PageLo(p, ps) < b && a < PageHi(p, ps)
  {
    hide PageNo, PageLo, PageHi;
    PageWide(p, ps);
    PageOf(a, PageNo(a, ps), ps);
    PageOf(b - 1, PageNo(b - 1, ps), ps);
    if PageNo(a, ps) < p {
      PageOrder(PageNo(a, ps), p, ps);
    }
    if p < PageNo(b - 1, ps) {
      PageOrder(p, PageNo(b - 1, ps), ps);
    }
  }

  /** Bytes of a page below `fill`. */
  function Below(fill: nat, lo: nat, hi: nat): nat {
    Overlap(0, fill, lo, hi)
  }

  lemma BelowGrows(fill: nat, a: nat, b: nat, lo: nat, hi: nat)
    requires fill <= a <= b && lo <= hi
    ensures Below(fill, lo, hi) + Overlap(a, b, lo, hi) <= Below(b, lo, hi) <= hi - lo
  {
  }

}

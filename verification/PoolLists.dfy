/**
 What the pool keeps inside the slots' own memory: the header before each payload, with the capacity and
 the way back to the chunk, and the link in the first bytes of each waiting payload. Pages handed back to
 the system read as zeros, and take headers and links with them.
 */
module PoolLists {
  import opened PoolSlots

  // ---------------------------------------------------------------- free lists

  ghost predicate NodeOf(slots: seq<Slot>, at: nat, b: nat) {
    exists i: nat :: i < |slots| && slots[i].at == at && !slots[i].live && BucketOf(slots[i].cap) == b
  }

  /** The lists hold only slots that are not live, at most once each, in their bucket. */
  ghost predicate Listed(slots: seq<Slot>, heads: seq<seq<nat>>) {
    && |heads| == N_BUCKETS
    && (forall b: nat, j: nat | b < N_BUCKETS && j < |heads[b]| :: NodeOf(slots, heads[b][j], b))
    && (forall b: nat, j: nat, k: nat | b < N_BUCKETS && j < k < |heads[b]| :: heads[b][j] != heads[b][k])
  }

  /** Every slot that is not live is on its list. */
  ghost predicate Reached(slots: seq<Slot>, heads: seq<seq<nat>>) {
    |heads| == N_BUCKETS && forall i: nat | i < |slots| && !slots[i].live :: slots[i].at in heads[BucketOf(slots[i].cap)]
  }

  lemma ListedBump(slots: seq<Slot>, heads: seq<seq<nat>>, s: Slot)
    requires Listed(slots, heads) && s.live
    ensures Listed(slots + [s], heads)
  {
    hide BucketOf;
    var after := slots + [s];
    forall b: nat, j: nat | b < N_BUCKETS && j < |heads[b]| ensures NodeOf(after, heads[b][j], b) {
      assert NodeOf(slots, heads[b][j], b);
      var i: nat :| i < |slots| && slots[i].at == heads[b][j] && !slots[i].live && BucketOf(slots[i].cap) == b;
      assert after[i] == slots[i];
    }
  }

  lemma ListedForget(slots: seq<Slot>, heads: seq<seq<nat>>, k: nat)
    requires Listed(slots, heads) && k < |slots| && slots[k].live
    ensures Listed(Without(slots, k), heads)
  {
    hide BucketOf;
    var after := Without(slots, k);
    forall b: nat, j: nat | b < N_BUCKETS && j < |heads[b]| ensures NodeOf(after, heads[b][j], b) {
      assert NodeOf(slots, heads[b][j], b);
      var i: nat :| i < |slots| && slots[i].at == heads[b][j] && !slots[i].live && BucketOf(slots[i].cap) == b;
      var i' := if i < k then i else i - 1;
      assert after[i'] == slots[i];
    }
  }

  lemma ListedPush(slots: seq<Slot>, heads: seq<seq<nat>>, k: nat, s: Slot, fill: nat)
    requires Laid(slots, fill) && Listed(slots, heads) && k < |slots| && slots[k].live
    requires s.at == slots[k].at && s.cap == slots[k].cap && !s.live
    ensures Listed(slots[k := s], heads[BucketOf(s.cap) := [s.at] + heads[BucketOf(s.cap)]])
  {
    hide BucketOf, Laid;
    var c := BucketOf(s.cap);
    var after, lists := slots[k := s], heads[c := [s.at] + heads[c]];
    forall b: nat, j: nat | b < N_BUCKETS && j < |heads[b]| ensures NodeOf(after, heads[b][j], b) && heads[b][j] != s.at {
      assert NodeOf(slots, heads[b][j], b);
      var i: nat :| i < |slots| && slots[i].at == heads[b][j] && !slots[i].live && BucketOf(slots[i].cap) == b;
      assert after[i] == slots[i];
      if heads[b][j] == s.at {
        SameSlot(slots, fill, i, k);
      }
    }
    assert after[k] == s;
    assert NodeOf(after, s.at, c);
    forall b: nat, j: nat | b < N_BUCKETS && j < |lists[b]| ensures NodeOf(after, lists[b][j], b) {
      if b == c {
        assert j > 0 ==> lists[b][j] == heads[b][j - 1];
      }
    }
    forall b: nat, j: nat, l: nat | b < N_BUCKETS && j < l < |lists[b]| ensures lists[b][j] != lists[b][l] {
      if b == c {
        assert lists[b][l] == heads[b][l - 1];
        assert j > 0 ==> lists[b][j] == heads[b][j - 1];
      }
    }
  }

  function Unlink(list: seq<nat>, j: nat): (r: seq<nat>)
    requires j < |list|
    ensures |r| == |list| - 1 && forall i | 0 <= i < |r| :: r[i] == list[if i < j then i else i + 1]
  {
    list[..j] + list[j + 1..]
  }

  lemma ListedPop(slots: seq<Slot>, heads: seq<seq<nat>>, b: nat, j: nat, k: nat, s: Slot, fill: nat)
    requires Laid(slots, fill) && Listed(slots, heads) && b < N_BUCKETS && j < |heads[b]| && k < |slots| && slots[k].at == heads[b][j]
    requires s.at == slots[k].at && s.cap == slots[k].cap && s.live
    ensures !slots[k].live && BucketOf(slots[k].cap) == b
    ensures Listed(slots[k := s], heads[b := Unlink(heads[b], j)])
  {
    hide BucketOf, Laid;
    var after, lists := slots[k := s], heads[b := Unlink(heads[b], j)];
    NodeIndex(slots, heads, b, j, k, fill);
    forall c: nat, i: nat | c < N_BUCKETS && i < |lists[c]| ensures NodeOf(after, lists[c][i], c) {
      var i' := if c == b && i >= j then i + 1 else i;
      assert lists[c][i] == heads[c][i'];
      assert NodeOf(slots, heads[c][i'], c);
      var m: nat :| m < |slots| && slots[m].at == heads[c][i'] && !slots[m].live && BucketOf(slots[m].cap) == c;
      assert m != k;
      assert after[m] == slots[m];
    }
  }

  lemma NodeIndex(slots: seq<Slot>, heads: seq<seq<nat>>, b: nat, j: nat, k: nat, fill: nat)
    requires Laid(slots, fill) && Listed(slots, heads) && b < N_BUCKETS && j < |heads[b]| && k < |slots| && slots[k].at == heads[b][j]
    ensures !slots[k].live && BucketOf(slots[k].cap) == b
  {
    hide BucketOf, Laid;
    assert NodeOf(slots, heads[b][j], b);
    var i: nat :| i < |slots| && slots[i].at == heads[b][j] && !slots[i].live && BucketOf(slots[i].cap) == b;
    SameSlot(slots, fill, i, k);
  }

  lemma ListsThere(slots: seq<Slot>, heads: seq<seq<nat>>)
    requires Listed(slots, heads)
    ensures |heads| == N_BUCKETS
  {
  }

  lemma NodeSlot(slots: seq<Slot>, heads: seq<seq<nat>>, b: nat, j: nat) returns (k: nat)
    requires Listed(slots, heads) && b < N_BUCKETS && |heads| == N_BUCKETS && j < |heads[b]|
    ensures k < |slots| && slots[k].at == heads[b][j] && !slots[k].live && BucketOf(slots[k].cap) == b
  {
    assert NodeOf(slots, heads[b][j], b);
    k :| k < |slots| && slots[k].at == heads[b][j] && !slots[k].live && BucketOf(slots[k].cap) == b;
  }

  lemma NothingListed(heads: seq<seq<nat>>)
    requires |heads| == N_BUCKETS && forall b | 0 <= b < N_BUCKETS :: heads[b] == []
    ensures Listed([], heads) && Reached([], heads) && Laid([], 0) && LiveCount([]) == 0
    ensures forall caps :: Headed([], caps) && Tagged([], caps)
  {
  }

  // ---------------------------------------------------------------- what stays reachable

  lemma ReachedBump(slots: seq<Slot>, heads: seq<seq<nat>>, s: Slot)
    requires s.live
    ensures Reached(slots + [s], heads) <==> Reached(slots, heads)
  {
    hide BucketOf;
    var after := slots + [s];
    assert forall i: nat | i < |slots| :: after[i] == slots[i];
  }

  lemma ReachedForget(slots: seq<Slot>, heads: seq<seq<nat>>, k: nat)
    requires k < |slots| && slots[k].live
    ensures Reached(Without(slots, k), heads) <==> Reached(slots, heads)
  {
    hide BucketOf;
    var after := Without(slots, k);
    forall i: nat | i < |slots| && i != k ensures after[if i < k then i else i - 1] == slots[i] {
    }
  }

  lemma ReachedPush(slots: seq<Slot>, heads: seq<seq<nat>>, k: nat, s: Slot, fill: nat)
    requires Laid(slots, fill) && |heads| == N_BUCKETS && k < |slots| && slots[k].live
    requires s.at == slots[k].at && s.cap == slots[k].cap && !s.live
    ensures Reached(slots[k := s], heads[BucketOf(s.cap) := [s.at] + heads[BucketOf(s.cap)]]) <==> Reached(slots, heads)
  {
    hide BucketOf, Laid;
    var c := BucketOf(s.cap);
    var after, lists := slots[k := s], heads[c := [s.at] + heads[c]];
    assert lists[c][0] == s.at;
    forall i: nat | i < |slots| && i != k
      ensures after[i] == slots[i] && (after[i].at in lists[BucketOf(after[i].cap)] <==> slots[i].at in heads[BucketOf(slots[i].cap)])
    {
      if slots[i].at == s.at {
        SameSlot(slots, fill, i, k);
      }
    }
  }

  lemma ReachedPop(slots: seq<Slot>, heads: seq<seq<nat>>, b: nat, j: nat, k: nat, s: Slot, fill: nat)
    requires Laid(slots, fill) && Listed(slots, heads) && b < N_BUCKETS && j < |heads[b]| && k < |slots| && slots[k].at == heads[b][j]
    requires s.at == slots[k].at && s.cap == slots[k].cap && s.live
    ensures Reached(slots[k := s], heads[b := Unlink(heads[b], j)]) <==> Reached(slots, heads)
  {
    hide BucketOf, Laid;
    var after, lists := slots[k := s], heads[b := Unlink(heads[b], j)];
    NodeIndex(slots, heads, b, j, k, fill);
    forall i: nat | i < |slots| && i != k
      ensures after[i] == slots[i] && (after[i].at in lists[BucketOf(after[i].cap)] <==> slots[i].at in heads[BucketOf(slots[i].cap)])
    {
      if slots[i].at == slots[k].at {
        SameSlot(slots, fill, i, k);
      }
      UnlinkKeeps(heads[b], j, slots[i].at);
    }
  }

  lemma UnlinkKeeps(list: seq<nat>, j: nat, at: nat)
    requires j < |list| && at != list[j]
    ensures at in Unlink(list, j) <==> at in list
  {
    if at in list {
      var m: nat :| m < |list| && list[m] == at;
      assert Unlink(list, j)[if m < j then m else m - 1] == at;
    }
  }

  // ---------------------------------------------------------------- headers

  /** What headers there are hold their slot's capacity. */
  ghost predicate Headed(slots: seq<Slot>, caps: map<nat, nat>) {
    forall i: nat | i < |slots| && slots[i].at in caps :: caps[slots[i].at] == slots[i].cap
  }

  /** Every slot has its header. */
  ghost predicate Tagged(slots: seq<Slot>, caps: map<nat, nat>) {
    forall i: nat | i < |slots| :: slots[i].at in caps
  }

  /** The capacity word before payload `at`: zero once its page was handed back. */
  function CapWord(caps: map<nat, nat>, at: nat): nat {
    if at in caps then caps[at] else 0
  }

  lemma HeadersAppend(slots: seq<Slot>, caps: map<nat, nat>, s: Slot, fill: nat)
    requires Laid(slots, fill) && Start(s) >= fill && Headed(slots, caps)
    ensures Headed(slots + [s], caps[s.at := s.cap])
    ensures Tagged(slots + [s], caps[s.at := s.cap]) <==> Tagged(slots, caps)
  {
    var after := slots + [s];
    forall i: nat | i < |slots| ensures after[i] == slots[i] && slots[i].at != s.at {
      assert Shaped(slots[i]);
    }
  }

  lemma HeadersChange(slots: seq<Slot>, caps: map<nat, nat>, k: nat, s: Slot)
    requires Headed(slots, caps) && k < |slots| && s.at == slots[k].at && s.cap == slots[k].cap
    ensures Headed(slots[k := s], caps) && (Tagged(slots[k := s], caps) <==> Tagged(slots, caps))
  {
    var after := slots[k := s];
    assert forall i: nat | i < |slots| :: after[i].at == slots[i].at;
  }

  lemma HeadersWithout(slots: seq<Slot>, caps: map<nat, nat>, k: nat)
    requires Headed(slots, caps) && k < |slots|
    ensures Headed(Without(slots, k), caps)
    ensures slots[k].at in caps ==> (Tagged(Without(slots, k), caps) <==> Tagged(slots, caps))
  {
    var after := Without(slots, k);
    forall i: nat | i < |slots| && i != k ensures after[if i < k then i else i - 1] == slots[i] {
    }
  }

  lemma HeaderAt(slots: seq<Slot>, caps: map<nat, nat>, k: nat)
    requires Headed(slots, caps) && k < |slots|
    ensures CapWord(caps, slots[k].at) == if slots[k].at in caps then slots[k].cap else 0
  {
  }

  // ---------------------------------------------------------------- pages that read as zeros

  /** Byte `x` lies on one of the marked pages. */
  predicate Zeroed(x: int, gone: seq<bool>, ps: nat) {
    ps > 0 && 0 <= x && PageNo(x, ps) < |gone| && gone[PageNo(x, ps)]
  }

  /** The headers that are not on a marked page. */
  function HeadersLeft(caps: map<nat, nat>, gone: seq<bool>, ps: nat): (r: map<nat, nat>) {
    map at | at in caps && !Zeroed(at - HEADER, gone, ps) :: caps[at]
  }

  /** The nodes of a list up to the first whose link is on a marked page. */
  function ListLeft(list: seq<nat>, gone: seq<bool>, ps: nat): (r: seq<nat>)
    ensures r <= list
  {
    if list == [] then []
    else if Zeroed(list[0], gone, ps) then [list[0]]
    else [list[0]] + ListLeft(list[1..], gone, ps)
  }

  function ListsLeft(heads: seq<seq<nat>>, gone: seq<bool>, ps: nat): (r: seq<seq<nat>>)
    ensures |r| == |heads| && forall b: nat | b < |heads| :: r[b] == ListLeft(heads[b], gone, ps)
  {
    seq(|heads|, b requires 0 <= b < |heads| => ListLeft(heads[b], gone, ps))
  }

  /** A list stays whole exactly when no link but the last is on a marked page. */
  lemma {:induction false} ListLeftWhole(list: seq<nat>, gone: seq<bool>, ps: nat)
    ensures ListLeft(list, gone, ps) == list <==> forall j: nat | j + 1 < |list| :: !Zeroed(list[j], gone, ps)
  {
    hide Zeroed;
    if |list| > 1 {
      var rest := list[1..];
      ListLeftWhole(rest, gone, ps);
      assert list == [list[0]] + rest;
      assert forall j: nat | 0 < j && j + 1 < |list| :: list[j] == rest[j - 1];
      assert forall j: nat | j + 1 < |rest| :: rest[j] == list[j + 1];
    }
  }

  /** Zeroing twice is zeroing both at once. */
  lemma {:induction false} ListLeftTwice(list: seq<nat>, a: seq<bool>, b: seq<bool>, c: seq<bool>, ps: nat)
    requires |a| == |b| == |c| && forall p: nat | p < |c| :: c[p] == (a[p] || b[p])
    ensures ListLeft(ListLeft(list, a, ps), b, ps) == ListLeft(list, c, ps)
  {
    hide PageNo;
    if list != [] && !Zeroed(list[0], a, ps) {
      var rest := ListLeft(list[1..], a, ps);
      assert ListLeft(list, a, ps)[1..] == rest;
      ListLeftTwice(list[1..], a, b, c, ps);
    }
  }

  lemma LeftTwice(caps: map<nat, nat>, heads: seq<seq<nat>>, a: seq<bool>, b: seq<bool>, c: seq<bool>, ps: nat)
    requires |a| == |b| == |c| && forall p: nat | p < |c| :: c[p] == (a[p] || b[p])
    ensures HeadersLeft(HeadersLeft(caps, a, ps), b, ps) == HeadersLeft(caps, c, ps)
    ensures ListsLeft(ListsLeft(heads, a, ps), b, ps) == ListsLeft(heads, c, ps)
  {
    hide PageNo;
    forall i: nat | i < |heads| ensures ListLeft(ListLeft(heads[i], a, ps), b, ps) == ListLeft(heads[i], c, ps) {
      ListLeftTwice(heads[i], a, b, c, ps);
    }
  }

  lemma NothingLost(caps: map<nat, nat>, heads: seq<seq<nat>>, gone: seq<bool>, ps: nat)
    requires forall p: nat | p < |gone| :: !gone[p]
    ensures HeadersLeft(caps, gone, ps) == caps && ListsLeft(heads, gone, ps) == heads
  {
    hide PageNo;
    forall b: nat | b < |heads| ensures ListLeft(heads[b], gone, ps) == heads[b] {
      ListLeftWhole(heads[b], gone, ps);
    }
  }

  /** Headers that are left are right, and lists that are left hold waiting slots. */
  lemma LeftKeeps(slots: seq<Slot>, caps: map<nat, nat>, heads: seq<seq<nat>>, gone: seq<bool>, ps: nat)
    requires Headed(slots, caps) && Listed(slots, heads)
    ensures Headed(slots, HeadersLeft(caps, gone, ps)) && Listed(slots, ListsLeft(heads, gone, ps))
  {
    hide Zeroed, BucketOf, NodeOf;
    var lists := ListsLeft(heads, gone, ps);
    forall b: nat, j: nat | b < N_BUCKETS && j < |lists[b]| ensures j < |heads[b]| && lists[b][j] == heads[b][j] {
      assert lists[b] <= heads[b];
    }
  }

  /** No header and no link that leads on is on a marked page. */
  ghost predicate Spared(slots: seq<Slot>, heads: seq<seq<nat>>, gone: seq<bool>, ps: nat) {
    && (forall i: nat | i < |slots| :: !Zeroed(slots[i].at - HEADER, gone, ps))
    && (forall b: nat, j: nat | b < |heads| && j + 1 < |heads[b]| :: !Zeroed(heads[b][j], gone, ps))
  }

  /** Every slot keeps its header and its place on a list exactly when all had them and were spared. */
  lemma WholeExactly(slots: seq<Slot>, caps: map<nat, nat>, heads: seq<seq<nat>>, gone: seq<bool>, ps: nat)
    requires Listed(slots, heads)
    ensures (Tagged(slots, HeadersLeft(caps, gone, ps)) && Reached(slots, ListsLeft(heads, gone, ps)))
      <==> (Tagged(slots, caps) && Reached(slots, heads) && Spared(slots, heads, gone, ps))
  {
    hide Zeroed, BucketOf;
    var lists := ListsLeft(heads, gone, ps);
    forall b: nat | b < |heads|
      ensures lists[b] == heads[b] <==> forall j: nat | j + 1 < |heads[b]| :: !Zeroed(heads[b][j], gone, ps)
    {
      ListLeftWhole(heads[b], gone, ps);
    }
    if Reached(slots, lists) {
      forall b: nat | b < |heads| ensures lists[b] == heads[b] {
        assert lists[b] <= heads[b];
        if |lists[b]| < |heads[b]| {
          var k := NodeSlot(slots, heads, b, |lists[b]|);
          assert false;
        }
      }
    }
    if Reached(slots, heads) && Spared(slots, heads, gone, ps) {
      assert lists == heads;
    }
    if Tagged(slots, caps) && Spared(slots, heads, gone, ps) {
      assert Tagged(slots, HeadersLeft(caps, gone, ps));
    }
  }
}

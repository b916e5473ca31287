/** The symmetric heap's first-fit free-list allocator. */
module SymHeaps {
  import opened Machine
  import opened HeapSpec

  // ---- Sorting and merging the free list ----

  predicate Aligned(s: seq<Block>) {
    forall i :: 0 <= i < |s| ==> s[i].start % 8 == 0 && s[i].len % 8 == 0
  }

  predicate Apart(a: Block, b: Block) {
    a.End() <= b.start || b.End() <= a.start
  }

  /** Non-empty blocks, no two sharing a byte, every end address representable. */
  predicate Disjoint(s: seq<Block>) {
    && (forall i :: 0 <= i < |s| ==> s[i].len > 0 && s[i].End() <= USIZE_MAX)
    && (forall i, j :: 0 <= i < j < |s| ==> Apart(s[i], s[j]))
  }

  /** Disjoint and in address order, possibly touching. */
  predicate Stacked(s: seq<Block>) {
    && (forall i :: 0 <= i < |s| ==> s[i].len > 0 && s[i].End() <= USIZE_MAX)
    && (forall i, j :: 0 <= i < j < |s| ==> s[i].End() <= s[j].start)
  }

  function InsertByStart(b: Block, s: seq<Block>): (r: seq<Block>)
    ensures multiset(r) == multiset(s) + multiset{b}
    ensures |r| == |s| + 1
    ensures FreeTotal(r) == b.len + FreeTotal(s)
  {
    if s == [] then [b]
    else if b.start <= s[0].start then [b] + s
    else
      assert s == [s[0]] + s[1..];
      [s[0]] + InsertByStart(b, s[1..])
  }

  /** The library's stable sort on the start address. */
  function SortByStart(s: seq<Block>): (r: seq<Block>)
    ensures multiset(r) == multiset(s) && |r| == |s|
    ensures FreeTotal(r) == FreeTotal(s)
  {
    if s == [] then []
    else
      assert s == [s[0]] + s[1..];
      InsertByStart(s[0], SortByStart(s[1..]))
  }

  lemma SameMembers(s: seq<Block>, t: seq<Block>)
    requires multiset(s) == multiset(t)
    ensures forall b :: b in s <==> b in t
  {
    forall b
      ensures b in s <==> b in t
    {
      assert b in multiset(s) <==> b in multiset(t);
    }
  }

  lemma StackOnto(b: Block, t: seq<Block>)
    requires Stacked(t) && b.len > 0 && b.End() <= USIZE_MAX
    requires forall c :: c in t ==> b.End() <= c.start
    ensures Stacked([b] + t)
  {
  }

  lemma {:induction false} InsertStacks(b: Block, s: seq<Block>)
    requires Stacked(s) && b.len > 0 && b.End() <= USIZE_MAX
    requires forall c :: c in s ==> Apart(b, c)
    ensures Stacked(InsertByStart(b, s))
  {
    if s == [] {
    } else if b.start <= s[0].start {
      assert s[0] in s;
      StackOnto(b, s);
    } else {
      assert s[0] in s;
      var rest := s[1..];
      InsertStacks(b, rest);
      var t := InsertByStart(b, rest);
      SameMembers(t, rest + [b]);
      StackOnto(s[0], t);
    }
  }

  lemma {:induction false} SortStacks(s: seq<Block>)
    requires Disjoint(s)
    ensures Stacked(SortByStart(s))
  {
    if s != [] {
      var rest := s[1..];
      var t := SortByStart(rest);
      SortStacks(rest);
      SameMembers(t, rest);
      forall c | c in t
        ensures Apart(s[0], c)
      {
        assert c in rest;
        var k :| 0 <= k < |rest| && rest[k] == c;
        assert Apart(s[0], s[k + 1]);
      }
      InsertStacks(s[0], t);
    }
  }

  lemma SameCover(s: seq<Block>, t: seq<Block>, x: int)
    requires multiset(s) == multiset(t)
    ensures Covers(s, x) <==> Covers(t, x)
  {
    SameMembers(s, t);
    if Covers(s, x) {
      var i :| 0 <= i < |s| && s[i].Has(x);
      assert s[i] in t;
    }
    if Covers(t, x) {
      var i :| 0 <= i < |t| && t[i].Has(x);
      assert t[i] in s;
    }
  }

  lemma CoversConcat(s: seq<Block>, t: seq<Block>, x: int)
    ensures Covers(s + t, x) <==> Covers(s, x) || Covers(t, x)
  {
    if Covers(s, x) {
      var i :| 0 <= i < |s| && s[i].Has(x);
      assert (s + t)[i] == s[i];
    }
    if Covers(t, x) {
      var i :| 0 <= i < |t| && t[i].Has(x);
      assert (s + t)[|s| + i] == t[i];
    }
  }

  lemma CoversAppend(s: seq<Block>, b: Block, x: int)
    ensures Covers(s + [b], x) <==> Covers(s, x) || b.Has(x)
  {
    CoversConcat(s, [b], x);
    assert [b][0] == b;
  }

  lemma {:induction false} FreeTotalAppend(s: seq<Block>, b: Block)
    ensures FreeTotal(s + [b]) == FreeTotal(s) + b.len
  {
    if s == [] {
      assert [b][1..] == [];
    } else {
      assert (s + [b])[1..] == s[1..] + [b];
      FreeTotalAppend(s[1..], b);
    }
  }

  /** A merged list: non-empty blocks in address order, no two of them touching. */
  predicate Merged(s: seq<Block>) {
    Ordered(s) && forall i :: 0 <= i < |s| ==> s[i].len > 0 && s[i].End() <= USIZE_MAX
  }

  ghost predicate SameBytes(s: seq<Block>, t: seq<Block>) {
    (forall x :: Covers(s, x) <==> Covers(t, x)) && FreeTotal(s) == FreeTotal(t)
  }

  /** The drain loop's invariant: `merged` stands for the first `i` sorted blocks. */
  ghost predicate Drained(merged: seq<Block>, sorted: seq<Block>, i: nat) {
    && i <= |sorted|
    && Merged(merged)
    && SameBytes(merged, sorted[..i])
    && (merged != [] && i < |sorted| ==> merged[|merged| - 1].End() <= sorted[i].start)
  }

  lemma AppendSame(s: seq<Block>, t: seq<Block>, b: Block)
    requires SameBytes(s, t)
    ensures SameBytes(s + [b], t + [b])
  {
    FreeTotalAppend(s, b);
    FreeTotalAppend(t, b);
    forall x
      ensures Covers(s + [b], x) <==> Covers(t + [b], x)
    {
      CoversAppend(s, b, x);
      CoversAppend(t, b, x);
    }
  }

  lemma SameTrans(s: seq<Block>, t: seq<Block>, u: seq<Block>)
    requires SameBytes(s, t) && SameBytes(t, u)
    ensures SameBytes(s, u)
  {
  }

  /** One block standing for two that touch. */
  lemma FuseSame(init: seq<Block>, last: Block, block: Block, grown: Block)
    requires last.End() == block.start && grown.start == last.start && grown.End() == block.End()
    ensures SameBytes(init + [grown], init + [last] + [block])
  {
    FreeTotalAppend(init, grown);
    FreeTotalAppend(init, last);
    FreeTotalAppend(init + [last], block);
    forall x
      ensures Covers(init + [grown], x) <==> Covers(init + [last] + [block], x)
    {
      CoversAppend(init, grown, x);
      CoversAppend(init, last, x);
      CoversAppend(init + [last], block, x);
    }
  }

  lemma PushBlock(merged: seq<Block>, sorted: seq<Block>, i: nat)
    requires Stacked(sorted) && i < |sorted| && Drained(merged, sorted, i)
    requires merged != [] ==> merged[|merged| - 1].End() != sorted[i].start
    ensures Drained(merged + [sorted[i]], sorted, i + 1)
  {
    assert sorted[..i + 1] == sorted[..i] + [sorted[i]];
    AppendSame(merged, sorted[..i], sorted[i]);
  }

  lemma GrowLast(merged: seq<Block>, sorted: seq<Block>, i: nat, grown: Block)
    requires Stacked(sorted) && i < |sorted| && Drained(merged, sorted, i) && merged != []
    requires merged[|merged| - 1].End() == sorted[i].start
    requires grown.start == merged[|merged| - 1].start && grown.End() == sorted[i].End()
    ensures Drained(merged[|merged| - 1 := grown], sorted, i + 1)
  {
    GrowKeepsMerged(merged, grown);
    GrowSameBytes(merged, sorted[..i], sorted[i], grown);
    assert sorted[..i + 1] == sorted[..i] + [sorted[i]];
  }

  lemma GrowSameBytes(merged: seq<Block>, done: seq<Block>, block: Block, grown: Block)
    requires merged != [] && SameBytes(merged, done)
    requires merged[|merged| - 1].End() == block.start
    requires grown.start == merged[|merged| - 1].start && grown.End() == block.End()
    ensures SameBytes(merged[|merged| - 1 := grown], done + [block])
  {
    var init, last := merged[..|merged| - 1], merged[|merged| - 1];
    assert merged == init + [last] && merged[|merged| - 1 := grown] == init + [grown];
    FuseSame(init, last, block, grown);
    AppendSame(merged, done, block);
    SameTrans(init + [grown], merged + [block], done + [block]);
  }

  lemma GrowKeepsMerged(merged: seq<Block>, grown: Block)
    requires Merged(merged) && merged != []
    requires grown.start == merged[|merged| - 1].start && grown.len > 0 && grown.End() <= USIZE_MAX
    ensures Merged(merged[|merged| - 1 := grown])
  {
  }

  lemma SortSameBytes(blocks: seq<Block>)
    ensures SameBytes(SortByStart(blocks), blocks)
  {
    forall x
      ensures Covers(SortByStart(blocks), x) <==> Covers(blocks, x)
    {
      SameCover(SortByStart(blocks), blocks, x);
    }
  }

  /** Sort, then drain into a new list, growing its last block while the next one touches it. */
  method Coalesce(blocks: seq<Block>) returns (merged: seq<Block>)
    requires Disjoint(blocks)
    ensures Merged(merged)
    ensures SameBytes(merged, blocks)
  {
    var sorted := SortByStart(blocks);
    SortStacks(blocks);
    SortSameBytes(blocks);
    merged := [];
    for i := 0 to |sorted|
      invariant Drained(merged, sorted, i)
    {
      var block := sorted[i];
      if |merged| > 0 {
        var last := merged[|merged| - 1];
        var end: usize := last.start + last.len;
        if end == block.start {
          var len: usize := last.len + block.len;
          GrowLast(merged, sorted, i, Block(last.start, len));
          merged := merged[|merged| - 1 := Block(last.start, len)];
          continue;
        }
      }
      PushBlock(merged, sorted, i);
      merged := merged + [block];
    }
    assert sorted[..|sorted|] == sorted;
  }

  // ---- First fit is the least feasible offset ----

  predicate FirstFitAt(free: seq<Block>, requested: nat, i: nat) {
    i < |free| && free[i].len >= requested && forall k :: 0 <= k < i ==> free[k].len < requested
  }

  lemma FirstFitIsPlace(capacity: nat, live: Live, free: seq<Block>, requested: nat, i: nat)
    requires Gaps(capacity, live, free) && requested > 0 && FirstFitAt(free, requested, i)
    ensures Place(capacity, live, requested) == Some(free[i].start)
  {
    BlockIsFeasible(capacity, live, free, i, requested);
    var o := Place(capacity, live, requested).value;
    var k := RunInOneBlock(capacity, live, free, o, requested);
    assert free[k].start >= free[i].start;
  }

  lemma NoFitIsNoPlace(capacity: nat, live: Live, free: seq<Block>, requested: nat)
    requires Gaps(capacity, live, free) && requested > 0
    requires forall k :: 0 <= k < |free| ==> free[k].len < requested
    ensures Place(capacity, live, requested) == None
  {
    var r := Place(capacity, live, requested);
    if r.Some? {
      var k := RunInOneBlock(capacity, live, free, r.value, requested);
      assert false;
    }
  }

  /** Index of the first block of at least `requested` bytes. */
  method FirstFit(free: seq<Block>, requested: nat) returns (index: Option<nat>)
    ensures index.Some? ==> FirstFitAt(free, requested, index.value)
    ensures index.None? ==> forall k :: 0 <= k < |free| ==> free[k].len < requested
  {
    for i := 0 to |free|
      invariant forall k :: 0 <= k < i ==> free[k].len < requested
    {
      if free[i].len >= requested { return Some(i); }
    }
    index := None;
  }

  // ---- Malloc and free keep the free list equal to the gaps ----

  function Take(free: seq<Block>, i: nat, n: nat): seq<Block>
    requires i < |free| && n <= free[i].len && free[i].End() <= USIZE_MAX
  {
    if free[i].len == n then free[..i] + free[i + 1..]
    else
      var start: usize, len: usize := free[i].start + n, free[i].len - n;
      free[i := Block(start, len)]
  }

  /** Remove a block that fits exactly, or shrink it in place from the front. */
  method TakeBlock(free: seq<Block>, index: nat, requested: usize) returns (rest: seq<Block>)
    requires index < |free| && requested <= free[index].len && free[index].End() <= USIZE_MAX
    ensures rest == Take(free, index, requested)
  {
    rest := free;
    var block := free[index];
    if block.len == requested {
      rest := rest[..index] + rest[index + 1..];
    } else {
      var start: usize, len: usize := block.start + requested, block.len - requested;
      rest := rest[index := Block(start, len)];
    }
  }

  /** What covers a byte: the blocks before, at, and after an index. */
  lemma CoversSplit(free: seq<Block>, i: nat, mid: seq<Block>, x: int)
    requires i < |free|
    ensures Covers(free[..i] + mid + free[i + 1..], x) <==>
            Covers(free[..i], x) || Covers(mid, x) || Covers(free[i + 1..], x)
  {
    CoversConcat(free[..i] + mid, free[i + 1..], x);
    CoversConcat(free[..i], mid, x);
  }

  lemma CoversAfterTake(free: seq<Block>, i: nat, n: nat, x: int)
    requires Ordered(free) && i < |free| && 0 < n <= free[i].len && free[i].End() <= USIZE_MAX
    ensures Covers(Take(free, i, n), x) <==> Covers(free, x) && !(free[i].start <= x < free[i].start + n)
  {
    var b := free[i];
    assert [b][0] == b;
    CoversSplit(free, i, [b], x);
    assert free == free[..i] + [b] + free[i + 1..];
    assert Covers(free[..i], x) ==> x < b.start;
    assert Covers(free[i + 1..], x) ==> b.End() < x;
    if b.len == n {
      CoversSplit(free, i, [], x);
      assert Take(free, i, n) == free[..i] + [] + free[i + 1..];
    } else {
      var c := Block(b.start + n, b.len - n);
      assert [c][0] == c;
      CoversSplit(free, i, [c], x);
      assert Take(free, i, n) == free[..i] + [c] + free[i + 1..];
    }
  }

  lemma GapsAfterMalloc(capacity: nat, live: Live, free: seq<Block>, i: nat, n: nat)
    requires WellFormed(capacity, live) && Gaps(capacity, live, free) && capacity <= USIZE_MAX
    requires i < |free| && 0 < n <= free[i].len && n % 8 == 0
    ensures free[i].start !in live
    ensures WellFormed(capacity, live[free[i].start := n])
    ensures Gaps(capacity, live[free[i].start := n], Take(free, i, n))
  {
    var o := free[i].start;
    BlockIsFeasible(capacity, live, free, i, n);
    InsertKeepsWellFormed(capacity, live, o, n);
    forall x | 0 <= x < capacity
      ensures Covers(Take(free, i, n), x) <==> !InUse(live[o := n], x)
    {
      CoversAfterTake(free, i, n, x);
      InUseAfterInsert(live, o, n, x);
    }
  }

  lemma MallocRefinesSpec(capacity: nat, live: Live, free: seq<Block>, size: usize, i: nat)
    requires Gaps(capacity, live, free)
    requires 0 < size && size + 7 <= USIZE_MAX && FirstFitAt(free, RoundUp8(size), i)
    ensures MallocSpec(capacity, live, size) == Ok(free[i].start)
    ensures AfterMalloc(capacity, live, size) == live[free[i].start := RoundUp8(size)]
  {
    FirstFitIsPlace(capacity, live, free, RoundUp8(size), i);
  }

  /** The freed block shares no byte with the free list, so the two may be merged. */
  lemma FreedIsDisjoint(capacity: nat, live: Live, free: seq<Block>, b: Block)
    requires WellFormed(capacity, live) && Gaps(capacity, live, free) && capacity <= USIZE_MAX
    requires b.start in live && live[b.start] == b.len
    ensures Disjoint(free + [b]) && Aligned(free + [b])
  {
    forall i | 0 <= i < |free|
      ensures Apart(free[i], b)
    {
      var x := if free[i].start < b.start then b.start else free[i].start;
      assert InUse(live, b.start);
      assert b.Has(x) ==> InUse(live, x);
      assert free[i].Has(x) ==> Covers(free, x);
    }
  }

  /** A byte outside a list of merged blocks lies just before, and just after, each of them. */
  lemma EdgesAreFree(merged: seq<Block>, i: nat)
    requires Merged(merged) && i < |merged|
    ensures Covers(merged, merged[i].start) && !Covers(merged, merged[i].start as int - 1)
    ensures Covers(merged, merged[i].End() - 1) && !Covers(merged, merged[i].End())
  {
    assert merged[i].Has(merged[i].start) && merged[i].Has(merged[i].End() - 1);
  }

  lemma StartEdge(blocks: seq<Block>, x: int)
    requires Aligned(blocks) && Covers(blocks, x) && !Covers(blocks, x - 1)
    ensures x % 8 == 0
  {
    var j :| 0 <= j < |blocks| && blocks[j].Has(x);
    assert !blocks[j].Has(x - 1);
  }

  lemma EndEdge(blocks: seq<Block>, x: int)
    requires Aligned(blocks) && Covers(blocks, x - 1) && !Covers(blocks, x)
    ensures x % 8 == 0
  {
    var j :| 0 <= j < |blocks| && blocks[j].Has(x - 1);
    assert !blocks[j].Has(x);
  }

  /** A maximal run of bytes starts and ends at the edges of blocks that make it up. */
  lemma MergedIsAligned(blocks: seq<Block>, merged: seq<Block>)
    requires Merged(merged) && SameBytes(merged, blocks) && Aligned(blocks)
    ensures Aligned(merged)
  {
    forall i | 0 <= i < |merged|
      ensures merged[i].start % 8 == 0 && merged[i].len % 8 == 0
    {
      EdgesAreFree(merged, i);
      StartEdge(blocks, merged[i].start);
      EndEdge(blocks, merged[i].End());
    }
  }

  lemma GapsAfterFree(capacity: nat, live: Live, free: seq<Block>, b: Block, merged: seq<Block>)
    requires WellFormed(capacity, live) && Gaps(capacity, live, free)
    requires b.start in live && live[b.start] == b.len
    requires Aligned(free + [b]) && Merged(merged) && SameBytes(merged, free + [b])
    ensures WellFormed(capacity, live - {b.start}) && Gaps(capacity, live - {b.start}, merged)
  {
    MergedIsAligned(free + [b], merged);
    forall x
      ensures Covers(merged, x) <==> Covers(free, x) || b.Has(x)
    {
      CoversAppend(free, b, x);
    }
    forall x | 0 <= x < capacity
      ensures Covers(merged, x) <==> !InUse(live - {b.start}, x)
    {
      InUseAfterRemove(capacity, live, b.start, x);
    }
    forall i | 0 <= i < |merged|
      ensures merged[i].End() <= capacity
    {
      assert merged[i].Has(merged[i].End() - 1);
      assert Covers(merged, merged[i].End() - 1);
    }
  }

  // ---- Symmetric pointers ----

  /** Byte offset of a symmetric address from a heap base. */
  function OffsetFrom(ptr: usize, localBase: usize): Result<usize> {
    match CheckedSub(ptr, localBase)
    case Some(offset) => Ok(offset)
    case None => Err(BelowBase)
  }

  /** The same offset in a peer's heap. */
  function ToRemoteAddr(ptr: usize, localBase: usize, peerBase: usize): Result<usize> {
    var offset :- OffsetFrom(ptr, localBase);
    match CheckedAdd(peerBase, offset)
    case Some(address) => Ok(address)
    case None => Err(RemoteOverflow)
  }

  // ---- The allocator ----

  /** Number of 64-bit words backing a heap of `size` bytes. */
  function WordsFor(size: usize): Result<usize> {
    if size < 8 then Err(HeapTooSmall)
    else match CheckedAdd(size, 7)
      case None => Err(SizeOverflow)
      case Some(padded) => Ok(padded / 8)
  }

  /** A heap of `size` bytes gets the least multiple of 8 that holds it, and `words * 8` fits. */
  lemma WordsForIsExact(size: usize)
    ensures WordsFor(size).Ok? <==> 8 <= size && size + 7 <= USIZE_MAX
    ensures WordsFor(size).Ok? ==> WordsFor(size).value * 8 == RoundUp8(size) <= USIZE_MAX
  {
  }

  predicate Held(base: nat, allocations: map<usize, usize>, o: int) {
    base + o in allocations
  }

  /** An allocation map keyed by address, read by offset from the heap base. */
  ghost function ByOffset(base: nat, capacity: nat, allocations: map<usize, usize>): Live {
    map o: nat | o < capacity && Held(base, allocations, o) :: allocations[base + o]
  }

  lemma ByOffsetInsert(base: nat, capacity: nat, allocations: map<usize, usize>, o: nat, ptr: usize, n: usize)
    requires o < capacity && ptr == base + o
    ensures ByOffset(base, capacity, allocations[ptr := n]) == ByOffset(base, capacity, allocations)[o := n]
  {
    var changed := allocations[ptr := n];
    forall p: nat
      ensures p != o ==> (Held(base, changed, p) <==> Held(base, allocations, p))
      ensures p != o && Held(base, changed, p) ==> changed[base + p] == allocations[base + p]
    {
      assert base + p == ptr <==> p == o;
    }
    assert Held(base, changed, o) && changed[base + o] == n;
  }

  lemma ByOffsetRemove(base: nat, capacity: nat, allocations: map<usize, usize>, o: nat, ptr: usize)
    requires ptr == base + o
    ensures ByOffset(base, capacity, allocations - {ptr}) == ByOffset(base, capacity, allocations) - {o}
  {
    var after := ByOffset(base, capacity, allocations - {ptr});
    var before := ByOffset(base, capacity, allocations);
    forall p: nat
      ensures p in after <==> p in before && p != o
    {
      assert Held(base, allocations - {ptr}, p) <==> Held(base, allocations, p) && p != o;
    }
  }

  /** The allocator's invariant, on the values of its fields. */
  ghost predicate Consistent(base: nat, capacity: nat, free: seq<Block>, allocations: map<usize, usize>) {
    && base % 8 == 0
    && capacity <= USIZE_MAX
    && base + capacity <= USIZE_MAX + 1
    && (forall a :: a in allocations ==> base <= a < base + capacity)
    && WellFormed(capacity, ByOffset(base, capacity, allocations))
    && Gaps(capacity, ByOffset(base, capacity, allocations), free)
  }

  lemma MakeConsistent(base: nat, capacity: nat, live: Live, free: seq<Block>, allocations: map<usize, usize>)
    requires base % 8 == 0 && capacity <= USIZE_MAX && base + capacity <= USIZE_MAX + 1
    requires forall a :: a in allocations ==> base <= a < base + capacity
    requires live == ByOffset(base, capacity, allocations)
    requires WellFormed(capacity, live) && Gaps(capacity, live, free)
    ensures Consistent(base, capacity, free, allocations)
  {
  }

  lemma MallocKeepsConsistent(base: nat, capacity: nat, free: seq<Block>, allocations: map<usize, usize>,
                              i: nat, n: usize, ptr: usize)
    requires Consistent(base, capacity, free, allocations)
    requires n > 0 && n % 8 == 0 && i < |free| && n <= free[i].len && ptr == base + free[i].start
    ensures ptr % 8 == 0
    ensures Consistent(base, capacity, Take(free, i, n), allocations[ptr := n])
    ensures ByOffset(base, capacity, allocations[ptr := n])
            == ByOffset(base, capacity, allocations)[free[i].start := n]
  {
    var live := ByOffset(base, capacity, allocations);
    SumAligned(base, free[i].start, ptr);
    GapsAfterMalloc(capacity, live, free, i, n);
    ByOffsetInsert(base, capacity, allocations, free[i].start, ptr, n);
    MakeConsistent(base, capacity, live[free[i].start := n], Take(free, i, n), allocations[ptr := n]);
  }

  lemma LiveBlock(base: nat, capacity: nat, free: seq<Block>, allocations: map<usize, usize>,
                  ptr: usize, start: usize)
    requires Consistent(base, capacity, free, allocations) && ptr in allocations && ptr == base + start
    ensures start % 8 == 0 && start + allocations[ptr] <= capacity
    ensures Disjoint(free + [Block(start, allocations[ptr])])
  {
    var live := ByOffset(base, capacity, allocations);
    assert Held(base, allocations, start);
    assert start in live && live[start] == allocations[ptr];
    FreedIsDisjoint(capacity, live, free, Block(start, allocations[ptr]));
  }

  lemma FreeKeepsConsistent(base: nat, capacity: nat, free: seq<Block>, allocations: map<usize, usize>,
                            ptr: usize, block: Block, merged: seq<Block>)
    requires Consistent(base, capacity, free, allocations) && ptr in allocations
    requires ptr == base + block.start && block.len == allocations[ptr]
    requires Merged(merged) && SameBytes(merged, free + [block])
    ensures Consistent(base, capacity, merged, allocations - {ptr})
    ensures ByOffset(base, capacity, allocations - {ptr}) == ByOffset(base, capacity, allocations) - {block.start}
  {
    var live := ByOffset(base, capacity, allocations);
    assert Held(base, allocations, block.start);
    assert block.start in live && live[block.start] == allocations[ptr];
    FreedIsDisjoint(capacity, live, free, block);
    GapsAfterFree(capacity, live, free, block, merged);
    ByOffsetRemove(base, capacity, allocations, block.start, ptr);
    MakeConsistent(base, capacity, live - {block.start}, merged, allocations - {ptr});
  }

  class SymHeap {
    const words: usize
    const localBase: usize
    var free: seq<Block>
    var allocations: map<usize, usize>

    function Capacity(): nat { words * 8 }

    ghost function Live(): Live
      reads this
    {
      ByOffset(localBase, Capacity(), allocations)
    }

    ghost predicate Valid()
      reads this
    {
      Consistent(localBase, Capacity(), free, allocations)
    }

    /** A region of `words` words that the system allocator placed at `base`. */
    constructor (words: usize, base: usize)
      requires words > 0 && base % 8 == 0 && words * 8 <= USIZE_MAX && base + words * 8 <= USIZE_MAX + 1
      ensures Valid() && this.words == words && localBase == base
      ensures Live() == map[] && free == [Block(0, words * 8)]
    {
      this.words, localBase := words, base;
      free, allocations := [Block(0, words * 8)], map[];
      new;
      assert forall x :: 0 <= x < Capacity() ==> free[0].Has(x);
    }

    method Malloc(size: usize) returns (r: Result<usize>)
      requires Valid()
      modifies this
      ensures Valid()
      ensures var spec := MallocSpec(Capacity(), old(Live()), size);
              match r
              case Ok(ptr) => spec.Ok? && ptr == localBase + spec.value
              case Err(e) => spec == Err(e)
      ensures Live() == AfterMalloc(Capacity(), old(Live()), size)
      ensures r.Err? ==> free == old(free) && allocations == old(allocations)
      ensures r.Ok? ==> r.value % 8 == 0 && allocations == old(allocations)[r.value := RoundUp8(size)]
    {
      if size == 0 { return Err(ZeroSize); }
      var padded := CheckedAdd(size, 7);
      if padded.None? { return Err(SizeOverflow); }
      var requested: usize := AlignDown(padded.value);
      assert requested == RoundUp8(size);
      var position := FirstFit(free, requested);
      if position.None? {
        NoFitIsNoPlace(Capacity(), Live(), free, requested);
        return Err(HeapExhausted);
      }
      MallocRefinesSpec(Capacity(), Live(), free, size, position.value);
      var ptr := Claim(position.value, requested);
      r := Ok(ptr);
    }

    /** Take `requested` bytes from the front of a free block and record the allocation. */
    method Claim(index: nat, requested: usize) returns (ptr: usize)
      requires Valid() && requested > 0 && requested % 8 == 0
      requires index < |free| && requested <= free[index].len
      modifies this
      ensures Valid() && ptr % 8 == 0 && ptr == localBase + old(free[index].start)
      ensures Live() == old(Live()[free[index].start := requested])
      ensures allocations == old(allocations)[ptr := requested]
    {
      var block := free[index];
      ptr := localBase + block.start;
      MallocKeepsConsistent(localBase, Capacity(), free, allocations, index, requested, ptr);
      free := TakeBlock(free, index, requested);
      allocations := allocations[ptr := requested];
    }

    method Free(ptr: usize) returns (r: Result<()>)
      requires Valid()
      modifies this
      ensures Valid()
      ensures r == if ptr in old(allocations) then Ok(()) else Err(InvalidPointer)
      ensures allocations == old(allocations) - {ptr}
      ensures r.Ok? ==> Live() == old(Live()) - {ptr - localBase}
      ensures r.Err? ==> free == old(free) && allocations == old(allocations)
    {
      if ptr !in allocations { return Err(InvalidPointer); }
      var len := allocations[ptr];
      ghost var before := allocations;
      allocations := allocations - {ptr};
      var offset := CheckedSub(ptr, localBase);
      if offset.None? { return Err(InvalidPointer); }
      var start := offset.value;
      LiveBlock(localBase, Capacity(), free, before, ptr, start);
      var end := CheckedAdd(start, len);
      if end.None? || end.value > words * 8 || start % 8 != 0 { return Err(InvalidPointer); }
      var block := Block(start, len);
      var merged := Coalesce(free + [block]);
      FreeKeepsConsistent(localBase, Capacity(), free, before, ptr, block, merged);
      free := merged;
      r := Ok(());
    }
  }

  /** Build a heap of at least `size` bytes in the region the system allocator placed at `base`;
      `registered` and `packed` are the transport's answers about that region. */
  method WithSize(size: usize, base: usize, registered: Result<()>, packed: Result<()>) returns (r: Result<SymHeap>)
    requires WordsFor(size).Ok? ==> base % 8 == 0 && base + RoundUp8(size) <= USIZE_MAX + 1
    ensures r.Ok? <==> 8 <= size && size + 7 <= USIZE_MAX && registered.Ok? && packed.Ok?
    ensures r.Err? ==> r.error == if size < 8 then HeapTooSmall
                                  else if size + 7 > USIZE_MAX then SizeOverflow
                                  else if registered.Err? then registered.error
                                  else packed.error
    ensures r.Ok? ==> fresh(r.value) && r.value.Valid() && r.value.localBase == base
    ensures r.Ok? ==> r.value.Capacity() == RoundUp8(size) && r.value.Live() == map[]
    ensures r.Ok? ==> r.value.free == [Block(0, RoundUp8(size))]
  {
    WordsForIsExact(size);
    var words :- WordsFor(size);
    var _ :- registered;
    var _ :- packed;
    var heap := new SymHeap(words, base);
    r := Ok(heap);
  }
}

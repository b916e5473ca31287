/** What a symmetric heap means: a map from live offsets to lengths, the bytes it leaves
    free, and the one free list that describes those bytes. */
module HeapSpec {
  import opened Machine

  datatype Block = Block(start: usize, len: usize) {
    function End(): nat { start + len }

    predicate Has(x: int) { start <= x < End() }
  }

  /** Offset of each live allocation, with its length in bytes. */
  type Live = map<nat, nat>

  ghost predicate InUse(live: Live, x: int) {
    exists o :: o in live && o <= x < o + live[o]
  }

  /** Live allocations are non-empty, 8-aligned, inside the heap and pairwise disjoint. */
  ghost predicate WellFormed(capacity: nat, live: Live) {
    && capacity % 8 == 0
    && (forall o :: o in live ==> live[o] > 0 && o % 8 == 0 && live[o] % 8 == 0 && o + live[o] <= capacity)
    && (forall o, p :: o in live && p in live && o < p ==> o + live[o] <= p)
  }

  /** `n` contiguous bytes at `o` exist and none of them is in use. */
  ghost predicate Feasible(capacity: nat, live: Live, o: nat, n: nat) {
    o + n <= capacity && forall x :: o <= x < o + n ==> !InUse(live, x)
  }

  /** Reference allocator: search the heap byte by byte for the first feasible offset. */
  ghost function Place(capacity: nat, live: Live, n: nat, from: nat := 0): (r: Option<nat>)
    ensures r.Some? ==> from <= r.value && Feasible(capacity, live, r.value, n)
    ensures r.Some? ==> forall p :: from <= p < r.value ==> !Feasible(capacity, live, p, n)
    ensures r.None? ==> forall p :: from <= p ==> !Feasible(capacity, live, p, n)
    decreases capacity - from
  {
    if from + n > capacity then None
    else if Feasible(capacity, live, from, n) then Some(from)
    else if from == capacity then None
    else Place(capacity, live, n, from + 1)
  }

  function RoundUp8(size: nat): (r: nat)
    ensures r % 8 == 0 && size <= r < size + 8
  {
    AlignDown(size + 7)
  }

  /** What `malloc(size)` must answer on a heap holding `live`: an offset, or the error. */
  ghost function MallocSpec(capacity: nat, live: Live, size: usize): Result<nat> {
    if size == 0 then Err(ZeroSize)
    else if size + 7 > USIZE_MAX then Err(SizeOverflow)
    else match Place(capacity, live, RoundUp8(size))
      case None => Err(HeapExhausted)
      case Some(o) => Ok(o)
  }

  /** The answer, check by check: a size of zero, a size too large to round, no room; or else the
      least offset with room. */
  lemma MallocMeaning(capacity: nat, live: Live, size: usize)
    ensures var r := MallocSpec(capacity, live, size);
            && IsFirstFailure([Unless(size != 0, ZeroSize), Unless(size + 7 <= USIZE_MAX, SizeOverflow),
                               Unless(exists o: nat :: Feasible(capacity, live, o, RoundUp8(size)), HeapExhausted)],
                              ErrorOf(r))
            && (r.Ok? ==> Feasible(capacity, live, r.value, RoundUp8(size))
                          && forall o: nat :: o < r.value ==> !Feasible(capacity, live, o, RoundUp8(size)))
  {
    var room := exists o: nat :: Feasible(capacity, live, o, RoundUp8(size));
    var checks := [Unless(size != 0, ZeroSize), Unless(size + 7 <= USIZE_MAX, SizeOverflow),
                   Unless(room, HeapExhausted)];
    assert checks[0].Some? <==> size == 0;
    assert checks[1].Some? <==> size + 7 > USIZE_MAX;
    assert checks[2].Some? <==> !room;
  }

  ghost function AfterMalloc(capacity: nat, live: Live, size: usize): Live {
    var r := MallocSpec(capacity, live, size);
    if r.Ok? then live[r.value := RoundUp8(size)] else live
  }

  // ---- Free lists ----

  predicate Ordered(free: seq<Block>) {
    forall i, j :: 0 <= i < j < |free| ==> free[i].End() < free[j].start
  }

  predicate Covers(free: seq<Block>, x: int) {
    exists i :: 0 <= i < |free| && free[i].Has(x)
  }

  predicate BlocksFit(capacity: nat, free: seq<Block>) {
    forall i :: 0 <= i < |free| ==>
      free[i].len > 0 && free[i].start % 8 == 0 && free[i].len % 8 == 0 && free[i].End() <= capacity
  }

  /** `free` lists, in address order, exactly the maximal runs of bytes that `live` leaves. */
  ghost predicate Gaps(capacity: nat, live: Live, free: seq<Block>) {
    && BlocksFit(capacity, free)
    && Ordered(free)
    && forall x :: 0 <= x < capacity ==> (Covers(free, x) <==> !InUse(live, x))
  }

  /** A contiguous free run lies inside one block: blocks never touch. */
  lemma RunInOneBlock(capacity: nat, live: Live, free: seq<Block>, o: nat, n: nat) returns (i: nat)
    requires Gaps(capacity, live, free) && n > 0 && Feasible(capacity, live, o, n)
    ensures i < |free| && free[i].start <= o && o + n <= free[i].End()
  {
    assert !InUse(live, o);
    assert Covers(free, o);
    i :| 0 <= i < |free| && free[i].Has(o);
    assert !Covers(free, free[i].End());
  }

  /** A free block is a feasible place for anything that fits in it. */
  lemma BlockIsFeasible(capacity: nat, live: Live, free: seq<Block>, i: nat, n: nat)
    requires Gaps(capacity, live, free) && i < |free| && n <= free[i].len
    ensures Feasible(capacity, live, free[i].start, n)
  {
    forall x | free[i].start <= x < free[i].start + n
      ensures !InUse(live, x)
    {
      assert free[i].Has(x);
      assert Covers(free, x);
    }
  }

  /** Two gap lists of the same live map agree up to any index both or either reach. */
  lemma {:induction false} GapsAgreeAt(capacity: nat, live: Live, f: seq<Block>, g: seq<Block>, i: nat)
    requires Gaps(capacity, live, f) && Gaps(capacity, live, g)
    requires i < |f|
    ensures i < |g| && f[i] == g[i]
    decreases i
  {
    if i > 0 { GapsPrefixAgrees(capacity, live, f, g, i); }
    var k := NextBlock(capacity, live, f, g, i);
    var m := NextBlock(capacity, live, g, f, i);
    assert g[i].start == f[i].start;
    EndNotEarlier(capacity, live, f, g, i);
    EndNotEarlier(capacity, live, g, f, i);
  }

  lemma {:induction false} GapsPrefixAgrees(capacity: nat, live: Live, f: seq<Block>, g: seq<Block>, i: nat)
    requires Gaps(capacity, live, f) && Gaps(capacity, live, g)
    requires 0 < i < |f|
    ensures i <= |g| && f[..i] == g[..i]
    decreases i, 0
  {
    forall j | 0 <= j < i
      ensures j < |g| && f[j] == g[j]
    {
      GapsAgreeAt(capacity, live, f, g, j);
    }
    GapsAgreeAt(capacity, live, f, g, i - 1);
  }

  /** The block of `g` holding the first byte of `f[i]` comes no earlier than `i`. */
  lemma NextBlock(capacity: nat, live: Live, f: seq<Block>, g: seq<Block>, i: nat) returns (k: nat)
    requires Gaps(capacity, live, f) && Gaps(capacity, live, g)
    requires i < |f| && i <= |g| && f[..i] == g[..i]
    ensures i <= k < |g| && g[k].start <= f[i].start
  {
    var x := f[i].start;
    assert f[i].Has(x);
    assert Covers(f, x);
    assert Covers(g, x);
    k :| 0 <= k < |g| && g[k].Has(x);
    assert forall j :: 0 <= j < i ==> f[..i][j] == g[..i][j];
  }

  lemma EndNotEarlier(capacity: nat, live: Live, f: seq<Block>, g: seq<Block>, i: nat)
    requires Gaps(capacity, live, f) && Gaps(capacity, live, g)
    requires i < |f| && i < |g| && f[i].start == g[i].start
    ensures g[i].End() <= f[i].End()
  {
    var e := f[i].End();
    assert !Covers(f, e);
    assert e < g[i].End() ==> Covers(g, e) by {
      assert e < g[i].End() ==> g[i].Has(e);
    }
  }

  /** Representation theorem: the free list is a function of the live map alone. */
  lemma FreeListIsDetermined(capacity: nat, live: Live, f: seq<Block>, g: seq<Block>)
    requires Gaps(capacity, live, f) && Gaps(capacity, live, g)
    ensures f == g
  {
    forall i | 0 <= i < |f|
      ensures i < |g| && f[i] == g[i]
    {
      GapsAgreeAt(capacity, live, f, g, i);
    }
    if |f| < |g| { GapsAgreeAt(capacity, live, g, f, |f|); }
    if |g| < |f| { GapsAgreeAt(capacity, live, f, g, |g|); }
  }

  // ---- How an allocation and a free change the bytes in use ----

  lemma InUseAfterInsert(live: Live, o: nat, n: nat, x: int)
    requires o !in live
    ensures InUse(live[o := n], x) <==> InUse(live, x) || o <= x < o + n
  {
    var live' := live[o := n];
    if InUse(live, x) {
      var p :| p in live && p <= x < p + live[p];
      assert p in live' && live'[p] == live[p];
    }
    if o <= x < o + n {
      assert o in live';
    }
  }

  lemma InUseAfterRemove(capacity: nat, live: Live, o: nat, x: int)
    requires WellFormed(capacity, live) && o in live
    ensures InUse(live - {o}, x) <==> InUse(live, x) && !(o <= x < o + live[o])
  {
    var live' := live - {o};
    if InUse(live, x) {
      var p :| p in live && p <= x < p + live[p];
      assert p != o ==> p in live' && live'[p] == live[p];
    }
  }

  /** Allocating a feasible, aligned range keeps the live map well formed. */
  lemma InsertKeepsWellFormed(capacity: nat, live: Live, o: nat, n: nat)
    requires WellFormed(capacity, live) && Feasible(capacity, live, o, n)
    requires n > 0 && o % 8 == 0 && n % 8 == 0
    ensures o !in live && WellFormed(capacity, live[o := n])
  {
    assert !InUse(live, o);
    forall p | p in live
      ensures p + live[p] <= o || o + n <= p
    {
      if o < p < o + n {
        assert InUse(live, p);
      }
    }
  }

  /** The least feasible offset is 0 or the end of a live allocation, hence 8-aligned. */
  lemma LeastIsAligned(capacity: nat, live: Live, n: nat, o: nat)
    requires WellFormed(capacity, live) && n > 0 && Feasible(capacity, live, o, n)
    requires o > 0 ==> !Feasible(capacity, live, o - 1, n)
    ensures o % 8 == 0
  {
    if o > 0 {
      assert !InUse(live, o);
      assert InUse(live, o - 1);
      var p :| p in live && p <= o - 1 < p + live[p];
      assert o >= p + live[p];
      SumAligned(p, live[p], o);
    }
  }

  lemma MallocKeepsWellFormed(capacity: nat, live: Live, size: usize)
    requires WellFormed(capacity, live)
    ensures WellFormed(capacity, AfterMalloc(capacity, live, size))
  {
    var r := MallocSpec(capacity, live, size);
    if r.Ok? {
      LeastIsAligned(capacity, live, RoundUp8(size), r.value);
      InsertKeepsWellFormed(capacity, live, r.value, RoundUp8(size));
    }
  }

  // ---- Conservation: free and live bytes tile the heap ----

  function FreeTotal(free: seq<Block>): nat {
    if free == [] then 0 else free[0].len + FreeTotal(free[1..])
  }

  ghost function LiveTotal(live: Live): nat {
    if live == map[] then 0
    else var o :| o in live; live[o] + LiveTotal(live - {o})
  }

  ghost function Span(from: nat, len: nat): (s: set<nat>)
    ensures forall x :: x in s <==> from <= x < from + len
    ensures |s| == len
  {
    if len == 0 then {} else Span(from, len - 1) + {from + len - 1}
  }

  ghost function FreeBytes(capacity: nat, free: seq<Block>): (s: set<nat>)
    ensures forall x :: x in s <==> x < capacity && Covers(free, x)
  {
    set x: nat | x < capacity && Covers(free, x)
  }

  ghost function LiveBytes(capacity: nat, live: Live): (s: set<nat>)
    ensures forall x :: x in s <==> x < capacity && InUse(live, x)
  {
    set x: nat | x < capacity && InUse(live, x)
  }

  lemma CoversHead(free: seq<Block>, x: int)
    requires free != []
    ensures Covers(free, x) <==> free[0].Has(x) || Covers(free[1..], x)
  {
    var rest := free[1..];
    if Covers(rest, x) {
      var i :| 0 <= i < |rest| && rest[i].Has(x);
      assert free[i + 1].Has(x);
    }
    if Covers(free, x) {
      var i :| 0 <= i < |free| && free[i].Has(x);
      assert i > 0 ==> rest[i - 1].Has(x);
    }
  }

  lemma FreeBytesSplit(capacity: nat, free: seq<Block>)
    requires BlocksFit(capacity, free) && Ordered(free) && free != []
    ensures FreeBytes(capacity, free) == Span(free[0].start, free[0].len) + FreeBytes(capacity, free[1..])
    ensures Span(free[0].start, free[0].len) !! FreeBytes(capacity, free[1..])
  {
    var b, rest := free[0], free[1..];
    forall x
      ensures Covers(free, x) <==> b.Has(x) || Covers(rest, x)
      ensures Covers(rest, x) ==> b.End() < x
    {
      CoversHead(free, x);
      if Covers(rest, x) {
        var i :| 0 <= i < |rest| && rest[i].Has(x);
        assert free[i + 1] == rest[i];
      }
    }
  }

  lemma {:induction false} FreeBytesCount(capacity: nat, free: seq<Block>)
    requires BlocksFit(capacity, free) && Ordered(free)
    ensures |FreeBytes(capacity, free)| == FreeTotal(free)
  {
    if free == [] {
      assert FreeBytes(capacity, free) == {};
    } else {
      FreeBytesCount(capacity, free[1..]);
      FreeBytesSplit(capacity, free);
    }
  }

  lemma LiveByte(capacity: nat, live: Live, o: nat, x: nat)
    requires WellFormed(capacity, live) && o in live
    ensures x in LiveBytes(capacity, live) <==> x in Span(o, live[o]) || x in LiveBytes(capacity, live - {o})
    ensures !(x in Span(o, live[o]) && x in LiveBytes(capacity, live - {o}))
  {
    InUseAfterRemove(capacity, live, o, x);
    assert o <= x < o + live[o] ==> InUse(live, x);
  }

  lemma SplitSize(all: set<nat>, a: set<nat>, b: set<nat>)
    requires forall x :: x in all <==> x in a || x in b
    requires forall x :: x in a ==> x !in b
    ensures |all| == |a| + |b|
  {
    assert all == a + b;
  }

  lemma {:induction false} LiveBytesCount(capacity: nat, live: Live)
    requires WellFormed(capacity, live)
    ensures |LiveBytes(capacity, live)| == LiveTotal(live)
    decreases |live|
  {
    if live != map[] {
      var o: nat :| o in live && LiveTotal(live) == live[o] + LiveTotal(live - {o});
      var rest := live - {o};
      LiveBytesCount(capacity, rest);
      forall x: nat
        ensures x in LiveBytes(capacity, live) <==> x in Span(o, live[o]) || x in LiveBytes(capacity, rest)
        ensures x in Span(o, live[o]) ==> x !in LiveBytes(capacity, rest)
      {
        LiveByte(capacity, live, o, x);
      }
      SplitSize(LiveBytes(capacity, live), Span(o, live[o]), LiveBytes(capacity, rest));
    } else {
      assert LiveBytes(capacity, live) == {};
    }
  }

  /** Conservation: the free list and the live map tile `[0, capacity)` with no overlap. */
  lemma Conservation(capacity: nat, live: Live, free: seq<Block>)
    requires WellFormed(capacity, live) && Gaps(capacity, live, free)
    ensures FreeTotal(free) + LiveTotal(live) == capacity
  {
    FreeBytesCount(capacity, free);
    LiveBytesCount(capacity, live);
    Tiling(capacity, live, free);
  }

  lemma Tiling(capacity: nat, live: Live, free: seq<Block>)
    requires Gaps(capacity, live, free)
    ensures Span(0, capacity) == FreeBytes(capacity, free) + LiveBytes(capacity, live)
    ensures FreeBytes(capacity, free) !! LiveBytes(capacity, live)
  {
    var f, l := FreeBytes(capacity, free), LiveBytes(capacity, live);
    forall x: nat
      ensures x in Span(0, capacity) <==> x in f || x in l
      ensures !(x in f && x in l)
    {
      assert x < capacity ==> (Covers(free, x) <==> !InUse(live, x));
    }
  }
}

/** Whole call histories: equal on every PE, independent of the base address, of the order
    of frees, and (until it runs out) of the heap size. */
module Symmetry {
  import opened Machine
  import opened HeapSpec
  import opened SymHeaps

  /** One call of a program; `Free(k)` frees the pointer that call `k` returned. */
  datatype Call = Malloc(size: usize) | Free(call: nat)

  /** What a call answered, with pointers written as offsets or as addresses. `Skipped`:
      the call named by a `Free` returned no pointer, so there was nothing to free. */
  datatype Reply = Allocated(at: nat) | Freed | Refused(error: Error) | Skipped

  datatype Outcome = Outcome(live: Live, replies: seq<Reply>)

  ghost function Step(capacity: nat, s: Outcome, call: Call): Outcome {
    match call
    case Malloc(size) =>
      var reply := match MallocSpec(capacity, s.live, size)
        case Ok(offset) => Allocated(offset)
        case Err(e) => Refused(e);
      Outcome(AfterMalloc(capacity, s.live, size), s.replies + [reply])
    case Free(k) =>
      if k < |s.replies| && s.replies[k].Allocated? then
        if s.replies[k].at in s.live then Outcome(s.live - {s.replies[k].at}, s.replies + [Freed])
        else Outcome(s.live, s.replies + [Refused(InvalidPointer)])
      else Outcome(s.live, s.replies + [Skipped])
  }

  /** The history on an abstract heap of `capacity` bytes that knows no base address. */
  ghost function Run(capacity: nat, calls: seq<Call>): (s: Outcome)
    ensures |s.replies| == |calls|
  {
    if calls == [] then Outcome(map[], [])
    else Step(capacity, Run(capacity, calls[..|calls| - 1]), calls[|calls| - 1])
  }

  /** `r` is the offset reply `s` as the PE whose heap starts at `base` sees it. */
  predicate AtBase(base: nat, r: Reply, s: Reply) {
    if s.Allocated? then r.Allocated? && r.at == base + s.at else r == s
  }

  predicate RepliesMatch(base: nat, rs: seq<Reply>, ss: seq<Reply>) {
    |rs| == |ss| && forall k :: 0 <= k < |rs| ==> AtBase(base, rs[k], ss[k])
  }

  lemma AppendMatches(base: nat, rs: seq<Reply>, ss: seq<Reply>, r: Reply, s: Reply)
    requires RepliesMatch(base, rs, ss) && AtBase(base, r, s)
    ensures RepliesMatch(base, rs + [r], ss + [s])
  {
  }

  lemma {:induction false} RunIsWellFormed(capacity: nat, calls: seq<Call>)
    requires capacity % 8 == 0
    ensures WellFormed(capacity, Run(capacity, calls).live)
    ensures forall k :: 0 <= k < |calls| && Run(capacity, calls).replies[k].Allocated? ==>
              Run(capacity, calls).replies[k].at < capacity
  {
    if calls != [] {
      var before := calls[..|calls| - 1];
      RunIsWellFormed(capacity, before);
      var s, call := Run(capacity, before), calls[|calls| - 1];
      if call.Malloc? {
        MallocKeepsWellFormed(capacity, s.live, call.size);
      }
    }
  }

  lemma {:induction false} RunPrefix(capacity: nat, calls: seq<Call>, n: nat)
    requires n <= |calls|
    ensures Run(capacity, calls[..n]).replies == Run(capacity, calls).replies[..n]
  {
    if n < |calls| {
      var before := calls[..|calls| - 1];
      RunPrefix(capacity, before, n);
      assert before[..n] == calls[..n];
    } else {
      assert calls[..n] == calls;
    }
  }

  // ---- What a history means, read off its replies ----

  /** Call `j` frees an earlier call's pointer, which was `at`. */
  predicate Names(calls: seq<Call>, replies: seq<Reply>, j: nat, at: nat)
    requires j < |calls| == |replies|
  {
    calls[j].Free? && calls[j].call < j && replies[calls[j].call] == Allocated(at)
  }

  /** Call `k` got the pointer `at`, and no later call freed a pointer equal to it. */
  ghost predicate HeldFrom(calls: seq<Call>, replies: seq<Reply>, k: nat, at: nat)
    requires |calls| == |replies|
  {
    && k < |calls| && calls[k].Malloc? && replies[k] == Allocated(at)
    && forall j :: k < j < |calls| ==> !Names(calls, replies, j, at)
  }

  /** One call later, the pointers held are those held before and not freed, and the new one. */
  lemma HeldStep(calls: seq<Call>, replies: seq<Reply>, n: nat, k: nat, at: nat)
    requires n + 1 == |calls| == |replies|
    ensures HeldFrom(calls, replies, k, at) <==>
              if k < n then HeldFrom(calls[..n], replies[..n], k, at) && !Names(calls, replies, n, at)
              else k == n && calls[n].Malloc? && replies[n] == Allocated(at)
  {
    if k < n {
      forall j | k < j < n
        ensures Names(calls, replies, j, at) <==> Names(calls[..n], replies[..n], j, at)
      {
      }
    }
  }

  lemma RunLast(capacity: nat, calls: seq<Call>, n: nat)
    requires n + 1 == |calls|
    ensures Run(capacity, calls) == Step(capacity, Run(capacity, calls[..n]), calls[n])
    ensures Run(capacity, calls).replies[..n] == Run(capacity, calls[..n]).replies
  {
  }

  /** An offset is live exactly when some call got it and no later one freed it, and its length is
      that call's size rounded up. */
  lemma {:induction false} LiveIffHeld(capacity: nat, calls: seq<Call>, o: nat)
    requires capacity % 8 == 0
    ensures o in Run(capacity, calls).live <==> exists k: nat :: HeldFrom(calls, Run(capacity, calls).replies, k, o)
    ensures forall k: nat :: HeldFrom(calls, Run(capacity, calls).replies, k, o) ==>
              o in Run(capacity, calls).live && Run(capacity, calls).live[o] == RoundUp8(calls[k].size)
  {
    if calls != [] {
      var n := |calls| - 1;
      var before, s, after := calls[..n], Run(capacity, calls[..n]), Run(capacity, calls);
      LiveIffHeld(capacity, before, o);
      RunLast(capacity, calls, n);
      forall k: nat
        ensures HeldFrom(calls, after.replies, k, o) <==>
                  if k < n then HeldFrom(before, s.replies, k, o) && !Names(calls, after.replies, n, o)
                  else k == n && calls[n].Malloc? && after.replies[n] == Allocated(o)
      {
        HeldStep(calls, after.replies, n, k, o);
      }
      LastCall(capacity, calls, n, o);
      if o in after.live && !(calls[n].Malloc? && after.replies[n] == Allocated(o)) {
        var k: nat :| HeldFrom(before, s.replies, k, o);
        assert HeldFrom(calls, after.replies, k, o);
      } else if o in after.live {
        assert HeldFrom(calls, after.replies, n, o);
      }
    }
  }

  /** What the last call of a history did to one offset. */
  lemma LastCall(capacity: nat, calls: seq<Call>, n: nat, o: nat)
    requires n + 1 == |calls| && capacity % 8 == 0
    ensures var before, after := Run(capacity, calls[..n]), Run(capacity, calls);
            if calls[n].Malloc? && after.replies[n] == Allocated(o) then
              o !in before.live && o in after.live && after.live[o] == RoundUp8(calls[n].size)
            else if Names(calls, after.replies, n, o) then o !in after.live
            else (o in after.live <==> o in before.live) && (o in after.live ==> after.live[o] == before.live[o])
  {
    RunLast(capacity, calls, n);
    RunIsWellFormed(capacity, calls[..n]);
    var live := Run(capacity, calls[..n]).live;
    assert o in live ==> InUse(live, o);
  }

  /** A malloc answers with an offset that was not live. */
  lemma MallocIsFresh(capacity: nat, live: Live, size: usize, o: nat)
    requires WellFormed(capacity, live) && MallocSpec(capacity, live, size) == Ok(o)
    ensures o !in live
  {
    assert o in live ==> InUse(live, o);
  }

  lemma StepsBack(capacity: nat, s: Outcome, size: usize)
    requires WellFormed(capacity, s.live)
    ensures var got := Step(capacity, s, Malloc(size));
            var freed := Step(capacity, got, Free(|s.replies|));
            && |got.replies| == |s.replies| + 1 && |freed.replies| == |s.replies| + 2
            && freed.replies[..|s.replies| + 1] == got.replies
            && freed.live == s.live
            && (got.replies[|s.replies|].Allocated? ==> freed.replies[|s.replies| + 1] == Freed)
  {
    var r := MallocSpec(capacity, s.live, size);
    if r.Ok? {
      MallocIsFresh(capacity, s.live, size, r.value);
      assert AfterMalloc(capacity, s.live, size) - {r.value} == s.live;
    }
  }

  /** Freed bytes come back: after a malloc and its free, the same malloc gets the same answer. */
  lemma FreedIsReused(capacity: nat, calls: seq<Call>, size: usize)
    requires capacity % 8 == 0
    ensures var n := |calls|;
            var replies := Run(capacity, calls + [Malloc(size), Free(n), Malloc(size)]).replies;
            replies[n + 2] == replies[n] && (replies[n].Allocated? ==> replies[n + 1] == Freed)
  {
    var n := |calls|;
    var one := calls + [Malloc(size)];
    var two := one + [Free(n)];
    var three := two + [Malloc(size)];
    assert three == calls + [Malloc(size), Free(n), Malloc(size)];
    assert one[..n] == calls && two[..n + 1] == one && three[..n + 2] == two;
    RunLast(capacity, one, n);
    RunLast(capacity, two, n + 1);
    RunLast(capacity, three, n + 2);
    RunIsWellFormed(capacity, calls);
    StepsBack(capacity, Run(capacity, calls), size);
  }

  /** What every call of a history is answered, given what is live when it is made: a malloc gets
      the least offset with room, or the error of the first check to fail; a free of a live pointer
      is done, one of a pointer no longer live is refused, and one of a call that got no pointer is
      skipped. */
  lemma AnswerMeaning(capacity: nat, calls: seq<Call>, j: nat)
    requires j < |calls|
    ensures var live, replies := Run(capacity, calls[..j]).live, Run(capacity, calls).replies;
            match calls[j]
            case Malloc(size) =>
              && (replies[j].Allocated? || replies[j].Refused?)
              && IsFirstFailure([Unless(size != 0, ZeroSize), Unless(size + 7 <= USIZE_MAX, SizeOverflow),
                                 Unless(exists o: nat :: Feasible(capacity, live, o, RoundUp8(size)), HeapExhausted)],
                                if replies[j].Refused? then Some(replies[j].error) else None)
              && (replies[j].Allocated? ==>
                    && Feasible(capacity, live, replies[j].at, RoundUp8(size))
                    && forall o: nat :: o < replies[j].at ==> !Feasible(capacity, live, o, RoundUp8(size)))
            case Free(k) =>
              if k < j && replies[k].Allocated? then
                replies[j] == if replies[k].at in live then Freed else Refused(InvalidPointer)
              else replies[j] == Skipped
  {
    var now := calls[..j + 1];
    assert now[..j] == calls[..j] && now[j] == calls[j];
    RunLast(capacity, now, j);
    RunPrefix(capacity, calls, j + 1);
    RunPrefix(capacity, calls, j);
    var replies := Run(capacity, calls).replies;
    assert replies[j] == replies[..j + 1][j];
    assert forall k :: 0 <= k < j ==> replies[k] == replies[..j][k];
    if calls[j].Malloc? { MallocMeaning(capacity, Run(capacity, calls[..j]).live, calls[j].size); }
  }

  // ---- Symmetric addresses ----

  /** Translation answers exactly when the pointer is not below the base and the peer address fits. */
  lemma TranslationIsExact(ptr: usize, localBase: usize, peerBase: usize)
    ensures ToRemoteAddr(ptr, localBase, peerBase) ==
            if ptr < localBase then Err(BelowBase)
            else if peerBase + (ptr - localBase) > USIZE_MAX then Err(RemoteOverflow)
            else Ok(peerBase + (ptr - localBase))
  {
  }

  /** What translation means: an address answers iff it has the pointer's own offset in the peer's
      heap, and no other address does. */
  lemma TranslationKeepsOffset(ptr: usize, localBase: usize, peerBase: usize, address: usize)
    ensures ToRemoteAddr(ptr, localBase, peerBase) == Ok(address)
            <==> OffsetFrom(ptr, localBase).Ok? && OffsetFrom(address, peerBase) == OffsetFrom(ptr, localBase)
  {
  }

  /** Translating to a peer and back is the identity whenever the first half answers. */
  lemma TranslationRoundTrip(ptr: usize, localBase: usize, peerBase: usize)
    requires ToRemoteAddr(ptr, localBase, peerBase).Ok?
    ensures ToRemoteAddr(ToRemoteAddr(ptr, localBase, peerBase).value, peerBase, localBase) == Ok(ptr)
  {
  }

  // ---- One PE ----

  /** The real heap and its replies so far match the abstract outcome. */
  ghost predicate Matches(heap: SymHeap, replies: seq<Reply>, s: Outcome)
    reads heap
  {
    && heap.Valid() && heap.Live() == s.live
    && RepliesMatch(heap.localBase, replies, s.replies)
  }

  lemma LiveIffAllocated(heap: SymHeap, o: nat, ptr: usize)
    requires ptr == heap.localBase + o && heap.Valid()
    ensures o in heap.Live() <==> ptr in heap.allocations
    ensures o in heap.Live() ==> heap.Live()[o] == heap.allocations[ptr]
  {
    assert Held(heap.localBase, heap.allocations, o) <==> ptr in heap.allocations;
  }

  /** The pointers held, as addresses and as offsets. */
  lemma HeldShift(base: nat, calls: seq<Call>, rs: seq<Reply>, ss: seq<Reply>, k: nat, at: nat, o: nat)
    requires RepliesMatch(base, rs, ss) && |rs| == |calls| && at == base + o
    ensures HeldFrom(calls, rs, k, at) <==> HeldFrom(calls, ss, k, o)
  {
    forall i | 0 <= i < |rs|
      ensures rs[i] == Allocated(at) <==> ss[i] == Allocated(o)
    {
      assert AtBase(base, rs[i], ss[i]);
    }
    forall j | k < j < |calls|
      ensures Names(calls, rs, j, at) <==> Names(calls, ss, j, o)
    {
    }
  }

  /** What the allocator's own map holds after a history, read off the replies the program saw. */
  ghost predicate HoldsWhatRepliesSay(allocations: map<usize, usize>, calls: seq<Call>, replies: seq<Reply>)
    requires |calls| == |replies|
  {
    && (forall at: usize :: at in allocations <==> exists k: nat :: HeldFrom(calls, replies, k, at))
    && (forall k: nat, at: usize :: at in allocations && HeldFrom(calls, replies, k, at) ==>
          allocations[at] == RoundUp8(calls[k].size))
  }

  lemma AllocationsAt(heap: SymHeap, calls: seq<Call>, replies: seq<Reply>, at: usize)
    requires Matches(heap, replies, Run(heap.Capacity(), calls))
    ensures at in heap.allocations <==> exists k: nat :: HeldFrom(calls, replies, k, at)
    ensures forall k: nat :: at in heap.allocations && HeldFrom(calls, replies, k, at) ==>
              heap.allocations[at] == RoundUp8(calls[k].size)
  {
    var base, s := heap.localBase, Run(heap.Capacity(), calls);
    forall k: nat
      ensures HeldFrom(calls, replies, k, at) ==> base <= at
    {
      assert k < |replies| ==> AtBase(base, replies[k], s.replies[k]);
    }
    if base <= at {
      var o: nat := at - base;
      LiveIffAllocated(heap, o, at);
      LiveIffHeld(heap.Capacity(), calls, o);
      forall k: nat
        ensures HeldFrom(calls, replies, k, at) <==> HeldFrom(calls, s.replies, k, o)
      {
        HeldShift(base, calls, replies, s.replies, k, at, o);
      }
    }
  }

  lemma AllocationsMeaning(heap: SymHeap, calls: seq<Call>, replies: seq<Reply>)
    requires Matches(heap, replies, Run(heap.Capacity(), calls))
    ensures HoldsWhatRepliesSay(heap.allocations, calls, replies)
  {
    forall at: usize
      ensures at in heap.allocations <==> exists k: nat :: HeldFrom(calls, replies, k, at)
      ensures forall k: nat :: at in heap.allocations && HeldFrom(calls, replies, k, at) ==>
                heap.allocations[at] == RoundUp8(calls[k].size)
    {
      AllocationsAt(heap, calls, replies, at);
    }
  }

  /** A free is done if the pointer it names is held at that moment, refused if it no longer is, and
      skipped if the call it names had got no pointer. */
  ghost predicate FreeAnswered(calls: seq<Call>, replies: seq<Reply>, j: nat)
    requires j < |calls| == |replies|
  {
    calls[j].Free? ==>
      var k := calls[j].call;
      if k < j && replies[k].Allocated? then
        replies[j] == if exists i: nat :: HeldFrom(calls[..j], replies[..j], i, replies[k].at) then Freed
                      else Refused(InvalidPointer)
      else replies[j] == Skipped
  }

  lemma FreeMeaning(base: nat, capacity: nat, calls: seq<Call>, replies: seq<Reply>, j: nat)
    requires capacity % 8 == 0 && j < |calls| && RepliesMatch(base, replies, Run(capacity, calls).replies)
    ensures FreeAnswered(calls, replies, j)
  {
    var ss := Run(capacity, calls).replies;
    AnswerMeaning(capacity, calls, j);
    assert AtBase(base, replies[j], ss[j]);
    if calls[j].Free? && calls[j].call < j {
      var k := calls[j].call;
      assert AtBase(base, replies[k], ss[k]);
      if replies[k].Allocated? {
        var at, o := replies[k].at, ss[k].at;
        RunPrefix(capacity, calls, j);
        assert RepliesMatch(base, replies[..j], ss[..j]);
        LiveIffHeld(capacity, calls[..j], o);
        forall i: nat
          ensures HeldFrom(calls[..j], replies[..j], i, at) <==> HeldFrom(calls[..j], ss[..j], i, o)
        {
          HeldShift(base, calls[..j], replies[..j], ss[..j], i, at, o);
        }
      }
    }
  }

  /** Everything the program was told: the pointers it holds are the allocator's, and every free was
      answered accordingly. */
  ghost predicate RepliesTell(heap: SymHeap, calls: seq<Call>, replies: seq<Reply>)
    reads heap
  {
    && |calls| == |replies|
    && HoldsWhatRepliesSay(heap.allocations, calls, replies)
    && forall j :: 0 <= j < |calls| ==> FreeAnswered(calls, replies, j)
  }

  lemma MatchesTell(heap: SymHeap, calls: seq<Call>, replies: seq<Reply>)
    requires Matches(heap, replies, Run(heap.Capacity(), calls))
    ensures RepliesTell(heap, calls, replies)
  {
    AllocationsMeaning(heap, calls, replies);
    forall j | 0 <= j < |calls|
      ensures FreeAnswered(calls, replies, j)
    {
      FreeMeaning(heap.localBase, heap.Capacity(), calls, replies, j);
    }
  }

  /** A pointer just allocated, and named by no free since, can be freed. */
  lemma FirstFree(calls: seq<Call>, replies: seq<Reply>, k: nat, j: nat)
    requires k < j < |calls| == |replies| && FreeAnswered(calls, replies, j)
    requires calls[k].Malloc? && replies[k].Allocated? && calls[j] == Free(k)
    requires forall i :: k < i < j ==> !Names(calls, replies, i, replies[k].at)
    ensures replies[j] == Freed
  {
    forall i | k < i < j
      ensures !Names(calls[..j], replies[..j], i, replies[k].at)
    {
      assert !Names(calls, replies, i, replies[k].at);
    }
    assert HeldFrom(calls[..j], replies[..j], k, replies[k].at);
  }

  /** A second free of a pointer is refused, unless some malloc in between got an equal one. */
  lemma SecondFree(calls: seq<Call>, replies: seq<Reply>, k: nat, i: nat, j: nat)
    requires k < i < j < |calls| == |replies| && FreeAnswered(calls, replies, j)
    requires replies[k].Allocated? && calls[i] == calls[j] == Free(k)
    requires forall m :: i < m < j ==> replies[m] != replies[k]
    ensures replies[j] == Refused(InvalidPointer)
  {
    var at := replies[k].at;
    assert Names(calls[..j], replies[..j], i, at);
    forall m: nat
      ensures !HeldFrom(calls[..j], replies[..j], m, at)
    {
      assert i < m < j ==> replies[m] != replies[k];
    }
  }

  method Perform(heap: SymHeap, replies: seq<Reply>, call: Call, ghost s: Outcome) returns (reply: Reply)
    requires Matches(heap, replies, s)
    requires forall k :: 0 <= k < |s.replies| && s.replies[k].Allocated? ==> s.replies[k].at < heap.Capacity()
    modifies heap
    ensures Matches(heap, replies + [reply], Step(heap.Capacity(), s, call))
  {
    ghost var answer := Step(heap.Capacity(), s, call).replies[|s.replies|];
    match call {
      case Malloc(size) =>
        var r := heap.Malloc(size);
        reply := match r case Ok(ptr) => Allocated(ptr) case Err(e) => Refused(e);
      case Free(k) =>
        if k < |replies| && replies[k].Allocated? {
          LiveIffAllocated(heap, s.replies[k].at, replies[k].at);
          var r := heap.Free(replies[k].at);
          reply := match r case Ok(_) => Freed case Err(e) => Refused(e);
        } else {
          reply := Skipped;
        }
    }
    AppendMatches(heap.localBase, replies, s.replies, reply, answer);
  }

  /** Running a history on a real heap gives the abstract outcome, shifted by the heap base. */
  method RunOn(heap: SymHeap, calls: seq<Call>) returns (replies: seq<Reply>)
    requires heap.Valid() && heap.Live() == map[]
    modifies heap
    ensures Matches(heap, replies, Run(heap.Capacity(), calls))
    ensures RepliesTell(heap, calls, replies)
  {
    replies := [];
    for i := 0 to |calls|
      invariant Matches(heap, replies, Run(heap.Capacity(), calls[..i]))
    {
      ghost var s := Run(heap.Capacity(), calls[..i]);
      RunIsWellFormed(heap.Capacity(), calls[..i]);
      assert calls[..i + 1][..i] == calls[..i];
      var reply := Perform(heap, replies, calls[i], s);
      replies := replies + [reply];
    }
    assert calls[..|calls|] == calls;
    MatchesTell(heap, calls, replies);
  }

  // ---- Frees ----

  /** A successful malloc followed by its free restores the exact prior heap. */
  method MallocThenFree(heap: SymHeap, size: usize) returns (r: Result<usize>)
    requires heap.Valid()
    modifies heap
    ensures r.Ok? <==> MallocSpec(heap.Capacity(), old(heap.Live()), size).Ok?
    ensures heap.Valid() && heap.free == old(heap.free) && heap.allocations == old(heap.allocations)
  {
    ghost var free, allocations := heap.free, heap.allocations;
    ghost var live := heap.Live();
    r := heap.Malloc(size);
    if r.Ok? {
      ghost var o := MallocSpec(heap.Capacity(), live, size).value;
      FreshPointer(heap, live, allocations, size, o, r.value);
      ghost var during := heap.allocations;
      InsertThenRemove(allocations, r.value, during);
      var done := heap.Free(r.value);
      ConsistentDetermined(heap.localBase, heap.Capacity(), free, heap.free, allocations);
    }
  }

  lemma InsertThenRemove(before: map<usize, usize>, ptr: usize, during: map<usize, usize>)
    requires ptr !in before && ptr in during && during == before[ptr := during[ptr]]
    ensures during - {ptr} == before
  {
  }

  /** Equal bases, sizes and allocations leave only one possible free list. */
  lemma ConsistentDetermined(base: nat, capacity: nat, f: seq<Block>, g: seq<Block>, allocations: map<usize, usize>)
    requires Consistent(base, capacity, f, allocations) && Consistent(base, capacity, g, allocations)
    ensures f == g
  {
    FreeListIsDetermined(capacity, ByOffset(base, capacity, allocations), f, g);
  }

  lemma FreshPointer(heap: SymHeap, live: Live, allocations: map<usize, usize>, size: usize, o: nat, ptr: usize)
    requires WellFormed(heap.Capacity(), live) && live == ByOffset(heap.localBase, heap.Capacity(), allocations)
    requires MallocSpec(heap.Capacity(), live, size) == Ok(o) && ptr == heap.localBase + o
    ensures ptr !in allocations
  {
    LeastIsAligned(heap.Capacity(), live, RoundUp8(size), o);
    InsertKeepsWellFormed(heap.Capacity(), live, o, RoundUp8(size));
    assert Held(heap.localBase, allocations, o) <==> ptr in allocations;
  }

  predicate Distinct(ptrs: seq<usize>) {
    forall i, j :: 0 <= i < j < |ptrs| ==> ptrs[i] != ptrs[j]
  }

  ghost function SetOf(ptrs: seq<usize>): set<usize> {
    set p | p in ptrs
  }

  lemma PrefixSet(ptrs: seq<usize>, i: nat)
    requires i < |ptrs| && Distinct(ptrs)
    ensures SetOf(ptrs[..i + 1]) == SetOf(ptrs[..i]) + {ptrs[i]} && ptrs[i] !in SetOf(ptrs[..i])
  {
    assert ptrs[..i + 1] == ptrs[..i] + [ptrs[i]];
  }

  /** Free live pointers one after another. Only the set of them matters. */
  method FreeEach(heap: SymHeap, ptrs: seq<usize>)
    requires heap.Valid() && Distinct(ptrs) && SetOf(ptrs) <= heap.allocations.Keys
    modifies heap
    ensures heap.Valid()
    ensures heap.allocations == old(heap.allocations) - SetOf(ptrs)
  {
    assert ptrs[..|ptrs|] == ptrs;
    for i := 0 to |ptrs|
      invariant heap.Valid()
      invariant heap.allocations == old(heap.allocations) - SetOf(ptrs[..i])
    {
      PrefixSet(ptrs, i);
      assert ptrs[i] in SetOf(ptrs);
      var r := heap.Free(ptrs[i]);
    }
  }

  lemma SameSet(ps: seq<usize>, qs: seq<usize>)
    requires multiset(ps) == multiset(qs)
    ensures SetOf(ps) == SetOf(qs)
  {
    forall x
      ensures x in ps <==> x in qs
    {
      assert x in multiset(ps) <==> x in multiset(qs);
    }
  }

  /** Two equal heaps, the same pointers freed in two orders: equal heaps again. */
  method FreeOrderIsIrrelevant(a: SymHeap, b: SymHeap, ps: seq<usize>, qs: seq<usize>)
    requires a != b && a.Valid() && b.Valid()
    requires a.localBase == b.localBase && a.Capacity() == b.Capacity() && a.allocations == b.allocations
    requires multiset(ps) == multiset(qs) && Distinct(ps) && Distinct(qs) && SetOf(ps) <= a.allocations.Keys
    modifies a, b
    ensures a.Valid() && b.Valid() && a.free == b.free && a.allocations == b.allocations
  {
    SameSet(ps, qs);
    FreeEach(a, ps);
    FreeEach(b, qs);
    ConsistentDetermined(a.localBase, a.Capacity(), a.free, b.free, a.allocations);
  }

  /** Freeing every live pointer, in any order, gives back one block: the whole heap. */
  method FreeEverything(heap: SymHeap, ptrs: seq<usize>)
    requires heap.Valid() && heap.Capacity() > 0
    requires Distinct(ptrs) && SetOf(ptrs) == heap.allocations.Keys
    modifies heap
    ensures heap.Valid() && heap.allocations == map[] && heap.free == [Block(0, heap.Capacity())]
  {
    FreeEach(heap, ptrs);
    assert heap.allocations == map[];
    EmptyHeap(heap);
  }

  lemma EmptyHeap(heap: SymHeap)
    requires heap.Valid() && heap.Capacity() > 0 && heap.allocations == map[]
    ensures heap.free == [Block(0, heap.Capacity())]
  {
    var whole := [Block(0, heap.Capacity())];
    assert heap.Live() == map[];
    assert forall x :: 0 <= x < heap.Capacity() ==> whole[0].Has(x);
    FreeListIsDetermined(heap.Capacity(), heap.Live(), heap.free, whole);
  }

  // ---- Heaps of different sizes ----

  /** The first `n` calls of a history never ran out of room. */
  ghost predicate RoomFor(capacity: nat, calls: seq<Call>) {
    forall k :: 0 <= k < |calls| ==> Run(capacity, calls).replies[k] != Refused(HeapExhausted)
  }

  lemma PlaceInLarger(small: nat, large: nat, live: Live, n: nat)
    requires small <= large && WellFormed(small, live)
    ensures var s, l := Place(small, live, n), Place(large, live, n);
            if s.Some? then l == s else l.Some? ==> l.value + n > small
  {
    var s, l := Place(small, live, n), Place(large, live, n);
    if s.Some? {
      assert Feasible(large, live, s.value, n);
      assert Feasible(small, live, l.value, n);
    } else if l.Some? && l.value + n <= small {
      assert Feasible(small, live, l.value, n);
    }
  }

  /** Capacity monotonicity: until the smaller heap runs out, both give the same replies. */
  lemma {:induction false} LargerHeapAgrees(small: nat, large: nat, calls: seq<Call>)
    requires small <= large && small % 8 == 0 && RoomFor(small, calls)
    ensures Run(large, calls) == Run(small, calls)
  {
    if calls != [] {
      var n := |calls| - 1;
      var before := calls[..n];
      assert forall k :: 0 <= k < n ==> Run(small, before).replies[k] == Run(small, calls).replies[k];
      LargerHeapAgrees(small, large, before);
      RunIsWellFormed(small, before);
      assert Run(small, calls).replies[n] != Refused(HeapExhausted);
      if calls[n].Malloc? {
        PlaceInLarger(small, large, Run(small, before).live, RoundUp8(calls[n].size));
        assert Run(small, calls) == Step(small, Run(small, before), calls[n]);
      }
    }
  }

  /** At the first call the smaller heap cannot serve, a larger one may only answer with a
      block that reaches past the smaller heap's end. */
  lemma FirstFailure(small: nat, large: nat, calls: seq<Call>, size: usize)
    requires small <= large && small % 8 == 0 && RoomFor(small, calls)
    requires MallocSpec(small, Run(small, calls).live, size) == Err(HeapExhausted)
    ensures var r := MallocSpec(large, Run(large, calls).live, size);
            r == Err(HeapExhausted) || (r.Ok? && r.value + RoundUp8(size) > small)
  {
    LargerHeapAgrees(small, large, calls);
    RunIsWellFormed(small, calls);
    PlaceInLarger(small, large, Run(small, calls).live, RoundUp8(size));
  }

  /** The smaller heap's free list with the extra bytes joined on at the end. */
  function WithTail(free: seq<Block>, small: nat, large: nat): seq<Block>
    requires small <= large <= USIZE_MAX
    requires forall i :: 0 <= i < |free| ==> free[i].End() <= small
  {
    if small == large then free
    else if free != [] && free[|free| - 1].End() == small then
      var last := free[|free| - 1];
      free[..|free| - 1] + [Block(last.start, large - last.start)]
    else free + [Block(small, large - small)]
  }

  lemma TailIsFree(small: nat, large: nat, live: Live, free: seq<Block>)
    requires small <= large <= USIZE_MAX && large % 8 == 0
    requires WellFormed(small, live) && Gaps(small, live, free)
    ensures WellFormed(large, live) && Gaps(large, live, WithTail(free, small, large))
  {
    TailFits(small, large, free);
    forall x | 0 <= x < large
      ensures Covers(WithTail(free, small, large), x) <==> !InUse(live, x)
    {
      TailCovers(small, large, free, x);
      assert x >= small ==> !InUse(live, x);
      assert Covers(free, x) ==> x < small;
    }
  }

  lemma TailFits(small: nat, large: nat, free: seq<Block>)
    requires small <= large <= USIZE_MAX && small % 8 == 0 && large % 8 == 0
    requires BlocksFit(small, free) && Ordered(free)
    ensures BlocksFit(large, WithTail(free, small, large)) && Ordered(WithTail(free, small, large))
  {
    SumAligned(small, large - small, large);
    if free != [] {
      var start: nat := free[|free| - 1].start;
      SumAligned(start, large - start, large);
    }
  }

  lemma TailCovers(small: nat, large: nat, free: seq<Block>, x: int)
    requires small <= large <= USIZE_MAX && BlocksFit(small, free)
    ensures Covers(WithTail(free, small, large), x) <==> Covers(free, x) || small <= x < large
  {
    if small < large {
      if free != [] && free[|free| - 1].End() == small {
        var init, last := free[..|free| - 1], free[|free| - 1];
        assert free == init + [last];
        CoversAppend(init, last, x);
        CoversAppend(init, Block(last.start, large - last.start), x);
      } else {
        CoversAppend(free, Block(small, large - small), x);
      }
    }
  }

  /** Two heaps of different sizes run a history the smaller one has room for: same offsets,
      same errors, and the larger free list is the smaller one with the tail joined on. */
  method RunOnTwoSizes(a: SymHeap, b: SymHeap, calls: seq<Call>) returns (repliesA: seq<Reply>, repliesB: seq<Reply>)
    requires a != b && a.Valid() && b.Valid() && a.Live() == map[] && b.Live() == map[]
    requires a.Capacity() <= b.Capacity() && RoomFor(a.Capacity(), calls)
    modifies a, b
    ensures a.Valid() && b.Valid()
    ensures RepliesMatch(a.localBase, repliesA, Run(a.Capacity(), calls).replies)
    ensures RepliesMatch(b.localBase, repliesB, Run(a.Capacity(), calls).replies)
    ensures b.Live() == a.Live() && b.free == WithTail(a.free, a.Capacity(), b.Capacity())
  {
    LargerHeapAgrees(a.Capacity(), b.Capacity(), calls);
    repliesA := RunOn(a, calls);
    repliesB := RunOn(b, calls);
    TailIsFree(a.Capacity(), b.Capacity(), a.Live(), a.free);
    FreeListIsDetermined(b.Capacity(), b.Live(), b.free, WithTail(a.free, a.Capacity(), b.Capacity()));
  }

  // ---- All PEs ----

  /** A heap of `size` bytes answers the history as one of `capacity` bytes does: it has that size,
      or it is larger and the history never exhausts the smaller one. */
  ghost predicate AnswersAlike(size: nat, capacity: nat, calls: seq<Call>) {
    size == capacity || (capacity <= size && RoomFor(capacity, calls))
  }

  lemma AlikeRuns(size: nat, capacity: nat, calls: seq<Call>)
    requires AnswersAlike(size, capacity, calls) && capacity % 8 == 0
    ensures Run(size, calls) == Run(capacity, calls)
  {
    if size != capacity {
      LargerHeapAgrees(capacity, size, calls);
    }
  }

  /** Empty heaps, one per PE, wherever each was placed and as large as each PE made it. */
  ghost predicate FreshHeaps(heaps: seq<SymHeap>, capacity: nat, calls: seq<Call>)
    reads set h | h in heaps
  {
    && capacity % 8 == 0
    && (forall p, q :: 0 <= p < q < |heaps| ==> heaps[p] != heaps[q])
    && (forall p :: 0 <= p < |heaps| ==>
          heaps[p].Valid() && heaps[p].Live() == map[] && AnswersAlike(heaps[p].Capacity(), capacity, calls))
  }

  /** Replies to one call on two PEs: pointers translate to one another, anything else is equal. */
  predicate SameReply(aBase: usize, bBase: usize, r: Reply, q: Reply) {
    if r.Allocated? then q.Allocated? && r.at <= USIZE_MAX && ToRemoteAddr(r.at, aBase, bBase) == Ok(q.at)
    else r == q
  }

  predicate SamePointers(aBase: usize, bBase: usize, rs: seq<Reply>, qs: seq<Reply>) {
    |rs| == |qs| && forall k :: 0 <= k < |rs| ==> SameReply(aBase, bBase, rs[k], qs[k])
  }

  lemma RepliesTranslate(aBase: usize, bBase: usize, rs: seq<Reply>, qs: seq<Reply>, ss: seq<Reply>)
    requires RepliesMatch(aBase, rs, ss) && RepliesMatch(bBase, qs, ss)
    requires forall k :: 0 <= k < |ss| && ss[k].Allocated? ==>
               aBase + ss[k].at <= USIZE_MAX && bBase + ss[k].at <= USIZE_MAX
    ensures SamePointers(aBase, bBase, rs, qs)
  {
    forall k | 0 <= k < |rs|
      ensures SameReply(aBase, bBase, rs[k], qs[k])
    {
      assert AtBase(aBase, rs[k], ss[k]) && AtBase(bBase, qs[k], ss[k]);
    }
  }

  lemma SameSizeSameFree(a: SymHeap, b: SymHeap, s: Outcome)
    requires a.Valid() && b.Valid() && a.Live() == s.live && b.Live() == s.live && a.Capacity() == b.Capacity()
    ensures a.free == b.free
  {
    FreeListIsDetermined(a.Capacity(), s.live, a.free, b.free);
  }

  /** Heap `p` and its replies agree with the common outcome, whose offsets it can address. */
  lemma OffsetsFit(heap: SymHeap, replies: seq<Reply>, capacity: nat, calls: seq<Call>, s: Outcome)
    requires s == Run(capacity, calls) && capacity % 8 == 0
    requires AnswersAlike(heap.Capacity(), capacity, calls) && Matches(heap, replies, s)
    ensures RepliesMatch(heap.localBase, replies, s.replies)
    ensures forall k :: 0 <= k < |s.replies| && s.replies[k].Allocated? ==>
              heap.localBase + s.replies[k].at <= USIZE_MAX
  {
    RunIsWellFormed(capacity, calls);
  }

  lemma PairAgrees(a: SymHeap, b: SymHeap, rs: seq<Reply>, qs: seq<Reply>,
                   capacity: nat, calls: seq<Call>, s: Outcome)
    requires s == Run(capacity, calls) && capacity % 8 == 0
    requires AnswersAlike(a.Capacity(), capacity, calls) && AnswersAlike(b.Capacity(), capacity, calls)
    requires Matches(a, rs, s) && Matches(b, qs, s)
    ensures SamePointers(a.localBase, b.localBase, rs, qs)
    ensures a.Capacity() == b.Capacity() ==> a.free == b.free
  {
    OffsetsFit(a, rs, capacity, calls, s);
    OffsetsFit(b, qs, capacity, calls, s);
    RepliesTranslate(a.localBase, b.localBase, rs, qs, s.replies);
    if a.Capacity() == b.Capacity() { SameSizeSameFree(a, b, s); }
  }

  lemma AllAgree(heaps: seq<SymHeap>, replies: seq<seq<Reply>>, capacity: nat, calls: seq<Call>, s: Outcome)
    requires s == Run(capacity, calls) && capacity % 8 == 0 && |replies| == |heaps|
    requires AllMatch(heaps, replies, s)
    requires forall p :: 0 <= p < |heaps| ==> AnswersAlike(heaps[p].Capacity(), capacity, calls)
    ensures forall p, q :: 0 <= p < |heaps| && 0 <= q < |heaps| ==>
              && SamePointers(heaps[p].localBase, heaps[q].localBase, replies[p], replies[q])
              && (heaps[p].Capacity() == heaps[q].Capacity() ==> heaps[p].free == heaps[q].free)
  {
    forall p, q | 0 <= p < |heaps| && 0 <= q < |heaps|
      ensures SamePointers(heaps[p].localBase, heaps[q].localBase, replies[p], replies[q])
      ensures heaps[p].Capacity() == heaps[q].Capacity() ==> heaps[p].free == heaps[q].free
    {
      assert Matches(heaps[p], replies[p], s) && Matches(heaps[q], replies[q], s);
      PairAgrees(heaps[p], heaps[q], replies[p], replies[q], capacity, calls, s);
    }
  }

  /** The first PEs have run; their replies are `replies`. */
  ghost predicate AllMatch(heaps: seq<SymHeap>, replies: seq<seq<Reply>>, s: Outcome)
    reads set h | h in heaps
  {
    |replies| <= |heaps| && forall p :: 0 <= p < |replies| ==> Matches(heaps[p], replies[p], s)
  }

  lemma MatchedAppend(heaps: seq<SymHeap>, replies: seq<seq<Reply>>, rs: seq<Reply>, s: Outcome)
    requires AllMatch(heaps, replies, s) && |replies| < |heaps| && Matches(heaps[|replies|], rs, s)
    ensures AllMatch(heaps, replies + [rs], s)
  {
    forall p | 0 <= p < |replies| + 1
      ensures Matches(heaps[p], (replies + [rs])[p], s)
    {
      assert p < |replies| ==> (replies + [rs])[p] == replies[p];
    }
  }

  lemma AllTell(heaps: seq<SymHeap>, replies: seq<seq<Reply>>, capacity: nat, calls: seq<Call>, s: Outcome)
    requires s == Run(capacity, calls) && capacity % 8 == 0 && |replies| == |heaps|
    requires AllMatch(heaps, replies, s)
    requires forall p :: 0 <= p < |heaps| ==> AnswersAlike(heaps[p].Capacity(), capacity, calls)
    ensures forall p :: 0 <= p < |heaps| ==> RepliesTell(heaps[p], calls, replies[p])
  {
    forall p | 0 <= p < |heaps|
      ensures RepliesTell(heaps[p], calls, replies[p])
    {
      assert Matches(heaps[p], replies[p], s);
      AlikeRuns(heaps[p].Capacity(), capacity, calls);
      MatchesTell(heaps[p], calls, replies[p]);
    }
  }

  /** The history on a heap that may be larger than `capacity`, against the common outcome. */
  method RunOnAlike(heap: SymHeap, ghost capacity: nat, calls: seq<Call>, ghost s: Outcome)
    returns (replies: seq<Reply>)
    requires heap.Valid() && heap.Live() == map[] && capacity % 8 == 0 && s == Run(capacity, calls)
    requires AnswersAlike(heap.Capacity(), capacity, calls)
    modifies heap
    ensures Matches(heap, replies, s)
  {
    AlikeRuns(heap.Capacity(), capacity, calls);
    replies := RunOn(heap, calls);
  }

  /** Symmetry: every PE runs the same history on its own heap. All succeed and fail at the same
      calls, each one's pointers translate to every other's, and heaps of one size hold equal free
      lists. Heaps may differ in size as long as the history does not exhaust the smallest. */
  method RunOnAll(heaps: seq<SymHeap>, ghost capacity: nat, calls: seq<Call>) returns (replies: seq<seq<Reply>>)
    requires FreshHeaps(heaps, capacity, calls)
    modifies set h | h in heaps
    ensures |replies| == |heaps| && AllMatch(heaps, replies, Run(capacity, calls))
    ensures forall p :: 0 <= p < |heaps| ==> RepliesTell(heaps[p], calls, replies[p])
    ensures forall p, q :: 0 <= p < |heaps| && 0 <= q < |heaps| ==>
              && SamePointers(heaps[p].localBase, heaps[q].localBase, replies[p], replies[q])
              && (heaps[p].Capacity() == heaps[q].Capacity() ==> heaps[p].free == heaps[q].free)
  {
    ghost var s := Run(capacity, calls);
    replies := [];
    for i := 0 to |heaps|
      invariant |replies| == i && AllMatch(heaps, replies, s)
      invariant forall p :: i <= p < |heaps| ==> heaps[p].Valid() && heaps[p].Live() == map[]
    {
      var rs := RunOnAlike(heaps[i], capacity, calls, s);
      forall p | 0 <= p < i
        ensures Matches(heaps[p], replies[p], s)
      {
        assert heaps[p] != heaps[i];
      }
      assert AllMatch(heaps, replies, s);
      MatchedAppend(heaps, replies, rs, s);
      replies := replies + [rs];
    }
    AllAgree(heaps, replies, capacity, calls, s);
    AllTell(heaps, replies, capacity, calls, s);
  }
}

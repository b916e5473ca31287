/** The whole stack: bootstrap, symmetric heaps and typed transfers give one shared address space. */
module Pgas {
  import opened Machine
  import opened HeapSpec
  import opened SymHeaps
  import opened Symmetry
  import opened PodCodec
  import opened Rma
  import B = Bootstrap

  /** Every PE published the base of its own heap, `me` finished the handshake, and its transfers
      use the peer map it recorded. Each region has its heap's size. */
  ghost predicate Connected(heaps: seq<SymHeap>, fabric: Fabric, me: nat,
                            c: B.Config, run: seq<B.State>, i: nat)
    reads fabric
  {
    && B.IsRun(c, run) && i < |run| && me < |c.own| == |heaps| == c.size < U32_LIMIT
    && (forall p :: 0 <= p < |heaps| ==> c.own[p].base == heaps[p].localBase)
    && |run[i].procs| == |heaps| && run[i].procs[me].pc.Done?
    && fabric.Valid() && fabric.peers == run[i].procs[me].peers
    && forall p :: 0 <= p < |heaps| && p in fabric.memory ==> |fabric.memory[p]| == heaps[p].Capacity()
  }

  /** The peer map of a finished handshake is the map of all PEs' heap bases. */
  lemma PeersAreBases(heaps: seq<SymHeap>, fabric: Fabric, me: nat,
                      c: B.Config, run: seq<B.State>, i: nat)
    requires Connected(heaps, fabric, me, c, run, i)
    ensures forall p: nat :: p in fabric.peers <==> p < |heaps|
    ensures forall p :: 0 <= p < |heaps| ==> p in fabric.peers && fabric.peers[p] == heaps[p].localBase
  {
    B.Agreement(c, run, i, i, me, me);
    assert B.PeerCount(c) == c.size;
  }

  /** All PEs have run the same history, on heaps that answer it as one of `capacity` bytes does;
      call `k` returned a pointer that is still live. */
  ghost predicate SharedAllocation(heaps: seq<SymHeap>, replies: seq<seq<Reply>>,
                                   capacity: nat, calls: seq<Call>, k: nat)
    reads set h | h in heaps
  {
    && |replies| == |heaps| && k < |calls| && capacity % 8 == 0 && capacity <= USIZE_MAX
    && (forall p :: 0 <= p < |heaps| ==>
          AnswersAlike(heaps[p].Capacity(), capacity, calls) && Matches(heaps[p], replies[p], Run(capacity, calls)))
    && Run(capacity, calls).replies[k].Allocated?
    && Run(capacity, calls).replies[k].at in Run(capacity, calls).live
  }

  /** On every PE the call's pointer is that PE's base plus the one common offset. */
  lemma OwnPointer(heaps: seq<SymHeap>, replies: seq<seq<Reply>>, capacity: nat, calls: seq<Call>, k: nat, p: nat)
    requires SharedAllocation(heaps, replies, capacity, calls, k) && p < |heaps|
    ensures WellFormed(capacity, Run(capacity, calls).live)
    ensures k < |replies[p]| && replies[p][k].Allocated? && replies[p][k].at <= USIZE_MAX
    ensures replies[p][k].at == heaps[p].localBase + Run(capacity, calls).replies[k].at
    ensures OffsetFrom(replies[p][k].at, heaps[p].localBase) == Ok(Run(capacity, calls).replies[k].at)
  {
    var s := Run(capacity, calls);
    assert Matches(heaps[p], replies[p], s);
    assert AtBase(heaps[p].localBase, replies[p][k], s.replies[k]);
    assert heaps[p].Valid();
    RunIsWellFormed(capacity, calls);
  }

  lemma WithinUsize(capacity: nat, live: Live, o: nat, at: nat, len: nat)
    requires WellFormed(capacity, live) && capacity <= USIZE_MAX && o in live && o <= at && at + len <= o + live[o]
    ensures at <= USIZE_MAX && InAllocation(capacity, live, o, at, len)
  {
  }

  /** PE `me` puts values `delta` bytes past its own pointer to a shared allocation `o`. The put
      succeeds, the bytes land `delta` past the target's own pointer for the same call, and no
      other live allocation of any PE, the target included, changes. */
  method PutThroughOwnPointer(heaps: seq<SymHeap>, replies: seq<seq<Reply>>, ghost capacity: nat,
                              ghost calls: seq<Call>, k: nat, fabric: Fabric, me: nat, target: nat, delta: nat,
                              t: PodType, ghost values: seq<nat>, image: seq<byte>,
                              ghost c: B.Config, ghost run: seq<B.State>, ghost i: nat,
                              ghost o: nat, ghost at: nat)
    returns (put: Result<()>)
    requires me < |heaps| && target < |heaps|
    requires SharedAllocation(heaps, replies, capacity, calls, k)
    requires Connected(heaps, fabric, me, c, run, i)
    requires IsMemoryImage(fabric.endian, t, values, image) && values != []
    requires o == Run(capacity, calls).replies[k].at && at == o + delta
    requires delta + |image| <= Run(capacity, calls).live[o]
    modifies fabric
    ensures put.Ok? && fabric.Valid()
    ensures replies[target][k].Allocated? && target in fabric.peers
    ensures fabric.peers[target] + at == replies[target][k].at + delta
    ensures HoldsAt(fabric.memory[target], at, Encode(fabric.endian, t, values))
    ensures OthersUntouched(old(fabric.memory), fabric.memory, Run(capacity, calls).live, target, o)
  {
    OwnPointer(heaps, replies, capacity, calls, k, me);
    OwnPointer(heaps, replies, capacity, calls, k, target);
    PeersAreBases(heaps, fabric, me, c, run, i);
    var offset := OffsetFrom(replies[me][k].at, heaps[me].localBase).value;
    WithinUsize(capacity, Run(capacity, calls).live, o, at, |image|);
    put := PutInside(fabric, t, values, image, target, offset + delta, capacity, Run(capacity, calls).live, o);
  }
}

/** Addressing and typed one-sided transfers over the symmetric heaps of all PEs. */
module Rma {
  import opened Machine
  import opened HeapSpec
  import opened SymHeaps
  import opened PodCodec

  /** Heap base of each connected PE, as the bootstrap exchange recorded it. */
  type Peers = map<nat, usize>

  /** The checks before every transfer. The target's capacity is not among them. */
  function PeerAndAddress(peers: Peers, pe: usize, offset: usize, len: usize): Result<usize> {
    if pe >= U32_LIMIT then Err(PeOutOfRange)
    else if pe !in peers then Err(PeNotInJob)
    else match CheckedAdd(peers[pe], offset)
      case None => Err(AddressOverflow)
      case Some(address) =>
        if CheckedAdd(offset, len).None? then Err(RangeOverflow) else Ok(address)
  }

  predicate InRegion(base: nat, capacity: nat, address: nat, len: nat) {
    base <= address && address + len <= base + capacity
  }

  /** The checks in order, and the address of an accepted range. An empty range is checked alike. */
  lemma RangeChecks(peers: Peers, pe: usize, offset: usize, len: usize)
    ensures var r := PeerAndAddress(peers, pe, offset, len);
            && IsFirstFailure([Unless(pe < 0x1_0000_0000, PeOutOfRange), Unless(pe in peers, PeNotInJob),
                               Unless(pe in peers ==> peers[pe] + offset <= USIZE_MAX, AddressOverflow),
                               Unless(offset + len <= USIZE_MAX, RangeOverflow)], ErrorOf(r))
            && (r.Ok? ==> r.value - peers[pe] == offset)
  {
    var checks := [Unless(pe < 0x1_0000_0000, PeOutOfRange), Unless(pe in peers, PeNotInJob),
                   Unless(pe in peers ==> peers[pe] + offset <= USIZE_MAX, AddressOverflow),
                   Unless(offset + len <= USIZE_MAX, RangeOverflow)];
    assert checks[0].None? <==> pe < 0x1_0000_0000;
    assert checks[1].None? <==> pe in peers;
    assert checks[2].None? <==> (pe in peers ==> peers[pe] + offset <= USIZE_MAX);
    assert checks[3].None? <==> offset + len <= USIZE_MAX;
  }

  /** An accepted range lies inside the target's heap exactly when the caller's range does. */
  lemma AcceptedRange(peers: Peers, pe: usize, offset: usize, len: usize, capacity: nat)
    requires PeerAndAddress(peers, pe, offset, len).Ok?
    ensures InRegion(peers[pe], capacity, PeerAndAddress(peers, pe, offset, len).value, len)
            <==> offset + len <= capacity
  {
  }

  /** The checks alone do not keep a transfer inside the heap. */
  lemma CapacityIsNotChecked()
    ensures exists peers: Peers, offset: usize ::
              var r := PeerAndAddress(peers, 0, offset, 8);
              r.Ok? && !InRegion(peers[0], 8, r.value, 8)
  {
    var peers: Peers := map[0 := 4096];
    assert PeerAndAddress(peers, 0, 8, 8) == Ok(4104);
    assert !InRegion(4096, 8, 4104, 8);
  }

  /** Any range inside a heap, if its address exists, is accepted, and its address is the translation
      of the caller's own pointer to that offset. Only an empty range can have no address. */
  lemma RangeInHeapIsAccepted(peers: Peers, pe: usize, offset: usize, len: usize, capacity: nat, localBase: usize)
    requires pe in peers && pe < U32_LIMIT && peers[pe] + capacity <= USIZE_MAX + 1
    requires localBase + capacity <= USIZE_MAX + 1 && capacity <= USIZE_MAX
    requires offset + len <= capacity
    requires len > 0 || (peers[pe] + offset <= USIZE_MAX && localBase + offset <= USIZE_MAX)
    ensures var r := PeerAndAddress(peers, pe, offset, len);
            && r.Ok? && InRegion(peers[pe], capacity, r.value, len)
            && r == ToRemoteAddr(localBase + offset, localBase, peers[pe])
  {
  }

  function Splice(memory: seq<byte>, at: nat, bytes: seq<byte>): (m: seq<byte>)
    requires at + |bytes| <= |memory|
    ensures |m| == |memory|
  {
    memory[..at] + bytes + memory[at + |bytes|..]
  }

  predicate HoldsAt(memory: seq<byte>, at: nat, bytes: seq<byte>) {
    at + |bytes| <= |memory| && memory[at..at + |bytes|] == bytes
  }

  lemma SpliceReads(memory: seq<byte>, at: nat, bytes: seq<byte>)
    requires at + |bytes| <= |memory|
    ensures HoldsAt(Splice(memory, at, bytes), at, bytes)
    ensures forall x :: 0 <= x < |memory| && !(at <= x < at + |bytes|) ==> Splice(memory, at, bytes)[x] == memory[x]
  {
  }

  /** The registered regions of all PEs, seen from one of them. */
  class Fabric {
    const endian: Endian
    const peers: Peers
    var memory: map<nat, seq<byte>>

    ghost predicate Valid()
      reads this
    {
      && memory.Keys == peers.Keys
      && forall p :: p in peers ==> p < U32_LIMIT && peers[p] + |memory[p]| <= USIZE_MAX + 1
    }

    constructor (endian: Endian, peers: Peers, memory: map<nat, seq<byte>>)
      requires memory.Keys == peers.Keys
      requires forall p :: p in peers ==> p < U32_LIMIT && peers[p] + |memory[p]| <= USIZE_MAX + 1
      ensures Valid() && this.endian == endian && this.peers == peers && this.memory == memory
    {
      this.endian, this.peers, this.memory := endian, peers, memory;
    }

    /** The transport's put: a byte copy, refused outside the registered region. */
    method TransportPut(pe: nat, address: usize, bytes: seq<byte>) returns (r: Result<()>)
      requires Valid() && pe in peers
      modifies this
      ensures Valid()
      ensures r.Ok? <==> InRegion(peers[pe], |old(memory)[pe]|, address, |bytes|)
      ensures r.Ok? ==> memory == old(memory)[pe := Splice(old(memory)[pe], address - peers[pe], bytes)]
      ensures r.Err? ==> memory == old(memory) && r.error.Foreign?
    {
      if InRegion(peers[pe], |memory[pe]|, address, |bytes|) {
        memory := memory[pe := Splice(memory[pe], address - peers[pe], bytes)];
        r := Ok(());
      } else {
        r := Err(Foreign(-6));
      }
    }

    /** The transport's get, over the same region. */
    method TransportGet(pe: nat, address: usize, len: nat) returns (r: Result<seq<byte>>)
      requires Valid() && pe in peers
      ensures r.Ok? <==> InRegion(peers[pe], |memory[pe]|, address, len)
      ensures r.Ok? ==> var at := address - peers[pe]; r.value == memory[pe][at..at + len]
      ensures r.Err? ==> r.error.Foreign?
    {
      if InRegion(peers[pe], |memory[pe]|, address, len) {
        var at := address - peers[pe];
        r := Ok(memory[pe][at..at + len]);
      } else {
        r := Err(Foreign(-6));
      }
    }

    method PutMem(pe: usize, bytes: seq<byte>, offset: usize) returns (r: Result<()>)
      requires Valid() && |bytes| <= USIZE_MAX
      modifies this
      ensures Valid()
      ensures PeerAndAddress(peers, pe, offset, |bytes|).Err? ==>
                r == Err(PeerAndAddress(peers, pe, offset, |bytes|).error)
      ensures PeerAndAddress(peers, pe, offset, |bytes|).Ok? ==>
                (r.Ok? <==> bytes == [] || offset + |bytes| <= |old(memory)[pe]|)
      ensures r.Ok? && bytes != [] ==> memory == old(memory)[pe := Splice(old(memory)[pe], offset, bytes)]
      ensures r.Err? || bytes == [] ==> memory == old(memory)
    {
      var address :- PeerAndAddress(peers, pe, offset, |bytes|);
      if bytes == [] { return Ok(()); }
      r := TransportPut(pe, address, bytes);
    }

    method GetMem(pe: usize, offset: usize, len: usize) returns (r: Result<seq<byte>>)
      requires Valid()
      ensures PeerAndAddress(peers, pe, offset, len).Err? ==>
                r == Err(PeerAndAddress(peers, pe, offset, len).error)
      ensures PeerAndAddress(peers, pe, offset, len).Ok? ==>
                (r.Ok? <==> len == 0 || offset + len <= |memory[pe]|)
      ensures r.Ok? ==> r.value == if len == 0 then [] else memory[pe][offset..offset + len]
    {
      var address :- PeerAndAddress(peers, pe, offset, len);
      if len == 0 { return Ok([]); }
      r := TransportGet(pe, address, len);
    }

    /** Put `values`, whose slice has the memory image `image`, without an encode buffer. */
    method Put(t: PodType, ghost values: seq<nat>, image: seq<byte>, pe: usize, offset: usize) returns (r: Result<()>)
      requires Valid() && IsMemoryImage(endian, t, values, image)
      modifies this
      ensures Valid()
      ensures |image| > USIZE_MAX ==> r == Err(LengthOverflow)
      ensures |image| <= USIZE_MAX && PeerAndAddress(peers, pe, offset, |image|).Ok? ==>
                (r.Ok? <==> image == [] || offset + |image| <= |old(memory)[pe]|)
      ensures |image| <= USIZE_MAX && PeerAndAddress(peers, pe, offset, |image|).Err? ==>
                r == Err(PeerAndAddress(peers, pe, offset, |image|).error)
      ensures image == Encode(endian, t, values)
      ensures |image| == |values| * match t case U8 | I8 => 1 case U16 | I16 => 2
                                            case U32 | I32 | F32 => 4 case U64 | I64 | F64 => 8
      ensures r.Ok? && values != [] ==>
                && memory == old(memory)[pe := Splice(old(memory)[pe], offset, image)]
                && HoldsAt(memory[pe], offset, image) && SameOutside(old(memory)[pe], memory[pe], offset, |image|)
      ensures r.Err? || values == [] ==> memory == old(memory)
    {
      MemoryImageIsEncoding(endian, t, values, image);
      if |image| > USIZE_MAX { return Err(LengthOverflow); }
      assert values == [] <==> image == [];
      r := PutMem(pe, image, offset);
    }

    /** Get `count` values, decoding only what the completed transfer returned. */
    method Get(t: PodType, pe: usize, offset: usize, count: usize) returns (r: Result<seq<nat>>)
      requires Valid()
      ensures count * Size(t) > USIZE_MAX ==> r == Err(LengthOverflow)
      ensures count * Size(t) <= USIZE_MAX && PeerAndAddress(peers, pe, offset, count * Size(t)).Err? ==>
                r == Err(PeerAndAddress(peers, pe, offset, count * Size(t)).error)
      ensures count * Size(t) <= USIZE_MAX && PeerAndAddress(peers, pe, offset, count * Size(t)).Ok? ==>
                (r.Ok? <==> count == 0 || offset + count * Size(t) <= |memory[pe]|)
      ensures r.Ok? ==> |r.value| == count && AllFit(t, r.value)
      ensures r.Ok? && count > 0 ==> HoldsAt(memory[pe], offset, Encode(endian, t, r.value))
    {
      var len := CheckedMul(count, Size(t));
      if len.None? { return Err(LengthOverflow); }
      var bytes :- GetMem(pe, offset, len.value);
      EncodeOfDecode(endian, t, bytes, count);
      r := DecodeAll(endian, t, bytes);
    }
  }

  // ---- Put, then get, inside a live allocation ----

  /** `[at, at + len)` lies in the live allocation `o` of a heap of `capacity` bytes. */
  ghost predicate InAllocation(capacity: nat, live: Live, o: nat, at: nat, len: nat) {
    WellFormed(capacity, live) && o in live && o <= at && at + len <= o + live[o]
  }

  /** Region `b` differs from region `a` at most in `[at, at + len)`. */
  ghost predicate SameOutside(a: seq<byte>, b: seq<byte>, at: nat, len: nat) {
    |a| == |b| && forall x :: 0 <= x < |a| && !(at <= x < at + len) ==> a[x] == b[x]
  }

  ghost predicate Untouched(before: map<nat, seq<byte>>, after: map<nat, seq<byte>>, q: nat, p: nat, n: nat)
    requires q in before && q in after
  {
    p + n <= |before[q]| == |after[q]| && after[q][p..p + n] == before[q][p..p + n]
  }

  /** The bytes of every live allocation, other than `o` on the target, are unchanged everywhere. */
  ghost predicate OthersUntouched(before: map<nat, seq<byte>>, after: map<nat, seq<byte>>,
                                  live: Live, pe: nat, o: nat)
  {
    && before.Keys == after.Keys
    && forall q, p :: q in before && p in live && (q != pe || p != o) ==> Untouched(before, after, q, p, live[p])
  }

  lemma FrameByAllocation(before: map<nat, seq<byte>>, after: map<nat, seq<byte>>,
                          capacity: nat, live: Live, pe: nat, o: nat, at: nat, len: nat)
    requires InAllocation(capacity, live, o, at, len)
    requires before.Keys == after.Keys && pe in before
    requires forall q :: q in before ==> capacity <= |before[q]|
    requires forall q :: q in before && q != pe ==> after[q] == before[q]
    requires SameOutside(before[pe], after[pe], at, len)
    ensures OthersUntouched(before, after, live, pe, o)
  {
    forall q, p | q in before && p in live && (q != pe || p != o)
      ensures Untouched(before, after, q, p, live[p])
    {
      var n := live[p];
      assert p + n <= capacity;
      if q == pe {
        assert p + n <= at || at + len <= p;
        SliceUntouched(before[q], after[q], at, len, p, n);
      }
    }
  }

  lemma SliceUntouched(a: seq<byte>, b: seq<byte>, at: nat, len: nat, p: nat, n: nat)
    requires SameOutside(a, b, at, len) && p + n <= |a| && (p + n <= at || at + len <= p)
    ensures b[p..p + n] == a[p..p + n]
  {
  }

  /** Two equally long lists of values that fit, held at one place, are one list. */
  lemma ReadBack(e: Endian, t: PodType, memory: seq<byte>, at: nat, us: seq<nat>, vs: seq<nat>)
    requires AllFit(t, us) && AllFit(t, vs) && |us| == |vs|
    requires HoldsAt(memory, at, Encode(e, t, us)) && HoldsAt(memory, at, Encode(e, t, vs))
    ensures us == vs
  {
    EncodeLength(e, t, us);
    EncodeLength(e, t, vs);
    SameBytesHeld(memory, at, Encode(e, t, us), Encode(e, t, vs));
    DecodeOfEncode(e, t, us);
    DecodeOfEncode(e, t, vs);
  }

  lemma SameBytesHeld(memory: seq<byte>, at: nat, a: seq<byte>, b: seq<byte>)
    requires HoldsAt(memory, at, a) && HoldsAt(memory, at, b) && |a| == |b|
    ensures a == b
  {
  }

  /** A put inside a live allocation succeeds and touches no other byte of any PE's heap: in
      particular no byte of any other live allocation, on the target or anywhere else. */
  method PutInside(fabric: Fabric, t: PodType, ghost values: seq<nat>, image: seq<byte>,
                   pe: usize, at: usize, ghost capacity: nat, ghost live: Live, ghost o: nat)
    returns (put: Result<()>)
    requires fabric.Valid() && pe in fabric.peers && capacity <= USIZE_MAX
    requires forall q :: q in fabric.peers ==> capacity <= |fabric.memory[q]|
    requires IsMemoryImage(fabric.endian, t, values, image) && values != []
    requires InAllocation(capacity, live, o, at, |image|)
    modifies fabric
    ensures fabric.Valid() && put.Ok?
    ensures forall q :: q in fabric.peers && q != pe ==> fabric.memory[q] == old(fabric.memory)[q]
    ensures SameOutside(old(fabric.memory)[pe], fabric.memory[pe], at, |image|)
    ensures HoldsAt(fabric.memory[pe], at, Encode(fabric.endian, t, values))
    ensures OthersUntouched(old(fabric.memory), fabric.memory, live, pe, o)
  {
    ghost var before := fabric.memory;
    MemoryImageIsEncoding(fabric.endian, t, values, image);
    assert image != [];
    RangeInHeapIsAccepted(fabric.peers, pe, at, |image|, capacity, 0);
    put := fabric.Put(t, values, image, pe, at);
    SpliceReads(before[pe], at, image);
    FrameByAllocation(before, fabric.memory, capacity, live, pe, o, at, |image|);
  }

  /** Round trip: what was put inside a live allocation is what a get returns, for every type. */
  method PutThenGet(fabric: Fabric, t: PodType, ghost values: seq<nat>, image: seq<byte>, count: usize,
                    pe: usize, at: usize, ghost capacity: nat, ghost live: Live, ghost o: nat)
    returns (put: Result<()>, got: Result<seq<nat>>)
    requires fabric.Valid() && pe in fabric.peers && capacity <= USIZE_MAX
    requires forall q :: q in fabric.peers ==> capacity <= |fabric.memory[q]|
    requires IsMemoryImage(fabric.endian, t, values, image) && AllFit(t, values) && count == |values| > 0
    requires InAllocation(capacity, live, o, at, |image|)
    modifies fabric
    ensures fabric.Valid() && put.Ok? && got == Ok(values)
    ensures OthersUntouched(old(fabric.memory), fabric.memory, live, pe, o)
  {
    put := PutInside(fabric, t, values, image, pe, at, capacity, live, o);
    RangeInHeapIsAccepted(fabric.peers, pe, at, |image|, capacity, 0);
    got := fabric.Get(t, pe, at, count);
    ReadBack(fabric.endian, t, fabric.memory[pe], at, got.value, values);
  }
}

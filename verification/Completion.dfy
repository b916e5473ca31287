/** Completion of outstanding transfers: quiet over all peers, and quiet for one. */
module Completion {
  import opened Machine

  /** Operations issued to each connected PE and not yet complete there. */
  type Pending = map<nat, nat>

  /** Flush the peers of `keys` in order, stopping at the first one whose flush fails. */
  function QuietSpec(pending: Pending, keys: seq<nat>, flush: map<nat, Result<()>>): (Pending, Result<()>)
    decreases |keys|
  {
    if keys == [] then (pending, Ok(()))
    else if keys[0] in flush && flush[keys[0]].Err? then (pending, flush[keys[0]])
    else QuietSpec(pending[keys[0] := 0], keys[1..], flush)
  }

  predicate Flushes(pe: nat, flush: map<nat, Result<()>>) {
    pe in flush ==> flush[pe].Ok?
  }

  /** A quiet succeeds iff every flush does. It then leaves nothing outstanding; when it fails at
      peer `k`, exactly the peers before `k` have completed and the others are as they were. */
  lemma {:induction false} QuietMeaning(pending: Pending, keys: seq<nat>, flush: map<nat, Result<()>>) returns (k: nat)
    ensures k <= |keys| && forall i :: 0 <= i < k ==> Flushes(keys[i], flush)
    ensures var (after, r) := QuietSpec(pending, keys, flush);
            && (r.Ok? <==> k == |keys|)
            && (k < |keys| ==> !Flushes(keys[k], flush) && r == flush[keys[k]])
            && after.Keys == pending.Keys + (set p | p in keys[..k])
            && forall p :: p in after ==> after[p] == if p in keys[..k] then 0 else pending[p]
    decreases |keys|
  {
    if keys == [] || !Flushes(keys[0], flush) {
      k := 0;
    } else {
      var j := QuietMeaning(pending[keys[0] := 0], keys[1..], flush);
      k := j + 1;
      assert keys[..k] == [keys[0]] + keys[1..][..j];
    }
  }

  /** A successful quiet over all peers leaves nothing outstanding to any of them. */
  lemma QuietDrains(pending: Pending, keys: seq<nat>, flush: map<nat, Result<()>>)
    requires pending.Keys == (set p | p in keys) && QuietSpec(pending, keys, flush).1.Ok?
    ensures forall p :: p in QuietSpec(pending, keys, flush).0 ==> QuietSpec(pending, keys, flush).0[p] == 0
  {
    var k := QuietMeaning(pending, keys, flush);
    assert keys[..k] == keys;
  }

  class Endpoints {
    const keys: seq<nat>   // connected peers, in key order
    var pending: Pending

    ghost predicate Valid()
      reads this
    {
      (forall i, j :: 0 <= i < j < |keys| ==> keys[i] < keys[j]) && pending.Keys == (set p | p in keys)
    }

    constructor (keys: seq<nat>, pending: Pending)
      requires (forall i, j :: 0 <= i < j < |keys| ==> keys[i] < keys[j]) && pending.Keys == (set p | p in keys)
      ensures Valid() && this.keys == keys && this.pending == pending
    {
      this.keys, this.pending := keys, pending;
    }

    /** Complete the transfers to one PE. */
    method QuietPe(pe: usize, flush: map<nat, Result<()>>) returns (r: Result<()>)
      requires Valid()
      modifies this
      ensures Valid()
      ensures pe >= U32_LIMIT ==> r == Err(PeOutOfRange)
      ensures pe < U32_LIMIT && pe !in keys ==> r == Err(PeNotInJob)
      ensures pe < U32_LIMIT && pe in keys ==> (pending, r) == QuietSpec(old(pending), [pe], flush)
      ensures pe >= U32_LIMIT || pe !in keys ==> pending == old(pending)
    {
      if pe >= U32_LIMIT { return Err(PeOutOfRange); }
      if pe !in pending { return Err(PeNotInJob); }
      assert [pe][1..] == [];
      if pe in flush && flush[pe].Err? { return flush[pe]; }
      pending := pending[pe := 0];
      r := Ok(());
    }

    /** Complete the transfers to every connected PE. */
    method Quiet(flush: map<nat, Result<()>>) returns (r: Result<()>)
      requires Valid()
      modifies this
      ensures Valid() && (pending, r) == QuietSpec(old(pending), keys, flush)
      ensures r.Ok? ==> forall pe :: pe in pending ==> pending[pe] == 0
    {
      ghost var before := pending;
      for i := 0 to |keys|
        invariant Valid()
        invariant QuietSpec(pending, keys[i..], flush) == QuietSpec(before, keys, flush)
      {
        var pe := keys[i];
        assert keys[i..][1..] == keys[i + 1..];
        if pe in flush && flush[pe].Err? { return flush[pe]; }
        pending := pending[pe := 0];
      }
      QuietDrains(before, keys, flush);
      r := Ok(());
    }

    /** Quiet is quiet_pe on each connected PE in key order, up to the first error. */
    method QuietEach(flush: map<nat, Result<()>>) returns (r: Result<()>)
      requires Valid() && forall i :: 0 <= i < |keys| ==> keys[i] < U32_LIMIT
      modifies this
      ensures Valid() && (pending, r) == QuietSpec(old(pending), keys, flush)
    {
      for i := 0 to |keys|
        invariant Valid()
        invariant QuietSpec(pending, keys[i..], flush) == QuietSpec(old(pending), keys, flush)
      {
        assert keys[i..][1..] == keys[i + 1..];
        assert [keys[i]][1..] == [];
        r := QuietPe(keys[i], flush);
        if r.Err? { return; }
      }
      r := Ok(());
    }
  }
}

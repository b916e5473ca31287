/** Blocking collectives and the non-blocking request state machine, over abstract UCC operations. */
module Collectives {
  import opened Machine
  import opened PodCodec

  // ---- A posted UCC operation ----

  /** What a posted operation will do: `remaining` progress calls, then the `final` status; what
      `finalize` answers, and the bytes left in the operation's buffer once the status is UCC_OK. */
  datatype Schedule = Schedule(remaining: nat, final: Result<()>, finalizing: Result<()>, output: seq<byte>)

  /** The one result a posted operation leads to. */
  function Outcome(s: Schedule): Result<()> {
    if s.final.Err? then s.final else s.finalizing
  }

  lemma UnitIsUnique(r: Result<()>)
    ensures r.Ok? ==> r == Ok(())
  {
    if r.Ok? { assert r.value == (); }
  }

  class UccOp {
    var remaining: nat
    const final: Result<()>
    const finalizing: Result<()>
    const output: seq<byte>

    constructor (s: Schedule)
      ensures Plan() == s
    {
      remaining, final, finalizing, output := s.remaining, s.final, s.finalizing, s.output;
    }

    function Plan(): Schedule
      reads this
    {
      Schedule(remaining, final, finalizing, output)
    }

    /** `context.progress()` moves the operation along. */
    method Progress()
      modifies this
      ensures remaining == if old(remaining) == 0 then 0 else old(remaining) - 1
    {
      if remaining > 0 { remaining := remaining - 1; }
    }
  }

  /** Drive one operation to its end. */
  method Wait(op: UccOp) returns (r: Result<()>)
    modifies op
    ensures r == Outcome(old(op.Plan()))
    ensures op.remaining == 0
  {
    while true
      invariant Outcome(op.Plan()) == Outcome(old(op.Plan()))
      decreases op.remaining
    {
      if op.remaining == 0 {
        if op.final.Ok? { return op.finalizing; }
        return op.final;
      }
      op.Progress();
    }
  }

  // ---- The request state machine, on values ----

  /** A request: its operation until taken, its last buffer, and the destination's contents. */
  datatype Request = Request(op: Option<Schedule>, buffer: seq<byte>, destination: Option<seq<nat>>)

  ghost function Decoded(e: Endian, t: PodType, destination: Option<seq<nat>>, bytes: seq<byte>): Option<seq<nat>> {
    match destination
    case None => None
    case Some(values) =>
      var r := DecodeAll(e, t, bytes);
      Some(if r.Ok? && |r.value| == |values| then r.value else values)
  }

  ghost function TestSpec(e: Endian, t: PodType, q: Request): (Request, Result<bool>) {
    match q.op
    case None => (q, Ok(true))
    case Some(s) =>
      if s.remaining > 0 then (q.(op := Some(s.(remaining := s.remaining - 1))), Ok(false))
      else if s.final.Err? then (q, Err(s.final.error))
      else
        var taken := q.(op := None, buffer := s.output);
        if s.finalizing.Err? then (taken, Err(s.finalizing.error))
        else (taken.(destination := Decoded(e, t, q.destination, s.output)), Ok(true))
  }

  /** The request after `k` calls of `test`. */
  ghost function AfterTests(e: Endian, t: PodType, q: Request, k: nat): Request {
    if k == 0 then q else TestSpec(e, t, AfterTests(e, t, q, k - 1)).0
  }

  /** What call number `k` of `test` (from 0) answers. */
  ghost function Answer(e: Endian, t: PodType, q: Request, k: nat): Result<bool> {
    TestSpec(e, t, AfterTests(e, t, q, k)).1
  }

  /** The whole history of a request, call by call: pending for `remaining` calls with nothing
      touched; an error status repeats for ever and never writes; a failed finalize is reported
      once; otherwise the first `Ok(true)` writes the destination, and nothing writes it again. */
  lemma {:induction false} TestHistory(e: Endian, t: PodType, q: Request, k: nat)
    requires q.op.Some?
    ensures var s := q.op.value;
            AfterTests(e, t, q, k) ==
              if k <= s.remaining then q.(op := Some(s.(remaining := s.remaining - k)))
              else if s.final.Err? then q.(op := Some(s.(remaining := 0)))
              else if s.finalizing.Err? then q.(op := None, buffer := s.output)
              else Request(None, s.output, Decoded(e, t, q.destination, s.output))
    ensures var s := q.op.value;
            Answer(e, t, q, k) ==
              if k < s.remaining then Ok(false)
              else if s.final.Err? then Err(s.final.error)
              else if s.finalizing.Err? && k == s.remaining then Err(s.finalizing.error)
              else Ok(true)
  {
    if k > 0 {
      TestHistory(e, t, q, k - 1);
    }
  }

  /** The destination is written by at most one call of `test`, whichever calls are made. */
  lemma WrittenAtMostOnce(e: Endian, t: PodType, q: Request, i: nat, j: nat)
    requires q.op.Some? && i < j
    requires AfterTests(e, t, q, i + 1).destination != AfterTests(e, t, q, i).destination
    ensures AfterTests(e, t, q, j + 1).destination == AfterTests(e, t, q, j).destination
    ensures Answer(e, t, q, i) == Ok(true)
  {
    TestHistory(e, t, q, i);
    TestHistory(e, t, q, i + 1);
    TestHistory(e, t, q, j);
    TestHistory(e, t, q, j + 1);
  }

  /** `Ok(true)` means the destination holds the result if and only if finalize did not fail:
      the operation is taken before finalize, so a later call says `Ok(true)` all the same. */
  lemma OkTrueMeansWrittenIff(e: Endian, t: PodType, q: Request, k: nat)
    requires q.op.Some? && Answer(e, t, q, k) == Ok(true)
    requires Decoded(e, t, q.destination, q.op.value.output) != q.destination
    ensures AfterTests(e, t, q, k + 1).destination == Decoded(e, t, q.destination, q.op.value.output)
            <==> forall i: nat :: i < k ==> Answer(e, t, q, i).Ok?
  {
    TestHistory(e, t, q, k);
    TestHistory(e, t, q, k + 1);
    var s := q.op.value;
    forall i: nat | i < k
      ensures Answer(e, t, q, i).Ok? <==> !(s.finalizing.Err? && i == s.remaining)
    {
      TestHistory(e, t, q, i);
    }
    assert s.finalizing.Err? ==> s.remaining < k && !Answer(e, t, q, s.remaining).Ok?;
  }

  /** A request whose finalize fails: its second poll answers `Ok(true)`, and the destination is
      not, then or ever, the operation's output. */
  lemma OkTrueUnwritten(e: Endian, k: nat)
    requires k >= 1
    ensures var q := Request(Some(Schedule(0, Ok(()), Err(Foreign(-1)), [7])), [0], Some([0]));
            && Answer(e, U8, q, k) == Ok(true)
            && AfterTests(e, U8, q, k + 1).destination == Some([0])
            && Decoded(e, U8, q.destination, q.op.value.output) == Some([7])
  {
    var q := Request(Some(Schedule(0, Ok(()), Err(Foreign(-1)), [7])), [0], Some([0]));
    TestHistory(e, U8, q, k);
    TestHistory(e, U8, q, k + 1);
    DecodedSeven(e);
  }

  lemma DecodedSeven(e: Endian)
    ensures DecodeAll(e, U8, [7]) == Ok([7])
  {
    var bytes: seq<byte> := [7];
    assert LittleBytes(1, 7) == [7];
    assert Reverse(bytes) == bytes;
    assert ToNeBytes(e, U8, 7) == bytes;
    assert Encode(e, U8, [7]) == bytes;
    assert Pow256(1) == 256 * Pow256(0);
    DecodeOfEncode(e, U8, [7]);
  }

  // ---- The request object ----

  class CollectiveRequest {
    const endian: Endian
    const podType: PodType
    const destination: array?<nat>
    const resultIndex: Option<nat>
    var op: UccOp?
    var buffers: seq<seq<byte>>

    /** Buffers survive to completion; UCC leaves their lengths as the caller made them. */
    ghost predicate Valid()
      reads this, op
    {
      && buffers != []
      && (resultIndex.Some? ==> resultIndex.value == |buffers| - 1)
      && (op != null && destination != null ==>
            |op.output| == destination.Length * Size(podType) <= USIZE_MAX)
    }

    ghost function View(): Request
      reads this, op, destination
      requires buffers != []
    {
      Request(if op == null then None else Some(op.Plan()),
              buffers[|buffers| - 1],
              if destination == null then None else Some(destination[..]))
    }

    constructor (endian: Endian, podType: PodType, op: UccOp, buffers: seq<seq<byte>>,
                 destination: array?<nat>, resultIndex: Option<nat>)
      requires buffers != [] && (resultIndex.Some? ==> resultIndex.value == |buffers| - 1)
      requires destination != null ==> |op.output| == destination.Length * Size(podType) <= USIZE_MAX
      ensures Valid() && this.op == op && this.buffers == buffers
      ensures this.endian == endian && this.podType == podType
      ensures this.destination == destination && this.resultIndex == resultIndex
    {
      this.endian, this.podType, this.destination, this.resultIndex := endian, podType, destination, resultIndex;
      this.op, this.buffers := op, buffers;
    }

    /** Poll once. */
    method Test() returns (r: Result<bool>)
      requires Valid()
      modifies this, op, destination
      ensures Valid() && |buffers| == old(|buffers|)
      ensures (View(), r) == TestSpec(endian, podType, old(View()))
      ensures op == old(op) || op == null
    {
      if op == null { return Ok(true); }
      if op.remaining > 0 {
        op.Progress();
        return Ok(false);
      }
      if op.final.Err? { return Err(op.final.error); }
      var taken := op;
      op := null;
      // The operation is complete, so its buffer now holds the output.
      buffers := buffers[|buffers| - 1 := taken.output];
      if taken.finalizing.Err? { return Err(taken.finalizing.error); }
      if destination != null {
        var decoded := DecodeBuffer(endian, podType, buffers[|buffers| - 1], destination);
        DecodeOfEncode(endian, podType, destination[..]);
      }
      r := Ok(true);
    }

    /** Poll until the request answers `Ok(true)` or an error; a finished request answers at once. */
    method Wait() returns (r: Result<()>)
      requires Valid()
      modifies this, op, destination
      ensures Valid() && |buffers| == old(|buffers|)
      ensures old(op) == null ==> r == Ok(()) && View() == old(View())
      ensures old(op) != null ==> r == Outcome(old(View()).op.value)
      ensures old(op) != null ==>
                View() == AfterTests(endian, podType, old(View()), old(View()).op.value.remaining + 1)
    {
      if op == null {
        var done := Test();
        return Ok(());
      }
      ghost var q, k := View(), 0;
      ghost var s := op.Plan();
      while true
        invariant 0 <= k <= s.remaining && Valid() && |buffers| == old(|buffers|) && op == old(op)
        invariant View() == AfterTests(endian, podType, q, k)
        decreases s.remaining - k
      {
        TestHistory(endian, podType, q, k);
        var done :- Test();
        if done {
          UnitIsUnique(s.finalizing);
          return Ok(());
        }
        k := k + 1;
      }
    }

    /** Read the gathered values of a completed request: all the values whose encoding fits in the
        result buffer, so exactly its contents when it holds whole values. */
    method Gathered() returns (r: Result<seq<nat>>)
      requires Valid()
      ensures r.Ok? <==> op == null && resultIndex.Some?
      ensures r.Err? ==> r.error == if op != null then RequestIncomplete else NoResult
      ensures r.Ok? ==>
        var buffer := buffers[resultIndex.value];
        && AllFit(podType, r.value)
        && Encode(endian, podType, r.value) <= buffer
        && |buffer| < |Encode(endian, podType, r.value)| + Size(podType)
    {
      if op != null { return Err(RequestIncomplete); }
      if resultIndex.None? { return Err(NoResult); }
      DecodeDropsRemainder(endian, podType, buffers[resultIndex.value]);
      r := DecodeAll(endian, podType, buffers[resultIndex.value]);
    }
  }

  // ---- What each collective means, blocking or not ----

  /** The runtime's state as a collective finds it: usable, and of a size. */
  datatype Team = Team(ready: Result<()>, ranks: Result<usize>)

  /** Post an in-place operation on the encoded values and decode its buffer back over them. */
  function InPlaceSpec(e: Endian, t: PodType, posted: Result<()>, values: seq<nat>, s: Schedule)
    : (Result<()>, seq<nat>)
  {
    if posted.Err? then (posted, values)
    else if Outcome(s).Err? then (Outcome(s), values)
    else
      var decoded := DecodeAll(e, t, s.output);
      (Ok(()), if decoded.Ok? then decoded.value else values)
  }

  /** In-place collectives succeed iff posting and the operation do; the destination then holds the
      values whose encoding the operation left in its buffer, and is untouched otherwise. */
  lemma InPlaceMeaning(e: Endian, t: PodType, posted: Result<()>, values: seq<nat>, s: Schedule)
    requires |s.output| == |values| * Size(t)
    ensures var (r, after) := InPlaceSpec(e, t, posted, values, s);
            && (r.Ok? <==> posted.Ok? && s.final.Ok? && s.finalizing.Ok?)
            && |after| == |values|
            && (r.Ok? ==> AllFit(t, after) && Encode(e, t, after) == s.output)
            && (r.Err? ==> after == values)
  {
    EncodeOfDecode(e, t, s.output, |values|);
  }

  function BroadcastSpec(e: Endian, t: PodType, team: Team, root: nat, posted: Result<()>,
                         values: seq<nat>, s: Schedule): (Result<()>, seq<nat>) {
    if values == [] then (Err(EmptyBuffer), values)
    else if |values| * Size(t) > USIZE_MAX then (Err(LengthOverflow), values)
    else if team.ready.Err? then (team.ready, values)
    else if team.ranks.Err? then (Err(team.ranks.error), values)
    else if root >= team.ranks.value then (Err(RootOutsideTeam), values)
    else InPlaceSpec(e, t, posted, values, s)
  }

  /** The destination after an in-place collective: the values that encode to the operation's output
      if it succeeded, and untouched if it did not. */
  ghost predicate InPlaceContents(e: Endian, t: PodType, r: Result<()>, before: seq<nat>, after: seq<nat>,
                                  output: seq<byte>)
  {
    && |after| == |before|
    && (r.Ok? ==> AllFit(t, after) && Encode(e, t, after) == output)
    && (r.Err? ==> after == before)
  }

  /** A broadcast fails with the error of the first of these checks not to pass, and succeeds if all
      pass. */
  lemma BroadcastMeaning(e: Endian, t: PodType, team: Team, root: nat, posted: Result<()>,
                         values: seq<nat>, s: Schedule)
    requires |s.output| == |values| * Size(t)
    ensures var (r, after) := BroadcastSpec(e, t, team, root, posted, values, s);
            && IsFirstFailure([Unless(|values| > 0, EmptyBuffer),
                               Unless(|values| * Size(t) <= USIZE_MAX, LengthOverflow),
                               ErrorOf(team.ready), ErrorOf(team.ranks),
                               Unless(team.ranks.Ok? ==> root < team.ranks.value, RootOutsideTeam),
                               ErrorOf(posted), ErrorOf(s.final), ErrorOf(s.finalizing)], ErrorOf(r))
            && InPlaceContents(e, t, r, values, after, s.output)
  {
    InPlaceMeaning(e, t, posted, values, s);
    FirstOfEight(Unless(|values| > 0, EmptyBuffer), Unless(|values| * Size(t) <= USIZE_MAX, LengthOverflow),
                 ErrorOf(team.ready), ErrorOf(team.ranks),
                 Unless(team.ranks.Ok? ==> root < team.ranks.value, RootOutsideTeam),
                 ErrorOf(posted), ErrorOf(s.final), ErrorOf(s.finalizing));
  }

  /** The first of eight checks to fail, taken one after another. */
  lemma FirstOfEight(a: Option<Error>, b: Option<Error>, c: Option<Error>, d: Option<Error>,
                     e: Option<Error>, f: Option<Error>, g: Option<Error>, h: Option<Error>)
    ensures IsFirstFailure([a, b, c, d, e, f, g, h],
                           if a.Some? then a else if b.Some? then b else if c.Some? then c else if d.Some? then d
                           else if e.Some? then e else if f.Some? then f else if g.Some? then g else h)
  {
    var checks := [a, b, c, d, e, f, g, h];
    assert checks[0] == a && checks[1] == b && checks[2] == c && checks[3] == d;
    assert checks[4] == e && checks[5] == f && checks[6] == g && checks[7] == h;
  }

  function ReduceSpec(e: Endian, t: PodType, team: Team, supported: bool, posted: Result<()>,
                      values: seq<nat>, s: Schedule): (Result<()>, seq<nat>) {
    if !supported then (Err(UnsupportedReduction), values)
    else if |values| * Size(t) > USIZE_MAX then (Err(LengthOverflow), values)
    else if team.ready.Err? then (team.ready, values)
    else InPlaceSpec(e, t, posted, values, s)
  }

  /** The non-blocking reduce refuses an empty buffer before anything else. */
  function ReduceNbSpec(e: Endian, t: PodType, team: Team, supported: bool, posted: Result<()>,
                        values: seq<nat>, s: Schedule): (Result<()>, seq<nat>) {
    if values == [] then (Err(EmptyBuffer), values)
    else if !supported then (Err(UnsupportedReduction), values)
    else if |values| * Size(t) > USIZE_MAX then (Err(LengthOverflow), values)
    else if team.ready.Err? then (team.ready, values)
    else InPlaceSpec(e, t, posted, values, s)
  }

  lemma ReduceMeaning(e: Endian, t: PodType, team: Team, supported: bool, posted: Result<()>,
                      values: seq<nat>, s: Schedule)
    requires |s.output| == |values| * Size(t)
    ensures var (r, after) := ReduceSpec(e, t, team, supported, posted, values, s);
            && IsFirstFailure([Unless(supported, UnsupportedReduction),
                               Unless(|values| * Size(t) <= USIZE_MAX, LengthOverflow),
                               ErrorOf(team.ready), ErrorOf(posted), ErrorOf(s.final), ErrorOf(s.finalizing)],
                              ErrorOf(r))
            && InPlaceContents(e, t, r, values, after, s.output)
  {
    InPlaceMeaning(e, t, posted, values, s);
    FirstOfSix(Unless(supported, UnsupportedReduction), Unless(|values| * Size(t) <= USIZE_MAX, LengthOverflow),
               ErrorOf(team.ready), ErrorOf(posted), ErrorOf(s.final), ErrorOf(s.finalizing));
  }

  lemma FirstOfSix(a: Option<Error>, b: Option<Error>, c: Option<Error>, d: Option<Error>,
                   e: Option<Error>, f: Option<Error>)
    ensures IsFirstFailure([a, b, c, d, e, f],
                           if a.Some? then a else if b.Some? then b else if c.Some? then c else if d.Some? then d
                           else if e.Some? then e else f)
  {
    var checks := [a, b, c, d, e, f];
    assert checks[0] == a && checks[1] == b && checks[2] == c && checks[3] == d && checks[4] == e && checks[5] == f;
  }

  /** On a non-empty buffer the checks of the non-blocking reduce are those of the blocking one. */
  lemma ReduceNbMeaning(e: Endian, t: PodType, team: Team, supported: bool, posted: Result<()>,
                        values: seq<nat>, s: Schedule)
    requires |s.output| == |values| * Size(t)
    ensures var (r, after) := ReduceNbSpec(e, t, team, supported, posted, values, s);
            && (if values == [] then r == Err(EmptyBuffer)
                else IsFirstFailure([Unless(supported, UnsupportedReduction),
                                     Unless(|values| * Size(t) <= USIZE_MAX, LengthOverflow),
                                     ErrorOf(team.ready), ErrorOf(posted), ErrorOf(s.final), ErrorOf(s.finalizing)],
                                    ErrorOf(r)))
            && InPlaceContents(e, t, r, values, after, s.output)
  {
    ReduceMeaning(e, t, team, supported, posted, values, s);
  }

  method Broadcast(e: Endian, t: PodType, team: Team, root: nat, posted: Result<()>,
                   values: array<nat>, op: UccOp) returns (r: Result<()>)
    requires |op.output| == values.Length * Size(t)
    modifies op, values
    ensures (r, values[..]) == BroadcastSpec(e, t, team, root, posted, old(values[..]), old(op.Plan()))
    ensures IsFirstFailure([Unless(values.Length > 0, EmptyBuffer),
                            Unless(values.Length * Size(t) <= USIZE_MAX, LengthOverflow),
                            ErrorOf(team.ready), ErrorOf(team.ranks),
                            Unless(team.ranks.Ok? ==> root < team.ranks.value, RootOutsideTeam),
                            ErrorOf(posted), ErrorOf(op.final), ErrorOf(op.finalizing)], ErrorOf(r))
    ensures r.Ok? ==> AllFit(t, values[..]) && Encode(e, t, values[..]) == op.output
    ensures r.Err? ==> values[..] == old(values[..])
  {
    BroadcastMeaning(e, t, team, root, posted, values[..], op.Plan());
    if values.Length == 0 { return Err(EmptyBuffer); }
    var _ :- EncodeBuffer(e, t, values[..]);
    var _ :- team.ready;
    var ranks :- team.ranks;
    if root >= ranks { return Err(RootOutsideTeam); }
    r := InPlace(e, t, posted, values, op);
  }

  method Reduce(e: Endian, t: PodType, team: Team, supported: bool, posted: Result<()>,
                values: array<nat>, op: UccOp) returns (r: Result<()>)
    requires |op.output| == values.Length * Size(t)
    modifies op, values
    ensures (r, values[..]) == ReduceSpec(e, t, team, supported, posted, old(values[..]), old(op.Plan()))
  {
    if !supported { return Err(UnsupportedReduction); }
    var _ :- EncodeBuffer(e, t, values[..]);
    var _ :- team.ready;
    r := InPlace(e, t, posted, values, op);
  }

  /** The common end of the blocking in-place collectives: post, wait, decode. */
  method InPlace(e: Endian, t: PodType, posted: Result<()>, values: array<nat>, op: UccOp) returns (r: Result<()>)
    requires |op.output| == values.Length * Size(t) <= USIZE_MAX
    modifies op, values
    ensures (r, values[..]) == InPlaceSpec(e, t, posted, old(values[..]), old(op.Plan()))
  {
    var _ :- posted;
    var _ :- Wait(op);
    r := DecodeBuffer(e, t, op.output, values);
    DecodeOfEncode(e, t, values[..]);
    UnitIsUnique(r);
  }

  method BroadcastNb(e: Endian, t: PodType, team: Team, root: nat, posted: Result<()>,
                     values: array<nat>, op: UccOp) returns (r: Result<CollectiveRequest>)
    requires |op.output| == values.Length * Size(t)
    ensures r.Ok? ==> InPlaceRequest(r.value, e, t, op, values) && fresh(r.value)
    ensures r.Ok? ==> BroadcastSpec(e, t, team, root, posted, values[..], op.Plan())
                      == InPlaceSpec(e, t, Ok(()), values[..], op.Plan())
    ensures r.Err? ==> BroadcastSpec(e, t, team, root, posted, values[..], op.Plan()) == (Err(r.error), values[..])
  {
    if values.Length == 0 { return Err(EmptyBuffer); }
    var bytes :- EncodeBuffer(e, t, values[..]);
    var _ :- team.ready;
    var ranks :- team.ranks;
    if root >= ranks { return Err(RootOutsideTeam); }
    var _ :- posted;
    UnitIsUnique(posted);
    var request := new CollectiveRequest(e, t, op, [bytes], values, None);
    r := Ok(request);
  }

  method ReduceNb(e: Endian, t: PodType, team: Team, supported: bool, posted: Result<()>,
                  values: array<nat>, op: UccOp) returns (r: Result<CollectiveRequest>)
    requires |op.output| == values.Length * Size(t)
    ensures r.Ok? ==> InPlaceRequest(r.value, e, t, op, values) && fresh(r.value)
    ensures r.Ok? ==> ReduceNbSpec(e, t, team, supported, posted, values[..], op.Plan())
                      == InPlaceSpec(e, t, Ok(()), values[..], op.Plan())
    ensures r.Err? ==> ReduceNbSpec(e, t, team, supported, posted, values[..], op.Plan()) == (Err(r.error), values[..])
  {
    if values.Length == 0 { return Err(EmptyBuffer); }
    if !supported { return Err(UnsupportedReduction); }
    var bytes :- EncodeBuffer(e, t, values[..]);
    var _ :- team.ready;
    var _ :- posted;
    UnitIsUnique(posted);
    var request := new CollectiveRequest(e, t, op, [bytes], values, None);
    r := Ok(request);
  }

  /** A freshly posted request: it holds the encoded values and will copy its output back over them. */
  ghost predicate InPlaceRequest(q: CollectiveRequest, e: Endian, t: PodType, op: UccOp, values: array<nat>)
    reads q, q.op, values
  {
    && q.Valid() && q.op == op && q.destination == values && q.endian == e && q.podType == t
    && q.buffers == [Encode(e, t, values[..])]
  }

  /** Waiting on an in-place request ends as the blocking collective does. */
  method WaitInPlace(request: CollectiveRequest, e: Endian, t: PodType, op: UccOp, values: array<nat>)
    returns (r: Result<()>)
    requires InPlaceRequest(request, e, t, op, values)
    modifies request, op, values
    ensures (r, values[..]) == InPlaceSpec(e, t, Ok(()), old(values[..]), old(op.Plan()))
  {
    ghost var q, s := request.View(), op.Plan();
    TestHistory(e, t, q, s.remaining + 1);
    EncodeOfDecode(e, t, s.output, values.Length);
    UnitIsUnique(Outcome(s));
    r := request.Wait();
    assert request.View().destination == Some(values[..]);
  }

  /** Non-blocking refines blocking: `broadcast_nb` then `wait` has broadcast's own outcome. */
  method BroadcastNbThenWait(e: Endian, t: PodType, team: Team, root: nat, posted: Result<()>,
                             values: array<nat>, op: UccOp) returns (r: Result<()>)
    requires |op.output| == values.Length * Size(t)
    modifies op, values
    ensures (r, values[..]) == BroadcastSpec(e, t, team, root, posted, old(values[..]), old(op.Plan()))
    ensures IsFirstFailure([Unless(values.Length > 0, EmptyBuffer),
                            Unless(values.Length * Size(t) <= USIZE_MAX, LengthOverflow),
                            ErrorOf(team.ready), ErrorOf(team.ranks),
                            Unless(team.ranks.Ok? ==> root < team.ranks.value, RootOutsideTeam),
                            ErrorOf(posted), ErrorOf(op.final), ErrorOf(op.finalizing)], ErrorOf(r))
    ensures r.Ok? ==> AllFit(t, values[..]) && Encode(e, t, values[..]) == op.output
    ensures r.Err? ==> values[..] == old(values[..])
  {
    BroadcastMeaning(e, t, team, root, posted, values[..], op.Plan());
    var request :- BroadcastNb(e, t, team, root, posted, values, op);
    r := WaitInPlace(request, e, t, op, values);
  }

  /** `reduce_nb` then `wait`, on every buffer. ReduceAgreesIffNonEmpty relates it to reduce. */
  method ReduceNbThenWait(e: Endian, t: PodType, team: Team, supported: bool, posted: Result<()>,
                          values: array<nat>, op: UccOp) returns (r: Result<()>)
    requires |op.output| == values.Length * Size(t)
    modifies op, values
    ensures (r, values[..]) == ReduceNbSpec(e, t, team, supported, posted, old(values[..]), old(op.Plan()))
    ensures values.Length > 0 ==>
              (r, values[..]) == ReduceSpec(e, t, team, supported, posted, old(values[..]), old(op.Plan()))
  {
    var request :- ReduceNb(e, t, team, supported, posted, values, op);
    r := WaitInPlace(request, e, t, op, values);
  }

  /** The two reduces mean the same exactly on the non-empty buffers: the blocking one has no
      emptiness check, so nothing but the runtime could make it give that answer. */
  lemma ReduceAgreesIffNonEmpty(e: Endian, t: PodType, team: Team, supported: bool, posted: Result<()>,
                                values: seq<nat>, s: Schedule)
    requires team.ready != Err(EmptyBuffer) && posted != Err(EmptyBuffer) && Outcome(s) != Err(EmptyBuffer)
    ensures ReduceNbSpec(e, t, team, supported, posted, values, s)
            == ReduceSpec(e, t, team, supported, posted, values, s)
            <==> values != []
  {
  }

  // ---- Gathering ----

  function Flatten(rows: seq<seq<nat>>): seq<nat> {
    if rows == [] then [] else rows[0] + Flatten(rows[1..])
  }

  /** Decode each row on its own, stopping at the first error. */
  function DecodeRows(e: Endian, t: PodType, chunks: seq<seq<byte>>): Result<seq<seq<nat>>> {
    if chunks == [] then Ok([])
    else
      var row :- DecodeAll(e, t, chunks[0]);
      var rows :- DecodeRows(e, t, chunks[1..]);
      Ok([row] + rows)
  }

  /** Split by rank, then by element: the blocking collect's nested decode. */
  function NestedDecode(e: Endian, t: PodType, recv: seq<byte>, sendLen: nat): Result<seq<nat>>
    requires sendLen > 0
  {
    var rows :- DecodeRows(e, t, ChunksExact(recv, sendLen));
    Ok(Flatten(rows))
  }

  lemma {:induction false} NestedIsFlat(e: Endian, t: PodType, recv: seq<byte>, ranks: nat, n: nat, sendLen: nat)
    requires n > 0 && sendLen == n * Size(t) && sendLen > 0 && |recv| == ranks * sendLen
    ensures NestedDecode(e, t, recv, sendLen) == DecodeAll(e, t, recv)
    ensures DecodeAll(e, t, recv).Ok? && |DecodeAll(e, t, recv).value| == ranks * n
    decreases ranks
  {
    if ranks == 0 {
      assert recv == [];
    } else {
      OneMore(ranks, sendLen);
      OneMore(ranks, n);
      var row, rest := recv[..sendLen], recv[sendLen..];
      assert recv == row + rest;
      NestedIsFlat(e, t, rest, ranks - 1, n, sendLen);
      EncodeOfDecode(e, t, row, n);
      Regrouped(ranks - 1, n, Size(t), sendLen);
      DecodeConcat(e, t, row, n, rest, (ranks - 1) * n);
      var chunks := ChunksExact(recv, sendLen);
      assert chunks[0] == row && chunks[1..] == ChunksExact(rest, sendLen);
      var rows := DecodeRows(e, t, chunks).value;
      assert rows[1..] == DecodeRows(e, t, chunks[1..]).value;
    }
  }

  lemma Regrouped(ranks: nat, n: nat, w: nat, sendLen: nat)
    requires sendLen == n * w
    ensures ranks * sendLen == (ranks * n) * w
  {
  }

  /** All ranks' encoded contributions one after another: what an allgather leaves in `recv`. */
  function Gather(e: Endian, t: PodType, rows: seq<seq<nat>>): seq<byte> {
    if rows == [] then [] else Encode(e, t, rows[0]) + Gather(e, t, rows[1..])
  }

  predicate Rectangular(t: PodType, rows: seq<seq<nat>>, n: nat) {
    forall r :: 0 <= r < |rows| ==> |rows[r]| == n && AllFit(t, rows[r])
  }

  lemma {:induction false} GatherIsEncoding(e: Endian, t: PodType, rows: seq<seq<nat>>, n: nat)
    requires Rectangular(t, rows, n)
    ensures Gather(e, t, rows) == Encode(e, t, Flatten(rows)) && AllFit(t, Flatten(rows))
  {
    if rows != [] {
      GatherIsEncoding(e, t, rows[1..], n);
      EncodeConcat(e, t, rows[0], Flatten(rows[1..]));
    }
  }

  lemma {:induction false} FlattenAt(rows: seq<seq<nat>>, n: nat, r: nat, i: nat)
    requires forall k :: 0 <= k < |rows| ==> |rows[k]| == n
    requires r < |rows| && i < n
    ensures |Flatten(rows)| == |rows| * n
    ensures Slot(r, n, i) < |Flatten(rows)| && Flatten(rows)[Slot(r, n, i)] == rows[r][i]
  {
    OneMore(|rows|, n);
    FlattenLength(rows[1..], n);
    if r > 0 {
      FlattenAt(rows[1..], n, r - 1, i);
      NextSlot(r, n, i);
    }
  }

  lemma {:induction false} FlattenLength(rows: seq<seq<nat>>, n: nat)
    requires forall k :: 0 <= k < |rows| ==> |rows[k]| == n
    ensures |Flatten(rows)| == |rows| * n
  {
    if rows != [] {
      FlattenLength(rows[1..], n);
      OneMore(|rows|, n);
    }
  }

  /** Layout: decoding a gathered buffer, nested or flat, gives rank `r`'s element `i` at `r*n + i`. */
  lemma GatherLayout(e: Endian, t: PodType, rows: seq<seq<nat>>, n: nat, sendLen: nat, r: nat, i: nat)
    requires n > 0 && sendLen == n * Size(t) && sendLen > 0 && Rectangular(t, rows, n) && r < |rows| && i < n
    ensures NestedDecode(e, t, Gather(e, t, rows), sendLen) == DecodeAll(e, t, Gather(e, t, rows)) == Ok(Flatten(rows))
    ensures |Flatten(rows)| == |rows| * n
    ensures Slot(r, n, i) < |Flatten(rows)| && Flatten(rows)[Slot(r, n, i)] == rows[r][i]
  {
    FlattenAt(rows, n, r, i);
    GatherIsEncoding(e, t, rows, n);
    EncodeLength(e, t, Flatten(rows));
    Regrouped(|rows|, n, Size(t), sendLen);
    NestedIsFlat(e, t, Gather(e, t, rows), |rows|, n, sendLen);
    DecodeOfEncode(e, t, Flatten(rows));
  }

  function CollectSpec(e: Endian, t: PodType, team: Team, posted: Result<()>, n: nat, s: Schedule): Result<seq<nat>> {
    if n == 0 then Err(EmptyBuffer)
    else if team.ready.Err? then Err(team.ready.error)
    else if n * Size(t) > USIZE_MAX then Err(LengthOverflow)
    else if team.ranks.Err? then Err(team.ranks.error)
    else if n * Size(t) * team.ranks.value > USIZE_MAX then Err(LengthOverflow)
    else if posted.Err? then Err(posted.error)
    else if Outcome(s).Err? then Err(Outcome(s).error)
    else DecodeAll(e, t, s.output)
  }

  /** A collect fails with the error of the first of these checks not to pass; if all pass it gives the
      values, as many from each rank as this one passed, that encode to the gathered buffer. */
  lemma CollectMeaning(e: Endian, t: PodType, team: Team, posted: Result<()>, n: nat, s: Schedule)
    requires team.ranks.Ok? ==> |s.output| == team.ranks.value * (n * Size(t))
    ensures var r := CollectSpec(e, t, team, posted, n, s);
            && IsFirstFailure([Unless(n > 0, EmptyBuffer), ErrorOf(team.ready),
                               Unless(n * Size(t) <= USIZE_MAX, LengthOverflow), ErrorOf(team.ranks),
                               Unless(team.ranks.Ok? ==> n * Size(t) * team.ranks.value <= USIZE_MAX, LengthOverflow),
                               ErrorOf(posted), ErrorOf(s.final), ErrorOf(s.finalizing)], ErrorOf(r))
            && (r.Ok? ==> AllFit(t, r.value) && Encode(e, t, r.value) == s.output
                          && |r.value| == team.ranks.value * n)
  {
    FirstOfEight(Unless(n > 0, EmptyBuffer), ErrorOf(team.ready),
                 Unless(n * Size(t) <= USIZE_MAX, LengthOverflow), ErrorOf(team.ranks),
                 Unless(team.ranks.Ok? ==> n * Size(t) * team.ranks.value <= USIZE_MAX, LengthOverflow),
                 ErrorOf(posted), ErrorOf(s.final), ErrorOf(s.finalizing));
    if team.ranks.Ok? {
      Regrouped(team.ranks.value, n, Size(t), n * Size(t));
      EncodeOfDecode(e, t, s.output, team.ranks.value * n);
    }
  }

  method Collect(e: Endian, t: PodType, team: Team, posted: Result<()>, values: seq<nat>, op: UccOp)
    returns (r: Result<seq<nat>>)
    requires team.ranks.Ok? ==> |op.output| == team.ranks.value * (|values| * Size(t))
    modifies op
    ensures r == CollectSpec(e, t, team, posted, |values|, old(op.Plan()))
    ensures r.Ok? ==> AllFit(t, r.value) && Encode(e, t, r.value) == op.output
                      && team.ranks.Ok? && |r.value| == team.ranks.value * |values|
  {
    CollectMeaning(e, t, team, posted, |values|, op.Plan());
    if values == [] { return Err(EmptyBuffer); }
    var _ :- team.ready;
    var send :- EncodeBuffer(e, t, values);
    EncodeLength(e, t, values);
    var ranks :- team.ranks;
    if CheckedMul(|send|, ranks).None? { return Err(LengthOverflow); }
    var _ :- posted;
    var _ :- Wait(op);
    OneMore(|values|, Size(t));
    NestedIsFlat(e, t, op.output, ranks, |values|, |send|);
    r := NestedDecode(e, t, op.output, |send|);
  }

  method CollectNb(e: Endian, t: PodType, team: Team, posted: Result<()>, values: seq<nat>, op: UccOp)
    returns (r: Result<CollectiveRequest>)
    ensures r.Ok? ==> fresh(r.value) && r.value.Valid() && r.value.op == op && r.value.destination == null
    ensures r.Ok? ==> r.value.endian == e && r.value.podType == t && r.value.resultIndex == Some(|r.value.buffers| - 1)
    ensures r.Ok? ==> |r.value.buffers| == 2 && r.value.buffers[0] == Encode(e, t, values) && team.ranks.Ok?
                      && |r.value.buffers[1]| == |r.value.buffers[0]| * team.ranks.value
    ensures r.Ok? ==> CollectSpec(e, t, team, posted, |values|, op.Plan())
                      == if Outcome(op.Plan()).Err? then Err(Outcome(op.Plan()).error) else DecodeAll(e, t, op.output)
    ensures r.Err? ==> CollectSpec(e, t, team, posted, |values|, op.Plan()) == Err(r.error)
  {
    if values == [] { return Err(EmptyBuffer); }
    var _ :- team.ready;
    var send :- EncodeBuffer(e, t, values);
    EncodeLength(e, t, values);
    var ranks :- team.ranks;
    var recvLen := CheckedMul(|send|, ranks);
    if recvLen.None? { return Err(LengthOverflow); }
    var recv := seq(recvLen.value, _ => 0);
    var _ :- posted;
    var request := new CollectiveRequest(e, t, op, [send, recv], null, Some(1));
    r := Ok(request);
  }

  /** `collect_nb`, `wait`, then `result` is `collect`. */
  method CollectNbThenResult(e: Endian, t: PodType, team: Team, posted: Result<()>, values: seq<nat>, op: UccOp)
    returns (r: Result<seq<nat>>)
    modifies op
    ensures r == CollectSpec(e, t, team, posted, |values|, old(op.Plan()))
  {
    var request :- CollectNb(e, t, team, posted, values, op);
    ghost var q, s := request.View(), op.Plan();
    TestHistory(e, t, q, s.remaining + 1);
    var _ :- request.Wait();
    r := request.Gathered();
    DecodedUniquely(e, t, s.output, r.value);
  }
}

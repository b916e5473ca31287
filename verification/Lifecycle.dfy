/** The process-global lifecycle: one installed state, every early exit of `init` disconnected. */
module Lifecycle {
  import opened Machine

  datatype Installed = Installed(rank: nat, size: nat, collectives: bool)

  /** How each foreign step of one `init` would answer. `collectives` is None when the feature
      is compiled out. */
  datatype Steps = Steps(connect: Result<nat>, transport: Result<()>, heap: Result<()>,
                         jobSize: Option<nat>, sizeVariable: Option<nat>,
                         handshake: Result<()>, collectives: Option<Result<()>>)

  datatype Call = Init(steps: Steps) | Finalize(disconnect: Result<()>) | MyPe | NPes

  /** The global state, with the connections made and the disconnects attempted so far. */
  datatype Life = Life(state: Option<Installed>, connects: nat, disconnects: nat)

  function JobSize(s: Steps): Option<nat> {
    if s.jobSize.Some? then s.jobSize else s.sizeVariable
  }

  /** The error of the first step to fail. */
  function FirstFailure(s: Steps): Option<Error> {
    if s.connect.Err? then Some(s.connect.error)
    else if s.transport.Err? then Some(s.transport.error)
    else if s.heap.Err? then Some(s.heap.error)
    else if JobSize(s).None? then Some(JobSizeUnknown)
    else if s.handshake.Err? then Some(s.handshake.error)
    else if s.collectives.Some? && s.collectives.value.Err? then Some(s.collectives.value.error)
    else None
  }

  function Do(l: Life, call: Call): (Life, Result<nat>) {
    match call
    case Init(s) =>
      if l.state.Some? then (l, Err(AlreadyInitialized))
      else if s.connect.Err? then (l, Err(s.connect.error))
      else if FirstFailure(s).Some? then
        (Life(None, l.connects + 1, l.disconnects + 1), Err(FirstFailure(s).value))
      else
        var installed := Installed(s.connect.value, JobSize(s).value, s.collectives.Some?);
        (Life(Some(installed), l.connects + 1, l.disconnects), Ok(0))
    case Finalize(disconnect) =>
      if l.state.None? then (l, Ok(0))
      else
        (l.(state := None, disconnects := l.disconnects + 1), if disconnect.Ok? then Ok(0) else Err(disconnect.error))
    case MyPe => (l, if l.state.Some? then Ok(l.state.value.rank) else Err(NotInitialized))
    case NPes => (l, if l.state.Some? then Ok(l.state.value.size) else Err(NotInitialized))
  }

  /** The state after a process's whole call history. */
  function After(calls: seq<Call>): Life {
    if calls == [] then Life(None, 0, 0) else Do(After(calls[..|calls| - 1]), calls[|calls| - 1]).0
  }

  /** What call `i` of the history answers. */
  function Reply(calls: seq<Call>, i: nat): Result<nat>
    requires i < |calls|
  {
    Do(After(calls[..i]), calls[i]).1
  }

  /** Every connection has had exactly one disconnect attempt, except the installed one. */
  lemma {:induction false} Balance(calls: seq<Call>)
    ensures After(calls).connects == After(calls).disconnects + if After(calls).state.Some? then 1 else 0
  {
    if calls != [] { Balance(calls[..|calls| - 1]); }
  }

  /** Call `i` was an `init` that succeeded, and no `finalize` came after it. */
  predicate LiveInit(calls: seq<Call>, i: nat) {
    i < |calls| && calls[i].Init? && Reply(calls, i).Ok? && forall j :: i < j < |calls| ==> !calls[j].Finalize?
  }

  lemma LiveInitPrefix(calls: seq<Call>, i: nat)
    requires calls != [] && i < |calls| - 1
    ensures LiveInit(calls, i) <==> LiveInit(calls[..|calls| - 1], i) && !calls[|calls| - 1].Finalize?
  {
    var before := calls[..|calls| - 1];
    assert before[..i] == calls[..i];
    assert forall j :: i < j < |before| ==> before[j] == calls[j];
  }

  /** State is installed exactly when some `init` succeeded and was not finalized since: a failed
      `init` leaves nothing behind, and a repeated one changes nothing. */
  lemma {:induction false} InstalledIff(calls: seq<Call>)
    ensures After(calls).state.Some? <==> exists i: nat :: LiveInit(calls, i)
  {
    if calls != [] {
      var n := |calls| - 1;
      var before := calls[..n];
      InstalledIff(before);
      if After(calls).state.Some? {
        if After(before).state.Some? {
          var i: nat :| LiveInit(before, i);
          LiveInitPrefix(calls, i);
          assert LiveInit(calls, i);
        } else {
          assert LiveInit(calls, n);
        }
      }
      if i: nat :| LiveInit(calls, i) {
        if i < n {
          LiveInitPrefix(calls, i);
          assert LiveInit(before, i);
        }
      }
    }
  }

  /** An `init` fails at the first of these steps not to answer, and otherwise installs the rank of the
      connection, the job size PMIx gave or else the variable's, and the collectives if built in. A
      failure past the connect costs one connection and one disconnect and leaves no state. */
  lemma InitMeaning(l: Life, s: Steps)
    ensures var (after, r) := Do(l, Init(s));
            && IsFirstFailure([Unless(l.state.None?, AlreadyInitialized), ErrorOf(s.connect), ErrorOf(s.transport),
                               ErrorOf(s.heap), Unless(s.jobSize.Some? || s.sizeVariable.Some?, JobSizeUnknown),
                               ErrorOf(s.handshake),
                               if s.collectives.Some? then ErrorOf(s.collectives.value) else None], ErrorOf(r))
            && (r.Ok? ==>
                  && after.state.Some? && s.connect.Ok? && after.state.value.rank == s.connect.value
                  && Some(after.state.value.size) == (if s.jobSize.Some? then s.jobSize else s.sizeVariable)
                  && after.state.value.collectives == s.collectives.Some?)
            && (r.Err? ==> after.state == l.state)
            && after.connects == l.connects + (if l.state.None? && s.connect.Ok? then 1 else 0)
            && after.disconnects == l.disconnects + (if l.state.None? && s.connect.Ok? && r.Err? then 1 else 0)
  {
    var built := if s.collectives.Some? then ErrorOf(s.collectives.value) else None;
    var checks := [Unless(l.state.None?, AlreadyInitialized), ErrorOf(s.connect), ErrorOf(s.transport),
                   ErrorOf(s.heap), Unless(s.jobSize.Some? || s.sizeVariable.Some?, JobSizeUnknown),
                   ErrorOf(s.handshake), built];
    assert checks[0].None? <==> l.state.None?;
    assert checks[1] == ErrorOf(s.connect) && checks[2] == ErrorOf(s.transport) && checks[3] == ErrorOf(s.heap);
    assert checks[4].None? <==> s.jobSize.Some? || s.sizeVariable.Some?;
    assert checks[5] == ErrorOf(s.handshake) && checks[6] == built;
  }

  /** What is installed is what the last successful `init` found. */
  lemma {:induction false} InstalledIs(calls: seq<Call>, i: nat)
    requires LiveInit(calls, i)
    ensures After(calls).state.Some? && calls[i].steps.connect.Ok?
    ensures After(calls).state.value.rank == calls[i].steps.connect.value
    ensures Some(After(calls).state.value.size)
            == if calls[i].steps.jobSize.Some? then calls[i].steps.jobSize else calls[i].steps.sizeVariable
  {
    var n := |calls| - 1;
    if i < n {
      LiveInitPrefix(calls, i);
      InstalledIs(calls[..n], i);
    } else {
      InitMeaning(After(calls[..n]), calls[n].steps);
    }
  }

  /** `my_pe` and `n_pes` answer the rank and the job size of the live `init`, or NotInitialized when
      there is none; `finalize` reports the disconnect of a live one, and is fine when there is none. */
  lemma QueryMeaning(calls: seq<Call>, j: nat)
    requires j < |calls|
    ensures (forall i: nat :: !LiveInit(calls[..j], i)) ==>
              match calls[j]
              case Init(_) => true
              case Finalize(_) => Reply(calls, j) == Ok(0)
              case MyPe => Reply(calls, j) == Err(NotInitialized)
              case NPes => Reply(calls, j) == Err(NotInitialized)
    ensures forall i: nat :: LiveInit(calls[..j], i) ==>
              var s := calls[i].steps;
              match calls[j]
              case Init(_) => Reply(calls, j) == Err(AlreadyInitialized)
              case Finalize(disconnect) => ErrorOf(Reply(calls, j)) == ErrorOf(disconnect)
              case MyPe => Reply(calls, j) == s.connect
              case NPes => Reply(calls, j).Ok?
                           && Some(Reply(calls, j).value) == if s.jobSize.Some? then s.jobSize else s.sizeVariable
  {
    InstalledIff(calls[..j]);
    forall i: nat | LiveInit(calls[..j], i)
      ensures i < j && calls[..j][i] == calls[i]
      ensures After(calls[..j]).state.Some? && calls[i].steps.connect == Ok(After(calls[..j]).state.value.rank)
      ensures Some(After(calls[..j]).state.value.size)
              == if calls[i].steps.jobSize.Some? then calls[i].steps.jobSize else calls[i].steps.sizeVariable
    {
      InstalledIs(calls[..j], i);
    }
  }

  class Runtime {
    var state: Option<Installed>
    var connects: nat
    var disconnects: nat

    function Value(): Life
      reads this
    {
      Life(state, connects, disconnects)
    }

    constructor ()
      ensures Value() == After([])
    {
      state, connects, disconnects := None, 0, 0;
    }

    /** Connect, build the transport and heap, learn the job size, shake hands, install, then
        build the collectives; every failure after the connect disconnects. */
    method Init(s: Steps) returns (r: Result<nat>)
      modifies this
      ensures (Value(), r) == Do(old(Value()), Call.Init(s))
    {
      if state.Some? { return Err(AlreadyInitialized); }
      if s.connect.Err? { return Err(s.connect.error); }
      connects := connects + 1;
      if s.transport.Err? {
        Disconnect();
        return Err(s.transport.error);
      }
      if s.heap.Err? {
        Disconnect();
        return Err(s.heap.error);
      }
      var size := if s.jobSize.Some? then s.jobSize else s.sizeVariable;
      if size.None? {
        Disconnect();
        return Err(JobSizeUnknown);
      }
      if s.handshake.Err? {
        Disconnect();
        return Err(s.handshake.error);
      }
      state := Some(Installed(s.connect.value, size.value, false));
      if s.collectives.Some? {
        if s.collectives.value.Err? {
          state := None;
          Disconnect();
          return Err(s.collectives.value.error);
        }
        state := Some(state.value.(collectives := true));
      }
      r := Ok(0);
    }

    method Disconnect()
      modifies this`disconnects
      ensures disconnects == old(disconnects) + 1
    {
      disconnects := disconnects + 1;
    }

    method Finalize(disconnect: Result<()>) returns (r: Result<nat>)
      modifies this
      ensures (Value(), r) == Do(old(Value()), Call.Finalize(disconnect))
    {
      if state.Some? {
        state := None;
        Disconnect();
        if disconnect.Err? { return Err(disconnect.error); }
      }
      r := Ok(0);
    }

    method MyPe() returns (r: Result<nat>)
      ensures r == Do(Value(), Call.MyPe).1
    {
      r := if state.Some? then Ok(state.value.rank) else Err(NotInitialized);
    }

    method NPes() returns (r: Result<nat>)
      ensures r == Do(Value(), Call.NPes).1
    {
      r := if state.Some? then Ok(state.value.size) else Err(NotInitialized);
    }
  }
}

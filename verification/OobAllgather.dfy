/** The out-of-band allgather behind team creation: every call puts under one reused key, commits,
    fences and reads every peer, with no fence after the reads. */
module OobAllgather {
  import opened Machine

  /** `contribution(p, r)`: the bytes process `p` passes to its call number `r`. */
  datatype Config = Config(n: nat, contribution: (nat, nat) -> seq<byte>)

  datatype Reason = NullInput | NoKey | WrongLength | ForeignCall

  datatype Pc = Put | Commit | EnterFence | InFence | Read(peer: nat) | Returned | Failed(reason: Reason)

  /** `commits` and `fences` count what this process has published and entered so far. */
  datatype Process = Process(round: nat, pc: Pc, staged: seq<byte>, got: seq<seq<byte>>, commits: nat, fences: nat)

  /** `shown[p]`: the latest committed value of `p` under the one key. */
  datatype State = State(procs: seq<Process>, shown: seq<Option<seq<byte>>>)

  predicate Running(s: State, p: nat) {
    p < |s.procs| && !s.procs[p].pc.Failed?
  }

  /** A fence is left once every process has entered as many fences as the leaver. */
  predicate Enabled(s: State, p: nat) {
    Running(s, p) &&
    (s.procs[p].pc.InFence? ==> forall q :: 0 <= q < |s.procs| ==> s.procs[q].fences >= s.procs[p].fences)
  }

  function Keep(proc: Process, value: seq<byte>, len: nat, n: nat): Process
    requires proc.pc.Read?
  {
    if |value| != len then proc.(pc := Failed(WrongLength))
    else
      proc.(got := proc.got + [value],
            pc := if proc.pc.peer + 1 < n then Read(proc.pc.peer + 1) else Returned)
  }

  function StepProc(c: Config, s: State, p: nat): Process
    requires p < |s.procs| == |s.shown|
  {
    var proc := s.procs[p];
    var bytes := c.contribution(p, proc.round);
    match proc.pc
    case Put =>
      if bytes == [] then proc.(pc := Failed(NullInput)) else proc.(staged := bytes, pc := Commit)
    case Commit => proc.(pc := EnterFence, commits := proc.commits + 1)
    case EnterFence => proc.(pc := InFence, fences := proc.fences + 1)
    case InFence => proc.(pc := Read(0), got := [])
    case Read(peer) =>
      if peer < |s.shown| && s.shown[peer].Some? then Keep(proc, s.shown[peer].value, |bytes|, c.n)
      else proc.(pc := Failed(NoKey))
    case Returned => proc.(pc := Put, round := proc.round + 1, got := [])
    case Failed(_) => proc
  }

  /** One step of `p`: the call's own steps, or entering the next call. */
  function StepOf(c: Config, s: State, p: nat): State
    requires p < |s.procs| == |s.shown|
  {
    State(s.procs[p := StepProc(c, s, p)],
          if s.procs[p].pc.Commit? then s.shown[p := Some(s.procs[p].staged)] else s.shown)
  }

  function FaultOf(s: State, p: nat): State
    requires p < |s.procs|
  {
    s.(procs := s.procs[p := s.procs[p].(pc := Failed(ForeignCall))])
  }

  function Initial(c: Config): State {
    State(seq(c.n, _ => Process(0, Put, [], [], 0, 0)), seq(c.n, _ => None))
  }

  ghost predicate NextBy(c: Config, s: State, s': State, p: nat) {
    && |s.procs| == |s.shown|
    && ((Enabled(s, p) && s' == StepOf(c, s, p)) || (Running(s, p) && s' == FaultOf(s, p)))
  }

  ghost predicate Next(c: Config, s: State, s': State) {
    exists p: nat :: NextBy(c, s, s', p)
  }

  ghost predicate IsRun(c: Config, run: seq<State>) {
    && run != [] && run[0] == Initial(c)
    && forall i :: 0 <= i < |run| - 1 ==> Next(c, run[i], run[i + 1])
  }

  // ---- The multi-round invariant ----

  predicate Committed(pc: Pc) { pc.EnterFence? || pc.InFence? || pc.Read? || pc.Returned? }
  predicate Entered(pc: Pc) { pc.InFence? || pc.Read? || pc.Returned? }
  predicate Left(pc: Pc) { pc.Read? || pc.Returned? }

  function One(b: bool): nat { if b then 1 else 0 }

  /** Fences this process is known to have left. */
  function Passed(proc: Process): nat { proc.round + One(Left(proc.pc)) }

  predicate CountsFit(proc: Process) {
    && proc.fences <= proc.commits <= proc.round + 1
    && proc.round <= proc.fences
    && (!proc.pc.Failed? ==> proc.commits == proc.round + One(Committed(proc.pc))
                             && proc.fences == proc.round + One(Entered(proc.pc)))
  }

  /** A value read from `k` in round `r`: its contribution to that round, or to the next one if
      it had already committed that. */
  predicate SlotFits(c: Config, s: State, k: nat, r: nat, value: seq<byte>)
    requires k < |s.procs|
  {
    value == c.contribution(k, r) || (value == c.contribution(k, r + 1) && s.procs[k].commits >= r + 2)
  }

  /** Why a process may have stopped, other than by a foreign failure. */
  ghost predicate Explained(c: Config, proc: Process, p: nat) {
    proc.pc.Failed? ==>
      && proc.pc.reason != NoKey
      && (proc.pc.reason.NullInput? ==> c.contribution(p, proc.round) == [])
      && (proc.pc.reason.WrongLength? ==>
            exists k: nat, r: nat ::
              k < c.n && (r == proc.round || (r == proc.round + 1 && k != p))
              && |c.contribution(k, r)| != |c.contribution(p, proc.round)|)
  }

  ghost predicate ProcInv(c: Config, s: State, p: nat)
    requires p < |s.procs| == |s.shown| == c.n
  {
    var proc := s.procs[p];
    && CountsFit(proc)
    && (proc.pc.Commit? ==> proc.staged == c.contribution(p, proc.round))
    && s.shown[p] == (if proc.commits == 0 then None else Some(c.contribution(p, proc.commits - 1)))
    && (Left(proc.pc) ==>
          && |proc.got| == (if proc.pc.Read? then proc.pc.peer else c.n)
          && |proc.got| <= c.n
          && (proc.pc.Read? ==> proc.pc.peer < c.n)
          && forall k :: 0 <= k < |proc.got| ==>
               SlotFits(c, s, k, proc.round, proc.got[k]) && |proc.got[k]| == |c.contribution(p, proc.round)|)
    && Explained(c, proc, p)
  }

  /** No process has left more fences than any other has entered. */
  predicate FencesHold(s: State) {
    forall p, q :: 0 <= p < |s.procs| && 0 <= q < |s.procs| ==> Passed(s.procs[q]) <= s.procs[p].fences
  }

  ghost predicate Inv(c: Config, s: State) {
    && |s.procs| == |s.shown| == c.n
    && FencesHold(s)
    && forall p :: 0 <= p < c.n ==> ProcInv(c, s, p)
  }

  lemma InitialInv(c: Config)
    ensures Inv(c, Initial(c))
  {
  }

  /** What a read sees while the reader is in round `r`: the peer's round `r` or `r + 1` value. */
  lemma ReadSees(c: Config, s: State, p: nat, k: nat)
    requires Inv(c, s) && p < c.n && Left(s.procs[p].pc) && k < c.n
    ensures var r, commits := s.procs[p].round, s.procs[k].commits;
            && r + 1 <= commits <= r + 2
            && s.shown[k] == Some(c.contribution(k, commits - 1))
            && SlotFits(c, s, k, r, s.shown[k].value)
  {
    assert ProcInv(c, s, p) && ProcInv(c, s, k);
    assert Passed(s.procs[p]) <= s.procs[k].fences && Passed(s.procs[k]) <= s.procs[p].fences;
  }

  lemma StepKeepsCounts(c: Config, s: State, p: nat)
    requires Inv(c, s) && Enabled(s, p)
    ensures CountsFit(StepProc(c, s, p))
    ensures StepProc(c, s, p).fences >= s.procs[p].fences && StepProc(c, s, p).commits >= s.procs[p].commits
  {
    assert ProcInv(c, s, p);
  }

  lemma StepKeepsFences(c: Config, s: State, p: nat)
    requires Inv(c, s) && Enabled(s, p)
    ensures FencesHold(StepOf(c, s, p))
  {
    var s' := StepOf(c, s, p);
    assert ProcInv(c, s, p);
    forall a, b | 0 <= a < |s.procs| && 0 <= b < |s.procs|
      ensures Passed(s'.procs[b]) <= s'.procs[a].fences
    {
      assert Passed(s.procs[b]) <= s.procs[a].fences;
    }
  }

  lemma StepKeepsOther(c: Config, s: State, p: nat, q: nat)
    requires Inv(c, s) && Enabled(s, p) && q < c.n && q != p
    ensures ProcInv(c, StepOf(c, s, p), q)
  {
    assert ProcInv(c, s, q);
    StepKeepsCounts(c, s, p);
  }

  lemma ReadKeepsSelf(c: Config, s: State, p: nat)
    requires Inv(c, s) && Enabled(s, p) && s.procs[p].pc.Read?
    ensures ProcInv(c, StepOf(c, s, p), p)
  {
    assert ProcInv(c, s, p);
    var proc := s.procs[p];
    ReadSees(c, s, p, proc.pc.peer);
  }

  lemma StepKeepsSelf(c: Config, s: State, p: nat)
    requires Inv(c, s) && Enabled(s, p)
    ensures ProcInv(c, StepOf(c, s, p), p)
  {
    if s.procs[p].pc.Read? {
      ReadKeepsSelf(c, s, p);
    } else {
      assert ProcInv(c, s, p);
    }
  }

  lemma StepKeepsInv(c: Config, s: State, p: nat)
    requires Inv(c, s) && Enabled(s, p)
    ensures Inv(c, StepOf(c, s, p))
  {
    StepKeepsFences(c, s, p);
    forall q | 0 <= q < c.n
      ensures ProcInv(c, StepOf(c, s, p), q)
    {
      if q == p { StepKeepsSelf(c, s, p); } else { StepKeepsOther(c, s, p, q); }
    }
  }

  lemma FaultKeepsInv(c: Config, s: State, p: nat)
    requires Inv(c, s) && Running(s, p)
    ensures Inv(c, FaultOf(s, p))
  {
    var s' := FaultOf(s, p);
    forall q | 0 <= q < c.n
      ensures ProcInv(c, s', q)
    {
      assert ProcInv(c, s, q);
    }
    forall a, b | 0 <= a < c.n && 0 <= b < c.n
      ensures Passed(s'.procs[b]) <= s'.procs[a].fences
    {
      assert Passed(s.procs[b]) <= s.procs[a].fences;
    }
  }

  lemma {:induction false} RunInv(c: Config, run: seq<State>, i: nat)
    requires IsRun(c, run) && i < |run|
    ensures Inv(c, run[i])
  {
    if i == 0 {
      InitialInv(c);
    } else {
      RunInv(c, run, i - 1);
      var s, s' := run[i - 1], run[i];
      assert Next(c, s, run[i - 1 + 1]);
      var p: nat :| NextBy(c, s, s', p);
      if Enabled(s, p) && s' == StepOf(c, s, p) { StepKeepsInv(c, s, p); } else { FaultKeepsInv(c, s, p); }
    }
  }

  // ---- Empty contributions ----

  /** Only calls with a non-empty contribution get past their put. */
  ghost predicate PastPut(c: Config, proc: Process, p: nat) {
    && (forall r: nat :: r < proc.round ==> c.contribution(p, r) != [])
    && (!proc.pc.Put? && proc.pc != Failed(NullInput) && proc.pc != Failed(ForeignCall) ==>
          c.contribution(p, proc.round) != [])
  }

  lemma StepPastPut(c: Config, s: State, p: nat)
    requires |s.procs| == |s.shown| && p < |s.procs| && PastPut(c, s.procs[p], p)
    ensures PastPut(c, StepProc(c, s, p), p)
  {
  }

  lemma {:induction false} RunPastPut(c: Config, run: seq<State>, i: nat, p: nat)
    requires IsRun(c, run) && i < |run| && p < c.n
    ensures |run[i].procs| == c.n && PastPut(c, run[i].procs[p], p)
  {
    RunInv(c, run, i);
    if i > 0 {
      RunPastPut(c, run, i - 1, p);
      var s, s' := run[i - 1], run[i];
      assert Next(c, s, run[i - 1 + 1]);
      var q: nat :| NextBy(c, s, s', q);
      if q == p { StepPastPut(c, s, p); }
    }
  }

  /** A call with an empty contribution is refused and never passed: its process is still before
      the put or has failed. */
  lemma EmptyCallRefused(c: Config, run: seq<State>, i: nat, p: nat, r: nat)
    requires IsRun(c, run) && i < |run| && p < c.n && c.contribution(p, r) == []
    ensures |run[i].procs| == c.n && run[i].procs[p].round <= r
    ensures run[i].procs[p].round == r ==>
              run[i].procs[p].pc in {Put, Failed(NullInput), Failed(ForeignCall)}
  {
    RunPastPut(c, run, i, p);
  }

  // ---- Theorems over every run ----

  /** No two processes, failed or not, are ever more than one round apart. */
  lemma SkewAtMostOne(c: Config, run: seq<State>, i: nat, p: nat, q: nat)
    requires IsRun(c, run) && i < |run| && p < c.n && q < c.n
    ensures |run[i].procs| == c.n
    ensures -1 <= run[i].procs[p].round - run[i].procs[q].round <= 1
  {
    RunInv(c, run, i);
    var s := run[i];
    assert ProcInv(c, s, p) && ProcInv(c, s, q);
    assert Passed(s.procs[p]) <= s.procs[q].fences && Passed(s.procs[q]) <= s.procs[p].fences;
  }

  /** Every slot a call has filled holds that peer's contribution to this round or the next. */
  lemma SlotsWithinOneRound(c: Config, run: seq<State>, i: nat, p: nat, k: nat)
    requires IsRun(c, run) && i < |run| && p < c.n
    ensures |run[i].procs| == c.n
    ensures var proc := run[i].procs[p];
            Left(proc.pc) && k < |proc.got| ==>
              proc.got[k] == c.contribution(k, proc.round) || proc.got[k] == c.contribution(k, proc.round + 1)
    ensures run[i].procs[p].pc.Returned? ==> |run[i].procs[p].got| == c.n
  {
    RunInv(c, run, i);
    assert ProcInv(c, run[i], p);
  }

  /** While a call is reading, the store shows it a peer's contribution to this call if and only if
      the peer has not yet committed its next call, or contributes the same bytes to both. */
  lemma ReadIsExactIff(c: Config, run: seq<State>, i: nat, p: nat, k: nat)
    requires IsRun(c, run) && i < |run| && p < c.n && k < c.n
    requires |run[i].procs| == c.n ==> Left(run[i].procs[p].pc)
    ensures |run[i].procs| == |run[i].shown| == c.n
    ensures var r := run[i].procs[p].round;
            run[i].shown[k] == Some(c.contribution(k, r)) <==>
              run[i].procs[k].commits == r + 1 || c.contribution(k, r + 1) == c.contribution(k, r)
  {
    RunInv(c, run, i);
    ReadSees(c, run[i], p, k);
  }

  /** A round that no process has run past: every call that returned from it gathered exactly
      that round's contributions. */
  lemma IsolatedRound(c: Config, run: seq<State>, i: nat, p: nat, r: nat)
    requires IsRun(c, run) && i < |run| && p < c.n
    requires forall k :: 0 <= k < |run[i].procs| ==> run[i].procs[k].commits <= r + 1
    ensures |run[i].procs| == c.n
    ensures var proc := run[i].procs[p];
            proc.round == r && proc.pc.Returned? ==> proc.got == seq(c.n, k requires 0 <= k => c.contribution(k, r))
  {
    RunInv(c, run, i);
    assert ProcInv(c, run[i], p);
  }

  /** What callers promise: in call `r` all processes pass the same non-zero length. */
  ghost predicate AgreedAt(c: Config, r: nat) {
    forall q: nat :: q < c.n ==> |c.contribution(q, r)| == |c.contribution(0, r)| > 0
  }

  /** The same for all calls before `r`. */
  ghost predicate AgreedBefore(c: Config, r: nat) {
    forall t: nat :: t < r ==> AgreedAt(c, t)
  }

  /** When lengths agree within each call, a call fails only when a foreign call does, or when the
      next call has another length and some peer may have run ahead. */
  lemma OnlyForeignFailures(c: Config, run: seq<State>, i: nat, p: nat)
    requires IsRun(c, run) && i < |run| && p < c.n
    requires forall r: nat :: AgreedAt(c, r)
    ensures |run[i].procs| == c.n
    ensures var proc := run[i].procs[p];
            proc.pc.Failed? ==>
              || proc.pc.reason == ForeignCall
              || (proc.pc.reason == WrongLength && c.n >= 2
                  && |c.contribution(0, proc.round + 1)| != |c.contribution(0, proc.round)|)
  {
    RunInv(c, run, i);
    var proc := run[i].procs[p];
    if proc.pc.Failed? && proc.pc.reason != ForeignCall {
      assert AgreedAt(c, proc.round) && AgreedAt(c, proc.round + 1);
      FailureExplained(c, run[i], p);
    }
  }

  lemma FailureExplained(c: Config, s: State, p: nat)
    requires Inv(c, s) && p < c.n && s.procs[p].pc.Failed? && s.procs[p].pc.reason != ForeignCall
    requires AgreedAt(c, s.procs[p].round) && AgreedAt(c, s.procs[p].round + 1)
    ensures s.procs[p].pc.reason == WrongLength && c.n >= 2
    ensures |c.contribution(0, s.procs[p].round + 1)| != |c.contribution(0, s.procs[p].round)|
  {
    assert ProcInv(c, s, p);
    assert |c.contribution(p, s.procs[p].round)| == |c.contribution(0, s.procs[p].round)|;
  }

  // ---- Progress ----

  /** A process among the first `m` that has entered the fewest fences. */
  lemma {:induction false} FewestFences(s: State, m: nat) returns (p: nat)
    requires 0 < m <= |s.procs|
    ensures p < m && forall q :: 0 <= q < m ==> s.procs[p].fences <= s.procs[q].fences
  {
    if m == 1 {
      p := 0;
    } else {
      p := FewestFences(s, m - 1);
      if s.procs[m - 1].fences < s.procs[p].fences { p := m - 1; }
    }
  }

  /** No deadlock: with no process failed, some process can always step. */
  lemma NoDeadlock(c: Config, run: seq<State>, i: nat)
    requires IsRun(c, run) && i < |run| && c.n > 0
    requires forall p :: 0 <= p < |run[i].procs| ==> !run[i].procs[p].pc.Failed?
    ensures exists p: nat :: Enabled(run[i], p)
  {
    RunInv(c, run, i);
    var p := FewestFences(run[i], c.n);
    assert Enabled(run[i], p);
  }

  // ---- Exactness is not a property of reused keys ----

  /** Two processes; process 1 contributes [0] to its first call and [1] to its second. */
  function TwoRounds(): Config {
    Config(2, (p: nat, r: nat) => if p == 1 && r == 1 then [1] else [0])
  }

  function Proc(round: nat, pc: Pc, staged: seq<byte>, got: seq<seq<byte>>, commits: nat, fences: nat): Process {
    Process(round, pc, staged, got, commits, fences)
  }

  /** Process 0 is slow to leave its first fence; process 1 finishes call 0 and commits call 1. */
  function Overtaken(): seq<State> {
    var none, zero, one := None, Some([0]), Some([1]);
    var a0 := Proc(0, Put, [], [], 0, 0);
    var a1 := Proc(0, Commit, [0], [], 0, 0);
    var a2 := Proc(0, EnterFence, [0], [], 1, 0);
    var a3 := Proc(0, InFence, [0], [], 1, 1);
    var a4 := Proc(0, Read(0), [0], [], 1, 1);
    var a5 := Proc(0, Read(1), [0], [[0]], 1, 1);
    var a6 := Proc(0, Returned, [0], [[0], [0]], 1, 1);
    var a7 := Proc(1, Put, [0], [], 1, 1);
    var a8 := Proc(1, Commit, [1], [], 1, 1);
    var a9 := Proc(1, EnterFence, [1], [], 2, 1);
    var late := Proc(0, Returned, [0], [[0], [1]], 1, 1);
    [ State([a0, a0], [none, none]), State([a1, a0], [none, none]), State([a2, a0], [zero, none]),
      State([a3, a0], [zero, none]), State([a3, a1], [zero, none]), State([a3, a2], [zero, zero]),
      State([a3, a3], [zero, zero]), State([a3, a4], [zero, zero]), State([a3, a5], [zero, zero]),
      State([a3, a6], [zero, zero]), State([a3, a7], [zero, zero]), State([a3, a8], [zero, zero]),
      State([a3, a9], [zero, one]), State([a4, a9], [zero, one]), State([a5, a9], [zero, one]),
      State([late, a9], [zero, one]) ]
  }

  /** A reachable state in which call 0 of process 0 returned process 1's call-1 bytes. */
  lemma RoundExactnessFails()
    ensures IsRun(TwoRounds(), Overtaken())
    ensures var proc := Overtaken()[15].procs[0];
            proc.round == 0 && proc.pc.Returned? && proc.got[1] != TwoRounds().contribution(1, 0)
  {
    var c, run := TwoRounds(), Overtaken();
    assert run[0] == Initial(c);
    forall i | 0 <= i < 15
      ensures Next(c, run[i], run[i + 1])
    {
      OvertakenStep(i);
    }
  }

  lemma OvertakenStep(i: nat)
    requires i < 15
    ensures Next(TwoRounds(), Overtaken()[i], Overtaken()[i + 1])
  {
    var c, s, s' := TwoRounds(), Overtaken()[i], Overtaken()[i + 1];
    var p := if i < 3 || i > 11 then 0 else 1;
    assert |s.procs| == 2 && |s'.procs| == 2 && |s.shown| == 2 && |s'.shown| == 2;
    assert Enabled(s, p);
    assert s'.procs[1 - p] == s.procs[1 - p];
    assert s'.procs[p] == StepProc(c, s, p);
    assert s'.procs == StepOf(c, s, p).procs;
    assert s'.shown == StepOf(c, s, p).shown;
    assert NextBy(c, s, s', p);
  }

  // ---- One process runs ahead, at any call ----

  ghost predicate CleanStep(c: Config, s: State, s': State, p: nat) {
    |s.procs| == |s.shown| && Enabled(s, p) && s' == StepOf(c, s, p)
  }

  ghost predicate CleanNext(c: Config, s: State, s': State) {
    exists p: nat :: CleanStep(c, s, s', p)
  }

  /** A run in which no foreign call fails. */
  ghost predicate CleanRun(c: Config, run: seq<State>) {
    && run != [] && run[0] == Initial(c)
    && forall i, j :: 0 <= i && i + 1 == j < |run| ==> CleanNext(c, run[i], run[j])
  }

  /** `s` is reached with no foreign call failing. */
  ghost predicate Reached(c: Config, s: State) {
    exists run :: CleanRun(c, run) && run[|run| - 1] == s
  }

  /** `s` is reached by some run, foreign failures included. */
  ghost predicate Reachable(c: Config, s: State) {
    exists run :: IsRun(c, run) && run[|run| - 1] == s
  }

  lemma ReachedIsReachable(c: Config, s: State)
    requires Reached(c, s)
    ensures Reachable(c, s)
  {
    var run :| CleanRun(c, run) && run[|run| - 1] == s;
    forall i | 0 <= i < |run| - 1
      ensures Next(c, run[i], run[i + 1])
    {
      assert CleanNext(c, run[i], run[i + 1]);
      var p: nat :| CleanStep(c, run[i], run[i + 1], p);
      assert NextBy(c, run[i], run[i + 1], p);
    }
    assert IsRun(c, run);
  }

  lemma ReachableInv(c: Config, s: State)
    requires Reachable(c, s)
    ensures Inv(c, s)
  {
    var run :| IsRun(c, run) && run[|run| - 1] == s;
    RunInv(c, run, |run| - 1);
  }

  lemma ReachedStep(c: Config, s: State, p: nat)
    requires Reached(c, s) && |s.procs| == |s.shown| && Enabled(s, p)
    ensures Reached(c, StepOf(c, s, p))
  {
    var run :| CleanRun(c, run) && run[|run| - 1] == s;
    var s' := StepOf(c, s, p);
    var longer := run + [s'];
    forall i, j | 0 <= i && i + 1 == j < |longer|
      ensures CleanNext(c, longer[i], longer[j])
    {
      if i == |run| - 1 {
        assert CleanStep(c, s, s', p);
      } else {
        assert CleanNext(c, run[i], run[j]);
      }
    }
    assert CleanRun(c, longer) && longer[|longer| - 1] == s';
  }

  // Between two calls, with call `r` next; and waiting in the fence of call `r`.

  function AtPut(c: Config, p: nat, r: nat): Process {
    Process(r, Put, if r == 0 then [] else c.contribution(p, r - 1), [], r, r)
  }

  function AtFence(c: Config, p: nat, r: nat): Process {
    Process(r, InFence, c.contribution(p, r), [], r + 1, r + 1)
  }

  function ShownAfter(c: Config, p: nat, commits: nat): Option<seq<byte>> {
    if commits == 0 then None else Some(c.contribution(p, commits - 1))
  }

  /** The first `m` processes wait in the fence of call `r`; the others are about to make it. */
  function Entering(c: Config, r: nat, m: nat): State {
    State(seq(c.n, (q: nat) => if q < m then AtFence(c, q, r) else AtPut(c, q, r)),
          seq(c.n, (q: nat) => ShownAfter(c, q, if q < m then r + 1 else r)))
  }

  /** The first `m` processes have returned from call `r`; the others wait in its fence. */
  function Leaving(c: Config, r: nat, m: nat): State {
    State(seq(c.n, (q: nat) => if q < m then AtPut(c, q, r + 1) else AtFence(c, q, r)),
          seq(c.n, (q: nat) => ShownAfter(c, q, r + 1)))
  }

  /** The first `to` values a reader finds. */
  function Fetched(shown: seq<Option<seq<byte>>>, to: nat): (got: seq<seq<byte>>)
    requires to <= |shown| && forall j :: 0 <= j < to ==> shown[j].Some?
    ensures |got| == to && forall j :: 0 <= j < to ==> got[j] == shown[j].value
  {
    if to == 0 then [] else Fetched(shown, to - 1) + [shown[to - 1].value]
  }

  function AfterReads(proc: Process, shown: seq<Option<seq<byte>>>, to: nat): Process
    requires to <= |shown| && forall j :: 0 <= j < to ==> shown[j].Some?
  {
    proc.(got := Fetched(shown, to), pc := if 0 < to == |shown| then Returned else Read(to))
  }

  /** A process at its first read gets through the first `to` of them, the others standing still. */
  lemma {:induction false} ReadUpTo(c: Config, s: State, p: nat, to: nat)
    requires Reached(c, s) && |s.procs| == |s.shown| == c.n && p < c.n && to <= c.n
    requires s.procs[p].pc == Read(0) && s.procs[p].got == []
    requires forall j :: 0 <= j < to ==>
               s.shown[j].Some? && |s.shown[j].value| == |c.contribution(p, s.procs[p].round)|
    ensures Reached(c, s.(procs := s.procs[p := AfterReads(s.procs[p], s.shown, to)]))
  {
    if to == 0 {
      assert s.procs[p := AfterReads(s.procs[p], s.shown, 0)] == s.procs;
    } else {
      ReadUpTo(c, s, p, to - 1);
      var before := s.(procs := s.procs[p := AfterReads(s.procs[p], s.shown, to - 1)]);
      ReachedStep(c, before, p);
      var after, goal := StepOf(c, before, p), s.(procs := s.procs[p := AfterReads(s.procs[p], s.shown, to)]);
      assert after.procs[p] == goal.procs[p];
      assert after.procs == goal.procs && after.shown == goal.shown;
    }
  }

  /** Process `p`, between calls, puts and commits its next value; the others stand still. */
  lemma PutAndCommit(c: Config, s: State, p: nat)
    requires Reached(c, s) && p < |s.procs| == |s.shown| && s.procs[p].pc.Put?
    requires c.contribution(p, s.procs[p].round) != []
    ensures var proc, bytes := s.procs[p], c.contribution(p, s.procs[p].round);
            Reached(c, State(s.procs[p := proc.(staged := bytes, pc := EnterFence, commits := proc.commits + 1)],
                             s.shown[p := Some(bytes)]))
  {
    var bytes := c.contribution(p, s.procs[p].round);
    ReachedStep(c, s, p);
    var put := StepOf(c, s, p);
    ReachedStep(c, put, p);
    var committed := StepOf(c, put, p);
    assert committed.procs ==
           s.procs[p := s.procs[p].(staged := bytes, pc := EnterFence, commits := s.procs[p].commits + 1)];
    assert committed.shown == s.shown[p := Some(bytes)];
  }

  lemma ShownNext(c: Config, p: nat, r: nat)
    ensures ShownAfter(c, p, r + 1) == Some(c.contribution(p, r))
  {
    assert r + 1 - 1 == r;
  }

  lemma EnterOne(c: Config, r: nat, m: nat)
    requires m < c.n && Reached(c, Entering(c, r, m)) && c.contribution(m, r) != []
    ensures Reached(c, Entering(c, r, m + 1))
  {
    var s := Entering(c, r, m);
    assert s.procs[m] == AtPut(c, m, r);
    PutAndCommit(c, s, m);
    var proc := s.procs[m].(staged := c.contribution(m, r), pc := EnterFence, commits := r + 1);
    var committed := State(s.procs[m := proc], s.shown[m := Some(c.contribution(m, r))]);
    ReachedStep(c, committed, m);
    var waits, goal := StepOf(c, committed, m), Entering(c, r, m + 1);
    ShownNext(c, m, r);
    assert waits == goal by {
      assert waits.procs == goal.procs && waits.shown == goal.shown;
    }
  }

  /** What `shown` must hold for `p` to get through all its reads. */
  predicate Readable(c: Config, s: State, p: nat)
    requires p < |s.procs|
  {
    forall j :: 0 <= j < |s.shown| ==>
      s.shown[j].Some? && |s.shown[j].value| == |c.contribution(p, s.procs[p].round)|
  }

  /** Process `p`, waiting in a fence everyone has entered, finishes its call and is ready for the
      next one; the others stand still. */
  lemma ReadAndReturn(c: Config, s: State, p: nat)
    requires Reached(c, s) && |s.procs| == |s.shown| == c.n && p < c.n
    requires s.procs[p].pc.InFence? && Enabled(s, p) && Readable(c, s, p)
    ensures Reached(c, s.(procs := s.procs[p := s.procs[p].(pc := Put, round := s.procs[p].round + 1, got := [])]))
  {
    ReachedStep(c, s, p);
    var left := StepOf(c, s, p);
    ReadUpTo(c, left, p, c.n);
    var returned := left.(procs := left.procs[p := AfterReads(left.procs[p], left.shown, c.n)]);
    ReachedStep(c, returned, p);
    assert StepOf(c, returned, p).procs ==
           s.procs[p := s.procs[p].(pc := Put, round := s.procs[p].round + 1, got := [])];
  }

  /** While all have entered the fence of call `r`, anyone still in it can finish the call. */
  lemma LeavingIsReadable(c: Config, r: nat, m: nat, p: nat)
    requires m <= p < c.n && AgreedAt(c, r)
    ensures |Leaving(c, r, m).procs| == |Leaving(c, r, m).shown| == c.n
    ensures Leaving(c, r, m).procs[p] == AtFence(c, p, r)
    ensures Enabled(Leaving(c, r, m), p) && Readable(c, Leaving(c, r, m), p)
  {
    var s := Leaving(c, r, m);
    assert s.procs[p] == AtFence(c, p, r);
    assert |c.contribution(p, r)| == |c.contribution(0, r)|;
    forall j: nat | j < c.n
      ensures s.procs[j].fences == r + 1
      ensures s.shown[j] == Some(c.contribution(j, r)) && |c.contribution(j, r)| == |c.contribution(0, r)|
    {
      assert s.procs[j] == if j < m then AtPut(c, j, r + 1) else AtFence(c, j, r);
      ShownNext(c, j, r);
    }
  }

  lemma FinishOne(c: Config, r: nat, m: nat)
    requires m < c.n && Reached(c, Leaving(c, r, m)) && AgreedAt(c, r)
    ensures Reached(c, Leaving(c, r, m + 1))
  {
    var s, goal := Leaving(c, r, m), Leaving(c, r, m + 1);
    LeavingIsReadable(c, r, m, m);
    ReadAndReturn(c, s, m);
    assert s.procs[m := s.procs[m].(pc := Put, round := r + 1, got := [])] == goal.procs;
    assert s.shown == goal.shown;
  }

  lemma {:induction false} AllEnter(c: Config, r: nat, m: nat)
    requires m <= c.n && Reached(c, Entering(c, r, 0)) && AgreedAt(c, r)
    ensures Reached(c, Entering(c, r, m))
  {
    if m > 0 {
      AllEnter(c, r, m - 1);
      assert |c.contribution(m - 1, r)| > 0;
      EnterOne(c, r, m - 1);
    }
  }

  lemma {:induction false} AllFinish(c: Config, r: nat, m: nat)
    requires m <= c.n && Reached(c, Leaving(c, r, 0)) && AgreedAt(c, r)
    ensures Reached(c, Leaving(c, r, m))
  {
    if m > 0 {
      AllFinish(c, r, m - 1);
      FinishOne(c, r, m - 1);
    }
  }

  /** Everyone in a call's fence is everyone about to leave it; everyone out of it is about to make
      the next call. */
  lemma CallsMeet(c: Config, r: nat)
    ensures Entering(c, 0, 0) == Initial(c)
    ensures Entering(c, r, c.n) == Leaving(c, r, 0)
    ensures Leaving(c, r, c.n) == Entering(c, r + 1, 0)
  {
    var enter, start := Entering(c, 0, 0), Initial(c);
    assert enter.procs == start.procs;
    forall q: nat | q < c.n
      ensures enter.shown[q] == start.shown[q]
    {
      assert ShownAfter(c, q, 0) == None;
    }
    assert enter.shown == start.shown;
    assert Entering(c, r, c.n).procs == Leaving(c, r, 0).procs && Entering(c, r, c.n).shown == Leaving(c, r, 0).shown;
    assert Leaving(c, r, c.n).procs == Entering(c, r + 1, 0).procs;
    assert Leaving(c, r, c.n).shown == Entering(c, r + 1, 0).shown;
  }

  lemma StartReached(c: Config)
    ensures Arrived(c, 0)
  {
    CallsMeet(c, 0);
    var start := Initial(c);
    assert CleanRun(c, [start]) && [start][|[start]| - 1] == start;
  }

  /** All processes have come, together, to call `r`. */
  ghost predicate Arrived(c: Config, r: nat) {
    Reached(c, Entering(c, r, 0))
  }

  lemma CallMade(c: Config, r: nat, next: nat)
    requires Arrived(c, r) && AgreedBefore(c, next) && r + 1 == next
    ensures Arrived(c, next)
  {
    assert AgreedAt(c, r);
    CallsMeet(c, r);
    AllEnter(c, r, c.n);
    AllFinish(c, r, c.n);
  }

  /** All processes can arrive together at call `r`. */
  lemma {:induction false} CallReached(c: Config, r: nat)
    requires AgreedBefore(c, r)
    ensures Arrived(c, r)
    decreases r
  {
    if r == 0 {
      StartReached(c);
    } else {
      var before := r - 1;
      CallReached(c, before);
      CallMade(c, before, r);
    }
  }

  /** Process `k` has finished call `r` and committed call `r + 1`; the others still wait in the
      fence of call `r`. */
  function Ahead(c: Config, r: nat, k: nat): State {
    State(seq(c.n, (q: nat) => if q == k then Process(r + 1, EnterFence, c.contribution(k, r + 1), [], r + 2, r + 1)
                               else AtFence(c, q, r)),
          seq(c.n, (q: nat) => ShownAfter(c, q, if q == k then r + 2 else r + 1)))
  }

  /** Process `k` has returned from call `r`; the others wait in its fence. */
  function AllButOne(c: Config, r: nat, k: nat): State {
    State(seq(c.n, (q: nat) => if q == k then AtPut(c, q, r + 1) else AtFence(c, q, r)),
          seq(c.n, (q: nat) => ShownAfter(c, q, r + 1)))
  }

  lemma OneFinishes(c: Config, r: nat, k: nat)
    requires k < c.n && Reached(c, Entering(c, r, c.n)) && AgreedAt(c, r)
    ensures Reached(c, AllButOne(c, r, k))
  {
    var s, goal := Leaving(c, r, 0), AllButOne(c, r, k);
    CallsMeet(c, r);
    LeavingIsReadable(c, r, 0, k);
    ReadAndReturn(c, s, k);
    assert s.procs[k := s.procs[k].(pc := Put, round := r + 1, got := [])] == goal.procs;
    assert s.shown == goal.shown;
  }

  lemma NextCommits(c: Config, r: nat, k: nat)
    requires k < c.n && c.contribution(k, r + 1) != [] && Reached(c, AllButOne(c, r, k))
    ensures Reached(c, Ahead(c, r, k))
  {
    var s, goal := AllButOne(c, r, k), Ahead(c, r, k);
    assert s.procs[k] == AtPut(c, k, r + 1);
    PutAndCommit(c, s, k);
    var bytes := c.contribution(k, r + 1);
    assert s.procs[k := AtPut(c, k, r + 1).(staged := bytes, pc := EnterFence, commits := r + 2)] == goal.procs;
    ShownNext(c, k, r + 1);
    assert s.shown[k := Some(bytes)] == goal.shown;
  }

  lemma RunAhead(c: Config, r: nat, k: nat)
    requires k < c.n && c.contribution(k, r + 1) != [] && AgreedBefore(c, r + 1)
    ensures Reached(c, Ahead(c, r, k))
  {
    CallReached(c, r);
    assert AgreedAt(c, r);
    AllEnter(c, r, c.n);
    OneFinishes(c, r, k);
    NextCommits(c, r, k);
  }

  /** A process left behind by `k`, about to start its reads. */
  function Behind(c: Config, r: nat, k: nat, p: nat): State
    requires p < c.n
  {
    var ahead := Ahead(c, r, k);
    ahead.(procs := ahead.procs[p := AtFence(c, p, r).(pc := Read(0))])
  }

  lemma StartBehind(c: Config, r: nat, k: nat, p: nat)
    requires k < c.n && p < c.n && p != k
    requires c.contribution(k, r + 1) != [] && AgreedBefore(c, r + 1)
    ensures Reached(c, Behind(c, r, k, p))
  {
    RunAhead(c, r, k);
    var ahead := Ahead(c, r, k);
    assert ahead.procs[p] == AtFence(c, p, r);
    assert forall q: nat :: q < c.n ==> ahead.procs[q].fences == r + 1;
    ReachedStep(c, ahead, p);
    assert StepOf(c, ahead, p).procs == Behind(c, r, k, p).procs;
  }

  lemma BehindShows(c: Config, r: nat, k: nat, p: nat, q: nat)
    requires p < c.n && q < c.n
    ensures Behind(c, r, k, p).shown[q] == Some(c.contribution(q, if q == k then r + 1 else r))
    ensures |Behind(c, r, k, p).shown| == |Behind(c, r, k, p).procs| == c.n
    ensures Behind(c, r, k, p).procs[p] == AtFence(c, p, r).(pc := Read(0))
  {
    ShownNext(c, q, if q == k then r + 1 else r);
  }

  // ---- Exactly when a returned call is exact ----

  function Contributions(c: Config, r: nat): seq<seq<byte>> {
    seq(c.n, (q: nat) => c.contribution(q, r))
  }

  predicate ReturnedFrom(s: State, p: nat, r: nat) {
    p < |s.procs| && s.procs[p].round == r && s.procs[p].pc.Returned?
  }

  /** Whatever the run, a process that has returned from call `r` gathered exactly that call. */
  ghost predicate ReturnsExactly(c: Config, r: nat) {
    forall s, p: nat :: Reachable(c, s) && ReturnedFrom(s, p, r) ==> s.procs[p].got == Contributions(c, r)
  }

  /** Contributions that the next call cannot be mistaken for: the same bytes, or another length. */
  ghost predicate NotMistakable(c: Config, r: nat) {
    forall k: nat :: k < c.n ==>
      c.contribution(k, r + 1) == c.contribution(k, r) || |c.contribution(k, r + 1)| != |c.contribution(k, r)|
  }

  lemma ReturnedIsExact(c: Config, s: State, p: nat, r: nat)
    requires Inv(c, s) && ReturnedFrom(s, p, r) && AgreedAt(c, r)
    requires c.n < 2 || NotMistakable(c, r)
    ensures s.procs[p].got == Contributions(c, r)
  {
    assert ProcInv(c, s, p);
    var got := s.procs[p].got;
    forall k: nat | k < c.n
      ensures got[k] == c.contribution(k, r)
    {
      assert SlotFits(c, s, k, r, got[k]);
      assert |got[k]| == |c.contribution(p, r)| == |c.contribution(0, r)| == |c.contribution(k, r)|;
    }
  }

  /** A return from call `r` that holds process `k`'s next contribution, reached cleanly. */
  lemma InexactReturn(c: Config, r: nat, k: nat, p: nat) returns (s: State)
    requires k < c.n && p < c.n && p != k && AgreedBefore(c, r + 1)
    requires |c.contribution(k, r + 1)| == |c.contribution(k, r)|
    ensures Reached(c, s) && ReturnedFrom(s, p, r)
    ensures k < |s.procs[p].got| && s.procs[p].got[k] == c.contribution(k, r + 1)
  {
    assert AgreedAt(c, r);
    StartBehind(c, r, k, p);
    var start := Behind(c, r, k, p);
    forall j: nat | j < c.n
      ensures start.shown[j].Some? && |start.shown[j].value| == |c.contribution(p, r)|
    {
      BehindShows(c, r, k, p, j);
      assert |c.contribution(j, r)| == |c.contribution(0, r)| == |c.contribution(p, r)|;
    }
    BehindShows(c, r, k, p, k);
    ReadUpTo(c, start, p, c.n);
    s := start.(procs := start.procs[p := AfterReads(start.procs[p], start.shown, c.n)]);
  }

  /** Exactness, as a condition on what callers pass: every return from call `r`, in every run, is
      exact if and only if there is one process, or each process's next contribution is the same or
      has another length. */
  lemma CallIsExactIff(c: Config, r: nat)
    requires AgreedBefore(c, r + 1)
    ensures ReturnsExactly(c, r) <==> c.n < 2 || NotMistakable(c, r)
  {
    if c.n < 2 || NotMistakable(c, r) {
      forall s, p: nat | Reachable(c, s) && ReturnedFrom(s, p, r)
        ensures s.procs[p].got == Contributions(c, r)
      {
        ReachableInv(c, s);
        ReturnedIsExact(c, s, p, r);
      }
    } else {
      var k: nat :| k < c.n && c.contribution(k, r + 1) != c.contribution(k, r)
                    && |c.contribution(k, r + 1)| == |c.contribution(k, r)|;
      var p := if k == 0 then 1 else 0;
      var s := InexactReturn(c, r, k, p);
      ReachedIsReachable(c, s);
      assert Contributions(c, r)[k] == c.contribution(k, r);
    }
  }

  // ---- Exactly when a call can fail on its own ----

  predicate FailedAlone(s: State, p: nat, r: nat) {
    p < |s.procs| && s.procs[p].round == r && s.procs[p].pc.Failed? && s.procs[p].pc.reason != ForeignCall
  }

  /** A call `r` that reads a next contribution of another length fails, no foreign call failing. */
  lemma LengthChangeFails(c: Config, r: nat, k: nat, p: nat) returns (s: State)
    requires k < c.n && p < c.n && p != k && AgreedBefore(c, r + 1)
    requires c.contribution(k, r + 1) != [] && |c.contribution(k, r + 1)| != |c.contribution(k, r)|
    ensures Reached(c, s) && FailedAlone(s, p, r) && s.procs[p].pc.reason == WrongLength
  {
    assert AgreedAt(c, r);
    StartBehind(c, r, k, p);
    var start := Behind(c, r, k, p);
    forall j: nat | j < k
      ensures start.shown[j].Some? && |start.shown[j].value| == |c.contribution(p, r)|
    {
      BehindShows(c, r, k, p, j);
      assert |c.contribution(j, r)| == |c.contribution(0, r)| == |c.contribution(p, r)|;
    }
    BehindShows(c, r, k, p, k);
    assert |c.contribution(k, r)| == |c.contribution(0, r)| == |c.contribution(p, r)|;
    ReadUpTo(c, start, p, k);
    var before := start.(procs := start.procs[p := AfterReads(start.procs[p], start.shown, k)]);
    ReachedStep(c, before, p);
    s := StepOf(c, before, p);
  }

  /** When lengths agree within each call, call `r` can fail with no foreign call failing if and
      only if there are two processes or more and the next call has another length. */
  lemma CallFailsAloneIff(c: Config, r: nat)
    requires AgreedBefore(c, r + 2)
    ensures (exists s, p: nat :: Reached(c, s) && FailedAlone(s, p, r))
            <==> c.n >= 2 && |c.contribution(0, r + 1)| != |c.contribution(0, r)|
  {
    assert AgreedAt(c, r) && AgreedAt(c, r + 1);
    if s, p: nat :| Reached(c, s) && FailedAlone(s, p, r) {
      ReachedIsReachable(c, s);
      ReachableInv(c, s);
      FailureExplained(c, s, p);
    }
    if c.n >= 2 && |c.contribution(0, r + 1)| != |c.contribution(0, r)| {
      var s := LengthChangeFails(c, r, 1, 0);
      assert FailedAlone(s, 0, r);
    }
  }

  /** Two processes whose first call passes one byte each and whose later calls pass two. */
  function Growing(): Config {
    Config(2, (p: nat, r: nat) => if r == 0 then [0] else [0, 0])
  }

  /** Lengths agree in every call, no foreign call fails, and process 0's first call fails. */
  lemma SpuriousFailure() returns (s: State)
    ensures forall r: nat :: AgreedAt(Growing(), r)
    ensures Reached(Growing(), s) && s.procs != [] && s.procs[0].round == 0
    ensures s.procs[0].pc == Failed(WrongLength)
  {
    var c := Growing();
    assert c.contribution(1, 0) == [0] && c.contribution(1, 1) == [0, 0];
    s := LengthChangeFails(c, 0, 1, 0);
  }

  // ---- The destination buffer ----

  function Concat(values: seq<seq<byte>>): seq<byte> {
    if values == [] then [] else values[0] + Concat(values[1..])
  }

  predicate AllOfLength(values: seq<seq<byte>>, len: nat) {
    forall k :: 0 <= k < |values| ==> |values[k]| == len
  }

  lemma {:induction false} ConcatLength(values: seq<seq<byte>>, len: nat)
    requires AllOfLength(values, len)
    ensures |Concat(values)| == |values| * len
  {
    if values != [] {
      ConcatLength(values[1..], len);
      assert |values| * len == len + (|values| - 1) * len;
    }
  }

  lemma {:induction false} ConcatAppend(values: seq<seq<byte>>, v: seq<byte>)
    ensures Concat(values + [v]) == Concat(values) + v
  {
    if values == [] {
      assert [v][1..] == [];
    } else {
      assert (values + [v])[1..] == values[1..] + [v];
      ConcatAppend(values[1..], v);
    }
  }

  /** Slot `k` of the destination, `dst[k*len..(k+1)*len]`, is value `k`. */
  lemma {:induction false} SlotOf(values: seq<seq<byte>>, len: nat, k: nat)
    requires AllOfLength(values, len) && k < |values|
    ensures 0 <= k * len <= k * len + len <= |Concat(values)|
    ensures Concat(values)[k * len..k * len + len] == values[k]
  {
    ConcatLength(values, len);
    var rest := Concat(values[1..]);
    if k > 0 {
      SlotOf(values[1..], len, k - 1);
      assert k * len == len + (k - 1) * len;
      var at := (k - 1) * len;
      assert Concat(values)[len + at..len + at + len] == rest[at..at + len];
    }
  }

  /** `copy_nonoverlapping` of one value. */
  method CopyAt(dst: array<byte>, at: nat, bytes: seq<byte>)
    requires at + |bytes| <= dst.Length
    modifies dst
    ensures dst[..] == old(dst[..at]) + bytes + old(dst[at + |bytes|..])
  {
    for j := 0 to |bytes|
      invariant dst[..at] == old(dst[..at])
      invariant dst[at..at + j] == bytes[..j]
      invariant dst[at + j..] == old(dst[at + j..])
    {
      dst[at + j] := bytes[j];
    }
  }

  /** The first `k` values copied to the front of a buffer that was `before`. */
  ghost predicate CopiedUpTo(before: seq<byte>, after: seq<byte>, values: seq<seq<byte>>, len: nat, k: nat) {
    && k <= |values| && AllOfLength(values[..k], len)
    && |Concat(values[..k])| <= |before|
    && after == Concat(values[..k]) + before[|Concat(values[..k])|..]
  }

  lemma CopiedStep(before: seq<byte>, now: seq<byte>, after: seq<byte>, values: seq<seq<byte>>, len: nat, k: nat)
    requires k < |values| && |values[k]| == len && |before| == |values| * len
    requires CopiedUpTo(before, now, values, len, k)
    requires k * len + len <= |now| && after == now[..k * len] + values[k] + now[k * len + len..]
    ensures CopiedUpTo(before, after, values, len, k + 1)
  {
    ConcatLength(values[..k], len);
    assert values[..k + 1] == values[..k] + [values[k]];
    ConcatAppend(values[..k], values[k]);
  }

  /** Copy fetched values slot by slot; the first one of another length stops the call with -1,
      the slots before it written and the rest untouched. */
  method CopySlots(dst: array<byte>, len: nat, values: seq<seq<byte>>) returns (status: int)
    requires len > 0 && dst.Length == |values| * len
    modifies dst
    ensures status == if AllOfLength(values, len) then 0 else -1
    ensures status == 0 ==> dst[..] == Concat(values)
    ensures status != 0 ==> exists k :: 0 <= k < |values| && |values[k]| != len
                                        && CopiedUpTo(old(dst[..]), dst[..], values, len, k)
  {
    for peer := 0 to |values|
      invariant CopiedUpTo(old(dst[..]), dst[..], values, len, peer)
    {
      var bytes := values[peer];
      if |bytes| != len { return -1; }
      SlotBound(peer, |values|, len);
      ghost var now := dst[..];
      CopyAt(dst, peer * len, bytes);
      CopiedStep(old(dst[..]), now, dst[..], values, len, peer);
    }
    assert values[..|values|] == values;
    ConcatLength(values, len);
    status := 0;
  }

  lemma SlotBound(k: nat, n: nat, len: nat)
    requires k < n
    ensures 0 <= k * len && k * len + len <= n * len
  {
    assert n * len == (n - 1) * len + len;
    if k < n - 1 { SlotBound(k, n - 1, len); }
  }

  /** One isolated round, all contributions `len` bytes long: the gathered buffer's slot `k` is
      exactly process `k`'s contribution, on every process that returned. */
  lemma IsolatedRoundFillsBuffer(c: Config, run: seq<State>, i: nat, p: nat, r: nat, len: nat, k: nat)
    requires IsRun(c, run) && i < |run| && p < c.n && k < c.n
    requires forall q :: 0 <= q < |run[i].procs| ==> run[i].procs[q].commits <= r + 1
    requires forall q: nat :: q < c.n ==> |c.contribution(q, r)| == len
    ensures |run[i].procs| == c.n
    ensures var proc := run[i].procs[p];
            proc.round == r && proc.pc.Returned? ==>
              && |Concat(proc.got)| == c.n * len
              && 0 <= k * len <= k * len + len <= |Concat(proc.got)|
              && Concat(proc.got)[k * len..k * len + len] == c.contribution(k, r)
  {
    IsolatedRound(c, run, i, p, r);
    var proc := run[i].procs[p];
    if proc.round == r && proc.pc.Returned? {
      ConcatLength(proc.got, len);
      SlotOf(proc.got, len, k);
    }
  }
}

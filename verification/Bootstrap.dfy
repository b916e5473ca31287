/** The bootstrap handshake: N processes publish, commit, fence, then read every peer, in any
    interleaving and with a foreign call allowed to fail at any step. */
module Bootstrap {
  import opened Machine

  datatype Key = WorkerAddress | HeapRkey | HeapBase
  datatype Value = Bytes(bytes: seq<byte>) | Word(word: usize)

  /** What one PE publishes. */
  datatype Metadata = Metadata(address: seq<byte>, rkey: seq<byte>, base: usize)

  datatype PeerRkey = PeerRkey(heapBase: usize, rkey: seq<byte>)

  /** `own[p]`: what process p of the namespace publishes. `size`: the job size all were told. */
  datatype Config = Config(own: seq<Metadata>, size: nat)

  /** Upper end of the read loop: `size as u32` drops the high bits. */
  function PeerCount(c: Config): nat { c.size % U32_LIMIT }

  datatype Pc =
    | Start | PutAddress | PutRkey | PutBase | Commit | EnterFence | InFence
    | GetAddress(pe: nat)
    | GetRkey(pe: nat, address: seq<byte>)
    | GetBase(pe: nat, address: seq<byte>, rkey: seq<byte>)
    | Done
    | Failed(error: Error)

  datatype Process = Process(pc: Pc, staged: map<Key, Value>, rkeys: map<nat, PeerRkey>, peers: map<nat, usize>)

  /** `committed[p]`: what the key-value store shows of p. `entered`: who has reached the fence. */
  datatype State = State(procs: seq<Process>, committed: seq<map<Key, Value>>, entered: set<nat>)

  function Lookup(s: State, pe: nat, key: Key): Option<Value> {
    if pe < |s.committed| && key in s.committed[pe] then Some(s.committed[pe][key]) else None
  }

  function BytesOf(v: Value): seq<byte> { if v.Bytes? then v.bytes else [] }
  function WordOf(v: Value): usize { if v.Word? then v.word else 0 }

  predicate AllEntered(s: State) {
    forall q :: 0 <= q < |s.procs| ==> q in s.entered
  }

  predicate Running(s: State, p: nat) {
    p < |s.procs| && !s.procs[p].pc.Done? && !s.procs[p].pc.Failed?
  }

  /** A process can move unless it has finished, or waits in the fence for others. */
  predicate Enabled(s: State, p: nat) {
    Running(s, p) && (s.procs[p].pc.InFence? ==> AllEntered(s))
  }

  function WithProc(s: State, p: nat, proc: Process): State
    requires p < |s.procs|
  {
    s.(procs := s.procs[p := proc])
  }

  function ReadNext(c: Config, pe: nat): Pc {
    if pe < PeerCount(c) then GetAddress(pe) else Done
  }

  /** The peer just read, checked and recorded. */
  function Record(c: Config, proc: Process, pe: nat, address: seq<byte>, rkey: seq<byte>, base: usize): Process {
    if address == [] || |rkey| < 4 || base == 0 then proc.(pc := Failed(IncompleteMetadata))
    else proc.(pc := ReadNext(c, pe + 1),
               rkeys := proc.rkeys[pe := PeerRkey(base, rkey)],
               peers := proc.peers[pe := base])
  }

  /** One step of process `p`'s handshake, no foreign call failing. */
  function StepOf(c: Config, s: State, p: nat): State
    requires p < |s.procs| == |s.committed| == |c.own|
  {
    var proc, me := s.procs[p], c.own[p];
    match proc.pc
    case Start =>
      WithProc(s, p, proc.(pc := if c.size == 0 then Failed(ZeroJobSize) else PutAddress))
    case PutAddress =>
      WithProc(s, p, if me.address == [] then proc.(pc := Failed(EmptyValue))
                     else proc.(pc := PutRkey, staged := proc.staged[WorkerAddress := Bytes(me.address)]))
    case PutRkey =>
      WithProc(s, p, if me.rkey == [] then proc.(pc := Failed(EmptyValue))
                     else proc.(pc := PutBase, staged := proc.staged[HeapRkey := Bytes(me.rkey)]))
    case PutBase =>
      WithProc(s, p, proc.(pc := Commit, staged := proc.staged[HeapBase := Word(me.base)]))
    case Commit =>
      WithProc(s, p, proc.(pc := EnterFence)).(committed := s.committed[p := s.committed[p] + proc.staged])
    case EnterFence =>
      WithProc(s, p, proc.(pc := InFence)).(entered := s.entered + {p})
    case InFence =>
      WithProc(s, p, proc.(pc := ReadNext(c, 0)))
    case GetAddress(pe) =>
      WithProc(s, p, match Lookup(s, pe, WorkerAddress)
                     case None => proc.(pc := Failed(MissingKey))
                     case Some(v) => proc.(pc := GetRkey(pe, BytesOf(v))))
    case GetRkey(pe, address) =>
      WithProc(s, p, match Lookup(s, pe, HeapRkey)
                     case None => proc.(pc := Failed(MissingKey))
                     case Some(v) => proc.(pc := GetBase(pe, address, BytesOf(v))))
    case GetBase(pe, address, rkey) =>
      WithProc(s, p, match Lookup(s, pe, HeapBase)
                     case None => proc.(pc := Failed(MissingKey))
                     case Some(v) => Record(c, proc, pe, address, rkey, WordOf(v)))
    case Done => s
    case Failed(_) => s
  }

  /** A foreign call of `p` reports an error and `p` gives up. */
  function FaultOf(s: State, p: nat, code: int): State
    requires p < |s.procs|
  {
    WithProc(s, p, s.procs[p].(pc := Failed(Foreign(code))))
  }

  ghost predicate Init(c: Config, s: State) {
    && |s.procs| == |s.committed| == |c.own| && s.entered == {}
    && (forall p :: 0 <= p < |c.own| ==> s.procs[p] == Process(Start, map[], map[], map[]))
    && (forall p :: 0 <= p < |c.own| ==> s.committed[p] == map[])
  }

  ghost predicate NextBy(c: Config, s: State, s': State, p: nat)
    requires |s.procs| == |s.committed| == |c.own|
  {
    || (Enabled(s, p) && s' == StepOf(c, s, p))
    || (Running(s, p) && exists code :: s' == FaultOf(s, p, code))
  }

  ghost predicate Next(c: Config, s: State, s': State) {
    && |s.procs| == |s.committed| == |c.own|
    && exists p: nat :: NextBy(c, s, s', p)
  }

  ghost predicate IsRun(c: Config, run: seq<State>) {
    && run != [] && Init(c, run[0])
    && forall i :: 0 <= i < |run| - 1 ==> Next(c, run[i], run[i + 1])
  }

  // ---- The global invariant ----

  function Published(m: Metadata): map<Key, Value> {
    map[WorkerAddress := Bytes(m.address), HeapRkey := Bytes(m.rkey), HeapBase := Word(m.base)]
  }

  function StagedBefore(pc: Pc, m: Metadata): map<Key, Value> {
    match pc
    case PutRkey => map[WorkerAddress := Bytes(m.address)]
    case PutBase => map[WorkerAddress := Bytes(m.address), HeapRkey := Bytes(m.rkey)]
    case Commit => Published(m)
    case _ => map[]
  }

  predicate BeforeCommit(pc: Pc) {
    pc.Start? || pc.PutAddress? || pc.PutRkey? || pc.PutBase? || pc.Commit?
  }

  predicate PastFence(pc: Pc) {
    pc.GetAddress? || pc.GetRkey? || pc.GetBase? || pc.Done?
  }

  /** The peer maps hold exactly the first `k` processes' own base and rkey. */
  ghost predicate PeersUpTo(c: Config, proc: Process, k: nat) {
    && k <= |c.own|
    && (forall i :: i in proc.rkeys <==> 0 <= i < k)
    && (forall i :: i in proc.peers <==> 0 <= i < k)
    && (forall i :: 0 <= i < k ==> proc.rkeys[i] == PeerRkey(c.own[i].base, c.own[i].rkey)
                                   && proc.peers[i] == c.own[i].base)
  }

  ghost predicate Complete(m: Metadata) {
    m.address != [] && |m.rkey| >= 4 && m.base != 0
  }

  /** How far the read loop has got. */
  ghost predicate ReadInv(c: Config, proc: Process) {
    match proc.pc
    case GetAddress(pe) => pe < PeerCount(c) && PeersUpTo(c, proc, pe)
    case GetRkey(pe, address) =>
      pe < PeerCount(c) && pe < |c.own| && PeersUpTo(c, proc, pe) && address == c.own[pe].address
    case GetBase(pe, address, rkey) =>
      pe < PeerCount(c) && pe < |c.own| && PeersUpTo(c, proc, pe)
      && address == c.own[pe].address && rkey == c.own[pe].rkey
    case Done => PeersUpTo(c, proc, PeerCount(c))
    case Failed(_) => true
    case _ => proc.rkeys == map[] && proc.peers == map[]
  }

  ghost predicate ProcInv(c: Config, s: State, p: nat)
    requires p < |s.procs| == |s.committed| == |c.own|
  {
    var proc := s.procs[p];
    && ReadInv(c, proc)
    && (BeforeCommit(proc.pc) ==>
          proc.staged == StagedBefore(proc.pc, c.own[p]) && s.committed[p] == map[] && p !in s.entered)
    && (proc.pc.EnterFence? || p in s.entered ==> s.committed[p] == Published(c.own[p]))
    && (proc.pc.InFence? || PastFence(proc.pc) ==> p in s.entered)
    && (PastFence(proc.pc) ==> AllEntered(s))
  }

  ghost predicate Inv(c: Config, s: State) {
    && |s.procs| == |s.committed| == |c.own|
    && forall p :: 0 <= p < |c.own| ==> ProcInv(c, s, p)
  }

  lemma InitInv(c: Config, s: State)
    requires Init(c, s)
    ensures Inv(c, s)
  {
  }

  /** Once the fence is passed, every process of the namespace shows all three of its keys. */
  lemma LookupAfterFence(c: Config, s: State, pe: nat, key: Key)
    requires Inv(c, s) && AllEntered(s)
    ensures Lookup(s, pe, key) == if pe < |c.own| then Some(Published(c.own[pe])[key]) else None
  {
    if pe < |c.own| {
      assert ProcInv(c, s, pe);
    }
  }

  lemma PublishKeepsSelf(c: Config, s: State, p: nat)
    requires Inv(c, s) && Enabled(s, p) && BeforeCommit(s.procs[p].pc)
    ensures ProcInv(c, StepOf(c, s, p), p)
  {
    assert ProcInv(c, s, p);
    assert map[] + Published(c.own[p]) == Published(c.own[p]);
  }

  lemma FenceKeepsSelf(c: Config, s: State, p: nat)
    requires Inv(c, s) && Enabled(s, p) && (s.procs[p].pc.EnterFence? || s.procs[p].pc.InFence?)
    ensures ProcInv(c, StepOf(c, s, p), p)
  {
    assert ProcInv(c, s, p);
  }

  lemma RecordKeepsRead(c: Config, proc: Process, pe: nat)
    requires pe < PeerCount(c) && pe < |c.own| && PeersUpTo(c, proc, pe)
    ensures ReadInv(c, Record(c, proc, pe, c.own[pe].address, c.own[pe].rkey, c.own[pe].base))
    ensures var pc := Record(c, proc, pe, c.own[pe].address, c.own[pe].rkey, c.own[pe].base).pc;
            PastFence(pc) || pc.Failed?
  {
  }

  lemma ReadKeepsSelf(c: Config, s: State, p: nat)
    requires Inv(c, s) && Enabled(s, p) && PastFence(s.procs[p].pc)
    ensures ProcInv(c, StepOf(c, s, p), p)
  {
    assert ProcInv(c, s, p);
    match s.procs[p].pc {
      case GetAddress(pe) =>
        LookupAfterFence(c, s, pe, WorkerAddress);
      case GetRkey(pe, _) =>
        LookupAfterFence(c, s, pe, HeapRkey);
      case GetBase(pe, _, _) =>
        LookupAfterFence(c, s, pe, HeapBase);
        RecordKeepsRead(c, s.procs[p], pe);
    }
  }

  lemma StepKeepsOther(c: Config, s: State, p: nat, q: nat)
    requires Inv(c, s) && Enabled(s, p) && q < |c.own| && q != p
    ensures ProcInv(c, StepOf(c, s, p), q)
  {
    assert ProcInv(c, s, p) && ProcInv(c, s, q);
  }

  lemma StepKeepsInv(c: Config, s: State, p: nat)
    requires Inv(c, s) && Enabled(s, p)
    ensures Inv(c, StepOf(c, s, p))
  {
    forall q | 0 <= q < |c.own|
      ensures ProcInv(c, StepOf(c, s, p), q)
    {
      if q != p { StepKeepsOther(c, s, p, q); }
      else if BeforeCommit(s.procs[p].pc) { PublishKeepsSelf(c, s, p); }
      else if PastFence(s.procs[p].pc) { ReadKeepsSelf(c, s, p); }
      else { FenceKeepsSelf(c, s, p); }
    }
  }

  lemma FaultKeepsInv(c: Config, s: State, p: nat, code: int)
    requires Inv(c, s) && p < |s.procs|
    ensures Inv(c, FaultOf(s, p, code))
  {
    forall q | 0 <= q < |c.own|
      ensures ProcInv(c, FaultOf(s, p, code), q)
    {
      assert ProcInv(c, s, q);
    }
  }

  lemma {:induction false} RunInv(c: Config, run: seq<State>, i: nat)
    requires IsRun(c, run) && i < |run|
    ensures Inv(c, run[i])
  {
    if i == 0 {
      InitInv(c, run[0]);
    } else {
      RunInv(c, run, i - 1);
      var s, s' := run[i - 1], run[i];
      assert Next(c, s, run[i - 1 + 1]);
      var p: nat :| NextBy(c, s, s', p);
      if Enabled(s, p) && s' == StepOf(c, s, p) {
        StepKeepsInv(c, s, p);
      } else {
        var code :| s' == FaultOf(s, p, code);
        FaultKeepsInv(c, s, p, code);
      }
    }
  }

  // ---- How far a process can get, and why it stops ----

  /** What a process must have to pass the two byte puts. */
  predicate Publishes(m: Metadata) { m.address != [] && m.rkey != [] }

  /** What in the published data stops the read loop at peer `k`, if anything. */
  ghost function OwnFault(c: Config, k: nat): Option<Error> {
    if k >= |c.own| then Some(MissingKey)
    else if !Complete(c.own[k]) then Some(IncompleteMetadata)
    else None
  }

  ghost predicate NoFaultBefore(c: Config, k: nat) {
    forall j: nat :: j < k ==> OwnFault(c, j).None?
  }

  /** The read loop meets `error` first, at peer `pe`. */
  ghost predicate FirstFault(c: Config, pe: nat, error: Error) {
    pe < PeerCount(c) && OwnFault(c, pe) == Some(error) && NoFaultBefore(c, pe)
  }

  /** Why process `p` failed with `error`, if no foreign call of its own did. */
  ghost predicate FailedBecause(c: Config, s: State, p: nat, error: Error)
    requires p < |c.own|
  {
    || (error == ZeroJobSize && c.size == 0)
    || (error == EmptyValue && c.size > 0 && !Publishes(c.own[p]))
    || (c.size > 0 && Publishes(c.own[p]) && AllEntered(s) && exists pe: nat :: FirstFault(c, pe, error))
  }

  ghost predicate Progress(c: Config, s: State, p: nat)
    requires p < |s.procs| == |c.own|
  {
    var me := c.own[p];
    && (p in s.entered ==> c.size > 0 && Publishes(me))
    && match s.procs[p].pc
       case Start => true
       case PutAddress => c.size > 0
       case PutRkey => c.size > 0 && me.address != []
       case GetAddress(pe) => c.size > 0 && Publishes(me) && NoFaultBefore(c, pe)
       case GetRkey(pe, _) => c.size > 0 && Publishes(me) && NoFaultBefore(c, pe)
       case GetBase(pe, _, _) => c.size > 0 && Publishes(me) && NoFaultBefore(c, pe)
       case Done => c.size > 0 && Publishes(me) && NoFaultBefore(c, PeerCount(c))
       case Failed(error) => error.Foreign? || FailedBecause(c, s, p, error)
       case _ => c.size > 0 && Publishes(me)
  }

  ghost predicate AllProgress(c: Config, s: State) {
    |s.procs| == |c.own| && forall p :: 0 <= p < |c.own| ==> Progress(c, s, p)
  }

  /** A step of `p` alone never invents a foreign status. */
  lemma ReadProgress(c: Config, s: State, p: nat)
    requires Inv(c, s) && Enabled(s, p) && PastFence(s.procs[p].pc) && Progress(c, s, p)
    ensures Progress(c, StepOf(c, s, p), p) && !Foreigner(StepOf(c, s, p), p)
  {
    assert ProcInv(c, s, p);
    match s.procs[p].pc {
      case GetAddress(pe) =>
        LookupAfterFence(c, s, pe, WorkerAddress);
        assert pe >= |c.own| ==> FirstFault(c, pe, MissingKey);
      case GetRkey(pe, _) =>
        LookupAfterFence(c, s, pe, HeapRkey);
      case GetBase(pe, _, _) =>
        LookupAfterFence(c, s, pe, HeapBase);
        assert !Complete(c.own[pe]) ==> FirstFault(c, pe, IncompleteMetadata);
    }
  }

  predicate Foreigner(s: State, p: nat) {
    p < |s.procs| && s.procs[p].pc.Failed? && s.procs[p].pc.error.Foreign?
  }

  lemma StepProgress(c: Config, s: State, p: nat)
    requires Inv(c, s) && Enabled(s, p) && Progress(c, s, p)
    ensures Progress(c, StepOf(c, s, p), p) && !Foreigner(StepOf(c, s, p), p)
  {
    assert ProcInv(c, s, p);
    if PastFence(s.procs[p].pc) { ReadProgress(c, s, p); }
  }

  lemma StepKeepsProgress(c: Config, s: State, p: nat)
    requires Inv(c, s) && Enabled(s, p) && AllProgress(c, s)
    ensures AllProgress(c, StepOf(c, s, p))
    ensures forall q: nat :: Foreigner(StepOf(c, s, p), q) ==> Foreigner(s, q)
  {
    StepProgress(c, s, p);
    var s' := StepOf(c, s, p);
    forall q: nat | q < |c.own|
      ensures Progress(c, s', q) && (Foreigner(s', q) ==> Foreigner(s, q))
    {
      if q != p { assert Progress(c, s, q); }
    }
  }

  lemma FaultKeepsProgress(c: Config, s: State, p: nat, code: int)
    requires Inv(c, s) && p < |s.procs| && AllProgress(c, s)
    ensures AllProgress(c, FaultOf(s, p, code))
  {
    var s' := FaultOf(s, p, code);
    forall q | 0 <= q < |c.own|
      ensures Progress(c, s', q)
    {
      assert Progress(c, s, q);
    }
  }

  lemma {:induction false} RunProgress(c: Config, run: seq<State>, i: nat)
    requires IsRun(c, run) && i < |run|
    ensures AllProgress(c, run[i])
  {
    if i > 0 {
      RunProgress(c, run, i - 1);
      RunInv(c, run, i - 1);
      var s, s' := run[i - 1], run[i];
      assert Next(c, s, run[i - 1 + 1]);
      var p: nat :| NextBy(c, s, s', p);
      if Enabled(s, p) && s' == StepOf(c, s, p) {
        StepKeepsProgress(c, s, p);
      } else {
        var code :| s' == FaultOf(s, p, code);
        FaultKeepsProgress(c, s, p, code);
      }
    }
  }

  // ---- What every interleaving guarantees ----

  /** A process about to read finds the key, as long as the loop stays inside the namespace. */
  lemma NeverMissingKey(c: Config, run: seq<State>, i: nat, p: nat)
    requires IsRun(c, run) && i < |run| && p < |c.own|
    requires PeerCount(c) <= |c.own|
    ensures |run[i].procs| == |c.own| && run[i].procs[p].pc != Failed(MissingKey)
    ensures match run[i].procs[p].pc
            case GetAddress(pe) => pe < |c.own| && Lookup(run[i], pe, WorkerAddress) == Some(Bytes(c.own[pe].address))
            case GetRkey(pe, _) => pe < |c.own| && Lookup(run[i], pe, HeapRkey) == Some(Bytes(c.own[pe].rkey))
            case GetBase(pe, _, _) => pe < |c.own| && Lookup(run[i], pe, HeapBase) == Some(Word(c.own[pe].base))
            case _ => true
  {
    RunInv(c, run, i);
    RunProgress(c, run, i);
    var s := run[i];
    assert ProcInv(c, s, p) && Progress(c, s, p);
    match s.procs[p].pc {
      case GetAddress(pe) => LookupAfterFence(c, s, pe, WorkerAddress);
      case GetRkey(pe, _) => LookupAfterFence(c, s, pe, HeapRkey);
      case GetBase(pe, _, _) => LookupAfterFence(c, s, pe, HeapBase);
      case _ =>
    }
  }

  /** Agreement: every process that finishes, at whatever moment, holds every peer's own base and
      rkey, so any two hold equal maps, and the two maps of one process name the same bases. */
  lemma Agreement(c: Config, run: seq<State>, i: nat, j: nat, p: nat, q: nat)
    requires IsRun(c, run) && i < |run| && j < |run| && p < |c.own| && q < |c.own|
    ensures |run[i].procs| == |run[j].procs| == |c.own|
    ensures run[i].procs[p].pc.Done? ==> PeersUpTo(c, run[i].procs[p], PeerCount(c))
    ensures run[i].procs[p].pc.Done? && run[j].procs[q].pc.Done? ==>
              run[i].procs[p].rkeys == run[j].procs[q].rkeys && run[i].procs[p].peers == run[j].procs[q].peers
    ensures run[i].procs[p].pc.Done? ==>
              forall k :: k in run[i].procs[p].peers ==>
                k in run[i].procs[p].rkeys && run[i].procs[p].peers[k] == run[i].procs[p].rkeys[k].heapBase
  {
    RunInv(c, run, i);
    RunInv(c, run, j);
    assert ProcInv(c, run[i], p) && ProcInv(c, run[j], q);
  }

  /** The peer maps cover all of `0..size` exactly when the job size fits in 32 bits. */
  lemma CoversJobIff(c: Config, run: seq<State>, i: nat, p: nat)
    requires IsRun(c, run) && i < |run| && p < |c.own|
    ensures |run[i].procs| == |c.own|
    ensures run[i].procs[p].pc.Done? ==>
              ((forall k: nat :: k in run[i].procs[p].peers <==> k < c.size) <==> c.size < U32_LIMIT)
  {
    RunInv(c, run, i);
    assert ProcInv(c, run[i], p);
    if run[i].procs[p].pc.Done? && c.size >= U32_LIMIT {
      assert PeerCount(c) < c.size;
      assert PeerCount(c) !in run[i].procs[p].peers;
    }
  }

  /** One process that was told a job size of 2^32. */
  function HugeJob(): Config {
    Config([Metadata([1], [1, 2, 3, 4], 8)], U32_LIMIT)
  }

  function Alone(pc: Pc, staged: map<Key, Value>, shown: map<Key, Value>, entered: set<nat>): State {
    State([Process(pc, staged, map[], map[])], [shown], entered)
  }

  /** Its handshake, step by step. */
  function HugeJobRun(): seq<State> {
    var me := HugeJob().own[0];
    var all := Published(me);
    [ Alone(Start, map[], map[], {}), Alone(PutAddress, map[], map[], {}),
      Alone(PutRkey, StagedBefore(PutRkey, me), map[], {}), Alone(PutBase, StagedBefore(PutBase, me), map[], {}),
      Alone(Commit, all, map[], {}), Alone(EnterFence, all, all, {}),
      Alone(InFence, all, all, {0}), Alone(Done, all, all, {0}) ]
  }

  /** It is done without having read any peer, its own entry included. */
  lemma TruncatedJobSize()
    ensures IsRun(HugeJob(), HugeJobRun())
    ensures HugeJobRun()[7].procs[0].pc == Done
    ensures HugeJobRun()[7].procs[0].peers == map[] && HugeJobRun()[7].procs[0].rkeys == map[]
    ensures 0 < HugeJob().size
  {
    var c, run := HugeJob(), HugeJobRun();
    assert Init(c, run[0]);
    forall i | 0 <= i < 7
      ensures Next(c, run[i], run[i + 1])
    {
      HugeJobStep(i);
    }
  }

  lemma HugeJobStep(i: nat)
    requires i < 7
    ensures Next(HugeJob(), HugeJobRun()[i], HugeJobRun()[i + 1])
  {
    var c, s, s' := HugeJob(), HugeJobRun()[i], HugeJobRun()[i + 1];
    assert map[] + Published(c.own[0]) == Published(c.own[0]);
    assert s'.procs == StepOf(c, s, 0).procs && s'.committed == StepOf(c, s, 0).committed;
    assert s'.entered == StepOf(c, s, 0).entered;
    assert NextBy(c, s, s', 0);
  }

  lemma {:induction false} FailedStays(c: Config, run: seq<State>, i: nat, j: nat, p: nat)
    requires IsRun(c, run) && i <= j < |run| && p < |run[i].procs| && run[i].procs[p].pc.Failed?
    ensures p < |run[j].procs| && run[j].procs[p] == run[i].procs[p] && (p in run[j].entered <==> p in run[i].entered)
    decreases j
  {
    if i < j {
      FailedStays(c, run, i, j - 1, p);
      var s, s' := run[j - 1], run[j];
      assert Next(c, s, run[j - 1 + 1]);
      var q: nat :| NextBy(c, s, s', q);
      assert q != p;
    }
  }

  /** A process that gave up before the fence keeps every process, for ever, from reading or finishing. */
  lemma FailureBeforeFenceBlocksAll(c: Config, run: seq<State>, i: nat, j: nat, p: nat, q: nat)
    requires IsRun(c, run) && i <= j < |run| && p < |c.own| && q < |c.own|
    ensures |run[i].procs| == |run[j].procs| == |c.own|
    ensures run[i].procs[p].pc.Failed? && p !in run[i].entered ==> !PastFence(run[j].procs[q].pc)
  {
    RunInv(c, run, i);
    RunInv(c, run, j);
    assert ProcInv(c, run[j], q);
    if run[i].procs[p].pc.Failed? && p !in run[i].entered {
      FailedStays(c, run, i, j, p);
    }
  }

  /** A process that failed, in any run, did so by a foreign call or for the one reason its own and
      its peers' data give; with complete data and all peers there, only by a foreign call. */
  lemma OnlyForeignFailures(c: Config, run: seq<State>, i: nat, p: nat)
    requires IsRun(c, run) && i < |run| && p < |c.own|
    ensures |run[i].procs| == |c.own|
    ensures run[i].procs[p].pc.Failed? ==>
              run[i].procs[p].pc.error.Foreign? || FailedBecause(c, run[i], p, run[i].procs[p].pc.error)
    ensures 0 < c.size && PeerCount(c) <= |c.own| && (forall k :: 0 <= k < |c.own| ==> Complete(c.own[k])) ==>
              (run[i].procs[p].pc.Failed? ==> run[i].procs[p].pc.error.Foreign?)
  {
    RunInv(c, run, i);
    RunProgress(c, run, i);
    assert Progress(c, run[i], p);
  }

  /** No deadlock: unless some process failed, either all are done or one can step. */
  lemma NoDeadlock(c: Config, run: seq<State>, i: nat)
    requires IsRun(c, run) && i < |run|
    requires forall p :: 0 <= p < |run[i].procs| ==> !run[i].procs[p].pc.Failed?
    ensures (forall p :: 0 <= p < |run[i].procs| ==> run[i].procs[p].pc.Done?) || exists p: nat :: Enabled(run[i], p)
  {
    RunInv(c, run, i);
    var s := run[i];
    if exists p :: 0 <= p < |s.procs| && !s.procs[p].pc.Done? && !s.procs[p].pc.InFence? {
      var p: nat :| p < |s.procs| && !s.procs[p].pc.Done? && !s.procs[p].pc.InFence?;
      assert Enabled(s, p);
    } else {
      forall q | 0 <= q < |s.procs|
        ensures q in s.entered
      {
        assert ProcInv(c, s, q);
      }
      if p: nat :| p < |s.procs| && !s.procs[p].pc.Done? {
        assert Enabled(s, p);
      }
    }
  }

  // ---- The read loop of one process ----

  /** What stops the loop at peer `k`, if anything. A look-up may fail otherwise than by a missing
      key, and an endpoint or a remote key may not be made: `gets` and `connects` hold those foreign
      statuses, by peer. */
  ghost function PeerFault(c: Config, gets: map<nat, int>, connects: map<nat, int>, k: nat): Option<Error> {
    if k in gets then Some(Foreign(gets[k]))
    else if OwnFault(c, k).Some? then OwnFault(c, k)
    else if k in connects then Some(Foreign(connects[k]))
    else None
  }

  /** After the fence the store is frozen, so the read loop runs as sequential code: it reports the
      first peer's fault, or else holds exactly the maps every finished process holds. */
  method ReadPeers(c: Config, s: State, gets: map<nat, int>, connects: map<nat, int>)
    returns (error: Option<Error>, rkeys: map<nat, PeerRkey>, peers: map<nat, usize>)
    requires Inv(c, s) && AllEntered(s)
    ensures error.None? <==>
              && PeerCount(c) <= |c.own|
              && forall k: nat :: k < PeerCount(c) ==> Complete(c.own[k]) && k !in gets && k !in connects
    ensures error.None? ==> PeersUpTo(c, Process(Done, map[], rkeys, peers), PeerCount(c))
    ensures error.Some? ==>
              exists pe: nat :: pe < PeerCount(c) && PeerFault(c, gets, connects, pe) == error
                                && forall k: nat :: k < pe ==> PeerFault(c, gets, connects, k).None?
  {
    error, rkeys, peers := None, map[], map[];
    for pe := 0 to PeerCount(c)
      invariant error.None? && PeersUpTo(c, Process(Done, map[], rkeys, peers), pe)
      invariant forall k: nat :: k < pe ==> PeerFault(c, gets, connects, k).None?
    {
      LookupAfterFence(c, s, pe, WorkerAddress);
      LookupAfterFence(c, s, pe, HeapRkey);
      LookupAfterFence(c, s, pe, HeapBase);
      var address := Lookup(s, pe, WorkerAddress);
      if pe in gets {
        error := Some(Foreign(gets[pe]));
      } else if address.None? {
        error := Some(MissingKey);
      } else {
        var rkey, base := BytesOf(Lookup(s, pe, HeapRkey).value), WordOf(Lookup(s, pe, HeapBase).value);
        if BytesOf(address.value) == [] || |rkey| < 4 || base == 0 {
          error := Some(IncompleteMetadata);
        } else if pe in connects {
          error := Some(Foreign(connects[pe]));
        } else {
          rkeys := rkeys[pe := PeerRkey(base, rkey)];
          peers := peers[pe := base];
        }
      }
      if error.Some? {
        assert PeerFault(c, gets, connects, pe) == error;
        assert pe < |c.own| ==> !Complete(c.own[pe]) || pe in gets || pe in connects;
        return;
      }
    }
    forall k: nat | k < PeerCount(c)
      ensures Complete(c.own[k]) && k !in gets && k !in connects
    {
      assert PeerFault(c, gets, connects, k).None?;
    }
  }

  // ---- Every run ends ----

  /** Steps a process may still take. */
  function Left(c: Config, pc: Pc): nat {
    match pc
    case Start => 3 * PeerCount(c) + 8
    case PutAddress => 3 * PeerCount(c) + 7
    case PutRkey => 3 * PeerCount(c) + 6
    case PutBase => 3 * PeerCount(c) + 5
    case Commit => 3 * PeerCount(c) + 4
    case EnterFence => 3 * PeerCount(c) + 3
    case InFence => 3 * PeerCount(c) + 2
    case GetAddress(pe) => if pe < PeerCount(c) then 3 * (PeerCount(c) - pe) + 1 else 1
    case GetRkey(pe, _) => if pe < PeerCount(c) then 3 * (PeerCount(c) - pe) else 1
    case GetBase(pe, _, _) => if pe < PeerCount(c) then 3 * (PeerCount(c) - pe) - 1 else 1
    case Done => 0
    case Failed(_) => 0
  }

  function TotalLeft(c: Config, procs: seq<Process>): nat {
    if procs == [] then 0 else Left(c, procs[0].pc) + TotalLeft(c, procs[1..])
  }

  lemma {:induction false} TotalLeftUpdate(c: Config, procs: seq<Process>, p: nat, proc: Process)
    requires p < |procs|
    ensures TotalLeft(c, procs[p := proc]) == TotalLeft(c, procs) - Left(c, procs[p].pc) + Left(c, proc.pc)
  {
    if p == 0 {
      assert procs[0 := proc][1..] == procs[1..];
    } else {
      assert procs[p := proc][1..] == procs[1..][p - 1 := proc];
      TotalLeftUpdate(c, procs[1..], p - 1, proc);
    }
  }

  /** A step changes its own process only, and leaves it fewer steps to take. */
  lemma StepSpends(c: Config, s: State, p: nat)
    requires Inv(c, s) && Enabled(s, p)
    ensures |StepOf(c, s, p).procs| == |s.procs|
    ensures StepOf(c, s, p).procs == s.procs[p := StepOf(c, s, p).procs[p]]
    ensures Left(c, StepOf(c, s, p).procs[p].pc) < Left(c, s.procs[p].pc)
  {
    assert ProcInv(c, s, p);
  }

  lemma FaultSpends(c: Config, s: State, p: nat, code: int)
    requires Running(s, p)
    ensures |FaultOf(s, p, code).procs| == |s.procs|
    ensures FaultOf(s, p, code).procs == s.procs[p := FaultOf(s, p, code).procs[p]]
    ensures Left(c, FaultOf(s, p, code).procs[p].pc) < Left(c, s.procs[p].pc)
  {
    var gaveUp := s.procs[p].(pc := Failed(Foreign(code)));
    assert FaultOf(s, p, code).procs == s.procs[p := gaveUp];
    assert Left(c, gaveUp.pc) == 0 < Left(c, s.procs[p].pc);
  }

  lemma StepDecreases(c: Config, s: State, s': State)
    requires Inv(c, s) && Next(c, s, s')
    ensures TotalLeft(c, s'.procs) < TotalLeft(c, s.procs)
  {
    var p: nat :| NextBy(c, s, s', p);
    if Enabled(s, p) && s' == StepOf(c, s, p) {
      StepSpends(c, s, p);
    } else {
      var code :| s' == FaultOf(s, p, code);
      FaultSpends(c, s, p, code);
    }
    TotalLeftUpdate(c, s.procs, p, s'.procs[p]);
  }

  lemma {:induction false} FreshTotal(c: Config, procs: seq<Process>)
    requires forall p :: 0 <= p < |procs| ==> procs[p].pc == Start
    ensures TotalLeft(c, procs) == |procs| * (3 * PeerCount(c) + 8)
  {
    if procs != [] {
      FreshTotal(c, procs[1..]);
      assert |procs| * (3 * PeerCount(c) + 8) == (|procs| - 1) * (3 * PeerCount(c) + 8) + (3 * PeerCount(c) + 8);
    }
  }

  /** Every interleaving is finite: at most `3 * PeerCount + 8` steps a process. */
  lemma {:induction false} RunsAreBounded(c: Config, run: seq<State>, i: nat)
    requires IsRun(c, run) && i < |run|
    ensures i + TotalLeft(c, run[i].procs) <= |c.own| * (3 * PeerCount(c) + 8)
  {
    if i == 0 {
      FreshTotal(c, run[0].procs);
    } else {
      RunsAreBounded(c, run, i - 1);
      RunInv(c, run, i - 1);
      assert Next(c, run[i - 1], run[i - 1 + 1]);
      StepDecreases(c, run[i - 1], run[i]);
    }
  }

  // ---- Runs in which no foreign call fails ----

  ghost predicate CleanStep(c: Config, s: State, s': State, p: nat) {
    |s.procs| == |s.committed| == |c.own| && Enabled(s, p) && s' == StepOf(c, s, p)
  }

  ghost predicate CleanNext(c: Config, s: State, s': State) {
    exists p: nat :: CleanStep(c, s, s', p)
  }

  ghost predicate CleanRun(c: Config, run: seq<State>) {
    && run != [] && Init(c, run[0])
    && forall i, j :: 0 <= i && i + 1 == j < |run| ==> CleanNext(c, run[i], run[j])
  }

  lemma CleanIsRun(c: Config, run: seq<State>)
    requires CleanRun(c, run)
    ensures IsRun(c, run)
  {
    forall i | 0 <= i < |run| - 1
      ensures Next(c, run[i], run[i + 1])
    {
      assert CleanNext(c, run[i], run[i + 1]);
      var p: nat :| CleanStep(c, run[i], run[i + 1], p);
      assert NextBy(c, run[i], run[i + 1], p);
    }
  }

  lemma {:induction false} CleanHasNoForeigner(c: Config, run: seq<State>, i: nat, q: nat)
    requires CleanRun(c, run) && i < |run|
    ensures !Foreigner(run[i], q)
  {
    if i > 0 {
      CleanHasNoForeigner(c, run, i - 1, q);
      CleanIsRun(c, run);
      RunInv(c, run, i - 1);
      RunProgress(c, run, i - 1);
      var s, s' := run[i - 1], run[i];
      assert CleanNext(c, s, s');
      var p: nat :| CleanStep(c, s, s', p);
      StepKeepsProgress(c, s, p);
    }
  }

  /** A run that cannot be continued. */
  ghost predicate Stuck(s: State) {
    forall p: nat :: !Enabled(s, p)
  }

  /** In a stuck state of a clean run everybody has entered the fence iff all could publish. */
  lemma StuckEntered(c: Config, s: State)
    requires Inv(c, s) && AllProgress(c, s) && Stuck(s) && c.size > 0
    requires forall q: nat :: !Foreigner(s, q)
    ensures AllEntered(s) <==> forall q :: 0 <= q < |c.own| ==> Publishes(c.own[q])
  {
    if AllEntered(s) {
      forall q | 0 <= q < |c.own|
        ensures Publishes(c.own[q])
      {
        assert Progress(c, s, q);
      }
    }
    if forall q :: 0 <= q < |c.own| ==> Publishes(c.own[q]) {
      forall q | 0 <= q < |c.own|
        ensures q in s.entered
      {
        assert ProcInv(c, s, q) && Progress(c, s, q) && !Enabled(s, q) && !Foreigner(s, q);
      }
    }
  }

  /** How the handshake ends when no foreign call fails, process by process: at a zero job
      size, at its own empty value, for ever in the fence behind another's, at the first peer whose data is
      missing or incomplete, or else with every peer recorded. */
  lemma CleanOutcome(c: Config, run: seq<State>, p: nat)
    requires CleanRun(c, run) && Stuck(run[|run| - 1]) && p < |c.own|
    ensures |run[|run| - 1].procs| == |c.own|
    ensures var proc := run[|run| - 1].procs[p];
            && (c.size == 0 ==> proc.pc == Failed(ZeroJobSize))
            && (c.size > 0 && !Publishes(c.own[p]) ==> proc.pc == Failed(EmptyValue))
            && (c.size > 0 && Publishes(c.own[p]) && (exists q :: 0 <= q < |c.own| && !Publishes(c.own[q])) ==>
                  proc.pc == InFence)
            && (c.size > 0 && (forall q :: 0 <= q < |c.own| ==> Publishes(c.own[q])) ==>
                  && (NoFaultBefore(c, PeerCount(c)) ==> proc.pc == Done && PeersUpTo(c, proc, PeerCount(c)))
                  && forall pe: nat, error :: FirstFault(c, pe, error) ==> proc.pc == Failed(error))
  {
    CleanIsRun(c, run);
    var s := run[|run| - 1];
    RunInv(c, run, |run| - 1);
    RunProgress(c, run, |run| - 1);
    forall q: nat
      ensures !Foreigner(s, q)
    {
      CleanHasNoForeigner(c, run, |run| - 1, q);
    }
    if c.size > 0 { StuckEntered(c, s); }
    assert ProcInv(c, s, p) && Progress(c, s, p) && !Enabled(s, p) && !Foreigner(s, p);
    var proc := s.procs[p];
    forall pe: nat, error | FirstFault(c, pe, error) && c.size > 0 && AllEntered(s)
      ensures proc.pc == Failed(error)
    {
      OneFirstFault(c, s, p, pe, error);
    }
  }

  lemma OneFirstFault(c: Config, s: State, p: nat, pe: nat, error: Error)
    requires p < |s.procs| == |c.own| && Progress(c, s, p) && !Enabled(s, p) && !Foreigner(s, p)
    requires FirstFault(c, pe, error) && c.size > 0 && AllEntered(s)
    ensures s.procs[p].pc == Failed(error)
  {
    if s.procs[p].pc.Failed? {
      var j: nat :| FirstFault(c, j, s.procs[p].pc.error);
      assert j == pe;
    }
  }

  /** Every clean run can be continued until it is stuck. */
  lemma {:induction false} RunToEnd(c: Config, run: seq<State>) returns (longer: seq<State>)
    requires CleanRun(c, run)
    ensures CleanRun(c, longer) && Stuck(longer[|longer| - 1])
    decreases TotalLeft(c, run[|run| - 1].procs)
  {
    var s := run[|run| - 1];
    if p: nat :| Enabled(s, p) {
      CleanIsRun(c, run);
      RunInv(c, run, |run| - 1);
      var s' := StepOf(c, s, p);
      assert NextBy(c, s, s', p);
      StepDecreases(c, s, s');
      Extend(c, run, p);
      longer := RunToEnd(c, run + [s']);
    } else {
      longer := run;
    }
  }

  lemma Extend(c: Config, run: seq<State>, p: nat)
    requires CleanRun(c, run) && Inv(c, run[|run| - 1]) && Enabled(run[|run| - 1], p)
    ensures CleanRun(c, run + [StepOf(c, run[|run| - 1], p)])
  {
    var s := run[|run| - 1];
    var s' := StepOf(c, s, p);
    var longer := run + [s'];
    forall i, j | 0 <= i && i + 1 == j < |longer|
      ensures CleanNext(c, longer[i], longer[j])
    {
      if i == |run| - 1 {
        assert CleanStep(c, s, s', p);
      } else {
        assert CleanNext(c, run[i], run[j]);
      }
    }
  }

  lemma CleanRunEnds(c: Config) returns (run: seq<State>)
    ensures CleanRun(c, run) && Stuck(run[|run| - 1])
  {
    var start := State(seq(|c.own|, _ => Process(Start, map[], map[], map[])), seq(|c.own|, _ => map[]), {});
    run := RunToEnd(c, [start]);
  }

  /** A process that is done at some point of `run`. */
  ghost predicate Finishes(c: Config, run: seq<State>, i: nat, p: nat) {
    IsRun(c, run) && i < |run| && p < |run[i].procs| && run[i].procs[p].pc.Done?
  }

  /** The handshake can finish, on any given process, if and only if there is a job, every process
      has an address and a key to publish, and the peers of the loop are complete. */
  lemma CanFinishIff(c: Config, p: nat)
    requires p < |c.own|
    ensures (exists run, i: nat :: Finishes(c, run, i, p)) <==>
              && c.size > 0 && (forall q :: 0 <= q < |c.own| ==> c.own[q].address != [] && c.own[q].rkey != [])
              && PeerCount(c) <= |c.own|
              && forall k: nat :: k < PeerCount(c) ==> |c.own[k].rkey| >= 4 && c.own[k].base != 0
  {
    if run, i: nat :| Finishes(c, run, i, p) {
      RunInv(c, run, i);
      RunProgress(c, run, i);
      FinishedMeans(c, run[i], p);
    }
    if && c.size > 0 && (forall q :: 0 <= q < |c.own| ==> Publishes(c.own[q]))
       && PeerCount(c) <= |c.own|
       && (forall k: nat :: k < PeerCount(c) ==> |c.own[k].rkey| >= 4 && c.own[k].base != 0)
    {
      var run := CleanRunEnds(c);
      assert forall k: nat :: k < PeerCount(c) ==> Publishes(c.own[k]);
      CleanOutcome(c, run, p);
      CleanIsRun(c, run);
      assert Finishes(c, run, |run| - 1, p);
    }
  }

  lemma FinishedMeans(c: Config, s: State, p: nat)
    requires Inv(c, s) && AllProgress(c, s) && p < |c.own| && s.procs[p].pc.Done?
    ensures c.size > 0 && forall q :: 0 <= q < |c.own| ==> Publishes(c.own[q])
    ensures PeerCount(c) <= |c.own| && forall k: nat :: k < PeerCount(c) ==> Complete(c.own[k])
  {
    assert ProcInv(c, s, p) && Progress(c, s, p);
    forall q | 0 <= q < |c.own|
      ensures Publishes(c.own[q])
    {
      assert Progress(c, s, q);
    }
    forall k: nat | k < PeerCount(c)
      ensures Complete(c.own[k])
    {
      assert OwnFault(c, k).None?;
    }
  }
}

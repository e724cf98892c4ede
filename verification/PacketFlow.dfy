/** What passes through the queues of the AF_XDP program: over every run, which descriptors,
    with their addresses and lengths, in which order, and where the addresses on the free
    stack, the Fill ring and the Completion ring come from. The histories are read off the
    states before and after each step. */
module PacketFlow {
  import SpscRing
  import opened Bits
  import opened FrameLifecycle
  import opened UmemFrames

  type Desc = SpscRing.PacketDesc

  /** What has been appended to a queue, or pushed on a stack. */
  function Grown<T(==)>(q: seq<T>, q': seq<T>): seq<T> {
    if q <= q' then q'[|q|..] else []
  }

  lemma Appended<T>(q: seq<T>, q': seq<T>, more: seq<T>)
    requires q' == q + more
    ensures Grown(q, q') == more
  {
  }

  lemma NotGrown<T>(q: seq<T>, q': seq<T>)
    requires |q'| <= |q|
    ensures Grown(q, q') == []
  {
  }

  // --------------------------------------------------------------- from the RX ring

  /** Descriptors the kernel has put into the RX ring, and those the worker has taken. */
  datatype RxLog = RxLog(entered: seq<Desc>, taken: seq<Desc>)

  function WatchRx(log: RxLog, s: System, s': System): RxLog {
    RxLog(log.entered + Grown(s.rx, s'.rx),
          log.taken + if s.worker.Waiting? && s'.worker.Holding? then [s'.worker.desc] else [])
  }

  function RxHistory(prefilled: bool, schedule: seq<Step>): RxLog {
    if schedule == [] then RxLog([], [])
    else
      var before := schedule[..|schedule| - 1];
      WatchRx(RxHistory(prefilled, before), Run(prefilled, before), Run(prefilled, schedule))
  }

  /** The part of a peeked batch that has not been handed on. */
  function Batch(io: Io): seq<Desc> { if io.Receiving? then io.batch else [] }

  ghost predicate RxFlows(log: RxLog, s: System) {
    log.entered == log.taken + s.rxRing + Batch(s.io) + s.rx
  }

  /** The packet the worker works on. */
  function Source(worker: Worker): Desc
    requires !worker.Waiting?
  {
    match worker case Holding(desc) => desc case Borrowing(source) => source case Querying(_, source) => source
  }

  /** It is the last one the worker took. */
  ghost predicate WorksOnLast(log: RxLog, worker: Worker) {
    !worker.Waiting? ==> log.taken != [] && Source(worker) == log.taken[|log.taken| - 1]
  }

  /** What the steps have to keep. */
  ghost predicate RxKept(log: RxLog, s: System, s': System) {
    RxFlows(WatchRx(log, s, s'), s') && WorksOnLast(WatchRx(log, s, s'), s'.worker)
  }

  lemma NothingTaken(log: RxLog, s: System, s': System)
    requires Grown(s.rx, s'.rx) == [] && !(s.worker.Waiting? && s'.worker.Holding?)
    ensures WatchRx(log, s, s') == log
  {
    assert log.entered + [] == log.entered && log.taken + [] == log.taken;
  }

  lemma KernelRxFlow(log: RxLog, s: System, step: KernelMove)
    requires RxFlows(log, s) && WorksOnLast(log, s.worker)
    ensures RxKept(log, s, KernelNext(s, step))
  {
    var s' := KernelNext(s, step);
    if s'.rx == s.rx {
      NotGrown(s.rx, s'.rx);
      NothingTaken(log, s, s');
    } else {
      Appended(s.rx, s'.rx, [step.desc]);
      assert log.taken + [] == log.taken;
    }
  }

  lemma IoRxFlow(log: RxLog, s: System, step: IoMove)
    requires Inv(s) && RxFlows(log, s) && WorksOnLast(log, s.worker)
    ensures RxKept(log, s, IoNext(s, step))
  {
    NotGrown(s.rx, IoNext(s, step).rx);
    NothingTaken(log, s, IoNext(s, step));
    match step
    case PeekRx(n) => PeekRxFlow(log, s, n);
    case HandOn => HandOnFlow(log, s);
    case _ =>
  }

  lemma PeekRxFlow(log: RxLog, s: System, n: nat)
    requires RxFlows(log, s)
    ensures RxFlows(log, PeekRxStep(s, n))
  {
    if s.io.Top? && 0 < n <= |s.rx| {
      Regroup(log.taken + s.rxRing, s.rx[..n], s.rx[n..]);
      assert s.rx[..n] + s.rx[n..] == s.rx;
      assert log.taken + s.rxRing + [] == log.taken + s.rxRing;
    }
  }

  lemma HandOnFlow(log: RxLog, s: System)
    requires Inv(s) && RxFlows(log, s)
    ensures RxFlows(log, HandOnStep(s))
  {
    if s.io.Receiving? && s.io.batch != [] {
      InHandMeansRoom(s);
      FirstMoves(log.taken + s.rxRing, s.io.batch);
      assert log.taken + (s.rxRing + [s.io.batch[0]]) == log.taken + s.rxRing + [s.io.batch[0]];
    }
  }

  lemma Regroup<T>(a: seq<T>, b: seq<T>, c: seq<T>)
    ensures a + (b + c) == a + b + c
  {
  }

  lemma FirstMoves<T>(q: seq<T>, more: seq<T>)
    requires more != []
    ensures q + [more[0]] + more[1..] == q + more
  {
  }

  lemma WorkerRxFlow(log: RxLog, s: System, step: WorkerMove)
    requires RxFlows(log, s) && WorksOnLast(log, s.worker)
    ensures RxKept(log, s, WorkerNext(s, step))
  {
    var s' := WorkerNext(s, step);
    NotGrown(s.rx, s'.rx);
    if step.PopRx? && s.worker.Waiting? && s.rxRing != [] {
      TakenFlow(log, s, s');
    } else {
      NothingTaken(log, s, s');
      assert !s'.worker.Waiting? ==> Source(s'.worker) == Source(s.worker);
    }
  }

  lemma TakenFlow(log: RxLog, s: System, s': System)
    requires RxFlows(log, s) && s.rxRing != [] && s.worker.Waiting? && s'.rx == s.rx
    requires s'.worker == Holding(s.rxRing[0]) && s'.rxRing == s.rxRing[1..] && Batch(s'.io) == Batch(s.io)
    ensures RxKept(log, s, s')
  {
    NotGrown(s.rx, s'.rx);
    FirstMoves(log.taken, s.rxRing);
    assert log.entered + [] == log.entered;
  }

  // ------------------------------------------------------------------ to the TX ring

  /** Descriptors the worker has pushed on tx_ring, the answers to the IO thread's reserves
      for them, descriptors that have entered the TX ring, and addresses freed instead. */
  datatype TxLog = TxLog(pushed: seq<Desc>, reserved: seq<bool>, sent: seq<Desc>, freed: seq<u64>)

  function WatchTx(log: TxLog, s: System, step: Step, s': System): TxLog {
    var sending := s.io.Sending? && step.ByIo?;
    TxLog(log.pushed + Grown(s.txRing, s'.txRing),
          log.reserved + (if sending && step.io.Submit? then [step.io.reserved] else []),
          log.sent + Grown(s.tx, s'.tx),
          log.freed + if sending then Grown(s.free, s'.free) else [])
  }

  function TxHistory(prefilled: bool, schedule: seq<Step>): TxLog {
    if schedule == [] then TxLog([], [], [], [])
    else
      var (before, last) := (schedule[..|schedule| - 1], schedule[|schedule| - 1]);
      WatchTx(TxHistory(prefilled, before), Run(prefilled, before), last, Run(prefilled, schedule))
  }

  /** Those descriptors whose flag is `b`, in order. */
  function Chosen(descs: seq<Desc>, flags: seq<bool>, b: bool): seq<Desc>
    requires |descs| == |flags|
  {
    if flags == [] then []
    else
      var k := |flags| - 1;
      Chosen(descs[..k], flags[..k], b) + if flags[k] == b then [descs[k]] else []
  }

  lemma ChosenMore(descs: seq<Desc>, flags: seq<bool>, desc: Desc, flag: bool, b: bool)
    requires |descs| == |flags|
    ensures Chosen(descs + [desc], flags + [flag], b) == Chosen(descs, flags, b) + if flag == b then [desc] else []
  {
    assert (descs + [desc])[..|flags|] == descs && (flags + [flag])[..|flags|] == flags;
  }

  function InSending(io: Io): seq<Desc> { if io.Sending? then [io.desc] else [] }

  ghost predicate TxFlows(log: TxLog, s: System) {
    var n := |log.reserved|;
    && n <= |log.pushed|
    && log.pushed[n..] == InSending(s.io) + s.txRing
    && log.sent == Chosen(log.pushed[..n], log.reserved, true)
    && log.freed == Addrs(Chosen(log.pushed[..n], log.reserved, false))
  }

  lemma NothingSent(log: TxLog, s: System, step: Step, s': System)
    requires Grown(s.txRing, s'.txRing) == [] && Grown(s.tx, s'.tx) == []
    requires s.io.Sending? && step.ByIo? ==> !step.io.Submit? && Grown(s.free, s'.free) == []
    ensures WatchTx(log, s, step, s') == log
  {
    assert log.pushed + [] == log.pushed && log.reserved + [] == log.reserved;
    assert log.sent + [] == log.sent && log.freed + [] == log.freed;
  }

  lemma KernelTxFlow(log: TxLog, s: System, step: KernelMove)
    requires TxFlows(log, s)
    ensures var s' := KernelNext(s, step); TxFlows(WatchTx(log, s, ByKernel(step), s'), s')
  {
    NotGrown(s.tx, KernelNext(s, step).tx);
    NotGrown(s.txRing, KernelNext(s, step).txRing);
    NothingSent(log, s, ByKernel(step), KernelNext(s, step));
  }

  /** One descriptor is decided. */
  lemma Decided(log: TxLog, desc: Desc, rest: seq<Desc>, flag: bool)
    requires |log.reserved| <= |log.pushed| && log.pushed[|log.reserved|..] == [desc] + rest
    ensures var n := |log.reserved| + 1;
            && n <= |log.pushed| && log.pushed[n..] == rest
            && forall b :: Chosen(log.pushed[..n], log.reserved + [flag], b) ==
                           Chosen(log.pushed[..n - 1], log.reserved, b) + if flag == b then [desc] else []
  {
    var n := |log.reserved|;
    assert log.pushed[n] == log.pushed[n..][0] == desc;
    assert log.pushed[..n + 1] == log.pushed[..n] + [desc];
    assert log.pushed[n + 1..] == log.pushed[n..][1..];
    forall b ensures Chosen(log.pushed[..n + 1], log.reserved + [flag], b) ==
                     Chosen(log.pushed[..n], log.reserved, b) + if flag == b then [desc] else []
    {
      ChosenMore(log.pushed[..n], log.reserved, desc, flag, b);
    }
  }

  lemma IoTxFlow(log: TxLog, s: System, step: IoMove)
    requires Inv(s) && TxFlows(log, s)
    ensures var s' := IoNext(s, step); TxFlows(WatchTx(log, s, ByIo(step), s'), s')
  {
    match step
    case Submit(reserved) =>
      if s.io.Sending? { SubmitFlow(log, s, reserved); } else { IdleFlow(log, s, step); }
    case PopTx => PopTxFlow(log, s);
    case _ => IdleFlow(log, s, step);
  }

  /** Every other step leaves the transmit side alone. */
  lemma IdleFlow(log: TxLog, s: System, step: IoMove)
    requires TxFlows(log, s) && !step.PopTx? && !(step.Submit? && s.io.Sending?)
    ensures var s' := IoNext(s, step); TxFlows(WatchTx(log, s, ByIo(step), s'), s')
  {
    var s' := IoNext(s, step);
    TransmitSideKept(s, step);
    NotGrown(s.txRing, s'.txRing);
    NotGrown(s.tx, s'.tx);
    NotGrown(s.free, s.free);
    NothingSent(log, s, ByIo(step), s');
  }

  lemma TransmitSideKept(s: System, step: IoMove)
    requires !step.PopTx? && !(step.Submit? && s.io.Sending?)
    ensures var s' := IoNext(s, step);
            && s'.txRing == s.txRing && s'.tx == s.tx && InSending(s'.io) == InSending(s.io)
            && (s.io.Sending? ==> s' == s)
  {
  }

  lemma PopTxFlow(log: TxLog, s: System)
    requires TxFlows(log, s)
    ensures var s' := PopTxStep(s); TxFlows(WatchTx(log, s, ByIo(PopTx), s'), s')
  {
    var s' := PopTxStep(s);
    NotGrown(s.txRing, s'.txRing);
    NotGrown(s.tx, s'.tx);
    NotGrown(s.free, s'.free);
    NothingSent(log, s, ByIo(PopTx), s');
    if s.io.Draining? && s.txRing != [] {
      assert [] + s.txRing == [s.txRing[0]] + s.txRing[1..];
    }
  }

  lemma SubmitFlow(log: TxLog, s: System, reserved: bool)
    requires Inv(s) && TxFlows(log, s) && s.io.Sending?
    ensures var s' := SubmitStep(s, Submit(reserved)); TxFlows(WatchTx(log, s, ByIo(Submit(reserved)), s'), s')
  {
    var s' := SubmitStep(s, Submit(reserved));
    var desc := s.io.desc;
    NotGrown(s.txRing, s.txRing);
    assert log.pushed + [] == log.pushed && log.sent + [] == log.sent && log.freed + [] == log.freed;
    if reserved {
      Appended(s.tx, s'.tx, [desc]);
      NotGrown(s.free, s'.free);
      assert WatchTx(log, s, ByIo(Submit(true)), s') == DecidedLog(log, desc, true);
    } else {
      InHandMeansRoom(s);
      NotGrown(s.tx, s'.tx);
      Appended(s.free, s'.free, [desc.addr]);
      assert WatchTx(log, s, ByIo(Submit(false)), s') == DecidedLog(log, desc, false);
    }
    DecidedFlows(log, s, desc, reserved, s');
  }

  /** The history when the reserve for `desc` has been answered. */
  function DecidedLog(log: TxLog, desc: Desc, reserved: bool): TxLog {
    TxLog(log.pushed, log.reserved + [reserved], if reserved then log.sent + [desc] else log.sent,
          if reserved then log.freed else log.freed + [desc.addr])
  }

  lemma DecidedFlows(log: TxLog, s: System, desc: Desc, reserved: bool, s': System)
    requires TxFlows(log, s) && s.io == Sending(desc) && s'.txRing == s.txRing && !s'.io.Sending?
    ensures TxFlows(DecidedLog(log, desc, reserved), s')
  {
    Decided(log, desc, s.txRing, reserved);
    assert [] + s.txRing == s.txRing;
    if !reserved { AddrsMore(Chosen(log.pushed[..|log.reserved|], log.reserved, false), desc); }
    assert Chosen(log.pushed[..|log.reserved|], log.reserved, true) + [] == log.sent;
    var no := Chosen(log.pushed[..|log.reserved|], log.reserved, false);
    assert no + [] == no;
  }

  lemma AddrsMore(descs: seq<Desc>, desc: Desc)
    ensures Addrs(descs + [desc]) == Addrs(descs) + [desc.addr]
  {
  }

  lemma WorkerTxFlow(log: TxLog, s: System, step: WorkerMove)
    requires Inv(s) && TxFlows(log, s)
    ensures var s' := WorkerNext(s, step); TxFlows(WatchTx(log, s, ByWorker(step), s'), s')
  {
    var s' := WorkerNext(s, step);
    NotGrown(s.tx, s'.tx);
    WorkerPushes(s, step);
    Appended(s.txRing, s'.txRing, Written(s, step));
    MorePushed(log, WatchTx(log, s, ByWorker(step), s'), s.txRing, Written(s, step), InSending(s.io));
  }

  lemma MorePushed(log: TxLog, log': TxLog, q: seq<Desc>, more: seq<Desc>, sending: seq<Desc>)
    requires |log.reserved| <= |log.pushed| && log.pushed[|log.reserved|..] == sending + q
    requires log'.pushed == log.pushed + more && log'.reserved == log.reserved + []
    ensures log'.reserved == log.reserved
    ensures log'.pushed[..|log.reserved|] == log.pushed[..|log.reserved|]
    ensures log'.pushed[|log.reserved|..] == sending + (q + more)
  {
  }

  /** What a move of the worker sends: its packet with a new length, its packet as it is, or
      the borrowed frame. */
  function Written(s: System, step: WorkerMove): seq<Desc> {
    match step
    case Reply(len) => if s.worker.Holding? then [SpscRing.PacketDesc(s.worker.desc.addr, len)] else []
    case ReplyAndBorrow => if s.worker.Holding? then [s.worker.desc] else []
    case Query(len) => if s.worker.Querying? then [SpscRing.PacketDesc(s.worker.addr, len)] else []
    case _ => []
  }

  lemma WorkerPushes(s: System, step: WorkerMove)
    requires Inv(s)
    ensures WorkerNext(s, step).txRing == s.txRing + Written(s, step)
  {
    InHandMeansRoom(s);
  }

  // -------------------------------------------------- completions and the Fill ring

  /** Addresses the kernel has put on the Completion ring, and those freed from it; and
      addresses taken off the stack by a refill, and those submitted to the Fill ring. */
  datatype FrameLog = FrameLog(completed: seq<u64>, reaped: seq<u64>, taken: seq<u64>, filled: seq<u64>)

  function WatchFrames(log: FrameLog, s: System, step: Step, s': System): FrameLog {
    FrameLog(log.completed + Grown(s.completion, s'.completion),
             log.reaped + (if s.io.Completing? && step.ByIo? then Grown(s.free, s'.free) else []),
             log.taken + (if s.io.Refilling? && step.ByIo? then Grown(s'.free, s.free) else []),
             log.filled + Grown(s.fill, s'.fill))
  }

  function FrameHistory(prefilled: bool, schedule: seq<Step>): FrameLog {
    if schedule == [] then FrameLog([], [], [], [])
    else
      var (before, last) := (schedule[..|schedule| - 1], schedule[|schedule| - 1]);
      WatchFrames(FrameHistory(prefilled, before), Run(prefilled, before), last, Run(prefilled, schedule))
  }

  function Unreaped(io: Io): seq<u64> { if io.Completing? then io.frames else [] }

  function Staged(io: Io): seq<u64> { if io.Refilling? then io.staged else [] }

  ghost predicate FramesFlow(log: FrameLog, s: System) {
    && log.completed == log.reaped + Unreaped(s.io) + s.completion
    && log.taken == log.filled + Staged(s.io)
  }

  lemma NothingMoved(log: FrameLog, s: System, step: Step, s': System)
    requires Grown(s.completion, s'.completion) == [] && Grown(s.fill, s'.fill) == []
    requires s.io.Completing? && step.ByIo? ==> Grown(s.free, s'.free) == []
    requires s.io.Refilling? && step.ByIo? ==> Grown(s'.free, s.free) == []
    ensures WatchFrames(log, s, step, s') == log
  {
    assert log.completed + [] == log.completed && log.reaped + [] == log.reaped;
    assert log.taken + [] == log.taken && log.filled + [] == log.filled;
  }

  lemma KernelFramesFlow(log: FrameLog, s: System, step: KernelMove)
    requires FramesFlow(log, s)
    ensures var s' := KernelNext(s, step); FramesFlow(WatchFrames(log, s, ByKernel(step), s'), s')
  {
    var s' := KernelNext(s, step);
    NotGrown(s.fill, s'.fill);
    if s'.completion == s.completion {
      NotGrown(s.completion, s'.completion);
      NothingMoved(log, s, ByKernel(step), s');
    } else {
      Appended(s.completion, s'.completion, [step.addr]);
      assert log.reaped + [] == log.reaped && log.taken + [] == log.taken && log.filled + [] == log.filled;
    }
  }

  lemma WorkerFramesFlow(log: FrameLog, s: System, step: WorkerMove)
    requires FramesFlow(log, s)
    ensures var s' := WorkerNext(s, step); FramesFlow(WatchFrames(log, s, ByWorker(step), s'), s')
  {
    var s' := WorkerNext(s, step);
    NotGrown(s.fill, s'.fill);
    NotGrown(s.completion, s'.completion);
    NothingMoved(log, s, ByWorker(step), s');
  }

  lemma IoFramesFlow(log: FrameLog, s: System, step: IoMove)
    requires Inv(s) && FramesFlow(log, s)
    ensures var s' := IoNext(s, step); FramesFlow(WatchFrames(log, s, ByIo(step), s'), s')
  {
    match step
    case PeekCompletion(n) => PeekFlow(log, s, n);
    case FreeCompleted => ReapFlow(log, s);
    case Refill => RefillFlow(log, s);
    case CheckRefill(reserved) => RestFlow(log, s, step);
    case _ => RestFlow(log, s, step);
  }

  lemma RestFlow(log: FrameLog, s: System, step: IoMove)
    requires FramesFlow(log, s) && !step.PeekCompletion? && !step.FreeCompleted? && !step.Refill?
    ensures var s' := IoNext(s, step); FramesFlow(WatchFrames(log, s, ByIo(step), s'), s')
  {
    var s' := IoNext(s, step);
    RingsKept(s, step);
    NotGrown(s.fill, s'.fill);
    NotGrown(s.completion, s'.completion);
    NotGrown(s.free, s.free);
    NothingMoved(log, s, ByIo(step), s');
  }

  lemma RingsKept(s: System, step: IoMove)
    requires !step.PeekCompletion? && !step.FreeCompleted? && !step.Refill?
    ensures var s' := IoNext(s, step);
            && s'.fill == s.fill && s'.completion == s.completion
            && Unreaped(s'.io) == Unreaped(s.io) && Staged(s'.io) == Staged(s.io)
            && (s.io.Completing? || s.io.Refilling? ==> s' == s)
  {
  }

  lemma PeekFlow(log: FrameLog, s: System, n: nat)
    requires FramesFlow(log, s)
    ensures var s' := PeekCompletionStep(s, n); FramesFlow(WatchFrames(log, s, ByIo(PeekCompletion(n)), s'), s')
  {
    var s' := PeekCompletionStep(s, n);
    NotGrown(s.fill, s'.fill);
    NotGrown(s.completion, s'.completion);
    NotGrown(s.free, s.free);
    NothingMoved(log, s, ByIo(PeekCompletion(n)), s');
    if s'.io.Completing? && s.io.Reaping? {
      assert s.completion[..n] + s.completion[n..] == s.completion;
      Regroup(log.reaped, s.completion[..n], s.completion[n..]);
      assert log.reaped + [] == log.reaped;
    }
  }

  lemma ReapFlow(log: FrameLog, s: System)
    requires Inv(s) && FramesFlow(log, s)
    ensures var s' := FreeCompletedStep(s); FramesFlow(WatchFrames(log, s, ByIo(FreeCompleted), s'), s')
  {
    var s' := FreeCompletedStep(s);
    NotGrown(s.fill, s.fill);
    NotGrown(s.completion, s.completion);
    if s.io.Completing? && s.io.frames != [] {
      InHandMeansRoom(s);
      Appended(s.free, s'.free, [s.io.frames[0]]);
      FirstMoves(log.reaped, s.io.frames);
      assert log.completed + [] == log.completed && log.taken + [] == log.taken && log.filled + [] == log.filled;
    } else {
      NotGrown(s.free, s'.free);
      NothingMoved(log, s, ByIo(FreeCompleted), s');
    }
  }

  lemma RefillFlow(log: FrameLog, s: System)
    requires Inv(s) && FramesFlow(log, s)
    ensures var s' := RefillStep(s, Refill); FramesFlow(WatchFrames(log, s, ByIo(Refill), s'), s')
  {
    var s' := RefillStep(s, Refill);
    NotGrown(s.completion, s'.completion);
    assert log.completed + [] == log.completed && log.reaped + [] == log.reaped;
    if !s.io.Refilling? || s.io.left == 0 {
      Appended(s.fill, s'.fill, Staged(s.io));
      NotGrown(s'.free, s.free);
      assert log.taken + [] == log.taken;
    } else {
      var (stack, addr) := Alloc(s.free);
      Appended(stack, s.free, [addr]);
      NotGrown(s.fill, s'.fill);
      assert log.filled + [] == log.filled;
      Regroup(log.filled, s.io.staged, [addr]);
    }
  }

  // ------------------------------------------------------------------ main theorems

  lemma RxStep(log: RxLog, s: System, step: Step)
    requires Inv(s) && RxFlows(log, s) && WorksOnLast(log, s.worker)
    ensures RxKept(log, s, Next(s, step))
  {
    match step
    case ByKernel(kernel) => KernelRxFlow(log, s, kernel);
    case ByIo(io) => IoRxFlow(log, s, io);
    case ByWorker(worker) => WorkerRxFlow(log, s, worker);
  }

  /** The receive chain, over every run: what the kernel has put into the RX ring is, address
      and length, in order, what the worker has taken, then what waits in rx_ring, in the batch
      at hand and in the RX ring. The packet the worker works on is the last one it took. */
  lemma {:induction false} ReceivedInOrder(prefilled: bool, schedule: seq<Step>)
    ensures var (log, s) := (RxHistory(prefilled, schedule), Run(prefilled, schedule));
            && log.entered == log.taken + s.rxRing + (if s.io.Receiving? then s.io.batch else []) + s.rx
            && (!s.worker.Waiting? ==> log.taken != [] && Source(s.worker) == log.taken[|log.taken| - 1])
  {
    if schedule != [] {
      var before := schedule[..|schedule| - 1];
      ReceivedInOrder(prefilled, before);
      RunKeepsInv(prefilled, before);
      RxStep(RxHistory(prefilled, before), Run(prefilled, before), schedule[|schedule| - 1]);
    }
  }

  lemma TxStep(log: TxLog, s: System, step: Step)
    requires Inv(s) && TxFlows(log, s)
    ensures TxFlows(WatchTx(log, s, step, Next(s, step)), Next(s, step))
  {
    match step
    case ByKernel(kernel) => KernelTxFlow(log, s, kernel);
    case ByIo(io) => IoTxFlow(log, s, io);
    case ByWorker(worker) => WorkerTxFlow(log, s, worker);
  }

  /** The transmit chain, over every run: of what the worker has pushed on tx_ring, the first n
      descriptors have been decided, one for each reserve the IO thread made. The TX ring got,
      address and length, in order, exactly those whose reserve succeeded, and the addresses of
      the others were freed in order. The rest is in the IO thread's hand and in tx_ring. */
  lemma {:induction false} SentInOrder(prefilled: bool, schedule: seq<Step>)
    ensures var (log, s) := (TxHistory(prefilled, schedule), Run(prefilled, schedule));
            var n := |log.reserved|;
            && n <= |log.pushed|
            && log.sent == Chosen(log.pushed[..n], log.reserved, true)
            && log.freed == Addrs(Chosen(log.pushed[..n], log.reserved, false))
            && log.pushed[n..] == (if s.io.Sending? then [s.io.desc] else []) + s.txRing
  {
    if schedule != [] {
      var before := schedule[..|schedule| - 1];
      SentInOrder(prefilled, before);
      RunKeepsInv(prefilled, before);
      TxStep(TxHistory(prefilled, before), Run(prefilled, before), schedule[|schedule| - 1]);
    }
  }

  lemma FrameStep(log: FrameLog, s: System, step: Step)
    requires Inv(s) && FramesFlow(log, s)
    ensures FramesFlow(WatchFrames(log, s, step, Next(s, step)), Next(s, step))
  {
    match step
    case ByKernel(kernel) => KernelFramesFlow(log, s, kernel);
    case ByIo(io) => IoFramesFlow(log, s, io);
    case ByWorker(worker) => WorkerFramesFlow(log, s, worker);
  }

  /** The two other rings, over every run: what the kernel has completed is what was freed, then
      what waits to be; and what refills have taken off the stack is what they have submitted to
      the Fill ring, then what is staged. */
  lemma {:induction false} FramesInOrder(prefilled: bool, schedule: seq<Step>)
    ensures var (log, s) := (FrameHistory(prefilled, schedule), Run(prefilled, schedule));
            && log.completed == log.reaped + (if s.io.Completing? then s.io.frames else []) + s.completion
            && log.taken == log.filled + (if s.io.Refilling? then s.io.staged else [])
  {
    if schedule != [] {
      var before := schedule[..|schedule| - 1];
      FramesInOrder(prefilled, before);
      RunKeepsInv(prefilled, before);
      FrameStep(FrameHistory(prefilled, before), Run(prefilled, before), schedule[|schedule| - 1]);
    }
  }

  lemma OneStep(prefilled: bool, schedule: seq<Step>, step: Step)
    ensures Run(prefilled, schedule + [step]) == Next(Run(prefilled, schedule), step)
  {
    assert (schedule + [step])[..|schedule + [step]| - 1] == schedule;
  }

  /** What a step of a run adds to the RX ring and to tx_ring: the descriptor the kernel delivers
      in a chunk it was given; and the worker's packet with the length of its answer, its packet
      as it was received, or the frame it borrowed with the length of its query. */
  lemma WhatEnters(prefilled: bool, schedule: seq<Step>, step: Step)
    ensures var (s, s') := (Run(prefilled, schedule), Run(prefilled, schedule + [step]));
            && Grown(s.rx, s'.rx) == (
                 match step
                 case ByKernel(Deliver(i, desc)) =>
                   if i < |s.kernelRx| && desc.addr / 2048 == s.kernelRx[i] / 2048 then [desc] else []
                 case _ => [])
            && Grown(s.txRing, s'.txRing) == (
                 match step
                 case ByWorker(Reply(len)) =>
                   if s.worker.Holding? then [SpscRing.PacketDesc(s.worker.desc.addr, len)] else []
                 case ByWorker(ReplyAndBorrow) => if s.worker.Holding? then [s.worker.desc] else []
                 case ByWorker(Query(len)) =>
                   if s.worker.Querying? then [SpscRing.PacketDesc(s.worker.addr, len)] else []
                 case _ => [])
  {
    OneStep(prefilled, schedule, step);
    RunKeepsInv(prefilled, schedule);
    StepEnters(Run(prefilled, schedule), step);
  }

  lemma StepEnters(s: System, step: Step)
    requires Inv(s)
    ensures Grown(s.rx, Next(s, step).rx) == match step
            case ByKernel(Deliver(i, desc)) =>
              if i < |s.kernelRx| && desc.addr / 2048 == s.kernelRx[i] / 2048 then [desc] else []
            case _ => []
    ensures Grown(s.txRing, Next(s, step).txRing) == match step case ByWorker(move) => Written(s, move) case _ => []
  {
    match step
    case ByKernel(kernel) =>
      NotGrown(s.txRing, s.txRing);
      if KernelNext(s, kernel).rx != s.rx { Appended(s.rx, s.rx + [kernel.desc], [kernel.desc]); }
    case ByIo(io) =>
      NotGrown(s.rx, IoNext(s, io).rx);
      NotGrown(s.txRing, IoNext(s, io).txRing);
    case ByWorker(worker) =>
      NotGrown(s.rx, s.rx);
      WorkerPushes(s, worker);
      Appended(s.txRing, WorkerNext(s, worker).txRing, Written(s, worker));
  }

  /** The stack lost its top, and that is the last of `frames`. */
  predicate TakenFor(s: System, s': System, frames: seq<u64>) {
    frames != [] && s.free == s'.free + [frames[|frames| - 1]]
  }

  /** The stack is as it was; or its top has gone to the Fill ring or to the worker's query; or
      on it is the address of a packet that could not be sent, of a completed one, or of one the
      worker has discarded. */
  predicate StackMoved(s: System, s': System) {
    || s'.free == s.free
    || (s.io.Refilling? && s'.io.Refilling? && TakenFor(s, s', s'.io.staged) &&
        s'.io.staged[..|s'.io.staged| - 1] == s.io.staged)
    || (s.worker.Borrowing? && s'.worker.Querying? && TakenFor(s, s', [s'.worker.addr]))
    || (s.io.Sending? && s'.free == s.free + [s.io.desc.addr])
    || (s.io.Completing? && s.io.frames != [] && s'.free == s.free + [s.io.frames[0]])
    || (s.worker.Holding? && s'.worker.Waiting? && s'.free == s.free + [s.worker.desc.addr])
  }

  /** No step of a run does anything else to the free stack. */
  lemma FreeStackMoves(prefilled: bool, schedule: seq<Step>, step: Step)
    ensures StackMoved(Run(prefilled, schedule), Run(prefilled, schedule + [step]))
  {
    OneStep(prefilled, schedule, step);
    RunKeepsInv(prefilled, schedule);
    match step
    case ByKernel(kernel) =>
    case ByIo(io) => IoStack(Run(prefilled, schedule), io);
    case ByWorker(worker) => WorkerStack(Run(prefilled, schedule), worker);
  }

  lemma IoStack(s: System, io: IoMove)
    requires Inv(s)
    ensures StackMoved(s, IoNext(s, io))
  {
    InHandMeansRoom(s);
    match io
    case Refill => RefillStack(s);
    case HandOn => HandOnStack(s);
    case Submit(_) =>
    case FreeCompleted =>
    case _ =>
      assert IoNext(s, io).free == s.free;
  }

  lemma RefillStack(s: System)
    requires Inv(s)
    ensures StackMoved(s, RefillStep(s, Refill))
  {
    if s.io.Refilling? && s.io.left > 0 {
      var (stack, addr) := Alloc(s.free);
      assert s.free == stack + [addr];
      assert (s.io.staged + [addr])[..|s.io.staged|] == s.io.staged;
    }
  }

  lemma HandOnStack(s: System)
    requires Inv(s)
    ensures HandOnStep(s).free == s.free
  {
    InHandMeansRoom(s);
  }

  lemma WorkerStack(s: System, worker: WorkerMove)
    requires Inv(s)
    ensures StackMoved(s, WorkerNext(s, worker))
  {
    InHandMeansRoom(s);
    match worker
    case Borrow => BorrowStack(s);
    case Discard =>
    case _ =>
      assert WorkerNext(s, worker).free == s.free;
  }

  lemma BorrowStack(s: System)
    requires Inv(s)
    ensures StackMoved(s, BorrowStep(s))
  {
    if s.worker.Borrowing? && s.free != [] {
      AllocIsFresh(s);
      var (stack, addr) := Alloc(s.free);
      assert s.free == stack + [addr];
    }
  }

  /** What a move of the worker does: it takes the oldest packet of rx_ring; answers it and
      waits; answers it and goes on to borrow; gets the top of the free stack for its query, or
      gives the query up if there is none; sends the query; or discards the packet. A second
      loan during one refill waits for its end. */
  predicate WorkerDid(s: System, move: WorkerMove, s': System) {
    match move
    case PopRx =>
      s.worker.Waiting? && s.rxRing != [] ==> s'.worker == Holding(s.rxRing[0]) && s'.rxRing == s.rxRing[1..]
    case Reply(_) => s.worker.Holding? ==> s'.worker == Waiting
    case ReplyAndBorrow => s.worker.Holding? ==> s'.worker == Borrowing(s.worker.desc)
    case Borrow =>
      s.worker.Borrowing? && !(s.io.Refilling? && s.io.lent) ==>
        if s.free == [] then s'.worker == Waiting
        else s'.worker == Querying(s.free[|s.free| - 1], s.worker.source) && s'.free == s.free[..|s.free| - 1]
    case Query(_) => s.worker.Querying? ==> s'.worker == Waiting
    case Discard => s.worker.Holding? ==> s'.worker == Waiting && s'.free == s.free + [s.worker.desc.addr]
  }

  lemma WorkerDoes(prefilled: bool, schedule: seq<Step>, move: WorkerMove)
    ensures WorkerDid(Run(prefilled, schedule), move, Run(prefilled, schedule + [ByWorker(move)]))
  {
    OneStep(prefilled, schedule, ByWorker(move));
    RunKeepsInv(prefilled, schedule);
    WorkerStep(Run(prefilled, schedule), move);
  }

  lemma WorkerStep(s: System, move: WorkerMove)
    requires Inv(s)
    ensures WorkerDid(s, move, WorkerNext(s, move))
  {
    InHandMeansRoom(s);
    if move.Borrow? && s.free != [] { AllocIsFresh(s); }
  }
}

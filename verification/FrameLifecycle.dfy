/** The life cycle of UMEM frames between the IO thread, the worker thread and the
    kernel. Frames circulate: free stack, Fill ring, kernel, RX ring, rx_ring, worker,
    tx_ring, TX ring, kernel, Completion ring, free stack.

    The kernel is an environment that moves only frames it was given, and keeps each in
    its chunk. Two assumptions are built into the steps: every alloc or free call is one
    atomic step, and the worker allocates at most once while the IO thread refills, which
    is all the refill's guard tolerates (see UmemFrames for what happens otherwise). A ring
    operation is one queue operation, which SpscRing.Linearizable justifies. */
module FrameLifecycle {
  import opened Bits
  import opened SpscRing
  import opened UmemFrames
  import opened Wrappers

  const BATCH: nat := 32

  /** libxdp's XSK_RING_PROD__DEFAULT_NUM_DESCS. */
  const DEFAULT_NUM_DESCS: nat := 2048

  /** Program points of io_thread_func, with the frames the thread holds there. `lent` says
      whether the worker has allocated since this refill began. */
  datatype Io =
    | Top
    | Receiving(batch: seq<PacketDesc>)             // peeked, not yet handed on
    | Received                                      // about to read umem_frame_free
    | Refilling(left: nat, staged: seq<u64>, lent: bool)  // written to the Fill ring, not submitted
    | Draining                                      // about to pop tx_ring
    | Sending(desc: PacketDesc)
    | Submitted                                     // about to increment outstanding_tx
    | Reaping                                       // about to look at outstanding_tx
    | Completing(frames: seq<u64>, completed: nat)   // peeked completions still to free

  /** Program points of worker_thread_func. `source` is the packet the query is copied from,
      which has been pushed already. */
  datatype Worker =
    | Waiting
    | Holding(desc: PacketDesc)
    | Borrowing(source: PacketDesc)                 // about to allocate a frame for the query
    | Querying(addr: u64, source: PacketDesc)       // copying from source to addr

  datatype System = System(
    free: seq<u64>, fill: seq<u64>, kernelRx: seq<u64>, rx: seq<PacketDesc>,
    io: Io, rxRing: seq<PacketDesc>, worker: Worker, txRing: seq<PacketDesc>,
    tx: seq<PacketDesc>, kernelTx: seq<u64>, completion: seq<u64>, outstandingTx: u32)

  datatype KernelMove =
    | TakeFill(i: nat)
    | Deliver(i: nat, desc: PacketDesc)
    | TakeTx(i: nat)
    | Complete(i: nat, addr: u64)

  /** `n` is what a peek returned, `reserved` whether a reserve succeeded. */
  datatype IoMove =
    | PeekRx(n: nat)
    | HandOn
    | CheckRefill(reserved: bool)
    | Refill
    | PopTx
    | Submit(reserved: bool)
    | CountTx
    | PeekCompletion(n: nat)
    | FreeCompleted

  /** `len` is the length of the frame the worker sends. */
  datatype WorkerMove =
    | PopRx
    | Reply(len: u32)
    | ReplyAndBorrow
    | Borrow
    | Query(len: u32)
    | Discard

  datatype Step = ByKernel(kernel: KernelMove) | ByIo(io: IoMove) | ByWorker(worker: WorkerMove)

  /** One attempt to enqueue on an SPSC ring. */
  function RingPush(q: seq<PacketDesc>, desc: PacketDesc): (seq<PacketDesc>, bool) {
    match Apply(q, PushOk(desc))
    case Some(q') => (q', true)
    case None => (q, false)
  }

  function Without<T>(s: seq<T>, i: nat): seq<T>
    requires i < |s|
  {
    s[..i] + s[i + 1..]
  }

  // A step that is not enabled in `s` leaves it unchanged.

  function KernelRxStep(s: System, step: KernelMove): System {
    match step
    case TakeFill(i) =>
      if i < |s.fill| then s.(fill := Without(s.fill, i), kernelRx := s.kernelRx + [s.fill[i]]) else s
    case Deliver(i, desc) =>
      if i < |s.kernelRx| && ChunkOf(desc.addr) == ChunkOf(s.kernelRx[i])
      then s.(kernelRx := Without(s.kernelRx, i), rx := s.rx + [desc]) else s
    case _ => s
  }

  function KernelTxStep(s: System, step: KernelMove): System {
    match step
    case TakeTx(i) =>
      if i < |s.tx| then s.(tx := Without(s.tx, i), kernelTx := s.kernelTx + [s.tx[i].addr]) else s
    case Complete(i, addr) =>
      if i < |s.kernelTx| && ChunkOf(addr) == ChunkOf(s.kernelTx[i])
      then s.(kernelTx := Without(s.kernelTx, i), completion := s.completion + [addr]) else s
    case _ => s
  }

  /** Part 1 of the IO loop: the RX batch goes to rx_ring. */
  function PeekRxStep(s: System, n: nat): System {
    if !s.io.Top? || n > BATCH || n > |s.rx| then s
    else if n == 0 then s.(io := Draining)
    else s.(io := Receiving(s.rx[..n]), rx := s.rx[n..])
  }

  function HandOnStep(s: System): System {
    if !s.io.Receiving? then s
    else if s.io.batch == [] then s.(io := Received)
    else
      var desc := s.io.batch[0];
      var (ring, ok) := RingPush(s.rxRing, desc);
      s.(io := Receiving(s.io.batch[1..]), rxRing := ring, free := if ok then s.free else Free(s.free, desc.addr))
  }

  /** The refill: one look at umem_frame_free, then 32 unchecked allocations. */
  function RefillStep(s: System, step: IoMove): System {
    match step
    case CheckRefill(reserved) =>
      if !s.io.Received? then s
      else s.(io := if |s.free| > BATCH && reserved then Refilling(BATCH, [], false) else Draining)
    case Refill =>
      if !s.io.Refilling? then s
      else if s.io.left == 0 then s.(io := Draining, fill := s.fill + s.io.staged)
      else
        var (stack, addr) := Alloc(s.free);
        s.(io := s.io.(left := s.io.left - 1, staged := s.io.staged + [addr]), free := stack)
    case _ => s
  }

  /** Part 2: tx_ring goes to the TX ring. */
  function PopTxStep(s: System): System {
    if !s.io.Draining? then s
    else if s.txRing == [] then s.(io := Reaping)
    else s.(io := Sending(s.txRing[0]), txRing := s.txRing[1..])
  }

  function SubmitStep(s: System, step: IoMove): System {
    match step
    case Submit(reserved) =>
      if !s.io.Sending? then s
      else if reserved then s.(io := Submitted, tx := s.tx + [s.io.desc])
      else s.(io := Draining, free := Free(s.free, s.io.desc.addr))
    case CountTx =>
      if !s.io.Submitted? then s
      else s.(io := Draining, outstandingTx := Add32(s.outstandingTx, 1))
    case _ => s
  }

  /** Part 3: completions go back to the free stack. */
  function PeekCompletionStep(s: System, n: nat): System {
    if !s.io.Reaping? then s
    else if s.outstandingTx == 0 then s.(io := Top)
    else if n > BATCH || n > |s.completion| then s
    else if n == 0 then s.(io := Top)
    else s.(io := Completing(s.completion[..n], n), completion := s.completion[n..])
  }

  function FreeCompletedStep(s: System): System {
    if !s.io.Completing? then s
    else if s.io.frames == [] then s.(io := Top, outstandingTx := (s.outstandingTx - s.io.completed) % U32)
    else s.(io := Completing(s.io.frames[1..], s.io.completed), free := Free(s.free, s.io.frames[0]))
  }

  function WorkerRxStep(s: System, step: WorkerMove): System {
    match step
    case PopRx =>
      if !s.worker.Waiting? || s.rxRing == [] then s
      else s.(worker := Holding(s.rxRing[0]), rxRing := s.rxRing[1..])
    case Discard =>
      if !s.worker.Holding? then s
      else s.(worker := Waiting, free := Free(s.free, s.worker.desc.addr))
    case _ => s
  }

  /** The worker never looks at the answer of its pushes. */
  function WorkerTxStep(s: System, step: WorkerMove): System {
    match step
    case Reply(len) =>
      if !s.worker.Holding? then s
      else s.(worker := Waiting, txRing := RingPush(s.txRing, PacketDesc(s.worker.desc.addr, len)).0)
    case ReplyAndBorrow =>
      if !s.worker.Holding? then s
      else s.(worker := Borrowing(s.worker.desc), txRing := RingPush(s.txRing, s.worker.desc).0)
    case Query(len) =>
      if !s.worker.Querying? then s
      else s.(worker := Waiting, txRing := RingPush(s.txRing, PacketDesc(s.worker.addr, len)).0)
    case _ => s
  }

  /** A second allocation during one refill waits for its end. */
  function BorrowStep(s: System): System {
    if !s.worker.Borrowing? || (s.io.Refilling? && s.io.lent) then s
    else
      var (stack, addr) := Alloc(s.free);
      s.(free := stack, worker := if addr == INVALID_FRAME then Waiting else Querying(addr, s.worker.source),
         io := if s.io.Refilling? then s.io.(lent := true) else s.io)
  }

  function KernelNext(s: System, step: KernelMove): System {
    match step
    case TakeFill(_) | Deliver(_, _) => KernelRxStep(s, step)
    case TakeTx(_) | Complete(_, _) => KernelTxStep(s, step)
  }

  function IoNext(s: System, step: IoMove): System {
    match step
    case PeekRx(n) => PeekRxStep(s, n)
    case HandOn => HandOnStep(s)
    case CheckRefill(_) | Refill => RefillStep(s, step)
    case PopTx => PopTxStep(s)
    case Submit(_) | CountTx => SubmitStep(s, step)
    case PeekCompletion(n) => PeekCompletionStep(s, n)
    case FreeCompleted => FreeCompletedStep(s)
  }

  function WorkerNext(s: System, step: WorkerMove): System {
    match step
    case PopRx | Discard => WorkerRxStep(s, step)
    case Reply(_) | ReplyAndBorrow | Query(_) => WorkerTxStep(s, step)
    case Borrow => BorrowStep(s)
  }

  function Next(s: System, step: Step): System {
    match step
    case ByKernel(kernel) => KernelNext(s, kernel)
    case ByIo(io) => IoNext(s, io)
    case ByWorker(worker) => WorkerNext(s, worker)
  }

  /** After configure_umem and configure_socket: the Fill ring got its first frames if
      libxdp could reserve all the slots at once. */
  function Init(prefilled: bool): System {
    var (free, fill) := AllocMany(FirstFrames(NUM_FRAMES), if prefilled then DEFAULT_NUM_DESCS else 0);
    System(free, fill, [], [], Top, [], Waiting, [], [], [], [], 0)
  }

  function Run(prefilled: bool, schedule: seq<Step>): System {
    if schedule == [] then Init(prefilled)
    else Next(Run(prefilled, schedule[..|schedule| - 1]), schedule[|schedule| - 1])
  }

  // ------------------------------------------------------------------ who holds what

  datatype Place =
    | FreeStack | FillRing | KernelRx | RxRing | IoThread | RxQueue
    | WorkerThread | TxQueue | TxRing | KernelTx | CompletionRing

  function Addrs(descs: seq<PacketDesc>): (r: seq<u64>)
    ensures |r| == |descs|
  {
    seq(|descs|, i requires 0 <= i < |descs| => descs[i].addr)
  }

  function IoFrames(io: Io): seq<u64> {
    match io
    case Receiving(batch) => Addrs(batch)
    case Refilling(_, staged, _) => staged
    case Sending(desc) => [desc.addr]
    case Completing(frames, _) => frames
    case _ => []
  }

  function WorkerFrames(worker: Worker): seq<u64> {
    match worker
    case Holding(desc) => [desc.addr]
    case Querying(addr, _) => [addr]
    case _ => []
  }

  function At(s: System, p: Place): seq<u64> {
    match p
    case FreeStack => s.free
    case FillRing => s.fill
    case KernelRx => s.kernelRx
    case RxRing => Addrs(s.rx)
    case IoThread => IoFrames(s.io)
    case RxQueue => Addrs(s.rxRing)
    case WorkerThread => WorkerFrames(s.worker)
    case TxQueue => Addrs(s.txRing)
    case TxRing => Addrs(s.tx)
    case KernelTx => s.kernelTx
    case CompletionRing => s.completion
  }

  /** How often chunk `c` is held, over all places. */
  function Held(s: System, c: nat): nat {
    Count(s.free, c) + Count(s.fill, c) + Count(s.kernelRx, c) + Count(Addrs(s.rx), c) +
    Count(IoFrames(s.io), c) + Count(Addrs(s.rxRing), c) + Count(WorkerFrames(s.worker), c) +
    Count(Addrs(s.txRing), c) + Count(Addrs(s.tx), c) + Count(s.kernelTx, c) + Count(s.completion, c)
  }

  /** How many frames there are, over all places. */
  function Size(s: System): nat {
    |s.free| + |s.fill| + |s.kernelRx| + |s.rx| + |IoFrames(s.io)| + |s.rxRing| +
    |WorkerFrames(s.worker)| + |s.txRing| + |s.tx| + |s.kernelTx| + |s.completion|
  }

  /** Frames whose transmission outstanding_tx accounts for. */
  function InTransmission(s: System): nat {
    |s.tx| + |s.kernelTx| + |s.completion| + if s.io.Completing? then s.io.completed else 0
  }

  ghost predicate Owned(s: System) {
    forall c: nat :: Held(s, c) == if c < NUM_FRAMES then 1 else 0
  }

  /** outstanding_tx is what its name says, up to an increment about to happen. */
  ghost predicate Counted(s: System) {
    s.outstandingTx + (if s.io.Submitted? then 1 else 0) == InTransmission(s)
  }

  ghost predicate Inv(s: System) {
    && Size(s) == NUM_FRAMES
    && Owned(s)
    && Reserved(s)
    && (s.io.Completing? ==> |s.io.frames| <= s.io.completed)
    && Counted(s)
    && InTransmission(s) <= NUM_FRAMES
  }

  /** The free stack covers what is left of a refill and the allocation the worker may
      still make during it. */
  ghost predicate Reserved(s: System) {
    s.io.Refilling? ==> |s.free| >= s.io.left + if s.io.lent then 0 else 1
  }

  // -------------------------------------------------------------- frames only move

  lemma AddrsPushed(q: seq<PacketDesc>, desc: PacketDesc, c: nat)
    ensures Count(Addrs(q + [desc]), c) == Count(Addrs(q), c) + Hit(desc.addr, c)
  {
    assert Addrs(q + [desc]) == Addrs(q) + [desc.addr];
    CountPushed(Addrs(q), desc.addr, c);
  }

  lemma AddrsPopped(q: seq<PacketDesc>, c: nat)
    requires q != []
    ensures Count(Addrs(q), c) == Hit(q[0].addr, c) + Count(Addrs(q[1..]), c)
  {
    assert Addrs(q)[1..] == Addrs(q[1..]);
  }

  lemma AddrsSplit(q: seq<PacketDesc>, n: nat, c: nat)
    requires n <= |q|
    ensures Count(Addrs(q), c) == Count(Addrs(q[..n]), c) + Count(Addrs(q[n..]), c)
  {
    assert Addrs(q)[..n] == Addrs(q[..n]) && Addrs(q)[n..] == Addrs(q[n..]);
    CountSplit(Addrs(q), n, c);
  }

  lemma CountOne(x: u64, c: nat)
    ensures Count([x], c) == Hit(x, c)
  {
  }

  lemma AllocatedCount(stack: seq<u64>, c: nat)
    requires stack != []
    ensures Count(stack, c) == Count(Alloc(stack).0, c) + Hit(Alloc(stack).1, c)
  {
    var k := |stack| - 1;
    assert stack == stack[..k] + [stack[k]];
    CountPushed(stack[..k], stack[k], c);
  }

  /** Room in every container a frame in hand could go to: the pigeonhole. */
  lemma InHandMeansRoom(s: System)
    requires Size(s) == NUM_FRAMES
    ensures IoFrames(s.io) != [] || WorkerFrames(s.worker) != [] ==>
              |s.free| < NUM_FRAMES && |s.rxRing| < RING_SIZE && |s.txRing| < RING_SIZE
  {
  }

  /** No frame of chunk `c` appears or disappears, and the number of frames stays. */
  ghost predicate Moved(s: System, s': System, c: nat) {
    Held(s', c) == Held(s, c) && Size(s') == Size(s)
  }

  lemma KernelRxMoves(s: System, step: KernelMove, c: nat)
    ensures Moved(s, KernelRxStep(s, step), c)
  {
    if step.TakeFill? && step.i < |s.fill| {
      CountRemoved(s.fill, step.i, c);
      CountPushed(s.kernelRx, s.fill[step.i], c);
    } else if step.Deliver? && step.i < |s.kernelRx| {
      CountRemoved(s.kernelRx, step.i, c);
      AddrsPushed(s.rx, step.desc, c);
    }
  }

  lemma KernelTxMoves(s: System, step: KernelMove, c: nat)
    ensures Moved(s, KernelTxStep(s, step), c)
  {
    if step.TakeTx? && step.i < |s.tx| {
      assert Addrs(Without(s.tx, step.i)) == Without(Addrs(s.tx), step.i);
      CountRemoved(Addrs(s.tx), step.i, c);
      CountPushed(s.kernelTx, s.tx[step.i].addr, c);
    } else if step.Complete? && step.i < |s.kernelTx| {
      CountRemoved(s.kernelTx, step.i, c);
      CountPushed(s.completion, step.addr, c);
    }
  }

  lemma PeekRxMoves(s: System, n: nat, c: nat)
    ensures Moved(s, PeekRxStep(s, n), c)
  {
    if s.io.Top? && n <= |s.rx| { AddrsSplit(s.rx, n, c); }
  }

  lemma HandOnMoves(s: System, c: nat)
    requires Size(s) == NUM_FRAMES
    ensures Moved(s, HandOnStep(s), c)
  {
    InHandMeansRoom(s);
    if s.io.Receiving? && s.io.batch != [] {
      AddrsPopped(s.io.batch, c);
      AddrsPushed(s.rxRing, s.io.batch[0], c);
    }
  }

  lemma RefillMoves(s: System, step: IoMove, c: nat)
    requires Reserved(s)
    ensures Moved(s, RefillStep(s, step), c)
  {
    if s.io.Refilling? && s.io.left == 0 {
      CountConcat(s.fill, s.io.staged, c);
    } else if s.io.Refilling? {
      AllocatedCount(s.free, c);
      CountPushed(s.io.staged, Alloc(s.free).1, c);
    }
  }

  lemma PopTxMoves(s: System, c: nat)
    ensures Moved(s, PopTxStep(s), c)
  {
    if s.io.Draining? && s.txRing != [] {
      AddrsPopped(s.txRing, c);
      CountOne(s.txRing[0].addr, c);
    }
  }

  lemma SubmitMoves(s: System, step: IoMove, c: nat)
    requires Size(s) == NUM_FRAMES
    ensures Moved(s, SubmitStep(s, step), c)
  {
    if s.io.Sending? && step.Submit? {
      if step.reserved { SubmittedMoves(s, c); } else { ReturnedMoves(s, c); }
    }
  }

  lemma SubmittedMoves(s: System, c: nat)
    requires s.io.Sending?
    ensures Moved(s, SubmitStep(s, Submit(true)), c)
  {
    CountOne(s.io.desc.addr, c);
    AddrsPushed(s.tx, s.io.desc, c);
  }

  lemma ReturnedMoves(s: System, c: nat)
    requires Size(s) == NUM_FRAMES && s.io.Sending?
    ensures Moved(s, SubmitStep(s, Submit(false)), c)
  {
    InHandMeansRoom(s);
    CountOne(s.io.desc.addr, c);
    CountPushed(s.free, s.io.desc.addr, c);
  }

  lemma PeekCompletionMoves(s: System, n: nat, c: nat)
    ensures Moved(s, PeekCompletionStep(s, n), c)
  {
    if s.io.Reaping? && 0 < n <= |s.completion| { BatchTaken(s, n, c); }
  }

  lemma BatchTaken(s: System, n: nat, c: nat)
    requires s.io.Reaping? && n <= |s.completion|
    ensures Moved(s, s.(io := Completing(s.completion[..n], n), completion := s.completion[n..]), c)
  {
    CountSplit(s.completion, n, c);
  }

  lemma FreeCompletedMoves(s: System, c: nat)
    requires Size(s) == NUM_FRAMES
    ensures Moved(s, FreeCompletedStep(s), c)
  {
    InHandMeansRoom(s);
    if s.io.Completing? && s.io.frames != [] { CountPushed(s.free, s.io.frames[0], c); }
  }

  lemma WorkerRxMoves(s: System, step: WorkerMove, c: nat)
    requires Size(s) == NUM_FRAMES
    ensures Moved(s, WorkerRxStep(s, step), c)
  {
    InHandMeansRoom(s);
    if s.worker.Waiting? && s.rxRing != [] {
      AddrsPopped(s.rxRing, c);
      CountOne(s.rxRing[0].addr, c);
    } else if s.worker.Holding? {
      CountOne(s.worker.desc.addr, c);
      CountPushed(s.free, s.worker.desc.addr, c);
    }
  }

  lemma WorkerTxMoves(s: System, step: WorkerMove, c: nat)
    requires Size(s) == NUM_FRAMES
    ensures Moved(s, WorkerTxStep(s, step), c)
  {
    InHandMeansRoom(s);
    if s.worker.Holding? && (step.Reply? || step.ReplyAndBorrow?) {
      var sent := if step.ReplyAndBorrow? then s.worker.desc else PacketDesc(s.worker.desc.addr, step.len);
      CountOne(sent.addr, c);
      AddrsPushed(s.txRing, sent, c);
    } else if s.worker.Querying? && step.Query? {
      CountOne(s.worker.addr, c);
      AddrsPushed(s.txRing, PacketDesc(s.worker.addr, step.len), c);
    }
  }

  lemma BorrowMoves(s: System, c: nat)
    requires Owned(s)
    ensures Moved(s, BorrowStep(s), c)
  {
    if s.worker.Borrowing? && s.free != [] {
      AllocatedCount(s.free, c);
      AllocIsFresh(s);
      CountOne(Alloc(s.free).1, c);
    }
  }

  lemma KernelMoves(s: System, step: KernelMove, c: nat)
    ensures Moved(s, KernelNext(s, step), c)
  {
    match step
    case TakeFill(_) | Deliver(_, _) => KernelRxMoves(s, step, c);
    case TakeTx(_) | Complete(_, _) => KernelTxMoves(s, step, c);
  }

  lemma IoMoves(s: System, step: IoMove, c: nat)
    requires Size(s) == NUM_FRAMES && Reserved(s)
    ensures Moved(s, IoNext(s, step), c)
  {
    match step
    case PeekRx(n) => PeekRxMoves(s, n, c);
    case HandOn => HandOnMoves(s, c);
    case CheckRefill(_) | Refill => RefillMoves(s, step, c);
    case PopTx => PopTxMoves(s, c);
    case Submit(_) | CountTx => SubmitMoves(s, step, c);
    case PeekCompletion(n) => PeekCompletionMoves(s, n, c);
    case FreeCompleted => FreeCompletedMoves(s, c);
  }

  lemma WorkerMoves(s: System, step: WorkerMove, c: nat)
    requires Size(s) == NUM_FRAMES && Owned(s)
    ensures Moved(s, WorkerNext(s, step), c)
  {
    match step
    case PopRx | Discard => WorkerRxMoves(s, step, c);
    case Reply(_) | ReplyAndBorrow | Query(_) => WorkerTxMoves(s, step, c);
    case Borrow => BorrowMoves(s, c);
  }

  lemma NextMoves(s: System, step: Step, c: nat)
    requires Inv(s)
    ensures Moved(s, Next(s, step), c)
  {
    match step
    case ByKernel(kernel) => KernelMoves(s, kernel, c);
    case ByIo(io) => IoMoves(s, io, c);
    case ByWorker(worker) => WorkerMoves(s, worker, c);
  }

  /** The frame an allocation hands out is a frame of the UMEM, not the marker, and its
      chunk is held nowhere else. */
  lemma AllocIsFresh(s: System)
    requires Owned(s) && s.free != []
    ensures var (stack, addr) := Alloc(s.free);
            && addr != INVALID_FRAME && ChunkOf(addr) < NUM_FRAMES
            && Count(stack, ChunkOf(addr)) == 0
            && forall p: Place :: p != FreeStack ==> Count(At(s, p), ChunkOf(addr)) == 0
  {
    var addr := Alloc(s.free).1;
    AllocatedCount(s.free, ChunkOf(addr));
    assert Held(s, ChunkOf(addr)) >= 1;
  }

  lemma NextKeepsInv(s: System, step: Step)
    requires Inv(s)
    ensures Inv(Next(s, step))
  {
    var s' := Next(s, step);
    forall c: nat
      ensures Held(s', c) == Held(s, c)
    {
      NextMoves(s, step, c);
    }
    NextMoves(s, step, 0);
    ReserveKept(s, step);
    CounterKept(s, step);
    TransmissionKept(s, step);
  }

  lemma ReserveKept(s: System, step: Step)
    requires Inv(s)
    ensures var s' := Next(s, step);
            && Reserved(s')
            && (s'.io.Completing? ==> |s'.io.frames| <= s'.io.completed)
  {
    InHandMeansRoom(s);
  }

  lemma IoCounted(s: System, step: IoMove)
    requires Inv(s)
    ensures Counted(IoNext(s, step))
  {
    assert s.io.Submitted? ==> InTransmission(s) <= NUM_FRAMES;
  }

  /** What is in transmission are frames of the UMEM, and no submission happens while
      completions are freed. */
  lemma TransmissionKept(s: System, step: Step)
    requires Inv(s)
    ensures InTransmission(Next(s, step)) <= NUM_FRAMES
  {
    NextMoves(s, step, 0);
    match step
    case ByIo(io) => IoTransmits(s, io);
    case ByKernel(kernel) => KernelTransmits(s, kernel);
    case ByWorker(worker) => WorkerTransmits(s, worker);
  }

  lemma KernelTransmits(s: System, kernel: KernelMove)
    ensures InTransmission(KernelNext(s, kernel)) == InTransmission(s)
  {
  }

  lemma WorkerTransmits(s: System, worker: WorkerMove)
    ensures InTransmission(WorkerNext(s, worker)) == InTransmission(s)
  {
  }

  lemma IoTransmits(s: System, io: IoMove)
    requires Inv(s) && Size(IoNext(s, io)) == NUM_FRAMES
    ensures InTransmission(IoNext(s, io)) <= NUM_FRAMES
  {
    var s' := IoNext(s, io);
    if s'.io.Completing? { assert InTransmission(s') <= InTransmission(s); }
  }

  lemma CounterKept(s: System, step: Step)
    requires Inv(s)
    ensures Counted(Next(s, step))
  {
    match step
    case ByIo(io) => IoCounted(s, io);
    case ByKernel(kernel) => KernelCounted(s, kernel);
    case ByWorker(worker) => WorkerCounted(s, worker);
  }

  lemma KernelCounted(s: System, kernel: KernelMove)
    requires Counted(s)
    ensures Counted(KernelNext(s, kernel))
  {
    KernelTransmits(s, kernel);
  }

  lemma WorkerCounted(s: System, worker: WorkerMove)
    requires Counted(s)
    ensures Counted(WorkerNext(s, worker))
  {
    WorkerTransmits(s, worker);
  }

  lemma InitInv(prefilled: bool)
    ensures Inv(Init(prefilled))
  {
    var s := Init(prefilled);
    var n := if prefilled then DEFAULT_NUM_DESCS else 0;
    forall c: nat
      ensures Held(s, c) == if c < NUM_FRAMES then 1 else 0
    {
      FirstFramesCount(NUM_FRAMES, c);
      AllocManyMoves(FirstFrames(NUM_FRAMES), n, c);
    }
    AllocManyMoves(FirstFrames(NUM_FRAMES), n, 0);
  }

  lemma {:induction false} RunKeepsInv(prefilled: bool, schedule: seq<Step>)
    ensures Inv(Run(prefilled, schedule))
  {
    if schedule == [] {
      InitInv(prefilled);
    } else {
      RunKeepsInv(prefilled, schedule[..|schedule| - 1]);
      NextKeepsInv(Run(prefilled, schedule[..|schedule| - 1]), schedule[|schedule| - 1]);
    }
  }

  // ------------------------------------------------------------------ main theorems

  /** `holder` holds chunk `c` once, and no other place holds it. */
  ghost predicate SoleHolder(s: System, holder: Place, c: nat) {
    Count(At(s, holder), c) == 1 && forall p: Place :: p != holder ==> Count(At(s, p), c) == 0
  }

  lemma SomeHolder(s: System, c: nat)
    requires Held(s, c) > 0
    ensures exists p: Place :: Count(At(s, p), c) > 0
  {
    if Count(At(s, FreeStack), c) + Count(At(s, FillRing), c) + Count(At(s, KernelRx), c) +
       Count(At(s, RxRing), c) + Count(At(s, IoThread), c) == 0 {
      assert Count(At(s, RxQueue), c) + Count(At(s, WorkerThread), c) + Count(At(s, TxQueue), c) +
             Count(At(s, TxRing), c) + Count(At(s, KernelTx), c) + Count(At(s, CompletionRing), c) > 0;
    }
  }

  lemma OneCopy(s: System, p: Place, c: nat)
    ensures Count(At(s, p), c) <= Held(s, c)
  {
  }

  lemma TwoHolders(s: System, p: Place, q: Place, c: nat)
    requires p != q
    ensures Count(At(s, p), c) + Count(At(s, q), c) <= Held(s, c)
  {
  }

  lemma HeldOnceHasSoleHolder(s: System, c: nat)
    requires Held(s, c) == 1
    ensures exists holder: Place :: SoleHolder(s, holder, c)
  {
    SomeHolder(s, c);
    var holder: Place :| Count(At(s, holder), c) > 0;
    OneCopy(s, holder, c);
    forall p: Place | p != holder
      ensures Count(At(s, p), c) == 0
    {
      TwoHolders(s, holder, p, c);
    }
    assert SoleHolder(s, holder, c);
  }

  /** In every reachable state every chunk of the UMEM has exactly one holder. */
  lemma UniqueHolder(prefilled: bool, schedule: seq<Step>, c: nat)
    requires c < NUM_FRAMES
    ensures exists holder: Place :: SoleHolder(Run(prefilled, schedule), holder, c)
  {
    RunKeepsInv(prefilled, schedule);
    HeldOnceHasSoleHolder(Run(prefilled, schedule), c);
  }

  /** No address outside the UMEM, INVALID_UMEM_FRAME in particular, is ever anywhere. */
  lemma OnlyUmemAddresses(prefilled: bool, schedule: seq<Step>, p: Place, i: nat)
    ensures var held := At(Run(prefilled, schedule), p);
            i < |held| ==> ChunkOf(held[i]) < NUM_FRAMES && held[i] != INVALID_FRAME
  {
    RunKeepsInv(prefilled, schedule);
    HeldIsUmemAddress(Run(prefilled, schedule), p, i);
  }

  lemma HeldIsUmemAddress(s: System, p: Place, i: nat)
    requires Owned(s)
    ensures var held := At(s, p);
            i < |held| ==> ChunkOf(held[i]) < NUM_FRAMES && held[i] != INVALID_FRAME
  {
    var held := At(s, p);
    if i < |held| {
      CountedIsPresent(held, ChunkOf(held[i]));
      OneCopy(s, p, ChunkOf(held[i]));
    }
  }

  /** The pigeonhole theorem: whenever a thread is about to push a frame, the ring has
      room, and whenever one is about to free a frame, the stack does, so the worker's
      unchecked pushes lose nothing and the full guard of xsk_free_frame never acts. */
  lemma PushesAndFreesSucceed(prefilled: bool, schedule: seq<Step>, desc: PacketDesc)
    ensures var s := Run(prefilled, schedule);
            && (s.io.Receiving? && s.io.batch != [] ==> RingPush(s.rxRing, desc) == (s.rxRing + [desc], true))
            && (s.worker.Holding? || s.worker.Querying? ==> RingPush(s.txRing, desc) == (s.txRing + [desc], true))
            && (s.io.Sending? || s.worker.Holding? || (s.io.Completing? && s.io.frames != []) ==>
                  Free(s.free, desc.addr) == s.free + [desc.addr])
  {
    RunKeepsInv(prefilled, schedule);
    InHandMeansRoom(Run(prefilled, schedule));
  }

  /** For ever, whatever the schedule, exactly the 4096 frames are there. */
  lemma FramesConserved(prefilled: bool, schedule: seq<Step>)
    ensures Size(Run(prefilled, schedule)) == NUM_FRAMES
  {
    RunKeepsInv(prefilled, schedule);
  }

  /** What an allocation hands out, to the worker or to a refill, nobody else holds. */
  lemma AllocatedFrameIsUnowned(prefilled: bool, schedule: seq<Step>)
    ensures var s := Run(prefilled, schedule);
            && (s.io.Refilling? && s.io.left > 0 ==> s.free != [])
            && (s.free != [] ==>
                  var (stack, addr) := Alloc(s.free);
                  && ChunkOf(addr) < NUM_FRAMES && addr != INVALID_FRAME
                  && Count(stack, ChunkOf(addr)) == 0
                  && forall p: Place :: p != FreeStack ==> Count(At(s, p), ChunkOf(addr)) == 0)
  {
    RunKeepsInv(prefilled, schedule);
    if Run(prefilled, schedule).free != [] { AllocIsFresh(Run(prefilled, schedule)); }
  }

  /** At every program point outstanding_tx counts exactly the frames in the TX ring, in the
      kernel's hands for sending, and in the Completion ring, with the batch being freed
      and without the submission about to be counted; so it never passes 4096, the batch
      decrement never underflows, and with nothing left in transmission it is 0. */
  lemma OutstandingTxIsExact(prefilled: bool, schedule: seq<Step>)
    ensures var s := Run(prefilled, schedule);
            && s.outstandingTx ==
                 |At(s, TxRing)| + |At(s, KernelTx)| + |At(s, CompletionRing)|
                 + (if s.io.Completing? then s.io.completed else 0)
                 - (if s.io.Submitted? then 1 else 0)
            && (s.io.Completing? ==> s.io.completed <= s.outstandingTx)
            && s.outstandingTx <= NUM_FRAMES
  {
    RunKeepsInv(prefilled, schedule);
    CountedByPlaces(Run(prefilled, schedule));
  }

  lemma CountedByPlaces(s: System)
    requires Inv(s)
    ensures s.outstandingTx ==
            |At(s, TxRing)| + |At(s, KernelTx)| + |At(s, CompletionRing)|
            + (if s.io.Completing? then s.io.completed else 0)
            - (if s.io.Submitted? then 1 else 0)
    ensures s.io.Completing? ==> s.io.completed <= s.outstandingTx
    ensures s.outstandingTx <= NUM_FRAMES
  {
  }
}

/** Whether the AF_XDP program can still receive. Only a receive leads to a refill of the
    Fill ring, so a system without frames on the receive side may have lost them for ever:
    the exact condition, over all futures, and two ways into that state. */
module ReceivePath {
  import opened Bits
  import SpscRing
  import opened UmemFrames
  import opened FrameLifecycle

  /** The system after more steps. */
  function After(s: System, schedule: seq<Step>): System
    decreases |schedule|
  {
    if schedule == [] then s else After(Next(s, schedule[0]), schedule[1..])
  }

  lemma {:induction false} AfterConcat(s: System, a: seq<Step>, b: seq<Step>)
    ensures After(s, a + b) == After(After(s, a), b)
    decreases |a|
  {
    if a == [] {
      assert a + b == b;
    } else {
      assert (a + b)[1..] == a[1..] + b;
      AfterConcat(Next(s, a[0]), a[1..], b);
    }
  }

  lemma {:induction false} AfterKeepsInv(s: System, schedule: seq<Step>)
    requires Inv(s)
    ensures Inv(After(s, schedule))
    decreases |schedule|
  {
    if schedule != [] {
      NextKeepsInv(s, schedule[0]);
      AfterKeepsInv(Next(s, schedule[0]), schedule[1..]);
    }
  }

  lemma {:induction false} RunIsAfter(prefilled: bool, schedule: seq<Step>)
    ensures Run(prefilled, schedule) == After(Init(prefilled), schedule)
  {
    if schedule != [] {
      var (before, last) := (schedule[..|schedule| - 1], schedule[|schedule| - 1]);
      RunIsAfter(prefilled, before);
      AfterConcat(Init(prefilled), before, [last]);
      assert before + [last] == schedule;
      OneMore(After(Init(prefilled), before), last, []);
    }
  }

  lemma OneMore(s: System, step: Step, rest: seq<Step>)
    ensures After(s, [step] + rest) == After(Next(s, step), rest)
  {
    assert ([step] + rest)[1..] == rest;
  }

  /** The IO thread is about to look at an RX ring that holds a packet. */
  predicate Receives(s: System) { s.io.Top? && s.rx != [] }

  // ---------------------------------------------------------------- alive or not

  /** Frames on the receive side. */
  predicate Supplied(s: System) { s.fill != [] || s.kernelRx != [] || s.rx != [] }

  /** Frames that are, or are about to be, on the Fill ring. */
  predicate Promised(s: System) {
    Supplied(s) || (s.io.Refilling? && s.io.left + |s.io.staged| > 0)
  }

  /** Packets of the current batch that no one has taken yet. */
  function Unread(s: System): nat {
    |s.rxRing| + if s.io.Receiving? then |s.io.batch| else 0
  }

  /** How many frames can be free when the IO thread next looks at the free stack, if the
      worker discards all it gets and the thread takes its time: a worker about to borrow
      a frame has to do that first. */
  function Reserve(s: System): nat {
    |s.free| +
    match s.worker
    case Waiting => Unread(s)
    case Holding(_) => Unread(s) + 1
    case Borrowing(_) => if s.free == [] || Unread(s) == 0 then Unread(s) else Unread(s) - 1
    case Querying(_, _) => Unread(s)
  }

  /** There are frames on the receive side, or a refill is under way or can still begin. */
  predicate Alive(s: System) {
    Promised(s) || ((s.io.Receiving? || s.io.Received?) && Reserve(s) > BATCH)
  }

  lemma KernelStaysDead(s: System, step: KernelMove)
    requires Inv(s) && !Alive(s)
    ensures !Alive(KernelNext(s, step))
  {
  }

  lemma IoStaysDead(s: System, step: IoMove)
    requires Inv(s) && !Alive(s)
    ensures !Alive(IoNext(s, step))
  {
    InHandMeansRoom(s);
  }

  lemma WorkerStaysDead(s: System, step: WorkerMove)
    requires Inv(s) && !Alive(s)
    ensures !Alive(WorkerNext(s, step))
  {
    InHandMeansRoom(s);
    if s.io.Receiving? || s.io.Received? { ReserveShrinks(s, step); }
  }

  /** What the worker does never adds to what can be free. */
  lemma ReserveShrinks(s: System, step: WorkerMove)
    requires Inv(s) && !s.io.Refilling?
    ensures Reserve(WorkerNext(s, step)) <= Reserve(s)
  {
    InHandMeansRoom(s);
  }

  lemma {:induction false} DeadStays(s: System, schedule: seq<Step>)
    requires Inv(s) && !Alive(s)
    ensures !Alive(After(s, schedule))
    decreases |schedule|
  {
    if schedule != [] {
      match schedule[0] {
        case ByKernel(kernel) => KernelStaysDead(s, kernel);
        case ByIo(io) => IoStaysDead(s, io);
        case ByWorker(worker) => WorkerStaysDead(s, worker);
      }
      NextKeepsInv(s, schedule[0]);
      DeadStays(Next(s, schedule[0]), schedule[1..]);
    }
  }

  // ------------------------------------------------------------- the way to a receive

  /** A next move of the IO thread towards the top of its loop. */
  function Onward(io: Io): IoMove {
    match io
    case Top => PeekRx(0)
    case Receiving(_) => HandOn
    case Received => CheckRefill(false)
    case Refilling(_, _, _) => Refill
    case Draining => PopTx
    case Sending(_) => Submit(true)
    case Submitted => CountTx
    case Reaping => PeekCompletion(0)
    case Completing(_, _) => FreeCompleted
  }

  function Stage(io: Io): nat {
    match io
    case Top => 0
    case Completing(_, _) => 1
    case Reaping => 2
    case Draining => 3
    case Sending(_) => 3
    case Submitted => 3
    case Refilling(_, _, _) => 4
    case Received => 5
    case Receiving(_) => 6
  }

  function Rest(s: System): nat {
    match s.io
    case Completing(frames, _) => |frames|
    case Draining => 3 * |s.txRing|
    case Sending(_) => 3 * |s.txRing| + 2
    case Submitted => 3 * |s.txRing| + 1
    case Refilling(left, _, _) => left
    case Receiving(batch) => |batch|
    case _ => 0
  }

  lemma OnwardMoves(s: System)
    requires !s.io.Top?
    ensures var s' := IoNext(s, Onward(s.io));
            Stage(s'.io) < Stage(s.io) || (Stage(s'.io) == Stage(s.io) && Rest(s') < Rest(s))
  {
  }

  lemma OnwardKeepsPromise(s: System)
    requires Promised(s) && !s.io.Top?
    ensures Promised(IoNext(s, Onward(s.io)))
  {
  }

  lemma {:induction false} ReachTop(s: System) returns (schedule: seq<Step>)
    requires Promised(s)
    ensures After(s, schedule).io.Top? && Supplied(After(s, schedule))
    decreases Stage(s.io), Rest(s)
  {
    if s.io.Top? {
      schedule := [];
    } else {
      OnwardMoves(s);
      OnwardKeepsPromise(s);
      var step := ByIo(Onward(s.io));
      var rest := ReachTop(Next(s, step));
      schedule := [step] + rest;
      OneMore(s, step, rest);
    }
  }

  /** At the top, the kernel moves a frame along until a packet is there. */
  lemma Deliverable(s: System) returns (schedule: seq<Step>)
    requires s.io.Top? && Supplied(s)
    ensures Receives(After(s, schedule))
    decreases |s.fill|
  {
    if s.rx != [] {
      schedule := [];
    } else if s.kernelRx != [] {
      var step := ByKernel(Deliver(0, SpscRing.PacketDesc(s.kernelRx[0], 0)));
      OneMore(s, step, []);
      schedule := [step] + [];
    } else {
      var step := ByKernel(TakeFill(0));
      var rest := Deliverable(Next(s, step));
      OneMore(s, step, rest);
      schedule := [step] + rest;
    }
  }

  /** A next step that brings packets back to the free stack. */
  function Gathering(s: System): Step {
    if s.io.Receiving? then ByIo(HandOn)
    else
      match s.worker
      case Waiting => ByWorker(PopRx)
      case Holding(_) => ByWorker(Discard)
      case Borrowing(_) => ByWorker(Borrow)
      case Querying(_, _) => ByWorker(Query(0))
  }

  function WorkerRank(worker: Worker): nat {
    match worker case Waiting => 0 case Holding(_) => 1 case Querying(_, _) => 1 case Borrowing(_) => 2
  }

  function ToGather(s: System): nat { 3 * |s.rxRing| + WorkerRank(s.worker) }

  lemma GatheringHandsOn(s: System)
    requires Inv(s) && s.io.Receiving?
    ensures var s' := Next(s, Gathering(s));
            && (s'.io.Received? || (s'.io.Receiving? && |s'.io.batch| < |s.io.batch|))
            && Reserve(s') == Reserve(s)
  {
    InHandMeansRoom(s);
  }

  lemma GatheringDiscards(s: System)
    requires Inv(s) && s.io.Received? && |s.free| <= BATCH < Reserve(s)
    ensures var s' := Next(s, Gathering(s));
            s'.io.Received? && ToGather(s') < ToGather(s) && Reserve(s') == Reserve(s)
  {
    InHandMeansRoom(s);
    if s.worker.Borrowing? && s.free != [] { AllocIsFresh(s); }
  }

  lemma {:induction false} Gather(s: System) returns (schedule: seq<Step>)
    requires Inv(s) && (s.io.Receiving? || s.io.Received?) && Reserve(s) > BATCH
    ensures After(s, schedule).io.Received? && |After(s, schedule).free| > BATCH
    decreases Stage(s.io), if s.io.Receiving? then |s.io.batch| else ToGather(s)
  {
    if s.io.Received? && |s.free| > BATCH {
      schedule := [];
    } else {
      var step := Gathering(s);
      if s.io.Receiving? { GatheringHandsOn(s); } else { GatheringDiscards(s); }
      NextKeepsInv(s, step);
      var rest := Gather(Next(s, step));
      schedule := [step] + rest;
      OneMore(s, step, rest);
    }
  }

  lemma AliveReceives(s: System) returns (schedule: seq<Step>)
    requires Inv(s) && Alive(s)
    ensures Receives(After(s, schedule))
  {
    var start: seq<Step> := [];
    if !Promised(s) {
      var gather := Gather(s);
      var refill := ByIo(CheckRefill(true));
      start := gather + [refill];
      AfterConcat(s, gather, [refill]);
      OneMore(After(s, gather), refill, []);
    }
    var t := After(s, start);
    var up := ReachTop(t);
    var deliver := Deliverable(After(t, up));
    schedule := start + (up + deliver);
    AfterConcat(s, start, up + deliver);
    AfterConcat(t, up, deliver);
  }

  // ------------------------------------------------------------------ main theorems

  /** Some future brings another packet. */
  ghost predicate CanReceive(s: System) { exists future :: Receives(After(s, future)) }

  lemma CanReceiveIff(s: System)
    requires Inv(s)
    ensures CanReceive(s) <==> Alive(s)
  {
    if Alive(s) {
      var future := AliveReceives(s);
      assert Receives(After(s, future));
    } else {
      forall future ensures !Receives(After(s, future)) {
        DeadStays(s, future);
      }
    }
  }

  /** From every reachable state: some future brings another packet exactly when the state
      is alive. A state that is not alive never receives again, whatever the kernel, the
      worker and the IO thread do. */
  lemma ReceivesAgainIff(prefilled: bool, past: seq<Step>)
    ensures CanReceive(Run(prefilled, past)) <==> Alive(Run(prefilled, past))
  {
    RunKeepsInv(prefilled, past);
    CanReceiveIff(Run(prefilled, past));
  }

  /** The start-up fill decides: if libxdp could not reserve all its slots at once, the
      program never receives; if it could, it starts alive. */
  lemma StartUpDecides(prefilled: bool, schedule: seq<Step>)
    ensures Alive(Init(prefilled)) <==> prefilled
    ensures !prefilled ==> !Alive(Run(false, schedule)) && Run(false, schedule).rx == []
  {
    InitInv(prefilled);
    if !prefilled {
      RunIsAfter(false, schedule);
      DeadStays(Init(false), schedule);
    }
  }

  // ------------------------------------------------------------------ a stalled worker

  /** Between two rounds of the IO thread, with nothing on the transmit side. */
  predicate Calm(s: System) {
    && s.io.Top? && s.kernelRx == [] && s.rx == [] && s.txRing == [] && s.tx == []
    && s.kernelTx == [] && s.completion == [] && s.outstandingTx == 0
  }

  /** The free stack and the Fill ring after a look at the free stack. */
  function Refilled(free: seq<u64>): (seq<u64>, seq<u64>) {
    if |free| > BATCH then AllocMany(free, BATCH) else (free, [])
  }

  ghost predicate WorkerIdle(schedule: seq<Step>) { forall step <- schedule :: !step.ByWorker? }

  /** One packet arrives and is handed on, and the IO thread goes once round its loop. */
  lemma Cycle(s: System) returns (schedule: seq<Step>)
    requires Inv(s) && Calm(s) && s.fill != []
    ensures WorkerIdle(schedule)
    ensures var (t, refill) := (After(s, schedule), Refilled(s.free));
            && Calm(t) && t.worker == s.worker && |t.rxRing| == |s.rxRing| + 1
            && t.free == refill.0 && t.fill == s.fill[1..] + refill.1
  {
    var deliver := Delivery(s);
    var t := After(s, deliver);
    AfterKeepsInv(s, deliver);
    var handOn := HandOver(t);
    var u := After(t, handOn);
    var refill := LookAndRefill(u);
    var finish := RoundOff(After(u, refill));
    schedule := deliver + (handOn + (refill + finish));
    AfterConcat(s, deliver, handOn + (refill + finish));
    AfterConcat(t, handOn, refill + finish);
    AfterConcat(u, refill, finish);
  }

  /** A frame goes from the Fill ring to the RX ring. */
  lemma Delivery(s: System) returns (schedule: seq<Step>)
    requires Calm(s) && s.fill != []
    ensures WorkerIdle(schedule)
    ensures After(s, schedule) == s.(fill := s.fill[1..], rx := [SpscRing.PacketDesc(s.fill[0], 0)])
  {
    var desc := SpscRing.PacketDesc(s.fill[0], 0);
    var take, deliver := ByKernel(TakeFill(0)), ByKernel(Deliver(0, desc));
    var s1 := s.(fill := s.fill[1..], kernelRx := [s.fill[0]]);
    assert Next(s, take) == s1 by {
      assert Without(s.fill, 0) == s.fill[1..] && [] + [s.fill[0]] == [s.fill[0]];
    }
    assert Next(s1, deliver) == s1.(kernelRx := [], rx := [desc]) by {
      assert Without([s.fill[0]], 0) == [] && [] + [desc] == [desc];
    }
    OneMore(s1, deliver, []);
    OneMore(s, take, [deliver] + []);
    schedule := [take] + ([deliver] + []);
  }

  /** The IO thread hands it on to rx_ring. */
  lemma HandOver(s: System) returns (schedule: seq<Step>)
    requires Inv(s) && s.io.Top? && |s.rx| == 1
    ensures WorkerIdle(schedule)
    ensures After(s, schedule) == s.(rx := [], io := Received, rxRing := s.rxRing + [s.rx[0]])
  {
    var (desc, peek, handOn) := (s.rx[0], ByIo(PeekRx(1)), ByIo(HandOn));
    var s1 := s.(rx := [], io := Receiving([desc]));
    var s2 := s.(rx := [], io := Receiving([]), rxRing := s.rxRing + [desc]);
    assert Next(s, peek) == s1 by {
      assert s.rx[..1] == [desc] && s.rx[1..] == [];
    }
    assert Next(s1, handOn) == s2 by {
      assert |s.rxRing| < SpscRing.RING_SIZE && [desc][1..] == [];
    }
    OneMore(s2, handOn, []);
    OneMore(s1, handOn, [handOn] + []);
    OneMore(s, peek, [handOn] + ([handOn] + []));
    schedule := [peek] + ([handOn] + ([handOn] + []));
  }

  /** It looks at the free stack and refills if it may. */
  lemma LookAndRefill(s: System) returns (schedule: seq<Step>)
    requires s.io.Received?
    ensures WorkerIdle(schedule)
    ensures var refill := Refilled(s.free);
            After(s, schedule) == s.(io := Draining, free := refill.0, fill := s.fill + refill.1)
  {
    var look := ByIo(CheckRefill(true));
    var rest: seq<Step> := [];
    if |s.free| > BATCH {
      rest := RefillAll(Next(s, look));
      assert [] + AllocMany(s.free, BATCH).1 == AllocMany(s.free, BATCH).1;
    } else {
      assert s.fill + [] == s.fill;
    }
    OneMore(s, look, rest);
    schedule := [look] + rest;
  }

  /** A refill nobody disturbs. */
  lemma {:induction false} RefillAll(s: System) returns (schedule: seq<Step>)
    requires s.io.Refilling?
    ensures WorkerIdle(schedule)
    ensures var taken := AllocMany(s.free, s.io.left);
            After(s, schedule) == s.(io := Draining, free := taken.0, fill := s.fill + (s.io.staged + taken.1))
    decreases s.io.left
  {
    var step := ByIo(Refill);
    if s.io.left == 0 {
      assert s.io.staged + [] == s.io.staged;
      OneMore(s, step, []);
      schedule := [step] + [];
    } else {
      var rest := RefillAll(Next(s, step));
      OneMore(s, step, rest);
      schedule := [step] + rest;
      AllocFirst(s.free, s.io.left);
      StagedFirst(s.io.staged, Alloc(s.free).1, AllocMany(Alloc(s.free).0, s.io.left - 1).1);
    }
  }

  lemma StagedFirst(staged: seq<u64>, frame: u64, more: seq<u64>)
    ensures staged + [frame] + more == staged + ([frame] + more)
  {
  }

  lemma {:induction false} AllocFirst(stack: seq<u64>, n: nat)
    requires n > 0
    ensures var (rest, frame) := Alloc(stack);
            AllocMany(stack, n) == (AllocMany(rest, n - 1).0, [frame] + AllocMany(rest, n - 1).1)
  {
    var (rest, frame) := Alloc(stack);
    if n == 1 {
      assert AllocMany(stack, 0) == (stack, []) && AllocMany(rest, 0) == (rest, []);
      assert [] + [frame] == [frame] + [];
    } else {
      AllocFirst(stack, n - 1);
      var (last, more) := AllocMany(rest, n - 2);
      assert ([frame] + more) + [Alloc(last).1] == [frame] + (more + [Alloc(last).1]);
    }
  }

  /** The rest of the loop, with nothing to send and nothing to reap. */
  lemma RoundOff(s: System) returns (schedule: seq<Step>)
    requires s.io.Draining? && s.txRing == [] && s.outstandingTx == 0
    ensures WorkerIdle(schedule) && After(s, schedule) == s.(io := Top)
  {
    var pop, peek := ByIo(PopTx), ByIo(PeekCompletion(0));
    OneMore(Next(s, pop), peek, []);
    OneMore(s, pop, [peek] + []);
    schedule := [pop] + ([peek] + []);
  }

  /** With a worker that does not move, packet after packet piles up in rx_ring until the
      receive side is empty and 32 frames are free, one too few for a refill: 4064 packets
      wait for the worker, and nothing the worker does later brings the program back. */
  lemma StalledWorker() returns (schedule: seq<Step>)
    ensures WorkerIdle(schedule)
    ensures var s := Run(true, schedule);
            && s.io.Top? && s.worker.Waiting? && |s.rxRing| == 4064 && |s.free| == 32 && !Alive(s)
  {
    var s := Init(true);
    InitInv(true);
    AllocManyMoves(FirstFrames(NUM_FRAMES), DEFAULT_NUM_DESCS, 0);
    assert |s.free| == 2048;
    schedule := PileUp(s);
    RunIsAfter(true, schedule);
  }

  lemma {:induction false} PileUp(s: System) returns (schedule: seq<Step>)
    requires Inv(s) && Calm(s) && s.worker.Waiting?
    requires |s.free| >= 32 && |s.free| % 32 == 0 && (s.fill == [] ==> |s.free| == 32)
    ensures WorkerIdle(schedule)
    ensures var t := After(s, schedule);
            t.io.Top? && t.worker.Waiting? && |t.rxRing| == 4064 && |t.free| == 32 && !Alive(t)
    decreases 2 * |s.free| + |s.fill|
  {
    if s.fill == [] {
      schedule := [];
    } else {
      var once := Cycle(s);
      var t := After(s, once);
      AfterKeepsInv(s, once);
      RefilledSizes(s.free);
      var rest := PileUp(t);
      schedule := once + rest;
      AfterConcat(s, once, rest);
    }
  }

  lemma RefilledSizes(free: seq<u64>)
    ensures var (rest, taken) := Refilled(free);
            if |free| > BATCH then |rest| == |free| - BATCH && |taken| == BATCH else rest == free && taken == []
  {
    if |free| > BATCH { AllocManyMoves(free, BATCH, 0); }
  }

  // ------------------------------------------------------- a frame read by its giver

  /** The worker copies its query from a packet it has already pushed. Nothing stops that
      frame from being sent, reaped and put back on the Fill ring meanwhile, where the next
      packet may be written into it: in this reachable state the Fill ring is its only
      holder while the worker reads it. */
  lemma ReadAfterPush() returns (schedule: seq<Step>)
    ensures var s := Run(true, schedule);
            s.worker.Querying? && SoleHolder(s, FillRing, ChunkOf(s.worker.source.addr))
  {
    InitInv(true);
    AllocManyMoves(FirstFrames(NUM_FRAMES), DEFAULT_NUM_DESCS, 0);
    schedule := ReadAfterPushFrom(Init(true));
    RunIsAfter(true, schedule);
  }

  lemma ReadAfterPushFrom(s: System) returns (schedule: seq<Step>)
    requires Inv(s) && Calm(s) && s.worker.Waiting? && s.rxRing == [] && |s.free| > 2 * BATCH && |s.fill| > 1
    ensures var t := After(s, schedule);
            t.worker.Querying? && SoleHolder(t, FillRing, ChunkOf(t.worker.source.addr))
  {
    var first := Cycle(s);
    var t := After(s, first);
    AfterKeepsInv(s, first);
    RefilledSizes(s.free);
    var push := PushAndBorrow(t);
    var u := After(t, push);
    AfterKeepsInv(t, push);
    var rest := OverwriteSource(u);
    schedule := first + (push + rest);
    AfterConcat(s, first, push + rest);
    AfterConcat(t, push, rest);
  }

  /** The packet the worker copies from is sent, reaped and refilled. */
  lemma OverwriteSource(s: System) returns (schedule: seq<Step>)
    requires Inv(s) && Calm(s.(txRing := [])) && s.worker.Querying? && s.txRing == [s.worker.source]
    requires |s.free| >= BATCH && s.fill != []
    ensures var t := After(s, schedule);
            t.worker == s.worker && SoleHolder(t, FillRing, ChunkOf(t.worker.source.addr))
  {
    var send := SendAndReap(s);
    var t := After(s, send);
    AfterKeepsInv(s, send);
    var again := Cycle(t);
    AfterKeepsInv(t, again);
    TopIsRefilled(t.free);
    InFill(After(t, again), t.fill[1..], Refilled(t.free).1, s.worker.source.addr);
    schedule := send + again;
    AfterConcat(s, send, again);
  }

  /** The worker answers the packet, pushes it, and borrows a frame for its query. */
  lemma PushAndBorrow(s: System) returns (schedule: seq<Step>)
    requires Inv(s) && Calm(s) && s.worker.Waiting? && s.rxRing != [] && s.free != []
    ensures var (t, desc) := (After(s, schedule), s.rxRing[0]);
            t == s.(worker := Querying(Alloc(s.free).1, desc), rxRing := s.rxRing[1..], txRing := [desc],
                    free := Alloc(s.free).0)
  {
    var desc := s.rxRing[0];
    var s1 := s.(worker := Holding(desc), rxRing := s.rxRing[1..]);
    var s2 := s1.(worker := Borrowing(desc), txRing := [desc]);
    assert Next(s, ByWorker(PopRx)) == s1;
    assert Next(s1, ByWorker(ReplyAndBorrow)) == s2 by { assert [] + [desc] == [desc]; }
    AllocIsFresh(s);
    OneMore(s2, ByWorker(Borrow), []);
    OneMore(s1, ByWorker(ReplyAndBorrow), [ByWorker(Borrow)] + []);
    OneMore(s, ByWorker(PopRx), [ByWorker(ReplyAndBorrow)] + ([ByWorker(Borrow)] + []));
    schedule := [ByWorker(PopRx)] + ([ByWorker(ReplyAndBorrow)] + ([ByWorker(Borrow)] + []));
  }

  /** The one packet to send goes out, and its frame to the top of the free stack. */
  lemma SendAndReap(s: System) returns (schedule: seq<Step>)
    requires Inv(s) && Calm(s.(txRing := [])) && |s.txRing| == 1
    ensures After(s, schedule) == s.(txRing := [], free := s.free + [s.txRing[0].addr])
  {
    var a := Transmit(s);
    var t := After(s, a);
    AfterKeepsInv(s, a);
    var b := Reap(t);
    schedule := a + b;
    AfterConcat(s, a, b);
  }

  lemma Transmit(s: System) returns (schedule: seq<Step>)
    requires Calm(s.(txRing := [])) && |s.txRing| == 1
    ensures After(s, schedule) ==
            s.(io := Reaping, txRing := [], completion := [s.txRing[0].addr], outstandingTx := 1)
  {
    var desc := s.txRing[0];
    var s1 := s.(io := Draining);
    var s2 := s.(io := Sending(desc), txRing := []);
    var s3 := s2.(io := Submitted, tx := [desc]);
    var s4 := s3.(io := Draining, outstandingTx := 1);
    var s5 := s4.(io := Reaping);
    var s6 := s5.(tx := [], kernelTx := [desc.addr]);
    assert Next(s, ByIo(PeekRx(0))) == s1;
    assert Next(s1, ByIo(PopTx)) == s2 by { assert s.txRing[1..] == []; }
    assert Next(s2, ByIo(Submit(true))) == s3 by { assert [] + [desc] == [desc]; }
    assert Next(s3, ByIo(CountTx)) == s4;
    assert Next(s4, ByIo(PopTx)) == s5;
    assert Next(s5, ByKernel(TakeTx(0))) == s6 by {
      assert Without([desc], 0) == [] && [] + [desc.addr] == [desc.addr];
    }
    assert Next(s6, ByKernel(Complete(0, desc.addr))) == s6.(kernelTx := [], completion := [desc.addr]) by {
      assert Without([desc.addr], 0) == [] && [] + [desc.addr] == [desc.addr];
    }
    schedule := [ByKernel(Complete(0, desc.addr))] + [];
    OneMore(s6, ByKernel(Complete(0, desc.addr)), []);
    OneMore(s5, ByKernel(TakeTx(0)), schedule);
    schedule := [ByKernel(TakeTx(0))] + schedule;
    OneMore(s4, ByIo(PopTx), schedule);
    schedule := [ByIo(PopTx)] + schedule;
    OneMore(s3, ByIo(CountTx), schedule);
    schedule := [ByIo(CountTx)] + schedule;
    OneMore(s2, ByIo(Submit(true)), schedule);
    schedule := [ByIo(Submit(true))] + schedule;
    OneMore(s1, ByIo(PopTx), schedule);
    schedule := [ByIo(PopTx)] + schedule;
    OneMore(s, ByIo(PeekRx(0)), schedule);
    schedule := [ByIo(PeekRx(0))] + schedule;
  }

  lemma Reap(s: System) returns (schedule: seq<Step>)
    requires s.io.Reaping? && |s.completion| == 1 && s.outstandingTx == 1 && |s.free| < NUM_FRAMES
    ensures After(s, schedule) ==
            s.(io := Top, completion := [], outstandingTx := 0, free := s.free + [s.completion[0]])
  {
    var addr := s.completion[0];
    var s1 := s.(io := Completing([addr], 1), completion := []);
    var s2 := s1.(io := Completing([], 1), free := s.free + [addr]);
    assert Next(s, ByIo(PeekCompletion(1))) == s1 by {
      assert s.completion[..1] == [addr] && s.completion[1..] == [];
    }
    assert Next(s1, ByIo(FreeCompleted)) == s2 by { assert [addr][1..] == []; }
    schedule := [ByIo(FreeCompleted)] + [];
    OneMore(s2, ByIo(FreeCompleted), []);
    OneMore(s1, ByIo(FreeCompleted), schedule);
    schedule := [ByIo(FreeCompleted)] + schedule;
    OneMore(s, ByIo(PeekCompletion(1)), schedule);
    schedule := [ByIo(PeekCompletion(1))] + schedule;
  }

  lemma TopIsRefilled(free: seq<u64>)
    requires |free| > BATCH
    ensures |Refilled(free).1| == BATCH && Refilled(free).1[0] == free[|free| - 1]
  {
    AllocManyMoves(free, BATCH, 0);
  }

  lemma InFill(s: System, front: seq<u64>, taken: seq<u64>, addr: u64)
    requires Inv(s) && s.fill == front + taken && taken != [] && taken[0] == addr
    ensures SoleHolder(s, FillRing, ChunkOf(addr))
  {
    assert s.fill[|front|] == addr;
    CountedIsPresent(s.fill, ChunkOf(addr));
    assert Held(s, ChunkOf(addr)) == 1;
    forall p: Place | p != FillRing ensures Count(At(s, p), ChunkOf(addr)) == 0 {
      TwoHolders(s, FillRing, p, ChunkOf(addr));
    }
  }
}

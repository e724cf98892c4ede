/** The lock-free single-producer single-consumer descriptor ring of the AF_XDP
    fast path: free-running 32-bit indices, a power-of-two mask, and publication of
    an index after the slot has been copied.

    `Next` interleaves the producer and the consumer at the granularity of single
    loads, stores and half-slot copies; a schedule is any sequence of such steps. */
module SpscRing {
  import opened Bits
  import opened Wrappers

  const RING_SIZE: nat := 4096

  datatype PacketDesc = PacketDesc(addr: u64, len: u32)

  /** The memory both threads share. */
  datatype Ring = Ring(buffer: seq<PacketDesc>, writeIdx: u32, readIdx: u32)

  /** `idx & (SPSC_RING_SIZE - 1)` */
  function Slot(idx: u32): nat {
    BitAnd(idx, RING_SIZE - 1)
  }

  /** Program points of spsc_ring_push. */
  datatype Producer =
    | PIdle
    | PLoadedOwn(desc: PacketDesc, w: u32)
    | PLoadedPeer(desc: PacketDesc, w: u32, r: u32)
    | PMayCopy(desc: PacketDesc, w: u32)
    | PCopiedAddr(desc: PacketDesc, w: u32)
    | PCopied(desc: PacketDesc, w: u32)

  /** Program points of spsc_ring_pop. */
  datatype Consumer =
    | CIdle
    | CLoadedOwn(r: u32)
    | CLoadedPeer(r: u32, w: u32)
    | CMayCopy(r: u32)
    | CCopiedAddr(r: u32, addr: u64)
    | CCopied(r: u32, desc: PacketDesc)

  /** What an operation did to the queue at its linearization point. */
  datatype Event = PushOk(desc: PacketDesc) | PushFull | PopOk(desc: PacketDesc) | PopEmpty

  /** The ring, both threads, and the history: the unbounded sequences of published
      and consumed descriptors (whose lengths are the unwrapped indices), the
      linearization log, and what the finished calls returned: the descriptor a push
      accepted or a pop delivered, None for a refusal. */
  datatype State = State(
    ring: Ring, prod: Producer, cons: Consumer,
    pushed: seq<PacketDesc>, popped: seq<PacketDesc>,
    log: seq<Event>, pushReturns: seq<Option<PacketDesc>>, popReturns: seq<Option<PacketDesc>>)

  /** One step of the scheduler. `Call` starts a push when the producer is idle. */
  datatype Step = Call(desc: PacketDesc) | Produce | Consume

  predicate PushFails(w: u32, r: u32) { Sub32(w, r) >= RING_SIZE }

  /** One micro-step of spsc_ring_push. */
  function ProducerStep(s: State): (s': State)
    requires |s.ring.buffer| == RING_SIZE
    ensures |s'.ring.buffer| == RING_SIZE
  {
    match s.prod
    case PIdle => s
    case PLoadedOwn(desc, w) =>
      var r := s.ring.readIdx;
      s.(prod := PLoadedPeer(desc, w, r), log := s.log + if PushFails(w, r) then [PushFull] else [])
    case PLoadedPeer(desc, w, r) =>
      if PushFails(w, r) then s.(prod := PIdle, pushReturns := s.pushReturns + [None])
      else s.(prod := PMayCopy(desc, w))
    case PMayCopy(desc, w) =>
      SlotIsMod(w);
      var cell := s.ring.buffer[Slot(w)];
      s.(ring := s.ring.(buffer := s.ring.buffer[Slot(w) := cell.(addr := desc.addr)]), prod := PCopiedAddr(desc, w))
    case PCopiedAddr(desc, w) =>
      SlotIsMod(w);
      var cell := s.ring.buffer[Slot(w)];
      s.(ring := s.ring.(buffer := s.ring.buffer[Slot(w) := cell.(len := desc.len)]), prod := PCopied(desc, w))
    case PCopied(desc, w) =>
      s.(ring := s.ring.(writeIdx := Add32(w, 1)), prod := PIdle,
         pushed := s.pushed + [desc], log := s.log + [PushOk(desc)], pushReturns := s.pushReturns + [Some(desc)])
  }

  /** One micro-step of spsc_ring_pop. */
  function ConsumerStep(s: State): (s': State)
    requires |s.ring.buffer| == RING_SIZE
    ensures |s'.ring.buffer| == RING_SIZE
  {
    match s.cons
    case CIdle => s.(cons := CLoadedOwn(s.ring.readIdx))
    case CLoadedOwn(r) =>
      var w := s.ring.writeIdx;
      s.(cons := CLoadedPeer(r, w), log := s.log + if r == w then [PopEmpty] else [])
    case CLoadedPeer(r, w) =>
      if r == w then s.(cons := CIdle, popReturns := s.popReturns + [None])
      else s.(cons := CMayCopy(r))
    case CMayCopy(r) =>
      SlotIsMod(r);
      s.(cons := CCopiedAddr(r, s.ring.buffer[Slot(r)].addr))
    case CCopiedAddr(r, addr) =>
      SlotIsMod(r);
      s.(cons := CCopied(r, PacketDesc(addr, s.ring.buffer[Slot(r)].len)))
    case CCopied(r, desc) =>
      s.(ring := s.ring.(readIdx := Add32(r, 1)), cons := CIdle,
         popped := s.popped + [desc], log := s.log + [PopOk(desc)], popReturns := s.popReturns + [Some(desc)])
  }

  function Next(s: State, step: Step): (s': State)
    requires |s.ring.buffer| == RING_SIZE
    ensures |s'.ring.buffer| == RING_SIZE
  {
    match step
    case Call(desc) => if s.prod.PIdle? then s.(prod := PLoadedOwn(desc, s.ring.writeIdx)) else s
    case Produce => ProducerStep(s)
    case Consume => ConsumerStep(s)
  }

  /** After spsc_ring_init; the buffer keeps whatever the memory held. */
  function Init(garbage: seq<PacketDesc>): State {
    State(Ring(garbage, 0, 0), PIdle, CIdle, [], [], [], [], [])
  }

  function Run(garbage: seq<PacketDesc>, schedule: seq<Step>): (s: State)
    requires |garbage| == RING_SIZE
    ensures |s.ring.buffer| == RING_SIZE
  {
    if schedule == [] then Init(garbage)
    else Next(Run(garbage, schedule[..|schedule| - 1]), schedule[|schedule| - 1])
  }

  // ---------------------------------------------------------------- index arithmetic

  lemma SlotIsMod(idx: u32)
    ensures Slot(idx) == idx % RING_SIZE
    ensures 0 <= Slot(idx) < RING_SIZE
  {
    MaskIsMod(idx, 12);
    assert Pow2(12) == 4096;
  }

  /** The mask sees the unwrapped counter: 2^32 is a multiple of the ring size. */
  lemma SlotOfCounter(n: nat)
    ensures Slot(n % U32) == n % RING_SIZE
  {
    SlotIsMod(n % U32);
    var q, r := n / U32, n % U32;
    assert n == 4096 * (1048576 * q + r / 4096) + r % 4096;
    ModUnique(n, 4096, 1048576 * q + r / 4096, r % 4096);
  }

  /** Wrapped subtraction of two counters less than 2^32 apart is their distance. */
  lemma WrappedDistance(n: nat, m: nat)
    requires m <= n < m + U32
    ensures Sub32(n % U32, m % U32) == n - m
  {
    ModUnique(n % U32 - m % U32, U32, m / U32 - n / U32, n - m);
  }

  lemma NextIndex(n: nat)
    ensures Add32(n % U32, 1) == (n + 1) % U32
  {
  }

  lemma DistinctSlots(k: nat, n: nat)
    requires k < n < k + RING_SIZE
    ensures k % RING_SIZE != n % RING_SIZE
  {
  }

  // ------------------------------------------------- the queue the ring implements

  /** A bounded FIFO queue: the result of one operation, or None when the queue
      could not have answered that way. */
  function Apply(q: seq<PacketDesc>, e: Event): Option<seq<PacketDesc>> {
    match e
    case PushOk(desc) => if |q| < RING_SIZE then Some(q + [desc]) else None
    case PushFull => if |q| == RING_SIZE then Some(q) else None
    case PopOk(desc) => if q != [] && q[0] == desc then Some(q[1..]) else None
    case PopEmpty => if q == [] then Some(q) else None
  }

  function Replay(log: seq<Event>): Option<seq<PacketDesc>> {
    if log == [] then Some([])
    else match Replay(log[..|log| - 1])
      case None => None
      case Some(q) => Apply(q, log[|log| - 1])
  }

  /** The answers the log gives to the pushes and to the pops, in order. */
  function PushAnswers(log: seq<Event>): seq<Option<PacketDesc>> {
    if log == [] then []
    else PushAnswers(log[..|log| - 1]) +
         match log[|log| - 1] case PushOk(d) => [Some(d)] case PushFull => [None] case _ => []
  }

  function PopAnswers(log: seq<Event>): seq<Option<PacketDesc>> {
    if log == [] then []
    else PopAnswers(log[..|log| - 1]) +
         match log[|log| - 1] case PopOk(d) => [Some(d)] case PopEmpty => [None] case _ => []
  }

  lemma LogExtended(log: seq<Event>, e: Event)
    ensures Replay(log + [e]) == match Replay(log) case None => None case Some(q) => Apply(q, e)
    ensures PushAnswers(log + [e]) == PushAnswers(log) +
            match e case PushOk(d) => [Some(d)] case PushFull => [None] case _ => []
    ensures PopAnswers(log + [e]) == PopAnswers(log) +
            match e case PopOk(d) => [Some(d)] case PopEmpty => [None] case _ => []
  {
    assert (log + [e])[..|log + [e]| - 1] == log;
  }

  /** The descriptors in flight. */
  function Queue(s: State): seq<PacketDesc>
    requires |s.popped| <= |s.pushed|
  {
    s.pushed[|s.popped|..]
  }

  // ------------------------------------------------------------------- the invariant

  ghost predicate SharedInv(s: State) {
    var m, n := |s.popped|, |s.pushed|;
    && |s.ring.buffer| == RING_SIZE
    && m <= n <= m + RING_SIZE
    && s.popped == s.pushed[..m]
    && s.ring.writeIdx == n % U32
    && s.ring.readIdx == m % U32
    && InSlots(s.ring.buffer, s.pushed, m)
  }

  /** From the m-th on, every published descriptor is in the slot of its number. */
  ghost predicate InSlots(buffer: seq<PacketDesc>, pushed: seq<PacketDesc>, m: nat)
    requires |buffer| == RING_SIZE
  {
    forall k :: m <= k < |pushed| ==> buffer[k % RING_SIZE] == pushed[k]
  }

  /** A stale read index only makes the ring look fuller than it is. */
  ghost predicate ProducerInv(s: State)
    requires SharedInv(s)
  {
    var m, n := |s.popped|, |s.pushed|;
    match s.prod
    case PIdle => true
    case PLoadedOwn(_, w) => w == n % U32
    case PLoadedPeer(_, w, r) => w == n % U32 && n - m <= Sub32(w, r) <= RING_SIZE
    case PMayCopy(_, w) => w == n % U32 && n - m < RING_SIZE
    case PCopiedAddr(desc, w) => w == n % U32 && n - m < RING_SIZE && s.ring.buffer[n % RING_SIZE].addr == desc.addr
    case PCopied(desc, w) => w == n % U32 && n - m < RING_SIZE && s.ring.buffer[n % RING_SIZE] == desc
  }

  /** A stale write index only makes the ring look emptier than it is. */
  ghost predicate ConsumerInv(s: State)
    requires SharedInv(s)
  {
    var m, n := |s.popped|, |s.pushed|;
    match s.cons
    case CIdle => true
    case CLoadedOwn(r) => r == m % U32
    case CLoadedPeer(r, w) => r == m % U32 && (r != w ==> m < n)
    case CMayCopy(r) => r == m % U32 && m < n
    case CCopiedAddr(r, addr) => r == m % U32 && m < n && addr == s.pushed[m].addr
    case CCopied(r, desc) => r == m % U32 && m < n && desc == s.pushed[m]
  }

  /** The log is a legal history of the bounded queue and agrees with what the calls
      returned, up to a refusal that has been decided but not yet returned. */
  ghost predicate HistoryInv(s: State)
    requires SharedInv(s)
  {
    && Replay(s.log) == Some(Queue(s))
    && PushAnswers(s.log) == s.pushReturns +
         (if s.prod.PLoadedPeer? && PushFails(s.prod.w, s.prod.r) then [None] else [])
    && PopAnswers(s.log) == s.popReturns +
         (if s.cons.CLoadedPeer? && s.cons.r == s.cons.w then [None] else [])
  }

  ghost predicate Inv(s: State) {
    SharedInv(s) && ProducerInv(s) && ConsumerInv(s) && HistoryInv(s)
  }

  lemma ProducerLoadKeepsInv(s: State)
    requires Inv(s) && (s.prod.PLoadedOwn? || s.prod.PLoadedPeer?)
    ensures Inv(ProducerStep(s))
  {
    if s.prod.PLoadedOwn? {
      WrappedDistance(|s.pushed|, |s.popped|);
      LogExtended(s.log, PushFull);
      assert s.log + [] == s.log;
    }
  }

  lemma ProducerCopyKeepsInv(s: State)
    requires Inv(s) && (s.prod.PMayCopy? || s.prod.PCopiedAddr?)
    ensures Inv(ProducerStep(s))
  {
    ProducerWritesFreeSlot(s);
    var s' := ProducerStep(s);
    assert SharedInv(s');
    assert ProducerInv(s');
    assert ConsumerInv(s');
  }

  lemma PublishKeepsSlots(buffer: seq<PacketDesc>, pushed: seq<PacketDesc>, m: nat, desc: PacketDesc)
    requires |buffer| == RING_SIZE && InSlots(buffer, pushed, m) && buffer[|pushed| % RING_SIZE] == desc
    ensures InSlots(buffer, pushed + [desc], m)
  {
  }

  lemma ProducerPublishKeepsInv(s: State)
    requires Inv(s) && s.prod.PCopied?
    ensures Inv(ProducerStep(s))
  {
    var s' := ProducerStep(s);
    var m, n, desc := |s.popped|, |s.pushed|, s.prod.desc;
    PublishKeepsSlots(s.ring.buffer, s.pushed, m, desc);
    NextIndex(n);
    assert s'.pushed[..m] == s.pushed[..m];
    assert SharedInv(s');
    assert ConsumerInv(s');
    LogExtended(s.log, PushOk(desc));
    assert Queue(s') == Queue(s) + [desc];
    assert HistoryInv(s');
  }

  /** The slot under the producer's pen is none of the slots in flight. */
  lemma ProducerWritesFreeSlot(s: State)
    requires SharedInv(s) && ProducerInv(s)
    requires s.prod.PMayCopy? || s.prod.PCopiedAddr?
    ensures Slot(s.prod.w) == |s.pushed| % RING_SIZE
    ensures forall k :: |s.popped| <= k < |s.pushed| ==> k % RING_SIZE != Slot(s.prod.w)
  {
    var m, n := |s.popped|, |s.pushed|;
    SlotOfCounter(n);
    forall k | m <= k < n ensures k % RING_SIZE != n % RING_SIZE {
      DistinctSlots(k, n);
    }
  }

  lemma ConsumerLoadKeepsInv(s: State)
    requires Inv(s) && (s.cons.CIdle? || s.cons.CLoadedPeer?)
    ensures Inv(ConsumerStep(s))
  {
  }

  lemma ConsumerLoadPeerKeepsInv(s: State)
    requires Inv(s) && s.cons.CLoadedOwn?
    ensures Inv(ConsumerStep(s))
  {
    WrappedDistance(|s.pushed|, |s.popped|);
    LookKeepsHistory(s);
  }

  lemma LookKeepsHistory(s: State)
    requires Inv(s) && s.cons.CLoadedOwn?
    requires s.ring.writeIdx == s.cons.r <==> Queue(s) == []
    ensures SharedInv(ConsumerStep(s)) && HistoryInv(ConsumerStep(s))
  {
    LogExtended(s.log, PopEmpty);
    assert s.log + [] == s.log;
  }

  lemma ConsumerCopyKeepsInv(s: State)
    requires Inv(s) && (s.cons.CMayCopy? || s.cons.CCopiedAddr?)
    ensures Inv(ConsumerStep(s))
  {
    SlotOfCounter(|s.popped|);
    var s' := ConsumerStep(s);
    assert SharedInv(s');
    assert ConsumerInv(s');
  }

  lemma ConsumerPublishKeepsInv(s: State)
    requires Inv(s) && s.cons.CCopied?
    ensures Inv(ConsumerStep(s))
  {
    var s' := ConsumerStep(s);
    var m := |s.popped|;
    assert SharedInv(s') by {
      NextIndex(m);
      assert s.pushed[..m + 1] == s.pushed[..m] + [s.pushed[m]];
    }
    assert ProducerInv(s') && ConsumerInv(s');
    assert HistoryInv(s') by {
      LogExtended(s.log, PopOk(s.cons.desc));
      assert Queue(s)[1..] == Queue(s');
    }
  }

  lemma NextKeepsInv(s: State, step: Step)
    requires Inv(s)
    ensures Inv(Next(s, step))
  {
    match step
    case Call(_) =>
    case Produce =>
      match s.prod {
        case PIdle =>
        case PLoadedOwn(_, _) | PLoadedPeer(_, _, _) => ProducerLoadKeepsInv(s);
        case PMayCopy(_, _) | PCopiedAddr(_, _) => ProducerCopyKeepsInv(s);
        case PCopied(_, _) => ProducerPublishKeepsInv(s);
      }
    case Consume =>
      match s.cons {
        case CIdle | CLoadedPeer(_, _) => ConsumerLoadKeepsInv(s);
        case CLoadedOwn(_) => ConsumerLoadPeerKeepsInv(s);
        case CMayCopy(_) | CCopiedAddr(_, _) => ConsumerCopyKeepsInv(s);
        case CCopied(_, _) => ConsumerPublishKeepsInv(s);
      }
  }

  lemma {:induction false} RunKeepsInv(garbage: seq<PacketDesc>, schedule: seq<Step>)
    requires |garbage| == RING_SIZE
    ensures Inv(Run(garbage, schedule))
  {
    if schedule != [] {
      RunKeepsInv(garbage, schedule[..|schedule| - 1]);
      NextKeepsInv(Run(garbage, schedule[..|schedule| - 1]), schedule[|schedule| - 1]);
    }
  }

  // ------------------------------------------------------------------ main theorems

  /** In every interleaving the consumer has received exactly a prefix of what the
      producer published, in order and unaltered; the rest is in flight in its slots,
      and the wrapped index difference is the number in flight, at most 4096. */
  lemma FifoInEveryInterleaving(garbage: seq<PacketDesc>, schedule: seq<Step>)
    requires |garbage| == RING_SIZE
    ensures var s := Run(garbage, schedule);
            && Delivered(s.popReturns) == s.popped <= s.pushed == Delivered(s.pushReturns)
            && Sub32(s.ring.writeIdx, s.ring.readIdx) == |Queue(s)| <= RING_SIZE
            && forall i :: 0 <= i < |Queue(s)| ==> s.ring.buffer[(|s.popped| + i) % RING_SIZE] == Queue(s)[i]
  {
    RunKeepsInv(garbage, schedule);
    ReturnsAreHistory(garbage, schedule);
    InOrderInSlots(Run(garbage, schedule));
  }

  lemma InOrderInSlots(s: State)
    requires SharedInv(s)
    ensures s.popped <= s.pushed
    ensures Sub32(s.ring.writeIdx, s.ring.readIdx) == |Queue(s)| <= RING_SIZE
    ensures forall i :: 0 <= i < |Queue(s)| ==> s.ring.buffer[(|s.popped| + i) % RING_SIZE] == Queue(s)[i]
  {
    WrappedDistance(|s.pushed|, |s.popped|);
    forall i | 0 <= i < |Queue(s)|
      ensures s.ring.buffer[(|s.popped| + i) % RING_SIZE] == Queue(s)[i]
    {
      assert s.pushed[|s.popped| + i] == Queue(s)[i];
    }
  }

  /** Linearizability: the log is a legal history of a bounded FIFO queue that ends in
      the current contents, and the calls returned what it says, in order; at most the
      refusal a call is about to return is ahead of the returns. */
  lemma Linearizable(garbage: seq<PacketDesc>, schedule: seq<Step>)
    requires |garbage| == RING_SIZE
    ensures var s := Run(garbage, schedule);
            && |s.popped| <= |s.pushed|
            && Replay(s.log) == Some(Queue(s))
            && (PushAnswers(s.log) == s.pushReturns || PushAnswers(s.log) == s.pushReturns + [None])
            && (PopAnswers(s.log) == s.popReturns || PopAnswers(s.log) == s.popReturns + [None])
            && (s.prod.PIdle? ==> PushAnswers(s.log) == s.pushReturns)
            && (s.cons.CIdle? ==> PopAnswers(s.log) == s.popReturns)
  {
    RunKeepsInv(garbage, schedule);
  }

  /** From the moment the consumer has seen a filled slot until it publishes read_idx,
      no step of the producer changes that slot, so the two half-slot copies can never
      mix two descriptors. */
  lemma NoTornRead(garbage: seq<PacketDesc>, schedule: seq<Step>, step: Step)
    requires |garbage| == RING_SIZE
    ensures var s := Run(garbage, schedule);
            ((s.cons.CLoadedPeer? && s.cons.r != s.cons.w) ||
             s.cons.CMayCopy? || s.cons.CCopiedAddr? || s.cons.CCopied?) ==>
            && |s.popped| < |s.pushed|
            && Slot(s.cons.r) < RING_SIZE
            && Next(s, step).ring.buffer[Slot(s.cons.r)] == s.ring.buffer[Slot(s.cons.r)] == s.pushed[|s.popped|]
  {
    var s := Run(garbage, schedule);
    RunKeepsInv(garbage, schedule);
    NextKeepsInv(s, step);
    if (s.cons.CLoadedPeer? && s.cons.r != s.cons.w) || s.cons.CMayCopy? || s.cons.CCopiedAddr? || s.cons.CCopied? {
      SlotOfCounter(|s.popped|);
      if step.Produce? && (s.prod.PMayCopy? || s.prod.PCopiedAddr?) {
        ProducerWritesFreeSlot(s);
      }
    }
  }

  /** A push is refused exactly when the queue really was full at the instant it loaded
      read_idx, and a pop exactly when the queue really was empty at the instant it
      loaded write_idx, whatever the other thread does afterwards. */
  lemma RefusalsAreExact(garbage: seq<PacketDesc>, schedule: seq<Step>)
    requires |garbage| == RING_SIZE
    ensures var s := Run(garbage, schedule);
            && |s.popped| <= |s.pushed|
            && (s.prod.PLoadedOwn? ==>
                  var p := Next(s, Produce).prod;
                  p.PLoadedPeer? && (PushFails(p.w, p.r) <==> |Queue(s)| == RING_SIZE))
            && (s.cons.CLoadedOwn? ==>
                  var c := Next(s, Consume).cons;
                  c.CLoadedPeer? && (c.r == c.w <==> Queue(s) == []))
  {
    RunKeepsInv(garbage, schedule);
    DecisionsAreExact(Run(garbage, schedule));
  }

  lemma DecisionsAreExact(s: State)
    requires Inv(s)
    ensures s.prod.PLoadedOwn? ==>
              var p := ProducerStep(s).prod;
              p.PLoadedPeer? && (PushFails(p.w, p.r) <==> |Queue(s)| == RING_SIZE)
    ensures s.cons.CLoadedOwn? ==>
              var c := ConsumerStep(s).cons;
              c.CLoadedPeer? && (c.r == c.w <==> Queue(s) == [])
  {
    WrappedDistance(|s.pushed|, |s.popped|);
  }

  /** If the queue has room whenever a push looks, no push is ever refused. */
  lemma {:induction false} RoomMeansNoRefusal(garbage: seq<PacketDesc>, schedule: seq<Step>)
    requires |garbage| == RING_SIZE
    requires forall i :: 0 <= i < |schedule| ==>
               var s := Run(garbage, schedule[..i]);
               s.prod.PLoadedOwn? ==> |s.pushed| < |s.popped| + RING_SIZE
    ensures var s := Run(garbage, schedule);
            None !in s.pushReturns && !(s.prod.PLoadedPeer? && PushFails(s.prod.w, s.prod.r))
  {
    if schedule != [] {
      var prefix := schedule[..|schedule| - 1];
      forall i | 0 <= i < |prefix|
        ensures var s := Run(garbage, prefix[..i]);
                s.prod.PLoadedOwn? ==> |s.pushed| < |s.popped| + RING_SIZE
      {
        assert prefix[..i] == schedule[..i];
      }
      RoomMeansNoRefusal(garbage, prefix);
      RefusalsAreExact(garbage, prefix);
    }
  }

  /** The descriptors among the returns, refusals left out. */
  function Delivered(answers: seq<Option<PacketDesc>>): seq<PacketDesc> {
    if answers == [] then []
    else Delivered(answers[..|answers| - 1]) +
         match answers[|answers| - 1] case Some(d) => [d] case None => []
  }

  lemma DeliveredExtended(answers: seq<Option<PacketDesc>>, o: Option<PacketDesc>)
    ensures Delivered(answers + [o]) == Delivered(answers) + match o case Some(d) => [d] case None => []
  {
    assert (answers + [o])[..|answers + [o]| - 1] == answers;
  }

  lemma {:induction false} ReturnsAreHistory(garbage: seq<PacketDesc>, schedule: seq<Step>)
    requires |garbage| == RING_SIZE
    ensures var s := Run(garbage, schedule);
            Delivered(s.pushReturns) == s.pushed && Delivered(s.popReturns) == s.popped
  {
    if schedule != [] {
      ReturnsAreHistory(garbage, schedule[..|schedule| - 1]);
      StepPushReturns(Run(garbage, schedule[..|schedule| - 1]), schedule[|schedule| - 1]);
      StepPopReturns(Run(garbage, schedule[..|schedule| - 1]), schedule[|schedule| - 1]);
    }
  }

  lemma StepPushReturns(s: State, step: Step)
    requires |s.ring.buffer| == RING_SIZE && Delivered(s.pushReturns) == s.pushed
    ensures Delivered(Next(s, step).pushReturns) == Next(s, step).pushed
  {
    if step.Produce? && s.prod.PLoadedPeer? {
      DeliveredExtended(s.pushReturns, None);
    } else if step.Produce? && s.prod.PCopied? {
      DeliveredExtended(s.pushReturns, Some(s.prod.desc));
    }
  }

  lemma StepPopReturns(s: State, step: Step)
    requires |s.ring.buffer| == RING_SIZE && Delivered(s.popReturns) == s.popped
    ensures Delivered(Next(s, step).popReturns) == Next(s, step).popped
  {
    match step
    case Call(_) =>
    case Produce => assert ProducerStep(s).popReturns == s.popReturns && ProducerStep(s).popped == s.popped;
    case Consume => ConsumerReturns(s);
  }

  lemma ConsumerReturns(s: State)
    requires |s.ring.buffer| == RING_SIZE && Delivered(s.popReturns) == s.popped
    ensures Delivered(ConsumerStep(s).popReturns) == ConsumerStep(s).popped
  {
    if s.cons.CLoadedPeer? {
      DeliveredExtended(s.popReturns, None);
    } else if s.cons.CCopied? {
      DeliveredExtended(s.popReturns, Some(s.cons.desc));
    }
  }

  // ----------------------------------------------------------- the ring as an object

  /** A state in which both threads are outside the ring. */
  function Quiet(mem: Ring): State {
    State(mem, PIdle, CIdle, [], [], [], [], [])
  }

  /** A push, or a pop, whose micro-steps nobody interrupts. */
  function SoloPush(mem: Ring, desc: PacketDesc): State
    requires |mem.buffer| == RING_SIZE
  {
    var p := Next(Next(Next(Quiet(mem), Call(desc)), Produce), Produce);
    Next(Next(Next(p, Produce), Produce), Produce)
  }

  function SoloPop(mem: Ring): State
    requires |mem.buffer| == RING_SIZE
  {
    var c := Next(Next(Next(Quiet(mem), Consume), Consume), Consume);
    if c.cons.CIdle? then c else Next(Next(Next(c, Consume), Consume), Consume)
  }

  lemma SoloPushEffect(mem: Ring, desc: PacketDesc)
    requires |mem.buffer| == RING_SIZE
    ensures var s := SoloPush(mem, desc);
            var k := mem.writeIdx % RING_SIZE;
            if PushFails(mem.writeIdx, mem.readIdx) then s.ring == mem && s.pushReturns == [None]
            else s.ring == Ring(mem.buffer[k := desc], Add32(mem.writeIdx, 1), mem.readIdx) &&
                 s.pushReturns == [Some(desc)]
  {
    SlotIsMod(mem.writeIdx);
    var k := mem.writeIdx % RING_SIZE;
    var cell := mem.buffer[k];
    var half := mem.buffer[k := cell.(addr := desc.addr)];
    assert half[k := half[k].(len := desc.len)] == mem.buffer[k := desc];
  }

  lemma SoloPopEffect(mem: Ring)
    requires |mem.buffer| == RING_SIZE
    ensures var s := SoloPop(mem);
            if mem.readIdx == mem.writeIdx then s.ring == mem && s.popReturns == [None]
            else s.ring == mem.(readIdx := Add32(mem.readIdx, 1)) &&
                 s.popReturns == [Some(mem.buffer[mem.readIdx % RING_SIZE])]
  {
    SlotIsMod(mem.readIdx);
  }

  /** The slot that lies `i` past index `r`. */
  function SlotAfter(r: u32, i: nat): (k: nat)
    ensures k < RING_SIZE
  {
    (r + i) % RING_SIZE
  }

  /** The descriptors in flight in a quiet ring, oldest first. */
  function Window(mem: Ring): (q: seq<PacketDesc>)
    requires |mem.buffer| == RING_SIZE && Sub32(mem.writeIdx, mem.readIdx) <= RING_SIZE
    ensures |q| == Sub32(mem.writeIdx, mem.readIdx)
  {
    seq(Sub32(mem.writeIdx, mem.readIdx), i requires 0 <= i => mem.buffer[SlotAfter(mem.readIdx, i)])
  }

  /** The slot the write index names lies just past the window. */
  lemma WriteSlot(w: u32, r: u32)
    ensures SlotAfter(r, Sub32(w, r)) == w % RING_SIZE
    ensures Sub32(w, r) < RING_SIZE ==> Sub32(Add32(w, 1), r) == Sub32(w, r) + 1
  {
    if w < r { assert r + Sub32(w, r) == 1048576 * RING_SIZE + w; }
  }

  lemma PushExtendsWindow(mem: Ring, desc: PacketDesc)
    requires |mem.buffer| == RING_SIZE && Sub32(mem.writeIdx, mem.readIdx) < RING_SIZE
    ensures var mem' := Ring(mem.buffer[mem.writeIdx % RING_SIZE := desc], Add32(mem.writeIdx, 1), mem.readIdx);
            Sub32(mem'.writeIdx, mem'.readIdx) <= RING_SIZE && Window(mem') == Window(mem) + [desc]
  {
    var r: nat, d: nat := mem.readIdx, Sub32(mem.writeIdx, mem.readIdx);
    WriteSlot(mem.writeIdx, r);
    forall i | 0 <= i < d ensures SlotAfter(r, i) != SlotAfter(r, d) {
      DistinctSlots(r + i, r + d);
    }
  }

  lemma PopShrinksWindow(mem: Ring)
    requires |mem.buffer| == RING_SIZE && 0 < Sub32(mem.writeIdx, mem.readIdx) <= RING_SIZE
    ensures var mem' := mem.(readIdx := Add32(mem.readIdx, 1));
            && Sub32(mem'.writeIdx, mem'.readIdx) <= RING_SIZE
            && Window(mem)[0] == mem.buffer[mem.readIdx % RING_SIZE]
            && Window(mem') == Window(mem)[1..]
  {
    var r, d := mem.readIdx, Sub32(mem.writeIdx, mem.readIdx);
    var mem' := mem.(readIdx := Add32(r, 1));
    assert Sub32(mem.writeIdx, mem'.readIdx) == d - 1;
    forall i | 0 <= i < d - 1 ensures SlotAfter(mem'.readIdx, i) == SlotAfter(r, i + 1) {
      SlotAcrossWrap(r, i);
    }
  }

  lemma SlotAcrossWrap(r: u32, i: nat)
    ensures SlotAfter(Add32(r, 1), i) == SlotAfter(r, i + 1)
  {
    if r == U32 - 1 {
      assert r + i + 1 == 1048576 * RING_SIZE + i;
    }
  }

  class Spsc {
    const buffer: array<PacketDesc>
    var writeIdx: u32
    var readIdx: u32

    ghost predicate Valid()
      reads this
    {
      buffer.Length == RING_SIZE && Sub32(writeIdx, readIdx) <= RING_SIZE
    }

    function Memory(): (mem: Ring)
      reads this, buffer
      ensures |mem.buffer| == buffer.Length
    {
      Ring(buffer[..], writeIdx, readIdx)
    }

    ghost function Contents(): seq<PacketDesc>
      requires Valid()
      reads this, buffer
    {
      Window(Memory())
    }

    constructor (storage: array<PacketDesc>)
      requires storage.Length == RING_SIZE
      ensures Valid() && buffer == storage && Contents() == []
    {
      buffer := storage;
      writeIdx := 0;
      readIdx := 0;
    }

    method Push(desc: PacketDesc) returns (ok: bool)
      requires Valid()
      modifies this`writeIdx, buffer
      ensures Valid()
      ensures Memory() == SoloPush(old(Memory()), desc).ring
      ensures SoloPush(old(Memory()), desc).pushReturns == [if ok then Some(desc) else None]
      ensures ok == (|old(Contents())| < RING_SIZE)
      ensures Contents() == if ok then old(Contents()) + [desc] else old(Contents())
    {
      SoloPushEffect(Memory(), desc);
      var w := writeIdx;
      var r := readIdx;
      if Sub32(w, r) >= RING_SIZE {
        return false;
      }
      SlotIsMod(w);
      PushExtendsWindow(Memory(), desc);
      buffer[Slot(w)] := desc;
      writeIdx := Add32(w, 1);
      return true;
    }

    method Pop() returns (result: Option<PacketDesc>)
      requires Valid()
      modifies this`readIdx
      ensures Valid()
      ensures Memory() == SoloPop(old(Memory())).ring
      ensures SoloPop(old(Memory())).popReturns == [result]
      ensures result == if old(Contents()) == [] then None else Some(old(Contents())[0])
      ensures Contents() == if result.None? then old(Contents()) else old(Contents())[1..]
    {
      SoloPopEffect(Memory());
      var r := readIdx;
      var w := writeIdx;
      if r == w {
        return None;
      }
      SlotIsMod(r);
      PopShrinksWindow(Memory());
      result := Some(buffer[Slot(r)]);
      readIdx := Add32(r, 1);
    }
  }
}

/** The free stack of UMEM frames: alloc and free as the AF_XDP program performs them
    on its address array, the loops built from them, and what an interrupted refill
    tolerates. */
module UmemFrames {
  import opened Bits

  const NUM_FRAMES: nat := 4096
  const FRAME_SIZE: nat := 2048
  const INVALID_FRAME: u64 := 0xFFFF_FFFF_FFFF_FFFF

  /** The UMEM chunk an address lies in; headroom offsets do not matter. */
  function ChunkOf(addr: u64): nat { addr / FRAME_SIZE }

  function Alloc(stack: seq<u64>): (seq<u64>, u64) {
    if stack == [] then (stack, INVALID_FRAME) else (stack[..|stack| - 1], stack[|stack| - 1])
  }

  function Free(stack: seq<u64>, frame: u64): seq<u64> {
    if |stack| >= NUM_FRAMES then stack else stack + [frame]
  }

  /** `n` successive allocations: the stack left over and the frames obtained. */
  function AllocMany(stack: seq<u64>, n: nat): (r: (seq<u64>, seq<u64>))
    ensures |r.1| == n
  {
    if n == 0 then (stack, [])
    else
      var (rest, taken) := AllocMany(stack, n - 1);
      (Alloc(rest).0, taken + [Alloc(rest).1])
  }

  /** Successive frees; the full guard of each drops what does not fit. */
  function FreeMany(stack: seq<u64>, frames: seq<u64>): seq<u64> {
    if frames == [] then stack else Free(FreeMany(stack, frames[..|frames| - 1]), frames[|frames| - 1])
  }

  /** With room for all, or for some, the stack takes the frames in order until it is full. */
  lemma {:induction false} FreeManyFills(stack: seq<u64>, frames: seq<u64>)
    requires |stack| <= NUM_FRAMES
    ensures var n := if |stack| + |frames| <= NUM_FRAMES then |frames| else NUM_FRAMES - |stack|;
            FreeMany(stack, frames) == stack + frames[..n]
  {
    if frames != [] {
      var before := frames[..|frames| - 1];
      FreeManyFills(stack, before);
      if |stack| + |frames| <= NUM_FRAMES {
        assert frames[..|frames|] == before[..|before|] + [frames[|before|]];
      } else {
        assert before[..NUM_FRAMES - |stack|] == frames[..NUM_FRAMES - |stack|];
      }
    } else {
      assert stack + frames[..0] == stack;
    }
  }

  /** The addresses configure_umem stores. */
  function FirstFrames(n: nat): (s: seq<u64>)
    requires n <= NUM_FRAMES
    ensures |s| == n
  {
    seq(n, i requires 0 <= i < n => i * FRAME_SIZE)
  }

  // ----------------------------------------------------------- counting chunks

  /** How many of the addresses lie in chunk `c`. */
  function Count(frames: seq<u64>, c: nat): nat {
    if frames == [] then 0
    else (if ChunkOf(frames[0]) == c then 1 else 0) + Count(frames[1..], c)
  }

  function Hit(frame: u64, c: nat): nat { if ChunkOf(frame) == c then 1 else 0 }

  lemma {:induction false} CountConcat(a: seq<u64>, b: seq<u64>, c: nat)
    ensures Count(a + b, c) == Count(a, c) + Count(b, c)
  {
    if a == [] {
      assert a + b == b;
    } else {
      assert (a + b)[1..] == a[1..] + b;
      CountConcat(a[1..], b, c);
    }
  }

  lemma CountPushed(a: seq<u64>, x: u64, c: nat)
    ensures Count(a + [x], c) == Count(a, c) + Hit(x, c)
  {
    CountConcat(a, [x], c);
    assert Count([x], c) == Hit(x, c);
  }

  lemma CountSplit(a: seq<u64>, n: nat, c: nat)
    requires n <= |a|
    ensures Count(a, c) == Count(a[..n], c) + Count(a[n..], c)
  {
    assert a == a[..n] + a[n..];
    CountConcat(a[..n], a[n..], c);
  }

  lemma CountRemoved(a: seq<u64>, i: nat, c: nat)
    requires i < |a|
    ensures Count(a[..i] + a[i + 1..], c) + Hit(a[i], c) == Count(a, c)
  {
    CountSplit(a, i, c);
    CountConcat(a[..i], a[i + 1..], c);
    assert a[i..][1..] == a[i + 1..];
  }

  /** A frame is in the list exactly when its chunk is counted. */
  lemma {:induction false} CountedIsPresent(a: seq<u64>, c: nat)
    ensures Count(a, c) > 0 <==> exists i :: 0 <= i < |a| && ChunkOf(a[i]) == c
  {
    if a != [] {
      CountedIsPresent(a[1..], c);
      if i :| 0 <= i < |a[1..]| && ChunkOf(a[1..][i]) == c {
        assert ChunkOf(a[i + 1]) == c;
      }
      forall i | 0 <= i < |a| && ChunkOf(a[i]) == c
        ensures Count(a, c) > 0
      {
        if i > 0 { assert a[1..][i - 1] == a[i]; }
      }
    }
  }

  /** The fresh stack names every chunk of the UMEM exactly once. */
  lemma {:induction false} FirstFramesCount(n: nat, c: nat)
    requires n <= NUM_FRAMES
    ensures Count(FirstFrames(n), c) == if c < n then 1 else 0
  {
    if n > 0 {
      FirstFramesCount(n - 1, c);
      assert FirstFrames(n) == FirstFrames(n - 1) + [(n - 1) * FRAME_SIZE];
      CountPushed(FirstFrames(n - 1), (n - 1) * FRAME_SIZE, c);
    }
  }

  /** Allocations from a deep enough stack move frames, and never yield the marker. */
  lemma {:induction false} AllocManyMoves(stack: seq<u64>, n: nat, c: nat)
    requires n <= |stack|
    ensures var (rest, taken) := AllocMany(stack, n);
            && rest == stack[..|stack| - n]
            && (forall i :: 0 <= i < n ==> taken[i] == stack[|stack| - 1 - i])
            && Count(rest, c) + Count(taken, c) == Count(stack, c)
  {
    if n > 0 {
      AllocManyMoves(stack, n - 1, c);
      var (rest, taken) := AllocMany(stack, n - 1);
      var k := |rest| - 1;
      assert rest == rest[..k] + [rest[k]];
      CountPushed(rest[..k], rest[k], c);
      CountPushed(taken, rest[k], c);
    }
  }

  // ------------------------------------------------------------ the stack as an object

  class Umem {
    const frameAddr: array<u64>
    var frameFree: u32

    ghost predicate Valid()
      reads this
    {
      frameAddr.Length == NUM_FRAMES && frameFree <= NUM_FRAMES
    }

    ghost function Stack(): (s: seq<u64>)
      requires Valid()
      reads this, frameAddr
      ensures |s| == frameFree
    {
      frameAddr[..frameFree]
    }

    /** The stack part of configure_umem. */
    constructor ()
      ensures Valid() && fresh(frameAddr) && Stack() == FirstFrames(NUM_FRAMES)
      ensures |Stack()| == 4096 && forall k :: 0 <= k < 4096 ==> Stack()[k] == 2048 * k
    {
      var a := new u64[NUM_FRAMES];
      for i := 0 to NUM_FRAMES
        invariant forall k :: 0 <= k < i ==> a[k] == k * FRAME_SIZE
      {
        a[i] := i * FRAME_SIZE;
      }
      frameAddr := a;
      frameFree := NUM_FRAMES;
    }

    method AllocFrame() returns (frame: u64)
      requires Valid()
      modifies this`frameFree, frameAddr
      ensures Valid()
      ensures (Stack(), frame) == Alloc(old(Stack()))
      ensures frameFree < old(frameFree) ==> frameAddr[frameFree] == INVALID_FRAME
    {
      if frameFree == 0 {
        return INVALID_FRAME;
      }
      frameFree := frameFree - 1;
      frame := frameAddr[frameFree];
      frameAddr[frameFree] := INVALID_FRAME;
      assert Stack() == old(Stack())[..|old(Stack())| - 1];
    }

    method FreeFrame(frame: u64)
      requires Valid()
      modifies this`frameFree, frameAddr
      ensures Valid()
      ensures Stack() == Free(old(Stack()), frame)
    {
      if frameFree >= NUM_FRAMES {
        return;
      }
      frameAddr[frameFree] := frame;
      frameFree := frameFree + 1;
    }

    /** The loop that moves `n` frames to the Fill ring, at start-up (n = 2048) and in
        every refill (n = 32): nothing in it looks at the allocator's answer. */
    method AllocBatch(n: nat) returns (frames: seq<u64>)
      requires Valid()
      modifies this`frameFree, frameAddr
      ensures Valid()
      ensures (Stack(), frames) == AllocMany(old(Stack()), n)
    {
      frames := [];
      for i := 0 to n
        invariant Valid()
        invariant (Stack(), frames) == AllocMany(old(Stack()), i)
      {
        var frame := AllocFrame();
        frames := frames + [frame];
      }
    }

    /** The completion loop: every reaped address goes back on the stack. */
    method FreeBatch(frames: seq<u64>)
      requires Valid()
      modifies this`frameFree, frameAddr
      ensures Valid()
      ensures Stack() == FreeMany(old(Stack()), frames)
    {
      for i := 0 to |frames|
        invariant Valid()
        invariant Stack() == FreeMany(old(Stack()), frames[..i])
      {
        assert frames[..i + 1][..i] == frames[..i];
        FreeFrame(frames[i]);
      }
      assert frames[..|frames|] == frames;
    }
  }

  // -------------------------------------------------------- an interrupted refill

  datatype StackOp = RefillAlloc | WorkerAlloc

  function Occurrences(ops: seq<StackOp>, op: StackOp): nat {
    if ops == [] then 0 else (if ops[0] == op then 1 else 0) + Occurrences(ops[1..], op)
  }

  /** Whether every allocation of the refill finds a frame. */
  predicate RefillsSucceed(free: nat, ops: seq<StackOp>) {
    ops == [] ||
    (if free == 0 then ops[0] == WorkerAlloc && RefillsSucceed(0, ops[1..])
     else RefillsSucceed(free - 1, ops[1..]))
  }

  lemma {:induction false} EnoughForAll(free: nat, ops: seq<StackOp>)
    requires free >= Occurrences(ops, RefillAlloc) + Occurrences(ops, WorkerAlloc)
    ensures RefillsSucceed(free, ops)
  {
    if ops != [] { EnoughForAll(free - 1, ops[1..]); }
  }

  /** The worst order: the worker takes its frames first. */
  function WorkerFirst(worker: nat, refill: nat): (ops: seq<StackOp>)
    ensures Occurrences(ops, RefillAlloc) == refill && Occurrences(ops, WorkerAlloc) == worker
  {
    if worker > 0 then [WorkerAlloc] + WorkerFirst(worker - 1, refill)
    else if refill > 0 then [RefillAlloc] + WorkerFirst(0, refill - 1)
    else []
  }

  lemma {:induction false} WorstOrder(free: nat, worker: nat, refill: nat)
    requires refill > 0
    ensures RefillsSucceed(free, WorkerFirst(worker, refill)) <==> free >= worker + refill
    decreases worker + refill
  {
    var ops := WorkerFirst(worker, refill);
    if worker > 0 {
      assert ops[1..] == WorkerFirst(worker - 1, refill);
      WorstOrder(if free == 0 then 0 else free - 1, worker - 1, refill);
    } else {
      assert ops[1..] == WorkerFirst(0, refill - 1);
      if refill > 1 && free > 0 { WorstOrder(free - 1, 0, refill - 1); }
    }
  }

  /** The refill's 32 unchecked allocations are good in every interleaving with k
      allocations of the worker exactly when at least 32 + k frames were free. */
  lemma RefillTolerance(free: nat, k: nat)
    ensures (forall ops :: Occurrences(ops, RefillAlloc) == 32 && Occurrences(ops, WorkerAlloc) == k ==>
               RefillsSucceed(free, ops))
       <==> free >= 32 + k
  {
    WorstOrder(free, k, 32);
    if free >= 32 + k {
      forall ops | Occurrences(ops, RefillAlloc) == 32 && Occurrences(ops, WorkerAlloc) == k
        ensures RefillsSucceed(free, ops)
      {
        EnoughForAll(free, ops);
      }
    }
  }

  /** So the guard `free_frames > 32` covers one interleaved worker allocation, not two. */
  lemma RefillGuardTolerance(k: nat)
    ensures (forall free: nat, ops ::
               free > 32 && Occurrences(ops, RefillAlloc) == 32 && Occurrences(ops, WorkerAlloc) == k ==>
                 RefillsSucceed(free, ops))
       <==> k <= 1
  {
    WorstOrder(33, k, 32);
    if k <= 1 {
      forall free: nat, ops | free > 32 && Occurrences(ops, RefillAlloc) == 32 && Occurrences(ops, WorkerAlloc) == k
        ensures RefillsSucceed(free, ops)
      {
        EnoughForAll(free, ops);
      }
    }
  }
}

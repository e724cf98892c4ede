/** Two threads in xsk_alloc_frame at once, without the mutual exclusion the rest of the
    model assumes: every access of the code to the shared counter and to the array is a
    step of its own, the three readings of the counter included. */
module RacyAlloc {
  import opened Bits
  import opened UmemFrames

  /** The accesses of one call. */
  datatype AllocPoint =
    | Begin
    | Guarded                            // the counter has been read, and was not 0
    | Loaded(n: u32)                     // read again, for the decrement
    | Stored(i: u32)                     // the decremented value has been written
    | Fetched(frame: u64)                // the slot of that value has been read
    | Reloaded(k: u32, frame: u64)       // the counter has been read for the invalidation
    | Returned(frame: u64)
    | Wild                               // an access outside the array

  datatype Racy = Racy(addr: seq<u64>, free: u32, first: AllocPoint, second: AllocPoint)

  function AllocStep(addr: seq<u64>, free: u32, p: AllocPoint): (r: (seq<u64>, u32, AllocPoint))
    requires |addr| == NUM_FRAMES
    ensures |r.0| == NUM_FRAMES
  {
    match p
    case Begin => (addr, free, if free == 0 then Returned(INVALID_FRAME) else Guarded)
    case Guarded => (addr, free, Loaded(free))
    case Loaded(n) => (addr, Sub32(n, 1), Stored(Sub32(n, 1)))
    case Stored(i) => (addr, free, if i < NUM_FRAMES then Fetched(addr[i]) else Wild)
    case Fetched(frame) => (addr, free, Reloaded(free, frame))
    case Reloaded(k, frame) =>
      if k < NUM_FRAMES then (addr[k := INVALID_FRAME], free, Returned(frame)) else (addr, free, Wild)
    case Returned(_) => (addr, free, p)
    case Wild => (addr, free, p)
  }

  /** Two threads: true is the first. */
  function Point(s: Racy, who: bool): AllocPoint { if who then s.first else s.second }

  function Move(s: Racy, who: bool): (s': Racy)
    requires |s.addr| == NUM_FRAMES
    ensures |s'.addr| == NUM_FRAMES && Point(s', !who) == Point(s, !who)
  {
    var (addr, free, p) := AllocStep(s.addr, s.free, Point(s, who));
    if who then Racy(addr, free, p, s.second) else Racy(addr, free, s.first, p)
  }

  /** Runs two allocations under a schedule that says who moves. */
  function RunRacy(s: Racy, schedule: seq<bool>): (s': Racy)
    requires |s.addr| == NUM_FRAMES
    ensures |s'.addr| == NUM_FRAMES
    decreases |schedule|
  {
    if schedule == [] then s else RunRacy(Move(s, schedule[0]), schedule[1..])
  }

  function Moves(schedule: seq<bool>, who: bool): nat {
    if schedule == [] then 0 else (if schedule[0] == who then 1 else 0) + Moves(schedule[1..], who)
  }

  /** Steps left to a call, at most. */
  function Left(p: AllocPoint): nat {
    match p
    case Begin => 6
    case Guarded => 5
    case Loaded(_) => 4
    case Stored(_) => 3
    case Fetched(_) => 2
    case Reloaded(_, _) => 1
    case _ => 0
  }

  /** The schedule lets both calls end. */
  predicate Complete(s: Racy, schedule: seq<bool>) {
    Moves(schedule, true) >= Left(s.first) && Moves(schedule, false) >= Left(s.second)
  }

  lemma CompleteMoves(s: Racy, schedule: seq<bool>)
    requires |s.addr| == NUM_FRAMES && Complete(s, schedule) && schedule != []
    ensures Complete(Move(s, schedule[0]), schedule[1..])
  {
  }

  // ------------------------------------------------------------- one after the other

  /** Uninterrupted, the accesses are exactly the atomic allocation, twice. */
  lemma SerialAllocs(addr: seq<u64>, free: nat)
    requires |addr| == NUM_FRAMES && free <= NUM_FRAMES
    ensures var s := RunRacy(Racy(addr, free, Begin, Begin), Steps(true, 6) + Steps(false, 6));
            var (stack1, f1) := Alloc(addr[..free]);
            var (stack2, f2) := Alloc(stack1);
            && s.first == Returned(f1) && s.second == Returned(f2)
            && s.free <= NUM_FRAMES && s.addr[..s.free] == stack2
  {
    var s := Racy(addr, free, Begin, Begin);
    RunSplit(s, Steps(true, 6), Steps(false, 6));
    SixSteps(s, true);
    SixSteps(RunRacy(s, Steps(true, 6)), false);
  }

  lemma {:induction false} RunSplit(s: Racy, a: seq<bool>, b: seq<bool>)
    requires |s.addr| == NUM_FRAMES
    ensures RunRacy(s, a + b) == RunRacy(RunRacy(s, a), b)
    decreases |a|
  {
    if a == [] {
      assert a + b == b;
    } else {
      assert (a + b)[1..] == a[1..] + b;
      RunSplit(Move(s, a[0]), a[1..], b);
    }
  }

  function Steps(who: bool, n: nat): seq<bool> { seq(n, _ => who) }

  lemma OneStep(s: Racy, who: bool, n: nat)
    requires |s.addr| == NUM_FRAMES && n > 0
    ensures RunRacy(s, Steps(who, n)) == RunRacy(Move(s, who), Steps(who, n - 1))
  {
    assert Steps(who, n)[1..] == Steps(who, n - 1);
  }

  lemma {:induction false} Idle(s: Racy, who: bool, n: nat)
    requires |s.addr| == NUM_FRAMES && Left(Point(s, who)) == 0
    ensures RunRacy(s, Steps(who, n)) == s
  {
    if n > 0 {
      OneStep(s, who, n);
      Idle(s, who, n - 1);
    }
  }

  function MoveMany(s: Racy, who: bool, n: nat): (s': Racy)
    requires |s.addr| == NUM_FRAMES
    ensures |s'.addr| == NUM_FRAMES
    decreases n
  {
    if n == 0 then s else MoveMany(Move(s, who), who, n - 1)
  }

  lemma {:induction false} StepsMove(s: Racy, who: bool, n: nat)
    requires |s.addr| == NUM_FRAMES
    ensures RunRacy(s, Steps(who, n)) == MoveMany(s, who, n)
    decreases n
  {
    if n > 0 {
      OneStep(s, who, n);
      StepsMove(Move(s, who), who, n - 1);
    }
  }

  lemma ThreeMoves(s: Racy, who: bool, n: nat)
    requires |s.addr| == NUM_FRAMES && n >= 3
    ensures MoveMany(s, who, n) == MoveMany(Move(Move(Move(s, who), who), who), who, n - 3)
  {
    assert MoveMany(s, who, n) == MoveMany(Move(s, who), who, n - 1);
    assert MoveMany(Move(s, who), who, n - 1) == MoveMany(Move(Move(s, who), who), who, n - 2);
  }

  /** Guard, load and store; then read, reload and invalidation. */
  lemma FirstHalf(s: Racy, who: bool)
    requires 0 < s.free <= NUM_FRAMES == |s.addr| && Point(s, who) == Begin
    ensures var s' := Move(Move(Move(s, who), who), who);
            s'.addr == s.addr && s'.free == s.free - 1 && Point(s', who) == Stored(s.free - 1) &&
            Point(s', !who) == Point(s, !who)
  {
  }

  lemma SecondHalf(s: Racy, who: bool)
    requires s.free < NUM_FRAMES == |s.addr| && Point(s, who) == Stored(s.free)
    ensures var s' := Move(Move(Move(s, who), who), who);
            && s'.addr == s.addr[s.free := INVALID_FRAME] && s'.free == s.free
            && Point(s', who) == Returned(s.addr[s.free]) && Point(s', !who) == Point(s, !who)
  {
  }

  lemma SixSteps(s: Racy, who: bool)
    requires |s.addr| == NUM_FRAMES && s.free <= NUM_FRAMES && Point(s, who) == Begin
    ensures var s' := RunRacy(s, Steps(who, 6));
            && Point(s', who) == Returned(Alloc(s.addr[..s.free]).1)
            && Point(s', !who) == Point(s, !who)
            && s'.free <= NUM_FRAMES && s'.addr[..s'.free] == Alloc(s.addr[..s.free]).0
  {
    if s.free == 0 {
      OneStep(s, who, 6);
      Idle(Move(s, who), who, 5);
    } else {
      StepsMove(s, who, 6);
      ThreeMoves(s, who, 6);
      FirstHalf(s, who);
      var half := Move(Move(Move(s, who), who), who);
      ThreeMoves(half, who, 3);
      SecondHalf(half, who);
      assert half.addr[half.free := INVALID_FRAME][..half.free] == s.addr[..s.free][..s.free - 1];
    }
  }

  // -------------------------------------------------------------------- interleaved

  /** The position in the schedule of a thread's i-th step from here on; -1 if that step is
      over, the end if it never comes. */
  function When(schedule: seq<bool>, who: bool, i: int): (k: int)
    ensures i > 0 ==> k >= 0
    ensures i <= 0 ==> k == -1
    decreases |schedule|
  {
    if i <= 0 then -1
    else if schedule == [] then 0
    else 1 + When(schedule[1..], who, if schedule[0] == who then i - 1 else i)
  }

  /** Both threads make their i-th step before either makes its j-th. Step 2 is the load of
      the counter, 3 the store, 4 the read of the slot, 6 the invalidation. */
  predicate BothBefore(schedule: seq<bool>, i: nat, j: nat) {
    When(schedule, true, i) < When(schedule, false, j) && When(schedule, false, i) < When(schedule, true, j)
  }

  /** The thread passes the guard before the other lowers the counter, and loads it after. */
  predicate Slips(schedule: seq<bool>, who: bool) {
    When(schedule, who, 1) < When(schedule, !who, 3) < When(schedule, who, 2)
  }

  /** The stack names no frame twice, and never the marker. */
  ghost predicate Distinct(stack: seq<u64>) {
    (forall i :: 0 <= i < |stack| ==> stack[i] != INVALID_FRAME) &&
    (forall i, j :: 0 <= i < j < |stack| ==> stack[i] != stack[j])
  }

  /** How two calls ended: with the top frame for both, or with nothing in common, if `x`
      is not the top frame. */
  ghost predicate Ended(s: Racy, top: u64, x: u64, collide: bool, wild: bool) {
    && Left(s.first) == 0 && Left(s.second) == 0
    && (collide ==> s.first == s.second == Returned(top))
    && (!collide && top != x && top != INVALID_FRAME ==> !(s.first.Returned? && s.first == s.second))
    && (wild <==> s.first.Wild? || s.second.Wild?)
  }

  /** One thread took slot i + 1 and lowered the counter before the other loaded it; `x` is
      in the slot below. */
  ghost predicate Apart(s: Racy, who: bool, i: nat, top: u64, x: u64) {
    && |s.addr| == NUM_FRAMES && i + 1 < NUM_FRAMES && s.addr[i] in {x, INVALID_FRAME}
    && (Point(s, who) in {Fetched(top), Reloaded(i + 1, top), Reloaded(i, top), Returned(top)} ||
        (Point(s, who) == Stored(i + 1) && s.addr[i + 1] == top))
    && (match Point(s, !who)
        case Begin => s.free == i + 1
        case Guarded => s.free == i + 1
        case Loaded(n) => n == i + 1 && s.free == i + 1
        case Stored(k) => k == i && s.free == i
        case Fetched(f) => f in {x, INVALID_FRAME} && s.free == i
        case Reloaded(k, f) => k == i && f in {x, INVALID_FRAME}
        case Returned(f) => f in {x, INVALID_FRAME}
        case Wild => false)
    && s.free in {i, i + 1}
  }

  lemma {:induction false} ApartEnds(s: Racy, schedule: seq<bool>, who: bool, i: nat, top: u64, x: u64)
    requires Apart(s, who, i, top, x) && Complete(s, schedule)
    ensures Ended(RunRacy(s, schedule), top, x, false, false)
    decreases |schedule|
  {
    if schedule != [] {
      CompleteMoves(s, schedule);
      ApartStep(s, schedule[0], who, i, top, x);
      ApartEnds(Move(s, schedule[0]), schedule[1..], who, i, top, x);
    }
  }

  lemma ApartStep(s: Racy, mover: bool, who: bool, i: nat, top: u64, x: u64)
    requires Apart(s, who, i, top, x)
    ensures Apart(Move(s, mover), who, i, top, x)
  {
    if mover == who { ApartTaker(s, who, i, top, x); } else { ApartOther(s, who, i, top, x); }
  }

  lemma ApartTaker(s: Racy, who: bool, i: nat, top: u64, x: u64)
    requires Apart(s, who, i, top, x)
    ensures Apart(Move(s, who), who, i, top, x)
  {
  }

  lemma ApartOther(s: Racy, who: bool, i: nat, top: u64, x: u64)
    requires Apart(s, who, i, top, x)
    ensures Apart(Move(s, !who), who, i, top, x)
  {
  }

  /** The same when the stack had one frame. The other thread finds the guard closed, or has
      slipped through it and will leave the array. */
  ghost predicate Last(s: Racy, who: bool, top: u64, slipped: bool) {
    && |s.addr| == NUM_FRAMES
    && ((Point(s, who) == Stored(0) && s.addr[0] == top) || Point(s, who) in {Fetched(top), Returned(top)} ||
        (Point(s, who).Reloaded? && Point(s, who).frame == top && (!slipped ==> Point(s, who).k == 0)) ||
        (slipped && Point(s, who) == Wild))
    && (if slipped then
          (Point(s, !who) == Guarded && s.free == 0) || (Point(s, !who) == Loaded(0) && s.free == 0) ||
          Point(s, !who) == Stored(U32 - 1) || Point(s, !who) == Wild
        else s.free == 0 && Point(s, !who) in {Begin, Returned(INVALID_FRAME)})
  }

  lemma {:induction false} LastEnds(s: Racy, schedule: seq<bool>, who: bool, top: u64, slipped: bool)
    requires Last(s, who, top, slipped) && Complete(s, schedule)
    ensures Ended(RunRacy(s, schedule), top, INVALID_FRAME, false, slipped)
    decreases |schedule|
  {
    if schedule != [] {
      CompleteMoves(s, schedule);
      LastStep(s, schedule[0], who, top, slipped);
      LastEnds(Move(s, schedule[0]), schedule[1..], who, top, slipped);
    }
  }

  lemma LastStep(s: Racy, mover: bool, who: bool, top: u64, slipped: bool)
    requires Last(s, who, top, slipped)
    ensures Last(Move(s, mover), who, top, slipped)
  {
  }

  /** Both threads have loaded the same value i + 1 and are about to take slot i, which still
      holds its frame. */
  ghost predicate Together(s: Racy, i: nat, top: u64) {
    && |s.addr| == NUM_FRAMES && i < NUM_FRAMES && s.addr[i] == top
    && s.first in {Loaded(i + 1), Stored(i), Fetched(top), Reloaded(i, top)}
    && s.second in {Loaded(i + 1), Stored(i), Fetched(top), Reloaded(i, top)}
    && (s.free == i || (s.free == i + 1 && s.first.Loaded? && s.second.Loaded?))
  }

  lemma TogetherStep(s: Racy, who: bool, i: nat, top: u64)
    requires Together(s, i, top) && !Point(s, who).Reloaded?
    ensures Together(Move(s, who), i, top)
    ensures Left(Point(Move(s, who), who)) == Left(Point(s, who)) - 1
  {
  }

  /** Both have read the frame. */
  lemma {:induction false} BothRead(s: Racy, schedule: seq<bool>, i: nat, top: u64)
    requires |s.addr| == NUM_FRAMES && i < NUM_FRAMES && s.free == i && Complete(s, schedule)
    requires s.first in {Fetched(top), Reloaded(i, top), Returned(top)}
    requires s.second in {Fetched(top), Reloaded(i, top), Returned(top)}
    ensures RunRacy(s, schedule).first == RunRacy(s, schedule).second == Returned(top)
    decreases |schedule|
  {
    if schedule != [] {
      CompleteMoves(s, schedule);
      BothRead(Move(s, schedule[0]), schedule[1..], i, top);
    }
  }

  /** One has taken the frame and invalidated the slot before the other read it. */
  ghost predicate TooLate(s: Racy, who: bool, i: nat, top: u64) {
    && |s.addr| == NUM_FRAMES && i < NUM_FRAMES && s.addr[i] == INVALID_FRAME
    && Point(s, who) == Returned(top)
    && Point(s, !who) in {Loaded(i + 1), Stored(i), Fetched(INVALID_FRAME), Reloaded(i, INVALID_FRAME),
                          Returned(INVALID_FRAME)}
    && s.free == i
  }

  lemma {:induction false} TooLateEnds(s: Racy, schedule: seq<bool>, who: bool, i: nat, top: u64)
    requires TooLate(s, who, i, top) && Complete(s, schedule)
    ensures Ended(RunRacy(s, schedule), top, INVALID_FRAME, false, false)
    decreases |schedule|
  {
    if schedule != [] {
      CompleteMoves(s, schedule);
      TooLateEnds(Move(s, schedule[0]), schedule[1..], who, i, top);
    }
  }

  /** When a thread makes the step that leaves it `j` more: 5 after the guard, 4 after the
      load, 3 after the store, 2 after the read, 0 after the invalidation. */
  function Time(s: Racy, schedule: seq<bool>, who: bool, j: int): int {
    When(schedule, who, Left(Point(s, who)) - j)
  }

  /** Both steps come before both others. */
  predicate Earlier(s: Racy, schedule: seq<bool>, i: int, j: int) {
    && Time(s, schedule, true, i) < Time(s, schedule, false, j)
    && Time(s, schedule, false, i) < Time(s, schedule, true, j)
  }

  /** A step that is still to come is one closer after a move. */
  lemma TimeShifts(s: Racy, schedule: seq<bool>, who: bool, j: int)
    requires |s.addr| == NUM_FRAMES && schedule != [] && Left(Point(s, who)) > j
    requires Left(Point(Move(s, schedule[0]), schedule[0])) == Left(Point(s, schedule[0])) - 1
    ensures Time(Move(s, schedule[0]), schedule[1..], who, j) == Time(s, schedule, who, j) - 1
    ensures Time(s, schedule, who, j) >= 0
  {
  }

  /** A move shifts a comparison of a step with a later one that is still to come. */
  lemma OrderShifts(s: Racy, schedule: seq<bool>, who: bool, i: int, j: int)
    requires |s.addr| == NUM_FRAMES && schedule != []
    requires Left(Point(Move(s, schedule[0]), schedule[0])) == Left(Point(s, schedule[0])) - 1
    requires Left(Point(Move(s, schedule[0]), !who)) > j
    ensures Time(s, schedule, who, i) < Time(s, schedule, !who, j) <==>
            Time(Move(s, schedule[0]), schedule[1..], who, i) < Time(Move(s, schedule[0]), schedule[1..], !who, j)
  {
    TimeShifts(s, schedule, !who, j);
    if Left(Point(s, who)) > i { TimeShifts(s, schedule, who, i); }
  }

  predicate ReadsFirst(s: Racy, schedule: seq<bool>) { Earlier(s, schedule, 2, 0) }

  lemma TogetherStays(s: Racy, schedule: seq<bool>, i: nat, top: u64)
    requires Together(s, i, top) && schedule != [] && !Point(s, schedule[0]).Reloaded?
    ensures Together(Move(s, schedule[0]), i, top)
    ensures ReadsFirst(Move(s, schedule[0]), schedule[1..]) <==> ReadsFirst(s, schedule)
  {
    TogetherStep(s, schedule[0], i, top);
    OrderShifts(s, schedule, true, 2, 0);
    OrderShifts(s, schedule, false, 2, 0);
  }

  lemma Taken(s: Racy, schedule: seq<bool>, i: nat, top: u64)
    requires Together(s, i, top) && schedule != [] && Point(s, schedule[0]).Reloaded?
    requires Left(Point(s, !schedule[0])) > 2
    ensures TooLate(Move(s, schedule[0]), schedule[0], i, top) && !ReadsFirst(s, schedule)
  {
    assert Time(s, schedule, schedule[0], 0) == 0 && Time(s, schedule, !schedule[0], 2) > 0;
  }

  lemma {:induction false} TogetherEnds(s: Racy, schedule: seq<bool>, i: nat, top: u64)
    requires Together(s, i, top) && Complete(s, schedule)
    ensures Ended(RunRacy(s, schedule), top, INVALID_FRAME, ReadsFirst(s, schedule), false)
    decreases |schedule|
  {
    if Left(s.first) <= 2 && Left(s.second) <= 2 {
      BothRead(s, schedule, i, top);
    } else {
      var who := schedule[0];
      CompleteMoves(s, schedule);
      if Point(s, who).Reloaded? {
        Taken(s, schedule, i, top);
        TooLateEnds(Move(s, who), schedule[1..], who, i, top);
      } else {
        TogetherStays(s, schedule, i, top);
        TogetherEnds(Move(s, who), schedule[1..], i, top);
      }
    }
  }

  /** Neither thread has lowered the counter from n. */
  ghost predicate Quiet(s: Racy, addr: seq<u64>, n: nat) {
    && |addr| == NUM_FRAMES && 0 < n <= NUM_FRAMES && s.addr == addr && s.free == n
    && s.first in {Begin, Guarded, Loaded(n)} && s.second in {Begin, Guarded, Loaded(n)}
  }

  function Below(addr: seq<u64>, n: nat): u64
    requires 0 < n <= |addr|
  {
    if n == 1 then INVALID_FRAME else addr[n - 2]
  }

  predicate LoadsFirst(s: Racy, schedule: seq<bool>) { Earlier(s, schedule, 4, 3) }

  predicate SlipsFrom(s: Racy, schedule: seq<bool>, who: bool) {
    Time(s, schedule, who, 5) < Time(s, schedule, !who, 3) < Time(s, schedule, who, 4)
  }

  /** A guard or a load leaves the phase and the conditions as they are. */
  lemma QuietStep(s: Racy, schedule: seq<bool>, addr: seq<u64>, n: nat)
    requires Quiet(s, addr, n) && schedule != [] && !Point(s, schedule[0]).Loaded?
    ensures var s' := Move(s, schedule[0]);
            && Quiet(s', addr, n)
            && (LoadsFirst(s', schedule[1..]) <==> LoadsFirst(s, schedule))
            && (ReadsFirst(s', schedule[1..]) <==> ReadsFirst(s, schedule))
  {
    OrderShifts(s, schedule, true, 4, 3);
    OrderShifts(s, schedule, false, 4, 3);
    OrderShifts(s, schedule, true, 2, 0);
    OrderShifts(s, schedule, false, 2, 0);
  }

  lemma QuietSlips(s: Racy, schedule: seq<bool>, addr: seq<u64>, n: nat, who: bool)
    requires Quiet(s, addr, n) && schedule != [] && !Point(s, schedule[0]).Loaded?
    ensures SlipsFrom(Move(s, schedule[0]), schedule[1..], who) <==> SlipsFrom(s, schedule, who)
  {
    OrderShifts(s, schedule, who, 5, 3);
    TimeShifts(s, schedule, !who, 3);
    if Left(Point(s, who)) > 4 { TimeShifts(s, schedule, who, 4); }
  }

  /** A first store decides them. */
  lemma QuietStore(s: Racy, schedule: seq<bool>, addr: seq<u64>, n: nat)
    requires Quiet(s, addr, n) && schedule != [] && Point(s, schedule[0]).Loaded? && !Point(s, !schedule[0]).Loaded?
    ensures !LoadsFirst(s, schedule)
    ensures SlipsFrom(s, schedule, true) || SlipsFrom(s, schedule, false) <==> Point(s, !schedule[0]).Guarded?
  {
    var who := schedule[0];
    assert When(schedule, who, 1) == 0;
    assert When(schedule, !who, Left(Point(s, !who)) - 4) >= 1;
    assert !SlipsFrom(s, schedule, who);
    assert SlipsFrom(s, schedule, !who) <==> Point(s, !who).Guarded?;
  }

  lemma {:induction false} QuietEnds(s: Racy, schedule: seq<bool>, addr: seq<u64>, n: nat)
    requires Quiet(s, addr, n) && Complete(s, schedule)
    ensures Ended(RunRacy(s, schedule), addr[n - 1], Below(addr, n),
                  LoadsFirst(s, schedule) && ReadsFirst(s, schedule),
                  n == 1 && (SlipsFrom(s, schedule, true) || SlipsFrom(s, schedule, false)))
    decreases |schedule|
  {
    if s.first.Loaded? && s.second.Loaded? {
      TogetherEnds(s, schedule, n - 1, addr[n - 1]);
      BothLoaded(s, schedule);
    } else {
      var who, rest := schedule[0], schedule[1..];
      CompleteMoves(s, schedule);
      if !Point(s, who).Loaded? {
        QuietStep(s, schedule, addr, n);
        QuietSlips(s, schedule, addr, n, true);
        QuietSlips(s, schedule, addr, n, false);
        QuietEnds(Move(s, who), rest, addr, n);
      } else {
        QuietStore(s, schedule, addr, n);
        if n > 1 {
          ApartEnds(Move(s, who), rest, who, n - 2, addr[n - 1], addr[n - 2]);
        } else {
          LastEnds(Move(s, who), rest, who, addr[0], Point(s, !who).Guarded?);
        }
      }
    }
  }

  lemma BothLoaded(s: Racy, schedule: seq<bool>)
    requires s.first.Loaded? && s.second.Loaded?
    ensures LoadsFirst(s, schedule) && !SlipsFrom(s, schedule, true) && !SlipsFrom(s, schedule, false)
  {
  }

  /** Without mutual exclusion: every schedule that lets both calls end, on any non-empty
      stack. Both threads are handed the same frame, the top one, exactly when both loads of
      the counter precede both stores and both reads of the slot precede both invalidations;
      `exactly` needs the stack's frames to be distinct. And an access leaves the array
      exactly when the stack had one frame, and one thread passed the guard before the other
      lowered the counter and loaded it after. */
  lemma RacyAllocsCollide(addr: seq<u64>, free: nat, schedule: seq<bool>)
    requires |addr| == NUM_FRAMES && 0 < free <= NUM_FRAMES
    requires Moves(schedule, true) >= 6 && Moves(schedule, false) >= 6
    ensures var s := RunRacy(Racy(addr, free, Begin, Begin), schedule);
            var collide := BothBefore(schedule, 2, 3) && BothBefore(schedule, 4, 6);
            && (s.first.Returned? || s.first.Wild?) && (s.second.Returned? || s.second.Wild?)
            && (collide ==> s.first == s.second == Returned(addr[free - 1]))
            && (Distinct(addr[..free]) ==> (s.first.Returned? && s.first == s.second <==> collide))
            && (s.first.Wild? || s.second.Wild? <==> free == 1 && (Slips(schedule, true) || Slips(schedule, false)))
  {
    var s := Racy(addr, free, Begin, Begin);
    QuietEnds(s, schedule, addr, free);
    if Distinct(addr[..free]) {
      assert addr[..free][free - 1] == addr[free - 1];
      if free > 1 { assert addr[..free][free - 2] == addr[free - 2]; }
    }
  }
}

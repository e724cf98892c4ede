/** The auto-mitigation state machine of the control plane: defence levels 0 (Normal)
    to 4 (Survival) and 5 (Recovery), with a hold counter that delays every change that
    is not an emergency. One tick is one second. */
module Mitigation {

  const NORMAL: nat := 0
  const SURVIVAL: nat := 4
  const RECOVERY: nat := 5

  /** What one tick asks of the state machine. */
  datatype Demand = Demand(target: nat, emergency: bool)

  /** The demands measurements can lead to; see `DemandIsInput`. */
  type Input = d: Demand | d.target <= 4 && (d.emergency ==> d.target == 4) witness Demand(0, false)

  /** CPU, RAM and map usage in percent, the queue drop ratio, and the ring fill level. */
  datatype Measurement = Measurement(cpu: real, ram: real, drop: real, mapUse: real, ring: nat)

  function Grade(x: real, l1: real, l2: real, l3: real, l4: real): nat {
    if x > l4 then 4 else if x > l3 then 3 else if x > l2 then 2 else if x > l1 then 1 else 0
  }

  function Max(a: nat, b: nat): nat { if b > a then b else a }

  /** The largest of the five grades. */
  function Target(m: Measurement): nat {
    Max(Max(Max(Max(Grade(m.cpu, 60.0, 80.0, 90.0, 95.0), Grade(m.ram, 70.0, 85.0, 92.0, 95.0)),
                Grade(m.drop, 0.01, 0.03, 0.05, 0.10)), Grade(m.mapUse, 60.0, 80.0, 90.0, 95.0)),
        Grade(m.ring as real, 60.0, 80.0, 90.0, 95.0))
  }

  function Assess(m: Measurement): Demand {
    var emergency := m.cpu > 98.0 || m.ram > 98.0 || m.mapUse > 99.0 || m.drop > 0.50 || m.ring > 98;
    Demand(if emergency then 4 else Target(m), emergency)
  }

  datatype State = State(level: nat, hold: nat)

  const INITIAL := State(NORMAL, 0)

  function Step(s: State, d: Demand): State {
    if d.emergency && s.level != SURVIVAL then State(SURVIVAL, 30)
    else if d.target > s.level then
      if s.level == RECOVERY then State(d.target, 5)
      else if s.hold > 0 then s.(hold := s.hold - 1)
      else State(d.target, 5)
    else if d.target < s.level then
      if s.hold > 0 then s.(hold := s.hold - 1)
      else if 0 < s.level <= 4 && d.target == 0 then State(RECOVERY, 60)
      else if s.level == RECOVERY then State(NORMAL, 0)
      else State(d.target, 30)
    else s
  }

  /** Whether the tick counts as a survival activation. */
  predicate Activates(s: State, d: Demand) { d.emergency && s.level != SURVIVAL }

  function After(s: State, inputs: seq<Input>): State {
    if inputs == [] then s else Step(After(s, inputs[..|inputs| - 1]), inputs[|inputs| - 1])
  }

  /** Level changes and survival activations along a run. */
  function Changes(s: State, inputs: seq<Input>): nat {
    if inputs == [] then 0
    else
      var before := inputs[..|inputs| - 1];
      Changes(s, before) + if After(s, inputs).level != After(s, before).level then 1 else 0
  }

  function Activations(s: State, inputs: seq<Input>): nat {
    if inputs == [] then 0
    else
      var before := inputs[..|inputs| - 1];
      Activations(s, before) + if Activates(After(s, before), inputs[|inputs| - 1]) then 1 else 0
  }

  // --------------------------------------------------------------------- the engine

  /** The two variables of the ticker loop and the activation metric. */
  class Engine {
    var currentLevel: nat
    var levelHoldTime: nat
    var survivalActivations: nat

    function Current(): State
      reads this
    {
      State(currentLevel, levelHoldTime)
    }

    constructor ()
      ensures Current() == INITIAL && survivalActivations == 0
    {
      currentLevel := 0;
      levelHoldTime := 0;
      survivalActivations := 0;
    }

    /** One pass of the ticker loop after the measurements have been assessed. */
    method Tick(targetLevel: nat, emergency: bool)
      modifies this
      ensures Current() == Step(old(Current()), Demand(targetLevel, emergency))
      ensures survivalActivations == old(survivalActivations) +
                if Activates(old(Current()), Demand(targetLevel, emergency)) then 1 else 0
    {
      if emergency && currentLevel != 4 {
        currentLevel := 4;
        levelHoldTime := 30;
        survivalActivations := survivalActivations + 1;
      } else if targetLevel > currentLevel {
        if currentLevel == 5 {
          currentLevel := targetLevel;
          levelHoldTime := 5;
        } else if levelHoldTime > 0 {
          levelHoldTime := levelHoldTime - 1;
        } else {
          currentLevel := targetLevel;
          levelHoldTime := 5;
        }
      } else if targetLevel < currentLevel {
        if levelHoldTime > 0 {
          levelHoldTime := levelHoldTime - 1;
        } else if currentLevel > 0 && currentLevel <= 4 && targetLevel == 0 {
          currentLevel := 5;
          levelHoldTime := 60;
        } else if currentLevel == 5 {
          currentLevel := 0;
          levelHoldTime := 0;
        } else {
          currentLevel := targetLevel;
          levelHoldTime := 30;
        }
      }
    }

    /** The ticker loop over the ticks' demands. */
    method Drive(inputs: seq<Input>)
      modifies this
      ensures Current() == After(old(Current()), inputs)
      ensures survivalActivations == old(survivalActivations) + Activations(old(Current()), inputs)
    {
      for i := 0 to |inputs|
        invariant Current() == After(old(Current()), inputs[..i])
        invariant survivalActivations == old(survivalActivations) + Activations(old(Current()), inputs[..i])
      {
        assert inputs[..i + 1][..i] == inputs[..i];
        Tick(inputs[i].target, inputs[i].emergency);
      }
      assert inputs[..|inputs|] == inputs;
    }
  }

  // ------------------------------------------------------------- reachable states

  /** What every reachable state satisfies: there are six levels, level 0 never holds, only Recovery holds
      longer than 30. */
  predicate Reachable(s: State) {
    && s.level <= RECOVERY
    && (s.level == NORMAL ==> s.hold == 0)
    && s.hold <= (if s.level == RECOVERY then 60 else 30)
  }

  lemma {:induction false} RunReachable(inputs: seq<Input>)
    ensures Reachable(After(INITIAL, inputs))
  {
    if inputs != [] { RunReachable(inputs[..|inputs| - 1]); }
  }

  /** ...and every such state is reached by some run. */
  lemma ReachableIsReached(s: State) returns (inputs: seq<Input>)
    requires Reachable(s)
    ensures After(INITIAL, inputs) == s
    decreases s.level == RECOVERY, s.level != SURVIVAL
  {
    var calm, panic := Demand(0, false), Demand(SURVIVAL, true);
    if s.level == NORMAL {
      inputs := [];
    } else if s.level == SURVIVAL {
      OneMore(INITIAL, [], panic);
      Waiting(State(SURVIVAL, 30), calm, 30 - s.hold);
      AfterConcat(INITIAL, [panic], Repeat(calm, 30 - s.hold));
      inputs := [panic] + Repeat(calm, 30 - s.hold);
    } else {
      var enter := if s.level == RECOVERY then calm else Demand(s.level, false);
      var full := if s.level == RECOVERY then 60 else 30;
      var before := ReachableIsReached(State(SURVIVAL, 0));
      OneMore(INITIAL, before, enter);
      Waiting(State(s.level, full), calm, full - s.hold);
      AfterConcat(INITIAL, before + [enter], Repeat(calm, full - s.hold));
      inputs := before + [enter] + Repeat(calm, full - s.hold);
    }
  }

  // --------------------------------------------------------------- runs in pieces

  function Repeat(d: Input, n: nat): (inputs: seq<Input>)
    ensures |inputs| == n
  {
    seq(n, _ => d)
  }

  lemma OneMore(s: State, inputs: seq<Input>, d: Input)
    ensures After(s, inputs + [d]) == Step(After(s, inputs), d)
    ensures Changes(s, inputs + [d]) == Changes(s, inputs) +
              if Step(After(s, inputs), d).level != After(s, inputs).level then 1 else 0
  {
    assert (inputs + [d])[..|inputs + [d]| - 1] == inputs;
  }

  lemma {:induction false} AfterConcat(s: State, a: seq<Input>, b: seq<Input>)
    ensures After(s, a + b) == After(After(s, a), b)
    ensures Changes(s, a + b) == Changes(s, a) + Changes(After(s, a), b)
  {
    if b == [] {
      assert a + b == a;
    } else {
      var b' := b[..|b| - 1];
      AfterConcat(s, a, b');
      assert a + b == (a + b') + [b[|b| - 1]];
      OneMore(s, a + b', b[|b| - 1]);
    }
  }

  lemma RepeatMore(d: Input, n: nat)
    requires n > 0
    ensures Repeat(d, n) == Repeat(d, n - 1) + [d] && Repeat(d, n) == [d] + Repeat(d, n - 1)
  {
  }

  /** While the target differs and nothing is urgent, the hold counter runs down. */
  lemma {:induction false} Waiting(s: State, d: Input, n: nat)
    requires d.target != s.level && !d.emergency && n <= s.hold
    ensures After(s, Repeat(d, n)) == s.(hold := s.hold - n)
    ensures Changes(s, Repeat(d, n)) == 0
  {
    if n > 0 {
      Waiting(s, d, n - 1);
      RepeatMore(d, n);
      OneMore(s, Repeat(d, n - 1), d);
    }
  }

  // ------------------------------------------------------------------ main theorems

  /** Measurements never ask for Recovery, and the target 4 an emergency forces is the
      one the grades give anyway. */
  lemma DemandIsInput(m: Measurement)
    ensures Assess(m).target == Target(m) <= 4
    ensures Assess(m).emergency ==> Target(m) == 4
  {
  }

  /** The thresholds: level 1, 2, 3 or 4 is demanded exactly if some measurement passes its
      threshold for that level, and an emergency is one of these five. */
  lemma DemandThresholds(m: Measurement)
    ensures Assess(m).target >= 1 <==>
            m.cpu > 60.0 || m.ram > 70.0 || m.drop > 0.01 || m.mapUse > 60.0 || m.ring > 60
    ensures Assess(m).target >= 2 <==>
            m.cpu > 80.0 || m.ram > 85.0 || m.drop > 0.03 || m.mapUse > 80.0 || m.ring > 80
    ensures Assess(m).target >= 3 <==>
            m.cpu > 90.0 || m.ram > 92.0 || m.drop > 0.05 || m.mapUse > 90.0 || m.ring > 90
    ensures Assess(m).target >= 4 <==>
            m.cpu > 95.0 || m.ram > 95.0 || m.drop > 0.10 || m.mapUse > 95.0 || m.ring > 95
    ensures Assess(m).emergency <==>
            m.cpu > 98.0 || m.ram > 98.0 || m.drop > 0.50 || m.mapUse > 99.0 || m.ring > 98
  {
  }

  /** Ticks that ask for another level. */
  function Differing(inputs: seq<Input>, level: nat): nat {
    if inputs == [] then 0
    else Differing(inputs[..|inputs| - 1], level) + if inputs[|inputs| - 1].target != level then 1 else 0
  }

  /** The hold counts the ticks that ask for another level, and only those: as long as there
      are no more of them than it holds, the level stays, however many other ticks there are. */
  lemma {:induction false} HoldCountsDown(s: State, inputs: seq<Input>)
    requires Reachable(s) && Differing(inputs, s.level) <= s.hold
    requires s.level != 4 ==> forall d <- inputs :: !d.emergency
    ensures After(s, inputs) == State(s.level, s.hold - Differing(inputs, s.level))
  {
    if inputs != [] {
      HoldCountsDown(s, inputs[..|inputs| - 1]);
      assert inputs[|inputs| - 1] in inputs;
    }
  }

  /** The next such tick changes the level: up and down to the level asked for, with a hold of
      5 up and 30 down; to Recovery for 60 ticks if Normal is asked for; and from Recovery to
      Normal. An emergency changes it at once, to Survival with a hold of 30. */
  lemma LevelChanges(s: State, inputs: seq<Input>, d: Input)
    requires Reachable(s) && Differing(inputs, s.level) == s.hold && d.target != s.level
    requires s.level != 4 ==> forall e <- inputs :: !e.emergency
    ensures After(s, inputs + [d]) ==
            if d.emergency then State(4, 30)
            else if s.level == 5 then State(0, 0)
            else if d.target > s.level then State(d.target, 5)
            else if d.target == 0 then State(5, 60)
            else State(d.target, 30)
  {
    HoldCountsDown(s, inputs);
    OneMore(s, inputs, d);
  }

  lemma EmergencyActs(s: State, inputs: seq<Input>, d: Input)
    requires d.emergency
    ensures After(s, inputs + [d]) == if After(s, inputs).level == 4 then After(s, inputs) else State(4, 30)
  {
    OneMore(s, inputs, d);
  }

  /** The activation metric counts the emergencies found outside Survival. */
  lemma ActivationsCounted(s: State, inputs: seq<Input>, d: Input)
    ensures Activations(s, inputs + [d]) ==
            Activations(s, inputs) + if d.emergency && After(s, inputs).level != 4 then 1 else 0
  {
    assert (inputs + [d])[..|inputs|] == inputs;
  }

  /** Anti-flapping. In n ticks from the start the level changes at most (n + 10) / 6
      times, whatever is measured... */
  lemma FewChanges(inputs: seq<Input>)
    ensures 6 * Changes(INITIAL, inputs) <= |inputs| + 10
  {
    ChangesBounded(INITIAL, inputs);
  }

  /** ...and two ticks can reach that bound; */
  lemma FewChangesIsTight()
    ensures 6 * Changes(INITIAL, [Demand(1, false), Demand(4, true)]) == 2 + 10
  {
    OneMore(INITIAL, [], Demand(1, false));
    assert [] + [Demand(1, false)] == [Demand(1, false)];
    OneMore(INITIAL, [Demand(1, false)], Demand(4, true));
  }

  /** in the long run it is at most 4 changes in 49 ticks, */
  lemma FewChangesInTheLongRun(inputs: seq<Input>)
    ensures 49 * Changes(INITIAL, inputs) <= 4 * |inputs| + 190
  {
    LongRunBounded(INITIAL, inputs);
  }

  /** a rate that can be kept up for ever. */
  lemma LongRunRateIsTight(k: nat)
    ensures var s := State(1, 30);
            && Reachable(s)
            && |Times(Cycle(), k)| == 49 * k
            && Changes(s, Times(Cycle(), k)) == 4 * k
            && After(s, Times(Cycle(), k)) == s
  {
    CycleChanges();
    TimesKeep(State(1, 30), Cycle(), 49, 4, k);
  }

  /** Promotions are cheap (hold 5) and a demotion is dear (hold 30), so the fastest
      cycle climbs one level at a time and falls once. */
  function Cycle(): seq<Input> {
    Repeat(Demand(2, false), 31) + Repeat(Demand(3, false), 6) +
    Repeat(Demand(4, false), 6) + Repeat(Demand(1, false), 6)
  }

  function Times(cycle: seq<Input>, k: nat): seq<Input> {
    if k == 0 then [] else Times(cycle, k - 1) + cycle
  }

  lemma {:induction false} TimesKeep(s: State, cycle: seq<Input>, n: nat, c: nat, k: nat)
    requires After(s, cycle) == s && |cycle| == n && Changes(s, cycle) == c
    ensures |Times(cycle, k)| == n * k
    ensures Changes(s, Times(cycle, k)) == c * k
    ensures After(s, Times(cycle, k)) == s
  {
    if k > 0 {
      TimesKeep(s, cycle, n, c, k - 1);
      AfterConcat(s, Times(cycle, k - 1), cycle);
      assert n * k == n * (k - 1) + n && c * k == c * (k - 1) + c;
    }
  }

  lemma WaitAndChange(s: State, d: Input)
    requires d.target != s.level && !d.emergency && 0 < s.level < 5 && 0 < d.target
    ensures After(s, Repeat(d, s.hold + 1)) == State(d.target, if d.target > s.level then 5 else 30)
    ensures Changes(s, Repeat(d, s.hold + 1)) == 1
  {
    Waiting(s, d, s.hold);
    RepeatMore(d, s.hold + 1);
    OneMore(s, Repeat(d, s.hold), d);
  }

  lemma CycleChanges()
    ensures After(State(1, 30), Cycle()) == State(1, 30)
    ensures Changes(State(1, 30), Cycle()) == 4
    ensures |Cycle()| == 49
  {
    var a, b := Repeat(Demand(2, false), 31), Repeat(Demand(3, false), 6);
    var c, d := Repeat(Demand(4, false), 6), Repeat(Demand(1, false), 6);
    var s := State(1, 30);
    WaitAndChange(s, Demand(2, false));
    WaitAndChange(State(2, 5), Demand(3, false));
    WaitAndChange(State(3, 5), Demand(4, false));
    WaitAndChange(State(4, 5), Demand(1, false));
    AfterConcat(s, a, b);
    AfterConcat(s, a + b, c);
    AfterConcat(s, a + b + c, d);
  }

  /** What a state can still spend on changes, in sixths of a change. */
  function Potential(s: State): int {
    if s.level == NORMAL then 10
    else if s.level == SURVIVAL then Least(0, 10 - s.hold)
    else if s.level == RECOVERY then Least(5, 15 - s.hold)
    else Least(5, 10 - s.hold)
  }

  function Least(floor: int, x: int): int { if x < floor then floor else x }

  lemma {:induction false} ChangesBounded(s: State, inputs: seq<Input>)
    requires Reachable(s)
    ensures Reachable(After(s, inputs))
    ensures 6 * Changes(s, inputs) + Potential(After(s, inputs)) <= |inputs| + Potential(s)
  {
    if inputs != [] { ChangesBounded(s, inputs[..|inputs| - 1]); }
  }

  /** The same in forty-ninths, four of which every tick earns. */
  function LongPotential(s: State): int {
    if s.level == NORMAL then 190
    else if s.level == SURVIVAL then Least(0, 90 - 4 * s.hold)
    else if s.level == RECOVERY then Least(45, 235 - 4 * s.hold)
    else Least(45, 190 - 25 * s.level - 4 * s.hold)
  }

  lemma {:induction false} LongRunBounded(s: State, inputs: seq<Input>)
    requires Reachable(s)
    ensures Reachable(After(s, inputs))
    ensures 49 * Changes(s, inputs) + LongPotential(After(s, inputs)) <= 4 * |inputs| + LongPotential(s)
  {
    if inputs != [] { LongRunBounded(s, inputs[..|inputs| - 1]); }
  }

  /** A way back from levels 1-4 to Normal contains 61 consecutive ticks in Recovery. */
  lemma {:induction false} RecoveryBeforeNormal(inputs: seq<Input>, i: nat, j: nat) returns (k: nat)
    requires i < j <= |inputs|
    requires 1 <= After(INITIAL, inputs[..i]).level <= 4 && After(INITIAL, inputs[..j]).level == NORMAL
    ensures i < k && k + 60 < j
    ensures forall t :: k <= t <= k + 60 ==> After(INITIAL, inputs[..t]).level == RECOVERY
    decreases j
  {
    assert inputs[..j][..j - 1] == inputs[..j - 1];
    var last := After(INITIAL, inputs[..j - 1]);
    RunReachable(inputs[..j - 1]);
    if last.level == NORMAL {
      k := RecoveryBeforeNormal(inputs, i, j - 1);
    } else {
      RecoverySince(inputs[..j - 1]);
      k := j - 61;
      forall t | k <= t <= k + 60
        ensures After(INITIAL, inputs[..t]).level == RECOVERY
      {
        assert inputs[..j - 1][..t] == inputs[..t];
      }
    }
  }

  /** In Recovery with hold h, the last 60 - h states were in Recovery too. */
  lemma {:induction false} RecoverySince(inputs: seq<Input>)
    ensures var s := After(INITIAL, inputs);
            s.level == RECOVERY ==>
              && s.hold <= 60 < |inputs| + s.hold
              && forall t :: |inputs| - (60 - s.hold) <= t <= |inputs| ==> After(INITIAL, inputs[..t]).level == RECOVERY
  {
    var n := |inputs|;
    assert inputs[..n] == inputs;
    if n > 0 {
      var before := inputs[..n - 1];
      RecoverySince(before);
      RunReachable(before);
      var s := After(INITIAL, inputs);
      if s.level == RECOVERY {
        forall t | n - (60 - s.hold) <= t <= n
          ensures After(INITIAL, inputs[..t]).level == RECOVERY
        {
          if t < n { assert before[..t] == inputs[..t]; }
        }
      }
    }
  }

  /** An emergency entry keeps Survival for the next 30 ticks whatever they bring. */
  lemma {:induction false} SurvivalHeld(s: State, d: Input, inputs: seq<Input>)
    requires Activates(s, d) && |inputs| <= 30
    ensures After(Step(s, d), inputs).level == SURVIVAL
    ensures After(Step(s, d), inputs).hold >= 30 - |inputs|
  {
    if inputs != [] { SurvivalHeld(s, d, inputs[..|inputs| - 1]); }
  }

  /** Survival activations are at least 32 ticks apart. */
  lemma FewActivations(inputs: seq<Input>)
    ensures Activations(INITIAL, inputs) <= (|inputs| + 31) / 32
  {
    ActivationsBounded(INITIAL, inputs);
  }

  lemma {:induction false} ActivationsBounded(s: State, inputs: seq<Input>)
    ensures 32 * Activations(s, inputs) + Readiness(After(s, inputs)) <= |inputs| + Readiness(s)
  {
    if inputs != [] { ActivationsBounded(s, inputs[..|inputs| - 1]); }
  }

  function Readiness(s: State): int {
    if s.level == SURVIVAL then Least(0, 30 - s.hold) else 31
  }

  /** Ticks until a constant demand is met. */
  function Distance(s: State, d: Input): nat {
    if s.level == d.target then 0
    else if d.emergency then 1
    else if d.target == NORMAL then s.hold + 1 + (if s.level == RECOVERY then 0 else 61)
    else s.hold + 1 + (if s.level == RECOVERY then 1 else 0)
  }

  /** Convergence: under a constant demand the target level is reached after exactly
      Distance ticks and kept from then on. */
  lemma {:induction false} Converges(s: State, d: Input, n: nat)
    requires Reachable(s)
    ensures After(s, Repeat(d, n)).level == d.target <==> n >= Distance(s, d)
    ensures Reachable(After(s, Repeat(d, n)))
    ensures Distance(After(s, Repeat(d, n)), d) == if n < Distance(s, d) then Distance(s, d) - n else 0
  {
    if n > 0 {
      Converges(s, d, n - 1);
      RepeatMore(d, n);
      OneMore(s, Repeat(d, n - 1), d);
    }
  }

  lemma ConvergenceBounds(s: State, d: Input)
    requires Reachable(s)
    ensures d.target != NORMAL ==> After(s, Repeat(d, 62)).level == d.target
    ensures d.target == NORMAL ==> After(s, Repeat(d, 92)) == INITIAL
  {
    Converges(s, d, 62);
    Converges(s, d, 92);
  }

  /** A new attack does not cancel Recovery, although the source has an arm and a log
      line for it: whatever is measured, as long as nothing is an emergency, Recovery
      lasts its remaining hold and then ends in Normal. */
  lemma {:induction false} RecoveryIsNotCancelled(s: State, inputs: seq<Input>)
    requires s.level == RECOVERY && |inputs| <= s.hold + 1
    requires forall d <- inputs :: !d.emergency
    ensures After(s, inputs) == if |inputs| <= s.hold then State(RECOVERY, s.hold - |inputs|) else INITIAL
  {
    if inputs != [] {
      RecoveryIsNotCancelled(s, inputs[..|inputs| - 1]);
      assert inputs[|inputs| - 1] in inputs;
    }
  }

  /** A tick in Recovery goes straight to a demanded level exactly in an emergency. */
  lemma LeavingRecovery(s: State, d: Input)
    requires s.level == RECOVERY && d.target > 0
    ensures Step(s, d).level == d.target <==> d.emergency
  {
  }

  /** The arm would act on an attack of level 3 like this one. */
  lemma AttackInRecoveryIgnored()
    ensures Step(State(RECOVERY, 60), Demand(3, false)) == State(RECOVERY, 59)
  {
  }
}

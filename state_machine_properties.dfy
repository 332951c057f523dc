/** What the finite state machine does over many ticks: it only ever moves
    along its transition table, and with the bumper released it moves
    forward, then spirals ever wider, on a fixed schedule. */
module StateMachineProperties {
  import opened Robot
  import opened StateMachines

  /** What the robot offers the machine in one tick: the bumper reading and
      the angle a rotation state constructed in this tick samples. */
  datatype Input = Input(bumper: bool, angle: real)

  /** The states held after each tick of `inputs`, starting with `s`. */
  function Run(cfg: Config, s: State, inputs: seq<Input>): (r: seq<State>)
    requires cfg.Valid() && s.Valid()
    ensures |r| == |inputs| + 1 && r[0] == s
    ensures forall k :: 0 <= k < |r| ==> r[k].Valid()
    decreases |inputs|
  {
    if inputs == [] then [s]
    else [s] + Run(cfg, Tick(cfg, s, inputs[0].bumper, inputs[0].angle).state, inputs[1..])
  }

  /** Each state of a run is the tick of the one before it. */
  lemma {:induction false} RunSteps(cfg: Config, s: State, inputs: seq<Input>, k: nat)
    requires cfg.Valid() && s.Valid() && k < |inputs|
    ensures Run(cfg, s, inputs)[k + 1] == Tick(cfg, Run(cfg, s, inputs)[k], inputs[k].bumper, inputs[k].angle).state
    decreases k
  {
    if k > 0 {
      var t := Tick(cfg, s, inputs[0].bumper, inputs[0].angle).state;
      RunSteps(cfg, t, inputs[1..], k - 1);
      assert Run(cfg, s, inputs)[1..] == Run(cfg, t, inputs[1..]);
    }
  }

  /** Whatever the inputs, consecutive states are of the same kind or
      follow the transition table. */
  lemma FollowsTable(cfg: Config, s: State, inputs: seq<Input>)
    requires cfg.Valid() && s.Valid()
    ensures var r := Run(cfg, s, inputs);
      forall k :: 0 <= k < |inputs| ==> r[k + 1].Kind() == r[k].Kind() || Allowed(r[k].Kind(), r[k + 1].Kind())
  {
    forall k | 0 <= k < |inputs|
      ensures Run(cfg, s, inputs)[k + 1].Kind() == Run(cfg, s, inputs)[k].Kind() ||
              Allowed(Run(cfg, s, inputs)[k].Kind(), Run(cfg, s, inputs)[k + 1].Kind())
    {
      RunSteps(cfg, s, inputs, k);
    }
  }

  /** The state after `k` ticks with the bumper released and every new
      rotation sampling `angle`. */
  function Quiet(cfg: Config, s: State, k: nat, angle: real): (r: State)
    requires cfg.Valid() && s.Valid()
    ensures r.Valid()
  {
    if k == 0 then s else Tick(cfg, Quiet(cfg, s, k - 1, angle), false, angle).state
  }

  /** A tick with the bumper released and the state's time not up only
      executes the state. */
  lemma NoTransition(cfg: Config, s: State, angle: real)
    requires cfg.Valid() && s.Valid() && cfg.Elapsed(s.executionCount) <= Duration(cfg, s)
    ensures Tick(cfg, s, false, angle) == ExecuteState(cfg, s)
  {
  }

  /** With the bumper released, a state keeps its kind and counts one tick
      per tick for as long as the time of its executed ticks has not
      exceeded its duration when checked. */
  lemma {:induction false} Stays(cfg: Config, s: State, k: nat, angle: real)
    requires cfg.Valid() && s.Valid()
    requires k > 0 ==> cfg.Elapsed(s.executionCount + k - 1) <= Duration(cfg, s)
    ensures Quiet(cfg, s, k, angle).Kind() == s.Kind()
    ensures Quiet(cfg, s, k, angle).executionCount == s.executionCount + k
    ensures Duration(cfg, Quiet(cfg, s, k, angle)) == Duration(cfg, s)
  {
    if k > 0 {
      if k > 1 {
        cfg.ElapsedMonotone(s.executionCount + k - 2, s.executionCount + k - 1);
      }
      Stays(cfg, s, k - 1, angle);
      NoTransition(cfg, Quiet(cfg, s, k - 1, angle), angle);
    }
  }

  lemma OneMoreStep(k: nat, step: real)
    requires k > 0
    ensures k as real * step == (k - 1) as real * step + step
  {
  }

  /** ... and a spiral widens by one step in each of those ticks. */
  lemma {:induction false} SpiralWidens(cfg: Config, s: State, k: nat, angle: real)
    requires cfg.Valid() && s.Valid() && s.MoveInSpiralState?
    requires k > 0 ==> cfg.Elapsed(s.executionCount + k - 1) <= cfg.moveInSpiralTime
    ensures Quiet(cfg, s, k, angle).MoveInSpiralState?
    ensures Quiet(cfg, s, k, angle).spiralRadius == s.spiralRadius + k as real * cfg.RadiusStep()
  {
    if k > 0 {
      if k > 1 {
        cfg.ElapsedMonotone(s.executionCount + k - 2, s.executionCount + k - 1);
      }
      SpiralWidens(cfg, s, k - 1, angle);
      Stays(cfg, s, k - 1, angle);
      var p := Quiet(cfg, s, k - 1, angle);
      NoTransition(cfg, p, angle);
      var step := cfg.RadiusStep();
      assert Quiet(cfg, s, k, angle).spiralRadius == p.spiralRadius + step;
      OneMoreStep(k, step);
    }
  }

  /** The forward phase: from a new forward state with the bumper released,
      the machine moves forward for every tick `k` at whose start the time
      of the `k - 1` ticks already done has not exceeded the forward time. */
  lemma ForwardPhase(cfg: Config, k: nat, angle: real)
    requires cfg.Valid() && k > 0 && cfg.Elapsed(k - 1) <= cfg.moveForwardTime
    ensures Quiet(cfg, MoveForwardState(0), k, angle) == MoveForwardState(k)
  {
    Stays(cfg, MoveForwardState(0), k, angle);
  }

  /** ... and in the first tick that starts after the forward time, the
      machine changes to a new spiral and executes it in the same tick. */
  lemma ForwardToSpiral(cfg: Config, k: nat, angle: real)
    requires cfg.Valid() && cfg.Elapsed(k) > cfg.moveForwardTime
    ensures var r := cfg.initialRadiusSpiral + cfg.RadiusStep();
      Tick(cfg, MoveForwardState(k), false, angle) ==
        StateStep(MoveInSpiralState(1, r), Velocity(cfg.forwardSpeed, cfg.forwardSpeed / r))
  {
  }

  /** With a tick of 1 and a forward time of 3, the machine moves forward in
      ticks 1 to 4 and spirals from tick 5 on: the count is tested before it
      is incremented. */
  lemma ForwardSchedule(cfg: Config, angle: real)
    requires cfg.Valid() && cfg.sampleTime == 1.0 && cfg.moveForwardTime == 3.0
    ensures Quiet(cfg, MoveForwardState(0), 4, angle) == MoveForwardState(4)
    ensures Quiet(cfg, MoveForwardState(0), 5, angle).MoveInSpiralState?
  {
    ForwardPhase(cfg, 4, angle);
    ForwardToSpiral(cfg, 4, angle);
  }

  /** The bumper makes a moving-forward or spiralling machine back up at
      once, and a backing-up or rotating machine ignores it. */
  lemma BumperResponse(cfg: Config, s: State, angle: real)
    requires cfg.Valid() && s.Valid()
    ensures (s.MoveForwardState? || s.MoveInSpiralState?) ==>
      Tick(cfg, s, true, angle) == ExecuteState(cfg, GoBackState(0))
    ensures (s.GoBackState? || s.RotateState?) ==>
      Tick(cfg, s, true, angle) == Tick(cfg, s, false, angle)
  {
  }

  /** A rotation state, constructed and executed once in the tick that
      backing up ended, hands over in the next tick exactly when the sampled
      angle divided by the angular speed is below one tick, so a negative
      angle gives a one-tick rotation. */
  lemma RotationLength(cfg: Config, c: nat, angle: real, bumper: bool, next: real)
    requires cfg.Valid() && cfg.Elapsed(c) > cfg.goBackTime
    ensures Tick(cfg, GoBackState(c), bumper, angle).state == RotateState(1, angle)
    ensures CheckTransition(cfg, RotateState(1, angle), bumper, next).Some? <==> angle / cfg.angularSpeed < cfg.sampleTime
  {
  }
}

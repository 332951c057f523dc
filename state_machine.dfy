/** The finite-state-machine controller of the cleaning robot: one held
    state out of four, each with a tick counter. Every tick first checks the
    current state's transition, which may replace it by a newly constructed
    state, and then executes whichever state is current.

    A state is owned by the machine alone, so it is modelled as a value: the
    machine's `state` field is reassigned both when the state changes and when
    the current state's counters advance. The bumper is an input of each tick
    and the single `set_velocity` call of a tick is returned. */
module StateMachines {
  import opened Robot

  /** The state held by the machine. */
  datatype State =
    | MoveForwardState(executionCount: nat)
    | MoveInSpiralState(executionCount: nat, spiralRadius: real)
    | GoBackState(executionCount: nat)
    | RotateState(executionCount: nat, rotateAngle: real)
  {
    /** The behaviour this state performs. */
    function Kind(): Behaviour {
      match this
      case MoveForwardState(_) => MoveForward
      case MoveInSpiralState(_, _) => MoveInSpiral
      case GoBackState(_) => GoBack
      case RotateState(_, _) => Rotate
    }

    /** The spiral radius is positive, so the spiral velocity is defined. */
    predicate Valid() {
      MoveInSpiralState? ==> spiralRadius > 0.0
    }
  }

  /** A newly constructed state of kind `b`: its counter is zero, a spiral
      starts at the initial radius and a rotation holds the sampled angle. */
  function NewState(cfg: Config, b: Behaviour, angle: real): (s: State)
    requires cfg.Valid()
    ensures s.Valid() && s.Kind() == b && s.executionCount == 0
    ensures s.MoveInSpiralState? ==> s.spiralRadius == cfg.initialRadiusSpiral
    ensures s.RotateState? ==> s.rotateAngle == angle
  {
    match b
    case MoveForward => MoveForwardState(0)
    case MoveInSpiral => MoveInSpiralState(0, cfg.initialRadiusSpiral)
    case GoBack => GoBackState(0)
    case Rotate => RotateState(0, angle)
  }

  /** How long a state lasts before it gives way to the next one: the move
      forward, spiral and back-up times, and for a rotation
      `rotate_angle / ANGULAR_SPEED` (negative for a negative angle). */
  function Duration(cfg: Config, s: State): real
    requires cfg.Valid()
  {
    match s
    case MoveForwardState(_) => cfg.moveForwardTime
    case MoveInSpiralState(_, _) => cfg.moveInSpiralTime
    case GoBackState(_) => cfg.goBackTime
    case RotateState(_, a) => a / cfg.angularSpeed
  }

  /** The kind of state that follows `b` when its time is up. */
  function Following(b: Behaviour): Behaviour {
    match b
    case MoveForward => MoveInSpiral
    case MoveInSpiral => MoveForward
    case GoBack => Rotate
    case Rotate => MoveForward
  }

  /** `check_transition`: the new state the current one hands over to, if
      any. Moving forward or spiralling, the bumper sends the robot backing
      up, ahead of the time test. Otherwise a state hands over once the time
      of the ticks it has executed exceeds its duration; backing up and
      rotating ignore the bumper. `angle` is the sample a new rotation state
      takes. */
  function CheckTransition(cfg: Config, s: State, bumper: bool, angle: real): (r: Option<State>)
    requires cfg.Valid()
    ensures r.Some? ==> r.value == NewState(cfg, r.value.Kind(), angle)
    ensures bumper && (s.MoveForwardState? || s.MoveInSpiralState?) ==> r == Some(NewState(cfg, GoBack, angle))
    ensures !(bumper && (s.MoveForwardState? || s.MoveInSpiralState?)) ==>
      (r.Some? <==> cfg.Elapsed(s.executionCount) > Duration(cfg, s)) &&
      (r.Some? ==> r.value.Kind() == Following(s.Kind()))
  {
    match s
    case MoveForwardState(c) =>
      if bumper then Some(GoBackState(0))
      else if cfg.Elapsed(c) > cfg.moveForwardTime then Some(MoveInSpiralState(0, cfg.initialRadiusSpiral))
      else None
    case MoveInSpiralState(c, _) =>
      if bumper then Some(GoBackState(0))
      else if cfg.Elapsed(c) > cfg.moveInSpiralTime then Some(MoveForwardState(0))
      else None
    case GoBackState(c) =>
      if cfg.Elapsed(c) > cfg.goBackTime then Some(RotateState(0, angle)) else None
    case RotateState(c, a) =>
      if cfg.Elapsed(c) > a / cfg.angularSpeed then Some(MoveForwardState(0)) else None
  }

  /** A state after `execute`, and the velocity it commanded. */
  datatype StateStep = StateStep(state: State, cmd: Velocity)

  /** `execute`: count the tick, widen a spiral by one step, and command the
      state's velocity, a spiral's with its widened radius. */
  function ExecuteState(cfg: Config, s: State): (r: StateStep)
    requires cfg.Valid() && s.Valid()
    ensures r.state.Valid() && r.state.Kind() == s.Kind()
    ensures r.state.executionCount == s.executionCount + 1
    ensures r.state.MoveInSpiralState? ==> r.state.spiralRadius == s.spiralRadius + cfg.RadiusStep()
    ensures r.state.RotateState? ==> r.state.rotateAngle == s.rotateAngle
    ensures r.cmd == Command(cfg, s.Kind(), if s.MoveInSpiralState? then r.state.spiralRadius else 0.0)
  {
    match s
    case MoveForwardState(c) => StateStep(MoveForwardState(c + 1), Velocity(cfg.forwardSpeed, 0.0))
    case MoveInSpiralState(c, radius) =>
      var wider := radius + cfg.spiralFactor * cfg.sampleTime;
      StateStep(MoveInSpiralState(c + 1, wider), Velocity(cfg.forwardSpeed, cfg.forwardSpeed / wider))
    case GoBackState(c) => StateStep(GoBackState(c + 1), Velocity(cfg.backwardSpeed, 0.0))
    case RotateState(c, a) => StateStep(RotateState(c + 1, a), Velocity(0.0, cfg.angularSpeed))
  }

  /** The state whose `execute` runs in a tick: the new one if the current
      state handed over, otherwise the current one. */
  function Current(cfg: Config, s: State, bumper: bool, angle: real): (c: State)
    requires cfg.Valid() && s.Valid()
    ensures c.Valid()
    ensures CheckTransition(cfg, s, bumper, angle).None? ==> c == s
    ensures CheckTransition(cfg, s, bumper, angle).Some? ==>
      c == CheckTransition(cfg, s, bumper, angle).value && c.executionCount == 0 && c.Kind() != s.Kind()
  {
    match CheckTransition(cfg, s, bumper, angle)
    case None => s
    case Some(t) => t
  }

  /** The transition table: forward and spiral hand over to backing up or
      to each other, backing up to rotating, rotating to forward. */
  predicate Allowed(from: Behaviour, to: Behaviour) {
    match from
    case MoveForward => to == GoBack || to == MoveInSpiral
    case MoveInSpiral => to == GoBack || to == MoveForward
    case GoBack => to == Rotate
    case Rotate => to == MoveForward
  }

  /** One tick of the machine: check the transition, then execute. The
      state either stays and counts one more tick, or is replaced by a state
      the table allows, which executes its first tick at once. */
  function Tick(cfg: Config, s: State, bumper: bool, angle: real): (r: StateStep)
    requires cfg.Valid() && s.Valid()
    ensures r.state.Valid()
    ensures r.state.Kind() == s.Kind() || Allowed(s.Kind(), r.state.Kind())
    ensures r.state.executionCount ==
      if CheckTransition(cfg, s, bumper, angle).Some? then 1 else s.executionCount + 1
    ensures r.cmd == Command(cfg, r.state.Kind(), if r.state.MoveInSpiralState? then r.state.spiralRadius else 0.0)
  {
    ExecuteState(cfg, Current(cfg, s, bumper, angle))
  }

  /** A finite state machine holding one state of the four kinds. */
  class FiniteStateMachine {
    const cfg: Config
    var state: State

    ghost predicate Valid()
      reads this
    {
      cfg.Valid() && state.Valid()
    }

    constructor (cfg: Config, state: State)
      requires cfg.Valid() && state.Valid()
      ensures Valid() && this.cfg == cfg && this.state == state
    {
      this.cfg := cfg;
      this.state := state;
    }

    /** `change_state`: hold `newState` from now on. */
    method ChangeState(newState: State)
      requires Valid() && newState.Valid()
      modifies this
      ensures Valid() && state == newState
    {
      state := newState;
    }

    /** `update`: check the transition of the current state, which may
        change the state, then execute the state now current. */
    method Update(bumper: bool, angle: real) returns (cmd: Velocity)
      requires Valid()
      modifies this
      ensures Valid()
      ensures StateStep(state, cmd) == Tick(cfg, old(state), bumper, angle)
    {
      var next := CheckTransition(cfg, state, bumper, angle);
      if next.Some? {
        ChangeState(next.value);
      }
      var x := ExecuteState(cfg, state);
      state := x.state;
      cmd := x.cmd;
    }
  }
}

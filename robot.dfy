/** Shared vocabulary of the cleaning-robot control core: the optional value
    that stands in for a possibly-absent reference, the tuning constants, and
    the velocity command that both controllers send to the robot. */
module Robot {

  /** A value that may be absent (stands in for Python's `None`). */
  datatype Option<+T> = None | Some(value: T)

  /** The tuning constants of the robot. They are fixed at process start and
      passed explicitly to every operation that reads them. */
  datatype Config = Config(
    sampleTime: real,          // duration of one tick, in seconds
    forwardSpeed: real,        // linear speed while moving forward or spiralling
    backwardSpeed: real,       // linear speed while backing up
    angularSpeed: real,        // angular speed while rotating in place
    moveForwardTime: real,     // how long to move forward
    moveInSpiralTime: real,    // how long to spiral
    goBackTime: real,          // how long to back up
    initialRadiusSpiral: real, // spiral radius when a spiral starts
    spiralFactor: real         // growth rate of the spiral radius per second
  )
  {
    /** What the controllers need of the constants: a tick lasts a positive
        time, the angular speed can be divided by, the spiral radius starts
        positive and grows in every running tick. */
    predicate Valid() {
      sampleTime > 0.0 && angularSpeed != 0.0 &&
      initialRadiusSpiral > 0.0 && spiralFactor > 0.0
    }

    /** How much the spiral radius grows in one running tick. */
    function RadiusStep(): (d: real)
      requires Valid()
      ensures d > 0.0
    {
      spiralFactor * sampleTime
    }

    /** Elapsed time, in seconds, after `ticks` ticks. */
    function Elapsed(ticks: nat): real {
      ticks as real * sampleTime
    }

    /** Elapsed time grows with the number of ticks. */
    lemma ElapsedMonotone(s: nat, t: nat)
      requires Valid() && s <= t
      ensures Elapsed(s) <= Elapsed(t)
    {
      assert (t as real - s as real) * sampleTime >= 0.0;
    }
  }

  /** One `set_velocity(linear, angular)` command sent to the robot. */
  datatype Velocity = Velocity(linear: real, angular: real)

  /** The four behaviours of the cleaning policy, shared by the behavior tree
      leaves and the state machine states. */
  datatype Behaviour = MoveForward | MoveInSpiral | GoBack | Rotate

  /** The velocity a behaviour commands: straight ahead, along a circle of
      the given radius, straight back, or turning in place. */
  function Command(cfg: Config, b: Behaviour, radius: real): (v: Velocity)
    requires b == MoveInSpiral ==> radius != 0.0
    ensures b != Rotate ==> v.linear == (if b == GoBack then cfg.backwardSpeed else cfg.forwardSpeed)
    ensures b == Rotate ==> v == Velocity(0.0, cfg.angularSpeed)
    ensures b == MoveInSpiral ==> v == SpiralVelocity(cfg, radius)
    ensures b == MoveForward || b == GoBack ==> v.angular == 0.0
  {
    match b
    case MoveForward => Velocity(cfg.forwardSpeed, 0.0)
    case MoveInSpiral => SpiralVelocity(cfg, radius)
    case GoBack => Velocity(cfg.backwardSpeed, 0.0)
    case Rotate => Velocity(0.0, cfg.angularSpeed)
  }

  /** The velocity that makes the robot follow a circle of radius `radius`
      at the forward speed. */
  function SpiralVelocity(cfg: Config, radius: real): (v: Velocity)
    requires radius != 0.0
    ensures v.linear == cfg.forwardSpeed
  {
    Velocity(cfg.forwardSpeed, cfg.forwardSpeed / radius)
  }

  /** Along the spiral, linear speed is angular speed times radius: the
      robot moves on the circle of that radius. */
  lemma SpiralFollowsCircle(cfg: Config, radius: real)
    requires radius != 0.0
    ensures SpiralVelocity(cfg, radius).angular * radius == SpiralVelocity(cfg, radius).linear
  {
  }

  /** A wider spiral turns more slowly, when moving forward. */
  lemma WiderTurnsSlower(cfg: Config, r1: real, r2: real)
    requires 0.0 < r1 < r2 && cfg.forwardSpeed > 0.0
    ensures 0.0 < SpiralVelocity(cfg, r2).angular < SpiralVelocity(cfg, r1).angular
  {
    var a1, a2 := cfg.forwardSpeed / r1, cfg.forwardSpeed / r2;
    assert a1 * r1 == cfg.forwardSpeed && a2 * r2 == cfg.forwardSpeed;
  }
}

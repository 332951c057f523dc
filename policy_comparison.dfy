/** The two controllers encode the same policy but not the same schedule:
    the behavior tree's forward leaf tests the time including the tick it is
    executing, the state machine tests the time of the ticks already done. */
module PolicyComparison {
  import opened Robot
  import opened BehaviorTrees
  import opened StateMachines

  /** In the tick `k` whose own time first exceeds the forward time, the
      Clean sequence resuming its forward leaf sees it succeed, enters the
      spiral and runs its first spiral tick; the state machine in the same
      tick still moves forward, and starts spiralling one tick later. */
  lemma SpiralOneTickLater(cfg: Config, k: nat, angle: real)
    requires cfg.Valid() && k > 0
    requires cfg.Elapsed(k - 1) <= cfg.moveForwardTime < cfg.Elapsed(k)
    requires cfg.sampleTime <= cfg.moveInSpiralTime
    ensures var clean := Composite(SequenceNode, [Leaf(MoveForwardNode(k - 1)), Leaf(MoveInSpiralNode(0, 0.0))], Some(0));
      var x := Executed(cfg, clean, false, false, angle);
      var r := cfg.initialRadiusSpiral + cfg.RadiusStep();
      x.status == Running && x.node.runningChild == Some(1) &&
      x.cmds == [Velocity(cfg.forwardSpeed, cfg.forwardSpeed / cfg.initialRadiusSpiral),
                 Velocity(cfg.forwardSpeed, cfg.forwardSpeed / r)]
    ensures Tick(cfg, MoveForwardState(k - 1), false, angle) == StateStep(MoveForwardState(k), Velocity(cfg.forwardSpeed, 0.0))
    ensures Tick(cfg, MoveForwardState(k), false, angle).state.MoveInSpiralState?
  {
    var clean := Composite(SequenceNode, [Leaf(MoveForwardNode(k - 1)), Leaf(MoveInSpiralNode(0, 0.0))], Some(0));
    var cs := clean.children;
    var mf := Executed(cfg, cs[0], false, false, angle);
    assert mf.status == Success && mf.cmds == [];
    var after := cs[0 := mf.node];
    var ms := Executed(cfg, after[1], true, false, angle);
    assert cfg.Elapsed(1) == cfg.sampleTime;
    assert ms.status == Running;
    RunChildrenStops(cfg, SequenceNode, cs, after, 1, true, false, angle, ms);
    RunChildrenContinues(cfg, SequenceNode, cs, cs, 0, false, false, angle, mf, []);
  }
}

/** What one tick of a behavior tree does, stated at the level of a whole
    composite: which children run, which are left alone, what the composite
    returns and where it resumes; and what the leaves do over several ticks. */
module BehaviorTreeProperties {
  import opened Robot
  import opened BehaviorTrees

  /** The child whose status decided a composite's tick: the one that
      returned Running, or did not return the continue status, or is the last
      one. */
  function DecidingChild(cfg: Config, n: Node, entering: bool, bumper: bool, angle: real): (d: nat)
    requires cfg.Valid() && WellFormed(n) && n.Composite?
    ensures StartIndex(n, entering) <= d < |n.children|
  {
    RunChildren(cfg, n.kind, n.children, n.children, StartIndex(n, entering), Restarts(n, entering), bumper, angle).last
  }

  /** Whether child `j` is entered before it is executed in this tick: every
      child is, except a running child being resumed. */
  predicate EntersChild(n: Node, entering: bool, j: nat)
    requires WellFormed(n) && n.Composite?
  {
    Restarts(n, entering) || StartIndex(n, entering) < j
  }

  /** The children before the starting child and after the deciding child
      keep their state (and, by `CompositeCommands`, send nothing). */
  lemma CompositeLeavesOthers(cfg: Config, n: Node, entering: bool, bumper: bool, angle: real)
    requires cfg.Valid() && WellFormed(n) && n.Composite?
    ensures var x := Executed(cfg, n, entering, bumper, angle);
      var d := DecidingChild(cfg, n, entering, bumper, angle);
      (forall j :: 0 <= j < StartIndex(n, entering) ==> x.node.children[j] == n.children[j]) &&
      (forall j :: d < j < |n.children| ==> x.node.children[j] == n.children[j])
  {
    forall j | 0 <= j < |n.children| {
      RunChildrenUntouched(cfg, n.kind, n.children, n.children, StartIndex(n, entering), Restarts(n, entering), bumper, angle, j);
    }
  }

  /** A composite sends exactly the commands of the children it runs, from
      its starting child to its deciding child, in order; no other child
      sends anything in this tick. */
  lemma CompositeCommands(cfg: Config, n: Node, entering: bool, bumper: bool, angle: real)
    requires cfg.Valid() && WellFormed(n) && n.Composite?
    ensures Executed(cfg, n, entering, bumper, angle).cmds ==
      ChildCommands(cfg, n.children, StartIndex(n, entering), DecidingChild(cfg, n, entering, bumper, angle),
                    Restarts(n, entering), bumper, angle)
  {
    RunChildrenCommands(cfg, n.kind, n.children, n.children, StartIndex(n, entering), Restarts(n, entering), bumper, angle);
  }

  /** Every child from the starting one up to the deciding one ran in this
      tick and returned the continue status. */
  lemma CompositeRunsUpTo(cfg: Config, n: Node, entering: bool, bumper: bool, angle: real)
    requires cfg.Valid() && WellFormed(n) && n.Composite?
    ensures var x := Executed(cfg, n, entering, bumper, angle);
      forall j :: StartIndex(n, entering) <= j < DecidingChild(cfg, n, entering, bumper, angle) ==>
        var y := Executed(cfg, n.children[j], EntersChild(n, entering, j), bumper, angle);
        y.status == ContinueOn(n.kind) && x.node.children[j] == y.node
  {
    forall j | 0 <= j < |n.children| {
      RunChildrenContinued(cfg, n.kind, n.children, n.children, StartIndex(n, entering), Restarts(n, entering), bumper, angle, j);
    }
  }

  /** The composite returns the deciding child's status, keeps the index of
      that child exactly when it is Running, and returns the continue status
      only when every child up to the last one did. */
  lemma CompositeDecides(cfg: Config, n: Node, entering: bool, bumper: bool, angle: real)
    requires cfg.Valid() && WellFormed(n) && n.Composite?
    ensures var x := Executed(cfg, n, entering, bumper, angle);
      var d := DecidingChild(cfg, n, entering, bumper, angle);
      var y := Executed(cfg, n.children[d], EntersChild(n, entering, d), bumper, angle);
      x.node.children[d] == y.node && x.status == y.status &&
      x.node.runningChild == (if x.status == Running then Some(d) else None) &&
      (x.status == ContinueOn(n.kind) ==> d == |n.children| - 1)
  {
    RunChildrenDecided(cfg, n.kind, n.children, n.children, StartIndex(n, entering), Restarts(n, entering), bumper, angle);
  }

  /** Short-circuit: the first child, from the starting one, that does not
      return the continue status decides the tick. Its status is the
      composite's (Failure of a Sequence, Success of a Selector, Running of
      either); it is kept as the running child exactly when Running; the
      children after it keep their state; and the composite sends exactly
      the commands of the children from the starting one up to it, so the
      children after it are neither entered nor executed. */
  lemma {:induction false} FirstStopDecides(cfg: Config, n: Node, entering: bool, bumper: bool, angle: real, j: nat)
    requires cfg.Valid() && WellFormed(n) && n.Composite?
    requires StartIndex(n, entering) <= j < |n.children|
    requires forall i :: StartIndex(n, entering) <= i < j ==>
      Executed(cfg, n.children[i], EntersChild(n, entering, i), bumper, angle).status == ContinueOn(n.kind)
    requires Executed(cfg, n.children[j], EntersChild(n, entering, j), bumper, angle).status != ContinueOn(n.kind)
    ensures var x := Executed(cfg, n, entering, bumper, angle);
      var y := Executed(cfg, n.children[j], EntersChild(n, entering, j), bumper, angle);
      DecidingChild(cfg, n, entering, bumper, angle) == j &&
      x.status == y.status && x.node.children[j] == y.node &&
      x.node.runningChild == (if y.status == Running then Some(j) else None) &&
      (forall i :: j < i < |n.children| ==> x.node.children[i] == n.children[i]) &&
      x.cmds == ChildCommands(cfg, n.children, StartIndex(n, entering), j, Restarts(n, entering), bumper, angle)
  {
    var d := DecidingChild(cfg, n, entering, bumper, angle);
    CompositeRunsUpTo(cfg, n, entering, bumper, angle);
    CompositeDecides(cfg, n, entering, bumper, angle);
    CompositeLeavesOthers(cfg, n, entering, bumper, angle);
    CompositeCommands(cfg, n, entering, bumper, angle);
  }

  /** AND / OR: a Sequence succeeds exactly when every child from the
      starting one succeeds, and a Selector fails exactly when every child
      from the starting one fails; each of those children is entered and
      executed within this one tick. */
  lemma {:induction false} AllContinueIff(cfg: Config, n: Node, entering: bool, bumper: bool, angle: real)
    requires cfg.Valid() && WellFormed(n) && n.Composite?
    ensures Executed(cfg, n, entering, bumper, angle).status == ContinueOn(n.kind) <==>
      forall j :: StartIndex(n, entering) <= j < |n.children| ==>
        Executed(cfg, n.children[j], EntersChild(n, entering, j), bumper, angle).status == ContinueOn(n.kind)
  {
    var d := DecidingChild(cfg, n, entering, bumper, angle);
    CompositeRunsUpTo(cfg, n, entering, bumper, angle);
    CompositeDecides(cfg, n, entering, bumper, angle);
  }

  /** A composite that was entered, or whose last tick ended, starts over at
      its first child and enters it; one whose last tick returned Running
      resumes the child it left running, without entering it. */
  lemma NextTick(cfg: Config, n: Node, entering: bool, bumper: bool, angle: real)
    requires cfg.Valid() && WellFormed(n) && n.Composite?
    ensures var x := Executed(cfg, n, entering, bumper, angle);
      (x.status != Running ==> StartIndex(x.node, false) == 0 && EntersChild(x.node, false, 0)) &&
      (x.status == Running ==>
         StartIndex(x.node, false) == DecidingChild(cfg, n, entering, bumper, angle) &&
         !EntersChild(x.node, false, StartIndex(x.node, false)))
  {
    CompositeDecides(cfg, n, entering, bumper, angle);
  }

  /** The composite's commands begin with those of its starting child. */
  lemma StartingChildFirst(cfg: Config, n: Node, entering: bool, bumper: bool, angle: real)
    requires cfg.Valid() && WellFormed(n) && n.Composite?
    ensures Executed(cfg, n.children[StartIndex(n, entering)], Restarts(n, entering), bumper, angle).cmds
         <= Executed(cfg, n, entering, bumper, angle).cmds
  {
    RunChildrenStartsWith(cfg, n.kind, n.children, n.children, StartIndex(n, entering), Restarts(n, entering), bumper, angle);
  }

  /** A leaf's tick: entering restarts its counter and commands its velocity
      first; a resumed leaf keeps its counter. Either way the counter goes up
      by one. */
  lemma LeafTick(cfg: Config, l: LeafNode, entering: bool, bumper: bool, angle: real)
    requires cfg.Valid() && l.Valid()
    ensures var x := Executed(cfg, Leaf(l), entering, bumper, angle);
      x.node.leaf.Ticks() == (if entering then 0 else l.Ticks()) + 1 &&
      (entering ==> |x.cmds| >= 1 && x.cmds[0] == LeafEnter(cfg, l, angle).cmd) &&
      (!entering ==> x.cmds == LeafExecute(cfg, l, bumper).cmds)
  {
  }

  /** Only the forward and spiral leaves can fail, and they fail exactly
      when the bumper is pressed. */
  lemma FailureOnlyOnBumper(cfg: Config, l: LeafNode, entering: bool, bumper: bool, angle: real)
    requires cfg.Valid() && l.Valid()
    ensures Executed(cfg, Leaf(l), entering, bumper, angle).status == Failure <==>
      bumper && (l.MoveForwardNode? || l.MoveInSpiralNode?)
  {
  }

  /** The leaf after `k` ticks with the bumper released. */
  function Repeat(cfg: Config, l: LeafNode, k: nat): (r: LeafNode)
    requires cfg.Valid() && l.Valid()
    ensures r.Valid() && r.Kind() == l.Kind()
  {
    if k == 0 then l else LeafExecute(cfg, Repeat(cfg, l, k - 1), false).leaf
  }

  /** Each tick adds one to a leaf's counter. */
  lemma {:induction false} RepeatCounts(cfg: Config, l: LeafNode, k: nat)
    requires cfg.Valid() && l.Valid()
    ensures Repeat(cfg, l, k).Ticks() == l.Ticks() + k
  {
    if k > 0 {
      RepeatCounts(cfg, l, k - 1);
    }
  }

  /** While its time is not up, a spiral keeps running and its radius grows
      by the same step in every tick: after `k` ticks it is `k` steps wider. */
  lemma {:induction false} SpiralWidens(cfg: Config, l: LeafNode, k: nat)
    requires cfg.Valid() && l.Valid() && l.MoveInSpiralNode?
    requires cfg.Elapsed(l.Ticks() + k) <= cfg.moveInSpiralTime
    ensures Repeat(cfg, l, k).MoveInSpiralNode?
    ensures Repeat(cfg, l, k).spiralRadius == l.spiralRadius + k as real * cfg.RadiusStep()
  {
    if k > 0 {
      cfg.ElapsedMonotone(l.Ticks() + k - 1, l.Ticks() + k);
      SpiralWidens(cfg, l, k - 1);
      RepeatCounts(cfg, l, k - 1);
      var p := Repeat(cfg, l, k - 1);
      assert LeafExecute(cfg, p, false).status == Running;
    }
  }

  /** Rotation: the leaf succeeds on its first tick whenever the sampled
      angle divided by the angular speed is below one tick, which includes
      every angle of the opposite sign to the angular speed. */
  lemma RotateFirstTick(cfg: Config, l: LeafNode, bumper: bool, angle: real)
    requires cfg.Valid() && l.RotateNode?
    ensures var x := Executed(cfg, Leaf(l), true, bumper, angle);
      x.status == Success <==> angle / cfg.angularSpeed < cfg.sampleTime
  {
  }

  /** With a tick of 1 and a forward time of 3, an entered forward leaf runs
      in ticks 1 to 3 and succeeds in tick 4; pressing the bumper in tick 2
      makes it fail in that tick. */
  lemma ForwardLeafSchedule(cfg: Config, l: LeafNode, angle: real)
    requires cfg.Valid() && cfg.sampleTime == 1.0 && cfg.moveForwardTime == 3.0 && l.MoveForwardNode?
    ensures var t1 := LeafExecute(cfg, LeafEnter(cfg, l, angle).leaf, false);
      var t2 := LeafExecute(cfg, t1.leaf, false);
      var t3 := LeafExecute(cfg, t2.leaf, false);
      var t4 := LeafExecute(cfg, t3.leaf, false);
      t1.status == Running && t2.status == Running && t3.status == Running && t4.status == Success &&
      LeafExecute(cfg, t1.leaf, true).status == Failure
  {
  }

  /** The Roomba's first tick with the bumper released: the Clean sequence
      enters and runs the forward leaf, whose time is not up yet. */
  lemma RoombaFirstTickClear(cfg: Config, angle: real)
    requires cfg.Valid() && cfg.sampleTime <= cfg.moveForwardTime
    ensures var x := Executed(cfg, RoombaTree(), false, false, angle);
      x.status == Running && x.cmds == [Velocity(cfg.forwardSpeed, 0.0)] &&
      x.node == Composite(SelectorNode, [
        Composite(SequenceNode, [Leaf(MoveForwardNode(1)), Leaf(MoveInSpiralNode(0, 0.0))], Some(0)),
        Composite(SequenceNode, [Leaf(GoBackNode(0)), Leaf(RotateNode(0, 0.0))], None)], Some(0))
  {
    var t := RoombaTree();
    var clean := t.children[0];
    var c := Executed(cfg, clean, true, false, angle);
    var mf := Executed(cfg, clean.children[0], true, false, angle);
    assert mf.status == Running;
    assert mf.node == Leaf(MoveForwardNode(1));
    assert mf.cmds == [Velocity(cfg.forwardSpeed, 0.0)];
    RunChildrenStops(cfg, SequenceNode, clean.children, clean.children, 0, true, false, angle, mf);
    assert c.node == Composite(SequenceNode, [Leaf(MoveForwardNode(1)), Leaf(MoveInSpiralNode(0, 0.0))], Some(0));
    assert c.status == Running;
    RunChildrenStops(cfg, SelectorNode, t.children, t.children, 0, true, false, angle, c);
  }

  /** The Roomba's first tick with the bumper pressed: the forward leaf
      fails, so the Clean sequence fails, so the Selector enters the Rotate
      sequence, which enters and runs the back-up leaf, all in the same tick. */
  lemma RoombaFirstTickBump(cfg: Config, angle: real)
    requires cfg.Valid() && cfg.sampleTime <= cfg.goBackTime
    ensures var x := Executed(cfg, RoombaTree(), false, true, angle);
      x.status == Running &&
      x.cmds == [Velocity(cfg.forwardSpeed, 0.0), Velocity(cfg.backwardSpeed, 0.0)] &&
      x.node == Composite(SelectorNode, [
        Composite(SequenceNode, [Leaf(MoveForwardNode(1)), Leaf(MoveInSpiralNode(0, 0.0))], None),
        Composite(SequenceNode, [Leaf(GoBackNode(1)), Leaf(RotateNode(0, 0.0))], Some(0))], Some(1))
  {
    var t := RoombaTree();
    var clean, rot := t.children[0], t.children[1];
    var c := Executed(cfg, clean, true, true, angle);
    var mf := Executed(cfg, clean.children[0], true, true, angle);
    assert mf.status == Failure;
    assert mf.node == Leaf(MoveForwardNode(1));
    assert mf.cmds == [Velocity(cfg.forwardSpeed, 0.0)];
    RunChildrenStops(cfg, SequenceNode, clean.children, clean.children, 0, true, true, angle, mf);
    assert c.node == Composite(SequenceNode, [Leaf(MoveForwardNode(1)), Leaf(MoveInSpiralNode(0, 0.0))], None);
    assert c.status == Failure;
    var r := Executed(cfg, rot, true, true, angle);
    var gb := Executed(cfg, rot.children[0], true, true, angle);
    assert gb.status == Running;
    assert gb.node == Leaf(GoBackNode(1));
    assert gb.cmds == [Velocity(cfg.backwardSpeed, 0.0)];
    RunChildrenStops(cfg, SequenceNode, rot.children, rot.children, 0, true, true, angle, gb);
    assert r.node == Composite(SequenceNode, [Leaf(GoBackNode(1)), Leaf(RotateNode(0, 0.0))], Some(0));
    var after := t.children[0 := c.node];
    RunChildrenStops(cfg, SelectorNode, t.children, after, 1, true, true, angle, r);
    RunChildrenContinues(cfg, SelectorNode, t.children, t.children, 0, true, true, angle, c, []);
  }

  /** How long the back-up leaf runs: in tick `k` after it was entered it
      keeps running exactly when `k` is at most the whole number of ticks
      that fit in the back-up time, `floor(GO_BACK_TIME / SAMPLE_TIME)`. */
  lemma BackUpLength(cfg: Config, k: nat)
    requires cfg.Valid()
    ensures cfg.Elapsed(k) <= cfg.goBackTime <==> k <= (cfg.goBackTime / cfg.sampleTime).Floor
  {
    var q := cfg.goBackTime / cfg.sampleTime;
    assert q * cfg.sampleTime == cfg.goBackTime;
    assert cfg.Elapsed(k) <= cfg.goBackTime <==> k as real <= q by {
      if k as real <= q {
        assert (q - k as real) * cfg.sampleTime >= 0.0;
      } else {
        assert (k as real - q) * cfg.sampleTime > 0.0;
      }
    }
  }

  /** The Roomba tree while it backs up: the Selector "Collide" resumes
      "Rotate", which resumes its back-up leaf. */
  function BackingUp(clean: Node, t: nat, r: LeafNode): Node {
    Composite(SelectorNode, [clean, Composite(SequenceNode, [Leaf(GoBackNode(t)), Leaf(r)], Some(0))], Some(1))
  }

  /** The Roomba tree while it rotates: "Collide" resumes "Rotate", which
      resumes its rotation leaf. */
  function Rotating(clean: Node, g: LeafNode, t: nat, a: real): Node {
    Composite(SelectorNode, [clean, Composite(SequenceNode, [Leaf(g), Leaf(RotateNode(t, a))], Some(1))], Some(1))
  }

  /** While its time is not up, the resumed back-up leaf keeps running,
      whatever the bumper says, and the tick sends no command. */
  lemma RoombaBackingUp(cfg: Config, clean: Node, t: nat, r: LeafNode, bumper: bool, angle: real)
    requires cfg.Valid() && WellFormed(clean) && r.Valid()
    requires cfg.Elapsed(t + 1) <= cfg.goBackTime
    ensures WellFormed(BackingUp(clean, t, r))
    ensures var x := Executed(cfg, BackingUp(clean, t, r), false, bumper, angle);
      x.status == Running && x.cmds == [] && x.node == BackingUp(clean, t + 1, r)
  {
    var n := BackingUp(clean, t, r);
    var rs := n.children[1];
    var gb := Executed(cfg, rs.children[0], false, bumper, angle);
    assert gb.status == Running && gb.node == Leaf(GoBackNode(t + 1)) && gb.cmds == [];
    RunChildrenStops(cfg, SequenceNode, rs.children, rs.children, 0, false, bumper, angle, gb);
    var y := Executed(cfg, rs, false, bumper, angle);
    assert y.node == BackingUp(clean, t + 1, r).children[1];
    assert y.status == Running && y.cmds == [];
    RunChildrenStops(cfg, SelectorNode, n.children, n.children, 1, false, bumper, angle, y);
  }

  /** In the tick the back-up leaf succeeds, "Rotate" moves on: it enters
      its rotation leaf with the angle sampled in this tick and runs it, and
      returns the rotation's status, keeping it as the running child exactly
      when it runs. */
  lemma RotateSequenceMovesOn(cfg: Config, t: nat, r: LeafNode, bumper: bool, angle: real)
    requires cfg.Valid() && r.RotateNode? && cfg.Elapsed(t + 1) > cfg.goBackTime
    ensures var y := Executed(cfg, Composite(SequenceNode, [Leaf(GoBackNode(t)), Leaf(r)], Some(0)), false, bumper, angle);
      y.status == (if cfg.sampleTime > angle / cfg.angularSpeed then Success else Running) &&
      y.cmds == [Velocity(0.0, cfg.angularSpeed)] &&
      y.node == Composite(SequenceNode, [Leaf(GoBackNode(t + 1)), Leaf(RotateNode(1, angle))],
                          if y.status == Running then Some(1) else None)
  {
    var rs := Composite(SequenceNode, [Leaf(GoBackNode(t)), Leaf(r)], Some(0));
    var gb := Executed(cfg, rs.children[0], false, bumper, angle);
    assert gb.status == Success && gb.node == Leaf(GoBackNode(t + 1)) && gb.cmds == [];
    var after := rs.children[0 := gb.node];
    var ro := Executed(cfg, rs.children[1], true, bumper, angle);
    assert cfg.Elapsed(1) == cfg.sampleTime;
    assert ro.status == (if cfg.sampleTime > angle / cfg.angularSpeed then Success else Running);
    assert ro.node == Leaf(RotateNode(1, angle)) && ro.cmds == [Velocity(0.0, cfg.angularSpeed)];
    RunChildrenStops(cfg, SequenceNode, rs.children, after, 1, true, bumper, angle, ro);
    RunChildrenContinues(cfg, SequenceNode, rs.children, rs.children, 0, false, bumper, angle, gb, []);
  }

  /** So, when the rotation does not end at once, the tree goes on
      rotating: the only command of the tick is turning in place. */
  lemma RoombaBackUpEnds(cfg: Config, clean: Node, t: nat, r: LeafNode, bumper: bool, angle: real)
    requires cfg.Valid() && WellFormed(clean) && r.RotateNode?
    requires cfg.Elapsed(t + 1) > cfg.goBackTime && cfg.sampleTime <= angle / cfg.angularSpeed
    ensures WellFormed(BackingUp(clean, t, r))
    ensures var x := Executed(cfg, BackingUp(clean, t, r), false, bumper, angle);
      x.status == Running && x.cmds == [Velocity(0.0, cfg.angularSpeed)] &&
      x.node == Rotating(clean, GoBackNode(t + 1), 1, angle)
  {
    var n := BackingUp(clean, t, r);
    RotateSequenceMovesOn(cfg, t, r, bumper, angle);
    var y := Executed(cfg, n.children[1], false, bumper, angle);
    RunChildrenStops(cfg, SelectorNode, n.children, n.children, 1, false, bumper, angle, y);
  }

  /** If the angle sampled in that tick, divided by the angular speed, is
      below one tick (every angle of the opposite sign to the angular speed
      is), the rotation succeeds at once: "Rotate" and then "Collide" succeed
      in the same tick, and neither keeps a running child. */
  lemma RoombaBackUpEndsShortRotation(cfg: Config, clean: Node, t: nat, r: LeafNode, bumper: bool, angle: real)
    requires cfg.Valid() && WellFormed(clean) && r.RotateNode?
    requires cfg.Elapsed(t + 1) > cfg.goBackTime && angle / cfg.angularSpeed < cfg.sampleTime
    ensures WellFormed(BackingUp(clean, t, r))
    ensures var x := Executed(cfg, BackingUp(clean, t, r), false, bumper, angle);
      x.status == Success && x.cmds == [Velocity(0.0, cfg.angularSpeed)] &&
      x.node == Composite(SelectorNode, [clean,
        Composite(SequenceNode, [Leaf(GoBackNode(t + 1)), Leaf(RotateNode(1, angle))], None)], None)
  {
    var n := BackingUp(clean, t, r);
    RotateSequenceMovesOn(cfg, t, r, bumper, angle);
    var y := Executed(cfg, n.children[1], false, bumper, angle);
    RunChildrenStops(cfg, SelectorNode, n.children, n.children, 1, false, bumper, angle, y);
  }

  /** While its time is not up, the resumed rotation keeps running, whatever
      the bumper says, and the tick sends no command. */
  lemma RoombaRotating(cfg: Config, clean: Node, g: LeafNode, t: nat, a: real, bumper: bool, angle: real)
    requires cfg.Valid() && WellFormed(clean) && g.Valid()
    requires cfg.Elapsed(t + 1) <= a / cfg.angularSpeed
    ensures WellFormed(Rotating(clean, g, t, a))
    ensures var x := Executed(cfg, Rotating(clean, g, t, a), false, bumper, angle);
      x.status == Running && x.cmds == [] && x.node == Rotating(clean, g, t + 1, a)
  {
    var n := Rotating(clean, g, t, a);
    var rs := n.children[1];
    var ro := Executed(cfg, rs.children[1], false, bumper, angle);
    assert ro.status == Running && ro.node == Leaf(RotateNode(t + 1, a)) && ro.cmds == [];
    RunChildrenStops(cfg, SequenceNode, rs.children, rs.children, 1, false, bumper, angle, ro);
    var y := Executed(cfg, rs, false, bumper, angle);
    assert y.node == Rotating(clean, g, t + 1, a).children[1];
    assert y.status == Running && y.cmds == [];
    RunChildrenStops(cfg, SelectorNode, n.children, n.children, 1, false, bumper, angle, y);
  }

  /** In the tick the rotation succeeds, "Rotate" succeeds as its last child
      did, so "Collide" succeeds: neither keeps a running child, and the tick
      sends no command. */
  lemma RoombaRotationEnds(cfg: Config, clean: Node, g: LeafNode, t: nat, a: real, bumper: bool, angle: real)
    requires cfg.Valid() && WellFormed(clean) && g.Valid()
    requires cfg.Elapsed(t + 1) > a / cfg.angularSpeed
    ensures WellFormed(Rotating(clean, g, t, a))
    ensures var x := Executed(cfg, Rotating(clean, g, t, a), false, bumper, angle);
      x.status == Success && x.cmds == [] &&
      x.node == Composite(SelectorNode, [clean, Composite(SequenceNode, [Leaf(g), Leaf(RotateNode(t + 1, a))], None)], None)
  {
    var n := Rotating(clean, g, t, a);
    var rs := n.children[1];
    var ro := Executed(cfg, rs.children[1], false, bumper, angle);
    assert ro.status == Success && ro.node == Leaf(RotateNode(t + 1, a)) && ro.cmds == [];
    RunChildrenStops(cfg, SequenceNode, rs.children, rs.children, 1, false, bumper, angle, ro);
    var y := Executed(cfg, rs, false, bumper, angle);
    assert y.node == Composite(SequenceNode, [Leaf(g), Leaf(RotateNode(t + 1, a))], None);
    assert y.status == Success && y.cmds == [];
    RunChildrenStops(cfg, SelectorNode, n.children, n.children, 1, false, bumper, angle, y);
  }

  /** In the tick after "Collide" finished, with the bumper released, it
      starts over: it enters "Clean", which enters and runs its forward leaf,
      whose time is not up yet when the forward time is at least one tick. */
  lemma RoombaRestarts(cfg: Config, f: LeafNode, s: LeafNode, rc: Option<nat>, rotate: Node, angle: real)
    requires cfg.Valid() && f.MoveForwardNode? && s.Valid() && (rc.Some? ==> rc.value < 2) && WellFormed(rotate)
    requires cfg.sampleTime <= cfg.moveForwardTime
    ensures var n := Composite(SelectorNode, [Composite(SequenceNode, [Leaf(f), Leaf(s)], rc), rotate], None);
      WellFormed(n) &&
      var x := Executed(cfg, n, false, false, angle);
      x.status == Running && x.cmds == [Velocity(cfg.forwardSpeed, 0.0)] &&
      x.node == Composite(SelectorNode, [Composite(SequenceNode, [Leaf(MoveForwardNode(1)), Leaf(s)], Some(0)), rotate], Some(0))
  {
    var clean := Composite(SequenceNode, [Leaf(f), Leaf(s)], rc);
    var n := Composite(SelectorNode, [clean, rotate], None);
    var mf := Executed(cfg, clean.children[0], true, false, angle);
    assert mf.status == Running && mf.node == Leaf(MoveForwardNode(1));
    assert mf.cmds == [Velocity(cfg.forwardSpeed, 0.0)];
    RunChildrenStops(cfg, SequenceNode, clean.children, clean.children, 0, true, false, angle, mf);
    var c := Executed(cfg, clean, true, false, angle);
    assert c.node == Composite(SequenceNode, [Leaf(MoveForwardNode(1)), Leaf(s)], Some(0));
    assert c.status == Running && c.cmds == [Velocity(cfg.forwardSpeed, 0.0)];
    RunChildrenStops(cfg, SelectorNode, n.children, n.children, 0, true, false, angle, c);
  }

  /** If the bumper is pressed in the restart tick, the entered forward leaf
      fails at once, so "Clean" fails and "Collide" enters "Rotate", which
      enters and runs its back-up leaf: the tree is backing up again, after
      commanding forward and then backward in the same tick. */
  lemma RoombaRestartsBumped(cfg: Config, f: LeafNode, s: LeafNode, rc: Option<nat>,
                             g: LeafNode, r: LeafNode, rc2: Option<nat>, angle: real)
    requires cfg.Valid() && f.MoveForwardNode? && s.Valid() && (rc.Some? ==> rc.value < 2)
    requires g.GoBackNode? && r.Valid() && (rc2.Some? ==> rc2.value < 2)
    requires cfg.sampleTime <= cfg.goBackTime
    ensures var n := Composite(SelectorNode, [Composite(SequenceNode, [Leaf(f), Leaf(s)], rc),
                                              Composite(SequenceNode, [Leaf(g), Leaf(r)], rc2)], None);
      WellFormed(n) &&
      var x := Executed(cfg, n, false, true, angle);
      x.status == Running && x.cmds == [Velocity(cfg.forwardSpeed, 0.0), Velocity(cfg.backwardSpeed, 0.0)] &&
      x.node == BackingUp(Composite(SequenceNode, [Leaf(MoveForwardNode(1)), Leaf(s)], None), 1, r)
  {
    var clean := Composite(SequenceNode, [Leaf(f), Leaf(s)], rc);
    var rot := Composite(SequenceNode, [Leaf(g), Leaf(r)], rc2);
    var n := Composite(SelectorNode, [clean, rot], None);
    var mf := Executed(cfg, clean.children[0], true, true, angle);
    assert mf.status == Failure && mf.node == Leaf(MoveForwardNode(1));
    assert mf.cmds == [Velocity(cfg.forwardSpeed, 0.0)];
    RunChildrenStops(cfg, SequenceNode, clean.children, clean.children, 0, true, true, angle, mf);
    var c := Executed(cfg, clean, true, true, angle);
    assert c.node == Composite(SequenceNode, [Leaf(MoveForwardNode(1)), Leaf(s)], None);
    assert c.status == Failure && c.cmds == [Velocity(cfg.forwardSpeed, 0.0)];
    var gb := Executed(cfg, rot.children[0], true, true, angle);
    assert gb.status == Running && gb.node == Leaf(GoBackNode(1));
    assert gb.cmds == [Velocity(cfg.backwardSpeed, 0.0)];
    RunChildrenStops(cfg, SequenceNode, rot.children, rot.children, 0, true, true, angle, gb);
    var y := Executed(cfg, rot, true, true, angle);
    assert y.node == Composite(SequenceNode, [Leaf(GoBackNode(1)), Leaf(r)], Some(0));
    assert y.status == Running && y.cmds == [Velocity(cfg.backwardSpeed, 0.0)];
    var after := n.children[0 := c.node];
    RunChildrenStops(cfg, SelectorNode, n.children, after, 1, true, true, angle, y);
    RunChildrenContinues(cfg, SelectorNode, n.children, n.children, 0, true, true, angle, c, []);
  }

  /** The tree after one tick for each bumper reading in `bumpers`, in
      order. One angle serves the whole run: every rotation entered during
      the run samples the same `angle`. */
  function TreeRun(cfg: Config, n: Node, bumpers: seq<bool>, angle: real): (r: Node)
    requires cfg.Valid() && WellFormed(n)
    ensures WellFormed(r)
    decreases |bumpers|
  {
    if bumpers == [] then n
    else Executed(cfg, TreeRun(cfg, n, bumpers[..|bumpers| - 1], angle), false, bumpers[|bumpers| - 1], angle).node
  }

  /** The back-up phase over many ticks: after the back-up leaf was
      entered and run once, each further tick in which the time is not up
      leaves it running one tick older, whatever the bumper says. With
      `BackUpLength`, it runs for `floor(GO_BACK_TIME / SAMPLE_TIME)` ticks
      in all. */
  lemma {:induction false} RoombaBackUpPhase(cfg: Config, clean: Node, r: LeafNode, bumpers: seq<bool>, angle: real)
    requires cfg.Valid() && WellFormed(clean) && r.Valid()
    requires cfg.Elapsed(|bumpers| + 1) <= cfg.goBackTime
    ensures WellFormed(BackingUp(clean, 1, r))
    ensures TreeRun(cfg, BackingUp(clean, 1, r), bumpers, angle) == BackingUp(clean, |bumpers| + 1, r)
    decreases |bumpers|
  {
    if bumpers != [] {
      var k := |bumpers|;
      cfg.ElapsedMonotone(k, k + 1);
      RoombaBackUpPhase(cfg, clean, r, bumpers[..k - 1], angle);
      RoombaBackingUp(cfg, clean, k, r, bumpers[k - 1], angle);
    }
  }

  /** Running the tree for the ticks of `a` and then those of `b` is running
      it for the ticks of `a + b`. */
  lemma {:induction false} TreeRunAppend(cfg: Config, n: Node, a: seq<bool>, b: seq<bool>, angle: real)
    requires cfg.Valid() && WellFormed(n)
    ensures TreeRun(cfg, n, a + b, angle) == TreeRun(cfg, TreeRun(cfg, n, a, angle), b, angle)
    decreases |b|
  {
    if b == [] {
      assert a + b == a;
    } else {
      assert (a + b)[..|a + b| - 1] == a + b[..|b| - 1];
      TreeRunAppend(cfg, n, a, b[..|b| - 1], angle);
    }
  }

  /** "Clean" after its forward leaf failed in the first tick. */
  function Bumped(): (r: Node)
    ensures WellFormed(r)
  {
    Composite(SequenceNode, [Leaf(MoveForwardNode(1)), Leaf(MoveInSpiralNode(0, 0.0))], None)
  }

  /** The bump tick as a one-tick run. */
  lemma RoombaBumpRun(cfg: Config, angle: real)
    requires cfg.Valid() && cfg.sampleTime <= cfg.goBackTime
    ensures TreeRun(cfg, RoombaTree(), [true], angle) == BackingUp(Bumped(), 1, RotateNode(0, 0.0))
  {
    RoombaFirstTickBump(cfg, angle);
    assert [true][..0] == [];
  }

  /** The Roomba's bump scenario: the bumper is pressed in the first tick,
      so "Collide" falls through to "Rotate" and the back-up leaf starts;
      whatever the bumper says afterwards, the tree is still backing up in
      every tick whose time has not passed the back-up time. */
  lemma RoombaBumpThenBackUp(cfg: Config, bumpers: seq<bool>, angle: real)
    requires cfg.Valid() && cfg.Elapsed(|bumpers| + 1) <= cfg.goBackTime
    ensures TreeRun(cfg, RoombaTree(), [true] + bumpers, angle) == BackingUp(Bumped(), |bumpers| + 1, RotateNode(0, 0.0))
  {
    cfg.ElapsedMonotone(1, |bumpers| + 1);
    RoombaBumpRun(cfg, angle);
    TreeRunAppend(cfg, RoombaTree(), [true], bumpers, angle);
    RoombaBackUpPhase(cfg, Bumped(), RotateNode(0, 0.0), bumpers, angle);
  }
}

/** The behavior-tree controller of the cleaning robot: a three-valued
    execution status, four leaf behaviours with tick counters, the Sequence
    (AND) and Selector (OR) composites that resume a running child, and the
    fixed Roomba tree.

    Every node is owned by exactly one parent, so a node is modelled as a
    value and "updating a node in place" as returning its new value; the
    composite's `running_child` reference becomes an index into its children.
    The robot is outside the core: its bumper is an input of each tick and its
    `set_velocity` calls are returned, in the order they are made. */
module BehaviorTrees {
  import opened Robot

  datatype ExecutionStatus = Success | Failure | Running

  /** The state of a leaf behaviour between ticks. */
  datatype LeafNode =
    | MoveForwardNode(executionCount: nat)
    | MoveInSpiralNode(executionCount: nat, spiralRadius: real)
    | GoBackNode(executionTime: nat)
    | RotateNode(executionTime: nat, rotateAngle: real)
  {
    /** The behaviour this leaf performs. */
    function Kind(): Behaviour {
      match this
      case MoveForwardNode(_) => MoveForward
      case MoveInSpiralNode(_, _) => MoveInSpiral
      case GoBackNode(_) => GoBack
      case RotateNode(_, _) => Rotate
    }

    /** Ticks executed since the leaf was last entered. */
    function Ticks(): nat {
      match this
      case MoveForwardNode(c) => c
      case MoveInSpiralNode(c, _) => c
      case GoBackNode(t) => t
      case RotateNode(t, _) => t
    }

    /** The spiral radius never becomes negative. */
    predicate Valid() {
      MoveInSpiralNode? ==> spiralRadius >= 0.0
    }

    /** How long the behaviour lasts: once the elapsed time exceeds this, the
        leaf succeeds. For Rotate it is `rotate_angle / ANGULAR_SPEED`, which
        is negative for a negative angle. */
    function Limit(cfg: Config): real
      requires cfg.Valid()
    {
      match this
      case MoveForwardNode(_) => cfg.moveForwardTime
      case MoveInSpiralNode(_, _) => cfg.moveInSpiralTime
      case GoBackNode(_) => cfg.goBackTime
      case RotateNode(_, a) => a / cfg.angularSpeed
    }

    /** Whether the leaf gives up when the bumper is pressed. */
    predicate WatchesBumper() {
      MoveForwardNode? || MoveInSpiralNode?
    }
  }

  /** The velocity a leaf behaviour holds while it is active. */
  function Heading(cfg: Config, l: LeafNode): Velocity
    requires l.MoveInSpiralNode? ==> l.spiralRadius > 0.0
  {
    Command(cfg, l.Kind(), if l.MoveInSpiralNode? then l.spiralRadius else 0.0)
  }

  datatype LeafEntry = LeafEntry(leaf: LeafNode, cmd: Velocity)

  /** `enter` of a leaf: restart its counter, set up its parameter (the
      initial spiral radius, the sampled rotation angle) and command its
      velocity once. */
  function LeafEnter(cfg: Config, l: LeafNode, angle: real): (r: LeafEntry)
    requires cfg.Valid()
    ensures r.leaf.Valid() && r.leaf.Kind() == l.Kind() && r.leaf.Ticks() == 0
    ensures r.leaf.MoveInSpiralNode? ==> r.leaf.spiralRadius == cfg.initialRadiusSpiral
    ensures r.leaf.RotateNode? ==> r.leaf.rotateAngle == angle
    ensures r.cmd == Heading(cfg, r.leaf)
  {
    match l
    case MoveForwardNode(_) => LeafEntry(MoveForwardNode(0), Velocity(cfg.forwardSpeed, 0.0))
    case MoveInSpiralNode(_, _) =>
      LeafEntry(MoveInSpiralNode(0, cfg.initialRadiusSpiral),
                Velocity(cfg.forwardSpeed, cfg.forwardSpeed / cfg.initialRadiusSpiral))
    case GoBackNode(_) => LeafEntry(GoBackNode(0), Velocity(cfg.backwardSpeed, 0.0))
    case RotateNode(_, _) => LeafEntry(RotateNode(0, angle), Velocity(0.0, cfg.angularSpeed))
  }

  datatype LeafStep = LeafStep(leaf: LeafNode, status: ExecutionStatus, cmds: seq<Velocity>)

  /** `execute` of a leaf: count the tick; fail on the bumper (forward and
      spiral only, checked before the time); succeed once the elapsed time
      exceeds the behaviour's limit; otherwise keep running, and a running
      spiral widens its radius and re-commands its velocity. */
  function LeafExecute(cfg: Config, l: LeafNode, bumper: bool): (r: LeafStep)
    requires cfg.Valid() && l.Valid()
    ensures r.leaf.Valid() && r.leaf.Kind() == l.Kind() && r.leaf.Ticks() == l.Ticks() + 1
    ensures r.leaf.RotateNode? ==> r.leaf.rotateAngle == l.rotateAngle
    ensures r.status == Failure <==> bumper && l.WatchesBumper()
    ensures r.status == Success <==> r.status != Failure && cfg.Elapsed(r.leaf.Ticks()) > l.Limit(cfg)
    ensures r.leaf.MoveInSpiralNode? ==>
      r.leaf.spiralRadius == l.spiralRadius + (if r.status == Running then cfg.RadiusStep() else 0.0)
    ensures r.leaf.MoveInSpiralNode? && r.status == Running ==>
      r.leaf.spiralRadius > 0.0 && r.cmds == [Heading(cfg, r.leaf)]
    ensures !(r.leaf.MoveInSpiralNode? && r.status == Running) ==> r.cmds == []
  {
    match l
    case MoveForwardNode(c) =>
      var count := c + 1;
      var status :=
        if bumper then Failure
        else if cfg.Elapsed(count) > cfg.moveForwardTime then Success
        else Running;
      LeafStep(MoveForwardNode(count), status, [])
    case MoveInSpiralNode(c, radius) =>
      var count := c + 1;
      if bumper then LeafStep(MoveInSpiralNode(count, radius), Failure, [])
      else if cfg.Elapsed(count) > cfg.moveInSpiralTime then LeafStep(MoveInSpiralNode(count, radius), Success, [])
      else
        var wider := radius + cfg.spiralFactor * cfg.sampleTime;
        LeafStep(MoveInSpiralNode(count, wider), Running, [Velocity(cfg.forwardSpeed, cfg.forwardSpeed / wider)])
    case GoBackNode(t) =>
      var time := t + 1;
      LeafStep(GoBackNode(time), if cfg.Elapsed(time) > cfg.goBackTime then Success else Running, [])
    case RotateNode(t, a) =>
      var time := t + 1;
      LeafStep(RotateNode(time, a), if cfg.Elapsed(time) > a / cfg.angularSpeed then Success else Running, [])
  }

  datatype CompositeKind = SequenceNode | SelectorNode

  /** The child status on which a composite moves on to its next child:
      success for a Sequence (AND), failure for a Selector (OR). Any other
      status of a child is the composite's own status. */
  function ContinueOn(kind: CompositeKind): (s: ExecutionStatus)
    ensures s != Running
  {
    if kind == SequenceNode then Success else Failure
  }

  /** A node of a behavior tree. A composite keeps its children in priority
      order and the index of the child left running by its last tick. */
  datatype Node =
    | Leaf(leaf: LeafNode)
    | Composite(kind: CompositeKind, children: seq<Node>, runningChild: Option<nat>)

  /** A tree that can be executed: every composite has a first child and its
      running child is one of its children. */
  predicate WellFormed(n: Node) {
    match n
    case Leaf(l) => l.Valid()
    case Composite(_, cs, rc) =>
      |cs| > 0 && (rc.Some? ==> rc.value < |cs|) &&
      forall j :: 0 <= j < |cs| ==> WellFormed(cs[j])
  }

  /** A tree whose last tick returned Running: from the root down, every
      composite points at its running child, ending at a leaf. */
  predicate Resumable(n: Node) {
    n.Composite? ==>
      n.runningChild.Some? && n.runningChild.value < |n.children| &&
      Resumable(n.children[n.runningChild.value])
  }

  function Height(n: Node): nat {
    match n
    case Leaf(_) => 0
    case Composite(_, cs, _) => 1 + MaxHeight(cs)
  }

  function MaxHeight(cs: seq<Node>): nat {
    if cs == [] then 0
    else
      var h := Height(cs[0]);
      var t := MaxHeight(cs[1..]);
      if h < t then t else h
  }

  lemma {:induction false} ChildBelow(cs: seq<Node>, j: nat)
    requires j < |cs|
    ensures Height(cs[j]) <= MaxHeight(cs)
  {
    if j > 0 {
      ChildBelow(cs[1..], j - 1);
      assert cs[1..][j - 1] == cs[j];
    }
  }

  /** A composite as constructed: no children yet, nothing running. */
  function NewComposite(kind: CompositeKind): (r: Node)
    ensures r.Composite? && r.kind == kind && r.children == [] && r.runningChild.None?
  {
    Composite(kind, [], None)
  }

  /** `add_child`: append a child after the existing ones. */
  function AddChild(parent: Node, child: Node): (r: Node)
    requires parent.Composite?
    ensures r.Composite? && r.kind == parent.kind && r.runningChild == parent.runningChild
    ensures r.children == parent.children + [child]
    ensures parent.runningChild.None? ==>
      (WellFormed(r) <==> WellFormed(child) && forall j :: 0 <= j < |parent.children| ==> WellFormed(parent.children[j]))
  {
    var r := Composite(parent.kind, parent.children + [child], parent.runningChild);
    assert forall j :: 0 <= j < |parent.children| ==> r.children[j] == parent.children[j];
    assert r.children[|parent.children|] == child;
    r
  }

  datatype Entry = Entry(node: Node, cmds: seq<Velocity>)

  /** `enter` of any node. A composite only forgets its running child (its
      children are entered when it reaches them); a leaf restarts. */
  function Entered(cfg: Config, n: Node, angle: real): (r: Entry)
    requires cfg.Valid() && WellFormed(n)
    ensures WellFormed(r.node) && Height(r.node) == Height(n)
    ensures n.Composite? ==> r.node == n.(runningChild := None) && r.cmds == []
    ensures n.Leaf? ==>
      var e := LeafEnter(cfg, n.leaf, angle);
      r.node == Leaf(e.leaf) && r.cmds == [e.cmd]
  {
    match n
    case Leaf(l) =>
      var e := LeafEnter(cfg, l, angle);
      Entry(Leaf(e.leaf), [e.cmd])
    case Composite(kind, cs, _) => Entry(Composite(kind, cs, None), [])
  }

  /** One tick of a node: its new state, the status it returns and the
      velocity commands it sends. */
  datatype Step = Step(node: Node, status: ExecutionStatus, cmds: seq<Velocity>)

  /** What the inner loop of a composite's `execute` produces: the updated
      children, the status, the new running child, the index of the child
      whose status decided the outcome, and the commands sent. */
  datatype RunResult = RunResult(
    children: seq<Node>, status: ExecutionStatus, runningChild: Option<nat>, last: nat, cmds: seq<Velocity>)

  /** `execute` of a node, preceded by its `enter` when `entering` holds (a
      composite enters a child right before it first executes it). A
      composite with no running child starts at its first child, entering it;
      otherwise it resumes its running child without entering it. */
  function Executed(cfg: Config, n: Node, entering: bool, bumper: bool, angle: real): (r: Step)
    requires cfg.Valid() && WellFormed(n)
    ensures WellFormed(r.node) && r.node.Leaf? == n.Leaf?
    ensures n.Leaf? ==> r.node.leaf.Kind() == n.leaf.Kind()
    ensures n.Composite? ==> r.node.kind == n.kind && |r.node.children| == |n.children|
    ensures n.Composite? ==> (r.node.runningChild.Some? <==> r.status == Running)
    ensures r.status == Running ==> Resumable(r.node)
    decreases n, 1
  {
    match n
    case Leaf(l) =>
      var l2 := if entering then LeafEnter(cfg, l, angle).leaf else l;
      var x := LeafExecute(cfg, l2, bumper);
      Step(Leaf(x.leaf), x.status, (if entering then [LeafEnter(cfg, l, angle).cmd] else []) + x.cmds)
    case Composite(kind, cs, rc) =>
      var r := RunChildren(cfg, kind, cs, cs, StartIndex(n, entering), Restarts(n, entering), bumper, angle);
      Step(Composite(kind, r.children, r.runningChild), r.status, r.cmds)
  }

  /** Whether a composite's tick starts over at its first child, entering
      it: when the composite was just entered or has no running child. */
  predicate Restarts(n: Node, entering: bool)
    requires n.Composite?
  {
    entering || n.runningChild.None?
  }

  /** The child a composite's tick begins with: the first one when it
      restarts, otherwise its running child. */
  function StartIndex(n: Node, entering: bool): (k: nat)
    requires WellFormed(n) && n.Composite?
    ensures k < |n.children|
    ensures Restarts(n, entering) ==> k == 0
    ensures !Restarts(n, entering) ==> n.runningChild == Some(k)
  {
    if Restarts(n, entering) then 0 else n.runningChild.value
  }

  /** The inner `while` loop of Sequence and Selector `execute`, from child
      `i` on (entered first when `enterFirst`). `orig` are the composite's
      children as the tick found them, `cs` the children as updated so far;
      those from `i` on are still the original ones. */
  function RunChildren(cfg: Config, kind: CompositeKind, orig: seq<Node>, cs: seq<Node>, i: nat,
                       enterFirst: bool, bumper: bool, angle: real)
    : (r: RunResult)
    requires cfg.Valid() && |cs| == |orig| && i < |cs|
    requires forall j :: 0 <= j < |cs| ==> WellFormed(cs[j])
    requires forall j :: i <= j < |cs| ==> cs[j] == orig[j]
    ensures |r.children| == |cs| && forall j :: 0 <= j < |cs| ==> WellFormed(r.children[j])
    ensures i <= r.last < |cs|
    ensures r.runningChild == if r.status == Running then Some(r.last) else None
    ensures r.status == Running ==> Resumable(r.children[r.last])
    decreases orig, |cs| - i
  {
    var x := Executed(cfg, cs[i], enterFirst, bumper, angle);
    var done := cs[i := x.node];
    if x.status == Running then
      RunResult(done, Running, Some(i), i, x.cmds)
    else if x.status == ContinueOn(kind) && i + 1 < |cs| then
      var r := RunChildren(cfg, kind, orig, done, i + 1, true, bumper, angle);
      r.(cmds := x.cmds + r.cmds)
    else
      RunResult(done, x.status, None, i, x.cmds)
  }

  /** The inner loop leaves the children before its starting child and
      every child after the one that decided the outcome as they were
      (`RunChildrenCommands` shows that they send nothing either). */
  lemma {:induction false} RunChildrenUntouched(cfg: Config, kind: CompositeKind, orig: seq<Node>, cs: seq<Node>, i: nat,
      enterFirst: bool, bumper: bool, angle: real, j: nat)
    requires cfg.Valid() && |cs| == |orig| && i < |cs|
    requires forall j :: 0 <= j < |cs| ==> WellFormed(cs[j])
    requires forall j :: i <= j < |cs| ==> cs[j] == orig[j]
    requires j < |cs|
    ensures var r := RunChildren(cfg, kind, orig, cs, i, enterFirst, bumper, angle);
      j < i || r.last < j ==> r.children[j] == cs[j]
    decreases |cs| - i
  {
    var x := Executed(cfg, cs[i], enterFirst, bumper, angle);
    if x.status != Running && x.status == ContinueOn(kind) && i + 1 < |cs| {
      var done := cs[i := x.node];
      var r := RunChildren(cfg, kind, orig, done, i + 1, true, bumper, angle);
      assert RunChildren(cfg, kind, orig, cs, i, enterFirst, bumper, angle) == r.(cmds := x.cmds + r.cmds);
      RunChildrenUntouched(cfg, kind, orig, done, i + 1, true, bumper, angle, j);
      assert j != i ==> done[j] == cs[j];
    }
  }

  /** Every child from the starting child up to the deciding one was
      executed in this tick (entered first, except a resumed starting child)
      and returned the continue status. */
  lemma {:induction false} RunChildrenContinued(cfg: Config, kind: CompositeKind, orig: seq<Node>, cs: seq<Node>, i: nat,
      enterFirst: bool, bumper: bool, angle: real, j: nat)
    requires cfg.Valid() && |cs| == |orig| && i < |cs|
    requires forall j :: 0 <= j < |cs| ==> WellFormed(cs[j])
    requires forall j :: i <= j < |cs| ==> cs[j] == orig[j]
    requires j < |cs|
    ensures var r := RunChildren(cfg, kind, orig, cs, i, enterFirst, bumper, angle);
      i <= j < r.last ==>
        var x := Executed(cfg, cs[j], enterFirst || i < j, bumper, angle);
        x.status == ContinueOn(kind) && r.children[j] == x.node
    decreases |cs| - i
  {
    var x := Executed(cfg, cs[i], enterFirst, bumper, angle);
    if x.status != Running && x.status == ContinueOn(kind) && i + 1 < |cs| {
      var done := cs[i := x.node];
      var r := RunChildren(cfg, kind, orig, done, i + 1, true, bumper, angle);
      assert RunChildren(cfg, kind, orig, cs, i, enterFirst, bumper, angle) == r.(cmds := x.cmds + r.cmds);
      if j == i {
        RunChildrenUntouched(cfg, kind, orig, done, i + 1, true, bumper, angle, i);
      } else {
        RunChildrenContinued(cfg, kind, orig, done, i + 1, true, bumper, angle, j);
        assert done[j] == cs[j];
      }
    }
  }

  /** The composite returns the status of the deciding child, which is the
      first child from the starting one that does not return the continue
      status, or else the last child. */
  lemma {:induction false} RunChildrenDecided(cfg: Config, kind: CompositeKind, orig: seq<Node>, cs: seq<Node>, i: nat,
      enterFirst: bool, bumper: bool, angle: real)
    requires cfg.Valid() && |cs| == |orig| && i < |cs|
    requires forall j :: 0 <= j < |cs| ==> WellFormed(cs[j])
    requires forall j :: i <= j < |cs| ==> cs[j] == orig[j]
    ensures var r := RunChildren(cfg, kind, orig, cs, i, enterFirst, bumper, angle);
      var x := Executed(cfg, cs[r.last], enterFirst || i < r.last, bumper, angle);
      r.children[r.last] == x.node && r.status == x.status &&
      (r.status == ContinueOn(kind) ==> r.last == |cs| - 1)
    decreases |cs| - i
  {
    var x := Executed(cfg, cs[i], enterFirst, bumper, angle);
    if x.status != Running && x.status == ContinueOn(kind) && i + 1 < |cs| {
      var done := cs[i := x.node];
      var r := RunChildren(cfg, kind, orig, done, i + 1, true, bumper, angle);
      assert RunChildren(cfg, kind, orig, cs, i, enterFirst, bumper, angle) == r.(cmds := x.cmds + r.cmds);
      RunChildrenDecided(cfg, kind, orig, done, i + 1, true, bumper, angle);
      assert done[r.last] == cs[r.last];
    }
  }

  /** The commands that children `i` to `d` of `cs` send when they are
      executed one after the other, in order, child `i` entered first when
      `enterFirst` and every later child entered first. */
  function ChildCommands(cfg: Config, cs: seq<Node>, i: nat, d: nat, enterFirst: bool, bumper: bool, angle: real)
    : seq<Velocity>
    requires cfg.Valid() && i <= d < |cs|
    requires forall j :: i <= j < |cs| ==> WellFormed(cs[j])
    decreases d - i
  {
    Executed(cfg, cs[i], enterFirst, bumper, angle).cmds +
    (if i == d then [] else ChildCommands(cfg, cs, i + 1, d, true, bumper, angle))
  }

  /** The loop sends exactly the commands of the children it runs, from its
      starting child to the deciding one, in that order: no child after the
      deciding one sends anything. */
  lemma {:induction false} RunChildrenCommands(cfg: Config, kind: CompositeKind, orig: seq<Node>, cs: seq<Node>, i: nat,
      enterFirst: bool, bumper: bool, angle: real)
    requires cfg.Valid() && |cs| == |orig| && i < |cs|
    requires forall j :: 0 <= j < |cs| ==> WellFormed(cs[j])
    requires forall j :: i <= j < |cs| ==> cs[j] == orig[j]
    ensures var r := RunChildren(cfg, kind, orig, cs, i, enterFirst, bumper, angle);
      r.cmds == ChildCommands(cfg, orig, i, r.last, enterFirst, bumper, angle)
    decreases |cs| - i
  {
    var x := Executed(cfg, cs[i], enterFirst, bumper, angle);
    if x.status != Running && x.status == ContinueOn(kind) && i + 1 < |cs| {
      var done := cs[i := x.node];
      var r := RunChildren(cfg, kind, orig, done, i + 1, true, bumper, angle);
      assert RunChildren(cfg, kind, orig, cs, i, enterFirst, bumper, angle) == r.(cmds := x.cmds + r.cmds);
      RunChildrenCommands(cfg, kind, orig, done, i + 1, true, bumper, angle);
    }
  }

  /** The first thing the loop does is run its starting child: its commands
      open the loop's commands. */
  lemma RunChildrenStartsWith(cfg: Config, kind: CompositeKind, orig: seq<Node>, cs: seq<Node>, i: nat,
      enterFirst: bool, bumper: bool, angle: real)
    requires cfg.Valid() && |cs| == |orig| && i < |cs|
    requires forall j :: 0 <= j < |cs| ==> WellFormed(cs[j])
    requires forall j :: i <= j < |cs| ==> cs[j] == orig[j]
    ensures Executed(cfg, cs[i], enterFirst, bumper, angle).cmds
         <= RunChildren(cfg, kind, orig, cs, i, enterFirst, bumper, angle).cmds
  {
  }

  /** Entering a node and then executing it is what `Executed` does with
      `entering` set: the enter commands come first. */
  lemma EnterThenExecute(cfg: Config, n: Node, bumper: bool, angle: real)
    requires cfg.Valid() && WellFormed(n)
    ensures var e := Entered(cfg, n, angle);
      var x := Executed(cfg, e.node, false, bumper, angle);
      Executed(cfg, n, true, bumper, angle) == x.(cmds := e.cmds + x.cmds)
  {
  }

  lemma ConcatAssoc<T>(a: seq<T>, b: seq<T>, c: seq<T>)
    ensures a + (b + c) == (a + b) + c
  {
  }

  /** The inner loop stops at child `i` when that child runs, or returns
      another status than the continue status, or is the last child. */
  lemma RunChildrenStops(cfg: Config, kind: CompositeKind, orig: seq<Node>, cs: seq<Node>, i: nat,
                         enterFirst: bool, bumper: bool, angle: real, x: Step)
    requires cfg.Valid() && |cs| == |orig| && i < |cs|
    requires forall j :: 0 <= j < |cs| ==> WellFormed(cs[j])
    requires forall j :: i <= j < |cs| ==> cs[j] == orig[j]
    requires x == Executed(cfg, cs[i], enterFirst, bumper, angle)
    requires x.status == Running || x.status != ContinueOn(kind) || i + 1 == |cs|
    ensures RunChildren(cfg, kind, orig, cs, i, enterFirst, bumper, angle)
         == RunResult(cs[i := x.node], x.status, if x.status == Running then Some(i) else None, i, x.cmds)
  {
  }

  /** Otherwise the loop goes on with the next child, entering it. */
  lemma RunChildrenContinues(cfg: Config, kind: CompositeKind, orig: seq<Node>, cs: seq<Node>, i: nat,
                             enterFirst: bool, bumper: bool, angle: real, x: Step, pre: seq<Velocity>)
    requires cfg.Valid() && |cs| == |orig| && i + 1 < |cs|
    requires forall j :: 0 <= j < |cs| ==> WellFormed(cs[j])
    requires forall j :: i <= j < |cs| ==> cs[j] == orig[j]
    requires x == Executed(cfg, cs[i], enterFirst, bumper, angle)
    requires x.status == ContinueOn(kind)
    ensures var r := RunChildren(cfg, kind, orig, cs[i := x.node], i + 1, true, bumper, angle);
      var r0 := RunChildren(cfg, kind, orig, cs, i, enterFirst, bumper, angle);
      r0 == r.(cmds := x.cmds + r.cmds) && pre + r0.cmds == (pre + x.cmds) + r.cmds
  {
    var r := RunChildren(cfg, kind, orig, cs[i := x.node], i + 1, true, bumper, angle);
    ConcatAssoc(pre, x.cmds, r.cmds);
  }

  /** `execute` of a node: a leaf executes itself, a composite runs its
      children. */
  method Execute(cfg: Config, n: Node, bumper: bool, angle: real)
    returns (m: Node, status: ExecutionStatus, cmds: seq<Velocity>)
    requires cfg.Valid() && WellFormed(n)
    ensures Step(m, status, cmds) == Executed(cfg, n, false, bumper, angle)
    decreases Height(n), 2
  {
    if n.Leaf? {
      var x := LeafExecute(cfg, n.leaf, bumper);
      m, status, cmds := Leaf(x.leaf), x.status, x.cmds;
    } else {
      m, status, cmds := ExecuteComposite(cfg, n, bumper, angle);
    }
  }

  /** A composite's turn with one child: `enter` it first when `entering`,
      then `execute` it. */
  method EnterAndExecute(cfg: Config, child: Node, entering: bool, bumper: bool, angle: real)
    returns (m: Node, status: ExecutionStatus, cmds: seq<Velocity>)
    requires cfg.Valid() && WellFormed(child)
    ensures Step(m, status, cmds) == Executed(cfg, child, entering, bumper, angle)
    decreases Height(child), 3
  {
    var c := child;
    var enterCmds := [];
    if entering {
      var e := Entered(cfg, child, angle);
      c, enterCmds := e.node, e.cmds;
      EnterThenExecute(cfg, child, bumper, angle);
    }
    var k;
    m, status, k := Execute(cfg, c, bumper, angle);
    cmds := enterCmds + k;
  }

  /** `execute` of Sequence and Selector: the running child, or else the
      entered first child, is executed in a loop that enters and executes the
      next child within the same tick for as long as children return the
      continue status. */
  method ExecuteComposite(cfg: Config, n: Node, bumper: bool, angle: real)
    returns (m: Node, status: ExecutionStatus, cmds: seq<Velocity>)
    requires cfg.Valid() && WellFormed(n) && n.Composite?
    ensures Step(m, status, cmds) == Executed(cfg, n, false, bumper, angle)
    decreases Height(n), 1
  {
    var kind, cs, rc := n.kind, n.children, n.runningChild;
    var children := cs;
    var i: nat := if rc.None? then 0 else rc.value;
    var entering := rc.None?;
    cmds := [];
    while true
      invariant 0 <= i < |children| == |cs|
      invariant forall j :: 0 <= j < |children| ==> WellFormed(children[j])
      invariant forall j :: i <= j < |children| ==> children[j] == cs[j]
      invariant var r := RunChildren(cfg, kind, cs, children, i, entering, bumper, angle);
        Executed(cfg, n, false, bumper, angle) == Step(Composite(kind, r.children, r.runningChild), r.status, cmds + r.cmds)
      decreases |children| - i
    {
      ChildBelow(cs, i);
      var child, s, k := EnterAndExecute(cfg, children[i], entering, bumper, angle);
      ghost var x := Step(child, s, k);
      ghost var before := children;
      ghost var pre := cmds;
      children := children[i := child];
      cmds := cmds + k;
      if s == Running {
        RunChildrenStops(cfg, kind, cs, before, i, entering, bumper, angle, x);
        return Composite(kind, children, Some(i)), Running, cmds;
      } else if s == ContinueOn(kind) && i + 1 < |children| {
        RunChildrenContinues(cfg, kind, cs, before, i, entering, bumper, angle, x, pre);
        i := i + 1;
        entering := true;
      } else {
        RunChildrenStops(cfg, kind, cs, before, i, entering, bumper, angle, x);
        return Composite(kind, children, None), s, cmds;
      }
    }
  }

  /** The tree of the Roomba: a Selector "Collide" over the Sequence "Clean"
      (move forward, then spiral) and the Sequence "Rotate" (back up, then
      rotate), every leaf as constructed. */
  function RoombaTree(): (r: Node)
    ensures r.Composite? && WellFormed(r) && r.kind == SelectorNode && r.runningChild.None?
    ensures r.children == [
      Composite(SequenceNode, [Leaf(MoveForwardNode(0)), Leaf(MoveInSpiralNode(0, 0.0))], None),
      Composite(SequenceNode, [Leaf(GoBackNode(0)), Leaf(RotateNode(0, 0.0))], None)]
  {
    var clean := AddChild(AddChild(NewComposite(SequenceNode), Leaf(MoveForwardNode(0))), Leaf(MoveInSpiralNode(0, 0.0)));
    var rotate := AddChild(AddChild(NewComposite(SequenceNode), Leaf(GoBackNode(0))), Leaf(RotateNode(0, 0.0)));
    assert clean.children == [Leaf(MoveForwardNode(0))] + [Leaf(MoveInSpiralNode(0, 0.0))];
    assert rotate.children == [Leaf(GoBackNode(0))] + [Leaf(RotateNode(0, 0.0))];
    assert clean == Composite(SequenceNode, [Leaf(MoveForwardNode(0)), Leaf(MoveInSpiralNode(0, 0.0))], None);
    assert rotate == Composite(SequenceNode, [Leaf(GoBackNode(0)), Leaf(RotateNode(0, 0.0))], None);
    var collide := AddChild(AddChild(NewComposite(SelectorNode), clean), rotate);
    assert collide.children == [clean] + [rotate];
    collide
  }

  /** A behavior tree: an optional root that is executed once per tick. */
  class BehaviorTree {
    const cfg: Config
    var root: Option<Node>

    ghost predicate Valid()
      reads this
    {
      cfg.Valid() && (root.Some? ==> WellFormed(root.value))
    }

    constructor (cfg: Config, root: Option<Node>)
      requires cfg.Valid() && (root.Some? ==> WellFormed(root.value))
      ensures Valid() && this.cfg == cfg && this.root == root
    {
      this.cfg := cfg;
      this.root := root;
    }

    /** `RoombaBehaviorTree()`. */
    constructor Roomba(cfg: Config)
      requires cfg.Valid()
      ensures Valid() && this.cfg == cfg && root == Some(RoombaTree())
    {
      this.cfg := cfg;
      root := Some(RoombaTree());
    }

    /** `update`: execute the root, if any, once; its status is dropped and
        the root is not re-entered. */
    method Update(bumper: bool, angle: real) returns (cmds: seq<Velocity>)
      requires Valid()
      modifies this
      ensures Valid()
      ensures old(root).None? ==> root.None? && cmds == []
      ensures old(root).Some? ==>
        var x := Executed(cfg, old(root).value, false, bumper, angle);
        root == Some(x.node) && cmds == x.cmds
    {
      if root.Some? {
        var m, _, k := Execute(cfg, root.value, bumper, angle);
        root := Some(m);
        cmds := k;
      } else {
        cmds := [];
      }
    }
  }
}

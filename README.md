# Cleaning-robot controllers: behavior tree and finite state machine

This project models the control core of a simulated cleaning robot. The core
is written twice. Both versions encode the same policy: move forward, then
spiral outward; on a collision, back up and then rotate by a random angle.
The project proves properties of both.

- **Behavior tree** (`Lab01/behavior_tree.py`), modelled in `behavior_tree.dfy`
  with properties in `behavior_tree_properties.dfy`.
  - The tree has a three-valued `ExecutionStatus`.
  - It has four leaf behaviours, each with a tick counter: forward, spiral,
    back up and rotate.
  - It has two composites, Sequence (AND) and Selector (OR). Each keeps the
    index of the child left running, so that child resumes on the next tick
    without being entered again.
  - Each composite's `execute` has an inner `while` loop. In the same tick, the
    loop enters and runs the next child as long as children return the
    composite's continue status: Success for a Sequence, Failure for a
    Selector.
  - The Roomba tree is fixed: Selector "Collide" over Sequence "Clean"
    (forward, spiral) and Sequence "Rotate" (back up, rotate).
  - `BehaviorTree` is a class whose `Update` method executes the root once per
    tick.
- **Finite state machine** (`Lab01/state_machine.py`), modelled in
  `state_machine.dfy` with properties in `state_machine_properties.dfy`.
  - `FiniteStateMachine` is a class holding exactly one state of four kinds.
  - `Update` first runs the state's `check_transition`. That may replace the
    state with a newly constructed one. `Update` then runs `execute` on
    whichever state is now current.
- `robot.dfy` holds the shared vocabulary:
  - the tuning constants, as a `Config` value;
  - the four behaviours;
  - the velocity command each behaviour sends.
- `policy_comparison.dfy` compares the two controllers at one handover, from
  moving forward to spiralling. The tree's forward leaf tests the time
  including the tick it is executing. The machine tests the time of the ticks
  already done. So the machine moves forward one tick longer than the tree.
  The other handovers are not compared.

How the code's objects map to Dafny:

- The robot (the "agent") is outside the core.
  - Its bumper reading is an input of each tick.
  - Every `set_velocity(linear, angular)` call of a tick is returned as a
    `Velocity`, in call order. The tree returns a sequence; the machine makes
    exactly one call per tick.
- `uniform(-pi, pi)` becomes an `angle` input of the tick. A rotation entered or
  constructed in that tick takes it.
- A node or state is owned by exactly one parent or machine, so it is a value
  (a `datatype`). Changing it in place becomes returning its new value.
  - The mutable holders are classes: the tree's `root` and the machine's
    `state`. Their methods reassign these fields.
  - A composite's `running_child` reference becomes the index `Option<nat>`.
- The composite execution is written twice.
  - `ExecuteComposite` is the imperative version, with the `while` loop and
    its invariants.
  - `Executed` and `RunChildren` are the functions it is proved equal to.
  - `Executed` takes an `entering` flag: with the flag set, it enters the node
    and then executes it, which is what a composite does to each child it
    moves on to.
- Integers are unbounded naturals, and times, speeds and radii are exact real
  numbers. `Config.Valid` requires the following:
  - a non-zero angular speed, because the code divides by it;
  - a positive initial radius, because the code divides by the spiral radius;
  - a positive spiral growth factor, so that the radius stays positive and
    grows in every running tick;
  - a positive sample time, so that elapsed time grows with every tick.

Two timing details of the code are kept as written:

- **Forward phase length.** The state machine tests
  `execution_count * SAMPLE_TIME > MOVE_FORWARD_TIME` with the count from
  before the current tick. With a tick of 1 and a forward time of 3, the
  machine moves forward in ticks 1 to 4 and first spirals in tick 5
  (`StateMachineProperties.ForwardSchedule`).
- **Rotation duration.** The duration is `rotate_angle / ANGULAR_SPEED`, with
  no absolute value. A negative angle (for a positive angular speed) makes a
  rotation succeed, or hand over, after its first tick
  (`BehaviorTreeProperties.RotateFirstTick`,
  `StateMachineProperties.RotationLength`).

The Roomba tree's response to a bump is proved tick by tick, for a back-up
time of at least one tick. From the bump tick to the tick the tree succeeds,
this holds whatever the bumper reads after the first tick:

- the bump tick itself (`RoombaFirstTickBump`);
- `floor(GO_BACK_TIME / SAMPLE_TIME)` ticks of backing up, counting the bump
  tick (`BackUpLength`, `RoombaBackingUp`, `RoombaBumpThenBackUp`);
- the tick the rotation is entered (`RoombaBackUpEnds`, or
  `RoombaBackUpEndsShortRotation` when it ends at once);
- the rotation ticks (`RoombaRotating`);
- the tick the tree succeeds (`RoombaRotationEnds`);
- the tick that starts over. With the bumper released and a forward time of
  at least one tick, it starts cleaning again (`RoombaRestarts`). With the
  bumper pressed, "Clean" fails at once and the tree backs up again
  (`RoombaRestartsBumped`).

## Model

| member | source | states |
|---|---|---|
| Robot.Command | Lab01/state_machine.py:64-119 | forward and back up command their speed with no turning; rotate turns in place at the angular speed; spiral commands the spiral velocity for the radius |
| Robot.SpiralVelocity | Lab01/behavior_tree.py:225 | the spiral command moves at the forward speed |
| Robot.SpiralFollowsCircle | Lab01/behavior_tree.py:235 | angular speed times radius equals the linear speed: the robot follows the circle of that radius |
| Robot.WiderTurnsSlower | Lab01/behavior_tree.py:234-235 | moving forward, a strictly wider spiral turns strictly more slowly |
| Robot.Config.RadiusStep | Lab01/behavior_tree.py:234 | the radius grows by a strictly positive amount per running tick |
| BehaviorTrees.LeafEnter | Lab01/behavior_tree.py:202-264 | entering a leaf zeroes its counter, sets the spiral radius to the initial radius, stores the sampled rotation angle, and commands the leaf's velocity once |
| BehaviorTrees.LeafExecute | Lab01/behavior_tree.py:207-271 | the counter goes up by exactly one; Failure iff the bumper is pressed on a forward or spiral leaf (checked before the time); Success iff not failed and the elapsed time exceeds the leaf's limit; a running spiral widens by exactly one step and re-commands its velocity; every other tick sends nothing; the rotation angle is kept |
| BehaviorTrees.ContinueOn | Lab01/behavior_tree.py:127-177 | the status on which a composite moves to its next child is never Running |
| BehaviorTrees.NewComposite | Lab01/behavior_tree.py:83-85 | a new composite has no children and no running child |
| BehaviorTrees.AddChild | Lab01/behavior_tree.py:87-95 | appends the child after the existing ones and changes nothing else; for a composite with no running child, the result is executable iff the child and all earlier children are |
| BehaviorTrees.Entered | Lab01/behavior_tree.py:107-150 | entering a composite (Sequence at 107-109, Selector at 148-150) only clears its running child and sends nothing; entering a leaf is exactly `LeafEnter`, and sends its one command |
| BehaviorTrees.StartIndex | Lab01/behavior_tree.py:112-156 | a composite restarts at child 0 when entered or with no running child, and otherwise resumes its running child |
| BehaviorTrees.Executed | Lab01/behavior_tree.py:111-177 | a tick keeps the tree executable, the node kinds and the number of children; a composite keeps a running child iff it returns Running; a Running tree points through running children down to a leaf |
| BehaviorTrees.RunChildren | Lab01/behavior_tree.py:116-177 | the inner loop stops at a child at or after its start; the running child is that child exactly when the status is Running |
| BehaviorTrees.RunChildrenUntouched | Lab01/behavior_tree.py:116-177 | children before the starting child and after the deciding child keep their state |
| BehaviorTrees.RunChildrenContinued | Lab01/behavior_tree.py:127-167 | every child from the start up to the deciding one ran in this tick, entered first unless it was the resumed child, and returned the continue status |
| BehaviorTrees.RunChildrenDecided | Lab01/behavior_tree.py:119-177 | the loop returns the deciding child's status and state; it returns the continue status only if the deciding child is the last one |
| BehaviorTrees.RunChildrenCommands | Lab01/behavior_tree.py:116-177 | the loop's commands are exactly those of its children from the starting child to the deciding child, each entered unless resumed, concatenated in order; later children send nothing |
| BehaviorTrees.RunChildrenStartsWith | Lab01/behavior_tree.py:114-119 | the loop's commands begin with those of its starting child |
| BehaviorTrees.EnterThenExecute | Lab01/behavior_tree.py:131-132 | entering a node and then executing it is the same as executing it with `entering` set: the enter commands come first |
| BehaviorTrees.Execute | Lab01/behavior_tree.py:111-177 | the imperative `execute` of any node computes exactly `Executed` |
| BehaviorTrees.EnterAndExecute | Lab01/behavior_tree.py:131-132 | the imperative enter-then-execute of a child computes exactly `Executed` with `entering` |
| BehaviorTrees.ExecuteComposite | Lab01/behavior_tree.py:111-177 | the `while` loop of Sequence and Selector computes exactly `Executed`; it ends because the child index strictly increases |
| BehaviorTrees.RoombaTree | Lab01/behavior_tree.py:180-194 | the Roomba tree is a Selector over the Sequences [forward, spiral] and [back up, rotate], nothing running, and it is executable |
| BehaviorTrees.BehaviorTree.constructor | Lab01/behavior_tree.py:20-27 | the tree holds the given root |
| BehaviorTrees.BehaviorTree.Roomba | Lab01/behavior_tree.py:184-194 | the Roomba behavior tree holds the Roomba tree |
| BehaviorTrees.BehaviorTree.Update | Lab01/behavior_tree.py:29-36 | with no root nothing happens; otherwise the root is executed once, not entered, and its new state and commands are those of `Executed` |
| BehaviorTreeProperties.DecidingChild | Lab01/behavior_tree.py:116-177 | the deciding child lies between the starting child and the last child |
| BehaviorTreeProperties.CompositeLeavesOthers | Lab01/behavior_tree.py:119-177 | a composite's tick leaves unchanged the children before its starting child and after its deciding child |
| BehaviorTreeProperties.CompositeCommands | Lab01/behavior_tree.py:111-177 | a composite's commands are exactly those of its children from the starting child to the deciding child, in order; no other child sends anything |
| BehaviorTreeProperties.CompositeRunsUpTo | Lab01/behavior_tree.py:127-167 | every child from the start up to the deciding one ran in the same tick, entered unless resumed, and returned the continue status |
| BehaviorTreeProperties.CompositeDecides | Lab01/behavior_tree.py:119-177 | the composite returns its deciding child's status; its running child is that child iff Running and is cleared otherwise; the continue status comes only from the last child |
| BehaviorTreeProperties.FirstStopDecides | Lab01/behavior_tree.py:119-177 | short-circuit: the first child that does not return the continue status (Failure in a Sequence, Success in a Selector, or Running) decides the composite's status and running child; later siblings keep their state, and the composite sends only the commands of the children up to that one, so later siblings are neither entered nor executed |
| BehaviorTreeProperties.AllContinueIff | Lab01/behavior_tree.py:127-170 | AND and OR: a Sequence succeeds iff every child from the start succeeds, and a Selector fails iff every child from the start fails |
| BehaviorTreeProperties.NextTick | Lab01/behavior_tree.py:112-177 | after a terminal status the next tick restarts at child 0 and enters it; after Running it resumes the deciding child without entering it |
| BehaviorTreeProperties.StartingChildFirst | Lab01/behavior_tree.py:112-160 | the composite's commands begin with its starting child's |
| BehaviorTreeProperties.LeafTick | Lab01/behavior_tree.py:202-271 | an entered leaf restarts its counter and commands first; a resumed leaf keeps its counter; either way the counter goes up by one |
| BehaviorTreeProperties.FailureOnlyOnBumper | Lab01/behavior_tree.py:207-271 | a leaf fails iff the bumper is pressed and it is a forward or spiral leaf; backing up and rotating never fail |
| BehaviorTreeProperties.Repeat | Lab01/behavior_tree.py:207-271 | repeated ticks keep the leaf's kind and validity |
| BehaviorTreeProperties.RepeatCounts | Lab01/behavior_tree.py:202-271 | `k` ticks add exactly `k` to the counter |
| BehaviorTreeProperties.SpiralWidens | Lab01/behavior_tree.py:228-236 | while its time is not up, a spiral runs and is exactly `k` radius steps wider after `k` ticks |
| BehaviorTreeProperties.RotateFirstTick | Lab01/behavior_tree.py:261-271 | an entered rotation succeeds on its first tick iff angle / angular speed is below one tick, which includes negative quotients |
| BehaviorTreeProperties.ForwardLeafSchedule | Lab01/behavior_tree.py:207-213 | with a tick of 1 and a forward time of 3, the forward leaf runs in ticks 1 to 3 and succeeds in tick 4; a bumper press in tick 2 fails it |
| BehaviorTreeProperties.RoombaFirstTickClear | Lab01/behavior_tree.py:180-213 | with the bumper released, the Roomba's first tick enters and runs the forward leaf, commands forward once, and leaves Collide and Clean running their first child |
| BehaviorTreeProperties.RoombaFirstTickBump | Lab01/behavior_tree.py:180-252 | with the bumper pressed on the first tick, the forward leaf fails, so Clean fails and the Selector enters Rotate and its back-up leaf in the same tick: the commands are forward then backward |
| BehaviorTreeProperties.BackUpLength | Lab01/behavior_tree.py:248-252 | in the `k`-th tick after it was entered, the back-up leaf keeps running iff `k <= floor(GO_BACK_TIME / SAMPLE_TIME)`; in the next tick it succeeds |
| BehaviorTreeProperties.RoombaBackingUp | Lab01/behavior_tree.py:248-252 | while backing up, each tick resumes "Collide" and "Rotate" at the back-up leaf without entering it; while its time is not up it keeps running one tick older, whatever the bumper says, and no command is sent |
| BehaviorTreeProperties.RotateSequenceMovesOn | Lab01/behavior_tree.py:127-136 | when the resumed back-up leaf succeeds, "Rotate" enters and runs its rotation in the same tick with the angle sampled then, returns the rotation's status, keeps it running iff it runs, and commands only turning in place |
| BehaviorTreeProperties.RoombaBackUpEnds | Lab01/behavior_tree.py:127-132 | in the tick the back-up leaf succeeds, "Rotate" moves on and enters and runs the rotation in the same tick, with the angle sampled then; the only command is turning in place, and both composites keep the rotation running |
| BehaviorTreeProperties.RoombaBackUpEndsShortRotation | Lab01/behavior_tree.py:127-136 | if the rotation entered in that tick has angle / angular speed below one tick, it succeeds at once, so "Rotate" succeeds as its last child did and "Collide" succeeds in the same tick, with no running child; the only command is turning in place |
| BehaviorTreeProperties.RoombaRotating | Lab01/behavior_tree.py:267-271 | while its time is not up the resumed rotation keeps running one tick older, whatever the bumper says, and no command is sent |
| BehaviorTreeProperties.RoombaRotationEnds | Lab01/behavior_tree.py:133-177 | in the tick the rotation succeeds, "Rotate" succeeds as its last child did ("Collide" at 174-177 then succeeds too); neither keeps a running child and no command is sent |
| BehaviorTreeProperties.RoombaRestarts | Lab01/behavior_tree.py:152-156 | in the tick after "Collide" finished, with the bumper released and a forward time of at least one tick, it starts over: it enters "Clean" and "Clean" enters and runs its forward leaf, commanding forward once |
| BehaviorTreeProperties.RoombaRestartsBumped | Lab01/behavior_tree.py:152-167 | in that tick with the bumper pressed, the entered forward leaf fails, so "Clean" fails and "Collide" enters "Rotate" and its back-up leaf: the tree is backing up again, after commanding forward then backward |
| BehaviorTreeProperties.TreeRun | Lab01/behavior_tree.py:29-36 | the tree after one `update` per bumper reading stays executable; one angle serves every rotation entered in the run |
| BehaviorTreeProperties.TreeRunAppend | Lab01/behavior_tree.py:29-36 | running the ticks of `a` and then those of `b` is running the ticks of `a + b` |
| BehaviorTreeProperties.RoombaBackUpPhase | Lab01/behavior_tree.py:248-252 | after the back-up leaf ran once, every further tick whose time is not up leaves the tree backing up, whatever the bumper readings |
| BehaviorTreeProperties.RoombaBumpRun | Lab01/behavior_tree.py:180-252 | the Roomba tree after a first tick with the bumper pressed is backing up, with "Clean" finished |
| BehaviorTreeProperties.RoombaBumpThenBackUp | Lab01/behavior_tree.py:180-252 | from the Roomba tree, a bump in the first tick and then any bumper readings leave the tree backing up for as long as the back-up time is not exceeded |
| StateMachines.NewState | Lab01/state_machine.py:52-110 | a constructed state has counter zero, a spiral the initial radius, and a rotation the sampled angle |
| StateMachines.CheckTransition | Lab01/state_machine.py:57-114 | the bumper sends forward and spiral to a new back-up state, checked first; otherwise a state hands over iff its executed time exceeds its duration, to the table's next kind; backing up and rotating ignore the bumper |
| StateMachines.ExecuteState | Lab01/state_machine.py:64-119 | the counter goes up by one, a spiral widens by one step, and exactly one command of the state's kind is sent, the spiral's with its new radius |
| StateMachines.Current | Lab01/state_machine.py:16-18 | without a transition the current state executes; after one, the state `check_transition` built executes, with counter zero and a different kind |
| StateMachines.Tick | Lab01/state_machine.py:16-18 | a tick keeps the kind or moves along the transition table; the counter is 1 after a transition and one more otherwise; the command is the one of the new state's kind |
| StateMachines.FiniteStateMachine.constructor | Lab01/state_machine.py:10-11 | the machine holds the given state |
| StateMachines.FiniteStateMachine.ChangeState | Lab01/state_machine.py:13-14 | the machine holds the new state and stays valid |
| StateMachines.FiniteStateMachine.Update | Lab01/state_machine.py:16-18 | the check runs before the execute, so a new state executes in the tick it is entered; the new state and command are those of `Tick` |
| StateMachineProperties.Run | Lab01/state_machine.py:16-18 | a run has one state per tick plus the initial one, all valid |
| StateMachineProperties.RunSteps | Lab01/state_machine.py:16-18 | each state of a run is the tick of the previous one |
| StateMachineProperties.FollowsTable | Lab01/state_machine.py:57-114 | for any inputs, consecutive states keep their kind or follow MoveForward to GoBack or MoveInSpiral, MoveInSpiral to GoBack or MoveForward, GoBack to Rotate, Rotate to MoveForward |
| StateMachineProperties.NoTransition | Lab01/state_machine.py:57-97 | with the bumper released and the time not up, a tick only executes the state |
| StateMachineProperties.Stays | Lab01/state_machine.py:57-119 | while the time is not up and the bumper is released, a state keeps its kind and counts exactly one per tick |
| StateMachineProperties.SpiralWidens | Lab01/state_machine.py:76-86 | in those ticks a spiral state grows by exactly one radius step per tick |
| StateMachineProperties.ForwardPhase | Lab01/state_machine.py:57-66 | from a new forward state, the machine is still moving forward after every tick that started with the forward time not exceeded |
| StateMachineProperties.ForwardToSpiral | Lab01/state_machine.py:60-86 | the first tick that starts past the forward time changes to a new spiral and executes it in the same tick |
| StateMachineProperties.ForwardSchedule | Lab01/state_machine.py:57-66 | with a tick of 1 and a forward time of 3, the machine moves forward in ticks 1 to 4 and spirals in tick 5 |
| StateMachineProperties.BumperResponse | Lab01/state_machine.py:57-97 | the bumper makes forward and spiral back up at once, and changes nothing for backing up and rotating |
| StateMachineProperties.RotationLength | Lab01/state_machine.py:95-114 | a rotation constructed when backing up ends hands over in the next tick iff angle / angular speed is below one tick |
| PolicyComparison.SpiralOneTickLater | Lab01/behavior_tree.py:207-236 | in the tick whose own time first exceeds the forward time, the tree's Clean sequence finishes moving forward and starts spiralling, while the state machine still moves forward and spirals one tick later |

## Left out

- The simulated robot is not modelled; only its bumper reading and `set_velocity` calls reach the core, as inputs and returned commands. The `constants` module is not part of this model: its values are the fields of `Config`.
- The random sampler `uniform(-pi, pi)` is not modelled; the sampled angle is an input of each tick. Two rotations entered in the same tick would take the same angle, but the Roomba tree enters at most one rotation per tick.
- `node_name`, `state_name` and the `parent` back-reference are diagnostic only and are omitted. So are the abstract base classes: `TreeNode`, `LeafNode`, `CompositeNode` and `State` become the datatype variants.
- Object identity is not modelled: nodes and states are values owned by one parent, so the same node object added twice to a composite (where `children.index` would find the first copy) is outside the model.
- BehaviorTreeProperties.TreeRun: takes one angle for the whole run instead of one per tick, so every rotation entered during a run samples the same angle; the run lemmas cover backing up, where no rotation is entered.
- BehaviorTrees.AddChild: returns the extended composite instead of appending in place. The Roomba tree is built bottom-up, children before parents, and gives the same tree as the code's top-down order.
- BehaviorTrees.ExecuteComposite: the code enters the next child at the end of a loop turn; the model enters it at the start of the next turn. The order of the enter and execute commands is the same.
- Division by zero (angular speed 0, or a zero spiral radius) is excluded by `Config.Valid` rather than modelled as an exception.
- Executing a composite with no children raises `IndexError` at `children[0]` in the code (`Lab01/behavior_tree.py:114`, `:155`); the model excludes it instead. `WellFormed` asks every composite in the tree for a first child, including composites a tick never reaches, so a tree such as a Selector over a forward leaf and an empty Sequence, which the code runs without error while the forward leaf does not fail, is outside the model.
- Floating-point rounding is not modelled: times are exact reals, so a time test can fire one tick apart from the code. With a tick of 0.1 and a back-up time of 1.2, `12 * 0.1 > 1.2` holds in double precision, so the code's back-up leaf succeeds in tick 12 (`Lab01/behavior_tree.py:250`) and its back-up state hands over in tick 13 (`Lab01/state_machine.py:96`). With exact reals, each of these happens one tick later in the model.
- Nothing re-enters the root when it returns a terminal status, as in the code: the next `Update` executes it again without entering it.
- `Lab04/particle_swarm_optimization.py` is a separate numeric optimiser and is not part of this model.

# SaveMeCircles: the growth, merge and allocation core in Dafny

SaveMeCircles is a puzzle in which coloured circles drift across a toroidal
playfield. Touching circles of one colour merge into one. While the player
holds the button on a circle, that circle grows and the other circles of its
colour shrink to pay for it. Each colour has a conserved "power": the sum of
its circles' start radii, each at least MIN_RADIUS. A level is complete when
every colour is down to at most one circle.

The project models three parts of the game:

- **The circle** (`colored_circle.dfy`, module `Circles`). Class
  `ColoredCircle` keeps the source's fields: radius, speed, merge buffer, and
  the merging-away and gone flags. Its methods change those fields step by
  step, as the Java does. One tick is also a pure function, `Tick`, on a
  `CircleState`. The lemmas about `Tick` state what the source promises over
  many ticks:
  - the buffer's growth is conserved;
  - a merging-away circle never grows;
  - a merging-away circle is always gone within a bounded number of ticks.
- **The toroidal edge wrap** (`edge_wrap.dfy`, module `EdgeWrap`). The live
  circle tick and the preview step share it.
- **The stage** (`level_stage.dfy`, module `Stage`, with the allocator itself
  in `allocation.dfy`, module `Allocation`). Class `LevelStage` holds:
  - the colour groups, as a `map` from colour to a sequence of circle objects;
  - the colour powers;
  - the touched circle;
  - the completion flag.

  It models level loading, the completion check, the selection and
  completion part of a tick, and circle removal.

  The allocator `distributedSizeChange` is specified by functions over the
  group's radii. Its donor loop is modelled twice: as the source writes it
  (`AllocateAsWritten`) and corrected (`Allocate`); see "## Findings". The
  stage runs the corrected allocator. The methods that change the circle
  objects are proved to leave exactly the radii `Allocate` prescribes.
- **The trajectory preview** (`simulation.dfy`, module `Simulation`). This is
  the ghost step that `SimulationManager` applies to every circle body of a
  copied world, and the 181-step sampling schedule. It reads circle fields of
  a newer revision than the circle class above: a signed grow buffer and a
  fresh-shard flag. So it works on `TrackedCircle`, which holds exactly those
  fields. The per-tick rate `RADIUS_CHANGE`, the absolute floor
  `ACTUAL_MIN_RADIUS` and the per-colour minimum are parameters (`Params`).

Radii are exact `real`s. The constants are MIN_RADIUS 0.05, CHANGE_UP 0.01,
ACTUAL_MIN_RADIUS 0.001, MIN_CHANGE_DOWN 0.001 and speed factor 0.1. The
preview's mass factor is 0.1 and its cursor radius is 2.

Two facts about the code are easy to miss:

- The edge wrap is not idempotent: a circle placed at `-r` still counts as
  outside and is sent to `width + r` (`EdgeWrap.WrapNotIdempotent`).
- The donor loop as written does not always keep a colour's power; see
  "## Findings". When no donor reaches the floor it does keep it, and it then
  agrees with the corrected loop (`Allocation.AsWrittenConservesWithoutFloor`).

## Model

Paths are relative to the repository root.

| member | source | states |
|---|---|---|
| EdgeWrap.WrapAxis | core/src/com/darkgran/smc/play/ColoredCircle.java:104-113 | Per axis: a centre with `p - r >= bound` lands at `-r`. A centre with `p + r <= 0` lands at `bound + r`. A centre that overlaps the world stays. |
| EdgeWrap.Wrap | core/src/com/darkgran/smc/play/ColoredCircle.java:101-115 | The outer "outside on some side" guard changes nothing: the wrap is exactly the per-axis rule applied to both axes. |
| EdgeWrap.WrapInsideUntouched | core/src/com/darkgran/smc/play/ColoredCircle.java:101 | A circle that overlaps the world on both axes is not moved. |
| EdgeWrap.WrapAxesIndependent | core/src/com/darkgran/smc/play/ColoredCircle.java:104-113 | Where x lands does not depend on y. |
| EdgeWrap.WrapNotIdempotent | core/src/com/darkgran/smc/play/ColoredCircle.java:104-107 | The landing points `-r` and `width + r` are sent to each other, so wrapping twice without motion moves the circle again. |
| Circles.Clamp | core/src/com/darkgran/smc/play/ColoredCircle.java:136-138 | The stored radius is at least ACTUAL_MIN_RADIUS. It is at least MIN_RADIUS unless merging away. It is never below the request. A request at or above the applicable floor is stored unchanged, and a request below it becomes exactly that floor. |
| Circles.SpeedLimit | core/src/com/darkgran/smc/play/ColoredCircle.java:66-69 | Speed times radius is 0.1 (times MIN_RADIUS while merging away). The speed is never negative. |
| Circles.SmallerIsFaster | core/src/com/darkgran/smc/play/ColoredCircle.java:66-69 | Of two circles that are not merging away, the smaller one has the higher speed limit. |
| Circles.InteractionOf | core/src/com/darkgran/smc/play/ColoredCircle.java:50-55 | Two colours merge if and only if they are equal. |
| Circles.Tick | core/src/com/darkgran/smc/play/ColoredCircle.java:71-91 | With a positive buffer and not merging away: radius up and buffer down by min(buffer, CHANGE_UP). With no buffer: nothing changes. Merging away: a positive buffer drains by CHANGE_UP with the radius fixed. With the buffer used up, the radius shrinks by exactly CHANGE_UP and the buffer becomes 0 while that stays at or above ACTUAL_MIN_RADIUS; otherwise only the gone flag is set. The gone flag is set exactly in that last case or when it already was. The flags are never cleared, and well-formed states stay well-formed. |
| Circles.GrowthConserved | core/src/com/darkgran/smc/play/ColoredCircle.java:83-91 | Over k ticks of a circle that is not merging away, radius + buffer stays constant. The buffer stays non-negative and at most max(0, b - k·CHANGE_UP). Once k·CHANGE_UP covers the initial buffer, the radius has grown by exactly that buffer. |
| Circles.MergingAwayShrinks | core/src/com/darkgran/smc/play/ColoredCircle.java:74-82 | Over any number of ticks, a merging-away circle stays merging away and never grows. Once gone, it stays gone. |
| Circles.GoneBoundDecreases | core/src/com/darkgran/smc/play/ColoredCircle.java:74-82 | Every tick of a merging-away circle that is not gone lowers a non-negative measure: buffer steps, then radius steps. |
| Circles.MergingAwayEndsGone | core/src/com/darkgran/smc/play/ColoredCircle.java:74-82 | A merging-away circle is gone after at most GoneBound ticks. |
| Circles.ColoredCircle.constructor | core/src/com/darkgran/smc/play/ColoredCircle.java:26-38 | A radius below MIN_RADIUS is raised to MIN_RADIUS, and any other radius is kept. The buffer is empty, both flags are clear, and the speed is the limit for that radius. |
| Circles.ColoredCircle.DisabledIsMergingAway | core/src/com/darkgran/smc/play/ColoredCircle.java:160-162 | A valid circle is disabled exactly when it is merging away. |
| Circles.ColoredCircle.SetRadius | core/src/com/darkgran/smc/play/ColoredCircle.java:136-146 | Stores the clamped radius, sets the speed to the limit for it, and keeps the circle valid. |
| Circles.ColoredCircle.Unsign | core/src/com/darkgran/smc/play/ColoredCircle.java:62-64 | Sets merging away and changes nothing else. |
| Circles.ColoredCircle.Merge | core/src/com/darkgran/smc/play/ColoredCircle.java:57-60 | The recipient's buffer grows by the donor's radius, and the recipient's radius is unchanged. The donor is marked merging away, and the donor's other fields are unchanged. |
| Circles.ColoredCircle.Interact | core/src/com/darkgran/smc/play/ColoredCircle.java:40-48 | Merges when neither circle is disabled and the colours are equal: this circle's buffer grows by the other's radius and the other is marked merging away. Radius, speed, flags and position of this circle and the other fields of the other are kept. Otherwise neither circle changes. |
| Circles.ColoredCircle.Update | core/src/com/darkgran/smc/play/ColoredCircle.java:71-115 | The new state is `Tick` of the old one. The speed is refreshed exactly when the radius is set. The centre is wrapped with the new radius. Validity is kept. |
| Allocation.EligiblesUpTo | core/src/com/darkgran/smc/play/LevelStage.java:183-190 | The scan keeps, without repeats, exactly the members other than the chosen one that can give 0.001 and stay at MIN_RADIUS. |
| Allocation.EligiblesInOrder | core/src/com/darkgran/smc/play/LevelStage.java:183-190 | The eligible donors are listed in strictly increasing group order. |
| Allocation.Eligibles | core/src/com/darkgran/smc/play/LevelStage.java:183-190 | A member is an eligible donor if and only if it is not the chosen one and its radius minus 0.001 is at least MIN_RADIUS. |
| Allocation.ShareStepSpec | core/src/com/darkgran/smc/play/LevelStage.java:195-206 | One corrected donor step changes only that donor and keeps it between the floor and its old radius. What is still owed drops by exactly what it gave. |
| Allocation.ShareDonorBounds | core/src/com/darkgran/smc/play/LevelStage.java:196-200 | No donor of the corrected loop ends below MIN_RADIUS or above its old radius. |
| Allocation.ShareFloorExact | core/src/com/darkgran/smc/play/LevelStage.java:198-200 | A donor that cannot give its share when its turn comes ends exactly at MIN_RADIUS. |
| Allocation.ShareInvariant | core/src/com/darkgran/smc/play/LevelStage.java:192-207 | Corrected allocator: after i donors, what was taken plus what is still owed is CHANGE_UP, and the donors' slack shrank by what was taken. |
| Allocation.SweepResidue | core/src/com/darkgran/smc/play/LevelStage.java:192-207 | The residue sweep of the corrected allocator leaves max(0, residue − slack of the visited donors) owed. |
| Allocation.SweepSum | core/src/com/darkgran/smc/play/LevelStage.java:192-207 | The sweep removes from the radii exactly what it no longer owes. |
| Allocation.DonatedAt | core/src/com/darkgran/smc/play/LevelStage.java:186-207 | After both loops, a donor is between the floor and its old radius, and every other member keeps its radius. |
| Allocation.DonatedSum | core/src/com/darkgran/smc/play/LevelStage.java:191-207 | Corrected allocator: when the donors' slack covers CHANGE_UP, they give up exactly CHANGE_UP together. |
| Allocation.AllocateSpec | core/src/com/darkgran/smc/play/LevelStage.java:176-213 | `Allocate`, the corrected allocator: a blocked tick changes nothing. A tick is blocked when there are at most one member, the ceiling power − (n−1)·MIN_RADIUS would be passed, there are no donors, or the slack is below CHANGE_UP. Otherwise the chosen circle grows by exactly CHANGE_UP and stays under the ceiling. Members that are not donors keep their radius, and donors end in [MIN_RADIUS, old radius]. The group's sum changes only by the chosen circle's growth minus CHANGE_UP. |
| Allocation.AllocateConserves | core/src/com/darkgran/smc/play/LevelStage.java:176-213 | Corrected allocator: when the chosen circle is in its group, one tick leaves the group's radius sum unchanged. |
| Allocation.AllocateEqualShares | core/src/com/darkgran/smc/play/LevelStage.java:192-197 | If no donor would reach the floor, each donor gives exactly CHANGE_UP / number of donors. |
| Allocation.AsWrittenDonorBounds | core/src/com/darkgran/smc/play/LevelStage.java:196-200 | Even the loop as written keeps every donor between the floor and its old radius. |
| Allocation.AsWrittenFloorExact | core/src/com/darkgran/smc/play/LevelStage.java:198-200 | In the loop as written, a donor that cannot give its share ends exactly at MIN_RADIUS. |
| Allocation.AsWrittenWithoutFloorAt | core/src/com/darkgran/smc/play/LevelStage.java:192-197 | If no donor would reach the floor, the loop as written gives equal shares of CHANGE_UP / number of donors. |
| Allocation.AsWrittenAgreesWithoutFloor | core/src/com/darkgran/smc/play/LevelStage.java:192-207 | If no donor would reach the floor, the loop as written and the corrected loop pass through the same states. |
| Allocation.AsWrittenConservesWithoutFloor | core/src/com/darkgran/smc/play/LevelStage.java:176-213 | If no eligible donor would reach the floor, the allocation as written equals the corrected one, and a chosen member's growth is paid exactly by the others, so the group's sum is kept. |
| Allocation.AsWrittenBreaksConservation | core/src/com/darkgran/smc/play/LevelStage.java:192-207 | Radii 0.1 (chosen), 0.052, 0.1 with power 0.252. The loop as written gives [0.11, 0.05, 0.094], and the sum rises by 0.002. The corrected allocator gives [0.11, 0.05, 0.092] with the sum kept. |
| Allocation.AsWrittenStepSpec | core/src/com/darkgran/smc/play/LevelStage.java:195-206 | One donor step as written changes only that donor, which ends at max(MIN_RADIUS, radius − share). The share never shrinks, and it grows exactly when this donor falls short or an earlier shortfall is still carried. |
| Allocation.AsWrittenSpec | core/src/com/darkgran/smc/play/LevelStage.java:176-209 | `AllocateAsWritten`: a blocked tick changes nothing. Otherwise the chosen circle grows by exactly CHANGE_UP and stays under the ceiling, members that cannot donate keep their radius, and donors end in [MIN_RADIUS, old radius]. The group's sum is not kept (see "## Findings"). |
| Stage.StartRadius | core/src/com/darkgran/smc/play/ColoredCircle.java:29 | A loaded circle starts at its descriptor radius when that is at least MIN_RADIUS, and at exactly MIN_RADIUS otherwise. |
| Stage.PowerOfLevel | core/src/com/darkgran/smc/play/LevelStage.java:58-70 | `Power`: a colour's power is the sum of the start radii of its circles. It is at least MIN_RADIUS per circle and positive exactly when the colour occurs. |
| Stage.LevelSnoc | core/src/com/darkgran/smc/play/LevelStage.java:62-70 | A descriptor adds one circle, its start radius and max(radius, MIN_RADIUS) of power to its own colour. It leaves the other colour as it was. |
| Stage.RemoveFirstSpec | core/src/com/darkgran/smc/play/LevelStage.java:266 | Removing a circle takes out exactly one occurrence when it is present, as a multiset, and nothing otherwise. |
| Stage.RemoveFirstDistinct | core/src/com/darkgran/smc/play/LevelStage.java:266 | In a group without repeats, the removed circle is gone and the rest stay distinct. |
| Stage.ShareDonors | core/src/com/darkgran/smc/play/LevelStage.java:192-207 | The corrected donor loop on the circle objects leaves the group's radii as `ShareUpTo` after all donors, and every circle valid. |
| Stage.SweepDonors | core/src/com/darkgran/smc/play/LevelStage.java:192-207 | The residue sweep on the circle objects leaves the radii as `SweepUpTo`. |
| Stage.FindEligibles | core/src/com/darkgran/smc/play/LevelStage.java:183-190 | Returns the eligible donors and their total room above the floor (changeSpace). |
| Stage.AllocationGuard | core/src/com/darkgran/smc/play/LevelStage.java:177-191 | Goes ahead exactly when the allocation is not `Blocked`, and then returns the eligible donors. `Blocked` holds exactly when the group has at most one member, the chosen circle would pass power − (n−1)·MIN_RADIUS, there is no eligible donor, or their room above the floor is below CHANGE_UP. |
| Stage.AllocateDonors | core/src/com/darkgran/smc/play/LevelStage.java:191-207 | The donor part of one allocation on the circle objects: the group's radii become `Donated` of the old ones, and every circle stays valid. |
| Stage.GrowCircle | core/src/com/darkgran/smc/play/LevelStage.java:208 | The chosen circle's radius grows by exactly CHANGE_UP. When it is a member of the group, the group's radii change at its position only, and otherwise not at all. Every circle stays valid. |
| Stage.GrowChosen | core/src/com/darkgran/smc/play/LevelStage.java:179-209 | Corrected allocator: leaves the group's radii and the chosen circle's radius exactly as `Allocate` prescribes, and every circle valid. |
| Stage.LevelStage.constructor | core/src/com/darkgran/smc/play/LevelStage.java:28-37 | Empty groups and powers, no touched circle, level −1, not completed, zeroed clocks. |
| Stage.LevelStage.LoadLevel | core/src/com/darkgran/smc/play/LevelStage.java:47-85 | A negative index changes nothing. Otherwise the clocks, the flag and the touched circle are reset. For a level that exists, each colour that occurs gets a group of its start radii and its power. A colour that does not occur keeps what it had. |
| Stage.LevelStage.InstallLevel | core/src/com/darkgran/smc/play/LevelStage.java:57-80 | The groups and powers are installed as above, and the intro text is set. |
| Stage.LevelStage.InstallGroups | core/src/com/darkgran/smc/play/LevelStage.java:71-78 | A colour gets its new group and power only when the power is positive and the group is not empty. |
| Stage.LevelStage.BuildGroups | core/src/com/darkgran/smc/play/LevelStage.java:58-70 | One new circle per descriptor, WHITE ones in one group and all others in the other. Each group is valid, with the colour's start radii and power. |
| Stage.LevelStage.AddCircle | core/src/com/darkgran/smc/play/LevelStage.java:63-68 | A fresh circle joins the end of the group, and the colour's power grows by max(radius, MIN_RADIUS). |
| Stage.LevelStage.CheckCompletion | core/src/com/darkgran/smc/play/LevelStage.java:126-133 | True if and only if every registered colour has at most one circle. |
| Stage.LevelStage.DistributedSizeChange | core/src/com/darkgran/smc/play/LevelStage.java:176-213 | Corrected allocator: a colour without a group changes nothing. Otherwise the group's radii and the chosen radius become `Allocate` of the old ones, and when the chosen circle is in the group the group's radius sum is kept. Circles of the other colour keep their radius and speed. The stage stays valid. |
| Stage.LevelStage.Update | core/src/com/darkgran/smc/play/LevelStage.java:163-173 | While the button is held, a disabled touched circle is let go. Any other touched circle is allocated to, and nothing changes when there is none. Circles of another colour than the touched one keep their radius and speed, and a touched circle whose colour has no group is unchanged. `completed` becomes old `completed` or complete, so it goes false→true at most once. The result is true exactly on that transition. |
| Stage.LevelStage.Select | core/src/com/darkgran/smc/play/LevelStage.java:163-169 | The selection half of the tick, with the same guarantees, including that circles of the other colour keep their radius and speed. |
| Stage.LevelStage.MarkCompleted | core/src/com/darkgran/smc/play/LevelStage.java:170-173 | Sets the flag the first time the level is complete, and reports that time. |
| Stage.LevelStage.RemoveCircle | core/src/com/darkgran/smc/play/LevelStage.java:263-270 | One occurrence of the circle leaves its colour's group, and the other groups are unchanged. Afterwards no group holds it, and the stage stays valid. |
| Stage.LevelStage.RemoveFrom | core/src/com/darkgran/smc/play/LevelStage.java:264-267 | The group that holds the circle is the one of its colour. Removing it there keeps the stage valid. |
| Simulation.BodyRadius | core/src/com/darkgran/smc/play/SimulationManager.java:68-70 | Raised to the colour minimum unless merging away or a fresh shard, and otherwise to the absolute floor. Never below the request. The request is kept when it is at or above the applicable floor, and a request below it becomes exactly that floor. |
| Simulation.ApplyBodyRadius | core/src/com/darkgran/smc/play/SimulationManager.java:68-79 | Returns the clamped radius and sets it as the shape radius when the body has a fixture. Sets the mass to 0.1 × the clamped radius. |
| Simulation.GhostStep | core/src/com/darkgran/smc/play/SimulationManager.java:83-117 | Not merging away: the radius moves toward radius + buffer by at most RADIUS_CHANGE, and the buffer keeps its sign and shrinks by RADIUS_CHANGE or to 0. Merging away: a positive buffer drains by RADIUS_CHANGE with the radius fixed; with the buffer used up, the radius shrinks by exactly RADIUS_CHANGE and the buffer becomes 0 while that stays at or above the absolute floor, and otherwise only the gone flag is set. The fresh-shard flag stays set exactly when it was set, the new radius is below the colour minimum, and the step did not use up a positive buffer of at most RADIUS_CHANGE while not merging away. `GrowLocals`, the branch on the buffer, has no contract of its own and is stated through this one. |
| Simulation.GhostStepAgreesWithTick | core/src/com/darkgran/smc/play/SimulationManager.java:83-114 | With the live constants and no fresh shard, the ghost step computes the same radius, buffer and gone flag as the live tick. |
| Simulation.GrowBody | core/src/com/darkgran/smc/play/SimulationManager.java:83-114 | The branch on locals, with the body's radius and mass written exactly when the radius was set. |
| Simulation.ApplyCircleUpdate | core/src/com/darkgran/smc/play/SimulationManager.java:81-144 | The locals are `GhostStep` of the circle's fields. Mass and shape follow the new radius, and the body is wrapped with it. The circle object is unchanged. |
| Simulation.StepWorld | core/src/com/darkgran/smc/play/SimulationManager.java:49 | Every body moves as the world's motion function says, and radii and masses are kept. |
| Simulation.VisitBody | core/src/com/darkgran/smc/play/SimulationManager.java:35-47 | A sample is taken if and only if the body stands for a circle, the step is a tenth step, the body's new centre is near the cursor, and the circle is not a fresh shard, merging away or gone. The sample holds the step, the body's index, its circle and its new centre. A circle body is wrapped with the radius of the circle's ghost step, any other body is unchanged, and the circle is not written. |
| Simulation.VisitNext | core/src/com/darkgran/smc/play/SimulationManager.java:35-47 | Visiting body j carries everything `PreviewStep` states from the first j bodies to the first j + 1, and leaves the later bodies as they were. |
| Simulation.PreviewStep | core/src/com/darkgran/smc/play/SimulationManager.java:35-48 | One step over all bodies. Every circle body is wrapped with the radius of its circle's ghost step, and any other body is unchanged. The samples come in body order, only on a tenth step, at most one per body. Each is of its body's circle, at its body's new centre, and obeys the sampling rule. Every body that obeys the rule is sampled. |
| Simulation.DrawSimulation | core/src/com/darkgran/smc/play/SimulationManager.java:28-55 | Exactly 181 steps. The samples come in step order and, within a step, in body order, so no body is sampled twice on one step, and there are at most 19 per body. Every sample is of its body's circle and obeys the sampling rule, and no circle object is written. |

## Left out

- Rendering (`drawShapes`, `drawSprites`, `drawText`, `drawLevelIntro`, the
  shape calls of `drawSimulation`, actor bounds): drawing output only. The
  preview returns its samples instead of drawing them.
- The physics engine: `world.step` is the parameter `advance`, a function of
  the step and the centre. Contacts are not modelled, and neither are
  `copyBody`, `resetSimulation`, fixtures, velocities or the contact
  listener. The model shows only that the ghost step itself does not write
  to a circle, not that the copied world is isolated from the live one.
- The velocity redirection (`atan2`, `cos`, `sin`, float comparison of
  speeds) in the circle tick, the ghost step and the constructor: floating
  point trigonometry. Only the speed magnitude formula is modelled.
- `getSpeedLimit` of the newer circle revision: its body is not part of this
  model.
- Input and clocks: the button state is the parameter `pressed`. `tickTock`
  and the frame delta are not modelled.
- `switchLevel`, `clearLevel`, `setupActors` and the continue-button wiring:
  UI glue. `Update` returns whether the level was just completed instead of
  enabling the button.
- The level library and its JSON: `LoadLevel` receives the level as an
  `Option`.
- Console logging in `loadLevel` (LevelStage.java:54, 82): it prints the
  level number and, for a missing level, an error line, and changes no state.
- The per-circle loop of `update` (LevelStage.java:154-162) and the corpse
  list: it only calls the circle tick, which is modelled on its own.
- The heading of a descriptor: it only sets the initial velocity.
- Float rounding: radii are exact reals.
- The iteration order of the colour `HashMap`: every group holds circles of
  its own colour only, so the result of `checkCompletion` and `removeCircle`
  does not depend on it.
- Stage.LevelStage.DistributedSizeChange: runs the corrected allocator of
  "## Findings", not the donor loop as written: the shortfall divisor is
  `eligibles - i - 1`, the shortfall is cleared per donor, and a residue
  sweep the source does not have takes what the last donor leaves owed. On
  radii 0.1 (chosen), 0.052, 0.1 with power 0.252 it leaves 0.092 where the
  source leaves 0.094. The loop as written is `Allocation.AllocateAsWritten`.
- Stage.GrowChosen: runs the same corrected allocator, for the same reason;
  the two agree whenever no donor reaches the floor
  (`Allocation.AsWrittenConservesWithoutFloor`).
- Stage.LevelStage.DistributedSizeChange: does not state the new speeds of
  the resized circles. Each radius change goes through `SetRadius`, whose
  contract sets the speed.
- Clearing the previous level: `LoadLevel`, like `loadLevel`, replaces only
  the groups of the colours that occur in the new level and keeps the others.
  Clearing them is the job of `clearLevel`, which is UI glue (see above).
- Simulation.DrawSimulation: states over the whole run only that every
  sample obeys the sampling rule and is of its body's circle. That each
  sample holds its body's centre, that every body obeying the rule is
  sampled, and that every circle body is wrapped by its ghost step are stated
  per step by `Simulation.PreviewStep`, because the centres after each world
  step depend on `advance`.
- Circles.ColoredCircle.Update: does not model the speed cap on the body's
  velocity (see above).

## Findings

| source | as written | input that shows it | evidently intended | confidence | as-written member | corrected member |
|---|---|---|---|---|---|---|
| core/src/com/darkgran/smc/play/LevelStage.java:192-207 | A donor that hits the floor spreads its shortfall with the divisor `eligibles.size() - i + 1`. A positive `spareChange` is never cleared, so it is added again for every later donor. The donors then do not give up exactly CHANGE_UP. | Radii 0.1 (chosen), 0.052, 0.1 and power 0.252. The loop as written gives [0.11, 0.05, 0.094], with sum 0.254. | The donors give up exactly CHANGE_UP, so the colour's power is conserved. The shortfall is shared among the donors still to come (divisor `eligibles.size() - i - 1`) and cleared per donor. Any residue left by the last donor is taken from donors still above the floor. This gives [0.11, 0.05, 0.092] here. | not executed | Allocation.AsWrittenBreaksConservation | Allocation.AllocateConserves |

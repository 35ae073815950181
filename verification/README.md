# Centipede game simulation in Dafny

This project models the game simulation of a Centipede arcade clone written
in C++ with SFML. The model covers:

- **The centipede chain.** A list of head and body segments. Heads steer
  around mushrooms, other segments and the window edges. Heads move along
  a row or drop to the next row, snapping to the grid. Bodies replay a
  fixed-length queue of the moves made by the live segment ahead of them.
- **The mushroom field.** Two-hit mushrooms, removed by id. A bordered,
  shuffled placement of 30 mushrooms at the start of a game.
- **The player's laser blaster.** Movement gated by the window and by
  mushrooms. Loss of a life on contact. A reload cooldown. The blast list,
  whose hits resolve in a fixed priority order: window, mushroom, segment,
  spider. Hits score points, promote the successor of a destroyed segment
  to a head and leave a mushroom behind.
- **The spider.** An alive/dead state machine with a respawn delay. It
  respawns at a side edge, moves along its direction scaled to its
  speed and truncated to whole pixels on each axis (so a diagonal step is
  shorter than the speed, and at speed 1 a diagonal direction comes to a
  standstill), reflects at the edges of its area, turns at random and tramples
  mushrooms.
- **The end of a frame.** Wave clear and game over.

## How the model is organised

- **Values.** Segments, mushrooms and blasts are datatypes held in
  sequence fields.
- **Objects.** The chain (`Centipede.Chain`), the mushroom field
  (`Mushrooms.Field`), the player (`LaserBlaster.Player`), the spider
  (`Spiders.Spider`) and the global id counter (`Globals.Counter`) are
  classes whose methods update their fields.
- **Globals.** The game reaches these objects through globals. The model
  passes them as parameters.
- **Randomness.** Random draws are parameters. `std::shuffle` is a
  Fisher-Yates shuffle driven by a sequence of draws.
- **Clocks.** The elapsed-time clocks become a `now` time parameter
  compared against a stored start time.
- **Sizes.** Sprite sizes come from texture files, so they are parameters
  (`Dims`).
- **Specifications.** Every method that loops or changes state is proved
  against a specification function, and the properties are proved about
  those functions. For example, `Chain.Move` is `Moved`, the blast loop of
  `Player.Update` is `Volley`, and a blast hit is `Struck`.

Modules, one per file:

| module | file |
|---|---|
| `Globals` | `globals.dfy` |
| `Mushrooms` | `mushroom.dfy` |
| `Segments` | `segments.dfy` |
| `Centipede` | `centipede.dfy` |
| `Spiders` | `spider.dfy` |
| `LaserBlaster` | `laser.dfy` |
| `Game` | `game.dfy` |

## Model

| member | source | states |
|---|---|---|
| Globals.Counter.Take | game/src/mushroom.cpp:22 | hands out the current id and advances the counter by one, so ids taken in turn are distinct |
| Globals.GridCells | game/src/mushroom.cpp:43-46 | every cell of a nested column-by-row scan lies on the step lattice inside the scanned ranges |
| Globals.GridSize | game/src/mushroom.cpp:43-46 | the nested scan visits nx * ny cells |
| Globals.GridSorted | game/src/mushroom.cpp:43-46 | the nested scan lists its cells in strictly increasing order, hence without repeats |
| Mushrooms.FindBlocking | game/src/laserBlaster.cpp:123-127 | the loop finds the first mushroom with positive health that overlaps the rectangle, and finds one exactly when such a mushroom exists |
| Mushrooms.RemoveId | game/src/mushroom.cpp:30 | removing by id keeps exactly the entries whose id differs, since mushroom equality is id equality (game/include/mushroom.h:54) |
| Mushrooms.Damaged | game/src/mushroom.cpp:25-32 | a hit on a mushroom whose health is not 1 lowers its health by exactly one and changes nothing else |
| Mushrooms.DamagedRemoves | game/src/mushroom.cpp:26-31 | a hit on a mushroom at health 1 removes every entry with its id and keeps every other entry |
| Mushrooms.CandidateCells | game/src/mushroom.cpp:42-47 | candidate cells are multiples of the sprite size, with x in [w, floor(W/w)w - w) and y in [h, floor(H/h)h - 3h) |
| Mushrooms.CandidatesSorted | game/src/mushroom.cpp:42-47 | the candidate list is strictly sorted, so its cells are distinct |
| Mushrooms.CandidateList | game/src/mushroom.cpp:42-47 | the nested loops build exactly the candidate list |
| Mushrooms.CandidateColumn | game/src/mushroom.cpp:44-46 | the inner loop lists exactly one candidate column, top to bottom, stopping three sprites above the bottom |
| Mushrooms.Swap | game/src/mushroom.cpp:49 | one shuffle step exchanges two positions and keeps the multiset |
| Mushrooms.Shuffle | game/src/mushroom.cpp:49 | the shuffled list is a permutation of the candidates |
| Mushrooms.PlacedCells | game/src/mushroom.cpp:51-61 | the first n cells of a shuffled candidate list are distinct candidates |
| Mushrooms.Field.constructor | game/src/mushroom.cpp:7 | the field starts empty |
| Mushrooms.Field.SetHealth | game/include/mushroom.h:48 | only the chosen mushroom's health changes, to the given value, and nothing is removed |
| Mushrooms.Field.HandleCollision | game/src/mushroom.cpp:25-32 | the list becomes `Damaged`: health drops by one, and at zero every entry with that id is removed |
| Mushrooms.Field.Add | game/src/mushroom.cpp:64-68 | appends one full-health mushroom at (x, y) with a fresh id, and leaves the rest of the list unchanged; when the old ids are below the counter, the new id differs from every old one (game/src/mushroom.cpp:19-23) |
| Mushrooms.Field.Clear | game/src/mushroom.cpp:35 | the field becomes empty |
| Mushrooms.Field.Generate | game/src/mushroom.cpp:34-62 | clears the field, then places min(30, #candidates) full-health mushrooms on the first shuffled candidates with consecutive fresh ids, no two on one cell |
| Mushrooms.Field.PlaceFirst | game/src/mushroom.cpp:51-61 | on an empty field, a mushroom with full health and a fresh consecutive id lands on each of the first min(30, #cells) cells, in order, and on no other |
| Segments.Sign | game/src/centipede.cpp:14-22 | the result is 1, -1 or 0 exactly when the value is positive, negative or zero |
| Segments.NextBounds | game/src/centipede.cpp:242-249 | with the default 999 arguments (game/include/centipede.h:105) the bounds are shifted by the segment's own (dx, dy) times speed, otherwise by the given direction times speed |
| Segments.IndexOf | game/src/centipede.cpp:69-71 | the first position holding the id, or the length when the id is absent (segment equality is id equality, game/include/centipede.h:119) |
| Segments.RunEnd | game/src/centipede.cpp:88-97 | the end of the maximal run of alive body segments starting at a position |
| Segments.TrailingBodies | game/src/centipede.cpp:81-99 | the maximal run of consecutive alive body segments right after the segment, in list order: it stops before the first dead or head segment and is empty when the segment is absent |
| Segments.GetTrailingBodies | game/src/centipede.cpp:81-99 | the list-walking loop returns exactly `TrailingBodies` |
| Segments.SegmentCanMove | game/src/centipede.cpp:172-188 | true exactly when the rectangle overlaps neither a mushroom with positive health nor an alive segment that is neither the segment itself nor in its trailing run |
| Segments.OpenAmongMembers | game/src/centipede.cpp:378-413 | a cell is open exactly when it is a scanned cell the segment can move onto |
| Segments.OpenSpotIsFree | game/src/centipede.cpp:378-413 | every open spot is a grid cell, with rows bounded by windowHeight / width, free of live mushrooms and of alive segments outside the trailing run |
| Segments.ScanColumn | game/src/centipede.cpp:383-409 | the inner loop extends the open list by exactly the open cells of one column |
| Segments.ScanCell | game/src/centipede.cpp:384-408 | a scanned cell joins the open list exactly when the segment can stand there |
| Segments.FindOpenSpots | game/src/centipede.cpp:378-413 | the nested loops return exactly the open cells, column by column |
| Segments.Distance2 | game/src/centipede.cpp:368 | the squared distance used instead of the square root is never negative |
| Segments.Closest | game/src/centipede.cpp:363-373 | the first spot of minimal distance: no later spot is closer and every earlier spot is strictly farther |
| Segments.ClosestStep | game/src/centipede.cpp:367-373 | one loop step replaces the best spot only on a strictly smaller distance |
| Segments.ClosestOpenSpotIsClosest | game/src/centipede.cpp:354-376 | the current position when no spot is open, otherwise an open spot no farther than any other and strictly closer than every earlier distinct spot |
| Segments.ClosestIndex | game/src/centipede.cpp:363-373 | the minimum-search loop returns the `Closest` index |
| Segments.FindClosestOpenSpot | game/src/centipede.cpp:354-376 | returns `ClosestOpenSpot` |
| Segments.FirstSnag | game/src/centipede.cpp:105-118 | the first mushroom the head's next step runs into |
| Segments.MushroomPass | game/src/centipede.cpp:105-118 | the mushroom check flips dx at most once and changes only position and direction; when it moves the segment, the direction is unchanged |
| Segments.FirstObstruction | game/src/centipede.cpp:120-134 | the first alive segment, outside the trailing run, that the head's next step overlaps |
| Segments.SegmentPass | game/src/centipede.cpp:120-134 | when another segment is ahead, dx flips once and dy takes the turn direction, otherwise nothing changes |
| Segments.EdgePass | game/src/centipede.cpp:136-146 | the edge checks change only the direction and the random-walk dy, and touch the latter only in random-walk mode |
| Segments.Sidestep | game/src/centipede.cpp:148-161 | a blocked vertical move is saved in savedDy and replaced by a horizontal one; an unblocked move is left alone |
| Segments.Restore | game/src/centipede.cpp:163-169 | a saved vertical intent is restored, and savedDy cleared, exactly when that vertical move is possible |
| Segments.Steer | game/src/centipede.cpp:101-170 | steering keeps the segment's id, type, status, speed and queue |
| Segments.SteerUnit | game/src/centipede.cpp:101-170 | steering keeps both direction components in {-1, 0, 1} |
| Segments.MushroomScan | game/src/centipede.cpp:105-118 | the mushroom loop with its break computes `MushroomPass` |
| Segments.SegmentScan | game/src/centipede.cpp:120-134 | the segment loop with its break computes `SegmentPass` |
| Segments.EdgeChecks | game/src/centipede.cpp:136-146 | the edge checks compute `EdgePass` |
| Segments.BlockedChecks | game/src/centipede.cpp:148-169 | the blocked and restore checks compute `Restore(Sidestep(..))` |
| Segments.CheckCollisions | game/src/centipede.cpp:101-170 | the whole check computes `Steer` |
| Segments.HeadMoved | game/src/centipede.cpp:190-227 | a horizontal move changes x by exactly dx*speed and keeps y and dy; a vertical move keeps x and either steps y by dy*speed or snaps and clears dy |
| Segments.HeadMoveSnaps | game/src/centipede.cpp:195-219 | a snap lands on a multiple of the cell height, between the old y (exclusive when moving down) and y + dy*speed |
| Segments.SnapDown | game/src/centipede.cpp:199-203 | a downward snap lands on a cell boundary in (cur, next] |
| Segments.SnapUp | game/src/centipede.cpp:210-214 | an upward snap lands on a cell boundary in [next, cur] |
| Segments.BodyMoved | game/src/centipede.cpp:229-240 | a body move keeps the queue length and changes only position, direction and queue |
| Segments.BodyLag | game/src/centipede.cpp:229-236 | after a run of moves the queue is the input shifted by its length, so a body replays the step it was given queue-length calls earlier |
| Segments.Spawned | game/src/centipede.cpp:49-67 | a new segment is alive with the given id and type, unit directions, and a queue of exactly width/speed default steps |
| Segments.NewSegment | game/src/centipede.cpp:49-67 | the queue-filling constructor builds `Spawned` |
| Segments.Retimed | game/src/centipede.cpp:299-308 | a retimed segment has the new speed, maxDelayTicks = width/speed, and its queue popped from the front down to that length |
| Centipede.RetimedPaced | game/src/centipede.cpp:299-308 | retiming gives a segment a queue no longer than its new delay |
| Centipede.RetimedAllPaced | game/src/centipede.cpp:299-308 | retiming every segment keeps the whole chain in step with the new speed |
| Centipede.HeadTurnKeepsIdentity | game/src/centipede.cpp:325-328 | a head's steer-and-move keeps its id, type and status |
| Centipede.Advance | game/src/centipede.cpp:322-348 | one iteration of the move loop keeps a segment's id, type and status |
| Centipede.MoveFrom | game/src/centipede.cpp:321-351 | the move loop keeps the chain's length |
| Centipede.Moved | game/src/centipede.cpp:310-352 | a frame's move keeps the chain's length |
| Centipede.FeedPrefix | game/src/centipede.cpp:321-351 | the step fed to a body depends only on the segments before it |
| Centipede.MoveFromPrefix | game/src/centipede.cpp:321-351 | the loop leaves processed segments alone and keeps the identity of the rest |
| Centipede.MoveFromShape | game/src/centipede.cpp:321-351 | each segment is moved by its own rule from what the loop has fed it so far |
| Centipede.MovedShape | game/src/centipede.cpp:310-352 | every segment keeps its identity, and each is moved by its rule: heads steer then move, bodies follow, dead segments are untouched |
| Centipede.MoveSkipsDead | game/src/centipede.cpp:325-348 | a dead segment is left exactly as it was |
| Centipede.HeadSteers | game/src/centipede.cpp:325-328 | every alive head runs `checkCollisions` against the partly moved chain, then `headMove`; several heads may coexist |
| Centipede.FeedNearest | game/src/centipede.cpp:330-347 | the step fed to a body is the post-move step of the nearest preceding alive segment, or the zero step when there is none |
| Centipede.BodyFollows | game/src/centipede.cpp:330-347 | an alive body moves to its oldest queued step and queues the nearest preceding alive segment's post-move step, or (0,0,0,0) |
| Centipede.FeedUnit | game/src/centipede.cpp:330-347 | the fed step has unit direction components |
| Centipede.HeadTurnPaced | game/src/centipede.cpp:325-328 | a head's steer-and-move keeps it in step with the chain's speed |
| Centipede.MovePaced | game/src/centipede.cpp:310-352 | a frame's move keeps every segment in step with the chain's speed |
| Centipede.PacedUpTo | game/src/centipede.cpp:321-351 | the move loop keeps the segments before any position in step |
| Centipede.Fresh | game/src/centipede.cpp:279-291 | a new chain holds exactly the requested number of segments |
| Centipede.FreshChain | game/src/centipede.cpp:279-291 | a new chain is alive, headed only by its first segment, placed at (W/2, 0), with consecutive fresh ids and full queues |
| Centipede.SpawnChain | game/src/centipede.cpp:286-290 | the construction loop builds `Fresh` and takes one id per segment |
| Centipede.Chain.constructor | game/src/centipede.cpp:279-291 | builds a fresh chain of the given length at the initial speed, random walk off |
| Centipede.Chain.SetRandomWalk | game/src/centipede.cpp:293-297 | sets the flag and only the front segment's random-walk dy |
| Centipede.Chain.SetSpeed | game/src/centipede.cpp:299-308 | every segment is retimed to the new speed, and the chain stays valid |
| Centipede.RetimeSegment | game/src/centipede.cpp:302-306 | the pop loop leaves the newest min(queue length, new delay) steps, together with the new speed and delay |
| Centipede.Chain.CheckCollisions | game/src/centipede.cpp:101-170 | steers the one segment in place and leaves the others alone |
| Centipede.Chain.HeadMove | game/src/centipede.cpp:190-227 | moves the one head in place |
| Centipede.Chain.BodyMove | game/src/centipede.cpp:229-240 | moves the one body in place |
| Centipede.Chain.AdvanceAt | game/src/centipede.cpp:321-351 | one loop iteration applied in place, returning the step to feed onwards |
| Centipede.Chain.HeadAdvance | game/src/centipede.cpp:325-328 | a live head steers against the list as it stands, then makes its own move; no other segment changes |
| Centipede.Chain.Move | game/src/centipede.cpp:310-352 | the chain becomes `Moved` of the old chain, and stays valid |
| Centipede.Chain.Reset | game/src/centipede.cpp:415-425 | rebuilds a fresh chain of the same length, restoring the initial speed only when asked (the default, game/include/centipede.h:262) |
| Spiders.Hits | game/src/spider.cpp:162-168 | the number of winning draws never exceeds the number of draws |
| Spiders.ChanceIsPercentage | game/src/spider.cpp:162-168 | exactly `percentage` of the draws 1..100 succeed, clamped to [0, 100] |
| Spiders.Trunc | game/include/spider.h:93-94 | storing a real into an int field truncates toward zero |
| Spiders.ComponentBound | game/src/spider.cpp:57-64 | a scaled component keeps its sign and stays within speed |
| Spiders.AxisScale | game/src/spider.cpp:57-64 | an axis-aligned direction normalises to exactly plus or minus speed |
| Spiders.ScaledBound | game/src/spider.cpp:61-63 | scaling by speed/magnitude keeps a component within speed |
| Spiders.NormalisedBound | game/src/spider.cpp:57-64 | normalisation keeps each component's sign and bounds it by speed; a still spider stays still |
| Spiders.ScaledPair | game/src/spider.cpp:57-64 | scaling by speed over a length that bounds both components keeps each sign and bounds each component by the speed; a direction along an axis stays on that axis |
| Spiders.Redirect | game/src/spider.cpp:126-136 | the new direction has unit components and is never (0, 0): (0, 0) becomes (1, 1) |
| Spiders.Placement | game/src/spider.cpp:98-118 | a respawn puts the spider at x = 0 or x = W - width, in the lower half of the window, with dx = 1 exactly at the left edge |
| Spiders.PlacementMoves | game/src/spider.cpp:108-118 | a respawned spider is never still |
| Spiders.NormalisedMoves | game/src/spider.cpp:57-64 | at a speed of at least 2, normalising a unit direction that is not still leaves a nonzero component exactly where the direction had one |
| Spiders.FlownBound | game/src/spider.cpp:57-78 | one flight step, from any direction including a still one, moves at most speed along each axis and leaves each component within speed |
| Spiders.FlownReflects | game/src/spider.cpp:66-78 | the spider steps by its normalised direction, and a component is reversed exactly when the next step would leave its area |
| Spiders.Trampled | game/src/spider.cpp:138-144 | every overlapped mushroom drops to zero health whatever its health; the others and the list length are unchanged |
| Spiders.TrampledClears | game/src/spider.cpp:138-144 | trampling keeps ids and positions and is idempotent |
| Spiders.Spider.constructor | game/src/spider.cpp:30-39 | a new spider is alive at the initial speed with a three-second spawn delay, placed by `reset` |
| Spiders.Spider.SetTexture | game/src/spider.cpp:27 | the spider takes the sprite size |
| Spiders.Spider.Reset | game/src/spider.cpp:98-124 | the spider is alive at the drawn placement, and speed returns to the initial speed only when asked (the default, game/include/spider.h:34) |
| Spiders.Spider.ChangeDirection | game/src/spider.cpp:126-136 | the direction becomes `Redirect` of the draws |
| Spiders.Spider.HandleCollision | game/src/spider.cpp:93-96 | the spider dies and its spawn clock restarts |
| Spiders.Spider.SetSpeed | game/include/spider.h:89 | a later speed read returns the value set |
| Spiders.Spider.CheckMushroomCollision | game/src/spider.cpp:138-144 | the field becomes `Trampled` by the spider's bounds |
| Spiders.Spider.Fly | game/src/spider.cpp:57-78 | normalises, moves and reflects in place, as `Flown` |
| Spiders.Spider.Update | game/src/spider.cpp:49-87 | a dead spider within its delay changes nothing; otherwise it respawns if dead (keeping its speed), flies, maybe turns, and tramples mushrooms |
| LaserBlaster.Lowered | game/src/laserBlaster.cpp:29-30 | a blast moves up by exactly its speed and keeps everything else |
| LaserBlaster.FirstTouching | game/src/laserBlaster.cpp:51-53 | the first alive segment overlapping the blast |
| LaserBlaster.FindTouching | game/src/laserBlaster.cpp:51-53 | the segment loop finds the first overlapping alive segment, and finds one exactly when one exists |
| LaserBlaster.KilledShape | game/src/laserBlaster.cpp:53-72 | the hit segment dies; only its immediate successor, and only if alive, becomes a head; nothing else changes |
| LaserBlaster.FirstHit | game/src/laserBlaster.cpp:35-89 | the target found is a valid index into the list it names |
| LaserBlaster.StruckOrder | game/src/laserBlaster.cpp:35-89 | the blast is spent exactly when it is off screen or touches a live mushroom, an alive segment or the alive spider; a miss or an off-screen blast changes nothing; a mushroom hit leaves score, segments and spider alone; a spider hit kills the spider, restarts its clock, scores 500 and changes nothing else |
| LaserBlaster.StruckSegment | game/src/laserBlaster.cpp:53-77 | a segment hit kills it, scores 100 for a head or 10 for a body, and appends a fresh full-health mushroom at its position |
| LaserBlaster.StruckScore | game/src/laserBlaster.cpp:56-61 | one blast scores 0, 10, 100 or 500 |
| LaserBlaster.Volley | game/src/laserBlaster.cpp:186-193 | the kept blasts are no more than the blasts |
| LaserBlaster.VolleyKeeps | game/src/laserBlaster.cpp:186-193 | the kept blasts are moved copies of blasts, in order; the score never drops, the chain keeps its length, dead segments stay dead, no more mushrooms appear than ids are issued, and when every id is below the id counter it stays so, so each new mushroom's id is fresh |
| LaserBlaster.Missed | game/src/laserBlaster.cpp:186-193 | the positions of the blasts the erase loop keeps, each a valid position, strictly increasing |
| LaserBlaster.MissedExact | game/src/laserBlaster.cpp:186-193 | a blast's position is listed exactly when its move, after the blasts before it, does not spend it |
| LaserBlaster.VolleyKept | game/src/laserBlaster.cpp:186-193 | the kept list is exactly the missed blasts, each moved up one step, in their original order |
| LaserBlaster.DamagedIdsBelow | game/src/mushroom.cpp:25-32 | a hit on a mushroom keeps every id below the id counter |
| LaserBlaster.VolleyPaced | game/src/laserBlaster.cpp:186-193 | blast hits keep the chain in step with its speed |
| LaserBlaster.StepGated | game/src/laserBlaster.cpp:150-176 | a step is taken only when it stays in bounds (never above the window's middle) and overlaps no live mushroom; otherwise the position is unchanged |
| LaserBlaster.StepStaysInZone | game/src/laserBlaster.cpp:150-176 | the player never leaves its zone |
| LaserBlaster.Regrown | game/src/centipede.cpp:415-425 | a regrown chain has the chain's length |
| LaserBlaster.Strike | game/src/laserBlaster.cpp:35-89 | the collision handling changes the game exactly as `Struck` says |
| LaserBlaster.KillSegment | game/src/laserBlaster.cpp:50-74 | the hit segment dies, its live successor becomes a head, a head scores 100 and a body 10, and a full-health mushroom with a fresh id takes the segment's place |
| LaserBlaster.MoveBlast | game/src/laserBlaster.cpp:29-33 | lowers the blast, then resolves its collision as `Flight` |
| LaserBlaster.Player.constructor | game/src/laserBlaster.cpp:91-101 | three lives, zero score and high score, no blasts, at the spawn point |
| LaserBlaster.Player.ResetScore | game/include/laserBlaster.h:99 | the score becomes 0 |
| LaserBlaster.Player.IncrementScore | game/include/laserBlaster.h:106 | the score grows by exactly i |
| LaserBlaster.Player.UpdateHighScore | game/include/laserBlaster.h:120 | the high score becomes max(score, highScore): it never drops and ends at least the score |
| LaserBlaster.Player.ResetLives | game/include/laserBlaster.h:139 | lives become 3 |
| LaserBlaster.Player.DecrementLives | game/include/laserBlaster.h:144 | lives drop by exactly one, with no lower clamp |
| LaserBlaster.Player.ResetPosition | game/src/laserBlaster.cpp:196-198 | the player returns to the spawn point |
| LaserBlaster.Player.Reset | game/src/laserBlaster.cpp:200-205 | no blasts, zero score, three lives, at the spawn point |
| LaserBlaster.Player.Shoot | game/src/laserBlaster.cpp:103-114 | during the cooldown nothing changes; otherwise exactly one centred blast with a fresh id is appended and the cooldown restarts |
| LaserBlaster.Player.Walk | game/src/laserBlaster.cpp:150-176 | the position becomes `Stepped` |
| LaserBlaster.Player.Collide | game/src/laserBlaster.cpp:179-183 | touching an alive segment or the alive spider costs exactly one life, soft-resets the chain and restores the spawn point; the score is untouched |
| LaserBlaster.Player.FireVolley | game/src/laserBlaster.cpp:186-193 | the erase loop leaves the game and the blast list as `Volley` says |
| LaserBlaster.Player.FlyOne | game/src/laserBlaster.cpp:186-191 | one blast flies as `Flight` says; it is then erased if spent and replaced by its moved copy otherwise, the other blasts staying in place |
| LaserBlaster.VolleyStep | game/src/laserBlaster.cpp:185-192 | the volley over one more blast is the volley so far followed by that blast's flight against the board it left |
| LaserBlaster.VolleyAdvance | game/src/laserBlaster.cpp:185-192 | one turn of the erase loop extends the kept blasts, the board and the unvisited rest from the first j blasts to the first j + 1 |
| LaserBlaster.Player.Land | game/src/laserBlaster.cpp:149-183 | movement then contact, as `Stepped` then `Collide` |
| LaserBlaster.Player.Update | game/src/laserBlaster.cpp:116-194 | the whole frame: gated step, life loss with chain reset, then the blast volley from the resulting state |
| Game.FindAlive | game/src/main.cpp:431-437 | the scan finds a live segment exactly when one exists |
| Game.NextWave | game/src/main.cpp:439-441 | the next wave has the chain's length |
| Game.NextWaveFresh | game/src/main.cpp:439-441 | the next wave is alive, headed only by its first segment, with fresh consecutive ids, and in step with the faster speed |
| Game.EndOfFrame | game/src/main.cpp:431-455 | a cleared wave respawns the chain one step faster and speeds up the spider; with no lives left the chain resets to its initial speed, the field empties, the high score updates and the home screen shows; the id counter advances by the chain length for each rebuild (wave clear, game over), and the game-over chain is `Fresh` from the ids issued after the wave rebuild |

## Left out

- Rendering: textures, animation, orientation, drawing, the HUD, the
  texture change on promotion and the colour rotation on a wave clear
  (game/src/main.cpp:443). None of these affects the game state.
- Asset loading and the `*Init` functions, except the spider's sprite size
  (`Spiders.Spider.SetTexture`).
- The main loop, keyboard input, frame pacing and the home-screen start
  (game/src/main.cpp:391-396). The model stops at the end-of-frame rules.
  `main.cpp` outside lines 431-455 is not part of this model.
- Random draws: `getRandomDirection`, `getRandomChance`, `getRandomFloat`
  and the `mt19937` behind `std::shuffle` are parameters. The model states
  only what the game does with each draw.
- Clocks: `shotClock` and `spawnClock` are a `now` parameter and a stored
  start time.
- Floating-point rounding. Player and blast coordinates are `real`. The
  spider's `sqrt` is a parameter `root`, characterised by `MeasuresLength`
  (positive on a nonzero vector, at least each component's magnitude, at
  most the sum of the components' magnitudes, and exact on an axis).
- The square root in `findClosestOpenSpot` is replaced by squared integer
  distances, which give the same order.
- SFML's `getGlobalBounds` and `FloatRect::intersects`: a sprite rectangle
  with fixed per-kind sizes, and strict positive-area overlap.
- Getters and plain setters (`getDirection`/`setDirection`,
  `setMaxDelayTicks`, `setRandomWalkDy`, `getStatus`, `getLives`, and so
  on) are field reads and datatype updates.
- Equality by id (segments, mushrooms, blasts): the model compares ids
  explicitly wherever the game uses `==`. Datatype equality is never used
  for it.
- Segments.HeadMoveSnaps: requires y >= 0. The model computes C++
  truncating division exactly (`CDiv`, `CMod`), but the bounds are proved
  only for the non-negative rows the vertical clamp keeps the head in.
- Spiders.FlownBound, Spiders.NormalisedBound: hold for any square root
  that satisfies `MeasuresLength`, not for the float `sqrt` itself.
- Spiders.Spider.constructor: the spider is built before its texture is
  set, so `reset` places it with a zero-size sprite.
- Centipede.Chain.constructor: requires a positive initial speed for a
  non-empty chain, because width/speed divides by it.
- Centipede.Chain.SetRandomWalk: requires a non-empty chain, because
  `front()` on an empty list is undefined behaviour.
- Game.EndOfFrame: requires a non-empty chain. An empty chain would count
  as a cleared wave every frame.
- Mushrooms.Field.Health: `getHealth` is a plain read, so it has no
  contract of its own.

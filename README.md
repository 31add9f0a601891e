# Egg game: a verified model of the game state

The game in `js/main.js` drops eggs from the top of a playfield. The player
moves a basket to catch them. A caught egg scores 1 point, or 5 if it is
golden. An egg that reaches the floor costs a life, and the game stops when
no lives are left. When a catch lands the score on a multiple of 20, the
level goes up: eggs then spawn more often and fall faster, down to fixed
floors.

This project models the state record `gameState` and the functions that
update it:

- `spawnEgg`: the time gate, then one new egg appended.
- `checkCollisions`: the catch pass over the egg list.
- The expiry timer that each spawned egg schedules.
- `levelUp`, `gameOver` and `restartGame`.

The model has three modules:

- `rules.dfy` (`EggRules`): the value types (`Egg`, `Rect`, `Snapshot`) and
  one function per state change, from the old snapshot to the new one. It
  also holds the catch test `Overlaps` over integer boxes and `Sweep`, the
  collision pass as an index walk over a list that shrinks as it goes.
  These functions carry no contracts of their own; the lemmas about them
  state what they do: `LevelUp` in `LevelUpEffect`, `Spawn` in `SpawnGate`,
  `Catch` in `CatchEffect`, `Overlaps` in `OverlapsIsRelative` and
  `CatchZone`, `Sweep` in `SweepAccounting`, `SweepCatchesOnlyTouching` and
  `SweepCatchesExactly`, `WithoutId` in the three `WithoutId` lemmas,
  `Expire` in `ExpireEffect`, `GameOver` in `GameOverOnlyStops`, and
  `Initial` and `Restart` in `RestartValues`.
- `game_state.dfy` (`EggGame`): the class `GameState`, whose fields are the
  state record's fields. Its methods update those fields in place as the
  source does, and each is proved to reach the state the matching
  `EggRules` function computes. `CheckCollisions` runs the source's loop,
  with an invariant tying it to `Sweep`.
- `properties.dfy` (`EggProperties`): what the rules guarantee. This covers
  point values, level thresholds, difficulty floors, the spawn gate, the
  running-flag guards, expiry and reset values. It also defines `Inv`, an
  invariant kept by every event (spawn attempt, collision pass, expiry,
  restart), and proves monotonicity up to the next restart.

The model follows the code as written:

- The collision pass removes a caught egg with `splice` inside `forEach`.
  The egg that slides into the freed index is therefore not examined in the
  same pass (`SweepSkipsSuccessor`).
- The level check runs only after a catch and only when the new score is a
  multiple of 20. A golden egg that moves the score from 18 to 23 does not
  level up (`GoldenJumpsOverLevelUp`). The invariant states the resulting
  bound: `level - 1 <= score / 20`.
- The expiry timer does not check whether the game is still running. Eggs
  still falling at game over can take `lives` below zero and call
  `gameOver` again (`MissesEndGameThenLivesGoNegative`). No lower bound on
  `lives` is stated.

Each egg's page element is modelled by an identity `id`, drawn from the
counter `nextId`. Restart does not reset this counter: a new element is
never the same object as an old one. An egg's element is on the page
exactly while its record is in `eggs`, because the source removes both
together on a catch, on an expiry and on a restart. So the timer's test
"element still attached and not caught" becomes `Pending(eggs, id)`.
`lastEggSpawn` is a separate variable beside `gameState` in the source. The
model keeps it in the same class.

## Model

| member | source | states |
|---|---|---|
| `EggGame.GameState.constructor` | js/main.js:10-24 | The page starts with score 0, 3 lives, level 1, no eggs, running, spawn interval 1500, fall time 3000, basket at 360 and a spawn baseline of 0, and this state satisfies the invariant |
| `EggGame.GameState.LevelUp` | js/main.js:140-145 | Level goes up by one; spawn interval becomes max(800, interval - 100) and fall time max(1500, time - 200); nothing else changes |
| `EggGame.GameState.SpawnEgg` | js/main.js:58-79 | Reaches the state `EggRules.Spawn` gives. Returns an egg identity exactly when the game runs and at least `spawnRate` ms have passed since the last spawn, and that identity is the last egg's. Keeps the invariant |
| `EggGame.GameState.CheckCollisions` | js/main.js:99-138 | The in-place loop with `splice` reaches the state of the collision pass `Sweep`, and a stopped game is left as it is; keeps the invariant |
| `EggGame.GameState.Expire` | js/main.js:81-96 | The expiry timer reaches the state `EggRules.Expire` gives: a pending egg is filtered out, a life is lost, and the game stops at lives <= 0; keeps the invariant |
| `EggGame.GameState.GameOver` | js/main.js:161-166 | Only the running flag changes, to false |
| `EggGame.GameState.Restart` | js/main.js:168-195 | Score 0, lives 3, level 1, caught 0, interval 1500, fall time 3000, no eggs, running, basket 360, spawn baseline 0; egg identities keep counting; the invariant holds |
| `EggProperties.LevelUpEffect` | js/main.js:140-145 | One level-up raises the level by exactly 1. Each parameter drops by one step or lands on its floor (800, 1500) and never goes below it. Every other field is unchanged |
| `EggProperties.LevelUpsClosedForm` | js/main.js:140-145 | After n level-ups from parameters at or above their floors: level + n, interval max(800, interval - 100n), fall time max(1500, time - 200n), everything else unchanged |
| `EggProperties.RampFromStart` | js/main.js:140-145 | From the starting values both parameters only decrease and stay within [800, 1500] and [1500, 3000]. The interval reaches its floor at exactly the 7th level-up and the fall time at exactly the 8th |
| `EggProperties.CatchEffect` | js/main.js:116-135 | A catch adds 5 points for a golden egg and 1 otherwise. It adds exactly 1 to the catch count and splices out exactly the caught egg. It levels up iff the new score is a positive multiple of 20, and otherwise leaves level and difficulty unchanged. Lives, the running flag and the spawn state are unchanged |
| `EggProperties.NineteenToTwenty` | js/main.js:132-135 | The catch from score 19 to 20 takes level 1 to 2, interval 1500 to 1400 and fall time 3000 to 2800 |
| `EggProperties.GoldenJumpsOverLevelUp` | js/main.js:119-135 | A golden catch from 18 to 23 passes over 20 and leaves level and difficulty unchanged |
| `EggProperties.CatchKeepsInv` | js/main.js:116-135 | A catch keeps the invariant: level at most once per multiple of 20, difficulty a function of level, 1 to 5 points per caught egg, identities distinct and in spawn order |
| `EggProperties.CatchThenAccounts` | js/main.js:116-130 | A catch followed by an accounted pass accounts for the caught egg and the pass together |
| `EggProperties.SweepAccounting` | js/main.js:99-138 | Over one pass the score grows by the sum of the points of exactly the eggs caught, and the catch count by their number. The caught eggs are exactly the ones missing afterwards, as a multiset. Lives, the running flag and the spawn state are untouched. Level never drops and difficulty never rises |
| `EggProperties.SweepKeepsInv` | js/main.js:102-137 | A pass keeps the invariant |
| `EggProperties.SweepKeepsPrefix` | js/main.js:102-130 | A pass from index i leaves the eggs before i in place |
| `EggProperties.SweepSkipsSuccessor` | js/main.js:102-130 | When the eggs at i and i+1 both touch the basket, the pass catches the first and leaves the second on the list at index i, unexamined |
| `EggProperties.SweepCatchesOnlyTouching` | js/main.js:102-116 | Every egg a pass catches was uncaught and its box touched the basket's by the catch test |
| `EggProperties.SweepCaughtFromSuffix` | js/main.js:102-130 | A pass from index i catches only eggs that were at index i or later |
| `EggProperties.NotCaughtBefore` | js/main.js:102-130 | On a list of distinct eggs, a pass from index i catches none of the eggs before i |
| `EggProperties.SweepCatchesExactly` | js/main.js:102-130 | Which eggs a pass catches, by their index j in the list it started with: the egg at j is caught iff it is uncaught, touches the basket, and either is the first one examined or the egg at j - 1 was not caught |
| `EggProperties.OverlapsIsRelative` | js/main.js:109-114 | Moving the egg's and the basket's boxes by the same offset does not change the catch test |
| `EggProperties.CatchZone` | js/main.js:109-114 | An egg reaching strictly into the basket's horizontal span is caught iff its bottom edge is between the basket's top and 20 below the basket's bottom: at 20 below it counts, at 21 it does not. An egg beside the basket is never caught |
| `EggProperties.CheckCollisionsKeepsInv` | js/main.js:99-138 | A call of checkCollisions keeps the invariant |
| `EggProperties.SpawnGate` | js/main.js:58-79 | A stopped game, or an attempt less than `spawnRate` after the last spawn, changes nothing. Otherwise the baseline becomes `now` and exactly one uncaught egg is appended with the drawn variant, the current fall time and an identity new to the list. The earlier eggs and all other fields are unchanged |
| `EggProperties.SpawnKeepsInv` | js/main.js:62-78 | A spawn keeps the invariant |
| `EggProperties.StoppedGameIsFrozen` | js/main.js:58-100 | With the running flag false, spawnEgg and checkCollisions leave the whole state unchanged |
| `EggProperties.WithoutIdAbsent` | js/main.js:84 | Filtering out an identity that is not on the list leaves the list as it is |
| `EggProperties.WithoutIdRemovesAll` | js/main.js:84 | After the filter no record of that egg is left |
| `EggProperties.WithoutIdRemovesAt` | js/main.js:84 | On a list with distinct identities the filter removes exactly the egg's index and keeps the order of the rest |
| `EggProperties.ExpireEffect` | js/main.js:81-96 | Expiry of an egg on the list removes it and keeps the others in order. It costs exactly one life. Afterwards the game runs iff lives are still above 0. Nothing else changes |
| `EggProperties.HeadExpires` | js/main.js:81-96 | Expiry of the oldest egg drops it, costs one life and stops the game at lives <= 0, whatever the running flag was |
| `EggProperties.ExpireResolvedIsNoop` | js/main.js:81-82 | Expiry of an egg that was caught or is already gone changes nothing |
| `EggProperties.ExpireIdempotent` | js/main.js:81-96 | A second expiry of the same egg changes nothing |
| `EggProperties.ExpireKeepsInv` | js/main.js:81-96 | Expiry keeps the invariant, in particular that a stopped game has no lives left |
| `EggProperties.StepKeepsGone` | js/main.js:81-130 | An egg that has been handed out and is off the list stays off it through any event: spawns add only fresh identities, passes and expiries only remove, restart empties the list |
| `EggProperties.RunKeepsGone` | js/main.js:81-130 | The same over any sequence of events, restarts included |
| `EggProperties.GoneIsResolved` | js/main.js:81-130 | For an egg off the list, its timer changes nothing and no collision pass catches it |
| `EggProperties.CaughtInPassIsResolved` | js/main.js:81-130 | An egg caught in a collision pass is off the list once the pass ends. After that pass and any later events, its timer changes nothing and no later pass catches it again |
| `EggProperties.ResolvedAtMostOnce` | js/main.js:81-130 | An egg is resolved at most once. If it is caught, its timer is a no-op whenever it fires: right after the catch inside the pass, and after the whole pass and any later events. If it expires first, no collision pass after any later events can catch it |
| `EggProperties.GameOverOnlyStops` | js/main.js:161-166 | gameOver clears the running flag and changes nothing else, so score and catch count keep the values shown as final |
| `EggProperties.GameOverKeepsInv` | js/main.js:161-162 | Stopping a game with no lives left keeps the invariant |
| `EggProperties.RestartValues` | js/main.js:168-195 | Restart sets every reset value, satisfies the invariant, keeps egg identities counting, and in the state right after the restart every timer of the old game is a no-op |
| `EggProperties.RestartRetiresOldEggs` | js/main.js:168-195 | A timer of an egg spawned before a restart is a no-op in every state reached after the restart, whatever events follow, and no collision pass after the restart catches that egg |
| `EggProperties.StepKeepsInv` | js/main.js:198-204 | Each event (spawn attempt, collision pass, expiry, restart) keeps the invariant |
| `EggProperties.RunKeepsInv` | js/main.js:198-204 | Any sequence of events from a state satisfying the invariant reaches a state satisfying it |
| `EggProperties.StepMonotone` | js/main.js:198-204 | An event other than restart never lowers score, catch count or level and never raises the interval or fall time |
| `EggProperties.RunMonotone` | js/main.js:198-204 | The same holds over any sequence of events without a restart |
| `EggProperties.MissesEndGameThenLivesGoNegative` | js/main.js:81-96 | After four spawns, the third uncaught egg ends the game with the score and catch count unchanged. Spawn attempts and collision passes then change nothing. The fourth egg's timer still fires and takes lives to -1 |

## Left out

- `updateBasket` (js/main.js:40-56) is not modelled. It mixes a keyboard step of 5 with a floating-point move of 20% toward the pointer each frame. `basketPosition` appears only as a field that start and restart set to 360.
- `createCrackEffect` (js/main.js:147-159) and every other page update (text of the counters, the game-over screen, element creation and removal) are presentation only. The model keeps just their effect on the state.
- `Date.now` and `Math.random` are parameters of `SpawnEgg` (`now`, `isGolden`, `left`). The 10% chance of a golden egg is therefore not modelled.
- `getBoundingClientRect` is a parameter of `CheckCollisions`: `eggRect` gives each egg's box and `basket` gives the basket's box.
- Overlaps: the page reports fractional boxes, while `Rect` restricts them to integer coordinates. The catch test only compares edges and adds the integer 20, so it makes the same comparisons, but boxes with fractional edges are not modelled.
- `setTimeout` and `requestAnimationFrame` are not modelled. An expiry is an explicit call of `Expire(id)`, and the delay of `eggSpeed + 100` ms is not modelled; the egg record keeps its fall time `fallMs`. Whole games are sequences of `Event`s, in any order the caller chooses.
- Key and mouse listeners (js/main.js:22-38) are left out: their only effect is on the basket.
- Score, lives, level, the catch count, the spawn interval, the fall time and the clock are unbounded integers. The source holds them as doubles, which stay exact at any value a game can reach, so no rounding is modelled. `basketPosition` and an egg's `left` are `real`s, exact where the source rounds; neither is read by the rules.

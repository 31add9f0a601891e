/**
 The rules of the egg-catching game, stated as functions on a snapshot of
 the game state. Every rule of js/main.js that changes the state appears
 here once, as a function from the old snapshot to the new one; the class
 in game_state.dfy performs the same updates field by field and is proved
 to agree with these functions.
 */
module EggRules {

  datatype Option<T> = None | Some(value: T)

  // Starting values of a game (js/main.js:10-24 and the reset at 168-195).
  const StartLives: int := 3
  const StartLevel: int := 1
  const StartBasket: real := 360.0
  const StartSpawnRate: int := 1500
  const StartEggSpeed: int := 3000

  // Difficulty ramp of levelUp (js/main.js:142-143).
  const SpawnRateFloor: int := 800
  const SpawnRateStep: int := 100
  const EggSpeedFloor: int := 1500
  const EggSpeedStep: int := 200

  // Scoring (js/main.js:119, 133).
  const GoldenPoints: nat := 5
  const PlainPoints: nat := 1
  const PointsPerLevel: int := 20

  // How far below the basket's bottom edge an egg's bottom edge may be and
  // still count as caught (js/main.js:113).
  const CatchTolerance: int := 20

  /**
   One falling egg. `id` stands for the identity of the egg's page element:
   two records are the same egg exactly when their ids agree. `left` is the
   random horizontal position drawn at spawn and `fallMs` the animation
   duration it was given; neither is read by the rules.
   */
  datatype Egg = Egg(id: nat, isGolden: bool, caught: bool, left: real, fallMs: int)

  /** A bounding box in page coordinates, y growing downwards. */
  datatype Rect = Rect(left: int, top: int, right: int, bottom: int)

  /**
   The whole mutable state of a game: the fields of `gameState`, the
   spawn-timing baseline `lastEggSpawn`, and `nextId`, the next fresh
   egg identity.
   */
  datatype Snapshot = Snapshot(
    score: int,
    lives: int,
    level: int,
    basketPosition: real,
    eggs: seq<Egg>,
    gameRunning: bool,
    eggsCaught: int,
    spawnRate: int,
    eggSpeed: int,
    lastEggSpawn: int,
    nextId: nat)

  function Max(a: int, b: int): int
  {
    if a < b then b else a
  }

  /** The state of a freshly started game; egg identities continue from `nextId`. */
  function Initial(nextId: nat): Snapshot
  {
    Snapshot(
      score := 0, lives := StartLives, level := StartLevel,
      basketPosition := StartBasket, eggs := [], gameRunning := true,
      eggsCaught := 0, spawnRate := StartSpawnRate, eggSpeed := StartEggSpeed,
      lastEggSpawn := 0, nextId := nextId)
  }

  /** The points a caught egg is worth. */
  function Points(isGolden: bool): nat
  {
    if isGolden then GoldenPoints else PlainPoints
  }

  /** The sum of the points of `caught`. */
  function TotalPoints(caught: seq<Egg>): nat
  {
    if caught == [] then 0 else Points(caught[0].isGolden) + TotalPoints(caught[1..])
  }

  /** The level-progression test run after each catch. */
  predicate LevelsUpAt(score: int)
  {
    score > 0 && score % PointsPerLevel == 0
  }

  /** The catch test between an egg's box and the basket's box. */
  predicate Overlaps(egg: Rect, basket: Rect)
  {
    && egg.bottom >= basket.top
    && egg.left < basket.right
    && egg.right > basket.left
    && egg.bottom <= basket.bottom + CatchTolerance
  }

  function LevelUp(s: Snapshot): Snapshot
  {
    s.(level := s.level + 1,
       spawnRate := Max(SpawnRateFloor, s.spawnRate - SpawnRateStep),
       eggSpeed := Max(EggSpeedFloor, s.eggSpeed - EggSpeedStep))
  }

  /**
   One call of spawnEgg at clock time `now`; `isGolden` and `left` are the
   two random draws.
   */
  function Spawn(s: Snapshot, now: int, isGolden: bool, left: real): Snapshot
  {
    if !s.gameRunning then s
    else if now - s.lastEggSpawn < s.spawnRate then s
    else
      s.(lastEggSpawn := now,
         eggs := s.eggs + [Egg(s.nextId, isGolden, false, left, s.eggSpeed)],
         nextId := s.nextId + 1)
  }

  /**
   Resolution of a catch of the egg at index `k`: score it, count it,
   splice it out, then run the level-progression test.
   */
  function Catch(s: Snapshot, k: nat): Snapshot
    requires k < |s.eggs|
  {
    var scored := s.(score := s.score + Points(s.eggs[k].isGolden),
                     eggsCaught := s.eggsCaught + 1,
                     eggs := s.eggs[..k] + s.eggs[k + 1..]);
    if LevelsUpAt(scored.score) then LevelUp(scored) else scored
  }

  /** The state after a collision pass, and the eggs it caught in order. */
  datatype Pass = Pass(after: Snapshot, caught: seq<Egg>)

  /**
   The collision pass from index `i` on. The walk goes over the live egg
   list while catches shrink it: after a catch at `i` it moves on to
   `i + 1`, so the egg that slid into position `i` is not examined in
   this pass. `eggRect` gives each egg's box and `basket` the basket's.
   */
  function Sweep(s: Snapshot, i: nat, eggRect: nat -> Rect, basket: Rect): Pass
    decreases |s.eggs| - i
  {
    if i >= |s.eggs| then Pass(s, [])
    else if !s.eggs[i].caught && Overlaps(eggRect(s.eggs[i].id), basket) then
      var rest := Sweep(Catch(s, i), i + 1, eggRect, basket);
      Pass(rest.after, [s.eggs[i]] + rest.caught)
    else
      Sweep(s, i + 1, eggRect, basket)
  }

  /** One call of checkCollisions. */
  function CheckCollisions(s: Snapshot, eggRect: nat -> Rect, basket: Rect): Pass
  {
    if !s.gameRunning then Pass(s, []) else Sweep(s, 0, eggRect, basket)
  }

  /** The egg list with every record of egg `id` filtered out. */
  function WithoutId(eggs: seq<Egg>, id: nat): seq<Egg>
  {
    if eggs == [] then []
    else if eggs[0].id == id then WithoutId(eggs[1..], id)
    else [eggs[0]] + WithoutId(eggs[1..], id)
  }

  /** Egg `id` is still on the page and not caught. */
  predicate Pending(eggs: seq<Egg>, id: nat)
  {
    exists k :: 0 <= k < |eggs| && eggs[k].id == id && !eggs[k].caught
  }

  function GameOver(s: Snapshot): Snapshot
  {
    s.(gameRunning := false)
  }

  /**
   The timer that fires after egg `id` has finished falling. It does not
   look at `gameRunning`.
   */
  function Expire(s: Snapshot, id: nat): Snapshot
  {
    if Pending(s.eggs, id) then
      var missed := s.(eggs := WithoutId(s.eggs, id), lives := s.lives - 1);
      if missed.lives <= 0 then GameOver(missed) else missed
    else s
  }

  function Restart(s: Snapshot): Snapshot
  {
    Initial(s.nextId)
  }

  /**
   The events that drive a game: the frame loop's spawn attempt and
   collision pass, an egg's expiry timer, and the restart button.
   */
  datatype Event =
    | SpawnAttempt(now: int, isGolden: bool, left: real)
    | CollisionPass(eggRect: nat -> Rect, basket: Rect)
    | Timeout(id: nat)
    | RestartPressed

  function Step(s: Snapshot, e: Event): Snapshot
  {
    match e
    case SpawnAttempt(now, isGolden, left) => Spawn(s, now, isGolden, left)
    case CollisionPass(eggRect, basket) => CheckCollisions(s, eggRect, basket).after
    case Timeout(id) => Expire(s, id)
    case RestartPressed => Restart(s)
  }

  /** The state after the events `evs`, in order. */
  function Run(s: Snapshot, evs: seq<Event>): Snapshot
    decreases |evs|
  {
    if evs == [] then s else Run(Step(s, evs[0]), evs[1..])
  }
}

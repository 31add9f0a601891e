/**
 The game's single mutable state object and the operations of js/main.js
 that update it in place. Each method changes the fields step by step as
 the source does and is proved to land on the state that the matching
 rule of EggRules computes from the old state; the invariant of
 EggProperties is kept by every method that the game's events call.
 */
module EggGame {
  import opened EggRules
  import opened EggProperties

  class GameState {
    var score: int
    var lives: int
    var level: int
    var basketPosition: real
    var eggs: seq<Egg>
    var gameRunning: bool
    var eggsCaught: int
    var spawnRate: int
    var eggSpeed: int
    // The spawn-timing baseline, a separate variable beside the state record in the source.
    var lastEggSpawn: int
    // The identity the next spawned egg's element will have.
    var nextId: nat

    /** The fields as one value. */
    function State(): Snapshot
      reads this
    {
      Snapshot(score, lives, level, basketPosition, eggs, gameRunning,
               eggsCaught, spawnRate, eggSpeed, lastEggSpawn, nextId)
    }

    ghost predicate Valid()
      reads this
    {
      Inv(State())
    }

    /** The state the page starts with. */
    constructor ()
      ensures State() == Initial(0)
      ensures score == 0 && lives == 3 && level == 1 && eggs == [] && gameRunning
      ensures Valid()
    {
      score, lives, level := 0, StartLives, StartLevel;
      basketPosition := StartBasket;
      eggs, gameRunning := [], true;
      eggsCaught, spawnRate, eggSpeed := 0, StartSpawnRate, StartEggSpeed;
      lastEggSpawn, nextId := 0, 0;
    }

    method LevelUp()
      modifies this
      ensures level == old(level) + 1
      ensures spawnRate == Max(800, old(spawnRate) - 100)
      ensures eggSpeed == Max(1500, old(eggSpeed) - 200)
      ensures State() == EggRules.LevelUp(old(State()))
    {
      level := level + 1;
      spawnRate := Max(SpawnRateFloor, spawnRate - SpawnRateStep);
      eggSpeed := Max(EggSpeedFloor, eggSpeed - EggSpeedStep);
    }

    /**
     One spawn attempt at clock time `now`, with `isGolden` and `left` the
     random draws. Returns the new egg's identity, which its expiry timer
     holds, or None when the gate held the attempt back.
     */
    method SpawnEgg(now: int, isGolden: bool, left: real) returns (spawned: Option<nat>)
      requires Valid()
      modifies this
      ensures State() == Spawn(old(State()), now, isGolden, left)
      ensures spawned.Some? <==> old(gameRunning) && now - old(lastEggSpawn) >= old(spawnRate)
      ensures spawned.Some? ==> spawned.value == old(nextId) && eggs[|eggs| - 1].id == spawned.value
      ensures Valid()
    {
      spawned := None;
      if !gameRunning {
        return;
      }
      if now - lastEggSpawn < spawnRate {
        return;
      }
      lastEggSpawn := now;
      eggs := eggs + [Egg(nextId, isGolden, false, left, eggSpeed)];
      spawned := Some(nextId);
      nextId := nextId + 1;
      SpawnKeepsInv(old(State()), now, isGolden, left);
    }

    /**
     One collision pass with the boxes the page reports: `eggRect` for each
     egg's element and `basket` for the basket. The walk runs over the live
     list while catches splice it, exactly as the rules' Sweep does.
     */
    method CheckCollisions(eggRect: nat -> Rect, basket: Rect)
      requires Valid()
      modifies this
      ensures State() == EggRules.CheckCollisions(old(State()), eggRect, basket).after
      ensures Valid()
    {
      if !gameRunning {
        return;
      }
      // forEach fixes its range at the start and skips indices that no longer
      // exist; the list only shrinks during the pass, so this bound is the same.
      var i := 0;
      while i < |eggs|
        invariant gameRunning
        invariant Sweep(State(), i, eggRect, basket).after == Sweep(old(State()), 0, eggRect, basket).after
        decreases |eggs| - i
      {
        var egg := eggs[i];
        if !egg.caught && Overlaps(eggRect(egg.id), basket) {
          ghost var before := State();
          // The record's caught flag is set in the source too, but the record
          // is spliced out right after, so the flag is never seen again.
          score := score + Points(egg.isGolden);
          eggsCaught := eggsCaught + 1;
          eggs := eggs[..i] + eggs[i + 1..];
          if LevelsUpAt(score) {
            LevelUp();
          }
          assert State() == Catch(before, i);
        }
        i := i + 1;
      }
      CheckCollisionsKeepsInv(old(State()), eggRect, basket);
    }

    method GameOver()
      modifies this
      ensures !gameRunning
      ensures State() == EggRules.GameOver(old(State()))
    {
      gameRunning := false;
    }

    /**
     The expiry timer of egg `id`. It acts only when the egg is still on
     the list and uncaught, and it does not look at the running flag.
     */
    method Expire(id: nat)
      requires Valid()
      modifies this
      ensures State() == EggRules.Expire(old(State()), id)
      ensures Valid()
    {
      if Pending(eggs, id) {
        eggs := WithoutId(eggs, id);
        // The source tests the caught flag a second time here; it cannot have changed.
        lives := lives - 1;
        if lives <= 0 {
          GameOver();
        }
      }
      ExpireKeepsInv(old(State()), id);
    }

    method Restart()
      modifies this
      ensures score == 0 && lives == 3 && level == 1 && eggsCaught == 0
      ensures spawnRate == 1500 && eggSpeed == 3000 && eggs == [] && gameRunning
      ensures basketPosition == 360.0 && lastEggSpawn == 0 && nextId == old(nextId)
      ensures State() == EggRules.Restart(old(State()))
      ensures Valid()
    {
      score, lives, level := 0, StartLives, StartLevel;
      basketPosition := StartBasket;
      eggs, gameRunning := [], true;
      eggsCaught, spawnRate, eggSpeed := 0, StartSpawnRate, StartEggSpeed;
      lastEggSpawn := 0;
    }
  }
}

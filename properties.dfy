/**
 What the rules of EggRules guarantee: the effect of each operation, the
 invariant every reachable game state keeps, and the behaviours of the
 game loop that are easy to overlook (the skipped egg
 after a catch, the level-up that a golden egg jumps over, lives going
 below zero after the game has ended).
 */
module EggProperties {
  import opened EggRules

  /**
   The egg list holds uncaught eggs with identities already handed out,
   in spawn order (identities strictly increase along the list).
   */
  predicate EggsWellFormed(eggs: seq<Egg>, nextId: nat)
  {
    && (forall k :: 0 <= k < |eggs| ==> eggs[k].id < nextId && !eggs[k].caught)
    && (forall j, k :: 0 <= j < k < |eggs| ==> eggs[j].id < eggs[k].id)
  }

  /**
   The invariant of every state reachable from a started game. The
   difficulty parameters are a function of the level; the level has been
   raised at most once per multiple of 20 reached; the score lies between
   one and five points per caught egg; a stopped game has no lives left.
   */
  ghost predicate Inv(s: Snapshot)
  {
    && s.level >= 1
    && s.lives <= 3
    && 0 <= s.eggsCaught <= s.score <= 5 * s.eggsCaught
    && s.spawnRate == Max(800, 1500 - 100 * (s.level - 1))
    && s.eggSpeed == Max(1500, 3000 - 200 * (s.level - 1))
    && s.level - 1 <= s.score / 20
    && (!s.gameRunning ==> s.lives <= 0)
    && EggsWellFormed(s.eggs, s.nextId)
  }

  /** `n` level-ups in a row. */
  function LevelUps(s: Snapshot, n: nat): Snapshot
  {
    if n == 0 then s else LevelUp(LevelUps(s, n - 1))
  }

  predicate NoRestart(evs: seq<Event>)
  {
    forall k :: 0 <= k < |evs| ==> !evs[k].RestartPressed?
  }

  function Shift(r: Rect, dx: int, dy: int): Rect
  {
    Rect(r.left + dx, r.top + dy, r.right + dx, r.bottom + dy)
  }

  // ---------------------------------------------------------------------
  // The catch test

  /** The catch test depends only on where the egg is relative to the basket. */
  lemma OverlapsIsRelative(egg: Rect, basket: Rect, dx: int, dy: int)
    ensures Overlaps(Shift(egg, dx, dy), Shift(basket, dx, dy)) <==> Overlaps(egg, basket)
  {
  }

  /**
   The catch zone: an egg whose box reaches strictly into the basket's
   horizontal span is caught exactly when its bottom edge lies from the
   basket's top edge down to 20 units below the basket's bottom edge; an
   egg beside the basket, however low, is never caught.
   */
  lemma CatchZone(egg: Rect, basket: Rect)
    ensures egg.left < basket.right && egg.right > basket.left ==>
      (Overlaps(egg, basket) <==> basket.top <= egg.bottom <= basket.bottom + 20)
    ensures egg.right <= basket.left || egg.left >= basket.right ==> !Overlaps(egg, basket)
    ensures Overlaps(Shift(egg, 0, basket.bottom + 20 - egg.bottom), basket) <==>
      egg.left < basket.right && egg.right > basket.left && basket.top <= basket.bottom + 20
    ensures !Overlaps(Shift(egg, 0, basket.bottom + 21 - egg.bottom), basket)
  {
  }

  // ---------------------------------------------------------------------
  // Level progression

  /** One level-up: one level more, each difficulty parameter one step lower down to its floor. */
  lemma LevelUpEffect(s: Snapshot)
    ensures LevelUp(s).level == s.level + 1
    ensures LevelUp(s).spawnRate >= 800 && LevelUp(s).eggSpeed >= 1500
    ensures s.spawnRate >= 900 ==> LevelUp(s).spawnRate == s.spawnRate - 100
    ensures s.spawnRate < 900 ==> LevelUp(s).spawnRate == 800
    ensures s.eggSpeed >= 1700 ==> LevelUp(s).eggSpeed == s.eggSpeed - 200
    ensures s.eggSpeed < 1700 ==> LevelUp(s).eggSpeed == 1500
    ensures LevelUp(s).(level := s.level, spawnRate := s.spawnRate, eggSpeed := s.eggSpeed) == s
  {
  }

  /** After `n` level-ups each parameter has dropped by `n` steps, clipped at its floor. */
  lemma {:induction false} LevelUpsClosedForm(s: Snapshot, n: nat)
    requires s.spawnRate >= 800 && s.eggSpeed >= 1500
    ensures LevelUps(s, n).level == s.level + n
    ensures LevelUps(s, n).spawnRate == Max(800, s.spawnRate - 100 * n)
    ensures LevelUps(s, n).eggSpeed == Max(1500, s.eggSpeed - 200 * n)
    ensures LevelUps(s, n).(level := s.level, spawnRate := s.spawnRate, eggSpeed := s.eggSpeed) == s
  {
    if n > 0 {
      LevelUpsClosedForm(s, n - 1);
    }
  }

  /**
   From the starting values the difficulty parameters never rise and never
   fall below their floors; the spawn interval reaches its floor at the
   seventh level-up and the fall duration at the eighth.
   */
  lemma RampFromStart(nextId: nat, m: nat, n: nat)
    requires m <= n
    ensures 800 <= LevelUps(Initial(nextId), n).spawnRate <= LevelUps(Initial(nextId), m).spawnRate <= 1500
    ensures 1500 <= LevelUps(Initial(nextId), n).eggSpeed <= LevelUps(Initial(nextId), m).eggSpeed <= 3000
    ensures LevelUps(Initial(nextId), n).spawnRate == 800 <==> n >= 7
    ensures LevelUps(Initial(nextId), n).eggSpeed == 1500 <==> n >= 8
  {
    LevelUpsClosedForm(Initial(nextId), m);
    LevelUpsClosedForm(Initial(nextId), n);
  }

  // ---------------------------------------------------------------------
  // Catching

  /**
   A catch scores 5 for a golden egg and 1 otherwise, counts one egg,
   splices exactly that egg out, and levels up exactly when the new score
   is a positive multiple of 20.
   */
  lemma CatchEffect(s: Snapshot, k: nat)
    requires k < |s.eggs|
    ensures Catch(s, k).score == s.score + (if s.eggs[k].isGolden then 5 else 1)
    ensures Catch(s, k).eggsCaught == s.eggsCaught + 1
    ensures Catch(s, k).eggs == s.eggs[..k] + s.eggs[k + 1..]
    ensures LevelsUpAt(Catch(s, k).score) ==>
      Catch(s, k).level == s.level + 1
      && Catch(s, k).spawnRate == Max(800, s.spawnRate - 100)
      && Catch(s, k).eggSpeed == Max(1500, s.eggSpeed - 200)
    ensures !LevelsUpAt(Catch(s, k).score) ==>
      Catch(s, k).level == s.level
      && Catch(s, k).spawnRate == s.spawnRate
      && Catch(s, k).eggSpeed == s.eggSpeed
    ensures Catch(s, k).lives == s.lives && Catch(s, k).gameRunning == s.gameRunning
    ensures Catch(s, k).lastEggSpawn == s.lastEggSpawn && Catch(s, k).nextId == s.nextId
  {
  }

  /** The catch that takes the score from 19 to 20 raises level 1 to 2 and speeds the game up by one step. */
  lemma NineteenToTwenty(e: Egg)
    requires !e.isGolden
    ensures var s := Initial(e.id + 1).(score := 19, eggsCaught := 19, eggs := [e]);
      Catch(s, 0).score == 20 && Catch(s, 0).level == 2
      && Catch(s, 0).spawnRate == 1400 && Catch(s, 0).eggSpeed == 2800
  {
  }

  /** A golden egg caught at score 18 lands on 23: the multiple 20 is passed over and the level stays. */
  lemma GoldenJumpsOverLevelUp(e: Egg)
    requires e.isGolden
    ensures var s := Initial(e.id + 1).(score := 18, eggsCaught := 14, eggs := [e]);
      Catch(s, 0).score == 23 && Catch(s, 0).level == 1
      && Catch(s, 0).spawnRate == 1500 && Catch(s, 0).eggSpeed == 3000
  {
  }

  lemma RemoveAtKeepsWellFormed(eggs: seq<Egg>, nextId: nat, k: nat)
    requires EggsWellFormed(eggs, nextId) && k < |eggs|
    ensures EggsWellFormed(eggs[..k] + eggs[k + 1..], nextId)
  {
  }

  lemma CatchKeepsInv(s: Snapshot, k: nat)
    requires Inv(s) && k < |s.eggs|
    ensures Inv(Catch(s, k))
  {
  }

  // ---------------------------------------------------------------------
  // The collision pass

  /**
   What a collision pass from `s` to `p.after` accounts for: the score grows
   by the points of exactly the eggs it caught, the catch counter by their
   number, the eggs it caught are the ones missing from the list
   afterwards, and lives, the running flag and the spawn state are
   untouched. The level never drops and the difficulty parameters never
   rise above where they were or fall below their floors.
   */
  ghost predicate Accounts(s: Snapshot, p: Pass)
  {
    && p.after.score == s.score + TotalPoints(p.caught)
    && p.after.eggsCaught == s.eggsCaught + |p.caught|
    && multiset(s.eggs) == multiset(p.after.eggs) + multiset(p.caught)
    && p.after.lives == s.lives
    && p.after.gameRunning == s.gameRunning
    && p.after.lastEggSpawn == s.lastEggSpawn
    && p.after.nextId == s.nextId
    && p.after.basketPosition == s.basketPosition
    && p.after.level >= s.level
    && (s.spawnRate >= 800 ==> 800 <= p.after.spawnRate <= s.spawnRate)
    && (s.eggSpeed >= 1500 ==> 1500 <= p.after.eggSpeed <= s.eggSpeed)
  }

  /** A catch at `i` followed by a pass that accounts for itself is a pass that accounts for both. */
  lemma CatchThenAccounts(s: Snapshot, i: nat, rest: Pass)
    requires i < |s.eggs| && Accounts(Catch(s, i), rest)
    ensures Accounts(s, Pass(rest.after, [s.eggs[i]] + rest.caught))
  {
    var caught := [s.eggs[i]] + rest.caught;
    assert caught[1..] == rest.caught;
    assert TotalPoints(caught) == Points(s.eggs[i].isGolden) + TotalPoints(rest.caught);
    assert s.eggs == s.eggs[..i] + [s.eggs[i]] + s.eggs[i + 1..];
    assert multiset(s.eggs) == multiset(Catch(s, i).eggs) + multiset{s.eggs[i]};
  }

  lemma {:induction false} SweepAccounting(s: Snapshot, i: nat, eggRect: nat -> Rect, basket: Rect)
    ensures Accounts(s, Sweep(s, i, eggRect, basket))
    decreases |s.eggs| - i
  {
    if i < |s.eggs| {
      if !s.eggs[i].caught && Overlaps(eggRect(s.eggs[i].id), basket) {
        SweepAccounting(Catch(s, i), i + 1, eggRect, basket);
        CatchThenAccounts(s, i, Sweep(Catch(s, i), i + 1, eggRect, basket));
      } else {
        SweepAccounting(s, i + 1, eggRect, basket);
      }
    }
  }

  lemma {:induction false} SweepKeepsInv(s: Snapshot, i: nat, eggRect: nat -> Rect, basket: Rect)
    requires Inv(s)
    ensures Inv(Sweep(s, i, eggRect, basket).after)
    decreases |s.eggs| - i
  {
    if i < |s.eggs| {
      if !s.eggs[i].caught && Overlaps(eggRect(s.eggs[i].id), basket) {
        CatchKeepsInv(s, i);
        SweepKeepsInv(Catch(s, i), i + 1, eggRect, basket);
      } else {
        SweepKeepsInv(s, i + 1, eggRect, basket);
      }
    }
  }

  /** A pass from index `i` never touches the eggs before `i`. */
  lemma {:induction false} SweepKeepsPrefix(s: Snapshot, i: nat, eggRect: nat -> Rect, basket: Rect)
    requires i <= |s.eggs|
    ensures i <= |Sweep(s, i, eggRect, basket).after.eggs|
    ensures Sweep(s, i, eggRect, basket).after.eggs[..i] == s.eggs[..i]
    decreases |s.eggs| - i
  {
    if i < |s.eggs| {
      if !s.eggs[i].caught && Overlaps(eggRect(s.eggs[i].id), basket) {
        var c := Catch(s, i);
        if i + 1 <= |c.eggs| {
          SweepKeepsPrefix(c, i + 1, eggRect, basket);
          assert c.eggs[..i + 1][..i] == s.eggs[..i];
        }
      } else {
        SweepKeepsPrefix(s, i + 1, eggRect, basket);
        assert s.eggs[..i + 1][..i] == s.eggs[..i];
      }
    }
  }

  /**
   The egg right after a caught one is not examined in the same pass:
   when the eggs at `i` and `i + 1` both touch the basket, only the first
   is caught, and the second is left on the list in its place.
   */
  lemma SweepSkipsSuccessor(s: Snapshot, i: nat, eggRect: nat -> Rect, basket: Rect)
    requires i + 1 < |s.eggs|
    requires !s.eggs[i].caught && Overlaps(eggRect(s.eggs[i].id), basket)
    requires !s.eggs[i + 1].caught && Overlaps(eggRect(s.eggs[i + 1].id), basket)
    ensures Sweep(s, i, eggRect, basket).caught[0] == s.eggs[i]
    ensures i < |Sweep(s, i, eggRect, basket).after.eggs|
    ensures Sweep(s, i, eggRect, basket).after.eggs[i] == s.eggs[i + 1]
  {
    var c := Catch(s, i);
    assert c.eggs[i] == s.eggs[i + 1];
    SweepKeepsPrefix(c, i + 1, eggRect, basket);
    assert Sweep(c, i + 1, eggRect, basket).after.eggs[..i + 1][i] == c.eggs[..i + 1][i];
  }

  /** Every egg a pass catches was uncaught and touched the basket. */
  lemma {:induction false} SweepCatchesOnlyTouching(s: Snapshot, i: nat, eggRect: nat -> Rect, basket: Rect)
    ensures forall e :: e in Sweep(s, i, eggRect, basket).caught ==> !e.caught && Overlaps(eggRect(e.id), basket)
    decreases |s.eggs| - i
  {
    if i < |s.eggs| {
      if Hit(s, i, eggRect, basket) {
        SweepCatchesOnlyTouching(Catch(s, i), i + 1, eggRect, basket);
      } else {
        SweepCatchesOnlyTouching(s, i + 1, eggRect, basket);
      }
    }
  }

  /** The egg at index `j` is uncaught and touches the basket. */
  predicate Hit(s: Snapshot, j: nat, eggRect: nat -> Rect, basket: Rect)
    requires j < |s.eggs|
  {
    !s.eggs[j].caught && Overlaps(eggRect(s.eggs[j].id), basket)
  }

  /** A pass from index `i` only catches eggs from index `i` on. */
  lemma {:induction false} SweepCaughtFromSuffix(s: Snapshot, i: nat, eggRect: nat -> Rect, basket: Rect)
    requires i <= |s.eggs|
    ensures forall e :: e in Sweep(s, i, eggRect, basket).caught ==> e in s.eggs[i..]
    decreases |s.eggs| - i
  {
    if i < |s.eggs| {
      if Hit(s, i, eggRect, basket) {
        CatchEffect(s, i);
        var ce := Catch(s, i).eggs;
        if i + 1 <= |ce| {
          SweepCaughtFromSuffix(Catch(s, i), i + 1, eggRect, basket);
          assert ce[i + 1..] == s.eggs[i + 2..];
        }
      } else {
        SweepCaughtFromSuffix(s, i + 1, eggRect, basket);
      }
    }
  }

  /** On a well-formed list, an egg before index `i` is not caught by a pass from `i`. */
  lemma NotCaughtBefore(s: Snapshot, a: nat, i: nat, eggRect: nat -> Rect, basket: Rect)
    requires EggsWellFormed(s.eggs, s.nextId) && a < i <= |s.eggs|
    ensures s.eggs[a] !in Sweep(s, i, eggRect, basket).caught
  {
    SweepCaughtFromSuffix(s, i, eggRect, basket);
    forall m | 0 <= m < |s.eggs[i..]|
      ensures s.eggs[i..][m] != s.eggs[a]
    {
      assert s.eggs[i..][m] == s.eggs[i + m];
    }
  }

  /**
   Which eggs one pass catches, by index in the list the pass started
   with: the egg at `j` is caught exactly when it is uncaught and touches
   the basket and, unless it is the first one examined, the egg before it
   was not caught (a catch makes the walk step over the next egg).
   */
  lemma {:induction false} SweepCatchesExactly(s: Snapshot, i: nat, j: nat, eggRect: nat -> Rect, basket: Rect)
    requires EggsWellFormed(s.eggs, s.nextId) && i <= j < |s.eggs|
    ensures s.eggs[j] in Sweep(s, i, eggRect, basket).caught <==>
      Hit(s, j, eggRect, basket) && (j == i || s.eggs[j - 1] !in Sweep(s, i, eggRect, basket).caught)
    decreases |s.eggs| - i, 1
  {
    if Hit(s, i, eggRect, basket) {
      CatchesExactlyAfterHit(s, i, j, eggRect, basket);
    } else {
      CatchesExactlyAfterMiss(s, i, j, eggRect, basket);
    }
  }

  /** SweepCatchesExactly when the first egg examined is caught. */
  lemma {:induction false} CatchesExactlyAfterHit(s: Snapshot, i: nat, j: nat, eggRect: nat -> Rect, basket: Rect)
    requires EggsWellFormed(s.eggs, s.nextId) && i <= j < |s.eggs| && Hit(s, i, eggRect, basket)
    ensures s.eggs[j] in Sweep(s, i, eggRect, basket).caught <==>
      Hit(s, j, eggRect, basket) && (j == i || s.eggs[j - 1] !in Sweep(s, i, eggRect, basket).caught)
    decreases |s.eggs| - i, 0
  {
    SweepAfterHit(s, i, eggRect, basket);
    var c := Catch(s, i);
    var caught := Sweep(s, i, eggRect, basket).caught;
    var rest := Sweep(c, i + 1, eggRect, basket).caught;
    if j == i + 1 {
      assert s.eggs[j - 1] in caught;
    } else if j > i + 1 {
      SweepCatchesExactly(c, i + 1, j - 1, eggRect, basket);
      assert c.eggs[j - 1] == s.eggs[j];
      assert Hit(c, j - 1, eggRect, basket) == Hit(s, j, eggRect, basket);
      CaughtAfterHitShifts(s.eggs, c.eggs, caught, rest, i, j, Hit(s, j, eggRect, basket));
    }
  }

  /**
   The index shift of CatchesExactlyAfterHit on plain sequences: what the
   rest of the pass catches at index j - 1 of the spliced list is what
   the whole pass catches at index j of the original one.
   */
  lemma CaughtAfterHitShifts(eggs: seq<Egg>, spliced: seq<Egg>, caught: seq<Egg>, rest: seq<Egg>,
                             i: nat, j: nat, hit: bool)
    requires i + 1 < j < |eggs| && spliced == eggs[..i] + eggs[i + 1..]
    requires caught == [eggs[i]] + rest
    requires forall m :: i < m < |eggs| ==> eggs[m] != eggs[i]
    requires eggs[i + 1] !in caught
    requires spliced[j - 1] in rest <==> hit && (j - 1 == i + 1 || spliced[j - 2] !in rest)
    ensures eggs[j] in caught <==> hit && eggs[j - 1] !in caught
  {
    assert spliced[j - 1] == eggs[j] && spliced[j - 2] == eggs[j - 1];
  }

  /** SweepCatchesExactly when the first egg examined is not caught. */
  lemma {:induction false} CatchesExactlyAfterMiss(s: Snapshot, i: nat, j: nat, eggRect: nat -> Rect, basket: Rect)
    requires EggsWellFormed(s.eggs, s.nextId) && i <= j < |s.eggs| && !Hit(s, i, eggRect, basket)
    ensures s.eggs[j] in Sweep(s, i, eggRect, basket).caught <==>
      Hit(s, j, eggRect, basket) && (j == i || s.eggs[j - 1] !in Sweep(s, i, eggRect, basket).caught)
    decreases |s.eggs| - i, 0
  {
    assert Sweep(s, i, eggRect, basket) == Sweep(s, i + 1, eggRect, basket);
    NotCaughtBefore(s, i, i + 1, eggRect, basket);
    if j > i {
      SweepCatchesExactly(s, i + 1, j, eggRect, basket);
    }
  }

  /** The facts about one catch that the pass characterisation steps over. */
  lemma SweepAfterHit(s: Snapshot, i: nat, eggRect: nat -> Rect, basket: Rect)
    requires EggsWellFormed(s.eggs, s.nextId) && i < |s.eggs| && Hit(s, i, eggRect, basket)
    ensures Catch(s, i).eggs == s.eggs[..i] + s.eggs[i + 1..]
    ensures EggsWellFormed(Catch(s, i).eggs, Catch(s, i).nextId)
    ensures Sweep(s, i, eggRect, basket).caught == [s.eggs[i]] + Sweep(Catch(s, i), i + 1, eggRect, basket).caught
    ensures forall m :: i < m < |s.eggs| ==> s.eggs[m] != s.eggs[i]
    ensures i + 1 < |s.eggs| ==> s.eggs[i + 1] !in Sweep(s, i, eggRect, basket).caught
  {
    CatchEffect(s, i);
    var c := Catch(s, i);
    RemoveAtKeepsWellFormed(s.eggs, s.nextId, i);
    if i + 1 < |s.eggs| {
      assert c.eggs[i] == s.eggs[i + 1];
      NotCaughtBefore(c, i, i + 1, eggRect, basket);
    }
  }

  lemma CheckCollisionsKeepsInv(s: Snapshot, eggRect: nat -> Rect, basket: Rect)
    requires Inv(s)
    ensures Inv(CheckCollisions(s, eggRect, basket).after)
  {
    if s.gameRunning {
      SweepKeepsInv(s, 0, eggRect, basket);
    }
  }

  // ---------------------------------------------------------------------
  // Spawning

  /**
   The spawn gate: a stopped game or an attempt sooner than the spawn
   interval after the last spawn changes nothing; otherwise the baseline
   moves to `now` and exactly one new, uncaught egg with a fresh identity
   and the current fall duration is appended behind the unchanged others.
   */
  lemma SpawnGate(s: Snapshot, now: int, isGolden: bool, left: real)
    requires Inv(s)
    ensures !s.gameRunning || now - s.lastEggSpawn < s.spawnRate ==> Spawn(s, now, isGolden, left) == s
    ensures s.gameRunning && now - s.lastEggSpawn >= s.spawnRate ==>
      var r := Spawn(s, now, isGolden, left);
      && r.lastEggSpawn == now
      && |r.eggs| == |s.eggs| + 1
      && r.eggs[..|s.eggs|] == s.eggs
      && r.eggs[|s.eggs|].isGolden == isGolden
      && !r.eggs[|s.eggs|].caught
      && r.eggs[|s.eggs|].fallMs == s.eggSpeed
      && (forall k :: 0 <= k < |s.eggs| ==> s.eggs[k].id != r.eggs[|s.eggs|].id)
      && r.(lastEggSpawn := s.lastEggSpawn, eggs := s.eggs, nextId := s.nextId) == s
  {
  }

  lemma SpawnKeepsInv(s: Snapshot, now: int, isGolden: bool, left: real)
    requires Inv(s)
    ensures Inv(Spawn(s, now, isGolden, left))
  {
  }

  /** A stopped game ignores the frame loop: spawning and collision passes change nothing. */
  lemma StoppedGameIsFrozen(s: Snapshot, now: int, isGolden: bool, left: real, eggRect: nat -> Rect, basket: Rect)
    requires !s.gameRunning
    ensures Spawn(s, now, isGolden, left) == s
    ensures CheckCollisions(s, eggRect, basket) == Pass(s, [])
  {
  }

  // ---------------------------------------------------------------------
  // Expiry

  lemma {:induction false} WithoutIdAbsent(eggs: seq<Egg>, id: nat)
    requires forall k :: 0 <= k < |eggs| ==> eggs[k].id != id
    ensures WithoutId(eggs, id) == eggs
  {
    if eggs != [] {
      WithoutIdAbsent(eggs[1..], id);
    }
  }

  /** Filtering out egg `id` leaves no record of it. */
  lemma {:induction false} WithoutIdRemovesAll(eggs: seq<Egg>, id: nat)
    ensures forall k :: 0 <= k < |WithoutId(eggs, id)| ==> WithoutId(eggs, id)[k].id != id
  {
    if eggs != [] {
      WithoutIdRemovesAll(eggs[1..], id);
    }
  }

  /** On a list with distinct identities, filtering out egg `id` is a splice at its index. */
  lemma {:induction false} WithoutIdRemovesAt(eggs: seq<Egg>, nextId: nat, k: nat)
    requires EggsWellFormed(eggs, nextId) && k < |eggs|
    ensures WithoutId(eggs, eggs[k].id) == eggs[..k] + eggs[k + 1..]
  {
    if k == 0 {
      WithoutIdAbsent(eggs[1..], eggs[0].id);
    } else {
      assert eggs[0].id < eggs[k].id && eggs[1..][k - 1] == eggs[k];
      WithoutIdRemovesAt(eggs[1..], nextId, k - 1);
      assert WithoutId(eggs, eggs[k].id) == [eggs[0]] + WithoutId(eggs[1..], eggs[k].id);
      assert eggs[1..][..k - 1] == eggs[1..k];
      assert eggs[1..][k..] == eggs[k + 1..];
      assert eggs == [eggs[0]] + eggs[1..];
    }
  }

  /**
   Expiry of an egg still on the list: it is removed with the order of
   the others kept, one life is lost, and the game is stopped exactly when
   no lives are left; nothing else changes.
   */
  lemma ExpireEffect(s: Snapshot, k: nat)
    requires Inv(s) && k < |s.eggs|
    ensures Expire(s, s.eggs[k].id).eggs == s.eggs[..k] + s.eggs[k + 1..]
    ensures Expire(s, s.eggs[k].id).lives == s.lives - 1
    ensures Expire(s, s.eggs[k].id).gameRunning == (s.lives - 1 > 0)
    ensures Expire(s, s.eggs[k].id).(eggs := s.eggs, lives := s.lives, gameRunning := s.gameRunning) == s
  {
    WithoutIdRemovesAt(s.eggs, s.nextId, k);
  }

  /** Expiry of an egg that was caught or is already gone changes nothing. */
  lemma ExpireResolvedIsNoop(s: Snapshot, id: nat)
    requires !Pending(s.eggs, id)
    ensures Expire(s, id) == s
  {
  }

  /** A second expiry of the same egg changes nothing. */
  lemma ExpireIdempotent(s: Snapshot, id: nat)
    ensures Expire(Expire(s, id), id) == Expire(s, id)
  {
    if Pending(s.eggs, id) {
      WithoutIdRemovesAll(s.eggs, id);
    }
  }

  lemma ExpireKeepsInv(s: Snapshot, id: nat)
    requires Inv(s)
    ensures Inv(Expire(s, id))
  {
    if Pending(s.eggs, id) {
      var k :| 0 <= k < |s.eggs| && s.eggs[k].id == id && !s.eggs[k].caught;
      WithoutIdRemovesAt(s.eggs, s.nextId, k);
      RemoveAtKeepsWellFormed(s.eggs, s.nextId, k);
    }
  }

  /** Egg `id` has been handed out and is no longer on the list. */
  predicate Gone(s: Snapshot, id: nat)
  {
    id < s.nextId && forall k :: 0 <= k < |s.eggs| ==> s.eggs[k].id != id
  }

  lemma {:induction false} WithoutIdSubset(eggs: seq<Egg>, id: nat)
    ensures multiset(WithoutId(eggs, id)) <= multiset(eggs)
  {
    if eggs != [] {
      WithoutIdSubset(eggs[1..], id);
      assert eggs == [eggs[0]] + eggs[1..];
    }
  }

  /** Once gone, an egg never comes back: every event keeps it gone. */
  lemma StepKeepsGone(s: Snapshot, e: Event, id: nat)
    requires Gone(s, id)
    ensures Gone(Step(s, e), id)
  {
    match e
    case SpawnAttempt(now, isGolden, left) =>
    case CollisionPass(eggRect, basket) =>
      if s.gameRunning {
        SweepAccounting(s, 0, eggRect, basket);
        var r := Sweep(s, 0, eggRect, basket).after;
        forall k | 0 <= k < |r.eggs| ensures r.eggs[k].id != id {
          assert r.eggs[k] in multiset(s.eggs);
        }
      }
    case Timeout(x) =>
      if Pending(s.eggs, x) {
        WithoutIdSubset(s.eggs, x);
        var w := WithoutId(s.eggs, x);
        forall k | 0 <= k < |w| ensures w[k].id != id {
          assert w[k] in multiset(s.eggs);
        }
      }
    case RestartPressed =>
  }

  lemma {:induction false} RunKeepsGone(s: Snapshot, evs: seq<Event>, id: nat)
    requires Gone(s, id)
    ensures Gone(Run(s, evs), id)
    decreases |evs|
  {
    if evs != [] {
      StepKeepsGone(s, evs[0], id);
      RunKeepsGone(Step(s, evs[0]), evs[1..], id);
    }
  }

  /** A gone egg's timer does nothing and no collision pass can catch it. */
  lemma GoneIsResolved(s: Snapshot, id: nat, eggRect: nat -> Rect, basket: Rect)
    requires Gone(s, id)
    ensures Expire(s, id) == s
    ensures forall e :: e in CheckCollisions(s, eggRect, basket).caught ==> e.id != id
  {
    if s.gameRunning {
      SweepAccounting(s, 0, eggRect, basket);
      var p := Sweep(s, 0, eggRect, basket);
      forall e | e in p.caught ensures e.id != id {
        assert e in multiset(s.eggs);
      }
    }
  }

  /** On a list of distinct identities each egg occurs at most once. */
  lemma {:induction false} OccursAtMostOnce(eggs: seq<Egg>, nextId: nat, e: Egg)
    requires EggsWellFormed(eggs, nextId)
    ensures multiset(eggs)[e] <= 1
    decreases |eggs|
  {
    if eggs != [] {
      assert eggs == [eggs[0]] + eggs[1..];
      OccursAtMostOnce(eggs[1..], nextId, e);
      if e == eggs[0] {
        forall m | 0 <= m < |eggs[1..]| ensures eggs[1..][m] != e {
          assert eggs[1..][m] == eggs[m + 1];
        }
      }
    }
  }

  /** On a list of distinct identities two different eggs have different identities. */
  lemma DistinctEggsDistinctIds(eggs: seq<Egg>, nextId: nat, x: Egg, y: Egg)
    requires EggsWellFormed(eggs, nextId) && x in eggs && y in eggs && x != y
    ensures x.id != y.id
  {
    var a :| 0 <= a < |eggs| && eggs[a] == x;
    var b :| 0 <= b < |eggs| && eggs[b] == y;
  }

  /**
   An egg caught in a collision pass is off the list once the pass ends,
   so from then on, whatever events follow, its timer does nothing and no
   later pass catches it again.
   */
  lemma CaughtInPassIsResolved(s: Snapshot, eggRect: nat -> Rect, basket: Rect, evs: seq<Event>, e: Egg,
                               eggRect': nat -> Rect, basket': Rect)
    requires Inv(s) && e in CheckCollisions(s, eggRect, basket).caught
    ensures Expire(Run(CheckCollisions(s, eggRect, basket).after, evs), e.id) ==
      Run(CheckCollisions(s, eggRect, basket).after, evs)
    ensures forall x :: x in CheckCollisions(Run(CheckCollisions(s, eggRect, basket).after, evs), eggRect', basket').caught ==>
      x.id != e.id
  {
    var p := Sweep(s, 0, eggRect, basket);
    SweepAccounting(s, 0, eggRect, basket);
    assert e in multiset(s.eggs);
    OccursAtMostOnce(s.eggs, s.nextId, e);
    assert multiset(p.after.eggs)[e] == 0;
    forall k | 0 <= k < |p.after.eggs| ensures p.after.eggs[k].id != e.id {
      var x := p.after.eggs[k];
      assert x in multiset(s.eggs);
      DistinctEggsDistinctIds(s.eggs, s.nextId, x, e);
    }
    assert Gone(p.after, e.id);
    RunKeepsGone(p.after, evs, e.id);
    GoneIsResolved(Run(p.after, evs), e.id, eggRect', basket');
  }

  /**
   An egg is resolved at most once. Caught in a pass, its expiry timer
   does nothing whenever it fires, from the moment of the catch or after
   the whole pass and any later events; expired first, no collision pass
   at any later point can catch it.
   */
  lemma ResolvedAtMostOnce(s: Snapshot, k: nat, evs: seq<Event>, eggRect: nat -> Rect, basket: Rect)
    requires Inv(s) && k < |s.eggs|
    ensures Expire(Run(Catch(s, k), evs), s.eggs[k].id) == Run(Catch(s, k), evs)
    ensures s.eggs[k] in CheckCollisions(s, eggRect, basket).caught ==>
      Expire(Run(CheckCollisions(s, eggRect, basket).after, evs), s.eggs[k].id) ==
      Run(CheckCollisions(s, eggRect, basket).after, evs)
    ensures forall e :: e in CheckCollisions(Run(Expire(s, s.eggs[k].id), evs), eggRect, basket).caught ==>
      e.id != s.eggs[k].id
  {
    var id := s.eggs[k].id;
    var c := Catch(s, k);
    assert forall j :: 0 <= j < |c.eggs| ==> c.eggs[j] == s.eggs[if j < k then j else j + 1];
    assert Gone(c, id);
    RunKeepsGone(c, evs, id);
    GoneIsResolved(Run(c, evs), id, eggRect, basket);
    WithoutIdRemovesAll(s.eggs, id);
    assert Gone(Expire(s, id), id);
    RunKeepsGone(Expire(s, id), evs, id);
    GoneIsResolved(Run(Expire(s, id), evs), id, eggRect, basket);
    if s.eggs[k] in CheckCollisions(s, eggRect, basket).caught {
      CaughtInPassIsResolved(s, eggRect, basket, evs, s.eggs[k], eggRect, basket);
    }
  }

  // ---------------------------------------------------------------------
  // Game over and restart

  /** gameOver only stops the game; score and catch count are what the final screen shows. */
  lemma GameOverOnlyStops(s: Snapshot)
    ensures !GameOver(s).gameRunning
    ensures GameOver(s).score == s.score && GameOver(s).eggsCaught == s.eggsCaught
    ensures GameOver(s).(gameRunning := s.gameRunning) == s
  {
  }

  lemma GameOverKeepsInv(s: Snapshot)
    requires Inv(s) && s.lives <= 0
    ensures Inv(GameOver(s))
  {
  }

  /**
   Restart puts back the starting values, empties the egg list and makes
   every expiry timer of the previous game a no-op; egg identities keep
   counting, so no later egg shares an identity with an earlier one.
   */
  lemma RestartValues(s: Snapshot, id: nat)
    ensures var r := Restart(s);
      && r.score == 0 && r.lives == 3 && r.level == 1 && r.eggsCaught == 0
      && r.spawnRate == 1500 && r.eggSpeed == 3000 && r.eggs == [] && r.gameRunning
      && r.basketPosition == 360.0 && r.lastEggSpawn == 0 && r.nextId == s.nextId
    ensures Inv(Restart(s))
    ensures Expire(Restart(s), id) == Restart(s)
  {
  }

  /**
   The timer of an egg spawned before a restart stays a no-op whatever
   happens after the restart, and no collision pass catches that egg:
   the restart clears the list and later eggs get new identities.
   */
  lemma RestartRetiresOldEggs(s: Snapshot, id: nat, evs: seq<Event>, eggRect: nat -> Rect, basket: Rect)
    requires id < s.nextId
    ensures Expire(Run(Restart(s), evs), id) == Run(Restart(s), evs)
    ensures forall e :: e in CheckCollisions(Run(Restart(s), evs), eggRect, basket).caught ==> e.id != id
  {
    RunKeepsGone(Restart(s), evs, id);
    GoneIsResolved(Run(Restart(s), evs), id, eggRect, basket);
  }

  // ---------------------------------------------------------------------
  // Whole games

  lemma StepKeepsInv(s: Snapshot, e: Event)
    requires Inv(s)
    ensures Inv(Step(s, e))
  {
    match e
    case SpawnAttempt(now, isGolden, left) => SpawnKeepsInv(s, now, isGolden, left);
    case CollisionPass(eggRect, basket) => CheckCollisionsKeepsInv(s, eggRect, basket);
    case Timeout(id) => ExpireKeepsInv(s, id);
    case RestartPressed =>
  }

  /** Every state reached from a state satisfying the invariant satisfies it. */
  lemma {:induction false} RunKeepsInv(s: Snapshot, evs: seq<Event>)
    requires Inv(s)
    ensures Inv(Run(s, evs))
    decreases |evs|
  {
    if evs != [] {
      StepKeepsInv(s, evs[0]);
      RunKeepsInv(Step(s, evs[0]), evs[1..]);
    }
  }

  lemma StepMonotone(s: Snapshot, e: Event)
    requires Inv(s) && !e.RestartPressed?
    ensures Step(s, e).score >= s.score && Step(s, e).eggsCaught >= s.eggsCaught
    ensures Step(s, e).level >= s.level
    ensures Step(s, e).spawnRate <= s.spawnRate && Step(s, e).eggSpeed <= s.eggSpeed
    ensures Step(s, e).nextId >= s.nextId
  {
    if e.CollisionPass? && s.gameRunning {
      SweepAccounting(s, 0, e.eggRect, e.basket);
    }
  }

  /**
   Until the next restart the score, the catch count and the level never
   go down and the difficulty parameters never go up.
   */
  lemma {:induction false} RunMonotone(s: Snapshot, evs: seq<Event>)
    requires Inv(s) && NoRestart(evs)
    ensures Run(s, evs).score >= s.score && Run(s, evs).eggsCaught >= s.eggsCaught
    ensures Run(s, evs).level >= s.level
    ensures Run(s, evs).spawnRate <= s.spawnRate && Run(s, evs).eggSpeed <= s.eggSpeed
    ensures Run(s, evs).nextId >= s.nextId
    decreases |evs|
  {
    if evs != [] {
      StepMonotone(s, evs[0]);
      StepKeepsInv(s, evs[0]);
      assert NoRestart(evs[1..]) by {
        assert forall k :: 0 <= k < |evs[1..]| ==> evs[1..][k] == evs[k + 1];
      }
      RunMonotone(Step(s, evs[0]), evs[1..]);
    }
  }

  /**
   Four eggs fall uncaught. The third miss ends the game with the score
   and catch count it had; the frame loop then changes nothing, but the
   fourth egg's timer still fires and takes lives below zero.
   */
  lemma MissesEndGameThenLivesGoNegative(now: int, eggRect: nat -> Rect, basket: Rect)
    ensures var s1 := Spawn(Initial(0), 1500, false, 0.0);
      var s2 := Spawn(s1, 3000, false, 0.0);
      var s3 := Spawn(s2, 4500, true, 0.0);
      var s4 := Spawn(s3, 6000, false, 0.0);
      var over := Expire(Expire(Expire(s4, 0), 1), 2);
      && |s4.eggs| == 4
      && !over.gameRunning && over.lives == 0
      && over.score == 0 && over.eggsCaught == 0
      && Spawn(over, now, false, 0.0) == over
      && CheckCollisions(over, eggRect, basket).after == over
      && Expire(over, 3).lives == -1 && !Expire(over, 3).gameRunning
  {
    var e0, e1 := Egg(0, false, false, 0.0, 3000), Egg(1, false, false, 0.0, 3000);
    var e2, e3 := Egg(2, true, false, 0.0, 3000), Egg(3, false, false, 0.0, 3000);
    var s1 := Spawn(Initial(0), 1500, false, 0.0);
    assert s1 == Initial(0).(eggs := [e0], lastEggSpawn := 1500, nextId := 1);
    var s2 := Spawn(s1, 3000, false, 0.0);
    assert s2 == s1.(eggs := [e0, e1], lastEggSpawn := 3000, nextId := 2);
    var s3 := Spawn(s2, 4500, true, 0.0);
    assert s3 == s2.(eggs := [e0, e1, e2], lastEggSpawn := 4500, nextId := 3);
    var s4 := Spawn(s3, 6000, false, 0.0);
    assert s4 == s3.(eggs := [e0, e1, e2, e3], lastEggSpawn := 6000, nextId := 4);
    HeadExpires(s4);
    var x1 := Expire(s4, 0);
    assert x1 == s4.(eggs := [e1, e2, e3], lives := 2);
    HeadExpires(x1);
    var x2 := Expire(x1, 1);
    assert x2 == x1.(eggs := [e2, e3], lives := 1);
    HeadExpires(x2);
    var over := Expire(x2, 2);
    assert over == x2.(eggs := [e3], lives := 0, gameRunning := false);
    HeadExpires(over);
  }

  /** Expiry of the oldest egg when every later egg is a different one. */
  lemma HeadExpires(s: Snapshot)
    requires s.eggs != [] && !s.eggs[0].caught
    requires forall k :: 1 <= k < |s.eggs| ==> s.eggs[k].id != s.eggs[0].id
    ensures Expire(s, s.eggs[0].id).eggs == s.eggs[1..]
    ensures Expire(s, s.eggs[0].id).lives == s.lives - 1
    ensures Expire(s, s.eggs[0].id).gameRunning == (s.gameRunning && s.lives - 1 > 0)
    ensures Expire(s, s.eggs[0].id).(eggs := s.eggs, lives := s.lives, gameRunning := s.gameRunning) == s
  {
    WithoutIdAbsent(s.eggs[1..], s.eggs[0].id);
  }
}

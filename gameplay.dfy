/**
 * The gameplay session: random fruit creation and the per-tick bookkeeping
 * of the fruit list, the `gameOver` flag and the timers, driven by a finite
 * trace of touch samples and clock readings. Drawing and the screens around
 * the game are not modelled; the fruit's own path and hit test come in as
 * function parameters.
 */
module Gameplay {
  import opened Wrappers
  import PlayHistory

  datatype FruitKind = Lemon | Apple | Watermelon | Tangerine

  /** The four kinds, in the order the spawner's table lists them. */
  const FruitTable: seq<FruitKind> := [Lemon, Apple, Watermelon, Tangerine]

  /** Declared by the game as the delay between spawns, but not consulted by the spawn check. */
  const TimeBetweenFruits: real := 2.0

  /** The delay the spawn check actually compares against. */
  const SpawnDelay: real := 3.0

  /** How long before the start the last spawn is taken to have happened. */
  const InitialSpawnLead: real := 4.0

  /** The ten speeds a fruit can get, 1.0 to 1.9 in steps of 0.1. */
  const SpeedTable: seq<real> := [1.0, 1.1, 1.2, 1.3, 1.4, 1.5, 1.6, 1.7, 1.8, 1.9]

  datatype Vec2 = Vec2(x: real, y: real)

  /** A fruit as the game sees it: what it is, how fast it moves, where it is, and its sprite's anchor and scale. */
  datatype Fruit = Fruit(kind: FruitKind, speed: real, position: Vec2, anchor: Vec2, scale: real)

  /** The four results of the random generator that one fruit consumes, in call order. */
  datatype Draws = Draws(kind: nat, x: nat, y: nat, speed: nat)

  /** The kind picked by one random draw: the table entry at `draw % 4`. */
  function ChooseKind(draw: nat): FruitKind {
    FruitTable[draw % 4]
  }

  /** The speed picked by one random draw: `1 + (draw % 10) / 10`. */
  function ChooseSpeed(draw: nat): (speed: real)
    ensures 1.0 <= speed < 2.0
  {
    1.0 + (draw % 10) as real / 10.0
  }

  /** Makes a fruit from four random draws: kind, unclamped spawn position, speed, centred anchor, scale 2. */
  function MakeRandomFruit(d: Draws): (f: Fruit)
    ensures 1.0 <= f.speed < 2.0
    ensures f.speed == SpeedTable[d.speed % 10]
    ensures f.kind == FruitTable[d.kind % 4]
    ensures f.position == Vec2(d.x as real, d.y as real)
    ensures f.anchor == Vec2(0.5, 0.5) && f.scale == 2.0
  {
    SpeedFromTable(d.speed);
    Fruit(ChooseKind(d.kind), ChooseSpeed(d.speed), Vec2(d.x as real, d.y as real), Vec2(0.5, 0.5), 2.0)
  }

  /** Each draw gives one of the ten table speeds; the draw `j < 10` gives the `j`-th. */
  lemma SpeedFromTable(draw: nat)
    ensures ChooseSpeed(draw) == SpeedTable[draw % 10]
    ensures 1.0 <= ChooseSpeed(draw) <= 1.9
  {
    var j := draw % 10;
    if j == 0 {} else if j == 1 {} else if j == 2 {} else if j == 3 {} else if j == 4 {}
    else if j == 5 {} else if j == 6 {} else if j == 7 {} else if j == 8 {} else {}
  }

  /** Every one of the ten speeds is reached, by the draws 0 to 9. */
  lemma EverySpeedReached()
    ensures forall j :: 0 <= j < 10 ==> ChooseSpeed(j) == SpeedTable[j]
  {
    forall j | 0 <= j < 10 ensures ChooseSpeed(j) == SpeedTable[j] {
      SpeedFromTable(j);
    }
  }

  /** Any four consecutive draws pick each of the four kinds exactly once. */
  lemma KindChoiceCoversTable(draw: nat)
    ensures {ChooseKind(draw), ChooseKind(draw + 1), ChooseKind(draw + 2), ChooseKind(draw + 3)}
      == {Lemon, Apple, Watermelon, Tangerine}
    ensures ChooseKind(draw) != ChooseKind(draw + 1) && ChooseKind(draw) != ChooseKind(draw + 2)
    ensures ChooseKind(draw) != ChooseKind(draw + 3) && ChooseKind(draw + 1) != ChooseKind(draw + 2)
    ensures ChooseKind(draw + 1) != ChooseKind(draw + 3) && ChooseKind(draw + 2) != ChooseKind(draw + 3)
  {
    var j := draw % 4;
    assert (draw + 1) % 4 == (j + 1) % 4;
    assert (draw + 2) % 4 == (j + 2) % 4;
    assert (draw + 3) % 4 == (j + 3) % 4;
  }

  /** The session's state, as the loop's local variables hold it. */
  datatype Session = Session(
    projectiles: seq<Fruit>,
    gameOver: bool,
    playerTime: real,
    lastTime: real,
    lastFruitSpawnTime: real)

  /** The clock readings one tick takes: before stepping, after stepping, at the spawn check, at a spawn. */
  datatype Clock = Clock(atStep: real, afterStep: real, atSpawnCheck: real, atSpawn: real)

  /** One poll of the loop: the touch point if the screen is touched, the clock readings, the random draws. */
  datatype TickInput = TickInput(touch: Option<(int, int)>, clock: Clock, draws: Draws)

  /** The session before the first tick, given the two clock readings taken at entry. */
  function Start(t0: real, t1: real): Session {
    Session([], false, 0.0, t0, t1 - InitialSpawnLead)
  }

  function MousePos(touch: (int, int)): Vec2 {
    Vec2(touch.0 as real, touch.1 as real)
  }

  /** A fruit after its path has been stepped by `dt`: only its position changes. */
  function Moved(f: Fruit, dt: real, stepPath: (Fruit, real) -> Vec2): Fruit {
    f.(position := stepPath(f, dt))
  }

  /** The same fruit, possibly somewhere else. */
  predicate SameFruit(a: Fruit, b: Fruit) {
    a.kind == b.kind && a.speed == b.speed && a.anchor == b.anchor && a.scale == b.scale
  }

  function StepAll(fruits: seq<Fruit>, dt: real, stepPath: (Fruit, real) -> Vec2): (moved: seq<Fruit>)
    ensures |moved| == |fruits|
    ensures forall k :: 0 <= k < |fruits| ==> moved[k] == Moved(fruits[k], dt, stepPath)
  {
    seq(|fruits|, k requires 0 <= k < |fruits| => Moved(fruits[k], dt, stepPath))
  }

  predicate AnyHit(fruits: seq<Fruit>, mouse: Vec2, within: (Fruit, Vec2) -> bool) {
    exists k :: 0 <= k < |fruits| && within(fruits[k], mouse)
  }

  /** One pass of the loop body with the screen touched at `mouse`. */
  function Tick(s: Session, mouse: Vec2, c: Clock, d: Draws,
                stepPath: (Fruit, real) -> Vec2, within: (Fruit, Vec2) -> bool): Session
  {
    var dt := c.atStep - s.lastTime;
    var stepped := StepAll(s.projectiles, dt, stepPath);
    var over := s.gameOver || AnyHit(stepped, mouse, within);
    var spawn := c.atSpawnCheck - s.lastFruitSpawnTime > SpawnDelay;
    Session(
      if spawn then stepped + [MakeRandomFruit(d)] else stepped,
      over,
      s.playerTime + dt,
      c.afterStep,
      if spawn then c.atSpawn else s.lastFruitSpawnTime)
  }

  /** The loop runs a tick while the screen is touched and the game is not over. */
  predicate Continues(s: Session, inputs: seq<TickInput>) {
    inputs != [] && inputs[0].touch.Some? && !s.gameOver
  }

  /** The session after the loop has consumed the trace. */
  function Play(s: Session, inputs: seq<TickInput>,
                stepPath: (Fruit, real) -> Vec2, within: (Fruit, Vec2) -> bool): Session
    decreases |inputs|
  {
    if !Continues(s, inputs) then s
    else
      var inp := inputs[0];
      Play(Tick(s, MousePos(inp.touch.value), inp.clock, inp.draws, stepPath, within), inputs[1..], stepPath, within)
  }

  /** The number of ticks the loop runs on the trace. */
  function TickCount(s: Session, inputs: seq<TickInput>,
                     stepPath: (Fruit, real) -> Vec2, within: (Fruit, Vec2) -> bool): (n: nat)
    ensures n <= |inputs|
    ensures n == 0 <==> !Continues(s, inputs)
    decreases |inputs|
  {
    if !Continues(s, inputs) then 0
    else
      var inp := inputs[0];
      1 + TickCount(Tick(s, MousePos(inp.touch.value), inp.clock, inp.draws, stepPath, within), inputs[1..], stepPath, within)
  }

  /** Steps every fruit along its path and hit-tests it against the touch point. */
  method StepFruits(fruits: seq<Fruit>, dt: real, mouse: Vec2,
                    stepPath: (Fruit, real) -> Vec2, within: (Fruit, Vec2) -> bool)
    returns (stepped: seq<Fruit>, hit: bool)
    ensures stepped == StepAll(fruits, dt, stepPath)
    ensures hit == AnyHit(stepped, mouse, within)
  {
    stepped := [];
    hit := false;
    for k := 0 to |fruits|
      invariant |stepped| == k
      invariant forall j :: 0 <= j < k ==> stepped[j] == Moved(fruits[j], dt, stepPath)
      invariant hit <==> exists j :: 0 <= j < k && within(stepped[j], mouse)
    {
      var f := Moved(fruits[k], dt, stepPath);
      stepped := stepped + [f];
      if within(f, mouse) {
        hit := true;
      }
    }
    assert stepped == StepAll(fruits, dt, stepPath);
  }

  /** Running the loop from `cur` on what is left of the trace after `i` ticks ends as running it from `s0` on all of it. */
  predicate Resumes(cur: Session, inputs: seq<TickInput>, i: nat, s0: Session,
                    stepPath: (Fruit, real) -> Vec2, within: (Fruit, Vec2) -> bool)
    requires i <= |inputs|
  {
    Play(cur, inputs[i..], stepPath, within) == Play(s0, inputs, stepPath, within) &&
    i + TickCount(cur, inputs[i..], stepPath, within) == TickCount(s0, inputs, stepPath, within)
  }

  lemma ResumeStep(cur: Session, next: Session, inputs: seq<TickInput>, i: nat, s0: Session,
                   stepPath: (Fruit, real) -> Vec2, within: (Fruit, Vec2) -> bool)
    requires i < |inputs| && inputs[i].touch.Some? && !cur.gameOver
    requires Resumes(cur, inputs, i, s0, stepPath, within)
    requires next == Tick(cur, MousePos(inputs[i].touch.value), inputs[i].clock, inputs[i].draws, stepPath, within)
    ensures Resumes(next, inputs, i + 1, s0, stepPath, within)
  {
    assert inputs[i..][1..] == inputs[i + 1..];
  }

  /** One pass of the loop body: step and hit-test the fruit, advance the timers, spawn when due. */
  method RunTick(s: Session, mouse: Vec2, c: Clock, d: Draws,
                 stepPath: (Fruit, real) -> Vec2, within: (Fruit, Vec2) -> bool)
    returns (next: Session)
    ensures next == Tick(s, mouse, c, d, stepPath, within)
  {
    var projectiles := s.projectiles;
    var gameOver := s.gameOver;
    var lastFruitSpawnTime := s.lastFruitSpawnTime;
    var dt := c.atStep - s.lastTime;
    var stepped, hit := StepFruits(projectiles, dt, mouse, stepPath, within);
    projectiles := stepped;
    if hit {
      gameOver := true;
    }
    var lastTime := c.afterStep;
    if c.atSpawnCheck - lastFruitSpawnTime > SpawnDelay {
      projectiles := projectiles + [MakeRandomFruit(d)];
      lastFruitSpawnTime := c.atSpawn;
    }
    var playerTime := s.playerTime + dt;
    next := Session(projectiles, gameOver, playerTime, lastTime, lastFruitSpawnTime);
  }

  /**
   * The gameplay loop up to its exit: it runs ticks while the trace reports a
   * touch and no fruit has hit the touch point.
   */
  method GameLoop(t0: real, t1: real, inputs: seq<TickInput>,
                  stepPath: (Fruit, real) -> Vec2, within: (Fruit, Vec2) -> bool)
    returns (s: Session, ticks: nat)
    ensures s == Play(Start(t0, t1), inputs, stepPath, within)
    ensures ticks == TickCount(Start(t0, t1), inputs, stepPath, within)
    ensures ticks <= |inputs|
    ensures ticks == |inputs| || inputs[ticks].touch.None? || s.gameOver
  {
    s := Start(t0, t1);
    var i := 0;
    while i < |inputs| && inputs[i].touch.Some? && !s.gameOver
      invariant 0 <= i <= |inputs|
      invariant Resumes(s, inputs, i, Start(t0, t1), stepPath, within)
    {
      var next := RunTick(s, MousePos(inputs[i].touch.value), inputs[i].clock, inputs[i].draws, stepPath, within);
      ResumeStep(s, next, inputs, i, Start(t0, t1), stepPath, within);
      s := next;
      i := i + 1;
    }
    ticks := i;
  }

  /**
   * The whole session: the loop, then every fruit released together, then
   * the survival time appended to the history.
   */
  method DoGameplayLoop(history: PlayHistory.HistoryFile, t0: real, t1: real, inputs: seq<TickInput>,
                        stepPath: (Fruit, real) -> Vec2, within: (Fruit, Vec2) -> bool)
    returns (released: seq<Fruit>)
    modifies history
    ensures released == Play(Start(t0, t1), inputs, stepPath, within).projectiles
    ensures history.entries ==
      old(history.entries) + [PlayHistory.Value(Play(Start(t0, t1), inputs, stepPath, within).playerTime)]
  {
    var s, ticks := GameLoop(t0, t1, inputs, stepPath, within);
    released := s.projectiles;
    history.WriteTime(s.playerTime);
  }

  /**
   * One tick keeps every fruit (same kind, speed, anchor and scale, at its
   * stepped position) and appends at most one new fruit at the end, exactly
   * when more than `SpawnDelay` has passed since the last spawn.
   */
  lemma TickAppendsAtMostOne(s: Session, mouse: Vec2, c: Clock, d: Draws,
                             stepPath: (Fruit, real) -> Vec2, within: (Fruit, Vec2) -> bool)
    ensures var t := Tick(s, mouse, c, d, stepPath, within);
      var n := |s.projectiles|;
      var spawn := c.atSpawnCheck - s.lastFruitSpawnTime > SpawnDelay;
      |t.projectiles| == (if spawn then n + 1 else n) &&
      (forall k :: 0 <= k < n ==>
        SameFruit(t.projectiles[k], s.projectiles[k]) &&
        t.projectiles[k].position == stepPath(s.projectiles[k], c.atStep - s.lastTime)) &&
      (spawn ==> t.projectiles[n] == MakeRandomFruit(d) && t.lastFruitSpawnTime == c.atSpawn) &&
      (!spawn ==> t.lastFruitSpawnTime == s.lastFruitSpawnTime)
  {
  }

  /**
   * A tick of a running game ends it exactly when one of the fruit present at
   * the start of the tick, once stepped, contains the touch point; a fruit
   * spawned in the same tick is not tested.
   */
  lemma TickGameOver(s: Session, mouse: Vec2, c: Clock, d: Draws,
                     stepPath: (Fruit, real) -> Vec2, within: (Fruit, Vec2) -> bool)
    requires !s.gameOver
    ensures Tick(s, mouse, c, d, stepPath, within).gameOver <==>
      exists k :: 0 <= k < |s.projectiles| && within(Moved(s.projectiles[k], c.atStep - s.lastTime, stepPath), mouse)
  {
    var stepped := StepAll(s.projectiles, c.atStep - s.lastTime, stepPath);
    if Tick(s, mouse, c, d, stepPath, within).gameOver {
      var k :| 0 <= k < |stepped| && within(stepped[k], mouse);
      assert within(Moved(s.projectiles[k], c.atStep - s.lastTime, stepPath), mouse);
    }
  }

  /** Once a tick sets `gameOver`, the loop runs no further tick, whatever the rest of the trace holds. */
  lemma StopsAfterCollision(s: Session, inputs: seq<TickInput>,
                            stepPath: (Fruit, real) -> Vec2, within: (Fruit, Vec2) -> bool)
    requires Continues(s, inputs)
    requires Tick(s, MousePos(inputs[0].touch.value), inputs[0].clock, inputs[0].draws, stepPath, within).gameOver
    ensures Play(s, inputs, stepPath, within) ==
      Tick(s, MousePos(inputs[0].touch.value), inputs[0].clock, inputs[0].draws, stepPath, within)
    ensures TickCount(s, inputs, stepPath, within) == 1
  {
  }

  /**
   * Over a whole game no fruit is removed or replaced: the fruit list only
   * grows, by at most one per tick, and every fruit present at the start is
   * still at its index at the end.
   */
  lemma {:induction false} PlayOnlyGrows(s: Session, inputs: seq<TickInput>,
                                         stepPath: (Fruit, real) -> Vec2, within: (Fruit, Vec2) -> bool)
    ensures var f := Play(s, inputs, stepPath, within);
      |s.projectiles| <= |f.projectiles| <= |s.projectiles| + TickCount(s, inputs, stepPath, within) &&
      forall k :: 0 <= k < |s.projectiles| ==> SameFruit(f.projectiles[k], s.projectiles[k])
    decreases |inputs|
  {
    if Continues(s, inputs) {
      var inp := inputs[0];
      var mouse := MousePos(inp.touch.value);
      var t := Tick(s, mouse, inp.clock, inp.draws, stepPath, within);
      TickAppendsAtMostOne(s, mouse, inp.clock, inp.draws, stepPath, within);
      PlayOnlyGrows(t, inputs[1..], stepPath, within);
    }
  }

  /** Every tick the loop runs consumed a sample in which the screen was touched. */
  lemma {:induction false} TicksAreTouched(s: Session, inputs: seq<TickInput>, j: nat,
                                           stepPath: (Fruit, real) -> Vec2, within: (Fruit, Vec2) -> bool)
    requires j < TickCount(s, inputs, stepPath, within)
    ensures j < |inputs| && inputs[j].touch.Some?
    decreases |inputs|
  {
    assert Continues(s, inputs);
    if j > 0 {
      var inp := inputs[0];
      var t := Tick(s, MousePos(inp.touch.value), inp.clock, inp.draws, stepPath, within);
      assert TickCount(s, inputs, stepPath, within) == 1 + TickCount(t, inputs[1..], stepPath, within);
      TicksAreTouched(t, inputs[1..], j - 1, stepPath, within);
      assert inputs[1..][j - 1] == inputs[j];
    }
  }

  /** The first tick of a game always spawns a fruit (the spawn timer starts 4 before the start), and cannot end the game. */
  lemma FirstTickSpawns(t0: real, t1: real, mouse: Vec2, c: Clock, d: Draws,
                        stepPath: (Fruit, real) -> Vec2, within: (Fruit, Vec2) -> bool)
    requires t1 <= c.atSpawnCheck
    ensures var t := Tick(Start(t0, t1), mouse, c, d, stepPath, within);
      t.projectiles == [MakeRandomFruit(d)] && !t.gameOver
  {
    assert StepAll([], c.atStep - t0, stepPath) == [];
  }

  /** The clock readings of a trace never go backwards, starting from `last`. */
  predicate MonotoneClock(last: real, inputs: seq<TickInput>)
    decreases |inputs|
  {
    inputs == [] ||
    (var c := inputs[0].clock;
     last <= c.atStep <= c.afterStep <= c.atSpawnCheck <= c.atSpawn &&
     MonotoneClock(c.atSpawn, inputs[1..]))
  }

  /** With a clock that never goes backwards, the survival time never decreases. */
  lemma {:induction false} PlayerTimeNeverDecreases(s: Session, last: real, inputs: seq<TickInput>,
                                                    stepPath: (Fruit, real) -> Vec2, within: (Fruit, Vec2) -> bool)
    requires s.lastTime <= last && MonotoneClock(last, inputs)
    ensures s.playerTime <= Play(s, inputs, stepPath, within).playerTime
    decreases |inputs|
  {
    if Continues(s, inputs) {
      var inp := inputs[0];
      var t := Tick(s, MousePos(inp.touch.value), inp.clock, inp.draws, stepPath, within);
      PlayerTimeNeverDecreases(t, inp.clock.atSpawn, inputs[1..], stepPath, within);
    }
  }
}

/** The environment wrapper around the game engine: the engine's state as
    the wrapper reads it, the integer observation it encodes, and the
    per-episode bookkeeping of `step`, `reset` and `set_seed`. */
module Env {
  import opened Wrappers
  import Tables
  import opened Layout
  import opened Rewards

  /** An episode is over once this many steps have been taken. */
  const MaxSteps: int := 250

  /** The engine state the wrapper reads: the level, the player's hit points
      and gold, the depth, and the answer of `player.is_dead()`. */
  datatype World = World(grid: Grid, hp: int, gold: int, depth: int, dead: bool)

  /** The numeric entries of the `info` dictionary. */
  datatype Info = Info(enemies: nat, potions: nat, gold: int, playerHealth: int, exitsTaken: nat)

  /** What `step` returns besides the observation buffer. */
  datatype Transition = Transition(reward: real, done: bool, info: Info)

  /** The KeyErrors that `step` lets escape. */
  datatype StepError = UnknownAction(action: int) | MissingScore(name: string)

  /** The observation buffer `view` encodes the engine state `w`: every grid
      cell holds its view code and the HUD row starts with hp, depth and
      gold. */
  ghost predicate Shows(view: array2<int>, perfect: bool, w: World)
    reads view
    requires w.grid.Valid() && w.grid.width >= 3
    requires view.Length0 == w.grid.height + 1 && view.Length1 == w.grid.width
  {
    (forall x, y :: 0 <= x < w.grid.width && 0 <= y < w.grid.height ==>
      ViewCode(perfect, w.grid.At(x, y)) == Some(view[y, x])) &&
    view[w.grid.height, 0] == w.hp &&
    view[w.grid.height, 1] == w.depth &&
    view[w.grid.height, 2] == w.gold
  }

  /** The engine, of which only the state the wrapper reads is modelled. */
  class Engine {
    const width: nat
    const height: nat
    var tiles: array2<char>
    var explored: array2<bool>
    var alreadyExplored: array2<bool>
    var hp: int
    var gold: int
    var depth: int
    var dead: bool

    ghost predicate Valid()
      reads this
    {
      tiles.Length0 == width && tiles.Length1 == height &&
      explored.Length0 == width && explored.Length1 == height &&
      alreadyExplored.Length0 == width && alreadyExplored.Length1 == height &&
      explored != alreadyExplored
    }

    /** The level as a value. */
    ghost function Snapshot(): (g: Grid)
      reads this, tiles, explored, alreadyExplored
      requires Valid()
      ensures g.Valid() && g.width == width && g.height == height
      ensures forall x, y :: 0 <= x < width && 0 <= y < height ==>
        g.At(x, y) == Cell(tiles[x, y], explored[x, y], alreadyExplored[x, y])
    {
      var t, ex, ax := tiles, explored, alreadyExplored;
      Grid(width, height,
        seq(width, x requires 0 <= x < t.Length0 reads t, ex, ax =>
          seq(height, y requires 0 <= y < t.Length1 reads t, ex, ax =>
            Cell(t[x, y], ex[x, y], ax[x, y]))))
    }

    ghost function State(): World
      reads this, tiles, explored, alreadyExplored
      requires Valid()
    {
      World(Snapshot(), hp, gold, depth, dead)
    }

    /** `Engine(player, seed, fixed_seed)`: level generation is not modelled,
        so the generated state is a parameter. */
    constructor (w: World)
      requires w.grid.Valid()
      ensures Valid() && width == w.grid.width && height == w.grid.height
      ensures fresh(tiles) && fresh(explored) && fresh(alreadyExplored)
      ensures State() == w
    {
      var g := w.grid;
      width, height := g.width, g.height;
      tiles := new char[g.width, g.height]((x, y) requires 0 <= x < g.width && 0 <= y < g.height => g.At(x, y).ch);
      explored := new bool[g.width, g.height]((x, y) requires 0 <= x < g.width && 0 <= y < g.height => g.At(x, y).explored);
      alreadyExplored := new bool[g.width, g.height]((x, y) requires 0 <= x < g.width && 0 <= y < g.height => g.At(x, y).alreadyExplored);
      hp, gold, depth, dead := w.hp, w.gold, w.depth, w.dead;
      new;
      GridsEqual(Snapshot(), g);
    }

    /** `fov()`: the cells in `visible` become explored; the visibility
        computation itself is not modelled, so its result is a parameter. */
    method Fov(visible: set<(int, int)>)
      requires Valid()
      modifies explored
      ensures Valid()
      ensures State() == old(State()).(grid := Uncover(old(Snapshot()), visible))
    {
      forall x, y | 0 <= x < width && 0 <= y < height && (x, y) in visible {
        explored[x, y] := true;
      }
      GridsEqual(Snapshot(), Uncover(old(Snapshot()), visible));
    }

    /** `bump(...)` followed by `handle_enemy_turns()`: their code is not
        modelled, so the state they leave behind is a parameter. */
    method Advance(w: World)
      requires Valid() && w.grid.Valid() && w.grid.width == width && w.grid.height == height
      modifies this`hp, this`gold, this`depth, this`dead, tiles, explored, alreadyExplored
      ensures Valid()
      ensures State() == w
      ensures hp == w.hp && gold == w.gold && depth == w.depth && dead == w.dead
    {
      forall x, y | 0 <= x < width && 0 <= y < height {
        tiles[x, y] := w.grid.At(x, y).ch;
      }
      forall x, y | 0 <= x < width && 0 <= y < height {
        explored[x, y] := w.grid.At(x, y).explored;
      }
      forall x, y | 0 <= x < width && 0 <= y < height {
        alreadyExplored[x, y] := w.grid.At(x, y).alreadyExplored;
      }
      hp, gold, depth, dead := w.hp, w.gold, w.depth, w.dead;
      GridsEqual(Snapshot(), w.grid);
    }
  }

  /** The reinforcement-learning environment with the integer observation
      (`to_image` false). */
  class EasyRogue {
    var engine: Engine
    /** `(height + 1) x width`, indexed `[y, x]`; the last row is the HUD. */
    const agentView: array2<int>
    const perfectInfo: bool
    const rewardConfig: seq<Reward>
    var seedNum: int
    var fixedSeed: bool
    var timeSpent: nat
    var pathReward: int
    var lastHp: int
    var exploredReward: nat
    var exitsTaken: nat
    var enemiesKilled: nat
    var potionsTaken: nat
    var done: bool
    /** Unset (`None`) until a scan has seen an exit. */
    var exitLocation: Option<(int, int)>

    ghost predicate Valid()
      reads this, engine
    {
      engine.Valid() &&
      agentView.Length0 == engine.height + 1 && agentView.Length1 == engine.width &&
      Distinct(rewardConfig)
    }

    /** `EasyRogue(seed, False, fixed_seed, perfect_info)` with its reward
        table already loaded and the engine's first level given. */
    constructor (seed: int, fixedSeed: bool, perfectInfo: bool, rewardConfig: seq<Reward>, world: World)
      requires world.grid.Valid() && Distinct(rewardConfig)
      ensures Valid() && fresh(engine) && fresh(agentView)
      ensures engine.State() == world
      ensures this.perfectInfo == perfectInfo && this.rewardConfig == rewardConfig
      ensures seedNum == seed && this.fixedSeed == fixedSeed
      ensures forall y, x :: 0 <= y < agentView.Length0 && 0 <= x < agentView.Length1 ==> agentView[y, x] == 0
      ensures timeSpent == 0 && pathReward == 0 && lastHp == world.hp && exploredReward == 0
      ensures exitsTaken == 0 && enemiesKilled == 0 && potionsTaken == 0
      ensures exitLocation.None? && !done
    {
      this.fixedSeed := fixedSeed;
      seedNum := seed;
      this.perfectInfo := perfectInfo;
      this.rewardConfig := rewardConfig;
      var e := new Engine(world);
      engine := e;
      agentView := new int[e.height + 1, e.width]((y, x) => 0);
      timeSpent, pathReward, lastHp, exploredReward := 0, 0, world.hp, 0;
      exitsTaken, enemiesKilled, potionsTaken := 0, 0, 0;
      done, exitLocation := false, None;
    }

    /** `set_seed(seed)`. */
    method SetSeed(seed: int)
      modifies this`seedNum, this`fixedSeed
      ensures seedNum == seed && fixedSeed
    {
      seedNum := seed;
      fixedSeed := true;
    }

    /** The body of the inner loop of `translate_map_to_numbers` for cell
        `(x, y)`: encode it, count it, and award it if it is an explored
        floor tile not yet rewarded. */
    method ScanCell(x: nat, y: nat, info: Info) returns (info': Info)
      requires Valid() && x < engine.width && y < engine.height
      requires ViewCode(perfectInfo, Cell(engine.tiles[x, y], engine.explored[x, y], engine.alreadyExplored[x, y])).Some?
      modifies this`exploredReward, this`exitLocation, agentView, engine.alreadyExplored
      ensures var c := old(Cell(engine.tiles[x, y], engine.explored[x, y], engine.alreadyExplored[x, y]));
        Some(agentView[y, x]) == ViewCode(perfectInfo, c) &&
        engine.alreadyExplored[x, y] == MarkCell(c).alreadyExplored &&
        exploredReward == old(exploredReward) + (if Hit(Unrewarded, c) then 1 else 0) &&
        exitLocation == (if Hit(Exit, c) then Some((x as int, y as int)) else old(exitLocation)) &&
        info' == info.(potions := info.potions + (if Hit(Potion, c) then 1 else 0),
                       enemies := info.enemies + (if Hit(Enemy, c) then 1 else 0))
      ensures forall j, i :: 0 <= j < agentView.Length0 && 0 <= i < agentView.Length1 && (j, i) != (y as int, x as int) ==>
        agentView[j, i] == old(agentView[j, i])
      ensures forall i, j :: 0 <= i < engine.width && 0 <= j < engine.height && (i, j) != (x as int, y as int) ==>
        engine.alreadyExplored[i, j] == old(engine.alreadyExplored[i, j])
    {
      var t, ex, ax := engine.tiles, engine.explored, engine.alreadyExplored;
      var c := t[x, y];
      if perfectInfo {
        agentView[y, x] := Tables.TileCode(c).value;
      } else if ex[x, y] {
        agentView[y, x] := Tables.TileCode(c).value;
      } else {
        agentView[y, x] := Tables.TileCode(' ').value;
      }
      info' := info;
      if c == '+' {
        info' := info'.(potions := info'.potions + 1);
      } else if c == 'v' || c == 'z' {
        info' := info'.(enemies := info'.enemies + 1);
      } else if c == '>' {
        exitLocation := Some((x as int, y as int));
      }
      if ex[x, y] && c == '.' && !ax[x, y] {
        exploredReward := exploredReward + 1;
        ax[x, y] := true;
      }
    }

    /** The inner loop of `translate_map_to_numbers` over row `y`; `g` is the
        level as it was when the scan started, `reward0` and `exit0` the
        values the scan started from. */
    method ScanRow(y: nat, info: Info, ghost g: Grid, ghost reward0: nat, ghost exit0: Option<(int, int)>)
      returns (info': Info)
      requires Valid() && y < engine.height
      requires g.Valid() && g.width == engine.width && g.height == engine.height && Decodable(perfectInfo, g)
      requires forall i, j :: 0 <= i < g.width && 0 <= j < g.height ==>
        g.At(i, j).ch == engine.tiles[i, j] && g.At(i, j).explored == engine.explored[i, j]
      requires forall i :: 0 <= i < g.width ==> engine.alreadyExplored[i, y] == g.At(i, y).alreadyExplored
      requires info.enemies == ScanCount(Enemy, g, y, 0) && info.potions == ScanCount(Potion, g, y, 0)
      requires exploredReward == reward0 + ScanCount(Unrewarded, g, y, 0)
      requires exitLocation == if ScanLast(Exit, g, y, 0).Some? then ScanLast(Exit, g, y, 0) else exit0
      modifies this`exploredReward, this`exitLocation, agentView, engine.alreadyExplored
      ensures forall i :: 0 <= i < g.width ==>
        ViewCode(perfectInfo, g.At(i, y)) == Some(agentView[y, i]) &&
        engine.alreadyExplored[i, y] == MarkCell(g.At(i, y)).alreadyExplored
      ensures forall j, i :: 0 <= j < agentView.Length0 && 0 <= i < agentView.Length1 && j != y ==>
        agentView[j, i] == old(agentView[j, i])
      ensures forall i, j :: 0 <= i < g.width && 0 <= j < g.height && j != y ==>
        engine.alreadyExplored[i, j] == old(engine.alreadyExplored[i, j])
      ensures info' == info.(enemies := ScanCount(Enemy, g, y, g.width), potions := ScanCount(Potion, g, y, g.width))
      ensures exploredReward == reward0 + ScanCount(Unrewarded, g, y, g.width)
      ensures exitLocation == if ScanLast(Exit, g, y, g.width).Some? then ScanLast(Exit, g, y, g.width) else exit0
    {
      info' := info;
      for x := 0 to engine.width
        invariant forall i :: 0 <= i < x ==>
          ViewCode(perfectInfo, g.At(i, y)) == Some(agentView[y, i]) &&
          engine.alreadyExplored[i, y] == MarkCell(g.At(i, y)).alreadyExplored
        invariant forall i :: x <= i < g.width ==> engine.alreadyExplored[i, y] == g.At(i, y).alreadyExplored
        invariant forall j, i :: 0 <= j < agentView.Length0 && 0 <= i < agentView.Length1 && (j != y || x <= i) ==>
          agentView[j, i] == old(agentView[j, i])
        invariant forall i, j :: 0 <= i < g.width && 0 <= j < g.height && j != y ==>
          engine.alreadyExplored[i, j] == old(engine.alreadyExplored[i, j])
        invariant info' == info.(enemies := ScanCount(Enemy, g, y, x), potions := ScanCount(Potion, g, y, x))
        invariant exploredReward == reward0 + ScanCount(Unrewarded, g, y, x)
        invariant exitLocation == if ScanLast(Exit, g, y, x).Some? then ScanLast(Exit, g, y, x) else exit0
      {
        assert g.At(x, y) == Cell(engine.tiles[x, y], engine.explored[x, y], engine.alreadyExplored[x, y]);
        info' := ScanCell(x, y, info');
      }
    }

    /** The two nested loops of `translate_map_to_numbers` over the level
        `g` the engine holds when they start. */
    method ScanRows(ghost g: Grid) returns (info: Info)
      requires Valid() && g == engine.Snapshot() && Decodable(perfectInfo, g)
      modifies this`exploredReward, this`exitLocation, agentView, engine.alreadyExplored
      ensures forall i, j :: 0 <= i < g.width && 0 <= j < g.height ==>
        engine.alreadyExplored[i, j] == MarkCell(g.At(i, j)).alreadyExplored
      ensures forall i, j :: 0 <= i < g.width && 0 <= j < g.height ==> ViewCode(perfectInfo, g.At(i, j)) == Some(agentView[j, i])
      ensures forall i :: 0 <= i < g.width ==> agentView[g.height, i] == old(agentView[g.height, i])
      ensures info == Info(Count(Enemy, g), Count(Potion, g), engine.gold, engine.hp, 0)
      ensures exploredReward == old(exploredReward) + Count(Unrewarded, g)
      ensures exitLocation == if LastExit(g).Some? then LastExit(g) else old(exitLocation)
    {
      info := Info(0, 0, engine.gold, engine.hp, 0);
      for y := 0 to engine.height
        invariant forall i, j :: 0 <= i < g.width && 0 <= j < g.height ==>
          g.At(i, j).ch == engine.tiles[i, j] && g.At(i, j).explored == engine.explored[i, j]
        invariant forall i, j :: 0 <= i < g.width && 0 <= j < g.height ==>
          engine.alreadyExplored[i, j] == if j < y then MarkCell(g.At(i, j)).alreadyExplored else g.At(i, j).alreadyExplored
        invariant forall i, j :: 0 <= i < g.width && 0 <= j < y ==> ViewCode(perfectInfo, g.At(i, j)) == Some(agentView[j, i])
        invariant forall i :: 0 <= i < g.width ==> agentView[g.height, i] == old(agentView[g.height, i])
        invariant info == Info(ScanCount(Enemy, g, y, 0), ScanCount(Potion, g, y, 0), engine.gold, engine.hp, 0)
        invariant exploredReward == old(exploredReward) + ScanCount(Unrewarded, g, y, 0)
        invariant exitLocation == if ScanLast(Exit, g, y, 0).Some? then ScanLast(Exit, g, y, 0) else old(exitLocation)
      {
        info := ScanRow(y, info, g, old(exploredReward), old(exitLocation));
      }
    }

    /** `translate_map_to_numbers()`: encodes the level into `agentView` in
        place, counts potions and enemies, records the last exit, awards
        each explored floor tile once, and writes the HUD row. */
    method TranslateMapToNumbers() returns (info: Info)
      requires Valid() && engine.width >= 3
      requires Decodable(perfectInfo, engine.Snapshot())
      modifies this`exploredReward, this`exitLocation, agentView, engine.alreadyExplored
      ensures Valid()
      ensures engine.State() == old(engine.State()).(grid := Mark(old(engine.Snapshot())))
      ensures Shows(agentView, perfectInfo, old(engine.State()))
      ensures forall x :: 3 <= x < engine.width ==> agentView[engine.height, x] == old(agentView[engine.height, x])
      ensures exploredReward == old(exploredReward) + Count(Unrewarded, old(engine.Snapshot()))
      ensures Count(Unrewarded, engine.Snapshot()) == 0
      ensures exitLocation == if LastExit(old(engine.Snapshot())).Some? then LastExit(old(engine.Snapshot())) else old(exitLocation)
      ensures info == Info(Count(Enemy, old(engine.Snapshot())), Count(Potion, old(engine.Snapshot())), engine.gold, engine.hp, 0)
    {
      ghost var g := engine.Snapshot();
      info := ScanRows(g);
      agentView[engine.height, 0] := engine.hp;
      agentView[engine.height, 1] := engine.depth;
      agentView[engine.height, 2] := engine.gold;
      GridsEqual(engine.Snapshot(), Mark(g));
      MarkLeavesNothing(g);
    }

    /** The `for` loop over the reward table: adds the score of every entry
        whose condition held and bumps the matching episode counter. */
    method ApplyRewards(fired: set<string>) returns (reward: real)
      modifies this`exitsTaken, this`enemiesKilled, this`potionsTaken
      ensures reward == Gain(rewardConfig, fired)
      ensures exitsTaken == old(exitsTaken) + Tally(rewardConfig, fired, "exit")
      ensures enemiesKilled == old(enemiesKilled) + Tally(rewardConfig, fired, "kill_enemy")
      ensures potionsTaken == old(potionsTaken) + Tally(rewardConfig, fired, "use_potion")
    {
      reward := 0.0;
      for i := 0 to |rewardConfig|
        invariant reward == Gain(rewardConfig[..i], fired)
        invariant exitsTaken == old(exitsTaken) + Tally(rewardConfig[..i], fired, "exit")
        invariant enemiesKilled == old(enemiesKilled) + Tally(rewardConfig[..i], fired, "kill_enemy")
        invariant potionsTaken == old(potionsTaken) + Tally(rewardConfig[..i], fired, "use_potion")
      {
        var entry := rewardConfig[i];
        assert rewardConfig[..i + 1][..i] == rewardConfig[..i];
        if entry.name in fired {
          reward := reward + entry.score;
          if entry.name == "exit" {
            exitsTaken := exitsTaken + 1;
          } else if entry.name == "kill_enemy" {
            enemiesKilled := enemiesKilled + 1;
          } else if entry.name == "use_potion" {
            potionsTaken := potionsTaken + 1;
          }
        }
      }
      assert rewardConfig[..|rewardConfig|] == rewardConfig;
    }

    /** `step(action)`. The engine calls are not modelled: `visible` is what
        `fov()` reveals, `next` the state `bump` and `handle_enemy_turns`
        leave behind, and `fired` the names of the reward conditions that
        evaluate to true. */
    method Step(action: int, visible: set<(int, int)>, fired: set<string>, next: World)
      returns (r: Result<Transition, StepError>)
      requires Valid() && engine.width >= 3
      requires next.grid.Valid() && next.grid.width == engine.width && next.grid.height == engine.height
      requires Decodable(perfectInfo, next.grid)
      modifies this`timeSpent, this`done, this`exploredReward, this`exitLocation
      modifies this`exitsTaken, this`enemiesKilled, this`potionsTaken
      modifies engine`hp, engine`gold, engine`depth, engine`dead
      modifies engine.tiles, engine.explored, engine.alreadyExplored, agentView
      ensures Valid()
      ensures Tables.ActionVector(action).None? ==>
        r == Failure(UnknownAction(action)) &&
        engine.State() == old(engine.State()).(grid := Uncover(old(engine.Snapshot()), visible)) &&
        unchanged(agentView) &&
        timeSpent == old(timeSpent) && done == old(done) && exploredReward == old(exploredReward) &&
        exitLocation == old(exitLocation) && exitsTaken == old(exitsTaken) &&
        enemiesKilled == old(enemiesKilled) && potionsTaken == old(potionsTaken)
      ensures Tables.ActionVector(action).Some? ==> Stepped(fired, next, r,
        old(timeSpent), old(exploredReward), old(exitLocation), old(exitsTaken), old(enemiesKilled), old(potionsTaken))
      ensures Tables.ActionVector(action).Some? ==>
        forall x :: 3 <= x < engine.width ==> agentView[engine.height, x] == old(agentView[engine.height, x])
    {
      engine.Fov(visible);
      var direction := Tables.ActionVector(action);
      if direction.None? {
        return Failure(UnknownAction(action));
      }
      r := Proceed(fired, next);
    }

    /** The state and result of a `step` whose action was valid, in terms of
        the counters before it: `next` is now the engine's state with the
        exploration flags marked, the buffer observes `next`, one more step
        has been taken, `done` reports death or the step limit, the fired
        reward conditions have bumped their counters, and the exploration
        count was either paid out and cleared or, when the table has no
        `explore` score, left standing as the KeyError escapes. */
    ghost predicate Stepped(fired: set<string>, next: World, r: Result<Transition, StepError>,
                            time0: nat, explored0: nat, exit0: Option<(int, int)>,
                            exits0: nat, kills0: nat, potions0: nat)
      reads this, engine, engine.tiles, engine.explored, engine.alreadyExplored, agentView
      requires Valid() && engine.width >= 3
      requires next.grid.Valid() && next.grid.width == engine.width && next.grid.height == engine.height
    {
      var total := explored0 + Count(Unrewarded, next.grid);
      engine.State() == next.(grid := Mark(next.grid)) &&
      Shows(agentView, perfectInfo, next) &&
      timeSpent == time0 + 1 &&
      done == (next.dead || time0 >= MaxSteps) &&
      exitsTaken == exits0 + Tally(rewardConfig, fired, "exit") &&
      enemiesKilled == kills0 + Tally(rewardConfig, fired, "kill_enemy") &&
      potionsTaken == potions0 + Tally(rewardConfig, fired, "use_potion") &&
      exitLocation == (if LastExit(next.grid).Some? then LastExit(next.grid) else exit0) &&
      match ExploreBonus(rewardConfig, total)
      case None => r == Failure(MissingScore("explore")) && exploredReward == total
      case Some(bonus) =>
        exploredReward == 0 &&
        r == Success(Transition(Gain(rewardConfig, fired) + bonus, done,
                                Info(Count(Enemy, next.grid), Count(Potion, next.grid), next.gold, next.hp, exitsTaken)))
    }

    /** `step` from the reward conditions on, once the action was found. */
    method Proceed(fired: set<string>, next: World) returns (r: Result<Transition, StepError>)
      requires Valid() && engine.width >= 3
      requires next.grid.Valid() && next.grid.width == engine.width && next.grid.height == engine.height
      requires Decodable(perfectInfo, next.grid)
      modifies this`timeSpent, this`done, this`exploredReward, this`exitLocation
      modifies this`exitsTaken, this`enemiesKilled, this`potionsTaken
      modifies engine`hp, engine`gold, engine`depth, engine`dead
      modifies engine.tiles, engine.explored, engine.alreadyExplored, agentView
      ensures Valid()
      ensures Stepped(fired, next, r,
        old(timeSpent), old(exploredReward), old(exitLocation), old(exitsTaken), old(enemiesKilled), old(potionsTaken))
      ensures forall x :: 3 <= x < engine.width ==> agentView[engine.height, x] == old(agentView[engine.height, x])
    {
      var reward := Act(fired, next);
      var info := TranslateMapToNumbers();
      assert engine.State() == next.(grid := Mark(next.grid));
      r := PayExploration(reward, info);
    }

    /** The middle of `step`: the reward conditions bump their counters,
        the engine moves to `next`, and `done` and the step counter are
        updated, with the step limit tested before the increment. */
    method Act(fired: set<string>, next: World) returns (reward: real)
      requires Valid()
      requires next.grid.Valid() && next.grid.width == engine.width && next.grid.height == engine.height
      modifies this`timeSpent, this`done, this`exitsTaken, this`enemiesKilled, this`potionsTaken
      modifies engine`hp, engine`gold, engine`depth, engine`dead
      modifies engine.tiles, engine.explored, engine.alreadyExplored
      ensures Valid() && engine.State() == next
      ensures reward == Gain(rewardConfig, fired)
      ensures exitsTaken == old(exitsTaken) + Tally(rewardConfig, fired, "exit")
      ensures enemiesKilled == old(enemiesKilled) + Tally(rewardConfig, fired, "kill_enemy")
      ensures potionsTaken == old(potionsTaken) + Tally(rewardConfig, fired, "use_potion")
      ensures done == (next.dead || old(timeSpent) >= MaxSteps)
      ensures timeSpent == old(timeSpent) + 1
    {
      // The conditions are evaluated after `bump`; `handle_enemy_turns`
      // runs after them. Neither touches the counters, so their combined
      // effect is applied in one go.
      reward := ApplyRewards(fired);
      engine.Advance(next);
      done := engine.dead || timeSpent >= MaxSteps;
      timeSpent := timeSpent + 1;
    }

    /** The end of `step`: pay out and clear the exploration count, or let
        the KeyError of a missing `explore` score escape with the count
        still standing. */
    method PayExploration(reward: real, info: Info) returns (r: Result<Transition, StepError>)
      modifies this`exploredReward
      ensures match ExploreBonus(rewardConfig, old(exploredReward))
        case None => r == Failure(MissingScore("explore")) && exploredReward == old(exploredReward)
        case Some(bonus) =>
          exploredReward == 0 && r == Success(Transition(reward + bonus, done, info.(exitsTaken := exitsTaken)))
    {
      // `if explored_reward > 0: reward += ceil(explored_reward * score)`
      var bonus := ExploreBonus(rewardConfig, exploredReward);
      if bonus.None? {
        return Failure(MissingScore("explore"));
      }
      exploredReward := 0;
      r := Success(Transition(reward + bonus.value, done, info.(exitsTaken := exitsTaken)));
    }

    /** `reset()`: a fresh engine (its generated first level `world` is a
        parameter), the episode counters cleared, and one scan of the new
        level. `enemiesKilled`, `potionsTaken`, `lastHp` and `exitLocation`
        are not reset, and the exploration the scan awards is kept. */
    method Reset(world: World)
      requires Valid() && engine.width >= 3
      requires world.grid.Valid() && world.grid.width == engine.width && world.grid.height == engine.height
      requires Decodable(perfectInfo, world.grid)
      modifies this`engine, this`timeSpent, this`pathReward, this`exploredReward, this`exitsTaken
      modifies this`done, this`exitLocation, agentView
      ensures Valid() && fresh(engine)
      ensures engine.State() == world.(grid := Mark(world.grid))
      ensures Shows(agentView, perfectInfo, world)
      ensures forall x :: 3 <= x < engine.width ==> agentView[engine.height, x] == old(agentView[engine.height, x])
      ensures timeSpent == 0 && pathReward == 0 && exitsTaken == 0 && !done
      ensures enemiesKilled == old(enemiesKilled) && potionsTaken == old(potionsTaken) && lastHp == old(lastHp)
      ensures seedNum == old(seedNum) && fixedSeed == old(fixedSeed)
      ensures exploredReward == Count(Unrewarded, world.grid)
      ensures exitLocation == if LastExit(world.grid).Some? then LastExit(world.grid) else old(exitLocation)
    {
      Restart(world);
      assert engine.Snapshot() == world.grid;
      var _ := TranslateMapToNumbers();
    }

    /** The first half of `reset()`: a fresh engine and the episode counters
        cleared. */
    method Restart(world: World)
      requires Valid()
      requires world.grid.Valid() && world.grid.width == engine.width && world.grid.height == engine.height
      modifies this`engine, this`timeSpent, this`pathReward, this`exploredReward, this`exitsTaken, this`done
      ensures Valid() && fresh(engine) && fresh(engine.alreadyExplored) && engine.State() == world
      ensures timeSpent == 0 && pathReward == 0 && exploredReward == 0 && exitsTaken == 0 && !done
    {
      engine := new Engine(world);
      timeSpent := 0;
      pathReward := 0;
      exploredReward := 0;
      exitsTaken := 0;
      done := false;
    }
  }
}

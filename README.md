# EasyRogue environment wrapper — verified Dafny model

EasyRogue is a turn-based dungeon crawler that doubles as a reinforcement-learning
environment. This project models the observation and bookkeeping layer of the
environment class `EasyRogue` in `env/__init__.py`:

- the two constant lookup tables: `action_translator`, which maps discrete actions to
  directions, and `level_translator`, which maps tile characters to integer codes;
- `translate_map_to_numbers`, the grid encoder. It writes the level into a
  `(height + 1) x width` integer buffer in place. It also counts potions and enemies,
  records the last exit, awards each explored floor tile exactly once, and writes a
  HUD row holding hp, depth and gold;
- the episode bookkeeping of `step`, `reset` and `set_seed`.

The game engine behind the wrapper is not part of this model. Its state is modelled
as the class `Env.Engine`. It holds a `width x height` grid of tile characters
indexed `[x, y]`, the per-cell `explored` and `already_explored` flags, and the
player's hp and gold, the depth, and whether the player is dead. The engine's own
operations come in as parameters; see "Left out".

Files:

- `wrappers.dfy`: `Option` and `Result`.
- `tables.dfy`: module `Tables`, the two lookup tables.
- `layout.dfy`: module `Layout`. The level as a value (`Grid` of `Cell`s). It has the
  scan-order functions that specify the encoder (`ScanCount`, `ScanLast`, `Mark`,
  `ViewCode`) and the lemmas about them. Each scan function is proved against an
  independent reference: a set of cells, or "last in scan order".
- `rewards.dfy`: module `Rewards`. The reward table as an ordered list of
  `(name, score)` entries, with the sums and tallies a step takes over it.
- `env.dfy`: module `Env`, with the classes `Engine` and `EasyRogue`. The encoder is
  the imperative nested loop of the source, split into cell, row and rows methods.
  Each is proved against the `Layout` functions.

## Model

| member | source | states |
|---|---|---|
| Tables.ActionVector | env/__init__.py:19-24 | `action_translator` is defined exactly on 0..3, and each image is a unit step along one axis |
| Tables.ActionVectorInjective | env/__init__.py:19-24 | the four actions map to four distinct directions |
| Tables.ActionVectorOnto | env/__init__.py:18-24 | each of the four directions (1,0), (-1,0), (0,1), (0,-1) is the image of some action |
| Tables.TileCode | env/__init__.py:27-37 | `level_translator` is defined exactly on its nine characters, every code lies in [-4, 4], and -4 is the code of `" "` alone |
| Tables.TileCodeInjective | env/__init__.py:27-37 | no two tile characters share a code |
| Layout.ViewCode | env/__init__.py:205-212 | an explored cell, or any cell in perfect-information mode, shows its tile code; an unexplored cell in imperfect mode shows -4; values lie in [-4, 4], and in [-3, 4] in perfect mode for non-blank characters |
| Layout.ScanCountIsCardinality | env/__init__.py:202-218 | the running count after any prefix of the row-major scan equals the number of matching cells in that prefix |
| Layout.CountIsCardinality | env/__init__.py:214-218 | the potion count is the number of `'+'` cells, the enemy count the number of `'v'`/`'z'` cells, and the exploration count the number of unrewarded explored floor cells, over the whole level |
| Layout.ScanLastIsLast | env/__init__.py:202-220 | the cell recorded last in a scan prefix is a matching cell, and no later cell of the prefix matches; nothing is recorded exactly when no cell of the prefix matches |
| Layout.LastExitIsLast | env/__init__.py:202-220 | `exit_location` ends up at the last `'>'` in row-major order, and nothing is recorded exactly when the level has no `'>'` |
| Layout.MarkMonotone | env/__init__.py:222-225 | the reward pass keeps characters and `explored` flags, never clears `already_explored`, and sets it exactly on explored, not yet rewarded `'.'` cells |
| Layout.MarkLeavesNothing | env/__init__.py:222-225 | after the reward pass no cell is left to reward, so a second pass on an unchanged level adds 0 |
| Layout.MarkIdempotent | env/__init__.py:222-225 | a second reward pass changes no flag |
| Layout.UncoverAddsRewards | env/__init__.py:222-225 | after `fov` the cells the exploration reward will pay for are those it would have paid for before, plus exactly the visible, previously unexplored, never rewarded `'.'` cells, which are new; so the count grows by exactly their number |
| Layout.UncoverKeepsTiles | env/__init__.py:242 | `fov` changes no tile character, so the potion, enemy and exit cells and their counts are those before |
| Layout.UncoverIdempotent | env/__init__.py:242 | seeing the same cells a second time changes nothing |
| Rewards.TallyOnce | env/__init__.py:248-256 | with distinct keys, a counter such as `exits_taken` goes up by 1 exactly when its condition fired and is in the table, otherwise by 0 |
| Rewards.ScoreOf | env/__init__.py:270 | `reward_config[name]['score']` is found exactly when the table has an entry of that name, and is that entry's score |
| Rewards.Ceil | env/__init__.py:270 | `ceil(r)` is the least integer not below `r` |
| Rewards.ExploreBonus | env/__init__.py:268-270 | no bonus when nothing was newly explored; otherwise a whole number `b` with `count * score <= b < count * score + 1`, that is `ceil(count * score)`, or the KeyError when the table has no `explore` entry |
| Env.Engine.constructor | env/__init__.py:63 | the engine starts in the state level generation produced |
| Env.Engine.Fov | env/__init__.py:242 | `fov()` marks the visible cells explored and changes nothing else |
| Env.Engine.Advance | env/__init__.py:245-258 | after `bump` and `handle_enemy_turns` the engine is in the given state |
| Env.EasyRogue.constructor | env/__init__.py:43-89 | agent view of shape (height+1) x width filled with 0; step, path and exploration counters and the log counters at 0; seed settings and `last_hp` as given |
| Env.EasyRogue.SetSeed | env/__init__.py:94-105 | `seed_num` becomes `seed` and `fixed_seed` becomes true |
| Env.EasyRogue.ScanCell | env/__init__.py:205-225 | one cell: its view code is written, the counters and exit location updated, the exploration reward and flag set iff the cell was an explored, unrewarded `'.'`; no other cell changes |
| Env.EasyRogue.ScanRow | env/__init__.py:203-229 | one row: every cell of row `y` encoded and marked, the running counts advanced to the end of the row, every other row untouched |
| Env.EasyRogue.ScanRows | env/__init__.py:202-231 | all rows encoded and marked, the counts and last exit those of the whole level, the HUD row untouched |
| Env.EasyRogue.TranslateMapToNumbers | env/__init__.py:181-239 | every grid cell holds its view code; the HUD row holds hp, depth, gold in columns 0-2 and the rest keeps its old values; `explored_reward` grows by exactly the number of explored unrewarded floor cells, and those alone become rewarded; nothing is left to reward; `exit_location` is the last exit, or unchanged if there is none; `info` holds the full-level enemy and potion counts, gold and hp |
| Env.EasyRogue.ApplyRewards | env/__init__.py:247-256 | the reward is the sum of the scores of the fired entries; `exits_taken`, `enemies_killed`, `potions_taken` grow by the number of fired `exit`, `kill_enemy`, `use_potion` entries |
| Env.EasyRogue.Act | env/__init__.py:245-262 | the counters as in ApplyRewards; the engine is in its new state; `done` is death or `time_spent >= 250` read before the increment; `time_spent` grows by 1 |
| Env.EasyRogue.PayExploration | env/__init__.py:268-275 | the exploration bonus is added and `explored_reward` cleared; if the `explore` score is missing, the KeyError escapes and the count stays |
| Env.EasyRogue.Proceed | env/__init__.py:245-275 | the whole of a step after the action was found, as described by `Stepped` |
| Env.EasyRogue.Step | env/__init__.py:241-275 | an action outside 0..3 raises after `fov` has run and changes nothing else. Otherwise: the engine reaches the given state with flags marked; the view encodes it; `time_spent` +1; `done` iff dead or the old `time_spent >= 250`; counters tallied; `explored_reward` 0 and the reward equal to fired scores plus exploration bonus, unless the `explore` score is missing |
| Env.EasyRogue.Restart | env/__init__.py:282-288 | a fresh engine; `time_spent`, `path_reward`, `explored_reward`, `exits_taken` at 0; `done` false |
| Env.EasyRogue.Reset | env/__init__.py:280-293 | a fresh engine whose flags are marked by one scan; the view encodes it; `time_spent`, `path_reward`, `exits_taken` 0 and `done` false; `enemies_killed`, `potions_taken`, `last_hp`, the seed settings untouched; `explored_reward` is the count that scan awarded; `exit_location` as after any scan |

## Notes on the model

- The step limit is tested before the increment (env/__init__.py:260-262). So from a
  reset, timeout alone sets `done` on the 251st step, not the 250th. The model follows the code.
- `reset` zeroes `explored_reward` and then runs a scan (env/__init__.py:286-292). The
  exploration that scan awards is neither paid nor cleared. It is paid by the first
  `step`. `Env.EasyRogue.Reset` states this.
- `reset` does not clear `exit_location`. A new level without an exit keeps the old one.
- The encoder's `elif` chain (env/__init__.py:215-220) tests mutually exclusive
  characters, so the exit is recorded whenever the character is `'>'`.
- `done` and `exit_location` are not set in `__init__`. The model starts them at false
  and `None`; `None` stands for the missing attribute.

## Left out

- Everything behind the engine calls is not part of this model: `Engine(...)`, level generation,
  `fov`, `bump` and `handle_enemy_turns` (their source is not available).
  - The first level is a constructor parameter.
  - `fov` is modelled as marking a given set of visible cells explored.
  - The combined effect of `bump` and `handle_enemy_turns` is a given next engine
    state, which may replace the whole level.
  - `player.is_dead()` is the `dead` field of that state.
  - The direction that `action_translator` yields is checked, but nothing is done with
    it, because `bump` is opaque.
- The reward conditions are Python strings run through `eval`, loaded from `conf/rewards.yaml`.
  So a step takes the set of condition names that held as a parameter. The table is
  a constructor parameter with distinct names, because a dictionary has distinct keys.
- `Env.EasyRogue.Step`: scores and the reward are modelled as exact `real`s, not
  floating point, and `ceil` is exact.
- `Env.EasyRogue.Step`: `bump` happens before the reward conditions and
  `handle_enemy_turns` after them. The model applies both after the reward loop,
  which is not observable, because the loop only touches counters and the fired set is given.
- `Env.EasyRogue.TranslateMapToNumbers`: a tile character missing from
  `level_translator`, in a cell whose code is looked up, raises a KeyError in the
  source. The model's `Decodable` precondition excludes it.
- `Env.EasyRogue.TranslateMapToNumbers`: a level narrower than three columns makes
  the HUD writes raise an IndexError. The model requires width at least 3. The
  level's size is chosen by the engine: the `map_size` argument of `__init__`
  (env/__init__.py:49) is never passed on to `Engine(...)` (env/__init__.py:63, 283).
- `Env.Engine.Advance`, `Env.EasyRogue.Step`, `Env.EasyRogue.Reset`: every later level is
  required to have the width and height of the first one. The source allocates
  `agent_view` once, in `__init__` (env/__init__.py:75, 78), so a level of another size
  would raise an IndexError or put the HUD in the wrong row there. That case is not modelled.
- The source reads tile characters from `engine.level.tiles` (env/__init__.py:207, 210,
  215-219) and the two exploration flags from `engine.layout.tiles` (env/__init__.py:209,
  223-225). The model joins both into one grid of cells, so it assumes the two have the
  same shape and refer to the same positions.
- `Env.EasyRogue.Step`: on a valid action the given next engine state replaces the
  `explored` flags, so `next` is expected to already hold the marks `fov` made. The
  contract does not relate the `visible` cells to the exploration bonus of that step;
  `Layout.UncoverAddsRewards` states that relation for the grid `fov` leaves behind.
- The `int64` width of the numpy buffer is not modelled. hp, depth and gold are unbounded integers.
- `translate_map_to_image`, the `to_image` mode, the PIL font and the image buffer are
  left out: they are rendering. Their exploration logic repeats the numeric encoder's.
- The `info["map"]` and `info["agent view"]` log strings are left out (formatting
  only), as are `render`, the gymnasium spaces and `copy.deepcopy` of the player template.
- `examples/gameonly.py` is left out: it is interactive input around a `Game` class
  that is not part of this model.

# Social Rejection: a Dafny model of the terminal-step rules

"Social Rejection" is a multi-agent foraging gridworld from marlgrid. A vertical wall at
column `width // 5` splits the grid. To its left, and on the wall column itself, lies the
safe zone. To its right is the forage zone, where good berries and poisoned berries are
scattered. The generator asks for a wall block on every row of the wall column except the
two middle rows `height // 2` and `height // 2 + 1`. Once the step counter reaches
the horizon `max_steps`, the episode is scored:

- every agent outside the safe zone is penalised with -1;
- the berries carried by the agents inside the safe zone go into one pool;
- every safe agent receives the same share, pool / number of safe agents.

This project models, from `marlgrid/envs/berries.py`:

- the scenario constructor, which rejects a configuration unless exactly one of the clutter
  count and the clutter density is given;
- the wall column and the safe-zone predicate;
- the rows of the dividing wall that the grid generator asks the engine to fill;
- the reward evaluator, both as the two-loop method the source runs and as a pure
  specification function, with lemmas about the reward vector.

Files:

- `wrappers.dfy` holds `Option` and `Result`.
- `social_rejection.dfy` (module `SocialRejection`) holds the configuration, construction,
  the safe zone and the wall layout.
- `rewards.dfy` (module `Rewards`) holds agents, the reward evaluator and its lemmas.

Modelling choices:

- A constructed scenario is the immutable record `Env`. Nothing in the file updates its
  fields after `__init__`. The step counter and the agent list belong to the grid engine,
  so they are parameters of `ComputeRewards`.
- What an agent carries is the tagged variant `Nothing | GoodBerry | PoisonedBerry`. This
  assumes the `Berry` and `PoisonedBerry` classes are disjoint. Their definitions are not
  part of this model. If `PoisonedBerry` were a subclass of `Berry`, the `isinstance(...,
  Berry)` test would catch poisoned berries too, and they would be pooled at the good
  reward.
- Rewards are exact `real`s. Python divides floats, so its results may differ from the
  model's by rounding.
- Python's `//` by 5 or by 2 is floor division, and so is Dafny's `/` on `int` for a
  positive divisor. `width / 5` and `height / 2` are therefore exact for every integer.
- Python's `int(...)` truncates toward zero, which `TruncToInt` writes out.
- `self.width`, `self.height` and `self.max_steps` are set by the engine's constructor
  (marlgrid/envs/berries.py:17). The model takes them to equal the configuration's `width`,
  `height` and `max_steps`, which `Construct` copies into `Env`.
- `ComputeRewards` keeps the source's two loops over a mutable reward array. Its second loop,
  which hands out the shares, is the helper method `ShareAmongSafe`.
- Products of a reward and a count are reached through `Repeated`, the reward added up that
  many times, and `RepeatedIsProduct` turns that back into a product.

## Model

| member | source | states |
|---|---|---|
| `SocialRejection.Construct` | marlgrid/envs/berries.py:14-27 | construction fails iff the clutter count and the clutter density are both absent or both present; a given clutter count is kept as is; a given density yields the density times the interior cell count truncated toward zero; the other fields are copied; the wall column is the floor of width / 5 |
| `SocialRejection.TruncToInt` | marlgrid/envs/berries.py:20 | Python's `int()` on a number: the result is the integer nearest to the argument on the side of zero, less than 1 away |
| `SocialRejection.WallXPos` | marlgrid/envs/berries.py:27 | the wall column is the floor of width / 5: five times it is at most the width, and the width is less than five times it plus 5 |
| `SocialRejection.SafeZone` | marlgrid/envs/berries.py:52-53 | computes whether a position is in the safe zone: its column is at most the wall column; the row plays no part (no contract of its own; SafeZoneWithinFifth states it in terms of the width) |
| `SocialRejection.SafeZoneWithinFifth` | marlgrid/envs/berries.py:52-53 | for a constructed scenario, a position is safe iff five times its column is at most the width |
| `SocialRejection.SafeZoneExample` | marlgrid/envs/berries.py:52-53 | for any valid configuration, width 10 puts the wall at column 2; (1, 5) is safe and (5, 5) is not |
| `SocialRejection.IsGapRow` | marlgrid/envs/berries.py:68 | a row is a gap row iff it is height // 2 or height // 2 + 1 (no contract of its own; WallRows and WallRequestedIff use it) |
| `SocialRejection.WallRowsBelow` | marlgrid/envs/berries.py:67-69 | among the first n rows, the requested wall rows are exactly those that are not one of the two gap rows, and they are requested in increasing order |
| `SocialRejection.WallRows` | marlgrid/envs/berries.py:67-68 | the requested wall rows are exactly the rows 0 to height - 1 that are not gap rows, in strictly increasing order |
| `SocialRejection.WallRequests` | marlgrid/envs/berries.py:67-69 | one block request per requested row, every one on the wall column and so inside the safe zone, with rows strictly increasing |
| `SocialRejection.WallRequestedIff` | marlgrid/envs/berries.py:67-69 | a dividing-wall block is requested at a cell iff the cell is on the wall column, on a row of the grid, and not on row height // 2 or height // 2 + 1 |
| `SocialRejection.WallHasTwoGaps` | marlgrid/envs/berries.py:67-69 | on a grid of height at least 3, height - 2 wall rows are requested: every row except the two gap rows |
| `Rewards.SafeIndices` | marlgrid/envs/berries.py:33-38 | every entry of the safe-index list is the index of an agent that is in the safe zone |
| `Rewards.SafeIndicesIncreasing` | marlgrid/envs/berries.py:36-38 | the safe-index list is strictly increasing, because indices are appended in agent order |
| `Rewards.SafeAgentListed` | marlgrid/envs/berries.py:36-38 | every agent in the safe zone appears in the safe-index list |
| `Rewards.StepRewards` | marlgrid/envs/berries.py:30-50 | the evaluator gives no reward vector iff the step counter is below the horizon |
| `Rewards.TerminalRewards` | marlgrid/envs/berries.py:35-49 | at the horizon the reward vector has exactly one entry per agent |
| `Rewards.ComputeRewards` | marlgrid/envs/berries.py:30-50 | the two-loop evaluator, with its array of rewards, returns exactly the specified result: nothing before the horizon, the terminal vector from it on |
| `Rewards.ShareAmongSafe` | marlgrid/envs/berries.py:47-48 | after the second loop, every listed safe index holds pool / number of listed indices, and every other entry is unchanged |
| `Rewards.PrefixStep` | marlgrid/envs/berries.py:36-43 | one pass of the first loop on agent n appends n to the safe-index list iff agent n is safe, and adds that agent's carried value to the pool |
| `Rewards.TerminalRewardsFromEntries` | marlgrid/envs/berries.py:44-48 | a vector of the right length with -1 at every stranded agent and one common share, pool / number of safe agents, at every listed safe index is the terminal reward vector |
| `Rewards.StrandedPenalised` | marlgrid/envs/berries.py:44-45 | every agent outside the safe zone gets exactly -1, whatever it carries |
| `Rewards.SafeAgentGetsShare` | marlgrid/envs/berries.py:47-48 | a safe agent makes the number of safe agents positive, so the division is defined, and it gets pool / number of safe agents |
| `Rewards.SafeAgentsShareEqually` | marlgrid/envs/berries.py:47-48 | any two safe agents get the same reward |
| `Rewards.NoSafeAgentsAllPenalised` | marlgrid/envs/berries.py:44-48 | the safe-index list is empty iff no agent is safe, and then every entry is -1, with no division |
| `Rewards.Carried` | marlgrid/envs/berries.py:37-43 | computes what one agent adds to the pool: the good reward for a good berry, the poisoned reward for a poisoned berry, nothing for an empty hand or a stranded agent (no contract of its own; PrefixStep and PoolByKind state its effect) |
| `Rewards.Pool` | marlgrid/envs/berries.py:33-43 | computes the pool: the safe agents' carried-berry values added in agent order, the good reward for a good berry, the poisoned reward for a poisoned berry, nothing for an empty hand or a stranded agent (no contract of its own; PoolByKind states it by kind) |
| `Rewards.PoolByRepeat` | marlgrid/envs/berries.py:34-43 | the pool is the good reward added once per safe agent carrying a good berry, plus the poisoned reward added once per safe agent carrying a poisoned berry |
| `Rewards.PoolByKind` | marlgrid/envs/berries.py:34-43 | the pool equals the good reward times the safe agents carrying a good berry plus the poisoned reward times the safe agents carrying a poisoned berry |
| `Rewards.SafeSumOfEqualShares` | marlgrid/envs/berries.py:47-48 | if every safe entry holds the same share, the safe entries add up to the share times the number of safe agents |
| `Rewards.SafeSumRepeats` | marlgrid/envs/berries.py:47-48 | if every safe entry holds the same share, the safe entries add up to that share added once per safe agent |
| `Rewards.NoSafeAgentsEmptyPool` | marlgrid/envs/berries.py:34-43 | with no agent in the safe zone the pool stays 0 |
| `Rewards.SafeRewardsAddUpToPool` | marlgrid/envs/berries.py:44-48 | the safe agents' rewards add up to exactly the pool; with no safe agent both are 0 |
| `Rewards.SafeIndicesIgnoreCarrying` | marlgrid/envs/berries.py:36-38 | which agents count as safe depends on positions only, not on what they carry |
| `Rewards.PoolIgnoresStranded` | marlgrid/envs/berries.py:37-45 | what a stranded agent carries adds nothing to the pool |
| `Rewards.StrandedCarryingIrrelevant` | marlgrid/envs/berries.py:37-48 | changing what a stranded agent carries changes no agent's terminal reward |
| `Rewards.ShareExample` | marlgrid/envs/berries.py:33-49 | with rewards 0.1 and -0.8, two safe agents carrying a good berry and nothing, and one stranded agent, the vector is [0.05, 0.05, -1] |

## Left out

- Float arithmetic: rewards and the clutter density are exact reals. Python floats may round `total_reward / len(safe_ixs)` and `density * (w-2) * (h-2)` differently.
- The grid engine: `MultiGrid`, `wall_rect`, `place_obj`, `try_place_obj`, `place_agents` and the base constructor (marlgrid/envs/berries.py:17,55-65 and 70-72). These are not part of this model. Only the cells at which dividing-wall blocks are requested are modelled, not what the grid ends up holding.
- Gaps in the built grid: the model states which wall cells are requested, not which rows end up open. On the boundary drawn by `wall_rect` a requested gap can still be closed: for height 3 or 4 the gap row `height // 2 + 1` is the bottom boundary row, and for width below 5 the wall column is the left boundary column, so fewer than two rows, or none, stay open.
- Clutter and berry placement (marlgrid/envs/berries.py:58-65): random placement with a retry budget of 100, and rejection of safe-zone cells, both done by the engine. The model does not say whether placement succeeds.
- `reward_decay` and `FLASHING_TIME_POISONED_BERRIES` are kept in `Config` but are only passed to the engine.
- The `getattr(self, ..., 0)` defaults: after construction every attribute they guard is set, so the model reads the fields directly. It does not model `_gen_grid` running before `__init__` has finished.
- An agent whose position is `None` would make `pose[0]` fail in Python. The model gives every agent a position.
- Berry kinds: the model assumes `Berry` and `PoisonedBerry` are disjoint. The classes are not part of this model.
- The communication channel and its wrapper: no source for them is part of this model.

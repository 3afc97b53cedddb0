# Tabular value iteration and Monte Carlo control, in Dafny

This project models the two tabular reinforcement-learning solvers of the
repository and proves what they compute.

**Value iteration** (`value_iteration`, module `DpValueIteration`). The
solver makes in-place (Gauss-Seidel) sweeps over the states of a finite MDP
whose transition model `env.P[s][a]` is a list of `(prob, next_state,
reward, done)` outcomes. Each sweep writes into `V[s]` the best one-step
lookahead value, computed from the current, partly updated `V`. It also
tracks `delta`, the largest change of the sweep. The sweeps stop at the first
one whose `delta` is below `theta`. A second pass then builds a deterministic
policy that puts all weight on the lowest-index best action.

The model has four layers:
- One sweep is a function of the values it starts from: `Partial` for the
  first k states, `Delta` for its running `delta`.
- Repeated sweeps are `Sweeps`, and the delta of each is `SweepDelta`.
- The source's loops are methods over an `array<real>`, proved equal to these
  functions.
- Lemmas state what the functions promise: which entries a step changes, that
  `delta` is the largest change, and how the run ends.

**On-policy first-visit Monte Carlo control** (`eps_mc_control`, module
`McOnEpsControl`). The class `Solver` owns:
- the dense table `Q`;
- the `policy` rows;
- the accumulators `returns_sum` and `returns_count`;
- a ghost history of every return credited to each (state, action) pair.

Its methods follow the source:
- `SelectAction` is `policy_fn`. Its greedy branch overwrites the state's row
  with a one-hot row.
- `TakeStep` and `GenerateEpisode` are the episode's `while True` loop.
- `CreditPair` and `CreditEpisode` are the first-visit backup over the
  episode's set of pairs.

The invariant `Solver.Valid` holds between calls:
- every policy row is uniform or one-hot, so it is a distribution;
- each accumulator entry is the sum or the count of the returns credited to
  its pair;
- each entry of Q is their mean.

Each episode is specified by `IsEpisode`, and its update by the pure function
`Credit`. Lemmas show that the update gives every pair of the episode exactly
one return, taken from the pair's first occurrence, and that the order in
which the set of pairs is visited does not matter.

Shared row helpers are in module `Tables`:
- `ArgMax`, which returns the first maximum, as `np.argmax` does;
- `Max`, one-hot rows, uniform rows and sums.

All arithmetic is on `real`.

Definition functions (`ArgMax`, `Max`, `ActionValues`, `Partial`, `Delta`,
`Sweeps`, `Credit` and the like) have no row of their own. Their meaning is
stated by the lemmas and methods about them, which the rows below cite.

## Model

| member | source | states |
|---|---|---|
| `Tables.Max2` | RL/classic/dp_value_iteration.py:39 | Python's `max(delta, change)` is at least both arguments and equals one of them |
| `Tables.ArgMaxIsFirstMax` | RL/classic/dp_value_iteration.py:54 | `np.argmax` gives an index whose value is at least every entry, and every earlier entry is strictly smaller (ties go to the lowest index) |
| `Tables.MaxAtArgMax` | RL/classic/dp_value_iteration.py:37 | `np.max(A)` is the entry at the argmax and bounds every entry of the row |
| `Tables.OneHotIsDistribution` | RL/classic/mc_on_eps_control.py:42 | `np.eye(nA)[k]` has 1.0 at k and 0.0 everywhere else, so it is non-negative and sums to 1 |
| `Tables.UniformIsDistribution` | RL/classic/mc_on_eps_control.py:36 | the initial row `ones(nA) / nA` has nA entries, all non-negative, summing to 1 |
| `Tables.RowShapeIsDistribution` | RL/classic/mc_on_eps_control.py:36-45 | a policy row that is uniform or one-hot is a probability distribution |
| `Tables.SumAppend` | RL/classic/mc_on_eps_control.py:84 | adding one return to the sum of a history gives the sum of the extended history |
| `DpValueIteration.LookAhead` | RL/classic/dp_value_iteration.py:33-36 | the accumulated array `A` equals that lookahead row, computed from the current values |
| `DpValueIteration.GreedyRow` | RL/classic/dp_value_iteration.py:37-56 | the value a sweep writes is the largest action value. It is reached at the greedy action, which is the lowest index of that value. The policy row built there is a distribution |
| `DpValueIteration.UpdateState` | RL/classic/dp_value_iteration.py:31-41 | backing up state s writes the best action value under the current V into index s and changes nothing else; the returned change is `abs(best - V[s])` |
| `DpValueIteration.Sweep` | RL/classic/dp_value_iteration.py:29-41 | one `for s` pass leaves V equal to the in-place sweep and returns that sweep's `delta` |
| `DpValueIteration.PartialUntouched` | RL/classic/dp_value_iteration.py:31-41 | while a sweep is at state k, states from k onwards still hold the values the sweep began with |
| `DpValueIteration.PartialSettled` | RL/classic/dp_value_iteration.py:31-41 | a state updated earlier in the sweep keeps the value computed from the values left by the states before it; later updates in the sweep see it |
| `DpValueIteration.DeltaStep` | RL/classic/dp_value_iteration.py:39 | each state raises `delta` to the change between its new value and its value at the start of the sweep |
| `DpValueIteration.DeltaBoundsChange` | RL/classic/dp_value_iteration.py:29-41 | `delta` is at least the change of every state the sweep visited |
| `DpValueIteration.DeltaIsAttained` | RL/classic/dp_value_iteration.py:29-41 | `delta` is non-negative and is 0 or the change of some visited state, so it is the largest change |
| `DpValueIteration.ConvergedSweep` | RL/classic/dp_value_iteration.py:42-44 | when a sweep's `delta` is below theta, no state moved by theta or more in it |
| `DpValueIteration.SlowSweepsExtend` | RL/classic/dp_value_iteration.py:27-44 | one more sweep with `delta >= theta` keeps every sweep so far slow |
| `DpValueIteration.RunEnds` | RL/classic/dp_value_iteration.py:27-44 | the loop's exit facts give `RunEnded`: the run stops at the first sweep with `delta < theta`, and only there (with no state moved by theta in that sweep), or it reaches the sweep bound with every sweep slow |
| `DpValueIteration.NextSweep` | RL/classic/dp_value_iteration.py:29-41 | the next sweep of a run takes V from i sweeps to i + 1 and returns the `delta` of sweep i |
| `DpValueIteration.SweepUntilConverged` | RL/classic/dp_value_iteration.py:27-44 | the `while True` loop leaves V equal to the sweeps done and ends as `RunEnded` says |
| `DpValueIteration.ExtractPolicy` | RL/classic/dp_value_iteration.py:46-56 | every row of the new policy is one-hot at the argmax of that state's lookahead under V; V is not modified |
| `DpValueIteration.ValueIteration` | RL/classic/dp_value_iteration.py:10-58 | V starts at zeros, the sweeps run and end as `RunEnded` says, and the returned policy is greedy for the returned V |
| `McOnEpsControl.PrefixExtend` | RL/classic/mc_on_eps_control.py:68-71 | appending (state, action, reward) for the selector's action and the environment's reward extends the episode |
| `McOnEpsControl.EpisodeEnds` | RL/classic/mc_on_eps_control.py:67-74 | a prefix whose last step is `done` is a whole episode |
| `McOnEpsControl.EpisodeInRange` | RL/classic/mc_on_eps_control.py:40-45 | every step of an episode is in a state of the table and takes an action below nA |
| `McOnEpsControl.GreedyInExtend` | RL/classic/mc_on_eps_control.py:40-42 | after one more step, a state has had a greedy selection iff it had one before or the new step is a greedy one in it |
| `McOnEpsControl.PolicyStep` | RL/classic/mc_on_eps_control.py:40-45 | after each step, every row is one-hot at Q's argmax if its state has been greedily selected, and otherwise keeps its row from before the episode |
| `McOnEpsControl.EpisodesAgree` | RL/classic/mc_on_eps_control.py:65-74 | two episodes with the same Q, start, draws and environment agree step by step |
| `McOnEpsControl.EpisodeIsDetermined` | RL/classic/mc_on_eps_control.py:65-74 | such episodes are equal and both stop, or both fail to stop: the episode is fixed by its inputs |
| `McOnEpsControl.FirstOccurrence` | RL/classic/mc_on_eps_control.py:80-81 | `next(...)` returns an index holding the pair, and no earlier index holds it |
| `McOnEpsControl.DiscountedShift` | RL/classic/mc_on_eps_control.py:83 | starting the powers of `discount` one higher multiplies the discounted sum by `discount` |
| `McOnEpsControl.ReturnRecurrence` | RL/classic/mc_on_eps_control.py:83 | the return `G` from index i is `reward_i + discount * G(i + 1)`, and the return from the end is 0 |
| `McOnEpsControl.CreditedOnce` | RL/classic/mc_on_eps_control.py:76-86 | after an episode, each of its pairs has gained exactly one return, the one from its first occurrence; every other pair keeps its history |
| `McOnEpsControl.CreditSomeStep` | RL/classic/mc_on_eps_control.py:77-86 | crediting one more pair of the set appends its first-visit return to its history |
| `McOnEpsControl.CreditSomeAfterOne` | RL/classic/mc_on_eps_control.py:77-86 | crediting a pair first and then a set without it is crediting the set with the pair added |
| `McOnEpsControl.CreditInOrderIsCreditSome` | RL/classic/mc_on_eps_control.py:76-86 | crediting distinct pairs one by one, in any order, credits exactly that set of pairs |
| `McOnEpsControl.AnyOrderCredits` | RL/classic/mc_on_eps_control.py:76-86 | every visiting order of `states_in_episode` gives the same update as the episode's set of pairs |
| `McOnEpsControl.RunningMean` | RL/classic/mc_on_eps_control.py:84-86 | `(returns_sum + G) / (returns_count + 1)` is the mean of the history extended by G |
| `McOnEpsControl.TalliesStep` | RL/classic/mc_on_eps_control.py:84-85 | adding G to `returns_sum[p]` and 1 to `returns_count[p]` keeps them the sum and the count of p's history |
| `McOnEpsControl.MeanTableStep` | RL/classic/mc_on_eps_control.py:86 | writing the mean of p's new history into `Q[state][action]` keeps every entry of Q the mean of its pair's history |
| `McOnEpsControl.CreditOne` | RL/classic/mc_on_eps_control.py:84-86 | one pass of the loop body keeps the accumulators and Q consistent with the histories |
| `McOnEpsControl.Solver.constructor` | RL/classic/mc_on_eps_control.py:29-36 | the accumulators are empty, Q is all zeros and every policy row is uniform at 1/nA |
| `McOnEpsControl.Solver.SelectAction` | RL/classic/mc_on_eps_control.py:38-45 | greedy branch (`coin > epsilon`): the lowest-index argmax of `Q[state]`, and only row `state` of the policy becomes one-hot there. Otherwise the random action is returned and the policy is untouched |
| `McOnEpsControl.Solver.TakeStep` | RL/classic/mc_on_eps_control.py:67-74 | one loop pass appends (state, action, reward) for the selected action and returns the environment's answer |
| `McOnEpsControl.Solver.GenerateEpisode` | RL/classic/mc_on_eps_control.py:63-74 | the episode follows the selector and the environment, starting from `reset`. It stops right after the first `done` step, so that step is the last element. States and actions are in range, and the policy rows are as `PolicyStep` describes |
| `McOnEpsControl.Solver.CreditPair` | RL/classic/mc_on_eps_control.py:78-86 | p's history gains its first-visit return, no other pair's history changes, and `Q[p]` becomes the mean of p's returns |
| `McOnEpsControl.Solver.CreditEpisode` | RL/classic/mc_on_eps_control.py:76-86 | after the loop over `states_in_episode`, the histories are those the episode's update gives, and Q is their mean |
| `McOnEpsControl.EpsMcControl` | RL/classic/mc_on_eps_control.py:11-89 | after the episodes, the accumulators hold the sum and count of the returns credited so far and Q their mean, every policy row is uniform or one-hot (a distribution by `RowShapeIsDistribution`), and no pair has more returns than episodes run |

## Left out

- Printing, `sys.stdout.flush`, `sys.path` changes and the `__main__` demo blocks are output and scripting only.
- The `gridWorld` environment is not part of this model. In value iteration, `env` is a value `Env(nS, nA, P)`. In Monte Carlo control, `env.reset()` for episode i is `starts[i]`, and `env.step(action)` is a function `step(state, action, noise)` of the current state.
- `np.random.seed` and the random numbers are parameters: each time step of an episode takes a `Draw(coin, randomAction, noise)`. The greedy branch is taken when `coin > epsilon`, as in the code. The draws' distribution, and so the exploration rate, is not modelled.
- Floating point: all values, probabilities, rewards, `discount`, sums and quotients are exact `real`s.
- DpValueIteration.SweepUntilConverged: the source's `while True` has no bound, and its termination rests on a contraction argument that is not modelled. The model takes a bound `maxSweeps`, and `converged` says whether the `delta < theta` exit was taken.
- McOnEpsControl.Solver.GenerateEpisode: an episode that does not reach `done` runs forever in the source. The model stops it when its draws are used up and reports `terminated == false`.
- McOnEpsControl.EpsMcControl: if an episode does not terminate, the run stops there and returns `episodesRun` below `numEpisodes`.
- McOnEpsControl.EpsMcControl: the contract gives the tables' invariant and a bound on each history's length, not the episodes themselves. Each episode is specified by `GenerateEpisode` and `CreditEpisode`.
- `Q` is a dense table of nS rows. The source uses a `defaultdict` keyed by state whose rows appear when first read. Every row read has the same zero initial value either way, but the model does not show which states were never read.
- `returns_count` is a natural number. The source's `defaultdict(float)` counts in steps of 1.0, so the quotient is the same.
- The order in which the set `states_in_episode` is visited is arbitrary in the model (`:|`), and `AnyOrderCredits` shows the result is the same for every order. The update in place of `Q` and the accumulators is per pair, as in the source.
- The value-iteration environment must have `nA > 0` (`np.max` and `np.argmax` fail on an empty row). Its next states must be below nS (an index into V). The Monte Carlo solver needs `nA > 0`, random actions below nA, and next states below nS from `step`.
- The commented-out alternative `policy_fn` is dead code and is not modelled.
- The `done` flag of `env.P` outcomes is read but unused by the source, and so by the model.
- The default arguments `theta=0.0001, discount_factor=1.0` of `value_iteration` and `discount=0.99, epsilon=0.1` of `eps_mc_control` are not modelled. The model has no defaults, so every caller passes these values.
- The Monte Carlo solver also needs every start state that `env.reset()` gives (`starts[i]`) to be below nS, since it indexes `Q` and `policy`.
- `Env.Valid` asks for exactly nS rows in `P`, each with exactly nA outcome lists. The source only reads `P[s][a]` for s < nS and a < nA, so it would also accept a larger table.

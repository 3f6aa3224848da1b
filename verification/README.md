# Ant Colony Optimization for the Travelling Salesman Problem

A Dafny model of the engine class `AntColonyOptimization` (`aco/aco.js`), with proofs of what it guarantees.

The engine searches for a short closed tour through N cities in the plane. It keeps two N×N tables:

- **Distances:** computed once from the coordinates.
- **Pheromones:** start at 1.0 everywhere.

It then runs a fixed number of iterations. Each iteration does four things:

- It creates `numAnts` fresh ants.
- Each ant builds a tour. It starts at a random city and moves by roulette-wheel selection among the cities it has not visited. A candidate's weight is `pheromone^alpha * (1/distance)^beta`. The ant finally closes the tour back to its start. A strictly shorter tour replaces the best so far, as a copy.
- All pheromones evaporate by the factor `1 - evaporation`. Each ant then adds `Q / tour length` to both directions of every edge of its closed tour.
- The best length and a copy of the best tour are appended to the history.

Options are read with JavaScript's `||`, so a missing option or an option of 0 takes its default. The defaults are:

| option | default |
|---|---|
| `numAnts` | 50 |
| `numIterations` | 100 |
| `alpha` | 1.0 |
| `beta` | 5.0 |
| `evaporation` | 0.5 |
| `Q` | 100 |

## Layout

| file | module | contents |
|---|---|---|
| `matrices.dfy` | `Matrices` | N×N tables as sequences of rows, with shape and sign predicates and the single-entry write `m[i][j] = v` |
| `distances.dfy` | `Distances` | cities and the nested fill loop of `calculateDistances` |
| `tours.dfy` | `Tours` | see below |
| `roulette.dfy` | `Roulette` | see below |
| `pheromones.dfy` | `Pheromones` | see below |
| `colony.dfy` | `Colony` | see below |

- **`tours.dfy`:** the `Ant` class (tour, visited set, accumulated length); permutations; `Walk`, a generic build-by-choice walk; open, closed and cyclic tour lengths.
- **`roulette.dfy`:** the wheel. `Spin` gives the slot the decrementing loop stops at, with its stopping rule and its interval characterisation.
- **`pheromones.dfy`:** the initial table. It also defines what one update deposits on each entry, and the lemmas about an update: it keeps symmetry and positivity, entries on no tour only decay, and entries on a tour gain.
- **`colony.dfy`:** the class `AntColonyOptimization` with its option defaults, tour construction, best tracking, pheromone update and the iteration loop.

How the platform is handled:

- **Square root and power:** `Math.sqrt` and `Math.pow` are parameters (`sqrt`, `pow`) of the operations that use them.
- **Randomness:** `Math.random()` is a stream parameter, `random: int -> real`, with values in [0, 1). An ant takes N draws from the stream:
  - `draws[0]` picks the start city `floor(draws[0] * N)`;
  - `draws[k]` is the roulette draw for the k-th move.

  The ants take their draws in order, one ant after another.
- **Infinite best length:** `Infinity` is the `Infinity` case of the datatype `Length`.
- **No best tour:** `null` is `None`.

## Model

| member | source | states |
|---|---|---|
| Colony.OrInt | aco/aco.js:12-13 | a count option that is present and non-zero is kept; a missing or zero option gives the default; a non-zero default never yields 0 |
| Colony.OrReal | aco/aco.js:14-17 | a real option that is present and non-zero is kept; a missing or 0.0 option gives the default (so `evaporation: 0` becomes 0.5 and `Q: 0` becomes 100) |
| Colony.AntColonyOptimization.constructor | aco/aco.js:7-27 | each parameter is its `||` default (50, 100, 1.0, 5.0, 0.5, 100); the distance table holds `sqrt` of the squared distance off the diagonal; the pheromones are the initial table; there is no best tour, the best length is infinite and the history is empty; the invariants hold and the pheromone table is positive |
| Distances.CalculateDistances | aco/aco.js:32-47 | the result is N×N, symmetric and zero on the diagonal, and each off-diagonal entry is `sqrt(dx*dx + dy*dy)` of its two cities |
| Distances.SqDistSymmetric | aco/aco.js:38-40 | the squared distance does not depend on the order of the two cities |
| Pheromones.InitializePheromones | aco/aco.js:52-56 | an N×N table with every entry 1.0, hence symmetric and positive |
| Colony.AntColonyOptimization.PheromoneLevel | aco/aco.js:198-200 | the level between two cities is the same in both directions |
| Colony.AntColonyOptimization.WheelLists | aco/aco.js:146-155 | the wheel `Wheel` holds exactly the unvisited cities, each once, in ascending order, each with its score `Score` = `pow(pheromone, alpha) * pow(1 / distance, beta)` |
| Colony.AntColonyOptimization.ScoreCandidates | aco/aco.js:142-155 | the scoring loop builds the wheel `Wheel` (the unvisited cities in ascending order, each with its `Score`) and the total of their scores |
| Colony.AntColonyOptimization.SpinWheel | aco/aco.js:158-167 | the decrementing loop returns the slot the wheel selects for the draw |
| Roulette.Spin | aco/aco.js:159-167 | the slot chosen is always one of the candidates |
| Roulette.SpinStops | aco/aco.js:159-167 | every remainder before the chosen slot is positive; the chosen slot brings the remainder to ≤ 0 unless it is the last candidate (the fallback) |
| Roulette.SpinUnique | aco/aco.js:159-167 | the stopping rule determines the slot: any slot that obeys it is the chosen one |
| Roulette.SelectStops | aco/aco.js:158-167 | with r = u * total, the first candidate whose prefix sum reaches r is selected, or the last candidate when none does |
| Roulette.SpinInterval | aco/aco.js:158-167 | with non-negative weights and r below the total, candidate k is chosen if and only if r lies in (sum of weights before k, that sum plus k's weight]; a property of the wheel alone, which `ChooseProportional` applies to the colony's wheel |
| Roulette.SelectProportional | aco/aco.js:158-167 | on a wheel of positive scores over distinct cities, a draw u in [0, 1) selects candidate k if and only if u * total lies in k's slice of the wheel |
| Colony.AntColonyOptimization.SelectNextCity | aco/aco.js:141-168 | while some city is unvisited, the city returned is an unvisited city below N, and it is the roulette choice `Choose` for the draw |
| Colony.AntColonyOptimization.WheelPositive | aco/aco.js:148-150 | when `pow` is positive on positive bases and the pheromone table is positive, every candidate's score is positive |
| Colony.AntColonyOptimization.ChooseProportional | aco/aco.js:141-168 | under the same hypotheses, `selectNextCity`'s roulette picks candidate k if and only if the draw times the total falls in k's slice, so a city is chosen in proportion to its score |
| Colony.AntColonyOptimization.Choose | aco/aco.js:141-168 | the roulette choice is an unvisited city below N |
| Colony.AntColonyOptimization.ChooserPicksUnvisited | aco/aco.js:146-147 | the roulette rule, as a choice function, only picks cities not yet visited |
| Tours.Walk | aco/aco.js:113-125 | a walk after k moves has k + 1 cities and starts at the start city |
| Tours.WalkPrefix | aco/aco.js:118-123 | a shorter walk is a prefix of a longer one for the same draws |
| Tours.WalkSteps | aco/aco.js:118-123 | move k of a walk is the choice made from the cities visited before it |
| Tours.WalkDistinct | aco/aco.js:118-123 | under a rule that picks unvisited cities, a walk of at most N cities stays on the cities and repeats none |
| Colony.AntColonyOptimization.Tour | aco/aco.js:111-125 | the tour built from the draws has k + 1 cities, all below N, none repeated, and starts at `floor(draws[0] * N)` |
| Colony.AntColonyOptimization.TourExtends | aco/aco.js:118-123 | while fewer than N cities are visited, an unvisited one remains, and one more move appends the roulette choice from the last city |
| Colony.AntColonyOptimization.TourSteps | aco/aco.js:118-123 | every move of a tour is the roulette choice, for that move's own draw, from the previous city among the cities visited before it |
| Colony.AntColonyOptimization.Advance | aco/aco.js:119-124 | one pass of the while loop extends the tour by one city, keeps `visited` equal to the tour's cities and adds the walked edge to the length |
| Colony.AntColonyOptimization.BuildTour | aco/aco.js:113-125 | from an empty ant, the loop ends with a permutation of 0..N-1 that is the roulette tour of the draws; `visited` is its set of cities and the length is the open path length |
| Colony.AntColonyOptimization.ConstructSolution | aco/aco.js:111-136 | the ant's tour is a permutation and the roulette tour of its draws; its length is the path length plus the closing edge; the best is replaced exactly when the length is strictly shorter (a tie keeps the earlier tour) |
| Colony.AntColonyOptimization.RecordBest | aco/aco.js:132-135 | a strictly shorter scored tour becomes the best, otherwise nothing changes; the invariants are kept |
| Colony.AntColonyOptimization.WalkAnt | aco/aco.js:111-136 | one ant's tour is the roulette tour of its draws, a permutation whose length is its closed tour length, which is positive; the best becomes that tour exactly when its length is strictly shorter than the previous best, and otherwise stays as it was |
| Colony.AntColonyOptimization.ConstructSolutions | aco/aco.js:66-68 | after all the ants have built their tours, each tour is a permutation of positive length no shorter than the best, and each ant's length is its tour's closed length; the best is no longer than before; an unchanged best length keeps the previous tour, and a changed one is the length and tour of the first ant that is strictly shorter than every ant before it (a tie keeps the earlier ant) |
| Colony.AntColonyOptimization.SendAnts | aco/aco.js:66-68 | the loop over the ants records each ant's final length and tour; each recorded length is its tour's closed length (`AllScored`), and the best over them obeys `BestSoFar` |
| Colony.AntColonyOptimization.SendAnt | aco/aco.js:66-68 | one more ant walks and its length and tour are appended to the record; every recorded tour stays scored and the best stays the first strictly shortest so far |
| Colony.AntColonyOptimization.AllScoredStep | aco/aco.js:124-129 | appending a tour with its closed length keeps every recorded length equal to its tour's closed length |
| Colony.BestSoFarStep | aco/aco.js:132-135 | one more ant under the strict `<` rule keeps the best the previous one or the first shortest ant, no longer than any ant so far |
| Colony.FirstShortestStep | aco/aco.js:132-135 | under the strict `<` rule, the best after one more ant is unchanged or the first ant strictly shorter than all the ants before it |
| Colony.AllWalkedStep | aco/aco.js:132-135 | a best that only gets shorter stays no longer than every ant walked so far |
| Colony.BestAmongAnts | aco/aco.js:66-68 | the best described over the recorded lengths and tours is the same statement about the ants themselves |
| Tours.Ant.constructor | aco/aco.js:99-103 | a new ant has an empty tour, no visited city and length 0 |
| Colony.AntColonyOptimization.CreateAnts | aco/aco.js:96-106 | `numAnts` ants (none when it is ≤ 0), all new, all distinct and all empty |
| Matrices.Write | aco/aco.js:189-190 | writing one entry of a table changes that entry and no other, and keeps the table N×N |
| Colony.AntColonyOptimization.Evaporate | aco/aco.js:175-179 | every entry is multiplied by `1 - evaporation` and the table keeps its shape |
| Colony.AntColonyOptimization.LayTrail | aco/aco.js:182-192 | each entry gains `Q / length` once for every write the ant's closed tour makes to it, including the wrap-around edge |
| Colony.AntColonyOptimization.UpdatePheromones | aco/aco.js:173-193 | every entry becomes its evaporated value plus all the ants' deposits on it; symmetry is kept; with `evaporation < 1`, `Q >= 0` and positive lengths, positivity is kept |
| Pheromones.LaidCounts | aco/aco.js:185-191 | what an ant lays on an entry is its deposit times the number of times its tour writes that entry |
| Pheromones.HitsSymmetric | aco/aco.js:189-190 | every edge is written in both directions, so (i, j) and (j, i) receive equally many writes |
| Pheromones.HitsIffEdge | aco/aco.js:185-191 | an entry is written if and only if it lies on an edge of the closed tour |
| Pheromones.DepositSymmetric | aco/aco.js:182-192 | the ants deposit the same amount on (i, j) and on (j, i) |
| Pheromones.DepositNonNegative | aco/aco.js:182-192 | with `Q >= 0` and positive lengths, no deposit is negative |
| Pheromones.OffTourNoDeposit | aco/aco.js:182-192 | an entry on no ant's tour receives nothing |
| Pheromones.OnTourDeposit | aco/aco.js:182-192 | with `Q > 0` and positive lengths, an entry on some ant's tour receives a positive amount |
| Pheromones.UpdateSymmetric | aco/aco.js:173-193 | an update keeps a symmetric table symmetric |
| Pheromones.UpdatePositive | aco/aco.js:173-193 | with `evaporation < 1`, `Q >= 0` and positive lengths, an update keeps a positive table positive |
| Pheromones.UpdateOffTour | aco/aco.js:173-193 | an entry on no ant's tour only evaporates |
| Pheromones.UpdateOnTour | aco/aco.js:173-193 | with `Q > 0`, an entry on some ant's tour ends above its evaporated value |
| Tours.Next | aco/aco.js:187 | the city after step s of a closed tour is `tour[(s + 1) % length]` |
| Tours.AppendCity | aco/aco.js:122-124 | appending a city adds it to the visited set, adds the edge from the last city to the length, and keeps an unrepeated tour unrepeated when the city is new |
| Tours.ClosedIsCycle | aco/aco.js:128-129 | the length the ant accumulates (path plus closing edge) is the sum over the cyclic edges that the deposit loop walks |
| Tours.ClosedLengthPositive | aco/aco.js:183 | a permutation of two or more cities with positive distances between distinct cities has a positive closed length, so `Q / length` is defined |
| Tours.DistinctCard | aco/aco.js:114-123 | a tour names at most as many cities as it has steps, and exactly as many if and only if no city repeats |
| Tours.PermutationCovers | aco/aco.js:118 | a tour of N distinct cities below N visits every city |
| Tours.UnvisitedExists | aco/aco.js:118-120 | while fewer than N cities are visited, some city below N is unvisited, so the candidate list is never empty |
| Colony.AntColonyOptimization.RecordIteration | aco/aco.js:74-78 | the history gains one record holding the iteration index, the best length and the best tour; the history invariant is kept |
| Colony.AntColonyOptimization.Iterate | aco/aco.js:62-78 | one iteration's ants hold permutations of positive length, each ant's length being its tour's closed length, so each deposits `Q` over its true tour length; the pheromones are the update of the old table by those ants; the best does not grow; an unchanged best length keeps the previous tour, and a changed one is the first ant strictly shorter than all the ants before it; the history gains exactly the record of this iteration |
| Colony.AntColonyOptimization.Conclude | aco/aco.js:71-78 | the pheromones are the update by the iteration's ants, positivity is kept, and the history gains exactly the record of the best so far |
| Colony.AntColonyOptimization.Run | aco/aco.js:61-91 | the history gains exactly `numIterations` records (none when it is ≤ 0), with indices 0, 1, …; the last holds the final best; the recorded bests never increase; the best never increases; positivity of the pheromones is kept; with no iteration to run, the pheromones and the best are unchanged; the result is the best tour, the best length and the history |
| Colony.Draws | aco/aco.js:158 | an ant's draws are the N stream values from its offset, each in [0, 1) |
| Colony.DrawsConcat | aco/aco.js:111-125 | reading n draws and then m more reads the n + m draws in order: consecutive blocks of the stream join without overlap or gap |
| Colony.DrawsBlock | aco/aco.js:66-68 | ant a, reading N draws from `next + a * N`, reads exactly the a-th block of N values of the iteration's draws, so the ants' blocks are disjoint and consecutive |
| Colony.StartCityIsFloor | aco/aco.js:113 | the start city is the integer part of `u * N` |

## Left out

- `aco/visualization.js` and `foraging/` are not part of this model.
- The `callback` hook in `run`, which only observes the iteration and its ants, is not modelled.
- Floating point is not modelled. Lengths, scores and pheromones are exact reals.
  - `Math.sqrt` and `Math.pow` are uninterpreted parameters.
  - NaN, rounding and overflow are not modelled.
- Nothing is assumed about `pow` in general. The proportional-selection lemmas (`ChooseProportional`, `WheelPositive`) take as a hypothesis that `pow` is positive on positive bases, which `Math.pow` satisfies until it underflows.
- `Math.random()` is not modelled as a global generator. It is the stream parameter `random`, read in call order.
- Coinciding cities (a zero distance off the diagonal) are not modelled. The source then computes `1 / 0 = Infinity` as a visibility. The tour-building operations require positive off-diagonal distances.
- A single city is not modelled when iterations run. The source then lays `Q / 0 = Infinity`. `Run` requires N ≥ 2 when `numIterations > 0`.
- N = 0 is not modelled. The source throws a TypeError at `this.distances[lastCity]`. `ConstructSolution` requires N ≥ 1.
- `numAnts` ≤ 0 with iterations to run is not modelled. The source throws a TypeError when it copies the `null` best tour. `Run` requires at least one ant, or a best tour that already exists.
- Options are integers for the counts and reals for the rates. Non-integer counts (the loop `i < 2.5` runs 3 times) and non-numeric options are not modelled.
- The tables are sequences of rows; each write `m[i][j] = v` rebuilds the table value. In-place update of the nested arrays is therefore not captured. No two rows share storage in the source either, so aliasing does not arise.
- Copies of the best tour (`[...ant.tour]`, `[...this.bestTour]`) are sequence values. They are copies by construction.
- The methods are split into helpers, each with its own loop or step:
  - `selectNextCity` into `ScoreCandidates` and `SpinWheel`;
  - `constructSolution` into `BuildTour`, `Advance` and `RecordBest`;
  - `updatePheromones` into `Evaporate` and `LayTrail`;
  - the body of `run` into `Iterate`, `ConstructSolutions` (with its loop `SendAnts` and its step `SendAnt`), `WalkAnt`, `Conclude` and `RecordIteration`.
- SelectNextCity: requires an unvisited city. With none left the source reads `probabilities[-1].city` and throws, but `constructSolution` never calls it in that state.
- ConstructSolutions: states that every ant's tour is a permutation whose closed length is the ant's length, but not that it is the roulette tour of that ant's draws. `ConstructSolution` states this per ant.
- SendAnts: records each ant's closed length but not that its tour is the roulette tour of its draws. `WalkAnt` states that link for each ant; carrying it through the loop made the proof too costly.
- Iterate: like `ConstructSolutions`, does not state that each ant's tour is the roulette tour of its draws.
- Run: does not expose each iteration's ants, which only the callback sees.

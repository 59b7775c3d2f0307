# Screened all-pairs energy of a bonded particle set (happy-charges `Energy.java`)

`Energy.java` computes the total electrostatic energy of charged atoms that
are joined by a bond graph. Close pairs in the bond graph are screened:
- A pair one or two bonds apart contributes nothing.
- A pair exactly `MAX_LINK = 3` bonds apart contributes half.
- Every other pair contributes the full Coulomb term.

The program does this in four steps:
1. It reads the bonds into symmetric adjacency lists.
2. It classifies every atom with a breadth-first search of depth `MAX_LINK` (`findClosest`).
3. It sums the screened terms of the pairs `(j, i)`, `j < i`. The sum is split across `tn` worker objects (`Calculator`), which take strided outer rows.
4. It adds the partial sums in worker order and multiplies by `ENERGY_COEFF` once.

This project models that core in Dafny, with atoms as the indices `0..N-1` and
the bond graph as `seq<seq<nat>>`. The modules are:

- `Graph` (`graph.dfy`): the reference notion of bond distance.
  - `Ball(g, c, k)` is the set of atoms at most `k` bonds from `c`.
  - `ExactHops` and `Level` give the exact hop count.
  - Walks give the path-by-path view, and `BallIffWalk` ties the two views together.
  - Bond closure and symmetry facts about `Ball` and `Level` are proved here too.
- `Classifier` (`classifier.dfy`): model of `findClosest`.
  - `Closest(g, c, d)` is the specification: every atom other than `c` within `d` bonds, mapped to its hop count.
  - `FindClosest` is the breadth-first search as written. It uses a FIFO queue `seq<nat>` and a `map<nat, nat>` updated in a `while` loop, with the early `break`. It is proved equal to `Closest`.
  - Further lemmas cover shortest walks, completeness, isolated atoms and symmetry.
- `Screening` (`screening.dfy`): the branch of `Atom.energy`, with `MaxLink = 3`.
- `Bonds` (`bonds.dfy`): the bond loop of `load`, over the already parsed integer list.
  - It covers both out-of-bounds failures the Java code can raise.
  - It proves that the built adjacency is symmetric, counting repeated bonds.
- `Reducer` (`reducer.dfy`): `run` and its local class `Calculator`.
  - `Calculator` is a class with an `energy` field that `Run` accumulates into.
  - `Energy.run` becomes a method that:
    - builds every classification map with `FindClosest`;
    - creates and runs the `tn` calculators one after another, kept in an array;
    - adds their `energy` fields in worker order and scales the total once.
  - The stride arithmetic (disjointness and coverage) is proved as lemmas.
- `Components` (`components.dfy`): `component`, a stack traversal that collects the atoms reachable from an initial atom.

Two quantities are parameters rather than computed values:
- The raw Coulomb term `charge(j) * charge(i) / dist(j, i)` is an arbitrary function `Coulomb = (nat, nat) -> real`.
- The worker count `tn` (`availableProcessors()`) is any positive number.

### Row 1 is never summed

`Energy.run` creates `new Calculator(t + 1, tn)` (Energy.java:106), and
`Calculator.run` starts at `1 + offs` (Energy.java:91). So worker `t` begins
at row `t + 2`, row 1 is never visited, and the pair of atoms 0 and 1 is
never summed.

The model follows the code as written:
- `Reducer.StridesCover` proves that no worker visits rows 0 and 1, and that every row from 2 on has a worker.
- `Reducer.RowOneSkipped` shows that the missing part is exactly the term of the pair (0, 1).
- `Reducer.Run` is proved equal to `EnergyCoeff` times the rows `2 <= i < N`.

## Model

| member | source | states |
|---|---|---|
| Classifier.Closest | Energy.java:122-142 | the classification map never holds the centre, and every hop count in it lies in [1, d] |
| Classifier.FindClosest | Energy.java:122-142 | the breadth-first search returns exactly `Closest(g, center, dist)`; its ghost log of enqueued atoms has no repeats and lists exactly the centre and the classified atoms |
| Classifier.ScanStart | Energy.java:128-133 | dequeuing the head: the remaining queue is ordered, and every atom closer than the head is already recorded |
| Classifier.ScanRecord | Energy.java:134-137 | recording a fresh neighbour at nextLevel keeps every recorded level exact and the queue levels ordered |
| Classifier.ScanEnd | Energy.java:133-138 | after the neighbour scan, the dequeued atom has all its neighbours recorded |
| Classifier.CutComplete | Energy.java:129-132 | when the `break` fires, every atom within dist bonds has been recorded |
| Classifier.BallRecorded | Energy.java:127-139 | every atom closer than the head of the queue (every atom within dist, once the queue is empty) is recorded |
| Classifier.InnerAtomDequeued | Energy.java:127-138 | a recorded atom below the head's level has left the queue and been expanded |
| Classifier.FinalMap | Energy.java:140-141 | once every atom within dist is recorded, removing the centre leaves exactly `Closest` |
| Classifier.LogRecord | Energy.java:134-136 | enqueueing only unrecorded atoms keeps the enqueue log free of repeats |
| Classifier.ClosestIsShortestPath | Energy.java:127-138 | the recorded hop count is the number of bonds of some walk from the centre, and no walk is shorter |
| Classifier.ClosestComplete | Energy.java:127-138 | every atom other than the centre that ends a walk of at most d bonds is classified, at no more bonds than that walk |
| Classifier.IsolatedAtom | Energy.java:127-140 | an atom with no bonds yields the empty map |
| Classifier.ClosestSymmetric | Energy.java:133-136 | with symmetric bonds, b is in a's map iff a is in b's, with the same hop count |
| Graph.LevelSymmetric | Energy.java:133-136 | with symmetric bonds, the hop count from a to b equals the one from b to a |
| Graph.BallSymmetric | Energy.java:133-136 | with symmetric bonds, c is within k bonds of t whenever t is within k bonds of c |
| Graph.BallIffWalk | Energy.java:127-138 | being within k bonds is the same as ending a walk of at most k bonds |
| Graph.ClosedHoldsBall | Energy.java:161-166 | a set that holds c and is closed under bonds holds every ball around c |
| Graph.Level | Energy.java:129 | the level is at most k, and is the exact hop count of every atom within k bonds |
| Screening.Multiplier | Energy.java:36-43 | the screening factor is 1 exactly when the target is absent, 0 exactly when its distance is below MAX_LINK, and 1/2 otherwise |
| Screening.Energy | Energy.java:34-44 | the screened term equals the screening factor times the raw term |
| Screening.ScreeningRule | Energy.java:36-43 | on a map built at depth MAX_LINK: the centre itself or an atom more than 3 bonds away keeps v; an atom 1 or 2 bonds away gives 0; an atom exactly 3 bonds away gives v/2 |
| Screening.MultiplierSymmetric | Energy.java:93 | with symmetric bonds, the factor for b around a equals the factor for a around b |
| Bonds.LinkBonds | Energy.java:61-66 | the list is accepted iff it is an even number of atom indices below n, and otherwise fails at the first faulty position; the result gives each atom its partners in bond order, and is a valid, symmetric graph in which b is bonded to a as often as a to b |
| Bonds.NoFaultIffWellFormed | Energy.java:61-63 | the pair loop meets no fault iff the list is a whole number of pairs of atom indices |
| Bonds.LinkStep | Energy.java:64-65 | appending y to x's list and then x to y's extends every atom's partners by one more bond |
| Bonds.PartnersSymmetric | Energy.java:64-65 | b occurs among a's partners as often as a occurs among b's |
| Bonds.PartnersGraph | Energy.java:61-66 | the adjacency of an accepted list is a valid, symmetric bond graph with symmetric bond counts |
| Bonds.BondBack | Energy.java:64-65 | a partner of a is an atom that has a among its partners |
| Bonds.AddedSymmetric | Energy.java:64-65 | a single bond adds b to a's list as often as it adds a to b's list |
| Reducer.Calculator.constructor | Energy.java:85-88 | the calculator stores its offset and stride, and starts with energy 0 |
| Reducer.Calculator.Run | Energy.java:89-96 | the worker's energy is the sum of the rows visited from 1 + offs in steps of step, each row holding every pair (j, i) with j < i |
| Reducer.Run | Energy.java:98-118 | atom a's classification map is built by `FindClosest` and equals `Closest(g, a, MaxLink)` (Energy.java:99-101); the result is ENERGY_COEFF times the partials added in worker order, and also ENERGY_COEFF times the sum over rows 2 <= i < N of every pair (j, i), j < i |
| Reducer.StrideOwner | Energy.java:91-106 | worker t of tn visits row i iff i >= 2 and (i - 2) mod tn = t |
| Reducer.StridesDisjoint | Energy.java:91-106 | no row is visited by two different workers |
| Reducer.StridesCover | Energy.java:91-106 | every row from 2 on has a worker; rows 0 and 1 have none |
| Reducer.RowOneSkipped | Energy.java:91-106 | the sum over rows from 1 exceeds the sum over rows from 2 by exactly the term of the pair (0, 1) |
| Reducer.PartialsCoverRows | Energy.java:105-117 | the partials of all tn workers in worker order add up to the rows 2 <= i < hi, each once |
| Reducer.PartialsStep | Energy.java:105-117 | adding row hi - 1 adds it to the first k workers' partials exactly when one of them owns it |
| Reducer.PartialsZero | Energy.java:98 | with no rows, every prefix of the partials is 0 |
| Reducer.NextVisit | Energy.java:91 | after row i a worker visits row i + step |
| Reducer.NoVisitBetween | Energy.java:91 | a worker visits no row strictly between i and i + step |
| Reducer.WorkerGap | Energy.java:91 | the rows between two visits add nothing to a worker's sum |
| Reducer.WorkerBeforeStart | Energy.java:91 | a worker's sum over rows up to its start is 0 |
| Components.Component | Energy.java:154-169 | the result holds initial, is closed under bonds and holds exactly the atoms reachable from initial; the ghost log of pushes has no repeats and lists exactly the result |
| Components.PopStep | Energy.java:160 | taking the top of the stack keeps the traversal invariant with that atom under scan |
| Components.CollectStep | Energy.java:162-165 | collecting a fresh neighbour keeps every collected atom within the growing ball and on record |
| Components.CollectedAll | Energy.java:159-168 | with the stack empty, the collected set is closed and equals the reachable atoms |

## Left out

- File reading and parsing in `load` (Energy.java:47-60, 71-79) are I/O. `Bonds.LinkBonds` takes the parsed integer list and the atom count `n`.
- `Atom.dist` and the raw Coulomb term (Energy.java:30-35) are floating point. They are abstracted as an arbitrary function `Coulomb` from atom pairs to `real`.
- Floating-point arithmetic: all sums are exact `real` sums, so rounding and the floating-point behaviour of `ENERGY_COEFF` are not modelled. The order of the additions is still reproduced.
- Threads, `start` and `join` (Energy.java:102-115) are concurrency. The calculators run one after another in worker order. This gives the same partials because each worker writes only its own `energy` field.
- `availableProcessors()` is the parameter `tn > 0`.
- Printing (Energy.java:119, 150), `printLinks` (Energy.java:171-179) and `linkedComponents` (Energy.java:144-152) are left out. `linkedComponents` only reports component sizes, and its choice of head depends on `HashSet` iteration order.
- Java object identity as `HashMap`/`HashSet` key: atoms are their indices.
- Java `int` overflow of the row index `i += step` (Energy.java:91) is not modelled, since indices are unbounded. It could only matter for atom counts near 2^31.
- `Bonds.LinkBonds`: on a fault, the Java loop has already appended the earlier pairs before the exception ends the program. The model returns only the fault and its position, not those partial lists.
- `Classifier.FindClosest`: `dist` is a `nat`. The Java `int` parameter could be negative, which yields the empty map, but `run` only passes `MAX_LINK`.
- `Reducer.Calculator.Run`: requires `step > 0`. With step 0 the Java loop would not terminate; `run` always passes `tn >= 1`.
- `Calculator`'s `offs` and `step` are `const` fields, because the Java code assigns them only in the constructor.

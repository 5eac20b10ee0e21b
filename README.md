# Basket option simulation: work distribution and result collection

The basket-option pricer (`proj3/simulation/basket_option.go`) runs
`simulations` independent Monte Carlo paths over `numThreads` goroutines. It
offers two ways of handing the paths out:

* a **worker pool**. A source goroutine sends the task indices
  `0 .. simulations-1` into a buffered channel. The workers range over that
  channel.
* **work stealing**. Task `i` is pushed onto deque `i % numThreads`. Each worker
  pops the tail of its own deque (LIFO). When its own deque is empty, it scans
  the other deques in increasing index order and steals the head (FIFO) of the
  first non-empty one. It returns when every other deque is empty too.

In both cases every worker sends `(index, payoff)` records into a results
channel. The collector writes `payoffs[index] = payoff` for each record it
receives. `SampleData` then picks at most 1000 payoffs for plotting.

This project models that bookkeeping and proves the following.

* The mutex-protected deque behaves as a LIFO stack at the tail for its owner
  and as a FIFO queue at the head for thieves.
* Round-robin distribution gives deque `k` exactly the tasks `x < n` with
  `x % m == k`:
  * in ascending order;
  * `n / m` or `n / m + 1` of them, with lower-indexed deques never holding fewer;
  * all deques together form a partition of `0 .. n-1`.
* One worker iteration takes its task exactly as the worker goroutine in
  `basket_option.go` does (own tail first, then the lowest-indexed other non-empty deque's head). It neither
  loses nor duplicates a task, and it returns only when all deques are empty.
* The whole work-stealing run is modelled as a scheduler loop. The loop keeps
  picking any running worker, and the proof covers every such choice. Across
  every interleaving of whole worker iterations, each task is taken exactly
  once, and every deque ends empty.
* Whatever order the results arrive in, each payoff slot `k` ends holding the
  payoff computed for task `k`. This holds for both the work-stealing run and
  the pool with at least one worker.

Modules:

* `Deques` (`deque.dfy`) holds the `Deque` class.
* `Distribution` (`distribution.dfy`) holds the round-robin assignment and the
  `Distribute` method.
* `WorkStealing` (`stealing.dfy`) holds a worker iteration as a pure function
  `WorkerStep` over the deque contents. It also holds the method `NextTask`,
  which runs that iteration on the `Deque` objects and is proved equal to
  `WorkerStep`, plus the whole run.
* `Aggregation` (`aggregation.dfy`) holds the index-keyed collector.
* `WorkerPool` (`pool.dfy`) holds the channel-based pool.
* `Sampling` (`sampling.dfy`) holds `SampleData`.
* `Tasks`, `Arith` and `Wrappers` are shared helpers: the task bag `Pending`,
  the index range `Range`, div/mod facts and `Option`.

The random draws are modelled as inputs, and so is the order in which the
results reach the collector:

* `picks` holds the indices `rand.Intn` returns in `SampleData`;
* `draws` holds the payoff computed for the p-th task a run takes;
* `arrival` holds the permutation in which results are received.

## Model

| member | source | states |
|---|---|---|
| Deques.Deque.constructor | proj3/simulation/basket_option.go:166-168 | a new deque is empty |
| Deques.Deque.Push | proj3/simulation/basket_option.go:13-17 | the item is appended at the tail, and the rest of the contents are unchanged |
| Deques.Deque.Pop | proj3/simulation/basket_option.go:19-28 | succeeds iff the deque was non-empty. On success it returns the old tail and leaves the old contents minus that tail. On failure it returns `0` and leaves the deque unchanged |
| Deques.Deque.Steal | proj3/simulation/basket_option.go:30-39 | succeeds iff the deque was non-empty. On success it returns the old head and leaves the old contents minus that head. On failure it returns `0` and leaves the deque unchanged |
| Distribution.AssignmentMembers | proj3/simulation/basket_option.go:170-172 | task `x` is on deque `k` iff `0 <= x < n` and `x % m == k` |
| Distribution.AssignmentAscending | proj3/simulation/basket_option.go:170-172 | each deque holds its tasks in strictly ascending order, so the owner's pop yields its highest task first and a steal its lowest |
| Distribution.AssignmentSize | proj3/simulation/basket_option.go:170-172 | deque `k` holds `n / m` tasks, plus one more when `k < n % m` |
| Distribution.AssignmentBalanced | proj3/simulation/basket_option.go:170-172 | for `a <= b`, deque `a` holds at least as many tasks as deque `b` and at most one more |
| Distribution.AssignmentPartition | proj3/simulation/basket_option.go:170-172 | the bag of all distributed tasks is exactly `{0, ..., n-1}`, each once |
| Distribution.AssignmentTotal | proj3/simulation/basket_option.go:170-172 | the deques hold `n` tasks in total |
| Distribution.SevenOverThree | proj3/simulation/basket_option.go:170-172 | 7 tasks over 3 threads give deques of sizes 3, 2 and 2 |
| Distribution.Distribute | proj3/simulation/basket_option.go:160-172 | creates `numThreads` fresh, pairwise distinct deques. Their contents equal the round-robin assignment of `0 .. simulations-1` |
| WorkStealing.ScanFrom | proj3/simulation/basket_option.go:185-193 | the result is the lowest index `>= j`, other than the worker's own, whose deque is non-empty. It is `None` iff every such deque is empty |
| WorkStealing.Victim | proj3/simulation/basket_option.go:184-193 | the deque stolen from is the lowest-indexed non-empty deque other than the worker's own. There is none iff all other deques are empty |
| WorkStealing.WorkerStep | proj3/simulation/basket_option.go:181-197 | with a non-empty own deque, the worker takes its tail and changes nothing else. Otherwise it takes the head of the victim deque and changes nothing else. It returns (no task, nothing changed) iff every deque is empty |
| WorkStealing.StepConserves | proj3/simulation/basket_option.go:181-197 | after one iteration, the remaining tasks plus the task taken are exactly the tasks before it: none is lost or duplicated |
| WorkStealing.StepKeepsEmpty | proj3/simulation/basket_option.go:181-197 | an empty deque stays empty through any worker iteration, because nothing is pushed after distribution |
| WorkStealing.Threads | proj3/simulation/basket_option.go:176-179 | the worker identifiers are exactly `0 .. numThreads-1` |
| WorkStealing.NextTask | proj3/simulation/basket_option.go:181-197 | running `Pop`, then `Steal` on `j = 0, 1, ...` with `j != threadID`, leaves the deques as `WorkerStep` says. It reports the task `WorkerStep` takes, or `!ok` exactly when the worker returns |
| WorkStealing.RunWorkers | proj3/simulation/basket_option.go:176-219 | under any interleaving of worker iterations, the tasks taken are exactly the tasks that were in the deques, each once. Every deque ends empty |
| WorkStealing.RunWorkStealing | proj3/simulation/basket_option.go:158-219 | a full run takes every task in `0 .. simulations-1` exactly once. All `numThreads` deques end empty |
| WorkStealing.WorkStealingPayoffs | proj3/simulation/basket_option.go:158-228 | the tasks taken are a permutation of `0 .. simulations-1`. For every p, slot `taken[p]` of the payoff vector holds the payoff computed for the p-th task taken, whatever the arrival order |
| Aggregation.LastPayoff | proj3/simulation/basket_option.go:226-228 | a slot gets a value iff some result carries its index. That value is the payoff of a result for that index |
| Aggregation.Aggregate | proj3/simulation/basket_option.go:114-116 | the vector has `simulations` slots. Slot `k` holds the payoff of the last result with index `k`, or `0` when there is none (Go's zero value) |
| Aggregation.SlotHoldsOwnPayoff | proj3/simulation/basket_option.go:114-116 | when no index is delivered twice, every result's slot ends holding that result's payoff |
| Aggregation.EverySlotWritten | proj3/simulation/basket_option.go:114-116 | when the indices are a permutation of `0 .. n-1`, a slot is written iff it is in range. Each written slot holds the payoff of the result for it |
| Aggregation.ArrivalOrderIrrelevant | proj3/simulation/basket_option.go:114-116 | two arrival orders of the same results, each covering the indices `0 .. n-1` once, leave every slot with the same payoff |
| Aggregation.DeliveredPayoffs | proj3/simulation/basket_option.go:101-116 | the records workers send reach the collector in any order. Every record index is in range, and slot `tasks[p]` ends holding the payoff computed for the p-th task |
| WorkerPool.EnqueueTasks | proj3/simulation/basket_option.go:71-76 | the source goroutine sends exactly `0, 1, ..., simulations-1`, in that order |
| WorkerPool.ReceiveTasks | proj3/simulation/basket_option.go:78-107 | with at least one worker, the tasks are received in channel order, each once, each by some worker `< numThreads`. With `numThreads <= 0` no worker starts and nothing is received |
| WorkerPool.PoolPayoffs | proj3/simulation/basket_option.go:61-116 | with at least one worker, slot `k` holds the payoff computed for task `k`. With `numThreads <= 0`, every slot stays `0` |
| Sampling.SampleData | proj3/simulation/basket_option.go:47-57 | the result has `min(len(data), sampleSize)` entries. It is `data` itself when `len(data) <= sampleSize`; otherwise entry `i` is `data[picks[i]]`. Every sampled value occurs in `data` |

## Left out

* Concurrency:
  * goroutines, `sync.WaitGroup`, the deque mutexes and the channels are not modelled as concurrent code;
  * each deque operation is atomic, as its mutex makes it;
  * a worker's whole pop-then-scan iteration is modelled as one atomic step. Interleavings of other workers' operations inside one scan are not modelled. Deques only shrink after distribution, and this makes the atomic step agree with the interleaved one in both outcomes:
    * a worker that saw every deque empty during its scan returns in a state where all are empty;
    * a worker whose `Steal(j)` succeeds still sees its own deque and every deque it found empty earlier in the scan as empty. At that moment deque `j` is therefore the lowest-indexed non-empty other deque, which is the victim `WorkerStep` picks.
* Path generation is not modelled: `GeneratePricePathWithRand` and `GeneratePricePath` in `generate.go` are not part of this model. Payoffs are given as inputs (`draws`), and payoffs are modelled as `real` in place of `float64`.
* Portfolio value and payoff arithmetic are not modelled: neither the weighted sum nor `math.Max(portfolioValue - K, 0)`. An `optionType` other than `"call"` or `"put"` leaves the payoff at its zero value. The model does not distinguish the two option types.
* Discounting, the sum and the mean of the payoffs are not modelled. This is floating-point arithmetic on the vector whose contents are proved here.
* `NewRand`, the seeds `42 + i` and `rand.Intn` are not modelled: random values are inputs (`picks`, `draws`).
* `SequentialBasketOption` is not modelled: it is a plain loop with no distribution.
* `main.go`, `LoadPortfolio`, `ExportToCSV`, flag parsing and the Python plotting scripts are not modelled: they are I/O.
* Sampling.SampleData: requires `sampleSize >= 0`, because Go's `make` panics on a negative length. When not sampling, Go returns the same slice (an alias). The model returns an equal sequence.
* WorkStealing.RunWorkStealing: requires `numThreads > 0` whenever `simulations > 0`, because `i % numThreads` panics on a zero divisor.
* Distribution.Distribute, WorkStealing.RunWorkStealing, WorkStealing.WorkStealingPayoffs: `simulations` and `numThreads` are `nat`. A negative `simulations` panics at `make([]float64, simulations)` (`basket_option.go` lines 159 and 62). A negative `numThreads` panics at `make([]*Deque, numThreads)` (line 160). The model has no such inputs.
* WorkerPool.PoolPayoffs: `simulations` is `nat`, because a negative value panics at `make([]float64, simulations)` (line 62). A negative `numThreads` is accepted and, as in Go, starts no worker.
* Aggregation.Aggregate: requires every index to be within `0 .. simulations-1`. Go would panic on any other index, and every index a run delivers lies in that range (`DeliveredPayoffs`).

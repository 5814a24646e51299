# CacheHound, modelled and verified

CacheHound finds out how a CPU cache works: which set an address is placed in, and which line is
replaced on a miss. This project models the parts of it that carry the reasoning and proves what
they promise.

**Placement.** The reverser collects pairs of an address and its set as long as the addresses stay
affinely independent over GF(2), and recovers the placement function from them by Cramer's rule
without signs and divisions. `Parity`, `Gf2Determinant` and `AffineSolver` hold the algebra (the
determinant is an unsigned Laplace expansion over sets of rows, proved equal to the parity of the
signed integer one that the program computes), `Words` the machine words, `AffinePolicy` the
evaluation by popcount, `AffineReverser` the collecting object, `PrintedIndex` the diagonal
decomposition that is printed. Main results: the recovered policy reproduces every accepted pair
and equals the hidden affine function on every address; from every state feeding reaches every number
of addresses that the word allows; the printed formula means what the policy computes.

**Replacement.** A policy is a `Machine`: a number of ways and what a hit and a miss do to its
state. `Policies` and `LruWrapped` define FIFO, LRU, tree-PLRU, SRRIP and LRU over any nested
policy, `PlruTree` and `PlruHeap` the tree and its heap-indexed bits, `PolicyObjects` the objects
that change in place. Main results: cyclic eviction from every state of FIFO, LRU and PLRU, and
exactly from which states of SRRIP (`SrripStarts`) and of LRU over PLRU (`FillCycles`); the life span
of a PLRU line with its exact bound; the closed form of SRRIP's aging loop; the LRU stack distance
and its FIFO counterpart (`LruStack`, `FifoQueue`), with a trace that tells the two apart;
and from which states a fresh simulation predicts the hit count of every trace: from all of FIFO, LRU
and PLRU (`StartIndependence`, by a bisimulation up to renaming the ways), from equal entries only
for SRRIP (`SrripStarts`), and for LRU over PLRU from the states that have filled nothing yet only,
while all filled states agree among each other (`WrappedRenaming`, `WrappedSettling`,
`LruPlruStarts`), except for the composites that are LRU with a linear fill, where every start does
(`LruLike`, `LruPlruSmall`).

**Caches.** `CacheSets` is one set with the simulator that runs on it, `Fills` and `LostLines` what
traces do to a set that starts empty, `SetAssociativeCache` and `CacheObject` the cache, `Hierarchy`
any number of levels of any kinds, with what a fill passes from level to level, `LevelStreams` what a
whole access does, level by level, and `SimulatedMemory` the memory as an object. `EvictionTest` and `Measurement` use them, and
`Theorems` joins the parts: what the eviction test's answer means for any policy, that it is the
threshold oracle exactly if the target's way is replaced last in a cycle (`LinearFills` for LRU over
PLRU while it fills, `SrripTests` for SRRIP), and when eliminating candidates keeps the true policy.
`MixedLevels` states this for hierarchies whose levels have different policies, `LruEvictions` what
the test without its safeguard counts.

**Eviction sets.** `EvictionSets`, `Minimization` and `GroupTest` hold the algorithms that work
over an oracle. An oracle is a predicate on multisets of addresses, so it cannot depend on their
order; that the program's test is such a predicate is the exactness theorem of `Theorems`.

**Channel protocol.** `Channel` is the user's memory object and the kernel's agent as two step
functions over shared channels, interleaved in any order under sequential consistency.
`ChannelSafety` and `ChannelRuns` prove what every interleaving keeps, that each wait ends, and
what an instrumented access reads. `ChannelCalls` reads the calls off the moves and proves that
their operations, and no others, are submitted and can be delivered, and that calls end;
`ChannelSwitches` proves exactly how many unserviced channel
switches are safe.

Sequences of moves, traces and addresses are arbitrary throughout; no result has a bound on their
length. Naturals are unbounded; where the word width matters (bit vectors, packing, printing) it
is the constant `WORD_BITS` or a parameter.

Findings about the code:

- In `reduce_eviction_set` the number of larger groups is the remainder by the group size
  (lib/include/cachehound/algo/impl/reduce_eviction_set.hpp:40), although the comment above it
  speaks of the remainder of the division into groups. With n members and g groups these cover all
  members exactly if `n % g < n / g`; with eleven members and four groups they cover nine. The model
  keeps the line; the contract still holds, because the groups are disjoint, in range and one more
  than a core has members.
- The agent marks a channel idle before it reads where to switch to (kernel/cachehound.c:300-306).
  This is safe only while the route of unserviced switches does not come back to a channel on it.
  With the public switch, five channels at a time, that is for fewer than `Period(n)` unserviced
  switches, where `Period(n)` is `n`, or `n / 5` if five divides the number `n` of channels;
  one more switch allows a run in which the agent takes an address for a channel number.
- Elimination simulates every candidate from its fresh state, but measures on a used cache. For
  SRRIP the counts agree on every trace exactly if the set's entries are all equal, and for
  LRU over PLRU, with at least four nested ways, exactly if the set has filled nothing yet. So a used
  LRU-over-PLRU cache can eliminate its own policy: for two groups of four ways the trace
  0 1 1 2 1 3 1 4 1 5 0 hits five times in the simulation and less often on every filled set.
- The eviction test is the threshold on the number of ways exactly if the target's way is replaced
  again by the last miss of a cycle. On LRU over PLRU that holds for filled sets, and while a set
  fills exactly if Reversed(v) * groups + g is the number of the way that is filled next, way v of
  group g, where Reversed reads the bits of v backwards: it holds for a fresh set and fails with one
  way filled, for instance. On SRRIP it holds exactly if the entries rise by at most one from left to
  right. From all other states there are uncached addresses for which the test gives a wrong value.
- The formula that `to_string` prints has a shift below zero, which wraps around, exactly if a matrix
  row for an offset bit is not zero. No recovered policy has such a row.

## Model

| member | source | states |
|---|---|---|
| `Gf2Determinant.SwapColumns` | cli/include/cachehound/cli/placement/determinant.hpp:16-64 | Over GF(2) the determinant does not change when neighbouring columns change places. |
| `Gf2Determinant.EqualColumns` | cli/include/cachehound/cli/placement/affine_solver.hpp:34-38 | Two equal columns give determinant zero, the fact that Cramer's rule rests on. |
| `Gf2Determinant.EqualRows` | cli/include/cachehound/cli/placement/affine_solver.hpp:34-38 | Two equal rows give determinant zero. |
| `Gf2Determinant.RowsIndependent` | cli/include/cachehound/cli/placement/linearly_independent.hpp:14-19 | With determinant one no non-trivial combination of rows vanishes. |
| `BitMatrix.LaplaceParity` | cli/include/cachehound/cli/placement/determinant.hpp:47-60 | The signed integer Laplace determinant reduced modulo two is the unsigned one over GF(2). |
| `BitMatrix.Determinant` | cli/include/cachehound/cli/placement/determinant.hpp:16-64 | Copying the bits to integers, taking the determinant and reducing it computes the determinant over GF(2). |
| `AffineSolver.Cramer` | cli/include/cachehound/cli/placement/affine_solver.hpp:34-46 | Solvability and the entries: the determinants with one row replaced combine to the wanted row, without signs or division. |
| `AffineSolver.RowSolves` | cli/include/cachehound/cli/placement/affine_solver.hpp:40-50 | One row of the solver's matrix maps every input to its output bit. |
| `AffineSolver.Solve` | cli/include/cachehound/cli/placement/affine_solver.hpp:23-51 | If the bordered determinant is one, the returned matrix and vector map every input vector to its output vector. |
| `AffineSolver.Unique` | cli/include/cachehound/cli/placement/affine_solver.hpp:23-51 | Affine functions that agree on such inputs are equal. |
| `AffineSolver.IndependentIffSolvable` | cli/include/cachehound/cli/placement/affinely_independent.hpp:12-26 | Vectors are affinely independent exactly if the bordered matrix has determinant one, so the solver's assertion cannot fail. |
| `AffinePolicies.Apply` | lib/include/cachehound/policies/placement/affine_placement_policy.hpp:33-40 | The accumulating loop computes the set index from the row parities. |
| `AffinePolicies.PackedRow` | lib/include/cachehound/policies/placement/affine_placement_policy.hpp:35-38 | The parity of the popcount of a packed row and an address is the dot product of the bit vectors. |
| `AffinePolicies.PackedMeaning` | cli/include/cachehound/cli/placement/affine_placement_reverser.hpp:124-138 | A policy packed with zero offset columns and rows computes the affine map of the bits above the offset. |
| `AffineReversers.UintToBitVector` | cli/include/cachehound/cli/placement/affine_placement_reverser.hpp:24-38 | The loop yields the chosen bits, most significant first. |
| `AffineReversers.BitVectorToUint` | cli/include/cachehound/cli/placement/affine_placement_reverser.hpp:40-50 | The loop yields the number that the vector denotes. |
| `Words.ValueOfBits` | cli/include/cachehound/cli/placement/affine_placement_reverser.hpp:24-50 | Converting to bits and back gives the low bits of the number. |
| `AffineReversers.AffineReverser.constructor` | cli/include/cachehound/cli/placement/affine_placement_reverser.hpp:61-63 | A new reverser is valid and holds nothing. |
| `AffineReversers.AffineReverser.Passes` | cli/include/cachehound/cli/placement/affine_placement_reverser.hpp:80-89 | The test on the held addresses: linear independence for two, affine independence on one bit fewer from three on. |
| `AffineReversers.AffineReverser.FeedMapping` | cli/include/cachehound/cli/placement/affine_placement_reverser.hpp:67-102 | Keeps as many sets as addresses and their independence; stores the pair exactly if the addresses stay independent, which for the first address means that one of its two lowest bits above the offset is set, and for the second that one of them is and they are not both the first one's; reports every stored pair but the first. |
| `AffineReversers.HeldOne` | cli/include/cachehound/cli/placement/affine_placement_reverser.hpp:69-77 | One address is kept exactly if one of the two bits above the offset is set. |
| `AffineReversers.HeldTwo` | cli/include/cachehound/cli/placement/affine_placement_reverser.hpp:80-85 | Two addresses are kept exactly if both have such a bit and they differ in one of the two. |
| `AffineReversers.HeldThree` | cli/include/cachehound/cli/placement/affine_placement_reverser.hpp:86-89 | With two addresses held, every address with neither bit is independent of them. |
| `AffineReversers.FeedingProgresses` | cli/include/cachehound/cli/placement/affine_placement_reverser.hpp:86-97 | With three or more addresses held, of any address and its neighbour in the next unexplored bit exactly one is accepted, and the neighbour is aligned and in the word if the address is. |
| `AffineReversers.SomeIsStored` | cli/include/cachehound/cli/placement/affine_placement_reverser.hpp:67-102 | From every state some aligned address in the word is stored, if the word has bits left. |
| `AffineReversers.FeedingReaches` | cli/include/cachehound/cli/placement/affine_placement_reverser.hpp:67-102 | So from every state some sequence of aligned addresses in the word, each stored when it is fed, reaches any number of addresses that the word allows. |
| `AffineReversers.PackRows` | cli/include/cachehound/cli/placement/affine_placement_reverser.hpp:124-136 | The rows packed with zero columns, then zero rows, for the offset bits. |
| `AffineReversers.AffineReverser.Reverse` | cli/include/cachehound/cli/placement/affine_placement_reverser.hpp:109-139 | The policy reproduces every held pair and, on every address, equals every affine function of the reversed bits that agrees with the pairs. |
| `AffineReversers.Reproduces` | cli/include/cachehound/cli/placement/affine_placement_reverser.hpp:117-138 | A solution that maps the vectors, once packed, maps the addresses to their sets. |
| `AffineReversers.Identifies` | cli/include/cachehound/cli/placement/affine_placement_reverser.hpp:109-139 | Exact identification: agreement with a hidden affine function on the held addresses is agreement everywhere. |
| `PrintedIndex.DiagonalsPartition` | lib/include/cachehound/policies/placement/affine_placement_policy.hpp:61-80 | Summing any weight of columns over the diagonals that reach a row is summing it over the row's ones. |
| `PrintedIndex.OnOneDiagonal` | lib/include/cachehound/policies/placement/affine_placement_policy.hpp:61-80 | The maximal diagonals partition the one-cells: each cell lies on exactly one of them. |
| `PrintedIndex.Trace` | lib/include/cachehound/policies/placement/affine_placement_policy.hpp:66-73 | In any matrix the trace follows the diagonal to its end and returns its length plus one. |
| `PrintedIndex.FindGroups` | lib/include/cachehound/policies/placement/affine_placement_policy.hpp:51-83 | For any matrix, one group for each start of a maximal diagonal, with exactly its cells; with zero offset rows they contribute to every output bit what the diagonals do. |
| `PrintedIndex.StartsListed` | lib/include/cachehound/policies/placement/affine_placement_policy.hpp:61-65 | The list of starts that the groups follow has every start exactly once. |
| `PrintedIndex.PrintedExactly` | lib/include/cachehound/policies/placement/affine_placement_policy.hpp:51-119 | For any matrix: no group has a shift below zero exactly if the offset rows are zero, and then the formula is the set index of every address. |
| `PlruTrees.CycleRestores` | lib/include/cachehound/policies/replacement/plru_replacement_policy.hpp:42-54 | As many misses as there are ways restore every tree. |
| `PlruTrees.EvictedAtTurn` | lib/include/cachehound/policies/replacement/plru_replacement_policy.hpp:42-54 | A way is the victim of miss k of the cycle exactly if k is its turn, read off the tree. |
| `PlruTrees.CarryVictim` | lib/include/cachehound/policies/replacement/plru_replacement_policy.hpp:42-54 | The automorphism between two trees takes the victim of one to the victim of the other. |
| `PlruTrees.Lifespan` | lib/include/cachehound/policies/replacement/plru_replacement_policy.hpp:32-54 | After a use of a way, none of the next log2(ways) operations, hits and misses in any mix, evicts it. |
| `PlruTrees.LifespanIsTight` | lib/include/cachehound/policies/replacement/plru_replacement_policy.hpp:32-54 | That many hits on other ways can make it the next victim. |
| `PlruHeaps.HeapHitIsHit` | lib/include/cachehound/policies/replacement/plru_replacement_policy.hpp:32-40 | The walk over the heap-indexed bits is the hit on the tree that they store. |
| `PlruHeaps.PlruPolicy.constructor` | lib/include/cachehound/policies/replacement/plru_replacement_policy.hpp:19-26 | A fresh vector holds a complete tree of cleared bits. |
| `PlruHeaps.PlruPolicy.HitWay` | lib/include/cachehound/policies/replacement/plru_replacement_policy.hpp:32-40 | In place, the stored tree becomes the tree after the hit. |
| `PlruHeaps.PlruPolicy.MissWay` | lib/include/cachehound/policies/replacement/plru_replacement_policy.hpp:42-54 | In place, the stored tree becomes the tree after the miss, and the victim's number is returned. |
| `PolicyObjects.FifoPolicy.constructor` | lib/include/cachehound/policies/replacement/fifo_replacement_policy.hpp:22-25 | The ways start in numerical order. |
| `PolicyObjects.FifoPolicy.Hit` | lib/include/cachehound/policies/replacement/fifo_replacement_policy.hpp:31 | A hit leaves the order as it was. |
| `PolicyObjects.FifoPolicy.Miss` | lib/include/cachehound/policies/replacement/fifo_replacement_policy.hpp:33-36 | The oldest way is returned and becomes the newest; the order stays a permutation. |
| `PolicyObjects.LruPolicy.Hit` | lib/include/cachehound/policies/replacement/lru_replacement_policy.hpp:31-35 | The search and rotation make the way the most recent one; the order stays a permutation. |
| `PolicyObjects.LruPolicy.Miss` | lib/include/cachehound/policies/replacement/lru_replacement_policy.hpp:37-40 | The least recent way is returned and becomes the most recent one. |
| `PolicyObjects.SrripPolicy.constructor` | lib/include/cachehound/policies/replacement/srrip_replacement_policy.hpp:39-41 | All entries start in the distant future. |
| `PolicyObjects.SrripPolicy.Hit` | lib/include/cachehound/policies/replacement/srrip_replacement_policy.hpp:47-49 | The entry is promoted by hit or frequency priority and stays in range. |
| `PolicyObjects.SrripPolicy.Miss` | lib/include/cachehound/policies/replacement/srrip_replacement_policy.hpp:51-66 | The aging loop ends after at most 2^Bits - 1 rounds and equals the closed form: the leftmost maximum is replaced, the others rise equally. |
| `PolicyObjects.FirstDistant` | lib/include/cachehound/policies/replacement/srrip_replacement_policy.hpp:52-65 | The first distant entry after the aging is the leftmost maximum before it. |
| `PolicyObjects.LruWrappedPolicy.constructor` | lib/include/cachehound/policies/replacement/lru_wrapped_replacement_policy.hpp:23-30 | Copies of the nested policy, nothing filled. |
| `PolicyObjects.LruWrappedPolicy.Hit` | lib/include/cachehound/policies/replacement/lru_wrapped_replacement_policy.hpp:36-41 | Quotient and remainder of the way name the group and the nested way that are touched. |
| `PolicyObjects.LruWrappedPolicy.Miss` | lib/include/cachehound/policies/replacement/lru_wrapped_replacement_policy.hpp:43-53 | Linear fill first, then the least recent group and its nested victim. |
| `Policies.OrderMachinesKeep` | lib/include/cachehound/policies/replacement/lru_replacement_policy.hpp:17-40 | FIFO and LRU keep a permutation of the ways, and their victim is a way. |
| `Policies.OrderMachinesCycle` | lib/include/cachehound/policies/replacement/lru_replacement_policy.hpp:37-40 | From every order, FIFO and LRU misses replace each way once per cycle and restore the order. |
| `Policies.PlruKeeps` | lib/include/cachehound/policies/replacement/plru_replacement_policy.hpp:32-54 | Hits and misses keep the tree complete, and the victim is a way. |
| `Policies.PlruCycles` | lib/include/cachehound/policies/replacement/plru_replacement_policy.hpp:42-54 | From every tree, as many misses as ways replace each way exactly once and restore the tree. |
| `Policies.SrripKeeps` | lib/include/cachehound/policies/replacement/srrip_replacement_policy.hpp:47-66 | Entries never exceed the distant future. |
| `Policies.SrripDoesNotCycle` | lib/include/cachehound/util/replacement_policy.hpp:73-83 | A concrete SRRIP state from which the cyclic-eviction test fails; `SrripStarts.SrripCyclesIff` says exactly from which ones it does. |
| `SrripStarts.SrripCyclesIff` | lib/include/cachehound/util/replacement_policy.hpp:73-83 | The cyclic-eviction test is true of SRRIP exactly from the states whose entries rise by at most one from left to right, for any bits, ways and promotion. |
| `SrripStarts.StairsRotate` | lib/include/cachehound/policies/replacement/srrip_replacement_policy.hpp:51-66 | From such states the misses take the ways in rotation, starting at the leftmost maximum. |
| `SrripStarts.NoStairsNoCycle` | lib/include/cachehound/policies/replacement/srrip_replacement_policy.hpp:51-66 | From all others some way is replaced twice before some other is replaced once. |
| `LruWrapped.WrappedKeeps` | lib/include/cachehound/policies/replacement/lru_wrapped_replacement_policy.hpp:36-53 | Wrapping a policy that keeps its invariant gives one that does. |
| `LruWrapped.GroupOfNumber` | lib/include/cachehound/policies/replacement/lru_wrapped_replacement_policy.hpp:37-51 | What a miss composes, a hit takes apart into the same group and nested way. |
| `LruWrapped.WrappedCycles` | lib/include/cachehound/policies/replacement/lru_wrapped_replacement_policy.hpp:43-53 | Once filled, the composite replaces each way once per cycle and is restored, if the nested policy does so. |
| `LruWrapped.FreshFillsEachOnce` | lib/include/cachehound/policies/replacement/lru_wrapped_replacement_policy.hpp:44-47 | From a fresh composite the linear fill takes each way once. |
| `Machines.SurvivesUntilCycle` | lib/include/cachehound/util/replacement_policy.hpp:73-83 | Under a cyclic policy a way just replaced is replaced again exactly by the last miss of a cycle. |
| `Machines.CheckCyclicEviction` | lib/include/cachehound/util/replacement_policy.hpp:73-83 | The set-based test is true exactly if the next misses replace each way once, for every policy. |
| `Theorems.LruPlruCycles` | lib/include/cachehound/util/replacement_policy.hpp:73-83 | LRU over tree-PLRU cycles from every filled state, so the cyclic-eviction test is true there. |
| `FillCycles.LruPlruEachOnceIff` | lib/include/cachehound/util/replacement_policy.hpp:73-83 | With two nested ways or more the cyclic-eviction test is true of LRU over PLRU exactly if at most one way is filled or at most one is not, whatever the order and the trees. |
| `FillCycles.FillingEachOnce` | lib/include/cachehound/policies/replacement/lru_wrapped_replacement_policy.hpp:43-53 | Over any nested policy with fixed turns: the misses take each way once exactly if no way still to be filled comes up again before the fill level. |
| `CacheSets.AccessKeeps` | sim/include/cachehound/sim/cache/set_associative_cache.hpp:82-119 | An access keeps tags unique and leaves the address in the set. |
| `CacheSets.IndexFinds` | lib/include/cachehound/algo/simulate_sequence.hpp:30-38 | Under the two-way index an address is cached exactly if its last way still holds it. |
| `CacheSets.SimulateSequence` | lib/include/cachehound/algo/simulate_sequence.hpp:14-45 | The simulator counts the hits of a set of its own, for every policy and trace. |
| `CacheSets.RelatedRuns` | lib/include/cachehound/algo/simulate_sequence.hpp:24-42 | Sets that differ by a renaming of the ways that the policy respects hit on the same accesses. |
| `StartIndependence.PlruStartIndependent` | cli/include/cachehound/cli/commands/impl/reverse_replacement_command.hpp:70-91 | The PLRU hit count of a trace is the same from any two trees of the same height. |
| `StartIndependence.OrderStartIndependent` | cli/include/cachehound/cli/commands/impl/reverse_replacement_command.hpp:70-91 | The FIFO and LRU hit counts of a trace are the same from any two orders. |
| `LruStack.StackDistance` | lib/include/cachehound/policies/replacement/lru_replacement_policy.hpp:17-40 | The place of an address in the recency stack is the number of distinct other addresses since its last use. |
| `LruStack.LruHit` | lib/include/cachehound/algo/simulate_sequence.hpp:24-42 | Under LRU an address is cached exactly if it was used and fewer than `ways` distinct others were used since. |
| `FifoQueues.FifoHit` | lib/include/cachehound/policies/replacement/fifo_replacement_policy.hpp:31-36 | Under FIFO an address is cached exactly if fewer than `ways` misses have come since the miss that last brought it in, whatever hits come between and whatever the starting order. |
| `FifoQueues.FifoTold` | lib/include/cachehound/util/replacement_policy.hpp:28-30 | On the trace that fills all ways, reuses the first address, adds one more and reuses the first again, FIFO hits once, for every number of ways above one and from every order. |
| `FifoQueues.LruTold` | lib/include/cachehound/util/replacement_policy.hpp:28-30 | LRU hits twice on it. |
| `LruStack.LruMonotone` | lib/include/cachehound/algo/simulate_sequence.hpp:24-42 | More ways never give fewer LRU hits, for every trace and any starting orders. |
| `CacheObjects.SetAssociativeCache.constructor` | sim/include/cachehound/sim/cache/set_associative_cache.hpp:47-51 | All sets start with empty lines and a copy of the policy. |
| `CacheObjects.SetAssociativeCache.FindHandle` | sim/include/cachehound/sim/cache/set_associative_cache.hpp:61-80 | The search in the flat vector returns the line's place exactly if the set holds the address. |
| `CacheObjects.SetAssociativeCache.Hit` | sim/include/cachehound/sim/cache/set_associative_cache.hpp:82-89 | The handle is taken apart into set and way, and only that set's policy sees the hit. |
| `CacheObjects.SetAssociativeCache.Fill` | sim/include/cachehound/sim/cache/set_associative_cache.hpp:99-119 | A present address changes nothing; otherwise the victim's line is replaced and returned if it was valid, and no other line changes. A present address leaves every policy state and every line as they were, and there is no victim. |
| `SetAssociativeCaches.TouchKeeps` | sim/include/cachehound/sim/cache/set_associative_cache.hpp:61-119 | Tags stay unique and in the set of their address. |
| `SetAssociativeCaches.TouchContents` | sim/include/cachehound/sim/cache/set_associative_cache.hpp:99-119 | An access adds its address and removes exactly the victim, which was cached. |
| `SetAssociativeCaches.SetAssociativeLawful` | sim/include/cachehound/sim/policy/basic_set_associative_policy.hpp:36-46 | With any placement and any replacement policy per set, the cache behaves as the hierarchy needs it. |
| `Hierarchies.FillPassesDown` | sim/include/cachehound/sim/backends/simulated_memory.hpp:83-96 | In terms of lookups before and after a fill of level l: l has the address; whatever a level from l on has lost the next one holds; what the last level has lost, one address at most, is what is dropped; a farther level gains only what the one before it lost; nearer levels are unchanged. |
| `Hierarchies.HeldFill` | sim/include/cachehound/sim/cache/set_associative_cache.hpp:99-103 | Filling an address into a level that holds it changes no level at all, not even the policies, and drops nothing. |
| `Hierarchies.CascadeStops` | sim/include/cachehound/sim/cache/set_associative_cache.hpp:99-103 | A victim that the next level already holds leaves that level and all farther ones unchanged. |
| `SimulatedMemories.SimulatedMemory.Fill` | sim/include/cachehound/sim/backends/simulated_memory.hpp:83-96 | Passes victims down as `Hierarchies.FillPassesDown` says, for all valid levels, and changes nothing if the level holds the address. |
| `SimulatedMemories.SimulatedMemory.BackFillFrom` | sim/include/cachehound/sim/backends/simulated_memory.hpp:68-81 | Fills a level and all nearer ones, farthest first. |
| `SimulatedMemories.SimulatedMemory.DoAccess` | sim/include/cachehound/sim/backends/simulated_memory.hpp:38-66 | From any level on: the level found, and the caches after the hit and the fills. |
| `SimulatedMemories.SimulatedMemory.InstrumentedAccess` | sim/include/cachehound/sim/backends/simulated_memory.hpp:145-147 | The lowest level with the address is returned; every level has done what `LevelStreams.AccessByLevels` says; what a level lost a farther one holds, or it was dropped by the last one. |
| `LevelStreams.AccessByLevels` | sim/include/cachehound/sim/backends/simulated_memory.hpp:38-96 | After an access each level is what fills of a list of addresses make of it: first the address itself, if the level is nearer than the one that has it, then, one by one, what fell out of the next nearer level; the level that has it sees a hit before. What falls out of the last level is all that is dropped. |
| `LevelStreams.AccessPassesDown` | sim/include/cachehound/sim/backends/simulated_memory.hpp:38-96 | In terms of lookups before and after a whole access: what a level lost a farther one holds or it was dropped; what the nearest lost the next one holds; what the last lost was dropped. |
| `LevelStreams.TakenIsFoundNext` | sim/include/cachehound/sim/backends/simulated_memory.hpp:38-96 | An address that an access took from the nearest of several levels is found in the next one by the following access. |
| `Hierarchies.AccessConserves` | sim/include/cachehound/sim/backends/simulated_memory.hpp:38-96 | For any number of levels: the lowest level with the address is reported, the address ends in the nearest level, no other address is added, and nothing is lost that is not dropped; `LevelStreams.AccessPassesDown` says where it was. |
| `MixedLevels.MixedConserves` | sim/include/cachehound/sim/backends/simulated_memory.hpp:38-96 | For set-associative levels with any mix of policies: also, at every level tags stay unique and in the set of their address, and what a level lost a farther one holds or the last one dropped. |
| `Hierarchies.NearestLevel` | sim/include/cachehound/sim/backends/simulated_memory.hpp:38-96 | The nearest level behaves as if it were alone, whatever the others hold. |
| `EvictionTests.SafeIsEvictionSet` | lib/include/cachehound/algo/impl/is_eviction_set.hpp:23-37 | For levels of any kinds: no value if an access hit the nearest one too early, otherwise whether the target was evicted from it. |
| `EvictionTests.UnsafeIsEvictionSet` | lib/include/cachehound/algo/impl/is_eviction_set.hpp:11-21 | For levels of any kinds: whether the target was evicted from the nearest one, hits among the accesses or not. |
| `LruEvictions.LruHitFrom` | lib/include/cachehound/policies/replacement/lru_replacement_policy.hpp:17-40 | From any state of an LRU set, whatever it holds: an address used since is cached exactly if fewer than `ways` distinct others were used after it. |
| `LruEvictions.UnsafeLru` | lib/include/cachehound/algo/impl/is_eviction_set.hpp:11-21 | On LRU in any state and for any addresses, the unsafe answer is true exactly if at least `ways` distinct other addresses of the target's set come after its last use, hits or not. |
| `LruEvictions.UnsafeCounts` | lib/include/cachehound/algo/impl/is_eviction_set.hpp:11-21 | If the target is not among the addresses: exactly if at least `ways` distinct ones of them are of its set. |
| `EvictionTests.SafeAgreesWithUnsafe` | lib/include/cachehound/algo/impl/is_eviction_set.hpp:11-37 | Whenever the safe test gives a value, the unsafe one gives the same. |
| `EvictionTests.AnswerMeans` | lib/include/cachehound/algo/impl/is_eviction_set.hpp:23-37 | For any policy in any valid state: the value is whether one of as many misses as addresses fall into the target's set takes the target's way again. |
| `EvictionTests.ThresholdAnswer` | lib/include/cachehound/algo/impl/is_eviction_set.hpp:23-37 | If that way is taken again by the last miss of a cycle and not before, the value is true exactly if at least `ways` of the addresses map to the target's set. |
| `EvictionTests.AnswerGiven` | lib/include/cachehound/algo/impl/is_eviction_set.hpp:23-37 | The test gives a value whenever the target and the addresses are different and not cached. |
| `EvictionTests.AnswerViewed` | sim/include/cachehound/sim/backends/simulated_memory.hpp:21-30 | A set-associative cache among levels of other kinds answers as it would alone. |
| `Theorems.OrderTestExact` | lib/include/cachehound/algo/impl/is_eviction_set.hpp:23-37 | The test is exact on FIFO and LRU caches in any valid state. |
| `Theorems.PlruTestExact` | lib/include/cachehound/algo/impl/is_eviction_set.hpp:23-37 | The test is exact on PLRU caches in any valid state. |
| `Theorems.TestExactIff` | lib/include/cachehound/algo/impl/is_eviction_set.hpp:23-37 | For any policy: with enough uncached addresses of the target's set at hand, the test is exact on all addresses if and only if the target's way is replaced again by the last miss of a cycle. |
| `Theorems.WrongAnswer` | lib/include/cachehound/algo/impl/is_eviction_set.hpp:23-37 | If it is not, a front of any large enough pool of such addresses gets a value, and a wrong one. |
| `Theorems.SrripTestExact` | lib/include/cachehound/algo/impl/is_eviction_set.hpp:23-37 | The test is exact on SRRIP caches if the entries of the target's set rise by at most one from left to right. |
| `Theorems.SrripTestExactIff` | lib/include/cachehound/algo/impl/is_eviction_set.hpp:23-37 | With enough uncached addresses at hand, it is exact on SRRIP caches only then. |
| `SrripTests.SrripReplacedLastIff` | lib/include/cachehound/policies/replacement/srrip_replacement_policy.hpp:51-66 | An SRRIP way just replaced is replaced again by the last miss of a cycle exactly from those states, for any bits, ways and promotion. |
| `Theorems.LruPlruTestExact` | lib/include/cachehound/algo/impl/is_eviction_set.hpp:23-37 | The test is exact on LRU-over-PLRU caches whose target set is ready: filled, fresh, or at a fitting fill level. |
| `Theorems.ReadyIff` | lib/include/cachehound/policies/replacement/lru_wrapped_replacement_policy.hpp:43-53 | A set is ready exactly if the way filled next is replaced again by the last miss of a cycle; fresh sets are. |
| `Theorems.LruPlruTestWrong` | lib/include/cachehound/algo/impl/is_eviction_set.hpp:23-37 | If it is not ready, the lemma picks, from any `ways` uncached addresses of the target's set, addresses for which the test gives a value, and a wrong one. |
| `Theorems.LruPlruTestExactIff` | lib/include/cachehound/algo/impl/is_eviction_set.hpp:23-37 | So, with that many uncached addresses, the test is exact if and only if the set is ready. |
| `Theorems.OneFilledNotReady` | lib/include/cachehound/algo/impl/is_eviction_set.hpp:23-37 | A set with one way filled is not ready, with two groups or more. |
| `LinearFills.FillingReplacedLast` | lib/include/cachehound/policies/replacement/lru_wrapped_replacement_policy.hpp:43-53 | Over any nested policy with fixed turns: while the composite fills, the exact condition for the way filled next to be replaced again last. |
| `LinearFills.LruPlruReplacedLast` | lib/include/cachehound/policies/replacement/lru_wrapped_replacement_policy.hpp:43-53 | Over PLRU the turn of a nested way is its number with the bits reversed. |
| `LinearFills.TurnAfterRange` | lib/include/cachehound/policies/replacement/plru_replacement_policy.hpp:32-54 | After hits from a leaf to the last one, the leaf's turn among the victims is its number read backwards. |
| `MixedLevels.MixedTestExact` | lib/include/cachehound/algo/impl/is_eviction_set.hpp:23-37 | The test is exact on a FIFO, LRU or PLRU nearest level, whatever kinds the other levels are. |
| `MixedLevels.MixedLayeredTestExact` | lib/include/cachehound/algo/impl/is_eviction_set.hpp:23-37 | The same for a ready set of an LRU-over-PLRU nearest level. |
| `MixedLevels.MixedSrripTestExact` | lib/include/cachehound/algo/impl/is_eviction_set.hpp:23-37 | The same for an SRRIP nearest level whose entries rise by at most one. |
| `MixedLevels.TestMixedMemory` | lib/include/cachehound/algo/impl/is_eviction_set.hpp:23-37 | On a memory with mixed levels the test gives no value or the threshold on the nearest level. |
| `Theorems.CountReaches` | lib/include/cachehound/algo/impl/is_eviction_set.hpp:28-36 | Counting the addresses of a set is the same as finding that many among them, whatever their order. |
| `Theorems.TestIsOracle` | lib/include/cachehound/algo/is_eviction_set.hpp:10-32 | An exact test answers as a monotone, bounded oracle, as the reduction algorithms need it. |
| `Measurements.SafeMeasureSequence` | lib/include/cachehound/algo/detail/measure_sequence.hpp:6-39 | For levels of any kinds: aborts exactly if a first use hits the nearest one, otherwise counts the hits of later uses. |
| `Measurements.MeasuredIsSimulated` | lib/include/cachehound/algo/detail/measure_sequence.hpp:6-39 | For distinct uncached addresses of one set the measurement never aborts and equals the simulation from that set's policy state. |
| `Measurements.MeasureViewed` | sim/include/cachehound/sim/backends/simulated_memory.hpp:21-30 | The measurement of a set-associative cache among levels of other kinds is its own. |
| `Measurements.FilterReplacementPolicies` | lib/include/cachehound/util/sequence.hpp:39-59 | The candidates whose simulation matches move to the front in order; the rest is only permuted. |
| `Theorems.OrderSurvives` | cli/include/cachehound/cli/commands/impl/reverse_replacement_command.hpp:62-94 | On FIFO and LRU caches in any valid state the true candidate, simulated afresh, survives elimination by the measurement. |
| `Theorems.PlruSurvives` | cli/include/cachehound/cli/commands/impl/reverse_replacement_command.hpp:62-94 | The same for PLRU. |
| `Theorems.SurvivesIff` | cli/include/cachehound/cli/commands/impl/reverse_replacement_command.hpp:62-94 | For every policy the true candidate survives exactly if its simulated count equals the one from the set's policy state. |
| `Theorems.CandidateSurvivesIff` | cli/include/cachehound/cli/commands/impl/reverse_replacement_command.hpp:62-94 | Any candidate, true or not, survives exactly if its simulated count is the count from the set's policy state. |
| `Theorems.OrderTold` | cli/include/cachehound/cli/commands/impl/reverse_replacement_command.hpp:62-94 | With more addresses than ways, above one, a trace keeps the true one of FIFO and LRU and eliminates the other, in any valid state of the cache. |
| `Theorems.SrripSurvives` | cli/include/cachehound/cli/commands/impl/reverse_replacement_command.hpp:62-94 | The same for SRRIP when the set's entries are all equal. |
| `Theorems.LruPlruSurvives` | cli/include/cachehound/cli/commands/impl/reverse_replacement_command.hpp:62-94 | The same for LRU over PLRU when set and simulation are both fresh or both filled. |
| `Theorems.LruPlruEliminated` | cli/include/cachehound/cli/commands/impl/reverse_replacement_command.hpp:62-94 | A set that has filled something eliminates LRU over PLRU, simulated afresh, by some trace over no more addresses than ways. |
| `SrripStarts.SrripStartIff` | cli/include/cachehound/cli/commands/impl/reverse_replacement_command.hpp:70-91 | SRRIP's count of every trace is the fresh one exactly if all entries are equal, for any bits, ways and promotion. |
| `SrripStarts.SrripStartMatters` | cli/include/cachehound/cli/commands/impl/reverse_replacement_command.hpp:62-94 | A reachable state and a trace on which the counts differ; `SrripStarts.SrripStartIff` is the exact condition. |
| `SrripStarts.StairsDiffer` | lib/include/cachehound/algo/simulate_sequence.hpp:24-42 | From a staircase that is not flat, a constructed trace hits exactly once more than from the fresh state. |
| `LruPlruStarts.FilledLruPlru` | lib/include/cachehound/policies/replacement/lru_wrapped_replacement_policy.hpp:43-53 | Any two filled states of LRU over PLRU hit equally often on every trace. |
| `LruPlruStarts.UnfilledLruPlru` | lib/include/cachehound/policies/replacement/lru_wrapped_replacement_policy.hpp:43-53 | Any two states that have filled nothing yet hit equally often on every trace. |
| `LruPlruSmall.LruPlruStartExactly` | cli/include/cachehound/cli/commands/impl/reverse_replacement_command.hpp:70-91 | For all groups and nested ways: the count of every trace is the fresh one exactly if nothing was filled yet, or the groups have one way each, or there is one group of two ways. |
| `LruLikes.LikeLruHit` | lib/include/cachehound/policies/replacement/lru_wrapped_replacement_policy.hpp:43-53 | Under any policy that is LRU with a linear fill, an address is cached exactly if it was used and fewer than `ways` distinct others were used since. |
| `LruLikes.LikeLruStart` | lib/include/cachehound/policies/replacement/lru_wrapped_replacement_policy.hpp:43-53 | So all its starts hit equally often on every trace. |
| `LruPlruStarts.UsedLosesOne` | lib/include/cachehound/policies/replacement/lru_wrapped_replacement_policy.hpp:43-53 | Over any nested policy: once something was filled, some trace with no more addresses than ways loses one of them. |
| `LruPlruExample.FilledLruPlruDropped` | lib/include/cachehound/util/replacement_policy.hpp:35-46 | For two groups of four ways: on the trace 0 1 1 2 1 3 1 4 1 5 0 every fresh state hits five times and every filled one less often. |
| `WrappedRenaming.FilledStartIndependent` | lib/include/cachehound/policies/replacement/lru_wrapped_replacement_policy.hpp:36-53 | Over any nested policy whose states can be renamed into each other, filled states of the composite can be, too. |
| `WrappedSettling.UnfilledStartIndependent` | lib/include/cachehound/policies/replacement/lru_wrapped_replacement_policy.hpp:43-47 | Over any nested policy that hits on all ways determine, the linear fill forgets the start. |
| `LostLines.KeepsAll` | lib/include/cachehound/policies/replacement/lru_wrapped_replacement_policy.hpp:43-47 | A policy that fills way after way keeps every address of a trace with no more addresses than ways. |
| `LostLines.LosesOne` | lib/include/cachehound/algo/simulate_sequence.hpp:24-42 | A policy that a hit can steer away from the last empty way loses an address of some such trace. |
| `Fills.HitsBounded` | lib/include/cachehound/algo/simulate_sequence.hpp:24-42 | A trace hits at most as often as it reuses addresses. |
| `Fills.FillRun` | lib/include/cachehound/algo/simulate_sequence.hpp:30-38 | Different addresses all miss and fill the ways that the policy gives up one after another. |
| `Fills.FillAndReuse` | lib/include/cachehound/algo/simulate_sequence.hpp:24-42 | As many fills as ways, then a reuse: all such reuses hit exactly if the policy takes each way once. |
| `MixedLevels.MixedOrderSurvives` | cli/include/cachehound/cli/commands/impl/reverse_replacement_command.hpp:62-94 | The true FIFO or LRU candidate of the nearest of mixed levels survives. |
| `MixedLevels.MixedPlruSurvives` | cli/include/cachehound/cli/commands/impl/reverse_replacement_command.hpp:62-94 | The true PLRU candidate of the nearest of mixed levels survives. |
| `EvictionSets.SpareGroup` | lib/include/cachehound/algo/impl/reduce_eviction_set.hpp:25-29 | Of more disjoint groups than a core has members, one can go without touching the core. |
| `EvictionSets.GroupsFit` | lib/include/cachehound/algo/impl/reduce_eviction_set.hpp:39-42 | With the remainder taken as written, the groups fit and leave nothing or at least one group size uncovered; `EvictionSets.CoversAllIff` says when. |
| `EvictionSets.CoversAllIff` | lib/include/cachehound/algo/impl/reduce_eviction_set.hpp:39-42 | With n members and g groups, g at most n, the groups cover all members exactly if n % g < n / g. |
| `EvictionSets.NineOfEleven` | lib/include/cachehound/algo/impl/reduce_eviction_set.hpp:39-42 | Of eleven members, four groups cover nine. |
| `EvictionSets.FindSpareGroup` | lib/include/cachehound/algo/impl/reduce_eviction_set.hpp:44-74 | Finds a group without which the rest still evicts, in range and not overlapping the last one, or has shown that every group is needed. |
| `EvictionSets.SwapRanges` | lib/include/cachehound/algo/impl/reduce_eviction_set.hpp:80-83 | In place, two disjoint ranges change places and nothing else moves. |
| `EvictionSets.StripGroup` | lib/include/cachehound/algo/impl/reduce_eviction_set.hpp:76-85 | The shorter prefix is a permutation's front that still evicts. |
| `EvictionSets.ReduceEvictionSet` | lib/include/cachehound/algo/impl/reduce_eviction_set.hpp:14-89 | Terminates; permutes the array; returns at most max_size members that still evict; never fails with a monotone oracle, false on nothing, under which every eviction set has one of at most max_size members. |
| `Minimizations.MinimizeEvictionSetSlow` | lib/include/cachehound/algo/minimize_eviction_set.hpp:101-128 | Terminates; permutes the array; returns an eviction set from which no member can be dropped. |
| `Minimizations.ReduceEvictionSetSlow` | lib/include/cachehound/algo/impl/reduce_eviction_set.hpp:105-142 | At most max_size members that still evict, or a failure with a one-minimal eviction set that is larger. |
| `Minimizations.ThresholdSuits` | lib/include/cachehound/algo/impl/reduce_eviction_set.hpp:22-29 | The threshold oracle is monotone, bounded by the ways, and false on nothing. |
| `Minimizations.ThresholdMinimal` | lib/include/cachehound/algo/minimize_eviction_set.hpp:81-100 | Under the threshold oracle the one-minimal eviction sets are exactly those of `ways` addresses of the target's set. |
| `Minimizations.ThresholdReduced` | lib/include/cachehound/algo/impl/reduce_eviction_set.hpp:22-29 | Under the threshold oracle an eviction set no larger than the ways is one address of the target's set per way. |
| `Minimizations.ReduceToWays` | lib/include/cachehound/algo/impl/reduce_eviction_set.hpp:14-89 | With max_size the number of ways, the reduction returns exactly `ways` addresses, all of the target's set. |
| `GroupTests.GroupTest` | lib/include/cachehound/util/detail/group_test.hpp:8-36 | With an exact test, the leftmost positive item or the end, in at most one test more than the rounded-up binary logarithm. |
| `GroupTests.CeilLogIs` | lib/include/cachehound/util/detail/group_test.hpp:20-34 | The bound is the smallest k with n <= 2^k. |
| `GroupTests.LocateSet` | lib/include/cachehound/util/locate_set.hpp:12-20 | Returns the target's set, or nothing if that is none of the sets. |
| `GroupTests.MajorityElement` | cli/include/cachehound/cli/commands/impl/reverse_replacement_command.hpp:10-29 | Returns the strict majority element of every sequence that has one. |
| `Channels.CommandsDoNotAlias` | kernel/ch_channel.h:18-29 | Batches of at most seven, the switch and the write-back are read as what they are, and none as idle or exit. |
| `ChannelSafety.BeginKeeps` | lib/include/cachehound/backends/impl/kernel_memory.ipp:76-82 | Starting any call keeps the invariant; which operations it submits is `ChannelCalls.CallsSubmit`. |
| `ChannelSafety.PublishKeeps` | lib/include/cachehound/backends/impl/kernel_memory.ipp:156-166 | Publishing hands the buffer over in order. |
| `ChannelSafety.ClientKeeps` | lib/include/cachehound/backends/impl/kernel_memory.ipp:136-166 | Every step of the client on its channel keeps the invariant. |
| `ChannelSafety.AgentKeeps` | kernel/cachehound.c:311-471 | Every step of the agent on a request keeps the invariant. |
| `ChannelSafety.Extend` | lib/include/cachehound/backends/impl/kernel_memory.ipp:62-74 | A published switch extends the route. |
| `ChannelSafety.Arrive` | kernel/cachehound.c:300-308 | The agent reads the channel that the client named, although the old channel is idle already. |
| `ChannelRuns.StepKeeps` | kernel/cachehound.c:229-471 | Every step of either side keeps the invariant, unless a switch leads back to the route. |
| `ChannelRuns.InOrder` | lib/include/cachehound/backends/impl/kernel_memory.ipp:62-166 | After every such run: submitted = executed, in flight, buffered, in order; the agent does not exit. What is submitted is `ChannelCalls.CallsSubmit`. |
| `ChannelRuns.ExecutesNext` | kernel/cachehound.c:321-413 | The agent is an in-order executor: each step executes the next submitted operation or none. |
| `ChannelRuns.SlotsOwned` | kernel/ch_channel.h:68-128 | Slots are written only by their owner: the client on its idle channel, the agent on a batch. |
| `ChannelRuns.InstrumentedExact` | lib/include/cachehound/backends/impl/kernel_memory.ipp:136-154 | An instrumented access returns the counters before and after exactly its own operation, for every interleaving. |
| `ChannelRuns.AgentProgress` | kernel/cachehound.c:240-471 | Each agent step lowers the remaining work by one, until all that was published is executed. |
| `ChannelRuns.Drains` | kernel/ch_channel.h:84-118 | Left alone, the agent makes the client's channel idle, so no wait is for ever. |
| `ChannelCalls.CallsSubmit` | lib/include/cachehound/backends/impl/kernel_memory.ipp:62-166 | With the calls read off the moves alone: after every run exactly their operations have been submitted, in order, and a prefix of them executed. Between calls the buffer holds the accesses since the last full batch or call of another kind, the channel is the last one named, and an instrumented access has returned the counters before and after its own operation. |
| `ChannelCalls.CallBounded` | lib/include/cachehound/backends/impl/kernel_memory.ipp:62-166 | In every interleaving a call moves the client, waits aside, fewer than seventeen times more before it has returned. |
| `ChannelCalls.CallEnds` | lib/include/cachehound/backends/impl/kernel_memory.ipp:62-166 | From every state the call in progress can end, with at most seventeen moves of the client and no other call begun, unless it switches to its own channel or to none. |
| `ChannelCalls.FlushedIsExecuted` | lib/include/cachehound/backends/impl/kernel_memory.ipp:156-166 | Between calls with nothing buffered, as after a flush, draining makes the executed operations exactly those of all calls. |
| `ChannelCalls.Delivers` | lib/include/cachehound/backends/impl/kernel_memory.ipp:62-166 | Every such run can be continued: the call in progress ends, a flush is called and ends, the agent drains, and exactly the operations of all calls begun have been executed, in order. |
| `ChannelSwitches.StrideFresh` | lib/include/cachehound/backends/impl/kernel_memory.ipp:267-270 | Routes of the public switch shorter than the period are not closed by the next switch; those of that length are. |
| `ChannelSwitches.PublicRunsAreTame` | lib/include/cachehound/backends/impl/kernel_memory.ipp:267-270 | With fewer than a period of unserviced switches no public run leads back to the route. |
| `ChannelSwitches.PublicInOrder` | lib/include/cachehound/backends/impl/kernel_memory.ipp:62-166 | So every such run of the public interface keeps all operations in order; the period is the number of channels exactly if five does not divide it. |
| `ChannelSwitches.PublicDelivers` | lib/include/cachehound/backends/impl/kernel_memory.ipp:62-270 | So in the public interface, if the period is above one: the operations of all calls begun are submitted, and the run can be continued so that exactly they are executed, in order. |
| `ChannelSwitches.ClosedRouteHazard` | kernel/cachehound.c:300-306 | A switch back to the channel that the agent has still to leave allows a run in which it takes any chosen word for its channel. |
| `ChannelSwitches.BoundIsSharp` | lib/include/cachehound/backends/impl/kernel_memory.ipp:267-270 | For every number of channels such a run exists once a whole period of public switches is unserviced. |

## Left out

- Kernel module set-up, ioctl, mmap and thread plumbing, counter programming, CPU identification: foreign calls and hardware. The counters are an arbitrary function of what was executed.
- The ARM agent and the set/way operations, fences and serialising instructions: hardware effects. An operation of the agent is one abstract step on a word.
- The end of the agent: the module's termination writes a control word that the client never writes.
- The client and the agent are step functions on values and not objects, because they interleave; weaker memory orders than sequential consistency are not modelled.
- Command-line parsing, logging, PMU handlers, and the text of the printed formula beyond its groups; sorting the groups does not change their XOR.
- Random addresses, warm-up and pollution, `find_eviction_set`: probabilistic, without deterministic termination.
- The fast `minimize_eviction_set`: its inner calls omit the predicate and its result iterator can stay unset.
- `bypass_adapter`, whose own comment says that it does not work as intended.
- Inclusive and exclusive caches, `invalidate` and `back_invalidate`: unreachable, since `get_inclusiveness` is constant.
- Termination of the outer elimination loop: "PLRU" and "PLRUl" build the same policy and cannot be told apart.
- The debugging abort of `feed_mapping` after 100000 failures, and the constructor's assertion in `affine_placement_policy` that shifts an `int` by the number of rows.
- The unsafe measurement, which differs from the safe one only in that it does not abort.
- Type-erasing wrappers and concepts: a policy is a machine, a cache a record of operations, and mixed levels a sum type.
- Eigen and GMP: the determinant is the integer Laplace expansion, without the rational elimination that computes it.
- BitMatrix.Determinant: the rational elimination is replaced by the integer determinant that it computes.
- PrintedIndex.PrintedExactly: gives no value to a formula whose shift wraps around.
- PolicyObjects.SrripPolicy.constructor: requires at least one bit; with none, the source's long interval wraps around.
- PolicyObjects.LruWrappedPolicy.Miss: the nested policies are values with the nested machine's operations, not objects of their own.
- ChannelSwitches.PublicDelivers: requires a period above one; with one or five channels a single public switch leads back to the client's own channel, and `ChannelSwitches.BoundIsSharp` shows what can happen then.
- EvictionSets.FindSpareGroup: mask ends are indices, so that moving one past the end of the array before giving up is not an error.
- EvictionSets.ReduceEvictionSet: requires max_size of at least one; with zero the source starts its mask beyond the range.

# Data structures and algorithms of structures-algorithm, verified

This project models the core of the `structures-algorithm` module: Mark Allen Weiss's
data structures and algorithms in Java, and an LRU cache. Each structure has a simple
meaning (a set, a multiset, a partition, a list in order of last use, a least distance, a
least cost) and reaches it by delicate surgery on linked nodes or arrays. For each one the
project keeps the surgery, as Dafny classes and methods over the same fields, arrays and
links and with the same branches, and proves that it has that meaning, over single calls
and over whole runs.

Most components come in two modules. One holds the values: what the nodes or cells
represent, the steps as functions on it, and the lemmas about those steps
(`AATrees`, `RedBlackTrees`, `SplayTrees`, `PairHeaps`, `BinomialQueues`, `SkipLists`,
`Treaps`, `BreadthFirst`, `ShortestWalks`, `DisjointSets`, `RecencyList`,
`QuadraticProbing`). The other holds the program: the classes with their links, each method
proved to do in place what the step does on values (`AATree`, `RedBlackTree`, `SplayTree`,
`PairHeap`, `BinomialQueue`, `DSL`, `Treap`, `Graph`, `AllPairs`, `DisjSetsFast`, `LRU`,
`QuadraticProbingHashTable`). `OptMatrix`, `PrimalityTest`, `RandomGenerator` and `Sort`
hold both. `SplayCosts` holds the potential that pays for splaying, `ProbingFailures`
what becomes of a hash table whose length is not good for probing, `LargePrime` a prime
that the primality test rejects, and `MatrixProducts` the multiplications that the costs of
`OptMatrix` stand for.
`NumberTheory` proves what several of them need: Euclid's lemma, infinitely many primes,
Fermat's little theorem, inverses and roots of 1 modulo a prime, and orders of elements.
`OrderedSets` is the plain set, with its operations and answers, that every search
structure is compared with; `Forests` is shared by the two heaps; `MachineIntegers` is
32-bit wrap-around.

How the Java shows up in the model:

- Node links are object references. A ghost tree of references says which nodes belong to
  the structure, so aliasing and lost or shared nodes are part of what is proved.
- The static fields (`nullNode`, the splay tree's `header` and `newNode`, `deletedNode`,
  `lastNode`, `current`, `parent`, `grand`, `great`, the treap's random object) are fields
  of the tree object: one tree at a time is modelled.
- Sentinels are real nodes and are written where the Java writes them. Links that Java
  leaves null and never follows (a fresh splay node, `tail.down`) start at the sentinel or
  at the node itself.
- A `Comparable` is an `int`, as a total order. The hash table and the LRU cache are generic.
- A `Hashable` is a hash function that is a parameter, into [0, table size).
- A Java null answer is `None`; an exception is an answer value or a Boolean result.
- Random bases, priorities and seeds, and the reading of the clock, are parameters or arbitrary
  values.
- 32-bit and 64-bit wrap-around is explicit in `RandomGenerator`, for `witness`, and in the
  sums of `allPairs` and the products of `optMatrix`. For breadth-first search the bound that
  rules it out is a precondition.
- The `multiply` of `Fig10_38` assumes square matrices; its loops are stated for any two
  matrices that fit each other, as the chains of `optMatrix` need them, and a ghost variable
  counts their scalar multiplications.
- The cost of a splay tree operation is counted by ghost variables: one for every pass of the
  loop of `splay`, equal to `SplayPasses` on values, and one for every step of the walks of
  `findMin` and `findMax`. Lengths in bits
  stand for logarithms, so the bounds are over integers.

What the code needs, or does beside its documentation:

- The hash table's constructor calls its argument an approximate size and does not round it
  up to a prime. Probing works exactly at the good lengths: 1, the primes, and twice the odd
  primes. At every other length n a run of at most n/2 + 2 insertions into a new table ends
  in one that leaves the array (`RunOfInsertions`), and a table is at fault only before its
  first rehash, which makes the length prime. The default, 11, is a prime. A length of 0
  gives an object whose first operation divides by zero; it is not `Valid`.
- `currentSize` is documented as the number of occupied cells. It is that number plus the
  number of times an element took over its own tombstone since the last rehash or
  `makeEmpty` (the ghost field `reused`); `CountedTwice` is the least example. The table stays
  correct, and may only rehash early.
- `nextPrime` never tries 2. It returns the least odd prime at least n.
- `Random` accepts any seed. Exactly two 32-bit seeds give a state outside [1, M-1], and
  exactly one of these, M, is lasting: it makes every output 0.
- `witness` with base 2 rejects the prime 2; every other prime passes every base it does
  not divide.
- `SplayTree.find` on an empty tree returns the item sought, because the sentinel matches.
- `RedBlackTree` describes `negInf` as less than or equal to all others. Inserting an equal
  item is a no-op, since the search meets the header; smaller items are outside the contract.
- `DSL.find` of infinity always succeeds; inserting infinity is a no-op. Larger items are
  outside the contract.
- `remove` is unimplemented in `RedBlackTree` and `DSL`, so in their runs it changes nothing.
- An LRU cache of capacity 0 is accepted, and every `put` then fails at a null tail; a
  negative capacity is already refused by the hash map of the constructor.
- `allPairs` adds 32-bit integers. Its results are right when the entries are in [-b, b] with
  2b below 2^31 and there is no negative cycle; with one, entries can grow sixfold in every
  round, and b * 6^n below 2^31 is asked for.
- `optMatrix` multiplies three 32-bit dimensions before it widens the product. Its tables are
  always right for the products it computes, and so for the true ones when none wraps.
- `witness` computes in 64 bits. Up to `MAX_MODULUS` every product fits and its answers are
  exact; for larger moduli products wrap, and then `isPrime` can reject a prime: it does so
  with 3221225473 and the base 2 (`LargeIsRejected`).
- `DisjSetsFast.union` needs two distinct roots; a run therefore finds both roots and
  unites them when they differ.
- A pairing heap root keeps the `prev` of the deleted root it comes from. `compareAndLink`
  may copy it into the next root, but in a heap it is never followed.
- `decreaseKey` is documented for any node returned by `insert`. It does what it should if and
  only if the node is still in the heap or the new value is larger than the one it holds. For
  any other node it fails where `prev` or the root is null (`DeletedHandle`), and otherwise
  silently links the dead node in, after which there is no heap of the nodes there were
  (`StaleHandle`).
- The comments of `quicksort` and `quickSelect` speak of a cutoff of 10; the constant is 3.

## Model

| member | source | states |
|---|---|---|
| `QuadraticProbing.NextProbe` | structures-algorithm/src/main/java/DataStructures/QuadraticProbingHashTable.java:91-93 | as long as the sum stays below twice the length, adding 2k-1 and subtracting the length at most once gives exactly h + k*k modulo the length; the first (n+1)/2 steps always stay below |
| `QuadraticProbing.ProbesDistinct` | structures-algorithm/src/main/java/DataStructures/QuadraticProbingHashTable.java:83-97 | in a table of good length n (1, a prime, or twice an odd prime) the probes 0..n/2 are pairwise different positions |
| `QuadraticProbing.ProbesCollide` | structures-algorithm/src/main/java/DataStructures/QuadraticProbingHashTable.java:83-97 | at every other length some two of the first n/2+1 probes meet, wherever they start |
| `QuadraticProbing.GoodSizeExactly` | structures-algorithm/src/main/java/DataStructures/QuadraticProbingHashTable.java:83-97 | the good lengths are exactly those at which the first n/2+1 probes never meet |
| `QuadraticProbing.ProbingEnds` | structures-algorithm/src/main/java/DataStructures/QuadraticProbingHashTable.java:88-94 | a table of good length with at most half of its cells occupied stops every probe sequence within length/2 further probes |
| `QuadraticProbing.GoodSizeSearches` | structures-algorithm/src/main/java/DataStructures/QuadraticProbingHashTable.java:83-97 | in such a table no search leaves the array |
| `QuadraticProbing.StopIsPlace` | structures-algorithm/src/main/java/DataStructures/QuadraticProbingHashTable.java:83-97 | where the search for a stored element stops is the one cell that holds it, tombstone or not |
| `QuadraticProbing.StopDecides` | structures-algorithm/src/main/java/DataStructures/QuadraticProbingHashTable.java:115-129 | the element is in the set exactly when the stopping cell is occupied and active; an occupied stopping cell holds the element sought |
| `QuadraticProbing.StoreKeepsPlaces` | structures-algorithm/src/main/java/DataStructures/QuadraticProbingHashTable.java:52 | storing at the stopping cell keeps every element, of any hash value, reachable by its own probes and in one cell only |
| `QuadraticProbing.StoreChangesSet` | structures-algorithm/src/main/java/DataStructures/QuadraticProbingHashTable.java:45-57 | storing an active entry there adds exactly x to the set; an inactive one removes exactly x |
| `QuadraticProbing.StoreChangesTombstones` | structures-algorithm/src/main/java/DataStructures/QuadraticProbingHashTable.java:45-57 | storing an inactive entry there adds exactly x to the elements that are removed but still occupy a cell; an active one takes x out of them |
| `QuadraticProbing.StoreUses` | structures-algorithm/src/main/java/DataStructures/QuadraticProbingHashTable.java:52-55 | a store occupies one more cell if the cell was free, and no more if it was taken |
| `QuadraticProbing.StoreIsUpdate` | structures-algorithm/src/main/java/DataStructures/QuadraticProbingHashTable.java:45-57 | a store at the stopping cell is the update of the set and of the tombstones, keeps every element in place, and changes the number of occupied cells by exactly 1 or 0 |
| `QuadraticProbingHashTable.TestPrime` | structures-algorithm/src/main/java/DataStructures/QuadraticProbingHashTable.java:198-211 | trial division by 3, 5, 7, ... up to the square root answers true exactly for the primes |
| `QuadraticProbingHashTable.NextPrime` | structures-algorithm/src/main/java/DataStructures/QuadraticProbingHashTable.java:181-190 | ends, and returns the least odd prime that is at least n |
| `QuadraticProbingHashTable.QuadraticProbingHashTable.constructor` | structures-algorithm/src/main/java/DataStructures/QuadraticProbingHashTable.java:34-38 | a new table of exactly the length asked for, all slots free; valid for every length above 0, good or not |
| `QuadraticProbingHashTable.QuadraticProbingHashTable.Default` | structures-algorithm/src/main/java/DataStructures/QuadraticProbingHashTable.java:25-28 | a valid empty table of length 11, which is a good length |
| `QuadraticProbingHashTable.DefaultSizeIsPrime` | structures-algorithm/src/main/java/DataStructures/QuadraticProbingHashTable.java:161 | the default length is a prime |
| `QuadraticProbingHashTable.QuadraticProbingHashTable.FindPos` | structures-algorithm/src/main/java/DataStructures/QuadraticProbingHashTable.java:83-97 | the incremental loop stops at the first of the positions h + k*k that is free or holds x, or reports that it left the array exactly when that sequence does; at a good length it stops after at most length/2 + 1 probes |
| `QuadraticProbingHashTable.QuadraticProbingHashTable.Find` | structures-algorithm/src/main/java/DataStructures/QuadraticProbingHashTable.java:115-119 | returns x exactly when x is in the set; fails exactly when the search leaves the array, never at a good length |
| `QuadraticProbingHashTable.QuadraticProbingHashTable.Remove` | structures-algorithm/src/main/java/DataStructures/QuadraticProbingHashTable.java:103-108 | the set loses exactly x, which becomes a tombstone; fails exactly when the search leaves the array, and then changes nothing |
| `QuadraticProbingHashTable.QuadraticProbingHashTable.Insert` | structures-algorithm/src/main/java/DataStructures/QuadraticProbingHashTable.java:45-57 | the set gains exactly x. Without a rehash the counter grows by 1, and by one more than the occupied cells exactly if x had a tombstone; with one the new length is the least odd prime that is at least twice the old one, and the count is exact. A good length stays good; fails exactly when the search leaves the array, and then changes nothing |
| `QuadraticProbingHashTable.QuadraticProbingHashTable.Place` | structures-algorithm/src/main/java/DataStructures/QuadraticProbingHashTable.java:47-55 | the insertion up to the test of the load: cell, set, tombstones and counter |
| `QuadraticProbingHashTable.QuadraticProbingHashTable.Occupy` | structures-algorithm/src/main/java/DataStructures/QuadraticProbingHashTable.java:52-55 | a new entry in the cell where the probes for x end |
| `QuadraticProbingHashTable.QuadraticProbingHashTable.AllocateArray` | structures-algorithm/src/main/java/DataStructures/QuadraticProbingHashTable.java:171-174 | a new array of free slots of that length; the counter is not touched |
| `QuadraticProbingHashTable.QuadraticProbingHashTable.Rehash` | structures-algorithm/src/main/java/DataStructures/QuadraticProbingHashTable.java:62-76 | from any length moves to a table whose length is the least odd prime that is at least twice as long, with exactly the active elements, no tombstones, and the counter equal to the number of elements |
| `QuadraticProbingHashTable.QuadraticProbingHashTable.MakeEmpty` | structures-algorithm/src/main/java/DataStructures/QuadraticProbingHashTable.java:134-139 | empties the set, the tombstones and the counter and keeps the array |
| `QuadraticProbingHashTable.Perform` | structures-algorithm/src/main/java/DataStructures/QuadraticProbingHashTable.java:45-139 | one operation on the table is the same operation on a plain set, with the same answer, or fails exactly when its search leaves the array |
| `QuadraticProbingHashTable.Run` | structures-algorithm/src/main/java/DataStructures/QuadraticProbingHashTable.java:45-139 | over every sequence of insert, remove, find and makeEmpty the table holds what the plain set holds, and every find answers what that set says at that moment; from a good length the run is never cut short, from another only by a search that leaves the array |
| `QuadraticProbingHashTable.CountedTwice` | structures-algorithm/src/main/java/DataStructures/QuadraticProbingHashTable.java:52-55 | an element inserted, removed and inserted again: one occupied cell, counter 2 |
| `ProbingFailures.SearchesEndExactly` | structures-algorithm/src/main/java/DataStructures/QuadraticProbingHashTable.java:83-97 | a length is good if and only if no search in any well-formed table of that length, at most half full, leaves the array |
| `ProbingFailures.BadSizeHalf` | structures-algorithm/src/main/java/DataStructures/QuadraticProbingHashTable.java:83-97 | at a length that is not good, the first n/2+1 probes from 0 meet at most half of the cells |
| `ProbingFailures.FilledFails` | structures-algorithm/src/main/java/DataStructures/QuadraticProbingHashTable.java:83-97 | in the table that holds just those cells, the search for n leaves the array |
| `ProbingFailures.RunOfInsertions` | structures-algorithm/src/main/java/DataStructures/QuadraticProbingHashTable.java:34-57 | a run on a new table of length n: inserting the probed positions and then n fails if and only if n is not a good length |
| `PrimalityTest.RootExposedExactly` | structures-algorithm/src/main/java/Miscellaneous/Fig10_62.java:13-31 | a nontrivial root is met on the way exactly if, for some e with 2^e at most i, the power a^(i / 2^(e+1)) is a square root of 1 modulo n other than 1 and -1 |
| `PrimalityTest.WitnessMeaning` | structures-algorithm/src/main/java/Miscellaneous/Fig10_62.java:13-31 | the result is 0 if a nontrivial square root of 1 is met, and otherwise a^i mod n |
| `PrimalityTest.PrimePassesExactly` | structures-algorithm/src/main/java/Miscellaneous/Fig10_62.java:13-31 | for a prime p, witness(a, p-1, p) is 1 if and only if p does not divide a (Fermat, and no nontrivial roots of 1) |
| `PrimalityTest.BaseTwoRejectsTwo` | structures-algorithm/src/main/java/Miscellaneous/Fig10_62.java:13-31 | a prime is rejected by base 2 exactly when it is 2 |
| `PrimalityTest.PassingMeans` | structures-algorithm/src/main/java/Miscellaneous/Fig10_62.java:13-31 | for any n, passing is exactly: a^(n-1) is 1 modulo n and no nontrivial root of 1 was met |
| `PrimalityTest.TrialIsExact` | structures-algorithm/src/main/java/Miscellaneous/Fig10_62.java:45-54 | for n in 4..3037000500 and a base in 2..n-2 the 64-bit trial is the exact one: it passes exactly if the Fermat congruence holds and no nontrivial root of 1 was met, and if not, n has a divisor in 2..n-1 |
| `PrimalityTest.ProbablyPrime` | structures-algorithm/src/main/java/Miscellaneous/Fig10_62.java:45-54 | the loop, in 64-bit arithmetic, for n in 4..3037000500 and bases in 2..n-2: a prime is never rejected, a rejected number has a divisor in 2..n-1, and an accepted one satisfies the Fermat congruence, with no nontrivial root of 1 met, for all TRIALS bases |
| `PrimalityTest.RejectionIsProof` | structures-algorithm/src/main/java/Miscellaneous/Fig10_62.java:42 | if any base in 2..n-2 fails, n has a divisor in 2..n-1: a negative answer is definite |
| `PrimalityTest.Witness64Exact` | structures-algorithm/src/main/java/Miscellaneous/Fig10_62.java:13-31 | with 64-bit wrapping arithmetic and a truncating remainder the result is the same for every modulus up to 3037000500 |
| `PrimalityTest.LargerModuliWrap` | structures-algorithm/src/main/java/Miscellaneous/Fig10_62.java:13-31 | above that bound products do not fit: for every larger modulus n up to 2^32 the witness of n-1, squared, is 1, and the 64-bit one is not |
| `LargePrime.LargeIsPrime` | structures-algorithm/src/main/java/Miscellaneous/Fig10_62.java:45-54 | 3221225473 = 3 * 2^30 + 1 is prime, by an order certificate of 5 |
| `LargePrime.LargePrimeRejected` | structures-algorithm/src/main/java/Miscellaneous/Fig10_62.java:45-54 | for this prime the witness of 2 is 1, and the 64-bit one is 2406222534 |
| `LargePrime.LargeIsRejected` | structures-algorithm/src/main/java/Miscellaneous/Fig10_62.java:45-54 | the 64-bit loop rejects this prime whenever 2 is among the bases drawn |
| `RandomGenerator.Random.constructor` | structures-algorithm/src/main/java/DataStructures/Random.java:44-52 | a seed in 1..M is the state itself; a negative one is shifted by M; 0 and -M become 1 |
| `RandomGenerator.Random.RandomInt` | structures-algorithm/src/main/java/DataStructures/Random.java:59-68 | from a state in 1..M-1, returns and stores 48271 * state mod 2147483647, again in 1..M-1; from any other state, what the wrapping arithmetic gives |
| `RandomGenerator.SchrageStep` | structures-algorithm/src/main/java/DataStructures/Random.java:61-65 | from a state in 1..M-1 no intermediate leaves 32 bits and the new state is A * state mod M, again in 1..M-1 |
| `RandomGenerator.SeedIsGood` | structures-algorithm/src/main/java/DataStructures/Random.java:44-52 | a 32-bit seed gives a state in 1..M-1 if and only if it is neither M nor -M-1 |
| `RandomGenerator.ClockSeedIsGood` | structures-algorithm/src/main/java/DataStructures/Random.java:34-37 | the remainder of a clock reading, negative or not, is neither of these |
| `RandomGenerator.Random.FromClock` | structures-algorithm/src/main/java/DataStructures/Random.java:34-37 | a generator seeded from the clock has as state the truncated remainder of the reading, shifted by M when negative and 1 when zero; it always is in 1..M-1 |
| `RandomGenerator.StateIsPower` | structures-algorithm/src/main/java/DataStructures/Random.java:59-68 | after k steps from s the state is A^k * s mod M and in 1..M-1 |
| `RandomGenerator.StepFromBadSeeds` | structures-algorithm/src/main/java/DataStructures/Random.java:44-68 | what one step does from the two bad seeds: M falls to 0 and stays, -M-1 lands on M-A |
| `RandomGenerator.OutputsStayInRange` | structures-algorithm/src/main/java/DataStructures/Random.java:44-68 | every output of every run is in 1..M-1 unless the seed is M, when every output is 0 |
| `RandomGenerator.FullPeriod` | structures-algorithm/src/main/java/DataStructures/Random.java:25-68 | from any state in 1..M-1 every other one is reached, after exactly one number of steps below M-1, and again M-1 steps later: the period is M-1, proved from an order certificate of 48271 |
| `DisjointSets.ShortcutKeepsRoots` | structures-algorithm/src/main/java/DataStructures/DisjSetsFast.java:62 | pointing one element at its own root changes the root of no element |
| `DisjointSets.CompressStep` | structures-algorithm/src/main/java/DataStructures/DisjSetsFast.java:57-63 | one level of the recursive compression: the elements on the path now point at the root, and every root and link order is kept |
| `DisjointSets.CompressedIsShallow` | structures-algorithm/src/main/java/DataStructures/DisjSetsFast.java:57-63 | after find(x) every element on the path of x is at most one link from its root |
| `DisjointSets.CompressKeepsBalance` | structures-algorithm/src/main/java/DataStructures/DisjSetsFast.java:57-63 | compression keeps a root of height h representing at least 2^h elements |
| `DisjointSets.UnionByHeight` | structures-algorithm/src/main/java/DataStructures/DisjSetsFast.java:39-49 | joining two roots by stored height merges exactly the two classes and keeps that bound |
| `DisjointSets.DepthIsLogarithmic` | structures-algorithm/src/main/java/DataStructures/DisjSetsFast.java:57-63 | 2 to the depth of any element is at most the number of elements |
| `DisjointSets.MergeRepresents` | structures-algorithm/src/main/java/DataStructures/DisjSetsFast.java:39-49 | if the forest represents a partition, then after a union it represents the partition with the two classes made one |
| `DisjointSets.RelabelJoins` | structures-algorithm/src/main/java/DataStructures/DisjSetsFast.java:39-49 | in the partition with two classes made one, two elements are together exactly if they were, or if each was in one of the two |
| `DisjointSets.SameRootsRepresents` | structures-algorithm/src/main/java/DataStructures/DisjSetsFast.java:57-63 | a change that keeps every root keeps the partition |
| `DisjSetsFast.DisjSets.constructor` | structures-algorithm/src/main/java/DataStructures/DisjSets.java:26-31 | every element is its own root |
| `DisjSetsFast.DisjSets.Union` | structures-algorithm/src/main/java/DataStructures/DisjSets.java:40-43 | root2 is linked below root1, and exactly their two classes merge |
| `DisjSetsFast.DisjSets.Find` | structures-algorithm/src/main/java/DataStructures/DisjSets.java:51-57 | returns the root |
| `DisjSetsFast.PerformNaive` | structures-algorithm/src/main/java/DataStructures/DisjSets.java:40-57 | joining the classes of two elements is the same step on the partition |
| `DisjSetsFast.DisjSetsFast.constructor` | structures-algorithm/src/main/java/DataStructures/DisjSetsFast.java:25-30 | every element is its own root |
| `DisjSetsFast.DisjSetsFast.Union` | structures-algorithm/src/main/java/DataStructures/DisjSetsFast.java:39-49 | the lower root is linked below the higher, equal heights raise the survivor by one, and exactly the two classes merge |
| `DisjSetsFast.DisjSetsFast.Find` | structures-algorithm/src/main/java/DataStructures/DisjSetsFast.java:57-63 | returns the root, compresses exactly the path walked, and changes no root |
| `DisjSetsFast.PerformFast` | structures-algorithm/src/main/java/DataStructures/DisjSetsFast.java:39-63 | find-then-union is the same step on the partition |
| `DisjSetsFast.Run` | structures-algorithm/src/main/java/DataStructures/DisjSetsFast.java:39-63 | over every sequence of unions and finds both structures represent the same partition, and any path of the fast one has at most log2(n) links |
| `DisjSetsFast.Agreement` | structures-algorithm/src/main/java/DataStructures/DisjSetsFast.java:39-63 | two forests for one partition agree on which elements are together; in the height-balanced one 2^depth is at most n |
| `ShortestWalks.EdgeWalkWeighs` | structures-algorithm/src/main/java/Miscellaneous/Fig10_53.java:24-27 | an edge is a walk that weighs its entry, a single vertex a walk that weighs nothing |
| `ShortestWalks.DistIsLeast` | structures-algorithm/src/main/java/Miscellaneous/Fig10_53.java:18-41 | when no diagonal entry of the recurrence goes negative, its last level is the least weight over all walks |
| `ShortestWalks.DiagonalZeroIffNoNegativeCycle` | structures-algorithm/src/main/java/Miscellaneous/Fig10_53.java:14 | the diagonal stays zero if and only if no cycle has negative weight |
| `ShortestWalks.DistBounded` | structures-algorithm/src/main/java/Miscellaneous/Fig10_53.java:18-41 | without negative cycles every level stays within the largest entry in absolute value, so no value grows with n |
| `ShortestWalks.PivotRowKept` | structures-algorithm/src/main/java/Miscellaneous/Fig10_53.java:31-40 | round k changes neither row k nor column k, which is what makes updating in place safe |
| `ShortestWalks.ViaSplits` | structures-algorithm/src/main/java/Miscellaneous/Fig10_53.java:35-40 | the recorded vertex splits the distance, and the vertices recorded for both halves are strictly smaller |
| `ShortestWalks.TableIsExpandable` | structures-algorithm/src/main/java/Miscellaneous/Fig10_53.java:15 | the recorded path table can be expanded: every expansion ends |
| `ShortestWalks.ExpandMeans` | structures-algorithm/src/main/java/Miscellaneous/Fig10_53.java:15 | NOT_A_VERTEX stands for the edge itself, and any other entry for a vertex where two expansions are joined |
| `ShortestWalks.ExpandIsShortest` | structures-algorithm/src/main/java/Miscellaneous/Fig10_53.java:15 | the expansion of path[i][j] is a walk from i to j of weight d[i][j] |
| `AllPairs.Initialize` | structures-algorithm/src/main/java/Miscellaneous/Fig10_53.java:24-29 | d is a copy of the input and path holds NOT_A_VERTEX everywhere |
| `AllPairs.SumFits` | structures-algorithm/src/main/java/Miscellaneous/Fig10_53.java:35-38 | while the computation is under way, with entries that fit, the 32-bit sum of the innermost statement is the sum itself |
| `AllPairs.Relax` | structures-algorithm/src/main/java/Miscellaneous/Fig10_53.java:35-40 | the innermost statement with its 32-bit sum: exactly cell (i, j) of both tables is replaced, exactly when the sum is less |
| `AllPairs.UpdateCell` | structures-algorithm/src/main/java/Miscellaneous/Fig10_53.java:35-40 | one in-place cell update advances the recurrence by that cell, keeps every entry the weight of some walk, and keeps the bound on the entries of that round |
| `AllPairs.ConsiderVertex` | structures-algorithm/src/main/java/Miscellaneous/Fig10_53.java:33-40 | one round of the outer loop raises every entry by one level of the recurrence, although row and column k are read while they are being written |
| `AllPairs.ConsiderAll` | structures-algorithm/src/main/java/Miscellaneous/Fig10_53.java:31-40 | the three loops keep all that |
| `AllPairs.AllPairsShortest` | structures-algorithm/src/main/java/Miscellaneous/Fig10_53.java:18-41 | with a zero diagonal, 32-bit sums, and entries in [-b, b] with 2b (with a negative cycle: b * 6^n) below 2^31: a diagonal entry of d is negative if and only if there is a negative cycle; without one, every d[i][j] is the least weight of all walks and path expands to such a walk |
| `OptMatrix.CostBelowInfinity` | structures-algorithm/src/main/java/Miscellaneous/Fig10_46.java:32-34 | with fewer than 2^31 matrices every candidate cost of 32-bit products is below INFINITY and in 64 bits, so none wraps and the first candidate always replaces it |
| `OptMatrix.BestIsLeast` | structures-algorithm/src/main/java/Miscellaneous/Fig10_46.java:30-39 | the best over all splits, of least costs of the two sides, is the least cost over all parenthesizations |
| `OptMatrix.LeastCostsMean` | structures-algorithm/src/main/java/Miscellaneous/Fig10_46.java:32-33 | when no product of three dimensions leaves 32 bits, a least cost in 32-bit products is the least true cost |
| `OptMatrix.Record` | structures-algorithm/src/main/java/Miscellaneous/Fig10_46.java:36-37 | writes exactly one cell of each table |
| `OptMatrix.CellIsBest` | structures-algorithm/src/main/java/Miscellaneous/Fig10_46.java:30-39 | tables of least costs hold in every cell the least, over all places i to split, of m[left][i] + m[i+1][right] + the 32-bit product of c[left-1], c[i] and c[right] |
| `OptMatrix.TrueCosts` | structures-algorithm/src/main/java/Miscellaneous/Fig10_46.java:32-33 | when no product wraps, these are the least true costs; two neighbouring matrices cost c[l-1] * c[l] * c[l+1] |
| `OptMatrix.TrySplit` | structures-algorithm/src/main/java/Miscellaneous/Fig10_46.java:32-38 | after trying split i the cell holds the best of the splits left..i and lastChange names it |
| `OptMatrix.FillRange` | structures-algorithm/src/main/java/Miscellaneous/Fig10_46.java:28-39 | the inner loop leaves the least cost of left..right and a split that attains it |
| `OptMatrix.ComputeOptMatrix` | structures-algorithm/src/main/java/Miscellaneous/Fig10_46.java:17-41 | every m[left][right] on or above the diagonal is the least cost, over all parenthesizations of matrices left..right, in the 32-bit products that the code computes, and so the least number of scalar multiplications when no product wraps: 0 for one matrix, c[l-1] * c[l] * c[l+1] for two, and for more the least, written out, over all places to split, of which lastChange names one; the tables can be decoded |
| `OptMatrix.DecodeCosts` | structures-algorithm/src/main/java/Miscellaneous/Fig10_46.java:12 | decoding lastChange gives a parenthesization of exactly left..right whose cost is m[left][right] |
| `OptMatrix.DecodeMeans` | structures-algorithm/src/main/java/Miscellaneous/Fig10_46.java:12 | the decoding splits each range where lastChange says |
| `MatrixProducts.Multiply` | structures-algorithm/src/main/java/Miscellaneous/Fig10_38.java:10-25 | the standard triple loop, for a p by q and a q by r matrix: every cell is its row times its column, modulo 2^32, and exactly p * q * r scalar multiplications are done |
| `MatrixProducts.Evaluate` | structures-algorithm/src/main/java/Miscellaneous/Fig10_46.java:8-11 | multiplying a chain of matrices in the order of a parenthesization takes exactly as many scalar multiplications as it is said to cost |
| `RecencyList.LookupAfterPut` | structures-algorithm/src/main/java/other/LRU.java:39-49 | after a put that does not fail its key has the value that was put; any other key has the value it had, except the last key of a full list when the key was new, which has none |
| `RecencyList.LookupAfterGet` | structures-algorithm/src/main/java/other/LRU.java:52-59 | a get changes the value of no key |
| `RecencyList.LookupAfterRemove` | structures-algorithm/src/main/java/other/LRU.java:61-79 | after a removal its key has no value, and any other key has the value it had |
| `RecencyList.StepLooksUp` | structures-algorithm/src/main/java/other/LRU.java:35-125 | what any key is found to hold after each of the operations, failing puts and clear included |
| `RecencyList.UsedComesFirst` | structures-algorithm/src/main/java/other/LRU.java:82-106 | where the i-th entry goes: a get or put of its key puts it first, with the old or the new value; a removal takes it out; the order of the others is kept |
| `RecencyList.NewComesFirst` | structures-algorithm/src/main/java/other/LRU.java:36-44 | a new key goes first, before all entries or all but the last; a get or removal of an absent key changes nothing |
| `RecencyList.StepKeepsRecency` | structures-algorithm/src/main/java/other/LRU.java:35-125 | one operation on the plain list keeps it sorted by last use, latest first, and within capacity |
| `RecencyList.RunsAreByRecency` | structures-algorithm/src/main/java/other/LRU.java:35-125 | after every run the list is in order of last use, without duplicates and within capacity |
| `RecencyList.EvictsLeastRecent` | structures-algorithm/src/main/java/other/LRU.java:39-42 | a put of a new key into a full cache drops the key whose last use is strictly oldest, and keeps every other key and value |
| `LRU.LRU.constructor` | structures-algorithm/src/main/java/other/LRU.java:16-22 | an empty cache of the given capacity, 0 included, which knows no key |
| `LRU.LRU.Get` | structures-algorithm/src/main/java/other/LRU.java:52-59 | returns the value last stored for the key, if it is there, moves its node to the head, and changes the value of no key; the list is that of the plain get |
| `LRU.LRU.Put` | structures-algorithm/src/main/java/other/LRU.java:35-50 | unless it fails, the key then has the value put and is at the head; every other key keeps its value, except that a new key in a full cache makes exactly the key of the tail forgotten. The new state is the plain put. Fails exactly for a new key at capacity 0, where there is no tail to evict, and then changes nothing |
| `LRU.LRU.Remove` | structures-algorithm/src/main/java/other/LRU.java:61-79 | the cache then knows exactly the other keys, with their values; returns the node of the key, with its value, or null if there is none; the list is that of the plain removal |
| `LRU.LRU.Clear` | structures-algorithm/src/main/java/other/LRU.java:121-125 | empties list and map: no key is known |
| `LRU.LRU.Move2Head` | structures-algorithm/src/main/java/other/LRU.java:82-106 | relinks a new or an already linked node at the head of a well-formed doubly linked list, keeping the order of the others |
| `LRU.LRU.RemoveTail` | structures-algorithm/src/main/java/other/LRU.java:109-119 | drops exactly the last node; does nothing on an empty list |
| `LRU.Perform` | structures-algorithm/src/main/java/other/LRU.java:35-125 | one call is the same call on the plain list |
| `LRU.Run` | structures-algorithm/src/main/java/other/LRU.java:35-125 | over every run the contents equal those of the plain list, in order of last use, the map has at most capacity keys, and every get, remove and failing put answers what the plain list says |
| `OrderedSets.AnswersMean` | structures-algorithm/src/main/java/DataStructures/AATree.java:55-106 | what the answers of the plain set say: find the element itself if it is in the set, findMin and findMax a least and a greatest element, none exactly when empty |
| `OrderedSets.EffectsMean` | structures-algorithm/src/main/java/DataStructures/AATree.java:36-123 | what is in the plain set after each operation |
| `AATrees.InsertKeepsBalance` | structures-algorithm/src/main/java/DataStructures/AATree.java:142-156 | insertion keeps the level rules (left one lower, right equal or one lower, right of right strictly lower) and raises the root level by at most one |
| `AATrees.InsertAdds` | structures-algorithm/src/main/java/DataStructures/AATree.java:142-156 | keeps search order and adds exactly x; duplicates change nothing |
| `AATrees.InsertRefines` | structures-algorithm/src/main/java/DataStructures/AATree.java:142-156 | insertion into a search tree is insertion into its key set |
| `AATrees.RemoveKeepsBalance` | structures-algorithm/src/main/java/DataStructures/AATree.java:164-202 | removal keeps the level rules; the root level falls by at most one |
| `AATrees.LeftDropped` | structures-algorithm/src/main/java/DataStructures/AATree.java:190-199 | after the left child lost a level, the decrement, three skews and two splits restore the level rules |
| `AATrees.RightDropped` | structures-algorithm/src/main/java/DataStructures/AATree.java:190-199 | the same after the right child lost a level |
| `AATrees.ThreeSkews` | structures-algorithm/src/main/java/DataStructures/AATree.java:194-198 | the case that needs all three skews and both splits |
| `AATrees.TwoSkews` | structures-algorithm/src/main/java/DataStructures/AATree.java:194-198 | the case with at most two effective skews |
| `AATrees.RemoveFirst` | structures-algorithm/src/main/java/DataStructures/AATree.java:164-202 | below the node to delete, the descent unlinks the first node in order and hands its element up |
| `AATrees.RemoveRemoves` | structures-algorithm/src/main/java/DataStructures/AATree.java:164-202 | keeps search order and removes exactly x; if x is absent the tree is unchanged |
| `AATrees.RemoveRefines` | structures-algorithm/src/main/java/DataStructures/AATree.java:164-202 | removal from a search tree is removal from its key set |
| `AATrees.RemoveInSteps` | structures-algorithm/src/main/java/DataStructures/AATree.java:164-202 | the two phases of one call, descent and then rebalancing, compose to the removal |
| `AATrees.SecondSplitHasNode` | structures-algorithm/src/main/java/DataStructures/AATree.java:194-198 | every node that the skews and splits dereference is a real one, so the sentinel is never rotated or raised |
| `AATrees.LevelBounds` | structures-algorithm/src/main/java/DataStructures/AATree.java:142-202 | a tree whose root has level l has at least 2^l - 1 keys and height at most 2l |
| `AATree.AANode.constructor` | structures-algorithm/src/main/java/DataStructures/AANode.java:15-21 | a node of level 1 with the given links |
| `AATree.AATree.constructor` | structures-algorithm/src/main/java/DataStructures/AATree.java:27-30 | an empty tree over a sentinel of level 0 |
| `AATree.AATree.RotateWithLeftChild` | structures-algorithm/src/main/java/DataStructures/AATree.java:248-254 | relinks two nodes as the rotation, keeping the node set; at the sentinel nothing changes |
| `AATree.AATree.RotateWithRightChild` | structures-algorithm/src/main/java/DataStructures/AATree.java:259-265 | the mirror rotation |
| `AATree.AATree.Skew` | structures-algorithm/src/main/java/DataStructures/AATree.java:223-228 | in place, equal to the skew of the represented tree, with the sentinel intact |
| `AATree.AATree.Split` | structures-algorithm/src/main/java/DataStructures/AATree.java:235-243 | in place, equal to the split of the represented tree |
| `AATree.AATree.InsertInto` | structures-algorithm/src/main/java/DataStructures/AATree.java:142-156 | recursive insertion in place equals the insertion on values; only new nodes are added |
| `AATree.AATree.RebalanceNode` | structures-algorithm/src/main/java/DataStructures/AATree.java:190-199 | lowers, skews three times and splits twice in place, as on values; the sentinel keeps level 0 |
| `AATree.AATree.Descend` | structures-algorithm/src/main/java/DataStructures/AATree.java:169-176 | the search down, with lastNode the last node visited and deletedNode the last one not greater than x |
| `AATree.AATree.RemoveFrom` | structures-algorithm/src/main/java/DataStructures/AATree.java:164-202 | recursive removal equals the removal on values, and writes into deletedNode exactly the element of the node it unlinks |
| `AATree.AATree.Insert` | structures-algorithm/src/main/java/DataStructures/AATree.java:36-39 | the key set gains exactly x; the tree stays a balanced search tree |
| `AATree.AATree.Remove` | structures-algorithm/src/main/java/DataStructures/AATree.java:45-49 | the key set loses exactly x; the tree stays a balanced search tree |
| `AATree.AATree.Find` | structures-algorithm/src/main/java/DataStructures/AATree.java:90-106 | returns x exactly when present, although the search ends in the sentinel; changes no key |
| `AATree.AATree.FindMin` | structures-algorithm/src/main/java/DataStructures/AATree.java:55-66 | the least key, or none exactly when empty |
| `AATree.AATree.FindMax` | structures-algorithm/src/main/java/DataStructures/AATree.java:72-83 | the greatest key, or none exactly when empty |
| `AATree.AATree.MakeEmpty` | structures-algorithm/src/main/java/DataStructures/AATree.java:111-114 | the empty set |
| `AATree.AATree.IsEmpty` | structures-algorithm/src/main/java/DataStructures/AATree.java:120-123 | true exactly for the empty set |
| `AATree.Run` | structures-algorithm/src/main/java/DataStructures/AATree.java:36-123 | over every run the tree behaves as a plain set, answer by answer |
| `SplayTrees.GoLeft` | structures-algorithm/src/main/java/DataStructures/SplayTree.java:205-210 | linking the current node into the right tree keeps the in-order sequence of left tree, middle and right tree, and everything set aside greater than x |
| `SplayTrees.GoRight` | structures-algorithm/src/main/java/DataStructures/SplayTree.java:216-221 | the mirror step: everything set aside is smaller than x |
| `SplayTrees.Assembled` | structures-algorithm/src/main/java/DataStructures/SplayTree.java:226-229 | the reassembled tree has the keys of the original in the same order, with smaller keys left and greater keys right of x apart from the root |
| `SplayTrees.RootDecides` | structures-algorithm/src/main/java/DataStructures/SplayTree.java:191-231 | after splaying at x, x is in the tree if and only if it is at the root, and no other key lies between the root and x |
| `SplayTrees.InsertedBefore` | structures-algorithm/src/main/java/DataStructures/SplayTree.java:50-56 | cutting before the root around a new node adds exactly x in order |
| `SplayTrees.InsertedAfter` | structures-algorithm/src/main/java/DataStructures/SplayTree.java:58-64 | cutting after the root around a new node adds exactly x in order |
| `SplayTrees.NoneBetween` | structures-algorithm/src/main/java/DataStructures/SplayTree.java:90-92 | splaying the left subtree at x, the old root, leaves a root without right child, so attaching one loses nothing |
| `SplayTrees.RemovedRoot` | structures-algorithm/src/main/java/DataStructures/SplayTree.java:84-93 | joining the two subtrees removes exactly the root key |
| `SplayCosts.BitsMean` | structures-algorithm/src/main/java/DataStructures/SplayTree.java:191-231 | the bits of n are the least b with n below 2^b |
| `SplayCosts.PartsAreShorter` | structures-algorithm/src/main/java/DataStructures/SplayTree.java:191-231 | of two parts of a whole, one has fewer bits than the whole: the fact that pays for a pass |
| `SplayCosts.RotatedLeftCosts` | structures-algorithm/src/main/java/DataStructures/SplayTree.java:205-206 | what a rotation does to the potential of the three pieces: it exchanges the bits of the child for those of the lowered root |
| `SplayCosts.LinkedRight` | structures-algorithm/src/main/java/DataStructures/SplayTree.java:208-210 | what setting the current node aside on the right does to the potential |
| `SplayCosts.LinkedLeft` | structures-algorithm/src/main/java/DataStructures/SplayTree.java:219-221 | the mirror |
| `SplayCosts.PassLeft` | structures-algorithm/src/main/java/DataStructures/SplayTree.java:203-210 | one pass of the loop to the left, with or without a rotation, costs 1 and is covered by the fall of twice the potential and four times the bits of the middle tree, if need be together with the next pass, which then goes the other way |
| `SplayCosts.PassRight` | structures-algorithm/src/main/java/DataStructures/SplayTree.java:214-221 | the mirror |
| `SplayCosts.WholeCosts` | structures-algorithm/src/main/java/DataStructures/SplayTree.java:226-230 | once x parts the middle tree, putting the three pieces together raises the potential by at most the bits of the whole |
| `SplayCosts.SplayEnd` | structures-algorithm/src/main/java/DataStructures/SplayTree.java:191-231 | the passes of a whole splay, plus twice the potential after it, are at most twice the potential before it plus 6 times the bits of the size, plus 1 |
| `SplayCosts.InsertAffordable` | structures-algorithm/src/main/java/DataStructures/SplayTree.java:36-69 | an insertion: a splay and a new root, within its amortized charge |
| `SplayCosts.RemoveAffordable` | structures-algorithm/src/main/java/DataStructures/SplayTree.java:75-95 | a removal: two splays and the joining of the subtrees, within its amortized charge |
| `SplayCosts.DropAffordable` | structures-algorithm/src/main/java/DataStructures/SplayTree.java:75-95 | the same in every case: nothing found, no left subtree, or a second splay |
| `SplayCosts.SplayAffordable` | structures-algorithm/src/main/java/DataStructures/SplayTree.java:97-154 | a search: a splay, and a walk to the first or last key that is at most twice as long as the splay, within its amortized charge: the two passes of findMin and findMax have the amortized behaviour the documentation claims |
| `SplayCosts.SpentMore` | structures-algorithm/src/main/java/DataStructures/SplayTree.java:36-162 | the charges of a run add up |
| `SplayCosts.RunBound` | structures-algorithm/src/main/java/DataStructures/SplayTree.java:36-162 | the total charge of m operations on a tree of size s, with b the bits of s + m, is at most 6sb + m(36b + 6) |
| `SplayTree.LeftClosed` | structures-algorithm/src/main/java/DataStructures/SplayTree.java:226 | hanging the rest under the rightmost node of the left spine gives a tree with the spine keys followed by the rest |
| `SplayTree.RightClosed` | structures-algorithm/src/main/java/DataStructures/SplayTree.java:227 | the same for the right spine, with its keys after the rest |
| `SplayTree.SplayTree.constructor` | structures-algorithm/src/main/java/DataStructures/SplayTree.java:27-30 | the empty tree |
| `SplayTree.SplayTree.RotateWithLeftChild` | structures-algorithm/src/main/java/DataStructures/SplayTree.java:236-242 | the rotation, in place, with in-order sequence kept |
| `SplayTree.SplayTree.RotateWithRightChild` | structures-algorithm/src/main/java/DataStructures/SplayTree.java:247-253 | the mirror rotation |
| `SplayTree.SplayTree.LinkRight` | structures-algorithm/src/main/java/DataStructures/SplayTree.java:208-210 | makes the current node the leftmost of the right tree and continues in its left subtree |
| `SplayTree.SplayTree.LinkLeft` | structures-algorithm/src/main/java/DataStructures/SplayTree.java:219-221 | makes the current node the rightmost of the left tree and continues in its right subtree |
| `SplayTree.SplayTree.StepLeft` | structures-algorithm/src/main/java/DataStructures/SplayTree.java:203-210 | one pass of the loop with x smaller: the zig and the link in place are those on values; it stops when nothing is left of the middle tree on that side |
| `SplayTree.SplayTree.StepRight` | structures-algorithm/src/main/java/DataStructures/SplayTree.java:214-221 | the mirror pass |
| `SplayTree.SplayTree.Cut` | structures-algorithm/src/main/java/DataStructures/SplayTree.java:195-224 | the loop ends; the three pieces hold the original keys in order, cut at x; its passes are those of the loop on values, and within the budget |
| `SplayTree.SplayTree.Assemble` | structures-algorithm/src/main/java/DataStructures/SplayTree.java:226-230 | relinks the three pieces, also when either side tree is empty and the header is its own last node |
| `SplayTree.SplayTree.Splay` | structures-algorithm/src/main/java/DataStructures/SplayTree.java:191-231 | the tree that the loop and the reassembly make of it on values, with the same nodes, the same keys in the same order, and x parting the new root from both subtrees; the empty tree stays empty; its passes, exactly those the tree calls for, obey the amortized bound |
| `SplayTree.SplayTree.Insert` | structures-algorithm/src/main/java/DataStructures/SplayTree.java:36-69 | the key set gains exactly x; the tree is the splayed one with a new root between its root and one of its subtrees, or unchanged if x was present, and the spare node is then kept for the next insert; its cost is that of the splay and amortized logarithmic |
| `SplayTree.SplayTree.Remove` | structures-algorithm/src/main/java/DataStructures/SplayTree.java:75-95 | the key set loses exactly x, also from an empty tree, where the sentinel itself matches; the tree is the splayed one, or its right subtree hung on what a splay at x makes of the left; its cost is exactly that of these splays and amortized logarithmic |
| `SplayTree.SplayTree.Find` | structures-algorithm/src/main/java/DataStructures/SplayTree.java:146-154 | returns x when present; answers rightly if and only if the tree is not empty, since on an empty tree the sentinel matches and x is returned; leaves exactly the splayed tree; its cost is that of the splay and amortized logarithmic |
| `SplayTree.SplayTree.FindMin` | structures-algorithm/src/main/java/DataStructures/SplayTree.java:97-117 | the least key, or none when empty; the keys are unchanged by the splay; walk and splay together have amortized logarithmic cost |
| `SplayTree.SplayTree.FindMax` | structures-algorithm/src/main/java/DataStructures/SplayTree.java:119-139 | the greatest key, or none when empty; the keys are unchanged by the splay; walk and splay together have amortized logarithmic cost |
| `SplayTree.SplayTree.MakeEmpty` | structures-algorithm/src/main/java/DataStructures/SplayTree.java:159-162 | the empty set |
| `SplayTree.Perform` | structures-algorithm/src/main/java/DataStructures/SplayTree.java:36-162 | one operation: its answer, the tree it leaves, as a function of the tree it met save for which node is new, and its exact cost |
| `SplayTree.Run` | structures-algorithm/src/main/java/DataStructures/SplayTree.java:36-162 | over every run the tree behaves as a plain set, answer by answer, apart from find on an empty tree; the trees from first to last are those that the operations make of each other, each is charged its exact cost on the tree it met, and these costs add up to at most m times a charge logarithmic in the size m operations can reach, plus 6 times the potential at the start, whatever the first shape |
| `RedBlackTrees.RotatedFits` | structures-algorithm/src/main/java/DataStructures/RedBlackTree.java:188-196 | the single or double rotation with the recolouring turns a red node under a red parent into a black-rooted subtree that fits where the grandparent stood |
| `RedBlackTrees.ReorientPlaced` | structures-algorithm/src/main/java/DataStructures/RedBlackTree.java:181-198 | flip and rotation keep every black height and leave no red node with a red child, anywhere in the tree |
| `RedBlackTrees.ReorientSeeking` | structures-algorithm/src/main/java/DataStructures/RedBlackTree.java:181-198 | flip and rotation keep the in-order sequence and the search for the item on course |
| `RedBlackTrees.ReadyBelow` | structures-algorithm/src/main/java/DataStructures/RedBlackTree.java:43-52 | a plain step down keeps the knowledge about parent and grand that a later repair needs |
| `RedBlackTrees.ReadyAfterRepair` | structures-algorithm/src/main/java/DataStructures/RedBlackTree.java:49-52 | after a rotation, when parent, grand and great may be stale, none of them is used before it has been refilled |
| `RedBlackTrees.ReadyForRepair` | structures-algorithm/src/main/java/DataStructures/RedBlackTree.java:50-51 | whenever a repair must rotate, parent and grand are the true ancestors and the uncle is not red |
| `RedBlackTrees.StepDown` | structures-algorithm/src/main/java/DataStructures/RedBlackTree.java:43-52 | one step of the descent keeps position, order, keys and nodes, and says when a repair is due with true ancestors |
| `RedBlackTrees.RankFalls` | structures-algorithm/src/main/java/DataStructures/RedBlackTree.java:43-52 | a repair never makes the descent longer: the loop ends |
| `RedBlackTrees.Repaired` | structures-algorithm/src/main/java/DataStructures/RedBlackTree.java:50-51 | after a repair the tree fits, holds the same keys and nodes, and the search goes on closer to its end |
| `RedBlackTrees.Grown` | structures-algorithm/src/main/java/DataStructures/RedBlackTree.java:57-64 | attaching the new node and repairing adds exactly the item and keeps the colour rules |
| `RedBlackTrees.KeyAdded` | structures-algorithm/src/main/java/DataStructures/RedBlackTree.java:57-63 | a node in the place where the search fell out adds exactly the item, in order |
| `RedBlackTrees.Rebuild` | structures-algorithm/src/main/java/DataStructures/RedBlackTree.java:197 | the root is black and the whole tree fits once the header is reached |
| `RedBlackTrees.HeightBound` | structures-algorithm/src/main/java/DataStructures/RedBlackTree.java:38-65 | a subtree of black height h has at least 2^h - 1 keys and height at most 2h, or 2h + 1 with a red root |
| `RedBlackTree.RedBlackNode.constructor` | structures-algorithm/src/main/java/DataStructures/RedBlackNode.java:15-21 | a black node with the given links |
| `RedBlackTree.RedBlackTree.constructor` | structures-algorithm/src/main/java/DataStructures/RedBlackTree.java:28-32 | an empty tree under a header holding negInf |
| `RedBlackTree.RedBlackTree.RotateBelow` | structures-algorithm/src/main/java/DataStructures/RedBlackTree.java:208-218 | all four cases rotate the subtree below the given parent on the side of the item and attach the result there |
| `RedBlackTree.RedBlackTree.FlipColors` | structures-algorithm/src/main/java/DataStructures/RedBlackTree.java:184-186 | the node red, its children black; at a new leaf this writes the sentinel, which stays black |
| `RedBlackTree.RedBlackTree.RotateUp` | structures-algorithm/src/main/java/DataStructures/RedBlackTree.java:190-195 | single or double rotation at grand, recoloured, leaving the subtree and the position that the value-level rotation gives |
| `RedBlackTree.RedBlackTree.RootIsBlack` | structures-algorithm/src/main/java/DataStructures/RedBlackTree.java:197 | blackening the root changes nothing but a red root: any other root is already black |
| `RedBlackTree.RedBlackTree.HandleReorient` | structures-algorithm/src/main/java/DataStructures/RedBlackTree.java:181-198 | in place equal to the reorientation on values, provided parent, grand and great are true ancestors where a rotation uses them |
| `RedBlackTree.RedBlackTree.Advance` | structures-algorithm/src/main/java/DataStructures/RedBlackTree.java:43-52 | one pass of the loop keeps the search invariant and makes progress |
| `RedBlackTree.RedBlackTree.SearchAndGrow` | structures-algorithm/src/main/java/DataStructures/RedBlackTree.java:40-64 | the whole insertion: the rebuilt tree is sorted, fits, and holds exactly the old keys and the item |
| `RedBlackTree.RedBlackTree.Insert` | structures-algorithm/src/main/java/DataStructures/RedBlackTree.java:38-65 | the key set gains exactly the item, also for duplicates met after reorientations; every red-black rule is kept; negInf itself is not added |
| `RedBlackTree.RedBlackTree.Find` | structures-algorithm/src/main/java/DataStructures/RedBlackTree.java:116-132 | returns x exactly when present |
| `RedBlackTree.RedBlackTree.FindMin` | structures-algorithm/src/main/java/DataStructures/RedBlackTree.java:81-92 | the least key, or none exactly when empty |
| `RedBlackTree.RedBlackTree.FindMax` | structures-algorithm/src/main/java/DataStructures/RedBlackTree.java:98-109 | the greatest key, or none exactly when empty |
| `RedBlackTree.RedBlackTree.MakeEmpty` | structures-algorithm/src/main/java/DataStructures/RedBlackTree.java:137-140 | the empty set |
| `RedBlackTree.RedBlackTree.IsEmpty` | structures-algorithm/src/main/java/DataStructures/RedBlackTree.java:146-149 | true exactly for the empty set |
| `RedBlackTree.Run` | structures-algorithm/src/main/java/DataStructures/RedBlackTree.java:38-149 | over every run with items at least negInf the tree behaves as a plain set, answer by answer |
| `Forests.RootIsLeast` | structures-algorithm/src/main/java/DataStructures/PairHeap.java:55-60 | in a heap-ordered tree the root holds a least item |
| `PairHeaps.LinkKeeps` | structures-algorithm/src/main/java/DataStructures/PairHeap.java:133-162 | linking two trees loses and adds no item and keeps heap order |
| `PairHeaps.SiblingsKeep` | structures-algorithm/src/main/java/DataStructures/PairHeap.java:190-200 | breaking the sibling chain into single trees keeps every item and heap order |
| `PairHeaps.CombinedKeeps` | structures-algorithm/src/main/java/DataStructures/PairHeap.java:202-219 | the pairs left to right and the merge right to left, with the odd tree, lose no tree and give one heap-ordered tree |
| `PairHeaps.MergedKeeps` | structures-algorithm/src/main/java/DataStructures/PairHeap.java:185-220 | combineSiblings of any non-empty chain keeps exactly its items in one heap-ordered tree |
| `PairHeaps.CutOrdered` | structures-algorithm/src/main/java/DataStructures/PairHeap.java:94-101 | cutting a node out from anywhere keeps heap order in what is left |
| `PairHeaps.DecreasedKeeps` | structures-algorithm/src/main/java/DataStructures/PairHeap.java:87-104 | cutting, decreasing and relinking changes exactly the one item and keeps heap order |
| `PairHeaps.RekeyedKeeps` | structures-algorithm/src/main/java/DataStructures/PairHeap.java:91 | decreasing the key of the root in place changes exactly that item |
| `PairHeap.PairNode.constructor` | structures-algorithm/src/main/java/DataStructures/PairNode.java:16-21 | a node without links |
| `PairHeap.Locate` | structures-algorithm/src/main/java/DataStructures/PairHeap.java:87-104 | any node of the heap can be reached as a place in the represented forest, with its true prev |
| `PairHeap.PairHeap.constructor` | structures-algorithm/src/main/java/DataStructures/PairHeap.java:28-31 | the empty heap |
| `PairHeap.PairHeap.CompareAndLink` | structures-algorithm/src/main/java/DataStructures/PairHeap.java:133-162 | for any two nodes, second ends up as the root that is returned or as its leftmost child; for the roots of two trees the links drawn are those of linking on values, prev links included, and the new root takes over the prev of first |
| `PairHeap.PairHeap.LinkTrees` | structures-algorithm/src/main/java/DataStructures/PairHeap.java:133-162 | the same for two trees, where no other node is touched |
| `PairHeap.PairHeap.DoubleIfFull` | structures-algorithm/src/main/java/DataStructures/PairHeap.java:164-175 | room for the index, with the earlier entries kept |
| `PairHeap.PairHeap.StoreAll` | structures-algorithm/src/main/java/DataStructures/PairHeap.java:190-200 | the array holds the siblings in order, each now a tree of its own |
| `PairHeap.PairHeap.FirstPass` | structures-algorithm/src/main/java/DataStructures/PairHeap.java:202-212 | each even cell holds its pair linked, the last one also the odd tree |
| `PairHeap.PairHeap.SecondPass` | structures-algorithm/src/main/java/DataStructures/PairHeap.java:214-219 | the right-to-left merge leaves the combination of all trees in cell 0 |
| `PairHeap.PairHeap.CombineSiblings` | structures-algorithm/src/main/java/DataStructures/PairHeap.java:185-220 | returns one well-formed tree, the two-pass combination of the chain |
| `PairHeap.PairHeap.Insert` | structures-algorithm/src/main/java/DataStructures/PairHeap.java:40-49 | adds exactly one item, held by the returned node; the root keeps the prev the root had |
| `PairHeap.PairHeap.FindMin` | structures-algorithm/src/main/java/DataStructures/PairHeap.java:55-60 | the key of a least item, or none exactly when empty |
| `PairHeap.PairHeap.RemoveRoot` | structures-algorithm/src/main/java/DataStructures/PairHeap.java:72-75 | the root leaves; every other node stays, with its key; the old root keeps item, child and prev, and the new root leads back to it |
| `PairHeap.PairHeap.DeleteMin` | structures-algorithm/src/main/java/DataStructures/PairHeap.java:66-78 | returns the key of a least item and removes exactly one such item; every other node keeps its key |
| `PairHeap.PairHeap.CutLoose` | structures-algorithm/src/main/java/DataStructures/PairHeap.java:94-101 | unlinks any node from what its prev points to, and fails exactly if that is null; in a heap, from its parent or left sibling, leaving two well-formed trees |
| `PairHeap.PairHeap.DecreaseRoot` | structures-algorithm/src/main/java/DataStructures/PairHeap.java:91 | at the root the item is replaced in place |
| `PairHeap.PairHeap.Relink` | structures-algorithm/src/main/java/DataStructures/PairHeap.java:94-102 | cutting out and linking with the root: in a heap as on values; for a node from outside it fails exactly if its prev or the root is null, and otherwise puts it on top |
| `PairHeap.PairHeap.DecreaseInner` | structures-algorithm/src/main/java/DataStructures/PairHeap.java:92-103 | below the root the node is cut out, lowered and linked with the root: exactly its item changes; a node from outside the heap is put on top, or fails the call |
| `PairHeap.PairHeap.DecreaseKey` | structures-algorithm/src/main/java/DataStructures/PairHeap.java:80-104 | for any node whatever: a larger value changes nothing; in the heap, any other value replaces exactly that item; outside it, the call fails exactly if prev or the root is null, and otherwise leaves no heap of the nodes there were. So it does what it should if and only if the node is in the heap or the new value is larger than the one it holds |
| `PairHeap.OnTopIsIn` | structures-algorithm/src/main/java/DataStructures/PairHeap.java:102 | whatever heap hangs at a root, the root and its leftmost child are nodes of it |
| `PairHeap.NotAHeap` | structures-algorithm/src/main/java/DataStructures/PairHeap.java:102 | so a heap of the nodes there were is impossible once a node from outside is on top |
| `PairHeap.DeletedHandle` | structures-algorithm/src/main/java/DataStructures/PairHeap.java:83-96 | the only item, deleted: decreaseKey with a value not above it follows a null link |
| `PairHeap.StaleHandle` | structures-algorithm/src/main/java/DataStructures/PairHeap.java:83-103 | the second of three items, deleted after the first: no link that is followed is null, and the call leaves no heap of the remaining item |
| `PairHeap.Perform` | structures-algorithm/src/main/java/DataStructures/PairHeap.java:40-121 | one operation through a handle is the same step on a plain collection of items |
| `PairHeap.Run` | structures-algorithm/src/main/java/DataStructures/PairHeap.java:40-121 | every run of insert, decreaseKey through handles, deleteMin, findMin and makeEmpty on a new heap takes the steps of a plain collection of items; it ends early exactly before a decreaseKey of a deleted item to a value not above its last one |
| `PairHeap.PairHeap.MakeEmpty` | structures-algorithm/src/main/java/DataStructures/PairHeap.java:118-121 | the empty heap |
| `PairHeap.PairHeap.IsEmpty` | structures-algorithm/src/main/java/DataStructures/PairHeap.java:110-113 | true exactly for the empty heap |
| `BinomialQueues.ChildrenSize` | structures-algorithm/src/main/java/DataStructures/BinomialQueue.java:101-109 | a binomial tree of order k has exactly 2^k keys |
| `BinomialQueues.CombineKeeps` | structures-algorithm/src/main/java/DataStructures/BinomialQueue.java:101-109 | combining two heap-ordered trees of order k gives one of order k + 1 with both key multisets |
| `BinomialQueues.AddKeeps` | structures-algorithm/src/main/java/DataStructures/BinomialQueue.java:53-90 | each of the eight cases is a full adder: the slot and the carry are trees of order i and i + 1 whose bits are the binary sum of the three inputs |
| `BinomialQueues.AddKeys` | structures-algorithm/src/main/java/DataStructures/BinomialQueue.java:53-90 | no case loses or doubles a key |
| `BinomialQueues.SizeIsValue` | structures-algorithm/src/main/java/DataStructures/BinomialQueue.java:221-233 | the number of keys is the number whose binary digits are the occupied slots |
| `BinomialQueues.MergeColumn` | structures-algorithm/src/main/java/DataStructures/BinomialQueue.java:51-91 | a column of the loop keeps the binary sum and every slot a tree of its order |
| `BinomialQueues.ColumnKeys` | structures-algorithm/src/main/java/DataStructures/BinomialQueue.java:51-91 | a column of the loop keeps the key multiset |
| `BinomialQueues.MergeEnd` | structures-algorithm/src/main/java/DataStructures/BinomialQueue.java:51-95 | when 2^i exceeds the size the carry and all of the other queue are empty, and the slots are the binary digits of the size |
| `BinomialQueues.SpreadOut` | structures-algorithm/src/main/java/DataStructures/BinomialQueue.java:174-181 | the children of a tree of order k fill the slots 0..k-1 of a queue of size 2^k - 1 with exactly its keys |
| `BinomialQueues.TakenOut` | structures-algorithm/src/main/java/DataStructures/BinomialQueue.java:183-184 | without the tree of the least root, the two queues together lack exactly that root key |
| `BinomialQueues.LeastRoot` | structures-algorithm/src/main/java/DataStructures/BinomialQueue.java:144-158 | the least root is the least key of the queue |
| `BinomialQueue.CombineTwo` | structures-algorithm/src/main/java/DataStructures/BinomialQueue.java:101-109 | relinks in place exactly as on values, with the recursive call only to exchange the two |
| `BinomialQueue.BinomialQueue.constructor` | structures-algorithm/src/main/java/DataStructures/BinomialQueue.java:28-32 | the empty queue, with a capacity of 16383 |
| `BinomialQueue.BinomialQueue.AddColumn` | structures-algorithm/src/main/java/DataStructures/BinomialQueue.java:53-90 | the eight cases in place are the full adder on values, and touch only slot i of both arrays |
| `BinomialQueue.BinomialQueue.AddAll` | structures-algorithm/src/main/java/DataStructures/BinomialQueue.java:50-91 | the loop stays inside the arrays and ends with 2^i beyond the size |
| `BinomialQueue.BinomialQueue.Merge` | structures-algorithm/src/main/java/DataStructures/BinomialQueue.java:40-96 | overflow is reported exactly when the two together hold more keys than the capacity, and then changes nothing; else this queue gains every key of the other, which is left empty; merging with itself changes nothing; what either owns stays among what they owned, and they share nothing |
| `BinomialQueue.BinomialQueue.Insert` | structures-algorithm/src/main/java/DataStructures/BinomialQueue.java:117-124 | adds exactly x, or overflows exactly when full |
| `BinomialQueue.BinomialQueue.FindMinIndex` | structures-algorithm/src/main/java/DataStructures/BinomialQueue.java:144-158 | for a non-empty queue, an occupied slot whose root is least |
| `BinomialQueue.BinomialQueue.FindMin` | structures-algorithm/src/main/java/DataStructures/BinomialQueue.java:130-136 | the least key, or none exactly when empty |
| `BinomialQueue.BinomialQueue.Spread` | structures-algorithm/src/main/java/DataStructures/BinomialQueue.java:176-181 | the children are laid out highest order first, each cut from its sibling |
| `BinomialQueue.BinomialQueue.TakeApart` | structures-algorithm/src/main/java/DataStructures/BinomialQueue.java:172-184 | two valid disjoint queues that together lack exactly the removed root |
| `BinomialQueue.BinomialQueue.RemoveRoot` | structures-algorithm/src/main/java/DataStructures/BinomialQueue.java:172-188 | the merge back never overflows, so the swallowed exception cannot occur |
| `BinomialQueue.BinomialQueue.DeleteMin` | structures-algorithm/src/main/java/DataStructures/BinomialQueue.java:164-190 | returns a least key and removes exactly one occurrence of it |
| `BinomialQueue.BinomialQueue.MakeEmpty` | structures-algorithm/src/main/java/DataStructures/BinomialQueue.java:213-218 | the empty queue |
| `BinomialQueue.BinomialQueue.IsEmpty` | structures-algorithm/src/main/java/DataStructures/BinomialQueue.java:196-199 | true exactly for the empty queue |
| `BinomialQueue.BinomialQueue.IsFull` | structures-algorithm/src/main/java/DataStructures/BinomialQueue.java:205-208 | true exactly when it holds 16383 keys |
| `BinomialQueue.Run` | structures-algorithm/src/main/java/DataStructures/BinomialQueue.java:40-218 | over every run on one queue each step is the step of a plain bounded multiset |
| `BinomialQueue.MergeQueues` | structures-algorithm/src/main/java/DataStructures/BinomialQueue.java:40-96 | one of several queues that share nothing is merged into another, or into itself: as on plain bags, overflow included; the other queues are untouched and all still share nothing |
| `BinomialQueue.PerformCall` | structures-algorithm/src/main/java/DataStructures/BinomialQueue.java:40-218 | one call on any of several queues is the same step on plain bags |
| `BinomialQueue.RunAll` | structures-algorithm/src/main/java/DataStructures/BinomialQueue.java:40-218 | over every run of calls and merges on several queues each step is that of plain bounded multisets, one for each queue |
| `SkipLists.HeightBound` | structures-algorithm/src/main/java/DataStructures/DSL.java:41-66 | a list of h levels has at least 2^(h-1) bottom cells, the infinity cell included |
| `SkipLists.HeightBelow` | structures-algorithm/src/main/java/DataStructures/DSL.java:41-66 | and at most 4^(h-1) times as many as there are cells on top: the height is logarithmic in the size |
| `SkipLists.Subset` | structures-algorithm/src/main/java/DataStructures/DSL.java:51-58 | the keys of a level are among those of the level below |
| `SkipLists.ListedAtBottom` | structures-algorithm/src/main/java/DataStructures/DSL.java:51-58 | every key of every level is a key of the list |
| `SkipLists.SplitGrouped` | structures-algorithm/src/main/java/DataStructures/DSL.java:53-58 | promoting the middle of a gap of three leaves two gaps of one |
| `SkipLists.ParentGrouped` | structures-algorithm/src/main/java/DataStructures/DSL.java:53-58 | the new cell widens one gap of the level above, which must have had room |
| `SkipLists.SplitWellFormed` | structures-algorithm/src/main/java/DataStructures/DSL.java:53-58 | a promotion keeps each level sorted and each gap between 1 and 3; at the bottom it adds exactly x, elsewhere no key |
| `SkipLists.SplitAt` | structures-algorithm/src/main/java/DataStructures/DSL.java:53-58 | after a promotion the search is still on course, and the cell it goes on from is not full |
| `SkipLists.MoveRight` | structures-algorithm/src/main/java/DataStructures/DSL.java:48-49 | moving right stays in the gap entered from above |
| `SkipLists.MoveDown` | structures-algorithm/src/main/java/DataStructures/DSL.java:60 | moving down enters the gap of the current cell; if that was not full, the next level has room above it |
| `SkipLists.SplitGrows` | structures-algorithm/src/main/java/DataStructures/DSL.java:46-61 | a promotion keeps the state of the whole insertion and is not repeated at the same place |
| `SkipLists.RaisedWellFormed` | structures-algorithm/src/main/java/DataStructures/DSL.java:64-65 | a second cell in the top level is met by a new header level; the keys stay |
| `DSL.SkipNode.constructor` | structures-algorithm/src/main/java/DataStructures/SkipNode.java:15-20 | a node with the given links |
| `DSL.DSL.constructor` | structures-algorithm/src/main/java/DataStructures/DSL.java:27-35 | the empty list below infinity |
| `DSL.DSL.GoRight` | structures-algorithm/src/main/java/DataStructures/DSL.java:48-49 | stops at the first cell not below x, within the current gap |
| `DSL.DSL.FullTest` | structures-algorithm/src/main/java/DataStructures/DSL.java:53 | the test through down.right.right is true exactly when the gap below is full, or at the bottom when x must be inserted |
| `DSL.DSL.Split` | structures-algorithm/src/main/java/DataStructures/DSL.java:55-57 | the two assignments make the cell and its new right neighbour share the gap, the middle key in front |
| `DSL.DSL.SplitLinked` | structures-algorithm/src/main/java/DataStructures/DSL.java:53-58 | the relinked nodes represent exactly the promoted levels, and only one node is new |
| `DSL.DSL.Advance` | structures-algorithm/src/main/java/DataStructures/DSL.java:46-61 | one pass of the loop keeps the insertion invariant and comes strictly closer to the end |
| `DSL.DSL.SearchAndSplit` | structures-algorithm/src/main/java/DataStructures/DSL.java:43-61 | the loop ends with well-formed levels whose bottom has gained exactly x, and at most two cells on top |
| `DSL.DSL.Raise` | structures-algorithm/src/main/java/DataStructures/DSL.java:63-65 | a top level of two cells gets a new header level above it; a top level of one cell, and the header, are left as they are |
| `DSL.DSL.Insert` | structures-algorithm/src/main/java/DataStructures/DSL.java:41-66 | the key set gains exactly x (infinity itself is not added) and the 1-2-3 rules are kept |
| `DSL.DSL.Find` | structures-algorithm/src/main/java/DataStructures/DSL.java:117-129 | returns x exactly when present, or when x is infinity; right exactly when x is not infinity |
| `DSL.DSL.FindMin` | structures-algorithm/src/main/java/DataStructures/DSL.java:81-91 | the least key, or none exactly when empty |
| `DSL.DSL.FindMax` | structures-algorithm/src/main/java/DataStructures/DSL.java:97-110 | the greatest key below infinity, or none exactly when empty |
| `DSL.DSL.MakeEmpty` | structures-algorithm/src/main/java/DataStructures/DSL.java:134-138 | the empty set, whatever the header was |
| `DSL.DSL.IsEmpty` | structures-algorithm/src/main/java/DataStructures/DSL.java:144-147 | true exactly for the empty set |
| `DSL.Run` | structures-algorithm/src/main/java/DataStructures/DSL.java:41-147 | over every run with items at most infinity the list behaves as a plain set, answer by answer |
| `BreadthFirst.Start` | structures-algorithm/src/main/java/Miscellaneous/Graph.java:82-83 | the start vertex alone, at distance 0, satisfies the search invariant |
| `BreadthFirst.Dequeue` | structures-algorithm/src/main/java/Miscellaneous/Graph.java:87 | taking the first vertex of the queue keeps it: queued distances do not decrease along the queue and differ by at most one |
| `BreadthFirst.Skip` | structures-algorithm/src/main/java/Miscellaneous/Graph.java:92 | an edge to a vertex already reached keeps it |
| `BreadthFirst.Discover` | structures-algorithm/src/main/java/Miscellaneous/Graph.java:92-97 | an edge to a new vertex, set one farther and appended, keeps it |
| `BreadthFirst.Finish` | structures-algorithm/src/main/java/Miscellaneous/Graph.java:89-98 | when all edges of a vertex are done the vertex is done |
| `BreadthFirst.NoShorterWalk` | structures-algorithm/src/main/java/Miscellaneous/Graph.java:85-99 | once the queue is empty, every walk from the start ends in a reached vertex, at a distance no longer than the walk |
| `BreadthFirst.ChainIsWalk` | structures-algorithm/src/main/java/Miscellaneous/Graph.java:58-66 | the path links of a reached vertex spell a walk from the start with dist edges |
| `BreadthFirst.AllAnswered` | structures-algorithm/src/main/java/Miscellaneous/Graph.java:74-100 | a vertex is reached exactly when some walk leads to it, and its distance is the length of a shortest one |
| `BreadthFirst.ChainIsShortest` | structures-algorithm/src/main/java/Miscellaneous/Graph.java:58-66 | the chain printed is a shortest walk |
| `BreadthFirst.DistancesBounded` | structures-algorithm/src/main/java/Miscellaneous/Graph.java:94 | distances stay below the number of vertices, so none reaches INFINITY |
| `Graph.Vertex.constructor` | structures-algorithm/src/main/java/Miscellaneous/Graph.java:12-16 | no neighbours, unreached |
| `Graph.Graph.constructor` | structures-algorithm/src/main/java/Miscellaneous/Graph.java:22 | the graph without vertices |
| `Graph.Graph.GetVertex` | structures-algorithm/src/main/java/Miscellaneous/Graph.java:47-56 | returns the one vertex of that name; an absent one is created without edges; every other vertex and every edge stays |
| `Graph.Graph.VertexHolds` | structures-algorithm/src/main/java/Miscellaneous/Graph.java:6-19 | what the vertex objects hold: neighbours in order, the distance found or INFINITY, and the path link of each vertex that has one |
| `Graph.Graph.AddEdge` | structures-algorithm/src/main/java/Miscellaneous/Graph.java:24-29 | the neighbours of the source gain the destination as their last; an absent end is created, the destination without neighbours; all other neighbours stay, also when both ends are the same |
| `Graph.Graph.ClearAll` | structures-algorithm/src/main/java/Miscellaneous/Graph.java:68-72 | every vertex is unreached again; the edges stay |
| `Graph.Graph.Visit` | structures-algorithm/src/main/java/Miscellaneous/Graph.java:91-97 | handling one neighbour in place is a skip or a discovery on values |
| `Graph.Graph.Round` | structures-algorithm/src/main/java/Miscellaneous/Graph.java:85-99 | one round takes one vertex off the queue, spreads it, and brings the search strictly closer to its end |
| `Graph.Graph.Unweighted` | structures-algorithm/src/main/java/Miscellaneous/Graph.java:74-100 | fails exactly when the start is unknown, leaving every vertex unreached; otherwise dist is the least number of edges of any path from the start, INFINITY exactly when there is none |
| `Graph.Graph.PrintChain` | structures-algorithm/src/main/java/Miscellaneous/Graph.java:58-66 | yields the names along the path links from the start to the destination |
| `Graph.Graph.PrintPath` | structures-algorithm/src/main/java/Miscellaneous/Graph.java:31-43 | not found, unreachable or the chain, exactly as the vertex is unknown, unreached or reached |
| `Sort.SwapReferences` | structures-algorithm/src/main/java/DataStructures/Sort.java:179-184 | exchanges two cells and nothing else |
| `Sort.Median3` | structures-algorithm/src/main/java/DataStructures/Sort.java:190-203 | leaves an element at most the pivot on the left, one at least the pivot on the right, the pivot at right - 1 |
| `Sort.Scan` | structures-algorithm/src/main/java/DataStructures/Sort.java:222-223 | both unguarded scans stop inside the range, at elements that are out of place |
| `Sort.Partition` | structures-algorithm/src/main/java/DataStructures/Sort.java:216-230 | afterwards everything before i is at most a[i] and everything after it at least a[i]; nothing outside moves |
| `Sort.InsertInto` | structures-algorithm/src/main/java/DataStructures/Sort.java:250-255 | one element shifted into its place |
| `Sort.InsertionSort` | structures-algorithm/src/main/java/DataStructures/Sort.java:246-257 | sorts exactly the range, as a rearrangement |
| `Sort.SidesKept` | structures-algorithm/src/main/java/DataStructures/Sort.java:232-233 | rearranging one side of the pivot keeps the pivot and both bounds |
| `Sort.QuicksortRange` | structures-algorithm/src/main/java/DataStructures/Sort.java:212-237 | sorts exactly the range, as a rearrangement |
| `Sort.Quicksort` | structures-algorithm/src/main/java/DataStructures/Sort.java:166-169 | the array is a sorted permutation of what it was |
| `Sort.QuickSelectRange` | structures-algorithm/src/main/java/DataStructures/Sort.java:279-307 | the k-th cell is final within the range; nothing outside moves |
| `Sort.QuickSelect` | structures-algorithm/src/main/java/DataStructures/Sort.java:265-268 | a permutation with everything before a[k-1] at most it and everything after at least it |
| `Sort.SelectedIsRank` | structures-algorithm/src/main/java/DataStructures/Sort.java:261 | so a[k-1] is the element of index k-1 of the sorted array |
| `Treaps.RootIsFirst` | structures-algorithm/src/main/java/DataStructures/Treap.java:141-191 | in heap order the root has a least priority and every priority is below the sentinel's |
| `Treaps.InsertedLeft` | structures-algorithm/src/main/java/DataStructures/Treap.java:145-150 | inserting on the left and rotating when the child has the smaller priority keeps search and heap order and adds exactly x |
| `Treaps.InsertedRight` | structures-algorithm/src/main/java/DataStructures/Treap.java:151-156 | the mirror case |
| `Treaps.EnteredLeft` | structures-algorithm/src/main/java/DataStructures/Treap.java:145-150 | inserting on the left changes the priority of no key, and gives x, if it is new, the priority drawn |
| `Treaps.EnteredRight` | structures-algorithm/src/main/java/DataStructures/Treap.java:151-156 | the mirror case |
| `Treaps.RemovedLeft` | structures-algorithm/src/main/java/DataStructures/Treap.java:172-173 | removing on the left keeps both orders |
| `Treaps.RemovedRight` | structures-algorithm/src/main/java/DataStructures/Treap.java:174-175 | the mirror case |
| `Treaps.SparedLeft` | structures-algorithm/src/main/java/DataStructures/Treap.java:172-173 | removing on the left changes the priority of no other key |
| `Treaps.SparedRight` | structures-algorithm/src/main/java/DataStructures/Treap.java:174-175 | the mirror case |
| `Treaps.RealChild` | structures-algorithm/src/main/java/DataStructures/Treap.java:179-182 | the child rotated up is a real node unless the node is a leaf, because real priorities are below the sentinel's |
| `Treaps.SinkLeft` | structures-algorithm/src/main/java/DataStructures/Treap.java:179-180 | rotating the doomed node down to the right keeps search order, and heap order everywhere else |
| `Treaps.SinkRight` | structures-algorithm/src/main/java/DataStructures/Treap.java:181-182 | the mirror case |
| `Treap.TreapNode.constructor` | structures-algorithm/src/main/java/DataStructures/TreapNode.java:15-21 | a node with the given links and priority |
| `Treap.RandomPriority` | structures-algorithm/src/main/java/DataStructures/TreapNode.java:20-29 | a drawn priority is below the sentinel's Integer.MAX_VALUE, and the generator stays in range for the next draw |
| `Treap.Treap.constructor` | structures-algorithm/src/main/java/DataStructures/Treap.java:27-30 | the empty treap, with any random object in a state of 1..M-1 |
| `Treap.Treap.FromClock` | structures-algorithm/src/main/java/DataStructures/TreapNode.java:29 | the same with a random object seeded from the clock, which always is in such a state |
| `Treap.Treap.RotateWithLeftChild` | structures-algorithm/src/main/java/DataStructures/Treap.java:210-216 | the rotation in place |
| `Treap.Treap.RotateWithRightChild` | structures-algorithm/src/main/java/DataStructures/Treap.java:221-227 | the mirror rotation; at a leaf it returns the sentinel with the leaf as its left child |
| `Treap.Treap.InsertInto` | structures-algorithm/src/main/java/DataStructures/Treap.java:141-160 | keeps search and heap order and adds exactly x, with the priority drawn; no other priority changes, and nothing is drawn if x was there |
| `Treap.Treap.Sink` | structures-algorithm/src/main/java/DataStructures/Treap.java:179-187 | one rotation of the doomed node: still both orders, same keys, x no longer on top; or the leaf is gone |
| `Treap.Treap.RemoveFrom` | structures-algorithm/src/main/java/DataStructures/Treap.java:168-191 | ends, removes exactly x, keeps both orders and every other priority, and restores the sentinel |
| `Treap.Treap.Insert` | structures-algorithm/src/main/java/DataStructures/Treap.java:36-39 | the key set gains exactly x; a new key gets as priority the next number of the random object, and every other key keeps its own |
| `Treap.Treap.Remove` | structures-algorithm/src/main/java/DataStructures/Treap.java:45-48 | the key set loses exactly x; every other key keeps its priority |
| `Treap.Treap.Find` | structures-algorithm/src/main/java/DataStructures/Treap.java:89-105 | returns x exactly when present |
| `Treap.Treap.FindMin` | structures-algorithm/src/main/java/DataStructures/Treap.java:54-65 | the least key, or none exactly when empty |
| `Treap.Treap.FindMax` | structures-algorithm/src/main/java/DataStructures/Treap.java:71-82 | the greatest key, or none exactly when empty |
| `Treap.Treap.MakeEmpty` | structures-algorithm/src/main/java/DataStructures/Treap.java:110-113 | the empty set |
| `Treap.Treap.IsEmpty` | structures-algorithm/src/main/java/DataStructures/Treap.java:119-122 | true exactly for the empty set |
| `Treap.Run` | structures-algorithm/src/main/java/DataStructures/Treap.java:36-122 | over every run the treap behaves as a plain set, answer by answer |

## Left out

- `AvlTree`, `LeftistHeap`, `CursorList`, `BinaryHeap`, `Polynomial`, `KdTree` and `MaxSumTest`: each has an easier invariant of a kind proved here for a harder structure.
- `heapsort`, `mergeSort`, `shellsort` and the public `insertionSort` of `Sort`: no unguarded scan or sentinel argument, so easier than `quicksort` and `quickSelect`.
- `StackAr`, `StackLi`, `QueueAr`, `LinkedList`, `BinarySearchTree`, `SeparateChainingHashTable`, gcd, binary search, powers and Fibonacci numbers: easy members.
- `MyArrayList` and `Fig01_03`: unfinished or deliberately non-terminating.
- Running time other than that of splaying: the amortized bounds of path compression and pairing heaps, and the expected height of treaps.
- Floating point and the methods that use it: `random0_1`, `randomInt(low, high)`, `randomLong`, `Fig10_43`, `Fig10_45`. A random base is any value in its range.
- `Random.randomIntWRONG` and `Random.permute`.
- `printTree`, `printList`, `main`, reading requests and files, and all console output; `printPath` returns its names as a sequence.
- The `String` hash routine of the hash table.
- Several trees sharing one static sentinel or one static header at the same time.
- Sort.Median3: the index sum `left + right` is unbounded; Java's could wrap in an array of more than 2^30 elements.
- QuadraticProbingHashTable.QuadraticProbingHashTable.Insert: table length and counter are unbounded; Java's array length ends at 2^31.
- AllPairs.AllPairsShortest: beyond `Fits`, where a 32-bit sum can wrap, nothing is promised about d and path; with a negative cycle the sufficient bound b * 6^n is not claimed to be the least.
- OptMatrix.ComputeOptMatrix: assumes an array of at most 2^31 - 1 dimensions, the longest there is in Java; nothing relates the costs of wrapped products to scalar multiplications.
- SplayTree.Run: bounds passes and steps, which are a constant number of instructions each; the real running time is not modelled.
- Graph.Graph.Unweighted: assumes at most 2^31 - 1 vertices, so that no distance can be mistaken for INFINITY.
- What a pairing heap does in the calls after a `decreaseKey` that has left no heap.
- The modules `amtu`, `benchmarkdemo`, `smart`, `cglib_demo` and the machine-learning demo: database, user-interface, benchmark and reflection code.

# Word hash set of hashCompete, in Dafny

The word hash set of hashCompete is used to measure how evenly a hash function
spreads the words of a book over a fixed number of buckets. It exists twice,
once in Java (`src/HashWordSet.java`) and once in Python
(`optimizeHash/src/hash_word_set.py`). Both versions keep an array of 53
singly linked chains and a size counter, and provide:

- `normalize`: strips a fixed set of special characters off both ends of a
  token and upper-cases the rest;
- `hash`: a Horner accumulation of weighted character codes with prime 31,
  reduced modulo 53 after every character. Vowels count twice, and the second
  and third characters from the end count four times;
- `contains`: walks the chain the hash selects;
- `add`: normalises the token and, if it is absent, puts it at the head of its
  chain and counts it;
- a distribution metric (`toString` in Java, `efficiency_factor` in Python):
  the size, the shortest and the longest chain, the truncated average chain
  length, and the mean squared deviation of the chain lengths from that
  average.

The project has two layers.

The specification layer is four modules:

- `Text` defines normalisation (`Normalized`).
- `WordHash` defines the reference bucket of a word (`Bucket`): the full
  polynomial sum of the weighted codes, reduced once.
- `Chains` describes the table as 53 sequences of words, each head first. It
  defines `Member`, `AddSpec`, `Build` (many adds to a fresh set) and the
  representation invariant `WellFormed`: every word is in the chain its hash
  selects, every word is normalised, and no chain holds a word twice.
- `Distribution` defines the metric (`MetricsOf`).

Each source file then becomes a module with a `HashWordSet` class:
`JavaHashWordSet` and `PyHashWordSet`. The class has the source's own fields:

- `elementData`, an `array` of 53 chains;
- `size`;
- in Python, the four weights.

It also has a ghost set `Contents` of the stored words. Each of its methods
runs the source's loops and is proved against the specification functions.
Lemmas in the specification layer prove the properties those functions have.

The two versions differ in two ways. The Python hash doubles vowels of either
case, while the Java hash doubles only `AEIOU`. The Python constructor stores
four weights that its hash never reads.

An empty or all-special token normalises to the empty string in both versions.
The left scan runs to the end of the token, and the right scan stops as soon
as it reaches the left index. So `""` is a word the set can store;
`Text.NormalizedEmpty` and `Chains.AllSpecialStoresEmpty` state this.

## Model

| member | source | states |
|---|---|---|
| Text.NormalizedIsCore | src/HashWordSet.java:18-28 | when i is the first and j the last non-special position of a token, its normalised form is the slice from i to j inclusive, upper-cased |
| Text.NormalizedEmpty | src/HashWordSet.java:20-28 | the normalised form is empty exactly when every character of the token is special (this includes the empty token) |
| Text.NormalizedIsNormal | src/HashWordSet.java:21-28 | a normalised word is empty or ends in non-special characters on both sides, and it holds no lower-case ASCII letter |
| Text.NormalizeIdempotent | src/HashWordSet.java:21-28 | normalising a normalised word changes nothing |
| Text.ScansMeet | src/HashWordSet.java:20-28 | where the left scan stops at the first non-special character (or the end) and the right scan at the last one (or where the left scan stopped), the upper-cased slice between them is the normalised token |
| Text.LetterEndsNormalize | src/HashWordSet.java:18-28 | a token that starts and ends with an ASCII letter is only upper-cased |
| WordHash.Bucket | src/HashWordSet.java:106-112 | the bucket is in the range [0, 52] |
| WordHash.ModStep | src/HashWordSet.java:128 | reducing the accumulator modulo 53 before a Horner step does not change the reduced result |
| WordHash.HornerIsWeightedSum | src/HashWordSet.java:118-129 | the Horner accumulation over the whole word equals the sum of each weighted code times 31 raised to the number of characters after it |
| WordHash.BucketsAgree | optimizeHash/src/hash_word_set.py:76-96 | the Python and the Java bucket agree on every word without a lower-case vowel |
| WordHash.NormalizedBucketsAgree | optimizeHash/src/hash_word_set.py:72-96 | the Python and the Java bucket agree on every normalised word |
| Chains.Empty | src/HashWordSet.java:51-54 | a fresh table has 53 chains, all empty |
| Chains.EmptyProperties | src/HashWordSet.java:51-54 | a fresh table is well-formed, has no node and stores no word |
| Chains.MemberIffStored | src/HashWordSet.java:36-46 | in a well-formed table, a word is in the chain of its own bucket exactly when it is stored anywhere |
| Chains.AddPreservesWellFormed | src/HashWordSet.java:60-69 | add keeps every word in the bucket its hash selects, keeps every word normalised, and keeps every chain free of duplicates |
| Chains.AddThenMember | src/HashWordSet.java:60-68 | after add(raw), the normalised token is a member |
| Chains.AllSpecialStoresEmpty | src/HashWordSet.java:60-67 | adding an empty or all-special token makes the empty word a member |
| Chains.AddIdempotent | src/HashWordSet.java:60-69 | a second add of the same raw token leaves every chain unchanged |
| Chains.AddFrame | src/HashWordSet.java:62-66 | add changes only the chain of the normalised token's bucket; that chain gains the word at its head when the word was absent and is otherwise unchanged |
| Chains.AddCounts | src/HashWordSet.java:62-67 | add grows the node count by one exactly when the normalised token was absent; the stored words gain exactly that word |
| Chains.BuildSnoc | optimizeHash/src/hash_word_set.py:136-138 | building from one more token is one more add |
| Chains.BuildWellFormed | optimizeHash/src/hash_word_set.py:134-138 | a fresh set that receives any sequence of tokens is well-formed |
| Chains.BuildWords | optimizeHash/src/hash_word_set.py:134-138 | the stored words after adding a token sequence are exactly the normalised tokens |
| Chains.BuildCount | optimizeHash/src/hash_word_set.py:134-138 | after adding a token sequence, the node count equals the number of distinct stored words |
| Chains.BuildStoresEach | optimizeHash/src/hash_word_set.py:134-138 | every token added is stored in normalised form |
| Chains.BuildSize | optimizeHash/src/hash_word_set.py:134-138 | the node count after adding a token sequence is the number of distinct normalised tokens |
| Chains.BuildDistinctCount | src/HashWordSetTest.java:50-72 | adding tokens whose normalised forms are pairwise distinct gives one node per token |
| Distribution.MinLengthIsMinimum | src/HashWordSet.java:79-91 | the shortest-chain value is the length of some chain, and no chain is shorter |
| Distribution.MaxLengthIsMaximum | src/HashWordSet.java:81-92 | the longest-chain value is the length of some chain, and no chain is longer |
| Distribution.RunningStep | src/HashWordSet.java:85-94 | folding one more chain into the running minimum, maximum and deviation sum gives the values of the longer prefix |
| Distribution.RunningDone | src/HashWordSet.java:85-95 | after all 53 chains, the running minimum and maximum are set, and the running values are the metric of the whole table |
| Distribution.MetricsBounds | src/HashWordSet.java:78-95 | the reported size is the node count; the shortest chain is at most the truncated average, which is at most the longest chain; the efficiency factor is never negative |
| Distribution.EmptyMetrics | src/HashWordSet.java:78-95 | a fresh set reports size 0, all three lengths 0, and efficiency factor 0 |
| Distribution.DeviationZeroIffUniform | src/HashWordSet.java:93-95 | the efficiency factor is 0 exactly when every chain has the truncated average length |
| JavaHashWordSet.HashWordSet.Normalize | src/HashWordSet.java:18-29 | the two scans return the normalised form of the token, which is empty or has non-special ends and no lower-case ASCII letter |
| JavaHashWordSet.HashWordSet.Hash | src/HashWordSet.java:114-131 | the loop, which reduces modulo 53 at every step, returns the reference bucket of the word, in the range [0, 52] |
| JavaHashWordSet.HashWordSet.Contains | src/HashWordSet.java:36-46 | the chain walk returns true exactly when the word is in its own bucket's chain, which is exactly when the set holds it |
| JavaHashWordSet.HashWordSet.constructor | src/HashWordSet.java:51-54 | a new set has 53 empty chains, size 0 and no word, and it satisfies the representation invariant |
| JavaHashWordSet.HashWordSet.Add | src/HashWordSet.java:60-69 | the new chains are the add of the old ones; the invariant holds; the held words gain the normalised token; size grows by one exactly when that word was absent |
| JavaHashWordSet.HashWordSet.DistributionMetrics | src/HashWordSet.java:78-95 | toString's values are the metric of the chains: the size is the node count, min <= avg <= max, and the factor is non-negative; the set is not changed |
| JavaHashWordSet.HashWordSet.Measure | src/HashWordSet.java:79-95 | the chain walks, which start from sentinel minimum and maximum values, compute exactly the metric of the 53 chains |
| JavaHashWordSet.TestWordNormalized | src/HashWordSetTest.java:17-29 | "testWord" normalises to "TESTWORD" |
| JavaHashWordSet.TestReflectionAccess | src/HashWordSetTest.java:14-44 | after adding "testWord" to a fresh set, some chain holds "TESTWORD" |
| JavaHashWordSet.CountingWordsDistinct | src/HashWordSetTest.java:53-56 | "example", "testing", "hash" and "function" normalise to four pairwise distinct words |
| JavaHashWordSet.TestIterationAndCounting | src/HashWordSetTest.java:50-72 | adding those four tokens to a fresh set gives four nodes over all chains |
| PyHashWordSet.HashWordSet.constructor | optimizeHash/src/hash_word_set.py:10-16 | a new set has 53 empty chains, size 0 and no word, and it records the four weights as given |
| PyHashWordSet.HashWordSet.Normalize | optimizeHash/src/hash_word_set.py:18-26 | the two scans return the same normalised form as the Java version, "" for an empty or all-special token included |
| PyHashWordSet.HashWordSet.Contains | optimizeHash/src/hash_word_set.py:28-35 | the chain walk returns true exactly when the word is in its own bucket's chain, which is exactly when the set holds it |
| PyHashWordSet.HashWordSet.Add | optimizeHash/src/hash_word_set.py:37-44 | the new chains are the add of the old ones; the invariant holds; the held words gain the normalised token; size grows by one exactly when that word was absent |
| PyHashWordSet.HashWordSet.Hash | optimizeHash/src/hash_word_set.py:72-96 | the loop returns the reference bucket in [0, 52], with vowels of either case doubled and the last-but-one and last-but-two positions multiplied by 4, independent of the weight fields |
| PyHashWordSet.HashWordSet.EfficiencyFactor | optimizeHash/src/hash_word_set.py:98-120 | the returned values are the metric of the chains: the size is the node count, min <= avg <= max, and the factor is non-negative; the set is not changed |
| PyHashWordSet.HashWordSet.Measure | optimizeHash/src/hash_word_set.py:99-113 | the chain walks, which start from infinite minimum and maximum values, compute exactly the metric of the 53 chains |
| PyHashWordSet.BuildSet | optimizeHash/src/genetic_algorithm.py:32-37 | a fresh set built with the given weights that receives the tokens in order (the loop of `evaluate`, and with the default weights the loop at optimizeHash/src/hash_word_set.py:134-138) is valid and holds the chains of Build; those chains do not depend on the weights, so sets built with any multipliers place every word in the same bucket |
| JavaHashWordSet.BuildSet | src/HashWordSetTest.java:52-56 | a fresh set that receives the tokens in order, as the JUnit tests drive it, is valid and holds the chains of Build, so the two test lemmas speak of the set the tests build |

## Left out

- Node objects: a chain is the sequence of its words from head to tail, and `add` prepends to that sequence. Node identity, aliasing and the `next` links are not modelled.
- Character handling: upper-casing maps only ASCII `a`-`z` to `A`-`Z`. Java's `toUpperCase` and Python's `str.upper` also map other letters, and Python's can change the length (for example 'ß' becomes "SS").
- Special characters: the mojibake characters at the end of the source's special-character string are members of a character set, and nothing more.
- Java `char` values: in Java they are UTF-16 code units, while a Dafny `char` is a Unicode scalar value. A word outside the Basic Multilingual Plane therefore hashes over different values in Java. Python iterates code points, as the model does.
- Integer widths: integers are unbounded. Java's `int` size counter would wrap after 2^31 - 1 distinct words. The `long` hash accumulator cannot overflow, because it stays below 53 * 31 plus a character value.
- Floating point: the deviation sum is an exact integer, and the efficiency factor is its exact `real` quotient by 53. Java's `Math.pow` and `double`, and Python's floats, would round. Python's `int(self.size / self.BUCKETS)` is taken as integer division, which is exact for sizes below 2^53.
- The minimum and maximum sentinels (`Integer.MAX_VALUE`/`Integer.MIN_VALUE`, `float('inf')`/`float('-inf')`) become the values `PosInf` and `NegInf`. They are always replaced, because there are 53 chains.
- Python weights: the constructor's integer defaults 2, 4, 2 and 2 are given as the reals 2.0, 4.0, 2.0 and 2.0. Only the commented-out hash would read them.
- String rendering: the text that `toString` and `__str__` build from the metric values is not modelled.
- Dead code: the commented-out four-weight hash in `optimizeHash/src/hash_word_set.py` is not modelled.
- `read_book_and_calculate_hash` and the module-level call that runs it: file reading, `line.split()` and the printed messages are not modelled. `PyHashWordSet.BuildSet` takes the tokens as a sequence.
- `optimizeHash/src/genetic_algorithm.py` is not part of this model, apart from the token loop of `evaluate` that `PyHashWordSet.BuildSet` models. It is a driver over a genetic-algorithm library, random numbers, a process pool, checkpoint files and plots; `evaluate` also reads files and averages floats.
- The two JUnit tests read `elementData` through reflection. Their lemmas instead speak of the stored words and of the node count of the chains that `Build` produces.

# Proofs about four algorithmic parts of mytilus

mytilus is a C library for AArch64 Linux written in Rust and assembly. This project models the parts of it that
carry real algorithms and proves, for all inputs, runs and interleavings, what they promise.

## What is modelled

**Pseudo-random numbers** (`crates/mytilus-prng`). `Bits` has the bitwise operations on natural numbers, `Lcg` the
congruential step modulo a power of two with the exact condition for full period, `Rand` the functions `rand`,
`srand` and `rand_r`, `Rand48` the 48-bit family over 16-bit limbs. The `random` family is built in layers:

| layer | module | what it is |
|---|---|---|
| generators | `Lagged`, `RandomInit` | the two generators as values; the circular buffer as a shift register; the initial table |
| shared words | `RandomState` | the static variables and buffers as one value, the four calls on it, and the abstract machine (a map from buffers to generators) they implement |
| histories | `RandomStreams` | whole runs: each buffer yields the stream of a private generator |
| objects | `RandomFamily` | the methods over arrays, with lock and lazy pointer, each equal to its call in `RandomState` |
| accesses | `RandomSteps` | every single read or write of shared memory as one step |
| threads | `RandomThreads` | any number of threads interleaving those steps: mutual exclusion and linearizability |

**Assembly memory routines** (`crates/mytilus-string/asm`). `Memory` is a byte-addressed machine whose loads must
fall into a readable window and whose stores into a writable one, together with the byte loops of `mem.rs`; `Memcpy`
and `Memset` follow the listings load by load and store by store. All of them end in the same two predicates:
`Copied` (the bytes of the source as they were before, nothing else changed) and `Filled`. Because `Memcpy.Granted`
opens exactly the source for reading and exactly the destination for writing, the proofs also say that no load or
store strays outside them; `Memset.Granted` does the same for the destination.

**Sorting and searching** (`crates/mytilus-stdlib/src/sort.rs`; sections 7.22.5.1 and 7.22.5.2 of ISO C11). `Elements`
sees a byte buffer as elements of any width, `Heap` has the theory of heaps and of their heights, `Heapsort` and
`Bsearch` the in-place algorithms. A comparator is an oracle whose answer may depend on how often it has been asked,
which covers inconsistent and stateful ones. Only the sortedness results assume a total preorder, and only of the
elements in the array; `bsearch` needs no more than an array partitioned by the key.

**Strings** (`crates/mytilus-string/src`). `CString` has NUL-terminated strings in memory, the byteset and the
searches, `Tokens` the destructive tokenisers and their whole runs (section 7.24.5.8 of ISO C11), `Compare` the
comparisons and the case folding of `mytilus-locale`.

## Findings

* `memcpy` is documented for disjoint ranges, but works on more. `Memcpy.Tolerates` is the exact condition: up to 128
  bytes any overlap is fine; above that, with `d = dest - src` and `R = 1 + (n + dest % 16 - 81) % 64`, it works if and
  only if `d <= 0`, `n <= d`, or `d` is at most both `16 - dest % 16` and `R`. For every other overlap some memory is
  copied wrongly.
* `seed48` returns a pointer to a static array that it reuses, so the three values behind it must be copied if they are
  to be restored later. Handing the pointer itself back restores nothing: the array has already been overwritten with
  the current state when it is read. The given state is installed if and only if another array is passed, or the
  static one already held the current state (`Rand48.Seed48.Exchange`).
* The limit on `lcong48` is exact: the parameters give all 2^48 states if and only if the lowest multiplier limb is
  1 modulo 4 and the increment is odd.

## Model

| member | source | states |
|---|---|---|
| `Lcg.FullPeriodIff` | crates/mytilus-prng/src/lib.rs:36-45 | a congruential generator modulo 2^k (k >= 2) returns every state to itself after n steps exactly for the multiples n of 2^k, if and only if the multiplier is 1 modulo 4 and the increment odd |
| `Lcg.VisitedExactlyOnce` | crates/mytilus-prng/src/lib.rs:36-45 | a full-period generator reaches every state exactly once in a cycle, from any start |
| `Lcg.OutputPeriod` | crates/mytilus-prng/src/lib.rs:43-43 | dropping low bits of the state does not shorten the period of the values that come out |
| `Lcg.IterateMove` | crates/mytilus-prng/src/lib.rs:40-42 | n steps move a state by the geometric sum of the multiplier times the first step's displacement |
| `Rand.WrapOnce` | crates/mytilus-prng/src/lib.rs:40-42 | wrapping after the product and again after the sum equals reducing the exact value once |
| `Rand.RandState.Srand` | crates/mytilus-prng/src/lib.rs:28-34 | subtracting 1 wraps: the 64-bit seed becomes all ones for 0 and s - 1 otherwise |
| `Rand.RandState.Rand` | crates/mytilus-prng/src/lib.rs:37-45 | the hidden seed becomes 6364136223846793005 times itself plus 1 modulo 2^64; the result is its upper 31 bits and fits a non-negative int |
| `Rand.AfterSrand42` | crates/mytilus-prng/src/lib.rs:437-448 | the first three values after srand(42) are 311430560, 131117839 and 1110653038 |
| `Rand.RandPeriod` | crates/mytilus-prng/src/lib.rs:37-45 | the sequence of values of rand repeats after n calls if and only if 2^64 divides n |
| `Rand.TemperBit` | crates/mytilus-prng/src/lib.rs:54-60 | each bit of a tempered word in terms of the bits of the word, with the shifts and the set bits of both masks in numbers |
| `Rand.TemperInjective` | crates/mytilus-prng/src/lib.rs:54-60 | tempering maps different 32-bit words to different 32-bit words |
| `Rand.TemperSurjective` | crates/mytilus-prng/src/lib.rs:54-60 | every 32-bit word is the tempering of some word |
| `Rand.RandR` | crates/mytilus-prng/src/lib.rs:65-70 | the caller's seed becomes 1103515245 times itself plus 12345 modulo 2^32, and the result is the tempered new seed halved |
| `Rand.AfterSeed0` | crates/mytilus-prng/src/lib.rs:65-70 | from seed 0 the new seed is 12345 and the result 27726646 |
| `Rand.RandREquidistributed` | crates/mytilus-prng/src/lib.rs:65-70 | in one period of 2^32 calls, whatever the start, rand_r returns every 31-bit value exactly twice |
| `Rand48.OrLimbs` | crates/mytilus-prng/src/lib.rs:296-305 | shifting and or-ing three 16-bit limbs gives the 48-bit number they stand for |
| `Rand48.LimbsOf` | crates/mytilus-prng/src/lib.rs:308-310 | the three truncated shifts are limbs and stand for the number modulo 2^48 |
| `Rand48.Truncate` | crates/mytilus-prng/src/lib.rs:307-311 | reducing to 48 bits hides that the 64-bit arithmetic wrapped |
| `Rand48.Step` | crates/mytilus-prng/src/lib.rs:292-313 | the limbs are left at, and the result is, multiplier times value plus increment modulo 2^48; the rest of the array is unchanged, even when it also holds the parameters |
| `Rand48.Nrand48` | crates/mytilus-prng/src/lib.rs:344-348 | the caller's state makes one step, the result is its upper 31 bits |
| `Rand48.Jrand48` | crates/mytilus-prng/src/lib.rs:359-365 | the same with the upper 32 bits, read as two's complement |
| `Rand48.Seed48.constructor` | crates/mytilus-prng/src/lib.rs:284-286 | state 0 and the standard multiplier and increment |
| `Rand48.Seed48.Lrand48` | crates/mytilus-prng/src/lib.rs:351-354 | one step of the shared state under the shared parameters, which stay |
| `Rand48.Seed48.Mrand48` | crates/mytilus-prng/src/lib.rs:368-371 | the signed counterpart |
| `Rand48.Seed48.Exchange` | crates/mytilus-prng/src/lib.rs:376-389 | seed48: the old state is returned and the caller's installed, unless the caller passes the array seed48 returns, when the state stays as it was; the given state is installed if and only if another array is passed or that one held the current state; parameters are untouched |
| `Rand48.Seed48.Srand48` | crates/mytilus-prng/src/lib.rs:392-398 | the state becomes 0x330e below the low 32 bits of the seed, negative seeds included; parameters are untouched |
| `Rand48.Seed48.Lcong48` | crates/mytilus-prng/src/lib.rs:403-412 | all seven limbs become those given |
| `Rand48.Lrand48Period` | crates/mytilus-prng/src/lib.rs:286-348 | with the default parameters the values of lrand48 repeat after n calls if and only if 2^48 divides n |
| `Rand48.AfterSrand48Zero` | crates/mytilus-prng/src/lib.rs:497-502 | the first lrand48 after srand48(0) is 366850414, the first mrand48 733700828 |
| `Rand48.Lcong48Period` | crates/mytilus-prng/src/lib.rs:403-412 | the parameters given to lcong48 yield full period if and only if the lowest multiplier limb is 1 modulo 4 and the increment odd |
| `Lagged.Lcg31Step` | crates/mytilus-prng/src/lib.rs:135-137 | wrapping at 32 bits and masking to 31 is one congruential step modulo 2^31 with the constants of rand_r |
| `Lagged.SmallNext` | crates/mytilus-prng/src/lib.rs:209-212 | with the smallest buffers random returns its new state, 1103515245 x + 12345 modulo 2^31 |
| `Lagged.SmallPeriod` | crates/mytilus-prng/src/lib.rs:209-212 | with the smallest buffers a 31-bit state returns after t calls if and only if 2^31 divides t |
| `Lagged.SeedWordsAt` | crates/mytilus-prng/src/lib.rs:183-187 | seed word k is the upper half of the (k+1)-st 64-bit congruential state from the seed |
| `Lagged.SeededIs` | crates/mytilus-prng/src/lib.rs:173-191 | seeding leaves j = 0, i = 3 for degrees 7 and 31 and i = 1 for 15 and 63, and as word k the upper half of the (k+1)-st 64-bit congruential state from the seed, with the low bit of word 0 set |
| `Lagged.SeededValid` | crates/mytilus-prng/src/lib.rs:173-191 | seeding any degree leaves 32-bit words, indices the right distance apart, and an odd first word |
| `Lagged.NextValid` | crates/mytilus-prng/src/lib.rs:209-222 | every call keeps the indices in range and their distance around the circle, over both wrap-arounds |
| `Lagged.NextShifts` | crates/mytilus-prng/src/lib.rs:214-221 | a call on the circular buffer is one step of a shift register over its words oldest first, and returns the new word halved |
| `Lagged.Recurrence` | crates/mytilus-prng/src/lib.rs:181-217 | every word of the stream after the first n is the sum modulo 2^32 of the words n and sep places before it, where sep is 3 for n = 7 and 31 and 1 for n = 15 and 63 |
| `Lagged.RunFollowsStream` | crates/mytilus-prng/src/lib.rs:214-221 | after t calls the buffer holds words t to t+n of the recurrence, and the next call returns word t+n halved |
| `Lagged.NextInvertible` | crates/mytilus-prng/src/lib.rs:214-221 | the state before a call can be recovered from the state after it |
| `Lagged.NextKeepsOdd` | crates/mytilus-prng/src/lib.rs:214-221 | the buffer has an odd word after a call if and only if it had one before |
| `Lagged.SeededStaysOdd` | crates/mytilus-prng/src/lib.rs:188-189 | however long it runs, a seeded buffer is never all even |
| `RandomInit.InitialIsSeedOne` | crates/mytilus-prng/src/lib.rs:88-104 | the static table and indices are what srandom(1) would leave, so random without srandom behaves as after srandom(1) |
| `RandomInit.FirstNumber` | crates/mytilus-prng/src/lib.rs:204-226 | the first number after srandom(1) is 262836907 |
| `RandomState.HeaderValue` | crates/mytilus-prng/src/lib.rs:149-152 | the header word is 65536 n + 256 i + j |
| `RandomState.Degree` | crates/mytilus-prng/src/lib.rs:239-249 | the degree chosen is the largest of the five whose words, with the header, fit into the buffer |
| `RandomState.HeaderRoundTrip` | crates/mytilus-prng/src/lib.rs:149-168 | degree and indices packed into one header word come back unchanged |
| `RandomState.SaveStateSaves` | crates/mytilus-prng/src/lib.rs:145-155 | after savestate every buffer, the current one included, carries the header its generator needs, and no generator has changed |
| `RandomState.RandomRefines` | crates/mytilus-prng/src/lib.rs:208-223 | random advances the current generator, returns its value, and leaves every other one alone |
| `RandomState.SrandomRefines` | crates/mytilus-prng/src/lib.rs:173-191 | srandom reseeds the current generator at its degree and leaves every other one alone |
| `RandomState.InitstateRefines` | crates/mytilus-prng/src/lib.rs:231-257 | initstate makes a freshly seeded generator, of the degree the buffer size allows, current in the given buffer, also when that is already the current one, and loses no other |
| `RandomState.SetstateRefines` | crates/mytilus-prng/src/lib.rs:263-273 | setstate makes the generator of a buffer current exactly as it was left, also when it is current already |
| `RandomState.ApplyRefines` | crates/mytilus-prng/src/lib.rs:193-273 | every legal call stays inside the buffers, and does to the shared words and returns exactly what the abstract machine says |
| `RandomState.OldBufferReturned` | crates/mytilus-prng/src/lib.rs:231-273 | initstate and setstate return the buffer that was current and make the given one current; initstate below 8 bytes does nothing |
| `RandomState.SeedingWrites` | crates/mytilus-prng/src/lib.rs:173-257 | srandom and initstate leave in the right buffer, behind its header, the seeded words of the right degree |
| `RandomState.HeadersWritten` | crates/mytilus-prng/src/lib.rs:231-273 | initstate and setstate leave the header of the abandoned generator in its buffer, and initstate that of the new one in the new buffer |
| `RandomState.OthersUnchanged` | crates/mytilus-prng/src/lib.rs:193-273 | no call changes any word of any buffer but the header of the current one and the words of the generator it advances or seeds |
| `RandomState.SetstateBack` | crates/mytilus-prng/src/lib.rs:263-273 | setstate followed by setstate of its result restores the current buffer, its registers and every word behind a header |
| `RandomStreams.InitialRepresents` | crates/mytilus-prng/src/lib.rs:88-104 | the static initial data with a null pointer is a valid degree-31 generator with an odd word, the one of srandom(1) |
| `RandomStreams.HistoryRefines` | crates/mytilus-prng/src/lib.rs:193-273 | any legal history of calls stays inside the buffers, returns call by call what the abstract machine returns, and leaves the shared words in step with it |
| `RandomStreams.StreamsIndependent` | crates/mytilus-prng/src/lib.rs:193-273 | over any history each buffer yields the numbers, and ends with the state, of a private generator that sees only its own calls |
| `RandomStreams.StreamResumes` | crates/mytilus-prng/src/lib.rs:231-273 | a buffer that is not reseeded yields the unbroken run of its generator, however often others are switched to in between |
| `RandomFamily.RandomFamily.XPtr` | crates/mytilus-prng/src/lib.rs:123-133 | the pointer is set on first use to the static buffer, and is the active buffer ever after |
| `RandomFamily.RandomFamily.Savestate` | crates/mytilus-prng/src/lib.rs:145-155 | the arrays change as SaveState says and the active buffer is returned |
| `RandomFamily.RandomFamily.Loadstate` | crates/mytilus-prng/src/lib.rs:159-170 | registers and pointer change as LoadState says, no buffer does |
| `RandomFamily.RandomFamily.FillWords` | crates/mytilus-prng/src/lib.rs:183-187 | the loop writes exactly the seed words, behind the header and before whatever follows |
| `RandomFamily.RandomFamily.SrandomLock` | crates/mytilus-prng/src/lib.rs:173-191 | arrays and fields change as SrandomLocked says |
| `RandomFamily.RandomFamily.Srandom` | crates/mytilus-prng/src/lib.rs:194-201 | the call on the arrays equals the call on the shared value, and leaves the lock free |
| `RandomFamily.RandomFamily.Random` | crates/mytilus-prng/src/lib.rs:204-226 | the same for random and its result |
| `RandomFamily.RandomFamily.Initstate` | crates/mytilus-prng/src/lib.rs:231-257 | the same for initstate; less than 8 bytes changes nothing and yields NULL |
| `RandomFamily.RandomFamily.Setstate` | crates/mytilus-prng/src/lib.rs:263-273 | the same for setstate; the buffer that was current is returned and the given one is current |
| `RandomSteps.MicroDecreases` | crates/mytilus-prng/src/lib.rs:108-273 | between lock and unlock a call makes finitely many accesses, whatever is in memory |
| `RandomSteps.AloneIsApply` | crates/mytilus-prng/src/lib.rs:123-273 | the accesses of a call made without interruption have the result and the effect of the call as a whole |
| `RandomSteps.ReadsOnlyTouched` | crates/mytilus-prng/src/lib.rs:123-273 | what an access does to its thread depends on no word of a buffer but the one it is said to touch |
| `RandomSteps.WritesOnlyTouched` | crates/mytilus-prng/src/lib.rs:123-273 | an access changes no other word of any buffer |
| `RandomSteps.MicroFits` | crates/mytilus-prng/src/lib.rs:123-273 | each access of a call falls into its buffer, and so will the next |
| `RandomThreads.StepKeeps` | crates/mytilus-prng/src/lib.rs:108-119 | every step of every thread keeps the lock exclusive, the log in real-time order, and memory in step with the calls run one after the other in lock order |
| `RandomThreads.MutualExclusion` | crates/mytilus-prng/src/lib.rs:108-119 | in every reachable state at most one thread is between lock and unlock |
| `RandomThreads.RealTimeOrder` | crates/mytilus-prng/src/lib.rs:108-119 | a call that returned before another began precedes it in lock order |
| `RandomThreads.Linearizable` | crates/mytilus-prng/src/lib.rs:193-273 | for any number of threads and any interleaving of their accesses, results and free-lock memory are those of the sequential run in lock order |
| `RandomThreads.ThreadsSeeGenerators` | crates/mytilus-prng/src/lib.rs:193-273 | under any interleaving every call that has returned has the result of the abstract machine of independent generators run in lock order, also while another call holds the lock, and free-lock memory represents that machine |
| `RandomThreads.HolderCanRelease` | crates/mytilus-prng/src/lib.rs:193-273 | from every state that satisfies the invariant the holder of the lock can free it by its own steps alone |
| `RandomThreads.LockIsReleasable` | crates/mytilus-prng/src/lib.rs:193-273 | the same from every reachable state in which the lock is held |
| `RandomThreads.AccessesInBounds` | crates/mytilus-prng/src/lib.rs:108-273 | in every reachable state the next single access of the thread inside falls into its buffer, if the calls in lock order were applicable |
| `Memory.Machine.CopyForward` | crates/mytilus-string/src/mem.rs:53-67 | the forward loop copies as if through a buffer when the ranges are disjoint or dest is not above src |
| `Memory.Machine.CopyBackward` | crates/mytilus-string/src/mem.rs:90-96 | the backward loop does when dest is not below src |
| `Memory.Machine.Memmove` | crates/mytilus-string/src/mem.rs:77-99 | any two ranges, overlapping or not: dest ends with what src held, nothing else changes |
| `Memory.Machine.FillBytes` | crates/mytilus-string/src/mem.rs:108-120 | exactly n bytes become the low byte of c, for negative c too |
| `Memory.CopiedByByte` | crates/mytilus-string/src/mem.rs:60-65 | a range is copied if and only if each of its bytes is the source byte as it was and every other byte is unchanged |
| `Memory.FilledByByte` | crates/mytilus-string/src/mem.rs:112-118 | the same for a fill |
| `Memory.PatchedStore` | crates/mytilus-string/asm/memcpy.S:66-67 | overlapping stores of source bytes that leave no gap add up to one copy |
| `Memcpy.CopyEnds` | crates/mytilus-string/asm/memcpy.S:61-87 | one word from each end copies all lengths up to two words, under any overlap |
| `Memcpy.CopyThree` | crates/mytilus-string/asm/memcpy.S:90-100 | the branchless sequence copies 1, 2 or 3 bytes, under any overlap |
| `Memcpy.Copy64` | crates/mytilus-string/asm/memcpy.S:104-115 | 33 to 64 bytes are copied, under any overlap |
| `Memcpy.Copy128` | crates/mytilus-string/asm/memcpy.S:119-137 | 65 to 128 bytes are copied, under any overlap |
| `Memcpy.CopyLong` | crates/mytilus-string/asm/memcpy.S:141-184 | the pipelined loop ends, stays in bounds and copies all bytes when the overlap is one it tolerates, and otherwise gives one named byte the value of a different source byte |
| `Memcpy.Memcpy` | crates/mytilus-string/asm/memcpy.S:53-184 | for every length and alignment: dest is returned, no load or store leaves the ranges, tolerated ranges are copied like by memmove, and of any others one byte is known to be wrong |
| `Memcpy.ToleratedCases` | crates/mytilus-string/asm/memcpy.S:42-48 | disjoint ranges, dest at or below src, and lengths up to 128 are tolerated |
| `Memcpy.UntoleratedFails` | crates/mytilus-string/asm/memcpy.S:141-184 | every overlap that is not tolerated does go wrong for some memory |
| `Memset.SetSmall` | crates/mytilus-string/asm/memset.S:32-46 | 0 to 15 bytes are set, and no others |
| `Memset.SetMedium` | crates/mytilus-string/asm/memset.S:48-65 | 16 to 96 bytes are set, and no others |
| `Memset.SetNoZva` | crates/mytilus-string/asm/memset.S:96-107 | the biased loop ends and sets everything from the first 16 bytes on |
| `Memset.ZeroBlock` | crates/mytilus-string/asm/memset.S:88-89 | a DC ZVA at a 64-byte boundary zeroes 64 bytes that all lie in the range |
| `Memset.SetZva` | crates/mytilus-string/asm/memset.S:80-94 | the DC ZVA loop ends and zeroes everything, whatever the alignment |
| `Memset.Memset` | crates/mytilus-string/asm/memset.S:19-107 | for every length, byte, alignment and value of dczid_el0: dest is returned, and exactly its count bytes become the low byte of c |
| `Memset.ZvaCheck` | crates/mytilus-string/asm/memset.S:76-79 | the one comparison lets DC ZVA through exactly when it is permitted and its block has 64 bytes |
| `Elements.SwapBytes` | crates/mytilus-stdlib/src/sort.rs:53-64 | two disjoint regions exchange contents, all else stays |
| `Elements.ExchangedElems` | crates/mytilus-stdlib/src/sort.rs:39-64 | exchanging the bytes of two elements swaps them in the array of elements, for any width, and disturbs nothing outside |
| `Heap.SiftStep` | crates/mytilus-stdlib/src/sort.rs:90-110 | swapping a parent with its larger child moves the one possible heap violation down to that child |
| `Heap.RootIsMax` | crates/mytilus-stdlib/src/sort.rs:131-135 | under a total preorder of its elements none of a heap exceeds the root |
| `Heap.ExtractStep` | crates/mytilus-stdlib/src/sort.rs:133-137 | moving the root behind the heap extends the sorted tail by one |
| `Heap.HeightIsLog` | crates/mytilus-stdlib/src/sort.rs:82-111 | the levels below node i of a heap of n are the integer logarithm of n/(i+1) |
| `Heap.Log2Bounds` | crates/mytilus-stdlib/src/sort.rs:9-9 | the logarithm in all bounds is the integer part of the logarithm to base 2 |
| `Heap.TotalHeightLinear` | crates/mytilus-stdlib/src/sort.rs:126-130 | the heights of all nodes of a heap of n add up to less than n |
| `Heapsort.SwapAt` | crates/mytilus-stdlib/src/sort.rs:108-108 | swaps two different elements; an element is never swapped with itself |
| `Heapsort.SiftDown` | crates/mytilus-stdlib/src/sort.rs:74-112 | permutes the first n elements, at most twice the height of i in comparisons, and repairs the heap below i if the comparator is a total preorder of the elements |
| `Heapsort.BuildHeap` | crates/mytilus-stdlib/src/sort.rs:122-130 | less than 2n comparisons leave a permutation, and a heap under a total preorder |
| `Heapsort.Extract` | crates/mytilus-stdlib/src/sort.rs:133-137 | one turn keeps the smaller heap and lengthens the sorted tail, in at most 2 log n comparisons |
| `Heapsort.ExtractAll` | crates/mytilus-stdlib/src/sort.rs:131-137 | a heap becomes a sorted permutation in at most 2(n-1) log n comparisons |
| `Heapsort.Sort` | crates/mytilus-stdlib/src/sort.rs:118-188 | any comparator: ends after at most 2n(1 + log n) comparisons with a permutation of the elements and no byte outside changed; a comparator that is a total preorder of the elements in the array, whatever it does elsewhere: in ascending order |
| `Bsearch.SortedIsPartitioned` | crates/mytilus-stdlib/src/sort.rs:193-194 | an array sorted by a total preorder of its elements and the key is partitioned by the key, and what compares equal is what the order calls equal |
| `Bsearch.Search` | crates/mytilus-stdlib/src/sort.rs:200-224 | any comparator: at most log n + 1 comparisons, and a result is the address of an element last declared equal to the key; an array partitioned by the sign of cmp(key, element): NULL if and only if no element compares equal |
| `Bsearch.SortThenSearch` | crates/mytilus-stdlib/src/sort.rs:163-224 | qsort leaves a sorted permutation within its bound; bsearch then returns, in at most log n + 1 more comparisons, the address of an element equal to the key if and only if the original array had one |
| `CString.StrBytes` | crates/mytilus-string/src/str_fns.rs:25-35 | a string is the bytes before the first NUL |
| `CString.Strlen` | crates/mytilus-string/src/str_fns.rs:25-35 | the length of the string |
| `CString.Strchrnul` | crates/mytilus-string/src/str_fns.rs:119-133 | the first byte c, or the NUL; for c = 0 the NUL |
| `CString.SetAdds` | crates/mytilus-string/src/str_search.rs:31-33 | setting one bit of the four words adds exactly one byte to the set they hold |
| `CString.BytesetSet` | crates/mytilus-string/src/str_search.rs:31-33 | the set held grows by exactly the byte given |
| `CString.BuildByteset` | crates/mytilus-string/src/str_search.rs:105-110 | after the loop byteset_test answers membership in the string of accepted bytes, for all 256 bytes |
| `CString.SpanStops` | crates/mytilus-string/src/str_search.rs:91-117 | the span holds only bytes of the set and ends at a byte that is not one |
| `CString.CSpanStops` | crates/mytilus-string/src/str_search.rs:126-147 | the complementary span holds none and ends at one |
| `CString.Strspn` | crates/mytilus-string/src/str_search.rs:91-117 | empty, one-byte and byteset paths alike return the length of the longest prefix of bytes in the set |
| `CString.Strcspn` | crates/mytilus-string/src/str_search.rs:126-147 | all paths return the length of the longest prefix of bytes not in the set |
| `CString.Strpbrk` | crates/mytilus-string/src/str_search.rs:155-167 | the first byte of the string that is in the set; NULL exactly when none is |
| `CString.Strstr` | crates/mytilus-string/src/str_search.rs:56-79 | the first occurrence of the needle; NULL exactly when there is none; an empty needle occurs at the start |
| `Tokens.SplitJoin` | crates/mytilus-string/src/str_search.rs:182-199 | parts contain no separator, there is one more of them than separators, and joining them gives the string back |
| `Tokens.SplitUnique` | crates/mytilus-string/src/str_search.rs:182-199 | there is only one way to split a string at its separators |
| `Tokens.SkipLeading` | crates/mytilus-string/src/str_search.rs:221-222 | skipping leading separators only drops empty parts |
| `Tokens.Strsep` | crates/mytilus-string/src/str_search.rs:182-199 | buffer, caller's pointer and result change as StrsepStep says; with NULL in the caller's pointer the result is NULL and nothing is written |
| `Tokens.StrtokR` | crates/mytilus-string/src/str_search.rs:207-236 | buffer, save pointer and result change as StrtokStep says; without string and save pointer the result is NULL and nothing is written |
| `Tokens.StrtokState.Strtok` | crates/mytilus-string/src/str_search.rs:253-263 | through its static slot strtok does exactly what strtok_r does with a save pointer |
| `Tokens.FirstCall` | crates/mytilus-string/src/str_search.rs:214-219 | a call that passes a string equals one that finds it in the save pointer |
| `Tokens.StrsepProgress` | crates/mytilus-string/src/str_search.rs:188-197 | each call leaves less to scan, and a terminated string behind the token |
| `Tokens.StrsepSplits` | crates/mytilus-string/src/str_search.rs:182-199 | calling strsep until NULL yields the full split in order, and turns exactly the separators of the string into NUL, changing no other byte |
| `Tokens.StrsepRoundTrip` | crates/mytilus-string/src/str_search.rs:182-199 | k separators give k + 1 tokens, and the tokens as they stand in the buffer, rejoined with the overwritten bytes, are the original string |
| `Tokens.StrsepExhausted` | crates/mytilus-string/src/str_search.rs:186-197 | any number of calls of strsep return the tokens of the run in order and then NULL every time, writing nothing more |
| `Tokens.StrtokProgress` | crates/mytilus-string/src/str_search.rs:220-235 | each token leaves less to scan; NULL clears the save pointer and writes nothing |
| `Tokens.StrtokSplits` | crates/mytilus-string/src/str_search.rs:207-236 | calling strtok_r until NULL yields the tokens of strsep without the empty ones, and changes nothing but separators into NUL |
| `Tokens.StrtokFindsRuns` | crates/mytilus-string/src/str_search.rs:207-236 | those tokens are, in order and with none missing, the maximal non-empty runs of the string without separators, at their places in the buffer |
| `Tokens.StrtokExhausted` | crates/mytilus-string/src/str_search.rs:214-225 | any number of calls of strtok_r return the tokens of the run in order and then NULL every time, writing nothing more |
| `Compare.Strcmp` | crates/mytilus-string/src/str_fns.rs:184-198 | the difference, as numbers, of the bytes at the first place where the strings with their NULs differ, 0 for equal strings |
| `Compare.Strncmp` | crates/mytilus-string/src/str_fns.rs:205-222 | the same value on the prefixes of at most n bytes |
| `Compare.DifferenceIs` | crates/mytilus-string/src/str_fns.rs:184-198 | the value depends on the first unequal bytes alone, and is their difference, for all byte strings |
| `Compare.PrefixBytes` | crates/mytilus-string/src/str_fns.rs:205-222 | the prefix is the bytes before the first NUL or the n-th byte, whichever comes first, also of an unterminated buffer |
| `Compare.PrefixIs` | crates/mytilus-string/src/str_fns.rs:205-222 | of a terminated string the n-byte prefix may be read, and is its first n bytes or all of it |
| `Compare.DifferenceAntisymmetric` | crates/mytilus-string/src/str_fns.rs:184-198 | exchanging the strings negates the value |
| `Compare.DifferenceZero` | crates/mytilus-string/src/str_fns.rs:184-198 | 0 if and only if the strings are equal |
| `Compare.DifferenceTransitive` | crates/mytilus-string/src/str_fns.rs:184-198 | the order is transitive |
| `Compare.ToLowerValue` | crates/mytilus-locale/src/ctype.rs:62-143 | the wrapped range test accepts exactly A to Z, and setting bit 5 maps those to a to z |
| `Compare.Strcasecmp` | crates/mytilus-string/src/str_search.rs:274-292 | the exact value of strcmp on both strings in lower case |
| `Compare.Strncasecmp` | crates/mytilus-string/src/str_search.rs:300-317 | the same on the prefixes of at most n bytes |
| `Compare.CaselessPreorder` | crates/mytilus-string/src/str_search.rs:274-317 | ignoring case is a total preorder whose ties are exactly the strings equal in lower case |

## How the parts fit together

Machine words are natural numbers, and every wrap-around, truncation and mask of the source is written out. Pointers
are indices into one array per object; a NULL pointer is a constructor of its own. The methods with loops and updates
keep the source's form and are proved against functions; the lemmas in the table are about those functions and about
all runs of them. What callers owe is what the source's safety comments say: terminated strings, buffers as long as
claimed, disjoint regions for `swap_bytes`, `setstate` only on buffers that `initstate` has filled.

## Left out

- System-call wrappers, startup code, setjmp, signals, and the crates that are still skeletons: no algorithm to prove anything about.
- `erand48` and `drand48`: floating point; the 48-bit step they use is modelled.
- The memory order of the spinlock, fairness and spinning time: threads interleave single accesses in one order that all of them see.
- The pointer to the lock for fork, which the source itself defers.
- RandomThreads.Linearizable: calls of initstate with less than 8 bytes return before the lock and are not part of the log; RandomFamily.RandomFamily.Initstate covers them.
- RandomFamily.RandomFamily.Random: is about one caller, with the lock free on entry; waiting for the lock is modelled in RandomThreads.
- The whole address space: addresses are unbounded and ranges do not wrap around at 2^64; loop counters may go below zero where the listing leaves the loop on an unsigned borrow.
- Speed of the assembly and its alignment directives.
- Heapsort.Sort: the comparator sees copies of the elements and cannot change the array while it is being sorted; the adapter that passes a two-argument comparator through a void pointer is not modelled.
- Tokens.StrsepSplits: the separators are the same in every call of the run and lie outside the string that is cut.
- Tokens.StrtokSplits: likewise; single calls with changing separators are covered by Tokens.StrtokR.
- Compare.Strncmp: asks for min(n, length + 1) readable bytes of both strings, as its safety comment does, although less is read when they differ early.
- `memcmp`, `strnlen`, `memchr`, `strrchr`, the copying functions, `strerror_r` and the remaining ctype predicates: single scans that would add only easy members.
- The locale variants, which forward their arguments.

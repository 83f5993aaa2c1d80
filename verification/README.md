# Verified models of the MerlionOS kernel modules

MerlionOS is a hobby kernel written in Rust. Most of it drives hardware or draws on a screen, but a number of its
modules are self-contained algorithms, codecs, ciphers and protocols. This project models the hardest of them in Dafny
and proves what they are for: round trips, refinement of a simple definition by a fast one, invariants of every run,
and, where a promise fails, exactly when it holds. `dafny verify dfyconfig.toml` checks all of it.

One Dafny module stands for one source file, with helpers beside it:

- `Lz77`: the compressor. A greedy tokeniser, the flag-block codec and the decompressor, with the round trip and the
  size bound for every byte string.
- `EditDistance`: the single-row Levenshtein loop against the recursive distance, the metric laws, edit scripts as an
  independent meaning, and the fuzzy matcher's exact answer.
- `Glob`: the two-row glob matcher and the four trimming functions against the recursive meaning of `*` and `?`.
- `Blake3`: the level-by-level merge of chunk values against the recursive tree of section 2.1 of the BLAKE3
  specification, for any compression function, with every compression recorded.
- `BuildSystem`: depth-first topological order, cycle detection, and the build of a target's dependencies.
- `Cow`: copy-on-write reference counts and the fault step, refining eager copying over every run.
- `Cluster`, `ClusterRuns`: the membership tables as an object, and runs of the protocol with crashes and messages.
- `Bpf`: the packet filter's validator, virtual machine and compiler. `Text` holds the syntax of
  numbers, words and separators.
- `Bgp`: best-path selection as the maximum under an order. `Cgroup`, `CgroupPaths`: the control-group hierarchy as a
  tree, and how paths follow it.
- `Cron`: field syntax, field bit sets and the weekday formula. `Calc`: tokeniser, evaluating parser, number format.
- `Modular`, `Primes`, `BigUint`, `Inverse`, `Rsa`: the shift-and-add and square-and-multiply loops, Fermat's little
  theorem from binomial coefficients, multi-limb integers, the signed Euclidean loop, and 64-bit RSA.
- `Polynomials`, `Columns`, `Cipher`, `Aes`: multiplication of polynomials with and without reduction, the AES column
  mixes over any bytes whose addition is its own inverse, the rounds over such bytes, and the AES-128 tables as an
  instance. `Bmp`: the bitmap writer and reader.

Each mutex-protected public function of the source is one atomic step. Code that changes things in place is a class, a
method on an array, or a method whose loop reassigns sequences; it is proved against a function of the old values, and
lemmas about that function state what the source promises.

Where a promise fails, the model keeps the code as it is:

- `BigUint::mod_pow` and the 64-bit `mod_pow` drop carries. `BigUint.ExactExactly` and `Rsa.ExactExactly` say for which
  moduli every result is right. For every larger modulus the square of half of the range comes out as zero. The 32-limb
  type of the source is the width 32 of the model, so the limit is 2^2047; the Group 14 prime lies above it.
- `build` recurses without end exactly when a cycle is reachable from the target (`BuildSystem.CollectDiverges`,
  `BuildSystem.CollectEndsExactlyOffCycles`).
- After a fork and a write by the other process, the last owner of a read-only page is refused its write
  (`Cow.LastOwnerIsStuck`); `Cow.WriteRefusedExactly` says exactly when a write is refused.
- A filter whose operand is zero (`port 0`, `host 0.0.0.0`, `tcp port 0`) accepts packets too short to hold the field;
  every other filter accepts only packets that hold it (`Bpf.PromiseKeptExactly`).
- `mod_inverse` casts its operands to signed integers. Its answers for an operand are right for every modulus below
  2^63, and its answers for a modulus are right for all residues, exactly when that number is below 2^63
  (`Inverse.RightExactly`, `Inverse.ModulusExactly`).
- `create_cgroup` compares paths as strings, so `/sys/fs/cgroup/a` and `/sys/fs/cgroup/a/` can both be active;
  `CgroupPaths.OneEachExactly` says exactly when that happens.
- `day_of_week` is wrong exactly in January and February of year 0 (`Cron.DayOfWeek`).
- A bitmap is read back at its size exactly when neither side exceeds 2^31 (`Bmp.RoundTrip`).
- `format_number` panics exactly on the least integer, and only in a build that checks for overflow
  (`Calc.FormatNumber`).
- Setting a cron value of 128 or more panics, and so does a range that ends at 255; `Cron.Fill` says exactly when.

Where code and comments disagree the model follows the code. The comment at line 408 of `src/bgp.rs` limits the
comparison of the multi-exit discriminator to one neighbour, as section 9.1.2.2 of RFC 4271 does, but the code compares
it across all of them. The comment on `levenshtein` speaks of a maximal distance for an empty string, but the code
returns the other string's length.

## Model

| member | source | states |
|---|---|---|
| Lz77.FindLongestMatch | src/compress.rs:52-77 | the result is a longest match in the window, the farthest one among equals, or none when no match has three bytes |
| Lz77.Tokenise | src/compress.rs:83-99 | the tokens cover the data and each takes a longest match where one exists |
| Lz77.GreedyUnique | src/compress.rs:83-99 | the greedy tokens of a byte string are unique |
| Lz77.EncodeTokens | src/compress.rs:116-150 | the loop over blocks of eight writes flag bytes and payloads as the recursive encoding does |
| Lz77.DecodeTokens | src/compress.rs:154-184 | the decoder loop reads blocks as the recursive decoding does, stopping at truncated input |
| Lz77.DecodeEncode | src/compress.rs:116-184 | decoding inverts encoding for every sequence of valid tokens, including a partial last block |
| Lz77.CopyBackRebuilds | src/compress.rs:202-225 | copying byte by byte from an overlapping earlier match reproduces the data |
| Lz77.ReplayGreedy | src/compress.rs:202-225 | replaying the greedy tokens from any point rebuilds the data |
| Lz77.EncodedSize | src/compress.rs:116-150 | the encoding is the payload and one flag byte per eight tokens |
| Lz77.RoundTrip | src/compress.rs:194-225 | decompression inverts compression and the output is at most an eighth longer than the input, rounded up |
| Lz77.Compress | src/compress.rs:194-197 | the output decompresses to the input and keeps the size bound |
| Lz77.Decompress | src/compress.rs:202-225 | the loop replays the decoded tokens, with no result where a reference before the start panics |
| EditDistance.FillRow | src/autocomplete.rs:212-244 | the row overwritten in place ends with the last cell of any table that satisfies the recurrence |
| EditDistance.Levenshtein | src/autocomplete.rs:212-244 | the result is the recursive edit distance of any two byte strings |
| EditDistance.Symmetric | src/autocomplete.rs:212-244 | the distance is symmetric |
| EditDistance.ZeroExactlyOnEquals | src/autocomplete.rs:212-244 | the distance is zero exactly on equal strings |
| EditDistance.Triangle | src/autocomplete.rs:212-244 | the distance satisfies the triangle inequality |
| EditDistance.ScriptOfDistance | src/autocomplete.rs:212-244 | some script of that many insertions, deletions and substitutions turns one string into the other |
| EditDistance.ScriptIsAtLeastDistance | src/autocomplete.rs:212-244 | no script of edits is shorter than the distance |
| EditDistance.SortHits | src/autocomplete.rs:262-269 | the swapping sort orders by distance and keeps the order within each distance |
| EditDistance.FuzzyMatch | src/autocomplete.rs:254-271 | the answer is the candidates at distance 1, then 2, then 3, each in input order, and no others |
| Glob.MatchesConcat | src/bash.rs:507-527 | a concatenated pattern matches exactly when the text splits between its parts |
| Glob.MatchesReversed | src/bash.rs:507-527 | a pattern matches a text exactly when the reversed pattern matches the reversed text |
| Glob.FillRows | src/bash.rs:507-527 | the two swapped rows end with the last cell of any table that satisfies the recurrence |
| Glob.SimpleGlobMatch | src/bash.rs:507-527 | the matcher answers the recursive meaning of `*` and `?` |
| Glob.RemoveShortestPrefix | src/bash.rs:467-475 | exactly the shortest matching prefix is removed, or nothing when none matches |
| Glob.RemoveLongestPrefix | src/bash.rs:477-485 | exactly the longest matching prefix is removed, or nothing when none matches |
| Glob.RemoveShortestSuffix | src/bash.rs:487-495 | exactly the shortest matching suffix is removed, or nothing when none matches |
| Glob.RemoveLongestSuffix | src/bash.rs:497-504 | exactly the longest matching suffix is removed, or nothing when none matches |
| Glob.SuffixIsReversedPrefix | src/bash.rs:467-504 | a suffix trim is the prefix trim of the reversed text by the reversed pattern, in both directions |
| Blake3.MergePairUp | src/blake3.rs:354-366 | pairing up neighbours does not change the tree that recursive halving at a power of two builds |
| Blake3.TreeIsMerge | src/blake3.rs:337-378 | the recursive tree of the data is the merge of its chunk leaves |
| Blake3.Pow2BelowUnique | src/blake3.rs:337-378 | only one power of two lies between half of a number and the number, so the left subtree is determined |
| Blake3.Compressor.ProcessChunk | src/blake3.rs:172-209 | the loop over blocks computes the chaining value of the leaf, and what it adds to the trace is the leaf's compressions in block order |
| Blake3.Compressor.MergeLevel | src/blake3.rs:354-366 | one pass replaces the values of a level by those of its pairs, with an odd one carried over, and adds one parent compression per pair to the trace |
| Blake3.PairUpCalls | src/blake3.rs:354-366 | the compressions of the subtrees of a level are those of the level below and one per new parent, as multisets |
| Blake3.Compressor.HashChunks | src/blake3.rs:337-378 | for two or more chunks the digest is that of the recursive tree, and the trace is the compressions of that tree, each once, with the root flag added to the last |
| Blake3.Hasher.PerformsOneRoot | src/blake3.rs:368-378 | a trace of a tree's compressions has the root flag in its last one and in no other |
| Blake3.Hasher.PerformsCount | src/blake3.rs:287-379 | a trace of the data's tree has one compression per block and one per pair of subtrees |
| Blake3.Compressor.Blake3Internal | src/blake3.rs:287-379 | for all data the digest is that of the recursive tree, made by the compressions of that tree, each once and as many as blocks and chunks less one, and only the last carries the root flag |
| BuildSystem.OrderDfs | src/build_system.rs:208-242 | one visit keeps the colouring and appends nodes after their dependencies off cycles |
| BuildSystem.BuildOrder | src/build_system.rs:208-242 | every target is listed once, and without cycles every registered dependency comes before its dependents |
| BuildSystem.CircularDfs | src/build_system.rs:245-292 | one visit finds a cycle or leaves a finished part that has none |
| BuildSystem.CheckCircular | src/build_system.rs:245-292 | a path is returned exactly when the graph has a cycle, its steps are edges and its last node occurs before |
| BuildSystem.TopologicalHasNoCycle | src/build_system.rs:208-242 | a graph with a topological order has no cycle |
| BuildSystem.CollectDiverges | src/build_system.rs:326-336 | when a cycle is reachable the collection ends at no depth of recursion |
| BuildSystem.CollectEndsExactlyOffCycles | src/build_system.rs:326-336 | the collection ends exactly when no cycle is reachable from the target |
| BuildSystem.SelfDependentDiverges | src/build_system.rs:313-336 | for every registered target that names itself as a dependency the collection never ends |
| BuildSystem.Collect | src/build_system.rs:326-336 | off cycles the collection ends, is closed under dependencies and holds only what is reachable |
| BuildSystem.CollectedIsReachable | src/build_system.rs:326-336 | the collected names are exactly the reachable ones |
| BuildSystem.BuildTarget | src/build_system.rs:313-362 | exactly the reachable targets that were not built are built, after their dependencies; nothing else changes |
| BuildSystem.BuildAgainChangesNothing | src/build_system.rs:313-362 | a second build of the same target builds nothing and changes no target and no tick |
| BuildSystem.BuildTargets | src/build_system.rs:365-379 | exactly the unbuilt targets are built, each once and at the tick of its place in the list, built ones keep their time, and without cycles dependencies are built first |
| BuildSystem.BuildsAllCounts | src/build_system.rs:365-379 | as many targets are built as were not built before |
| BuildSystem.AllAreBuilt | src/build_system.rs:365-379 | afterwards every target is built and those that were built before are unchanged |
| BuildSystem.Builder.RegisterTarget | src/build_system.rs:186-195 | a target is added exactly when its name is new and there is room |
| BuildSystem.Builder.Build | src/build_system.rs:313-362 | an unknown name is an error without effect; a known one builds what it reaches |
| BuildSystem.Builder.BuildAll | src/build_system.rs:365-379 | the targets and the tick change in place as for building everything, and the count returned is the number of targets that were not built |
| Cow.CowTracker.ShareFrame | src/cow.rs:30-34 | the count of the aligned frame becomes two, or one more |
| Cow.CowTracker.IsShared | src/cow.rs:37-40 | the answer is whether the count is above one |
| Cow.CowTracker.UnshareFrame | src/cow.rs:43-53 | the count falls by one and disappears at one, which the answer reports |
| Cow.ShareKeeps | src/cow.rs:30-34 | sharing a page keeps counts equal to mappings and shared frames read-only |
| Cow.FaultKeeps | src/cow.rs:91-172 | the fault step keeps the invariant and every process's view of memory |
| Cow.WriteKeeps | src/cow.rs:91-172 | a write keeps the invariant and changes the view at its own page and offset only |
| Cow.WriteRefusedExactly | src/cow.rs:91-172 | a write is refused exactly when its page is read-only and it has no other owner or no frame is free |
| Cow.StepRefinesEager | src/cow.rs:30-172 | every fork, write and exit step has the effect on views that eager copying has, and keeps the invariant |
| Cow.RunRefinesEager | src/cow.rs:30-172 | every run shows the processes what a run with eager copying shows them |
| Cow.LastOwnerIsStuck | src/cow.rs:91-172 | a reachable state in which the last owner of a read-only page is refused its write though a frame is free |
| Cluster.TouchUnique | src/cluster.rs:486-512 | updating or adding an entry keeps one entry per node id |
| Cluster.Member.Join | src/cluster.rs:162-180 | a node adds its own entry if there is none |
| Cluster.Member.Heartbeat | src/cluster.rs:226-258 | the own entry is refreshed and silent peers are marked offline |
| Cluster.Member.HandleHeartbeat | src/cluster.rs:306-337 | the sender is refreshed and online, or added |
| Cluster.Member.UpsertNode | src/cluster.rs:486-512 | the entry of an id is replaced in place, or added |
| Cluster.Member.ElectLeader | src/cluster.rs:460-471 | the leader is an online entry of largest id, and there is none exactly when nobody is online |
| ClusterRuns.StepKeepsInv | src/cluster.rs:162-512 | every step keeps one entry per id in every table and no entry later than its own node's timer |
| ClusterRuns.RunKeepsInv | src/cluster.rs:162-512 | every state of every run satisfies the invariant |
| ClusterRuns.UpStays | src/cluster.rs:226-258 | a peer that was heard from within the timeout stays online through every step |
| ClusterRuns.SilentStays | src/cluster.rs:226-337 | an expired entry stays expired or offline through every step that brings nothing of that node, and is offline after a heartbeat step |
| ClusterRuns.LongUnheardIsSilent | src/cluster.rs:226-337 | in every run, a node of which no message arrived for more than 500 ticks of the observer's timer has no fresh entry there |
| ClusterRuns.LeaderAgreement | src/cluster.rs:460-471 | when the dead have been unheard for more than 500 ticks and the live hear each other in time, both stated on the steps of the run, every live node elects the largest live id |
| ClusterRuns.LeadersAreEqual | src/cluster.rs:460-471 | any two live nodes then elect the same leader |
| Bpf.Validate | src/bpf.rs:90-133 | the loop accepts exactly the programs within the length limit whose jumps and stores stay inside, whose constant divisors are not zero and whose last instruction returns |
| Bpf.AcceptedHalts | src/bpf.rs:137-243 | an accepted program returns within as many steps as it has instructions, on every packet |
| Bpf.BpfVm.New | src/bpf.rs:90-133 | a machine is made exactly when the validator accepts its program, which it then holds |
| Bpf.BpfVm.Run | src/bpf.rs:137-243 | the verdict depends on the program and the packet only, not on earlier runs |
| Bpf.EmittedIsCorrect | src/bpf.rs:267-352 | each filter compiles to an accepted program whose verdict is the filter's predicate, with missing fields read as zero |
| Bpf.CompiledIsCorrect | src/bpf.rs:267-352 | any text that compiles gives an accepted program that decides the filter of its words |
| Bpf.ParseWords | src/bpf.rs:267-352 | parsing the words of any filter, with dotted addresses and decimal ports, gives the filter back |
| Bpf.PrintedFilterIsCorrect | src/bpf.rs:267-352 | the text of any filter, with any spaces, compiles to an accepted program that decides that filter |
| Bpf.AcceptedExactly | src/bpf.rs:137-352 | a packet is accepted exactly when its fields are inside and agree, or a field is missing and its operand is zero |
| Bpf.PromiseKeptExactly | src/bpf.rs:137-352 | a filter accepts only packets that hold its fields, for all packets, exactly when its operand is not zero |
| Bgp.MatchesComparesLeadingBits | src/bgp.rs:164-175 | a prefix matches an address exactly when their leading bits are equal |
| Bgp.PreferredIsLexicographic | src/bgp.rs:392-424 | the preference test is the lexicographic order of a six-part key |
| Bgp.PreferredIsStrictWeakOrder | src/bgp.rs:392-424 | preference is irreflexive, asymmetric and transitive, and indifference is transitive |
| Bgp.FindBest | src/bgp.rs:359-389 | the scan from the first route of a prefix finds its best route |
| Bgp.SelectBest | src/bgp.rs:359-389 | the flags end set exactly on the best routes and nothing else changes |
| Bgp.ExactlyOneBest | src/bgp.rs:359-389 | every prefix with a valid route has exactly one best route |
| Bgp.BestKeyIgnoresOrder | src/bgp.rs:359-424 | the key of the best route is the same for every permutation of the table |
| Bgp.BgpInstance.BestPathSelection | src/bgp.rs:359-389 | the table ends with exactly the best routes flagged; peers and filters are untouched |
| Bgp.BgpInstance.InstallRoute | src/bgp.rs:325-356 | a route is appended and its peer credited exactly when there is room and no filter denies it |
| Cgroup.InitialInv | src/cgroup.rs:266-273 | the state after initialisation is a tree with one group |
| Cgroup.CreatedKeepsInv | src/cgroup.rs:282-330 | creation keeps the tree, unique ids and paths, and the counters |
| Cgroup.RemovedKeepsInv | src/cgroup.rs:333-360 | removal keeps the tree, unique ids and paths, and the counters |
| Cgroup.AddedKeepsInv | src/cgroup.rs:367-389 | adding a process keeps the tree and the member count equal to the distinct members |
| Cgroup.DroppedKeepsInv | src/cgroup.rs:392-404 | removing a process keeps the tree and the member count |
| Cgroup.RunKeepsInv | src/cgroup.rs:266-404 | every run of the four operations keeps all of these |
| Cgroup.AllUnderRoot | src/cgroup.rs:689-717 | every active group lies under the root |
| CgroupPaths.RunKeepsPaths | src/cgroup.rs:282-404 | over every run the path of a group is, up to trailing slashes, that of its parent, a slash and its name |
| CgroupPaths.PathIsPrefix | src/cgroup.rs:282-330 | the path of a group is a proper prefix of the path of every group below it |
| CgroupPaths.CreatedKeepsOneEach | src/cgroup.rs:282-330 | creation makes two active groups whose paths differ by trailing slashes only exactly when there is room, the path is new, and without its slashes it is that of an active group below the root |
| CgroupPaths.OneEachExactly | src/cgroup.rs:282-404 | no state of a run has two such groups exactly when the run never creates such a path |
| CgroupPaths.BootedPaths | src/cgroup.rs:266-404 | both hold for every run that starts with the root alone |
| CgroupPaths.EveryGroupCanBeDoubled | src/cgroup.rs:282-330 | while there is room every active group below the root gets such a double when its path with one more slash is created |
| CgroupPaths.PlainPathsMakeNoTwins | src/cgroup.rs:282-404 | a run whose created paths do not end with a slash has no such groups |
| Cgroup.TreeRecursive | src/cgroup.rs:699-717 | the walk from a group lists exactly the active groups under it, each once, above before below and earlier branches first, indented by depth |
| Cgroup.CgroupTree | src/cgroup.rs:689-697 | the whole walk lists exactly the active groups, each once, in that order and indentation |
| Cgroup.Manager.CreateCgroup | src/cgroup.rs:282-330 | the vectors and counters change as the creation function says, and the invariant holds |
| Cgroup.Manager.RemoveCgroup | src/cgroup.rs:333-360 | the vectors and counters change as the removal function says, and the invariant holds |
| Cgroup.Manager.AddProcess | src/cgroup.rs:367-389 | the member list changes as the addition function says, and the invariant holds |
| Cgroup.Manager.RemoveProcess | src/cgroup.rs:392-404 | the member list changes as the removal function says, and the invariant holds |
| Cron.MatchesSet | src/cron.rs:23-43 | setting a bit adds exactly its value to the set |
| Cron.MatchesOr | src/cron.rs:23-43 | the union of two fields matches what either matches |
| Cron.Fill | src/cron.rs:81-133 | the loop sets exactly the values of a start, an end and a step, and panics exactly when one is 128 or more or the addition saturates |
| Cron.ParsePrintedItem | src/cron.rs:81-133 | reading any printed item gives the progression that the item stands for |
| Cron.ParseCronExpr | src/cron.rs:138-146 | the field is the union of the listed progressions, or the first bad token decides the error |
| Cron.PrintedFieldLists | src/cron.rs:81-146 | a printed list of items lists a value exactly when one of the items stands for it |
| Cron.FormulaCountsDays | src/cron.rs:166-175 | the weekday formula equals the number of days since the first of January of year 1, modulo seven |
| Cron.DayOfWeek | src/cron.rs:166-175 | the code computes the weekday by counting days, for every date except in January and February of year 0 |
| Cron.NextDayIsNextWeekday | src/cron.rs:166-175 | the next date is one weekday later, across months, years and leap days |
| Prelude.DivisionLaw | src/calc.rs:98-120 | quotient and remainder recombine, the remainder is smaller than the divisor and has the dividend's sign |
| Calc.DivisionOverflows | src/calc.rs:98-120 | on 64-bit operands division overflows exactly for the least integer over minus one |
| Calc.ParseFactor | src/calc.rs:122-139 | the method with a position agrees with the factor parser on what is left |
| Calc.ParseTerm | src/calc.rs:98-119 | the loop agrees with the term parser on what is left |
| Calc.ParseExpr | src/calc.rs:85-95 | the loop agrees with the expression parser on what is left |
| Calc.SentenceEvaluates | src/calc.rs:85-139 | the tokens of any derivation evaluate to its value, or to its first fault from left to right |
| Calc.EvaluatesExactlySentences | src/calc.rs:13-21 | evaluation yields a value exactly when the tokens are one sentence of the grammar with that value |
| Calc.Unambiguous | src/calc.rs:85-139 | the grammar is unambiguous: two derivations of the same tokens are equal |
| Calc.Tokenise | src/calc.rs:35-82 | the loop reads what the recursive tokeniser reads, with its errors |
| Calc.LexRendered | src/calc.rs:35-82 | tokens that alternate operands and operators are read back from their text, with any blanks |
| Calc.Eval | src/calc.rs:13-21 | the method evaluates the text as tokeniser and parser together do |
| Calc.ParenthesisedNeeded | src/calc.rs:85-139 | every pair of parentheses in the printing of an expression is needed |
| Calc.PrintedExpressionEvaluates | src/calc.rs:13-139 | the printing of any expression with the fewest parentheses and any blanks evaluates to its value or fault |
| Calc.FormatNumber | src/calc.rs:142-163 | without commas the text is the decimal, and a comma stands at every fourth place from the right and nowhere else; only the least integer panics, where overflow is checked |
| Modular.MulLoopExact | src/crypto_ext.rs:274-288 | with room for twice the modulus shift-and-add multiplies modulo it |
| Modular.PowLoopExact | src/crypto_ext.rs:259-271 | over an exact multiplication square-and-multiply is the power modulo the modulus |
| Modular.MulLoopLosesCarry | src/crypto_ext.rs:828-839 | doubling half of the range wraps to zero and loses the product |
| BigUint.Add | src/crypto_ext.rs:749-759 | the carry chain adds modulo the range |
| BigUint.Sub | src/crypto_ext.rs:762-772 | the borrow chain subtracts modulo the range |
| BigUint.Cmp | src/crypto_ext.rs:775-781 | comparing limbs from the top compares values |
| BigUint.Shl1 | src/crypto_ext.rs:784-792 | the shift doubles modulo the range and leaves an even low limb |
| BigUint.Bit | src/crypto_ext.rs:731-736 | the bit of a limb is the bit of the value, and false beyond the width |
| BigUint.BitLen | src/crypto_ext.rs:739-746 | the value is below that power of two and not below the one before |
| BigUint.ModReduce | src/crypto_ext.rs:807-824 | the loop over bits is binary long division in a remainder of the same width |
| BigUint.MulMod | src/crypto_ext.rs:828-839 | the loop is shift-and-add over that reduction |
| BigUint.ModPow | src/crypto_ext.rs:843-855 | the loop is square-and-multiply over that product, and zero for modulus zero |
| BigUint.PowerExact | src/crypto_ext.rs:843-855 | for moduli from 2 to half of the range every power is exact |
| BigUint.PowerLosesCarry | src/crypto_ext.rs:828-855 | for every larger modulus the square of half of the range comes out as zero, which it is not |
| BigUint.ExactExactly | src/crypto_ext.rs:843-855 | all powers are exact exactly when the modulus is from 2 to half of the range |
| Rsa.MulMod | src/crypto_ext.rs:274-288 | the wrapping loop is shift-and-add with one conditional subtraction |
| Rsa.ModPow | src/crypto_ext.rs:259-271 | the loop is square-and-multiply over that product |
| Rsa.PowerExact | src/crypto_ext.rs:259-288 | for every modulus up to 2^63 every power is exact |
| Rsa.ExactExactly | src/crypto_ext.rs:259-288 | all powers are exact exactly when the modulus is at most 2^63 |
| Inverse.ModInverse | src/crypto_ext.rs:300-311 | for all words the loop and the final correction compute the signed Euclidean loop, with its overflow panics or its wrapping |
| Inverse.SmallModulus | src/crypto_ext.rs:300-311 | for every modulus below 2^63 nothing overflows in either kind of build, and the answer is that of Euclid's algorithm on integers |
| Inverse.InverseExact | src/crypto_ext.rs:300-311 | for operand and modulus below 2^63 an inverse is returned exactly when they are coprime |
| Inverse.NegativeOperand | src/crypto_ext.rs:300-311 | for a negative number the loop finds exactly the inverses in the lower half of the residues |
| Inverse.LargeOperandFails | src/crypto_ext.rs:300-311 | for operands of 2^63 and above the value returned is no inverse, unless the modulus divides 2^64 |
| Inverse.RightForLarge | src/crypto_ext.rs:300-311 | for every such operand and every modulus below 2^63, exactly when the answer is right: for divisors of 2^64 if there is no inverse or one in the lower half, for other moduli if there is no inverse and none of the cast operand in the lower half |
| Inverse.RightExactly | src/crypto_ext.rs:300-311 | the answers for an operand are right for every modulus below 2^63 exactly when it is below 2^63 |
| Inverse.ModulusExactly | src/crypto_ext.rs:300-311 | the answers for a modulus are right for all its residues exactly when it is below 2^63 |
| Rsa.IsPrime | src/crypto_ext.rs:314-324 | the answer is primality for every 32-bit number |
| Rsa.RoundTrip | src/crypto_ext.rs:356-365 | for distinct primes with product at most 2^63 and inverse exponents every message comes back |
| Rsa.EncryptThenDecrypt | src/crypto_ext.rs:300-365 | the private exponent is an inverse exactly for public exponents below 2^63 and, if the totient divides 2^64, for those with an inverse in the lower half; every message then comes back |
| Rsa.TableIsPrime | src/crypto_ext.rs:327-336 | every entry of the table is prime |
| Rsa.GenerateKeypair | src/crypto_ext.rs:339-353 | the key has two distinct primes, the exponent 65537 and its inverse modulo the totient, and returns every message below its modulus |
| Aes.InvSboxOfSbox | src/crypto_ext.rs:15-51 | the second table inverts the first |
| Aes.SboxOfInvSbox | src/crypto_ext.rs:15-51 | the first table inverts the second |
| Aes.SboxIsAffineOfInverse | src/crypto_ext.rs:15-32 | the table holds the affine image of the field inverse, as in section 5.1.1 of FIPS 197 |
| Polynomials.ProductLeaves | src/crypto_ext.rs:128-142 | for any division with remainder, shift-and-add that reduces at every step gives the remainder of the unreduced product |
| Aes.Gmul | src/crypto_ext.rs:128-142 | the eight steps give the remainder of the product of the two polynomials over GF(2) by the AES polynomial |
| Aes.OneRemainder | src/crypto_ext.rs:128-142 | that remainder is unique |
| Aes.MulOf | src/crypto_ext.rs:128-164 | the products by 2, 3, 9, 11, 13 and 14 are sums of repeated doublings |
| Aes.BytesLaws | src/crypto_ext.rs:128-164 | bytes under exclusive or, doubling and these products satisfy the laws of the column mixes |
| Aes.RconDoubles | src/crypto_ext.rs:54 | the round constants are the powers of x |
| Columns.UnmixOfMix | src/crypto_ext.rs:144-164 | the inverse mix of a mixed column gives back its bytes |
| Cipher.ShiftedBack | src/crypto_ext.rs:103-125 | the row shifts undo each other |
| Cipher.MixedBack | src/crypto_ext.rs:144-164 | the column mixes undo each other on the whole state |
| Cipher.SubBytes | src/crypto_ext.rs:91-101 | in place, every byte is replaced by its image |
| Cipher.ShiftRows | src/crypto_ext.rs:103-113 | in place, row r rotates left by r |
| Cipher.InvShiftRows | src/crypto_ext.rs:115-125 | in place, row r rotates right by r |
| Cipher.MixColumns | src/crypto_ext.rs:144-153 | in place, every column is mixed |
| Cipher.InvMixColumns | src/crypto_ext.rs:155-164 | in place, every column is unmixed |
| Cipher.AddRoundKey | src/crypto_ext.rs:166-170 | in place, the round key is added |
| Cipher.KeyExpansion | src/crypto_ext.rs:68-89 | the loops compute the eleven round keys of the schedule |
| Cipher.RoundKeyInjective | src/crypto_ext.rs:68-89 | every round key determines the key |
| Cipher.RoundsBack | src/crypto_ext.rs:173-206 | the decryption rounds cancel the encryption rounds one by one |
| Cipher.DecryptedBack | src/crypto_ext.rs:173-206 | with any round keys decryption inverts encryption |
| Cipher.EncryptBlock | src/crypto_ext.rs:173-188 | the in-place steps compute the rounds of encryption |
| Cipher.DecryptBlock | src/crypto_ext.rs:191-206 | the in-place steps compute the rounds of decryption |
| Aes.Encrypt | src/crypto_ext.rs:173-188 | the block function is the ten-round encryption with the AES tables |
| Aes.Decrypt | src/crypto_ext.rs:191-206 | the block function is the ten-round decryption with the AES tables |
| Aes.RoundTrip | src/crypto_ext.rs:173-206 | decrypting an encrypted block gives it back, for every block and key |
| Aes.LastRoundKeyDetermines | src/crypto_ext.rs:68-89 | keys with the same last round key are equal |
| Bmp.WriteHeader | src/bmp.rs:257-270 | for every 32-bit size the header fields of a 24-bit bottom-up file are written |
| Bmp.CreateBmp | src/bmp.rs:250-290 | for every 32-bit size the file has that header, and every pixel's 24 bits at its place |
| Bmp.ParseBmp | src/bmp.rs:130-199 | the errors are found in order, and otherwise every pixel is read from its place in its row order |
| Bmp.RoundTrip | src/bmp.rs:130-290 | a written file gives back its size exactly when neither side exceeds 2^31, and then every pixel cut to 24 bits, upside down when the height is 2^31 |

## Left out

- Hardware, boot, display, shell, agent and workflow modules: they are input and output or tables of words.
- `acl`, `capability`, `container`, `bridge`, `bonding`, `alloc_track`, `coreutils`, `completion`: they would only add easy members.
- The wire format of cluster messages: a message is a value, and the network is the set of all messages sent, any of which may arrive at any time and more than once.
- Cipher.MixColumns: takes the constant products as functions; `Aes.Gmul` shows that the loop of the source computes them.
- Cipher.ExpandOnce: models the two small buffers of one round key as sequences.
- BigUint.Add: models limb arrays as sequences, since every operation of the source returns a new value.
- BigUint conversions from and to bytes, `shr1`, the Diffie-Hellman functions, whose modulus is above the exact range, and `extended_gcd`, which has no caller.
- The certificate parser, the random generator, and the ECB, CBC and CTR modes: only the AES block functions are modelled.
- BLAKE3's compression function: it is a parameter, so keyed and derived hashing differ only by key and flags; 64-bit counters are unbounded.
- Cow.HandleFault: takes the page-table calls as one remap that succeeds, the frame allocator as a parameter, and counts without 32-bit overflow.
- Cgroup controllers for memory, processor time and input and output, and the setter of the process limit.
- Build sources, commands, `remove_target`, `clean` and the configuration text; the clock is a counter.
- The BGP session state machine, message codec and communities.
- Cron.ParseCronExpr: fields above 127 panic in the source and are modelled as that outcome; `parse_schedule` and the job table only combine the fields.
- Bash arithmetic expressions, `int_pow`, parameter expansion and command substitution; text is a sequence of single-byte characters.
- Bmp.CreateBmp: byte offsets in memory are unbounded.
- The compression ratio, which is floating point, and counters that are only statistics.

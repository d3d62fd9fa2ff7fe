# Verified models of the stubprofile core

This project models the parts of stubprofile, and of the Dyninst code it carries, whose
correctness rests on an argument that spans many steps. Each part is a model in Dafny of
what the code does, with its branches, edge cases and constants, and proofs of what the
code is for.

| files | what they model |
|---|---|
| `Basics` | definitions the others share |
| `McsLock`, `PfqLock`, `PfqTheorems`, `PfqProgress`, `PfqHazard`, `PfqExact` | the MCS queue lock and the phase-fair reader-writer lock built on it, as state machines over any number of threads |
| `IbsTree`, `IbsMarks`, `IbsInsert`, `IbsBalance`, `IbsSuccessor`, `IbsCells`, `IbsObject` | the interval binary search tree, first on values and then as linked cells changed in place |
| `IbsFast` | the two-part interval index over that tree |
| `DecodeWords`, `DecodeTable`, `DecodeGenerator`, `DecodeLookup` | the generator of the AArch64 decoder table and the decoder that walks the table |
| `Sha1Spec`, `Sha1Laws`, `Sha1Vector`, `Sha1Block`, `Sha1Context`, `Sha1File` | SHA-1 with its in-place schedule, against RFC 3174 |
| `Fraction` | the saturating fraction multiply |
| `PtraceBulk` | word-by-word transfer to and from a traced process |
| `FuncMap` | the function map and its cache file |

`dafny verify dfyconfig.toml` covers the whole project.

Properties of the code that turned out false are stated with the exact condition under
which they hold:

- The phase-fair lock excludes readers from a writer only under a timing premise: when a
  writer stores `last` (dyninstT/common/pfq-rwlock.C:146), no reader may be stalled between
  its exit ticket (line 96) and the comparison (line 102) with a ticket equal to the stored
  value. `PfqHazard.ExclusionFailsWithoutPremise` builds a run of two threads that breaks
  exclusion. `PfqExact.UntimelyIffExclusionBreaks` shows that the premise is exact for any
  number of threads: a step breaks it if and only if a run from there puts a writer and a
  reader in the lock together.
- The two-part index drops a zero-length interval at the high end of another listed entry
  (`IbsFast.InsertLosesIff`, `IbsFast.PointAtEndIsLost`). It never finds a listed zero-length
  interval (`IbsFast.FoundAtSound`, `IbsFast.ListedPointIsNotFound`), and a zero-length query
  misses a listed entry that starts at its point (`IbsFast.FoundInSound`,
  `IbsFast.PointAtStartIsNotFound`). Inserting a listed interval again can put it into both
  parts (`IbsFast.InsertedOnePart`, `IbsFast.ReinsertionDoubles`). When something in the tree
  answers a query, the listed part is not asked (`IbsFast.FoundAtExact`,
  `IbsFast.FoundInExact`, `IbsFast.ListedIsMissed`).
- Of several AArch64 aliases at one leaf only the one with the fewest fixed bits, the first
  of equals, is ever returned; index 0, which the array gives to INVALID, is also what a word
  without a branch gets (`DecodeLookup.ReturnedIff`, `DecodeLookup.DecodedIffFirst`,
  `DecodeLookup.ShadowedIsNeverDecoded`, `DecodeLookup.AliasIsNeverDecoded`). A decoded word
  need not match its instruction: it does exactly when the decoder looks at every bit the
  instruction fixes, and at a leaf of several instructions it looks at exactly the bits that
  all of them fix (`DecodeLookup.LeafMatchesIff`, `DecodeLookup.SharedLeafMatchesIff`,
  `DecodeLookup.MismatchIsDecoded`).
- The interim overflow that `multReturnInt64` is meant to avoid still occurs, and the result
  is then wrong. `Fraction.MultExact` says for which multiplicands it is right; once the
  overflow points fit, it is right for all exactly when the denominator less one times the
  numerator fits (`Fraction.AllServedIff`, `Fraction.InterimOverflowRemains`). The temporary
  fraction at line 67 can overflow even then (`Fraction.TemporaryOverflows`).
- The function cache gives back the names it was written from exactly when every name is a
  line of at most 255 characters, the last has at least one and at most 254, and a name of 255
  comes after an empty name or right before it; without an empty name, exactly when there are
  names and each is a line of at most 254 characters (`FuncMap.CacheRoundTripIff`,
  `FuncMap.FullNameGainsEmpty`, `FuncMap.EmptyNameOutOfBounds`).

Where code and documentation disagree the model follows the code: `getFunctionID` returns
`UINT_MAX` for an unknown name (tools/funcmap.cc:280) while the header says `UINT16_MAX`
(tools/funcmap.h:73).

## Model

| member | source | states |
|---|---|---|
| `McsLock.StepInv` | dyninstT/common/mcs-lock.C:35-147 | every step of lock, trylock and unlock by any thread keeps the queue invariant |
| `McsLock.StepArrivals` | dyninstT/common/mcs-lock.C:52-68 | the arrival order grows by the thread at its tail exchange or successful trylock and changes at no other step |
| `McsLock.StepHistories` | dyninstT/common/mcs-lock.C:52-145 | the order of grants stays a prefix of the order of arrivals at every step |
| `McsLock.RunInv` | dyninstT/common/mcs-lock.C:35-147 | the invariant holds in every state of every run |
| `McsLock.MutualExclusion` | dyninstT/common/mcs-lock.C:35-147 | in every reachable state at most one thread owns the lock |
| `McsLock.FirstComeFirstServed` | dyninstT/common/mcs-lock.C:52-145 | in every reachable state the lock has been granted in the order of the tail exchanges |
| `McsLock.TailNilIffFree` | dyninstT/common/mcs-lock.C:52-136 | the tail is nil exactly when no thread is between its exchange and its release |
| `McsLock.TryLockIffFree` | dyninstT/common/mcs-lock.C:81-106 | trylock acquires exactly when nobody holds or waits, and otherwise leaves the lock as it was |
| `McsLock.TryLockReturns` | dyninstT/common/mcs-lock.C:81-106 | a thread that begins a trylock has returned after its next step, with the lock exactly when the tail was nil at that step, and never waits |
| `McsLock.CallsMoveOn` | dyninstT/common/mcs-lock.C:35-147 | lock returns only with the lock held and unlock only without it; every step of a thread inside moves it on, and unlock signals at once exactly when a successor is linked |
| `McsLock.HeldUpIff` | dyninstT/common/mcs-lock.C:76-142 | a thread has a step to take exactly when it does not spin on its blocked flag or on a missing link |
| `McsLock.RankNeverGrows` | dyninstT/common/mcs-lock.C:57-145 | the work ahead of a waiting thread never grows and shrinks with every step at or before its place |
| `McsLock.SomeoneCanStep` | dyninstT/common/mcs-lock.C:68-145 | while a thread waits, some thread at or before its place has a step to take, so no link or signal is missed |
| `McsLock.WaitIsBounded` | dyninstT/common/mcs-lock.C:57-145 | over a run, while a thread waits the threads at or before its place take at most as many steps as its rank says |
| `McsLock.RankAtMost` | dyninstT/common/mcs-lock.C:57-145 | the rank is at most eight steps for each thread up to the place |
| `PfqLock.PackFaithful` | dyninstT/common/pfq-rwlock.C:84-159 | packed registers are equal exactly when count, presence bit and phase bit are, so integer comparison of tickets compares the three parts |
| `PfqLock.StepInv` | dyninstT/common/pfq-rwlock.C:80-204 | every timely step of every reader and writer keeps the invariant that ties registers, tickets, flags and the MCS queue together |
| `PfqTheorems.RunInv` | dyninstT/common/pfq-rwlock.C:80-204 | the invariant holds in every state of every timely run |
| `PfqTheorems.MutualExclusion` | dyninstT/common/pfq-rwlock.C:80-204 | in every reachable state a thread in the writer's critical section is alone in the lock |
| `PfqTheorems.NoLostWakeUp` | dyninstT/common/pfq-rwlock.C:93-160 | while a writer waits with its flag set, a reader it counted is still inside, or the reader with the last ticket is about to clear the flag |
| `PfqTheorems.LastTicketIffLastReader` | dyninstT/common/pfq-rwlock.C:96-146 | a departing reader draws the stored ticket exactly when it is the last one the writer counted |
| `PfqTheorems.OneSignaller` | dyninstT/common/pfq-rwlock.C:96-103 | at most one thread holds the ticket the waiting writer stored |
| `PfqTheorems.NoStrayWakeUp` | dyninstT/common/pfq-rwlock.C:102-103 | a reader clears a writer's flag only when all readers that writer counted have left |
| `PfqTheorems.WakeNeverHeldUp` | dyninstT/common/pfq-rwlock.C:102-103 | a reader that reaches line 103 always finds a writer at whead, and that writer holds the MCS lock |
| `PfqTheorems.StaleSignalIffUntimely` | dyninstT/common/pfq-rwlock.C:96-146 | a step leaves a reader whose signal nobody waits for if and only if it breaks the timing premise; what that means for exclusion is PfqExact |
| `PfqTheorems.ReaderWaitsForAtMostOneWriter` | dyninstT/common/pfq-rwlock.C:84-198 | however long a reader waits, at most one writer enters meanwhile |
| `PfqTheorems.FlagStaysDown` | dyninstT/common/pfq-rwlock.C:86-198 | while a reader spins on a flag that has dropped, no step of any thread raises it |
| `PfqTheorems.FlagStaysDownUntilGone` | dyninstT/common/pfq-rwlock.C:84-198 | over a run, the flag a reader waited on, once dropped, stays down until that reader has left the lock |
| `PfqTheorems.LateReaderSpins` | dyninstT/common/pfq-rwlock.C:84-141 | a reader that arrives while a writer is announced has to wait for that writer's flag |
| `PfqTheorems.LateReaderReadsAfterWriter` | dyninstT/common/pfq-rwlock.C:84-198 | a reader that arrives after a writer's announcement reads only after that writer has written |
| `PfqProgress.HeldUpIff` | dyninstT/common/pfq-rwlock.C:80-204 | a thread has a step to take exactly when it does not spin; a thread outside can always arrive as a reader and as a writer |
| `PfqProgress.StepCountsDown` | dyninstT/common/pfq-rwlock.C:80-204 | every step a thread takes inside leaves it fewer own steps to go, and no step of another thread leaves it more |
| `PfqProgress.LeftAtMost` | dyninstT/common/pfq-rwlock.C:80-204 | a reader with its exit ticket has at most three own steps to go, a reader five, any thread 22, and none exactly outside |
| `PfqProgress.OwnStepsBounded` | dyninstT/common/pfq-rwlock.C:80-204 | over a run, while a thread stays inside, it takes no more own steps than it had to go at the start |
| `PfqProgress.NoDeadlock` | dyninstT/common/pfq-rwlock.C:80-204 | whenever a thread is held up, some thread inside a call or critical section has a step to take, and the step brings it nearer to the outside |
| `PfqProgress.SomeoneMovesOn` | dyninstT/common/pfq-rwlock.C:80-204 | as long as a thread is inside, some thread inside has a step to take that meets the timing premise |
| `PfqProgress.LockEmpties` | dyninstT/common/pfq-rwlock.C:80-204 | once no thread calls any more, at most 22 steps for each thread are left in any order, and a next step exists exactly until the lock is empty |
| `PfqHazard.ExclusionFailsWithoutPremise` | dyninstT/common/pfq-rwlock.C:94-204 | from any initial state of two threads a run without the premise puts a writer and a reader in the lock together |
| `PfqExact.UntimelyIffExclusionBreaks` | dyninstT/common/pfq-rwlock.C:80-204 | with any number of threads, a step breaks the timing premise if and only if some run of timely steps from there puts a writer and a reader in the lock together |
| `PfqExact.FirstUntimelyStepBreaks` | dyninstT/common/pfq-rwlock.C:80-204 | in every run, exclusion holds up to the first untimely step, and that step is exactly one from which exclusion can be broken |
| `IbsMarks.RightRotateKeeps` | dyninstT/common/IBSTree.h:319-384 | a right rotation keeps search order and mark soundness, adds no mark, loses no answer and keeps each interval's mark at its own low end |
| `IbsMarks.LeftRotateKeeps` | dyninstT/common/IBSTree.h:386-442 | the same for a left rotation |
| `IbsMarks.FixupKeeps` | dyninstT/common/IBSTree.h:626-669 | the whole climb of insertFixup keeps the same, including what addRight still has to mark |
| `IbsInsert.InsertFaithful` | dyninstT/common/IBSTree.h:783-805 | both half-insertions with a rebalancing after each add exactly the new interval to the live ones |
| `IbsInsert.RemoveFaithful` | dyninstT/common/IBSTree.h:744-834 | removal takes away exactly the given interval although it visits only part of the tree |
| `IbsInsert.StabExact` | dyninstT/common/IBSTree.h:690-706 | the stabbing query returns exactly the live intervals that cover the point |
| `IbsInsert.OverlappingExact` | dyninstT/common/IBSTree.h:718-742 | the interval query returns exactly the live intervals that share a point with the given one |
| `IbsInsert.RotationKeepsAnswers` | dyninstT/common/IBSTree.h:319-442 | a rotation anywhere leaves the tree faithful to the same intervals and every stabbing answer unchanged |
| `IbsBalance.FixupRb` | dyninstT/common/IBSTree.h:626-669 | insertFixup turns a tree whose only flaw is a red node below a red parent into a red-black tree |
| `IbsBalance.InsertRb` | dyninstT/common/IBSTree.h:783-805 | insertion keeps the red-black invariant and a black root |
| `IbsBalance.HeightBound` | dyninstT/common/IBSTree.h:626-669 | two to the height is at most the square of the number of stored endpoints plus one |
| `IbsBalance.InsertKeys` | dyninstT/common/IBSTree.h:444-592 | insertion stores the two endpoints and no other value, and loses none |
| `IbsBalance.HistoryAnswers` | dyninstT/common/IBSTree.h:690-834 | after any insertions and removals both queries answer as a filter over the live intervals does, and the tree is balanced |
| `IbsBalance.HistoryKeys` | dyninstT/common/IBSTree.h:744-834 | the stored endpoints are those of all intervals ever inserted |
| `IbsSuccessor.NextExact` | dyninstT/common/IBSTree.h:864-911 | the explicit-stack walk finds exactly the live intervals whose low end is the least live one beyond the point |
| `IbsSuccessor.FirstExact` | dyninstT/common/IBSTree.h:864-911 | the first node beyond the point holds exactly the live intervals whose low end is the least stored value beyond it |
| `IbsObject.IntervalTree.constructor` | dyninstT/common/IBSTree.h:256-264 | a new tree is valid and holds nothing |
| `IbsObject.IntervalTree.RightRotate` | dyninstT/common/IBSTree.h:319-384 | linked cells change as the right rotation of the tree does, parent links included, and nothing else changes |
| `IbsObject.IntervalTree.LeftRotate` | dyninstT/common/IBSTree.h:386-442 | the same for the left rotation |
| `IbsObject.IntervalTree.RightUp` | dyninstT/common/IBSTree.h:598-608 | the climb over parent links returns the upper bound of the cell's subtree |
| `IbsObject.IntervalTree.LeftUp` | dyninstT/common/IBSTree.h:612-623 | the climb over parent links returns the lower bound of the cell's subtree |
| `IbsObject.IntervalTree.AddLeft` | dyninstT/common/IBSTree.h:444-513 | the walk to the low endpoint marks and creates cells as the half-insertion on trees does |
| `IbsObject.IntervalTree.AddRight` | dyninstT/common/IBSTree.h:515-592 | the walk to the high endpoint marks and creates cells as the half-insertion on trees does |
| `IbsObject.IntervalTree.InsertFixup` | dyninstT/common/IBSTree.h:626-669 | the climb with recolouring and rotations on linked cells computes the fixup on trees |
| `IbsObject.IntervalTree.Insert` | dyninstT/common/IBSTree.h:783-805 | afterwards the tree is valid and exactly the old intervals and the new one are live |
| `IbsObject.IntervalTree.Remove` | dyninstT/common/IBSTree.h:744-834 | afterwards the tree is valid and exactly the other intervals are live |
| `IbsObject.IntervalTree.Find` | dyninstT/common/IBSTree.h:690-848 | adds exactly the live intervals that cover the point and returns how many were new |
| `IbsObject.IntervalTree.FindOverlapping` | dyninstT/common/IBSTree.h:718-862 | adds exactly the live intervals that share a point with the given one and returns how many were new |
| `IbsObject.IntervalTree.Successor` | dyninstT/common/IBSTree.h:864-911 | from an empty set adds exactly the live intervals with the least live low end beyond the point; from any other set, those whose low end is the least stored value beyond it |
| `IbsFast.InsertedInv` | dyninstT/common/IBSTree-fast.h:111-147 | insertion of any interval, also of length zero, keeps the listed part pairwise disjoint and ordered by both ends with no high end taken twice |
| `IbsFast.InsertedLive` | dyninstT/common/IBSTree-fast.h:111-147 | insertion of any interval makes exactly it live, whichever part entries move to, or changes nothing in the one case where it is dropped |
| `IbsFast.InsertedExact` | dyninstT/common/IBSTree-fast.h:111-147 | insertion part by part, for every interval: the tree gains the new one when it meets something there or listed entries move, and every listed entry that starts by its high end and ends beyond its low end moves; the list loses those and gains the new one when nothing is met or moved and it is not dropped |
| `IbsFast.ApartDetermined` | dyninstT/common/IBSTree-fast.h:60-64 | a disjoint ordered list is determined by its entries |
| `IbsFast.WholeRunMoves` | dyninstT/common/IBSTree-fast.h:127-138 | with [10, 20) and [30, 40) listed, inserting [5, 35) moves both, and find(32) returns the two that cover 32 |
| `IbsFast.InsertedOnePart` | dyninstT/common/IBSTree-fast.h:111-147 | insertion keeps every live interval in exactly one part unless the interval is listed already and meets something in the tree, or has length zero at the start of another listed entry |
| `IbsFast.ReinsertionDoubles` | dyninstT/common/IBSTree-fast.h:111-147 | a listed interval inserted again beside a tree interval that meets it is in both parts |
| `IbsFast.RemovedLive` | dyninstT/common/IBSTree-fast.h:149-158 | removal takes exactly the given interval out of any index and keeps the invariants |
| `IbsFast.FoundAtSound` | dyninstT/common/IBSTree-fast.h:160-180 | find at a point returns only live covering intervals, and some exactly when one is in the tree or is not of length zero |
| `IbsFast.FoundAtExact` | dyninstT/common/IBSTree-fast.h:160-180 | find at a point returns all live covering intervals exactly when each of them that is only listed has points of its own and nothing in the tree covers the point |
| `IbsFast.FoundAtFromExact` | dyninstT/common/IBSTree-fast.h:160-180 | find at a point, on any result set, adds what in the tree covers the point, and what is listed there and goes on beyond it exactly when the tree added nothing |
| `IbsFast.ListedIsMissed` | dyninstT/common/IBSTree-fast.h:160-180 | inserting [18, 35) beside [15, 20) in the tree leaves [30, 40) listed, and find(32) misses it |
| `IbsFast.ListedPointIsNotFound` | dyninstT/common/IBSTree-fast.h:160-180 | [5, 5] is listed in an empty index and find(5) returns nothing |
| `IbsFast.FoundInSound` | dyninstT/common/IBSTree-fast.h:182-198 | find of any interval returns only live overlapping intervals, and some exactly when one is in the tree, starts elsewhere than the query, or has length like the query |
| `IbsFast.FoundInExact` | dyninstT/common/IBSTree-fast.h:182-198 | find of an interval returns all live overlapping intervals exactly when each of them that is only listed does not merely share the start of the query and nothing in the tree overlaps it |
| `IbsFast.FoundInFromExact` | dyninstT/common/IBSTree-fast.h:182-198 | find of an interval, on any result set, adds what in the tree overlaps it, and what is listed, starts before its end and ends beyond its start exactly when the tree added nothing |
| `IbsFast.PointAtStartIsNotFound` | dyninstT/common/IBSTree-fast.h:182-198 | with [10, 20) listed, find of the point interval at 10 returns nothing |
| `IbsFast.IndexHistory` | dyninstT/common/IBSTree-fast.h:111-158 | after any insertions and removals the listed part is disjoint and ordered, and the live intervals are those a plain set would hold less exactly those whose last insertion was dropped |
| `IbsFast.HistoryOnePart` | dyninstT/common/IBSTree-fast.h:111-158 | after any history that inserts no interval twice every live interval is in exactly one part |
| `IbsFast.InsertLosesIff` | dyninstT/common/IBSTree-fast.h:111-147 | insertion of any interval into any index makes it live unless it has length zero at the high end of another listed entry, meets nothing in the tree, and no listed entry goes on beyond it |
| `IbsFast.PointAtEndIsLost` | dyninstT/common/IBSTree-fast.h:111-147 | after [10, 20) the point interval at 20 is dropped |
| `IbsFast.FastIndex.Insert` | dyninstT/common/IBSTree-fast.h:111-147 | the in-place insertion computes the specified index |
| `IbsFast.FastIndex.InsertProper` | dyninstT/common/IBSTree-fast.h:111-147 | insertion of any interval keeps the invariant and makes exactly it live unless it is dropped, keeps one part each exactly outside the doubling case, and takes from the list exactly the entries that move |
| `IbsFast.FastIndex.Remove` | dyninstT/common/IBSTree-fast.h:149-158 | the in-place removal computes the specified index and takes exactly the interval out |
| `IbsFast.FastIndex.Find` | dyninstT/common/IBSTree-fast.h:160-180 | what is specified from any result set; only live intervals that cover the point are added, and the number of new ones is returned |
| `IbsFast.FastIndex.FindOverlapping` | dyninstT/common/IBSTree-fast.h:182-198 | what is specified from any result set, and the number of new ones |
| `DecodeWords.ClapseMask` | dyninst/instructionAPI/aarch64_manual_parser.py:421-428 | the shifting loop collects the masked bits, most significant first |
| `DecodeWords.KeyEqualIffAgree` | dyninst/instructionAPI/aarch64_manual_parser.py:421-428 | two words have the same key under a mask exactly when they agree on its bits |
| `DecodeWords.KeyIsBinary` | dyninst/instructionAPI/aarch64_manual_parser.py:421-428 | a key is the binary number of the masked bits in their order |
| `DecodeWords.CollapseBound` | dyninst/instructionAPI/aarch64_manual_parser.py:421-428 | a key is below two to the number of mask bits |
| `DecodeWords.BranchMapKey` | dyninst/instructionAPI/src/InstructionDecoder-aarch64.C:3065-3074 | the decoder's loop from the least significant end gives the generator's key |
| `DecodeWords.Num1sInMask` | dyninst/instructionAPI/aarch64_manual_parser.py:458-465 | counts the set bits |
| `DecodeWords.OnesCounts` | dyninst/instructionAPI/aarch64_manual_parser.py:458-465 | the number of set bits is the size of the set of their positions |
| `DecodeTable.LeafBuilt` | dyninst/instructionAPI/aarch64_manual_parser.py:540-581 | a leaf serves its instructions: the walk reaches it, and it names the member with the fewest fixed bits, the first of equals |
| `DecodeTable.DecisionBuilt` | dyninst/instructionAPI/aarch64_manual_parser.py:634-686 | a decision on exactly the unprocessed bits that its instructions all fix, whose branches have all been built, serves all its instructions, fills its slots and gives each one parent |
| `DecodeGenerator.ValidMaskBits` | dyninst/instructionAPI/aarch64_manual_parser.py:555-563 | the mask holds exactly the unprocessed bits that every listed instruction fixes |
| `DecodeGenerator.CurrentMask` | dyninst/instructionAPI/aarch64_manual_parser.py:604-618 | the bit-by-bit loop rebuilds the mask and counts its bits |
| `DecodeGenerator.IndexLists` | dyninst/instructionAPI/aarch64_manual_parser.py:636-645 | every instruction lands once, in the list of its key |
| `DecodeGenerator.ValidLists` | dyninst/instructionAPI/aarch64_manual_parser.py:636-658 | the non-empty lists in ascending key order partition the instructions |
| `DecodeGenerator.FewestFixedBits` | dyninst/instructionAPI/aarch64_manual_parser.py:467-503 | the head of the stable sort: the first of the instructions with the fewest fixed bits |
| `DecodeGenerator.Generator.constructor` | dyninst/instructionAPI/aarch64_manual_parser.py:482-493 | an empty table with slot 0 reserved |
| `DecodeGenerator.Generator.BuildDecodeTable` | dyninst/instructionAPI/aarch64_manual_parser.py:527-686 | terminates on every array and writes no slot beyond the limit; when all slots it reserves pass the guard, it fills its slot and exactly those, places each instruction at one leaf, and makes the walk complete and sound for them |
| `DecodeLookup.Generate` | dyninst/instructionAPI/aarch64_manual_parser.py:795-806 | on any array the table is the specified one exactly when every slot passes the guard, which up to 2^27 instructions always do; then every instruction is placed and counted once and the node count is the slot count |
| `DecodeLookup.FindInsnTableIndex` | dyninst/instructionAPI/src/InstructionDecoder-aarch64.C:3053-3081 | the recursive lookup returns what the walk of the table yields |
| `DecodeLookup.NeverStuck` | dyninst/instructionAPI/aarch64_manual_parser.py:776-793 | every 32-bit word ends at a leaf or at a key without a branch |
| `DecodeLookup.MatchIsDecoded` | dyninst/instructionAPI/aarch64_manual_parser.py:527-686 | a word that matches instruction i decodes at i's leaf to the member with the fewest fixed bits, the first of equals, and to i when the leaf is i's alone |
| `DecodeLookup.OverlapsShareLeaf` | dyninst/instructionAPI/aarch64_manual_parser.py:568-581 | instructions that one word can match share a leaf |
| `DecodeLookup.AliasesAgree` | dyninst/instructionAPI/aarch64_manual_parser.py:568-581 | a word decoded at a leaf of several instructions has every bit that all of them fix |
| `DecodeLookup.DecodedIffFirst` | dyninst/instructionAPI/aarch64_manual_parser.py:496-503 | a word that matches instruction i decodes to i exactly when no instruction at i's leaf has fewer fixed bits, or as many and a smaller index; otherwise i is returned only if it is 0, and then exactly for the words that agree with no instruction where the decoder looks |
| `DecodeLookup.ShadowedIsNeverDecoded` | dyninst/instructionAPI/aarch64_manual_parser.py:496-581 | if one word matches i and also an instruction with fewer fixed bits, or with as many and a smaller index, i is returned only if it is 0, and then exactly for the words that agree with no instruction where the decoder looks |
| `DecodeLookup.AliasIsNeverDecoded` | dyninst/instructionAPI/aarch64_manual_parser.py:496-581 | behind entry 0 and beside an instruction that fixes one bit, one that fixes that bit and the next is returned for no word although the zero word matches it |
| `DecodeLookup.ReachesIffAgrees` | dyninst/instructionAPI/aarch64_manual_parser.py:776-793 | a word reaches i's leaf exactly when it agrees with i on the bits the decoder looks at for the encoding of i: the masks of the decisions passed |
| `DecodeLookup.SharedLeafLooksAt` | dyninst/instructionAPI/aarch64_manual_parser.py:540-581 | on the way to a leaf of several instructions the decoder looks at exactly the bits that all of them fix |
| `DecodeLookup.ReturnedIff` | dyninst/instructionAPI/src/InstructionDecoder-aarch64.C:3053-3081 | the result for any word is i exactly when the word agrees with i where the decoder looks and no instruction at i's leaf has fewer fixed bits, or as many and a smaller index; and 0 also when the word agrees with no instruction there |
| `DecodeLookup.ReturnedOnArray` | dyninst/instructionAPI/src/InstructionDecoder-aarch64.C:3053-3081 | on the array alone: the result for any word is the candidate with the fewest fixed bits, the first of equals, after dropping, as long as there are several, those that disagree with the word on the bits they all fix; 0 when none is left |
| `DecodeLookup.LooksAtArray` | dyninst/instructionAPI/aarch64_manual_parser.py:527-686 | on the array alone: the decoder looks at exactly the bits compared in that way |
| `DecodeLookup.CommonIsLookedAt` | dyninst/instructionAPI/aarch64_manual_parser.py:555-563 | with two instructions or more, the decoder looks at every bit that all of them fix, for every word |
| `DecodeLookup.ExcludedIsInvalid` | dyninst/instructionAPI/src/InstructionDecoder-aarch64.C:3053-3081 | a word that differs from every instruction on a bit that all of them fix gets index 0 |
| `DecodeLookup.UnallocatedIsInvalid` | dyninst/instructionAPI/src/InstructionDecoder-aarch64.C:3053-3081 | beside INVALID and an instruction with both its bits set, a word with one of the two bits gets index 0 |
| `DecodeLookup.LeafMatchesIff` | dyninst/instructionAPI/aarch64_manual_parser.py:540-581 | every word that reaches i's leaf matches i exactly when the decoder looks at all bits i fixes |
| `DecodeLookup.SharedLeafMatchesIff` | dyninst/instructionAPI/aarch64_manual_parser.py:540-581 | every word that reaches a leaf of several instructions matches the member i exactly when every bit i fixes is fixed by all of them |
| `DecodeLookup.MismatchIsDecoded` | dyninst/instructionAPI/aarch64_manual_parser.py:540-581 | behind entry 0 and beside an instruction that fixes only the next bit, one that fixes a single bit is returned for every word, and matches only those with that bit clear |
| `DecodeLookup.OneParentEach` | dyninst/instructionAPI/aarch64_manual_parser.py:662-686 | every slot below entryAvailable is written, every slot but the root has exactly one branch to it, and the branches of a decision lead to consecutive slots |
| `Sha1Block.SwapIsBigEndian` | dyninstT/common/sha1.C:130-131 | the swap of a little-endian load is the big-endian word |
| `Sha1Laws.BytesOfWord` | dyninstT/common/sha1.C:270-273 | a word is read back from its four bytes |
| `Sha1Laws.WordOfBytes` | dyninstT/common/sha1.C:270-273 | four bytes are read back from their word, most significant first |
| `Sha1Laws.Rol1TurnsBack` | dyninstT/common/sha1.C:122 | the rotation by one is undone by the opposite one |
| `Sha1Laws.Rol5TurnsBack` | dyninstT/common/sha1.C:122 | the rotation by five is undone by the opposite one |
| `Sha1Laws.Rol30TurnsBack` | dyninstT/common/sha1.C:122 | the rotation by thirty is undone by the opposite one |
| `Sha1Laws.ScheduleRecurrence` | dyninstT/common/sha1.C:133-134 | from word 16 on, a schedule word turned back by one bit is the exclusive or of the words 3, 8, 14 and 16 before it |
| `Sha1Laws.ConstantsAreRoots` | dyninstT/common/sha1.C:137-141 | the constant of a round is 2^30 times the square root of 2, 3, 5 or 10, rounded down |
| `Sha1Laws.FirstChooses` | dyninstT/common/sha1.C:137-138 | in rounds 0 to 19 each bit of f is that of c where b is set and of d elsewhere |
| `Sha1Laws.ThirdIsMajority` | dyninstT/common/sha1.C:140 | in rounds 40 to 59 each bit of f is that of b where b and c agree and of d elsewhere |
| `Sha1Laws.OctetsRead` | dyninstT/common/sha1.C:261-264 | the eight bytes of the bit count read big-endian give it back |
| `Sha1Laws.PadIs` | dyninstT/common/sha1.C:261-269 | the padded message is the message, a one bit, as few zero bytes as make whole blocks, and the length in bits modulo 2^64 |
| `Sha1Vector.AbcDigest` | dyninstT/common/sha1.C:91-93 | the digest of "abc" is the quoted test vector |
| `Sha1Block.MixIsF` | dyninstT/common/sha1.C:137-141 | the mixing terms of the macros are the functions of section 5 of RFC 3174 |
| `Sha1Block.OpIsRound` | dyninstT/common/sha1.C:137-141 | with its registers renamed each macro is a round of section 6.1 of RFC 3174 |
| `Sha1Block.Blk` | dyninstT/common/sha1.C:130-134 | the 16-word window yields and stores the next word of the 80-word schedule |
| `Sha1Block.FiveRounds` | dyninstT/common/sha1.C:181-200 | five renamed macro calls are five rounds |
| `Sha1Block.Rounds80` | dyninstT/common/sha1.C:181-200 | the 80 macro calls are the 80 rounds and leave the last sixteen schedule words in place of the block |
| `Sha1Block.CompressBlock` | dyninstT/common/sha1.C:159-209 | the transform adds the rounds to the state |
| `Sha1Context.CountedOffset` | dyninstT/common/sha1.C:235 | the offset taken from the low counter is the message length modulo 64 |
| `Sha1Context.AddCountCounts` | dyninstT/common/sha1.C:236-237 | the two counters with their carry hold the length in bits modulo 2^64 |
| `Sha1Context.Context.constructor` | dyninstT/common/sha1.C:214-223 | a new context has hashed the empty message |
| `Sha1Context.Context.Transform` | dyninstT/common/sha1.C:159-209 | hashes 64 bytes and overwrites exactly those bytes |
| `Sha1Context.Context.Update` | dyninstT/common/sha1.C:228-251 | appends the data to the message hashed so far, and says how the caller's data is overwritten |
| `Sha1Context.Context.Finish` | dyninstT/common/sha1.C:261-269 | the bytes fed in complete the message to its padded form of section 4 of RFC 3174 |
| `Sha1Context.Context.Final` | dyninstT/common/sha1.C:256-283 | the digest is the SHA-1 of everything given to Update, however it was split, and the context is wiped |
| `Sha1File.HashFile` | dyninstT/common/sha1.C:287-317 | the hexadecimal SHA-1 of the whole file, or nothing when it cannot be opened or a read fails |
| `Sha1File.HexReads` | dyninstT/common/sha1.C:313-314 | characters 2i and 2i+1 of the text, read in base 16, are byte i |
| `Fraction.SplitProduct` | dyninstT/common/fraction.h:90-94 | the split product is the quotient of the full product |
| `Fraction.NoInterimIff` | dyninstT/common/fraction.h:90-94 | for a product in range the wrapped split product is its quotient exactly when the product of the remainder fits, and smaller otherwise |
| `Fraction.LargestIs` | dyninstT/common/fraction.C:84-89 | the largest multiplicand in range separates the products that fit from those that saturate |
| `Fraction.InterimPtIs` | dyninstT/common/fraction.C:80-83 | the first overflow point is the largest multiplicand whose product with the numerator fits |
| `Fraction.FinalPtIff` | dyninstT/common/fraction.C:79-90 | the second overflow point never exceeds the largest multiplicand in range, and equals it exactly when the fraction is below one or the remainder of the largest integer by the numerator, times the denominator, fits |
| `Fraction.MultExact` | dyninstT/common/fraction.C:63-77 | for every fraction and multiplicand the result is the product rounded down, or the largest integer where that is smaller, exactly when the multiplicand is below the first point, or up to the second with the product of its remainder in range, or beyond it with a product that reaches the largest integer |
| `Fraction.ServedIff` | dyninstT/common/fraction.C:63-90 | when the overflow points fit, only the product of the remainder in the second branch decides |
| `Fraction.AllServedIff` | dyninstT/common/fraction.C:63-90 | when the overflow points fit, the result is right for every multiplicand exactly when the denominator less one times the numerator fits |
| `Fraction.ProductEnough` | dyninstT/common/fraction.C:63-90 | when numerator times denominator fits, the overflow points fit and the result is right for every multiplicand |
| `Fraction.RightIffResultFits` | dyninstT/common/fraction.C:63-77 | when the overflow points fit, the result is right exactly when the products that form it fit |
| `Fraction.TemporaryOverflows` | dyninstT/common/fraction.C:66-67 | a multiply by 1/3 whose temporary fraction overflows in its own overflow points, with the right result |
| `Fraction.InterimOverflowRemains` | dyninstT/common/fraction.C:69-71 | a multiply by a fraction whose overflow points fit that returns 0 instead of 2^32 - 1 |
| `Fraction.GcdBezout` | dyninstT/common/fraction.C:44-47 | gcd divides both arguments and is a combination of them |
| `Fraction.ReduceKeeps` | dyninstT/common/fraction.h:137-142 | reduced terms are coprime, have the same value and give the same products |
| `Fraction.SameReducedIff` | dyninstT/common/fraction.h:177-183 | two fractions reduce to the same terms exactly when their cross products are equal |
| `Fraction.Frac.constructor` | dyninstT/common/fraction.h:56-58 | the terms are stored and both overflow points computed, wrapped where they overflow |
| `Fraction.Frac.CalcOverflowPts` | dyninstT/common/fraction.C:79-90 | computes both overflow points; the first is the largest multiplicand whose product fits, the second the largest in range exactly when the points fit, and smaller otherwise |
| `Fraction.Frac.MultReturnInt64` | dyninstT/common/fraction.C:63-77 | across all three branches, the product rounded down, or the largest integer where that is smaller, exactly for the multiplicands that are served; for every multiplicand when numerator times denominator fits |
| `Fraction.Frac.Reduce` | dyninstT/common/fraction.h:137-142 | coprime terms of the same value, with every product unchanged |
| `Fraction.Equals` | dyninstT/common/fraction.h:177-183 | equal exactly when the cross products are |
| `PtraceBulk.WroteMore` | dyninstT/common/linuxKludges.C:428-493 | storing one edited word extends the written prefix and changes nothing else |
| `PtraceBulk.ReadBack` | dyninstT/common/linuxKludges.C:335-493 | a complete read after a complete write returns the data |
| `PtraceBulk.Tracee.Merge` | dyninstT/common/linuxKludges.C:428-446 | peek, edit and poke change only the edited bytes, and nothing on failure |
| `PtraceBulk.Tracee.BulkWrite` | dyninstT/common/linuxKludges.C:428-493 | exactly a prefix of the requested bytes changes, all of them on success; success if and only if every touched word can be stored; a failure stops at the first word that cannot |
| `PtraceBulk.Tracee.BulkRead` | dyninstT/common/linuxKludges.C:335-385 | exactly a prefix of the buffer is filled from memory, all of it on success; success if and only if every touched word is readable; a failure stops at the first word that is not |
| `FuncMap.CacheRoundTripIff` | tools/funcmap.cc:125-199 | for any names, loading the written cache gives the same names in order exactly when each is a line of at most 255 characters, the last has 1 to 254, and one of 255 comes after an empty name or right before it; without an empty name, exactly when there are names and each is a line of at most 254 |
| `FuncMap.FullNameGainsEmpty` | tools/funcmap.cc:140-146 | a name of 255 characters comes back with an empty name after it |
| `FuncMap.EmptyNameOutOfBounds` | tools/funcmap.cc:140-146 | a lone empty name takes the loader to an empty buffer |
| `FuncMap.LoadsAnyFile` | tools/funcmap.cc:125-148 | what any file of lines loads: the lines cut after every 255 characters, the last with or without a newline; an empty name at the end, or no name, takes the loader to an empty buffer |
| `FuncMap.TextIsLines` | tools/funcmap.cc:140-146 | every text without NUL is such a file |
| `FuncMap.CStringIs` | tools/funcmap.cc:104-106 | a C string is the longest prefix without NUL |
| `FuncMap.AddedAllMembers` | tools/funcmap.cc:104-123 | adding names adds exactly those that occur and are not skipped |
| `FuncMap.AddedAllNumbers` | tools/funcmap.cc:104-123 | adding names keeps the numbers already given and numbers the new ones by first occurrence |
| `FuncMap.SameIds` | tools/funcmap.cc:104-123 | two maps with the same names give every name the same number |
| `FuncMap.BuildThenReload` | tools/funcmap.cc:201-272 | for any ELF names, the map built from them holds exactly those not skipped, numbered by first occurrence, and agrees on every number with one loaded from the cache it wrote exactly when its names meet that condition |
| `FuncMap.Map.constructor` | tools/funcmap.cc:35-66 | an empty map |
| `FuncMap.Map.AddFunction` | tools/funcmap.cc:104-123 | appends a name that is neither present nor skipped and keeps names and numbers inverse to each other |
| `FuncMap.Map.AddAll` | tools/funcmap.cc:223-240 | adds the listed names in order, each up to its first NUL |
| `FuncMap.Map.LoadFromCache` | tools/funcmap.cc:125-148 | the fgets loop loads what the specification says, including the pass after the last line |
| `FuncMap.Map.UpdateCache` | tools/funcmap.cc:196-198 | writes each name on a line |
| `FuncMap.Map.GetFunctionID` | tools/funcmap.cc:274-282 | the number of a known name, and UINT_MAX exactly for an unknown one |
| `FuncMap.Map.Load` | tools/funcmap.cc:250-272 | the choice between ELF file, cache and failure, with the new map and cache of each |

## Left out

- Weak memory order: the lock theorems are about interleavings of single steps.
- The 24-bit wrap of the reader counts in `rin` and `rout`; the model counts without bound.
- A thread uses one queue node; the model identifies the two.
- McsLock.WaitIsBounded: bounds the steps of the threads ahead of a waiting thread; that they take them is the scheduler's part.
- The lock calls inside `IBSTree` and `IBSTree_fast`: the trees are sequential here.
- Interval endpoints equal to the smallest or largest value of the address type, which the tree uses as bounds.
- `IBSTree::clear`, `destroy`, printing, `CountMarks`, and the `successor` that returns one pointer.
- Object identity of intervals: two intervals are the same when low, high and an identifying number are.
- Sentinel and null links of the tree are indices 0 and -1 of a store of cells instead of pointers, and cells are never freed.
- `IBSTree_fast::successor`, which mixes two notions of the next interval, and `clear`.
- The strict alias solution, debug output and the C++ text of the table lines.
- DecodeLookup.Generate: which arrays of more than 2^27 instructions still fit is stated by the number of slots reserved, not by the array.
- XML scanning, operand parsing and the operand half of the AArch64 decoder.
- Sha1Context.Context.Update: requires that the offset in the buffer plus len stays below 2^32, since the source computes that sum in 32 bits; a little-endian machine is assumed; data aliasing the context's own buffer is excluded.
- The 80 unrolled macro calls of the SHA-1 transform are a loop of sixteen groups of five.
- Negative numerators and denominators, the comparison operators over doubles, `lcd` and `operator*`; the comparison of a reciprocal with 1.0 is over reals.
- Signed overflow in the fraction, which has no defined result in C++, is modelled as two's-complement wrap-around.
- The process_vm_readv and process_vm_writev fast paths, and wrap-around of addresses at the end of the address space.
- Time stamps, directories, failing file operations and unclosed files of the function map; the state of the cache, the ELF names and the file text are parameters.
- FuncMap.Map.LoadFromCache: an empty line buffer, where the source reads before its buffer, is reported as an outcome of its own.
- `libprobe`, `libprofile` and the tools other than `funcmap`, which would only add easy members.

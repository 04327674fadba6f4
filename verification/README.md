# Verified models of seven LLVM components

This project models algorithms and protocols of libc++, clang and clang-tools-extra in Dafny 4.11 and
proves properties of the models.

* `Primality`, `OverflowBound`, `NextPrime`: the prime search of the hash tables. Trial division on a
  wheel of 210 is proved to return the least prime not below its argument, with 64-bit arithmetic that
  never wraps. The largest accepted argument is proved to be prime by certificates in the style of
  Pocklington, so the search ends for every accepted argument.
* `HashTable`, `OwnershipModel`, `DebugDb`: the debug-iterator database. Two chained hash tables whose
  nodes point at each other, and growable back-pointer arrays, represent a partial map from iterators to
  owning containers. Every sequence of operations keeps the representation, up to the first failing
  allocation, and each allocation that fails has its exact effect stated.
* `DeltaDebugging`: the token reducer. Its result is in order, passes and is 1-minimal, although the
  memory of failures is keyed by unordered sets; the number of tests is at most quadratic.
* `FutureProtocol`, `FutureCalls`: the shared state behind promises and futures, as a transition system
  whose runs are arbitrary interleavings of the threads' steps; and what each call does when its thread
  runs alone, which every call can.
* `SweepLine`, `FixConflicts`, `DuplicateErrors`, `Diagnostics`, `DiagnosticLaws`, `DiagnosticCounts`,
  `CheckGlobs`, `CheckOptions`, `OptionsCache`: clang-tidy's detection of conflicting fixes, the consumer of
  diagnostics and its counters, the signed lists of globs, the merging of options and the cache of
  configuration files.
* `Declarations`, `HelperGraph`, `DeclMover`, `NamespacePrinter`, `QualifiedNames`, `NamespaceChange`,
  `NamespaceReader`: clang-move's choice of helpers and its printer, and change-namespace's names and
  moved code, which is also read back from its characters alone.
* `StringOrder`, `InstanceTables`, `PreprocessorTracker`: modularize's tracker of headers, macros and
  conditions.

`dafny verify dfyconfig.toml` checks all of it. Objects that the programs update in place are classes;
loops are methods with invariants, tied to functions. What each of these functions gives is stated once
more without it, in terms of its arguments, by lemmas whose names mostly end in `Exactly`, `Meaning` or
`Alone`.

## What does not hold

Some promises are not kept by the code. The models keep the code as it is.

* Copying an iterator sets its owner before the owner's back-pointer array grows, so the iterator may
  point at an owner that does not list it. That happens if and only if the source of the copy is known
  and owned, its owner is not the one of the iterator, the array of that owner is full, and everything
  but the new array could be allocated (`DebugDb.DebugDb.IteratorCopy`; `DebugDb.LoseCoupling` reaches
  such a state). Registering an iterator with a container does it in the other order and is safe.
* When a node cannot be allocated, the head of its bucket is overwritten before the exception is thrown.
  The tables stop representing the model if and only if another node hashes to that bucket
  (`HashTable.Table.Insert`, `DebugDb.DebugDb.InsertC`, `InsertI`, `InsertIC`, `IteratorCopy`;
  `DebugDb.LoseChain` reaches such a state).
* A null exception makes a shared state ready without counting as a value, so that another outcome may
  replace it (`FutureProtocol.SetterVerdict` says exactly when, `FutureCalls.NullExceptionIsReplaced` gives a run).
* An outcome that is to become ready at the exit of a thread is stored before the state is registered
  for that exit. If there is no memory for the registration, an exception is thrown and the outcome is
  never seen: given non-null exceptions, a future whose promise is gone is broken exactly then
  (`FutureProtocol.BrokenExactly`, `StrandedExactly`, `LostForGood`; `FutureCalls.RegistrationIsLost` is
  a run).
* White space in a list of globs can hide a minus sign or make the end of a glob be read again.
  `CheckGlobs.ReadsWhatIsMeant` says exactly when the globs read are the intended ones.
* Merging options is associative exactly if no empty list stands between a non-empty list and another
  one (`CheckOptions.MergeIsAssociative`); the entries of the lists do not depend on it.
* A suppressed note is counted although its diagnostic is counted too (`DiagnosticCounts.CountedOnce`
  says exactly when, `MarkedNote` gives a unit).
* clang-move compares a helper with the first redeclarations in its graph. A used helper that was
  declared before its definition is neither copied nor kept (`DeclMover.NeededExactly`,
  `RedeclaredHelperIsLost`).
* The printer loses namespaces that stand around a linkage specification
  (`NamespacePrinter.PathIsComplete`, `LinkageHides`).
* change-namespace takes the code of a namespace from one character behind its brace on, so what directly
  follows the brace stays behind unless it is white space (`NamespaceChange.NothingIsLeftBehind`,
  `ClassBehindBrace`).
* It inserts the code behind the rest of the line on which the outer namespace ends. It reads that line
  up to the first line break, also inside a comment or a declaration; it takes its length as read for its
  length in the file, which is wrong exactly if a line break is escaped (`NamespaceChange.NextLineIsExact`);
  and it only finds the outer namespace if every namespace further inside is written in the name, although
  inline and anonymous ones need not be. The whole code stands in the new namespace exactly if white space
  follows its brace and either the names do not differ in the old one, or nothing unwritten stands further
  inside and the rest of the line leads back to what is around the outer namespace
  (`NamespaceChange.MovedCodeStandsInNewNamespace`, `ExactlyInNewNamespace`). `BracesOnTwoLines` is a file
  that is moved well; `BracesOnOneLine`, `NestedDefinition`, `CommentBehindBrace`, `EscapedLineBreak` and
  `InlineBetween` are files that are not.
* An instance of a macro or condition keeps one inclusion path only, because an error value is taken
  for true. It has all paths of its value exactly if there is only one
  (`InstanceTables.PathsAreComplete`, `SecondPathIsLost`).
* The definition of a macro is compared by line and column only, as its key names the header of the
  expansion. All meanings at a place are listed exactly if no two differ in the file only, and the report
  of inconsistent macros is right exactly if it finds something or no two differ so anywhere
  (`PreprocessorTracker.MeaningsAreListed`, `ReportIsRight`, `FileIsLost`).
* Leaving any header ends the nesting of the headers around it, and a header entered for the first time
  inside a nested one is not remembered. `PreprocessorTracker.FlagMeansNested` says exactly when the flag
  agrees with an open header having been entered before; `NestingIsLost` and `NestedIsNotRemembered` are
  runs in which it does not.

## Model

| member | source | states |
|---|---|---|
| NextPrime.NextPrime | libcxx/src/hash.cpp:178-568 | for every 64-bit n: `OverflowError` exactly if n > 0xFFFFFFFFFFFFFFC5; otherwise 0 for 0, and else the least prime that is not below n; no arithmetic wraps |
| NextPrime.SearchWheel | libcxx/src/hash.cpp:189-567 | the search over the candidates L * k0 + indices[in] terminates, skips no prime and returns the least prime from n on |
| NextPrime.TestSmallPrimes | libcxx/src/hash.cpp:206-214 | trial division by the table from 11 on: returns a prime, or finds a divisor, or leaves no divisor below 211 |
| NextPrime.TestPotentialPrimes | libcxx/src/hash.cpp:215-558 | the unrolled increments from 211 on decide whether the candidate is prime |
| NextPrime.TestDivisor | libcxx/src/hash.cpp:220-224 | one of the unrolled steps: q < i proves primality, n == q * i a divisor, and neither product wraps |
| NextPrime.LowerBound | libcxx/include/algorithm:4170-4191 | the first place in an ascending table whose entry is not below the value |
| NextPrime.NextOnWheel | libcxx/src/hash.cpp:76-129 | each increment leads from a residue coprime to 210 to the next one and passes over none |
| NextPrime.WheelTable | libcxx/src/hash.cpp:76-129 | `indices` are exactly the residues coprime to 210, in order, closed up by the increments of the loop |
| NextPrime.SmallPrimeTable | libcxx/src/hash.cpp:24-74 | `small_primes` holds 0 and all primes up to 211, in order, with none left out |
| NextPrime.SmallPrimeAnswer | libcxx/src/hash.cpp:183-185 | the table's lower bound is the least prime not below n |
| NextPrime.OffWheelComposite | libcxx/src/hash.cpp:76-79 | a number above 7 that shares a factor with 210 is not prime |
| NextPrime.NextCandidate | libcxx/src/hash.cpp:560-566 | the next candidate is on the wheel, above the last one and at most the bound, and no prime lies between |
| NextPrime.FirstCandidate | libcxx/src/hash.cpp:190-196 | the first candidate is the least number on the wheel not below n |
| NextPrime.PrimeBySquareRoot | libcxx/src/hash.cpp:199-202 | no divisor below i and q < i make the candidate prime |
| NextPrime.NextSmallDivisor | libcxx/src/hash.cpp:203-205 | trial division may start at 11 and use the primes only |
| NextPrime.NextWheelDivisor | libcxx/src/hash.cpp:215-558 | after a step no number up to the next increment divides the candidate |
| OverflowBound.LimitIsPrime | libcxx/src/hash.cpp:165-176 | the bound 0xFFFFFFFFFFFFFFC5 is itself prime, so that the search ends below it for every accepted n |
| HashTable.Table.Grow | libcxx/src/debug.cpp:213-235 | every node is relinked by its hash into an array whose length is the least prime above 2 * old, or nothing changes when memory is short |
| HashTable.Table.Insert | libcxx/src/debug.cpp:551-586 | the outcome of each allocation decides: without room nothing changes; with a node it is linked in; without a node the table, grown or not, stays valid if and only if no other node is in the bucket of the key |
| HashTable.Table.FailToLink | libcxx/src/debug.cpp:576-581 | when no node can be allocated the table stays valid if and only if no other node is in the bucket |
| HashTable.Table.SharingMeansChain | libcxx/src/debug.cpp:576-579 | another node shares the bucket exactly if the head of that bucket is not null |
| HashTable.Table.InOwnBucket | libcxx/src/debug.cpp:238-242 | the head of a bucket and whatever a link leads to have a hash that leads to that bucket |
| HashTable.Table.Walk | libcxx/src/debug.cpp:257-268 | the chain walk stops at the node of the key, with its predecessor, exactly if the key is present |
| HashTable.Table.Find | libcxx/src/debug.cpp:590-606 | a node is found exactly if one with that key is in the table |
| HashTable.Table.Detach | libcxx/src/debug.cpp:255-274 | the node of the key leaves its chain, every other node stays reachable, and the counter falls by one |
| HashTable.RelinkAll | libcxx/src/debug.cpp:220-231 | the double loop moves all chains, leaving every node under its new slot |
| OwnershipModel.RunKeepsCoupling | libcxx/src/debug.cpp:184-616 | over every run of calls: an iterator's owner is c exactly when it occurs, once, in c's live range |
| OwnershipModel.EmptyRunIsCoupled | libcxx/src/debug.cpp:143-151 | over every run of calls from the empty database the same holds |
| OwnershipModel.RunStep | libcxx/src/debug.cpp:184-616 | a run can be cut anywhere: its k-th call is applied to what the calls before it give |
| OwnershipModel.InsertCKeepsCoupling | libcxx/src/debug.cpp:207-247 | registering a container keeps owners and live ranges in agreement |
| OwnershipModel.InsertICKeepsCoupling | libcxx/src/debug.cpp:184-205 | registering an iterator with a container keeps them in agreement |
| OwnershipModel.EraseIKeepsCoupling | libcxx/src/debug.cpp:249-280 | erasing an iterator keeps them in agreement |
| OwnershipModel.InvalidateAllKeepsCoupling | libcxx/src/debug.cpp:282-306 | invalidating a container keeps them in agreement |
| OwnershipModel.EraseCKeepsCoupling | libcxx/src/debug.cpp:366-401 | erasing a container keeps them in agreement |
| OwnershipModel.IteratorCopyKeepsCoupling | libcxx/src/debug.cpp:403-429 | copying an iterator, onto a known or an unknown one, keeps them in agreement |
| OwnershipModel.SwapKeepsCoupling | libcxx/src/debug.cpp:484-513 | swapping two containers, also one with itself, keeps them in agreement |
| OwnershipModel.IteratorCopyMeaning | libcxx/src/debug.cpp:403-429 | the copy has the owner of its source, nothing else changes owner, and it is known exactly if one of the two was |
| OwnershipModel.InvalidationMeaning | libcxx/src/debug.cpp:282-401 | exactly the container's own iterators lose their owner |
| OwnershipModel.SwapTwice | libcxx/src/debug.cpp:484-513 | swapping twice restores every owner and every live range |
| OwnershipModel.InsertThenErase | libcxx/src/debug.cpp:184-280 | registering a fresh iterator and erasing it is invisible |
| OwnershipModel.InsertCMeaning | libcxx/src/debug.cpp:207-247 | the container is known, with an empty live range, and nothing else changes |
| OwnershipModel.InsertIMeaning | libcxx/src/debug.cpp:515-522 | the iterator is known, without owner, and nothing else changes |
| OwnershipModel.InsertICMeaning | libcxx/src/debug.cpp:184-205 | for a known container the iterator is owned by it and is the last of its live range, whatever was there; for an unknown one nothing changes |
| OwnershipModel.EraseIMeaning | libcxx/src/debug.cpp:249-280 | the iterator is forgotten, leaves the live range of its owner, where the others keep their order, and no other live range changes |
| OwnershipModel.InvalidateAllMeaning | libcxx/src/debug.cpp:282-306 | exactly the iterators of the container lose their owner, and its live range is empty |
| OwnershipModel.EraseCMeaning | libcxx/src/debug.cpp:366-401 | the same, and the container is forgotten |
| OwnershipModel.CopyMeaning | libcxx/src/debug.cpp:403-429 | the owner of the source, if it has one, becomes that of the copy; the copy leaves the live range of its former owner and is the last in that of the new one, unless they are the same |
| OwnershipModel.SwapMeaning | libcxx/src/debug.cpp:484-513 | the two containers exchange their live ranges, and the owners follow |
| DebugDb.DebugDb.ExecuteAll | libcxx/src/debug.cpp:184-616 | over every sequence of calls on the linked nodes: if none fails the two tables represent the model of the whole run; at the first failing call the calls before it have been executed, and representation and coupling survive exactly as Execute says |
| DebugDb.DebugDb.Execute | libcxx/src/debug.cpp:184-616 | one call: a bad_alloc is due to the allocation that failed; the coupling is lost exactly by a copy whose array could not grow, the representation exactly by a missing node in a shared bucket |
| DebugDb.ExecuteFromEmpty | libcxx/src/debug.cpp:143-151 | from an empty database a run that no allocation fails ends in tables that represent its model |
| DebugDb.LoseChain | libcxx/src/debug.cpp:238-242 | a state in which a failing node allocation makes the tables stop representing the registered container: any second one in its bucket does |
| DebugDb.LoseCoupling | libcxx/src/debug.cpp:403-429 | a state in which a failing array allocation leaves an iterator with an owner that does not list it |
| DebugDb.DebugDb.InsertC | libcxx/src/debug.cpp:207-247 | the container is added; without room in the table the old model stays; without memory for the node the tables represent it still if and only if the bucket of the container is empty |
| DebugDb.DebugDb.InsertI | libcxx/src/debug.cpp:515-522 | a new iterator without owner is added, with the same two failures |
| DebugDb.DebugDb.InsertIC | libcxx/src/debug.cpp:184-205 | the iterator is registered and attached if the container is known, where `OwnershipModel.InsertICMeaning` says what that is; the failures of the registration are the same, and if only the array cannot grow the iterator stays registered without owner; the coupling survives all of them |
| DebugDb.DebugDb.EraseI | libcxx/src/debug.cpp:249-280 | the tables represent the model without the iterator, and no object is new |
| DebugDb.DebugDb.InvalidateAll | libcxx/src/debug.cpp:282-306 | the container's live range is emptied and its iterators lose their owner |
| DebugDb.DebugDb.EraseC | libcxx/src/debug.cpp:366-401 | the container goes, its iterators lose their owner, and no object is new |
| DebugDb.DebugDb.IteratorCopy | libcxx/src/debug.cpp:403-429 | the model's copy, or one of three failures, decided by the state before the call and the memory; the coupling is lost if and only if the new owner must list the iterator, its array is full, and only that array cannot be allocated |
| DebugDb.DebugDb.Swap | libcxx/src/debug.cpp:484-513 | the tables represent the model with the two containers' iterators exchanged |
| DebugDb.DebugDb.FindC | libcxx/src/debug.cpp:190-201 | the chain walk finds the container's node, exactly if it is registered |
| DebugDb.DebugDb.FindCAndLock | libcxx/src/debug.cpp:308-342 | the container's node, exactly if it is registered, and exactly then the mutex stays locked |
| DebugDb.DebugDb.FindIterator | libcxx/src/debug.cpp:588-606 | the iterator's node, exactly if it is registered |
| DebugDb.DebugDb.FindCFromI | libcxx/src/debug.cpp:173-182 | the owner that the model gives the iterator |
| DebugDb.DebugDb.LessThanComparable | libcxx/src/debug.cpp:471-482 | true exactly if both iterators have the same owner in the model |
| DebugDb.Add | libcxx/src/debug.cpp:524-545 | appends to the live range; fails, changing nothing, exactly if the array is full and no bigger one can be allocated; the bigger one has twice the length, or one place, and keeps all entries |
| DebugDb.Remove | libcxx/src/debug.cpp:608-616 | removes the one occurrence from the live range and keeps the order of the rest |
| DeltaDebugging.DeltaAlgorithm.Run | clang/utils/token-delta.py:33-46 | the result is an in-order part of the changes, passes, and fails without any single one of them; it is what the reduction without a memory finds; at most 4n^2 - 2n + 2 tests and 2n - 1 calls of delta; the initial failure is reported exactly if it occurs |
| DeltaDebugging.DeltaAlgorithm.Delta | clang/utils/token-delta.py:63-80 | from any partition of c: an in-order, 1-minimal part of c, namely what the reduction without a memory finds, within the budget of the measure |
| DeltaDebugging.DeltaAlgorithm.Search | clang/utils/token-delta.py:82-93 | a smaller passing set, or none, and then no piece passes alone and no complement does |
| DeltaDebugging.DeltaAlgorithm.GetTestResult | clang/utils/token-delta.py:20-31 | the verdict of the test, although failures are remembered by unordered sets |
| DeltaDebugging.Split | clang/utils/token-delta.py:48-61 | one or two pieces whose concatenation is the list, the second as long as the first or longer by one |
| DeltaDebugging.RefineHalves | clang/utils/token-delta.py:75-80 | refining cuts every piece in half: none stays longer than half of what the longest was |
| DeltaDebugging.OutcomeOfHit | clang/utils/token-delta.py:82-93 | the reduction goes on from the first piece that passes, or without which the rest passes: with that piece if it passes, split once, and otherwise with the rest as it is divided |
| DeltaDebugging.HitMeans | clang/utils/token-delta.py:83-93 | it can go on from a piece if that passes, or if there are more than two and the others together pass |
| DeltaDebugging.RefineStep | clang/utils/token-delta.py:75-80 | splitting every piece keeps the partition and lowers 2 * size - pieces |
| DeltaDebugging.PieceStep | clang/utils/token-delta.py:84-86 | going on with one piece lowers the measure and stays within the budget |
| DeltaDebugging.ComplementStep | clang/utils/token-delta.py:88-93 | going on with a complement lowers the measure and stays within the budget |
| DeltaDebugging.BlockedIsMinimal | clang/utils/token-delta.py:75-78 | when no piece can be split or left out, no single change can |
| DeltaDebugging.RestrictAll | clang/utils/token-delta.py:24-29 | an in-order part of distinct changes is determined by its set, so the cache key loses nothing |
| FutureProtocol.MutualExclusion | libcxx/src/future.cpp:90-179 | in every interleaving at most one thread is inside a critical section of the shared state |
| FutureProtocol.OutcomeIsFinal | libcxx/src/future.cpp:90-146 | over every run ready never reverts, a value or non-null exception never changes, and no store is undone |
| FutureProtocol.AtMostOneOutcome | libcxx/src/future.cpp:90-146 | given non-null exceptions a state gets at most one outcome, and it has one when it is ready |
| FutureProtocol.SetterVerdict | libcxx/src/future.cpp:90-138 | a setter goes on exactly if nothing was stored yet or the last store was a null exception |
| FutureProtocol.NoBrokenFuture | libcxx/src/future.cpp:220-232 | once the promise is gone, a remaining future finds an outcome that is ready, or that the exit of a running thread will make ready, or whose registration failed |
| FutureProtocol.BrokenExactly | libcxx/src/future.cpp:103-138 | given non-null exceptions such a future is broken if and only if the registration of its outcome failed |
| FutureProtocol.LostForGood | libcxx/src/future.cpp:103-138 | an outcome whose registration failed is never seen, whatever happens after |
| FutureProtocol.NoLostWakeup | libcxx/src/future.cpp:164-179 | nobody sleeps on a ready state but while the thread in the critical section is about to notify |
| FutureProtocol.NoDeadlock | libcxx/src/future.cpp:91-179 | the mutex holder can always move, and when it is free every thread with work can |
| FutureProtocol.NoStrandedWaiter | libcxx/src/future.cpp:164-232 | when all threads rest and one sleeps, the promise is alive, or a thread that has not exited holds a registration, or a registration failed |
| FutureProtocol.StrandedExactly | libcxx/src/future.cpp:103-232 | given non-null exceptions a registration failed if and only if an outcome was stored and no exit is pending |
| FutureProtocol.DeferredAtMostOnce | libcxx/src/future.cpp:164-179 | with any number of waiters the deferred function is entered at most once |
| FutureProtocol.WaiterSeesReady | libcxx/src/future.cpp:148-179 | every waiter without a deadline returns from a ready state |
| FutureProtocol.NothingTerminates | libcxx/src/future.cpp:220-232 | the `set_exception` of the destructor never throws, nor does that of a deferred call |
| FutureProtocol.FutureRetrievedOnce | libcxx/src/future.cpp:189-198 | no more than one future is handed out in any run, and one exactly if the state is marked; `FutureCalls.GetFutureAlone` says that the first call hands one out |
| FutureProtocol.CountIsExact | libcxx/include/memory:3704-3726 | the count is one less than the number of owning pointers; the state is deleted exactly when none is left |
| FutureProtocol.NoUseAfterDelete | libcxx/src/memory.cpp:57-71 | no thread is inside an operation on a deleted state |
| FutureProtocol.DeletedForGood | libcxx/src/memory.cpp:57-71 | nothing happens to a deleted state, so it is not deleted twice |
| FutureProtocol.AssignmentCounts | libcxx/src/future.cpp:290-299 | assignment adds the target to the owners if it was none, and assigning a future to itself changes nothing |
| FutureProtocol.StepKeepsInvariant | libcxx/src/future.cpp:85-232 | every step of every thread keeps all of the protocol's invariants |
| FutureProtocol.AnnouncedKept | libcxx/src/future.cpp:140-146 | every step keeps it that nobody sleeps on a ready state unless the mutex holder is about to notify |
| FutureProtocol.ScheduledKept | libcxx/src/thread.cpp:191-218 | every step keeps it that a stored outcome is ready, registered for some thread's exit, about to be registered, or lost by a failed registration |
| FutureProtocol.CarriedKept | libcxx/src/future.cpp:164-179 | every step keeps it that, once the deferred flag is cleared, some thread carries the call until an outcome is stored |
| FutureCalls.AllowedAtRest | libcxx/src/future.cpp:91-232 | when no thread is inside a call, every call is possible whose promise or futures are there |
| FutureCalls.GetFutureAlone | libcxx/src/future.cpp:189-198 | from every reachable state with a live promise, no other thread in `get_future` and the mutex free, the steps of the caller alone end with the future among the owners exactly if none was retrieved before; the state is then marked, one future is retrieved, and nothing else changes |
| FutureCalls.SetAlone | libcxx/src/future.cpp:91-126 | a setter is refused and changes nothing if there is a value; otherwise its outcome is stored, the state is ready, the exception is its own or as it was, and all sleepers are awake |
| FutureCalls.SetAtExitAlone | libcxx/src/future.cpp:103-138 | at thread exit the outcome is stored without becoming ready, and the state gets an entry in the list of the thread exactly if there is memory for it |
| FutureCalls.WaitAlone | libcxx/src/future.cpp:148-179 | a waiter without deadline returns from a ready state; the one in `get` gives its reference away, and the last reference deletes the state |
| FutureCalls.SleepAlone | libcxx/src/future.cpp:164-179 | with nothing stored or deferred the waiter falls asleep, lets the mutex go and changes nothing |
| FutureCalls.WakeExactly | libcxx/src/future.cpp:176-178 | a sleeper that is told goes for the mutex, and nothing else changes |
| FutureCalls.WakeAlone | libcxx/src/future.cpp:176-178 | a sleeper that was told returns when the state is ready |
| FutureCalls.TimedAlone | libcxx/include/future:593-603 | a waiter with a deadline returns from a ready or deferred state, or when the deadline has passed, and changes nothing |
| FutureCalls.DeferredAlone | libcxx/src/future.cpp:169-174 | the first waiter on a deferred function runs it once, its outcome is the only one, the state is ready, and all sleepers are awake |
| FutureCalls.DropPromiseAlone | libcxx/src/future.cpp:220-232 | the destructor of a promise stores `broken_promise` exactly if there is no value and another owner; its reference goes, and with the last one the state |
| FutureCalls.ExitBegins | libcxx/src/thread.cpp:191-203 | the exit of a thread begins with its list |
| FutureCalls.ExitAlone | libcxx/src/thread.cpp:191-211 | one entry of the list of an exiting thread: the state becomes ready, all sleepers are awake, the reference goes |
| FutureCalls.ScanExactly | libcxx/src/thread.cpp:191-211 | the exit goes on to an entry of the list, and ends exactly when none is left |
| FutureCalls.DropFutureExactly | libcxx/src/future.cpp:200-204 | the future is no owner any more, and the last owner deletes the state |
| FutureCalls.CopyFutureExactly | libcxx/include/future:2526-2527 | the copy is one more owner |
| FutureCalls.MoveFutureExactly | libcxx/include/future:1290-1310 | the target is an owner in place of the source |
| FutureCalls.FutureIsTaken | libcxx/src/future.cpp:189-198 | a run in which a future is taken from a fresh promise |
| FutureCalls.WaiterSleeps | libcxx/src/future.cpp:164-179 | a run in which a thread then waits on it and sleeps |
| FutureCalls.WaiterSeesValue | libcxx/src/future.cpp:91-179 | the setter then wakes the waiter, which returns from a ready state with the value |
| FutureCalls.NullExceptionIsReplaced | libcxx/src/future.cpp:115-126 | a run in which a null exception makes the state ready and a value then replaces it |
| FutureCalls.RegistrationIsLost | libcxx/src/thread.cpp:213-218 | a run in which the registration fails behind the store |
| SweepLine.Sweep | clang-tools-extra/clang-tidy/ClangTidyDiagnosticConsumer.cpp:535-546 | the marks left by the loop are exactly the errors with an interval that conflicts with another one; the open count ends at 0 |
| SweepLine.Sort | clang-tools-extra/clang-tidy/ClangTidyDiagnosticConsumer.cpp:534 | the events in the order of their priorities, each as often as before |
| SweepLine.TiedEvents | clang-tools-extra/clang-tidy/ClangTidyDiagnosticConsumer.cpp:454-486 | events have equal priorities only if they come from equal intervals of one error |
| SweepLine.PairDecides | clang-tools-extra/clang-tidy/ClangTidyDiagnosticConsumer.cpp:456-486 | in the sorted order an interval is open at another one's end points exactly if the two conflict |
| SweepLine.MarksDecide | clang-tools-extra/clang-tidy/ClangTidyDiagnosticConsumer.cpp:536-545 | no event of an error finds another interval open exactly if the error conflicts with none |
| SweepLine.CountStep | clang-tools-extra/clang-tidy/ClangTidyDiagnosticConsumer.cpp:536-545 | the count is the number of open intervals, so it is never negative, and decides the mark |
| FixConflicts.RemoveIncompatibleErrors | clang-tools-extra/clang-tidy/ClangTidyDiagnosticConsumer.cpp:437-556 | of the returned errors, field by field: the fix is the one given exactly if in each file every other interval is disjoint from its own or inside it, and empty otherwise; one note is added exactly if it goes; nothing else changes |
| FixConflicts.SweepFiles | clang-tools-extra/clang-tidy/ClangTidyDiagnosticConsumer.cpp:530-547 | the flags of all files together |
| FixConflicts.BuildEvents | clang-tools-extra/clang-tidy/ClangTidyDiagnosticConsumer.cpp:501-528 | per file, a begin and an end event for each replacement that is not an insertion |
| FixConflicts.EventsDecide | clang-tools-extra/clang-tidy/ClangTidyDiagnosticConsumer.cpp:512-528 | conflicts among a file's events are conflicts among the replacements in that file |
| FixConflicts.KeptFixesAreDisjoint | clang-tools-extra/clang-tidy/ClangTidyDiagnosticConsumer.cpp:439-445 | the fixes that are kept touch pairwise disjoint parts of every file |
| FixConflicts.CrossingFixesAreBothDropped | clang-tools-extra/clang-tidy/ClangTidyDiagnosticConsumer.cpp:439-445 | of two intervals that overlap without one containing the other, neither fix is kept |
| FixConflicts.InsideMeansContained | clang-tools-extra/clang-tidy/ClangTidyDiagnosticConsumer.cpp:482-498 | the priorities express containment except for intervals with one common end whose other ends lie on different sides of 2^31, and for all of those they do not |
| FixConflicts.KeptFixesContainTheirOverlaps | clang-tools-extra/clang-tidy/ClangTidyDiagnosticConsumer.cpp:456-486 | in files of at most 2^31 characters a fix is kept exactly if it contains whatever it overlaps |
| FixConflicts.UnitsKeepContainingFixes | clang-tools-extra/clang-tidy/ClangTidyDiagnosticConsumer.cpp:437-556 | in every unit, whose positions come from one source manager, exactly the fixes are kept that contain whatever they overlap |
| FixConflicts.CoveredIsSize | clang-tools-extra/clang-tidy/ClangTidyDiagnosticConsumer.cpp:501-509 | the size of a fix is the number of positions that its replacements cover |
| FixConflicts.ApplicableExactly | clang-tools-extra/clang-tidy/ClangTidyDiagnosticConsumer.cpp:437-556 | in every unit a fix is kept exactly if each of its replacements covers whatever replacement of that file it clashes with: it is longer, or the same in a fix of greater size |
| FixConflicts.NothingClashes | clang-tools-extra/clang-tidy/ClangTidyDiagnosticConsumer.cpp:439-445 | no two replacements of different kept fixes, and none of one fix, share a character of a file |
| FixConflicts.SourcesAreRepresentable | clang/include/clang/Basic/SourceManager.h:632-634 | offsets end at 2^31 - 1 and the replacements of a fix do not overlap, so that no end wraps and no size overflows |
| Diagnostics.Consumer.HandleDiagnostic | clang-tools-extra/clang-tidy/ClangTidyDiagnosticConsumer.cpp:297-373 | after every diagnostic the error list, flags and counters are those of the blocks seen so far |
| Diagnostics.Consumer.FinalizeLastError | clang-tools-extra/clang-tidy/ClangTidyDiagnosticConsumer.cpp:248-267 | the last error is counted once and dropped exactly if the first test that it fails says so; `DiagnosticLaws.ShownExactly` and `CountersExactly` say what the tests are |
| Diagnostics.Consumer.DropIgnored | clang-tools-extra/clang-tidy/ClangTidyDiagnosticConsumer.cpp:299-311 | drops exactly marked diagnostics that are no errors, and the notes behind a dropped one |
| Diagnostics.Consumer.CheckFilters | clang-tools-extra/clang-tidy/ClangTidyDiagnosticConsumer.cpp:393-428 | each flag is raised exactly if the position relates to user code, or lies on a listed line |
| Diagnostics.Consumer.CheckLineFilter | clang-tools-extra/clang-tidy/ClangTidyDiagnosticConsumer.cpp:375-391 | the first filter whose name the file ends with decides by its ranges |
| Diagnostics.Consumer.IsMarked | clang-tools-extra/clang-tidy/ClangTidyDiagnosticConsumer.cpp:285-295 | some line of the macro expansion chain is marked |
| Diagnostics.Consumer.Finish | clang-tools-extra/clang-tidy/ClangTidyDiagnosticConsumer.cpp:577-588 | the stored errors are those shown, sorted, without duplicates, field by field as they were but for the fixes that are dropped with a note; no two replacements that are stored overlap |
| DuplicateErrors.SortErrors | clang-tools-extra/clang-tidy/ClangTidyDiagnosticConsumer.cpp:580 | the errors in the order of path, offset and text |
| DuplicateErrors.RemoveDuplicates | clang-tools-extra/clang-tidy/ClangTidyDiagnosticConsumer.cpp:581-582 | strictly ascending messages, none new and none lost |
| DiagnosticCounts.EveryDiagnosticIsCounted | clang-tools-extra/clang-tidy/ClangTidyDiagnosticConsumer.cpp:248-311 | displayed, filtered and suppressed add up to the diagnostics that are no notes, plus the accepted ones that lose a note |
| DiagnosticCounts.CountedOnce | clang-tools-extra/clang-tidy/ClangTidyDiagnosticConsumer.cpp:299-311 | every diagnostic is counted exactly once if and only if no accepted one has a suppressed note |
| DiagnosticCounts.MarkedNote | clang-tools-extra/clang-tidy/ClangTidyDiagnosticConsumer.cpp:217-262 | a warning with a note on a marked line is counted twice |
| DiagnosticCounts.TallyCountsGroups | clang-tools-extra/clang-tidy/ClangTidyDiagnosticConsumer.cpp:248-267 | as many errors are shown as were counted as displayed |
| DiagnosticCounts.ErrorsAreDisplayed | clang-tools-extra/clang-tidy/ClangTidyDiagnosticConsumer.cpp:345-353 | an error or fatal error is never suppressed nor filtered and is among the shown ones |
| DiagnosticCounts.NotesStayWithTheirError | clang-tools-extra/clang-tidy/ClangTidyDiagnosticConsumer.cpp:315-372 | an error carries its own message and exactly the accepted notes behind it, in order |
| DiagnosticCounts.BlocksPartition | clang-tools-extra/clang-tidy/ClangTidyDiagnosticConsumer.cpp:315-320 | a unit is cut in front of every diagnostic that is no note, and nothing is lost |
| DiagnosticLaws.ShownExactly | clang-tools-extra/clang-tidy/ClangTidyDiagnosticConsumer.cpp:248-267 | the error of a group is shown exactly if its diagnostic is an error or fatal, or all three hold: its check is enabled, some diagnostic of the group is in user code, and some is on a listed line; shown errors are in order |
| DiagnosticLaws.CountersExactly | clang-tools-extra/clang-tidy/ClangTidyDiagnosticConsumer.cpp:248-267 | every counter is the number of groups that fail its test and none before it, or that pass all three |
| DiagnosticLaws.VerdictExactly | clang-tools-extra/clang-tidy/ClangTidyDiagnosticConsumer.cpp:249-263 | the tests come in that order, and an error passes all of them |
| DiagnosticLaws.UserCodeExactly | clang-tools-extra/clang-tidy/ClangTidyDiagnosticConsumer.cpp:393-423 | a position is in user code if it is invalid or without a file, or in the main file or a header that the filter matches; in a system header only if these are asked for |
| DiagnosticLaws.ListedLineExactly | clang-tools-extra/clang-tidy/ClangTidyDiagnosticConsumer.cpp:375-428 | a position is on a listed line if it is invalid or without a file, or the first line filter whose name ends the name of the file lists the line or has no ranges; system headers as before |
| DiagnosticLaws.LineFilterExactly | clang-tools-extra/clang-tidy/ClangTidyDiagnosticConsumer.cpp:375-391 | the first filter whose name the file ends with decides alone |
| DiagnosticLaws.NameExactly | clang-tools-extra/clang-tidy/ClangTidyDiagnosticConsumer.cpp:321-343 | a warning option gives the name, else the registered name, else the level |
| DiagnosticLaws.SuppressedExactly | clang-tools-extra/clang-tidy/ClangTidyDiagnosticConsumer.cpp:285-310 | a diagnostic is suppressed exactly if it has a position, is no error, and its line or that of an expansion around it is marked |
| DiagnosticLaws.AcceptedExactly | clang-tools-extra/clang-tidy/ClangTidyDiagnosticConsumer.cpp:297-312 | what is accepted of a diagnostic and its notes ends in front of the first suppressed one |
| DiagnosticLaws.GroupsExactly | clang-tools-extra/clang-tidy/ClangTidyDiagnosticConsumer.cpp:316-359 | every diagnostic that is accepted gives one error with its notes, in order |
| DiagnosticLaws.SuppressedBlocksExactly | clang-tools-extra/clang-tidy/ClangTidyDiagnosticConsumer.cpp:302-309 | one suppression is counted for every diagnostic that is not accepted with all its notes |
| DiagnosticLaws.ErrorExactly | clang-tools-extra/clang-tidy/ClangTidyDiagnosticConsumer.cpp:39-90 | the error has the name, level, place and text of its diagnostic, the notes in order, and the fixes of all of them; it is a warning treated as an error exactly if it is a warning and the filter has its name |
| DiagnosticLaws.MessageOrder | clang-tools-extra/clang-tidy/ClangTidyDiagnosticConsumer.cpp:559-567 | messages are ordered by path, then by offset, then by text |
| StringOrder.StringLessExactly | clang-tools-extra/clang-tidy/ClangTidyDiagnosticConsumer.cpp:564-565 | a text is less if it is a proper beginning of the other one or less where they first differ |
| CheckGlobs.EscapingPreservesMatching | clang-tools-extra/clang-tidy/ClangTidyDiagnosticConsumer.cpp:131-143 | the regular expression made of a glob describes exactly the names that the glob matches |
| CheckGlobs.BuildRegex | clang-tools-extra/clang-tidy/ClangTidyDiagnosticConsumer.cpp:133-142 | the loop that escapes special characters and turns stars into any characters |
| CheckGlobs.LiteralMatchesItself | clang-tools-extra/clang-tidy/ClangTidyDiagnosticConsumer.cpp:135-142 | a glob without a star matches itself alone |
| CheckGlobs.StarMatchesAll | clang-tools-extra/clang-tidy/ClangTidyDiagnosticConsumer.cpp:136-137 | a star matches everything |
| CheckGlobs.ConcatenationMatches | clang-tools-extra/clang-tidy/ClangTidyDiagnosticConsumer.cpp:135-142 | globs after each other match the parts of a name, however it is cut |
| CheckGlobs.SpecialIsEscaped | clang-tools-extra/clang-tidy/ClangTidyDiagnosticConsumer.cpp:134-139 | every character that is special in an extended regular expression is escaped |
| CheckGlobs.ParsedListDecides | clang-tools-extra/clang-tidy/ClangTidyDiagnosticConsumer.cpp:146-157 | for every list the parsed globs give a non-empty name the sign of the last glob read that matches it |
| CheckGlobs.VerdictExactly | clang-tools-extra/clang-tidy/ClangTidyDiagnosticConsumer.cpp:150-157 | the verdict is that of the last entry that matches, and there is none exactly if none does |
| CheckGlobs.MeantExactly | clang-tools-extra/clang-tidy/ClangTidyDiagnosticConsumer.cpp:121-131 | an item is meant to switch a glob off if a minus sign is the first thing in it but for white space, to switch it on otherwise, and without a glob nothing |
| CheckGlobs.ReadsWhatIsMeant | clang-tools-extra/clang-tidy/ClangTidyDiagnosticConsumer.cpp:121-149 | the globs read are those between the commas if and only if no white space in front of one hides a minus or makes its end be read again |
| CheckGlobs.FilterSelects | clang-tools-extra/clang-tidy/ClangTidyDiagnosticConsumer.cpp:121-157 | for such lists the filter decides by the last glob of the list that matches |
| CheckGlobs.HiddenMinus | clang-tools-extra/clang-tidy/ClangTidyDiagnosticConsumer.cpp:121-132 | for `*, -b` the filter still selects b |
| CheckOptions.MergedFilterSelects | clang-tools-extra/clang-tidy/ClangTidyOptions.cpp:169-175 | the filter folded from the defaults and any sources follows the last matching glob of the last of all these that has one |
| CheckOptions.MergedIsReadAsMeant | clang-tools-extra/clang-tidy/ClangTidyOptions.cpp:105-117 | the merged list is read as the entries of all the lists if and only if each list is read as it is meant; the modules may have set checks too |
| CheckOptions.MergedLists | clang-tools-extra/clang-tidy/ClangTidyOptions.cpp:130-134 | a merged list holds the entries of both, in order |
| CheckOptions.WithoutSpaces | clang-tools-extra/clang-tidy/ClangTidyDiagnosticConsumer.cpp:130-132 | lists without white space are read as they are meant |
| CheckOptions.GetOptions | clang-tools-extra/clang-tidy/ClangTidyOptions.cpp:169-175 | the loop folds the sources in order |
| CheckOptions.LastSourceDecides | clang-tools-extra/clang-tidy/ClangTidyOptions.cpp:136-150 | every single value is that of the last source that sets it, and unset exactly if none does |
| CheckOptions.LastCheckOption | clang-tools-extra/clang-tidy/ClangTidyOptions.cpp:154-155 | the option of a check is what the last source that has it says |
| CheckOptions.ArgumentsAreGathered | clang-tools-extra/clang-tidy/ClangTidyOptions.cpp:119-128 | the extra arguments are those of all sources, in order, and set exactly if some source sets them |
| CheckOptions.MergeIsAssociative | clang-tools-extra/clang-tidy/ClangTidyOptions.cpp:142-159 | merging can be regrouped if and only if no empty list stands between a non-empty and another one |
| CheckOptions.GroupingKeepsEntries | clang-tools-extra/clang-tidy/ClangTidyOptions.cpp:130-134 | however lists are grouped, they hold the same entries |
| OptionsCache.FileOptionsProvider.GetRawOptions | clang-tools-extra/clang-tidy/ClangTidyOptions.cpp:223-261 | the cached search finds what a search without a memory finds: the defaults first, the nearest configuration if there is one, and the command line last; it remembers what it found |
| OptionsCache.FileOptionsProvider.Remember | clang-tools-extra/clang-tidy/ClangTidyOptions.cpp:244-251 | exactly the directories on the way are added to the cache, each with its nearest configuration |
| OptionsCache.FileOptionsProvider.TryReadConfigFile | clang-tools-extra/clang-tidy/ClangTidyOptions.cpp:263-308 | the first handler whose file can be parsed, in an existing directory |
| OptionsCache.FileOptionsProvider.GetOptions | clang-tools-extra/clang-tidy/ClangTidyOptions.cpp:169-175 | the merged options of the default, the nearest configuration and the command line |
| OptionsCache.FileOptionsProvider.GetAll | clang-tools-extra/clang-tidy/ClangTidyOptions.cpp:223-261 | over any sequence of queries every answer is that of the search without a memory |
| OptionsCache.NearestIsLongestPrefix | clang-tools-extra/clang-tidy/ClangTidyOptions.cpp:231-256 | the nearest configuration is that of the longest non-empty prefix of the path that has one |
| OptionsCache.ConfigInExactly | clang-tools-extra/clang-tidy/ClangTidyOptions.cpp:263-308 | a directory that exists is configured by the first handler whose file can be parsed there; missing, empty and malformed files are passed over |
| OptionsCache.FileNameExactly | clang-tools-extra/clang-tidy/ClangTidyOptions.cpp:273-276 | the reported name is that of the file behind the components of its directory, with a slash each |
| HelperGraph.HelperDeclRefGraph.AddEdge | clang-tools-extra/clang-move/HelperDeclRefGraph.cpp:36-51 | adds exactly one edge between first redeclarations, and nothing for a reference to itself |
| HelperGraph.HelperDeclRefGraph.GetOrInsertNode | clang-tools-extra/clang-move/HelperDeclRefGraph.cpp:54-61 | one node for each first redeclaration |
| HelperGraph.HelperDeclRefGraph.VisitNode | clang-tools-extra/clang-move/HelperDeclRefGraph.cpp:75-82 | a visit marks nodes that the start reaches, with all their callees, and ends on every graph |
| HelperGraph.HelperDeclRefGraph.GetReachableNodes | clang-tools-extra/clang-move/HelperDeclRefGraph.cpp:69-86 | exactly the reflexive and transitive closure of the root, or nothing without a node for it |
| HelperGraph.HelperDeclRefGraph.GetUsedDecls | clang-tools-extra/clang-move/ClangMove.cpp:441-458 | exactly what the outermost class or function of some declaration reaches |
| HelperGraph.UsedIsClosed | clang-tools-extra/clang-move/ClangMove.cpp:441-458 | what is used is closed under references |
| Declarations.GetOutmostClassOrFunDecl | clang-tools-extra/clang-move/HelperDeclRefGraph.cpp:88-99 | the loop finds the last class or function in the chain of contexts |
| Declarations.OutmostIsOutermost | clang-tools-extra/clang-move/HelperDeclRefGraph.cpp:88-99 | no class or function encloses the result, or there is none and it is the declaration itself |
| Declarations.NamesExactly | clang-tools-extra/clang-move/ClangMove.cpp:337-350 | the names of the outer contexts come first, and a context that is no namespace has none |
| DeclMover.ClangMoveTool.MoveDeclsToNewFiles | clang-tools-extra/clang-move/ClangMove.cpp:758-783 | header declarations, and the others without the helpers that no removed declaration uses |
| DeclMover.ClangMoveTool.RemoveDeclsInOldFiles | clang-tools-extra/clang-move/ClangMove.cpp:686-708 | the helpers that no remaining declaration uses are removed, given an old header |
| DeclMover.SidesExactly | clang-tools-extra/clang-move/ClangMove.cpp:758-767 | the new header takes exactly the moved declarations of the old header, the new source file exactly the others, each in order |
| DeclMover.CopiedInOrder | clang-tools-extra/clang-move/ClangMove.cpp:769-783 | of those all stay, in order, but the helpers whose outermost class or function is not used |
| DeclMover.UnneededInOrder | clang-tools-extra/clang-move/ClangMove.cpp:698-706 | exactly the helpers whose outermost class or function is not used are removed, in order |
| DeclMover.NeededExactly | clang-tools-extra/clang-move/ClangMove.cpp:701-702 | a helper counts as needed if and only if a root reaches it and its outermost class or function is its own first redeclaration |
| DeclMover.NeededIsClosed | clang-tools-extra/clang-move/ClangMove.cpp:441-458 | what a needed helper refers to is needed if and only if it was not declared before |
| DeclMover.CopiedExactly | clang-tools-extra/clang-move/ClangMove.cpp:769-783 | helpers copied to the new file are exactly those reached from removed declarations whose outermost class or function is its own first redeclaration |
| DeclMover.KeptExactly | clang-tools-extra/clang-move/ClangMove.cpp:692-708 | helpers kept in the old file are exactly those reached from unremoved declarations, under the same condition |
| DeclMover.RedeclaredHelperIsLost | clang-tools-extra/clang-move/ClangMove.cpp:701-778 | a helper whose first redeclaration is another one is neither copied nor kept |
| DeclMover.RedeclaredHelperExample | clang-tools-extra/clang-move/HelperDeclRefGraph.cpp:53-61 | such a helper that is used exists |
| NamespacePrinter.CreateInsertedReplacements | clang-tools-extra/clang-move/ClangMove.cpp:352-439 | the loops print the guard, the includes, the declarations between their namespaces, and the closing names |
| NamespacePrinter.PrintedIsPlaced | clang-tools-extra/clang-move/ClangMove.cpp:377-433 | read back with a stack, each declaration appears once, in order, under its path; closes name the innermost namespace and none is left open |
| NamespacePrinter.NothingIsReopened | clang-tools-extra/clang-move/ClangMove.cpp:385-413 | no namespace is closed that the next declaration shares |
| NamespacePrinter.SameNamespaceStaysOpen | clang-tools-extra/clang-move/ClangMove.cpp:423-428 | declarations of one namespace are only separated by an empty line |
| NamespacePrinter.EmptyLinesBetween | clang-tools-extra/clang-move/ClangMove.cpp:396-428 | one empty line stands behind namespaces that are closed, and one in front of a declaration if no namespace is opened for it |
| NamespacePrinter.GuardEnclosesHeader | clang-tools-extra/clang-move/ClangMove.cpp:357-367 | a header stands in its guard, two lines at its start and one at its end; no other file has any of them |
| NamespacePrinter.GuardNameExactly | clang-tools-extra/clang-move/ClangMove.cpp:358-364 | the guard is the name of the file with capital letters, and underscores for all but letters and digits |
| NamespacePrinter.IncludesArePrinted | clang-tools-extra/clang-move/ClangMove.cpp:369-376 | the file includes the old header, if it is to, then the given lines in order, and nothing else |
| NamespacePrinter.PrologueIsFirst | clang-tools-extra/clang-move/ClangMove.cpp:369-433 | no include stands behind a namespace or a declaration |
| NamespacePrinter.GetNamespaces | clang-tools-extra/clang-move/ClangMove.cpp:337-350 | the names up to the unit or a linkage specification, outermost first |
| NamespacePrinter.PathIsComplete | clang-tools-extra/clang-move/ClangMove.cpp:339-347 | the path found is the whole path if and only if no namespace stands around a linkage specification |
| NamespacePrinter.SearchStops | clang-tools-extra/clang-move/ClangMove.cpp:339-347 | the names found are those inside the first linkage specification, or inside the whole unit |
| NamespacePrinter.LinkageHides | clang-tools-extra/clang-move/ClangMove.cpp:337-350 | a namespace around a linkage specification is not found |
| NamespacePrinter.PlacedWhereItWas | clang-tools-extra/clang-move/ClangMove.cpp:337-430 | a declaration is printed in the namespaces that enclosed it under exactly that condition |
| QualifiedNames.GetShortestQualifiedNameInNamespace | clang-tools-extra/change-namespace/ChangeNamespace.cpp:202-217 | the character loop leaves out the longest common prefix of components, but never the last component |
| QualifiedNames.ShortestName | clang-tools-extra/change-namespace/ChangeNamespace.cpp:196-217 | the result is the shortest name that some prefix of the namespace completes to the full name, and the full name if there is none |
| QualifiedNames.SplitJoin | clang-tools-extra/change-namespace/ChangeNamespace.cpp:21-29 | splitting at double colons undoes joining; the empty name still has one, empty, piece |
| QualifiedNames.QualifierIsPrefix | clang-tools-extra/change-namespace/ChangeNamespace.cpp:209 | a qualifier is a prefix of a name as a string exactly if its components are a proper prefix |
| NamespaceChange.DiffNamespaces | clang-tools-extra/change-namespace/ChangeNamespace.cpp:264-277 | both differences are what follows the longest common prefix, also for the global namespace |
| NamespaceChange.HasName | clang/lib/ASTMatchers/ASTMatchersInternal.cpp:409-453 | from the inside every namespace gives the last component left or, if it is inline or anonymous, is skipped |
| NamespaceChange.GetOuterNamespace | clang-tools-extra/change-namespace/ChangeNamespace.cpp:65-87 | a namespace is found exactly if the partial name is a suffix of the path, and it is where that suffix begins |
| NamespaceChange.NothingSkipped | clang-tools-extra/change-namespace/ChangeNamespace.cpp:65-87 | the chain ends with some components of a matched name exactly if no unwritten namespace stands between them |
| NamespaceChange.InsertionPoint | clang-tools-extra/change-namespace/ChangeNamespace.cpp:569-586 | the line behind the outer namespace if the chain of contexts ends with the components that differ, and otherwise the start of the code, one character behind the brace |
| NamespaceChange.NothingIsLeftBehind | clang-tools-extra/change-namespace/ChangeNamespace.cpp:526-541 | the code taken out is all that stands between the braces, white space aside, if and only if white space follows the opening brace |
| NamespaceChange.GetStartOfNextLine | clang-tools-extra/change-namespace/ChangeNamespace.cpp:111-125 | the length of the line as it is read, with escaped line breaks folded, is taken for its length in the file; one more but at the end of the file |
| NamespaceChange.NextLineIsExact | clang/lib/Lex/Lexer.cpp:2464-2508 | for a line that ends in a line break it is the place behind that break if and only if none is escaped before |
| NamespaceChange.EffectIsApplied | clang-tools-extra/change-namespace/ChangeNamespace.cpp:576-584 | a line leaves some scopes and then enters others, and that is all it does to what is open |
| NamespaceChange.SizeOfNextShifts | clang/lib/Lex/Lexer.cpp:1261-1317 | how many characters are read as one does not depend on what is in front |
| NamespaceChange.WrapCodeInNamespace | clang-tools-extra/change-namespace/ChangeNamespace.cpp:219-233 | the inside-out loop wraps the code in all names, in order |
| NamespaceChange.WrapOpensAndCloses | clang-tools-extra/change-namespace/ChangeNamespace.cpp:219-233 | by what its characters are said to enter and to leave, the wrapping opens exactly the names in front of the code and closes them behind it, comments included |
| NamespaceReader.WrappingIsRead | clang-tools-extra/change-namespace/ChangeNamespace.cpp:219-233 | a reader of the characters alone, which knows the keyword, names, braces and comments, reads the opening part as exactly the names, in order, and the closing part as leaving exactly them; so what the characters are said to enter and to leave is what they spell |
| NamespaceReader.OpeningsAreRead | clang-tools-extra/change-namespace/ChangeNamespace.cpp:224-231 | whatever is open, and whatever follows, the opening part is read as opening all the names |
| NamespaceReader.ClosingsAreRead | clang-tools-extra/change-namespace/ChangeNamespace.cpp:224-231 | the closing part is read as closing just as many, the innermost first |
| NamespaceReader.OpenLineExactly | clang-tools-extra/change-namespace/ChangeNamespace.cpp:227-228 | the line that opens a namespace is the keyword, its name and a brace |
| NamespaceReader.CloseLineExactly | clang-tools-extra/change-namespace/ChangeNamespace.cpp:229-230 | the line that closes it is a brace and a comment with its name |
| NamespaceReader.PartsExactly | clang-tools-extra/change-namespace/ChangeNamespace.cpp:224-231 | the outermost name is opened first and closed last |
| NamespaceReader.WrappedExactly | clang-tools-extra/change-namespace/ChangeNamespace.cpp:219-233 | the code stands between the two parts as it was, with a line break behind it if it lacks one |
| NamespaceReader.NothingElseMoves | clang-tools-extra/change-namespace/ChangeNamespace.cpp:545-589 | taking the wrapped code out of the new file gives the old one without the code: all in front of the insertion point and behind it is as it was |
| NamespaceChange.MovedCodeStandsInNewNamespace | clang-tools-extra/change-namespace/ChangeNamespace.cpp:545-589 | for every nest that the matcher accepts and every text around it: the whole code stands in what remains around the first component that differs and in the rest of the new name, and in no comment, class or other construct, if and only if white space follows the brace and there is no such component, or nothing unwritten stands further inside and the line on which the outer namespace ends leads back to what remains |
| NamespaceChange.ExactlyInNewNamespace | clang-tools-extra/change-namespace/ChangeNamespace.cpp:545-589 | it stands in exactly the new namespace if and only if, besides, nothing unwritten is left around it |
| NamespaceChange.CodeIsThere | clang-tools-extra/change-namespace/ChangeNamespace.cpp:856-871 | the code taken out is in the new file unchanged, behind the opened names |
| NamespaceChange.BracesOnTwoLines | clang-tools-extra/change-namespace/ChangeNamespace.cpp:576-584 | with each brace on its own line the code of a::b moved to a::c stands in a::c |
| NamespaceChange.BracesOnOneLine | clang-tools-extra/change-namespace/ChangeNamespace.cpp:576-584 | with two closing braces on one line the code of a::b moved to a::c stands in c |
| NamespaceChange.CommentBehindBrace | clang/lib/Lex/Lexer.cpp:2464-2508 | with a comment that begins behind the brace and ends on the next line it stands in the comment |
| NamespaceChange.EscapedLineBreak | clang/lib/Lex/Lexer.cpp:1261-1297 | with an escaped line break the line is taken for shorter than it is, and the code stands in the comment |
| NamespaceChange.NestedDefinition | clang/lib/Parse/ParseDeclCXX.cpp:209-248 | a nested namespace definition ends all its namespaces with one brace, and the code of a::b moved to a::c stands in c |
| NamespaceChange.ClassBehindBrace | clang-tools-extra/change-namespace/ChangeNamespace.cpp:526-541 | of a class directly behind the brace the first character is left behind |
| NamespaceChange.InlineBetween | clang-tools-extra/change-namespace/ChangeNamespace.cpp:65-87 | with an inline namespace between, the code of a::b moved to x stands in a::v::b::x |
| PreprocessorTracker.Tracker.HandleHeaderEntry | clang-tools-extra/modularize/PreprocessorTracker.cpp:896-906 | pushes the header unless it is on top; the header counts as nested exactly if it was entered before in this compilation |
| PreprocessorTracker.Tracker.HandleHeaderExit | clang-tools-extra/modularize/PreprocessorTracker.cpp:909-922 | cuts the stack just below the last occurrence of the header, or leaves it; the flag goes down whatever is still open |
| PreprocessorTracker.Tracker.HandlePreprocessorEntry | clang-tools-extra/modularize/PreprocessorTracker.cpp:812-819 | the stack is the root header; the nesting flag of the compilation before is kept |
| PreprocessorTracker.Tracker.HandlePreprocessorExit | clang-tools-extra/modularize/PreprocessorTracker.cpp:821 | the stack is empty |
| PreprocessorTracker.Tracker.AddHeader | clang-tools-extra/modularize/PreprocessorTracker.cpp:961-969 | the table stays free of duplicates and handles keep their meaning |
| PreprocessorTracker.Tracker.AddInclusionPathHandle | clang-tools-extra/modularize/PreprocessorTracker.cpp:1009-1029 | each path has one handle, which never changes |
| PreprocessorTracker.Tracker.PushHeaderHandle | clang-tools-extra/modularize/PreprocessorTracker.cpp:979-982 | the current handle denotes exactly the header stack |
| PreprocessorTracker.Tracker.PopHeaderHandle | clang-tools-extra/modularize/PreprocessorTracker.cpp:984-990 | the current handle denotes exactly the shortened stack |
| PreprocessorTracker.Tracker.FindHeaderHandle | clang-tools-extra/modularize/PreprocessorTracker.cpp:948-957 | the handle of the canonical path, exactly if it is in the table |
| PreprocessorTracker.Tracker.AddMacroExpansionInstance | clang-tools-extra/modularize/PreprocessorTracker.cpp:1045-1090 | records the expansion unless the flag is up; the table summarises all that was recorded but for the file of the definition |
| PreprocessorTracker.Tracker.AddConditionalExpansionInstance | clang-tools-extra/modularize/PreprocessorTracker.cpp:1092-1129 | records the condition unless in a nested header; the table summarises all that was recorded |
| PreprocessorTracker.Tracker.ReportInconsistentMacros | clang-tools-extra/modularize/PreprocessorTracker.cpp:1133-1187 | true exactly if two recorded expansions with one key differ in text, or in line or column of the definition; that is right exactly if it is true or no two differ in the file only |
| PreprocessorTracker.ReportIsRight | clang-tools-extra/modularize/PreprocessorTracker.cpp:1056-1057 | the report agrees with one by the true places of the definitions exactly if it finds something or no two events of a key differ in the file only |
| PreprocessorTracker.MeaningsAreListed | clang-tools-extra/modularize/PreprocessorTracker.cpp:607-628 | each meaning that a macro had at a place is an instance of its own exactly if no two there differ in the file only |
| PreprocessorTracker.FileIsLost | clang-tools-extra/modularize/PreprocessorTracker.cpp:1056-1057 | two definitions on one line and column of two files are taken for one |
| PreprocessorTracker.FlagMeansNested | clang-tools-extra/modularize/PreprocessorTracker.cpp:896-922 | the nesting flag agrees with an open header having been entered before if and only if it is not left over from the compilation before and none was, or one entered since the last exit was in the set |
| PreprocessorTracker.FlagInRuns | clang-tools-extra/modularize/PreprocessorTracker.cpp:896-922 | so it is in every run of entries and exits; and unless left over the flag is only up when an open header was entered before |
| PreprocessorTracker.RunsExactly | clang-tools-extra/modularize/PreprocessorTracker.cpp:896-922 | read off the moves: the headers entered in this compilation, those of them entered while the flag was down, and the flag, which an entry raises exactly if its header is in that set and every exit lowers |
| PreprocessorTracker.OpenExactly | clang-tools-extra/modularize/PreprocessorTracker.cpp:896-922 | an entry opens its header, entered before or not; an exit cuts in front of the last open header of that name, or leaves all if there is none |
| PreprocessorTracker.Tracker.FlagIsThatOfNesting | clang-tools-extra/modularize/PreprocessorTracker.cpp:896-922 | the same condition for the flag of the tracker itself |
| PreprocessorTracker.NestingIsLost | clang-tools-extra/modularize/PreprocessorTracker.cpp:909-922 | an outer header is entered again and an inner one left: the flag is down in the outer one |
| PreprocessorTracker.NestedIsNotRemembered | clang-tools-extra/modularize/PreprocessorTracker.cpp:903-906 | a header first entered inside a nested one does not count as entered later |
| PreprocessorTracker.Tracker.ReportInconsistentConditionals | clang-tools-extra/modularize/PreprocessorTracker.cpp:1191-1236 | true exactly if two recorded conditions with one key had different values |
| PreprocessorTracker.CutIsLongestPrefix | clang-tools-extra/modularize/PreprocessorTracker.cpp:915-920 | what remains is the prefix in front of the last occurrence |
| PreprocessorTracker.CanonicalExactly | clang-tools-extra/modularize/PreprocessorTracker.cpp:928-932 | paths keep their length and every backslash becomes a slash |
| InstanceTables.KeysAreOrdered | clang-tools-extra/modularize/PreprocessorTracker.cpp:501-524 | the order of keys is total, and unordered keys are equal |
| InstanceTables.KeyOrderIsTransitive | clang-tools-extra/modularize/PreprocessorTracker.cpp:510-524 | the order of keys is transitive |
| InstanceTables.AddInstance | clang-tools-extra/modularize/PreprocessorTracker.cpp:1058-1089 | a new key, a new value or a known value: the table stays the summary of the events |
| InstanceTables.FindInstance | clang-tools-extra/modularize/PreprocessorTracker.cpp:607-618 | an instance with the value, exactly if there is one |
| InstanceTables.InstancesAreValues | clang-tools-extra/modularize/PreprocessorTracker.cpp:607-628 | the instances of a key are exactly the values seen there |
| InstanceTables.InstancesAreDistinct | clang-tools-extra/modularize/PreprocessorTracker.cpp:560-572 | no value is listed twice, and each keeps one inclusion path only |
| InstanceTables.FirstPathIsKept | clang-tools-extra/modularize/PreprocessorTracker.cpp:560-572 | the path that an instance keeps is that of the first event with its value |
| InstanceTables.PathsAreComplete | clang-tools-extra/modularize/PreprocessorTracker.cpp:560-572 | an instance keeps all paths on which its value was seen if and only if there is only one |
| InstanceTables.SecondPathIsLost | clang-tools-extra/modularize/PreprocessorTracker.cpp:560-572 | of two paths on which a value was seen the second is not kept |
| InstanceTables.ManyInstancesMeanMismatch | clang-tools-extra/modularize/PreprocessorTracker.cpp:631 | more than one instance exactly if two events with the key differ |
| InstanceTables.HasMismatches | clang-tools-extra/modularize/PreprocessorTracker.cpp:1133-1146 | the walk over all keys finds a mismatch exactly if there is one |
| InstanceTables.HaveInclusionPathHandle | clang-tools-extra/modularize/PreprocessorTracker.cpp:560-567 | always true, because the error value that stands for absence counts as true |

## Left out

- NextPrime.NextPrime: models the overload for 8-byte `size_t`; the one for 4 bytes differs only in its bound.
- HashTable.Table.Insert: asks for a fresh key, as the callers ensure; whether an allocation succeeds is an argument.
- DebugDb.DebugDb.InsertC: takes the back-pointer range of a new container node as empty, since libcxx/src/debug.cpp:243-246 leaves it to the caller.
- DebugDb.DebugDb.Swap: asks for two registered containers, which the source asserts.
- DebugDb.DebugDb.FindC: the operations are one step each; the guards that lock the mutex around them, the destructor and the virtual questions about dereferencing and adding are not modelled.
- DeltaDebugging.DeltaAlgorithm.Run: takes the test as a function and distinct changes; when the start is forced and does not pass, the result need not pass either.
- FutureProtocol.FutureRetrievedOnce: holds for calls of `get_future` that do not overlap; the source tests the flag without the mutex.
- FutureProtocol.WaiterSeesReady: leaves out waiters with a deadline, whose returned status is not part of the state.
- FutureProtocol.StepKeepsInvariant: steps are sequentially consistent, also the relaxed load of the count; a store of flags and exception is one step inside the critical section; the stored value itself, `promise` moves and swaps, `packaged_task`, the state of `async`, and setters at thread exit in threads that have no exit list are not modelled.
- FixConflicts.RemoveIncompatibleErrors: asks that ends fit `unsigned` and that the size of a fix fits `int`, which `FixConflicts.SourcesAreRepresentable` proves of every unit; file keys of a fix are not used by the sweep and not modelled; merging of replacements is not modelled.
- SweepLine.Sort: inserts one event after another; the order among equal events is left open by the source and does not matter.
- Diagnostics.Consumer.HandleDiagnostic: takes the text without the check name in brackets, check names as structured values, both filters as the sets of names they select, and the header filter as the set of files it matches; options do not change within a unit, counters do not wrap, and a unit does not begin with a note.
- Diagnostics.Consumer.Finish: the errors are asked to be representable as for the sweep; conflicts among the replacements of one fix are not rejected.
- CheckGlobs.EscapingPreservesMatching: reads only the regular expressions that the escaping produces; the regular expression engine is not modelled.
- CheckOptions.MergedFilterSelects: asks for a non-empty check name and for lists that are read as they are meant; `CheckOptions.MergedIsReadAsMeant` says when the merged list is.
- OptionsCache.FileOptionsProvider.GetRawOptions: takes paths as lists of components and a disk that does not change; reading and parsing files are a table of results.
- DeclMover.ClangMoveTool.MoveDeclsToNewFiles: takes the matched declarations as given; matchers, include handling and replacements in the old files are not modelled.
- HelperGraph.HelperDeclRefGraph.AddEdge: nodes are the declarations they stand for, and callees are lists of them; ownership of node objects is not modelled.
- NamespacePrinter.CreateInsertedReplacements: prints tokens in place of characters.
- QualifiedNames.GetShortestQualifiedNameInNamespace: asks for names whose components are non-empty and free of colons.
- NamespaceChange.MovedCodeStandsInNewNamespace: follows one moved namespace; what begins and ends at each character is given with the text; asks for two characters between its braces, since with one nothing is left to take out and the source reads the last character of an empty string; trigraphs, braces made by macros, offsets shifted by other replacements, forward declarations and the final clean-up are not modelled.
- PreprocessorTracker.Tracker.AddMacroExpansionInstance: interned strings are the strings themselves; source lines kept for messages, the check for includes inside blocks and the printed report are not modelled.
- The symbol searches of include-fixer, the field reordering tool and the thin visitors of the other tools would only add easy members.

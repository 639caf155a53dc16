# Verified models of the hy utility library

Dafny models of five parts of the library whose correctness rests on the order of small steps: the
reference count of `exception_shared_string`, the two hand-managed `expected` storages, the full-read loop
over interruptible system calls, IPv6 bit indexing against address order, and log levels.
`dafny verify dfyconfig.toml` checks everything.

| file | what it models |
|---|---|
| `SharedString.dfy` | the shared block as a transition system over atomic steps, in any interleaving |
| `SharedStringState.dfy` | `exception_shared_string::state` with its fields and member functions |
| `Lifetimes.dfy` | objects with identities, a ledger of constructions and destructions, a schedule of throws |
| `TinyExpected.dfy` | `hy::expected`'s non-trivial storage: `reinit_expected`, special members, assignments, swap |
| `TinyRuns.dfy` | whole programs over any number of such objects |
| `TinyPod.dfy`, `TinyLayouts.dfy` | the two trivial storages, byte by byte, and all three layouts side by side |
| `TinyAsWritten.dfy` | three assignments as spelled in the source, and exactly when they are right |
| `FollyExpected.dfy`, `FollyRuns.dfy` | the three-state union storage, its bases, and whole programs |
| `FollyForms.dfy` | the two trivial three-state storages, and exactly when all three agree |
| `FullRead.dfy`, `Descriptor.dfy` | how a full read ends, and the loops over an open file and a buffer |
| `Digits.dfy`, `AddressV6.dfy` | digit strings; address bits, bytes and comparison operators |
| `LogLevels.dfy` | level names and saturating addition |

## How throws and lifetimes are modelled

A `Runtime` fixes the traits of the two member types and a schedule `faults`: the n-th operation that may
throw throws if and only if `faults(n)` holds and it is not declared nothrow. Contracts hold for every
schedule, so a throw is considered at every point that the types allow. Every construction, temporaries
included, gets a fresh identity in the ledger; destruction demands that the identity is alive, and building
a union member demands that the other member is not. `Sound` says that every identity handed out is alive
or has been destroyed exactly once. A move that throws leaves its source as it was; a move that succeeds
leaves an arbitrary `residue`; an assignment that throws leaves an arbitrary `torn` value. The `Fate` of an
operation says, from the schedule alone, whether it throws, how many operations that may throw it runs and
how many objects it constructs; the methods are proved to have exactly that fate.

## Where the model follows the meant form

The class `TinyExpected.Expected` follows `Expected_Tiny.hpp` except at these lines:

- Line 362 tests `has_value()` twice; the second test is `other.has_value()`, as in lines 390-403.
- Lines 424, 909 and 1343 set the flag to false after storing a value; true is meant, as test/test.cc:17-19
  shows.
- Lines 439, 456, 924, 941, 1358 and 1375 pass `reinit_expected` its first two arguments in the opposite order.
- `reinit_expected` is defined in the two trivial storages only (598, 1040) and called from the non-trivial
  one (365, 369, 394, 398, 423).
- Lines 554-575 write `unex` and `val` for `unex_` and `val_`.
- Lines 83-85 and 385-389 put a constant inside a `noexcept` operator, which makes the move constructor and
  the move assignment noexcept whatever the types; the conditional form of line 538 is meant.

`TinyAsWritten` keeps the first three as they are and proves for which states they are right all the same.
doc/Expected.md:1-5 says that the struct layout serves the small types; the code at lines 31-38 gives those
the union layout. In their meant form the layouts are proved equivalent, so the choice does not matter there;
the assignments as written differ between the two, and are treated in both. In `Expected_folly.hpp`, lines
303-309 and 424-426 declare the copy assignment noexcept by a condition on copy assignment, but lines 139-145
move-assign a temporary; the model follows the code and `FollyExpected.NoexceptIsRightIff` says when the two
agree. `LogLevel.cc` calls `hy::to` and `folly::to`, which are not part of this model beyond concatenation and decimal rendering.

## Model

| member | source | states |
|---|---|---|
| SharedString.StepKeepsInv | src/util/Exception.cc:30-36 | every atomic step keeps the count one below the number of counted handles until one destructor commits to deletion, and from then on nobody else is left |
| SharedString.FaultIff | src/util/Exception.cc:27-36 | a step is at fault exactly if the block was given back before, or it is deleted with a wrong size |
| SharedString.RunKeepsInv | src/util/Exception.cc:30-36 | the same along every interleaving of any length with at most 2^64 handles counted at a time |
| SharedString.RunsAreSafe | src/util/Exception.cc:15-36 | no interleaving touches the block after it was given back, writes past its end, or gives it back with another size than it was allocated with |
| SharedString.DeletedExactlyOnce | src/util/Exception.cc:15-36 | the block is deleted exactly when all handles are gone, once, with the size of the header, the characters and the terminator, whichever of the two ways led to it |
| SharedString.WhatReadsTheOriginal | src/util/Exception.cc:24-29 | through any live handle at any time the string read is the original one |
| SharedString.CStringOfPrefix | src/util/Exception.cc:24-26 | copying up to and including a terminator keeps what a reader of the string sees |
| SharedString.NextDestructorStep | src/util/Exception.cc:31-36 | while a handle is left, some destructor can step, and doing so lowers a measure |
| SharedString.CanFinish | src/util/Exception.cc:31-36 | from every reachable state the destructors can finish, within three steps each, with one deletion |
| SharedString.CommitsIff | src/util/Exception.cc:33 | with no bound on handles: a destructor commits to deletion exactly when the number of counted handles is 1 modulo 2^64 |
| SharedString.CopyKeepsModular | src/util/Exception.cc:30 | with no bound on handles: a copy keeps the count right modulo 2^64 |
| SharedString.OneHandleTooMany | src/util/Exception.cc:13-36 | with 2^64 + 1 handles there is an interleaving that reads released memory |
| SharedString.CapacityIsExact | src/util/Exception.cc:13-36 | all interleavings with at most `cap` handles are safe if and only if cap <= 2^64 |
| SharedStringState.State.Make | src/util/Exception.cc:18-26 | allocates the header and as many bytes as are copied in, the terminator included; one owner and a count of zero |
| SharedStringState.State.What | src/util/Exception.cc:27-29 | returns the characters copied in, and the block is still allocated |
| SharedStringState.State.Copy | src/util/Exception.cc:30 | one fetch_add, refining the copy step of the system |
| SharedStringState.State.RuinLoad | src/util/Exception.cc:33 | the load, refining its step, and what it decides |
| SharedStringState.State.RuinSub | src/util/Exception.cc:33 | the fetch_sub with wrap-around, refining its step, and what it decides |
| SharedStringState.State.RuinDelete | src/util/Exception.cc:34 | deletes the allocated block with its size; no handle is left |
| SharedStringState.State.Interfere | src/util/Exception.cc:30-36 | any sequence of steps of other threads keeps the fields in step with the system |
| SharedStringState.State.Ruin | src/util/Exception.cc:31-36 | a destructor with arbitrary steps of others between load and decrement deletes exactly if nobody else was left |
| TinyExpected.ReinitConstraintIsExact | include/util/Expected_Tiny.hpp:382-384 | corollary to the equivalence in ReinitExpected: the old member survives every schedule of throws if and only if one of the three operations in the constraint is nothrow |
| TinyExpected.ReinitExpected | include/util/Expected_Tiny.hpp:598-626 | success: only the new member lives, holding the argument; throw: only the old one, with its former value; it throws and loses the old one if and only if RestoreFails; when it throws, and how many temporaries it makes, for every schedule |
| TinyExpected.ReinitWithBackup | include/util/Expected_Tiny.hpp:615-625 | the backup case, with the ledger settled on each of its four ways out, and the same equivalence |
| TinyExpected.Expected.ConstructValue | include/util/Expected_Tiny.hpp:261 | a value, or no object |
| TinyExpected.Expected.ConstructError | include/util/Expected_Tiny.hpp:286 | an error, or no object |
| TinyExpected.Expected.CopyConstruct | include/util/Expected_Tiny.hpp:62-69 | the other's state, or no object; the other unchanged |
| TinyExpected.Expected.MoveConstruct | include/util/Expected_Tiny.hpp:83-92 | the other's state and the other spent, or no object and the other unchanged |
| TinyExpected.Expected.Destruct | include/util/Expected_Tiny.hpp:335-341 | destroys exactly the living member |
| TinyExpected.Expected.CopyAssign | include/util/Expected_Tiny.hpp:360-376 | the other's state; after a throw the old alternative, and the old value if the alternative was to change |
| TinyExpected.Expected.MoveAssign | include/util/Expected_Tiny.hpp:385-405 | likewise, with the other spent on success only; self-assignment included |
| TinyExpected.Expected.MoveReplace | include/util/Expected_Tiny.hpp:390-401 | move assignment within the alternative, self-assignment included |
| TinyExpected.Expected.MoveSwitch | include/util/Expected_Tiny.hpp:390-401 | move assignment that changes the alternative, undone if it throws |
| TinyExpected.Expected.AssignValue | include/util/Expected_Tiny.hpp:419-427 | holds the value, or is as before a throw up to a torn value |
| TinyExpected.Expected.AssignError | include/util/Expected_Tiny.hpp:437-462 | holds the error, or is as before a throw up to a torn error |
| TinyExpected.Expected.Swap | include/util/Expected_Tiny.hpp:538-584 | exchanges the states for all four combinations of flags, the mixed one with one flip; a throw in the mixed case changes neither |
| TinyExpected.Expected.SwapMixed | include/util/Expected_Tiny.hpp:552-584 | exchange, or neither object changed; when it throws |
| TinyExpected.MoveAcross | include/util/Expected_Tiny.hpp:553-580 | both cases of the mixed swap, for all types: exchange or restore with one member set aside; it throws and loses that member if and only if SwapBreaks |
| TinyExpected.SwapConstraintIsExact | include/util/Expected_Tiny.hpp:532-537 | corollary to the equivalence in MoveAcross: nothing is lost under any schedule if and only if the member set aside moves without throwing |
| TinyRuns.Perform | include/util/Expected_Tiny.hpp:335-462 | one operation on any of the objects is the step of the sum type and leaves nothing else alive; it throws exactly when FateOf says so under the schedule, having constructed exactly as many objects |
| TinyRuns.RunProgram | include/util/Expected_Tiny.hpp:335-584 | every program, under every schedule: what throws, what the objects denote and how many objects have been constructed is what the sum type says, step by step as in the lemmas below; exactly the flagged members are alive |
| TinyRuns.MeaningOneMore | include/util/Expected_Tiny.hpp:335-584 | every operation of a program is a step as below from what the ones before came to, and throws only if one of the next two operations of the schedule does |
| TinyRuns.SwapStep | include/util/Expected_Tiny.hpp:532-584 | two objects are exchanged whenever one of the types moves without throwing, and only then; a throwing mixed swap changes nothing |
| TinyRuns.CopyAssignStep | include/util/Expected_Tiny.hpp:349-376 | the other's state is taken over whenever one of the types moves without throwing, and only then |
| TinyRuns.MoveAssignStep | include/util/Expected_Tiny.hpp:379-405 | likewise, with the other left moved-from |
| TinyRuns.AssignValueStep | include/util/Expected_Tiny.hpp:408-427 | the value is held whenever one of the three operations in the constraint is nothrow, and only then |
| TinyRuns.AssignErrorStep | include/util/Expected_Tiny.hpp:430-462 | the same for an error |
| TinyRuns.BirthAndDeathStep | include/util/Expected_Tiny.hpp:62-341 | constructors make the object that they are given, destructors end it, and nothing happens where there is none or one already |
| TinyRuns.TearDown | include/util/Expected_Tiny.hpp:335-341 | constructs nothing, destroys each living object once, and leaves no object built; every object ever constructed, temporaries included, has then been destroyed exactly once |
| TinyRuns.WholeProgram | include/util/Expected_Tiny.hpp:335-584 | from raw storage to the last destructor, over any number of objects: throws and final observations are those of the sum type, as many objects are constructed as it says, and each is destroyed exactly once |
| TinyRuns.NoexceptIsExact | include/util/Expected_Tiny.hpp:385-389 | for every operation: it never throws, under any schedule and from any state, if and only if the condition of its exception specification holds, or for copies, which have none, the corresponding one |
| TinyRuns.ThrowsHaveCauses | include/util/Expected_Tiny.hpp:335-584 | a program throws at most as often as the schedule has faults while it runs |
| TinyRuns.ThrowKeepsAlternatives | include/util/Expected_Tiny.hpp:360-584 | corollary: a throw changes neither which objects exist nor any alternative, and no value whose alternative was to change |
| TinyPod.SwapLargerIsSwapByTag | include/util/Expected_Tiny.hpp:1016-1026 | swapping the larger member and the flag blindly shows the same as swapping by tag, for all sizes and states |
| TinyPod.SwapLargerTwice | include/util/Expected_Tiny.hpp:1016-1026 | it is an involution on the bytes |
| TinyPod.SwapPrefixIsExact | include/util/Expected_Tiny.hpp:1017-1021 | a blind swap of k bytes is right for all states if and only if k covers the whole union |
| TinyPod.PodUnion.AssignValue | include/util/Expected_Tiny.hpp:904-912 | the union shows the value |
| TinyPod.PodUnion.AssignError | include/util/Expected_Tiny.hpp:922-947 | the union shows the error |
| TinyPod.PodUnion.Swap | include/util/Expected_Tiny.hpp:1016-1026 | the two unions show each other's state |
| TinyPod.PodStruct.AssignValue | include/util/Expected_Tiny.hpp:1338-1346 | the struct shows the value and keeps the stale error |
| TinyPod.PodStruct.AssignError | include/util/Expected_Tiny.hpp:1356-1381 | the struct shows the error and keeps the stale value |
| TinyPod.PodStruct.Swap | include/util/Expected_Tiny.hpp:1451-1456 | the two structs show each other's state |
| TinyLayouts.RunLayouts | include/util/Expected_Tiny.hpp:360-1461 | one program on the three layouts side by side shows the same values and errors at every point, whatever the schedule |
| TinyAsWritten.CopyAssignWrittenIsRightIff | include/util/Expected_Tiny.hpp:360-376 | the copy assignment as written takes over the other's state if and only if this has no value or the other has one; otherwise it reads a member that is not alive |
| TinyAsWritten.AssignValueWrittenIsRightIff | include/util/Expected_Tiny.hpp:419-427 | the value assignment as written holds the value if and only if there was one; otherwise the flag names a dead member |
| TinyAsWritten.AssignErrorWrittenIsRightIff | include/util/Expected_Tiny.hpp:437-445 | the error assignment as written holds the error if and only if there was no value; otherwise it destroys a member that is not alive |
| TinyAsWritten.UnionAssignValueWrittenIsRightIff | include/util/Expected_Tiny.hpp:904-912 | in the trivial union: right if and only if there was a value; otherwise the old error is shown with its first bytes overwritten |
| TinyAsWritten.UnionAssignErrorWrittenIsRightIff | include/util/Expected_Tiny.hpp:922-930 | in the trivial union: right if and only if there was no value or the error's conversion to a value has the error's bytes |
| TinyAsWritten.PlainAssignValueWrittenIsRightIff | include/util/Expected_Tiny.hpp:1338-1346 | in the struct layout: right if and only if there was a value, otherwise the old error is still shown |
| TinyAsWritten.PlainAssignErrorWrittenIsRightIff | include/util/Expected_Tiny.hpp:1356-1364 | in the struct layout: right if and only if there was no value or the stale error is equal |
| TinyAsWritten.TestProgramAsWritten | test/test.cc:14-20 | in the union layout that the program gets: the value that it assigns and then reads is not there, and the error that is there is no longer 2.0 |
| FollyExpected.FallbackConditionIsExact | include/util/Expected_folly.hpp:136-153 | corollary to the equivalence in DoEmplaceAssign: a living member survives every schedule if and only if it is assignable or its construction is nothrow |
| FollyExpected.DoEmplaceAssign | include/util/Expected_folly.hpp:139-153 | new value, or old or torn value, or lost exactly when LosesMember; whether the argument was consumed |
| FollyExpected.NoexceptIsRightIff | include/util/Expected_folly.hpp:303-317 | a special member declared noexcept never throws, with one exception: a copy assignment needs nothrow move assignment, whereas its specification asks for nothrow copy assignment |
| FollyExpected.NoexceptIsComplete | include/util/Expected_folly.hpp:412-429 | what it takes for a special member never to throw; all but the copy assignment are then declared so |
| FollyExpected.ForwardsOnce | include/util/Expected_folly.hpp:273-277 | of the five bases exactly one forwards each special member |
| FollyExpected.Storage.Clear | include/util/Expected_folly.hpp:442-454 | destroys exactly the living member and is empty |
| FollyExpected.Storage.AssignValue | include/util/Expected_folly.hpp:458-470 | for all types: `which_` still names exactly the living member if and only if the fallback did not lose it; then the value is held, or a throw has left it empty if the alternative was to change, else old or torn |
| FollyExpected.Storage.AssignError | include/util/Expected_folly.hpp:471-482 | the same for an error |
| FollyExpected.Storage.Assign | include/util/Expected_folly.hpp:483-502 | nothing for itself; otherwise the other's state, the other spent if moved from even when a later assignment throws; when it throws |
| FollyExpected.Storage.ConstructValue | include/util/Expected_folly.hpp:263-266 | a value, or no object and nothing alive |
| FollyExpected.Storage.ConstructError | include/util/Expected_folly.hpp:267-270 | an error, or no object and nothing alive |
| FollyExpected.Storage.Destruct | include/util/Expected_folly.hpp:441 | destroys exactly the living member |
| FollyExpected.Storage.RunBasesFrom | include/util/Expected_folly.hpp:329-409 | the chain of bases calls `assign` as often as bases forward, and changes nothing if none does |
| FollyExpected.Storage.RunSpecial | include/util/Expected_folly.hpp:412-440 | each defaulted copy or move calls `assign` exactly once with its effect; a throwing construction leaves nothing alive |
| FollyRuns.Perform | include/util/Expected_folly.hpp:441-502 | one operation on any of the storages is the step of the three-state type and leaves nothing else alive; it throws exactly when FateOf says so under the schedule |
| FollyRuns.RunProgram | include/util/Expected_folly.hpp:412-502 | every program, under every schedule: how operations end, what the storages denote and how many objects have been constructed is what the three-state type says; `which_` names exactly the living member |
| FollyRuns.MeaningOneMore | include/util/Expected_folly.hpp:412-502 | every operation of a program is a step as below from what the ones before came to, and throws only if one of the next two operations of the schedule does |
| FollyRuns.AssignFromStep | include/util/Expected_folly.hpp:483-502 | another object's state is taken over whenever the alternative changes, or its type is assignable, or its construction is nothrow; a throwing change of alternative leaves the object empty |
| FollyRuns.SpecialAssignStep | include/util/Expected_folly.hpp:349-409 | copy and move assignment do the same |
| FollyRuns.SpecialBirthStep | include/util/Expected_folly.hpp:329-347 | copy and move construction take over the state for all types, or leave no object |
| FollyRuns.AssignValueStep | include/util/Expected_folly.hpp:458-470 | the value is held whenever there was none, or its type is assignable, or its construction is nothrow |
| FollyRuns.AssignErrorStep | include/util/Expected_folly.hpp:471-482 | the same for an error |
| FollyRuns.BirthAndDeathStep | include/util/Expected_folly.hpp:263-270 | the other constructors make the object that they are given, `clear` empties and destructors end it |
| FollyRuns.TearDown | include/util/Expected_folly.hpp:441 | constructs nothing, destroys each living object once, and leaves no object built; everything ever constructed has then been destroyed exactly once |
| FollyRuns.WholeProgram | include/util/Expected_folly.hpp:412-502 | from raw storage to the last destructor, over any number of storages: how operations end and the final observations are those of the three-state type, as many objects are constructed as it says, and each is destroyed exactly once |
| FollyRuns.ThrowsHaveCauses | include/util/Expected_folly.hpp:441-502 | a program throws at most as often as the schedule has faults while it runs |
| FollyRuns.ThrowEmptiesExactlyOnSwitch | include/util/Expected_folly.hpp:459-482 | corollary: a throwing assignment empties the object if and only if it was changing the alternative |
| FollyForms.PlainUnion.Assign | include/util/Expected_folly.hpp:195-230 | the other's state, but nothing happens if the other is empty |
| FollyForms.PlainStruct.Assign | include/util/Expected_folly.hpp:527-553 | the same in the struct form |
| FollyForms.StepsAgreeIff | include/util/Expected_folly.hpp:195-230 | a step of the trivial forms is that of the union form if and only if it empties nothing |
| FollyForms.ProgramsAgreeIff | include/util/Expected_folly.hpp:442-553 | the forms go through the same states if and only if the union form empties nothing on the way |
| FollyForms.NonEmptyProgramsAgree | include/util/Expected_folly.hpp:442-553 | programs that never make or clear an empty storage cannot tell the forms apart |
| FollyForms.RunForms | include/util/Expected_folly.hpp:195-553 | one program on the three forms side by side: each goes through the states of its meaning |
| FullRead.OutcomeIgnoresSchedule | include/util/detail/FileUtilDetail.h:29-49 | whatever the interruptions and short counts: without an error, min(count, bytes left) bytes are moved |
| FullRead.ErrorIffLastCallFailed | include/util/detail/FileUtilDetail.h:34-40 | it ends with an error if and only if a call failed, which then is the first failed and the last made |
| FullRead.AnswersAreBounded | include/util/detail/FileUtilDetail.h:33-46 | at most max(1, count) calls are not interrupted |
| FullRead.GapShrinks | include/util/detail/FileUtilDetail.h:35-38 | an interruption lowers the distance to the next answer, so the loop ends |
| FullRead.TransfersAreArbitrary | include/util/detail/FileUtilDetail.h:34 | a call may transfer any positive number of bytes up to what was asked for and is left |
| FullRead.WrappingIsInvisible | include/util/detail/FileUtilDetail.h:12-49 | for count > 0 the loop over the raw call and over the wrapped one end alike: bytes, error, calls used |
| FullRead.WrappingNothingIff | include/util/detail/FileUtilDetail.h:33-46 | for count = 0 they end alike if and only if the first call is not interrupted |
| Descriptor.OpenFile.Call | include/util/detail/FileUtilDetail.h:34 | one call fills the part of the buffer that it reports, from the right place of the file |
| Descriptor.OpenFile.CallNoEintr | include/util/detail/FileUtilDetail.h:12-18 | acts as the first answer that is not an interruption |
| Descriptor.OpenFile.WrapFull | include/util/detail/FileUtilDetail.h:29-49 | returns count, or less at the end of the file only; the buffer holds just these bytes of the file from the offset or position on and is untouched beyond them, after an error too; `read` advances the position by them, `pread` does not; it fails exactly if a call failed, with that error, and makes no call after it |
| Descriptor.OpenFile.RunLoop | include/util/detail/FileUtilDetail.h:29-49 | the loop ends as planned: same bytes, same error, same calls used |
| AddressV6.LSBitCountsFromTheEnd | include/net/IPAddressV6.h:185-187 | in spite of unsigned wrap-around exactly the indices from 128 on are refused, and the others count from the other end |
| AddressV6.BitsAreNumber | include/net/IPAddress_detail.h:29-37 | the bits read as binary digits are the big-endian number of the bytes |
| AddressV6.BitSumsAreNumber | include/net/IPAddressV6.h:179-191 | the number is the sum of LS bit j times 2^j and of MS bit i times 2^(127-i) |
| AddressV6.LSByteIsDigit | include/net/IPAddressV6.h:189-191 | LS byte j is the digit of the number at 256^j |
| AddressV6.OrderIsNumeric | include/net/IPAddressV6.h:198-214 | the tie order is the lexicographic order of (number, scope) |
| AddressV6.StrictTotalOrder | include/net/IPAddressV6.h:202-228 | a strict total order, with which the other operators agree |
| AddressV6.FirstDifferingBitDecides | include/net/IPAddressV6.h:179-214 | addresses with different bytes are ordered by the first MS bit in which they differ |
| LogLevels.NameHasShape | src/log/LogLevel.cc:18-61 | the name of every level, in numbers: eight fixed ones, DBG and INFO with the distance from 1999 and 2999, and the numeric fallback |
| LogLevels.DecimalReadsBack | src/log/LogLevel.cc:54-60 | decimal rendering can be read back, consists of digits and has no leading zero |
| LogLevels.NameReadsBack | src/log/LogLevel.cc:30-61 | every 32-bit level can be recovered from its name |
| LogLevels.NamesAreInjective | src/log/LogLevel.cc:30-61 | no two of the 2^32 levels share a name |
| LogLevels.PlusSaturatesIff | include/log/LogLevel.h:66-72 | addition saturates correctly if and only if the 32-bit sum does not wrap to below the maximum |
| LogLevels.SafeAddendsAreExact | include/log/LogLevel.h:66-72 | an addend is right for all levels up to the maximum if and only if it is at most 2^31 |
| LogLevels.PlusAllSaturates | include/log/LogLevel.h:74-78 | any sequence of such additions comes to min(start + sum, maximum) |
| LogLevels.OrderAndGroupingDoNotMatter | include/log/LogLevel.h:74-78 | reordering the additions, or adding their total at once, changes nothing |
| LogLevels.GroupingDoesNotMatter | include/log/LogLevel.h:74-78 | adding group totals, however the additions are grouped, is adding one by one |
| LogLevels.LevelVariable.PlusAssign | include/log/LogLevel.h:66-78 | the variable holds the 32-bit sum or 0x7fffffff if that is less; it is never lowered, and is the true sum unless that reaches the maximum, for addends up to 2^31 |
| LogLevels.LevelVariable.PlusAssignAll | include/log/LogLevel.h:74-78 | after any sequence of such `+=` the variable holds min(start + sum, maximum) |

## Left out

- Weak memory beyond one atomic location: the counter is the only atomic, and its modification order is the order of the steps.
- Allocation failure and alignment in `state::make`; several blocks at once, which share nothing.
- FollyExpected.Storage.AssignValue: arguments are values, so an argument that refers into the storage itself is not modelled.
- FollyExpected.Storage.AssignError: the same restriction on its argument.
- TinyLayouts.RunLayouts: conversions of arguments do not throw there; the trivial forms would be left as they were.
- TinyExpected.Expected.Swap: the type constraint is assumed, as the source excludes other types at compile time; TinyExpected.MoveAcross shows what it excludes.
- TinyExpected.MoveAcross: where the handler would build over a living object, the model stops with that member lost.
- FollyRuns.RunProgram: a throw out of a function that is declared noexcept ends a C++ program; here it is a throw like any other.
- FollyExpected.Storage.RunBasesFrom: the chain that the compiler generates is written as a recursion over the list of bases.
- Descriptor.OpenFile.WrapFull: offsets are non-negative, and the file does not change during the call.
- Template constraints, value categories and the converting constructors of both `expected` types, beyond whether an operation may throw.
- `emplace`, whose body is not meaningful, and the empty `expected<void, E>`.
- The monadic operations, whose laws follow from the sum type.
- `getNthMSByte` has no body in the source; it is taken as the byte at that index, for indices below 16.
- Masks, subnets, prefixes and parsing of addresses; `operator-` on levels, `isLogLevelFatal` and `stringToLogLevel`.
- `File`, `FileUtil`, the asynchronous I/O classes and the sockets, which are declarations or stubs.

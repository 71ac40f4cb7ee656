# Status and its description pool, modelled in Dafny

The repository provides `Status`, a small result value: an error code, a
severity and an optional free-form description. A `Status` with no
description costs no allocation. Descriptions are kept out of line in a
`StatusHandler<std::string>`. This is a pool of reference-counted text slots
with a LIFO stack of free slot indices. Copies of a `Status` share one slot.
Copy construction takes a reference. Destruction drops one. A slot whose
count reaches 0 has its text cleared and its index pushed back on the free
stack.

The model has four modules:

- `Handler` (`handler.dfy`) covers `StatusHandler.h`. `PoolState` is the
  pool's value: the slot table and the free stack, whose top is its last
  element. `PoolState.Inv` is the pool invariant: the free stack holds
  distinct valid indices, an index is on it exactly when its count is 0,
  and free slots hold empty text. Each pool operation is a function on
  `PoolState`, and the lemmas about those functions carry the guarantees.
  The class `StatusHandler` is the mutable pool, with the fields `elements`,
  `indices` and the debug counter `maxValReach`. Each of its methods is
  proved to perform exactly the matching function.
- `Statuses` (`status.dfy`) covers `Status.h` as values: the enums, the
  `Status` datatype and the sentinel `INV_INDEX` (`1 << 15`). Every
  operation that touches the pool is a function from the status and a
  `PoolState` to the new status and the new `PoolState`. The same module
  holds the merge rules of `+=` and their lemmas.
- `StatusOps` (`status_ops.dfy`) holds the imperative side of `Status.h`:
  the constructors, destructor, copy, assignment, `appendDescription`,
  `clearDescription` and `+=`. They run against a live `StatusHandler`,
  which is passed explicitly in place of the global `Status::s_shandler`.
  Each method is proved to produce exactly the matching `Statuses` function.
- `Ownership` (`ownership.dfy`) covers reference ownership.
  `Owned(st, held)` says that each slot's count is the number of statuses in
  `held` that refer to it. Copy, destroy, clear, append, merge and the
  describing constructors keep this accounting. `operator=` as written does
  not keep it (see Findings).

The 8-bit reference counter is modelled with its wrap-around (`Inc8`,
`Dec8`). The source does not guard against the wrap: the copy
constructor and `operator=` call `incrementRef` unconditionally (see
Findings). The model requires a count below 255 (`Copyable`) wherever it
promises the pool invariant after taking a reference.

## Model

| member | source | states |
|---|---|---|
| `Handler.Inc8` | StatusHandler.h:82 | incrementing the `uint8_t` count adds one below 255 and wraps 255 to 0 |
| `Handler.Dec8` | StatusHandler.h:82 | decrementing the `uint8_t` count subtracts one above 0 and wraps 0 to 255 |
| `Handler.Initial` | StatusHandler.h:121-132 | a new pool of size n has n empty slots with count 0, and the free stack holds 0..n-1 in push order |
| `Handler.InitialIsValid` | StatusHandler.h:121-132 | a new pool satisfies the pool invariant, and its first allocation returns n-1 |
| `Handler.Increment` | StatusHandler.h:152-158 | only slot k's count changes (8-bit wrap); text, free stack and other slots are unchanged; the invariant is kept when the count was 1..254 |
| `Handler.Allocate` | StatusHandler.h:134-150 | the top free index had an empty slot with count 0; it is popped, its count becomes 1, nothing else changes, and the invariant is kept |
| `Handler.Decrement` | StatusHandler.h:160-172 | the count drops by one (8-bit wrap); at 0 the index is pushed on the free stack and the text becomes empty, otherwise the stack and text are unchanged; other slots are unchanged; the invariant is kept when the count was at least 1 |
| `Handler.Write` | StatusHandler.h:184-192 | writing through the mutable `getData` sets only that slot's text and keeps counts, stack and invariant |
| `Handler.ReleasedSlotIsReusedFirst` | StatusHandler.h:107-118 | LIFO reuse: after the last reference to k is dropped, the next allocation returns k, and the pool equals the old one with k's text cleared |
| `Handler.IncrementThenDecrement` | StatusHandler.h:152-172 | taking and then dropping a reference to a live slot restores the pool exactly |
| `Handler.DecrementThenIncrement` | StatusHandler.h:152-172 | dropping a non-last reference and taking it back restores the pool exactly |
| `Handler.HandedOutIsLive` | StatusHandler.h:107-150 | under the invariant, table size minus free-stack height equals the number of slots with a non-zero count |
| `Handler.StatusHandler.constructor` | StatusHandler.h:121-132 | the constructor's loop builds exactly `Initial(initSize)`, with the debug counter at 0 and the invariant holding |
| `Handler.StatusHandler.ReturnAvailableIndex` | StatusHandler.h:107-118 | pushes a zero-count index on the free stack and decrements the debug counter |
| `Handler.StatusHandler.GetAvailableIndex` | StatusHandler.h:134-150 | returns the top free index and leaves the pool in `Allocate`'s state; the debug counter goes up by one and the invariant is kept |
| `Handler.StatusHandler.IncrementRef` | StatusHandler.h:152-158 | performs `Increment`; the invariant is kept when the count was 1..254 |
| `Handler.StatusHandler.DecrementRef` | StatusHandler.h:160-172 | requires only a valid index, as the source's check does, and performs `Decrement`; the debug counter drops exactly when the slot is returned; a valid pool stays valid when the count was at least 1 |
| `Handler.StatusHandler.GetData` | StatusHandler.h:174-182 | returns the live slot's text, and that slot is not on the free stack |
| `Handler.StatusHandler.SetData` | StatusHandler.h:184-192 | performs `Write` and keeps the invariant |
| `Handler.MaxValReachCountsLiveSlots` | StatusHandler.h:91-93 | the debug counter `m_maxValReach` equals the number of slots currently referenced |
| `Statuses.Make` | Status.h:204-209 | `Status(code, severity)` holds those fields, no description, and reads as "" in any pool |
| `Statuses.Default` | Status.h:64-65 | the default status is `STC_INTERNAL_ERROR` with `STS_UNDEFINED` severity, no description, and is not ok |
| `Statuses.FromBool` | Status.h:233-238 | `Status(true)` is ok with `NoError`/`Undefined`; `Status(false)` is `InternalError`/`Normal`; neither has a description |
| `Statuses.WithText` | Status.h:222-231 | the `std::string` constructor takes a slot exactly when the text is non-empty: the top free slot, count 1, holding the text; otherwise the pool is untouched |
| `Statuses.WithCString` | Status.h:211-220 | the `const char*` constructor takes a slot exactly when the pointer is non-null, even for ""; the description is the text, or "" for null |
| `Statuses.ChangeCode` | Status.h:283-287 | only the code changes, and the status is ok exactly when the new code is `NoError` |
| `Statuses.ChangeSeverity` | Status.h:294-298 | only the severity changes |
| `Statuses.DescriptionStd` | Status.h:317-323 | for a status holding a slot, `descriptionStd()` equals `description()`, which is "" without a slot and the slot's text otherwise (Status.h:306-316) |
| `Statuses.AppendDescription` | Status.h:325-347 | afterwards the status holds a slot and its description is the old description followed by `desc`; an existing slot is kept with its count; otherwise the top free slot is taken with count 1; other slots are unchanged |
| `Statuses.Destroy` | Status.h:240-247 | the destructor drops exactly one reference to the held slot (8-bit wrap); on the last reference the slot's text is cleared and its index pushed on top of the free stack, otherwise text and stack are unchanged; other slots are left alone, nothing changes without a slot, and the invariant is kept |
| `Statuses.Copy` | Status.h:249-258 | the copy constructor adds exactly one reference to the source's slot, touches nothing else, and keeps the description and (below 255) the invariant |
| `Statuses.ClearDescription` | Status.h:349-357 | the status ends with no description and the same code and severity; the pool effect is that of destruction |
| `Statuses.Assign` | Status.h:260-271 | `operator=` as written: the target becomes the source and the pool gets a copy's reference; the target's old slot is not released |
| `Statuses.MergedSeverity` | Status.h:365-372 | `Undefined` yields to the other side; otherwise the result is one of the two and is numerically no larger than either |
| `Statuses.MergedCode` | Status.h:373-375 | equal codes stay; differing codes become `InternalError`; the result is `NoError` exactly when both are |
| `Statuses.Merge` | Status.h:359-377 | `+=` gives merged code and severity; ok exactly when both are ok; the description becomes this text followed by the other's; the other's slot is never shared; a held slot keeps its count and the free stack is unchanged, otherwise the top free slot is taken with count 1; every other slot is unchanged; without another description the pool is untouched |
| `Statuses.MergeKeepsOtherDescription` | Status.h:359-377 | `a += b` leaves `b` live with its description unchanged, unless `a` already shares `b`'s slot |
| `Statuses.MergedSeverityHasHighestPriority` | Status.h:365-372 | the merged severity is the one of highest priority, in the order Critical > Normal > Low > Undefined |
| `Statuses.MergedSeverityIsOrderFree` | Status.h:365-372 | severity merging is commutative, associative and idempotent, with `Undefined` as its neutral element |
| `Statuses.MergedCodeIsOrderFree` | Status.h:373-375 | code merging is commutative, associative and idempotent |
| `Statuses.CopyThenDestroy` | Status.h:240-258 | copying a status and destroying one copy restores the pool exactly, and the description stays readable |
| `Statuses.ClearIsIdempotent` | Status.h:349-357 | clearing a cleared status changes nothing |
| `Statuses.SelfMergeDoubles` | Status.h:359-377 | `s += s` doubles the description and keeps code, severity and slot |
| `StatusOps.AppendDescription` | Status.h:325-347 | performs `Statuses.AppendDescription` on the live pool; the debug counter rises only when a slot is taken |
| `StatusOps.NewWithText` | Status.h:222-231 | performs `Statuses.WithText` on the live pool |
| `StatusOps.NewWithCString` | Status.h:211-220 | performs `Statuses.WithCString` on the live pool |
| `StatusOps.GetDescription` | Status.h:306-316 | returns the description, "" without a slot, and changes nothing |
| `StatusOps.GetDescriptionStd` | Status.h:317-323 | returns the slot's text for a status that holds a slot |
| `StatusOps.Copy` | Status.h:249-258 | returns the same value and performs `Statuses.Copy`; the debug counter is unchanged, even when the count wraps; the pool stays valid when the count was below 255 |
| `StatusOps.Destroy` | Status.h:240-247 | performs `Statuses.Destroy` and keeps the pool valid |
| `StatusOps.Assign` | Status.h:260-271 | performs `Statuses.Assign`, which is `operator=` as written; the debug counter is unchanged, even when the count wraps; the pool stays valid when the count was below 255 |
| `StatusOps.AssignReleasing` | Status.h:260-271 | performs `Ownership.AssignReleasing`: the source's slot is referenced first, then the target's previous slot is released |
| `StatusOps.ClearDescription` | Status.h:349-357 | performs `Statuses.ClearDescription` and keeps the pool valid |
| `StatusOps.MergeInto` | Status.h:359-377 | the source's inline `+=` code, with its nested severity conditional, performs `Statuses.Merge` |
| `Ownership.HeldIsLive` | Status.h:240-258 | when the counts are fully accounted for, every held status's slot has a non-zero count |
| `Ownership.UnheldSlotIsFree` | StatusHandler.h:160-172 | when the counts are fully accounted for, a slot no held status refers to is on the free stack with empty text |
| `Ownership.ExhaustedWhenEverySlotHeld` | StatusHandler.h:134-140 | when every slot is held, the free stack is empty, so one more described status violates `getAvailableIndex`'s precondition |
| `Ownership.AppendIsSeenBySharers` | Status.h:325-347 | appending to one copy extends the description read through every copy sharing the slot |
| `Ownership.CopyKeepsOwnership` | Status.h:249-258 | a copy keeps the counts accounted for, with the copy added to the holders |
| `Ownership.DestroyKeepsOwnership` | Status.h:240-247 | destruction keeps the counts accounted for, with the status removed from the holders |
| `Ownership.ClearKeepsOwnership` | Status.h:349-357 | `clearDescription` keeps the counts accounted for |
| `Ownership.AppendKeepsOwnership` | Status.h:325-347 | `appendDescription` keeps the counts accounted for |
| `Ownership.MergeKeepsOwnership` | Status.h:359-377 | `+=` keeps the counts accounted for |
| `Ownership.WithTextKeepsOwnership` | Status.h:222-231 | the `std::string` constructor keeps the counts accounted for, with the new status added to the holders |
| `Ownership.WithCStringKeepsOwnership` | Status.h:211-220 | the `const char*` constructor keeps the counts accounted for, with the new status added to the holders |
| `Ownership.CopyWrapsSharedSlot` | Status.h:249-258 | as written, copying a status whose slot has 255 holders wraps the count to 0 and breaks the pool invariant; one more copy and one destruction clear the slot and put it on top of the free stack while 256 statuses still hold it |
| `Ownership.CheckedCopy` | Status.h:249-258 | the guarded copy refuses exactly when one more reference would wrap the count; otherwise it is the copy constructor's effect, and it keeps the description and the invariant |
| `Ownership.CheckedCopyKeepsOwnership` | Status.h:249-258 | a guarded copy that succeeds keeps the counts accounted for, with the copy added to the holders |
| `Ownership.AssignLeaksOldSlot` | Status.h:260-271 | after `operator=` on a target holding a slot, the counts are not accounted for by the holders; they are only if the target's old value is counted as a phantom holder |
| `Ownership.SelfAssignBumpsCount` | Status.h:260-271 | self-assignment leaves the holders unchanged but raises the slot's count by one |
| `Ownership.AssignReleasing` | Status.h:260-271 | the intended assignment makes the target the source and keeps the pool invariant |
| `Ownership.AssignReleasingKeepsOwnership` | Status.h:260-271 | the intended assignment keeps the counts accounted for, self-assignment included |

`code()`, `severity()`, `containsDescription()` and `operator bool`
(Status.h:273-304) are the fields `Status.code` and `Status.severity` and
the predicates `Status.ContainsDescription` and `Status.IsOk`. They are
used throughout the contracts above.

## Findings

| source | as written | input that shows it | evidently intended | confidence | as-written member | corrected member |
|---|---|---|---|---|---|---|
| Status.h:260-271 | `operator=` copies the source's fields and takes a reference to its slot, but never releases the target's previous slot; the comment at line 263 says that it should | `s = t` where `s` holds a slot: the old slot keeps one reference that nobody holds, so it never returns to the free stack. `s = s` raises the count with no new holder. | take the source's reference first, then release the target's old one, so that self-assignment is harmless | high (not executed) | `Ownership.AssignLeaksOldSlot` | `Ownership.AssignReleasing` |
| Status.h:249-258 | the copy constructor (and `operator=`) call `incrementRef` (StatusHandler.h:152-158), which increments the `uint8_t` count (StatusHandler.h:82) with no check | 256 live copies of one described status: the count reads 0 while the slot is held; a 257th copy followed by one destruction clears the text and frees the slot while 256 copies still read it | refuse (or otherwise handle) a reference that would wrap the count, so a held slot is never freed | medium (not executed) | `Ownership.CopyWrapsSharedSlot` | `Ownership.CheckedCopy` |

## Left out

- `main.cpp` is a timing harness with console output and floating point. Its only role here, installing a pool in `Status::s_shandler`, is replaced by passing the pool explicitly. The `ASSERT(s_shandler != 0)` checks therefore have no counterpart.
- `TimeHelper.h` (clock I/O) and `SampleModule.cpp` (demo methods returning constants) are not part of this model. `SampleModule.h` and `Debug.h` are not part of this model either.
- Every `ASSERT` becomes a `requires`. Abort behaviour is not modelled.
- The `ST_CHECK_CRITICAL` macro (Status.h:21-24) is an early-return helper, not state logic.
- Bit-field packing (12-bit code, 4-bit severity, 16-bit index) is not modelled. Code and severity are enumerations, and the index is a number with the sentinel `INV_INDEX`. Operations that may take a slot require `Fits`, a pool of at most `0x8000` slots, so a real index never equals the sentinel.
- `StatusCode` has the four listed enumerators. Codes added later in place of the enum's trailing `...` are not modelled.
- The pool is specialised to `std::string`. Template genericity is not modelled.
- The constructor's default `initSize = 32` is not a separate member. Callers pass the size.
- The two `appendDescription` overloads are one member. Appending a null `const char*` is undefined behaviour in C++ and is not modelled.
- The mutable `getData` returns a reference. The model represents a write through that reference as `SetData`/`Write`. In `+=`, the other's text is read before the write, which matches `std::string::append` given a reference to its own contents (`s += s`).
- The debug counter `m_maxValReach` is an `int` field. The unsigned wrap it would suffer below 0 is not modelled, and `MaxValReachCountsLiveSlots` shows that this never happens in a valid pool.
- StatusOps.Destroy and Statuses.Destroy: require the status to be live (its slot count at least 1), as the status invariant says. Destroying a status whose slot count is 0 would wrap the count, and that case is not modelled for `Status`.
- Handler.Allocate and Handler.StatusHandler.GetAvailableIndex: require the pool invariant, so after a count has wrapped (the second Findings row) the model stops there. Allocation from a pool whose invariant is broken is not modelled, nor is any `StatusOps` method on such a pool, since all of them require `Valid()`.
- The rest of the model copies through `Statuses.Copy` under `Copyable` rather than through `Ownership.CheckedCopy`. What the source does on the 256th reference is modelled only in `Ownership.CopyWrapsSharedSlot`.
- The one-argument constructor `Status(code)` (default severity, Status.h:64-65) is `Make(code, Undefined)` and has no separate member.
- `CString.Chars` may hold `'\0'`. `+= const char*` and `c_str()` stop at the first NUL, so such text is not modelled faithfully; callers are expected to pass NUL-free text.
- Thread safety and concurrent use of the pool are not modelled. The source is single-threaded.

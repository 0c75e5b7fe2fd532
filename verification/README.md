# Verification of the reference closure and its companions

This project models the logic of the reference closure kernel (`native/src/reference_kernel.rs`) and of five smaller
cores beside it, and proves what they promise. Everything is stated for all inputs, all runs or all reachable states.

* **Values and memory.** `Values` is the domain of alternatives with its bounded join. `Ranges` merges invalidated
  intervals. `SparseMemory` reads explicit cells over implicit defaults and joins two states through a filtered index;
  the reference definition is the pointwise join. `RepeatWrites` gives the footprint of repeated string stores.
* **Expressions.** `Words` is arithmetic modulo 2^32; `Expressions` gives word graphs a concrete meaning and proves the
  memoised abstract evaluation contains it, wherever the objects are placed. `Operations` says what each operation does
  to bits, residues and references, so that the two meanings cannot be wrong together, and `Precision` that evaluation
  invents nothing on known words. `Additions` is about additions of more than two operands.
* **Calls.** `CallProjection` turns caller words into tokens and frame offsets and back, and `CallSoundness` proves that
  no word is lost on either way; `CalleeState` traces which frames and parameter objects a callee can still name and says
  owner by owner what its memory holds.
* **The closure run.** `Priorities` numbers the work and keeps the pending queue. `Worklist` is one evaluation, as
  functions on the loop's state, with the frame rule that keeps every other key settled. `ClosureEdges` says which edges
  a run records. `ClosureRun` is the loop as a class, proved against those functions. `ClosureResults` draws the
  conclusions for finished runs; `RegisterVectors` shows that register and flag vectors of the kernel's own values obey
  the laws the loop needs.
* **Facts about links.** `LinkReachability` is the reachability and root-provenance fixpoint; `FactEncoding` is the
  interned, delta-coded index text with a decoder.
* **The ABI solver.** `UnionFind` holds both union-find structures; `AbiSolver` says what a component's answer is;
  `AbiDrivers` is the native resolver and `AbiPython` the Python driver that uses or replaces it.
* **Canonical JSON.** `JsonText`, `CanonicalJson`, `JsonRoundTrip`, `JsonMeaning`, `JsonParsing` and `JsonLines` are the
  writer, a decoder for sections 6 and 7 of RFC 8259, the meaning of a line, what the parser can return, and the line
  reader.
* **Library retrieval and the conformance harness.** `LibraryIndex` is the inverted index against the double loop;
  `ConformanceHarness` is the callback-driven state machine.

Conventions. Contexts, identities and callee contexts are compared by content where the source compares digests of that
content. Text identifiers that only need an order (ABI nodes, record identities) are numbers in that order. Sorted
containers are sets or maps where the order cannot be observed; where it can (dictionary order of components, sorted
keys, sorted rows) it is modelled. A word of flags in the harness is the set of its bit positions. Maps keyed by digest,
parsing of the inputs and Python conversion are not modelled.

## What turned out to be false

Each item names a lemma with a concrete input and one with the exact condition; both are rows below.

* A read-only baseline cell, or a parameter cell without a baseline, that only one of two joined states invalidated is
  read as unknown although the pointwise join may be a conflict (inputs `MissedReadOnlyKeyExists` and `MissedKeyExists`,
  condition `SparseJoinExactly`).
* The join of values is not associative: exactly when two scalar sets overflow beside an unknown scalar (input
  `JoinNotAssociative`, condition `JoinAssociativeExactly`).
* Range merging misjudges a key of width zero exactly when two ranges meet at it without one spanning it (input
  `ZeroWidthKeysAreNotExact`, condition `ZeroWidthHitsExactly`); the key validator excludes such keys.
* The plan validator allows additions of two to four operands and the evaluator adds two. On known scalars the result is
  right exactly when the rest sums to zero; for operands of every kind it is right, wherever objects are placed, exactly
  when it rules nothing out or the rest are scalars whose sums it absorbs, so never beside an exact result when the rest
  may hold a reference (inputs `ThreeOperandAddition` and `IgnoredReference`, conditions `AdditionSoundExactly`,
  `AdditionSetsSoundExactly` and `AdditionOperandsSoundExactly`).
* A constant below the image base that equals a code offset is classified as that code, which is elsewhere (input
  `RawCodeConstantMisread`, condition `ConstantSoundExactly`).
* Absolute footprints of repeated stores do not wrap at 2^32 (input `WrappingStore`, condition `AbsoluteRowExactly`).
* A context entered again overwrites the caller's binding of its own token without any cell showing the frame as reused;
  a named owner keeps its binding exactly when the call's binding for it, if there is one, is the same (input
  `ReboundBindingLost`, condition `NamedOwnersAreWhole`).
* Deferred branch edges are keyed by source and target only, so of two successors with one target and a new edge one
  replaces the other; a successor is lost exactly when a later one supersedes it and its target does not cover it
  already, and a run can then finish without a blocker (input `EqualTargetsLoseASuccessor`, condition
  `DeferredSuccessorsExactly`).
* With a custom set of required fields the native ABI route stops with an error exactly when the first key of some
  component is not required; the Python route answers (input `UnrequiredFieldIsOmitted`, condition `Solve`). With every
  field of every subject required, as by default, this cannot happen (`DefaultFieldsNeverOmitted`).
* Whether zero has one accepted line or two depends on the parser, not on this repository: serde_json with
  `arbitrary_precision` (`native/Cargo.toml:14`) may read `-0` as it is spelled or as `0`, and which of the two a version
  does is known from that crate only. Both are covered: a readable value has no second accepted line exactly when no
  number in it is zero or the parser drops the sign (input `ZeroLines`, condition `LineUniqueExactly`).
* The writer accepts values that no accepted line says. With `arbitrary_precision` serde_json reads an object that starts
  with its private key `$serde_json::private::Number` as a number, and it stops at a nesting of 128; both are known from
  that crate, not from this repository. A value has an accepted line exactly when no object in it has that key as its
  least one and fewer than 128 levels are nested (input `PrivateNumberHasNoLine`, condition `LineUniqueExactly`).

## Model

| member | source | states |
|---|---|---|
| `Values.JoinCommutes` | native/src/reference_kernel.rs:4672-4718 | the join of two values does not depend on their order |
| `Values.JoinUpperBound` | native/src/reference_kernel.rs:4548-4718 | in the order "allows everything the other allows", the join lies above both arguments, through both collapse stages |
| `Values.JoinLeast` | native/src/reference_kernel.rs:4548-4718 | it is the least canonical value above both, except that overflowing scalar sets may be an unknown scalar |
| `Values.CanonicalIsCanonical` | native/src/reference_kernel.rs:4548-4631 | canonicalisation respects the limit and never mixes exact offsets with views |
| `Values.CoversMeansBelow` | native/src/reference_kernel.rs:4672-4718 | for canonical values, join(x, y) = x holds exactly when x allows everything y allows |
| `Values.SlotJoinCovers` | native/src/reference_kernel.rs:4672-4718 | a joined slot covers both arguments |
| `Values.CoversTransitive` | native/src/reference_kernel.rs:4672-4718 | coverage is transitive, so later joins keep it |
| `Values.JoinAssociativeExactly` | native/src/reference_kernel.rs:4548-4718 | the join of three canonical values is associative if and only if no overflowing scalar pair is grouped beside an unknown scalar |
| `Values.JoinNotAssociative` | native/src/reference_kernel.rs:4548-4718 | two scalars and an unknown scalar at limit 1 where the two groupings differ |
| `Values.SlotJoinRank` | native/src/reference_kernel.rs:4548-4718 | every join that changes a slot strictly raises its rank |
| `Values.ChangesBounded` | native/src/reference_kernel.rs:4548-4718 | a slot fed canonical values changes at most 2 * limit + 2 times in any run |
| `Values.JoinAllCovers` | native/src/reference_kernel.rs:4672-4718 | after any run the slot covers everything ever joined into it |
| `Ranges.CompactCoordinates` | native/src/reference_kernel.rs:448-488 | the base-2^64 coordinates of every storable offset are recovered exactly |
| `Ranges.NormalizeRanges` | native/src/reference_kernel.rs:4720-4765 | the sorting and merging loops compute the normal form, and fail exactly on inverted ranges |
| `Ranges.NormalFormUnique` | native/src/reference_kernel.rs:4720-4765 | two separated range sets that mark the same points are equal |
| `Ranges.NormalizedSound` | native/src/reference_kernel.rs:4720-4765 | the normal form is separated by strict gaps and marks exactly the points of the input |
| `Ranges.NormalizedHitsExactly` | native/src/reference_kernel.rs:4720-4765 | merging hits exactly the keys of width at least one that the input hit |
| `Ranges.ZeroWidthKeysAreNotExact` | native/src/reference_kernel.rs:4720-4787 | a zero-width key between two touching ranges that only the merged range hits |
| `Ranges.ZeroWidthHitsExactly` | native/src/reference_kernel.rs:4720-4787 | merging judges a zero-width key as the input did if and only if no two ranges meet at it without one spanning it |
| `Ranges.NormalizedCanonical` | native/src/reference_kernel.rs:4720-4765 | normalising again changes nothing, and equal marks give equal results |
| `Ranges.NormalizedByBytes` | native/src/reference_kernel.rs:4720-4765 | any two inputs of nonempty ranges that cover the same bytes normalise to the same set |
| `SparseMemory.BaselineMemoryIndex` | native/src/reference_kernel.rs:5017-5048 | the index groups by owner exactly the writable baseline keys whose join with an unknown scalar differs from it |
| `SparseMemory.UnwrittenReads` | native/src/reference_kernel.rs:5067-5103 | a key without a cell reads as the baseline's value if it is there and not stale, as a value that allows every word and no reference where nothing is known, as anything at all in a parameter object, and as nothing in an allocation the state cannot have |
| `SparseMemory.NormalizingIsInvisible` | native/src/reference_kernel.rs:5117-5134 | dropping redundant cells changes no read and is idempotent |
| `SparseMemory.Memory.Normalize` | native/src/reference_kernel.rs:5117-5134 | the removal loop drops exactly the redundant cells |
| `SparseMemory.SparseJoinExactly` | native/src/reference_kernel.rs:5017-5386 | reading the sparse join at a key is reading the two sides and joining them, if and only if the key is not one that the index leaves out and one side alone invalidated |
| `SparseMemory.MissedKeyExists` | native/src/reference_kernel.rs:5017-5103 | a parameter cell invalidated on one side: pointwise a conflict, sparse an unknown scalar |
| `SparseMemory.MissedReadOnlyKeyExists` | native/src/reference_kernel.rs:5017-5048 | the same for a constant pointer of a read-only object |
| `SparseMemory.SparseJoinCovers` | native/src/reference_kernel.rs:5163-5386 | at every key it does not miss the sparse join covers both states |
| `SparseMemory.SparseJoinIdempotent` | native/src/reference_kernel.rs:5163-5172 | joining a state with itself returns it unchanged |
| `SparseMemory.UnknownStaysUnknown` | native/src/reference_kernel.rs:5163-5386 | where either side knows nothing about a key the joined state allows every word, so a write on one path only is not taken as known |
| `SparseMemory.JoinRemembers` | native/src/reference_kernel.rs:5163-5386 | the joined state has exactly the invalidated bytes, allocations and written keys of either side, and a cell for every written key that had one |
| `SparseMemory.JoinState` | native/src/reference_kernel.rs:5163-5386 | the code path over explicit cells and affected owners computes that join, and fails exactly when joined ranges are inverted |
| `SparseMemory.AffectedBaselineKeys` | native/src/reference_kernel.rs:5179-5207 | the owner scan finds exactly the indexed keys whose two reads differ |
| `SparseMemory.Memory.InvalidateRanges` | native/src/reference_kernel.rs:3045-3064 | afterwards every overlapped key reads unknown and every other key reads as before |
| `SparseMemory.Memory.InvalidateAll` | native/src/reference_kernel.rs:3066-3073 | afterwards every key reads unknown |
| `RepeatWrites.RowIsExact` | native/src/reference_kernel.rs:2909-2959 | one range contains exactly the bytes some iteration of the store writes, forwards or backwards |
| `RepeatWrites.RowsAreExact` | native/src/reference_kernel.rs:2909-2959 | the ranges of all alternatives contain exactly the bytes some alternative may touch |
| `RepeatWrites.AbsoluteRowExactly` | native/src/reference_kernel.rs:2909-2959 | an absolute range names the machine's addresses modulo 2^32 if and only if it stays in the address space or covers it |
| `RepeatWrites.WrappingStore` | native/src/reference_kernel.rs:2909-2959 | two words stored from 0xFFFFFFFC reach address 0, which the range does not name |
| `RepeatWrites.RepeatedWriteRanges` | native/src/reference_kernel.rs:2909-2959 | the three nested loops compute the full product of alternatives, and fail only on an offset outside signed 64 bits |
| `RepeatWrites.ObjectScopedRowsCover` | native/src/reference_kernel.rs:2961-3017 | with an unknown count the object-scoped ranges contain every byte a store into a named object can write |
| `RepeatWrites.FootprintByBytes` | native/src/reference_kernel.rs:2909-2959 | stores that may touch the same bytes leave the same normalised footprint, however their alternatives are written |
| `RepeatWrites.WidenRepeatedStore` | native/src/reference_kernel.rs:4255-4348 | the widening step makes the footprint, or the rest of the object, or all memory read unknown and leaves every other read alone |
| `Words.AlignmentMaskRounds` | native/src/reference_kernel.rs:2082-2138 | a mask that passes the alignment test rounds words down to a multiple of its alignment |
| `Words.RoundAligned` | native/src/reference_kernel.rs:2082-2138 | masking an aligned base plus an offset subtracts the offset's residue |
| `Expressions.ConstantSoundExactly` | native/src/reference_kernel.rs:1703-1743 | a constant lies in its classification if and only if it is not a raw code offset below the image base |
| `Expressions.RawCodeConstantMisread` | native/src/reference_kernel.rs:1718-1733 | the constant 0x1000 in an image at 0x400000 is read as the code at 0x401000 |
| `Expressions.AdjustedDenotes` | native/src/reference_kernel.rs:1940-2026 | abstract addition and subtraction contain the sum and difference modulo 2^32 of any words their operands allow |
| `Expressions.ProductDenotes` | native/src/reference_kernel.rs:2028-2080 | the product of alternatives contains the operation applied to any choice of operands |
| `Operations.ShiftBits` | native/src/reference_kernel.rs:2068-2069 | shifts move bit i up or down by the amount modulo 32 and fill with zeros |
| `Operations.ConjunctionBits` | native/src/reference_kernel.rs:2064-2064 | bit i of a conjunction is set exactly when every operand has it |
| `Operations.DisjunctionBits` | native/src/reference_kernel.rs:2065-2065 | bit i of a disjunction is set exactly when some operand has it |
| `Operations.ParityBits` | native/src/reference_kernel.rs:2063-2063 | bit i of an exclusive or is set exactly when an odd number of operands have it |
| `Operations.NotBits` | native/src/reference_kernel.rs:2066-2066 | bit i of a complement is set exactly when the operand lacks it |
| `Operations.BitsDecide` | native/src/reference_kernel.rs:2062-2075 | a word is its 32 bits, so the bitwise rows leave no freedom |
| `Operations.ProductIsModular` | native/src/reference_kernel.rs:2060-2062 | multiplying any number of operands is integer multiplication modulo 2^32 |
| `Operations.LowProductIsModular` | native/src/reference_kernel.rs:2071-2071 | so is the low half of a product of two |
| `Operations.SumIsModular` | native/src/reference_kernel.rs:2386-2391 | the concrete sum of any number of operands is integer addition modulo 2^32 |
| `Operations.UnaryOperations` | native/src/reference_kernel.rs:2067-2070 | a word and its negation sum to zero modulo 2^32; a truth value becomes 0 or 1 and 0 only from 0 |
| `Operations.DifferenceAndChoice` | native/src/reference_kernel.rs:2321-2431 | the concrete difference plus the second operand is the first; a choice takes its second operand exactly when the first is not zero |
| `Operations.ProductExactly` | native/src/reference_kernel.rs:2028-2080 | on known scalars a product is exactly the set of results over all choices of operands, and a conflict exactly when there are more choices than the limit |
| `Operations.ReferenceMoves` | native/src/reference_kernel.rs:1940-2026 | adding a scalar on the right moves a reference by its signed value, subtracting it moves it back |
| `Operations.ReferenceMovesFromLeft` | native/src/reference_kernel.rs:1940-2026 | adding a scalar on the left moves it just so |
| `Operations.ReferencesDiffer` | native/src/reference_kernel.rs:1940-2026 | two references to one object differ by the scalar difference of their offsets |
| `Operations.ConstantExact` | native/src/reference_kernel.rs:1703-1743 | where nothing makes a constant ambiguous or misread its value allows that constant and nothing else |
| `Operations.AlignedExact` | native/src/reference_kernel.rs:2082-2138 | masking one reference allows exactly the masked address, wherever its object is placed |
| `Precision.OperatorExact` | native/src/reference_kernel.rs:2321-2431 | on known scalars the value of an addition of two, a subtraction, a choice or a product is exactly the set of words it yields on some choice of operands (a choice yields either branch), and a conflict only when there are more than the limit |
| `Precision.KnownExactly` | native/src/reference_kernel.rs:4009-4052 | where everything a node is computed from is one known word its value is exactly its concrete word |
| `Precision.OverriddenExactly` | native/src/reference_kernel.rs:4009-4052 | a node with a recorded constraint allows exactly the recorded words |
| `Precision.SubjectExactly` | native/src/reference_kernel.rs:2433-2469 | the nodes that test a register are exactly its reads and its masks, on either side, by itself or a constant, and each is that register under that mask in every machine |
| `Expressions.AlignedDenotes` | native/src/reference_kernel.rs:2082-2138 | aligned references denote the masked address of their base, wherever it is placed |
| `Expressions.SubjectSound` | native/src/reference_kernel.rs:2433-2469 | a recorded constraint on a masked register contains the concrete value of the node it overrides |
| `Expressions.EvaluateWord` | native/src/reference_kernel.rs:4009-4052 | memoised evaluation returns the value of the recursive definition and keeps the memo right |
| `Expressions.EvaluateAll` | native/src/reference_kernel.rs:2411-2431 | one shared memo gives every node its value |
| `Expressions.ExpressionSound` | native/src/reference_kernel.rs:2321-2431 | for every placement, every machine the environment describes and every limit, the concrete word of a node lies in its abstract value, provided the nodes it depends on are additions of two operands and constants that are not raw code offsets |
| `Additions.AdditionSoundExactly` | native/src/reference_kernel.rs:2386-2391 | on known scalars an addition is sound if and only if the operands beyond the second sum to zero |
| `Additions.AdditionSetsSoundExactly` | native/src/reference_kernel.rs:2386-2391 | on scalar sets it is sound if and only if the two-operand sums overflow the limit or absorb every sum of the ignored operands |
| `Additions.AdditionOperandsSoundExactly` | native/src/reference_kernel.rs:2386-2391 | for operands of every kind and wherever objects are placed, the two-operand result is sound for the whole sum if and only if some operand allows nothing, the result rules nothing out, or the ignored operands are scalars whose sums lead every alternative of the result to another one |
| `Additions.ThreeOperandAddition` | native/src/reference_plan.rs:444-444 | a three-operand addition that validation allows and evaluation gets wrong |
| `Additions.IgnoredReference` | native/src/reference_kernel.rs:2386-2391 | 0 + 0 + the address of an object is evaluated to 0 |
| `CallProjection.ForeignValueRestored` | native/src/reference_kernel.rs:7084-7288 | a value that names nothing of the callee's comes back unchanged |
| `CallProjection.TokenRestored` | native/src/reference_kernel.rs:7084-7288 | a token comes back as the word bound to it |
| `CallProjection.FrameValueRestored` | native/src/reference_kernel.rs:6725-6792 | a frame-relative pointer comes back covered, and exactly when the stack pointer has one alternative |
| `CallProjection.CallRoundTrip` | native/src/reference_kernel.rs:6714-7288 | parameterising any caller value and restoring it covers the value, and is exact when the caller's stack pointer has one alternative |
| `CallSoundness.RestoreSound` | native/src/reference_kernel.rs:7084-7288 | for every callee value, token, derived, frame-relative or foreign, and every placement in which the tokens and the frame lie where their bindings and the stack pointer allow, each word the callee's value allows is allowed by the restored value |
| `CallSoundness.TokenOffsetRestored` | native/src/reference_kernel.rs:7084-7150 | a token plus d bound to one object at k is restored as that object at k + d, and nothing else |
| `CallSoundness.InstantiatedAddress` | native/src/reference_kernel.rs:7084-7130 | rebuilding an identity, aligned or not, over the actual object moves no address |
| `CallSoundness.PassedSound` | native/src/reference_kernel.rs:6714-6792 | what the callee sees allows the word the caller passed, once its token stands for that word and the frame lies four bytes below every stack alternative |
| `CallSoundness.FrameBindingSound` | native/src/reference_kernel.rs:6940-6948 | the binding of the callee's frame allows the frame's address when the frame lies four bytes below some stack alternative |
| `CallSoundness.FrameBindingExact` | native/src/reference_kernel.rs:6940-6948 | with at most 256 stack alternatives it allows nothing else |
| `CalleeState.TraceLive` | native/src/reference_kernel.rs:6949-6993 | the liveness loop computes the least closed set of transient owners |
| `CalleeState.NativeCalleeState` | native/src/reference_kernel.rs:6916-7036 | the callee's cells, bindings and invalidated bytes, owner by owner: an ordinary owner has exactly the caller's, a live frame or parameter object keeps the caller's, a bound token has the invalidated bytes of the objects it is bound to, the own frame those above the caller's stack pointer, and any other owner has none; the call fails exactly on inverted ranges |
| `CalleeState.NamedAreLive` | native/src/reference_kernel.rs:6916-7036 | every owner a callee register other than ESP, cell, callback or binding names is live |
| `CalleeState.LiveIsNamed` | native/src/reference_kernel.rs:6949-6993 | conversely a live owner is one the callee can name, or was reached through a cell or binding that the call replaces |
| `CalleeState.NamedOwnersAreWhole` | native/src/reference_kernel.rs:6916-7036 | when no frame is reused, every named owner keeps all its cells and invalidations, and keeps its caller binding if and only if the call makes none for it or the same one |
| `CalleeState.ReboundBindingLost` | native/src/reference_kernel.rs:7028-7036 | a call that passes an unknown word in a register and re-enters its own context: a named, live owner of the least closed set loses its caller binding |
| `CalleeState.TokenCallIsProjected` | native/src/reference_kernel.rs:7084-7288 | the token register and its binding in that call are the ones parameterisation makes |
| `CalleeState.StackRowsExact` | native/src/reference_kernel.rs:7010-7027 | a callee frame byte is invalidated exactly when the caller byte it stands for is |
| `CalleeState.ParameterRowsExact` | native/src/reference_kernel.rs:6925-6939 | a byte of a bound token is invalidated exactly when the byte of a bound object at that offset is |
| `CalleeState.CallerStackRowInverts` | native/src/reference_kernel.rs:7290-7323 | moving frame ranges back to the caller undoes moving them in |
| `Priorities.NativeRpoPriorities` | native/src/reference_kernel.rs:932-970 | the explicit-stack traversal gives every node its own number, 0 to n-1, and a node that the roots lead to is a root or comes after one of its predecessors; nodes are marked when they are pushed, so no more than that is promised |
| `Priorities.NativePending.constructor` | native/src/reference_kernel.rs:972-1010 | a new queue is empty and numbered over the static graph |
| `Priorities.NativePending.Queue` | native/src/reference_kernel.rs:1012-1017 | queueing adds the key once |
| `Priorities.NativePending.Pop` | native/src/reference_kernel.rs:1018-1023 | popping takes the queued key that comes before all others in the order of priority, address and context, and nothing only from an empty queue |
| `Priorities.FirstRowUnique` | native/src/reference_kernel.rs:907-911 | that order has one first row, and no row has less priority |
| `Priorities.NativePending.Discover` | native/src/reference_kernel.rs:1028-1046 | rebuilding the priorities loses no queued key and numbers all edges known so far |
| `Priorities.ChildInUniverse` | native/src/reference_kernel.rs:884-896 | child contexts stay inside a finite set, so a run meets finitely many work keys |
| `Priorities.UniverseExactly` | native/src/reference_kernel.rs:884-896 | that set holds exactly the contexts of known roots, entries and call sites with call strings up to the limit |
| `Worklist.EnqueuedGrows` | native/src/reference_kernel.rs:7791-7845 | enqueueing covers the sent state, queues only a target that moved, lowers no state and costs no step |
| `Worklist.SummarizedGrows` | native/src/reference_kernel.rs:7847-7882 | a summary update covers the returned state and requeues every dependent of a summary that moved |
| `Worklist.SettledKept` | native/src/reference_kernel.rs:7957-8002 | whatever one step does, every other settled key stays settled or is queued again |
| `Worklist.CurrentSettled` | native/src/reference_kernel.rs:7984-8620 | an evaluated key is settled on its state and the summaries it read, unless its own evaluation requeued it |
| `Worklist.BranchedAllHolds` | native/src/reference_kernel.rs:8543-8620 | of the successors of a branch the last of each target is delivered or waits in the deferred table |
| `Worklist.EvaluatedKeeps` | native/src/reference_kernel.rs:7984-8620 | one evaluation keeps the invariant of the whole loop |
| `Worklist.DrainedKeeps` | native/src/reference_kernel.rs:7960-7983 | draining a deferred edge keeps the invariant and costs no step |
| `Worklist.FinishedCovers` | native/src/reference_kernel.rs:8809-8814 | with queue and deferred table empty, on a stored key's final state and summaries everything it sends at once and the last branch successor of each target is covered by its target or reported outside, and its return summary is covered |
| `ClosureEdges.EnqueuedEdges` | native/src/reference_kernel.rs:7813-7820 | enqueueing records exactly one edge, inside or outside the program, whether or not the target's state moves |
| `ClosureEdges.EvaluatedKeepsEdges` | native/src/reference_kernel.rs:7984-8620 | an evaluation leaves every stored key that is not queued with an edge on record, or waiting, for each successor it emits |
| `ClosureEdges.DrainedKeepsEdges` | native/src/reference_kernel.rs:7960-7983 | draining a deferred edge keeps that, since the edge goes from waiting to recorded |
| `ClosureEdges.WaitingIsPresent` | native/src/reference_kernel.rs:8568-8620 | after a branch is evaluated only its present successors wait |
| `ClosureEdges.FinishedRecords` | native/src/reference_kernel.rs:8809-8814 | in a finished view every successor a stored key emits has its edge on record, among the edges when its target is in the program and among the outside ones when not, back edges and replaced branch successors included |
| `ClosureEdges.EdgesAreEmitted` | native/src/reference_kernel.rs:7813-7820 | conversely every recorded edge was emitted by a stored key on a state and summaries it still covers |
| `ClosureRun.StepKeeps` | native/src/reference_kernel.rs:7957-8620 | every step keeps invariant and roots and strictly lowers the remaining ranks plus queued keys |
| `ClosureRun.EmptyCost` | native/src/reference_kernel.rs:7957-7959 | the cost at the start is the number of keys times one more than the height, times one more than the number of contexts |
| `ClosureRun.MissingExactly` | native/src/reference_kernel.rs:7936-7943 | exactly the roots outside the universe are reported |
| `ClosureRun.Closure.Enqueue` | native/src/reference_kernel.rs:7791-7845 | the method performs the enqueue function on the loop's state: one edge recorded in any case, and the target's state raised and queued if it moves |
| `ClosureRun.Closure.UpdateSummary` | native/src/reference_kernel.rs:7847-7882 | the method performs the summary function and queues the dependents |
| `ClosureRun.Closure.Step` | native/src/reference_kernel.rs:7984-8620 | one iteration takes a queued key and performs exactly one evaluation of it |
| `ClosureRun.Closure.FlushDeferred` | native/src/reference_kernel.rs:7964-7979 | draining empties the deferred table, keeps the invariant and costs nothing |
| `ClosureRun.Closure.Run` | native/src/reference_kernel.rs:7936-8814 | the loop keeps its invariant and that of its edges, reports an exceeded bound exactly when work is left and only with the budget used up, and never exceeds a budget above the closed-form step bound |
| `ClosureResults.RunsStayInside` | native/src/reference_kernel.rs:7957-8814 | if evaluations account for concrete steps and no branch successor is replaced by another of its target, a finished run contains every concrete run from the roots |
| `ClosureResults.AgreeingAllRetained` | native/src/reference_kernel.rs:8568-8620 | no branch successor is replaced where successors with one target carry one state |
| `ClosureResults.DeferredSuccessorsExactly` | native/src/reference_kernel.rs:8568-8620 | every successor of a branch is delivered or waits in the table if and only if none is superseded: no later successor claims its target under a new edge with another state while the target does not cover it yet |
| `ClosureResults.EqualTargetsLoseASuccessor` | native/src/reference_kernel.rs:8568-8620 | a lawful program whose run finishes without a blocker and covers only one of two successors |
| `ClosureResults.EqualTargetsLawful` | native/src/reference_kernel.rs:8568-8620 | that program obeys every law the loop asks for |
| `RegisterVectors.VectorLaws` | native/src/reference_kernel.rs:5136-5162 | slot-wise joined vectors of the kernel's values, with any limit per slot, are covering, transitive and of finite height |
| `RegisterVectors.KernelVector` | native/src/reference_kernel.rs:5136-5162 | the 30 slots of registers and flags, current and at the last call, obey these laws with the wider limit at the two stack pointers only, and their height is given in closed form |
| `RegisterVectors.RankRises` | native/src/reference_kernel.rs:5136-5162 | a vector join that changes anything raises the total rank |
| `RegisterVectors.CoversPointwise` | native/src/reference_kernel.rs:5136-5162 | a vector covers another exactly when each slot does |
| `LinkReachability.SemanticLink.Visit` | native/src/reference_kernel.rs:10159-10187 | visiting a relocation takes over its source's flag, marks its targets and reports a change exactly when something changed |
| `LinkReachability.SemanticLink.Close` | native/src/reference_kernel.rs:10157-10191 | the loop terminates with each symbol reachable exactly when it started so or a chain leads to it, with exactly the roots that flow along reachable relocations |
| `LinkReachability.ClosedIsExact` | native/src/reference_kernel.rs:10157-10191 | a pass that changes nothing leaves exactly the chains' marks |
| `LinkReachability.ReachedIsLeast` | native/src/reference_kernel.rs:10157-10191 | the reached symbols lie in every closed set that holds the initial ones |
| `LinkReachability.ReachedIsClosed` | native/src/reference_kernel.rs:10157-10191 | the reached symbols are closed under the relocations |
| `LinkReachability.ProvenanceAlong` | native/src/reference_kernel.rs:10213-10236 | a symbol reached by a chain has a root, provided the initial symbols and the sources of reachable direct relocations have one |
| `FactEncoding.Interner.Intern` | native/src/reference_kernel.rs:1313-1325 | interning returns the row of the value and appends only new values |
| `FactEncoding.CanonicalCatalog` | native/src/reference_kernel.rs:1362-1375 | the catalog lists the interned values in order and the remap leads each old row to its value |
| `FactEncoding.CatalogUnique` | native/src/reference_kernel.rs:1362-1375 | the catalog does not depend on interning order |
| `FactEncoding.VarintRoundTrip` | native/src/reference_kernel.rs:1391-1402 | decoding a delta byte sequence gives the number back and leaves the rest |
| `FactEncoding.VarintShortest` | native/src/reference_kernel.rs:1391-1402 | it is the only shortest byte sequence that decodes to the number |
| `FactEncoding.DeltasRoundTrip` | native/src/reference_kernel.rs:1383-1404 | an ascending index list is recovered from its deltas |
| `FactEncoding.HexRoundTrip` | native/src/reference_kernel.rs:1405-1410 | the hex text decodes to its bytes |
| `FactEncoding.SortDedupSorted` | native/src/reference_kernel.rs:1377-1382 | sorting and removing duplicates gives the ascending list of the same indices |
| `FactEncoding.PushVarint` | native/src/reference_kernel.rs:1391-1402 | the byte loop appends exactly the unsigned LEB128 form of the delta |
| `FactEncoding.EncodedReferenceIndices` | native/src/reference_kernel.rs:1377-1410 | the loops compute the specified text |
| `FactEncoding.EncodingRoundTrip` | native/src/reference_kernel.rs:1362-1410 | decoding the text through the catalog gives exactly the named values |
| `FactEncoding.EncodingOrderFree` | native/src/reference_kernel.rs:1313-1410 | two texts over one catalog are equal exactly when they name the same values, whatever the interning order |
| `UnionFind.SameRootIffLinked` | native/src/abi_solver.rs:258-290 | two nodes share a root exactly when the equalities link them |
| `UnionFind.RootsUnique` | native/src/abi_solver.rs:269-275 | a parent table leads every node to one root |
| `UnionFind.RootIsLeast` | native/src/abi_solver.rs:258-290 | the root is the least node of the reflexive, symmetric and transitive closure |
| `UnionFind.CompressKeeps` | native/src/abi_solver.rs:269-275 | path compression changes no root |
| `UnionFind.MergedPartition` | native/src/abi_solver.rs:277-289 | hanging the larger root under the smaller merges exactly the two classes |
| `UnionFind.ArrayUnionFind.Find` | native/src/abi_solver.rs:269-275 | find returns the root and keeps all classes |
| `UnionFind.ArrayUnionFind.Union` | native/src/abi_solver.rs:277-289 | union adds exactly one pair to the closure |
| `UnionFind.DictUnionFind.Find` | src/spaghetti_extractor/abi/solver.py:132-140 | the Python find adds an unknown node, returns the root and keeps all classes and the key order |
| `UnionFind.DictUnionFind.Union` | src/spaghetti_extractor/abi/solver.py:142-148 | the Python union adds exactly one pair and keeps the order of first insertion |
| `AbiSolver.ResolutionExact` | native/src/abi_solver.rs:875-925 | contradiction exactly for a contradiction fact or no satisfying assignment; reported values are exactly the attainable ones; unknown only without a bound or above the budget |
| `AbiSolver.StatusExactly` | native/src/abi_solver.rs:875-925 | status, values and issue code of a component, each exactly by whether it is refuted or bounded and by the attainable values and their number |
| `AbiSolver.EvidenceExactly` | native/src/abi_solver.rs:857-925 | the reported evidence is exactly that of the linked facts and equalities, the dependencies exactly those of the linked facts |
| `AbiSolver.AttainableIffAllowed` | native/src/abi_solver.rs:875-905 | a value is attainable exactly when every bounding fact of the component allows it |
| `AbiSolver.UnknownIsNeutral` | src/spaghetti_extractor/abi/native_solver.py:44-60 | blank facts for required fields change no answer |
| `AbiSolver.NativeMerge` | native/src/abi_solver.rs:875-925 | the native merge loop computes the specified report of a component |
| `AbiSolver.PythonMerge` | src/spaghetti_extractor/abi/solver.py:191-246 | the Python merge loop computes the same report and the specified issue code |
| `AbiDrivers.Resolve` | native/src/abi_solver.rs:844-939 | every node gets the report of its component, for any order of facts and equalities |
| `AbiDrivers.GroupIsComponent` | native/src/abi_solver.rs:857-873 | the group of a node's root holds exactly the facts and evidence linked to the node |
| `AbiPython.Component` | src/spaghetti_extractor/abi/solver.py:415-443 | one component ends with the right answers and issues for its members, or fails exactly when the native facts omit its first member |
| `AbiPython.Solve` | src/spaghetti_extractor/abi/solver.py:371-443 | with or without the native result every required field gets the specified report and every key its issue code; the call fails if and only if it is native and some component's first key is not required |
| `AbiPython.NativeFacts` | src/spaghetti_extractor/abi/native_solver.py:20-110 | the native facts are the specified reports of exactly the required fields |
| `AbiPython.DefaultFieldsNeverOmitted` | src/spaghetti_extractor/abi/solver.py:357-362 | with every field of every subject required the native route never fails: every key of the dictionary is such a field |
| `AbiPython.UnrequiredFieldIsOmitted` | src/spaghetti_extractor/abi/solver.py:415-440 | a fact on a field nobody requires makes the native route fail |
| `AbiPython.SolutionsOrderFree` | src/spaghetti_extractor/abi/solver.py:371-443 | any two finished calls on inputs that differ in order and repetition, native or not, report the same for every required field and the same issue for every key |
| `JsonText.StringRoundTrip` | native/src/lib.rs:10-46 | decoding an escaped string gives back every text exactly, whatever follows |
| `JsonText.CharRoundTrip` | native/src/lib.rs:10-46 | each character's escape decodes to it, surrogate pairs included |
| `JsonText.ShortestEscape` | native/src/lib.rs:10-46 | of all printable texts that decode to a character its escape is the shortest, and among those the one without upper-case digits |
| `JsonText.StringPrintable` | native/src/lib.rs:19-46 | strings are written as printable ASCII |
| `CanonicalJson.SortEntriesSorted` | native/src/lib.rs:63-82 | keys come out in code-point order and no entry is lost |
| `Sequences.SeqLessExactly` | native/src/lib.rs:63-82 | one key comes before another exactly when, after a common front, it ends first or has the smaller code point |
| `CanonicalJson.AscendingUnique` | native/src/lib.rs:63-82 | distinct keys have one sorted listing |
| `JsonRoundTrip.ValueRoundTrip` | native/src/artifact_json.rs:8-47 | decoding a printed value gives it back and leaves what follows |
| `JsonRoundTrip.CanonicalRoundTrip` | native/src/artifact_json.rs:8-47 | decoding a canonical line gives the value with sorted keys |
| `JsonMeaning.CanonMeans` | native/src/artifact_json.rs:31-44 | sorting keys at every level keeps the meaning |
| `JsonMeaning.SameBytesExactly` | native/src/artifact_json.rs:8-47 | values without a negative zero are written as the same bytes exactly when they mean the same |
| `JsonParsing.ReadableMeaning` | native/src/artifact_json.rs:106-108 | whether the parser can return a value depends on its meaning alone |
| `JsonParsing.RereadExactly` | native/src/artifact_json.rs:106-108 | the parser's own pass leaves a sorted value alone exactly when no object starts with the number token, the nesting stays below the limit and no zero loses its sign |
| `JsonParsing.CanonForm` | native/src/artifact_json.rs:31-44 | the canonical form is sorted and idempotent, and keeps meaning, readability and the signs of zeros |
| `JsonLines.CanonicalWriter.WriteString` | native/src/lib.rs:19-46 | the character loop appends the specified text |
| `JsonLines.CanonicalWriter.WriteValue` | native/src/artifact_json.rs:8-47 | writing appends the canonical line, and fails exactly on a number that is no integer |
| `JsonLines.SortCommutes` | native/src/artifact_json.rs:31-44 | sorting before or after the children are written makes no difference |
| `JsonLines.PrintPrintable` | native/src/artifact_json.rs:8-47 | a canonical line holds printable ASCII only, so no line end |
| `JsonLines.AcceptLineExactly` | native/src/artifact_json.rs:94-117 | with any parser that sorts keys, spells literals and reads readable values back, whether or not it keeps the sign of zero, the accept test takes exactly the canonical lines of values the parser gives back |
| `JsonLines.ParseCanonicalLines` | native/src/artifact_json.rs:80-122 | the line loop accepts exactly the byte sequences that are canonical lines of such values within the bound, and returns them |
| `JsonLines.ReferenceIsParser` | native/src/artifact_json.rs:106-108 | for either reading of `-0`, the decoder followed by the parser's own pass is such a parser |
| `JsonLines.LineUniqueExactly` | native/src/artifact_json.rs:80-122 | a value has an accepted line if and only if it is readable, and then no second one if and only if no number in it is zero or the parser drops the sign of zero |
| `JsonLines.ZeroLines` | native/src/artifact_json.rs:94-117 | `0` is accepted, and `-0`, which means the same, exactly when the parser keeps the sign |
| `JsonLines.PrivateNumberHasNoLine` | native/src/artifact_json.rs:94-117 | the writer writes the object whose key is the number token, and the reader refuses that line |
| `LibraryIndex.PostingsExactly` | native/src/library_index.rs:417-425 | a posting list holds exactly the records with that ABI key and feature |
| `LibraryIndex.SharedExactly` | native/src/library_index.rs:96-125 | two records share a feature exactly when their ABI keys agree and both list its hash under its kind |
| `LibraryIndex.Invert` | native/src/library_index.rs:417-425 | the index loop builds exactly those lists |
| `LibraryIndex.HitsAreShared` | native/src/library_index.rs:431-442 | the postings read for a target are its shared features, counted over the whole catalog |
| `LibraryIndex.Candidates` | native/src/library_index.rs:430-452 | a target's candidates carry exactly the shared features, and reading stops exactly when the hits pass the budget |
| `LibraryIndex.RetrieveCandidates` | native/src/library_index.rs:412-478 | retrieval fails exactly when shared features or rows exceed their budgets; otherwise the rows are exactly the double loop's, strictly sorted, each once |
| `ConformanceHarness.ObservationsInOrder` | tools/bochs-conformance/instrument.cc:553-606 | a log is orderly exactly when the k-th observation belongs to case k with nothing but observations before it, DONE carries the number of observations, and nothing follows a fatal line |
| `ConformanceHarness.ViolationExactly` | tools/bochs-conformance/instrument.cc:945-981 | an access is clean exactly when it is identity-mapped, inside guest RAM and permitted by a declared region |
| `ConformanceHarness.ViolationDecided` | tools/bochs-conformance/instrument.cc:945-981 | an access that violates something is called after the first of five checks it fails |
| `ConformanceHarness.RefusalDecided` | tools/bochs-conformance/instrument.cc:739-815 | a refused case is observed with the verdict of the first of eleven checks it fails, and a case that fails none is not refused |
| `ConformanceHarness.AfterDecided` | tools/bochs-conformance/instrument.cc:874-902 | a case that ran to its end is observed with the first of five objections, or as completed |
| `ConformanceHarness.FaultExactly` | tools/bochs-conformance/instrument.cc:904-931 | a fault completes its case exactly when it is a divide error at the case's own instruction with nothing objectionable seen before |
| `ConformanceHarness.OnlyFsChanges` | tools/bochs-conformance/instrument.cc:622-650 | a case leaves every segment but FS as the harness had it, and FS is that or the requested one at ring 3 with its cached access rights dropped |
| `ConformanceHarness.OrdinarySegmentsDrop` | tools/bochs-conformance/instrument.cc:652-668 | the four ordinary segments keep descriptor index, base and access and drop to ring 3; FS and GS stay |
| `ConformanceHarness.Harness.ServiceRequest` | tools/bochs-conformance/instrument.cc:718-820 | a request ends in DONE, in a refusal observed at once, or in one outstanding case, which it becomes if and only if it asks for supported features, its address, flags, FS and instruction are acceptable, no region touches its code slot and the x87 state was injected exactly; exactly the listed inputs end the process |
| `ConformanceHarness.Harness.PrepareCaseSegments` | tools/bochs-conformance/instrument.cc:622-650 | the harness segments are saved and the case's FS swapped in if and only if the requested FS can be injected exactly; otherwise the process ends |
| `ConformanceHarness.Harness.EnterCase` | tools/bochs-conformance/instrument.cc:652-674 | the case enters ring 3 with the requested FS, or the process ends |
| `ConformanceHarness.Harness.BeforeExecution` | tools/bochs-conformance/instrument.cc:852-872 | a case becomes active only at its own instruction and only if it is the requested one |
| `ConformanceHarness.Harness.AfterExecution` | tools/bochs-conformance/instrument.cc:874-902 | an active case is observed once, with the verdict of its checks, and the harness gets back the segments it had at the request |
| `ConformanceHarness.Harness.Exception` | tools/bochs-conformance/instrument.cc:904-931 | the same for a case that faults |
| `ConformanceHarness.Harness.Halt` | tools/bochs-conformance/instrument.cc:933-943 | the process exits only after DONE with every supplied case observed |
| `ConformanceHarness.Harness.LinearAccess` | tools/bochs-conformance/instrument.cc:945-981 | the first violation of a case is recorded and sticks |
| `ConformanceHarness.Harness.NearBranch` | tools/bochs-conformance/instrument.cc:1016-1061 | a branch to an outstanding case enters it, a branch inside a case is classified, any other changes nothing |
| `ConformanceHarness.Harness.Output` | tools/bochs-conformance/instrument.cc:988-994 | inside a case output is I/O; outside it exactly the ready signal serves a request, anything else changes nothing |
| `ConformanceHarness.Harness.Replay` | tools/bochs-conformance/instrument.cc:852-1067 | every callback sequence is handled in full or up to the end of the process, and keeps the invariant: observations in order, active implies pending, segments swapped exactly while a case is pending; at exit all supplied cases are observed |

## Left out

- Nonlocal transitions and checked exception unwinding of the closure loop (native/src/reference_kernel.rs:7634-7788, 8130-8315): they read active frames and build Windows records.
- ExpressionSound: loads, predicates, comparisons and flags are leaves with given values; their meaning rests on provenance conventions outside the modelled code. The nodes a node depends on must be additions of two operands and constants that are not raw code offsets, as the exact-condition lemmas show.
- JoinState: the memory fields of a state; registers and flags are joined in RegisterVectors, and callbacks, constraints, flag relations and relational bindings are not joined here.
- WidenRepeatedStore: the exact single-shape path of rep_movs and rep_stos (native/src/reference_kernel.rs:4300-4331) is not modelled, because it depends on cells of overlapping widths; preserves_inherited_memory is not modelled.
- AdjustedDenotes: offsets are unbounded integers; the source reports an error when one leaves signed 64 bits. The same holds for offsets in call projection.
- AdditionOperandsSoundExactly: identities that are aligned versions of another object are not covered, because their addresses depend on one another.
- NativeCalleeState: the projected stack words, argument registers and bindings are inputs; CallProjection says what they are for one value.
- Step: the transfer evaluation is an arbitrary function of key, state and looked-up summaries that obeys the stated laws.
- Run: root sets of edges, provenance rows, metrics and receipts, and blockers other than edges and roots outside the universe and the step bound.
- RunsStayInside: assumes that each evaluation accounts for its concrete steps, and that no branch successor is replaced by another of its target; where one is, the code can lose it, as DeferredSuccessorsExactly says.
- KernelVector: the closure run is instantiated with register and flag vectors; memory, callbacks, scalar constraints and flag relations of a state are joined by rules this instance does not carry.
- Construction of link symbols and relocations, their final status texts and blockers (native/src/reference_kernel.rs:9625-10149, 10193-10240).
- Aggregation of reference bindings before encoding (native/src/reference_kernel.rs:1412-1456): the encoder is modelled from the index list on.
- Certificates, profiles and assumptions around the ABI solver, and validation of its input and limits.
- Floating-point values in canonical JSON, which another writer handles (native/src/abi_solver.rs:628-640).
- ParseCanonicalLines: a line is a sequence of characters rather than UTF-8 bytes, which agree on the ASCII that the writer puts out.
- Parsing of library records and their limits; counters are unbounded, where the source fails on overflow as it fails on the budget.
- ServiceRequest: register dumps, guest memory writes, x87 state and the request parser; decoding and x87 exactness are arbitrary outcomes of a callback.

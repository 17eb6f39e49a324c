# A model of Vapaa's subarray datatypes

Vapaa implements the Fortran 2018 MPI bindings on top of the MPI C library. A Fortran array section reaches
its C code as a descriptor: a base address, an element length and, per dimension, an extent and a byte stride
of either sign. When the section is not contiguous, `source/cfi_util.c` compiles it into an MPI derived
datatype, and the wrappers in `source/mpi_p2p.c` and `source/mpi_coll.c` create, commit, use and free that
datatype. This project models that code and proves what the datatypes mean.

The meaning of a datatype is its typemap: the ordered list of (displacement, size) entries it touches. The
meaning of a section is its first `count` elements in array element order (section 9.5.3.2 of
ISO/IEC 1539-1:2018), where element m lies at the displacement whose mixed-radix digits are m's subscripts.

| file | contents |
|---|---|
| `CInt.dfy` | C integer conversion and division, facts about division |
| `Section.dfy`, `Layout.dfy` | descriptors, array element order, contiguity, spacing |
| `Typemaps.dfy` | typemaps, the MPI constructors (section 5.1.2 of MPI 4.0), bytes and memory |
| `MpiState.dfy`, `MpiLibrary.dfy` | the MPI library: datatype registry, pending operations, memory, and runs of its steps |
| `CfiUtil.dfy`, `Indexed.dfy` | `source/cfi_util.c` |
| `Composition.dfy`, `Selection.dfy` | what the datatype composed with a user's datatype means, and when it means what the user's datatype does |
| `Transfers.dfy`, `Collectives.dfy` | wrappers of `source/mpi_p2p.c` and `source/mpi_coll.c` |
| `UserDatatypes.dfy` | the calls with a user's datatype, from the calls to the bytes that it selects |
| `Meaning.dfy`, `BlockPlacement.dfy` | what the wrappers mean for the elements of the sections |
| `Elements.dfy` | pack and unpack, broadcast and gather from the calls of all processes to the elements of their arrays |
| `Exchange.dfy` | Sendrecv, from the call to the elements, and two processes that exchange elements |
| `Requests.dfy`, `RequestArrays.dfy` | Fortran request arrays, and what a completion call does to them |
| `Programs.dfy`, `Waits.dfy` | any sequence of the modelled calls; requests and waits in the midst of them |

The MPI library is the environment: the class `Mpi` has one field that is not ghost, the library's state, and
its methods state the part of the MPI standard that the callers rely on. Memory is a map from addresses to
bytes, the network appears as the bytes a receive is given, and the library chooses freely which operations a
completion call reports. C integer arithmetic is written out where the code guards or wraps. Two outcomes mean
that a call does not come back: `Aborted`, a failed `VAPAA_Assert`, and `Undefined`, when the code would use
memory outside its own arrays, or addresses that it has not stored there. The build without assertions
(`NO_SEATBELTS`) is not modelled.

The library's state changes only by `Mpi.Step`, one event at a time, and the ghost field `history` records the
events. Every method of the library, every wrapper and every program built from them extends the history, so
the states before and after any of them are states of one run, and what is proved about all runs
(`RegistryOverRuns`, `PendingKeepsMeaning`, `PendingReceiveFillsSection`, `ReclaimedByLastUser`) holds between
them. A sequence of the modelled calls is an `Execution`: for each call the exact error class, its effect on the
library's state, the run of events behind it, and the actions of a program with Fortran requests that it amounts
to. `PerformAll` makes the calls and produces such an execution; `HandlesKept`, `NothingLeaks`,
`ExecutionSimulatesC` and `ReceiveInExecution` are proved about every execution; the last names the call that
finished the receive and its message, and `ReceivedAfterWait` says that there is one once a wait for it has come back.

The wrappers are specified by the addresses of a buffer, which depend on the path taken and the datatype
built; `EveryPathIsTheSection` shows that for a predefined datatype of the element's size these are always the
bytes of the section's first elements, the form in which the round trip, broadcast, gather, pending-receive
and placement results are stated. For a datatype that the program has made, `BufferIsMeant` shows when they are
the bytes that the datatype selects from the contiguous array that the section stands for, and the calls are
restated in that form. `SpacedSectionIsDistinct` says when those bytes do not overlap, and
`SectionIsSpaced` that every section of an array is such a section.

Places where the code departs from its evident intent are kept as they are. Seven have the exact condition
under which the result is still right and concrete failing inputs. The first four are in the composition of a
section with a user-defined datatype; `CompositionExact` states the condition for all four together, down to the
bytes described, and `CompositionPreservesMeaning` the same for the data packed from any memory:

- The step between copies of a user-defined datatype is its extent in bytes, added to element numbers
  (`source/cfi_util.c:498-506`), so the code selects other elements or reads outside its array of addresses:
  `ByteStepIsRight`; `ByteStepExample`, `OutsideExample`.
- The composed datatype takes its elements from the descriptor's element type, without the check of
  `source/cfi_util.c:731-738`, so a section of character(8) loses seven bytes of every eight
  (`source/cfi_util.c:528-530`): `ComposedSizeExact`; `ElementSizeExample`.
- Segments of the user's datatype that are not whole elements are accepted, and the bytes that are left over are
  lost (`source/cfi_util.c:501-503`): `ComposedSizeExact`; `PartialExample`.
- The extents are converted to int (`source/cfi_util.c:371-385`), so the loops over an extent above `INT_MAX` list
  the addresses of fewer elements, and of other ones where a later dimension follows: `WidenedIs`;
  `NarrowExample`.
- `CFI_MPI_Sendrecv` tests the send side twice (`source/mpi_p2p.c:451`): with a contiguous send side the receive
  side is taken to be contiguous too, and with a strided one even a contiguous receive side is given a datatype
  of its own, which can be refused: `SendrecvPlacement`; `SendrecvExample`, `SendrecvRefusedExample`.
- A gather into a section that is not contiguous places blocks by the extent of one block's datatype
  (`source/mpi_coll.c:215-224`): `BlocksLandInPlace`, for strides of any size and either sign; `BlocksExample`
  fails, the two sections of `FittingExample` are not contiguous and succeed.
- The strided path uses the descriptor's element type and does not look at the caller's predefined datatype
  (`source/cfi_util.c:564`): `StridedPathExact`; `DatatypeIgnoredExample`. The contiguous path passes the
  caller's datatype on, which means the section's elements under the same condition: `ContiguousPathExact`.

Three more concern refusals:

- Rank 15 is refused beyond the two leading dimensions although the helper handles it
  (`source/cfi_util.c:720-728`): `BuiltinCode`, `AcceptedExactly`; `Rank15Example`.
- On a process that is not the root, `CFI_MPI_Gather` still builds the output's datatype and aborts when it
  cannot, though MPI ignores those arguments there (`source/mpi_coll.c:215-221`): `GatherOutcome`;
  `NonRootExample`.
- A datatype that fails the final size check is returned to the registry unfreed
  (`source/cfi_util.c:731-738`): `CreateBuiltin`.

## Model

| member | source | states |
|---|---|---|
| Section.SubscriptsOfPosition | source/cfi_util.c:387-453 | the nest's element m has valid subscripts, its position in array element order is m, and its displacement is the strides weighted by those subscripts |
| Section.PositionOfSubscripts | source/cfi_util.c:387-453 | every valid subscript tuple is visited at exactly one position, so the nest is a bijection |
| Section.DispAppend | source/cfi_util.c:250-265 | dimensions beyond the rank change no displacement, so the 2-, 3- and 15-deep nests agree |
| Section.PaddedProduct | source/cfi_util.c:371-385 | padding to 15 dimensions changes no element count |
| Layout.ContiguousPrefix | source/mpi_p2p.c:240-241 | the first count elements lie one after the other if and only if the strides that reach them are those of a contiguous array |
| Layout.ContiguousStrides | source/mpi_p2p.c:240-241 | a section passes the contiguity test if and only if its strides are those of a contiguous array |
| Layout.ContiguousIsConsecutive | source/mpi_p2p.c:240-241 | its elements are then one after the other, and where no dimension has just one element it passes if and only if they are |
| Layout.DispSpacing | source/cfi_util.c:607-723 | when each stride, of either sign, steps over the span of all faster dimensions, different elements are at least an element apart |
| Layout.SectionIsSpaced | source/cfi_util.c:607-723 | the strides of every section of an array do so, with a subscript triplet of either sign or a scalar subscript in each dimension |
| CfiUtil.CheckedTotal | source/cfi_util.c:566-592 | the 64-bit guard loop succeeds if and only if every extent and every partial product fits an int, and then returns the exact product |
| CfiUtil.GuardsMakeIntsSafe | source/cfi_util.c:594-625 | after the guards the int conversions and the product of the leading extents are exact, and no remainder is by zero |
| CfiUtil.AssumedSizeRejected | source/cfi_util.c:578-602 | an assumed-size last extent of -1 is refused by the guards for every count, except 0 of an array that is empty anyway |
| CfiUtil.SizeCheckModulo | source/cfi_util.c:731-738 | for all numbers: the final check passes if and only if the bytes described and those of the section agree modulo 2^32, more of them than an int holds counting as -32766 |
| CfiUtil.SizeCheckExact | source/cfi_util.c:731-738 | where an int holds both, it passes if and only if the element type has the section's element length or there are no elements |
| CfiUtil.ElementTypes | source/cfi_util.c:170-188 | exactly the codes that the code does not list have no element type, and every other code has one of the width of its C type |
| CfiUtil.GuardsMeanFits | source/cfi_util.c:571-592 | for a section that has elements the guards pass if and only if an int holds their number |
| CfiUtil.GuardsOfEmpty | source/cfi_util.c:571-592 | for one that has none, if and only if an int holds each extent and the number of elements of the dimensions before the first extent of 0 |
| CfiUtil.AcceptedExactly | source/cfi_util.c:559-738 | for every known type code and every count, success if and only if the guards pass, the section has count elements, rank 15 stays within two dimensions, and the byte counts agree as far as the check can tell; where an int holds them, if and only if the C type is as wide as the elements |
| CfiUtil.ElementsAccepted | source/cfi_util.c:559-738 | elements as wide as their type: accepted if and only if an int holds the number of all elements, there are count of them, rank 15 allows them, and an int holds the bytes, or these happen to agree with -32766 |
| CfiUtil.BuiltinOutcome | source/cfi_util.c:559-738 | which error comes back for a section that has elements, in order of precedence |
| CfiUtil.AcceptedEntries | source/cfi_util.c:604-738 | the datatype of an accepted section has exactly its elements, count times the element length in bytes |
| CfiUtil.CharacterExample | source/cfi_util.c:731-738 | four elements of a strided array of character(8), whose type is one byte wide, are refused by the final check |
| CfiUtil.RefusalExamples | source/cfi_util.c:571-602 | one input for each other refusal |
| CfiUtil.Rank15Example | source/cfi_util.c:720-728 | five of eight elements: accepted with rank 14, refused with rank 15 |
| CfiUtil.SingleBlocks | source/cfi_util.c:607-617 | the hvector of single elements is the first count elements |
| CfiUtil.Blocks | source/cfi_util.c:625-633 | the hvector of whole runs is the first count elements when the stride is the element size |
| CfiUtil.NestedRuns | source/cfi_util.c:636-648 | the hvector of hvectors is the first count elements |
| CfiUtil.Enumerate2D | source/cfi_util.c:662-674 | the nest leaves through the jump with exactly count displacements, entry m being that of element m |
| CfiUtil.Enumerate3D | source/cfi_util.c:696-711 | the same for three loops |
| CfiUtil.NestUntil | source/cfi_util.c:278-340 | any number of inner loops of the deep nest write the next elements' displacements in order and stop at count |
| CfiUtil.Enumerate15D | source/cfi_util.c:250-340 | the padded 15-deep nest writes exactly the first count displacements |
| CfiUtil.CreateHindexedOfOnes | source/cfi_util.c:656-681 | the hindexed datatype is the first count elements, and the only change to the registry |
| CfiUtil.CreateNested | source/cfi_util.c:638-647 | freeing the temporary leaves exactly the outer datatype, unaffected |
| CfiUtil.CreateTwoDimensional | source/cfi_util.c:618-683 | all three forms give the first count elements |
| CfiUtil.CreateDatatype15D | source/cfi_util.c:242-356 | the first count elements, or the error for a datatype that is not predefined |
| CfiUtil.CreateForm | source/cfi_util.c:604-728 | whichever form is taken, the entries are the first count elements; which inputs are refused or abort |
| CfiUtil.CreateBuiltin | source/cfi_util.c:559-739 | the exact return code for every section and count, the entries of the new datatype, and that nothing else changes |
| Indexed.NarrowFits | source/cfi_util.c:363-385 | the nest's bounds, converted to int, never produce more addresses than there are elements |
| Indexed.TotalElements | source/cfi_util.c:16-25 | the product of the extents, as 64 bits hold it |
| Indexed.AddressCodeInRange | source/cfi_util.c:361-366 | while 64 bits hold the number of elements, listing the addresses fails only for a negative number, and stays within the allocation |
| Indexed.NestAll | source/cfi_util.c:387-453 | any number of inner loops write the addresses of the next elements in order, in bounds |
| Indexed.ElementAddresses | source/cfi_util.c:361-455 | an array of as many addresses as there are elements, which holds base plus displacement for every element that the loops visit, also when an extent is 0; when the allocation fails or is overrun |
| Indexed.CopyFits | source/cfi_util.c:484-519 | for any segment list, aligned or not, no copy writes past the arrays sized by total_bytes |
| CInt.TruncDivBounds | source/cfi_util.c:501 | the quotient's multiple of the divisor is the last one towards zero, for numbers of either sign |
| Indexed.WholeBounds | source/cfi_util.c:503 | a segment has as many whole elements as fit in it, no fewer |
| Indexed.RecordSegment | source/cfi_util.c:500-513 | the innermost loop records the elements of one segment, or reads outside the array exactly if the segment is not in the section |
| Indexed.RecordCopy | source/cfi_util.c:498-514 | one copy records exactly the elements its segments select, or reads outside exactly if one of them is not in the section |
| Indexed.RecordCopies | source/cfi_util.c:496-515 | all copies, one byte extent of elements apart, as written, or a read outside exactly if one copy is not in the section |
| Indexed.RecordIndexed | source/cfi_util.c:484-517 | the outcome of the allocations and loops for every section, count and segment list |
| Indexed.NegativeCount | source/cfi_util.c:484-517 | a negative count is refused if and only if an element fits in the segments; otherwise nothing is selected |
| Indexed.CreateIndexed | source/cfi_util.c:461-536 | the exact outcome for every section, count and user-defined datatype, and the composed entries |
| Indexed.CreateDatatype | source/cfi_util.c:554-747 | the exact outcome, what the new datatype holds, and that the registry is otherwise unchanged |
| Composition.ComposeMeaning | source/cfi_util.c:496-515 | reading the section through the composed datatype reads the same data as reading a contiguous copy through the segments, element-counted steps apart |
| Composition.ByteStepIsRight | source/cfi_util.c:498-506 | when every copy is in the section at the element step and no element repeats, the byte step stays in the section and selects the right elements if and only if there is at most one copy, one-byte elements (or extent 0), or nothing selected |
| Selection.WidenedIs | source/cfi_util.c:371-385 | which element of the section the loops visit as number x: one that exists, never an earlier one, and x itself if and only if x is below the product of the extents up to the first that the conversion to int changes |
| Selection.CompositionExact | source/cfi_util.c:461-536 | creation succeeds and describes exactly the bytes that the copies of the user's datatype select, in their order, if and only if the element type is known, fewer than INT_MAX elements are selected and, unless there is nothing to select, the type has the section's element length, the segments are whole elements, the step is right, and all elements are among those whose addresses are in place |
| Selection.ByteStepExample | source/cfi_util.c:498-506 | two copies of a 4-byte datatype are accepted and select element 4 instead of element 1 |
| Selection.OutsideExample | source/cfi_util.c:498-508 | two copies that together are exactly the section: the second reads the address of element 16 of 8 |
| Selection.ElementSizeExample | source/cfi_util.c:528-530 | one copy of an eight-byte datatype on character(8) is accepted and describes one byte |
| Selection.PartialExample | source/cfi_util.c:501-503 | one copy of a 6-byte datatype on 4-byte elements is accepted and describes four bytes |
| Selection.UnalignedExample | source/cfi_util.c:501 | one copy of a 4-byte datatype that begins two bytes after, or before, the first element is accepted and describes that element |
| Selection.NarrowExample | source/cfi_util.c:371-385 | one copy of an eight-element datatype on a section of 2^32 + 5 elements reads three addresses that the loops, which list five, have not stored |
| MpiState.RegistryOverRuns | source/mpi_p2p.c:278-285 | in every reachable state a datatype is registered if and only if it has a handle or a pending user |
| MpiState.PendingKeepsMeaning | source/mpi_p2p.c:282-284 | between any two states of a run a pending operation touches the bytes it was posted for, also after its datatype is freed |
| MpiState.FreedAfterUse | source/mpi_p2p.c:501-507 | create, commit, one blocking use and free leave no datatype behind |
| MpiState.FreedWhilePending | source/mpi_p2p.c:276-285 | freed right after posting, the datatype stays without a handle, and the operation touches its entries |
| Transfers.Pack | source/mpi_p2p.c:488-511 | the buffer's bytes go to the packed buffer at position, which advances by their number; errors change nothing; no datatype is left behind |
| Transfers.Unpack | source/mpi_p2p.c:523-546 | the packed bytes go to the buffer; otherwise as Pack |
| Transfers.Start | source/mpi_p2p.c:268-288 | Isend and Irecv post an operation on the buffer's bytes; the caller's handles are as before and a new datatype has none |
| Transfers.Sendrecv | source/mpi_p2p.c:444-476 | the exact error class, what is sent, where the message lands as written, and that both datatypes are freed |
| Collectives.Bcast | source/mpi_coll.c:33-53 | the root's message is its buffer, every other rank stores the message into its own buffer and nothing else |
| Collectives.Gather | source/mpi_coll.c:186-236 | the exact error class on the root and elsewhere; the contribution is the input buffer, the root stores all contributions into the blocks as written, and both datatypes are freed |
| Collectives.NonRootExample | source/mpi_coll.c:215-221 | a process that is not the root aborts for an output section that is too small |
| Meaning.ContiguousPathExact | source/mpi_p2p.c:240-241 | the caller's datatype means the section's first elements if and only if it has the element's size |
| Meaning.StridedStops | source/mpi_p2p.c:500-507 | with a predefined datatype a section that is not contiguous ends the program if and only if it is not accepted |
| Meaning.CharacterStops | source/mpi_p2p.c:500-507 | packing four elements of a strided array of character(8) ends the program |
| Meaning.StridedPathExact | source/cfi_util.c:564-632 | the strided path transfers as many bytes, and the same data of a contiguous copy, as the caller's datatype asks for if and only if it has the element's size |
| Meaning.DatatypeIgnoredExample | source/cfi_util.c:564-617 | sixteen characters of a strided float section are transferred as 64 bytes |
| Meaning.EveryPathIsTheSection | source/mpi_p2p.c:240-252 | contiguous or not, and whichever form was built, a call transfers the first count elements in array element order |
| Meaning.PrefixStable | source/cfi_util.c:607-683 | a smaller count gives a prefix, even across different forms |
| Meaning.SpacedSectionIsDistinct | source/cfi_util.c:607-723 | no byte occurs twice in a spaced section's datatype, in any form |
| Elements.RoundTrip | source/mpi_p2p.c:488-546 | the codes of both calls, both positions, and that pack then unpack copies element m to element m between sections of any shapes whose target elements do not overlap, and changes no other byte and no datatype |
| Elements.ElementsCodeExact | source/cfi_util.c:559-738 | a call on elements is accepted if and only if the section is contiguous, or an int holds the number of its elements and of the bytes asked for, within the limit of rank 15 |
| Elements.BcastAll | source/mpi_coll.c:33-53 | after the calls of all processes every one has the root's elements, whatever the shapes, and keeps its other bytes and its datatypes |
| Elements.GatherAll | source/mpi_coll.c:186-236 | after the calls of all processes element j * count + k of the root's section is element k of process j's, whenever the blocks fit, and nothing else has changed anywhere |
| Exchange.SendrecvElements | source/mpi_p2p.c:444-476 | Sendrecv of elements: its exact error class, the message sent, and the incoming message at the section's elements with a strided send side, and at consecutive addresses with a contiguous one |
| Exchange.Swap | source/mpi_p2p.c:444-476 | two processes exchange elements: accepted if and only if neither refuses, and on each side whose elements land in place the elements of the other, and nothing else, have arrived |
| UserDatatypes.BufferIsMeant | source/mpi_p2p.c:240-252 | every call that takes the section as a buffer accepts it and transfers exactly the bytes that the user's datatype selects if and only if the section is contiguous and the datatype committed, or the condition of CompositionExact holds |
| UserDatatypes.ReceiveSideIsMeant | source/mpi_p2p.c:451-469 | the receive side of Sendrecv does so under that condition if the send side is strided, and if that is contiguous exactly when the selected bytes are where a contiguous array has them |
| UserDatatypes.CompositionDecides | source/mpi_p2p.c:500-507 | on any other input a section that is not contiguous ends as its composition does, and a contiguous one is refused only for an uncommitted datatype or a negative count |
| UserDatatypes.PackSelected | source/mpi_p2p.c:488-511 | the exact error class, and the selected bytes in the packed buffer, in their order, and nothing else changed |
| UserDatatypes.UnpackSelected | source/mpi_p2p.c:523-546 | the exact error class, and the packed bytes at the selected ones, and nothing else changed |
| UserDatatypes.PackedAsCopy | source/mpi_p2p.c:488-511 | what is packed is what the user's datatype takes from any contiguous copy of the section |
| UserDatatypes.RoundTrip | source/mpi_p2p.c:488-546 | pack then unpack carries the selected bytes from one section to the other, of any shape |
| UserDatatypes.StartSelected | source/mpi_p2p.c:268-288 | Isend and Irecv are accepted and cover the selected bytes |
| UserDatatypes.PendingReceiveFillsSelected | source/mpi_p2p.c:340-360 | over any run such a receive fills the selected bytes when it completes, as far as the message goes |
| UserDatatypes.BcastSelected | source/mpi_coll.c:33-53 | the root sends the selected bytes, any other process stores a message of that length there |
| UserDatatypes.BlocksAreMoved | source/mpi_coll.c:215-224 | the root's block j of a gather is the selected bytes moved by j steps: count extents on a contiguous section, and the span of one block's datatype on any other |
| UserDatatypes.GatherAccepts | source/mpi_coll.c:186-236 | a gather of selected bytes fails only on the root, and only if the contributions are not as long as the blocks |
| UserDatatypes.SerializationExample | tests/test_serialization_2.F90:14-31 | every second character of every second character: accepted, and every fourth of the 104 |
| Meaning.PendingReceiveFillsSection | source/mpi_p2p.c:340-360 | over any run, a posted receive fills its section when it completes, exactly as far as the message goes |
| Programs.ReceiveInExecution | source/mpi_p2p.c:340-360 | in any sequence of calls, a receive that was started is at every later point pending for exactly its section, or one of the calls has finished it: a completion call that was given its request, with the message that the network has for it, or the program's own completion with its message; the message then fills the section as far as it goes and changes nothing else, and is still there when the call returns if no other pending receive writes to the section |
| Programs.ReceiveAcross | source/mpi_p2p.c:340-360 | from the Irecv call through any sequence of calls to the message's arrival: a receive no longer pending after them was finished by one of them in that way, and any other one is filled by the message that arrives then, and nothing else is changed |
| Waits.StartKeepsRequest | source/mpi_p2p.c:268-288 | a start that succeeds leaves its request in its slot of the Fortran array, one that fails a null request, and nothing else changes |
| Waits.SlotKeptInExecution | source/mpi_p2p.c:268-288 | in any sequence of calls a request stays in its slot until a call that uses the slot |
| Waits.EndsOwnInExecution | source/mpi_p2p.c:48-225 | in any sequence of calls a completion call ends only operations whose requests the program passed to it |
| Waits.ReceivedAfterWait | source/mpi_p2p.c:151-171 | a receive that was started, any calls that leave its slot alone, and a wait for all of some requests, that slot's among them: when the wait comes back a call has finished the receive, with its message |
| Programs.StartInto | source/mpi_p2p.c:268-288 | Isend and Irecv are a run of actions of the program with Fortran requests: the datatype's events, the start that keeps its request in the array, and the free |
| Programs.Perform | source/mpi_p2p.c:268-546 | each modelled call: its exact error class, its effect, and its run of events and actions |
| Programs.PerformAll | source/mpi_p2p.c:268-546 | any sequence of calls is made one after the other, up to the first that does not come back or whose demands are not met |
| Programs.HandlesKept | source/mpi_p2p.c:276-285 | between any two points of any sequence of calls the program's datatypes and their meaning are the same, but for what it makes, commits and frees itself |
| Programs.NothingLeaks | source/mpi_p2p.c:276-285 | whenever nothing is pending the only datatypes are those that the program can name |
| Programs.ExecutionSimulatesC | source/convert_handles.h:241-248 | at every point of any sequence of calls the Fortran requests stand for those of the C program that does the same, and the library's state is the same |
| Meaning.ReclaimedByLastUser | source/mpi_p2p.c:340-360 | over any run, completion reclaims the datatype if and only if it has no handle and no other user |
| Meaning.SendrecvPlacement | source/mpi_p2p.c:451-469 | the receive side is accepted and its elements land in the right places if and only if the send side is contiguous and the receive side's first elements are, or the send side is strided and the receive side passes the guards, the rank-15 limit and the size check |
| Meaning.SendrecvExample | source/mpi_p2p.c:451-454 | with a contiguous send side, the second received element lands at byte 4 instead of 8 |
| Meaning.SendrecvRefusedExample | source/mpi_p2p.c:455-467 | with a strided send side, five of eight contiguous elements of rank 15 abort the call |
| Meaning.ComposedSizeExact | source/cfi_util.c:503-530 | the composed datatype describes as many bytes as the caller asks for if and only if its elements have as many as the segments; for a type no longer than the section's elements, if and only if it is as long and the segments are whole elements, or there is nothing to describe |
| Meaning.RoundedBegins | source/cfi_util.c:501-503 | the whole elements of a segment begin less than an element from it, towards zero, and are less than an element shorter |
| Meaning.ComposedMeaning | source/cfi_util.c:461-536 | for every section and datatype that the call accepts, the composed datatype as written means, of a contiguous copy of the section that the loops visit, the whole elements of copies elem_len times the extent apart, if and only if the type has the section's element length or there is nothing to describe |
| Meaning.CompositionPreservesMeaning | source/cfi_util.c:461-536 | the call succeeds and its datatype packs, from every memory, what the user's datatype packs from a contiguous copy of the section, if and only if the condition of CompositionExact holds |
| Meaning.ElementStepPreservesMeaning | source/cfi_util.c:461-536 | for any number of copies, once the step is counted in elements |
| BlockPlacement.BlocksLandInPlace | source/mpi_coll.c:215-224 | for every section, the blocks of all processes land in place if and only if the section is contiguous, there is one block, or the dimensions that a block does not cover whole are contiguous in units of the block's span |
| BlockPlacement.BlocksExample | source/mpi_coll.c:215-224 | the second of two blocks starts at byte 12 instead of 16 |
| BlockPlacement.FittingExample | source/mpi_coll.c:215-224 | a section that runs backwards inside its blocks and one with gaps inside its blocks, neither contiguous, are placed right |
| Requests.ConvertIn | source/mpi_p2p.c:144-146 | the C array is the conversion of the part of the Fortran array that was passed |
| Requests.ConvertOut | source/mpi_p2p.c:167-169 | that part of the Fortran array is the conversion of the C array, the rest unchanged |
| Requests.CompletionCall | source/mpi_p2p.c:48-225 | each of the six completion calls, on any part of the Fortran array, does to it what the library does to its conversion, and returns the flag, index and indices that the library reports |
| Requests.FortranSimulatesC | source/convert_handles.h:241-248 | over any sequence of completion calls on parts of the array, starts that store requests, and other events, the converted Fortran array is the array of the C program, and the library's state is the same |
| Requests.CallCompletesExactly | source/mpi_p2p.c:136-173 | exactly the reported operations complete, and every other entry and operation is as before |
| RequestArrays.EntryMeans | source/convert_handles.h:241-248 | a null request, and no other entry, converts to the null request, whatever the library makes of -17, and the request of an operation to that operation |
| RequestArrays.NullExample | source/convert_handles.h:243-244 | the null request completes nothing, even where the library has an operation with its number |
| RequestArrays.EndsOwnRequests | source/mpi_p2p.c:48-225 | an operation that a call ends has its request in the part of the Fortran array that was passed |
| RequestArrays.CallOnArray | source/mpi_p2p.c:48-225 | the Fortran array after a call, entry by entry, and exactly the operations that are pending no more |
| RequestArrays.EachKind | source/mpi_p2p.c:48-225 | Waitall ends all that it is given and leaves null requests, Testall all or nothing, Waitany and Testany only what is at the index reported, Waitsome and Testsome exactly what is at those reported |
| RequestArrays.RunKeepsEntries | source/mpi_p2p.c:48-225 | an array that holds requests goes on to do so, whatever the program does |
| Requests.CompletedInCall | source/mpi_p2p.c:136-173 | an operation that a completion call has ended is one of those in its array, and completed with its own message |
| Requests.CallKeepsHandles | source/mpi_p2p.c:136-173 | a completion call neither makes nor frees a datatype that the program can name |

## Left out

- CFI_MPI_Send, CFI_MPI_Recv, CFI_MPI_Mrecv, CFI_MPI_Imrecv and the other sides of Allgather and Scatter: the same two branches as the modelled calls.
- Alltoall: both sides hold several blocks, as the root's side of Gather.
- The branches that abort for non-contiguous reductions and v-collectives, file I/O, and the Info, Comm, Group, File, Win and attribute wrappers.
- The conversions of datatype, communicator and constant handles: finite tables (`source/convert_handles.h:88-352`).
- MPI_IN_PLACE, statuses, message matching, tags, communicators and error-code translation.
- C_MPI_Probe, whose status test reads as inverted (`source/mpi_p2p.c:18-24`).
- Allocation failure, except allocations of negative size, and the reduction of allocation sizes in bytes modulo 2^64; printing and warnings; the build for MPI libraries without MPIX_Iov, where composition returns an error. The library's segment list is taken to cover the whole datatype, which holds up to INT_MAX bytes.
- Lower bounds: the code only warns about them.
- CreateBuiltin: requires rank 1 or more, because for rank 0, which is always contiguous and reaches it only as the receive side of Sendrecv, the code reads dimensions that the descriptor does not have. With rank 1 the second extent is read and never used; the model gives it an arbitrary value.
- CreateIndexed: requires an element length from 1 to INT_MAX, because the code divides by it as an int. Nothing is said about memory after the outcome Undefined.
- CompositionExact and CompositionPreservesMeaning: require a spaced section in which the copies lie, as the caller must see to; an element type no longer than the section's elements, as every interoperable type is; and fewer than 2^63 elements.
- BufferIsMeant and ReceiveSideIsMeant: under the same demands as CompositionExact.
- EachKind: which requests Waitany and Waitsome complete is what the library reports; that they report at least one is not demanded of it.
- NestUntil and NestAll: one method per loop level, calling itself for the loops inside, instead of fifteen loops written out; the displacement is accumulated from the outermost loop inwards, and an overrun of the address array is found before the loops instead of at the first write outside.
- Collectives.Gather: requires both handles to be open on every process, although MPI ignores the receive side where a process is not the root.
- BcastAll and GatherAll: the processes' calls happen one after the other, the sender's first, because the library only hands messages on.
- Transfers.Start: CFI_MPI_Isend and CFI_MPI_Irecv are one method with a flag, because they differ in one library call; CompletionCall does the same for six calls.
- MPI datatype alignment padding: the extent of a derived datatype is the span of its bytes, as for arrays of one basic type.

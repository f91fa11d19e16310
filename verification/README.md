# A verification model of a media receive pipeline

The repository mixes media streams of many clients. Its receive pipeline turns packets into slices, slices into runs of
encoding symbols, and those into frames, either by copying the source symbols or by decoding a RaptorQ code (RFC 6330).
This project models that pipeline in Dafny and proves what it promises. `dafny verify dfyconfig.toml` checks everything.

**The decoder** (`Octets`, `GF256`, `LinearAlgebra`, `Matrices`, `PivotGraph`, `PivotChoice`, `PivotRuns`, `ColumnMoves`, `Elimination`,
`FirstPhase`, `SecondPhase`, `Substitution`, `Decoder`). `Matrices.Matrix` is the row-indexed buffer that all phases change
in place; its ghost field `rows` holds the logical rows. Every phase is an imperative method proved against what it does to
the linear system: `Elimination.Tracks` says that all solutions are kept up to the column order, `Elimination.Shadows` that
X is a unit lower triangular multiple of A. `Decoder.Decoding` is sound and complete: it returns true exactly when A has a
trivial kernel, and then D holds the unique solution. The octet tables enter as a `Field` with its laws; `GF256` shows that
the arithmetic of section 5.7 of RFC 6330 meets them.

**The erasure code** (`Params`, `BinaryDigits`, `Primes`, `Tuples`, `EncodingSymbols`, `Fec`, `SymbolLists`, `ErasureCode`). The index generator ends
and yields distinct indexes because W and P1 are prime. Both forms of `TryDecode` build the same system, and
`ErasureCode.DecodableIffDetermined` says that decoding fails exactly when two different blocks explain what was received.

**Frame reassembly** (`IntrusiveLists`, `Accumulators`, `Segments`, `VideoFrames`, `Arrivals`, `FrameHandover`,
`FrameDecoding`, `Packets`, `FrameStates`, `Reception`, `Releases`, `Receivers`). The ring of segments stays ordered and
disjoint, and the completeness detector that only adds up numbers is exact. `FrameStates` has a frame as a value; the object
with its ring, `VideoFrames.RecvVideoFrame`, takes the same steps. `Reception` says what a slice does to the queued frames as
a function, and proves for every run that a frame is handed on exactly once while its slot lives; the methods of
`Receivers.StreamRecver` compute that function, and its ghost field `history` ties them to the runs.

**The frame queue** (`FrameIds`, `CircleQueues`, `FrameWindows`, `FrameLoops`, `FrameQueues`) is a ring buffer addressed by
wrapping 16-bit ids, and behaves as a finite map limited to a window of N ids. `LoopFrames` does so only for some visitors:
`FrameLoops` states for every visitor what it leaves, gives two visitors for which it goes wrong, and proves exactly for which
it is right.

**Smaller pieces**: the reference-counted allocator as interleaved steps of several threads (`Chains`, `Recycling`), command
framing over a byte stream (`CommandFraming`), the grid protocol (`GridProtocol`) and the audio mix (`AudioMix`).

Inputs that stand for data or calls outside the model: the octet tables (`Field`), the random tables and the precomputed
matrix and index cache of the repository files (`RandTables`, `Repo`), the clock (`now`), the chunks that successive receive
calls return, and the visitors and handlers passed to loops. What `ValidCode` asks of the parameters (W and P1 prime,
3 <= P <= P1, L = W + P <= 256) is what section 5.6 of RFC 6330 makes of them and what 8-bit indexes allow; `ValidSizes`
(1 <= P <= L, L - P <= 250) is what the pivot graph asserts. `Fec.InPlaceBehind` only keeps proof contexts small.

## Model

| member | source | states |
|---|---|---|
| `Decoder.Decoding` | src/fast_decode.cpp:436-471 | for every matrix A and every D: returns true exactly when the columns of A are independent, and then, whatever C solves A * C = D, the first L rows of D are that C, after all swaps, phases and the final reordering |
| `FirstPhase.DecodingFirstly` | src/fast_decode.cpp:104-306 | ends with i + u = L, with every row operation tracked in D, every column swap in c and X the unit lower triangular shadow of A; fails only if A has a non-zero kernel vector; the matrix it leaves is the end of a run in which every round obeys the pivot rule for the flags and degrees of the original rows |
| `PivotRuns.RunExtended` | src/fast_decode.cpp:237-299 | the rows keep their original flags and degrees through the swaps, and a round is one step of the run: row swap, column order, elimination |
| `PivotRuns.DegreeRule` | src/fast_decode.cpp:182-208 | in every round with r other than 2 the pivot row has least original degree among the rows with r non-zero octets in V, and is an HDPC row of the original matrix only if all of these are |
| `PivotRuns.GraphRule` | src/fast_decode.cpp:209-232 | in every round with r = 2, if a row that is no HDPC row of the original matrix has two ones in V, the pivot row is such a row |
| `FirstPhase.PhaseOneRound` | src/fast_decode.cpp:134-299 | one round of phase 1 keeps its invariant and shrinks V by the r columns it uses; an all-zero V means a non-trivial kernel of the original matrix |
| `FirstPhase.PhaseOneLoop` | src/fast_decode.cpp:134-305 | phase 1 terminates and ends with i + u = L |
| `FirstPhase.PhaseOneFails` | src/fast_decode.cpp:173-178 | the failure exit of phase 1: V is zero, so the original A has a non-zero kernel vector |
| `FirstPhase.UsePivot` | src/fast_decode.cpp:237-297 | swapping in the pivot row, moving its octets and clearing the column keep the invariant of phase 1 |
| `FirstPhase.EliminateBelow` | src/fast_decode.cpp:282-291 | every row below the pivot gets the multiple beta / alpha of it, in A and D alike |
| `FirstPhase.TrackRows` | src/fast_decode.cpp:117-123 | HDPC flag and original degree of every row |
| `PivotChoice.ChooseRow` | src/fast_decode.cpp:135-235 | the chosen row has the least positive number r of non-zeros in V; for r = 2 it lies in a component of maximum size whenever there is an edge, and otherwise it has least original degree with HDPC rows last; no row exactly when V is zero |
| `PivotChoice.ScanRows` | src/fast_decode.cpp:138-171 | the scan finds the least count, lists exactly the rows that have it and enters exactly their edges into the graph |
| `PivotChoice.ChooseByDegree` | src/fast_decode.cpp:182-208 | least original degree, HDPC rows only if there are no others |
| `PivotChoice.ChooseByGraph` | src/fast_decode.cpp:217-232 | an edge row of a component of maximum size, or else the first listed row |
| `PivotChoice.MaximumHasEdge` | src/fast_decode.cpp:216-228 | some edge lies in a component of maximum size, so the search for one succeeds |
| `PivotGraph.Graph.Find` | src/fast_decode.cpp:43-48 | following the parents ends at the root of the component |
| `PivotGraph.Graph.Reset` | src/fast_decode.cpp:59-68 | a graph without edges |
| `PivotGraph.Graph.Connect` | src/fast_decode.cpp:72-95 | adds the edge and keeps the forest: nodes share a root exactly when the edges connect them, and each root holds the size of its component |
| `PivotGraph.Graph.IsMax` | src/fast_decode.cpp:97-100 | once there is an edge, true exactly for nodes of components of maximum size |
| `PivotGraph.SameLabelIffLinked` | src/fast_decode.cpp:79-91 | two nodes have the same root exactly when a path of edges links them |
| `PivotGraph.MaximumIsMaximum` | src/fast_decode.cpp:93-99 | the recorded maximum equals the size of a component exactly if no component is larger |
| `ColumnMoves.MoveNonZeros` | src/fast_decode.cpp:245-273 | the r non-zeros of the pivot row come to the first and the last r - 1 columns of V; A, X and c are permuted alike |
| `ColumnMoves.MoveFirstNonZero` | src/fast_decode.cpp:249-258 | a non-zero octet comes to column i |
| `ColumnMoves.MoveTail` | src/fast_decode.cpp:260-273 | the other non-zeros come to the end of V |
| `SecondPhase.DecodingSecondly` | src/fast_decode.cpp:309-356 | true leaves an echelon system equivalent to the original one; false means a non-zero kernel vector of the original A |
| `SecondPhase.PhaseTwoRound` | src/fast_decode.cpp:318-354 | one column of the elimination keeps the equivalence and extends the echelon form |
| `SecondPhase.PhaseTwoFails` | src/fast_decode.cpp:325-329 | a column without pivot is a combination of the columns before it, so the kernel is not trivial |
| `SecondPhase.FindPivot` | src/fast_decode.cpp:319-323 | the first row that is not zero in the column |
| `Decoder.DecodingLastly` | src/fast_decode.cpp:360-431 | phases 3 to 5 and the reordering compute the substitution, unpermuted by c |
| `Decoder.ClearUpperRows` | src/fast_decode.cpp:397-409 | phase 4 takes the contribution of U out of the first i symbols |
| `Decoder.ForwardRows` | src/fast_decode.cpp:411-425 | phase 5 is a forward substitution over the triangular block |
| `Decoder.PhasesRecover` | src/fast_decode.cpp:366-431 | after phases 1 and 2 the substitution recovers every solution of the original system |
| `Elimination.TracksAddMultiples` | src/fast_decode.cpp:289-290 | a row added in A and in D keeps all solutions of the system |
| `Elimination.TracksSwapRows` | src/fast_decode.cpp:238-243 | a row swap in A and D keeps all solutions |
| `Elimination.TracksPermuteColumns` | src/fast_decode.cpp:252-254 | a column swap keeps all solutions, reordered by c |
| `Elimination.TracksDivRow` | src/fast_decode.cpp:337-340 | dividing a row in A and D keeps all solutions |
| `Elimination.ShadowsEliminate` | src/fast_decode.cpp:283-291 | X stays a unit lower triangular product of A while A alone is eliminated |
| `Elimination.ShadowsSwapRows` | src/fast_decode.cpp:239-240 | so it does under row swaps |
| `Elimination.ShadowsPermuteColumns` | src/fast_decode.cpp:252-253 | and under column swaps |
| `Elimination.DiagonalizedEliminate` | src/fast_decode.cpp:282-297 | the finished block grows by a row with a non-zero diagonal and zeros in V |
| `Elimination.ShadowIsTriangular` | src/fast_decode.cpp:359-384 | at the end of phase 1 the i x i block of X is lower triangular with non-zero diagonal |
| `Elimination.EchelonClear` | src/fast_decode.cpp:342-351 | clearing a column extends the echelon form |
| `Elimination.EchelonLower` | src/fast_decode.cpp:309-356 | the lower rows of an echelon system are its solution |
| `Elimination.EchelonHasTrivialKernel` | src/fast_decode.cpp:355-356 | a matrix brought to echelon form has a trivial kernel |
| `Elimination.NoPivotKernel` | src/fast_decode.cpp:325-329 | without a pivot there is a non-zero kernel vector, given explicitly |
| `Elimination.ZeroColumnKernel` | src/fast_decode.cpp:173-178 | a zero column gives a kernel vector |
| `Elimination.SameKernel` | src/fast_decode.cpp:436-471 | equivalent systems have trivial kernels together |
| `Substitution.MulTopSolves` | src/fast_decode.cpp:384-395 | phase 3 keeps the solutions |
| `Substitution.MulTopTriangular` | src/fast_decode.cpp:384-384 | phase 3 leaves a lower triangular block with non-zero diagonal |
| `Substitution.ClearUpperAt` | src/fast_decode.cpp:398-409 | after phase 4 each upper symbol is the product of the triangular part alone with the unknowns |
| `Substitution.ForwardAt` | src/fast_decode.cpp:412-425 | forward substitution gives back the unknowns |
| `Substitution.SubstituteSolves` | src/fast_decode.cpp:366-425 | phases 3 to 5 compute whatever vector solves the echelon system |
| `Matrices.Matrix.SwapRows` | src/fast_calc.h:274-278 | two row indexes swapped swap two logical rows |
| `Matrices.Matrix.SwapColumns` | src/fast_calc.h:280-290 | columns swapped in every buffer row swap them in every logical row |
| `Matrices.Matrix.XorRows` | src/fast_calc.h:293-297 | row1 plus factor times row2, through the row indexes; factors 0 and 1 agree with the general case |
| `Matrices.Matrix.DivRow` | src/fast_calc.h:300-303 | a row divided by a factor |
| `Matrices.Matrix.GetAt` | src/fast_calc.h:270-272 | the octet of a logical row |
| `Matrices.Matrix.MulMatrix` | src/fast_calc.h:226-257 | the first i rows become their products with the i x i block, although they are overwritten while they are used |
| `Matrices.Matrix.Rotate` | src/fast_calc.h:314-327 | the transpose of the first i rows |
| `Matrices.Matrix.AccumulateSum` | src/fast_calc.h:131-201 | the scalar product of two rows |
| `Matrices.Matrix.RowDegree` | src/fast_calc.h:340-351 | the sum of the octets of a row |
| `Matrices.Matrix.CountRow` | src/fast_calc.h:354-379 | the number of non-zeros, cut off above maxOfR, and the first two ones |
| `Matrices.Matrix.Reorder` | src/fast_calc.h:259-267 | logical row c[k] is the old row k; the rest is marked invalid |
| `Matrices.CombineEntry` | src/fast_calc.h:329-337 | the product computed entry by entry is the linear combination of rows |
| `Matrices.UnpermuteAt` | src/fast_calc.h:260-262 | what Reorder leaves at place c[k] |
| `Octets.DivIsMul` | src/fast_calc.h:40-47 | division is multiplication by an inverse |
| `Octets.NoZeroDivisors` | src/fast_calc.h:40-47 | a product is zero only if a factor is |
| `GF256.TablesAreAField` | src/fast_calc.h:40-47 | the field laws asked of the tables hold of arithmetic modulo the polynomial of RFC 6330, section 5.7 |
| `GF256.OrderIs255` | src/fast_calc.h:40-47 | the least positive exponent with which the generator gives 1 is 255 |
| `GF256.Log` | src/fast_calc.h:40-47 | every non-zero octet is a power of the generator |
| `GF256.MulIsProduct` | src/fast_calc.h:40-42 | multiplication through the tables is multiplication of polynomials: the sum of the shifts of a for the set bits of b |
| `GF256.XtimeIs` | src/fast_calc.h:40-42 | what multiplication by x is, modulo x^8 + x^4 + x^3 + x^2 + 1: it raises the powers of x and is additive |
| `Tuples.GenTuple` | src/fast_fec.cpp:504-539 | the tuple of section 5.3.5.4 of RFC 6330, with 32-bit wrap-around, in the ranges the index generator needs; its random numbers are those of FecRandIs |
| `Tuples.FecRandIs` | src/fast_fec.cpp:492-502 | the random number is the residue of the one number whose binary digits are the parities of the digits of the four table entries for the octets of y |
| `Tuples.FecRandDigits` | src/fast_fec.cpp:492-502 | there is such a number, and modulo a power of two its lower digits are left |
| `BinaryDigits.BitXorDigits` | src/fast_fec.cpp:501-501 | each binary digit of an exclusive or is the parity of the two digits |
| `Tuples.ChooseDegree` | src/fast_fec.cpp:518-526 | the least degree whose distribution value exceeds v, cut at W - 2 |
| `Tuples.StandardTupleIsValid` | src/fast_fec.cpp:519-538 | 1 <= a < W, 1 <= a1 < P1, b < W, b1 < P1 and the degrees are in range, for every internal id |
| `Tuples.SomeStepBelow` | src/fast_fec.cpp:553-563 | among any P1 steps of the walk one is below P: the skipping loops end |
| `Tuples.SkipToBelow` | src/fast_fec.cpp:553-555 | the loop stops at the next step that is below P |
| `Tuples.GetIntermediateSymbolIdxFromTuple` | src/fast_fec.cpp:542-569 | writes the indexes of the tuple and returns how many there are, at most 33 |
| `Tuples.TupleIndexesDistinct` | src/fast_fec.cpp:542-569 | all indexes are below L = W + P and pairwise distinct |
| `Tuples.LTIndexesDistinct` | src/fast_fec.cpp:546-551 | the LT indexes are distinct because W is prime |
| `Tuples.PIIndexesDistinct` | src/fast_fec.cpp:553-565 | so are those of the permanently inactive symbols |
| `Primes.WalkVisits` | src/fast_fec.cpp:553-563 | a walk by a fixed step around a circle of prime length visits every place |
| `Primes.WalkInjective` | src/fast_fec.cpp:546-565 | fewer than p steps apart it is at different places |
| `EncodingSymbols.GetIntermediateSymbolIdx` | src/fast_fec.cpp:574-593 | cached or generated, the indexes are the same |
| `EncodingSymbols.SetSymbolRow` | src/fast_fec.cpp:276-284 | turns a zero row into the row with ones at the indexes of the symbol |
| `EncodingSymbols.IndicatorDot` | src/fast_fec.cpp:279-283 | a row of ones at distinct indexes times C is the sum of C over the indexes |
| `EncodingSymbols.SymbolRowEncodes` | src/fast_fec.cpp:311-316 | the equation a repair row states: row times intermediate symbols is the encoding symbol |
| `EncodingSymbols.RecoverSymbol` | src/fast_fec.cpp:462-484 | the encoding symbol with the given number: for repair symbol K + k the sum at the indexes of internal id KP + k |
| `Params.IdsSkipPadding` | src/fast_fec.h:18-22 | the internal ids in use are exactly all but those of the padding symbols K to KP - 1 |
| `Params.IdsIncrease` | src/fast_fec.h:18-22 | numbers and internal ids are in the same order |
| `Params.IdsInverse` | src/fast_fec.h:18-28 | numbers and internal ids convert to each other and back |
| `EncodingSymbols.SumInto` | src/fast_fec.cpp:476-483 | copying the first and adding the others sums the symbols |
| `Fec.TryDecode` | src/fast_fec.cpp:220-331 | succeeds exactly when the system laid out from the array has independent columns, and then leaves its solution |
| `Fec.LayOutArray` | src/fast_fec.cpp:241-320 | writes every row of A and D: constraints and padding zero, K source rows, the repair symbols in place of the missing source symbols, and the extra rows from L on |
| `Fec.PlaceSource` | src/fast_fec.cpp:255-287 | row S + H + i holds source symbol i, or the next unused repair symbol with its row of ones |
| `Fec.NextRepair` | src/fast_fec.cpp:260-266 | a repair symbol is left for every missing source symbol |
| `Fec.PlaceRest` | src/fast_fec.cpp:296-320 | the repair symbols not used so far fill exactly the rows L to L + delta - 1 |
| `Fec.Construct` | src/fast_fec.cpp:175-218 | the precomputed matrix with delta zero rows, and D of as many rows |
| `Fec.PresentCount` | src/fast_fec.cpp:224-232 | delta is the number of repair symbols beyond those missing |
| `Fec.RowOfRepair` | src/fast_fec.cpp:255-320 | each repair symbol is in exactly one row of the system |
| `Fec.RepairRowsInOrder` | src/fast_fec.cpp:255-320 | rows with a repair symbol take the repair symbols in increasing order, so that no two rows have the same |
| `SymbolLists.TryDecodeList` | src/fast_fec.cpp:333-456 | the same outcome from a list whose source symbols have increasing numbers up to the first repair symbol; the repair symbols can have any numbers in any order |
| `SymbolLists.NullTrips` | src/fast_fec.cpp:363-388 | the count that the assertions at lines 388 and 447 compare with the number of entries falls short exactly if an entry before the first repair symbol is null |
| `SymbolLists.LayOutList` | src/fast_fec.cpp:352-445 | the list form fills the same rows of the same system |
| `SymbolLists.FormsAgree` | src/fast_fec.cpp:220-456 | the list of the symbols in an array describes the same received symbols, so that both forms build the same A and D |
| `SymbolLists.FillMissing` | src/fast_fec.cpp:392-417 | missing source rows are filled in order until there are K symbols |
| `SymbolLists.PlaceListRest` | src/fast_fec.cpp:428-445 | the rest of the list fills the rows from L on |
| `SymbolLists.PlaceListed` | src/fast_fec.cpp:360-384 | source symbols go to their rows up to the first repair symbol |
| `SymbolLists.SourcesCount` | src/fast_fec.cpp:369-383 | increasing numbers fill as many source rows as there are source symbols |
| `ErasureCode.DecodedBlock` | src/fast_fec.cpp:220-331 | if the symbols encode a block that meets the constraint and padding rows, a successful decode gives back that block |
| `ErasureCode.RowHolds` | src/fast_fec.cpp:241-320 | every row of the system holds for the block |
| `ErasureCode.DecodableIffDetermined` | src/fast_fec.cpp:324-330 | decoding succeeds if and only if no other block has the same symbols at the received numbers |
| `ErasureCode.DecodeAndRecover` | src/fast_fec.cpp:462-484 | round trip: after a successful decode every number gives the encoding of the original block, and it fails only if the symbols do not determine the block |
| `FrameIds.Trichotomy` | src/frmqueue.h:11-33 | exactly one of earlier, equal and later, but for ids 0x8000 apart; the other comparisons follow from it |
| `FrameIds.LaterTransitive` | src/frmqueue.h:11-13 | later is transitive within half the range, and distances add up |
| `FrameIds.DistanceAhead` | src/frmqueue.h:31-33 | distances survive the wrap-around |
| `CircleQueues.CircleQueue.AppendSlot` | src/fqueue.h:70-78 | one more slot at the end |
| `CircleQueues.CircleQueue.EraseFirstNSlot` | src/fqueue.h:80-87 | drops slots at the front, around the end of the buffer |
| `CircleQueues.CircleQueue.EraseLastNSlot` | src/fqueue.h:89-92 | drops slots at the end |
| `CircleQueues.CircleQueue.At` | src/fqueue.h:58-65 | the place of a slot |
| `CircleQueues.CircleQueue.FirstSlot` | src/fqueue.h:25-28 | the place of the first slot |
| `CircleQueues.CircleQueue.LastSlot` | src/fqueue.h:30-40 | the place of the last slot |
| `CircleQueues.CircleQueue.NextSlot` | src/fqueue.h:44-51 | the place after a slot |
| `CircleQueues.CircleQueue.PrevSlot` | src/fqueue.h:53-56 | the place before a slot |
| `CircleQueues.CircleQueue.Write` | src/frmqueue.h:96-104 | a slot is written through its place, and no other slot changes |
| `CircleQueues.CircleQueue.Reset` | src/fqueue.h:94-97 | an empty queue |
| `FrameWindows.LookupSlot` | src/frmqueue.h:96-97 | slot j holds id begin + j and is found under it alone |
| `FrameWindows.FramesCount` | src/frmqueue.h:333-335 | the number of frames of the map is the count of non-empty slots |
| `FrameQueues.FrameQueue.Insert` | src/frmqueue.h:73-132 | as a map: the frame is added, exactly the frames N or more places before a later id are evicted, once each and in order, and an id before the window changes nothing |
| `FrameQueues.FrameQueue.At` | src/frmqueue.h:137-153 | the place of the frame with an id, or nothing |
| `FrameQueues.FrameQueue.Remove` | src/frmqueue.h:160-211 | removes the id from the map and visits its frame once |
| `FrameQueues.FrameQueue.FreeSlotForNewFrame` | src/frmqueue.h:344-380 | drops the longest prefix of slots that are empty or N or more places before the new id, and visits its frames |
| `FrameQueues.DropKeeps` | src/frmqueue.h:352-379 | what is left is exactly the frames less than N places before the new id |
| `FrameQueues.InsideEvictsNothing` | src/frmqueue.h:92-106 | an id inside the window evicts nothing |
| `FrameQueues.LaterIsNew` | src/frmqueue.h:108-131 | an id after the window is new |
| `FrameQueues.FrameQueue.Reset` | src/frmqueue.h:213-236 | visits every frame in order and leaves an empty map |
| `FrameQueues.FrameQueue.QuickReset` | src/frmqueue.h:239-243 | an empty map without visits |
| `FrameQueues.FrameQueue.LoopFrames` | src/frmqueue.h:245-326 | for every visitor: visits the frames up to the first answer that stops, in order; the queue is valid again and holds exactly the frames not deleted if and only if the visitor is loopable; otherwise an assertion fails or the count is wrong |
| `FrameLoops.LoopableKeeps` | src/frmqueue.h:310-325 | for a loopable visitor what the loop leaves is a window with exactly the surviving frames |
| `FrameLoops.LeavesAll` | src/frmqueue.h:289-325 | the loop leaves as many frames as it counts if and only if either no frame stays, or the last frame stays and the slot after the deleted ones is not empty |
| `FrameLoops.RunMeans` | src/frmqueue.h:252-308 | when the loop is left its variables count the empty slots at the front, the frames left and the last frame kept |
| `FrameLoops.DeletedBehindKept` | src/frmqueue.h:293-298 | a visitor that keeps a frame and deletes the last one behind it loses the frame kept: line 296 erases one slot too many |
| `FrameLoops.DeletedStopFails` | src/frmqueue.h:302-320 | DeletedStop before an empty slot trips the assertion that the first slot is not empty |
| `FrameLoops.PrefixLoops` | src/stmrecver.cpp:208-219 | visitors that delete only frames at the front, like that of ObsoleteFrames, are loopable: the slots from the first frame that stays are left, and the frames deleted are those before it |
| `FrameQueues.NotPlacedIffOpposite` | src/frmqueue.h:350-350 | the assertion that an id neither earlier nor inside is later fails exactly for an id 0x8000 away from the only slot |
| `FrameLoops.LoopFramesKept` | src/frmqueue.h:264-308 | a frame goes exactly when the visitor deletes it and all frames before it |
| `FrameQueues.FrameQueue.Store` | src/stmrecver.cpp:303-303 | a frame is written through the place of its slot |
| `Receivers.StreamRecver.ObsoleteFrames` | src/stmrecver.cpp:177-223 | removes exactly the frames that, with all frames before them, are older than three seconds, and releases exactly these, each once |
| `Receivers.StreamRecver.GetRecvFrame` | src/stmrecver.cpp:276-313 | nothing exactly for an id before the first queued frame; otherwise the slot of the queued frame or of a new one without segments, with exactly the frames 60 or more places before evicted and each released once |
| `Receivers.StreamRecver.AddSegment` | src/stmrecver.cpp:104-120 | a complete frame ignores the segment; otherwise it is inserted, and the frame is handed on if it is ready now; no other frame changes |
| `Receivers.StreamRecver.HandleSliceFecSegment` | src/stmrecver.cpp:69-121 | the queued frames, what is handed on, what is released and whether the slice is dropped are exactly those of the transition Placed and HandedBy on the frames that have not expired; the history of slices grows by this one |
| `Reception.TickIsLastTaken` | src/stmrecver.cpp:102-108 | for every run the tick of a queued frame is the time of the last slice that was taken for it before it was handed on |
| `Reception.ExpiresUnserved` | src/stmrecver.cpp:184-205 | for every run a slice at time now expires a queued frame exactly if it and all queued frames not later have taken no slice for more than three seconds |
| `Reception.HandedOnOnce` | src/stmrecver.cpp:69-121 | for every run of slices, in any order, with duplicates and losses: while its slot lives a frame is handed on exactly once, when what arrived for it first makes it ready, with the segments then held, and not at all before |
| `Reception.HandedSinceIsLast` | src/stmrecver.cpp:69-121 | what was handed on for an id since it got its slot are the last of all deliveries for it |
| `Reception.HandedOnWhenComplete` | src/stmrecver.cpp:110-119 | once all source symbols have arrived, whatever the order and however often, the frame has been handed on exactly once |
| `Receivers.ExpiryLeaves` | src/stmrecver.cpp:208-223 | the frames from the first that has not expired are those for which some frame not later has not expired |
| `Receivers.TooOldInWindow` | src/frmqueue.h:86-90 | an id is too old exactly if it is before the first slot |
| `Releases.DropReleases` | src/frmqueue.h:264-316 | slots dropped from the front release exactly the frames that leave, each once |
| `Releases.EvictionReleases` | src/frmqueue.h:352-379 | so do those evicted for a new id |
| `Arrivals.ReceivedIffArrived` | src/stmrecver.cpp:378-406 | a symbol is held exactly if some arrival had it, for any order and repetition |
| `Arrivals.CompleteIffAllArrived` | src/stmrecver.cpp:112-112 | all source symbols are held exactly if all have arrived |
| `Arrivals.InsertAllOrdered` | src/stmrecver.cpp:391-399 | the list is ordered and disjoint after any arrivals |
| `Segments.DupIffOverlap` | src/stmrecver.cpp:364-396 | a segment is refused if and only if it overlaps one that is held |
| `Segments.InsertOrdered` | src/stmrecver.cpp:398-399 | inserting keeps the list strictly ordered and disjoint |
| `Segments.InsertTotal` | src/stmrecver.cpp:401-405 | recvSymNum is the sum of the counts and maxESI the greatest end |
| `Segments.InsertReceived` | src/stmrecver.cpp:391-399 | the symbols held grow by those of the segment unless it is refused |
| `VideoFrames.RecvVideoFrame.constructor` | src/stmrecver.cpp:87-97 | a frame with nothing received |
| `VideoFrames.RecvVideoFrame.InsertFrameSegment` | src/stmrecver.cpp:378-406 | links the segment into the ring at its place, or drops it, and keeps recvSymNum, maxESI and the accumulator in step |
| `VideoFrames.RecvVideoFrame.AcceptSegment` | src/stmrecver.cpp:104-118 | the object takes the step Accept of its value, and is ready exactly if that step hands it on; a complete frame is left alone |
| `VideoFrames.RecvVideoFrame.MetIffAllSources` | src/stmrecver.cpp:112-112 | the accumulator is met exactly if every source symbol is held |
| `VideoFrames.NotReceivedYet` | src/stmrecver.cpp:402-402 | the no-overlap precondition of AddRange always holds |
| `IntrusiveLists.ListInsert` | src/flist.h:27-32 | links a node between two neighbours of a ring |
| `IntrusiveLists.ListInsertAfter` | src/flist.h:34-36 | the ring with the node behind a given one |
| `IntrusiveLists.ListAddToEnd` | src/flist.h:43-45 | the ring with the node at the end |
| `IntrusiveLists.ListRemove` | src/flist.h:51-55 | the ring without the node |
| `IntrusiveLists.ListMove` | src/flist.h:57-60 | the node leaves one ring for the end of another |
| `IntrusiveLists.ListReplaceHeader` | src/flist.h:70-81 | all nodes hang on the new header, and the old one is an empty ring |
| `IntrusiveLists.ListInsertFromTail` | src/flist.h:107-119 | the first node from the tail that the comparer does not pass by, or the header, and whether it is equal |
| `IntrusiveLists.ListInitHead` | src/flist.h:15-17 | an empty ring |
| `IntrusiveLists.ListIsEmpty` | src/flist.h:19-25 | whether the ring has no nodes |
| `Accumulators.IntAccumulator.constructor` | src/accumu.h:32-37 | nothing covered |
| `Accumulators.IntAccumulator.GenAccumu` | src/accumu.h:22-29 | 1 + ... + srcNum without a product above 31 bits |
| `Accumulators.IntAccumulator.AddRange` | src/accumu.h:43-76 | met if and only if the disjoint ranges so far cover all of [0, srcNum) |
| `Accumulators.IntAccumulator.RangeOf` | src/accumu.h:63-69 | the sum of a range without overflow, for even and odd counts |
| `Accumulators.WeightCover` | src/accumu.h:59-71 | covering a range adds exactly the sum of its numbers |
| `FrameHandover.HandleSegment` | src/stmrecver.cpp:104-120 | the frame object with its ring, counts and accumulator takes the step Accept, hands over exactly if that step does, and its list is empty then |
| `FrameHandover.HandleFrameRecved` | src/stmassembler.cpp:378-446 | a frame whose accumulator is met is copied, any other goes to the decoder; its list is empty after it |
| `FrameHandover.CopyFrame` | src/stmassembler.cpp:390-413 | the buffer holds source symbols 0 to K - 1, all segments are released once, and the assertions on contiguity and count hold |
| `FrameHandover.NextContiguous` | src/stmassembler.cpp:396-396 | while source symbols lack, the next segment begins where the one before ended |
| `FrameHandover.MoveToDecoding` | src/stmassembler.cpp:425-445 | the segments move to the decoder, complete and in order; the list of the frame is empty |
| `FrameHandover.MoveSegments` | src/stmassembler.cpp:439-439 | the segments are on the new header, and none on the old |
| `FrameDecoding.GatherSymbols` | src/stmassembler.cpp:502-525 | exactly K + 3 symbols, each at its number, below maxESI |
| `FrameDecoding.GatheredIsArray` | src/stmassembler.cpp:525-532 | the array meets the preconditions of TryDecode, whatever the symbols are |
| `FrameDecoding.GatheredEncodes` | src/stmassembler.cpp:525-532 | if the segments encode a block, so does the array |
| `FrameDecoding.DecodeFrame` | src/stmassembler.cpp:495-549 | succeeds exactly if the gathered system has independent columns; then the received source symbols are copied and the others recovered, in order, and they are the source symbols of the block if the segments encode one |
| `FrameDecoding.FillBuffer` | src/stmassembler.cpp:534-545 | received source symbols are copied, the others recovered |
| `FrameDecoding.CopiedSources` | src/stmassembler.cpp:390-411 | both ways of completing a frame give the same source symbols |
| `Packets.GenStreamPacketDesc` | src/packet.h:147-181 | for every packet: returns some slices exactly if the packet behind its header is the concatenation of one to twenty slices written with these types, flags and payloads at these places |
| `Packets.PacketIffSliced` | src/packet.h:159-179 | the headers say the same as the contents written one after another: type octet, five flags, eleven-bit length, payload |
| `Packets.TilesUnique` | src/packet.h:155-179 | the headers decide the slices |
| `Packets.GenStreamFrameSliceDetail` | src/packet.h:183-242 | the content the slice carries, or failure exactly if it carries none; with error correction there are symNum >= 1 symbols of symSize >= 1 octets |
| `Packets.CarriesOne` | src/packet.h:183-242 | a slice carries one content at most |
| `Chains.Chain.AppendItem` | src/fchain.h:91-96 | one more item at the end, in a new segment if the last is full |
| `Chains.Chain.RemoveFirstNSegment` | src/fchain.h:57-73 | drops whole segments from the front |
| `Chains.Chain.GetLooper` | src/fchain.h:106-122 | the place of an item |
| `Chains.Chain.MoveNextLooper` | src/fchain.h:125-138 | the place after it, or the end |
| `Chains.ExtendedFlat` | src/fchain.h:148-168 | appending adds the item behind all others |
| `Chains.FlatAt` | src/fchain.h:109-121 | item idx is item idx % N of segment idx / N |
| `Recycling.StepKeeps` | src/fmtbuffer.cpp:30-100 | every interleaved step of Alloc, AddRef, DecRef and Recycle keeps each slot in exactly one place |
| `Recycling.PendingAfter` | src/fmtbuffer.cpp:55-98 | an append puts a slot behind the pending ones, a free takes the first, the removal of the segment none |
| `Recycling.NothingLost` | src/fmtbuffer.cpp:49-100 | over any run the slots freed and those pending are those retired, in order: none lost, none freed twice |
| `Recycling.EachSlotInOnePlace` | src/fmtbuffer.cpp:30-100 | after any run every slot is free, live, retiring or pending, and only one of these |
| `Recycling.StepSafe` | src/fmtbuffer.cpp:84-97 | the assertions of Recycle and of RemoveFirstNSegment hold at their steps |
| `Recycling.Final` | src/fmtbuffer.cpp:30-100 | every reachable state keeps the invariant |
| `Recycling.MTFixedSizeAllocator.Alloc` | src/fmtbuffer.cpp:30-40 | a slot that was not busy, with one reference |
| `Recycling.MTFixedSizeAllocator.Grow` | src/fbuffer.cpp:80-99 | new slots for an empty free list |
| `Recycling.MTFixedSizeAllocator.TakeFirst` | src/fbuffer.cpp:63-77 | the first free slot becomes busy |
| `Recycling.MTFixedSizeAllocator.AddRef` | src/fmtbuffer.cpp:42-47 | one more reference |
| `Recycling.MTFixedSizeAllocator.Decrement` | src/fmtbuffer.cpp:52-56 | one reference fewer; at zero the slot is retiring |
| `Recycling.MTFixedSizeAllocator.AppendRetired` | src/fmtbuffer.cpp:60-63 | the retiring slot goes to the end of the chain |
| `Recycling.MTFixedSizeAllocator.BeginRecycle` | src/fmtbuffer.cpp:77-81 | recycling starts exactly if the chain has more than one segment of slots |
| `Recycling.MTFixedSizeAllocator.FreeNext` | src/fmtbuffer.cpp:83-90 | the slot at the looper becomes free, even if the chain has grown meanwhile |
| `Recycling.MTFixedSizeAllocator.EndRecycle` | src/fmtbuffer.cpp:95-98 | the freed segment leaves the chain |
| `Recycling.MTFixedSizeAllocator.Recycle` | src/fmtbuffer.cpp:75-100 | without other threads: the first hundred retired slots become free, in order |
| `CommandFraming.ParsedStream` | src/mqthread.cpp:221-235 | parsing what was sent gives back the commands |
| `CommandFraming.ParsedConcat` | src/mqthread.cpp:221-241 | parsing can stop anywhere and go on when more has come |
| `CommandFraming.ParsedPrefix` | src/mqthread.cpp:221-235 | a prefix of the stream parses to a prefix of the commands, and the rest is a proper prefix of the next |
| `CommandFraming.RestFits` | src/mqthread.cpp:211-212 | the rest always leaves room in the buffer of 4096 bytes |
| `CommandFraming.MQThread.ParseCommands` | src/mqthread.cpp:221-235 | dispatches the whole commands in the buffer in order, and stops when a handler says so |
| `CommandFraming.MQThread.Shift` | src/mqthread.cpp:237-241 | the rest moves to the front |
| `CommandFraming.MQThread.ReceiveChunk` | src/mqthread.cpp:210-242 | one chunk received, parsed and shifted |
| `CommandFraming.MQThread.HandleCmdRecvSocket` | src/mqthread.cpp:206-246 | for every way of cutting the stream into chunks and calls: after the bytes of all calls so far exactly the whole commands in them are dispatched, in order, and the partial one is kept; or a handler refused the last one dispatched |
| `CommandFraming.WholeStream` | src/mqthread.cpp:206-246 | when the whole stream has come the commands dispatched are those sent |
| `GridProtocol.ParseClientBean` | src/rgridproto.cpp:111-126 | the bean of the body, BeanOf, which BeanIffThere characterises |
| `GridProtocol.BeanIffThere` | src/rgridproto.cpp:111-126 | for every body: parsing gives a bean if and only if the body begins with the parts of that valid bean |
| `GridProtocol.ParseStream` | src/rgridproto.cpp:74-110 | the stream of the body, StreamOf, which StreamIffThere characterises |
| `GridProtocol.StreamIffThere` | src/rgridproto.cpp:74-110 | for every body: parsing gives a stream if and only if the body begins with the parts of that valid stream |
| `GridProtocol.ReadWritten` | src/rgridproto.cpp:15-59 | reading a byte array gives back what was written |
| `GridProtocol.BeanRoundTrip` | src/rgridproto.cpp:111-126 | parsing a written client bean recovers every field, whatever the reserved octet holds |
| `GridProtocol.StreamRoundTrip` | src/rgridproto.cpp:74-105 | parsing a written stream recovers every field |
| `GridProtocol.WriteHeader` | src/rgridproto.cpp:239-246 | the twelve-bit length of the header is the body length |
| `GridProtocol.SerializeInSessionBean` | src/rgridproto.cpp:215-247 | the packet has the length of its body in the header and parses to the fields written |
| `GridProtocol.SerializeMNodeStreamPartOne` | src/rgridproto.cpp:287-303 | part one of a stream |
| `GridProtocol.SerializeMNodeStreamPartThree` | src/rgridproto.cpp:305-316 | part three and the header |
| `GridProtocol.SerializeStream` | src/rgridproto.cpp:287-316 | part one, data with its length and part three together parse to the fields written |
| `GridProtocol.SerializeEmptyStream` | src/rgridproto.cpp:271-285 | an empty stream parses as one |
| `AudioMix.MixStepBound` | AVSDK/avmixer/generalaudiomixer.cpp:23-29 | the running mix stays in [-32768, 32768], products within 2^30, and samples of the same sign never lower the magnitude |
| `AudioMix.MixBound` | AVSDK/avmixer/generalaudiomixer.cpp:20-30 | so it does for any number of samples |
| `AudioMix.MixDominates` | AVSDK/avmixer/generalaudiomixer.cpp:20-30 | samples of one sign mix to at least the loudest |
| `AudioMix.MixerData` | AVSDK/avmixer/generalaudiomixer.cpp:15-37 | the mix, changed by the clamp exactly at 32768 |
| `AudioMix.MixSamples` | AVSDK/avmixer/generalaudiomixer.cpp:81-106 | every output sample is the mix of the enabled streams |

## Left out

- SSE instructions, strides, padding and alignment: a row is its octets, and the dot product and row operations have their plain meaning.
- The contents of the repository tables and the generation of intermediate symbols by replaying recorded operations (src/fast_fec.cpp, lines 21-173): the tables are inputs, and an encoder is represented by any block that meets the constraint rows.
- `Vector` of src/fast_calc.h is the same class as `Matrix`, with one row for each symbol; the two copies of each row operation are modelled once.
- Allocation and release of the decoder's buffers.
- SymbolLists.TryDecodeList: does not model null entries. The source skips them before the first repair symbol only, and then its assertion at line 388 or 447 of src/fast_fec.cpp fails (`SymbolLists.NullTrips`).
- FrameQueues.FrameQueue.Insert: does not model an id exactly 0x8000 away from the only slot, which trips the assertion at src/frmqueue.h line 350; `FrameQueues.NotPlacedIffOpposite` shows that it is the only such id. `Receivers.StreamRecver.HandleSliceFecSegment` leaves out the same slices.
- Visitor callbacks that only release a frame appear as the sequence of visited slots that the methods return.
- Receivers.StreamRecver.HandleSliceFecSegment: models one stream of one identity with the frames kept by value in the queue slots; the identity map, its timeout, the frame allocator, slices without error correction (lines 123-166) and the fields only compared by assertions are not part of the model. The same frame as an object with its intrusive list is `VideoFrames.RecvVideoFrame`.
- Frame buffers are arrays of symbols, not of octets; the padding of the last symbol is not modelled.
- Segments end at 65535 at most, and ranges of the accumulator at 65536, as src/accumu.h and src/stmassembler.cpp assume with 16-bit sums.
- The queue of frames being decoded, the decode command itself and its answer (src/stmassembler.cpp, lines 441-444 and 548).
- Recycling.MTFixedSizeAllocator.Grow: slots are numbers; memory layout, alignment, protection words and signatures are not modelled.
- Locks and atomic operations: each locked or atomic section is one step. `RecycleAll`, which frees slots without emptying the chain, is left out.
- Chains.Chain.AppendItem: segments are a sequence of sequences rather than linked headers, so sharing of a segment by its readers is represented by the looper's place.
- CommandFraming.MQThread.HandleCmdRecvSocket: sockets and readiness flags are left out; the chunks are what the successive receives of one call return.
- `PreVerify` of src/packet.h and the preview fields that are copied.
- Client login beans, router status and identity bodies of the grid protocol: their parsers would add only easy members.
- AudioMix.MixSamples: does not model the shift of leftover data (lines 108 on), and takes at most 32 streams, the size of the source's buffer.
- Sockets, polling, threads, logging, configuration, codecs, generated protocol buffers, the picture mixer and the sessions of src that wait on the wall clock.

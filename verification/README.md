# A verified model of the decode front end

The repository turns H.264, HEVC, VP9 and AV1 streams into register programs for a hardware video decoder. This
project models the parts in front of the registers that are decoder algorithms in their own right, and proves what
the standards and the code's own comments promise of them:

- the **H.264 decoded-picture buffer**: slot choice, sliding-window and adaptive marking, holds, epochs, flush and the
  view of the references handed to the hardware. `H264Dpb.DpbCtx` is the context as the source keeps it, updated in
  place; every method is proved equal to a function of `H264DpbSpec`, and `H264SlidingWindow`, `H264LongTerm`,
  `H264Holds`, `H264Room`, `H264RefLists`, `H264Marking` and `H264Pictures` prove what those functions promise, over
  single calls and whole runs;
- the **HEVC decoded-picture buffer** (`H265Dpb`, with its holds and its references over whole runs in `H265Holds` and
  `H265Pictures`) and the **short-term reference picture sets** it is driven by, from the bits (`HevcRps`,
  `HevcRpsParse`, `HevcRpsCodes`) to the packed table the hardware reads (`HevcRpsTable` over `BitPackers`);
- the **VP9 boolean decoder** (`Vp9BoolDecoder`), which refines the bit-serial decoder of section 9.2 of the VP9
  bitstream specification, and the code that one inverts (`Vp9BoolCoder`);
- **picture order counts** of H.264 and HEVC over whole runs (`PicOrderCount`);
- the **bit readers and codes**: the positional reader with Exp-Golomb codes (`BitReaders`), the 64-bit shift register
  (`ShiftReaders`), AV1's uniform and subexponential codes (`Av1Codes`) and the global motion matrices coded with them,
  over runs of frames (`Av1GlobalMotion`);
- **NAL framing**: emulation prevention, length prefixes and start codes (`NalFraming`), and the access-unit walker
  (`AuIterator`);
- the **AV1 tile grid** (`Av1Tiles`, `Av1TileCodes`) and **order hints**, with the two copies of the skip-mode search
  (`Av1OrderHints`).

`DpbTypes` holds what the two buffers share, `Bits` bit windows and word arithmetic, `WrittenFields` what it means that
fields stand in a buffer, `StableSort` the insertion sort the reference lists are built with. Code that updates state in
the source is a class or a method with loops here, proved against functions on values; theorems about runs are about
those functions.

## Where the code differs from its comments or its standard

The model follows the code. Each difference below is stated as a theorem with the exact condition under which the code
does what the standard or its own comment asks, and where the condition alone does not show one, with an input at which
it does not:

- Memory management operations 1 and 3 compare raw frame numbers (mft/dpb.cpp:39-47). The search finds the picture the
  standard means exactly when the difference does not reach back past a frame-number wrap
  (`H264LongTerm.LookupFindsIff`), and misses it in `WrappedReferenceMissed`.
- An operation list can leave two references with one long-term index, or one above the maximum.
  `H264LongTerm.OperationKeepsIff` says exactly which operations do; `DuplicateAfterOp6` and `UnboundedAfterOp6` are
  concrete lists.
- The sliding window counts short-term references only (mft/dpb.cpp:687-692). `H264SlidingWindow.StandardBoundIff` says
  when the bound on short-term and long-term references together holds all the same, `LongTermBreaksBound` when not.
- When frame numbers repeat the window can evict the picture just decoded: `H264SlidingWindow.CompleteKeepsNewest` says
  exactly when it survives, `CurrentCanBeEvicted` is a pool in which it does not.
- The HEVC select does not stamp the slot's epoch (mft/dpb.cpp:937-945), so every slot keeps epoch 0. A hold added with
  the stream epoch (mft/engine/decode_engine.cpp:1269-1270) goes through exactly as long as there was no flush
  (`H265Holds.AddAfterSelectIff`, and `RunTrapsIff` over whole runs); `FlushThenHoldTraps` is the run that traps.
- HEVC marking turns a picture that an earlier set left out into a reference again (mft/dpb.cpp:919-920), exactly when
  it is still in its slot and the set names it (`H265Dpb.DroppedReturnsIff`, with `DroppedPictureReturns`).
- The positional reader returns what is left at the end of the data without latching its error, the shift registers
  return zero and latch it (`ShiftReaders.ReadersAgreeIff`).
- A packed HEVC set of 16 entries does not come back from its table slot (`HevcRpsTable.SetComesBackIff`).
- Removing emulation prevention does not undo adding it for a payload that ends in an odd number of zero bytes
  (`NalFraming.EscapeRoundTripIff`).
- With explicit tile spacing the table of starts can fill up and leave the last column wider than a tile may be, exactly
  for frames more than 63 superblocks wider than that (`Av1Tiles.ColumnsKeepLimitIff`, with `LastColumnTooWide`).
- The register builder captures the width of order hints once (mft/regbuilder_av1.cpp:49-50), while the parser follows
  every new sequence header. The two skip-mode searches agree exactly while the widths are the same
  (`Av1OrderHints.SearchesAgreeInEveryRun`, `SearchesAgreeIff`); `WidthChangeDiffers` is a run after which they differ.

## Model

| member | source | states |
|---|---|---|
| `H264DpbSpec.EvictDropsOldest` | mft/dpb.cpp:272-292 | with any short-term reference left, eviction removes exactly the one with the least FrameNumWrap, so the eviction loop terminates |
| `H264DpbSpec.SlidingWindow` | mft/dpb.cpp:684-695 | the loop moves no hold or epoch and makes no reference |
| `H264DpbSpec.ApplyMmcos` | mft/dpb.cpp:73-159 | no operation list moves a hold or an epoch or turns a picture into a reference |
| `H264SlidingWindow.Survivors` | mft/dpb.cpp:272-292 | after the window the surviving short-term references are exactly those outlived by fewer than the bound of others, the ones with the largest FrameNumWrap; every other slot is unchanged |
| `H264SlidingWindow.SurvivorCount` | mft/dpb.cpp:684-695 | as many survive as there were, or as the bound allows |
| `H264SlidingWindow.CompleteKeepsNewest` | mft/dpb.cpp:661-699 | slot by slot what a sliding-window complete leaves; the current picture is kept if and only if fewer than the bound tie with it or come after it, and always when frame numbers are distinct and below MaxFrameNum |
| `H264SlidingWindow.FrameNumWrapIsDecodeOrder` | mft/dpb.cpp:262-281 | for two pictures less than MaxFrameNum behind the current one, FrameNumWrap differs exactly as their true frame numbers do |
| `H264SlidingWindow.OldestAreDropped` | mft/dpb.cpp:262-292 | with distinct true frame numbers less than MaxFrameNum behind the current one, a short-term reference survives a complete, unchanged, if and only if fewer than the window of references are younger |
| `H264SlidingWindow.StandardBoundIff` | mft/dpb.cpp:684-695 | after a complete, short-term and long-term references together are within the window if and only if the long-term ones and the short-term ones cut to the window were |
| `H264SlidingWindow.LongTermBreaksBound` | mft/dpb.cpp:684-695 | one long-term reference and a window of 1 leave two references |
| `H264SlidingWindow.CurrentCanBeEvicted` | mft/dpb.cpp:272-292 | a reference with the current frame number in a later slot and a window of 1 evict the picture just decoded |
| `H264LongTerm.OperationKeepsIff` | mft/dpb.cpp:73-159 | distinct and bounded long-term indices survive an operation if and only if it is none of the listed breaking cases |
| `H264LongTerm.FittingBreaksIff` | mft/dpb.cpp:73-159 | with indices that fit 16 bits an operation breaks it if and only if the current picture is already long-term and operation 3, its index allowed and its reference found, gives away the current picture's index, operation 4 sets a maximum below that index, or operation 5 comes |
| `H264LongTerm.LookupMatchesFrameNumWrap` | mft/dpb.cpp:39-47 | the raw test holds of a reference if and only if it has the FrameNumWrap the standard means and the difference is at most CurrPicNum |
| `H264LongTerm.LookupFindsIff` | mft/dpb.cpp:39-47 | with distinct frame numbers the search returns the reference the standard means, and nothing exactly when there is none or the difference is above CurrPicNum |
| `H264LongTerm.WrappedReferenceMissed` | mft/dpb.cpp:79-87 | a reference on the far side of a wrap that operation 1 names and leaves alone |
| `H264LongTerm.ListKeeps` | mft/dpb.cpp:73-159 | a whole list in which operation 6 comes last and no 3 follows a 5 keeps long-term indices distinct and bounded |
| `H264LongTerm.LongTermOkInEveryRun` | mft/dpb.cpp:316-377 | in every reachable state, whatever selects, completes, failures, flushes and holds led there, long-term indices are distinct and at most the maximum |
| `H264LongTerm.DuplicateAfterOp6` | mft/dpb.cpp:89-113 | operation 6 followed by 3 gives two references one index |
| `H264LongTerm.UnboundedAfterOp6` | mft/dpb.cpp:114-128 | operation 6 followed by 4 leaves the current picture above the maximum |
| `H264Marking.Operation1` | mft/dpb.cpp:78-84 | slot by slot: the first short-term reference whose frame number is CurrPicNum minus the difference, in 32 bits, is emptied unless it is the current picture; nothing else changes |
| `H264Marking.Operation2` | mft/dpb.cpp:85-89 | the first long-term reference with the index named is emptied unless it is the current picture; nothing else changes |
| `H264Marking.Operation3` | mft/dpb.cpp:90-112 | if the index is allowed, the first short-term reference with the number named gets it and the first other holder, unless current, is emptied; nothing else changes |
| `H264Marking.Operation4` | mft/dpb.cpp:113-127 | the maximum is set and every other long-term reference above it is emptied; nothing else changes |
| `H264Marking.Operation5` | mft/dpb.cpp:128-140 | every other slot is emptied, the current picture gets frame number 0 and no long-term index is allowed |
| `H264Marking.Operation6` | mft/dpb.cpp:141-155 | if the index is allowed, the current picture gets it and the first other holder is emptied; nothing else changes |
| `H264Marking.OtherOperations` | mft/dpb.cpp:73-159 | any other operation number changes nothing |
| `H264Marking.Operation1DropsNamed` | mft/dpb.cpp:39-47 | with distinct frame numbers operation 1 drops exactly the short-term picture whose FrameNumWrap is CurrPicNum minus the difference, unless current, if that does not reach back past a wrap, and otherwise nothing |
| `H264Marking.ListsFollowOneAnother` | mft/dpb.cpp:74-76 | operations are applied first to last: one list and then another is both in one |
| `H264Holds.SelectTakesFreeSlot` | mft/dpb.cpp:316-366 | the slot handed out carries no hold, and if it held a picture then an IDR dropped that, or nothing was free and it was the oldest short-term reference; every other slot keeps its holds and epoch |
| `H264Room.FullIff` | mft/dpb.cpp:335-345 | select is full exactly when every slot is held or, unless an IDR drops it, has a picture, and there is no short-term reference or the oldest is held |
| `H264Room.PoolSuffices` | mft/dpb.h:66-68 | in every run marked by sliding window without long-term references, one picture at a time, a pool of at least the window plus the slots held always has room for the next picture |
| `H264Room.OneLessFails` | mft/dpb.cpp:335-345 | one slot less does not do: a run after which a pool of one is full |
| `H264Pictures.SelectStores` | mft/dpb.cpp:325-366 | after Ok the slot taken holds the picture, a reference exactly for a nonzero nal_ref_idc, long-term exactly for an IDR that asks for it, with the numbers and counts parsed; every other slot is emptied by an IDR and untouched otherwise, and every earlier slot was held or had a picture |
| `H264Pictures.SelectKeepsForMarking` | mft/dpb.cpp:368-400 | MaxFrameNum is 2^(log2 + 4), the window at least 1, the marking list that of the picture unless it is an IDR, and the long-term maximum that of an IDR |
| `H264Pictures.FullLeaves` | mft/dpb.cpp:340-346 | a full pool has lost all pictures to an IDR, and otherwise at most the oldest short-term reference |
| `H264Pictures.NonReferenceLeaves` | mft/dpb.cpp:662-680 | select and complete of a picture that is no reference empties its slot and leaves every other slot as it was, or emptied by the IDR |
| `H264Pictures.ListedReferenceLeaves` | mft/dpb.cpp:680-690 | a reference with a marking list is marked by that list, for its own slot |
| `H264Pictures.WindowedReferenceLeaves` | mft/dpb.cpp:684-699 | a reference marked by sliding window leaves at most the window, each slot as after the select or emptied, and with frame numbers that fit itself among them |
| `H264Pictures.IdrLeaves` | mft/dpb.cpp:318-328 | after an IDR reference picture is complete it is the only picture, stored as parsed, and every other slot is empty but for its holds |
| `H264Pictures.CompleteEnds` | mft/dpb.cpp:661-699 | completing leaves no marking pending and changes nothing of the state but slots, the noted count and, by a list, the maximal long-term index |
| `H264Pictures.FailureLeaves` | mft/dpb.cpp:701-714 | a failed picture is gone and so is the marking that came with it; nothing else changes |
| `H264Holds.StepAgrees` | mft/dpb.cpp:195-259 | one step of a client that follows the protocol does not trap and keeps slots and client in agreement |
| `H264Holds.RunNeverTraps` | mft/dpb.cpp:195-259 | no run of such a client trips RKMPP_VERIFY, whatever selects, completes, failures and flushes interleave |
| `H264Holds.HeldSlotKeepsEpoch` | mft/dpb.cpp:340-366 | while a hold is kept its slot's epoch does not change |
| `H264Holds.MisuseTraps` | mft/dpb.cpp:195-232 | add, release and transfer trap exactly on a flag already set, not set, or an epoch other than the slot's |
| `H264Holds.CallsSetFlags` | mft/dpb.cpp:195-232 | a call that does not trap changes the one flag, or the two of a transfer, of the one slot and nothing else |
| `H264Holds.FlushEmpties` | mft/dpb.cpp:234-257 | a flush traps exactly with a reorder or ready hold left, else empties all slots, keeps holds and epochs, and advances the stream epoch modulo 2^32 |
| `H264RefLists.CompactIsReferences` | mft/dpb.cpp:430-465 | the compact list holds each reference but the current slot once, in ascending FrameNumWrap, ties in slot order |
| `H264RefLists.ListPIsDescending` | mft/dpb.cpp:579-607 | list 0 is a permutation of the entries in descending FrameNumWrap |
| `H264RefLists.ListsBSplitAndDiffer` | mft/dpb.cpp:551-649 | lists 1 and 2 are permutations, past nearest first then future nearest first and the other way round, and differ whenever there are two entries |
| `H264RefLists.ViewIsRight` | mft/dpb.cpp:430-649 | for every pool the whole view: entries, lists, and 16 non-null handles of which handle k is entry k's buffer pair and the tail repeats the last |
| `H264RefLists.EntriesDescribe` | mft/dpb.cpp:474-500 | entry k describes reference k, a long-term one by its index and a short-term one by its frame number; the rest are unused, and the current pair is that of its slot |
| `H264RefLists.ListsAreNeeded` | mft/dpb.cpp:553-650 | no list for an IDR picture and no B list for I and SI slices |
| `H264RefLists.BuildListP` | mft/dpb.cpp:579-607 | the keying loop and sort give list 0 |
| `H264RefLists.BuildListsB` | mft/dpb.cpp:551-649 | the split into sides, the sorts, the concatenations and the swap give lists 1 and 2 |
| `StableSort.SortIsStable` | mft/dpb.cpp:460-465 | the insertion sort permutes its input and keeps ties in order |
| `StableSort.InsertionSort` | mft/dpb.cpp:460-465 | the in-place swaps sort the first entries and leave the rest of the array alone |
| `H264Dpb.CreateDpb` | mft/dpb.cpp:296-314 | a context exactly for pools of 1 to 16 non-null buffer pairs, then all slots empty |
| `H264Dpb.DpbCtx.EvictOldestShortTerm` | mft/dpb.cpp:272-292 | the scan in place is the specified eviction |
| `H264Dpb.DpbCtx.ApplyOne` | mft/dpb.cpp:73-159 | each operation in place is the specified one |
| `H264Dpb.DpbCtx.ApplyMmcoOps` | mft/dpb.cpp:73-159 | the loop applies the pending list in order |
| `H264Dpb.DpbCtx.SlideWindow` | mft/dpb.cpp:684-695 | the eviction loop in place is the specified window, and terminates |
| `H264Dpb.DpbCtx.BuildView` | mft/dpb.cpp:430-649 | the loops fill in the view that `ViewIsRight` is about |
| `H264Dpb.DpbCtx.Select` | mft/dpb.cpp:316-659 | status, whole new state and view of a select |
| `H264Dpb.DpbCtx.OnDecodeComplete` | mft/dpb.cpp:661-699 | whole new state of a complete: marking by list or window, or the slot given back |
| `H264Dpb.DpbCtx.OnDecodeFailed` | mft/dpb.cpp:701-714 | the current slot is cleared and nothing stays pending |
| `H264Dpb.DpbCtx.AddHold` | mft/dpb.cpp:195-208 | the flag set, or a trap exactly when it was set or the epoch differs |
| `H264Dpb.DpbCtx.ReleaseHold` | mft/dpb.cpp:210-218 | the flag cleared, or a trap exactly when it was not set |
| `H264Dpb.DpbCtx.TransferHold` | mft/dpb.cpp:220-232 | the flag moved, or a trap exactly when a check fails |
| `H264Dpb.DpbCtx.Flush` | mft/dpb.cpp:234-258 | all slots emptied but for consumer holds and the epoch advanced, or a trap exactly when a reorder or ready hold is left |
| `H265Dpb.SelectKeepsNamed` | mft/dpb.cpp:854-983 | after a successful select of a non-IDR picture the other references are exactly the slots whose count the active set names, the slot taken was none of them and not held, and mask and counts say so slot by slot |
| `H265Dpb.CurrentIsNoReference` | mft/dpb.cpp:876-935 | with a canonical set no reference has the current picture's count |
| `H265Dpb.FullIff` | mft/dpb.cpp:735-748 | the buffer is full exactly when every slot is held or named by the set |
| `H265Dpb.DroppedReturnsIff` | mft/dpb.cpp:909-935 | marking makes a slot a reference again if and only if it still holds a picture the set names |
| `H265Dpb.DroppedPictureReturns` | mft/dpb.cpp:909-935 | two selects of which the first drops a held picture and the second brings it back |
| `H265Pictures.SelectStores` | mft/dpb.cpp:868-945 | after Ok the slot taken holds the picture with its own count, a reference exactly for a reference NAL unit, holds and epoch kept; it had no hold and no named picture; every other slot is emptied by an IDR or marked by what the slice's set, its own or the SPS's, names |
| `H265Pictures.SelectTakesFirst` | mft/dpb.cpp:735-748 | the slot taken is the first not held whose picture the set leaves out, or else the first empty one |
| `H265Pictures.FullMarks` | mft/dpb.cpp:911-935 | a full pool has been marked all the same |
| `H265Pictures.ViewShowsReferences` | mft/dpb.cpp:947-984 | the view holds exactly the buffers and counts of the references, slot by slot, and the current picture's own pair and count |
| `H265Pictures.CompleteLeaves` | mft/dpb.cpp:986-1000 | completing empties the current slot exactly if it is no reference and changes no other |
| `H265Pictures.FailureLeaves` | mft/dpb.cpp:1001-1010 | a failed picture is gone; no other slot changes |
| `H265Pictures.ReferenceLastsWhileNamed` | mft/dpb.cpp:911-945 | over any run without flush, a reference picture selected and completed is an active reference of every later select if and only if every set since names its count, and then keeps its slot and count |
| `H265Holds.EpochsStayZero` | mft/dpb.cpp:802-817 | in every run slots keep epoch 0 while the buffer's epoch counts the flushes modulo 2^32 |
| `H265Holds.MisuseTraps` | mft/dpb.cpp:772-801 | add, release and transfer trap exactly on a flag already set, not set, or an epoch other than the slot's |
| `H265Holds.CallsSetFlags` | mft/dpb.cpp:772-801 | a call that does not trap changes the one flag, or the two of a transfer, of the one slot and nothing else |
| `H265Holds.FlushEmpties` | mft/dpb.cpp:802-817 | a flush traps exactly with a reorder or ready hold left, else no slot has a picture, holds and slot epochs stay, counts stay only under a consumer hold, and the stream epoch advances modulo 2^32 |
| `H265Holds.AddAfterSelectIff` | mft/dpb.cpp:772-781 | after any run and a successful select, adding a hold with the stream epoch does not trap if and only if there was no flush, modulo 2^32 |
| `H265Holds.StepTrapsIff` | mft/dpb.cpp:772-817 | a step of a client that keeps its holds straight traps if and only if it passes an epoch other than 0 |
| `H265Holds.RunTrapsIff` | mft/dpb.cpp:772-817 | and so does a whole run of such a client |
| `H265Holds.FlushThenHoldTraps` | mft/dpb.cpp:772-781 | flush, select, add with the stream epoch: the protocol is kept and the add traps |
| `H265Dpb.MaskBit` | mft/dpb.cpp:971-980 | bit i of the mask is set exactly for an active slot i |
| `H265Dpb.H265DpbCtx.MarkSlots` | mft/dpb.cpp:872-935 | the marking loop in place, IDR flush included |
| `H265Dpb.H265DpbCtx.Select` | mft/dpb.cpp:854-983 | status, whole new state and view of a select |
| `H265Dpb.H265DpbCtx.OnDecodeComplete` | mft/dpb.cpp:985-999 | whole new state: a picture that is no reference gives its slot back, any other keeps it |
| `H265Dpb.H265DpbCtx.OnDecodeFailed` | mft/dpb.cpp:1001-1010 | whole new state: the current slot is cleared |
| `H265Dpb.H265DpbCtx.AddHold` | mft/dpb.cpp:772-781 | the flag set, or a trap exactly when it was set or the epoch differs |
| `H265Dpb.H265DpbCtx.ReleaseHold` | mft/dpb.cpp:782-788 | the flag cleared, or a trap exactly when it was not set |
| `H265Dpb.H265DpbCtx.TransferHold` | mft/dpb.cpp:789-801 | the flag moved, or a trap exactly when a check fails |
| `H265Dpb.H265DpbCtx.Flush` | mft/dpb.cpp:802-817 | slots emptied but for consumer holds, which keep their count, and the epoch advanced; or a trap exactly when a reorder or ready hold is left |
| `H265Dpb.CreateDpb` | mft/dpb.cpp:836-852 | a context exactly for pools of 1 to 16 non-null buffer pairs, then all slots empty |
| `HevcRps.PredictionIsCanonicalAndExact` | mft/parser_glue_h265.cpp:314-398 | inter prediction from a canonical set is canonical and holds a delta with a flag if and only if a selected member of the reference set or zero, moved by deltaRps, is it |
| `HevcRps.HalvesFit` | mft/parser_glue_h265.cpp:342-390 | the two halves never need more than the 17 entries of the scratch arrays, for any reference set and flags |
| `HevcRpsParse.DirectIsCanonicalIff` | mft/parser_glue_h265.cpp:398-425 | a directly coded set is canonical if and only if every step code is below 2^31 |
| `HevcRpsParse.NarrowIsExactIff` | mft/parser_glue_h265.cpp:342-421 | storing as int16_t is exact if and only if every delta fits |
| `HevcRpsParse.ParsedIsCanonical` | mft/parser_glue_h265.cpp:304-427 | a set parsed against canonical ones, with values in range, is canonical and stored exactly |
| `HevcRpsParse.EverySetIsCanonical` | mft/parser_glue_h265.cpp:608-617 | so is every set of an SPS |
| `HevcRpsParse.SliceSetIsCanonical` | mft/parser_glue_h265.cpp:818-823 | and the set a slice of that SPS carries |
| `HevcRpsParse.AppendHalf` | mft/parser_glue_h265.cpp:346-388 | the three loops of one half write its chosen candidates in order into the scratch arrays, leaving what was there |
| `HevcRpsParse.PredictSet` | mft/parser_glue_h265.cpp:342-398 | the predicted set, refused exactly when it has more than 16 entries |
| `HevcRpsParse.ParseStRps` | mft/parser_glue_h265.cpp:304-427 | result and cursor for every input: accepted sets and the three refusals |
| `HevcRpsParse.ParseStRpsTable` | mft/parser_glue_h265.cpp:608-617 | the SPS loop builds the table the theorems are about, or fails |
| `HevcRpsCodes.DirectParses` | mft/parser_glue_h265.cpp:398-427 | where the code of a directly coded set stands, written out from section 7.3.7, that set is parsed and just the code passed |
| `HevcRpsCodes.SetParses` | mft/parser_glue_h265.cpp:304-428 | the same for every coding, direct or predicted, in an SPS or a slice: reference index, sign, magnitude and flags |
| `HevcRpsCodes.PredictedSetParses` | mft/parser_glue_h265.cpp:313-396 | a predicted set so read holds a distance exactly if it is a kept entry of its reference, or zero, moved by the coded distance and not zero |
| `HevcRpsCodes.TableParses` | mft/parser_glue_h265.cpp:604-618 | where the codes of an SPS's sets stand one after the other, the loop returns all of them |
| `HevcRpsTable.TableWidth` | mft/h265_packed_tables.cpp:367-450 | whatever the SPS, the long-term part is 16 words and the table 400 |
| `HevcRpsTable.TableDigits` | mft/h265_packed_tables.cpp:405-446 | slot i begins at word 16 + 6i and holds its own fields only |
| `HevcRpsTable.SetComesBackIff` | mft/h265_packed_tables.cpp:410-446 | reading slot i gives set i back, counts, deltas and flags, if and only if the set has at most 15 entries |
| `HevcRpsTable.SpareSlotIsEmpty` | mft/h265_packed_tables.cpp:437-446 | slots past the SPS's sets read as empty sets |
| `HevcRpsTable.LongTermComesBack` | mft/h265_packed_tables.cpp:389-404 | long-term entry i is read back, count and used flag, at digit 32i; zero without long-term pictures and past the entries |
| `HevcRpsTable.PackSet` | mft/h265_packed_tables.cpp:411-436 | the counts, the clipped entry loops and the padding loop put the fields of one set |
| `HevcRpsTable.PackRps` | mft/h265_packed_tables.cpp:367-450 | the 400 words make the number the table's fields make |
| `BitPackers.FieldComesBack` | mft/h265_packed_tables.cpp:86-105 | a field is found at its offset whatever was put before and after it |
| `BitPackers.WordIsDigits` | mft/h265_packed_tables.cpp:61-68 | word i is digits 64i to 64i + 63 of the number the fields make |
| `BitPackers.Whole` | mft/h265_packed_tables.cpp:61-118 | up to its capacity the buffer is exactly the fields put |
| `BitPackers.BitPacker.constructor` | mft/h265_packed_tables.cpp:67-73 | a cleared buffer holds no fields |
| `BitPackers.BitPacker.Put` | mft/h265_packed_tables.cpp:86-105 | appends the low n bits of the value, inside a word, across two, or past the end of the buffer |
| `BitPackers.BitPacker.Skip` | mft/h265_packed_tables.cpp:78-84 | the same as putting n zeros |
| `BitPackers.BitPacker.Align` | mft/h265_packed_tables.cpp:107-117 | appends ones or zeros up to the next multiple of the cursor's position, which within the capacity is the width of the fields |
| `BitPackers.PaddingIs` | mft/h264_packed_tables.cpp:67-76 | the chunks of the padding make all ones or all zeros of the whole width |
| `Vp9BoolDecoder.RenormInOneStep` | mft/vp9_bool_decoder.cpp:17-35 | shifting by the table's count at once is renormalising bit by bit |
| `Vp9BoolDecoder.RenormalisedIsSerial` | mft/vp9_bool_decoder.cpp:80-100 | after the lazy renormalisation the top byte is BoolValue of the serial decoder |
| `Vp9BoolDecoder.RenormalisedCoupled` | mft/vp9_bool_decoder.cpp:84-100 | shift and 16-bit refill keep the window equal to the bits at its position, zeros past the end, without 32-bit overflow |
| `Vp9BoolDecoder.SerialBoolKeeps` | mft/vp9_bool_decoder.cpp:102-114 | BoolRange stays in 128..255 and BoolValue below it |
| `Vp9BoolDecoder.SplitIsShare` | mft/vp9_bool_decoder.cpp:101-111 | the split is one more than the probability's share of the range less one, rounded down |
| `Vp9BoolCoder.DecodesIff` | mft/vp9_bool_decoder.cpp:80-114 | the bit-serial decoder, which the source's refines, returns exactly a given list of bools if and only if the data's first bits lie in the interval a coder narrows to by the probabilities, and reads just those bits |
| `Vp9BoolCoder.DecodeInvertsEncode` | mft/vp9_bool_decoder.cpp:80-114 | any list of bools, whatever the probabilities, comes back from the stream coded for it, whatever bytes follow |
| `Vp9BoolDecoder.BoolDecoder.Init` | mft/vp9_bool_decoder.cpp:56-78 | decoding can start exactly on 3 bytes or more whose marker bit is 0, in the serial decoder's state |
| `Vp9BoolDecoder.BoolDecoder.DecodeBool` | mft/vp9_bool_decoder.cpp:80-114 | the serial decoder's bool and next state, for every probability |
| `Vp9BoolDecoder.BoolDecoder.RenormaliseAndRefill` | mft/vp9_bool_decoder.cpp:84-100 | keeps the coupling and leaves BoolValue in the top byte |
| `Vp9BoolDecoder.BoolDecoder.DecodeLiteral` | mft/vp9_bool_decoder.cpp:116-121 | the serial decoder's literal of n bools |
| `PicOrderCount.ChooseMsbRecoversIff` | mft/parser_glue.cpp:784-792 | choosing the most significant part undoes truncation if and only if the count lies in the window around the last |
| `PicOrderCount.Type0RecoversRun` | mft/parser_glue.cpp:761-807 | over whole runs type 0 returns every true count |
| `PicOrderCount.Type0SliceStable` | mft/parser_glue.cpp:761-807 | a further slice of a picture changes neither count nor state |
| `PicOrderCount.AnchorIff` | mft/parser_glue_h265.cpp:1169-1210 | of the slice types, references are those Table 7-1 of H.265 does not call sub-layer non-reference, and later counts start from those at TemporalId 0 that are not leading pictures |
| `PicOrderCount.HevcUpdateIsSplit` | mft/parser_glue_h265.cpp:1210-1221 | the remainder with its correction is the split into multiple and rest, negative counts included |
| `PicOrderCount.HevcRecoversRun` | mft/parser_glue_h265.cpp:1179-1221 | over whole runs HEVC returns every true count |
| `PicOrderCount.HevcSliceStable` | mft/parser_glue_h265.cpp:1179-1221 | a further slice of a picture changes neither count nor state |
| `PicOrderCount.FrameNumOffsetRecoversIff` | mft/parser_glue.cpp:822-828 | the offset step recovers the unbounded frame number if and only if it advanced by less than MaxFrameNum |
| `PicOrderCount.ExpectedIsPeriodicSum` | mft/parser_glue.cpp:836-849 | the cycle formula is the plain sum of the periodic offsets |
| `PicOrderCount.CountsFollowTrueFrameNumber` | mft/parser_glue.cpp:810-894 | over whole runs types 1 and 2 count from the true frame number |
| `PicOrderCount.PocContext.ComputeType0` | mft/parser_glue.cpp:761-807 | both counts and the new state of type 0 |
| `PicOrderCount.PocContext.ComputeType1` | mft/parser_glue.cpp:810-860 | both counts and the new state of type 1 |
| `PicOrderCount.PocContext.ComputeType2` | mft/parser_glue.cpp:863-894 | count and new state of type 2 |
| `PicOrderCount.PocContext.ComputeHevc` | mft/parser_glue_h265.cpp:1179-1221 | count and new state of one HEVC slice |
| `PicOrderCount.ExpectedCount` | mft/parser_glue.cpp:836-849 | the two summing loops give the expected count |
| `BitReaders.UeDecodesEveryCode` | mft/parser_glue.cpp:86-97 | every Exp-Golomb codeword of 0 to 2^32 - 2 is decoded, and only its bits consumed |
| `BitReaders.UeReadsOnlyCodes` | mft/parser_glue.cpp:86-97 | what is accepted within the data is the codeword of what is returned |
| `BitReaders.UeFailsIff` | mft/parser_glue.cpp:86-97 | a code is refused exactly if a zero bit comes first and all but the last bit of the data are zeros or the next 32 are; the zeros and the bit after them are passed |
| `BitReaders.UeCutOff` | mft/parser_glue.cpp:86-97 | a code whose suffix runs off the end is read without failing, with the bits there are as its suffix |
| `BitReaders.UReadsWhatIsLeft` | mft/parser_glue.cpp:67-78 | a read takes as many bits as there are and never fails |
| `BitReaders.SignedInverts` | mft/parser_glue.cpp:100-103 | the signed mapping is a bijection with the code numbers |
| `BitReaders.BitReader.U` | mft/parser_glue.cpp:67-78 | the bits read as a number, what is left of them at the end |
| `BitReaders.BitReader.Ue` | mft/parser_glue.cpp:86-97 | value, cursor and latched failure |
| `BitReaders.BitReader.Se` | mft/parser_glue_h265.cpp:82-85 | the signed value of the code read |
| `ShiftReaders.ReadersAgreeIff` | mft/parser_glue.cpp:67-78 | the positional and the latching reader agree in value, cursor and error if and only if the bits are there |
| `ShiftReaders.AppendByte` | mft/av1_parser.cpp:51-62 | or-ing a byte below the valid bits keeps the register equal to the bits at the cursor |
| `ShiftReaders.TakeTop` | mft/av1_parser.cpp:67-81 | the top n bits are the next n of the data, and shifting them out keeps the coupling |
| `ShiftReaders.ShiftReader.Refill` | mft/vp9_parser.cpp:59-66 | the cursor stays; the error is set exactly when the data cannot supply the bits |
| `ShiftReaders.ShiftReader.U` | mft/av1_parser.cpp:67-81 | the next n bits, or zero for ever once a read ran past the end |
| `ShiftReaders.ShiftReader.AlignedSize` | mft/av1_parser.cpp:103-124 | the reported size is the consumed bits rounded up to bytes |
| `ShiftReaders.ShiftReader.AlignedBytePos` | mft/vp9_parser.cpp:96-116 | the same for VP9's own copy, after an error too |
| `Av1Codes.UniformInverts` | mft/av1_parser.cpp:166-177 | a value is decoded exactly where its short or long codeword stands, and just that is consumed |
| `Av1Codes.StepsInvert` | mft/av1_parser.cpp:181-196 | the same for the subexponential steps, from any step |
| `Av1Codes.FoldInverts` | mft/av1_parser.cpp:197-204 | recentring from the nearer end is a bijection |
| `Av1Codes.SubexpInverts` | mft/av1_parser.cpp:181-211 | for every target and reference in [-2^k, 2^k] the signed code with a reference is decoded exactly where it stands |
| `Av1Codes.DecodeSubexp` | mft/av1_parser.cpp:207-211 | the result stays in [-2^k, 2^k] for all bits, errors included |
| `Av1Codes.ReadUniform` | mft/av1_parser.cpp:166-177 | the loop and reads give the specified value, or the error for n at most 1 |
| `Av1Codes.ReadSubexpSteps` | mft/av1_parser.cpp:181-196 | the escape loop gives the specified value and ends |
| `Av1Codes.ReadSubexp` | mft/av1_parser.cpp:181-211 | the specified value, for references in range |
| `Av1GlobalMotion.MotionInverts` | mft/av1_parser.cpp:1191-1233 | a matrix is decoded as the one coded exactly where its code against the same reference stands |
| `Av1GlobalMotion.FrameInverts` | mft/av1_parser.cpp:1182-1234 | the seven matrices of an inter frame are decoded as those coded exactly where their codes stand in order, each against its reference in the primary frame; any other frame has identities and no code |
| `Av1GlobalMotion.DecodeMotion` | mft/av1_parser.cpp:1191-1233 | every decoded matrix keeps translations within 2^22 and the rest within 2^13 of the identity |
| `Av1GlobalMotion.ArgumentsStayInRange` | mft/av1_parser.cpp:1199-1232 | in every run of frames each reference argument of each code lies in its range |
| `Av1GlobalMotion.ArgsAreSyntax` | mft/av1_parser.cpp:1211-1233 | the calls made are those of section 5.9.25, parameter by parameter in its order, with its widths, units and references |
| `Av1GlobalMotion.BuildIsSyntax` | mft/av1_parser.cpp:1211-1233 | the values read, scaled back, are the parameters of section 5.9.25 |
| `Av1GlobalMotion.UnreadParams` | mft/av1_parser.cpp:1211-1230 | the parameters not read are those of one for a translation, and of a similarity for a rotation with zoom |
| `Av1GlobalMotion.RefMatrixIs` | mft/av1_parser.cpp:1199-1208 | the reference matrix is that of the same reference in the primary frame's slot, or one |
| `Av1GlobalMotion.SlotUpdated` | mft/av1_parser.cpp:1366-1376 | slot j takes the frame exactly if bit j of the refresh flags is set |
| `Av1GlobalMotion.Run` | mft/av1_parser.cpp:1366-1376 | in every run all saved matrices are within those bounds |
| `Av1GlobalMotion.BoundIsReached` | mft/av1_parser.cpp:1213-1232 | the bounds are tight |
| `Av1GlobalMotion.ReadMatrix` | mft/av1_parser.cpp:1210-1232 | the calls in order and the arithmetic around them give the specified matrix |
| `Av1GlobalMotion.ReadMotions` | mft/av1_parser.cpp:1180-1234 | all seven matrices of a frame, identities where it has none |
| `Av1GlobalMotion.UpdateSavedStates` | mft/av1_parser.cpp:1366-1376 | exactly the refreshed slots take the frame |
| `NalFraming.EscapeRoundTripIff` | mft/parser_glue.cpp:134-149 | removal undoes emulation prevention if and only if the payload ends in an even number of zeros |
| `NalFraming.EndRunAlternates` | mft/parser_glue.cpp:134-149 | the zeros an encoder has counted at the end of a payload are none without a trailing zero, one for an odd number of them and two for an even number |
| `NalFraming.EscapedIsFramable` | mft/parser_glue.cpp:134-149 | escaping leaves no start code inside and no zero at the end |
| `NalFraming.NoCodeInNal` | mft/parser_glue.cpp:110-129 | in a stream no start code begins inside such a unit |
| `NalFraming.NalsInvertsAnnexB` | mft/parser_glue.cpp:944-953 | the NAL loop takes a stream apart into the units it was made of |
| `NalFraming.ParseInvertsAvcc` | mft/avcc_to_annexb.cpp:50-71 | prefixed units are parsed back |
| `NalFraming.AvccInvertsParse` | mft/avcc_to_annexb.cpp:50-71 | only prefixed non-empty units are well formed |
| `NalFraming.SizesDiffer` | mft/avcc_to_annexb.cpp:64-70 | the stream is longer by 4 - n bytes for each unit |
| `NalFraming.FramingRoundTrip` | mft/avcc_to_annexb.cpp:37-76 | escape, prefix, convert, split and unescape give the payloads back in order |
| `NalFraming.ReadBeLen` | mft/avcc_to_annexb.cpp:20-35 | the 1, 2 or 4 byte length is the big-endian number |
| `NalFraming.AvccToAnnexB` | mft/avcc_to_annexb.cpp:37-76 | succeeds exactly on well-formed input that fits, with the start-code stream in the output and the rest untouched |
| `NalFraming.ShortInputIsChecked` | mft/avcc_to_annexb.cpp:64 | the comparison of the 32-bit sum with the room left is that of the sum itself for prefixes of 1 or 2 bytes and for every input shorter than 2^32 bytes |
| `NalFraming.FindCode` | mft/parser_glue.cpp:110-129 | the first start code, of three bytes or four |
| `NalFraming.EbspToRbsp` | mft/parser_glue.cpp:134-149 | the payload in place, or 0 when it does not fit; nothing else is written |
| `NalFraming.VisitNals` | mft/parser_glue.cpp:943-963 | the loop visits the specified payloads, kept one after the other in the scratch, or refuses |
| `NalFraming.VisitWithRoom` | mft/parser_glue.cpp:955-963 | a scratch as large as the stream always suffices: only an empty payload is refused |
| `NalFraming.VisitSucceedsIff` | mft/parser_glue.cpp:943-963 | for every scratch size, the loop gives all payloads exactly if each unit has a payload and fits whole behind the payloads before it, and refuses otherwise |
| `AuIterator.SliceByFields` | mft/au_iter.cpp:34-44 | a header byte is a slice's exactly by its type field: 1 or 5 in H.264, below 32 in H.265, whatever the other fields |
| `AuIterator.WalkTiles` | mft/au_iter.cpp:54-94 | repeated calls stop after at most a third of the length, and the units start at the first start code, abut, begin with a start code and hold the start code they report, with a slice header behind it |
| `AuIterator.WalkLosesNothing` | mft/au_iter.cpp:54-94 | the units together are the stream from the first to the last |
| `AuIterator.WalkReportsEverySlice` | mft/au_iter.cpp:54-94 | the walk reports every slice of the stream once and in order: one a unit, and none is left when it stops |
| `AuIterator.StepIsGood` | mft/au_iter.cpp:54-94 | one call moves the cursor by at least 3 bytes to the next boundary, with 3- and 4-byte start codes mixed |
| `AuIterator.AuIter.FindStartCode` | mft/au_iter.cpp:9-20 | the byte after the next start code, or none |
| `AuIterator.AuIter.AuNext` | mft/au_iter.cpp:54-94 | the unit and cursor of one call; nothing changes when there is none |
| `Av1Tiles.UniformGridIsOk` | mft/av1_parser.cpp:866-883 | uniform spacing, any bits: exponents in order, at most 2^log2 columns and rows, none wider than allowed, starts strictly increasing from 0 to below the sentinel |
| `Av1Tiles.ExplicitGridIsOk` | mft/av1_parser.cpp:884-910 | explicit spacing, any bits: the same of the starts, at most 64 each way, widths within the limit but for the last of a full table |
| `Av1Tiles.LastColumnTooWide` | mft/av1_parser.cpp:885-895 | for every frame more than 63 superblocks wider than a tile may be, zero bits make the last explicit column too wide, without a read past the end |
| `Av1Tiles.ColumnsKeepLimitIff` | mft/av1_parser.cpp:885-895 | every choice of bits keeps every explicit column within the maximum width if and only if the frame is at most 63 superblocks wider than it |
| `Av1Tiles.ExplicitKeepsLimitIff` | mft/av1_parser.cpp:885-909 | the same of either side and any limit, over reads that stay within the data |
| `Av1Tiles.FrameBounds` | mft/av1_parser.cpp:853-864 | for every frame up to 65536 samples the least column exponent is at most the greatest, both at most 6, and rows need at most 5 more |
| `Av1Tiles.TilingIsOk` | mft/av1_parser.cpp:851-929 | for every frame size and all bits the grid is in order and an accepted update tile is one of its tiles |
| `Av1Tiles.RemapIsBijection` | mft/regbuilder_av1.cpp:362-369 | the column-major renumbering stays in range and is undone by the transposed one |
| `Av1Tiles.RemapTransposes` | mft/regbuilder_av1.cpp:362-369 | the tile in column x of row y becomes number y of column x |
| `Av1TileCodes.FrameMeans` | mft/av1_parser.cpp:853-864 | the sides in superblocks, the limits of 4096 samples and 4096 by 2304, and the least exponents that reach them |
| `Av1TileCodes.EvenGridParses` | mft/av1_parser.cpp:851-883 | where the flag is one, the exponents are the least ones raised as often as coded and both sides are divided evenly by them |
| `Av1TileCodes.UnevenGridParses` | mft/av1_parser.cpp:884-910 | where the flag is zero, any widths and heights within the limits of section 5.9.15, coded one after the other, come back as the grid, and just the code is passed |
| `Av1TileCodes.UpdateParses` | mft/av1_parser.cpp:919-929 | the update tile and size field written are read back, or the tile refused |
| `Av1TileCodes.NoUpdate` | mft/av1_parser.cpp:919-919 | with one tile nothing is read |
| `Av1Tiles.TileLog` | mft/av1_parser.cpp:446-451 | the least exponent that reaches the target |
| `Av1Tiles.FillUniform` | mft/av1_parser.cpp:870-883 | the loop writes the uniform starts and the sentinel |
| `Av1Tiles.FillExplicit` | mft/av1_parser.cpp:885-917 | the loop writes the starts read, the sentinel, and the widest size |
| `Av1Tiles.ParseTiling` | mft/av1_parser.cpp:851-917 | the whole block into the tables of 65 starts |
| `Av1Tiles.ParseUpdate` | mft/av1_parser.cpp:919-929 | the update tile and size field, refused exactly when out of range |
| `Av1OrderHints.DistancesAgree` | mft/regbuilder_av1.cpp:90-95 | both distance functions agree on all integers |
| `Av1OrderHints.DistIsRepresentative` | mft/av1_parser.cpp:437-443 | the distance is the one representative in [-half, half) |
| `Av1OrderHints.OrderedOnOneSide` | mft/av1_parser.cpp:437-443 | among hints on one side of a third the circular distance is the difference of plain distances, a total order |
| `Av1OrderHints.LastPastIsNearest` | mft/av1_parser.cpp:541-565 | the scan finds the nearest past reference, the first of equals, and none only if there is none |
| `Av1OrderHints.FirstFutureIsNearest` | mft/av1_parser.cpp:541-565 | the same for the nearest future reference |
| `Av1OrderHints.PairIsNearest` | mft/av1_parser.cpp:567-590 | with a past and a future reference the pair is the nearest of each, with past ones alone the nearest and the one nearest before that, and there is no pair exactly when nothing is in the future and nothing before that |
| `Av1OrderHints.NearestExists` | mft/av1_parser.cpp:541-571 | there is a nearest past or future reference as soon as there is one at all, and no pair without a past one |
| `Av1OrderHints.PairIsTwo` | mft/av1_parser.cpp:567-590 | a pair names two different references in order |
| `Av1OrderHints.SlotsMirror` | mft/regbuilder_av1.cpp:39-86 | over every run the builder's slots hold the hints the parser saved |
| `Av1OrderHints.SlotIsFilled` | mft/regbuilder_av1.cpp:72-85 | in every reachable state a slot holds a frame exactly when a frame of the run had its refresh bit set, for parser and builder alike |
| `Av1OrderHints.SlotHoldsLastRefresh` | mft/regbuilder_av1.cpp:52-85 | and it is the last such frame: hint, kind, size, its number in the run as buffer, and the hints that stood in the slots its references named before it |
| `Av1OrderHints.RegistersAreNearest` | mft/regbuilder_av1.cpp:659-717 | without the parser's pair the registers name in order the nearest past and future reference, or the two nearest past ones, and are 1 and 1 otherwise |
| `Av1OrderHints.SearchesAgreeInEveryRun` | mft/regbuilder_av1.cpp:659-717 | after every run, as long as the width the builder captured is the parser's, both searches give the same pair and the same registers |
| `Av1OrderHints.WidthIsFirstNonzero` | mft/regbuilder_av1.cpp:46-50 | the captured width is the first nonzero one of the run, and zero only if all are |
| `Av1OrderHints.SearchesAgreeAtOneWidth` | mft/regbuilder_av1.cpp:659-717 | in a run of one width that is the builder's, and the copies agree |
| `Av1OrderHints.SearchesAgreeIff` | mft/regbuilder_av1.cpp:659-717 | for widths up to 8 the copies agree on everything a frame can see if and only if the widths are equal |
| `Av1OrderHints.WidthChangeDiffers` | mft/regbuilder_av1.cpp:49-50 | a run with a change of width after which parser and builder give different registers |
| `Av1OrderHints.BuffersNameFrames` | mft/regbuilder_av1.cpp:69-85 | until the 32-bit count wraps, slots that share a buffer number hold the same frame |
| `Av1OrderHints.ComputeSkipMode` | mft/av1_parser.cpp:532-591 | the parser's loops give that pair |
| `Av1OrderHints.Av1Dpb.PostDecode` | mft/regbuilder_av1.cpp:39-86 | whole new state after a frame, the references' hints saved with it |
| `Av1OrderHints.Av1Dpb.SkipRegisters` | mft/regbuilder_av1.cpp:659-717 | the builder's loops give the specified registers |

## Left out

- AvccToAnnexB: leaves out exactly the inputs with a unit of 2^32 - 4 bytes or more that does not fit although its 32-bit size, wrapped, does (`RoomIsChecked`); what the source then writes past the output is not modelled.
- DecodeLiteral: at most 31 bits, what the source's `int` result can hold.
- Align: the multiple is any positive number; the source's mask form is right for powers of two, which is what its callers pass.
- SelectTakesFreeSlot: the debug assertions inside the source's select are not modelled.
- AppendHalf: the three loops over positives, zero and negatives are one loop over the same order of visits.
- H.264: `fields` of a slot and `pic_num` of non-frame coding; field coding, `ref_pic_list_modification` and output reordering.
- H.264: picture order counts and frame numbers are unbounded integers; `int32_t` overflow on absurd streams is not modelled.
- H.264: the reset of the count state after operation 5, which the source itself does not surface.
- HEVC: long-term reference pictures, which the source parses but does not mark.
- HEVC: a step code of 2^31 or more overflows a C `int`; the model reads it as the two's complement value.
- Access units: parameter-set and slice fields inside the NAL loop, other than those named above.
- VP9: the frame header, superframe index and probability updates.
- AV1: OBU and frame header fields other than tiling, skip mode and global motion; short reference signalling; film grain.
- Packed tables other than the reference picture sets; CABAC and scaling-list tables.
- Register stamping, the driver, ioctls, replay and power sequencing.
- Allocation failure, null-pointer arguments, tracing and dumping.

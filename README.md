# TangiCraft hand-tracking core in Dafny

TangiCraft watches a table through a webcam while a user builds with real
blocks. It then rebuilds the structure in Minecraft. This project models the
part of it that decides what happened on the table:

- which detected hand is which;
- when a hand grabs or drops a block;
- how those events change the board's height map and its block journal.

All of it is proved in Dafny. The modules follow the Python files:

- **Util** (`videoTest/util.py`):
  - distances, kept as squared distances so that no square root is needed;
  - the midpoint of two points;
  - the fingertip index arithmetic (finger `f` is landmark `4 * f`);
  - the strict open-interval pinch test;
  - `hlist_to_coords`, as a method with two nested loops.
- **Occupancy** (`videoTest/board.py`, as values):
  - the lattice of drop points and the point-to-cell mapping of `get_center`;
  - the height map `top`, the presence map `there` and the journal `send_info` (row → column → stack index → tag);
  - the board invariant: the journal keys of a cell are exactly `0 .. top[p][q] - 1`, and empty maps are pruned;
  - the effect of `add_single` and `remove_single`, their round trip, and the replay of the action log by `build_activated`.
- **Boards** (`videoTest/board.py`): class `Board`. Its `top`, `there` and `sendInfo` fields are updated in place. Every method is proved against the Occupancy function of the old state.
- **HandModel** (`videoTest/grabDetection.py`, as values):
  - the state of one tracked hand;
  - `find_loc` (the first observation that is still-or-moving and not rotated), `update_loc`, `is_grabbing`, `update_grabbing`, `print_toggle`, `update_everything`;
  - the spazzing detector: `is_spazzing`, `check_spazzing`, `update_spazz`, `update_interface`.
- **GrabDetection** (`videoTest/grabDetection.py`): class `Hand`. Its fields are updated in place, and each method is proved equal to the HandModel function.
- **Tracking** (`videoTest/interface.py`, as values):
  - `overlap`;
  - the loop over the tracked hands of one frame of `process_image` (lines 149-208): event dispatch to the board, popping of claimed observations, dropping of lost hands, spawning of new hands and marking of overlapping pairs.
- **Interface** (`videoTest/interface.py`): class `Session`, holding the board, the list of `Hand` objects `loh` and the action `log`. `ProcessFrame` runs one frame with while loops over `loh`. It is proved equal to `Tracking.Frame`.

Some modelling decisions:

- An observation ("cmh[i]" and "cmhl[i]" together) is a record of 21 real landmark points, a handedness label, a score, and the hand slope that `get_hand_slope` would compute for it.
- The board's side length, width and height are integer parameters. `board.py` always ends up with side 30, which is `Occupancy.DefaultSideLength`.
- When `get_center` finds no cell, the tuple unpacking in `remove_single` or `add_single` raises `TypeError`, and that ends `process_image`. The model represents this as an explicit outcome:
  - `Removal.Unmapped` or `mapped == false` for the board;
  - `ok == false` for a frame, which stops the loop with nothing logged for the event.
- A rising edge (`grabbing` becomes true) is reported by `print_toggle` with `release == True`, which makes the interface call `remove_single`: picking a block up. A falling edge adds a block. The model keeps this orientation.
- `update_everything` calls `find_loc` up to three times. The slope and `moving` may change between the calls, so the stored `last_loc` is the wrist chosen by the last call. This may not be the index the method returns. The model follows the code, and `HandModel.UpdateEverythingLocation` states which wrist is stored.

## Model

| member | source | states |
|---|---|---|
| Util.SqDist | videoTest/util.py:5-7 | the squared distance is non-negative and 0 for identical points |
| Util.DistanceComparisons | videoTest/util.py:5-7 | for the true distance d, each squared comparison (`<`, `>`, `<=`, `>=` against r) holds exactly when the same comparison of d and r holds |
| Util.DistanceSymmetric | videoTest/util.py:5-7 | the distance, and the comparisons built on it, do not depend on the order of the two points |
| Util.FindMidpoint | videoTest/util.py:11-12 | the midpoint is equally far from both points, at a quarter of their squared distance, with equal offsets on both axes |
| Util.MidpointSymmetric | videoTest/util.py:11-12 | the midpoint does not depend on the order of its arguments |
| Util.FingerTip | videoTest/util.py:28-32 | finger f is landmark 4·f: thumb (1) is landmark 4 and index (2) is landmark 8 |
| Util.FingerToFingerSqDist | videoTest/util.py:28-34 | the fingertip distance is non-negative and 0 for the same finger |
| Util.NearFingerIsOpenInterval | videoTest/util.py:37-44 | is_finger_near_finger holds exactly when lb < d < ub, fails at either bound, and is_thumb_near_finger is the same test with the thumb as first finger |
| Util.HlistToCoords | videoTest/util.py:16-24 | the result has the same hands in the same order, each with its landmarks in order, x scaled by dsize[0] and y by dsize[1] |
| Occupancy.Extent | videoTest/board.py:51-57 | size // side + 1 lattice lines are the fewest whose span exceeds the image extent |
| Occupancy.FirstNear | videoTest/board.py:75-87 | on one axis, the first line within side // 2 of the coordinate, with no earlier such line, or None when there is none |
| Occupancy.CellAt | videoTest/board.py:75-87 | get_center: the returned cell covers the point (within side // 2, bounds included, on both axes), no cell before it in row-major order covers it, and None means no cell covers it |
| Occupancy.FirstCoveringCell | videoTest/board.py:75-87 | any covering cell with no covering cell before it is the answer: the mapping depends only on the point |
| Occupancy.EvenSideCoversExtent | videoTest/board.py:43-53 | with an even side (such as 30), every coordinate from 0 to n·side maps to some lattice line |
| Occupancy.EmptyGrid | videoTest/board.py:57-65 | a new board has every height 0, nothing marked present, an empty journal, and satisfies the board invariant |
| Occupancy.CellCount | videoTest/board.py:90-99 | under the invariant a cell has exactly top[p][q] journal entries, and its height is 0 exactly when the journal has no entry for it, so the check at line 94 never reports |
| Occupancy.AddJsonCell | videoTest/board.py:118-124 | add_single_json files "wood" under the key equal to the cell's previous number of entries |
| Occupancy.AddJsonOthers | videoTest/board.py:118-124 | add_single_json leaves the entries of every other cell as they were |
| Occupancy.AddJsonRows | videoTest/board.py:119-120 | the journal's rows become the old rows plus p |
| Occupancy.AddJsonOtherRows | videoTest/board.py:118-124 | every other row map is unchanged |
| Occupancy.AddJsonColumns | videoTest/board.py:121-122 | row p's columns become its old columns plus q |
| Occupancy.Grow | videoTest/board.py:148-149 | raising one stack keeps the board's shape and the presence map |
| Occupancy.Place | videoTest/board.py:147-158 | add_single at a cell keeps the board's shape |
| Occupancy.PlaceEffect | videoTest/board.py:138-149 | add_single (not low_layer) raises the cell by exactly 1, adds the journal key equal to its old height with "wood", that key was free, and no other cell or the presence map changes |
| Occupancy.LowLayerEffect | videoTest/board.py:150-158 | add_single with low_layer takes an empty cell to height 1 with the single entry 0 ↦ "wood", leaves an occupied cell's height and the journal alone, always marks the cell present, and changes no other cell |
| Occupancy.GrowRowsPruned | videoTest/board.py:118-124 | raising a stack leaves no empty or out-of-lattice row in the journal |
| Occupancy.GrowCellsPruned | videoTest/board.py:118-124 | raising a stack leaves no empty or out-of-lattice cell map |
| Occupancy.GrowCell | videoTest/board.py:147-149 | after raising a stack, each cell's keys are still exactly 0 .. height - 1 |
| Occupancy.GrowStacked | videoTest/board.py:147-149 | after raising a stack, every cell's keys are 0 .. height - 1 |
| Occupancy.GrowKeepsConsistent | videoTest/board.py:147-149 | raising a stack preserves the board invariant |
| Occupancy.PlaceKeepsConsistent | videoTest/board.py:138-158 | add_single, with or without low_layer, preserves the board invariant |
| Occupancy.DropTopCell | videoTest/board.py:111-112 | remove_single deletes exactly the highest key len - 1 of the cell |
| Occupancy.DropTopOthers | videoTest/board.py:111-116 | deleting the top entry leaves every other cell's entries as they were |
| Occupancy.DropTopPruned | videoTest/board.py:113-116 | after the deletion no emptied cell map or row map is left, and row and cell keys only disappear |
| Occupancy.Take | videoTest/board.py:109-116 | removing a block keeps the board's shape and the presence map |
| Occupancy.TakeEffect | videoTest/board.py:109-116 | remove_single on a non-empty cell lowers it by exactly 1 and deletes its highest key, which was present, and no other cell changes |
| Occupancy.TakeCell | videoTest/board.py:109-116 | after a removal, each cell's keys are still exactly 0 .. height - 1 |
| Occupancy.TakeRowsPruned | videoTest/board.py:113-116 | after a removal no empty or out-of-lattice row remains |
| Occupancy.TakeCellsPruned | videoTest/board.py:113-116 | after a removal no empty or out-of-lattice cell map remains |
| Occupancy.TakeStacked | videoTest/board.py:109-116 | after a removal every cell's keys are 0 .. height - 1 |
| Occupancy.TakeKeepsConsistent | videoTest/board.py:109-116 | remove_single preserves the board invariant |
| Occupancy.AddJsonTop | videoTest/board.py:118-124 | after add_single_json the cell is non-empty and its top entry is the only one added |
| Occupancy.RoundTripExistingCell | videoTest/board.py:109-124 | filing an entry in a cell that already has entries and then deleting the top one gives back the journal |
| Occupancy.RoundTripNewCell | videoTest/board.py:109-124 | the same round trip when the row exists but the cell is new: the new cell map is pruned again |
| Occupancy.RoundTripNewRow | videoTest/board.py:109-124 | the same round trip when the row is new: the new row map is pruned again |
| Occupancy.JournalRoundTrip | videoTest/board.py:109-124 | on any pruned journal, add_single_json followed by the journal part of remove_single restores the journal exactly |
| Occupancy.PlaceTakeRoundTrip | videoTest/board.py:102-149 | on a consistent board, add_single then remove_single at the same cell restores top, there and send_info |
| Occupancy.Set2Restore | videoTest/board.py:148-158 | writing a cell and then writing back its old value restores the grid |
| Occupancy.AfterAdd | videoTest/board.py:138-158 | add_single at a point fails exactly when get_center finds no cell, and otherwise yields a consistent board of the same shape |
| Occupancy.AfterRemove | videoTest/board.py:102-116 | remove_single is Unmapped exactly when get_center finds no cell, and NothingThere exactly when the cell's height is 0; both change nothing, so heights never go negative; Removed lowers the cell by 1 and keeps the invariant |
| Occupancy.AddRemoveRoundTrip | videoTest/board.py:102-149 | for a mapped point, add_single(x, y) then remove_single(x, y) reports Removed and gives back the original board |
| Occupancy.Apply | videoTest/board.py:163-167 | one log row is replayed by remove_single when release is true and add_single otherwise, and fails exactly when the point is unmapped |
| Occupancy.Replay | videoTest/board.py:161-167 | build_activated keeps the board invariant and shape |
| Occupancy.ReplayCompletes | videoTest/board.py:161-167 | the replay gets through the whole log exactly when every logged point maps to a cell |
| Occupancy.ReplayAppend | videoTest/board.py:161-167 | replaying a + b is replaying a and then b on the result |
| Occupancy.ReplayDropThenPickUp | videoTest/board.py:161-167 | replaying a drop and then a pick-up at the same mapped point gives back the board |
| Boards.Board.constructor | videoTest/board.py:45-65 | a new board has (width // side + 1) × (height // side + 1) cells, all heights 0, nothing present, an empty journal, and satisfies the invariant |
| Boards.Board.GetCenter | videoTest/board.py:75-87 | the nested scan over centers returns the first covering cell in row-major order, or None |
| Boards.Board.IsBlockNotAtCenter | videoTest/board.py:90-99 | None exactly for an unmapped point; otherwise whether the cell's height is 0, which agrees with the cell having no journal entry, so the inconsistency is never reported |
| Boards.Board.AddSingleJson | videoTest/board.py:118-124 | the journal becomes AddJson of the old journal, and the height and presence maps are untouched |
| Boards.Board.DropJournalTop | videoTest/board.py:110-116 | the journal becomes DropTop of the old journal, and the height and presence maps are untouched |
| Boards.Board.RemoveSingle | videoTest/board.py:102-116 | the status and the new board are AfterRemove of the old board, and the invariant is kept |
| Boards.Board.TakeTop | videoTest/board.py:109-116 | on a non-empty cell the new board is Take of the old one, and the invariant is kept |
| Boards.Board.AddSingle | videoTest/board.py:138-158 | mapped exactly when get_center finds a cell; then the new board is AfterAdd of the old one, otherwise nothing changes; the invariant is kept |
| Boards.Board.PlaceAt | videoTest/board.py:147-158 | the new board is Place of the old one, and the invariant is kept |
| Boards.Board.GrowAt | videoTest/board.py:147-149 | the new board is Grow of the old one |
| Boards.Board.ApplyEntry | videoTest/board.py:163-167 | one log row: mapped exactly when Apply succeeds, then the board is Apply's result, otherwise unchanged |
| Boards.Board.BuildActivated | videoTest/board.py:161-167 | the loop over the log leaves the board and the completion flag equal to Replay of the old board |
| HandModel.NewHand | videoTest/grabDetection.py:62-140 | a new hand sits at the wrist with the observation's landmarks, label, score and slope; distance_params is [side/4, side/2] and grabbing_params [0, 2·side]; it is not moving, grabbing or spazzing; all timers are 0; best_hand is the label exactly when the score is >= 0.7 |
| HandModel.StillMovingBands | videoTest/grabDetection.py:164-177 | is_still holds exactly when d < low, is_moving exactly when low < d < high, and a distance equal to low or at least high satisfies neither |
| HandModel.FirstMatch | videoTest/grabDetection.py:184-210 | a found index lies in range and its observation is accepted (still or moving, and rotated by less than 0.25) |
| HandModel.FirstMatchIsFirst | videoTest/grabDetection.py:184-210 | no observation before the found index is accepted, and None means none is |
| HandModel.FindLoc | videoTest/grabDetection.py:184-210 | no match changes nothing; a match is accepted and records its label, score and slope, updates best_hand only when the score is > 0.7 (strict), and leaves every other field alone |
| HandModel.FindLocIsFirst | videoTest/grabDetection.py:184-210 | find_loc returns the smallest accepted index, and None exactly when no observation is accepted |
| HandModel.FindLocKeeps | videoTest/grabDetection.py:184-210 | find_loc never changes the location, the moving, grabbing and spazzing state, the timers, the parameters or the stored landmarks |
| HandModel.UpdateLoc | videoTest/grabDetection.py:214-222 | true exactly when find_loc matches; then last_loc becomes the matched wrist on top of find_loc's updates; otherwise nothing changes |
| HandModel.IsGrabbing | videoTest/grabDetection.py:226-310 | a moving hand reports its stored grabbing and changes nothing; without a match it reports false; otherwise it reports the thumb–index pinch test on the matched landmarks |
| HandModel.GrabIsOpenPinchInterval | videoTest/grabDetection.py:281-302 | for a new hand, the pinch test holds exactly when the distance from landmark 4 to landmark 8 is strictly between 0 and 2·side |
| HandModel.UpdateGrabbing | videoTest/grabDetection.py:313-317 | grabbing becomes the new classification, and stability_timer is reset to 0 exactly when that differs from the stored value |
| HandModel.PrintToggle | videoTest/grabDetection.py:321-356 | nothing is emitted and nothing changes while grace_period_timer <= 1, and the stored landmarks are never changed |
| HandModel.PrintToggleEdges | videoTest/grabDetection.py:321-356 | an event is emitted only after the grace period, for a matched hand, on an edge of the grab state, with stability_timer >= 5 and not spazzing; it lies at the midpoint of landmarks 4 and 8, and release is the new grab value (true on a rising edge) |
| HandModel.PrintToggleReportsEdges | videoTest/grabDetection.py:321-356 | conversely, every such stable edge is emitted |
| HandModel.UpdateEverything | videoTest/grabDetection.py:360-372 | returns find_loc's index, changes nothing when there is no match, and never touches the stored landmarks |
| HandModel.UpdateEverythingCounters | videoTest/grabDetection.py:360-372 | on a match, moving is set from the matched wrist, grabbing is the new classification, grace_period_timer goes up by exactly 1, stability_timer becomes (reset or old) + 1, and spazzing is unchanged |
| HandModel.UpdateEverythingLocation | videoTest/grabDetection.py:360-372 | on a match the last find_loc also matches, and last_loc is the wrist it selects |
| HandModel.SpazzCount | videoTest/grabDetection.py:386-390 | the count of moved landmarks never exceeds the number examined |
| HandModel.CheckSpazzingCount | videoTest/grabDetection.py:386-391 | check_spazzing holds exactly when at least 9 of the stored landmarks moved at least distance_params[1], which is count / 21 > 0.4 |
| HandModel.SpazzCountAll | videoTest/grabDetection.py:379-391 | when every examined landmark moved that far, all of them are counted |
| HandModel.SpazzCountSameLandmarks | videoTest/grabDetection.py:379-391 | the count depends only on the stored landmarks and distance_params[1] |
| HandModel.UpdateSpazz | videoTest/grabDetection.py:408-426 | true sets spazzing, increments spazzing_timer and zeroes focused_timer; false zeroes spazzing_timer, increments focused_timer, and leaves spazzing set only while focused_timer <= 60; no other field changes |
| HandModel.CalmFramesKeepSpazzing | videoTest/grabDetection.py:408-426 | after a spazzing frame, up to 60 calm frames keep spazzing set, and the 61st clears it |
| HandModel.UpdateInterface | videoTest/grabDetection.py:395-406 | no match changes nothing; a match stores the matched landmarks; a full set of 21 landmarks stays full |
| HandModel.UpdateInterfaceSpazz | videoTest/grabDetection.py:395-406 | on a match the result is update_spazz applied to whether check_spazzing fires on the new landmarks against the old ones |
| GrabDetection.FirstMatchIs | videoTest/grabDetection.py:184-210 | an accepted index with no accepted index before it is the one find_loc returns |
| GrabDetection.Hand.constructor | videoTest/grabDetection.py:62-140 | the new Hand's state is NewHand of the observation |
| GrabDetection.Hand.FindLoc | videoTest/grabDetection.py:184-210 | the loop returns the first accepted index with its wrist and updates the fields as HandModel.FindLoc |
| GrabDetection.Hand.UpdateLoc | videoTest/grabDetection.py:214-222 | result and new state are HandModel.UpdateLoc of the old state |
| GrabDetection.Hand.IsGrabbing | videoTest/grabDetection.py:226-310 | result and new state are HandModel.IsGrabbing of the old state |
| GrabDetection.Hand.UpdateGrabbing | videoTest/grabDetection.py:313-317 | new state is HandModel.UpdateGrabbing of the old state |
| GrabDetection.Hand.PrintToggle | videoTest/grabDetection.py:321-356 | event and new state are HandModel.PrintToggle of the old state |
| GrabDetection.Hand.UpdateEverything | videoTest/grabDetection.py:360-372 | index and new state are HandModel.UpdateEverything of the old state |
| GrabDetection.Hand.CheckSpazzing | videoTest/grabDetection.py:386-391 | the counting loop answers HandModel.CheckSpazzing |
| GrabDetection.Hand.UpdateSpazz | videoTest/grabDetection.py:408-430 | new state is HandModel.UpdateSpazz of the old state |
| GrabDetection.Hand.UpdateInterface | videoTest/grabDetection.py:395-406 | new state is HandModel.UpdateInterface of the old state |
| Tracking.OverlapCount | videoTest/interface.py:101-106 | the count of close landmark pairs never exceeds the number examined |
| Tracking.OverlapCountIsCloseSet | videoTest/interface.py:101-106 | overlap's counter is the number of indices whose landmarks are close |
| Tracking.OverlapMeansFiveClose | videoTest/interface.py:101-109 | for two tracked hands, overlap holds exactly when more than 21 // 5 = 4, so at least 5, landmark pairs are within h1's distance_params[0] |
| Tracking.CloseIsNonStrict | videoTest/interface.py:105 | a landmark pair is close exactly when its distance is <= the bound, bound included |
| Tracking.OverlapCountSymmetric | videoTest/interface.py:101-106 | the count does not depend on which hand comes first |
| Tracking.OverlapSymmetric | videoTest/interface.py:101-109 | for hands with the same distance_params[0], overlap is symmetric |
| Tracking.MarkPair | videoTest/interface.py:200-202 | marking one pair keeps the number of hands and every hand tracked |
| Tracking.MarkRow | videoTest/interface.py:199-202 | the inner pair loop keeps the number of hands and every hand tracked |
| Tracking.MarkFrom | videoTest/interface.py:198-202 | the outer pair loop keeps the number of hands and every hand tracked |
| Tracking.MarkPairSame | videoTest/interface.py:200-202 | update_spazz(True) on a pair touches only spazzing state, so no hand's landmarks or parameters change |
| Tracking.MarkRowSame | videoTest/interface.py:199-202 | the inner loop changes only spazzing state |
| Tracking.MarkFromSame | videoTest/interface.py:198-202 | the whole pair loop changes only spazzing state |
| Tracking.SameHandsOverlap | videoTest/interface.py:198-202 | changing only spazzing state does not change which pairs overlap, so the loop's own marking never affects its later tests |
| Tracking.MarkRowKeepsSpazzing | videoTest/interface.py:199-202 | the inner loop never clears spazzing |
| Tracking.MarkFromKeepsSpazzing | videoTest/interface.py:198-202 | the pair loop never clears spazzing |
| Tracking.MarkRowMarks | videoTest/interface.py:199-202 | once the inner loop for i has passed an overlapping partner j, both hands are spazzing |
| Tracking.MarkFromMarks | videoTest/interface.py:198-202 | once the outer loop has passed i, every overlapping pair from i on has both hands spazzing |
| Tracking.MarkOverlapsSpazzing | videoTest/interface.py:198-202 | for every pair i < j that overlaps, both hands end the frame spazzing and still overlap |
| Tracking.MarkRowIsolated | videoTest/interface.py:199-202 | a hand that overlaps no other is untouched by the inner loop |
| Tracking.IsolatedSameHands | videoTest/interface.py:198-202 | a hand without overlaps stays so when only spazzing state changes |
| Tracking.MarkFromIsolated | videoTest/interface.py:198-202 | a hand that overlaps no other is untouched by the pair loop |
| Tracking.MarkOverlapsIsolated | videoTest/interface.py:198-202 | a hand that overlaps no other ends the frame exactly as it started the pair loop |
| Tracking.Dispatch | videoTest/interface.py:163-170 | the board after an event keeps the invariant and shape |
| Tracking.DispatchRoutes | videoTest/interface.py:163-170 | no event leaves board and log alone; an event fails exactly when its point is unmapped, and then changes nothing; otherwise it appends [x, y, release] to the log, release true goes to remove_single, and false goes to add_single |
| Tracking.DispatchLogged | videoTest/interface.py:163-170 | after an event the old log is a prefix of the new one, and replaying the added rows turns the old board into the new one |
| Tracking.Turn | videoTest/interface.py:157-179 | one hand's turn keeps the hand tracked and the board consistent, and a claimed index is in range |
| Tracking.TurnLogged | videoTest/interface.py:160-170 | a turn only extends the log, with rows that replay its board change |
| Tracking.LoggedTrans | videoTest/interface.py:155-188 | that log relation composes across successive turns |
| Tracking.Without | videoTest/interface.py:183-186 | pop(i) removes exactly element i and keeps the others in order |
| Tracking.WithoutMultiset | videoTest/interface.py:183-186 | pop(i) removes one copy of element i and nothing else |
| Tracking.WithoutIncreasing | videoTest/interface.py:183-186 | popping from an increasing sequence keeps it increasing |
| Tracking.WithoutWellFormed | videoTest/interface.py:183-186 | popping an observation leaves every remaining one with 21 landmarks |
| Tracking.WithoutAligned | videoTest/interface.py:183-186 | after a pop, the remaining observations still carry their original frame positions |
| Tracking.KeptShift | videoTest/interface.py:183-188 | the positions of the survivors stay increasing and in range when the loop prepends a survivor |
| Tracking.Advance | videoTest/interface.py:155-188 | the loop over loh keeps every hand tracked, the observations well formed and the board consistent |
| Tracking.ResumeStart | videoTest/interface.py:155-188 | the loop state before any hand is the whole loop |
| Tracking.ResumeEnd | videoTest/interface.py:155-188 | once every hand is done, the hands, observations, board and log are final |
| Tracking.ResumeCrash | videoTest/interface.py:160-170 | an unmapped event ends the loop with the hands so far, and nothing more changes |
| Tracking.ResumeKeep | videoTest/interface.py:183-186 | a claiming hand stays in place, its observation is popped, and the loop moves on to the next index |
| Tracking.ResumeDrop | videoTest/interface.py:187-188 | a lost hand is removed from loh, and the loop continues at the same index |
| Tracking.ResumeKeptStart | videoTest/interface.py:155-188 | before any hand is done, the original places the loop will keep are the survivors' places of the whole loop |
| Tracking.ResumeKeptEnd | videoTest/interface.py:155-188 | once every hand is done, the places kept are exactly the original places of the hands still in loh |
| Tracking.ResumeKeptKeep | videoTest/interface.py:183-186 | a claiming hand keeps its original place, and the places still to be kept are unchanged after it |
| Tracking.ResumeKeptDrop | videoTest/interface.py:187-188 | a lost hand's original place is popped with it, and the places still to be kept are unchanged |
| Tracking.WithoutMapped | videoTest/interface.py:187-188 | popping a hand from loh and its original place from the list of places keeps every remaining hand at its original place |
| Tracking.AdvanceCounts | videoTest/interface.py:155-188 | after the loop, survivors plus leftover observations number exactly the frame's observations |
| Tracking.AdvanceClaims | videoTest/interface.py:155-188 | every frame position is either claimed by one survivor or left over, never both (a multiset identity over the claimed positions) |
| Tracking.AdvanceOrder | videoTest/interface.py:155-188 | the original places of the survivors are increasing and in range, and leftover observations keep their frame order |
| Tracking.AdvanceLeftovers | videoTest/interface.py:183-188 | each leftover observation is the frame observation at its recorded position |
| Tracking.AdvanceLogged | videoTest/interface.py:155-188 | the whole loop only extends the log, with rows that replay its board change |
| Tracking.Spawn | videoTest/interface.py:192-195 | each leftover observation becomes a fresh hand built as by the hand constructor, in order |
| Tracking.FramePass | videoTest/interface.py:155-188 | the loop over loh for a frame keeps the board's invariant and shape |
| Tracking.Frame | videoTest/interface.py:149-208 | one frame keeps every hand tracked, the board consistent and its shape fixed |
| Tracking.FrameWithoutHands | videoTest/interface.py:203-206 | a frame with no detections empties loh and leaves the board and log alone |
| Tracking.FrameCount | videoTest/interface.py:155-195 | after a non-empty frame that ran to the end, len(loh) equals the number of observations |
| Tracking.FrameClaimsOnce | videoTest/interface.py:183-195 | each position of the frame is claimed by exactly one survivor or left over to spawn a hand, never both and never twice |
| Tracking.FrameOrder | videoTest/interface.py:155-195 | the original places of the survivors are increasing and in range, and the leftovers that spawn hands keep the observations' original order |
| Tracking.SpawnedAfterMarking | videoTest/interface.py:192-202 | after the pair loop, the hand appended for each leftover observation is its new hand, up to spazzing state |
| Tracking.FrameSpawned | videoTest/interface.py:192-195 | after a frame, the hands after the survivors are the new hands of the leftovers, in frame order, up to spazzing state |
| Tracking.FrameMarksOverlaps | videoTest/interface.py:198-202 | at the end of a frame every overlapping pair i < j has both hands spazzing |
| Tracking.FrameLogged | videoTest/interface.py:160-170 | whether or not a board call raised, a frame only extends the log with rows that replay its board change |
| Tracking.ReplayExtends | videoTest/board.py:161-167 | if replaying the log rebuilds the board, it still does after more logged events |
| Tracking.FramesReplay | videoTest/interface.py:160-170 | frame after frame, build_activated applied to the log rebuilds exactly the board the interface built |
| Interface.Session.constructor | videoTest/interface.py:26-30 | a new session has no tracked hands and an empty log |
| Interface.Session.Overlap | videoTest/interface.py:101-109 | the counting loop answers Tracking.Overlap of the two hands |
| Interface.Session.Send | videoTest/interface.py:163-170 | calls remove_single or add_single on the board and appends to the log, exactly as Tracking.Dispatch |
| Interface.Session.RunHand | videoTest/interface.py:157-179 | one hand's turn on the objects gives the hand, board, log and claim of Tracking.Turn |
| Interface.Session.StepHand | videoTest/interface.py:155-179 | the turn of loh[ind] changes only that hand within loh, as Tracking.Turn |
| Interface.Session.DropHand | videoTest/interface.py:187-188 | popping a Hand from loh pops its state and keeps the hands distinct |
| Interface.Session.TrackHands | videoTest/interface.py:152-188 | the while loop over loh leaves hands, leftover observations, board and log as Tracking.Advance; when it runs to the end, the k-th Hand object left in loh is the one that stood at the k-th kept place of the old loh, and there are as many claims as hands |
| Interface.Session.TrackOne | videoTest/interface.py:155-188 | one iteration moves the loop state along as Resume, or ends it on a failed dispatch, and keeps every Hand in loh at its recorded original place |
| Interface.Session.SpawnHands | videoTest/interface.py:192-195 | appends a fresh Hand for every leftover observation, as Tracking.Spawn, leaving the earlier Hand objects in place |
| Interface.Session.MarkHands | videoTest/interface.py:198-202 | the nested pair loop leaves the hands as Tracking.MarkOverlaps |
| Interface.Session.MarkRowLoop | videoTest/interface.py:199-202 | the inner loop leaves the hands as Tracking.MarkRow |
| Interface.Session.MarkPairStep | videoTest/interface.py:200-202 | one overlap test and the two update_spazz calls leave the hands as Tracking.MarkPair |
| Interface.Session.ProcessFrame | videoTest/interface.py:149-208 | one frame on the objects gives the hands, board, log and completion flag of Tracking.Frame; after a full frame the first Hand objects are the survivors, in their old order at the kept places, and the rest are fresh |

## Left out

- Side-length calibration (`set_side_length`, `util.get_side_length`) is left out: `board.py` overwrites the result with 30 anyway. The side, width and height are integer parameters instead of an image.
- `Board.invert` is left out: it is never called, and it indexes `send_info[j]` where `send_info[i][j]` is meant. `tc_to_center` is left out too: it is a one-line helper that nothing calls.
- Everything in cv2 and mediapipe is left out: capture, `hands.process`, drawing (`putText`, the `lod` markers, `drawlines`, `get_half_dimensions`), images passed in and returned, and the parsing of `classification._values`. The `img` parameters of `print_toggle`, `update_interface`, `update_spazz` and `build_activated` are dropped.
- `get_hand_slope` is left out, because `tanh` is floating point and the division can fail. Each observation carries the slope it would compute.
- The `sqrt` in `eud_dist` is replaced by squared comparisons. `Util.DistanceComparisons` shows that they agree with comparisons of the true distance.
- The finger-openness booleans and `p3`, `p4`, `p5` and `alt_pincher` in `is_grabbing` are left out: they are computed but never affect the result.
- Printing and debug output are left out: `__str__`, `__repr__`, `print(count)` in `overlap` and the console messages. The "Send info implementation is not correct" message appears only as the `inconsistent` result of `IsBlockNotAtCenter`, which is proved false.
- The commented-out `main` of `grabDetection.py` is not part of this model.
- The thread pool, `get_frames` and the busy wait in `prompt_measurement` are left out: they are concurrency and user interface. `show_starting_board` is left out: it shows images. The board reaches the session through its constructor.
- The `no_hands` counter is left out: it starts as `True`, and the reset at line 196 only sets a local.
- The hand constructor's `grabbing` argument is always False, because the interface never passes it. `was_there` and `grace_period_reset_toggle` are never read. None of the three is modelled.
- A point that `get_center` cannot map makes the source raise `TypeError` and end `process_image`. The model returns a failure instead: `Unmapped`, `mapped == false`, or `ok == false` for the frame.
- Interface.Session.Overlap: requires `hand1.hl` to be no longer than `hand2.hl`; the source would raise `IndexError` otherwise (every tracked hand has 21 landmarks).
- HandModel.UpdateEverythingLocation: states that `last_loc` is the wrist chosen by the last `find_loc` call, not necessarily the wrist of the returned index, because that is what the code does.
- AdvanceOrder: states order on the survivors' original places (`kept`), not on hand states, because a hand state has nothing that a turn leaves unchanged to identify it by. Interface.Session.TrackHands ties `kept` to the Hand objects: the hand left at place k is the object that stood at `kept[k]`.
- FrameOrder: the same as AdvanceOrder, for a whole frame. Interface.Session.ProcessFrame says that the surviving Hand objects come first, at their kept places and in their old order, and that the rest are new.
- AdvanceClaims: states the claims as frame positions. The k-th claim belongs to the k-th survivor because Advance builds both lists together; Interface.Session.TrackHands proves only that the two lists have the same length. The model does not state which observation a hand claimed in terms of the hand's own state.
- Python's `/` on the side length is modelled as exact real division, and `side // 2` as integer division: the side is positive, so floor and Euclidean division agree.

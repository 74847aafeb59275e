# A verified model of the reserve patch engine of `apc/adf.py`

The animal population of a hunting reserve is saved as an ADF archive. The
archive has four layers:

- a 32-byte outer header;
- a DEFLATE stream, which inflates to a 5-byte inner header;
- the body, which holds arrays of 32-byte animal records;
- header fields inside the body that locate those arrays and count their
  records.

The patch engine of `apc/adf.py` adds animals to a reserve and removes them
from it. It splices records into or out of the body in place, then repairs
every field that depends on where things lie:

- five global size and offset fields;
- the relative start pointer of every array that moved;
- the record count of every array that was edited;
- the two inflated-size fields of the outer header.

## The modules

**`Bytes`** holds the byte model:

- `byte`, and `ByteArray`, a class around a byte sequence that stands for a
  shared `bytearray`;
- little-endian u32 fields with 32-bit wrap-around (`U32`, `ReadU32`,
  `SetU32`);
- Python's clipping slice operations (`Take`, `Drop`, `SliceAssign`).

**`AdfProfile`** holds the values that the profile builder and the array
discovery hand to the engine: the `Profile` of size fields, the `AdfArray`
descriptor, and the 32-byte `AnimalRecord`.

**`Container`** covers splitting an archive into its parts, and
`DecompressedAdfFile.Save`. Save rewrites both size fields of the outer
header when the inflated length changed. Inflate and deflate are function
parameters.

**`Splice`** holds the four primitives. Each is a method on the shared
buffer, specified by a function of the old state:

- `UpdateNonInstanceOffsets`;
- `UpdateInstanceArrays`, the offset cascade;
- `InsertAnimal`;
- `RemoveAnimal`.

Lemmas say what each function does to the bytes.

**`Planning`** holds the pure planning steps:

- eligibility;
- the stable descending sort by start offset;
- the chunking of new records over the eligible arrays;
- the greedy removal plan, which never takes an array's last record of a
  gender.

**`Placement`** holds two closed forms of a body after a series of
splices at offsets found at load time:

- `SplicedAt`: blocks put in at descending offsets;
- `ExcisedAt`: records cut out at descending offsets.

Its lemmas say how one more splice or cut, made in the body the earlier
ones left, extends the closed form. This works because each new offset lies
at or below all earlier ones. They also say that the part of the result
from a bound `h` on depends only on the part of the body from `h` on.

**`Reserve`** holds the loops of the two entry points, phase by phase:

- The cascade loops, one per chunk record or plan entry, are methods proved
  against folds that have the same shape as the loops.
- The insertion loops, at the original ends of the arrays, carry property
  invariants. These cover the counts and the rest of the header part, and
  from the layout bound on they give the body as `SplicedAt` of the body
  as loaded.
- The deletion loops, at the original starts, do the same with `ExcisedAt`.

**`Edits`** holds the entry points themselves:

- `AddAnimalsToReserve`;
- `RemoveAnimalsFromReserve`.

Each ends in one of three ways: an early return (`Unchanged`), an exception
(`Failed`), or the bytes that `save` writes (`Saved`).

The model follows the code where it differs from what the code may seem to
intend:

- Insertions and deletions use the offsets found at load time, not the
  cascaded ones.
- Deletion reads index-list positions `remove_cnt` down to `1`. It never
  reads position 0.
- An empty target array passes its own cascade test, so it is shifted too.
  Arrays listed after it are then compared with its shifted end.
- With no eligible array, the add path has already rewritten the five size
  fields when `math.ceil` divides by zero. This is modelled as the
  `DivisionByZero` failure, not excluded by a precondition.
- A negative removal count plans nothing. It still rewrites the five size
  fields by `+32·|animal_cnt|` and saves.

Some properties need a layout that the archive format gives but the code
never checks. They are stated under a ghost layout bound `h`, which is
switched on by the ghost flag `laid`:

- the count fields are disjoint and clear of the pointer and size fields;
- every header field lies in front of `h` and every record behind it;
- the arrays of the species lie one after another, in the order the code
  visits them;
- each index list ascends from position 1, and its records lie inside their
  array.

Under that layout the model states the following:

- the exact growth and shrinkage of the body;
- the exact count each array ends with;
- from `h` on, where every new record lands and which records are removed.

For the last point, the model gives the body after the edits as a closed
form of the body as loaded. This is why working from the highest offset
down keeps the load-time offsets valid.

## Model

| member | source | states |
|---|---|---|
| Bytes.ByteArray.constructor | apc/adf.py:86 | a fresh buffer holds exactly the given bytes |
| Bytes.U32 | apc/adf.py:122 | `create_u32` gives four bytes |
| Bytes.ReadU32 | apc/adf.py:125 | `read_u32` of four bytes is a value below 2^32 |
| Bytes.ReadU32OfU32 | apc/adf.py:125 | reading back a written u32 gives the value modulo 2^32 |
| Bytes.U32OfReadU32 | apc/adf.py:125 | re-encoding the value four bytes hold gives back those bytes |
| Bytes.U32At | apc/adf.py:125 | a field read from the buffer is a value below 2^32 |
| Bytes.SetU32 | apc/adf.py:122 | `write_value` of a u32 keeps the buffer length |
| Bytes.SetU32Effect | apc/adf.py:122 | after `write_value` the field holds the value modulo 2^32 and every other byte is unchanged |
| Bytes.Take | apc/adf.py:89 | `s[:n]` is a prefix of `s`, of length `n` clipped to the length of `s` |
| Bytes.Drop | apc/adf.py:90 | `s[:n] + s[n:]` is `s` |
| Bytes.SliceAssign | apc/adf.py:127 | slice assignment on a clipped range changes the length by `len(v) - (hi - lo)` |
| Bytes.SliceAssignEffect | apc/adf.py:127 | slice assignment keeps what is before `lo`, puts `v` at `lo`, and moves what followed `hi` up behind `v` |
| Bytes.SetU32Twice | apc/adf.py:125 | the second of two writes to a field wins |
| Bytes.SetU32Unchanged | apc/adf.py:125 | writing back the value a field holds changes nothing |
| Bytes.SetU32BeforeInsertion | apc/adf.py:124-127 | a count write in front of an insertion point commutes with the insertion |
| Bytes.DeleteUndoesInsertion | apc/adf.py:127-132 | deleting the bytes just inserted, at the same place, restores the buffer |
| Container.SplitArchive | apc/adf.py:88-98 | the file is the outer header followed by the rest; the outer header is the first 32 bytes, or the whole file when shorter; inner header plus body is the inflated stream; the inner header is 5 bytes when the stream has them; there is no result exactly when inflate fails |
| Container.PatchSizeFields | apc/adf.py:22-27 | `save` keeps the header when the length is unchanged; a changed length of 2^32 or more makes `struct.pack` fail, and only that gives no header; a patched 32-byte header keeps its length |
| Container.PatchSizeFieldsEffect | apc/adf.py:23-27 | a changed length puts the new size as u32 into bytes [8,12) and [24,28) and leaves every other header byte alone |
| Container.PatchKeepsSizeFieldsConsistent | apc/adf.py:23-27 | if both size fields held the loaded length, both hold the new length after `save` |
| Container.SplitSavedArchive | apc/adf.py:21-28 | splitting a saved archive gives back the header written and the inner header and body saved, given inflate undoes deflate |
| Container.DecompressedAdfFile.constructor | apc/adf.py:12-18 | the loaded size is the length of inner header plus body |
| Container.DecompressedAdfFile.Save | apc/adf.py:20-28 | the header is unchanged when the length is unchanged; otherwise both size fields are patched; the saved bytes are the header followed by `compress(header + data)`; a size of 2^32 or more makes `struct.pack` fail and nothing is saved |
| Container.DecompressAdfFile | apc/adf.py:83-111 | the loaded file's parts are those of the split, its loaded size is their length, and loading fails exactly when inflate fails |
| Placement.SplicedAt | apc/adf.py:127 | splicing blocks in never shortens the body |
| Placement.SplicedAtSnoc | apc/adf.py:127 | one more block, at or below every offset used, put into the spliced body is the closed form with that block added |
| Placement.SplicedAtTail | apc/adf.py:127 | the spliced body from `h` on depends only on the body from `h` on, for offsets at or after `h` |
| Placement.SpliceStep | apc/adf.py:127 | a body that agrees with the closed form from `h` on still does after the same block goes in at both |
| Placement.ExcisedAt | apc/adf.py:132 | cutting k records shortens the body by exactly 32·k |
| Placement.ExcisedAtAppend | apc/adf.py:132 | cutting one list of records and then a list below it is cutting both at once |
| Placement.ExcisedAtSnoc | apc/adf.py:132 | one more cut below every earlier one, made in the cut body, is the closed form with that cut added |
| Placement.ExcisedAtTail | apc/adf.py:132 | the cut body from `h` on depends only on the body from `h` on, for cuts at or after `h` |
| Placement.ExcisedAtKeepsFront | apc/adf.py:132 | bytes in front of every cut keep their place |
| Placement.CutStep | apc/adf.py:132 | a body that agrees with the closed form from `h` on still does after the same record is cut from both |
| Splice.WriteFields | apc/adf.py:121-122 | writing the size fields keeps the buffer length |
| Splice.WriteFieldsSnoc | apc/adf.py:121-122 | writing one more field after a list is writing the longer list |
| Splice.WriteFieldsFrame | apc/adf.py:121-122 | a byte outside every written field keeps its value |
| Splice.WriteFieldsKeepsField | apc/adf.py:121-122 | a field that overlaps no written field keeps its bytes |
| Splice.WriteFieldsKeepsTail | apc/adf.py:121-122 | the size fields, all in front of `h`, leave every byte from `h` on |
| Splice.WriteFieldsValue | apc/adf.py:121-122 | a field not overwritten later holds its profile value plus the delta |
| Splice.NonInstanceFields | apc/adf.py:114-120 | there are five size-dependent fields |
| Splice.UpdateNonInstanceOffsets | apc/adf.py:113-122 | the loop leaves the buffer as writing `profile value + added_size` into the five fields in order |
| Splice.NonInstanceOffsetsEffect | apc/adf.py:113-122 | the length is unchanged; each of the five fields holds u32(profile value + added size), taken from the profile and not read from the buffer; every other byte is unchanged |
| Splice.Moves | apc/adf.py:137 | a placeholder (start 0) never passes the cascade test; against a positive pivot end the test is exactly `start >= pivot end` |
| Splice.PivotEndAt | apc/adf.py:137-140 | the end an array is compared with is the target's end, or that end moved by `size`; it has moved only for arrays after an empty target in the list |
| Splice.MovesAt | apc/adf.py:137 | only non-placeholder arrays move; around a target that is not empty, an array moves exactly when it starts at or after the target's own end |
| Splice.Cascade | apc/adf.py:134-142 | every descriptor is either unchanged or moved by `size`; header positions, original offsets and index lists are kept |
| Splice.CascadeBytes | apc/adf.py:136-142 | the cascade's pointer writes, in list order, keep the buffer length; what they write is stated by `CascadeBytesFrame`, `CascadeBytesMoved` and `CascadeBytesStill` |
| Splice.UpdateInstanceArrays | apc/adf.py:134-142 | the loop returns the cascaded descriptors and leaves the buffer as the cascade's pointer writes, in list order, with no byte inserted or removed |
| Splice.CascadeFixedPivot | apc/adf.py:137-140 | for a target that is not empty, exactly the non-placeholder arrays starting at or after its end move by `size` |
| Splice.CascadeEmptyTarget | apc/adf.py:137-140 | an empty target moves itself; arrays listed before it are tested against its old end, arrays after it against the shifted end |
| Splice.CascadeKeepsOrder | apc/adf.py:137-141 | growing an array keeps arrays that did not overlap from overlapping |
| Splice.CascadeBytesFrame | apc/adf.py:142 | the cascade changes no byte outside the pointer fields of the moved arrays |
| Splice.CascadeBytesMoved | apc/adf.py:142 | a moved array's pointer field holds its new relative start |
| Splice.CascadeBytesStill | apc/adf.py:142 | an array that did not move keeps its pointer field's bytes |
| Splice.CascadeKeepsPointersConsistent | apc/adf.py:136-142 | if every pointer field held its array's relative start before, every one does after |
| Splice.CascadeKeepsPointer | apc/adf.py:136-142 | the same, for one descriptor |
| Splice.InsertedRecord | apc/adf.py:124-127 | inserting a record grows the buffer by 32 bytes |
| Splice.RemovedRecord | apc/adf.py:129-132 | removing a record shrinks the buffer by 32 bytes when the record lies inside it, and never by more |
| Splice.InsertedRecordEffect | apc/adf.py:124-127 | the record sits at the original end; the count rises by one modulo 2^32; earlier bytes stay in place; later bytes move 32 further |
| Splice.InsertedRecordCount | apc/adf.py:125 | the count rises by one modulo 2^32 |
| Splice.InsertedRecordFrame | apc/adf.py:124-127 | a byte in front of the record, outside the count field, is unchanged |
| Splice.InsertedRecordContent | apc/adf.py:127 | from the original end on, the buffer holds the record followed by what was there |
| Splice.InsertedRecordBumps | apc/adf.py:125 | a count field holding u32(v) holds u32(v + 1) afterwards |
| Splice.InsertedRecordKeepsField | apc/adf.py:124-127 | a field in front of the record that does not overlap the count keeps its bytes |
| Splice.RemovedRecordEffect | apc/adf.py:129-132 | the count drops by one modulo 2^32; bytes before the record are kept; what followed the record moves up to its place |
| Splice.RemovedRecordDrops | apc/adf.py:130 | a count field holding u32(v) holds u32(v - 1) afterwards |
| Splice.CountBackAfterIncrement | apc/adf.py:125-130 | a 32-bit count raised and then lowered is back where it was, even across wrap-around |
| Splice.RemoveUndoesInsert | apc/adf.py:124-132 | removing the record just inserted at the same place restores the buffer exactly, count included |
| Splice.UncountInserted | apc/adf.py:124-130 | writing the old count back over an insertion leaves only the spliced record as the difference |
| Splice.InsertAnimal | apc/adf.py:124-127 | `_insert_animal` counts the record and splices it in at the array's original end |
| Splice.RemoveAnimal | apc/adf.py:129-132 | `_remove_animal` uncounts one record and deletes the 32 bytes at original start + 32·index |
| Planning.Filter | apc/adf.py:171 | the eligible positions are exactly the admitted arrays, each once, ascending |
| Planning.InsertByStart | apc/adf.py:172 | the sort's insertion step adds exactly one position |
| Planning.SortByStartDescending | apc/adf.py:172 | the sorted list is a permutation of the eligible list |
| Planning.InsertByStartSorted | apc/adf.py:172 | insertion keeps the order by descending start, ties in list order |
| Planning.SortByStartDescendingSorted | apc/adf.py:172 | the visiting order is sorted by descending start, stable, and has no repeats |
| Planning.SortedByStartUnique | apc/adf.py:172 | two sorted lists of the same positions are equal, so any stable descending sort gives this order |
| Planning.ChunkSize | apc/adf.py:176 | the chunk size is exactly 1 when there are fewer records than arrays; otherwise it is the ceiling of records over arrays. In both cases it is at least 1, enough for every record, and the least such value |
| Planning.Chunks | apc/adf.py:177 | there are ceil(len / n) slices: enough for every record, and one fewer would not be |
| Planning.ChunksPartition | apc/adf.py:177 | the chunks, concatenated in order, are the records; each chunk holds between 1 and n records, and every chunk but the last holds exactly n |
| Planning.ChunkCountFits | apc/adf.py:176-179 | there are never more chunks than eligible arrays, so `eligible_animal_arrays[i]` is in range |
| Planning.Deal | apc/adf.py:176-179 | the dealt chunks concatenate to the records and number no more than the arrays. Each holds 1 to n records and every one but the last exactly n, which fixes the records of every chunk |
| Planning.PlanStep | apc/adf.py:205-218 | one loop iteration adds at most one entry, for the array visited, moving exactly what it takes out of what is left; nothing left means no change; otherwise it takes the lesser of what is left and what the array can spare |
| Planning.PlanPrefix | apc/adf.py:203-218 | after i arrays there are at most i entries, and for a nonnegative request what is left lies between 0 and the request |
| Planning.Spare | apc/adf.py:208-214 | an array that can spare a record holds more than one record and keeps at least one of the gender |
| Planning.TotalSpare | apc/adf.py:203-220 | the arrays visited can spare nothing together exactly when none of them can spare a record |
| Planning.PlanAccounts | apc/adf.py:203-218 | planned counts plus what is left equal `animal_cnt` |
| Planning.PlanEntriesBounded | apc/adf.py:205-218 | every entry names a visited array with more than one record and takes between 1 and gender count − 1 |
| Planning.PlanFollowsOrder | apc/adf.py:200-218 | the entries name arrays in the order the loop visits them, latest start first |
| Planning.PlanTargetsDistinct | apc/adf.py:205-218 | no array is planned twice |
| Planning.PlanLeftover | apc/adf.py:203-220 | for a nonnegative request, what is left is the shortfall of the spare records, so the plan raises exactly when the arrays cannot spare the request |
| Planning.PlanSettled | apc/adf.py:205-207 | once nothing is left, later arrays do not change the plan (the `break`) |
| Planning.PlanNonPositive | apc/adf.py:203-218 | a request of zero or fewer records plans nothing |
| Planning.PlanRemoval | apc/adf.py:203-218 | the planning loop, with its `break`, builds the plan the fold describes |
| Reserve.CascadeStep | apc/adf.py:181 | one cascade keeps the layout, the length, every byte outside pointer fields, and pointer consistency |
| Reserve.CascadeStepKeeps | apc/adf.py:134-142 | the cascade keeps layout, length, non-pointer bytes and pointer consistency |
| Reserve.PhaseKeepsTrans | apc/adf.py:178-181 | those guarantees compose over successive cascades |
| Reserve.CascadeRepeat | apc/adf.py:180-181 | one cascade per record of a chunk keeps the same guarantees |
| Reserve.CascadeChunks | apc/adf.py:178-181 | all cascades of the add path keep the same guarantees |
| Reserve.CascadeEntries | apc/adf.py:224-225 | all cascades of the removal path keep the same guarantees |
| Reserve.ShiftForChunks | apc/adf.py:178-181 | the first add loop leaves descriptors and body as the cascade fold says |
| Reserve.ShiftForChunk | apc/adf.py:180-181 | the inner loop does one cascade per record around the chunk's array |
| Reserve.ShiftForEntries | apc/adf.py:224-225 | the removal cascades leave descriptors and body as the entry fold says |
| Reserve.EntriesShifted | apc/adf.py:224-225 | the removal cascades change no header position, original offset or index list of any descriptor |
| Reserve.InsertChunk | apc/adf.py:184-185 | the body grows by 32 per record; the count rises by the chunk's size; the records sit at the original end, last inserted first; the rest in front is unchanged |
| Reserve.InsertChunkStep | apc/adf.py:185 | one insertion extends that invariant by one record |
| Reserve.InsertChunks | apc/adf.py:182-185 | the body grows by 32 per animal. Under the layout, each eligible count rises by its chunk, the rest of the header part is unchanged, and from `h` on the body is the loaded body with chunk k put in at the original end of the k-th eligible array |
| Reserve.HeaderCountedStart | apc/adf.py:182 | before the insert loop, every count has risen by nothing |
| Reserve.InsertChunkCounts | apc/adf.py:183-185 | one chunk raises only its own array's count |
| Reserve.InsertChunkCountsField | apc/adf.py:183-185 | the same, for one count field |
| Reserve.ChunkEnds | apc/adf.py:183-185 | the insertion offset for chunk k is the original end of the k-th eligible array |
| Reserve.ChunkBlocks | apc/adf.py:184-185 | the block chunk k leaves at its offset is its records, last inserted first |
| Reserve.Stacked | apc/adf.py:184-185 | the records of a chunk inserted one by one at the same offset take 32 bytes each |
| Reserve.StackedAt | apc/adf.py:184-185 | record m of the first k inserted sits at 32·(k − 1 − m): the last inserted comes first |
| Reserve.ChunksLandedStart | apc/adf.py:182 | before the insert loop, nothing has moved |
| Reserve.ChunkLands | apc/adf.py:183-185 | one chunk extends the insert loop invariant, counts and placement both |
| Reserve.InsertChunkLands | apc/adf.py:183-185 | a chunk put in at an end at or below every end used before joins the closed form of the splices |
| Reserve.PickOrder | apc/adf.py:227-231 | deletion reads positions `remove_cnt` down to 1, strictly decreasing, never 0 |
| Reserve.DeleteEntry | apc/adf.py:227-231 | the inner loop succeeds exactly when every position it reads exists, and then reads them in `PickOrder`; on failure nothing was deleted. Under the layout, the body shrinks by 32 per record and the count drops by the records taken. Nothing else changes in front of `h`, and from `h` on the body is the loaded body with exactly the records at positions `remove_cnt` down to 1 cut out |
| Reserve.DeleteEntryStep | apc/adf.py:230 | one deletion extends that invariant by one record |
| Reserve.EntryCuts | apc/adf.py:230-231 | the d-th record cut is at original start + 32 times index-list position `remove_cnt - d` |
| Reserve.EntryGoneStart | apc/adf.py:228 | before the inner loop, nothing is gone |
| Reserve.EntryGoneStep | apc/adf.py:229-231 | one deletion extends the inner loop invariant, count and cuts both |
| Reserve.DeleteEntryLands | apc/adf.py:230-231 | with the index list ascending, each record taken lies in front of those taken before, so its cut joins the closed form |
| Reserve.EntryCutsBehind | apc/adf.py:229-231 | with the index list ascending, the next record the loop takes lies in front of every record it took before, and still inside the body those cuts left |
| Reserve.DeleteEntries | apc/adf.py:226-231 | the delete loop succeeds exactly when every entry's positions exist. Under the layout, the body shrinks by the planned records, each count drops by its entry's count, and from `h` on the body is the loaded body with every entry's records cut out |
| Reserve.DeletedUpToStart | apc/adf.py:226 | before the delete loop, nothing is taken |
| Reserve.DeleteEntryAt | apc/adf.py:227-231 | one entry's deletions succeed exactly when its positions exist, and extend the loop invariant |
| Reserve.PlanCuts | apc/adf.py:226-231 | the offsets the delete loop cuts, entry by entry, number exactly the planned records |
| Reserve.PlanCutsAtLeast | apc/adf.py:226-231 | no record the plan takes lies in front of a bound that every planned array starts at or after |
| Reserve.DeletePlanStep | apc/adf.py:226-231 | with each entry's array in front of the earlier ones, one entry's cuts extend the closed form of the whole plan |
| Reserve.HeaderUncountedStart | apc/adf.py:226 | before the delete loop, every count has dropped by nothing |
| Reserve.DeleteEntryFits | apc/adf.py:227-231 | after earlier entries, each entry still meets the layout its deletions need |
| Reserve.DeleteEntriesStep | apc/adf.py:226-231 | one entry lowers only its own array's count |
| Reserve.DeleteEntriesStepCount | apc/adf.py:226-231 | the same, for one count field |
| Edits.Targets | apc/adf.py:171-172 | the eligible arrays are exactly the admitted ones, each once, latest start first |
| Edits.SaveEdits | apc/adf.py:186 | `save` either patches the size fields for the new length and writes the patched header and the compressed body, or meets the 32-bit overflow, keeps the header and writes nothing |
| Edits.AddAnimalsToReserve | apc/adf.py:160-186 | no animals means `Unchanged` with nothing written; `DivisionByZero` exactly when there are animals and no array of the species. Otherwise the body grows by 32 per animal, the outer header is the size-patched one, and the saved bytes are that header and the compressed body. Under the layout, each eligible count rises by its chunk and every chunk lands at its array's original end. The five size fields hold u32(profile value + 32·`len(animals)`); every pointer field that agreed with its loaded descriptor agrees with the shifted one; every byte in front of `h` outside the size, pointer and eligible count fields reads as loaded |
| Edits.AddRecords | apc/adf.py:174-185 | the body edits succeed exactly when there is an eligible array, and the body grows by 32 per animal. Under the layout, each eligible count rises by its dealt chunk, and from `h` on the body is the loaded body with chunk k put in at the original end of the k-th array visited. The five size fields hold u32(profile value + 32·`len(animals)`); every pointer field that agreed with its loaded descriptor agrees with the shifted one; every byte in front of `h` outside the size, pointer and eligible count fields reads as loaded |
| Edits.AddShifted | apc/adf.py:175-181 | the add path's cascades change no header position, original offset or index list of any descriptor |
| Edits.HeaderRepairedThrough | apc/adf.py:175-185 | when the body edits leave the size and pointer fields alone, the five size fields hold u32(profile value + size); pointer fields that agreed with the loaded descriptors agree with the shifted ones; every other byte in front of `h` reads as loaded |
| Edits.SizeFieldsThrough | apc/adf.py:113-122 | the five size fields survive the cascades and the body edits as written |
| Edits.FieldsHoldAfter | apc/adf.py:121-122 | size fields that share no byte hold u32(profile value + size) in any body that agrees with the written one on them |
| Edits.OthersThrough | apc/adf.py:121-142 | a byte outside the size and pointer fields is not changed by the size fields or the cascades |
| Edits.PointersThrough | apc/adf.py:134-142 | pointer fields that agreed with the loaded descriptors agree with the shifted ones after the body edits |
| Edits.AddHeaderCarries | apc/adf.py:175-185 | after the whole add path, the size fields and pointers are repaired as `HeaderRepaired` says, and every byte in front of `h` outside the size, pointer and eligible count fields reads as loaded |
| Edits.EligibleCountsOff | apc/adf.py:125 | a byte of a size or pointer field lies in no eligible count field |
| Edits.AddLayoutCarries | apc/adf.py:178-185 | the cascades keep the layout that the insertions need |
| Edits.AddEndsDescend | apc/adf.py:172-183 | visited latest start first, arrays laid one after another end no later than those visited before them |
| Edits.TailKept | apc/adf.py:175-181 | the size fields and the cascades change nothing from `h` on |
| Edits.AddPlacementCarries | apc/adf.py:175-185 | the records land where the closed form over the body as loaded says, not only over the body the cascades left |
| Edits.AddCarries | apc/adf.py:175-185 | what the insert loop did to the cascaded body and descriptors, seen from the body and descriptors as loaded: counts, placement, and the repaired size and pointer fields |
| Edits.AddCountsCarry | apc/adf.py:175-185 | the counts found at load time, plus the dealt chunks, are what the eligible count fields hold at the end |
| Edits.CountFieldCarried | apc/adf.py:175-181 | the size fields and the cascades leave each eligible count field unchanged |
| Edits.CountMovedFrom | apc/adf.py:125 | a count field that reads the same in two bodies has risen by as much from either |
| Edits.RemovalPlan | apc/adf.py:199-220 | distinct admitted arrays, each giving 1 to gender count − 1 records, named in visiting order; the planned total plus what is left is the request; the plan falls short exactly when the arrays cannot spare the request; a request of zero or fewer plans nothing |
| Edits.PlanEdges | apc/adf.py:203-220 | the shortfall for a nonnegative request and the empty plan for a non-positive one |
| Edits.RemoveAnimalsFromReserve | apc/adf.py:188-233 | a count of 0 is `Unchanged`; "Not enough animals" is raised exactly when the eligible arrays cannot spare the request, before any write; `IndexError` exactly when an entry takes at least as many records as its index list holds, so that position `remove_cnt` does not exist. Otherwise the outer header is the size-patched one and the saved bytes are that header and the compressed body. Under the layout, the body shrinks by 32 per record, each planned count drops by its entry's count, and from `h` on exactly the planned records are cut out. The five size fields hold u32(profile value − 32·`animal_cnt`); every pointer field that agreed with its loaded descriptor agrees with the shifted one; every byte in front of `h` outside the size, pointer and planned count fields reads as loaded |
| Edits.RemoveRecords | apc/adf.py:222-231 | the edits succeed exactly when every entry's positions exist, and the descriptors returned are those the cascades shift. Under the layout, the body shrinks by the planned records, each count drops by its entry's count, and from `h` on the body is the loaded body with the planned records cut out. The five size fields hold u32(profile value − 32·`animal_cnt`); every pointer field that agreed with its loaded descriptor agrees with the shifted one; every byte in front of `h` outside the size, pointer and planned count fields reads as loaded |
| Edits.DeletePlanned | apc/adf.py:226-231 | after the size fields and cascades, the deletions succeed exactly when every entry's positions exist. Under the layout, the body ends up shorter than at load time by the planned records, each count has dropped by its entry's count, the planned records are cut out of the body as loaded, and the size and pointer fields are repaired as for `RemoveRecords` |
| Edits.EntriesAdmitted | apc/adf.py:199-218 | planned entries name admitted arrays and take 1 to gender count − 1 records |
| Edits.RemovalBoundsCarry | apc/adf.py:224-231 | the cascades keep the index lists and bounds that the deletions need |
| Edits.RemovalLayoutCarries | apc/adf.py:224-231 | the cascades keep the layout that the deletions need |
| Edits.RemovalOrderCarries | apc/adf.py:224-231 | the cascades keep the order the planned arrays lie in and where their records are |
| Edits.RemovalBridge | apc/adf.py:222-225 | the size fields and cascades leave the body equal to the loaded one from `h` on and on every planned count field |
| Edits.PlanCutsSame | apc/adf.py:224-231 | the records the plan cuts are the same for the cascaded descriptors as for the loaded ones |
| Edits.RemovalCarries | apc/adf.py:222-231 | the counts dropped and the records cut in the cascaded body are those of the body as loaded, and the size and pointer fields are repaired |
| Edits.RemovalCascadesKeep | apc/adf.py:224-225 | the removal cascades keep the layout, the length, every byte outside pointer fields, and pointer consistency |
| Edits.RemovalBodyCarries | apc/adf.py:226-231 | the counts dropped and the records cut, stated against the cascaded body, hold against the body as loaded |
| Edits.RemovalHeaderCarries | apc/adf.py:222-231 | after the whole removal path, the size fields and pointers are repaired as `HeaderRepaired` says, and every byte in front of `h` outside the size, pointer and planned count fields reads as loaded |
| Edits.EntryCountsOff | apc/adf.py:130 | a byte of a size or pointer field lies in no planned count field |
| Edits.CountDroppedFrom | apc/adf.py:230 | a count field that reads the same in two bodies has dropped by as much from either |

## Left out

- Outside code, not modelled:
  - file reading and writing, `Path.mkdir`, and the working copies and text dumps written on load;
  - path lookup, including `FileNotFound`;
  - the deca parser with `parse_adf`, `load_adf` and `load_reserve`;
  - `config.RESERVES`: the species' position is the parameter `populationIndex`;
  - all `print` output.
- zlib: inflate and deflate are function parameters. `Container.SplitSavedArchive` assumes inflate undoes deflate, and only for the one stream it is about.
- The unseen helpers of `apc.adf_profile` are taken as inputs:
  - `create_profile` and `find_arrays` are replaced by the `Profile` and `AdfArray` values they would produce;
  - `Animal.to_bytes` is replaced by a 32-byte `AnimalRecord`;
  - `create_u32` is taken as the low 32 bits, little-endian;
  - `write_value` is taken as overwriting four bytes inside the buffer.
- Bytes.SetU32: requires the field to lie inside the buffer. A `write_value` past the end, which a Python slice assignment would turn into an append, is not modelled.
- Planning.ChunkSize: computes `math.ceil(len(animals) / len(eligible))` in exact integers. It does not model floating-point rounding, which only matters above 2^53 records.
- Splice.RemoveAnimal: requires the record offset to be non-negative. Python's counting of negative slice bounds from the end is not modelled.
- Edits.Removable: likewise requires non-negative record indices and original starts.
- Splice.InsertAnimal: requires the original end offset to be non-negative. A negative slice position, which Python counts from the end of the buffer, is not modelled.
- Splice.UpdateInstanceArrays: requires every descriptor's pointer field to lie inside the buffer, including descriptors that do not move. `_update_instance_arrays` writes only the pointer fields of the arrays it moves. The stronger precondition is taken as part of what the array discovery delivers.
- Splice.UpdateInstanceArrays: descriptors are values. The method returns the updated list instead of mutating shared objects. Every later phase is handed that list, so it sees the same descriptors the Python objects would hold.
- Edits.AddAnimalsToReserve: for `DivisionByZero` it does not state the body. Python has already rewritten the five size fields at that point and nothing is saved.
- Edits.AddAnimalsToReserve: the per-array counts, where the records land, the repaired size and pointer fields and the untouched rest of the header part are stated only under the ghost layout `laid`:
  - the count fields must be disjoint, lie in front of `h`, and be clear of the pointer and size fields;
  - every pointer and size field must lie in front of `h`, and no two of them may share a byte;
  - the admitted arrays must lie behind `h`, one after another in visiting order.
- Edits.AddAnimalsToReserve: two admitted arrays with the same start, one of them empty and listed first, fall outside that layout. The stable sort visits the empty one first, even though the other one ends after it.
- Edits.RemoveAnimalsFromReserve: the exact shrinkage of the body, the per-array counts, which records go and the repaired header part are stated only under `laid`:
  - the same layout as for adding is required;
  - each index list must ascend from position 1;
  - the records it names from position 1 on must lie inside their array.

  Without the layout, a deletion past the end of the buffer is clipped.
- Edits.RemoveAnimalsFromReserve: the state the body is left in after an `IndexError` is not stated. It is partly edited and is not saved.
- Reserve.DeleteEntry: the same holds for one entry. Without the layout, only a lower bound on the length is stated.

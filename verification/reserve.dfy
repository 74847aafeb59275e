/** The two reserve edits, `add_animals_to_reserve` and
    `remove_animals_from_reserve`, on a loaded archive. Each runs in phases
    over the body: the five size fields, then the offset cascades, then the
    splices, always at the offsets found when the archive was loaded. The
    cascade loops are proved against folds shaped like them. The insertion
    and deletion loops carry property invariants instead: the counts and
    the rest of the header part, and, from the layout bound on, the body as
    a closed form (`SplicedAt`, `ExcisedAt`) of the body as loaded. */
module Reserve {
  import opened Bytes
  import opened Wrappers
  import opened AdfProfile
  import opened Container
  import opened Splice
  import opened Planning
  import opened Placement

  // ---------------------------------------------------------------------
  // The cascade phase.

  /** The descriptors and the body while an edit runs. */
  datatype Patch = Patch(arrays: seq<AdfArray>, body: seq<byte>)

  /** Byte `q` is not part of any header pointer field. */
  predicate OutsidePointers(arrays: seq<AdfArray>, q: int)
  {
    forall j :: 0 <= j < |arrays| ==> !(arrays[j].headerArrayOffset <= q < arrays[j].headerArrayOffset + 4)
  }

  /** What the cascades keep between `p` and `r`: the layout, the length of
      the body, every byte outside the pointer fields and the agreement of
      the pointer fields with the descriptors. */
  predicate PhaseKeeps(p: Patch, r: Patch)
  {
    SameLayout(r.arrays, p.arrays) && |r.body| == |p.body| &&
    (forall q :: 0 <= q < |p.body| && OutsidePointers(p.arrays, q) ==> r.body[q] == p.body[q]) &&
    (PointersConsistent(p.arrays, p.body) && HeadersDisjoint(p.arrays) ==> PointersConsistent(r.arrays, r.body))
  }

  /** One `_update_instance_arrays` call on target `t`. */
  function CascadeStep(p: Patch, t: nat, size: int): (r: Patch)
    requires t < |p.arrays| && HeadersInBounds(p.arrays, |p.body|)
    ensures PhaseKeeps(p, r)
  {
    var r := Patch(Cascade(p.arrays, t, size), CascadeBytes(p.arrays, t, size, p.body, |p.arrays|));
    CascadeStepKeeps(p, t, size);
    r
  }

  lemma {:induction false} CascadeStepKeeps(p: Patch, t: nat, size: int)
    requires t < |p.arrays| && HeadersInBounds(p.arrays, |p.body|)
    ensures PhaseKeeps(p, Patch(Cascade(p.arrays, t, size), CascadeBytes(p.arrays, t, size, p.body, |p.arrays|)))
  {
    forall q | 0 <= q < |p.body| && OutsidePointers(p.arrays, q)
      ensures CascadeBytes(p.arrays, t, size, p.body, |p.arrays|)[q] == p.body[q]
    {
      CascadeBytesFrame(p.arrays, t, size, p.body, |p.arrays|, q);
    }
    if PointersConsistent(p.arrays, p.body) && HeadersDisjoint(p.arrays) {
      CascadeKeepsPointersConsistent(p.arrays, t, size, p.body);
    }
  }

  lemma {:induction false} PhaseKeepsTrans(a: Patch, b: Patch, c: Patch)
    requires PhaseKeeps(a, b) && PhaseKeeps(b, c)
    ensures PhaseKeeps(a, c)
  {
    forall q | 0 <= q < |a.body| && OutsidePointers(a.arrays, q)
      ensures c.body[q] == a.body[q]
    {
      assert OutsidePointers(b.arrays, q);
    }
  }

  /** `n` cascades on target `t`, each by `size`: the inner loop of the add
      path, one cascade per record of a chunk. */
  function CascadeRepeat(p: Patch, t: nat, size: int, n: nat): (r: Patch)
    requires t < |p.arrays| && HeadersInBounds(p.arrays, |p.body|)
    ensures PhaseKeeps(p, r)
    decreases n
  {
    if n == 0 then p
    else
      var q := CascadeRepeat(p, t, size, n - 1);
      var r := CascadeStep(q, t, size);
      PhaseKeepsTrans(p, q, r);
      r
  }

  /** The cascades of the add path after `i` chunks: every record of chunk
      `k` shifts around the `k`th eligible array by one record's size. */
  function CascadeChunks(p: Patch, eligible: seq<nat>, chunks: seq<seq<AnimalRecord>>, i: nat): (r: Patch)
    requires InRange(eligible, |p.arrays|) && HeadersInBounds(p.arrays, |p.body|)
    requires i <= |chunks| <= |eligible|
    ensures PhaseKeeps(p, r)
  {
    if i == 0 then p
    else
      var q := CascadeChunks(p, eligible, chunks, i - 1);
      var r := CascadeRepeat(q, eligible[i - 1], AnimalSize, |chunks[i - 1]|);
      PhaseKeepsTrans(p, q, r);
      r
  }

  /** Every entry names one of `n` arrays. */
  predicate TargetsIn(entries: seq<Planned>, n: int)
  {
    forall k :: 0 <= k < |entries| ==> entries[k].target < n
  }

  /** The shift that taking `count` records out of an array causes. */
  function Shrink(count: int): int
  {
    -(AnimalSize * count)
  }

  /** The cascades of the removal path after `i` plan entries: one per
      entry, around its array, by minus the size of the records it takes. */
  function CascadeEntries(p: Patch, entries: seq<Planned>, i: nat): (r: Patch)
    requires HeadersInBounds(p.arrays, |p.body|) && i <= |entries|
    requires TargetsIn(entries, |p.arrays|)
    ensures PhaseKeeps(p, r)
  {
    if i == 0 then p
    else
      var q := CascadeEntries(p, entries, i - 1);
      var r := CascadeStep(q, entries[i - 1].target, Shrink(entries[i - 1].count));
      PhaseKeepsTrans(p, q, r);
      r
  }

  /** The descriptors alone after the cascades of the first `i` plan
      entries: the bytes the cascades write play no part in them. */
  function EntriesShifted(arrays: seq<AdfArray>, entries: seq<Planned>, i: nat): (r: seq<AdfArray>)
    requires i <= |entries| && TargetsIn(entries, |arrays|)
    ensures SameLayout(r, arrays)
  {
    if i == 0 then arrays
    else Cascade(EntriesShifted(arrays, entries, i - 1), entries[i - 1].target, Shrink(entries[i - 1].count))
  }

  /** The first loop of the add path: one `_update_instance_arrays` call
      per record, around the eligible array its chunk goes to. The
      descriptors and the body end as `CascadeChunks` says. */
  method ShiftForChunks(data: ByteArray, arrays: seq<AdfArray>, eligible: seq<nat>, chunks: seq<seq<AnimalRecord>>)
    returns (shifted: seq<AdfArray>)
    requires InRange(eligible, |arrays|) && HeadersInBounds(arrays, |data.bytes|)
    requires |chunks| <= |eligible|
    modifies data
    ensures Patch(shifted, data.bytes) == CascadeChunks(Patch(arrays, old(data.bytes)), eligible, chunks, |chunks|)
  {
    ghost var p := Patch(arrays, data.bytes);
    shifted := arrays;
    for i := 0 to |chunks|
      invariant Patch(shifted, data.bytes) == CascadeChunks(p, eligible, chunks, i)
    {
      shifted := ShiftForChunk(data, shifted, eligible[i], |chunks[i]|);
    }
  }

  /** The inner loop of the first loop of the add path: one
      `_update_instance_arrays` call per record of a chunk bound for the
      array at position `t`. */
  method ShiftForChunk(data: ByteArray, arrays: seq<AdfArray>, t: nat, count: nat)
    returns (shifted: seq<AdfArray>)
    requires t < |arrays| && HeadersInBounds(arrays, |data.bytes|)
    modifies data
    ensures Patch(shifted, data.bytes) == CascadeRepeat(Patch(arrays, old(data.bytes)), t, AnimalSize, count)
  {
    ghost var q := Patch(arrays, data.bytes);
    shifted := arrays;
    for j := 0 to count
      invariant Patch(shifted, data.bytes) == CascadeRepeat(q, t, AnimalSize, j)
    {
      shifted := UpdateInstanceArrays(data, shifted, t, AnimalSize);
    }
  }

  /** The second loop of the removal path: one `_update_instance_arrays`
      call per plan entry, by minus the size of the records it takes. */
  method ShiftForEntries(data: ByteArray, arrays: seq<AdfArray>, entries: seq<Planned>)
    returns (shifted: seq<AdfArray>)
    requires HeadersInBounds(arrays, |data.bytes|)
    requires TargetsIn(entries, |arrays|)
    modifies data
    ensures Patch(shifted, data.bytes) == CascadeEntries(Patch(arrays, old(data.bytes)), entries, |entries|)
    ensures shifted == EntriesShifted(arrays, entries, |entries|)
  {
    ghost var p := Patch(arrays, data.bytes);
    shifted := arrays;
    for i := 0 to |entries|
      invariant Patch(shifted, data.bytes) == CascadeEntries(p, entries, i)
      invariant shifted == EntriesShifted(arrays, entries, i)
    {
      shifted := UpdateInstanceArrays(data, shifted, entries[i].target, Shrink(entries[i].count));
    }
  }

  // ---------------------------------------------------------------------
  // The insert phase of the add path.

  /** The records of `chunk[..k]` as they stand after being inserted one by
      one at the same offset: each new one lands in front of the ones before
      it, so the last inserted comes first. */
  function Stacked(chunk: seq<AnimalRecord>, k: nat): (r: seq<byte>)
    requires k <= |chunk|
    ensures |r| == AnimalSize * k
  {
    if k == 0 then [] else chunk[k - 1] + Stacked(chunk, k - 1)
  }

  /** Where each record sits in the stack: record `m` of the first `k`
      fills the 32 bytes at `32 * (k - 1 - m)`. */
  lemma {:induction false} StackedAt(chunk: seq<AnimalRecord>, k: nat, m: nat)
    requires m < k <= |chunk|
    ensures Stacked(chunk, k)[AnimalSize * (k - 1 - m)..AnimalSize * (k - m)] == chunk[m]
  {
    if m < k - 1 {
      StackedAt(chunk, k - 1, m);
      var rest: seq<byte> := Stacked(chunk, k - 1);
      assert (chunk[k - 1] + rest)[AnimalSize * (k - 1 - m)..AnimalSize * (k - m)] ==
             rest[AnimalSize * (k - 2 - m)..AnimalSize * (k - 1 - m)];
    }
  }

  /** The array's count field lies in front of its original end, inside a
      body of length `n`: the layout every archive the engine loads has. */
  predicate CountBeforeEnd(a: AdfArray, n: int)
  {
    0 <= a.headerLengthOffset && a.headerLengthOffset + 4 <= a.arrayOrgEndOffset <= n
  }

  /** The count field at offset `o` of body `r` holds the one of body `s`
      raised by `added`, in 32-bit arithmetic. */
  predicate CountMoved(s: seq<byte>, r: seq<byte>, o: int, added: int)
  {
    FieldInBounds(o, |s|) && o + 4 <= |r| && r[o..o + 4] == U32(U32At(s, o) + added)
  }

  /** The count field at offset `o` of body `r` holds the one of body `s`
      lowered by `taken`, in 32-bit arithmetic. */
  predicate CountDropped(s: seq<byte>, r: seq<byte>, o: int, taken: int)
  {
    FieldInBounds(o, |s|) && o + 4 <= |r| && r[o..o + 4] == U32(U32At(s, o) - taken)
  }

  /** What inserting `k` records of `chunk` into array `a` does to body `s`,
      giving `r`: the count field holds the old count plus `k`, the records
      sit at the array's original end (last inserted first), and every other
      byte in front of that end is as it was. */
  predicate ChunkInserted(s: seq<byte>, r: seq<byte>, a: AdfArray, chunk: seq<AnimalRecord>, k: nat)
    requires CountBeforeEnd(a, |s|) && k <= |chunk| && |r| == |s| + AnimalSize * k
  {
    var lenOff := a.headerLengthOffset;
    var at := a.arrayOrgEndOffset;
    CountMoved(s, r, lenOff, k) &&
    r[at..] == Stacked(chunk, k) + s[at..] &&
    forall q :: 0 <= q < at && !(lenOff <= q < lenOff + 4) ==> r[q] == s[q]
  }

  /** The inner loop of the insert phase: `_insert_animal` for each record
      of the chunk, in order, all at the array's original end. */
  method InsertChunk(data: ByteArray, chunk: seq<AnimalRecord>, a: AdfArray)
    requires FieldInBounds(a.headerLengthOffset, |data.bytes|) && a.arrayOrgEndOffset >= 0
    modifies data
    ensures |data.bytes| == |old(data.bytes)| + AnimalSize * |chunk|
    ensures CountBeforeEnd(a, |old(data.bytes)|) ==> ChunkInserted(old(data.bytes), data.bytes, a, chunk, |chunk|)
  {
    ghost var s := data.bytes;
    var lenOff := a.headerLengthOffset;
    var at := a.arrayOrgEndOffset;
    if CountBeforeEnd(a, |s|) {
      U32OfReadU32(s[lenOff..lenOff + 4]);
      assert s[at..] == Stacked(chunk, 0) + s[at..];
    }
    for j := 0 to |chunk|
      invariant |data.bytes| == |s| + AnimalSize * j
      invariant CountBeforeEnd(a, |s|) ==> ChunkInserted(s, data.bytes, a, chunk, j)
    {
      ghost var prev := data.bytes;
      InsertAnimal(data, chunk[j], a);
      if CountBeforeEnd(a, |s|) {
        InsertChunkStep(s, prev, a, chunk, j);
      }
    }
  }

  /** One record's step of the invariant of `InsertChunk`. */
  lemma {:induction false} InsertChunkStep(s: seq<byte>, prev: seq<byte>, a: AdfArray, chunk: seq<AnimalRecord>, j: nat)
    requires CountBeforeEnd(a, |s|) && j < |chunk| && |prev| == |s| + AnimalSize * j
    requires ChunkInserted(s, prev, a, chunk, j)
    ensures ChunkInserted(s, InsertedRecord(prev, a.headerLengthOffset, a.arrayOrgEndOffset, chunk[j]), a, chunk, j + 1)
  {
    var lenOff := a.headerLengthOffset;
    var at := a.arrayOrgEndOffset;
    var r := InsertedRecord(prev, lenOff, at, chunk[j]);
    InsertedRecordBumps(prev, lenOff, at, chunk[j], U32At(s, lenOff) + j);
    InsertedRecordContent(prev, lenOff, at, chunk[j]);
    assert r[at..] == Stacked(chunk, j + 1) + s[at..] by {
      assert Stacked(chunk, j + 1) == chunk[j] + Stacked(chunk, j);
    }
    forall q | 0 <= q < at && !(lenOff <= q < lenOff + 4)
      ensures r[q] == s[q]
    {
      InsertedRecordFrame(prev, lenOff, at, chunk[j], q);
    }
  }

  /** Every array of `eligible` has its count field inside a body of length
      `n` and a non-negative original end. */
  predicate Insertable(arrays: seq<AdfArray>, eligible: seq<nat>, n: int)
    requires InRange(eligible, |arrays|)
  {
    forall k :: 0 <= k < |eligible| ==>
      FieldInBounds(arrays[eligible[k]].headerLengthOffset, n) && arrays[eligible[k]].arrayOrgEndOffset >= 0
  }

  /** The number of records in the first `i` chunks. */
  function RecordsIn(chunks: seq<seq<AnimalRecord>>, i: nat): nat
    requires i <= |chunks|
  {
    if i == 0 then 0 else RecordsIn(chunks, i - 1) + |chunks[i - 1]|
  }

  /** Counting the chunks one by one counts the flattened records. */
  lemma {:induction false} RecordsInFlatten(chunks: seq<seq<AnimalRecord>>, i: nat)
    requires i <= |chunks|
    ensures RecordsIn(chunks, i) + |Flatten(chunks[i..])| == |Flatten(chunks)|
  {
    if i > 0 {
      RecordsInFlatten(chunks, i - 1);
      assert chunks[i - 1..][1..] == chunks[i..];
    } else {
      assert chunks[0..] == chunks;
    }
  }

  /** The count field of every eligible array lies before the header bound
      `h`, and `h` before the array's original end, inside a body of length
      `n`; no two of these count fields overlap. */
  predicate CountFieldsBelow(arrays: seq<AdfArray>, eligible: seq<nat>, h: int, n: int)
    requires InRange(eligible, |arrays|)
  {
    h <= n &&
    (forall k :: 0 <= k < |eligible| ==>
      0 <= arrays[eligible[k]].headerLengthOffset && arrays[eligible[k]].headerLengthOffset + 4 <= h <= arrays[eligible[k]].arrayOrgEndOffset <= n) &&
    (forall k, l :: 0 <= k < l < |eligible| ==>
      !Overlap(arrays[eligible[k]].headerLengthOffset, arrays[eligible[l]].headerLengthOffset))
  }

  /** Byte `q` is not part of the count field of any eligible array. */
  predicate OutsideCounts(arrays: seq<AdfArray>, eligible: seq<nat>, q: int)
    requires InRange(eligible, |arrays|)
  {
    forall k :: 0 <= k < |eligible| ==>
      !(arrays[eligible[k]].headerLengthOffset <= q < arrays[eligible[k]].headerLengthOffset + 4)
  }

  /** The records the first `i` chunks add to the `k`th eligible array:
      chunk `k` if it is among them, nothing otherwise. */
  function AddedBy(chunks: seq<seq<AnimalRecord>>, i: nat, k: nat): nat
    requires i <= |chunks|
  {
    if k < i then |chunks[k]| else 0
  }

  /** What the first `i` chunks do to the header part of body `s` (the bytes
      before the header bound `h`), giving `r`: the count of each eligible
      array has grown by what those chunks add to it, and every other byte
      there is as it was. */
  predicate HeaderCounted(s: seq<byte>, r: seq<byte>, arrays: seq<AdfArray>, eligible: seq<nat>,
                          chunks: seq<seq<AnimalRecord>>, i: nat, h: int)
    requires InRange(eligible, |arrays|) && i <= |chunks| && CountFieldsBelow(arrays, eligible, h, |s|) && |r| >= |s|
  {
    (forall k :: 0 <= k < |eligible| ==>
      CountMoved(s, r, arrays[eligible[k]].headerLengthOffset, AddedBy(chunks, i, k))) &&
    (forall q :: 0 <= q < h && OutsideCounts(arrays, eligible, q) ==> r[q] == s[q])
  }

  /** The original ends of the first `i` eligible arrays, where their
      chunks go. */
  function ChunkEnds(arrays: seq<AdfArray>, eligible: seq<nat>, i: nat): (r: seq<int>)
    requires InRange(eligible, |arrays|) && i <= |eligible|
    ensures |r| == i && forall k :: 0 <= k < i ==> r[k] == arrays[eligible[k]].arrayOrgEndOffset
  {
    seq(i, k requires 0 <= k < i => arrays[eligible[k]].arrayOrgEndOffset)
  }

  /** The bytes each of the first `i` chunks leaves at its array's end. */
  function ChunkBlocks(chunks: seq<seq<AnimalRecord>>, i: nat): (r: seq<seq<byte>>)
    requires i <= |chunks|
    ensures |r| == i && forall k :: 0 <= k < i ==> r[k] == Stacked(chunks[k], |chunks[k]|)
  {
    seq(i, k requires 0 <= k < i => Stacked(chunks[k], |chunks[k]|))
  }

  /** The eligible arrays end no later than the ones visited before them,
      as arrays laid out one after another and visited latest first do. */
  predicate EndsDescend(arrays: seq<AdfArray>, eligible: seq<nat>)
    requires InRange(eligible, |arrays|)
  {
    forall k, l :: 0 <= k < l < |eligible| ==>
      arrays[eligible[l]].arrayOrgEndOffset <= arrays[eligible[k]].arrayOrgEndOffset
  }

  /** Where the first `i` chunks are in body `r`, made from `s`: from the
      header bound `h` on, `r` is `s` with each chunk's records in at the
      original end of its array, as they stand after insertion. */
  predicate ChunksPlaced(s: seq<byte>, r: seq<byte>, arrays: seq<AdfArray>, eligible: seq<nat>,
                         chunks: seq<seq<AnimalRecord>>, i: nat, h: nat)
  {
    InRange(eligible, |arrays|) && i <= |chunks| && i <= |eligible| && h <= |s| && h <= |r| &&
    SpliceFits(ChunkEnds(arrays, eligible, i), |s|) &&
    r[h..] == SplicedAt(s, ChunkEnds(arrays, eligible, i), ChunkBlocks(chunks, i))[h..]
  }

  /** What the first `i` chunks have done to body `r`, made from `s`, under
      the layout bound `h`: the counts and the rest of the header part as
      `HeaderCounted` says, the records where `ChunksPlaced` says. */
  predicate ChunksLanded(s: seq<byte>, r: seq<byte>, arrays: seq<AdfArray>, eligible: seq<nat>,
                         chunks: seq<seq<AnimalRecord>>, i: nat, h: nat)
  {
    InRange(eligible, |arrays|) && i <= |chunks| && CountFieldsBelow(arrays, eligible, h, |s|) && |r| >= |s| &&
    HeaderCounted(s, r, arrays, eligible, chunks, i, h) &&
    ChunksPlaced(s, r, arrays, eligible, chunks, i, h)
  }

  /** The second loop of the add path: chunk `k` inserted, record by record,
      at the original end of the `k`th eligible array. The body grows by one
      record per animal, and under the layout the chunks land as
      `ChunksLanded` says. */
  method InsertChunks(data: ByteArray, arrays: seq<AdfArray>, eligible: seq<nat>, chunks: seq<seq<AnimalRecord>>,
                      ghost h: nat, ghost laid: bool)
    requires InRange(eligible, |arrays|) && |chunks| <= |eligible| && Insertable(arrays, eligible, |data.bytes|)
    requires laid ==> CountFieldsBelow(arrays, eligible, h, |data.bytes|) && EndsDescend(arrays, eligible)
    modifies data
    ensures |data.bytes| == |old(data.bytes)| + AnimalSize * |Flatten(chunks)|
    ensures laid ==> ChunksLanded(old(data.bytes), data.bytes, arrays, eligible, chunks, |chunks|, h)
  {
    ghost var s := data.bytes;
    if laid {
      ChunksLandedStart(s, arrays, eligible, chunks, h);
    }
    for i := 0 to |chunks|
      invariant |data.bytes| == |s| + AnimalSize * RecordsIn(chunks, i)
      invariant laid ==> ChunksLanded(s, data.bytes, arrays, eligible, chunks, i, h)
    {
      ghost var prev := data.bytes;
      var a := arrays[eligible[i]];
      assert FieldInBounds(a.headerLengthOffset, |s|) && a.arrayOrgEndOffset >= 0;
      InsertChunk(data, chunks[i], a);
      if laid {
        ChunkLands(s, prev, data.bytes, arrays, eligible, chunks, i, h);
      }
    }
    RecordsInFlatten(chunks, |chunks|);
  }

  /** Before any chunk, nothing has moved. */
  lemma {:induction false} ChunksLandedStart(s: seq<byte>, arrays: seq<AdfArray>, eligible: seq<nat>,
                                             chunks: seq<seq<AnimalRecord>>, h: nat)
    requires InRange(eligible, |arrays|) && CountFieldsBelow(arrays, eligible, h, |s|)
    ensures ChunksLanded(s, s, arrays, eligible, chunks, 0, h)
  {
    HeaderCountedStart(s, arrays, eligible, chunks, h);
    assert ChunkEnds(arrays, eligible, 0) == [] && ChunkBlocks(chunks, 0) == [];
  }

  /** One chunk's step of `ChunksLanded`. */
  lemma {:induction false} ChunkLands(s: seq<byte>, prev: seq<byte>, r: seq<byte>, arrays: seq<AdfArray>, eligible: seq<nat>,
                                      chunks: seq<seq<AnimalRecord>>, i: nat, h: nat)
    requires InRange(eligible, |arrays|) && i < |chunks| <= |eligible| && EndsDescend(arrays, eligible)
    requires ChunksLanded(s, prev, arrays, eligible, chunks, i, h)
    requires |r| == |prev| + AnimalSize * |chunks[i]|
    requires ChunkInserted(prev, r, arrays[eligible[i]], chunks[i], |chunks[i]|)
    ensures ChunksLanded(s, r, arrays, eligible, chunks, i + 1, h)
  {
    InsertChunkCounts(s, prev, r, arrays, eligible, chunks, i, h);
    InsertChunkLands(s, prev, r, arrays, eligible, chunks, i, h);
  }

  /** One chunk's step of `ChunksPlaced` in `InsertChunks`: the chunk goes in
      at its array's end, at or below every end used before, so in the
      closed form it joins the others. */
  lemma {:induction false} InsertChunkLands(s: seq<byte>, prev: seq<byte>, r: seq<byte>, arrays: seq<AdfArray>, eligible: seq<nat>,
                         chunks: seq<seq<AnimalRecord>>, i: nat, h: nat)
    requires InRange(eligible, |arrays|) && i < |chunks| <= |eligible|
    requires CountFieldsBelow(arrays, eligible, h, |s|) && EndsDescend(arrays, eligible) && |prev| >= |s|
    requires ChunksPlaced(s, prev, arrays, eligible, chunks, i, h)
    requires |r| == |prev| + AnimalSize * |chunks[i]|
    requires ChunkInserted(prev, r, arrays[eligible[i]], chunks[i], |chunks[i]|)
    ensures ChunksPlaced(s, r, arrays, eligible, chunks, i + 1, h)
  {
    var a := arrays[eligible[i]];
    var ends, blocks := ChunkEnds(arrays, eligible, i), ChunkBlocks(chunks, i);
    var p, b := a.arrayOrgEndOffset, Stacked(chunks[i], |chunks[i]|);
    assert ChunkEnds(arrays, eligible, i + 1) == ends + [p];
    assert ChunkBlocks(chunks, i + 1) == blocks + [b];
    assert AtLeast(ends, p);
    SplicedAtSnoc(s, ends, blocks, p, b);
    var x := SplicedAt(s, ends, blocks);
    assert |prev| == |x| by {
      assert |prev[h..]| == |x[h..]|;
    }
    SpliceStep(prev, r, x, b, h, p);
  }

  /** Before any chunk, the header part is counted as it stands. */
  lemma {:induction false} HeaderCountedStart(s: seq<byte>, arrays: seq<AdfArray>, eligible: seq<nat>, chunks: seq<seq<AnimalRecord>>, h: int)
    requires InRange(eligible, |arrays|) && CountFieldsBelow(arrays, eligible, h, |s|)
    ensures HeaderCounted(s, s, arrays, eligible, chunks, 0, h)
  {
    forall k | 0 <= k < |eligible|
      ensures CountMoved(s, s, arrays[eligible[k]].headerLengthOffset, AddedBy(chunks, 0, k))
    {
      U32OfReadU32(s[arrays[eligible[k]].headerLengthOffset..arrays[eligible[k]].headerLengthOffset + 4]);
    }
  }

  /** One chunk's step of the invariant of `InsertChunks`. */
  lemma {:induction false} InsertChunkCounts(s: seq<byte>, prev: seq<byte>, r: seq<byte>, arrays: seq<AdfArray>, eligible: seq<nat>,
                          chunks: seq<seq<AnimalRecord>>, i: nat, h: int)
    requires InRange(eligible, |arrays|) && i < |chunks| <= |eligible|
    requires CountFieldsBelow(arrays, eligible, h, |s|) && |prev| >= |s|
    requires HeaderCounted(s, prev, arrays, eligible, chunks, i, h)
    requires |r| == |prev| + AnimalSize * |chunks[i]|
    requires ChunkInserted(prev, r, arrays[eligible[i]], chunks[i], |chunks[i]|)
    ensures HeaderCounted(s, r, arrays, eligible, chunks, i + 1, h)
  {
    var a := arrays[eligible[i]];
    forall k | 0 <= k < |eligible|
      ensures CountMoved(s, r, arrays[eligible[k]].headerLengthOffset, AddedBy(chunks, i + 1, k))
    {
      var o := arrays[eligible[k]].headerLengthOffset;
      if k != i {
        assert !Overlap(o, a.headerLengthOffset) by {
          if k < i {
            assert !Overlap(o, arrays[eligible[i]].headerLengthOffset);
          } else {
            assert !Overlap(arrays[eligible[i]].headerLengthOffset, o);
          }
        }
      }
      InsertChunkCountsField(s, prev, r, a, chunks[i], o, AddedBy(chunks, i, k), AddedBy(chunks, i + 1, k), k == i);
    }
    forall q | 0 <= q < h && OutsideCounts(arrays, eligible, q)
      ensures r[q] == s[q]
    {
      assert !(a.headerLengthOffset <= q < a.headerLengthOffset + 4);
    }
  }

  /** ... one count field at offset `o` at a time: the chunk's own array
      gains its records, any other keeps what it had. */
  lemma {:induction false} InsertChunkCountsField(s: seq<byte>, prev: seq<byte>, r: seq<byte>, a: AdfArray, chunk: seq<AnimalRecord>,
                               o: int, before: nat, after: nat, own: bool)
    requires CountBeforeEnd(a, |prev|) && |r| == |prev| + AnimalSize * |chunk|
    requires ChunkInserted(prev, r, a, chunk, |chunk|)
    requires FieldInBounds(o, |s|) && o + 4 <= a.arrayOrgEndOffset && |prev| >= |s|
    requires CountMoved(s, prev, o, before)
    requires own ==> o == a.headerLengthOffset && before == 0 && after == |chunk|
    requires !own ==> !Overlap(o, a.headerLengthOffset) && after == before
    ensures CountMoved(s, r, o, after)
  {
    if own {
      FieldOfU32(prev, o, U32At(s, o));
    } else {
      assert r[o..o + 4] == prev[o..o + 4] by {
        assert forall q :: o <= q < o + 4 ==> r[q] == prev[q];
      }
    }
  }

  // ---------------------------------------------------------------------
  // The delete phase of the removal path.

  /** The positions of the index list that the deletion loop for an entry
      of `removeCnt` records reads, in order: `removeCnt`, `removeCnt - 1`,
      ..., `1`. Position 0 is never read. */
  function PickOrder(removeCnt: nat): (r: seq<nat>)
    ensures |r| == removeCnt
    ensures forall k :: 0 <= k < removeCnt ==> 1 <= r[k] <= removeCnt
    ensures forall k, l :: 0 <= k < l < removeCnt ==> r[k] > r[l]
  {
    seq(removeCnt, k requires 0 <= k < removeCnt => removeCnt - k)
  }

  predicate NonNegative(indices: seq<int>)
  {
    forall k :: 0 <= k < |indices| ==> indices[k] >= 0
  }

  /** The index list is strictly ascending from position 1 on, as the
      positions of an array's records of one gender are. */
  predicate AscendingFrom1(indices: seq<int>)
  {
    forall p, q :: 1 <= p < q < |indices| ==> indices[p] < indices[q]
  }

  /** The offsets of the first `d` records the deletion loop for an entry
      of `removeCnt` records takes out, in the order it takes them. */
  function EntryCuts(a: AdfArray, indices: seq<int>, removeCnt: nat, d: nat): (r: seq<int>)
    requires d <= removeCnt && (d == 0 || removeCnt < |indices|)
    ensures |r| == d && forall j :: 0 <= j < d ==> r[j] == RecordOffset(a, indices[removeCnt - j])
  {
    seq(d, j requires 0 <= j < d => RecordOffset(a, indices[removeCnt - j]))
  }

  /** Where the first `d` deletions leave body `r`, made from `s`: from the
      header bound `h` on, `r` is `s` with those records cut out. */
  predicate EntryCut(s: seq<byte>, r: seq<byte>, a: AdfArray, indices: seq<int>, removeCnt: nat, d: nat, h: nat)
  {
    d <= removeCnt && (d == 0 || removeCnt < |indices|) && h <= |s| - AnimalSize * d && h <= |r| &&
    CutsFit(EntryCuts(a, indices, removeCnt, d), |s|) &&
    r[h..] == ExcisedAt(s, EntryCuts(a, indices, removeCnt, d))[h..]
  }

  /** What deleting `d` records of array `a` does to body `s`, giving `r`,
      below the header bound `h`: the count field holds the old count minus
      `d`, and every other byte before `h` is as it was. */
  predicate EntryDeleted(s: seq<byte>, r: seq<byte>, a: AdfArray, d: nat, h: int)
    requires FieldInBounds(a.headerLengthOffset, |s|) && FieldInBounds(a.headerLengthOffset, |r|)
    requires h <= |s| && h <= |r|
  {
    var lenOff := a.headerLengthOffset;
    CountDropped(s, r, lenOff, d) &&
    forall q :: 0 <= q < h && !(lenOff <= q < lenOff + 4) ==> r[q] == s[q]
  }

  /** Array `a` lies behind the header bound `h` in a body of length `n`:
      its count field in front of `h`, its records between `h` and the end. */
  predicate LaidBehind(a: AdfArray, h: int, n: int)
  {
    a.headerLengthOffset + 4 <= h <= a.arrayOrgStartOffset <= a.arrayOrgEndOffset <= n
  }

  /** Every record the index list names from position 1 on lies inside
      array `a`. */
  predicate RecordsInside(a: AdfArray, indices: seq<int>)
  {
    forall p :: 1 <= p < |indices| ==> RecordOffset(a, indices[p]) + AnimalSize <= a.arrayOrgEndOffset
  }

  /** The inner loop of the delete phase: `_remove_animal` on the records
      at positions `removeCnt`, ..., `1` of the index list, each counted from
      the array's original start. Reading past the end of the list raises
      before anything is deleted, since the first position read is the
      largest. Under the layout bound `h` (the count field in front of it,
      the array behind it and inside the body, the records named inside the
      array) the body shrinks by one record per deletion and only the count field
      changes in front of `h`; with the index list ascending, behind `h`
      the records taken are cut out as `EntryCut` says. */
  method DeleteEntry(data: ByteArray, arr: AdfArray, indices: seq<int>, removeCnt: nat, ghost h: nat, ghost laid: bool)
    returns (ok: bool, ghost positions: seq<nat>)
    requires FieldInBounds(arr.headerLengthOffset, |data.bytes| - AnimalSize * removeCnt)
    requires arr.arrayOrgStartOffset >= 0 && NonNegative(indices)
    requires laid ==> LaidBehind(arr, h, |data.bytes|) && RecordsInside(arr, indices) && AscendingFrom1(indices)
    modifies data
    ensures ok <==> removeCnt == 0 || removeCnt < |indices|
    ensures !ok ==> data.bytes == old(data.bytes)
    ensures ok ==> positions == PickOrder(removeCnt)
    ensures |data.bytes| >= |old(data.bytes)| - AnimalSize * removeCnt
    ensures ok && laid ==> EntryGone(old(data.bytes), data.bytes, arr, indices, removeCnt, removeCnt, h)
  {
    ghost var s := data.bytes;
    var removeIndices := indices;
    if laid {
      EntryGoneStart(s, arr, indices, removeCnt, h);
    }
    positions := [];
    var removedCnt := 0;
    while removedCnt < removeCnt
      invariant 0 <= removedCnt <= removeCnt
      invariant removedCnt > 0 ==> removeCnt < |indices|
      invariant removedCnt == 0 ==> data.bytes == s
      invariant |positions| == removedCnt && forall k :: 0 <= k < removedCnt ==> positions[k] == removeCnt - k
      invariant |data.bytes| >= |s| - AnimalSize * removedCnt
      invariant laid ==> EntryGone(s, data.bytes, arr, indices, removeCnt, removedCnt, h)
    {
      var p := removeCnt - removedCnt;
      if p >= |removeIndices| {
        return false, positions;
      }
      ghost var prev := data.bytes;
      positions := positions + [p];
      RemoveAnimal(data, arr, removeIndices[p]);
      assert |data.bytes| >= |prev| - AnimalSize;
      if laid {
        EntryGoneStep(s, prev, data.bytes, arr, indices, removeCnt, removedCnt, h);
      }
      removedCnt := removedCnt + 1;
    }
    ok := true;
    assert positions == PickOrder(removeCnt);
  }

  /** What the first `d` deletions of `DeleteEntry` have done to body `r`,
      made from `s`, under the layout bound `h`: one record fewer each, the
      count field as `EntryDeleted` says, the records as `EntryCut` says. */
  predicate EntryGone(s: seq<byte>, r: seq<byte>, a: AdfArray, indices: seq<int>, removeCnt: nat, d: nat, h: nat)
  {
    FieldInBounds(a.headerLengthOffset, |s|) && FieldInBounds(a.headerLengthOffset, |r|) &&
    |r| == |s| - AnimalSize * d && h <= |s| && h <= |r| &&
    EntryDeleted(s, r, a, d, h) && EntryCut(s, r, a, indices, removeCnt, d, h)
  }

  /** Before any deletion, nothing is gone. */
  lemma {:induction false} EntryGoneStart(s: seq<byte>, a: AdfArray, indices: seq<int>, removeCnt: nat, h: nat)
    requires FieldInBounds(a.headerLengthOffset, |s|) && h <= |s|
    ensures EntryGone(s, s, a, indices, removeCnt, 0, h)
  {
    var lenOff := a.headerLengthOffset;
    U32OfReadU32(s[lenOff..lenOff + 4]);
    assert EntryCuts(a, indices, removeCnt, 0) == [];
  }

  /** One record's step of `EntryGone`. */
  lemma {:induction false} EntryGoneStep(s: seq<byte>, prev: seq<byte>, r: seq<byte>, a: AdfArray, indices: seq<int>,
                                         removeCnt: nat, d: nat, h: nat)
    requires d < removeCnt < |indices| && AscendingFrom1(indices) && NonNegative(indices)
    requires LaidBehind(a, h, |s|) && RecordsInside(a, indices)
    requires EntryGone(s, prev, a, indices, removeCnt, d, h)
    requires r == RemovedRecord(prev, a.headerLengthOffset, RecordOffset(a, indices[removeCnt - d]))
    ensures EntryGone(s, r, a, indices, removeCnt, d + 1, h)
  {
    var at := RecordOffset(a, indices[removeCnt - d]);
    EntryCutsBehind(s, a, indices, removeCnt, d);
    DeleteEntryStep(s, prev, a, at, d, h);
    DeleteEntryLands(s, prev, r, a, indices, removeCnt, d, h);
  }

  /** The next record the deletion loop takes lies in front of every record
      taken before it, and so, in the body those cuts leave, still inside. */
  lemma {:induction false} EntryCutsBehind(s: seq<byte>, a: AdfArray, indices: seq<int>, removeCnt: nat, d: nat)
    requires d < removeCnt < |indices| && AscendingFrom1(indices) && NonNegative(indices)
    requires a.arrayOrgStartOffset >= 0 && a.arrayOrgEndOffset <= |s| && RecordsInside(a, indices)
    requires CutsFit(EntryCuts(a, indices, removeCnt, d), |s|)
    ensures AtLeast(EntryCuts(a, indices, removeCnt, d), RecordOffset(a, indices[removeCnt - d]) + AnimalSize)
    ensures RecordOffset(a, indices[removeCnt - d]) + AnimalSize <= |s| - AnimalSize * d
  {
    var cuts, o := EntryCuts(a, indices, removeCnt, d), RecordOffset(a, indices[removeCnt - d]);
    forall k | 0 <= k < d
      ensures o + AnimalSize <= cuts[k]
    {
      assert indices[removeCnt - d] < indices[removeCnt - k];
    }
    ExcisedAtSnoc(s, cuts, o);
  }

  /** One record's step of `EntryCut` in `DeleteEntry`: the record taken
      lies in front of every record taken before it, so in the closed form
      its cut joins the others. */
  lemma {:induction false} DeleteEntryLands(s: seq<byte>, prev: seq<byte>, r: seq<byte>, a: AdfArray, indices: seq<int>,
                                            removeCnt: nat, d: nat, h: nat)
    requires d < removeCnt < |indices| && AscendingFrom1(indices) && NonNegative(indices)
    requires FieldInBounds(a.headerLengthOffset, |prev|) && a.headerLengthOffset + 4 <= h <= a.arrayOrgStartOffset
    requires |prev| == |s| - AnimalSize * d && RecordOffset(a, indices[removeCnt - d]) + AnimalSize <= |prev|
    requires EntryCut(s, prev, a, indices, removeCnt, d, h)
    requires AtLeast(EntryCuts(a, indices, removeCnt, d), RecordOffset(a, indices[removeCnt - d]) + AnimalSize)
    requires r == RemovedRecord(prev, a.headerLengthOffset, RecordOffset(a, indices[removeCnt - d]))
    ensures EntryCut(s, r, a, indices, removeCnt, d + 1, h)
  {
    var cuts, o := EntryCuts(a, indices, removeCnt, d), RecordOffset(a, indices[removeCnt - d]);
    assert EntryCuts(a, indices, removeCnt, d + 1) == cuts + [o];
    ExcisedAtSnoc(s, cuts, o);
    var x := ExcisedAt(s, cuts);
    RemovedRecordEffect(prev, a.headerLengthOffset, o);
    CutStep(prev, r, x, h, o);
  }

  /** One record's step of the invariant of `DeleteEntry`. */
  lemma {:induction false} DeleteEntryStep(s: seq<byte>, prev: seq<byte>, a: AdfArray, at: nat, d: nat, h: int)
    requires FieldInBounds(a.headerLengthOffset, |s|) && a.headerLengthOffset + 4 <= h <= at
    requires |prev| == |s| - AnimalSize * d && at + AnimalSize <= |prev|
    requires EntryDeleted(s, prev, a, d, h)
    ensures |RemovedRecord(prev, a.headerLengthOffset, at)| == |prev| - AnimalSize
    ensures EntryDeleted(s, RemovedRecord(prev, a.headerLengthOffset, at), a, d + 1, h)
  {
    var lenOff := a.headerLengthOffset;
    RemovedRecordDrops(prev, lenOff, at, U32At(s, lenOff) - d);
    RemovedRecordEffect(prev, lenOff, at);
  }

  /** The number of records all entries take out. */
  lemma {:induction false} PlannedTotalPrefix(entries: seq<Planned>, j: nat)
    requires j <= |entries| && CountsNonNegative(entries)
    ensures 0 <= PlannedTotal(entries[..j]) <= PlannedTotal(entries)
    decreases |entries| - j
  {
    if j < |entries| {
      PlannedTotalPrefix(entries, j + 1);
      assert entries[..j + 1][..j] == entries[..j];
    } else {
      assert entries[..j] == entries;
    }
    PlannedTotalNonNegative(entries[..j]);
  }

  lemma {:induction false} PlannedTotalNonNegative(entries: seq<Planned>)
    requires CountsNonNegative(entries)
    ensures PlannedTotal(entries) >= 0
    decreases |entries|
  {
    if entries != [] {
      PlannedTotalNonNegative(entries[..|entries| - 1]);
    }
  }

  predicate CountsNonNegative(entries: seq<Planned>)
  {
    forall k :: 0 <= k < |entries| ==> entries[k].count >= 0
  }

  /** What the delete phase needs of every entry, in a body of length `n`:
      its array's count field stays inside the body once all entries are
      done, and its records are counted from a non-negative start. */
  predicate Deletable(arrays: seq<AdfArray>, entries: seq<Planned>, gender: string, n: int)
  {
    TargetsIn(entries, |arrays|) && CountsNonNegative(entries) &&
    forall k :: 0 <= k < |entries| ==>
      FieldInBounds(arrays[entries[k].target].headerLengthOffset, n - AnimalSize * PlannedTotal(entries)) &&
      arrays[entries[k].target].arrayOrgStartOffset >= 0 &&
      NonNegative(arrays[entries[k].target].CategoryIndices(gender))
  }

  /** The layout the delete phase keeps to, below the header bound `h`, in a
      body of length `n`: every entry's array lies behind `h` as `LaidBehind`
      says, and no two count fields overlap. */
  predicate EntriesLaid(arrays: seq<AdfArray>, entries: seq<Planned>, gender: string, h: int, n: int)
    requires TargetsIn(entries, |arrays|)
  {
    h <= n &&
    (forall k :: 0 <= k < |entries| ==> LaidBehind(arrays[entries[k].target], h, n)) &&
    (forall k, l :: 0 <= k < l < |entries| ==>
      !Overlap(arrays[entries[k].target].headerLengthOffset, arrays[entries[l].target].headerLengthOffset))
  }

  /** Byte `q` is not part of the count field of any entry's array. */
  predicate OutsideEntryCounts(arrays: seq<AdfArray>, entries: seq<Planned>, q: int)
    requires TargetsIn(entries, |arrays|)
  {
    forall k :: 0 <= k < |entries| ==>
      !(arrays[entries[k].target].headerLengthOffset <= q < arrays[entries[k].target].headerLengthOffset + 4)
  }

  /** The records the first `i` entries take from the `k`th entry's array. */
  function TakenBy(entries: seq<Planned>, i: nat, k: nat): int
    requires k < |entries|
  {
    if k < i then entries[k].count else 0
  }

  /** Every entry's count field lies in front of `h`. */
  predicate EntryCountsBelow(arrays: seq<AdfArray>, entries: seq<Planned>, h: int)
    requires TargetsIn(entries, |arrays|)
  {
    forall k :: 0 <= k < |entries| ==>
      0 <= arrays[entries[k].target].headerLengthOffset && arrays[entries[k].target].headerLengthOffset + 4 <= h
  }

  /** What the first `i` entries do to the header part of body `s`, giving
      `r`: each entry's count field holds the old count minus what those
      entries take from it, and every other byte before `h` is as it was. */
  predicate HeaderUncounted(s: seq<byte>, r: seq<byte>, arrays: seq<AdfArray>, entries: seq<Planned>, i: nat, h: int)
    requires TargetsIn(entries, |arrays|) && h <= |s| && h <= |r|
    requires EntryCountsBelow(arrays, entries, h)
  {
    (forall k :: 0 <= k < |entries| ==>
      CountDropped(s, r, arrays[entries[k].target].headerLengthOffset, TakenBy(entries, i, k))) &&
    (forall q :: 0 <= q < h && OutsideEntryCounts(arrays, entries, q) ==> r[q] == s[q])
  }

  /** Each of the first `i` entries takes fewer records than its array's
      index list for the gender holds, so every index it reads exists. */
  predicate EntriesReachable(arrays: seq<AdfArray>, entries: seq<Planned>, gender: string, i: nat)
    requires TargetsIn(entries, |arrays|) && i <= |entries|
  {
    forall k :: 0 <= k < i ==>
      entries[k].count == 0 || entries[k].count < |arrays[entries[k].target].CategoryIndices(gender)|
  }

  /** Where the third loop of the removal path stands after its first `i`
      entries, which took `taken` records, turned body `s` into `r`: the
      body is at most that many records shorter, and under the layout bound
      `h` exactly that many, with the header part uncounted by those entries
      and their records cut out as `PlanCut` says. */
  predicate DeletedUpTo(s: seq<byte>, r: seq<byte>, arrays: seq<AdfArray>, entries: seq<Planned>, gender: string,
                        i: nat, taken: int, h: nat, laid: bool)
    requires TargetsIn(entries, |arrays|) && i <= |entries|
  {
    taken == PlannedTotal(entries[..i]) && 0 <= taken <= PlannedTotal(entries) &&
    |r| >= |s| - AnimalSize * taken &&
    (laid ==>
      |r| == |s| - AnimalSize * taken && h <= |s| && h <= |r| && EntryCountsBelow(arrays, entries, h) &&
      HeaderUncounted(s, r, arrays, entries, i, h) &&
      PlanCut(s, r, arrays, entries, gender, i, h))
  }

  /** The third loop of the removal path: for each plan entry, in order,
      the records of the requested gender deleted from its array. It fails,
      as the index lookup raises, at the first entry that takes at least as
      many records as its index list has; the entries before it are done by
      then. When every entry succeeds, under the layout bound `h` the body
      has shrunk by one record per planned record, only the count fields of
      the entries' arrays changed in front of `h`, and behind it, with the
      entries' arrays laid out in plan order, exactly the planned records
      are cut out. */
  method DeleteEntries(data: ByteArray, arrays: seq<AdfArray>, entries: seq<Planned>, gender: string,
                       ghost h: nat, ghost laid: bool)
    returns (ok: bool)
    requires Deletable(arrays, entries, gender, |data.bytes|)
    requires laid ==> EntriesLaid(arrays, entries, gender, h, |data.bytes|) && EntriesOrdered(arrays, entries, gender)
    modifies data
    ensures ok <==> EntriesReachable(arrays, entries, gender, |entries|)
    ensures ok && laid ==> EntriesGone(old(data.bytes), data.bytes, arrays, entries, gender, h)
  {
    ghost var s := data.bytes;
    ghost var taken := 0;
    DeletedUpToStart(s, arrays, entries, gender, h, laid);
    for i := 0 to |entries|
      invariant EntriesReachable(arrays, entries, gender, i)
      invariant DeletedUpTo(s, data.bytes, arrays, entries, gender, i, taken, h, laid)
    {
      var done := DeleteEntryAt(data, arrays, entries, gender, i, s, taken, h, laid);
      if !done {
        return false;
      }
      taken := taken + entries[i].count;
    }
    assert entries[..|entries|] == entries;
    ok := true;
  }

  /** The offsets of all records the first `i` entries take out, entry by
      entry, each in the order its loop takes them. */
  function PlanCuts(arrays: seq<AdfArray>, entries: seq<Planned>, gender: string, i: nat): (r: seq<int>)
    requires TargetsIn(entries, |arrays|) && CountsNonNegative(entries) && i <= |entries|
    requires EntriesReachable(arrays, entries, gender, i)
    ensures |r| == PlannedTotal(entries[..i])
  {
    if i == 0 then []
    else
      var t := arrays[entries[i - 1].target];
      PlannedTotalStep(entries, i - 1);
      PlanCuts(arrays, entries, gender, i - 1) +
        EntryCuts(t, t.CategoryIndices(gender), entries[i - 1].count, entries[i - 1].count)
  }

  /** Where the first `i` entries leave body `r`, made from `s`: from the
      header bound `h` on, `r` is `s` with all their records cut out. */
  predicate PlanCut(s: seq<byte>, r: seq<byte>, arrays: seq<AdfArray>, entries: seq<Planned>, gender: string,
                    i: nat, h: nat)
  {
    TargetsIn(entries, |arrays|) && CountsNonNegative(entries) && i <= |entries| &&
    EntriesReachable(arrays, entries, gender, i) && h <= |s| - AnimalSize * PlannedTotal(entries[..i]) && h <= |r| &&
    CutsFit(PlanCuts(arrays, entries, gender, i), |s|) &&
    r[h..] == ExcisedAt(s, PlanCuts(arrays, entries, gender, i))[h..]
  }

  /** The entries' arrays lie one after another, each entry's after the
      next one's; the records an entry can reach lie inside its array; and
      each index list ascends from position 1 on. */
  predicate EntriesOrdered(arrays: seq<AdfArray>, entries: seq<Planned>, gender: string)
    requires TargetsIn(entries, |arrays|)
  {
    (forall k, l :: 0 <= k < l < |entries| ==>
      arrays[entries[l].target].arrayOrgEndOffset <= arrays[entries[k].target].arrayOrgStartOffset) &&
    (forall k :: 0 <= k < |entries| ==>
      RecordsInside(arrays[entries[k].target], arrays[entries[k].target].CategoryIndices(gender)) &&
      AscendingFrom1(arrays[entries[k].target].CategoryIndices(gender)))
  }

  /** No record the first `i` entries take lies in front of `m`, when no
      entry's array starts in front of it. */
  lemma {:induction false} PlanCutsAtLeast(arrays: seq<AdfArray>, entries: seq<Planned>, gender: string, i: nat, m: int)
    requires TargetsIn(entries, |arrays|) && CountsNonNegative(entries) && i <= |entries|
    requires EntriesReachable(arrays, entries, gender, i)
    requires forall k :: 0 <= k < i ==>
      m <= arrays[entries[k].target].arrayOrgStartOffset && NonNegative(arrays[entries[k].target].CategoryIndices(gender))
    ensures AtLeast(PlanCuts(arrays, entries, gender, i), m)
  {
    if i > 0 {
      PlanCutsAtLeast(arrays, entries, gender, i - 1, m);
      var t := arrays[entries[i - 1].target];
      var ps := PlanCuts(arrays, entries, gender, i - 1);
      var es := EntryCuts(t, t.CategoryIndices(gender), entries[i - 1].count, entries[i - 1].count);
      assert PlanCuts(arrays, entries, gender, i) == ps + es;
      assert AtLeast(es, m);
    }
  }

  /** One entry's step of `PlanCut` in `DeleteEntries`: the entry's records
      lie in front of every record taken before, so in the closed form its
      cuts follow the others. */
  lemma {:induction false} DeletePlanStep(s: seq<byte>, prev: seq<byte>, r: seq<byte>, arrays: seq<AdfArray>,
                                          entries: seq<Planned>, gender: string, i: nat, h: nat)
    requires Deletable(arrays, entries, gender, |s|) && i < |entries| && EntriesOrdered(arrays, entries, gender)
    requires forall k :: 0 <= k < |entries| ==> h <= arrays[entries[k].target].arrayOrgStartOffset
    requires EntriesReachable(arrays, entries, gender, i + 1)
    requires PlanCut(s, prev, arrays, entries, gender, i, h)
    requires |prev| == |s| - AnimalSize * PlannedTotal(entries[..i])
    requires var t := arrays[entries[i].target];
      EntryCut(prev, r, t, t.CategoryIndices(gender), entries[i].count, entries[i].count, h)
    ensures PlanCut(s, r, arrays, entries, gender, i + 1, h)
  {
    var t := arrays[entries[i].target];
    var ind, c := t.CategoryIndices(gender), entries[i].count;
    var ps, es := PlanCuts(arrays, entries, gender, i), EntryCuts(t, ind, c, c);
    assert PlanCuts(arrays, entries, gender, i + 1) == ps + es;
    var x := ExcisedAt(s, ps);
    assert AtLeast(es, h);
    ExcisedAtTail(prev, x, es, h);
    CutsFitWiden(es, |prev|, |s|);
    if es != [] {
      assert es[0] + AnimalSize <= t.arrayOrgEndOffset;
      PlanCutsAtLeast(arrays, entries, gender, i, es[0] + AnimalSize);
    }
    ExcisedAtAppend(s, ps, es);
  }

  /** What all entries have done to body `r`, made from `s`, under the
      layout bound `h`: one record fewer per planned record, the header
      part as `HeaderUncounted` says, the records as `PlanCut` says. */
  predicate EntriesGone(s: seq<byte>, r: seq<byte>, arrays: seq<AdfArray>, entries: seq<Planned>, gender: string, h: nat)
  {
    TargetsIn(entries, |arrays|) && h <= |s| && h <= |r| && EntryCountsBelow(arrays, entries, h) &&
    |r| == |s| - AnimalSize * PlannedTotal(entries) &&
    HeaderUncounted(s, r, arrays, entries, |entries|, h) &&
    PlanCut(s, r, arrays, entries, gender, |entries|, h)
  }

  /** Before the loop, nothing is taken. */
  lemma {:induction false} DeletedUpToStart(s: seq<byte>, arrays: seq<AdfArray>, entries: seq<Planned>, gender: string, h: nat,
                         laid: bool)
    requires Deletable(arrays, entries, gender, |s|)
    requires laid ==> EntriesLaid(arrays, entries, gender, h, |s|)
    ensures DeletedUpTo(s, s, arrays, entries, gender, 0, 0, h, laid)
  {
    PlannedTotalNonNegative(entries);
    assert entries[..0] == [];
    if laid {
      HeaderUncountedStart(s, arrays, entries, gender, h);
      assert PlanCuts(arrays, entries, gender, 0) == [];
    }
  }

  /** The body of the third loop of the removal path for entry `i`. */
  method DeleteEntryAt(data: ByteArray, arrays: seq<AdfArray>, entries: seq<Planned>, gender: string, i: nat,
                       ghost s: seq<byte>, ghost taken: int, ghost h: nat, ghost laid: bool)
    returns (done: bool)
    requires Deletable(arrays, entries, gender, |s|) && i < |entries|
    requires laid ==> EntriesLaid(arrays, entries, gender, h, |s|) && EntriesOrdered(arrays, entries, gender)
    requires DeletedUpTo(s, data.bytes, arrays, entries, gender, i, taken, h, laid)
    modifies data
    ensures done <==>
      entries[i].count == 0 || entries[i].count < |arrays[entries[i].target].CategoryIndices(gender)|
    ensures done ==> DeletedUpTo(s, data.bytes, arrays, entries, gender, i + 1, taken + entries[i].count, h, laid)
  {
    PlannedTotalStep(entries, i);
    ghost var prev := data.bytes;
    var removeCnt := entries[i].count;
    var animalArray := arrays[entries[i].target];
    var removeIndices := animalArray.CategoryIndices(gender);
    if laid {
      DeleteEntryFits(s, prev, arrays, entries, gender, h, i);
    }
    ghost var positions;
    done, positions := DeleteEntry(data, animalArray, removeIndices, removeCnt, h, laid);
    if done && laid {
      DeleteEntriesStep(s, prev, data.bytes, arrays, entries, i, h);
      DeletePlanStep(s, prev, data.bytes, arrays, entries, gender, i, h);
    }
  }

  /** The entries up to `i + 1` take entry `i`'s records on top of those
      before it, and no more than all entries together. */
  lemma {:induction false} PlannedTotalStep(entries: seq<Planned>, i: nat)
    requires i < |entries| && CountsNonNegative(entries)
    ensures PlannedTotal(entries[..i + 1]) == PlannedTotal(entries[..i]) + entries[i].count
    ensures PlannedTotal(entries[..i + 1]) <= PlannedTotal(entries)
  {
    PlannedTotalPrefix(entries, i + 1);
    assert entries[..i + 1][..i] == entries[..i];
  }

  /** Before any entry, the header part is uncounted as it stands. */
  lemma {:induction false} HeaderUncountedStart(s: seq<byte>, arrays: seq<AdfArray>, entries: seq<Planned>, gender: string, h: int)
    requires Deletable(arrays, entries, gender, |s|) && EntriesLaid(arrays, entries, gender, h, |s|)
    ensures h <= |s|
    ensures HeaderUncounted(s, s, arrays, entries, 0, h)
  {
    PlannedTotalNonNegative(entries);
    forall k | 0 <= k < |entries|
      ensures CountDropped(s, s, arrays[entries[k].target].headerLengthOffset, TakenBy(entries, 0, k))
    {
      var o := arrays[entries[k].target].headerLengthOffset;
      U32OfReadU32(s[o..o + 4]);
    }
  }

  /** Entry `i` meets the layout `DeleteEntry` needs in the body `prev` the
      entries before it leave: their cuts all lie behind its array, so that
      much of the body is as loaded and its array still ends inside. */
  lemma {:induction false} DeleteEntryFits(s: seq<byte>, prev: seq<byte>, arrays: seq<AdfArray>, entries: seq<Planned>,
                                           gender: string, h: nat, i: nat)
    requires Deletable(arrays, entries, gender, |s|) && i < |entries|
    requires EntriesLaid(arrays, entries, gender, h, |s|) && EntriesOrdered(arrays, entries, gender)
    requires PlanCut(s, prev, arrays, entries, gender, i, h) && |prev| == |s| - AnimalSize * PlannedTotal(entries[..i])
    ensures var a := arrays[entries[i].target];
      LaidBehind(a, h, |prev|) && RecordsInside(a, a.CategoryIndices(gender)) && AscendingFrom1(a.CategoryIndices(gender))
  {
    var a := arrays[entries[i].target];
    var cuts := PlanCuts(arrays, entries, gender, i);
    assert LaidBehind(a, h, |s|);
    PlanCutsAtLeast(arrays, entries, gender, i, a.arrayOrgEndOffset);
    ExcisedAtKeepsFront(s, cuts, a.arrayOrgEndOffset);
  }

  /** One entry's step of the invariant of `DeleteEntries`. */
  lemma {:induction false} DeleteEntriesStep(s: seq<byte>, prev: seq<byte>, r: seq<byte>, arrays: seq<AdfArray>, entries: seq<Planned>,
                          i: nat, h: int)
    requires TargetsIn(entries, |arrays|) && CountsNonNegative(entries) && i < |entries|
    requires h <= |s| && h <= |prev| && h <= |r|
    requires EntryCountsBelow(arrays, entries, h)
    requires forall k, l :: 0 <= k < l < |entries| ==>
      !Overlap(arrays[entries[k].target].headerLengthOffset, arrays[entries[l].target].headerLengthOffset)
    requires HeaderUncounted(s, prev, arrays, entries, i, h)
    requires EntryDeleted(prev, r, arrays[entries[i].target], entries[i].count, h)
    ensures HeaderUncounted(s, r, arrays, entries, i + 1, h)
  {
    var a := arrays[entries[i].target];
    forall k | 0 <= k < |entries|
      ensures CountDropped(s, r, arrays[entries[k].target].headerLengthOffset, TakenBy(entries, i + 1, k))
    {
      DeleteEntriesStepCount(s, prev, r, arrays, entries, i, h, k);
    }
    forall q | 0 <= q < h && OutsideEntryCounts(arrays, entries, q)
      ensures r[q] == s[q]
    {
      assert !(a.headerLengthOffset <= q < a.headerLengthOffset + 4);
    }
  }

  /** ... one count field at a time. */
  lemma {:induction false} DeleteEntriesStepCount(s: seq<byte>, prev: seq<byte>, r: seq<byte>, arrays: seq<AdfArray>, entries: seq<Planned>,
                               i: nat, h: int, k: nat)
    requires TargetsIn(entries, |arrays|) && CountsNonNegative(entries) && i < |entries| && k < |entries|
    requires h <= |s| && h <= |prev| && h <= |r|
    requires EntryCountsBelow(arrays, entries, h)
    requires k != i ==> !Overlap(arrays[entries[k].target].headerLengthOffset, arrays[entries[i].target].headerLengthOffset)
    requires CountDropped(s, prev, arrays[entries[k].target].headerLengthOffset, TakenBy(entries, i, k))
    requires EntryDeleted(prev, r, arrays[entries[i].target], entries[i].count, h)
    ensures CountDropped(s, r, arrays[entries[k].target].headerLengthOffset, TakenBy(entries, i + 1, k))
  {
    var o := arrays[entries[k].target].headerLengthOffset;
    var a := arrays[entries[i].target];
    if k == i {
      FieldOfU32(prev, o, U32At(s, o));
    } else {
      assert r[o..o + 4] == prev[o..o + 4] by {
        assert forall q :: o <= q < o + 4 ==> r[q] == prev[q];
      }
    }
  }
}

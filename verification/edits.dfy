/** The two entry points of the patch engine, `add_animals_to_reserve` and
    `remove_animals_from_reserve`, on an archive that is already loaded and
    whose profile and arrays are already found. Each returns what the
    Python function ends in: an early return, an exception, or the bytes
    `save` writes. */
module Edits {
  import opened Bytes
  import opened Wrappers
  import opened AdfProfile
  import opened Container
  import opened Splice
  import opened Planning
  import opened Reserve
  import opened Placement

  /** The exceptions the two functions can end in. */
  datatype Failure =
    | DivisionByZero     // no eligible array to share the new records out over
    | NotEnoughAnimals   // "Not enough animals to remove"
    | IndexOutOfRange    // an index list without the position the plan reads first
    | SizeOverflow       // `struct.pack("I", ...)` of an inflated size of 2^32 or more

  datatype Outcome = Unchanged | Failed(reason: Failure) | Saved(file: seq<byte>)

  /** The eligible animal arrays in the order both functions visit them:
      those `c` admits, each once, latest start first. */
  function Targets(animalArrays: seq<AdfArray>, c: Criterion): (r: seq<nat>)
    ensures InRange(r, |animalArrays|) && Distinct(r) && SortedByStart(animalArrays, r)
    ensures forall j :: 0 <= j < |animalArrays| ==> (j in r <==> c.Admits(animalArrays[j]))
  {
    var f := Filter(animalArrays, c, |animalArrays|);
    SortByStartDescendingSorted(animalArrays, f);
    var r := SortByStartDescending(animalArrays, f);
    assert forall j :: j in r <==> j in multiset(f);
    r
  }

  /** Where the add path writes for the arrays `c` admits: each count field
      lies in a body of length `n`, and records go after a non-negative end. */
  predicate Addable(animalArrays: seq<AdfArray>, c: Criterion, n: int)
  {
    forall j :: 0 <= j < |animalArrays| && c.Admits(animalArrays[j]) ==>
      FieldInBounds(animalArrays[j].headerLengthOffset, n) && animalArrays[j].arrayOrgEndOffset >= 0
  }

  /** The count fields of the arrays `c` admits share no byte with each
      other, ... */
  predicate CountsDisjoint(animalArrays: seq<AdfArray>, c: Criterion)
  {
    forall x, y :: 0 <= x < y < |animalArrays| && c.Admits(animalArrays[x]) && c.Admits(animalArrays[y]) ==>
      !Overlap(animalArrays[x].headerLengthOffset, animalArrays[y].headerLengthOffset)
  }

  /** ... with a header pointer field of any array in `allArrays`, ... */
  predicate CountsOffPointers(animalArrays: seq<AdfArray>, c: Criterion, allArrays: seq<AdfArray>)
  {
    forall x, i :: 0 <= x < |animalArrays| && c.Admits(animalArrays[x]) && 0 <= i < |allArrays| ==>
      !Overlap(animalArrays[x].headerLengthOffset, allArrays[i].headerArrayOffset)
  }

  /** ... or with one of the size `fields`. */
  predicate CountsOffFields(animalArrays: seq<AdfArray>, c: Criterion, fields: seq<Field>)
  {
    forall x, k :: 0 <= x < |animalArrays| && c.Admits(animalArrays[x]) && 0 <= k < |fields| ==>
      !Overlap(animalArrays[x].headerLengthOffset, fields[k].offset)
  }

  /** The header part of a body of length `n` ends at `h`: the count field
      of every array `c` admits lies in front of `h`, and its records behind. */
  predicate AddLaid(animalArrays: seq<AdfArray>, c: Criterion, h: int, n: int)
  {
    h <= n &&
    forall j :: 0 <= j < |animalArrays| && c.Admits(animalArrays[j]) ==>
      0 <= animalArrays[j].headerLengthOffset && animalArrays[j].headerLengthOffset + 4 <= h <=
        animalArrays[j].arrayOrgEndOffset <= n
  }

  /** The arrays `c` admits lie one after another in the order both
      functions visit them: none ends before it starts, and one visited
      later ends where or before one visited earlier starts. */
  predicate LaidInVisitOrder(animalArrays: seq<AdfArray>, c: Criterion)
  {
    (forall x :: 0 <= x < |animalArrays| && c.Admits(animalArrays[x]) ==>
      animalArrays[x].arrayOrgStartOffset <= animalArrays[x].arrayOrgEndOffset) &&
    forall x, y ::
      0 <= x < |animalArrays| && 0 <= y < |animalArrays| && c.Admits(animalArrays[x]) && c.Admits(animalArrays[y]) &&
      Precedes(animalArrays, x, y) ==>
      animalArrays[y].arrayOrgEndOffset <= animalArrays[x].arrayOrgStartOffset
  }

  /** Every header pointer field of `allArrays` and every one of the size
      `fields` lies in front of `h`. */
  predicate HeaderFieldsBelow(allArrays: seq<AdfArray>, fields: seq<Field>, h: int)
  {
    (forall i :: 0 <= i < |allArrays| ==> allArrays[i].headerArrayOffset + 4 <= h) &&
    (forall k :: 0 <= k < |fields| ==> fields[k].offset + 4 <= h)
  }

  /** Byte `q` is not part of any of the size `fields`. */
  predicate OutsideFields(fields: seq<Field>, q: int)
  {
    forall k :: 0 <= k < |fields| ==> !(fields[k].offset <= q < fields[k].offset + 4)
  }

  /** No two size `fields` share a byte, and none shares one with a header
      pointer field of `allArrays`. */
  predicate FieldsApart(fields: seq<Field>, allArrays: seq<AdfArray>)
  {
    (forall i, j :: 0 <= i < j < |fields| ==> !Overlap(fields[i].offset, fields[j].offset)) &&
    (forall k, i :: 0 <= k < |fields| && 0 <= i < |allArrays| ==> !Overlap(fields[k].offset, allArrays[i].headerArrayOffset))
  }

  /** The descriptors the add path ends with: those its first loop shifts,
      run on body `s` once the size fields moved by `size`. The cascades
      only ever change relative starts. */
  function AddShifted(s: seq<byte>, profile: Profile, allArrays: seq<AdfArray>, eligible: seq<nat>,
                      chunks: seq<seq<AnimalRecord>>, size: int): (r: seq<AdfArray>)
    requires FieldsInBounds(NonInstanceFields(profile), |s|) && HeadersInBounds(allArrays, |s|)
    requires InRange(eligible, |allArrays|) && |chunks| <= |eligible|
    ensures SameLayout(r, allArrays)
  {
    CascadeChunks(Patch(allArrays, WriteFields(s, NonInstanceFields(profile), size)), eligible, chunks, |chunks|).arrays
  }

  /** The size fields and the header pointers of body `r`, made from `s` by
      an edit of `size` bytes that moved the descriptors from `allArrays` to
      `shifted`: each size field holds its profile value plus `size`, and if
      every pointer field agreed with its descriptor in `s` (and no two of
      them overlap), every one agrees with its shifted descriptor in `r`. */
  predicate HeaderRepaired(s: seq<byte>, r: seq<byte>, fields: seq<Field>, size: int, allArrays: seq<AdfArray>,
                           shifted: seq<AdfArray>)
  {
    SizeFieldsHold(r, fields, size) &&
    (PointersConsistent(allArrays, s) && HeadersDisjoint(allArrays) ==> PointersConsistent(shifted, r))
  }

  /** Each of the size `fields` of body `r` holds its profile value plus
      `size`, as a u32. */
  predicate SizeFieldsHold(r: seq<byte>, fields: seq<Field>, size: int)
  {
    FieldsInBounds(fields, |r|) &&
    forall k :: 0 <= k < |fields| ==> r[fields[k].offset..fields[k].offset + 4] == U32(fields[k].value + size)
  }

  /** The header part after both phases in front of the body edits: the
      size fields move (`s0` to `s1`), the cascades shift (`s1` to `s2`),
      and the body edits (`s2` to `s3`) leave every size and pointer field
      in front of `h` alone. Then `s3` is `HeaderRepaired`, and every byte
      in front of `h` outside those fields reads in `s2` as in `s0`. */
  lemma {:induction false} HeaderRepairedThrough(s0: seq<byte>, s1: seq<byte>, s2: seq<byte>, s3: seq<byte>,
                                                 profile: Profile, size: int, allArrays: seq<AdfArray>,
                                                 shifted: seq<AdfArray>, h: nat)
    requires FieldsInBounds(NonInstanceFields(profile), |s0|) && s1 == WriteFields(s0, NonInstanceFields(profile), size)
    requires PhaseKeeps(Patch(allArrays, s1), Patch(shifted, s2))
    requires FieldsApart(NonInstanceFields(profile), allArrays) && HeaderFieldsBelow(allArrays, NonInstanceFields(profile), h)
    requires h <= |s0| && h <= |s3|
    requires forall q :: 0 <= q < h && !OutsideFields(NonInstanceFields(profile), q) ==> s3[q] == s2[q]
    requires forall q :: 0 <= q < h && !OutsidePointers(allArrays, q) ==> s3[q] == s2[q]
    ensures HeaderRepaired(s0, s3, NonInstanceFields(profile), size, allArrays, shifted)
    ensures forall q :: 0 <= q < h && OutsideFields(NonInstanceFields(profile), q) && OutsidePointers(allArrays, q) ==>
      s2[q] == s0[q]
  {
    SizeFieldsThrough(s0, s1, s2, s3, profile, size, allArrays, shifted, h);
    if PointersConsistent(allArrays, s0) && HeadersDisjoint(allArrays) {
      PointersThrough(s0, s1, s2, s3, profile, size, allArrays, shifted, h);
    }
    OthersThrough(s0, s1, s2, profile, size, allArrays, shifted, h);
  }

  /** ... the size fields together: each reads in `s3` as right after
      they were written. */
  lemma {:induction false} SizeFieldsThrough(s0: seq<byte>, s1: seq<byte>, s2: seq<byte>, s3: seq<byte>,
                                             profile: Profile, size: int, allArrays: seq<AdfArray>,
                                             shifted: seq<AdfArray>, h: nat)
    requires FieldsInBounds(NonInstanceFields(profile), |s0|) && s1 == WriteFields(s0, NonInstanceFields(profile), size)
    requires PhaseKeeps(Patch(allArrays, s1), Patch(shifted, s2))
    requires FieldsApart(NonInstanceFields(profile), allArrays) && HeaderFieldsBelow(allArrays, NonInstanceFields(profile), h)
    requires h <= |s0| && h <= |s3|
    requires forall q :: 0 <= q < h && !OutsideFields(NonInstanceFields(profile), q) ==> s3[q] == s2[q]
    ensures SizeFieldsHold(s3, NonInstanceFields(profile), size)
  {
    var fields := NonInstanceFields(profile);
    forall k, q | 0 <= k < |fields| && fields[k].offset <= q < fields[k].offset + 4
      ensures s3[q] == s1[q]
    {
      assert !OutsideFields(fields, q);
      assert OutsidePointers(allArrays, q) by {
        forall j | 0 <= j < |allArrays|
          ensures !(allArrays[j].headerArrayOffset <= q < allArrays[j].headerArrayOffset + 4)
        {
          assert !Overlap(fields[k].offset, allArrays[j].headerArrayOffset);
        }
      }
    }
    FieldsHoldAfter(s0, s3, fields, size);
  }

  /** Size fields that share no byte, read from a body that agrees on them
      with the body right after they were written, hold what was written. */
  lemma {:induction false} FieldsHoldAfter(s0: seq<byte>, s3: seq<byte>, fields: seq<Field>, size: int)
    requires FieldsInBounds(fields, |s0|) && FieldsInBounds(fields, |s3|)
    requires forall i, j :: 0 <= i < j < |fields| ==> !Overlap(fields[i].offset, fields[j].offset)
    requires forall k, q :: 0 <= k < |fields| && fields[k].offset <= q < fields[k].offset + 4 ==>
      s3[q] == WriteFields(s0, fields, size)[q]
    ensures SizeFieldsHold(s3, fields, size)
  {
    var s1 := WriteFields(s0, fields, size);
    forall k | 0 <= k < |fields|
      ensures s3[fields[k].offset..fields[k].offset + 4] == U32(fields[k].value + size)
    {
      WriteFieldsValue(s0, fields, size, k);
      assert s3[fields[k].offset..fields[k].offset + 4] == s1[fields[k].offset..fields[k].offset + 4];
    }
  }

  /** ... the bytes outside them. */
  lemma {:induction false} OthersThrough(s0: seq<byte>, s1: seq<byte>, s2: seq<byte>, profile: Profile, size: int,
                                         allArrays: seq<AdfArray>, shifted: seq<AdfArray>, h: nat)
    requires FieldsInBounds(NonInstanceFields(profile), |s0|) && s1 == WriteFields(s0, NonInstanceFields(profile), size)
    requires PhaseKeeps(Patch(allArrays, s1), Patch(shifted, s2)) && h <= |s0|
    ensures forall q :: 0 <= q < h && OutsideFields(NonInstanceFields(profile), q) && OutsidePointers(allArrays, q) ==>
      s2[q] == s0[q]
  {
    forall q | 0 <= q < h && OutsideFields(NonInstanceFields(profile), q) && OutsidePointers(allArrays, q)
      ensures s2[q] == s0[q]
    {
      WriteFieldsFrame(s0, NonInstanceFields(profile), size, q);
      assert s2[q] == s1[q];
    }
  }

  /** ... the pointer fields. */
  lemma {:induction false} PointersThrough(s0: seq<byte>, s1: seq<byte>, s2: seq<byte>, s3: seq<byte>,
                                           profile: Profile, size: int, allArrays: seq<AdfArray>,
                                           shifted: seq<AdfArray>, h: nat)
    requires FieldsInBounds(NonInstanceFields(profile), |s0|) && s1 == WriteFields(s0, NonInstanceFields(profile), size)
    requires PhaseKeeps(Patch(allArrays, s1), Patch(shifted, s2))
    requires FieldsApart(NonInstanceFields(profile), allArrays) && HeaderFieldsBelow(allArrays, NonInstanceFields(profile), h)
    requires h <= |s0| && h <= |s3|
    requires forall q :: 0 <= q < h && !OutsidePointers(allArrays, q) ==> s3[q] == s2[q]
    requires PointersConsistent(allArrays, s0) && HeadersDisjoint(allArrays)
    ensures PointersConsistent(shifted, s3)
  {
    var fields := NonInstanceFields(profile);
    forall j | 0 <= j < |allArrays|
      ensures s1[allArrays[j].headerArrayOffset..allArrays[j].headerArrayOffset + 4] == U32(allArrays[j].relArrayStartOffset)
    {
      WriteFieldsKeepsField(s0, fields, size, allArrays[j].headerArrayOffset);
    }
    assert PointersConsistent(shifted, s2);
    forall j | 0 <= j < |shifted|
      ensures s3[shifted[j].headerArrayOffset..shifted[j].headerArrayOffset + 4] == U32(shifted[j].relArrayStartOffset)
    {
      var o := shifted[j].headerArrayOffset;
      assert o == allArrays[j].headerArrayOffset;
      forall q | o <= q < o + 4
        ensures s3[q] == s2[q]
      {
        assert !OutsidePointers(allArrays, q);
      }
      assert s3[o..o + 4] == s2[o..o + 4];
    }
  }

  /** `add_animals_to_reserve` from the point the archive is loaded:
      `populationIndex` is the species' position in the reserve, `compress`
      stands for zlib. With no animals nothing happens. Otherwise the five
      size fields move first; with no array of the species the division
      that sizes the chunks fails; else the arrays behind each chosen one
      move by one record per animal dealt to it, the records go in, and the
      body, one record longer per animal, is saved.

      The ghost flag `laid` switches on the layout hypotheses: the header
      fields lie in front of the ghost bound `h`, apart from one another,
      and the admitted arrays lie behind it, one after another in the
      order they are visited. Only with them does the contract state the
      count of each eligible array, the five size fields and the header
      pointers after the edit (`RecordsAdded`), and where every new record
      lands. Without them it states the outcome, the length and the saved
      header. */
  method AddAnimalsToReserve(adf: DecompressedAdfFile, profile: Profile, animalArrays: seq<AdfArray>,
                             otherArrays: seq<AdfArray>, populationIndex: int, animals: seq<AnimalRecord>,
                             compress: seq<byte> -> seq<byte>, ghost h: nat, ghost laid: bool)
    returns (outcome: Outcome)
    requires FieldsInBounds(NonInstanceFields(profile), |adf.data.bytes|)
    requires HeadersInBounds(animalArrays + otherArrays, |adf.data.bytes|)
    requires Addable(animalArrays, ForAdd(populationIndex), |adf.data.bytes|)
    requires laid ==> AddLaid(animalArrays, ForAdd(populationIndex), h, |adf.data.bytes|)
    requires laid ==> LaidInVisitOrder(animalArrays, ForAdd(populationIndex))
    requires laid ==> HeaderFieldsBelow(animalArrays + otherArrays, NonInstanceFields(profile), h)
    requires laid ==> CountsDisjoint(animalArrays, ForAdd(populationIndex))
    requires laid ==> CountsOffPointers(animalArrays, ForAdd(populationIndex), animalArrays + otherArrays)
    requires laid ==> CountsOffFields(animalArrays, ForAdd(populationIndex), NonInstanceFields(profile))
    requires laid ==> FieldsApart(NonInstanceFields(profile), animalArrays + otherArrays)
    modifies adf.data, adf`fileHeader
    ensures animals == [] <==> outcome == Unchanged
    ensures outcome == Unchanged ==> adf.data.bytes == old(adf.data.bytes) && adf.fileHeader == old(adf.fileHeader)
    ensures outcome == Failed(DivisionByZero) <==>
      animals != [] && forall j :: 0 <= j < |animalArrays| ==> animalArrays[j].population != populationIndex
    ensures outcome.Saved? || outcome == Failed(SizeOverflow) ==>
      |adf.data.bytes| == |old(adf.data.bytes)| + AnimalSize * |animals|
    ensures outcome.Saved? || outcome == Failed(SizeOverflow) ==>
      Written(outcome, old(adf.fileHeader), adf.fileHeader, adf.orgSize, adf.header + adf.data.bytes, compress)
    ensures laid && (outcome.Saved? || outcome == Failed(SizeOverflow)) ==>
      var eligible := Targets(animalArrays, ForAdd(populationIndex));
      RecordsAdded(old(adf.data.bytes), adf.data.bytes, profile, animalArrays, animalArrays + otherArrays, eligible,
                   Deal(animals, |eligible|), h)
  {
    if |animals| == 0 {
      return Unchanged;
    }
    var allArrays := animalArrays + otherArrays;
    var eligible := Targets(animalArrays, ForAdd(populationIndex));
    var ok := AddRecords(adf.data, profile, animalArrays, allArrays, ForAdd(populationIndex), eligible, animals, h, laid);
    if !ok {
      return Failed(DivisionByZero);
    }
    outcome := SaveEdits(adf, compress);
  }

  /** How `save` ended, from outer header `before` to `after`, for an
      archive inflated from `orgSize` bytes to `inner`: either the size
      fields were patched for the new length and the file is the patched
      header followed by the deflated inner bytes, or the new length does not
      fit in 32 bits, the header is as it was and nothing is written. */
  predicate Written(outcome: Outcome, before: seq<byte>, after: seq<byte>, orgSize: int, inner: seq<byte>,
                    compress: seq<byte> -> seq<byte>)
  {
    match outcome
    case Saved(file) =>
      PatchSizeFields(before, orgSize, |inner|).Some? && after == PatchSizeFields(before, orgSize, |inner|).value &&
      file == after + compress(inner)
    case Failed(reason) => reason == SizeOverflow && PatchSizeFields(before, orgSize, |inner|).None? && after == before
    case Unchanged => false
  }

  /** The `save` that ends both functions once the body is edited: the
      outer header's size fields patched for the new inflated length and
      the bytes to be written, or the `struct.pack` error when that length
      does not fit in 32 bits. */
  method SaveEdits(adf: DecompressedAdfFile, compress: seq<byte> -> seq<byte>) returns (outcome: Outcome)
    modifies adf`fileHeader
    ensures Written(outcome, old(adf.fileHeader), adf.fileHeader, adf.orgSize, adf.header + adf.data.bytes, compress)
  {
    var saved := adf.Save(compress);
    if saved.None? {
      return Failed(SizeOverflow);
    }
    return Saved(saved.value);
  }

  /** Each eligible array's count field in `r` holds the one in `s` plus
      the records of the chunk dealt to it, if any. */
  predicate CountsRaised(s: seq<byte>, r: seq<byte>, animalArrays: seq<AdfArray>, eligible: seq<nat>,
                         chunks: seq<seq<AnimalRecord>>)
    requires InRange(eligible, |animalArrays|)
  {
    forall k :: 0 <= k < |eligible| ==>
      CountMoved(s, r, animalArrays[eligible[k]].headerLengthOffset, AddedBy(chunks, |chunks|, k))
  }

  /** What the add path does to body `s`, giving `r`, under the layout
      bound `h`: each eligible count raised by its chunk; the size fields
      grown by the records added and the header pointers shifted as
      `HeaderRepaired` says; every other byte in front of `h` as it was; and
      from `h` on each chunk's records in at the original end of its array. */
  predicate RecordsAdded(s: seq<byte>, r: seq<byte>, profile: Profile, animalArrays: seq<AdfArray>,
                         allArrays: seq<AdfArray>, eligible: seq<nat>, chunks: seq<seq<AnimalRecord>>, h: nat)
  {
    InRange(eligible, |animalArrays|) && |chunks| <= |eligible| &&
    CountsRaised(s, r, animalArrays, eligible, chunks) &&
    ChunksPlaced(s, r, animalArrays, eligible, chunks, |chunks|, h) &&
    FieldsInBounds(NonInstanceFields(profile), |s|) && HeadersInBounds(allArrays, |s|) && InRange(eligible, |allArrays|) &&
    HeaderRepaired(s, r, NonInstanceFields(profile), AnimalSize * |Flatten(chunks)|, allArrays,
                   AddShifted(s, profile, allArrays, eligible, chunks, AnimalSize * |Flatten(chunks)|)) &&
    h <= |r| &&
    forall q ::
      (0 <= q < h && OutsideFields(NonInstanceFields(profile), q) && OutsidePointers(allArrays, q) &&
       OutsideCounts(animalArrays, eligible, q)) ==> r[q] == s[q]
  }

  /** The body edits of the add path once there are animals: the size
      fields, then, if there is an array to deal to, the cascades and the
      insertions, which grow the body by one record per animal and raise
      each eligible count by its chunk. `eligible` lists the arrays `c`
      admits. */
  method AddRecords(data: ByteArray, profile: Profile, animalArrays: seq<AdfArray>, allArrays: seq<AdfArray>,
                    c: Criterion, eligible: seq<nat>, animals: seq<AnimalRecord>, ghost h: nat, ghost laid: bool)
    returns (ok: bool)
    requires FieldsInBounds(NonInstanceFields(profile), |data.bytes|)
    requires HeadOf(animalArrays, allArrays) && HeadersInBounds(allArrays, |data.bytes|)
    requires InRange(eligible, |animalArrays|) && Distinct(eligible)
    requires forall k :: 0 <= k < |eligible| ==> c.Admits(animalArrays[eligible[k]])
    requires Addable(animalArrays, c, |data.bytes|)
    requires laid ==> AddLaid(animalArrays, c, h, |data.bytes|)
    requires laid ==> CountsDisjoint(animalArrays, c)
    requires laid ==> CountsOffPointers(animalArrays, c, allArrays)
    requires laid ==> CountsOffFields(animalArrays, c, NonInstanceFields(profile))
    requires laid ==> LaidInVisitOrder(animalArrays, c) && SortedByStart(animalArrays, eligible)
    requires laid ==> HeaderFieldsBelow(allArrays, NonInstanceFields(profile), h) &&
                      FieldsApart(NonInstanceFields(profile), allArrays)
    modifies data
    ensures ok <==> |eligible| > 0
    ensures ok ==> |data.bytes| == |old(data.bytes)| + AnimalSize * |animals|
    ensures ok && laid ==>
      RecordsAdded(old(data.bytes), data.bytes, profile, animalArrays, allArrays, eligible, Deal(animals, |eligible|), h)
  {
    ghost var s0 := data.bytes;
    UpdateNonInstanceOffsets(data, profile, AnimalSize * |animals|);
    if |eligible| == 0 {
      return false;
    }
    ghost var s1 := data.bytes;
    var chunks := Deal(animals, |eligible|);
    var shifted := ShiftForChunks(data, allArrays, eligible, chunks);
    ghost var s2 := data.bytes;
    if laid {
      AddLayoutCarries(animalArrays, allArrays, shifted, c, eligible, h, |s2|);
      AddEndsDescend(animalArrays, allArrays, shifted, c, eligible);
    }
    InsertChunks(data, shifted, eligible, chunks, h, laid);
    if laid {
      AddCarries(s0, s1, s2, data.bytes, profile, AnimalSize * |animals|, animalArrays, allArrays, shifted,
                 c, eligible, chunks, h);
    }
    ok := true;
  }

  /** `animalArrays` is the front of `allArrays`, as in `animal_arrays + other_arrays`. */
  predicate HeadOf(animalArrays: seq<AdfArray>, allArrays: seq<AdfArray>)
  {
    |animalArrays| <= |allArrays| && forall j :: 0 <= j < |animalArrays| ==> allArrays[j] == animalArrays[j]
  }

  /** The layout of the arrays `c` admits is the layout of the chosen ones
      in the shifted list, whose layout fields the cascades kept. */
  lemma {:induction false} AddLayoutCarries(animalArrays: seq<AdfArray>, allArrays: seq<AdfArray>, shifted: seq<AdfArray>, c: Criterion,
                         eligible: seq<nat>, h: int, n: int)
    requires HeadOf(animalArrays, allArrays) && SameLayout(shifted, allArrays)
    requires InRange(eligible, |animalArrays|) && Distinct(eligible)
    requires forall k :: 0 <= k < |eligible| ==> c.Admits(animalArrays[eligible[k]])
    requires AddLaid(animalArrays, c, h, n) && CountsDisjoint(animalArrays, c)
    ensures InRange(eligible, |shifted|) && CountFieldsBelow(shifted, eligible, h, n)
  {
    forall k, l | 0 <= k < l < |eligible|
      ensures !Overlap(shifted[eligible[k]].headerLengthOffset, shifted[eligible[l]].headerLengthOffset)
    {
      var x, y := eligible[k], eligible[l];
      assert shifted[x].headerLengthOffset == animalArrays[x].headerLengthOffset;
      assert shifted[y].headerLengthOffset == animalArrays[y].headerLengthOffset;
      if x < y {
        assert !Overlap(animalArrays[x].headerLengthOffset, animalArrays[y].headerLengthOffset);
      } else {
        assert !Overlap(animalArrays[y].headerLengthOffset, animalArrays[x].headerLengthOffset);
      }
    }
  }

  /** What the insertions did to the shifted list's arrays, they did to the
      arrays as loaded, seen from the body as loaded. */
  lemma {:induction false} AddCarries(s0: seq<byte>, s1: seq<byte>, s2: seq<byte>, s3: seq<byte>, profile: Profile, size: int,
                                      animalArrays: seq<AdfArray>, allArrays: seq<AdfArray>, shifted: seq<AdfArray>,
                                      c: Criterion, eligible: seq<nat>, chunks: seq<seq<AnimalRecord>>, h: nat)
    requires FieldsInBounds(NonInstanceFields(profile), |s0|) && s1 == WriteFields(s0, NonInstanceFields(profile), size)
    requires HeadOf(animalArrays, allArrays) && HeadersInBounds(allArrays, |s0|)
    requires InRange(eligible, |animalArrays|) && |chunks| <= |eligible| && size == AnimalSize * |Flatten(chunks)|
    requires Patch(shifted, s2) == CascadeChunks(Patch(allArrays, s1), eligible, chunks, |chunks|)
    requires forall k :: 0 <= k < |eligible| ==> c.Admits(animalArrays[eligible[k]])
    requires AddLaid(animalArrays, c, h, |s0|) && HeaderFieldsBelow(allArrays, NonInstanceFields(profile), h)
    requires CountsOffPointers(animalArrays, c, allArrays) && CountsOffFields(animalArrays, c, NonInstanceFields(profile))
    requires FieldsApart(NonInstanceFields(profile), allArrays)
    requires ChunksLanded(s2, s3, shifted, eligible, chunks, |chunks|, h)
    ensures RecordsAdded(s0, s3, profile, animalArrays, allArrays, eligible, chunks, h)
  {
    assert PhaseKeeps(Patch(allArrays, s1), Patch(shifted, s2));
    assert shifted == AddShifted(s0, profile, allArrays, eligible, chunks, size);
    AddCountsCarry(s0, s1, s2, s3, profile, size, animalArrays, allArrays, shifted, c, eligible, chunks, h);
    AddPlacementCarries(s0, s1, s2, s3, profile, size, animalArrays, allArrays, shifted, c, eligible, chunks, h);
    AddHeaderCarries(s0, s1, s2, s3, profile, size, animalArrays, allArrays, shifted, c, eligible, chunks, h);
  }

  /** The size fields, the header pointers and the rest of the header part
      the add path leaves, seen from the body as loaded: the insertions
      write in front of `h` only the eligible count fields, and none of
      those shares a byte with a size or pointer field. */
  lemma {:induction false} AddHeaderCarries(s0: seq<byte>, s1: seq<byte>, s2: seq<byte>, s3: seq<byte>, profile: Profile,
                                            size: int, animalArrays: seq<AdfArray>, allArrays: seq<AdfArray>,
                                            shifted: seq<AdfArray>, c: Criterion, eligible: seq<nat>,
                                            chunks: seq<seq<AnimalRecord>>, h: nat)
    requires FieldsInBounds(NonInstanceFields(profile), |s0|) && s1 == WriteFields(s0, NonInstanceFields(profile), size)
    requires PhaseKeeps(Patch(allArrays, s1), Patch(shifted, s2))
    requires HeadOf(animalArrays, allArrays) && SameLayout(shifted, allArrays)
    requires InRange(eligible, |animalArrays|) && |chunks| <= |eligible|
    requires forall k :: 0 <= k < |eligible| ==> c.Admits(animalArrays[eligible[k]])
    requires AddLaid(animalArrays, c, h, |s0|) && HeaderFieldsBelow(allArrays, NonInstanceFields(profile), h)
    requires CountsOffPointers(animalArrays, c, allArrays) && CountsOffFields(animalArrays, c, NonInstanceFields(profile))
    requires FieldsApart(NonInstanceFields(profile), allArrays)
    requires ChunksLanded(s2, s3, shifted, eligible, chunks, |chunks|, h)
    ensures HeaderRepaired(s0, s3, NonInstanceFields(profile), size, allArrays, shifted)
    ensures forall q ::
      (0 <= q < h && OutsideFields(NonInstanceFields(profile), q) && OutsidePointers(allArrays, q) &&
       OutsideCounts(animalArrays, eligible, q)) ==> s3[q] == s0[q]
  {
    var fields := NonInstanceFields(profile);
    forall q | 0 <= q < h && !(OutsideFields(fields, q) && OutsidePointers(allArrays, q))
      ensures s3[q] == s2[q]
    {
      EligibleCountsOff(animalArrays, allArrays, shifted, c, eligible, fields, q);
    }
    HeaderRepairedThrough(s0, s1, s2, s3, profile, size, allArrays, shifted, h);
    forall q | 0 <= q < h && OutsideFields(fields, q) && OutsidePointers(allArrays, q) && OutsideCounts(animalArrays, eligible, q)
      ensures s3[q] == s0[q]
    {
      assert OutsideCounts(shifted, eligible, q) by {
        forall k | 0 <= k < |eligible|
          ensures shifted[eligible[k]].headerLengthOffset == animalArrays[eligible[k]].headerLengthOffset
        {
          assert allArrays[eligible[k]] == animalArrays[eligible[k]];
        }
      }
    }
  }

  /** A byte of a size or pointer field lies in no eligible count field. */
  lemma {:induction false} EligibleCountsOff(animalArrays: seq<AdfArray>, allArrays: seq<AdfArray>, shifted: seq<AdfArray>,
                                             c: Criterion, eligible: seq<nat>, fields: seq<Field>, q: int)
    requires HeadOf(animalArrays, allArrays) && SameLayout(shifted, allArrays) && InRange(eligible, |animalArrays|)
    requires forall k :: 0 <= k < |eligible| ==> c.Admits(animalArrays[eligible[k]])
    requires CountsOffPointers(animalArrays, c, allArrays) && CountsOffFields(animalArrays, c, fields)
    requires !(OutsideFields(fields, q) && OutsidePointers(allArrays, q))
    ensures InRange(eligible, |shifted|) && OutsideCounts(shifted, eligible, q)
  {
    forall k | 0 <= k < |eligible|
      ensures !(shifted[eligible[k]].headerLengthOffset <= q < shifted[eligible[k]].headerLengthOffset + 4)
    {
      var x := eligible[k];
      assert allArrays[x] == animalArrays[x];
      if !OutsideFields(fields, q) {
        var f :| 0 <= f < |fields| && fields[f].offset <= q < fields[f].offset + 4;
        assert !Overlap(animalArrays[x].headerLengthOffset, fields[f].offset);
      } else {
        var j :| 0 <= j < |allArrays| && allArrays[j].headerArrayOffset <= q < allArrays[j].headerArrayOffset + 4;
        assert !Overlap(animalArrays[x].headerLengthOffset, allArrays[j].headerArrayOffset);
      }
    }
  }

  /** Visited latest start first, the arrays `c` admits end no later than
      the ones visited before them, in the shifted list too. */
  lemma {:induction false} AddEndsDescend(animalArrays: seq<AdfArray>, allArrays: seq<AdfArray>, shifted: seq<AdfArray>,
                                          c: Criterion, eligible: seq<nat>)
    requires HeadOf(animalArrays, allArrays) && SameLayout(shifted, allArrays)
    requires InRange(eligible, |animalArrays|)
    requires forall k :: 0 <= k < |eligible| ==> c.Admits(animalArrays[eligible[k]])
    requires LaidInVisitOrder(animalArrays, c) && SortedByStart(animalArrays, eligible)
    ensures InRange(eligible, |shifted|) && EndsDescend(shifted, eligible)
  {
    forall k, l | 0 <= k < l < |eligible|
      ensures shifted[eligible[l]].arrayOrgEndOffset <= shifted[eligible[k]].arrayOrgEndOffset
    {
      var x, y := eligible[k], eligible[l];
      assert Precedes(animalArrays, x, y);
      assert shifted[x].arrayOrgEndOffset == animalArrays[x].arrayOrgEndOffset;
      assert shifted[y].arrayOrgEndOffset == animalArrays[y].arrayOrgEndOffset;
    }
  }

  /** The size fields and the cascades write only in front of `h` when
      every field they write lies there. */
  lemma {:induction false} TailKept(s0: seq<byte>, s1: seq<byte>, s2: seq<byte>, profile: Profile, size: int,
                                    allArrays: seq<AdfArray>, shifted: seq<AdfArray>, h: nat)
    requires FieldsInBounds(NonInstanceFields(profile), |s0|) && s1 == WriteFields(s0, NonInstanceFields(profile), size)
    requires PhaseKeeps(Patch(allArrays, s1), Patch(shifted, s2))
    requires HeaderFieldsBelow(allArrays, NonInstanceFields(profile), h) && h <= |s0|
    ensures |s2| == |s0| && s2[h..] == s0[h..]
  {
    WriteFieldsKeepsTail(s0, NonInstanceFields(profile), size, h);
    forall q | h <= q < |s1|
      ensures s2[q] == s1[q]
    {
      assert OutsidePointers(allArrays, q);
    }
    assert s2[h..] == s1[h..];
  }

  /** Where the records land, seen from the body as loaded: the size
      fields and the header pointers all lie in front of `h`, so from `h`
      on the body the insertions start from is the one loaded. */
  lemma {:induction false} AddPlacementCarries(s0: seq<byte>, s1: seq<byte>, s2: seq<byte>, s3: seq<byte>, profile: Profile,
                                               size: int, animalArrays: seq<AdfArray>, allArrays: seq<AdfArray>,
                                               shifted: seq<AdfArray>, c: Criterion, eligible: seq<nat>,
                                               chunks: seq<seq<AnimalRecord>>, h: nat)
    requires FieldsInBounds(NonInstanceFields(profile), |s0|) && s1 == WriteFields(s0, NonInstanceFields(profile), size)
    requires PhaseKeeps(Patch(allArrays, s1), Patch(shifted, s2))
    requires HeadOf(animalArrays, allArrays) && SameLayout(shifted, allArrays)
    requires InRange(eligible, |animalArrays|) && |chunks| <= |eligible|
    requires forall k :: 0 <= k < |eligible| ==> c.Admits(animalArrays[eligible[k]])
    requires AddLaid(animalArrays, c, h, |s0|) && HeaderFieldsBelow(allArrays, NonInstanceFields(profile), h)
    requires ChunksPlaced(s2, s3, shifted, eligible, chunks, |chunks|, h)
    ensures ChunksPlaced(s0, s3, animalArrays, eligible, chunks, |chunks|, h)
  {
    TailKept(s0, s1, s2, profile, size, allArrays, shifted, h);
    var ends := ChunkEnds(animalArrays, eligible, |chunks|);
    assert ChunkEnds(shifted, eligible, |chunks|) == ends by {
      forall k | 0 <= k < |chunks|
        ensures shifted[eligible[k]].arrayOrgEndOffset == ends[k]
      {
        assert shifted[eligible[k]].arrayOrgEndOffset == allArrays[eligible[k]].arrayOrgEndOffset;
      }
    }
    assert AtLeast(ends, h);
    SplicedAtTail(s2, s0, ends, ChunkBlocks(chunks, |chunks|), h);
  }

  /** The count fields the add path bumps hold, at the end, the counts found
      at load time plus the records dealt to them: the size fields and the
      cascades never touch them. */
  lemma {:induction false} AddCountsCarry(s0: seq<byte>, s1: seq<byte>, s2: seq<byte>, s3: seq<byte>, profile: Profile, size: int,
                       animalArrays: seq<AdfArray>, allArrays: seq<AdfArray>, shifted: seq<AdfArray>, c: Criterion,
                       eligible: seq<nat>, chunks: seq<seq<AnimalRecord>>, h: int)
    requires FieldsInBounds(NonInstanceFields(profile), |s0|) && s1 == WriteFields(s0, NonInstanceFields(profile), size)
    requires PhaseKeeps(Patch(allArrays, s1), Patch(shifted, s2))
    requires HeadOf(animalArrays, allArrays) && SameLayout(shifted, allArrays)
    requires InRange(eligible, |animalArrays|) && |chunks| <= |eligible|
    requires forall k :: 0 <= k < |eligible| ==> c.Admits(animalArrays[eligible[k]])
    requires AddLaid(animalArrays, c, h, |s0|)
    requires CountsOffPointers(animalArrays, c, allArrays) && CountsOffFields(animalArrays, c, NonInstanceFields(profile))
    requires CountFieldsBelow(shifted, eligible, h, |s2|) && |s3| >= |s2|
    requires HeaderCounted(s2, s3, shifted, eligible, chunks, |chunks|, h)
    ensures CountsRaised(s0, s3, animalArrays, eligible, chunks)
  {
    forall k | 0 <= k < |eligible|
      ensures CountMoved(s0, s3, animalArrays[eligible[k]].headerLengthOffset, AddedBy(chunks, |chunks|, k))
    {
      var x := eligible[k];
      var o := animalArrays[x].headerLengthOffset;
      assert shifted[x].headerLengthOffset == o;
      CountFieldCarried(s0, s1, s2, profile, size, animalArrays, allArrays, shifted, c, x);
      CountMovedFrom(s0, s2, s3, o, AddedBy(chunks, |chunks|, k));
    }
  }

  /** A count field that reads the same in `s0` and `s2` has moved by as
      much from either. */
  lemma {:induction false} CountMovedFrom(s0: seq<byte>, s2: seq<byte>, s3: seq<byte>, o: int, added: int)
    requires FieldInBounds(o, |s0|) && |s2| == |s0| && s2[o..o + 4] == s0[o..o + 4]
    requires CountMoved(s2, s3, o, added)
    ensures CountMoved(s0, s3, o, added)
  {
  }

  /** The count field of an admitted array comes through the size fields and
      the cascades as it was. */
  lemma {:induction false} CountFieldCarried(s0: seq<byte>, s1: seq<byte>, s2: seq<byte>, profile: Profile, size: int,
                          animalArrays: seq<AdfArray>, allArrays: seq<AdfArray>, shifted: seq<AdfArray>, c: Criterion,
                          x: nat)
    requires FieldsInBounds(NonInstanceFields(profile), |s0|) && s1 == WriteFields(s0, NonInstanceFields(profile), size)
    requires PhaseKeeps(Patch(allArrays, s1), Patch(shifted, s2))
    requires HeadOf(animalArrays, allArrays)
    requires x < |animalArrays| && c.Admits(animalArrays[x])
    requires FieldInBounds(animalArrays[x].headerLengthOffset, |s0|)
    requires CountsOffPointers(animalArrays, c, allArrays) && CountsOffFields(animalArrays, c, NonInstanceFields(profile))
    ensures |s2| == |s0|
    ensures s2[animalArrays[x].headerLengthOffset..animalArrays[x].headerLengthOffset + 4] ==
      s0[animalArrays[x].headerLengthOffset..animalArrays[x].headerLengthOffset + 4]
  {
    var o := animalArrays[x].headerLengthOffset;
    WriteFieldsKeepsField(s0, NonInstanceFields(profile), size, o);
    forall q | o <= q < o + 4
      ensures s2[q] == s1[q]
    {
      assert OutsidePointers(allArrays, q);
    }
  }

  // ---------------------------------------------------------------------
  // The removal path.

  /** How the removal path finds the records of the arrays `c` admits:
      counted from a non-negative start by non-negative indices. */
  predicate Removable(animalArrays: seq<AdfArray>, c: Criterion, gender: string)
  {
    forall j :: 0 <= j < |animalArrays| && c.Admits(animalArrays[j]) ==>
      animalArrays[j].arrayOrgStartOffset >= 0 && NonNegative(animalArrays[j].CategoryIndices(gender))
  }

  /** The count field of every array `c` admits stays inside a body of
      length `n` once `animalCnt` records are gone from it. */
  predicate CountsStay(animalArrays: seq<AdfArray>, c: Criterion, animalCnt: int, n: int)
  {
    forall j :: 0 <= j < |animalArrays| && c.Admits(animalArrays[j]) ==>
      FieldInBounds(animalArrays[j].headerLengthOffset, n - AnimalSize * animalCnt)
  }

  /** The arrays `c` admits can spare `animalCnt` records of `gender`, so
      the plan meets the request and the body edits run. */
  predicate CanSpare(animalArrays: seq<AdfArray>, c: Criterion, gender: string, animalCnt: int)
  {
    var eligible := Targets(animalArrays, c);
    animalCnt <= TotalSpare(animalArrays, eligible, gender, |eligible|)
  }

  /** The header part of a body of length `n` ends at `h`: every array `c`
      admits lies behind `h` as `LaidBehind` says. */
  predicate RemovalLaid(animalArrays: seq<AdfArray>, c: Criterion, h: int, n: int)
  {
    h <= n &&
    forall j :: 0 <= j < |animalArrays| && c.Admits(animalArrays[j]) ==> LaidBehind(animalArrays[j], h, n)
  }

  /** Every record the index list of an array `c` admits names past the
      first lies inside the array, and the list ascends from there. */
  predicate IndicesLaid(animalArrays: seq<AdfArray>, c: Criterion, gender: string)
  {
    forall j :: 0 <= j < |animalArrays| && c.Admits(animalArrays[j]) ==>
      AscendingFrom1(animalArrays[j].CategoryIndices(gender)) &&
      RecordsInside(animalArrays[j], animalArrays[j].CategoryIndices(gender))
  }

  /** The plan `remove_animals_from_reserve` makes over the arrays `c`
      admits: distinct admitted arrays, each giving up at least one record of
      the gender and never its last; the planned records and what is left
      add up to the request; the plan falls short exactly when the arrays
      cannot spare the request; and a request of no records plans nothing. */
  function RemovalPlan(animalArrays: seq<AdfArray>, c: Criterion, gender: string, animalCnt: int): (p: Plan)
    ensures TargetsIn(p.entries, |animalArrays|) && TargetsDistinct(p.entries)
    ensures forall k :: 0 <= k < |p.entries| ==>
      c.Admits(animalArrays[p.entries[k].target]) &&
      1 <= p.entries[k].count <= animalArrays[p.entries[k].target].CategoryCount(gender) - 1
    ensures PlannedTotal(p.entries) + p.left == animalCnt
    ensures animalCnt >= 0 ==>
      p.left >= 0 &&
      (p.left > 0 <==> TotalSpare(animalArrays, Targets(animalArrays, c), gender, |Targets(animalArrays, c)|) < animalCnt)
    ensures animalCnt <= 0 ==> p == Plan([], animalCnt)
    ensures EntriesInOrder(animalArrays, p.entries)
  {
    var eligible := Targets(animalArrays, c);
    PlanEntriesBounded(animalArrays, eligible, gender, animalCnt, |eligible|);
    PlanTargetsDistinct(animalArrays, eligible, gender, animalCnt, |eligible|);
    PlanAccounts(animalArrays, eligible, gender, animalCnt, |eligible|);
    PlanEdges(animalArrays, eligible, gender, animalCnt);
    EntriesAdmitted(animalArrays, c, gender, eligible, PlanPrefix(animalArrays, eligible, gender, animalCnt, |eligible|).entries);
    PlanFollowsOrder(animalArrays, eligible, gender, animalCnt, |eligible|);
    PlanPrefix(animalArrays, eligible, gender, animalCnt, |eligible|)
  }

  /** Entries drawn from the arrays `c` admits name admitted arrays and
      take what `EntriesBounded` allows. */
  lemma {:induction false} EntriesAdmitted(animalArrays: seq<AdfArray>, c: Criterion, gender: string, eligible: seq<nat>,
                                           entries: seq<Planned>)
    requires InRange(eligible, |animalArrays|)
    requires forall k :: 0 <= k < |eligible| ==> c.Admits(animalArrays[eligible[k]])
    requires EntriesBounded(entries, animalArrays, eligible[..|eligible|], gender)
    ensures TargetsIn(entries, |animalArrays|)
    ensures forall k :: 0 <= k < |entries| ==>
      c.Admits(animalArrays[entries[k].target]) &&
      1 <= entries[k].count <= animalArrays[entries[k].target].CategoryCount(gender) - 1
  {
    assert eligible[..|eligible|] == eligible;
    forall k | 0 <= k < |entries|
      ensures c.Admits(animalArrays[entries[k].target])
    {
      assert entries[k] in entries;
    }
  }

  /** `remove_animals_from_reserve` from the point the archive is loaded,
      for `animalCnt` records of `gender` of the species at
      `populationIndex`. With a request of no records nothing happens. A
      plan the arrays cannot meet fails before anything is written.
      Otherwise the size fields move back, the arrays behind each planned one
      move back by the records it gives up, the records go, and the body is
      saved; an index list no longer than its entry's count (position
      `remove_cnt` does not exist) ends the run with an `IndexError`.

      The ghost flag `laid` switches on the layout hypotheses: the header
      fields lie in front of the ghost bound `h`, apart from one another;
      the admitted arrays lie behind it, one after another in visiting
      order; each index list ascends from position 1 and names records
      inside its array. Only with them does the contract state the exact
      shrinkage of the body, the count of each planned array, the five size
      fields and the header pointers after the edit (`RecordsRemoved`), and
      which records are cut. Without them it states the outcome and the
      saved header. */
  method RemoveAnimalsFromReserve(adf: DecompressedAdfFile, profile: Profile, animalArrays: seq<AdfArray>,
                                  otherArrays: seq<AdfArray>, populationIndex: int, animalCnt: int, gender: string,
                                  compress: seq<byte> -> seq<byte>, ghost h: nat, ghost laid: bool)
    returns (outcome: Outcome)
    requires FieldsInBounds(NonInstanceFields(profile), |adf.data.bytes|)
    requires HeadersInBounds(animalArrays + otherArrays, |adf.data.bytes|)
    requires Removable(animalArrays, ForRemoval(populationIndex, gender), gender)
    requires CanSpare(animalArrays, ForRemoval(populationIndex, gender), gender, animalCnt) ==>
      CountsStay(animalArrays, ForRemoval(populationIndex, gender), animalCnt, |adf.data.bytes|)
    requires laid && CanSpare(animalArrays, ForRemoval(populationIndex, gender), gender, animalCnt) ==>
      RemovalLaid(animalArrays, ForRemoval(populationIndex, gender), h, |adf.data.bytes|)
    requires laid ==> CountsDisjoint(animalArrays, ForRemoval(populationIndex, gender))
    requires laid ==> CountsOffPointers(animalArrays, ForRemoval(populationIndex, gender), animalArrays + otherArrays)
    requires laid ==> CountsOffFields(animalArrays, ForRemoval(populationIndex, gender), NonInstanceFields(profile))
    requires laid ==> LaidInVisitOrder(animalArrays, ForRemoval(populationIndex, gender)) &&
                      IndicesLaid(animalArrays, ForRemoval(populationIndex, gender), gender)
    requires laid ==> HeaderFieldsBelow(animalArrays + otherArrays, NonInstanceFields(profile), h) &&
                      FieldsApart(NonInstanceFields(profile), animalArrays + otherArrays)
    modifies adf.data, adf`fileHeader
    ensures animalCnt == 0 <==> outcome == Unchanged
    ensures outcome == Unchanged || outcome == Failed(NotEnoughAnimals) ==>
      adf.data.bytes == old(adf.data.bytes) && adf.fileHeader == old(adf.fileHeader)
    ensures outcome == Failed(NotEnoughAnimals) <==>
      var eligible := Targets(animalArrays, ForRemoval(populationIndex, gender));
      animalCnt > 0 && TotalSpare(animalArrays, eligible, gender, |eligible|) < animalCnt
    ensures outcome == Failed(IndexOutOfRange) <==>
      var plan := RemovalPlan(animalArrays, ForRemoval(populationIndex, gender), gender, animalCnt);
      animalCnt != 0 && plan.left <= 0 && !EntriesReachable(animalArrays, plan.entries, gender, |plan.entries|)
    ensures outcome.Saved? || outcome == Failed(SizeOverflow) ==>
      Written(outcome, old(adf.fileHeader), adf.fileHeader, adf.orgSize, adf.header + adf.data.bytes, compress)
    ensures laid && (outcome.Saved? || outcome == Failed(SizeOverflow)) ==>
      var plan := RemovalPlan(animalArrays, ForRemoval(populationIndex, gender), gender, animalCnt);
      |adf.data.bytes| == |old(adf.data.bytes)| - AnimalSize * (if animalCnt > 0 then animalCnt else 0) &&
      RecordsRemoved(old(adf.data.bytes), adf.data.bytes, profile, animalArrays, animalArrays + otherArrays,
                     EntriesShifted(animalArrays + otherArrays, plan.entries, |plan.entries|), plan.entries,
                     gender, animalCnt, h)
  {
    if animalCnt == 0 {
      return Unchanged;
    }
    var allArrays := animalArrays + otherArrays;
    var eligible := Targets(animalArrays, ForRemoval(populationIndex, gender));
    var arraysToRemoveFrom, animalsLeftToRemove := PlanRemoval(animalArrays, eligible, gender, animalCnt);
    ghost var plan := RemovalPlan(animalArrays, ForRemoval(populationIndex, gender), gender, animalCnt);
    assert plan == Plan(arraysToRemoveFrom, animalsLeftToRemove);
    if animalsLeftToRemove > 0 {
      return Failed(NotEnoughAnimals);
    }
    assert CanSpare(animalArrays, ForRemoval(populationIndex, gender), gender, animalCnt);
    var ok, shifted := RemoveRecords(adf.data, profile, animalArrays, allArrays, ForRemoval(populationIndex, gender),
                                     gender, arraysToRemoveFrom, animalCnt, h, laid);
    if !ok {
      return Failed(IndexOutOfRange);
    }
    outcome := SaveEdits(adf, compress);
  }

  /** What the deletions of the removal path do to body `s`, giving `r`,
      under the layout bound `h`: one record fewer per planned record, each
      planned count lowered by its entry, and from `h` on exactly the planned
      records cut out. */
  predicate RecordsCut(s: seq<byte>, r: seq<byte>, animalArrays: seq<AdfArray>, entries: seq<Planned>, gender: string,
                       h: nat)
  {
    TargetsIn(entries, |animalArrays|) && |r| == |s| - AnimalSize * PlannedTotal(entries) &&
    CountsLowered(s, r, animalArrays, entries) &&
    PlanCut(s, r, animalArrays, entries, gender, |entries|, h)
  }

  /** What the removal path does to body `s`, giving `r`, under the layout
      bound `h`, when it takes out `count` records and its cascades leave the
      descriptors `shifted`: the records cut as `RecordsCut` says; the size
      fields moved by `Shrink(count)` and the header pointers agreeing with
      `shifted`, as `HeaderRepaired` says; and every other byte in front of
      `h` outside the planned count fields as it was. */
  predicate RecordsRemoved(s: seq<byte>, r: seq<byte>, profile: Profile, animalArrays: seq<AdfArray>,
                           allArrays: seq<AdfArray>, shifted: seq<AdfArray>, entries: seq<Planned>, gender: string,
                           count: int, h: nat)
  {
    RecordsCut(s, r, animalArrays, entries, gender, h) &&
    FieldsInBounds(NonInstanceFields(profile), |s|) && HeadersInBounds(allArrays, |s|) && TargetsIn(entries, |allArrays|) &&
    HeaderRepaired(s, r, NonInstanceFields(profile), Shrink(count), allArrays, shifted) &&
    h <= |r| &&
    forall q ::
      (0 <= q < h && OutsideFields(NonInstanceFields(profile), q) && OutsidePointers(allArrays, q) &&
       OutsideEntryCounts(animalArrays, entries, q)) ==> r[q] == s[q]
  }

  /** Each planned array's count field in `r` holds the one in `s` minus
      the records its entry takes. */
  predicate CountsLowered(s: seq<byte>, r: seq<byte>, animalArrays: seq<AdfArray>, entries: seq<Planned>)
    requires TargetsIn(entries, |animalArrays|)
  {
    forall k :: 0 <= k < |entries| ==>
      CountDropped(s, r, animalArrays[entries[k].target].headerLengthOffset, entries[k].count)
  }

  /** The body edits of the removal path once the plan holds: the size
      fields by `animalCnt` records, then the cascades and the deletions of
      the entries. Under the layout the body shrinks by the planned records
      and each planned count drops by its entry's count. */
  method RemoveRecords(data: ByteArray, profile: Profile, animalArrays: seq<AdfArray>, allArrays: seq<AdfArray>,
                       c: Criterion, gender: string, entries: seq<Planned>, animalCnt: int,
                       ghost h: nat, ghost laid: bool)
    returns (ok: bool, shifted: seq<AdfArray>)
    requires FieldsInBounds(NonInstanceFields(profile), |data.bytes|)
    requires HeadOf(animalArrays, allArrays) && HeadersInBounds(allArrays, |data.bytes|)
    requires TargetsIn(entries, |animalArrays|) && TargetsDistinct(entries)
    requires forall k :: 0 <= k < |entries| ==> c.Admits(animalArrays[entries[k].target]) && entries[k].count >= 1
    requires entries == [] || PlannedTotal(entries) == animalCnt
    requires Removable(animalArrays, c, gender) && CountsStay(animalArrays, c, animalCnt, |data.bytes|)
    requires laid ==> RemovalLaid(animalArrays, c, h, |data.bytes|)
    requires laid ==> CountsDisjoint(animalArrays, c)
    requires laid ==> CountsOffPointers(animalArrays, c, allArrays)
    requires laid ==> CountsOffFields(animalArrays, c, NonInstanceFields(profile))
    requires laid ==> LaidInVisitOrder(animalArrays, c) && IndicesLaid(animalArrays, c, gender)
    requires laid ==> HeaderFieldsBelow(allArrays, NonInstanceFields(profile), h) && EntriesInOrder(animalArrays, entries)
    requires laid ==> FieldsApart(NonInstanceFields(profile), allArrays)
    modifies data
    ensures ok <==> EntriesReachable(animalArrays, entries, gender, |entries|)
    ensures shifted == EntriesShifted(allArrays, entries, |entries|)
    ensures ok && laid ==> RecordsRemoved(old(data.bytes), data.bytes, profile, animalArrays, allArrays, shifted, entries,
                                          gender, animalCnt, h)
  {
    ghost var s0 := data.bytes;
    UpdateNonInstanceOffsets(data, profile, Shrink(animalCnt));
    ghost var s1 := data.bytes;
    shifted := ShiftForEntries(data, allArrays, entries);
    ok := DeletePlanned(data, profile, animalArrays, allArrays, shifted, c, gender, entries, animalCnt, s0, s1,
                        Shrink(animalCnt), h, laid);
  }

  /** The third loop of the removal path, after the size fields (`s0` to
      `s1`) and the cascades (`s1` to the current body, `allArrays` to
      `shifted`) have run. */
  method DeletePlanned(data: ByteArray, profile: Profile, animalArrays: seq<AdfArray>, allArrays: seq<AdfArray>,
                       shifted: seq<AdfArray>, c: Criterion, gender: string, entries: seq<Planned>, animalCnt: int,
                       ghost s0: seq<byte>, ghost s1: seq<byte>, ghost size: int, ghost h: nat, ghost laid: bool)
    returns (ok: bool)
    requires size == Shrink(animalCnt)
    requires FieldsInBounds(NonInstanceFields(profile), |s0|) && s1 == WriteFields(s0, NonInstanceFields(profile), size)
    requires HeadOf(animalArrays, allArrays) && HeadersInBounds(allArrays, |s0|)
    requires TargetsIn(entries, |animalArrays|) && TargetsDistinct(entries)
    requires Patch(shifted, data.bytes) == CascadeEntries(Patch(allArrays, s1), entries, |entries|)
    requires forall k :: 0 <= k < |entries| ==> c.Admits(animalArrays[entries[k].target]) && entries[k].count >= 1
    requires entries == [] || PlannedTotal(entries) == animalCnt
    requires Removable(animalArrays, c, gender) && CountsStay(animalArrays, c, animalCnt, |s0|)
    requires laid ==> RemovalLaid(animalArrays, c, h, |s0|)
    requires laid ==> CountsDisjoint(animalArrays, c)
    requires laid ==> CountsOffPointers(animalArrays, c, allArrays)
    requires laid ==> CountsOffFields(animalArrays, c, NonInstanceFields(profile))
    requires laid ==> LaidInVisitOrder(animalArrays, c) && IndicesLaid(animalArrays, c, gender)
    requires laid ==> HeaderFieldsBelow(allArrays, NonInstanceFields(profile), h) && EntriesInOrder(animalArrays, entries)
    requires laid ==> FieldsApart(NonInstanceFields(profile), allArrays)
    modifies data
    ensures ok <==> EntriesReachable(animalArrays, entries, gender, |entries|)
    ensures ok && laid ==>
      RecordsRemoved(s0, data.bytes, profile, animalArrays, allArrays, shifted, entries, gender, animalCnt, h)
  {
    ghost var s2 := data.bytes;
    RemovalCascadesKeep(s0, s1, s2, profile, size, allArrays, shifted, entries);
    RemovalBoundsCarry(animalArrays, allArrays, shifted, c, gender, entries, animalCnt, |s2|);
    if laid {
      RemovalLayoutCarries(animalArrays, allArrays, shifted, c, gender, entries, h, |s2|);
      RemovalOrderCarries(animalArrays, allArrays, shifted, c, gender, entries);
      RemovalBridge(s0, s1, s2, profile, size, animalArrays, allArrays, shifted, c, gender,
                    entries, animalCnt, h);
    }
    ok := DeleteEntries(data, shifted, entries, gender, h, laid);
    if ok && laid {
      RemovalCarries(s0, s1, s2, data.bytes, profile, animalCnt, animalArrays, allArrays, shifted, c, gender,
                     entries, h);
    }
  }

  /** What the delete phase needs of the planned arrays holds of them in the
      shifted list: the cascades kept their layout and index lists. */
  lemma {:induction false} RemovalBoundsCarry(animalArrays: seq<AdfArray>, allArrays: seq<AdfArray>, shifted: seq<AdfArray>, c: Criterion,
                           gender: string, entries: seq<Planned>, animalCnt: int, n: int)
    requires HeadOf(animalArrays, allArrays) && SameLayout(shifted, allArrays)
    requires TargetsIn(entries, |animalArrays|)
    requires forall k :: 0 <= k < |entries| ==> c.Admits(animalArrays[entries[k].target]) && entries[k].count >= 1
    requires entries == [] || PlannedTotal(entries) == animalCnt
    requires Removable(animalArrays, c, gender) && CountsStay(animalArrays, c, animalCnt, n)
    ensures TargetsIn(entries, |shifted|) && Deletable(shifted, entries, gender, n)
    ensures EntriesReachable(shifted, entries, gender, |entries|) <==>
      EntriesReachable(animalArrays, entries, gender, |entries|)
  {
    forall k | 0 <= k < |entries|
      ensures shifted[entries[k].target].CategoryIndices(gender) ==
        animalArrays[entries[k].target].CategoryIndices(gender)
    {
      assert allArrays[entries[k].target] == animalArrays[entries[k].target];
    }
  }

  /** ... and so does the layout the delete phase keeps to. */
  lemma {:induction false} RemovalLayoutCarries(animalArrays: seq<AdfArray>, allArrays: seq<AdfArray>, shifted: seq<AdfArray>,
                             c: Criterion, gender: string, entries: seq<Planned>, h: int, n: int)
    requires HeadOf(animalArrays, allArrays) && SameLayout(shifted, allArrays)
    requires TargetsIn(entries, |animalArrays|) && TargetsDistinct(entries)
    requires forall k :: 0 <= k < |entries| ==> c.Admits(animalArrays[entries[k].target])
    requires RemovalLaid(animalArrays, c, h, n) && CountsDisjoint(animalArrays, c)
    ensures TargetsIn(entries, |shifted|) && EntriesLaid(shifted, entries, gender, h, n)
  {
    forall k | 0 <= k < |entries|
      ensures LaidBehind(shifted[entries[k].target], h, n)
    {
      assert allArrays[entries[k].target] == animalArrays[entries[k].target];
    }
    forall k, l | 0 <= k < l < |entries|
      ensures !Overlap(shifted[entries[k].target].headerLengthOffset, shifted[entries[l].target].headerLengthOffset)
    {
      var x, y := entries[k].target, entries[l].target;
      if x < y {
        assert !Overlap(animalArrays[x].headerLengthOffset, animalArrays[y].headerLengthOffset);
      } else {
        assert !Overlap(animalArrays[y].headerLengthOffset, animalArrays[x].headerLengthOffset);
      }
    }
  }

  /** ... and so does the order the entries' arrays lie in. */
  lemma {:induction false} RemovalOrderCarries(animalArrays: seq<AdfArray>, allArrays: seq<AdfArray>, shifted: seq<AdfArray>,
                                               c: Criterion, gender: string, entries: seq<Planned>)
    requires HeadOf(animalArrays, allArrays) && SameLayout(shifted, allArrays)
    requires TargetsIn(entries, |animalArrays|)
    requires forall k :: 0 <= k < |entries| ==> c.Admits(animalArrays[entries[k].target])
    requires LaidInVisitOrder(animalArrays, c) && IndicesLaid(animalArrays, c, gender)
    requires EntriesInOrder(animalArrays, entries)
    ensures TargetsIn(entries, |shifted|) && EntriesOrdered(shifted, entries, gender)
  {
    forall k | 0 <= k < |entries|
      ensures shifted[entries[k].target].arrayOrgStartOffset == animalArrays[entries[k].target].arrayOrgStartOffset
      ensures shifted[entries[k].target].arrayOrgEndOffset == animalArrays[entries[k].target].arrayOrgEndOffset
      ensures shifted[entries[k].target].CategoryIndices(gender) == animalArrays[entries[k].target].CategoryIndices(gender)
    {
      assert allArrays[entries[k].target] == animalArrays[entries[k].target];
    }
    forall k, l | 0 <= k < l < |entries|
      ensures shifted[entries[l].target].arrayOrgEndOffset <= shifted[entries[k].target].arrayOrgStartOffset
    {
      assert Precedes(animalArrays, entries[k].target, entries[l].target);
    }
    forall k | 0 <= k < |entries|
      ensures RecordsInside(shifted[entries[k].target], shifted[entries[k].target].CategoryIndices(gender))
    {
      var x := entries[k].target;
      assert forall i :: RecordOffset(shifted[x], i) == RecordOffset(animalArrays[x], i);
    }
  }

  /** What the removal path's last loop needs to know of the body `s2` the
      cascades left, against the body `s0` as loaded: the two agree from `h`
      on and on every planned count field, and every planned array has the
      same count field, start and index list in the shifted list. */
  predicate Bridged(s0: seq<byte>, s2: seq<byte>, animalArrays: seq<AdfArray>, shifted: seq<AdfArray>,
                    entries: seq<Planned>, gender: string, h: nat)
  {
    TargetsIn(entries, |animalArrays|) && TargetsIn(entries, |shifted|) &&
    |s2| == |s0| && h <= |s0| && s2[h..] == s0[h..] &&
    forall k :: 0 <= k < |entries| ==>
      shifted[entries[k].target].headerLengthOffset == animalArrays[entries[k].target].headerLengthOffset &&
      shifted[entries[k].target].arrayOrgStartOffset == animalArrays[entries[k].target].arrayOrgStartOffset &&
      shifted[entries[k].target].CategoryIndices(gender) == animalArrays[entries[k].target].CategoryIndices(gender) &&
      h <= animalArrays[entries[k].target].arrayOrgStartOffset &&
      NonNegative(animalArrays[entries[k].target].CategoryIndices(gender)) &&
      FieldInBounds(animalArrays[entries[k].target].headerLengthOffset, |s0|) &&
      s2[animalArrays[entries[k].target].headerLengthOffset..animalArrays[entries[k].target].headerLengthOffset + 4] ==
        s0[animalArrays[entries[k].target].headerLengthOffset..animalArrays[entries[k].target].headerLengthOffset + 4]
  }

  /** The size fields and the cascades leave the body `Bridged` to the one
      loaded. */
  lemma {:induction false} RemovalBridge(s0: seq<byte>, s1: seq<byte>, s2: seq<byte>, profile: Profile, size: int,
                                         animalArrays: seq<AdfArray>, allArrays: seq<AdfArray>, shifted: seq<AdfArray>,
                                         c: Criterion, gender: string, entries: seq<Planned>, animalCnt: int, h: nat)
    requires FieldsInBounds(NonInstanceFields(profile), |s0|) && s1 == WriteFields(s0, NonInstanceFields(profile), size)
    requires PhaseKeeps(Patch(allArrays, s1), Patch(shifted, s2))
    requires HeadOf(animalArrays, allArrays) && SameLayout(shifted, allArrays)
    requires TargetsIn(entries, |animalArrays|)
    requires forall k :: 0 <= k < |entries| ==> c.Admits(animalArrays[entries[k].target])
    requires Removable(animalArrays, c, gender) && CountsStay(animalArrays, c, animalCnt, |s0|)
    requires RemovalLaid(animalArrays, c, h, |s0|)
    requires CountsOffPointers(animalArrays, c, allArrays) && CountsOffFields(animalArrays, c, NonInstanceFields(profile))
    requires HeaderFieldsBelow(allArrays, NonInstanceFields(profile), h)
    ensures Bridged(s0, s2, animalArrays, shifted, entries, gender, h)
  {
    TailKept(s0, s1, s2, profile, size, allArrays, shifted, h);
    forall k | 0 <= k < |entries|
      ensures FieldInBounds(animalArrays[entries[k].target].headerLengthOffset, |s0|)
      ensures s2[animalArrays[entries[k].target].headerLengthOffset..animalArrays[entries[k].target].headerLengthOffset + 4] ==
        s0[animalArrays[entries[k].target].headerLengthOffset..animalArrays[entries[k].target].headerLengthOffset + 4]
      ensures shifted[entries[k].target].headerLengthOffset == animalArrays[entries[k].target].headerLengthOffset
      ensures shifted[entries[k].target].arrayOrgStartOffset == animalArrays[entries[k].target].arrayOrgStartOffset
      ensures shifted[entries[k].target].CategoryIndices(gender) == animalArrays[entries[k].target].CategoryIndices(gender)
    {
      var x := entries[k].target;
      assert allArrays[x] == animalArrays[x];
      CountFieldCarried(s0, s1, s2, profile, size, animalArrays, allArrays, shifted, c, x);
    }
  }

  /** The records the plan takes are where the cascades left them: the
      cascades keep every planned array's start and index list. */
  lemma {:induction false} PlanCutsSame(animalArrays: seq<AdfArray>, shifted: seq<AdfArray>, entries: seq<Planned>,
                                        gender: string, i: nat)
    requires TargetsIn(entries, |animalArrays|) && TargetsIn(entries, |shifted|) && CountsNonNegative(entries)
    requires i <= |entries| && EntriesReachable(shifted, entries, gender, i)
    requires forall k :: 0 <= k < |entries| ==>
      shifted[entries[k].target].arrayOrgStartOffset == animalArrays[entries[k].target].arrayOrgStartOffset &&
      shifted[entries[k].target].CategoryIndices(gender) == animalArrays[entries[k].target].CategoryIndices(gender)
    ensures EntriesReachable(animalArrays, entries, gender, i)
    ensures PlanCuts(animalArrays, entries, gender, i) == PlanCuts(shifted, entries, gender, i)
  {
    if i > 0 {
      PlanCutsSame(animalArrays, shifted, entries, gender, i - 1);
      var a, b := animalArrays[entries[i - 1].target], shifted[entries[i - 1].target];
      var indices, n := a.CategoryIndices(gender), entries[i - 1].count;
      assert a.arrayOrgStartOffset == b.arrayOrgStartOffset && b.CategoryIndices(gender) == indices;
      assert EntriesReachable(animalArrays, entries, gender, i);
      assert forall x :: RecordOffset(a, x) == RecordOffset(b, x);
      assert EntryCuts(a, indices, n, n) == EntryCuts(b, indices, n, n);
    }
  }

  /** What the delete phase did to the shifted list's arrays in the body the
      cascades left, it did to the arrays as loaded in the body as loaded. */
  lemma {:induction false} RemovalCarries(s0: seq<byte>, s1: seq<byte>, s2: seq<byte>, s3: seq<byte>, profile: Profile,
                                          count: int, animalArrays: seq<AdfArray>, allArrays: seq<AdfArray>,
                                          shifted: seq<AdfArray>, c: Criterion, gender: string, entries: seq<Planned>,
                                          h: nat)
    requires FieldsInBounds(NonInstanceFields(profile), |s0|) && s1 == WriteFields(s0, NonInstanceFields(profile), Shrink(count))
    requires HeadOf(animalArrays, allArrays) && HeadersInBounds(allArrays, |s0|) && TargetsIn(entries, |animalArrays|)
    requires PhaseKeeps(Patch(allArrays, s1), Patch(shifted, s2))
    requires forall k :: 0 <= k < |entries| ==> c.Admits(animalArrays[entries[k].target]) && entries[k].count >= 1
    requires HeaderFieldsBelow(allArrays, NonInstanceFields(profile), h) && FieldsApart(NonInstanceFields(profile), allArrays)
    requires CountsOffPointers(animalArrays, c, allArrays) && CountsOffFields(animalArrays, c, NonInstanceFields(profile))
    requires Bridged(s0, s2, animalArrays, shifted, entries, gender, h)
    requires EntriesGone(s2, s3, shifted, entries, gender, h)
    ensures RecordsRemoved(s0, s3, profile, animalArrays, allArrays, shifted, entries, gender, count, h)
  {
    RemovalBodyCarries(s0, s2, s3, animalArrays, shifted, entries, gender, h);
    RemovalHeaderCarries(s0, s1, s2, s3, profile, Shrink(count), animalArrays, allArrays, shifted, c, gender, entries, h);
  }

  /** The cascades of the second loop of the removal path kept what
      `PhaseKeeps` says, from the body with its size fields written on. */
  lemma {:induction false} RemovalCascadesKeep(s0: seq<byte>, s1: seq<byte>, s2: seq<byte>, profile: Profile, size: int,
                                               allArrays: seq<AdfArray>, shifted: seq<AdfArray>, entries: seq<Planned>)
    requires FieldsInBounds(NonInstanceFields(profile), |s0|) && s1 == WriteFields(s0, NonInstanceFields(profile), size)
    requires HeadersInBounds(allArrays, |s0|) && TargetsIn(entries, |allArrays|)
    requires Patch(shifted, s2) == CascadeEntries(Patch(allArrays, s1), entries, |entries|)
    ensures PhaseKeeps(Patch(allArrays, s1), Patch(shifted, s2))
  {
  }

  /** ... the records and the counts ... */
  lemma {:induction false} RemovalBodyCarries(s0: seq<byte>, s2: seq<byte>, s3: seq<byte>, animalArrays: seq<AdfArray>,
                                              shifted: seq<AdfArray>, entries: seq<Planned>, gender: string, h: nat)
    requires Bridged(s0, s2, animalArrays, shifted, entries, gender, h) && CountsNonNegative(entries)
    requires EntriesGone(s2, s3, shifted, entries, gender, h)
    ensures RecordsCut(s0, s3, animalArrays, entries, gender, h)
  {
    forall k | 0 <= k < |entries|
      ensures CountDropped(s0, s3, animalArrays[entries[k].target].headerLengthOffset, entries[k].count)
    {
      var o := animalArrays[entries[k].target].headerLengthOffset;
      CountDroppedFrom(s0, s2, s3, o, TakenBy(entries, |entries|, k));
    }
    var ps := PlanCuts(shifted, entries, gender, |entries|);
    PlanCutsSame(animalArrays, shifted, entries, gender, |entries|);
    PlanCutsAtLeast(animalArrays, entries, gender, |entries|, h);
    ExcisedAtTail(s2, s0, ps, h);
  }

  /** ... and the rest of the header part: the deletions write in front of
      `h` only the planned count fields, and none of those shares a byte
      with a size or pointer field. */
  lemma {:induction false} RemovalHeaderCarries(s0: seq<byte>, s1: seq<byte>, s2: seq<byte>, s3: seq<byte>, profile: Profile,
                                                size: int, animalArrays: seq<AdfArray>, allArrays: seq<AdfArray>,
                                                shifted: seq<AdfArray>, c: Criterion, gender: string, entries: seq<Planned>,
                                                h: nat)
    requires FieldsInBounds(NonInstanceFields(profile), |s0|) && s1 == WriteFields(s0, NonInstanceFields(profile), size)
    requires PhaseKeeps(Patch(allArrays, s1), Patch(shifted, s2))
    requires HeadOf(animalArrays, allArrays) && SameLayout(shifted, allArrays) && TargetsIn(entries, |animalArrays|)
    requires forall k :: 0 <= k < |entries| ==> c.Admits(animalArrays[entries[k].target])
    requires HeaderFieldsBelow(allArrays, NonInstanceFields(profile), h) && FieldsApart(NonInstanceFields(profile), allArrays)
    requires CountsOffPointers(animalArrays, c, allArrays) && CountsOffFields(animalArrays, c, NonInstanceFields(profile))
    requires h <= |s0| && EntriesGone(s2, s3, shifted, entries, gender, h)
    ensures HeaderRepaired(s0, s3, NonInstanceFields(profile), size, allArrays, shifted)
    ensures forall q ::
      (0 <= q < h && OutsideFields(NonInstanceFields(profile), q) && OutsidePointers(allArrays, q) &&
       OutsideEntryCounts(animalArrays, entries, q)) ==> s3[q] == s0[q]
  {
    var fields := NonInstanceFields(profile);
    forall q | 0 <= q < h && !(OutsideFields(fields, q) && OutsidePointers(allArrays, q))
      ensures s3[q] == s2[q]
    {
      EntryCountsOff(animalArrays, allArrays, shifted, c, entries, fields, q);
    }
    HeaderRepairedThrough(s0, s1, s2, s3, profile, size, allArrays, shifted, h);
    forall q | 0 <= q < h && OutsideFields(fields, q) && OutsidePointers(allArrays, q) &&
               OutsideEntryCounts(animalArrays, entries, q)
      ensures s3[q] == s0[q]
    {
      assert OutsideEntryCounts(shifted, entries, q) by {
        forall k | 0 <= k < |entries|
          ensures shifted[entries[k].target].headerLengthOffset == animalArrays[entries[k].target].headerLengthOffset
        {
          assert allArrays[entries[k].target] == animalArrays[entries[k].target];
        }
      }
    }
  }

  /** A byte of a size or pointer field lies in no planned count field. */
  lemma {:induction false} EntryCountsOff(animalArrays: seq<AdfArray>, allArrays: seq<AdfArray>, shifted: seq<AdfArray>,
                                          c: Criterion, entries: seq<Planned>, fields: seq<Field>, q: int)
    requires HeadOf(animalArrays, allArrays) && SameLayout(shifted, allArrays) && TargetsIn(entries, |animalArrays|)
    requires forall k :: 0 <= k < |entries| ==> c.Admits(animalArrays[entries[k].target])
    requires CountsOffPointers(animalArrays, c, allArrays) && CountsOffFields(animalArrays, c, fields)
    requires !(OutsideFields(fields, q) && OutsidePointers(allArrays, q))
    ensures TargetsIn(entries, |shifted|) && OutsideEntryCounts(shifted, entries, q)
  {
    forall k | 0 <= k < |entries|
      ensures !(shifted[entries[k].target].headerLengthOffset <= q < shifted[entries[k].target].headerLengthOffset + 4)
    {
      var x := entries[k].target;
      assert allArrays[x] == animalArrays[x];
      if !OutsideFields(fields, q) {
        var f :| 0 <= f < |fields| && fields[f].offset <= q < fields[f].offset + 4;
        assert !Overlap(animalArrays[x].headerLengthOffset, fields[f].offset);
      } else {
        var j :| 0 <= j < |allArrays| && allArrays[j].headerArrayOffset <= q < allArrays[j].headerArrayOffset + 4;
        assert !Overlap(animalArrays[x].headerLengthOffset, allArrays[j].headerArrayOffset);
      }
    }
  }

  /** A count field that reads the same in `s0` and `s2` has dropped by as
      much from either. */
  lemma {:induction false} CountDroppedFrom(s0: seq<byte>, s2: seq<byte>, s3: seq<byte>, o: int, taken: int)
    requires FieldInBounds(o, |s0|) && |s2| == |s0| && s2[o..o + 4] == s0[o..o + 4]
    requires CountDropped(s2, s3, o, taken)
    ensures CountDropped(s0, s3, o, taken)
  {
  }

  /** The shortfall of a plan for a request of at least no records, and
      the empty plan for one of at most none. */
  lemma {:induction false} PlanEdges(animalArrays: seq<AdfArray>, eligible: seq<nat>, gender: string, animalCnt: int)
    requires InRange(eligible, |animalArrays|)
    ensures var p := PlanPrefix(animalArrays, eligible, gender, animalCnt, |eligible|);
      (animalCnt >= 0 ==>
        p.left >= 0 && (p.left > 0 <==> TotalSpare(animalArrays, eligible, gender, |eligible|) < animalCnt)) &&
      (animalCnt <= 0 ==> p == Plan([], animalCnt))
  {
    if animalCnt >= 0 {
      PlanLeftover(animalArrays, eligible, gender, animalCnt, |eligible|);
    }
    if animalCnt <= 0 {
      PlanNonPositive(animalArrays, eligible, gender, animalCnt, |eligible|);
    }
  }
}

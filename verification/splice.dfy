/** The splice primitives of the patch engine and the offset cascade they
    rely on: `_update_non_instance_offsets`, `_update_instance_arrays`,
    `_insert_animal` and `_remove_animal`. Each method edits the shared body
    buffer (and, for the cascade, the array descriptors) in place and is
    specified by a function of the old state; the lemmas below say what those
    functions do to the archive. */
module Splice {
  import opened Bytes
  import opened AdfProfile

  /** A u32 field to overwrite: where it is and the value to add the size
      change to. */
  datatype Field = Field(offset: int, value: int)

  predicate FieldsInBounds(fields: seq<Field>, n: int)
  {
    forall k :: 0 <= k < |fields| ==> FieldInBounds(fields[k].offset, n)
  }

  /** Two u32 fields share at least one byte. */
  predicate Overlap(a: int, b: int)
  {
    a < b + 4 && b < a + 4
  }

  /** Writing one field leaves the bytes of a field it does not overlap. */
  lemma {:induction false} SetU32KeepsField(s: seq<byte>, off: int, v: int, o: int)
    requires FieldInBounds(off, |s|) && FieldInBounds(o, |s|) && !Overlap(o, off)
    ensures SetU32(s, off, v)[o..o + 4] == s[o..o + 4]
  {
    SetU32Effect(s, off, v);
    var r := SetU32(s, off, v);
    assert forall p :: o <= p < o + 4 ==> r[p] == s[p];
  }

  /** No field written after field `k` touches field `k`'s bytes. */
  predicate LastWriter(fields: seq<Field>, k: int)
    requires 0 <= k < |fields|
  {
    forall j :: k < j < |fields| ==> !Overlap(fields[j].offset, fields[k].offset)
  }

  /** Write `value + delta` into each field in turn (a later write wins where
      two fields overlap). */
  function WriteFields(s: seq<byte>, fields: seq<Field>, delta: int): (r: seq<byte>)
    requires FieldsInBounds(fields, |s|)
    ensures |r| == |s|
    decreases |fields|
  {
    if fields == [] then s
    else WriteFields(SetU32(s, fields[0].offset, fields[0].value + delta), fields[1..], delta)
  }

  /** Writing a list and then one more field is writing the longer list. */
  lemma {:induction false} WriteFieldsSnoc(s: seq<byte>, fields: seq<Field>, f: Field, delta: int)
    requires FieldsInBounds(fields, |s|) && FieldInBounds(f.offset, |s|)
    ensures FieldsInBounds(fields + [f], |s|)
    ensures WriteFields(s, fields + [f], delta) == SetU32(WriteFields(s, fields, delta), f.offset, f.value + delta)
    decreases |fields|
  {
    assert forall k :: 0 <= k < |fields| ==> (fields + [f])[k] == fields[k];
    if fields != [] {
      var s' := SetU32(s, fields[0].offset, fields[0].value + delta);
      assert (fields + [f])[0] == fields[0];
      assert (fields + [f])[1..] == fields[1..] + [f];
      WriteFieldsSnoc(s', fields[1..], f, delta);
    }
  }

  /** A byte outside every field keeps its value. */
  lemma {:induction false} WriteFieldsFrame(s: seq<byte>, fields: seq<Field>, delta: int, p: int)
    requires FieldsInBounds(fields, |s|) && 0 <= p < |s|
    requires forall k :: 0 <= k < |fields| ==> !(fields[k].offset <= p < fields[k].offset + 4)
    ensures WriteFields(s, fields, delta)[p] == s[p]
    decreases |fields|
  {
    if fields != [] {
      var s' := SetU32(s, fields[0].offset, fields[0].value + delta);
      assert !(fields[0].offset <= p < fields[0].offset + 4);
      SetU32Effect(s, fields[0].offset, fields[0].value + delta);
      assert forall k :: 0 <= k < |fields| - 1 ==> fields[1..][k] == fields[k + 1];
      WriteFieldsFrame(s', fields[1..], delta, p);
    }
  }

  /** The bytes of a field that no written field overlaps are kept. */
  lemma {:induction false} WriteFieldsKeepsField(s: seq<byte>, fields: seq<Field>, delta: int, o: int)
    requires FieldsInBounds(fields, |s|) && FieldInBounds(o, |s|)
    requires forall k :: 0 <= k < |fields| ==> !Overlap(o, fields[k].offset)
    ensures WriteFields(s, fields, delta)[o..o + 4] == s[o..o + 4]
    decreases |fields|
  {
    if fields != [] {
      var s' := SetU32(s, fields[0].offset, fields[0].value + delta);
      SetU32KeepsField(s, fields[0].offset, fields[0].value + delta, o);
      assert forall k :: 0 <= k < |fields| - 1 ==> fields[1..][k] == fields[k + 1];
      WriteFieldsKeepsField(s', fields[1..], delta, o);
    }
  }

  /** Writing fields that all end by `h` leaves every byte from `h` on. */
  lemma {:induction false} WriteFieldsKeepsTail(s: seq<byte>, fields: seq<Field>, delta: int, h: nat)
    requires FieldsInBounds(fields, |s|) && h <= |s|
    requires forall k :: 0 <= k < |fields| ==> fields[k].offset + 4 <= h
    ensures WriteFields(s, fields, delta)[h..] == s[h..]
    decreases |fields|
  {
    if fields != [] {
      var off := fields[0].offset;
      var s' := SetU32(s, off, fields[0].value + delta);
      assert s'[h..] == s[h..] by {
        assert s' == (s[..off] + U32(fields[0].value + delta)) + s[off + 4..];
        assert s[off + 4..][h - off - 4..] == s[h..];
      }
      assert forall k :: 0 <= k < |fields| - 1 ==> fields[1..][k] == fields[k + 1];
      WriteFieldsKeepsTail(s', fields[1..], delta, h);
    }
  }

  /** A field that no later field overlaps ends up holding its own value
      plus `delta`. */
  lemma {:induction false} WriteFieldsValue(s: seq<byte>, fields: seq<Field>, delta: int, k: int)
    requires FieldsInBounds(fields, |s|) && 0 <= k < |fields| && LastWriter(fields, k)
    ensures WriteFields(s, fields, delta)[fields[k].offset..fields[k].offset + 4] == U32(fields[k].value + delta)
    decreases |fields|
  {
    var s' := SetU32(s, fields[0].offset, fields[0].value + delta);
    var rest := fields[1..];
    assert forall j :: 0 <= j < |rest| ==> rest[j] == fields[j + 1];
    var r := WriteFields(s, fields, delta);
    assert r == WriteFields(s', rest, delta);
    if k == 0 {
      var o := fields[0].offset;
      SetU32Effect(s, o, fields[0].value + delta);
      forall j | 0 <= j < |rest|
        ensures !Overlap(o, rest[j].offset)
      {
        assert !Overlap(fields[j + 1].offset, o);
      }
      WriteFieldsKeepsField(s', rest, delta, o);
    } else {
      assert LastWriter(rest, k - 1);
      WriteFieldsValue(s', rest, delta, k - 1);
    }
  }

  /** The five size-dependent fields `_update_non_instance_offsets` rewrites,
      in source order: the instance, type and name table pointers, the total
      size, and the size of the first instance (12 bytes into its header). */
  function NonInstanceFields(p: Profile): (r: seq<Field>)
    ensures |r| == 5
  {
    [Field(p.headerInstanceOffset, p.instanceHeaderStart),
     Field(p.headerTypedefOffset, p.typedefStart),
     Field(p.headerNametableOffset, p.nametableStart),
     Field(p.headerTotalSizeOffset, p.totalSize),
     Field(p.instanceHeaderStart + 12, p.firstInstanceSize)]
  }

  /** `_update_non_instance_offsets`: store `profile value + addedSize` into
      each of the five fields. The new value comes from the profile, not from
      the buffer. */
  method UpdateNonInstanceOffsets(data: ByteArray, profile: Profile, addedSize: int)
    requires FieldsInBounds(NonInstanceFields(profile), |data.bytes|)
    modifies data
    ensures data.bytes == WriteFields(old(data.bytes), NonInstanceFields(profile), addedSize)
  {
    var offsetsToUpdate := NonInstanceFields(profile);
    var i := 0;
    while i < |offsetsToUpdate|
      invariant 0 <= i <= |offsetsToUpdate|
      invariant |data.bytes| == |old(data.bytes)|
      invariant data.bytes == WriteFields(old(data.bytes), offsetsToUpdate[..i], addedSize)
    {
      var offset := offsetsToUpdate[i];
      WriteFieldsSnoc(old(data.bytes), offsetsToUpdate[..i], offset, addedSize);
      assert offsetsToUpdate[..i + 1] == offsetsToUpdate[..i] + [offset];
      data.bytes := SetU32(data.bytes, offset.offset, offset.value + addedSize);
      i := i + 1;
    }
    assert offsetsToUpdate[..i] == offsetsToUpdate;
  }

  /** With pairwise disjoint fields, the update stores exactly
      `profile value + addedSize` at each of the five fields and leaves
      every other byte, and the buffer length, as they were. */
  lemma {:induction false} NonInstanceOffsetsEffect(s: seq<byte>, profile: Profile, addedSize: int)
    requires FieldsInBounds(NonInstanceFields(profile), |s|)
    requires forall i, j :: 0 <= i < j < 5 ==>
      !Overlap(NonInstanceFields(profile)[i].offset, NonInstanceFields(profile)[j].offset)
    ensures var r := WriteFields(s, NonInstanceFields(profile), addedSize);
      |r| == |s| &&
      (forall k :: 0 <= k < 5 ==>
        var f := NonInstanceFields(profile)[k];
        r[f.offset..f.offset + 4] == U32(f.value + addedSize)) &&
      (forall p :: 0 <= p < |s| &&
        (forall k :: 0 <= k < 5 ==>
          !(NonInstanceFields(profile)[k].offset <= p < NonInstanceFields(profile)[k].offset + 4))
        ==> r[p] == s[p])
  {
    var fields := NonInstanceFields(profile);
    forall k | 0 <= k < 5
      ensures var f := fields[k]; WriteFields(s, fields, addedSize)[f.offset..f.offset + 4] == U32(f.value + addedSize)
    {
      WriteFieldsValue(s, fields, addedSize, k);
    }
    forall p | 0 <= p < |s| && (forall k :: 0 <= k < 5 ==> !(fields[k].offset <= p < fields[k].offset + 4))
      ensures WriteFields(s, fields, addedSize)[p] == s[p]
    {
      WriteFieldsFrame(s, fields, addedSize, p);
    }
  }

  // ---------------------------------------------------------------------
  // The cascade over array descriptors.

  /** Descriptor lists that agree on what the later phases read and the
      cascade leaves alone: where the header fields are, where the records
      were found and which records are of which gender. */
  predicate SameLayout(a: seq<AdfArray>, b: seq<AdfArray>)
  {
    |a| == |b| &&
    forall j :: 0 <= j < |a| ==>
      a[j].headerArrayOffset == b[j].headerArrayOffset && a[j].headerLengthOffset == b[j].headerLengthOffset &&
      a[j].arrayOrgStartOffset == b[j].arrayOrgStartOffset && a[j].arrayOrgEndOffset == b[j].arrayOrgEndOffset &&
      a[j].maleIndices == b[j].maleIndices && a[j].femaleIndices == b[j].femaleIndices
  }

  /** The cascade test of `_update_instance_arrays`: the array starts at or
      after the pivot end and is not a placeholder (start 0). A placeholder
      never moves; against a pivot end past 0 the test is only the
      comparison of offsets. */
  predicate Moves(start: int, pivotEnd: int)
    ensures Moves(start, pivotEnd) ==> start != 0
    ensures pivotEnd > 0 ==> (Moves(start, pivotEnd) <==> start >= pivotEnd)
  {
    start >= pivotEnd && start != 0
  }

  /** The target's end as the cascade loop sees it on reaching index `i`.
      The target is itself one of the descriptors (at index `t`). If it
      passes its own test (it starts at or after its own end, that is, it is
      empty) it is shifted when the loop reaches it, and every later index
      is compared with the shifted end. The pivot is the target's end or
      that end moved by `size`, and it moves only past an empty target. */
  function PivotEndAt(arrays: seq<AdfArray>, t: nat, size: int, i: int): (r: int)
    requires t < |arrays|
    ensures r == arrays[t].arrayEndOffset || r == arrays[t].arrayEndOffset + size
    ensures r != arrays[t].arrayEndOffset ==> t < i && arrays[t].arrayEndOffset <= arrays[t].arrayStartOffset
  {
    var target := arrays[t];
    if t < i && Moves(target.arrayStartOffset, target.arrayEndOffset) then target.arrayEndOffset + size
    else target.arrayEndOffset
  }

  /** Whether the cascade shifts the descriptor at index `j`. A placeholder
      never moves, and around a target that is not empty every descriptor
      is tested against the target's own end. */
  predicate MovesAt(arrays: seq<AdfArray>, t: nat, size: int, j: int)
    requires t < |arrays| && 0 <= j < |arrays|
    ensures MovesAt(arrays, t, size, j) ==> arrays[j].arrayStartOffset != 0
    ensures !Moves(arrays[t].arrayStartOffset, arrays[t].arrayEndOffset) ==>
      (MovesAt(arrays, t, size, j) <==> Moves(arrays[j].arrayStartOffset, arrays[t].arrayEndOffset))
  {
    Moves(arrays[j].arrayStartOffset, PivotEndAt(arrays, t, size, j))
  }

  /** The descriptors after the cascade around the target at index `t`. */
  function Cascade(arrays: seq<AdfArray>, t: nat, size: int): (r: seq<AdfArray>)
    requires t < |arrays|
    ensures |r| == |arrays| && SameLayout(r, arrays)
    ensures forall j :: 0 <= j < |r| ==> r[j] == arrays[j] || r[j] == arrays[j].Shifted(size)
  {
    seq(|arrays|, j requires 0 <= j < |arrays| =>
      if MovesAt(arrays, t, size, j) then arrays[j].Shifted(size) else arrays[j])
  }

  /** Every header pointer field lies inside a buffer of length `n`. */
  predicate HeadersInBounds(arrays: seq<AdfArray>, n: int)
  {
    forall j :: 0 <= j < |arrays| ==> FieldInBounds(arrays[j].headerArrayOffset, n)
  }

  /** No two descriptors store their pointers in overlapping bytes. */
  predicate HeadersDisjoint(arrays: seq<AdfArray>)
  {
    forall i, j :: 0 <= i < j < |arrays| ==> !Overlap(arrays[i].headerArrayOffset, arrays[j].headerArrayOffset)
  }

  /** The body buffer after the cascade loop has visited the first `n`
      descriptors: each shifted descriptor's new relative start is stored at
      its header pointer offset, in list order. Nothing is inserted or
      removed. */
  function CascadeBytes(arrays: seq<AdfArray>, t: nat, size: int, orig: seq<byte>, n: int): (r: seq<byte>)
    requires t < |arrays| && 0 <= n <= |arrays| && HeadersInBounds(arrays, |orig|)
    ensures |r| == |orig|
    decreases n
  {
    if n == 0 then orig
    else
      var prev := CascadeBytes(arrays, t, size, orig, n - 1);
      if MovesAt(arrays, t, size, n - 1)
      then SetU32(prev, arrays[n - 1].headerArrayOffset, arrays[n - 1].relArrayStartOffset + size)
      else prev
  }

  /** `_update_instance_arrays`: walk the descriptors in list order and shift
      by `size` every one that passes the cascade test against the target's
      current end, storing its new relative start into its header pointer.
      The target is given by its position in the list, so that shifting it
      is seen by every later test. No byte is inserted or removed. */
  method UpdateInstanceArrays(data: ByteArray, animalArrays: seq<AdfArray>, targetArray: nat, size: int)
    returns (arrays: seq<AdfArray>)
    requires targetArray < |animalArrays|
    requires HeadersInBounds(animalArrays, |data.bytes|)
    modifies data
    ensures arrays == Cascade(animalArrays, targetArray, size)
    ensures data.bytes == CascadeBytes(animalArrays, targetArray, size, old(data.bytes), |animalArrays|)
  {
    arrays := animalArrays;
    var bytes := data.bytes;
    for i := 0 to |arrays|
      invariant |arrays| == |animalArrays|
      invariant forall j :: 0 <= j < |arrays| ==>
        arrays[j] == if j < i && MovesAt(animalArrays, targetArray, size, j) then animalArrays[j].Shifted(size) else animalArrays[j]
      invariant arrays[targetArray].arrayEndOffset == PivotEndAt(animalArrays, targetArray, size, i)
      invariant bytes == CascadeBytes(animalArrays, targetArray, size, old(data.bytes), i)
    {
      var animalArray := arrays[i];
      assert animalArray == animalArrays[i];
      if animalArray.arrayStartOffset >= arrays[targetArray].arrayEndOffset && animalArray.arrayStartOffset != 0 {
        assert MovesAt(animalArrays, targetArray, size, i);
        animalArray := animalArray.Shifted(size);
        arrays := arrays[i := animalArray];
        bytes := SetU32(bytes, animalArray.headerArrayOffset, animalArray.relArrayStartOffset);
      } else {
        assert !MovesAt(animalArrays, targetArray, size, i);
      }
    }
    data.bytes := bytes;
  }

  /** When the target does not pass its own test (it is not empty, or it is
      a placeholder at 0), the cascade is a plain split around the target's
      end: a descriptor is shifted by `size` exactly when it starts at or
      after that end and is not a placeholder, and is otherwise unchanged. */
  lemma {:induction false} CascadeFixedPivot(arrays: seq<AdfArray>, t: nat, size: int)
    requires t < |arrays| && !Moves(arrays[t].arrayStartOffset, arrays[t].arrayEndOffset)
    ensures forall j :: 0 <= j < |arrays| ==>
      Cascade(arrays, t, size)[j] ==
        if Moves(arrays[j].arrayStartOffset, arrays[t].arrayEndOffset) then arrays[j].Shifted(size) else arrays[j]
  {
  }

  /** An empty target (its start equals its end, and it is not a
      placeholder) passes its own test and is shifted itself. The
      descriptors listed before it are tested against its original end and
      those listed after it against the shifted end, so the outcome depends
      on list order. */
  lemma {:induction false} CascadeEmptyTarget(arrays: seq<AdfArray>, t: nat, size: int)
    requires t < |arrays|
    requires arrays[t].arrayStartOffset == arrays[t].arrayEndOffset && arrays[t].arrayStartOffset != 0
    ensures Cascade(arrays, t, size)[t] == arrays[t].Shifted(size)
    ensures forall j :: 0 <= j <= t ==>
      (MovesAt(arrays, t, size, j) <==> Moves(arrays[j].arrayStartOffset, arrays[t].arrayEndOffset))
    ensures forall j :: t < j < |arrays| ==>
      (MovesAt(arrays, t, size, j) <==> Moves(arrays[j].arrayStartOffset, arrays[t].arrayEndOffset + size))
  {
  }

  /** Growing an array keeps the layout: with a target that does not pass
      its own test and `size >= 0`, a descriptor that ended at or before
      another one started still does so after the cascade, so arrays that
      did not overlap still do not. */
  lemma {:induction false} CascadeKeepsOrder(arrays: seq<AdfArray>, t: nat, size: int, a: nat, b: nat)
    requires t < |arrays| && a < |arrays| && b < |arrays|
    requires !Moves(arrays[t].arrayStartOffset, arrays[t].arrayEndOffset) && size >= 0
    requires 0 <= arrays[a].arrayStartOffset <= arrays[a].arrayEndOffset <= arrays[b].arrayStartOffset
    ensures Cascade(arrays, t, size)[a].arrayEndOffset <= Cascade(arrays, t, size)[b].arrayStartOffset
  {
  }

  /** A byte outside the pointer fields of the shifted descriptors keeps its
      value. */
  lemma {:induction false} CascadeBytesFrame(arrays: seq<AdfArray>, t: nat, size: int, orig: seq<byte>, n: int, p: int)
    requires t < |arrays| && 0 <= n <= |arrays| && HeadersInBounds(arrays, |orig|) && 0 <= p < |orig|
    requires forall j :: 0 <= j < n && MovesAt(arrays, t, size, j) ==>
      !(arrays[j].headerArrayOffset <= p < arrays[j].headerArrayOffset + 4)
    ensures CascadeBytes(arrays, t, size, orig, n)[p] == orig[p]
    decreases n
  {
    if n > 0 {
      CascadeBytesFrame(arrays, t, size, orig, n - 1, p);
      if MovesAt(arrays, t, size, n - 1) {
        SetU32Effect(CascadeBytes(arrays, t, size, orig, n - 1), arrays[n - 1].headerArrayOffset,
                     arrays[n - 1].relArrayStartOffset + size);
      }
    }
  }

  /** With disjoint pointer fields, the pointer field of a descriptor the
      cascade has passed and shifted holds its new relative start ... */
  lemma {:induction false} CascadeBytesMoved(arrays: seq<AdfArray>, t: nat, size: int, orig: seq<byte>, n: int, j: int)
    requires t < |arrays| && 0 <= j < n <= |arrays| && MovesAt(arrays, t, size, j)
    requires HeadersInBounds(arrays, |orig|) && HeadersDisjoint(arrays)
    ensures var o := arrays[j].headerArrayOffset;
      CascadeBytes(arrays, t, size, orig, n)[o..o + 4] == U32(arrays[j].relArrayStartOffset + size)
    decreases n
  {
    var prev := CascadeBytes(arrays, t, size, orig, n - 1);
    if j == n - 1 {
      SetU32Effect(prev, arrays[j].headerArrayOffset, arrays[j].relArrayStartOffset + size);
    } else {
      CascadeBytesMoved(arrays, t, size, orig, n - 1, j);
      if MovesAt(arrays, t, size, n - 1) {
        SetU32KeepsField(prev, arrays[n - 1].headerArrayOffset, arrays[n - 1].relArrayStartOffset + size,
                         arrays[j].headerArrayOffset);
      }
    }
  }

  /** ... and the pointer field of every other descriptor (not shifted, or
      not reached yet) still holds its old bytes. */
  lemma {:induction false} CascadeBytesStill(arrays: seq<AdfArray>, t: nat, size: int, orig: seq<byte>, n: int, j: int)
    requires t < |arrays| && 0 <= n <= |arrays| && 0 <= j < |arrays|
    requires n <= j || !MovesAt(arrays, t, size, j)
    requires HeadersInBounds(arrays, |orig|) && HeadersDisjoint(arrays)
    ensures var o := arrays[j].headerArrayOffset;
      CascadeBytes(arrays, t, size, orig, n)[o..o + 4] == orig[o..o + 4]
    decreases n
  {
    if n > 0 {
      CascadeBytesStill(arrays, t, size, orig, n - 1, j);
      if MovesAt(arrays, t, size, n - 1) {
        SetU32KeepsField(CascadeBytes(arrays, t, size, orig, n - 1), arrays[n - 1].headerArrayOffset,
                         arrays[n - 1].relArrayStartOffset + size, arrays[j].headerArrayOffset);
      }
    }
  }

  /** Every descriptor's header pointer field holds its relative start. */
  predicate PointersConsistent(arrays: seq<AdfArray>, s: seq<byte>)
  {
    HeadersInBounds(arrays, |s|) &&
    forall j :: 0 <= j < |arrays| ==>
      s[arrays[j].headerArrayOffset..arrays[j].headerArrayOffset + 4] == U32(arrays[j].relArrayStartOffset)
  }

  /** The cascade keeps the header pointers in step with the descriptors:
      if every pointer field held its descriptor's relative start before,
      every one holds the (possibly shifted) relative start after, provided
      no two pointer fields overlap. */
  lemma {:induction false} CascadeKeepsPointersConsistent(arrays: seq<AdfArray>, t: nat, size: int, s: seq<byte>)
    requires t < |arrays| && PointersConsistent(arrays, s) && HeadersDisjoint(arrays)
    ensures PointersConsistent(Cascade(arrays, t, size), CascadeBytes(arrays, t, size, s, |arrays|))
  {
    var r := CascadeBytes(arrays, t, size, s, |arrays|);
    var c := Cascade(arrays, t, size);
    forall j | 0 <= j < |arrays|
      ensures r[c[j].headerArrayOffset..c[j].headerArrayOffset + 4] == U32(c[j].relArrayStartOffset)
    {
      CascadeKeepsPointer(arrays, t, size, s, j);
    }
  }

  /** ... one descriptor at a time. */
  lemma {:induction false} CascadeKeepsPointer(arrays: seq<AdfArray>, t: nat, size: int, s: seq<byte>, j: nat)
    requires t < |arrays| && PointersConsistent(arrays, s) && HeadersDisjoint(arrays) && j < |arrays|
    ensures var c := Cascade(arrays, t, size)[j];
      CascadeBytes(arrays, t, size, s, |arrays|)[c.headerArrayOffset..c.headerArrayOffset + 4] == U32(c.relArrayStartOffset)
  {
    var o := arrays[j].headerArrayOffset;
    var c := Cascade(arrays, t, size)[j];
    var r := CascadeBytes(arrays, t, size, s, |arrays|);
    assert c.headerArrayOffset == o;
    if MovesAt(arrays, t, size, j) {
      CascadeBytesMoved(arrays, t, size, s, |arrays|, j);
      assert c.relArrayStartOffset == arrays[j].relArrayStartOffset + size;
      assert r[o..o + 4] == U32(arrays[j].relArrayStartOffset + size);
    } else {
      CascadeBytesStill(arrays, t, size, s, |arrays|, j);
      assert c.relArrayStartOffset == arrays[j].relArrayStartOffset;
      assert r[o..o + 4] == s[o..o + 4] == U32(arrays[j].relArrayStartOffset);
    }
  }

  // ---------------------------------------------------------------------
  // Inserting and removing one record.

  /** `_insert_animal` on values: add one to the record count at `lenOff`,
      then splice the record in at `at` (a Python slice insertion, so an
      offset past the end appends). */
  function InsertedRecord(s: seq<byte>, lenOff: int, at: nat, rec: AnimalRecord): (r: seq<byte>)
    requires FieldInBounds(lenOff, |s|)
    ensures |r| == |s| + AnimalSize
  {
    SliceAssign(SetU32(s, lenOff, U32At(s, lenOff) + 1), at, at, rec)
  }

  /** `_remove_animal` on values: subtract one from the record count at
      `lenOff`, then delete the 32 bytes from `at` (a Python slice deletion,
      so the range is clipped to the buffer). */
  function RemovedRecord(s: seq<byte>, lenOff: int, at: nat): (r: seq<byte>)
    requires FieldInBounds(lenOff, |s|)
    ensures at + AnimalSize <= |s| ==> |r| == |s| - AnimalSize
    ensures |r| >= |s| - AnimalSize
  {
    SliceAssign(SetU32(s, lenOff, U32At(s, lenOff) - 1), at, at + AnimalSize, [])
  }

  /** Inserting behind the count field: the buffer grows by one record, the
      record sits at `at`, the count goes up by one (modulo 2^32), and every
      other byte is where it was or, past `at`, 32 bytes further on. */
  lemma {:induction false} InsertedRecordEffect(s: seq<byte>, lenOff: int, at: nat, rec: AnimalRecord)
    requires FieldInBounds(lenOff, |s|) && lenOff + 4 <= at <= |s|
    ensures var r := InsertedRecord(s, lenOff, at, rec);
      r[at..at + AnimalSize] == rec &&
      U32At(r, lenOff) == (U32At(s, lenOff) + 1) % U32Modulus &&
      (forall p :: 0 <= p < at && !(lenOff <= p < lenOff + 4) ==> r[p] == s[p]) &&
      r[at + AnimalSize..] == s[at..]
  {
    var c := SetU32(s, lenOff, U32At(s, lenOff) + 1);
    SetU32Effect(s, lenOff, U32At(s, lenOff) + 1);
    var r := InsertedRecord(s, lenOff, at, rec);
    assert r[..at] == c[..at];
    assert r[lenOff..lenOff + 4] == c[lenOff..lenOff + 4];
    forall p | 0 <= p < at && !(lenOff <= p < lenOff + 4)
      ensures r[p] == s[p]
    {
      assert r[..at][p] == c[..at][p];
    }
    assert c[at..] == s[at..];
  }

  /** The parts of `InsertedRecordEffect` one at a time: the count, ... */
  lemma {:induction false} InsertedRecordCount(s: seq<byte>, lenOff: int, at: nat, rec: AnimalRecord)
    requires FieldInBounds(lenOff, |s|) && lenOff + 4 <= at <= |s|
    ensures U32At(InsertedRecord(s, lenOff, at, rec), lenOff) == (U32At(s, lenOff) + 1) % U32Modulus
  {
    InsertedRecordEffect(s, lenOff, at, rec);
  }

  /** ... one byte in front of the record, ... */
  lemma {:induction false} InsertedRecordFrame(s: seq<byte>, lenOff: int, at: nat, rec: AnimalRecord, q: int)
    requires FieldInBounds(lenOff, |s|) && lenOff + 4 <= at <= |s|
    requires 0 <= q < at && !(lenOff <= q < lenOff + 4)
    ensures InsertedRecord(s, lenOff, at, rec)[q] == s[q]
  {
    InsertedRecordEffect(s, lenOff, at, rec);
  }

  /** ... and what follows the count field's insertion point. */
  lemma {:induction false} InsertedRecordContent(s: seq<byte>, lenOff: int, at: nat, rec: AnimalRecord)
    requires FieldInBounds(lenOff, |s|) && lenOff + 4 <= at <= |s|
    ensures InsertedRecord(s, lenOff, at, rec)[at..] == rec + s[at..]
  {
    InsertedRecordEffect(s, lenOff, at, rec);
    var r := InsertedRecord(s, lenOff, at, rec);
    assert r[at..] == r[at..at + AnimalSize] + r[at + AnimalSize..];
  }

  /** ... and the count field as `create_u32` writes it: a field holding
      the bytes of `v` holds those of `v + 1` afterwards. */
  lemma {:induction false} InsertedRecordBumps(s: seq<byte>, lenOff: int, at: nat, rec: AnimalRecord, v: int)
    requires FieldInBounds(lenOff, |s|) && lenOff + 4 <= at <= |s|
    requires s[lenOff..lenOff + 4] == U32(v)
    ensures InsertedRecord(s, lenOff, at, rec)[lenOff..lenOff + 4] == U32(v + 1)
  {
    var c := SetU32(s, lenOff, U32At(s, lenOff) + 1);
    SetU32Effect(s, lenOff, U32At(s, lenOff) + 1);
    var r := InsertedRecord(s, lenOff, at, rec);
    assert r[..at] == c[..at];
    assert r[lenOff..lenOff + 4] == c[lenOff..lenOff + 4];
    ReadU32OfU32(v);
    AddMod(v, 1);
    U32Mod(U32At(s, lenOff) + 1, v + 1);
  }

  /** A field in front of the insertion point that does not overlap the
      count field keeps its bytes. */
  lemma {:induction false} InsertedRecordKeepsField(s: seq<byte>, lenOff: int, at: nat, rec: AnimalRecord, o: int)
    requires FieldInBounds(lenOff, |s|) && at <= |s|
    requires 0 <= o && o + 4 <= at && !Overlap(o, lenOff)
    ensures InsertedRecord(s, lenOff, at, rec)[o..o + 4] == s[o..o + 4]
  {
    var c := SetU32(s, lenOff, U32At(s, lenOff) + 1);
    SetU32KeepsField(s, lenOff, U32At(s, lenOff) + 1, o);
    var r := InsertedRecord(s, lenOff, at, rec);
    assert r[..at] == c[..at];
    assert r[o..o + 4] == c[o..o + 4];
  }

  /** Removing a record behind the count field: the buffer shrinks by one
      record, the count goes down by one (modulo 2^32), the bytes before the
      record are kept, and what followed the record moves up to `at`. */
  lemma {:induction false} RemovedRecordEffect(s: seq<byte>, lenOff: int, at: nat)
    requires FieldInBounds(lenOff, |s|) && lenOff + 4 <= at && at + AnimalSize <= |s|
    ensures var r := RemovedRecord(s, lenOff, at);
      U32At(r, lenOff) == (U32At(s, lenOff) - 1) % U32Modulus &&
      (forall p :: 0 <= p < at && !(lenOff <= p < lenOff + 4) ==> r[p] == s[p]) &&
      r[at..] == s[at + AnimalSize..]
  {
    var c := SetU32(s, lenOff, U32At(s, lenOff) - 1);
    SetU32Effect(s, lenOff, U32At(s, lenOff) - 1);
    var r := RemovedRecord(s, lenOff, at);
    assert r[..at] == c[..at];
    assert r[lenOff..lenOff + 4] == c[lenOff..lenOff + 4];
    forall p | 0 <= p < at && !(lenOff <= p < lenOff + 4)
      ensures r[p] == s[p]
    {
      assert r[..at][p] == c[..at][p];
    }
    assert c[at + AnimalSize..] == s[at + AnimalSize..];
  }

  /** ... and the count field as `create_u32` writes it: a field holding
      the bytes of `v` holds those of `v - 1` afterwards. */
  lemma {:induction false} RemovedRecordDrops(s: seq<byte>, lenOff: int, at: nat, v: int)
    requires FieldInBounds(lenOff, |s|) && lenOff + 4 <= at
    requires s[lenOff..lenOff + 4] == U32(v)
    ensures RemovedRecord(s, lenOff, at)[lenOff..lenOff + 4] == U32(v - 1)
  {
    var c := SetU32(s, lenOff, U32At(s, lenOff) - 1);
    SetU32Effect(s, lenOff, U32At(s, lenOff) - 1);
    var r := RemovedRecord(s, lenOff, at);
    assert r[..lenOff + 4] == c[..lenOff + 4];
    assert r[lenOff..lenOff + 4] == c[lenOff..lenOff + 4];
    ReadU32OfU32(v);
    AddMod(v, -1);
    U32Mod(U32At(s, lenOff) - 1, v - 1);
  }

  /** A 32-bit count incremented and then decremented, both modulo 2^32,
      is back where it started, also when the increment wrapped to 0. */
  lemma {:induction false} CountBackAfterIncrement(w: int)
    requires 0 <= w < U32Modulus
    ensures ((w + 1) % U32Modulus - 1) % U32Modulus == w
  {
    if w + 1 < U32Modulus {
      assert (w + 1) % U32Modulus == w + 1;
    } else {
      assert (w + 1) % U32Modulus == 0;
    }
  }

  /** Removing the record just inserted, at the same place, gives back the
      buffer exactly, count field included. */
  lemma {:induction false} RemoveUndoesInsert(s: seq<byte>, lenOff: int, at: nat, rec: AnimalRecord)
    requires FieldInBounds(lenOff, |s|) && lenOff + 4 <= at <= |s|
    ensures RemovedRecord(InsertedRecord(s, lenOff, at, rec), lenOff, at) == s
  {
    var r := InsertedRecord(s, lenOff, at, rec);
    InsertedRecordEffect(s, lenOff, at, rec);
    UncountInserted(s, lenOff, at, rec, U32At(r, lenOff) - 1);
    DeleteUndoesInsertion(s, at, rec);
  }

  /** Writing the old count back over an insertion leaves only the spliced
      record as the difference from the original buffer. */
  lemma {:induction false} UncountInserted(s: seq<byte>, lenOff: int, at: nat, rec: AnimalRecord, x: int)
    requires FieldInBounds(lenOff, |s|) && lenOff + 4 <= at <= |s|
    requires x == (U32At(s, lenOff) + 1) % U32Modulus - 1
    ensures SetU32(InsertedRecord(s, lenOff, at, rec), lenOff, x) == SliceAssign(s, at, at, rec)
  {
    var w := U32At(s, lenOff);
    var c := SetU32(s, lenOff, w + 1);
    SetU32BeforeInsertion(c, lenOff, x, at, rec);
    SetU32Twice(s, lenOff, w + 1, x);
    CountBackAfterIncrement(w);
    U32Mod(x, w);
    SetU32Unchanged(s, lenOff);
  }

  /** `_insert_animal`: count the new record in the array's length field and
      splice its bytes in at the array's ORIGINAL end offset. */
  method InsertAnimal(data: ByteArray, animal: AnimalRecord, arr: AdfArray)
    requires FieldInBounds(arr.headerLengthOffset, |data.bytes|) && arr.arrayOrgEndOffset >= 0
    modifies data
    ensures data.bytes == InsertedRecord(old(data.bytes), arr.headerLengthOffset, arr.arrayOrgEndOffset, animal)
  {
    data.bytes := SetU32(data.bytes, arr.headerLengthOffset, U32At(data.bytes, arr.headerLengthOffset) + 1);
    data.bytes := SliceAssign(data.bytes, arr.arrayOrgEndOffset, arr.arrayOrgEndOffset, animal);
  }

  /** Where record `index` of array `arr` starts in the body as loaded:
      counted from the array's ORIGINAL start offset. */
  function RecordOffset(arr: AdfArray, index: int): int
  {
    arr.arrayOrgStartOffset + index * AnimalSize
  }

  /** `_remove_animal`: uncount one record in the array's length field and
      delete the 32 bytes of record `index`. */
  method RemoveAnimal(data: ByteArray, arr: AdfArray, index: int)
    requires FieldInBounds(arr.headerLengthOffset, |data.bytes|)
    requires RecordOffset(arr, index) >= 0
    modifies data
    ensures data.bytes == RemovedRecord(old(data.bytes), arr.headerLengthOffset, RecordOffset(arr, index))
  {
    data.bytes := SetU32(data.bytes, arr.headerLengthOffset, U32At(data.bytes, arr.headerLengthOffset) - 1);
    var indexOffset := arr.arrayOrgStartOffset + index * AnimalSize;
    data.bytes := SliceAssign(data.bytes, indexOffset, indexOffset + AnimalSize, []);
  }
}

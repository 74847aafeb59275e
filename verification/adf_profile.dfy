/** The collaborator types the patch engine is handed by the profile builder
    and the array discovery step (`create_profile`, `find_arrays`, `Animal`).
    Their discovery logic is not part of this model; only the shape of what
    they hand over is. */
module AdfProfile {
  import opened Bytes

  /** `Animal.size`: every animal record is 32 bytes long. */
  const AnimalSize: nat := 32

  /** `Animal.to_bytes()`: a serialized animal record. */
  type AnimalRecord = r: seq<byte> | |r| == AnimalSize witness seq(32, _ => 0 as byte)

  /** The size-dependent fields of the archive that the profile locates.
      Each `header...Offset` is the absolute position of a u32 field; the
      paired value is what the profile read there when it was built. */
  datatype Profile = Profile(
    headerInstanceOffset: int, instanceHeaderStart: int,
    headerTypedefOffset: int, typedefStart: int,
    headerNametableOffset: int, nametableStart: int,
    headerTotalSizeOffset: int, totalSize: int,
    firstInstanceSize: int)   // details.instance_offsets.instances[0].size

  /** `AdfArray`: the descriptor of one array of 32-byte records, as
      `find_arrays` hands it over. Only the three geometry fields
      (`arrayStartOffset`, `arrayEndOffset`, `relArrayStartOffset`) are ever
      changed by the patch engine; the original offsets, the positions of
      the header fields and the per-gender bookkeeping stay as discovered. */
  datatype AdfArray = AdfArray(
    population: int,              // index of the species in the reserve
    length: int,                  // number of records when discovered
    maleCnt: int,
    femaleCnt: int,
    maleIndices: seq<int>,        // record positions of the males
    femaleIndices: seq<int>,      // record positions of the females
    headerArrayOffset: int,       // where the relative start pointer is stored
    headerLengthOffset: int,      // where the record count is stored
    arrayOrgStartOffset: int,
    arrayOrgEndOffset: int,
    arrayStartOffset: int,
    arrayEndOffset: int,
    relArrayStartOffset: int)
  {
    /** The descriptor moved by `size` bytes: start, end and relative start. */
    function Shifted(size: int): AdfArray
    {
      this.(arrayStartOffset := arrayStartOffset + size, arrayEndOffset := arrayEndOffset + size,
            relArrayStartOffset := relArrayStartOffset + size)
    }

    /** The subject count of `gender` as the removal planner reads it: the
        male count for "male" and the female count for anything else. */
    function CategoryCount(gender: string): int
    {
      if gender == "male" then maleCnt else femaleCnt
    }

    /** The record indices of `gender`, chosen the same way. */
    function CategoryIndices(gender: string): seq<int>
    {
      if gender == "male" then maleIndices else femaleIndices
    }
  }
}

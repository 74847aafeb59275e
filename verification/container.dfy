/** The container framing around the decompressed payload
    (`_decompress_adf_file` and `DecompressedAdfFile.save`). An archive is a
    32-byte outer header followed by a DEFLATE stream; the stream inflates to
    a 5-byte inner header followed by the body that all splicing edits. The
    outer header keeps the inflated length twice, at bytes [8,12) and
    [24,28). Inflate and deflate are the zlib library's and are passed in as
    functions. */
module Container {
  import opened Bytes
  import opened Wrappers

  const OuterHeaderSize: nat := 32
  const InnerHeaderSize: nat := 5

  /** The outer header, the inner header and the body of an archive. */
  datatype Parts = Parts(fileHeader: seq<byte>, header: seq<byte>, data: seq<byte>)

  /** The slicing of `_decompress_adf_file`: the outer header is the first 32
      bytes, the rest is inflated, and the inflated stream is cut after its
      fifth byte. Python slices never fail, so a short archive gives short
      parts; only a failing inflate gives no parts. */
  function SplitArchive(file: seq<byte>, inflate: seq<byte> -> Option<seq<byte>>): (r: Option<Parts>)
    ensures r.Some? <==> inflate(Drop(file, OuterHeaderSize)).Some?
    ensures r.Some? ==> r.value.fileHeader + Drop(file, OuterHeaderSize) == file
    ensures r.Some? ==> |r.value.fileHeader| == if |file| < OuterHeaderSize then |file| else OuterHeaderSize
    ensures r.Some? ==> r.value.header + r.value.data == inflate(Drop(file, OuterHeaderSize)).value
    ensures r.Some? && InnerHeaderSize <= |r.value.header + r.value.data| ==> |r.value.header| == InnerHeaderSize
  {
    match inflate(Drop(file, OuterHeaderSize))
    case None => None
    case Some(stream) => Some(Parts(Take(file, OuterHeaderSize), Take(stream, InnerHeaderSize), Drop(stream, InnerHeaderSize)))
  }

  /** The outer header `save` writes: unchanged when the inflated length is
      still `orgSize`, otherwise with `newSize` packed into both size fields.
      `struct.pack("I", ...)` refuses a value of 2^32 or more, which gives no
      header at all, and only then. A header that holds both fields keeps
      its length. */
  function PatchSizeFields(fileHeader: seq<byte>, orgSize: int, newSize: nat): (r: Option<seq<byte>>)
    ensures r.None? <==> orgSize != newSize && newSize >= U32Modulus
    ensures orgSize == newSize ==> r == Some(fileHeader)
    ensures r.Some? && 28 <= |fileHeader| ==> |r.value| == |fileHeader|
  {
    if orgSize == newSize then Some(fileHeader)
    else if newSize >= U32Modulus then None
    else Some(SliceAssign(SliceAssign(fileHeader, 8, 12, U32(newSize)), 24, 28, U32(newSize)))
  }

  /** On a full 32-byte header a changed length rewrites exactly the two
      size fields. */
  lemma {:induction false} PatchSizeFieldsEffect(fileHeader: seq<byte>, orgSize: int, newSize: nat)
    requires |fileHeader| == OuterHeaderSize && orgSize != newSize && newSize < U32Modulus
    ensures PatchSizeFields(fileHeader, orgSize, newSize).Some?
    ensures var h := PatchSizeFields(fileHeader, orgSize, newSize).value;
      |h| == OuterHeaderSize && h[8..12] == U32(newSize) && h[24..28] == U32(newSize) &&
      forall p :: 0 <= p < OuterHeaderSize && !(8 <= p < 12) && !(24 <= p < 28) ==> h[p] == fileHeader[p]
  {
    var h1 := SliceAssign(fileHeader, 8, 12, U32(newSize));
    var h2 := SliceAssign(h1, 24, 28, U32(newSize));
    assert |h1| == OuterHeaderSize;
    forall p | 0 <= p < OuterHeaderSize && !(8 <= p < 12)
      ensures h1[p] == fileHeader[p]
    {
      if p < 8 {
        assert h1[..8][p] == fileHeader[..8][p];
      } else {
        assert h1[12..][p - 12] == fileHeader[12..][p - 12];
      }
    }
    forall p | 0 <= p < OuterHeaderSize && !(24 <= p < 28)
      ensures h2[p] == h1[p]
    {
      if p < 24 {
        assert h2[..24][p] == h1[..24][p];
      } else {
        assert h2[28..][p - 28] == h1[28..][p - 28];
      }
    }
    assert h2[8..12] == h1[8..12];
  }

  /** If both size fields held the original inflated length, they both hold
      the current one after the patch: the archive stays self-consistent. */
  lemma {:induction false} PatchKeepsSizeFieldsConsistent(fileHeader: seq<byte>, orgSize: int, newSize: nat)
    requires |fileHeader| == OuterHeaderSize && newSize < U32Modulus
    requires U32At(fileHeader, 8) == orgSize && U32At(fileHeader, 24) == orgSize
    ensures PatchSizeFields(fileHeader, orgSize, newSize).Some?
    ensures var h := PatchSizeFields(fileHeader, orgSize, newSize).value;
      |h| == OuterHeaderSize && U32At(h, 8) == newSize && U32At(h, 24) == newSize
  {
    if orgSize != newSize {
      PatchSizeFieldsEffect(fileHeader, orgSize, newSize);
      ReadU32OfU32(newSize);
    }
  }

  /** Saving and then splitting again gives back the outer header that was
      written and the unchanged inner header and body, whenever inflate
      undoes deflate on the saved stream. */
  lemma {:induction false} SplitSavedArchive(fileHeader: seq<byte>, header: seq<byte>, data: seq<byte>,
                          deflate: seq<byte> -> seq<byte>, inflate: seq<byte> -> Option<seq<byte>>)
    requires |fileHeader| == OuterHeaderSize && |header| == InnerHeaderSize
    requires inflate(deflate(header + data)) == Some(header + data)
    ensures SplitArchive(fileHeader + deflate(header + data), inflate) == Some(Parts(fileHeader, header, data))
  {
    var file := fileHeader + deflate(header + data);
    assert Take(file, OuterHeaderSize) == fileHeader;
    assert Drop(file, OuterHeaderSize) == deflate(header + data);
    assert Take(header + data, InnerHeaderSize) == header;
    assert Drop(header + data, InnerHeaderSize) == data;
  }

  /** `DecompressedAdfFile`: an archive held in memory for editing. The body
      is a shared `bytearray` that the splice operations edit; `orgSize` is
      the inflated length at load time. The file name and base name are not
      part of this model. */
  class DecompressedAdfFile {
    var fileHeader: seq<byte>
    const header: seq<byte>
    const data: ByteArray
    const orgSize: int

    constructor (fileHeader: seq<byte>, header: seq<byte>, data: ByteArray)
      ensures this.fileHeader == fileHeader && this.header == header && this.data == data
      ensures orgSize == |header| + |data.bytes|
    {
      this.fileHeader := fileHeader;
      this.header := header;
      this.data := data;
      orgSize := |header| + |data.bytes|;
    }

    /** `save`: patch the size fields of the outer header in place when the
        inflated length changed, and give the bytes to be written: the outer
        header followed by the deflated inner header and body. Writing them
        to the destination directory is not part of this model. */
    method Save(compress: seq<byte> -> seq<byte>) returns (saved: Option<seq<byte>>)
      modifies this`fileHeader
      ensures PatchSizeFields(old(fileHeader), orgSize, |header| + |data.bytes|).None? ==>
        saved.None? && fileHeader == old(fileHeader)
      ensures PatchSizeFields(old(fileHeader), orgSize, |header| + |data.bytes|).Some? ==>
        fileHeader == PatchSizeFields(old(fileHeader), orgSize, |header| + |data.bytes|).value &&
        saved == Some(fileHeader + compress(header + data.bytes))
    {
      var decompressed := header + data.bytes;
      var newSize := |decompressed|;
      if orgSize != newSize {
        if newSize >= U32Modulus {
          return None;
        }
        var decompressedSize := U32(newSize);
        fileHeader := SliceAssign(fileHeader, 8, 12, decompressedSize);
        fileHeader := SliceAssign(fileHeader, 24, 28, decompressedSize);
      }
      saved := Some(fileHeader + compress(decompressed));
    }
  }

  /** `_decompress_adf_file` without the file reading and the working copy
      it writes: split the archive bytes and wrap the parts. */
  method DecompressAdfFile(file: seq<byte>, inflate: seq<byte> -> Option<seq<byte>>)
    returns (r: Option<DecompressedAdfFile>)
    ensures r.None? <==> SplitArchive(file, inflate).None?
    ensures r.Some? ==> fresh(r.value) && fresh(r.value.data)
    ensures r.Some? ==>
      Parts(r.value.fileHeader, r.value.header, r.value.data.bytes) == SplitArchive(file, inflate).value
    ensures r.Some? ==> r.value.orgSize == |r.value.header| + |r.value.data.bytes|
  {
    match SplitArchive(file, inflate)
    case None =>
      r := None;
    case Some(parts) =>
      var data := new ByteArray(parts.data);
      var adf := new DecompressedAdfFile(parts.fileHeader, parts.header, data);
      r := Some(adf);
  }
}

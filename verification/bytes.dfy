/** Byte buffers as the patch engine sees them: unsigned bytes, the
    little-endian u32 fields that the archive format stores its counts and
    offsets in, and the Python slice operations the engine edits buffers
    with. */
module Bytes {

  newtype byte = x: int | 0 <= x < 0x100

  /** 2^32: the number of distinct values of an unsigned 32-bit field. */
  const U32Modulus: int := 0x1_0000_0000

  /** A Python `bytearray`: a byte sequence that the engine edits in place
      and that several names may share. */
  class ByteArray {
    var bytes: seq<byte>

    constructor (initial: seq<byte>)
      ensures bytes == initial
    {
      bytes := initial;
    }
  }

  /** `create_u32`: the four little-endian bytes of the low 32 bits of `v`. */
  function U32(v: int): (r: seq<byte>)
    ensures |r| == 4
  {
    var w := v % U32Modulus;
    [(w % 0x100) as byte, (w / 0x100 % 0x100) as byte,
     (w / 0x1_0000 % 0x100) as byte, (w / 0x100_0000) as byte]
  }

  /** `read_u32`: the unsigned value of four little-endian bytes. */
  function ReadU32(s: seq<byte>): (v: int)
    requires |s| == 4
    ensures 0 <= v < U32Modulus
  {
    s[0] as int + 0x100 * s[1] as int + 0x1_0000 * s[2] as int + 0x100_0000 * s[3] as int
  }

  /** Reading back a written field gives the value modulo 2^32. */
  lemma {:induction false} ReadU32OfU32(v: int)
    ensures ReadU32(U32(v)) == v % U32Modulus
  {
    var w := v % U32Modulus;
    var q1 := w / 0x100;
    var q2 := q1 / 0x100;
    var q3 := q2 / 0x100;
    assert w == w % 0x100 + 0x100 * q1;
    assert q1 == q1 % 0x100 + 0x100 * q2;
    assert q2 == q2 % 0x100 + 0x100 * q3;
    assert q1 % 0x100 == w / 0x100 % 0x100;
    assert q2 == w / 0x1_0000;
    assert q3 == w / 0x100_0000;
  }

  /** Writing the value that four bytes hold reproduces those bytes. */
  lemma {:induction false} U32OfReadU32(s: seq<byte>)
    requires |s| == 4
    ensures U32(ReadU32(s)) == s
  {
    var v := ReadU32(s);
    var b0, b1, b2, b3 := s[0] as int, s[1] as int, s[2] as int, s[3] as int;
    var t1, t2 := b1 + 0x100 * b2 + 0x1_0000 * b3, b2 + 0x100 * b3;
    ModSmall(v);
    DivModDigit(v, 0x100, b0, t1);
    DivModDigit(t1, 0x100, b1, t2);
    DivModDigit(t2, 0x100, b2, b3);
    DivModDigit(v, 0x1_0000, b0 + 0x100 * b1, t2);
    DivModDigit(v, 0x100_0000, b0 + 0x100 * b1 + 0x1_0000 * b2, b3);
  }

  /** The four bytes at `off` lie inside a buffer of length `n`. */
  predicate FieldInBounds(off: int, n: int)
  {
    0 <= off && off + 4 <= n
  }

  /** The u32 value stored at `off`. */
  function U32At(s: seq<byte>, off: int): (v: int)
    requires FieldInBounds(off, |s|)
    ensures 0 <= v < U32Modulus
  {
    ReadU32(s[off..off + 4])
  }

  /** `write_value(data, create_u32(v), off)`: overwrite the four bytes at
      `off` with `v` as u32. */
  function SetU32(s: seq<byte>, off: int, v: int): (r: seq<byte>)
    requires FieldInBounds(off, |s|)
    ensures |r| == |s|
  {
    s[..off] + U32(v) + s[off + 4..]
  }

  /** The field holds `v` modulo 2^32 afterwards and no other byte changes. */
  lemma {:induction false} SetU32Effect(s: seq<byte>, off: int, v: int)
    requires FieldInBounds(off, |s|)
    ensures SetU32(s, off, v)[off..off + 4] == U32(v)
    ensures U32At(SetU32(s, off, v), off) == v % U32Modulus
    ensures forall p :: 0 <= p < |s| && !(off <= p < off + 4) ==> SetU32(s, off, v)[p] == s[p]
  {
    var r := SetU32(s, off, v);
    assert r[off..off + 4] == U32(v);
    ReadU32OfU32(v);
  }

  /** `s[:n]` in Python: at most the first `n` elements. */
  function Take<T>(s: seq<T>, n: nat): (r: seq<T>)
    ensures |r| == if n <= |s| then n else |s|
    ensures r <= s
  {
    if n <= |s| then s[..n] else s
  }

  /** `s[n:]` in Python: what follows the first `n` elements, possibly nothing. */
  function Drop<T>(s: seq<T>, n: nat): (r: seq<T>)
    ensures Take(s, n) + r == s
  {
    if n <= |s| then s[n..] else []
  }

  /** Python's `s[lo:hi] = v` for `0 <= lo <= hi`: both bounds are clipped
      to the length of `s`, so on a short buffer the assignment appends. */
  function SliceAssign(s: seq<byte>, lo: nat, hi: nat, v: seq<byte>): (r: seq<byte>)
    requires lo <= hi
    ensures hi <= |s| ==> |r| == |s| - (hi - lo) + |v|
    ensures |r| >= |s| - (hi - lo) + |v|
  {
    var a := if lo <= |s| then lo else |s|;
    var b := if hi <= |s| then hi else |s|;
    s[..a] + v + s[b..]
  }

  /** Within the buffer, the assignment keeps what is before `lo`, puts `v`
      at `lo` and moves what followed `hi` up behind it. */
  lemma {:induction false} SliceAssignEffect(s: seq<byte>, lo: nat, hi: nat, v: seq<byte>)
    requires lo <= hi <= |s|
    ensures SliceAssign(s, lo, hi, v)[..lo] == s[..lo]
    ensures SliceAssign(s, lo, hi, v)[lo..lo + |v|] == v
    ensures SliceAssign(s, lo, hi, v)[lo + |v|..] == s[hi..]
  {
  }

  /** A field whose four bytes are the same in two buffers holds the same
      value in both. */
  lemma {:induction false} FieldUnchanged(s: seq<byte>, r: seq<byte>, off: int)
    requires FieldInBounds(off, |s|) && FieldInBounds(off, |r|)
    requires forall q :: off <= q < off + 4 ==> r[q] == s[q]
    ensures U32At(r, off) == U32At(s, off)
  {
    assert r[off..off + 4] == s[off..off + 4];
  }

  /** A field holding the bytes of a value that fits in 32 bits reads back
      as that value. */
  lemma {:induction false} FieldOfU32(s: seq<byte>, off: int, v: int)
    requires FieldInBounds(off, |s|) && 0 <= v < U32Modulus && s[off..off + 4] == U32(v)
    ensures U32At(s, off) == v
  {
    ReadU32OfU32(v);
  }

  /** Splitting off the low digit of `x` in base `d`, for the bases the
      u32 encoding uses. */
  lemma {:induction false} DivModDigit(x: int, d: int, low: int, high: int)
    requires d == 0x100 || d == 0x1_0000 || d == 0x100_0000
    requires 0 <= low < d && x == low + d * high
    ensures x / d == high && x % d == low
  {
    if d == 0x100 {
      assert x == low + 0x100 * high;
    } else if d == 0x1_0000 {
      assert x == low + 0x1_0000 * high;
    } else {
      assert x == low + 0x100_0000 * high;
    }
  }

  /** A value that fits in 32 bits is its own residue. */
  lemma {:induction false} ModSmall(x: int)
    requires 0 <= x < U32Modulus
    ensures x % U32Modulus == x
  {
  }

  /** Adding to a value already reduced modulo 2^32 gives the same residue
      as adding to the value itself. */
  lemma {:induction false} AddMod(a: int, d: int)
    ensures (a % U32Modulus + d) % U32Modulus == (a + d) % U32Modulus
  {
    var q := a / U32Modulus;
    assert a + d == (a % U32Modulus + d) + q * U32Modulus;
  }

  /** The four bytes written depend only on the value modulo 2^32. */
  lemma {:induction false} U32Mod(a: int, b: int)
    requires a % U32Modulus == b % U32Modulus
    ensures U32(a) == U32(b)
  {
  }

  /** Writing a field twice leaves only the second write. */
  lemma {:induction false} SetU32Twice(s: seq<byte>, off: int, a: int, b: int)
    requires FieldInBounds(off, |s|)
    ensures SetU32(SetU32(s, off, a), off, b) == SetU32(s, off, b)
  {
    var m := SetU32(s, off, a);
    assert m[..off] == s[..off] && m[off + 4..] == s[off + 4..];
  }

  /** Writing back the value a field holds changes nothing. */
  lemma {:induction false} SetU32Unchanged(s: seq<byte>, off: int)
    requires FieldInBounds(off, |s|)
    ensures SetU32(s, off, U32At(s, off)) == s
  {
    U32OfReadU32(s[off..off + 4]);
    assert s == s[..off] + s[off..off + 4] + s[off + 4..];
  }

  /** A field write in front of an insertion point commutes with the insertion. */
  lemma {:induction false} SetU32BeforeInsertion(s: seq<byte>, off: int, v: int, at: nat, ins: seq<byte>)
    requires FieldInBounds(off, |s|) && off + 4 <= at <= |s|
    ensures SetU32(SliceAssign(s, at, at, ins), off, v) == SliceAssign(SetU32(s, off, v), at, at, ins)
  {
    var r := SliceAssign(s, at, at, ins);
    assert r == s[..off] + s[off..off + 4] + s[off + 4..at] + ins + s[at..];
    assert SetU32(s, off, v) == s[..off] + U32(v) + s[off + 4..at] + s[at..];
  }

  /** Deleting what was just inserted, at the same place, restores the buffer. */
  lemma {:induction false} DeleteUndoesInsertion(s: seq<byte>, at: nat, ins: seq<byte>)
    requires at <= |s|
    ensures SliceAssign(SliceAssign(s, at, at, ins), at, at + |ins|, []) == s
  {
    var r := SliceAssign(s, at, at, ins);
    assert r[..at] + r[at + |ins|..] == s[..at] + s[at..];
  }
}

/** The optional value used for results that may be absent. */
module Wrappers {
  datatype Option<+T> = None | Some(value: T)
}

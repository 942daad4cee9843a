/** `ujDecodeExif`: the best-effort look into an APP1 segment for the
    YCbCrPositioning tag (0x0213) of the Exif 0th IFD, which tells whether
    chroma samples are co-sited with luma samples (value 2) or centred
    between them (value 1). */
module Exif {
  import opened Common

  /** `ujGetExif16`: a 16-bit field at `i`, little-endian when `le`. */
  function Get16(le: bool, s: seq<byte>, i: int): (v: nat)
    requires 0 <= i && i + 2 <= |s|
    ensures v < 65536
  {
    if le then s[i] as int + s[i + 1] as int * 256 else s[i] as int * 256 + s[i + 1] as int
  }

  /** `ujGetExif32`: a 32-bit field at `i`, little-endian when `le`, read as
      an unsigned value. */
  function Get32(le: bool, s: seq<byte>, i: int): (v: nat)
    requires 0 <= i && i + 4 <= |s|
    ensures v < 0x1_0000_0000
  {
    var b0, b1, b2, b3 := s[i] as int, s[i + 1] as int, s[i + 2] as int, s[i + 3] as int;
    if le then b0 + b1 * 0x100 + b2 * 0x1_0000 + b3 * 0x100_0000
    else b0 * 0x100_0000 + b1 * 0x1_0000 + b2 * 0x100 + b3
  }

  /** `"Exif\0\0II*\0"`: the Exif identifier and a little-endian TIFF header. */
  const LittleEndianHeader: seq<byte> := [0x45, 0x78, 0x69, 0x66, 0x00, 0x00, 0x49, 0x49, 0x2A, 0x00]

  /** `"Exif\0\0MM\0*"`: the Exif identifier and a big-endian TIFF header. */
  const BigEndianHeader: seq<byte> := [0x45, 0x78, 0x69, 0x66, 0x00, 0x00, 0x4D, 0x4D, 0x00, 0x2A]

  /** The tag number of YCbCrPositioning. */
  const Positioning: nat := 0x0213

  /** The byte order the first ten bytes announce, if they are an Exif
      header at all. */
  function ByteOrder(seg: seq<byte>): (r: Option<bool>)
    requires |seg| >= 10
    ensures r == Some(true) <==> seg[..10] == LittleEndianHeader
    ensures r == Some(false) <==> seg[..10] == BigEndianHeader
  {
    if seg[..10] == LittleEndianHeader then Some(true)
    else if seg[..10] == BigEndianHeader then Some(false)
    else None
  }

  /** The 12-byte IFD entry at `e`: when it is a YCbCrPositioning entry of
      one SHORT, whether its value is 2 (co-sited). */
  function EntryValue(le: bool, seg: seq<byte>, e: int): Option<bool>
    requires 0 <= e && e + 12 <= |seg|
  {
    if Get16(le, seg, e) == Positioning && Get16(le, seg, e + 2) == 3 && Get32(le, seg, e + 4) == 1
    then Some(Get16(le, seg, e + 8) == 2)
    else None
  }

  /** The first YCbCrPositioning value among `count` entries from `at` on. */
  function FindPositioning(le: bool, seg: seq<byte>, at: int, count: nat): Option<bool>
    requires 0 <= at && at + 12 * count <= |seg|
    decreases count
  {
    if count == 0 then None
    else match EntryValue(le, seg, at)
      case Some(v) => Some(v)
      case None => FindPositioning(le, seg, at + 12, count - 1)
  }

  /** The two context fields the Exif parser may change. */
  datatype Siting = Siting(le: bool, coSited: bool)

  /** What `ujDecodeExif` makes of the body `seg` of an APP1 segment: too
      short a segment, an unknown header, an IFD offset outside the segment
      or more entries than fit leave the chroma siting as it was; a
      recognised header sets the byte order whatever follows. */
  function Decode(seg: seq<byte>, st: Siting): Siting
  {
    if |seg| < 18 then st
    else match ByteOrder(seg)
      case None => st
      case Some(le) =>
        var i := Get32(le, seg, 10) + 6;
        if i < 14 || i > |seg| - 2 then st.(le := le)
        else
          var count := Get16(le, seg, i);
          if count > (|seg| - i - 2) / 12 then st.(le := le)
          else
            assert i + 2 + 12 * count <= |seg|;
            match FindPositioning(le, seg, i + 2, count)
            case None => st.(le := le)
            case Some(v) => Siting(le, v)
  }

  /** The entry loop of `ujDecodeExif`: `count` entries of 12 bytes from
      `at` on, stopping at the first YCbCrPositioning entry. */
  method ScanEntries(le: bool, seg: seq<byte>, at: int, count: nat) returns (found: bool, coSited: bool)
    requires 0 <= at && at + 12 * count <= |seg|
    ensures found <==> FindPositioning(le, seg, at, count).Some?
    ensures found ==> coSited == FindPositioning(le, seg, at, count).value
  {
    var ptr, n := at, count;
    while n > 0
      invariant 0 <= ptr && 0 <= n && ptr + 12 * n <= |seg|
      invariant FindPositioning(le, seg, ptr, n) == FindPositioning(le, seg, at, count)
    {
      if Get16(le, seg, ptr) == Positioning && Get16(le, seg, ptr + 2) == 3 && Get32(le, seg, ptr + 4) == 1 {
        return true, Get16(le, seg, ptr + 8) == 2;
      }
      ptr, n := ptr + 12, n - 1;
    }
    return false, false;
  }

  /** The body of `ujDecodeExif` after the segment has been framed, as
      straight-line code over the segment bytes. */
  method DecodeSegment(seg: seq<byte>, st: Siting) returns (st': Siting)
    ensures st' == Decode(seg, st)
  {
    st' := st;
    if |seg| < 18 {
      return;
    }
    var le: bool;
    if seg[..10] == LittleEndianHeader {
      le := true;
    } else if seg[..10] == BigEndianHeader {
      le := false;
    } else {
      return;
    }
    st' := st'.(le := le);
    var i := Get32(le, seg, 10) + 6;
    if i < 14 || i > |seg| - 2 {
      return;
    }
    var count := Get16(le, seg, i);
    if count > (|seg| - i - 2) / 12 {
      return;
    }
    assert i + 2 + 12 * count <= |seg|;
    var found, coSited := ScanEntries(le, seg, i + 2, count);
    if found {
      st' := st'.(coSited := coSited);
    }
  }

  // ---------------------------------------------------------------------
  // The encoder's side: a minimal Exif block with one IFD entry.

  /** A 16-bit field in the byte order `le`. */
  function Put16(le: bool, v: nat): (s: seq<byte>)
    requires v < 65536
    ensures |s| == 2
  {
    if le then [v % 256, v / 256] else [v / 256, v % 256]
  }

  /** A 32-bit field in the byte order `le`. */
  function Put32(le: bool, v: nat): (s: seq<byte>)
    requires v < 0x1_0000_0000
    ensures |s| == 4
  {
    var hi, lo := v / 0x1_0000, v % 0x1_0000;
    if le then Put16(le, lo) + Put16(le, hi) else Put16(le, hi) + Put16(le, lo)
  }

  /** A 16-bit field written by `Put16` at `i` reads back as `v`. */
  lemma Get16Put16(le: bool, v: nat, s: seq<byte>, i: nat)
    requires v < 65536 && i + 2 <= |s| && s[i..i + 2] == Put16(le, v)
    ensures Get16(le, s, i) == v
  {
    assert s[i] == s[i..i + 2][0] && s[i + 1] == s[i..i + 2][1];
  }

  /** A 32-bit field written by `Put32` at `i` reads back as `v`. */
  lemma Get32Put32(le: bool, v: nat, s: seq<byte>, i: nat)
    requires v < 0x1_0000_0000 && i + 4 <= |s| && s[i..i + 4] == Put32(le, v)
    ensures Get32(le, s, i) == v
  {
    var f := Put32(le, v);
    assert s[i] == f[0] && s[i + 1] == f[1] && s[i + 2] == f[2] && s[i + 3] == f[3];
    assert v == v / 0x1_0000 * 0x1_0000 + v % 0x1_0000;
  }

  /** An APP1 body holding the header for `le`, an IFD right behind it
      (offset 8 from the TIFF header) with one YCbCrPositioning entry of
      value `v` (a SHORT, left-aligned in the 4-byte value field), and a zero
      offset for the next IFD. */
  function Block(le: bool, v: nat): (s: seq<byte>)
    requires v < 65536
    ensures |s| == 32
  {
    (if le then LittleEndianHeader else BigEndianHeader) + Put32(le, 8) + Put16(le, 1) +
    Put16(le, Positioning) + Put16(le, 3) + Put32(le, 1) + Put16(le, v) + Put16(le, 0) + Put32(le, 0)
  }

  /** Where `Block` puts its header and the fields of its one entry. */
  lemma BlockHeader(le: bool, v: nat)
    requires v < 65536
    ensures var s := Block(le, v);
      s[..10] == (if le then LittleEndianHeader else BigEndianHeader) &&
      Get32(le, s, 10) == 8 && Get16(le, s, 14) == 1
  {
    var s := Block(le, v);
    assert s[10..14] == Put32(le, 8);
    Get32Put32(le, 8, s, 10);
    assert s[14..16] == Put16(le, 1);
    Get16Put16(le, 1, s, 14);
  }

  lemma BlockEntry(le: bool, v: nat)
    requires v < 65536
    ensures var s := Block(le, v);
      Get16(le, s, 16) == Positioning && Get16(le, s, 18) == 3 &&
      Get32(le, s, 20) == 1 && Get16(le, s, 24) == v
  {
    var s := Block(le, v);
    assert s[16..18] == Put16(le, Positioning);
    Get16Put16(le, Positioning, s, 16);
    assert s[18..20] == Put16(le, 3);
    Get16Put16(le, 3, s, 18);
    assert s[20..24] == Put32(le, 1);
    Get32Put32(le, 1, s, 20);
    assert s[24..26] == Put16(le, v);
    Get16Put16(le, v, s, 24);
  }

  /** Decoding a block written by `Block` recovers its byte order and its
      siting: co-sited exactly when the entry's value is 2. */
  lemma BlockRoundTrip(le: bool, v: nat, st: Siting)
    requires v < 65536
    ensures Decode(Block(le, v), st) == Siting(le, v == 2)
  {
    var s := Block(le, v);
    BlockHeader(le, v);
    BlockEntry(le, v);
    assert EntryValue(le, s, 16) == Some(v == 2);
  }

  /** The C code reads the IFD offset into a 32-bit `int` and adds 6, which
      wraps for offsets of 2^31 - 6 and more; the bounds test then rejects
      the wrapped value exactly when it rejects the unbounded one, so the
      model may leave the wrap-around out. */
  lemma OffsetWrapIsHarmless(v: nat, size: nat)
    requires v < 0x1_0000_0000 && size < 65536
    ensures var i := Wrap32(Wrap32(v) + 6);
      (i < 14 || i > size - 2) <==> (v + 6 < 14 || v + 6 > size - 2)
  {
    if v >= 0x8000_0000 {
      assert Wrap32(v) == v - 0x1_0000_0000;
    } else if v >= 0x8000_0000 - 6 {
      assert Wrap32(v) == v;
      assert Wrap32(v + 6) == v + 6 - 0x1_0000_0000;
    }
  }
}

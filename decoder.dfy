/** The decoder context of uJPEG (`ujContext`) and what works on it: the
    input cursor with its bit reader, the segment parsers that fill the
    context, the scan that decodes blocks into the component planes, the
    conversion to packed pixels, and the public entry points. */
module Decoder {
  import opened Common
  import opened BitStream
  import opened Huffman
  import opened ZigZag
  import Entropy
  import Idct
  import Planes
  import Segments
  import Color
  import Exif

  /** An error status after a step that may raise a syntax error. */
  function Raise(e: Status, err: bool): Status
  {
    if err then SyntaxError else e
  }

  /** What the length field at `pos` announces: the number of body bytes
      after the two length bytes (negative for a field of 0 or 1), or a
      syntax error when fewer than two bytes are left or the field runs
      past the input. */
  function Announced(data: seq<byte>, pos: int, size: int): (r: Result<int>)
    requires 0 <= pos && pos + size <= |data|
    ensures r.Success? ==> 2 <= size && -2 <= r.value <= size - 2
    ensures r.Failure? ==> r.status == SyntaxError
  {
    if size < 2 then Failure(SyntaxError)
    else
      var n := Decode16(data[pos], data[pos + 1]);
      if n > size then Failure(SyntaxError) else Success(n - 2)
  }

  /** `ujDecodeLength` as written: the error it raises, the `length` it
      leaves and the cursor after it. `ujThrow` returns from
      `ujDecodeLength` only, so the calling parser goes on reading with
      this `length` and cursor; `stale` is what `length` held before. */
  function LengthAsWritten(data: seq<byte>, pos: int, size: int, stale: int): (r: (Status, int, int))
    requires 0 <= pos && pos + size <= |data|
    ensures r.0 == Outcome(Announced(data, pos, size))
    ensures r.0 == Ok ==> r.1 == Announced(data, pos, size).value + 2 && r.2 == pos + 2
    ensures r.0 != Ok ==> r.2 == pos
  {
    if size < 2 then (SyntaxError, stale, pos)
    else
      var n := Decode16(data[pos], data[pos + 1]);
      if n > size then (SyntaxError, n, pos) else (Ok, n, pos + 2)
  }

  /** After a length field that runs past the input, `ujDecodeSOF` as
      written keeps going: for `FF D8 FF C0 08 00` the field announces
      2048 bytes with two left, the error is raised, yet the length passes
      the `length < 9` test, the field's own first byte passes as the
      precision 8, and the height is read from the byte after the end. */
  lemma OversizedLengthReadsPastEnd()
    ensures var data: seq<byte> := [0xFF, 0xD8, 0xFF, 0xC0, 0x08, 0x00];
            var r := LengthAsWritten(data, 4, 2, 0);
            r.0 == SyntaxError && r.1 >= 9 && data[r.2] == 8 && r.2 + 2 >= |data|
  {
    var data: seq<byte> := [0xFF, 0xD8, 0xFF, 0xC0, 0x08, 0x00];
    assert Decode16(data[4], data[5]) == 0x0800;
  }

  /** The corrected reading, which every parser of this model uses: a bad
      length field ends the segment with its syntax error before any byte
      of the body is looked at, whatever the parser. */
  lemma OversizedLengthStops<T>(p: seq<byte> -> Result<T>)
    ensures var data: seq<byte> := [0xFF, 0xD8, 0xFF, 0xC0, 0x08, 0x00];
            Parsed(data, 4, 2, p) == Failure(SyntaxError)
  {
    var data: seq<byte> := [0xFF, 0xD8, 0xFF, 0xC0, 0x08, 0x00];
    assert Decode16(data[4], data[5]) == 0x0800;
  }

  /** The `n` body bytes of a segment from `at` on; none for a negative `n`. */
  function Body(data: seq<byte>, at: int, n: int): seq<byte>
    requires 0 <= at && at + n <= |data|
  {
    if n <= 0 then [] else data[at..at + n]
  }

  /** The body of the segment whose length field is at `pos` (the bytes
      after the field), or the syntax error that every segment parser but
      the Exif one ends with when the field runs past the input or
      announces fewer than the two bytes of the field itself. */
  function Segment(data: seq<byte>, pos: int, size: int): (r: Result<seq<byte>>)
    requires 0 <= pos && pos + size <= |data|
    ensures r.Failure? ==> r.status == SyntaxError
    ensures r.Success? ==> |r.value| <= size - 2
  {
    match Announced(data, pos, size)
    case Failure(e) => Failure(e)
    case Success(n) => if n < 0 then Failure(SyntaxError) else Success(data[pos + 2..pos + 2 + n])
  }

  /** What a segment parser `p` makes of the segment whose length field is
      at `pos`: the syntax error of a bad length field, or its verdict on
      the body. */
  function Parsed<T>(data: seq<byte>, pos: int, size: int, p: seq<byte> -> Result<T>): Result<T>
    requires 0 <= pos && pos + size <= |data|
  {
    match Segment(data, pos, size)
    case Failure(e) => Failure(e)
    case Success(seg) => p(seg)
  }

  /** The error code a parse leaves behind. */
  function Outcome<T>(r: Result<T>): Status
  {
    if r.Success? then Ok else r.status
  }

  /** One refill pass as the method computes it: the bytes it hands to
      the buffer, the cursor after them and the error flag are those of
      `NextBytes`, and the buffer is theirs pushed onto the pending bits. */
  lemma RefillOf(data: seq<byte>, r: Reader, bytes: seq<byte>, p: int, z: int, raised: bool, b: nat, n: nat)
    requires Sane(data, r) && 1 <= |bytes| <= 2
    requires NextBytes(data, r.pos, r.size) == Step(bytes, p, z, raised)
    requires |bytes| == 1 ==> b == r.buf * 256 + bytes[0] && n == r.bufbits + 8
    requires |bytes| == 2 ==> b == (r.buf * 256 + bytes[0]) * 256 + bytes[1] && n == r.bufbits + 16
    ensures RefillStep(data, r) == Filled(BitStream.Reader(p, z, b, n), raised)
  {
    var r1 := r.(pos := p, size := z);
    PushSome(r1, bytes[0], bytes[|bytes| - 1]);
    if |bytes| == 2 {
      assert bytes == [bytes[0], bytes[1]];
    } else {
      assert bytes == [bytes[0]];
    }
  }

  /** The input cursor of a context (`pos`, `size`, `length`, `buf`,
      `bufbits`) and the error code every step may raise. */
  class Input {
    /** The input, `pos` an index into it, `size` the bytes left, `length`
        what is left of the current segment. */
    var data: seq<byte>
    var pos: int
    var size: int
    var length: int
    /** The pending bits of the entropy-coded data. */
    var buf: nat
    var bufbits: nat
    /** The last error raised (`ujError`). */
    var error: Status

    constructor ()
      ensures Valid() && Empty() && error == Ok
    {
      data, pos, size, length, buf, bufbits, error := [], 0, 0, 0, 0, 0, Ok;
    }

    function Bits(): BitStream.Reader
      reads this
    {
      BitStream.Reader(pos, size, buf, bufbits)
    }

    /** The cursor lies inside the input and fewer than 32 bits are
        pending, as the refill loop stops below 16 + 16. */
    ghost predicate Valid()
      reads this
    {
      Sane(data, Bits()) && bufbits < 32
    }

    /** One pass of the refill loop of `ujShowBits`. */
    method Refill()
      requires Valid() && bufbits < 16
      modifies this
      ensures Valid() && data == old(data) && length == old(length)
      ensures var f := RefillStep(data, old(Bits()));
        Bits() == f.r && error == Raise(old(error), f.err)
    {
      var d, p: int, z: int, b: nat, n: nat := data, pos, size, buf, bufbits;
      ghost var r0 := Bits();
      ghost var bytes: seq<byte>;
      var raised := false;
      if z <= 0 {
        b, n := b * 256 + 0xFF, n + 8;
        bytes := [0xFF];
      } else {
        var newbyte := d[p];
        p, z := p + 1, z - 1;
        b, n := b * 256 + newbyte, n + 8;
        bytes := [newbyte];
        if newbyte == 0xFF {
          if z != 0 {
            var marker := d[p];
            p, z := p + 1, z - 1;
            if marker == 0x00 || marker == 0xFF {
            } else if marker == 0xD9 {
              z := 0;
            } else {
              RestartByte(marker);
              if And8(marker, 0xF8) != 0xD0 {
                raised := true;
              } else {
                b, n := b * 256 + marker, n + 8;
                bytes := [0xFF, marker];
              }
            }
          } else {
            raised := true;
          }
        }
      }
      RefillOf(d, r0, bytes, p, z, raised, b, n);
      pos, size, buf, bufbits := p, z, b, n;
      if raised {
        error := SyntaxError;
      }
    }

    /** `ujShowBits`: refill until `bits` bits are pending and return the
        top `bits` of them without consuming them. */
    method ShowBits(bits: nat) returns (v: nat)
      requires Valid() && bits <= 16
      modifies this
      ensures Valid() && data == old(data) && length == old(length)
      ensures var f := Fill(data, old(Bits()), bits);
        Bits() == f.r && error == Raise(old(error), f.err) && v == Window(f.r, bits)
    {
      if bits == 0 {
        return 0;
      }
      ghost var F := Fill(data, Bits(), bits);
      ghost var raised := false;
      while bufbits < bits
        invariant Valid() && data == old(data) && length == old(length)
        invariant Fill(data, Bits(), bits).r == F.r
        invariant F.err == (raised || Fill(data, Bits(), bits).err)
        invariant error == Raise(old(error), raised)
        decreases bits - bufbits
      {
        ghost var st := RefillStep(data, Bits());
        Refill();
        raised := raised || st.err;
      }
      v := (buf / Pow2(bufbits - bits)) % Pow2(bits);
    }

    /** `ujSkipBits`: refill only if fewer than `bits` bits are pending,
        then drop them. The model keeps only the pending bits in `buf`. */
    method SkipBits(bits: nat)
      requires Valid() && bits <= 16
      modifies this
      ensures Valid() && data == old(data) && length == old(length)
      ensures var f := BitStream.Skip(data, old(Bits()), bits);
        Bits() == f.r && error == Raise(old(error), f.err)
    {
      if bufbits < bits {
        var _ := ShowBits(bits);
      }
      bufbits := bufbits - bits;
      buf := buf % Pow2(bufbits);
    }

    /** `ujGetBits`: show, then skip, `bits` bits. */
    method GetBits(bits: nat) returns (v: nat)
      requires Valid() && bits <= 16
      modifies this
      ensures Valid() && data == old(data) && length == old(length)
      ensures var f := Fill(data, old(Bits()), bits);
        v == Window(f.r, bits) && Bits() == Consume(f.r, bits) && error == Raise(old(error), f.err)
    {
      v := ShowBits(bits);
      SkipBits(bits);
    }

    /** `ujByteAlign`: `bufbits &= 0xF8` drops the rest of a partly read
        byte. */
    method ByteAlign()
      requires Valid()
      modifies this
      ensures Valid() && data == old(data) && length == old(length) && error == old(error)
      ensures Bits() == Align(old(Bits()))
    {
      AlignIsMask(Bits());
      bufbits := And8(bufbits, 0xF8);
      buf := buf % Pow2(bufbits);
    }

    /** `ujGetVLC` with lookup row `row`: the decoded value and the symbol
        byte it stores through `code` (`None` when it returns before storing
        one). */
    method GetVLC(row: array<VlcCode>) returns (value: int, code: Option<byte>)
      requires Valid() && row.Length == 65536
      modifies this
      ensures Valid() && data == old(data) && length == old(length)
      ensures var v := Entropy.GetVlc(data, old(Bits()), row[..]);
        value == v.value && code == v.code && Bits() == v.r && error == Raise(old(error), v.err)
    {
      ghost var r0 := Bits();
      var w := ShowBits(16);
      Pow2Values();
      var e := row[w];
      if e.bits == 0 {
        error := SyntaxError;
        return 0, None;
      }
      SkipBits(e.bits);
      var sym := e.code;
      var nbits := sym % 16;
      if nbits == 0 {
        return 0, Some(sym);
      }
      var b := GetBits(nbits);
      ExtendRange(b, nbits);
      return Extend(b, nbits), Some(sym);
    }

    /** `ujError = e`: record error code `e` (what `ujThrow` does before it
        returns from the function that raised it). */
    method SetError(e: Status)
      requires Valid()
      modifies this
      ensures Valid() && data == old(data) && length == old(length) && Bits() == old(Bits()) && error == e
    {
      error := e;
    }

    /** `ujSkip`: move past `count` bytes of the input and the segment; a
        count past the end of the input is a syntax error. */
    method Skip(count: int)
      requires Valid() && 0 <= pos + count
      modifies this
      ensures Valid() && data == old(data) && buf == old(buf) && bufbits == old(bufbits)
      ensures pos == old(pos) + count && size == old(size) - count && length == old(length) - count
      ensures error == if size < 0 then SyntaxError else old(error)
    {
      pos, size, length := pos + count, size - count, length - count;
      if size < 0 {
        error := SyntaxError;
      }
    }

    /** No input and no pending bits. */
    ghost predicate Empty()
      reads this
    {
      data == [] && pos == 0 && size == 0 && length == 0 && buf == 0 && bufbits == 0
    }

    /** The cursor part of `ujInit`: no input and no pending bits; the
        error code is kept. */
    method Reset()
      modifies this
      ensures Valid() && Empty() && error == old(error)
    {
      data, pos, size, length, buf, bufbits := [], 0, 0, 0, 0, 0;
    }

    /** The start of `ujDecode`: a clear error code and the cursor on the
        first of the `|jpeg|` bytes of the file. */
    method Start(jpeg: seq<byte>)
      requires Valid()
      modifies this
      ensures Valid() && error == Ok && buf == old(buf) && bufbits == old(bufbits)
      ensures data == jpeg && pos == 0 && size == |jpeg|
    {
      data, pos, size, error := jpeg, 0, |jpeg|, Ok;
    }

    /** `ujDecodeLength`: read the length field of a segment and step over
        it, leaving in `length` the number of body bytes. */
    method DecodeLength()
      requires Valid()
      modifies this
      ensures Valid() && data == old(data) && buf == old(buf) && bufbits == old(bufbits)
      ensures match Announced(data, old(pos), old(size))
        case Failure(e) => error == e && pos == old(pos) && size == old(size)
        case Success(n) => error == old(error) && pos == old(pos) + 2 && size == old(size) - 2 && length == n
    {
      if size < 2 {
        error := SyntaxError;
        return;
      }
      length := Decode16(data[pos], data[pos + 1]);
      if length > size {
        error := SyntaxError;
        return;
      }
      Skip(2);
    }

    /** `ujDecodeLength` as the segment parsers start: the body of the
        segment, with the cursor on its first byte and `length` its size.
        The parser returns at once when the length field is bad. */
    method Open() returns (seg: seq<byte>)
      requires Valid() && error == Ok && size >= 0
      modifies this
      ensures Valid() && data == old(data) && buf == old(buf) && bufbits == old(bufbits)
      ensures 0 <= size <= old(size)
      ensures match Segment(data, old(pos), old(size))
        case Failure(e) => error == e
        case Success(s) => error == Ok && seg == s && pos == old(pos) + 2 && size == old(size) - 2 && length == |s|
    {
      DecodeLength();
      if error != Ok {
        return [];
      }
      if length < 0 {
        SetError(SyntaxError);
        return [];
      }
      seg := data[pos..pos + length];
    }

    /** A segment parser's walk over its segment: the length field, the
        body as `p` reads it, and on success the step past the body. A
        parser that finds a fault raises its error and returns. */
    method Parse<T>(p: seq<byte> -> Result<T>) returns (r: Result<T>)
      requires Valid() && error == Ok && size >= 0
      modifies this
      ensures Valid() && data == old(data) && buf == old(buf) && bufbits == old(bufbits)
      ensures 0 <= size <= old(size)
      ensures r == Parsed(data, old(pos), old(size), p) && error == Outcome(r)
      ensures r.Success? ==> Announced(data, old(pos), old(size)) == Success(pos - old(pos) - 2)
    {
      var seg := Open();
      if error != Ok {
        return Failure(error);
      }
      r := p(seg);
      if r.Failure? {
        SetError(r.status);
        return;
      }
      Skip(length);
    }

    /** `ujSkipMarker`: step over a whole segment. A length field of 0 or 1
        moves the cursor back onto the field itself. The step over the body
        is taken only when the length field was good; after a bad one the
        source steps over whatever `length` held before, which reads
        nothing but leaves the cursor meaningless. */
    method SkipMarker()
      requires Valid() && error == Ok
      modifies this
      ensures Valid() && data == old(data) && buf == old(buf) && bufbits == old(bufbits)
      ensures match Announced(data, old(pos), old(size))
        case Failure(e) => error == e && pos == old(pos) && size == old(size)
        case Success(n) => error == Ok && pos == old(pos) + 2 + n && size == old(size) - 2 - n && 0 <= size
    {
      DecodeLength();
      if error != Ok {
        return;
      }
      Skip(length);
    }

    /** The first half of `ujDecodeExif`: read the length field, remember
        where the body starts and how long it is, and step over it. */
    method TakeSegment() returns (seg: seq<byte>)
      requires Valid() && error == Ok
      modifies this
      ensures Valid() && data == old(data) && buf == old(buf) && bufbits == old(bufbits)
      ensures match Announced(data, old(pos), old(size))
        case Failure(e) => error == e && pos == old(pos) && size == old(size)
        case Success(n) =>
          error == Ok && pos == old(pos) + 2 + n && size == old(size) - 2 - n && 0 <= size &&
          seg == Body(data, old(pos) + 2, n)
    {
      DecodeLength();
      if error != Ok {
        return [];
      }
      seg := Body(data, pos, length);
      Skip(length);
    }
  }

  /** The picture fields of a context that the frame header sets, with
      the frame header itself. */
  datatype Picture = Picture(width: int, height: int, ncomp: int, mbwidth: int, mbheight: int,
                             mbsizex: int, mbsizey: int, frame: Segments.Frame)

  /** A component laid out for frame `f` as its component `fc`: the fields
      `ujDecodeSOF` sets, and, when decoding, a plane of the size it
      allocates. */
  ghost predicate Holds(c: Planes.Component, f: Segments.Frame, fc: Segments.FrameComponent, noDecode: bool)
    reads c
    requires Segments.Sampled(f) && f.width >= 0 && f.height >= 0
  {
    c.cid == fc.cid && c.ssx == fc.ssx && c.ssy == fc.ssy && c.qtsel == fc.qtsel &&
    Segments.Factor(fc.ssx) && Segments.Factor(fc.ssy) && 0 <= fc.qtsel < 4 && !Segments.TooSmall(f, fc) &&
    c.width == Segments.PlaneWidth(f, fc) && c.height == Segments.PlaneHeight(f, fc) &&
    c.stride == Segments.Stride(f, fc) &&
    (!noDecode ==> c.pixels.Length == Segments.PlaneSize(f, fc))
  }

  /** The plane of `c` is the one it had when decoding is disabled, and
      otherwise a new one, all mid-grey. */
  twostate predicate Renewed(c: Planes.Component, noDecode: bool)
    reads c, c.pixels
  {
    if noDecode then c.pixels == old(c.pixels) else fresh(c.pixels) && Gray(c.pixels)
  }

  /** The plane of `c` is the one it had or a new one. */
  twostate predicate Kept(c: Planes.Component)
    reads c
  {
    c.pixels == old(c.pixels) || fresh(c.pixels)
  }

  /** The context's picture fields are those of a frame header and each
      of the first `ncomp` components is laid out for its frame component. */
  ghost predicate Framed(cs: seq<Planes.Component>, p: Picture, noDecode: bool)
    reads cs
  {
    Segments.Sampled(p.frame) && 1 <= p.frame.width && 1 <= p.frame.height &&
    p == Picturing(p.frame) && p.ncomp <= |cs| &&
    forall i :: 0 <= i < p.ncomp ==> Holds(cs[i], p.frame, p.frame.comps[i], noDecode)
  }

  /** Component `c` laid out on a grid of `mbw` by `mbh` MCUs for a picture
      of `w` by `h` samples: an identifier byte, accepted sampling factors and quantisation
      table, a pitch of eight samples for each horizontal unit of each MCU
      column, a plane at least one sample wide and high, no wider than its
      pitch, no higher than its MCU rows and at least three samples either
      way where it is smaller than the picture, and, unless decoding is
      disabled, a buffer for all its MCU rows. */
  ghost predicate Placed(c: Planes.Component, mbw: int, mbh: int, w: int, h: int, noDecode: bool)
    reads c`cid, c`ssx, c`ssy, c`qtsel, c`width, c`height, c`stride, c`pixels
  {
    0 <= c.cid < 256 && Segments.Factor(c.ssx) && Segments.Factor(c.ssy) && 0 <= c.qtsel < 4 && c.stride == 8 * c.ssx * mbw &&
    1 <= c.width <= c.stride && 1 <= c.height <= 8 * c.ssy * mbh &&
    (c.width < w ==> c.width >= 3) && (c.height < h ==> c.height >= 3) &&
    (!noDecode ==> c.pixels.Length == c.stride * (8 * c.ssy * mbh))
  }

  /** A component laid out for a frame is placed on the frame's MCU grid. */
  lemma HoldsPlaced(c: Planes.Component, f: Segments.Frame, fc: Segments.FrameComponent, noDecode: bool)
    requires Segments.Sampled(f) && 1 <= f.width && 1 <= f.height && Holds(c, f, fc, noDecode)
    ensures Placed(c, Segments.MbWidth(f), Segments.MbHeight(f), f.width, f.height, noDecode)
  {
    Segments.StrideIsWhole(f, fc);
    Segments.PlaneFits(f, fc);
    Segments.PlaneSizes(f, fc);
    Segments.SubsampledPlanesAreWide(f, fc);
  }

  /** What the scan needs to decode every block of a grid of `mbw` by `mbh`
      MCUs into the first `ncomp` components: accepted sampling factors,
      table selectors in range, a pitch of eight samples for each
      horizontal unit of each MCU column, and a buffer of its own for all
      MCU rows. */
  ghost predicate Blocks(cs: seq<Planes.Component>, ncomp: int, mbw: int, mbh: int)
    reads set i | 0 <= i < |cs| :: cs[i]`ssx, set i | 0 <= i < |cs| :: cs[i]`ssy
    reads set i | 0 <= i < |cs| :: cs[i]`qtsel, set i | 0 <= i < |cs| :: cs[i]`dctabsel
    reads set i | 0 <= i < |cs| :: cs[i]`actabsel, set i | 0 <= i < |cs| :: cs[i]`stride
    reads set i | 0 <= i < |cs| :: cs[i]`pixels
  {
    1 <= ncomp <= |cs| && 1 <= mbw && 1 <= mbh &&
    (forall i :: 0 <= i < ncomp ==>
      Segments.Factor(cs[i].ssx) && Segments.Factor(cs[i].ssy) && 0 <= cs[i].qtsel < 4 &&
      0 <= cs[i].dctabsel < 4 && 0 <= cs[i].actabsel < 4 && cs[i].stride == 8 * cs[i].ssx * mbw &&
      cs[i].pixels.Length == cs[i].stride * (8 * cs[i].ssy * mbh)) &&
    Apart(cs, ncomp)
  }

  /** After the scan: one or three planes, each at least one sample wide
      and high with its rows inside its array, and any plane smaller than
      the picture at least three samples that way, as the filters need. */
  ghost predicate Usable(cs: seq<Planes.Component>, ncomp: int, width: int, height: int)
    reads set i | 0 <= i < |cs| :: cs[i]`width, set i | 0 <= i < |cs| :: cs[i]`height
    reads set i | 0 <= i < |cs| :: cs[i]`stride, set i | 0 <= i < |cs| :: cs[i]`pixels
  {
    (ncomp == 1 || ncomp == 3) && ncomp <= |cs| && 1 <= width && 1 <= height &&
    forall i :: 0 <= i < ncomp ==>
      cs[i].Shape() && (cs[i].width < width ==> cs[i].width >= 3) && (cs[i].height < height ==> cs[i].height >= 3)
  }

  /** The picture fields `ujDecodeSOF` derives from the frame header `f`. */
  function Picturing(f: Segments.Frame): (p: Picture)
    requires Segments.Sampled(f) && f.width >= 0 && f.height >= 0
    ensures p.ncomp == |f.comps| && p.frame == f && p.width == f.width && p.height == f.height
  {
    Picture(f.width, f.height, |f.comps|, Segments.MbWidth(f), Segments.MbHeight(f),
            Segments.MbSizeX(f), Segments.MbSizeY(f), f)
  }

  /** The quantisation table identifiers the components of a frame use. */
  function Qtsels(cs: seq<Segments.FrameComponent>): set<int>
  {
    set k | 0 <= k < |cs| :: cs[k].qtsel
  }

  /** The identifiers of the first `n` components, in order: what
      `ujDecodeScan` matches the components of a scan header against. */
  function CidsOf(cs: seq<Planes.Component>, n: int): (ids: seq<byte>)
    requires 0 <= n <= |cs| && forall k :: 0 <= k < n ==> 0 <= cs[k].cid < 256
    reads set i | 0 <= i < |cs| :: cs[i]`cid
    ensures |ids| == n && forall k :: 0 <= k < n ==> ids[k] == cs[k].cid
  {
    if n == 0 then [] else CidsOf(cs, n - 1) + [cs[n - 1].cid]
  }

  /** A component placed on the MCU grid with its plane allocated is one
      the conversion can use. */
  lemma PlacedIsUsable(c: Planes.Component, mbw: int, mbh: int, w: int, h: int)
    requires Placed(c, mbw, mbh, w, h, false)
    ensures c.Shape() && (c.width < w ==> c.width >= 3) && (c.height < h ==> c.height >= 3)
  {
    MulMonotone(c.height, 8 * c.ssy * mbh, c.stride);
  }

  /** The restart bookkeeping of the MCU loop after `mcus` MCUs with
      interval `ri`: `n` markers read, `count` MCUs to go before the next,
      which is RST`next`. */
  ghost predicate Counting(mcus: int, ri: int, count: int, next: int, n: int)
    requires ri > 0
  {
    n == mcus / ri && count == ri - mcus % ri && next == n % 8
  }

  /** One MCU further: the countdown drops by one, or at its end a
      marker more is read, the next one expected, and it starts over. */
  lemma CountStep(mcus: int, ri: int, count: int, next: int, n: int)
    requires 0 <= mcus && ri > 0 && Counting(mcus, ri, count, next, n)
    ensures 1 <= count <= ri && 0 <= next < 8 && 0 <= n
    ensures count > 1 ==> Counting(mcus + 1, ri, count - 1, next, n)
    ensures count == 1 ==> Counting(mcus + 1, ri, ri, (next + 1) % 8, n + 1)
  {
    DivStep(mcus, ri);
    DivStep(n, 8);
  }

  /** Counting one more: the remainder by `d` wraps to zero, and the
      quotient grows, exactly when it was `d - 1`. */
  lemma DivStep(m: int, d: int)
    requires 0 <= m && 0 < d
    ensures m % d == d - 1 ==> (m + 1) / d == m / d + 1 && (m + 1) % d == 0
    ensures m % d != d - 1 ==> (m + 1) / d == m / d && (m + 1) % d == m % d + 1
  {
    if m % d == d - 1 {
      DivModUnique(m + 1, d, m / d + 1, 0);
    } else {
      DivModUnique(m + 1, d, m / d, m % d + 1);
    }
  }

  /** The MCU that sample `i` of a plane of pitch `stride` lies in, for a
      component of `ssx` by `ssy` blocks to an MCU and MCUs numbered in
      raster order on a grid `mbw` wide. */
  function McuOf(i: int, stride: int, ssx: int, ssy: int, mbw: int): int
    requires stride >= 1 && ssx >= 1 && ssy >= 1
  {
    (i / stride) / (8 * ssy) * mbw + (i % stride) / (8 * ssx)
  }

  /** The number of the MCU in column `mbx` and row `mby` of a grid `mbw`
      MCUs wide, in the raster order the scan decodes them in. */
  function Raster(mbx: int, mby: int, mbw: int): int
  {
    mby * mbw + mbx
  }

  /** Every sample of block (`sbx`, `sby`) of MCU (`mbx`, `mby`), at the
      offset the scan decodes it to, lies in that MCU. */
  lemma TileInMcu(i: int, ssx: int, ssy: int, mbw: int, mbx: int, mby: int, sbx: int, sby: int)
    requires 1 <= ssx && 1 <= ssy && 0 <= mbx < mbw && 0 <= mby && 0 <= sbx < ssx && 0 <= sby < ssy
    requires Idct.InTile(i, Segments.BlockOffset(ssx, ssy, 8 * ssx * mbw, mbx, mby, sbx, sby), 8 * ssx * mbw)
    ensures McuOf(i, 8 * ssx * mbw, ssx, ssy, mbw) == mby * mbw + mbx
  {
    var s := 8 * ssx * mbw;
    var at := Segments.BlockOffset(ssx, ssy, s, mbx, mby, sbx, sby);
    ColumnFits(ssx, mbw, mbx, sbx);
    TileRowCol(i, at, s, mby * ssy + sby, mbx * ssx + sbx, (i - at) / s, (i - at) % s);
    WithinMcu(mby, ssy, sby, (i - at) / s);
    WithinMcu(mbx, ssx, sbx, (i - at) % s);
  }

  /** Block column `sbx` of MCU column `mbx` ends inside a plane row of
      `mbw` MCUs of `ssx` blocks. */
  lemma ColumnFits(ssx: int, mbw: int, mbx: int, sbx: int)
    requires 1 <= ssx && 0 <= mbx < mbw && 0 <= sbx < ssx
    ensures 0 <= mbx * ssx + sbx && 8 * (mbx * ssx + sbx) + 8 <= 8 * ssx * mbw
  {
    MulMonotone(0, mbx, ssx);
    MulMonotone(mbx + 1, mbw, ssx);
  }

  /** A sample `q` rows and `r` columns into the tile at row `row` and
      column `col` of tiles lies on plane row `8 * row + q` and column
      `8 * col + r`. */
  lemma TileRowCol(i: int, at: int, s: int, row: int, col: int, q: int, r: int)
    requires 0 <= col && 8 * col + 8 <= s && at == (row * s + col) * 8
    requires q == (i - at) / s && r == (i - at) % s && 0 <= r < 8
    ensures i / s == 8 * row + q && i % s == 8 * col + r
  {
    assert i == (8 * row + q) * s + (8 * col + r);
    DivModUnique(i, s, 8 * row + q, 8 * col + r);
  }

  /** Sample `d` of block `k` of MCU `m`, counted in samples along one
      axis with `n` blocks to an MCU, lies in MCU `m`. */
  lemma WithinMcu(m: int, n: int, k: int, d: int)
    requires 1 <= n && 0 <= k < n && 0 <= d < 8
    ensures (8 * (m * n + k) + d) / (8 * n) == m
  {
    DivModUnique(8 * (m * n + k) + d, 8 * n, m, 8 * k + d);
  }

  /** What decoding block `b` into the tile at `at` of a plane of pitch
      `stride` does to its samples `before`: nothing when the coefficient
      loop threw, and otherwise the tile painted with the block's pixels,
      every other sample kept. */
  ghost predicate Stroke(before: seq<byte>, after: seq<byte>, b: Entropy.Coefs, at: int, stride: int)
  {
    |after| == |before| && |b.blk| == 64 && stride >= 8 &&
    if b.thrown then after == before else Idct.Painted(after, before, b.blk, at, stride)
  }

  /** The blocks of one component in MCU (`mbx`, `mby`), as the scan
      decodes them with `step` from reader `r`, DC predictor `dcpred` and
      status `e0`, leaving status `e`: `bs` are the blocks decoded, one
      after the other, and `ps` the plane before and after each. Block `j`
      is the one at (`j % ssx`, `j / ssx`) within the MCU, painted into its
      tile at `BlockOffset`; the scan stops after the first block that
      leaves an error, and otherwise decodes all `ssx` by `ssy` of them. */
  ghost predicate Painting(step: (Reader, int) --> Entropy.Coefs, r: Reader, dcpred: int, e0: Status,
                           ssx: int, ssy: int, stride: int, mbx: int, mby: int,
                           bs: seq<Entropy.Coefs>, ps: seq<seq<byte>>, e: Status)
  {
    Entropy.Chain(step, r, dcpred, bs) && 1 <= ssx && 1 <= |bs| <= ssx * ssy && |ps| == |bs| + 1 &&
    (forall j :: 0 <= j < |bs| ==>
       Stroke(ps[j], ps[j + 1], bs[j], Segments.BlockOffset(ssx, ssy, stride, mbx, mby, j % ssx, j / ssx), stride)) &&
    (forall j :: 0 <= j < |bs| - 1 ==> !bs[j].err) && (e0 != Ok ==> |bs| == 1) &&
    e == Raise(e0, bs[|bs| - 1].err) && (e == Ok ==> |bs| == ssx * ssy)
  }

  /** The scan part-way through the blocks of one component in MCU
      (`mbx`, `mby`): `bs` decoded one after the other with `step` from
      reader `r` and predictor `dcpred`, each painted into its tile as in
      `Painting`, none of them leaving an error, and the scan past its
      first block only when it started without one. */
  ghost predicate Sofar(step: (Reader, int) --> Entropy.Coefs, r: Reader, dcpred: int, e0: Status,
                        ssx: int, ssy: int, stride: int, mbx: int, mby: int,
                        bs: seq<Entropy.Coefs>, ps: seq<seq<byte>>)
  {
    Entropy.Chain(step, r, dcpred, bs) && 1 <= ssx && 1 <= ssy && |bs| <= ssx * ssy && |ps| == |bs| + 1 &&
    (forall j :: 0 <= j < |bs| ==>
       Stroke(ps[j], ps[j + 1], bs[j], Segments.BlockOffset(ssx, ssy, stride, mbx, mby, j % ssx, j / ssx), stride)) &&
    (forall j :: 0 <= j < |bs| ==> !bs[j].err) && (bs != [] ==> e0 == Ok)
  }

  /** One more block, the one at (`sbx`, `sby`), decoded where the others
      left off and painted into its tile: the scan goes on when it leaves
      no error, and otherwise has painted the component as far as it gets. */
  lemma SofarGrows(step: (Reader, int) --> Entropy.Coefs, r: Reader, dcpred: int, e0: Status,
                   ssx: int, ssy: int, stride: int, mbx: int, mby: int,
                   bs: seq<Entropy.Coefs>, ps: seq<seq<byte>>, b: Entropy.Coefs, after: seq<byte>, sbx: int, sby: int)
    requires Sofar(step, r, dcpred, e0, ssx, ssy, stride, mbx, mby, bs, ps)
    requires |bs| == sby * ssx + sbx && 0 <= sbx < ssx && 0 <= sby < ssy
    requires step.requires(Entropy.ReaderAfter(r, bs), Entropy.PredAfter(dcpred, bs))
    requires b == step(Entropy.ReaderAfter(r, bs), Entropy.PredAfter(dcpred, bs))
    requires Stroke(ps[|bs|], after, b, Segments.BlockOffset(ssx, ssy, stride, mbx, mby, sbx, sby), stride)
    ensures var e := Raise(if bs == [] then e0 else Ok, b.err);
      (e == Ok ==> Sofar(step, r, dcpred, e0, ssx, ssy, stride, mbx, mby, bs + [b], ps + [after])) &&
      (e != Ok ==> Painting(step, r, dcpred, e0, ssx, ssy, stride, mbx, mby, bs + [b], ps + [after], e))
  {
    Segments.Below(sby, ssy, ssx, sbx);
    DivModUnique(|bs|, ssx, sby, sbx);
    Entropy.ChainGrows(step, r, dcpred, bs, b);
  }

  /** All `ssx` by `ssy` blocks decoded without an error. */
  lemma SofarDone(step: (Reader, int) --> Entropy.Coefs, r: Reader, dcpred: int, e0: Status,
                  ssx: int, ssy: int, stride: int, mbx: int, mby: int, bs: seq<Entropy.Coefs>, ps: seq<seq<byte>>)
    requires Sofar(step, r, dcpred, e0, ssx, ssy, stride, mbx, mby, bs, ps) && |bs| == ssy * ssx
    ensures Painting(step, r, dcpred, e0, ssx, ssy, stride, mbx, mby, bs, ps, Ok)
  {
    MulAtLeast(ssx, ssy);
  }

  /** Plane `after` differs from plane `before` at most in MCUs `lo` to
      `hi`. */
  ghost predicate Confined(before: seq<byte>, after: seq<byte>, stride: int, ssx: int, ssy: int, mbw: int, lo: int, hi: int)
  {
    |after| == |before| && stride >= 1 && ssx >= 1 && ssy >= 1 &&
    forall i ::
      0 <= i < |before| && !(lo <= McuOf(i, stride, ssx, ssy, mbw) <= hi) ==> after[i] == before[i]
  }

  /** A block decoded into its tile changes its plane only in its MCU. */
  lemma StrokeConfined(before: seq<byte>, after: seq<byte>, b: Entropy.Coefs,
                       ssx: int, ssy: int, mbw: int, mbx: int, mby: int, sbx: int, sby: int)
    requires 1 <= ssx && 1 <= ssy && 0 <= mbx < mbw && 0 <= mby && 0 <= sbx < ssx && 0 <= sby < ssy
    requires Stroke(before, after, b, Segments.BlockOffset(ssx, ssy, 8 * ssx * mbw, mbx, mby, sbx, sby), 8 * ssx * mbw)
    ensures Confined(before, after, 8 * ssx * mbw, ssx, ssy, mbw, mby * mbw + mbx, mby * mbw + mbx)
  {
    var s := 8 * ssx * mbw;
    var at := Segments.BlockOffset(ssx, ssy, s, mbx, mby, sbx, sby);
    forall i | 0 <= i < |before| && McuOf(i, s, ssx, ssy, mbw) != mby * mbw + mbx
      ensures after[i] == before[i]
    {
      if !b.thrown && Idct.InTile(i, at, s) {
        TileInMcu(i, ssx, ssy, mbw, mbx, mby, sbx, sby);
      }
    }
  }

  /** Two steps confined to MCU ranges inside `lo` to `hi` together change
      a plane only there. */
  lemma ConfinedJoin(a: seq<byte>, b: seq<byte>, c: seq<byte>, stride: int, ssx: int, ssy: int, mbw: int,
                     lo1: int, hi1: int, lo2: int, hi2: int, lo: int, hi: int)
    requires Confined(a, b, stride, ssx, ssy, mbw, lo1, hi1) && Confined(b, c, stride, ssx, ssy, mbw, lo2, hi2)
    requires lo <= lo1 && lo <= lo2 && hi1 <= hi && hi2 <= hi
    ensures Confined(a, c, stride, ssx, ssy, mbw, lo, hi)
  {
  }

  /** The row pitch and the sampling factors of a plane, which place its
      MCUs. */
  datatype Grid = Grid(stride: int, ssx: int, ssy: int)

  /** The planes `after` of the first `n` components, laid out by `gs`,
      differ from the planes `before` at most in MCUs `lo` to `hi`. */
  ghost predicate Untouched(before: seq<seq<byte>>, after: seq<seq<byte>>, gs: seq<Grid>, n: int, mbw: int, lo: int, hi: int)
  {
    0 <= n <= |gs| && n <= |before| && n <= |after| &&
    forall k :: 0 <= k < n ==> Confined(before[k], after[k], gs[k].stride, gs[k].ssx, gs[k].ssy, mbw, lo, hi)
  }

  /** Planes left alone are untouched outside any range of MCUs. */
  lemma UntouchedSame(p: seq<seq<byte>>, gs: seq<Grid>, n: int, mbw: int, lo: int, hi: int)
    requires 0 <= n <= |gs| && n <= |p|
    requires forall k :: 0 <= k < n ==> gs[k].stride >= 1 && gs[k].ssx >= 1 && gs[k].ssy >= 1
    ensures Untouched(p, p, gs, n, mbw, lo, hi)
  {
  }

  /** Planes untouched outside MCUs `lo` to `hi`, one of which then
      changes only in those MCUs, are still untouched outside them. */
  lemma UntouchedStep(a: seq<seq<byte>>, b: seq<seq<byte>>, c: seq<seq<byte>>, gs: seq<Grid>, n: int, mbw: int, lo: int, hi: int, i: int)
    requires Untouched(a, b, gs, n, mbw, lo, hi) && 0 <= i < n && |c| == |b|
    requires Confined(b[i], c[i], gs[i].stride, gs[i].ssx, gs[i].ssy, mbw, lo, hi)
    requires forall k :: 0 <= k < n && k != i ==> c[k] == b[k]
    ensures Untouched(a, c, gs, n, mbw, lo, hi)
  {
    forall k | 0 <= k < n
      ensures Confined(a[k], c[k], gs[k].stride, gs[k].ssx, gs[k].ssy, mbw, lo, hi)
    {
      if k == i {
        ConfinedJoin(a[k], b[k], c[k], gs[k].stride, gs[k].ssx, gs[k].ssy, mbw, lo, hi, lo, hi, lo, hi);
      }
    }
  }

  /** The planes of the first `n` components are distinct arrays. */
  ghost predicate Apart(cs: seq<Planes.Component>, n: int)
    reads set i | 0 <= i < |cs| :: cs[i]`pixels
  {
    forall i, j :: 0 <= i < j < n && j < |cs| ==> cs[i].pixels != cs[j].pixels
  }

  /** One round of the second component loop of `ujDecodeSOF`, with the
      fields the first loop copies: identifier, sampling factors and
      quantisation table of frame component `fc`, the plane size and pitch,
      and, unless decoding is disabled, a new plane of `stride *
      paddedHeight` samples set to 0x80. */
  method LayOut(c: Planes.Component, f: Segments.Frame, fc: Segments.FrameComponent, noDecode: bool)
    requires Segments.Sampled(f) && 1 <= f.width && 1 <= f.height
    requires Segments.Factor(fc.ssx) && Segments.Factor(fc.ssy) && 0 <= fc.qtsel < 4 && !Segments.TooSmall(f, fc)
    modifies c
    ensures Holds(c, f, fc, noDecode)
    ensures c.actabsel == old(c.actabsel) && c.dctabsel == old(c.dctabsel) && c.dcpred == old(c.dcpred)
    ensures noDecode ==> c.pixels == old(c.pixels)
    ensures !noDecode ==> fresh(c.pixels) && Gray(c.pixels)
  {
    c.cid, c.ssx, c.ssy, c.qtsel := fc.cid, fc.ssx, fc.ssy, fc.qtsel;
    c.width, c.height, c.stride := Segments.PlaneWidth(f, fc), Segments.PlaneHeight(f, fc), Segments.Stride(f, fc);
    if !noDecode {
      Segments.PlaneSizeIsNatural(f, fc);
      c.pixels := new byte[Segments.PlaneSize(f, fc)](_ => 0x80);
    }
  }

  /** The plane of `c` grown to cover a picture of `w` by `h` samples: each
      dimension doubled until it reaches the picture's, the pitch and
      buffer still holding every row, the other fields kept, and the plane
      the old one or a new one. */
  twostate predicate Grew(c: Planes.Component, w: int, h: int)
    reads c
  {
    old(c.width) >= 1 && old(c.height) >= 1 && c.Shape() && c.Header() == old(c.Header()) &&
    c.width == Planes.Grown(old(c.width), w) && c.height == Planes.Grown(old(c.height), h) &&
    (c.pixels == old(c.pixels) || fresh(c.pixels))
  }

  /** A plane at least as wide and as high as a picture of `w` by `h`
      samples, its rows inside its array. */
  ghost predicate Covering(c: Planes.Component, w: int, h: int)
    reads c
  {
    c.Shape() && w <= c.width && h <= c.height
  }

  /** What the marker loop of `ujDecode` does with the byte after 0xFF. */
  datatype Action = ReadFrame | ReadHuffman | ReadQuant | ReadRestart | ReadScan | ReadExif | SkipSegment | Reject

  /** The `switch` of `ujDecode`: SOF0, DHT, DQT, DRI, SOS and APP1 have
      their parsers, COM and the other APPn segments are skipped, and
      every other marker is unsupported. */
  function Dispatch(m: byte): Action
  {
    if m == 0xC0 then ReadFrame
    else if m == 0xC4 then ReadHuffman
    else if m == 0xDB then ReadQuant
    else if m == 0xDD then ReadRestart
    else if m == 0xDA then ReadScan
    else if m == 0xFE then SkipSegment
    else if m == 0xE1 then ReadExif
    else if And8(m, 0xF0) == 0xE0 then SkipSegment
    else Reject
  }

  /** `(m & 0xF0) == 0xE0` picks out the APP0..APP15 markers. */
  lemma AppMask(m: byte)
    ensures And8(m, 0xF0) == 0xE0 <==> 0xE0 <= m <= 0xEF
  {
    var v := m as bv8;
    assert v & 0xF0 == 0xE0 ==> 0xE0 <= v <= 0xEF;
    assert 0xE0 <= v <= 0xEF ==> v & 0xF0 == 0xE0;
  }

  /** The markers the loop rejects as unsupported are exactly those other
      than SOF0, DHT, DQT, DRI, SOS, COM and APP0..APP15: among them the
      progressive SOF2 and an end of image before any scan. */
  lemma Rejected(m: byte)
    ensures Dispatch(m) == Reject <==>
      m != 0xC0 && m != 0xC4 && m != 0xDB && m != 0xDD && m != 0xDA && m != 0xFE && !(0xE0 <= m <= 0xEF)
    ensures Dispatch(0xC2) == Reject && Dispatch(0xD9) == Reject
  {
    AppMask(m);
    AppMask(0xC2);
    AppMask(0xD9);
  }

  /** A start-of-image marker at the start of the file. */
  predicate Soi(jpeg: seq<byte>)
  {
    |jpeg| >= 2 && jpeg[0] == 0xFF && jpeg[1] == 0xD8
  }

  /** The RGB branch of `ujConvert` on three planes that cover a picture
      of `w` by `h` samples. */
  method PackRgb(y: Planes.Component, cb: Planes.Component, cr: Planes.Component, w: int, h: int, out: array<byte>)
    requires 1 <= w && 1 <= h && 3 * (w * h) <= out.Length
    requires Covering(y, w, h) && Covering(cb, w, h) && Covering(cr, w, h)
    requires out != y.pixels && out != cb.pixels && out != cr.pixels
    modifies out
    ensures forall j :: 0 <= j < 3 * (w * h) ==>
      out[j] == Color.RgbSample(y.pixels[..], y.stride, cb.pixels[..], cb.stride, cr.pixels[..], cr.stride, w, j)
  {
    MulMonotone(h, y.height, y.stride);
    MulMonotone(h, cb.height, cb.stride);
    MulMonotone(h, cr.height, cr.stride);
    Color.ConvertRgb(y.pixels, y.stride, cb.pixels, cb.stride, cr.pixels, cr.stride, w, h, out);
  }

  /** The grayscale branch of `ujConvert` on a plane that covers a picture
      of `w` by `h` samples. */
  method PackGray(y: Planes.Component, w: int, h: int, out: array<byte>)
    requires 1 <= w && 1 <= h && w * h <= out.Length
    requires Covering(y, w, h) && out != y.pixels
    modifies out
    ensures forall j :: 0 <= j < out.Length ==>
      out[j] == if j < w * (h - 1) then Color.GraySample(y.pixels[..], y.stride, w, j) else old(out[j])
  {
    MulMonotone(h, y.height, y.stride);
    Color.ConvertGray(y.pixels, y.stride, w, h, out);
  }

  /** The plane of `c` and its dimensions and fields as they were. */
  twostate predicate Same(c: Planes.Component)
    reads c
  {
    c.width == old(c.width) && c.height == old(c.height) && c.stride == old(c.stride) &&
    c.pixels == old(c.pixels) && c.Header() == old(c.Header())
  }

  /** The upsampling half of `ujConvert` for one plane: sample repetition
      in the fast chroma mode, otherwise the cubic passes, co-sited or
      centred. In the fast mode a plane that grows holds, at each output
      position, the input sample the shifts select. */
  method Upsample(c: Planes.Component, w: int, h: int, fast: bool, coSited: bool)
    requires c.Shape() && (c.width < w ==> c.width >= 3) && (c.height < h ==> c.height >= 3)
    modifies c
    ensures Grew(c, w, h)
    ensures fast && (old(c.width) < w || old(c.height) < h) ==>
      c.stride == c.width && c.pixels.Length == c.width * c.height &&
      forall j :: 0 <= j < c.pixels.Length ==>
        c.pixels[j] == Planes.FastSample(old(c.pixels[..]), old(c.stride), Planes.Doublings(old(c.width), w),
                                         Planes.Doublings(old(c.height), h), c.width, j)
  {
    if fast {
      c.UpsampleFast(w, h);
    } else {
      c.UpsampleAccurate(w, h, coSited);
    }
  }

  /** Four quantisation tables of 64 zeros. */
  const ZeroTables: seq<seq<byte>> := var z := seq(64, _ => 0); [z, z, z, z]

  /** A plane of samples all 0x80, as `ujDecodeSOF` allocates it. */
  ghost predicate Gray(p: array<byte>)
    reads p
  {
    forall j :: 0 <= j < p.Length ==> p[j] == 0x80
  }

  /** A component as `memset` leaves it: every field zero and no plane. */
  ghost predicate Cleared(c: Planes.Component)
    reads c
  {
    c.Header() == (0, 0, 0, 0, 0, 0, 0) && c.width == 0 && c.height == 0 && c.stride == 0 && c.pixels.Length == 0
  }

  /** A Huffman lookup row with no codes. */
  ghost predicate Blank(row: array<VlcCode>)
    reads row
  {
    row.Length == 65536 && forall j :: 0 <= j < 65536 ==> row[j] == VlcCode(0, 0)
  }

  /** A block of 64 zero coefficients. */
  ghost predicate Zero(block: array<int>)
    reads block
  {
    block.Length == 64 && forall j :: 0 <= j < 64 ==> block[j] == 0
  }

  /** An empty Huffman lookup row. */
  method NewRow() returns (row: array<VlcCode>)
    ensures fresh(row) && Blank(row)
  {
    row := new VlcCode[65536](_ => VlcCode(0, 0));
  }

  /** Clear a lookup row, as `memset` does. */
  method ClearRow(row: array<VlcCode>)
    requires row.Length == 65536
    modifies row
    ensures Blank(row)
  {
    forall j | 0 <= j < 65536 {
      row[j] := VlcCode(0, 0);
    }
  }

  /** Clear a block, as `memset` does. */
  method ClearBlock(block: array<int>)
    requires block.Length == 64
    modifies block
    ensures Zero(block)
  {
    forall j | 0 <= j < 64 {
      block[j] := 0;
    }
  }

  /** A decoder context (`ujContext`). */
  class Context {
    const input: Input
    var valid: bool
    var decoded: bool
    var noDecode: bool
    var fastChroma: bool
    var width: int
    var height: int
    var ncomp: int
    var mbwidth: int
    var mbheight: int
    var mbsizex: int
    var mbsizey: int
    const comp: seq<Planes.Component>
    /** The quantisation tables, and which identifiers frames used and DQT
        segments defined (the bit masks `qtused` and `qtavail`). */
    var qtab: seq<seq<byte>>
    var qtused: set<int>
    var qtavail: set<int>
    /** The four 65536-slot Huffman lookup rows: DC 0, DC 1, AC 0, AC 1. */
    const vlctab: seq<array<VlcCode>>
    /** The coefficients of the block being decoded. */
    const block: array<int>
    var rstinterval: int
    /** The packed image once `ujGetImage` allocated it. */
    var rgb: array?<byte>
    var exifLe: bool
    var coSitedChroma: bool
    /** The frame header the planes were laid out for. */
    ghost var frame: Segments.Frame

    /** `ujCreate`: a zeroed context (`calloc` clears what `ujInit`
        clears, and the two option flags). */
    constructor ()
      ensures Valid() && Zeroed() && input.error == Ok && !noDecode && !fastChroma
      ensures fresh(input) && fresh(comp[0]) && fresh(comp[1]) && fresh(comp[2]) && fresh(block)
      ensures fresh(vlctab[0]) && fresh(vlctab[1]) && fresh(vlctab[2]) && fresh(vlctab[3])
      ensures fresh(comp[0].pixels) && fresh(comp[1].pixels) && fresh(comp[2].pixels)
    {
      var c0 := new Planes.Component();
      var c1 := new Planes.Component();
      var c2 := new Planes.Component();
      var v0 := NewRow();
      var v1 := NewRow();
      var v2 := NewRow();
      var v3 := NewRow();
      var b := new int[64];
      input := new Input();
      comp, vlctab, block := [c0, c1, c2], [v0, v1, v2, v3], b;
      noDecode, fastChroma := false, false;
      new;
      Init();
    }

    /** The objects the context owns besides itself and its planes'
        sample buffers. */
    ghost function Parts(): set<object>
      requires Structure()
    {
      {input, comp[0], comp[1], comp[2], vlctab[0], vlctab[1], vlctab[2], vlctab[3], block}
    }

    ghost function Pic(): Picture
      reads this`width, this`height, this`ncomp, this`mbwidth, this`mbheight, this`mbsizex, this`mbsizey, this`frame
    {
      Picture(width, height, ncomp, mbwidth, mbheight, mbsizex, mbsizey, frame)
    }

    /** The context's fixed structure: three distinct components, four
        distinct 65536-slot lookup rows and a 64-entry block. */
    ghost predicate Structure()
    {
      |comp| == 3 && comp[0] != comp[1] && comp[0] != comp[2] && comp[1] != comp[2] &&
      |vlctab| == 4 && vlctab[0].Length == 65536 && vlctab[1].Length == 65536 &&
      vlctab[2].Length == 65536 && vlctab[3].Length == 65536 &&
      vlctab[0] != vlctab[1] && vlctab[0] != vlctab[2] && vlctab[0] != vlctab[3] &&
      vlctab[1] != vlctab[2] && vlctab[1] != vlctab[3] && vlctab[2] != vlctab[3] &&
      block.Length == 64
    }

    /** Four 64-entry quantisation tables. */
    ghost predicate Tables()
      reads this`qtab
    {
      |qtab| == 4 && forall t :: 0 <= t < 4 ==> |qtab[t]| == 64
    }

    /** One or three components once a frame header was read, placed on
        its MCU grid, each with a plane of its own, until the scan decodes
        into them and usable by the
        conversion afterwards; a scan only after a frame header; and a
        packed image, once there is one, of the picture's size and apart
        from the planes. */
    ghost predicate Laid()
      reads this`ncomp, this`valid, this`decoded, this`noDecode, this`rgb, this`width, this`height
      reads this`mbwidth, this`mbheight, comp
    {
      0 <= ncomp <= 3 && ncomp <= |comp| && (decoded ==> valid) && (valid ==> 1 <= ncomp) &&
      (1 <= ncomp ==> (ncomp == 1 || ncomp == 3) && 1 <= width && 1 <= height) &&
      (1 <= ncomp && !decoded ==>
         1 <= mbwidth && 1 <= mbheight &&
         (forall i :: 0 <= i < ncomp ==> Placed(comp[i], mbwidth, mbheight, width, height, noDecode)) &&
         (!noDecode ==> Apart(comp, ncomp))) &&
      (decoded ==> Usable(comp, ncomp, width, height)) &&
      (rgb != null ==>
         decoded && rgb.Length == width * height * ncomp &&
         forall i :: 0 <= i < ncomp ==> rgb != comp[i].pixels)
    }

    /** `Laid` depends only on the fields it reads: it survives a step that
        leaves the picture fields and the three components alone. */
    twostate lemma LaidKept()
      requires old(Laid()) && |comp| == 3
      requires unchanged(this`ncomp, this`valid, this`decoded, this`noDecode, this`rgb, this`width, this`height)
      requires unchanged(this`mbwidth, this`mbheight, comp[0], comp[1], comp[2])
      ensures Laid()
    {
    }

    /** The same for a step that changes only the table selectors, DC
        predictors and samples of the components. */
    twostate lemma LayoutKept()
      requires |comp| == 3 && old(Laid())
      requires unchanged(this`ncomp, this`valid, this`decoded, this`noDecode, this`rgb, this`width, this`height)
      requires unchanged(this`mbwidth, this`mbheight)
      requires unchanged({comp[0]}`cid, {comp[0]}`ssx, {comp[0]}`ssy, {comp[0]}`qtsel, {comp[0]}`width, {comp[0]}`height, {comp[0]}`stride, {comp[0]}`pixels)
      requires unchanged({comp[1]}`cid, {comp[1]}`ssx, {comp[1]}`ssy, {comp[1]}`qtsel, {comp[1]}`width, {comp[1]}`height, {comp[1]}`stride, {comp[1]}`pixels)
      requires unchanged({comp[2]}`cid, {comp[2]}`ssx, {comp[2]}`ssy, {comp[2]}`qtsel, {comp[2]}`width, {comp[2]}`height, {comp[2]}`stride, {comp[2]}`pixels)
      ensures Laid()
    {
    }

    /** The invariant survives what leaves its fields, the tables and the
        components alone and keeps the cursor good. */
    twostate lemma ValidKept()
      requires old(Valid()) && input.Valid()
      requires unchanged(this`qtab, this`rstinterval, this`ncomp, this`valid, this`decoded, this`noDecode, this`rgb)
      requires unchanged(this`width, this`height, this`mbwidth, this`mbheight, comp[0], comp[1], comp[2])
      ensures Valid()
    {
      LaidKept();
    }

    /** The context's invariant: its structure and tables, a good cursor,
        a restart interval of 16 bits and the planes laid out. */
    ghost predicate Valid()
      reads this`qtab, this`rstinterval, this`ncomp, this`valid, this`decoded, this`noDecode, this`rgb
      reads this`width, this`height, this`mbwidth, this`mbheight, comp, input
    {
      Structure() && Tables() && input.Valid() && 0 <= rstinterval < 65536 && Laid()
    }

    /** The four Huffman lookup rows. */
    ghost function Rows(): (rows: seq<seq<VlcCode>>)
      requires Structure()
      reads vlctab
      ensures |rows| == 4 && forall s :: 0 <= s < 4 ==> |rows[s]| == 65536
    {
      [vlctab[0][..], vlctab[1][..], vlctab[2][..], vlctab[3][..]]
    }

    /** The state `ujInit` leaves, and `ujCreate` starts from: everything
        zero but the two option flags, which `ujInit` keeps, so no tables,
        no frame, empty planes and no input. */
    ghost predicate Zeroed()
      requires Structure()
      reads this, input, comp, vlctab, block
    {
      FieldsZeroed() && PartsZeroed()
    }

    /** The fields of a zeroed context. */
    ghost predicate FieldsZeroed()
      reads this`valid, this`decoded, this`width, this`height, this`ncomp, this`mbwidth, this`mbheight
      reads this`mbsizex, this`mbsizey, this`qtab, this`qtused, this`qtavail, this`rstinterval, this`rgb
      reads this`exifLe, this`coSitedChroma, this`frame
    {
      PictureZeroed() && TablesZeroed()
    }

    /** The picture fields of a zeroed context. */
    ghost predicate PictureZeroed()
      reads this`valid, this`decoded, this`width, this`height, this`ncomp, this`mbwidth, this`mbheight
      reads this`mbsizex, this`mbsizey
    {
      !valid && !decoded && width == 0 && height == 0 && ncomp == 0 && mbwidth == 0 && mbheight == 0 &&
      mbsizex == 0 && mbsizey == 0
    }

    /** The tables, restart interval, packed image and Exif fields of a
        zeroed context. */
    ghost predicate TablesZeroed()
      reads this`qtab, this`qtused, this`qtavail, this`rstinterval, this`rgb
      reads this`exifLe, this`coSitedChroma, this`frame
    {
      qtab == ZeroTables && qtused == {} && qtavail == {} &&
      rstinterval == 0 && rgb == null && !exifLe && !coSitedChroma && frame == Segments.Frame(0, 0, [])
    }

    /** The parts of a zeroed context: cursor, components, lookup rows and
        block. */
    ghost predicate PartsZeroed()
      requires Structure()
      reads input, comp, vlctab, block
    {
      input.Empty() && Cleared(comp[0]) && Cleared(comp[1]) && Cleared(comp[2]) &&
      Blank(vlctab[0]) && Blank(vlctab[1]) && Blank(vlctab[2]) && Blank(vlctab[3]) && Zero(block)
    }

    /** A zeroed context is a valid one. */
    lemma ZeroedIsValid()
      requires Structure() && input.Valid() && Zeroed()
      ensures Valid()
    {
    }

    /** Zero the fields of the context. */
    method ClearFields()
      modifies this`valid, this`decoded, this`width, this`height, this`ncomp, this`mbwidth, this`mbheight
      modifies this`mbsizex, this`mbsizey, this`qtab, this`qtused, this`qtavail, this`rstinterval, this`rgb
      modifies this`exifLe, this`coSitedChroma, this`frame
      ensures FieldsZeroed()
    {
      ClearPicture();
      ClearTables();
    }

    /** Zero the picture fields. */
    method ClearPicture()
      modifies this`valid, this`decoded, this`width, this`height, this`ncomp, this`mbwidth, this`mbheight
      modifies this`mbsizex, this`mbsizey
      ensures PictureZeroed()
    {
      valid, decoded, width, height, ncomp := false, false, 0, 0, 0;
      mbwidth, mbheight, mbsizex, mbsizey := 0, 0, 0, 0;
    }

    /** Zero the tables, the restart interval, the packed image and the
        Exif fields. */
    method ClearTables()
      modifies this`qtab, this`qtused, this`qtavail, this`rstinterval, this`rgb
      modifies this`exifLe, this`coSitedChroma, this`frame
      ensures TablesZeroed()
    {
      qtab, qtused, qtavail := ZeroTables, {}, {};
      rstinterval, rgb, exifLe, coSitedChroma := 0, null, false, false;
      frame := Segments.Frame(0, 0, []);
    }

    /** Zero the components, releasing their planes. */
    method ClearComponents()
      requires Structure()
      modifies comp[0], comp[1], comp[2]
      ensures Cleared(comp[0]) && Cleared(comp[1]) && Cleared(comp[2])
      ensures fresh(comp[0].pixels) && fresh(comp[1].pixels) && fresh(comp[2].pixels)
    {
      comp[0].Reset();
      comp[1].Reset();
      comp[2].Reset();
    }

    /** Zero the lookup rows and the block. */
    method ClearLookups()
      requires Structure()
      modifies vlctab[0], vlctab[1], vlctab[2], vlctab[3], block
      ensures Blank(vlctab[0]) && Blank(vlctab[1]) && Blank(vlctab[2]) && Blank(vlctab[3]) && Zero(block)
    {
      ClearRow(vlctab[0]);
      ClearRow(vlctab[1]);
      ClearRow(vlctab[2]);
      ClearRow(vlctab[3]);
      ClearBlock(block);
    }

    /** Zero the parts of the context, releasing the planes. */
    method ClearParts()
      requires Structure() && input.Valid()
      modifies input, comp[0], comp[1], comp[2], vlctab[0], vlctab[1], vlctab[2], vlctab[3], block
      ensures PartsZeroed() && input.Valid() && input.error == old(input.error)
      ensures fresh(comp[0].pixels) && fresh(comp[1].pixels) && fresh(comp[2].pixels)
    {
      ClearComponents();
      ClearLookups();
      input.Reset();
    }

    /** `ujInit`: release the planes and the packed image and clear the
        context, keeping the two option flags (and the error code, which
        the C code keeps in a global). */
    method Init()
      requires Structure() && input.Valid()
      modifies this, input, comp[0], comp[1], comp[2], vlctab[0], vlctab[1], vlctab[2], vlctab[3], block
      ensures Valid() && Zeroed() && noDecode == old(noDecode) && fastChroma == old(fastChroma)
      ensures input.error == old(input.error)
      ensures fresh(comp[0].pixels) && fresh(comp[1].pixels) && fresh(comp[2].pixels)
    {
      ClearParts();
      ClearFields();
      ZeroedIsValid();
    }

    // -------------------------------------------------------------------
    // One block.

    /** The rest of one round of the `do ... while (coef < 63)` loop of
        `ujDecodeBlock`, once the round's symbol `v` is read. */
    method AcStep(value: int, got: Option<byte>, ghost v: Entropy.Vlc, q: seq<byte>, code: byte, coef: int,
                  ghost dcpred: int, ghost err: bool)
        returns (code': byte, coef': int, stop: bool, thrown: bool)
      requires Structure() && input.Valid() && |q| == 64 && 0 <= coef < 63
      requires v.value == value && v.code == got
      modifies input, block
      ensures input.Valid() && input.data == old(input.data) && input.length == old(input.length)
      ensures input.Bits() == old(input.Bits())
      ensures var s := Entropy.Decide(v, q, code, coef, old(block[..]), dcpred, err);
        if stop then s.Stop? && s.c.thrown == thrown && (thrown ==> input.error == SyntaxError) &&
                     (!thrown ==> input.error == old(input.error) && s.c.blk == block[..])
        else !thrown && input.error == old(input.error) && s.Again? && s.code == code' && s.coef == coef' &&
             s.blk == block[..]
    {
      code' := if got.Some? then got.value else code;
      coef' := coef;
      if code' == 0 {
        return code', coef', true, false;
      }
      if code' % 16 == 0 && code' != 0xF0 {
        input.SetError(SyntaxError);
        return code', coef', true, true;
      }
      coef' := coef + code' / 16 + 1;
      if coef' > 63 {
        input.SetError(SyntaxError);
        return code', coef', true, true;
      }
      block[Zig(coef')] := value * q[coef'];
      stop, thrown := coef' >= 63, false;
    }

    /** The `do ... while (coef < 63)` loop of `ujDecodeBlock` on the
        block, from zig-zag position 0 with the errors `err` so far. */
    method Coefficients(row: array<VlcCode>, q: seq<byte>, ghost dcpred: int, ghost e: Status, ghost err: bool,
                        ghost d: seq<byte>, ghost r0: Reader, ghost acrow: seq<VlcCode>, ghost blk0: seq<int>)
        returns (thrown: bool)
      requires Structure() && input.Valid() && row.Length == 65536 && |q| == 64
      requires input.data == d && input.Bits() == r0 && row[..] == acrow && block[..] == blk0
      requires input.error == Raise(e, err)
      modifies input, block
      ensures input.Valid() && input.data == d && input.length == old(input.length)
      ensures var k := Entropy.AcLoop(d, r0, acrow, q, 0, 0, blk0, dcpred, err);
        input.Bits() == k.r && input.error == Raise(e, k.err) && thrown == k.thrown &&
        (!thrown ==> block[..] == k.blk)
    {
      ghost var K := Entropy.AcLoop(d, r0, acrow, q, 0, 0, blk0, dcpred, err);
      ghost var errAcc := err;
      var code: byte := 0;
      var coef := 0;
      var stop := false;
      thrown := false;
      while !stop
        invariant input.Valid() && input.data == d && input.length == old(input.length) && row[..] == acrow
        invariant input.error == Raise(e, errAcc)
        invariant !stop ==> 0 <= coef < 63 && Entropy.AcLoop(d, input.Bits(), acrow, q, code, coef, block[..], dcpred, errAcc) == K
        invariant stop ==> input.Bits() == K.r && errAcc == K.err && thrown == K.thrown && (!thrown ==> block[..] == K.blk)
        decreases !stop, 63 - coef
      {
        code, coef, stop, thrown, errAcc := AcIteration(row, q, code, coef, dcpred, e, errAcc, d, acrow, K);
      }
    }

    /** One round of the `do ... while (coef < 63)` loop: the symbol read
        with the AC row and `AcStep` on it. What is left of the loop after
        it is what was left before it. */
    method AcIteration(row: array<VlcCode>, q: seq<byte>, code: byte, coef: int, ghost dcpred: int, ghost e: Status,
                       ghost err: bool, ghost d: seq<byte>, ghost acrow: seq<VlcCode>, ghost K: Entropy.Coefs)
        returns (code': byte, coef': int, stop: bool, thrown: bool, ghost err': bool)
      requires Structure() && input.Valid() && row.Length == 65536 && |q| == 64
      requires input.data == d && row[..] == acrow && input.error == Raise(e, err)
      requires 0 <= coef < 63 && Entropy.AcLoop(d, input.Bits(), acrow, q, code, coef, block[..], dcpred, err) == K
      modifies input, block
      ensures input.Valid() && input.data == d && input.length == old(input.length) && input.error == Raise(e, err')
      ensures !stop ==> coef < coef' < 63 && Entropy.AcLoop(d, input.Bits(), acrow, q, code', coef', block[..], dcpred, err') == K
      ensures stop ==> input.Bits() == K.r && err' == K.err && thrown == K.thrown && (!thrown ==> block[..] == K.blk)
    {
      ghost var rb := input.Bits();
      var value, got := input.GetVLC(row);
      code', coef', stop, thrown := AcStep(value, got, Entropy.GetVlc(d, rb, acrow), q, code, coef, dcpred, err);
      err' := thrown || err || Entropy.GetVlc(d, rb, acrow).err;
    }

    /** Clear the block to the single DC coefficient `pred * q0`. */
    method StartBlock(pred: int, q0: int)
      requires Structure()
      modifies block
      ensures block[..] == Entropy.DcOnly(pred, q0)
    {
      forall i | 0 <= i < 64 {
        block[i] := 0;
      }
      block[0] := pred * q0;
    }

    /** The DC half of `ujDecodeBlock`: the DC difference added to the
        component's predictor, and the block cleared to the scaled
        predictor. */
    method DcStep(c: Planes.Component, q: seq<byte>)
      requires Structure() && input.Valid() && 0 <= c.dctabsel < 4 && 0 <= c.actabsel < 4 && |q| == 64
      modifies input, c`dcpred, block
      ensures input.Valid() && input.data == old(input.data) && input.length == old(input.length)
      ensures var v := Entropy.GetVlc(old(input.data), old(input.Bits()), old(vlctab[c.dctabsel][..]));
        c.dcpred == Entropy.Predict(old(c.dcpred), v) && input.Bits() == v.r &&
        input.error == Raise(old(input.error), v.err) && block[..] == Entropy.DcOnly(Entropy.Predict(old(c.dcpred), v), q[0])
      ensures vlctab[c.actabsel][..] == old(vlctab[c.actabsel][..])
    {
      var dc, _ := input.GetVLC(vlctab[c.dctabsel]);
      var pred := c.dcpred + dc;
      c.dcpred := pred;
      StartBlock(pred, q[0]);
    }

    /** The entropy-coded half of `ujDecodeBlock`: the block's
        coefficients, the component's DC predictor and the cursor after
        them. */
    method BlockCoefficients(c: Planes.Component) returns (thrown: bool)
      requires Structure() && Tables() && input.Valid()
      requires 0 <= c.qtsel < 4 && 0 <= c.dctabsel < 4 && 0 <= c.actabsel < 4
      modifies input, c`dcpred, block
      ensures input.Valid() && input.data == old(input.data) && input.length == old(input.length)
      ensures var k := Entropy.Block(old(input.data), old(input.Bits()), old(vlctab[c.dctabsel][..]),
                                     old(vlctab[c.actabsel][..]), qtab[c.qtsel], old(c.dcpred));
        input.Bits() == k.r && c.dcpred == k.dcpred && input.error == Raise(old(input.error), k.err) &&
        thrown == k.thrown && (!thrown ==> block[..] == k.blk)
    {
      var q := qtab[c.qtsel];
      ghost var v := Entropy.GetVlc(input.data, input.Bits(), vlctab[c.dctabsel][..]);
      ghost var pred := Entropy.Predict(c.dcpred, v);
      Entropy.BlockStart(input.data, input.Bits(), vlctab[c.dctabsel][..], vlctab[c.actabsel][..], q, c.dcpred);
      DcStep(c, q);
      thrown := Coefficients(vlctab[c.actabsel], q, pred, old(input.error), v.err, old(input.data), v.r,
                             old(vlctab[c.actabsel][..]), Entropy.DcOnly(pred, q[0]));
    }

    /** `ujDecodeBlock`: entropy-decode one block of component `c` and,
        unless the coefficient loop threw, transform it into the 8x8 tile of
        the plane at `at`. */
    method DecodeBlock(c: Planes.Component, at: int)
      requires Structure() && Tables() && input.Valid()
      requires 0 <= c.qtsel < 4 && 0 <= c.dctabsel < 4 && 0 <= c.actabsel < 4
      requires c.stride >= 8 && 0 <= at && at + 7 * c.stride + 7 < c.pixels.Length
      modifies input, c`dcpred, block, c.pixels
      ensures input.Valid() && input.data == old(input.data) && input.length == old(input.length)
      ensures var k := Entropy.Block(old(input.data), old(input.Bits()), old(vlctab[c.dctabsel][..]),
                                     old(vlctab[c.actabsel][..]), qtab[c.qtsel], old(c.dcpred));
        input.Bits() == k.r && c.dcpred == k.dcpred && input.error == Raise(old(input.error), k.err) &&
        (k.thrown ==> c.pixels[..] == old(c.pixels[..])) &&
        (!k.thrown ==> Idct.Painted(c.pixels[..], old(c.pixels[..]), k.blk, at, c.stride))
    {
      ghost var before := c.pixels[..];
      var thrown := BlockCoefficients(c);
      assert c.pixels[..] == before;
      if !thrown {
        Idct.Transform(block, c.pixels, at, c.stride);
      }
    }

    // -------------------------------------------------------------------
    // Marker segments.

    /** `ujDecodeDRI`: the restart interval. */
    method DecodeDri()
      requires Valid() && input.error == Ok && input.size >= 0
      modifies this`rstinterval, input
      ensures Valid() && input.data == old(input.data) && 0 <= input.size <= old(input.size)
      ensures var r := Parsed(old(input.data), old(input.pos), old(input.size), Segments.ParseDri);
        input.error == Outcome(r) && rstinterval == if r.Success? then r.value else old(rstinterval)
    {
      var r := input.Parse(Segments.ParseDri);
      if r.Success? {
        rstinterval := r.value;
      }
      LaidKept();
    }

    /** `ujDecodeDQT`: the quantisation tables of the segment, each stored
        under its identifier, in order, and marked available. */
    method DecodeDqt()
      requires Valid() && input.error == Ok && input.size >= 0
      modifies this`qtab, this`qtavail, input
      ensures Valid() && input.data == old(input.data) && 0 <= input.size <= old(input.size)
      ensures var r := Parsed(old(input.data), old(input.pos), old(input.size), Segments.ParseDqt);
        input.error == Outcome(r) &&
        (r.Success? ==> qtab == Segments.StoreTables(old(qtab), r.value) &&
                        qtavail == Segments.Available(old(qtavail), r.value)) &&
        (r.Failure? ==> qtab == old(qtab) && qtavail == old(qtavail))
    {
      var r := input.Parse(Segments.ParseDqt);
      if r.Success? {
        StoreQuantTables(r.value);
      }
      LaidKept();
    }

    /** The table loop of `ujDecodeDQT`: each table marked available and
        its 64 values copied under its identifier. */
    method StoreQuantTables(ts: seq<Segments.QTable>)
      requires Tables() && forall k :: 0 <= k < |ts| ==> 0 <= ts[k].id < 4 && |ts[k].values| == 64
      modifies this`qtab, this`qtavail
      ensures Tables()
      ensures qtab == Segments.StoreTables(old(qtab), ts) && qtavail == Segments.Available(old(qtavail), ts)
    {
      var k := 0;
      while k < |ts|
        invariant 0 <= k <= |ts| && Tables()
        invariant Segments.StoreTables(qtab, ts[k..]) == Segments.StoreTables(old(qtab), ts)
        invariant Segments.Available(qtavail, ts[k..]) == Segments.Available(old(qtavail), ts)
      {
        assert ts[k..][1..] == ts[k + 1..];
        qtavail := qtavail + {ts[k].id};
        qtab := qtab[ts[k].id := ts[k].values];
        k := k + 1;
      }
      assert ts[k..] == [];
    }

    /** `ujDecodeDHT`: the Huffman tables of the segment, each installed in
        its lookup row, in order. */
    method DecodeDht()
      requires Valid() && input.error == Ok && input.size >= 0
      modifies input, vlctab[0], vlctab[1], vlctab[2], vlctab[3]
      ensures Valid() && input.data == old(input.data) && 0 <= input.size <= old(input.size)
      ensures var r := Parsed(old(input.data), old(input.pos), old(input.size), ParseDht);
        input.error == Outcome(r) &&
        Rows() == if r.Success? then InstallAll(old(Rows()), r.value) else old(Rows())
    {
      var r := input.Parse(ParseDht);
      if r.Success? {
        InstallTables(r.value);
      }
      LaidKept();
    }

    /** The table loop of `ujDecodeDHT`: each table installed in the row
        its class and identifier select. */
    method InstallTables(ts: seq<Table>)
      requires Structure()
      requires forall t :: t in ts ==> 0 <= t.slot < 4 && Canonical(t.entries) && Used(t.entries) <= 65536
      modifies vlctab[0], vlctab[1], vlctab[2], vlctab[3]
      ensures Rows() == InstallAll(old(Rows()), ts)
    {
      var k := 0;
      while k < |ts|
        invariant 0 <= k <= |ts|
        invariant InstallAll(Rows(), ts[k..]) == InstallAll(old(Rows()), ts)
      {
        ghost var rows := Rows();
        var t := ts[k];
        assert t in ts;
        Install(vlctab[t.slot], t.entries);
        assert Rows() == rows[t.slot := Installed(t.entries, rows[t.slot])];
        assert ts[k..][1..] == ts[k + 1..];
        k := k + 1;
      }
      assert ts[k..] == [];
    }

    /** `ujDecodeSOF`: the frame header. The picture size, component count
        and MCU geometry are set from it, the quantisation tables of its
        components marked used, and each component laid out with a plane
        of its own (no plane when decoding is disabled). */
    method DecodeSof()
      requires Valid() && input.error == Ok && input.size >= 0 && !decoded
      modifies this`width, this`height, this`ncomp, this`mbwidth, this`mbheight, this`mbsizex, this`mbsizey
      modifies this`frame, this`qtused, input, comp[0], comp[1], comp[2]
      ensures Valid() && input.data == old(input.data) && 0 <= input.size <= old(input.size)
      ensures var r := Parsed(old(input.data), old(input.pos), old(input.size), Segments.ParseSof);
        input.error == Outcome(r) &&
        (r.Failure? ==> Pic() == old(Pic()) && qtused == old(qtused) && unchanged(comp[0], comp[1], comp[2])) &&
        (r.Success? ==> frame == r.value)
      ensures Kept(comp[0]) && Kept(comp[1]) && Kept(comp[2])
      ensures input.error == Ok || input.error == SyntaxError || input.error == Unsupported
    {
      var r := input.Parse(Segments.ParseSof);
      if r.Success? {
        Lay(r.value);
      } else {
        LaidKept();
      }
    }

    /** What `ujDecodeSOF` does with a frame header it accepted. */
    method Lay(f: Segments.Frame)
      requires Valid() && !decoded && rgb == null && Segments.Sampled(f)
      requires 1 <= f.width && 1 <= f.height && (|f.comps| == 1 || |f.comps| == 3)
      requires forall k :: 0 <= k < |f.comps| ==> 0 <= f.comps[k].qtsel < 4 && !Segments.TooSmall(f, f.comps[k])
      modifies this`width, this`height, this`ncomp, this`mbwidth, this`mbheight, this`mbsizex, this`mbsizey
      modifies this`frame, this`qtused, comp[0], comp[1], comp[2]
      ensures Valid() && frame == f && Framed(comp, Pic(), noDecode) && qtused == old(qtused) + Qtsels(f.comps)
      ensures forall i :: 0 <= i < ncomp ==> Renewed(comp[i], noDecode)
      ensures Kept(comp[0]) && Kept(comp[1]) && Kept(comp[2])
    {
      SetPicture(f);
      LayOutAll(f);
      Segments.GridIsNonEmpty(f);
      forall i | 0 <= i < ncomp
        ensures Placed(comp[i], mbwidth, mbheight, width, height, noDecode)
      {
        HoldsPlaced(comp[i], f, f.comps[i], noDecode);
      }
      assert Pic() == Picturing(f);
    }

    /** The second component loop of `ujDecodeSOF`. */
    method LayOutAll(f: Segments.Frame)
      requires Structure() && Segments.Sampled(f) && 1 <= f.width && 1 <= f.height && |f.comps| <= 3
      requires forall k :: 0 <= k < |f.comps| ==> 0 <= f.comps[k].qtsel < 4 && !Segments.TooSmall(f, f.comps[k])
      modifies comp[0], comp[1], comp[2]
      ensures forall i :: 0 <= i < |f.comps| ==> Holds(comp[i], f, f.comps[i], noDecode)
      ensures forall i :: 0 <= i < |f.comps| ==> Renewed(comp[i], noDecode)
      ensures Kept(comp[0]) && Kept(comp[1]) && Kept(comp[2])
      ensures !noDecode ==> Apart(comp, |f.comps|)
    {
      var c0, c1, c2 := comp[0], comp[1], comp[2];
      for i := 0 to |f.comps|
        invariant i > 0 ==> Holds(c0, f, f.comps[0], noDecode) && Renewed(c0, noDecode)
        invariant i > 1 ==> Holds(c1, f, f.comps[1], noDecode) && Renewed(c1, noDecode)
        invariant i > 2 ==> Holds(c2, f, f.comps[2], noDecode) && Renewed(c2, noDecode)
        invariant i <= 0 ==> c0.pixels == old(c0.pixels)
        invariant i <= 1 ==> c1.pixels == old(c1.pixels)
        invariant i <= 2 ==> c2.pixels == old(c2.pixels)
        invariant !noDecode ==> Apart(comp, i)
      {
        LayOut(comp[i], f, f.comps[i], noDecode);
      }
    }

    /** The picture fields `ujDecodeSOF` sets, and the quantisation tables
        the components use marked used. */
    method SetPicture(f: Segments.Frame)
      requires Segments.Sampled(f) && 1 <= f.width && 1 <= f.height
      modifies this`width, this`height, this`ncomp, this`mbwidth, this`mbheight, this`mbsizex, this`mbsizey
      modifies this`frame, this`qtused
      ensures Pic() == Picturing(f) && qtused == old(qtused) + Qtsels(f.comps)
    {
      qtused := qtused + Qtsels(f.comps);
      width, height, ncomp := f.width, f.height, |f.comps|;
      mbsizex, mbsizey := Segments.MbSizeX(f), Segments.MbSizeY(f);
      mbwidth, mbheight := Segments.MbWidth(f), Segments.MbHeight(f);
      frame := f;
    }

    /** `ujDecodeExif`: an APP1 segment. With decoding disabled or the fast
        chroma upsampling chosen it is only skipped; otherwise its body is
        searched for an Exif block, whose byte order and chroma siting are
        kept. */
    method DecodeExif()
      requires Valid() && input.error == Ok && input.size >= 0
      modifies this`exifLe, this`coSitedChroma, input
      ensures Valid() && input.data == old(input.data) && 0 <= input.size <= old(input.size)
      ensures match Announced(old(input.data), old(input.pos), old(input.size))
        case Failure(e) => input.error == e && exifLe == old(exifLe) && coSitedChroma == old(coSitedChroma)
        case Success(n) =>
          input.error == Ok && input.pos == old(input.pos) + 2 + n &&
          Exif.Siting(exifLe, coSitedChroma) ==
            if noDecode || fastChroma then Exif.Siting(old(exifLe), old(coSitedChroma))
            else Exif.Decode(Body(old(input.data), old(input.pos) + 2, n), Exif.Siting(old(exifLe), old(coSitedChroma)))
    {
      if noDecode || fastChroma {
        input.SkipMarker();
        ValidKept();
      } else {
        ReadExif();
        ValidKept();
      }
    }

    /** The body of `ujDecodeExif` past its first test: the segment is read
        and searched for the chroma siting. */
    method ReadExif()
      requires input.Valid() && input.error == Ok && input.size >= 0
      modifies this`exifLe, this`coSitedChroma, input
      ensures input.Valid() && input.data == old(input.data) && 0 <= input.size <= old(input.size)
      ensures match Announced(old(input.data), old(input.pos), old(input.size))
        case Failure(e) => input.error == e && exifLe == old(exifLe) && coSitedChroma == old(coSitedChroma)
        case Success(n) =>
          input.error == Ok && input.pos == old(input.pos) + 2 + n &&
          Exif.Siting(exifLe, coSitedChroma) ==
            Exif.Decode(Body(old(input.data), old(input.pos) + 2, n), Exif.Siting(old(exifLe), old(coSitedChroma)))
    {
      ghost var n := Announced(input.data, input.pos, input.size);
      var seg := input.TakeSegment();
      if input.error == Ok {
        var st := Exif.DecodeSegment(seg, Exif.Siting(exifLe, coSitedChroma));
        exifLe, coSitedChroma := st.le, st.coSited;
        assert seg == Body(old(input.data), old(input.pos) + 2, n.value);
      }
    }

    // -------------------------------------------------------------------
    // The scan.

    /** `ujDecodeScan`: the scan header, matched against the components of
        the frame, then, unless decoding is disabled, the entropy-coded data
        of every MCU. An accepted header marks the image valid; with
        decoding disabled the scan ends there, otherwise the image counts as
        decoded however far the MCU loop gets. */
    method DecodeScan()
      requires Valid() && input.error == Ok && input.size >= 0 && !valid
      modifies this`valid, this`decoded, input, block
      modifies {comp[0], comp[1], comp[2]}`dctabsel
      modifies {comp[0], comp[1], comp[2]}`actabsel
      modifies {comp[0], comp[1], comp[2]}`dcpred, comp[0].pixels, comp[1].pixels, comp[2].pixels
      ensures Valid() && input.data == old(input.data)
      ensures var r := Parsed(old(input.data), old(input.pos), old(input.size), Segments.ScanParser(old(CidsOf(comp, ncomp))));
        (r.Failure? ==> input.error == r.status && !valid) &&
        (r.Success? ==>
           valid && decoded == !noDecode &&
           (forall k :: 0 <= k < ncomp ==> comp[k].dctabsel == r.value[k].dctabsel && comp[k].actabsel == r.value[k].actabsel) &&
           (noDecode ==> input.error == Finished) &&
           (!noDecode ==> input.error == Finished || input.error == SyntaxError))
      ensures input.error == SyntaxError || input.error == Unsupported || input.error == Finished
    {
      var r := input.Parse(Segments.ScanParser(CidsOf(comp, ncomp)));
      if r.Success? {
        Scan(r.value);
      } else {
        LaidKept();
      }
    }

    /** The component loop of `ujDecodeScan`: the DC and AC lookup rows of
        each component. */
    method Select(sels: seq<Segments.ScanComponent>)
      requires Structure() && 0 <= ncomp <= 3 && |sels| == ncomp
      modifies {comp[0], comp[1], comp[2]}`dctabsel
      modifies {comp[0], comp[1], comp[2]}`actabsel
      ensures forall k :: 0 <= k < ncomp ==> comp[k].dctabsel == sels[k].dctabsel && comp[k].actabsel == sels[k].actabsel
    {
      for i := 0 to ncomp
        invariant forall k :: 0 <= k < i ==> comp[k].dctabsel == sels[k].dctabsel && comp[k].actabsel == sels[k].actabsel
      {
        assert forall k :: 0 <= k < 3 && k != i ==> comp[k] != comp[i];
        comp[i].dctabsel, comp[i].actabsel := sels[i].dctabsel, sels[i].actabsel;
      }
    }

    /** What `ujDecodeScan` does after a header it accepted, whose
        components select the lookup rows `sels`. */
    method Scan(sels: seq<Segments.ScanComponent>)
      requires Structure() && Tables() && input.Valid() && input.error == Ok && 0 <= rstinterval < 65536
      requires Laid() && !valid && rgb == null && 1 <= ncomp && |sels| == ncomp
      requires forall k :: 0 <= k < ncomp ==> 0 <= sels[k].dctabsel < 2 && 2 <= sels[k].actabsel < 4
      modifies this`valid, this`decoded, input, block
      modifies {comp[0], comp[1], comp[2]}`dctabsel
      modifies {comp[0], comp[1], comp[2]}`actabsel
      modifies {comp[0], comp[1], comp[2]}`dcpred, comp[0].pixels, comp[1].pixels, comp[2].pixels
      ensures Laid() && input.Valid() && input.data == old(input.data) && valid && decoded == !noDecode
      ensures forall k :: 0 <= k < ncomp ==> comp[k].dctabsel == sels[k].dctabsel && comp[k].actabsel == sels[k].actabsel
      ensures noDecode ==> input.error == Finished
      ensures !noDecode ==> input.error == Finished || input.error == SyntaxError
    {
      Select(sels);
      LayoutKept();
      ScanData();
    }

    /** The rest of `ujDecodeScan` once the components selected their
        lookup rows: valid, then done with decoding disabled, otherwise
        decoded by the MCU loop. */
    method ScanData()
      requires Structure() && Tables() && input.Valid() && input.error == Ok && 0 <= rstinterval < 65536
      requires Laid() && !valid && rgb == null && 1 <= ncomp
      requires forall k :: 0 <= k < ncomp ==> 0 <= comp[k].dctabsel < 2 && 2 <= comp[k].actabsel < 4
      modifies this`valid, this`decoded, input, block
      modifies {comp[0], comp[1], comp[2]}`dcpred, comp[0].pixels, comp[1].pixels, comp[2].pixels
      ensures Laid() && input.Valid() && input.data == old(input.data) && valid && decoded == !noDecode
      ensures noDecode ==> input.error == Finished
      ensures !noDecode ==> input.error == Finished || input.error == SyntaxError
    {
      if noDecode {
        Accept(false);
        input.SetError(Finished);
        return;
      }
      assert Blocks(comp, ncomp, mbwidth, mbheight);
      ghost var mcus, markers := DecodeMcus();
      LayoutKept();
      forall i | 0 <= i < ncomp
        ensures comp[i].Shape() && (comp[i].width < width ==> comp[i].width >= 3) &&
                (comp[i].height < height ==> comp[i].height >= 3)
      {
        PlacedIsUsable(comp[i], mbwidth, mbheight, width, height);
      }
      Accept(true);
    }

    /** The flags `ujDecodeScan` sets on a scan header it accepted: the
        image is valid, and decoded unless decoding is disabled. */
    method Accept(decode: bool)
      requires Laid() && !decoded && rgb == null && 1 <= ncomp
      requires decode ==> Usable(comp, ncomp, width, height)
      modifies this`valid, this`decoded
      ensures Laid() && valid && decoded == decode
    {
      valid, decoded := true, decode;
    }

    /** The MCU loop of `ujDecodeScan`: the MCUs in raster order, and after
        every `rstinterval` of them but the last a restart marker. The loop
        ends with the internal end-of-scan code once every MCU is decoded,
        or with the syntax error that stopped it. `mcus` counts the MCUs
        decoded and `markers` the restart markers accepted, which run
        RST0, RST1, ..., RST7, RST0, ... */
    method DecodeMcus() returns (ghost mcus: int, ghost markers: seq<int>)
      requires Structure() && Tables() && input.Valid() && input.error == Ok
      requires Blocks(comp, ncomp, mbwidth, mbheight) && 0 <= rstinterval < 65536
      modifies input, block, {comp[0], comp[1], comp[2]}`dcpred
      modifies comp[0].pixels, comp[1].pixels, comp[2].pixels
      ensures input.Valid() && input.data == old(input.data)
      ensures input.error == Finished || input.error == SyntaxError
      ensures 0 <= mcus <= mbwidth * mbheight
      ensures input.error == Finished ==> mcus == mbwidth * mbheight
      ensures forall k :: 0 <= k < |markers| ==> markers[k] == 0xFFD0 + k % 8
      ensures rstinterval == 0 ==> markers == []
      ensures rstinterval > 0 && input.error == Finished ==> |markers| == (mcus - 1) / rstinterval
    {
      var mbx, mby, rstcount, nextrst := 0, 0, rstinterval, 0;
      mcus, markers := 0, [];
      ghost var total := mbwidth * mbheight;
      MulPositive(mbwidth, mbheight);
      assert Raster(0, 0, mbwidth) == 0;
      hide Untouched, Confined, McuOf, Samples, Grids, Raster;
      while true
        invariant input.Valid() && input.data == old(input.data)
        invariant input.error == Ok || input.error == SyntaxError
        invariant 0 <= mbx < mbwidth && 0 <= mby < mbheight && mcus == Raster(mbx, mby, mbwidth) && 0 <= mcus < total
        invariant forall k :: 0 <= k < |markers| ==> markers[k] == 0xFFD0 + k % 8
        invariant rstinterval == 0 ==> markers == []
        invariant rstinterval > 0 ==> Counting(mcus, rstinterval, rstcount, nextrst, |markers|)
        decreases total - mcus
      {
        var ok := Mcu(mbx, mby);
        if !ok {
          return;
        }
        ghost var done := mcus;
        var last;
        mcus := mcus + 1;
        mbx, mby, last := NextMcu(mbx, mby);
        if last {
          break;
        }
        if rstinterval != 0 {
          var thrown;
          thrown, rstcount, nextrst, markers := Countdown(done, rstcount, nextrst, markers);
          if thrown {
            return;
          }
        }
      }
      input.SetError(Finished);
    }

    /** The step to the next MCU at the end of the MCU loop of
        `ujDecodeScan`: one column right, or the first column of the next
        row after the last; `last` when that leaves the picture, which is
        exactly after the last MCU. */
    method NextMcu(mbx: int, mby: int) returns (nx: int, ny: int, last: bool)
      requires 1 <= mbwidth && 0 <= mbx < mbwidth && 0 <= mby < mbheight
      ensures last <==> Raster(mbx, mby, mbwidth) + 1 == mbwidth * mbheight
      ensures !last ==> 0 <= nx < mbwidth && 0 <= ny < mbheight && Raster(nx, ny, mbwidth) == Raster(mbx, mby, mbwidth) + 1
    {
      Segments.Below(mby, mbheight, mbwidth, mbx);
      MulSucc(mby, mbwidth);
      nx, ny, last := mbx + 1, mby, false;
      if nx >= mbwidth {
        nx, ny := 0, mby + 1;
        if ny >= mbheight {
          last := true;
        }
      }
    }

    /** The restart countdown after the MCU numbered `done`: once every
        `rstinterval` MCUs, read the next restart marker `markers` expects;
        `thrown` when it was not that marker. */
    method Countdown(ghost done: int, rstcount: int, nextrst: int, ghost markers: seq<int>)
      returns (thrown: bool, count: int, next: int, ghost markers': seq<int>)
      requires Structure() && input.Valid() && input.error == Ok && 0 < rstinterval && 0 <= done
      requires Counting(done, rstinterval, rstcount, nextrst, |markers|)
      requires forall k :: 0 <= k < |markers| ==> markers[k] == 0xFFD0 + k % 8
      modifies input, {comp[0], comp[1], comp[2]}`dcpred
      ensures input.Valid() && input.data == old(input.data)
      ensures (input.error == Ok || input.error == SyntaxError) && (thrown ==> input.error == SyntaxError)
      ensures !thrown ==> Counting(done + 1, rstinterval, count, next, |markers'|)
      ensures forall k :: 0 <= k < |markers'| ==> markers'[k] == 0xFFD0 + k % 8
    {
      CountStep(done, rstinterval, rstcount, nextrst, |markers|);
      thrown, count, next, markers' := false, rstcount - 1, nextrst, markers;
      if count == 0 {
        thrown, next, markers' := Resync(nextrst, markers);
        count := rstinterval;
      }
    }

    /** The end of a restart interval: restart marker RSTn is read after
        the `|markers|` before it, and the next one expected is RST(n+1)
        modulo 8. */
    method Resync(n: int, ghost markers: seq<int>) returns (thrown: bool, next: int, ghost markers': seq<int>)
      requires Structure() && input.Valid() && input.error == Ok && 0 <= n < 8 && n == |markers| % 8
      requires forall k :: 0 <= k < |markers| ==> markers[k] == 0xFFD0 + k % 8
      modifies input, {comp[0], comp[1], comp[2]}`dcpred
      ensures input.Valid() && input.data == old(input.data)
      ensures (input.error == Ok || input.error == SyntaxError) && (thrown ==> input.error == SyntaxError)
      ensures !thrown ==> next == (n + 1) % 8 && |markers'| == |markers| + 1
      ensures forall k :: 0 <= k < |markers'| ==> markers'[k] == 0xFFD0 + k % 8
    {
      ghost var m;
      thrown, m := Restart(n);
      next, markers' := n, markers;
      if thrown {
        return;
      }
      markers' := markers + [m];
      assert forall k :: 0 <= k < |markers'| ==> markers'[k] == if k < |markers| then markers[k] else m;
      next := NextMarker(n);
    }

    /** The pitches and sampling factors of the three planes. */
    ghost function Grids(): (gs: seq<Grid>)
      requires |comp| == 3
      reads {comp[0], comp[1], comp[2]}`stride, {comp[0], comp[1], comp[2]}`ssx, {comp[0], comp[1], comp[2]}`ssy
      ensures |gs| == 3 && forall k :: 0 <= k < 3 ==> gs[k] == Grid(comp[k].stride, comp[k].ssx, comp[k].ssy)
    {
      [Grid(comp[0].stride, comp[0].ssx, comp[0].ssy), Grid(comp[1].stride, comp[1].ssx, comp[1].ssy),
       Grid(comp[2].stride, comp[2].ssx, comp[2].ssy)]
    }

    /** The samples of the three planes. */
    ghost function Samples(): (ps: seq<seq<byte>>)
      requires |comp| == 3
      reads {comp[0], comp[1], comp[2]}`pixels, comp[0].pixels, comp[1].pixels, comp[2].pixels
      ensures |ps| == 3
    {
      [comp[0].pixels[..], comp[1].pixels[..], comp[2].pixels[..]]
    }

    /** One MCU of `ujDecodeScan`: for each component its `ssx` by `ssy`
        blocks in raster order, each decoded into its tile of the plane and
        followed by the error check that ends the scan. Only the MCU's
        samples change. */
    method Mcu(mbx: int, mby: int) returns (ok: bool)
      requires Structure() && Tables() && input.Valid() && Blocks(comp, ncomp, mbwidth, mbheight)
      requires (input.error == Ok || input.error == SyntaxError) && 0 <= mbx < mbwidth && 0 <= mby < mbheight
      modifies input, block, {comp[0], comp[1], comp[2]}`dcpred
      modifies comp[0].pixels, comp[1].pixels, comp[2].pixels
      ensures Structure() && Tables() && Blocks(comp, ncomp, mbwidth, mbheight)
      ensures input.Valid() && input.data == old(input.data)
      ensures ok == (input.error == Ok) && (input.error == Ok || input.error == SyntaxError)
      ensures Untouched(old(Samples()), Samples(), Grids(), ncomp, mbwidth, Raster(mbx, mby, mbwidth), Raster(mbx, mby, mbwidth))
    {
      ghost var m := Raster(mbx, mby, mbwidth);
      ghost var start, grids := Samples(), Grids();
      UntouchedSame(start, grids, ncomp, mbwidth, m, m);
      hide Untouched, Confined, McuOf, Raster;
      for i := 0 to ncomp
        invariant Structure() && Tables() && Blocks(comp, ncomp, mbwidth, mbheight)
        invariant input.Valid() && input.data == old(input.data)
        invariant (input.error == Ok || input.error == SyntaxError) && (i > 0 ==> input.error == Ok)
        invariant grids == Grids() && Untouched(start, Samples(), grids, ncomp, mbwidth, m, m)
      {
        ok := McuPlane(i, mbx, mby, start, grids);
        if !ok {
          return;
        }
      }
      return true;
    }

    /** The blocks of component `i` in MCU (`mbx`, `mby`), as `Mcu`
        decodes them: when the samples outside that MCU still have the
        value they had in `start`, they keep it. */
    method McuPlane(i: int, mbx: int, mby: int, ghost start: seq<seq<byte>>, ghost grids: seq<Grid>) returns (ok: bool)
      requires Structure() && Tables() && input.Valid() && Blocks(comp, ncomp, mbwidth, mbheight) && 0 <= i < ncomp
      requires 0 <= mbx < mbwidth && 0 <= mby < mbheight
      requires grids == Grids() && Untouched(start, Samples(), grids, ncomp, mbwidth, Raster(mbx, mby, mbwidth), Raster(mbx, mby, mbwidth))
      modifies input, block, {comp[0], comp[1], comp[2]}`dcpred
      modifies comp[0].pixels, comp[1].pixels, comp[2].pixels
      ensures Structure() && Tables() && Blocks(comp, ncomp, mbwidth, mbheight)
      ensures input.Valid() && input.data == old(input.data) && ok == (input.error == Ok)
      ensures input.error == old(input.error) || input.error == Ok || input.error == SyntaxError
      ensures grids == Grids() && Untouched(start, Samples(), grids, ncomp, mbwidth, Raster(mbx, mby, mbwidth), Raster(mbx, mby, mbwidth))
    {
      ghost var m := Raster(mbx, mby, mbwidth);
      hide Coding, Entropy.BlockStep, Entropy.Block, Idct.TilePixel, Idct.Painted, Idct.InTile, Stroke, McuOf, Segments.BlockOffset, Painting, Entropy.Chain, Untouched, Confined;
      ghost var now := Samples();
      ghost var bs, ps;
      ok, bs, ps := Tiles(comp[i], mbx, mby);
      ghost var next := Samples();
      forall k | 0 <= k < ncomp && k != i
        ensures next[k] == now[k]
      {
        assert comp[k].pixels != comp[i].pixels;
      }
      UntouchedStep(start, now, next, grids, ncomp, mbwidth, m, m, i);
    }

    /** `ujDecodeBlock` for component `c` with the tables as they stand:
        the block decoded from a reader and a DC predictor. */
    ghost function Coding(c: Planes.Component): (Reader, int) --> Entropy.Coefs
      requires Structure() && Tables() && 0 <= c.qtsel < 4 && 0 <= c.dctabsel < 4 && 0 <= c.actabsel < 4
      reads input`data, this`qtab, c`qtsel, c`dctabsel, c`actabsel, vlctab[c.dctabsel], vlctab[c.actabsel]
    {
      Entropy.BlockStep(input.data, vlctab[c.dctabsel][..], vlctab[c.actabsel][..], qtab[c.qtsel])
    }

    /** One block of the MCU loop: the block `Coding(c)` decodes from the
        cursor and the DC predictor of `c`, painted into the tile at `at`
        unless the coefficient loop threw. */
    method Tile(c: Planes.Component, at: int) returns (ghost b: Entropy.Coefs)
      requires Structure() && Tables() && input.Valid()
      requires 0 <= c.qtsel < 4 && 0 <= c.dctabsel < 4 && 0 <= c.actabsel < 4
      requires c.stride >= 8 && 0 <= at && at + 7 * c.stride + 7 < c.pixels.Length
      modifies input, c`dcpred, block, c.pixels
      ensures input.Valid() && input.data == old(input.data)
      ensures old(Coding(c)).requires(old(input.Bits()), old(c.dcpred))
      ensures b == old(Coding(c))(old(input.Bits()), old(c.dcpred))
      ensures input.Bits() == b.r && c.dcpred == b.dcpred && input.error == Raise(old(input.error), b.err)
      ensures Stroke(old(c.pixels[..]), c.pixels[..], b, at, c.stride)
    {
      hide Entropy.Block, Idct.TilePixel;
      b := Coding(c)(input.Bits(), c.dcpred);
      DecodeBlock(c, at);
    }

    /** The blocks of component `c` in MCU (`mbx`, `mby`): `ssx` by `ssy`
        of them in raster order, each decoded into its tile and followed by
        the error check that ends the scan. `bs` are the blocks decoded and
        `ps` the plane before and after each; only the MCU's samples change. */
    method Tiles(c: Planes.Component, mbx: int, mby: int) returns (ok: bool, ghost bs: seq<Entropy.Coefs>, ghost ps: seq<seq<byte>>)
      requires Structure() && Tables() && input.Valid()
      requires Segments.Factor(c.ssx) && Segments.Factor(c.ssy)
      requires 0 <= c.qtsel < 4 && 0 <= c.dctabsel < 4 && 0 <= c.actabsel < 4
      requires c.stride == 8 * c.ssx * mbwidth && c.pixels.Length == c.stride * (8 * c.ssy * mbheight)
      requires 0 <= mbx < mbwidth && 0 <= mby < mbheight
      modifies input, block, c`dcpred, c.pixels
      ensures input.Valid() && input.data == old(input.data) && ok == (input.error == Ok)
      ensures input.error == old(input.error) || input.error == Ok || input.error == SyntaxError
      ensures Painting(old(Coding(c)), old(input.Bits()), old(c.dcpred), old(input.error),
                       c.ssx, c.ssy, c.stride, mbx, mby, bs, ps, input.error)
      ensures |ps| == |bs| + 1 && ps[0] == old(c.pixels[..]) && ps[|bs|] == c.pixels[..]
      ensures input.Bits() == Entropy.ReaderAfter(old(input.Bits()), bs) && c.dcpred == Entropy.PredAfter(old(c.dcpred), bs)
      ensures Confined(old(c.pixels[..]), c.pixels[..], c.stride, c.ssx, c.ssy, mbwidth, mby * mbwidth + mbx, mby * mbwidth + mbx)
    {
      hide Entropy.Block, Entropy.BlockStep, Coding, Idct.TilePixel, Idct.Painted, Idct.InTile, Stroke, McuOf, Segments.BlockOffset;
      ghost var step, r0, d0, e0 := Coding(c), input.Bits(), c.dcpred, input.error;
      ghost var m := mby * mbwidth + mbx;
      bs, ps := [], [c.pixels[..]];
      for sby := 0 to c.ssy
        invariant input.Valid() && input.data == old(input.data) && Coding(c) == step
        invariant Sofar(step, r0, d0, e0, c.ssx, c.ssy, c.stride, mbx, mby, bs, ps) && |bs| == sby * c.ssx
        invariant ps[0] == old(c.pixels[..]) && ps[|bs|] == c.pixels[..]
        invariant input.error == (if bs == [] then e0 else Ok)
        invariant input.Bits() == Entropy.ReaderAfter(r0, bs) && c.dcpred == Entropy.PredAfter(d0, bs)
        invariant Confined(old(c.pixels[..]), c.pixels[..], c.stride, c.ssx, c.ssy, mbwidth, m, m)
      {
        for sbx := 0 to c.ssx
          invariant input.Valid() && input.data == old(input.data) && Coding(c) == step
          invariant Sofar(step, r0, d0, e0, c.ssx, c.ssy, c.stride, mbx, mby, bs, ps) && |bs| == sby * c.ssx + sbx
          invariant ps[0] == old(c.pixels[..]) && ps[|bs|] == c.pixels[..]
          invariant input.error == (if bs == [] then e0 else Ok)
          invariant input.Bits() == Entropy.ReaderAfter(r0, bs) && c.dcpred == Entropy.PredAfter(d0, bs)
          invariant Confined(old(c.pixels[..]), c.pixels[..], c.stride, c.ssx, c.ssy, mbwidth, m, m)
        {
          Segments.BlockFits(c.ssx, c.ssy, mbwidth, mbheight, mbx, mby, sbx, sby);
          ghost var before := c.pixels[..];
          ghost var b := Tile(c, Segments.BlockOffset(c.ssx, c.ssy, c.stride, mbx, mby, sbx, sby));
          StrokeConfined(before, c.pixels[..], b, c.ssx, c.ssy, mbwidth, mbx, mby, sbx, sby);
          SofarGrows(step, r0, d0, e0, c.ssx, c.ssy, c.stride, mbx, mby, bs, ps, b, c.pixels[..], sbx, sby);
          bs, ps := bs + [b], ps + [c.pixels[..]];
          ConfinedJoin(old(c.pixels[..]), before, c.pixels[..], c.stride, c.ssx, c.ssy, mbwidth, m, m, m, m, m, m);
          if input.error != Ok {
            return false, bs, ps;
          }
        }
        MulSucc(sby, c.ssx);
      }
      SofarDone(step, r0, d0, e0, c.ssx, c.ssy, c.stride, mbx, mby, bs, ps);
      return true, bs, ps;
    }

    /** A restart in the MCU loop of `ujDecodeScan`: drop the rest of the
        partly read byte and read the 16-bit marker word `m`; throw a syntax
        error unless it is RSTn, and otherwise reset the DC predictors of
        all three components. */
    method Restart(n: int) returns (thrown: bool, ghost m: int)
      requires Structure() && input.Valid() && 0 <= n < 8
      modifies input, {comp[0], comp[1], comp[2]}`dcpred
      ensures input.Valid() && input.data == old(input.data)
      ensures var f := Fill(input.data, Align(old(input.Bits())), 16);
        m == Window(f.r, 16) && input.Bits() == Consume(f.r, 16) && thrown == (m != 0xFFD0 + n) &&
        input.error == if thrown then SyntaxError else Raise(old(input.error), f.err)
      ensures thrown ==> unchanged({comp[0], comp[1], comp[2]}`dcpred)
      ensures !thrown ==> comp[0].dcpred == 0 && comp[1].dcpred == 0 && comp[2].dcpred == 0
    {
      input.ByteAlign();
      var i := input.GetBits(16);
      m := i;
      Pow2Values();
      MarkerTest(i, n);
      if WrongMarker(i, n) {
        input.SetError(SyntaxError);
        return true, m;
      }
      ResetPredictors();
      return false, m;
    }

    /** The DC predictor reset that follows an accepted restart marker. */
    method ResetPredictors()
      requires Structure()
      modifies {comp[0], comp[1], comp[2]}`dcpred
      ensures comp[0].dcpred == 0 && comp[1].dcpred == 0 && comp[2].dcpred == 0
    {
      for k := 0 to 3
        invariant forall j :: 0 <= j < k ==> comp[j].dcpred == 0
      {
        assert forall j :: 0 <= j < 3 && j != k ==> comp[j] != comp[k];
        comp[k].dcpred := 0;
      }
    }

    // -------------------------------------------------------------------
    // The conversion.

    /** The component loop of `ujConvert`: each plane of the picture grown
        to the picture's size; the others stay as they are. */
    method UpsampleAll()
      requires Structure() && Laid() && decoded
      modifies comp[0], comp[1], comp[2]
      ensures forall i :: 0 <= i < ncomp ==> Grew(comp[i], width, height)
      ensures forall i :: ncomp <= i < 3 ==> Same(comp[i])
    {
      var c0, c1, c2 := comp[0], comp[1], comp[2];
      for i := 0 to ncomp
        invariant i > 0 ==> Grew(c0, width, height)
        invariant i > 1 ==> Grew(c1, width, height)
        invariant i > 2 ==> Grew(c2, width, height)
        invariant i <= 0 ==> Same(c0)
        invariant i <= 1 ==> Same(c1)
        invariant i <= 2 ==> Same(c2)
      {
        assert comp[i].Shape();
        Upsample(comp[i], width, height, fastChroma, coSitedChroma);
      }
    }

    /** `ujConvert`: the planes grown to the picture's size, then packed
        into `out`, RGB triples row by row for a colour picture and, for a
        grayscale one, the luma rows from the second on, which leaves the
        last `width` bytes as they were. A plane still smaller than the
        picture after the loop (`UJ_INTERNAL_ERR`) cannot occur. */
    method Convert(out: array<byte>)
      requires Valid() && decoded && rgb == null && width * height * ncomp <= out.Length
      requires out != comp[0].pixels && out != comp[1].pixels && out != comp[2].pixels
      modifies comp[0], comp[1], comp[2], out
      ensures Valid()
      ensures forall i :: 0 <= i < ncomp ==> Grew(comp[i], width, height)
      ensures forall i :: 0 <= i < ncomp ==> Covering(comp[i], width, height)
      ensures ncomp == 3 ==> forall j :: 0 <= j < 3 * (width * height) ==>
        out[j] == Color.RgbSample(comp[0].pixels[..], comp[0].stride, comp[1].pixels[..], comp[1].stride,
                                  comp[2].pixels[..], comp[2].stride, width, j)
      ensures ncomp == 1 ==>
        forall j :: 0 <= j < out.Length ==>
          out[j] == if j < width * (height - 1) then Color.GraySample(comp[0].pixels[..], comp[0].stride, width, j) else old(out[j])
    {
      UpsampleAll();
      for i := 0 to ncomp
        invariant forall k :: 0 <= k < i ==> Covering(comp[k], width, height)
      {
        if comp[i].width < width || comp[i].height < height {
          assert false;
        }
      }
      GrownLaid();
      Pack(out);
    }

    /** Keep `out`, a buffer of the picture's size apart from the planes,
        as the context's packed image. */
    method Cache(out: array<byte>)
      requires Valid() && decoded && rgb == null && out.Length == width * height * ncomp
      requires forall i :: 0 <= i < ncomp ==> out != comp[i].pixels
      modifies this`rgb
      ensures Valid() && rgb == out
    {
      rgb := out;
    }

    /** `Laid` survives the upsampling loop: planes that cover the picture
        are usable. */
    twostate lemma GrownLaid()
      requires old(Laid()) && old(decoded) && Structure() && rgb == null
      requires unchanged(this`ncomp, this`valid, this`decoded, this`noDecode, this`rgb, this`width, this`height)
      requires unchanged(this`mbwidth, this`mbheight)
      requires forall i :: 0 <= i < ncomp ==> Covering(comp[i], width, height)
      ensures Laid()
    {
      assert Usable(comp, ncomp, width, height);
    }

    /** The packing half of `ujConvert`, once every plane covers the
        picture. */
    method Pack(out: array<byte>)
      requires Structure() && (ncomp == 1 || ncomp == 3) && 1 <= width && 1 <= height
      requires width * height * ncomp <= out.Length
      requires forall i :: 0 <= i < ncomp ==> Covering(comp[i], width, height)
      requires out != comp[0].pixels && out != comp[1].pixels && out != comp[2].pixels
      modifies out
      ensures ncomp == 3 ==> forall j :: 0 <= j < 3 * (width * height) ==>
        out[j] == Color.RgbSample(comp[0].pixels[..], comp[0].stride, comp[1].pixels[..], comp[1].stride,
                                  comp[2].pixels[..], comp[2].stride, width, j)
      ensures ncomp == 1 ==>
        forall j :: 0 <= j < out.Length ==>
          out[j] == if j < width * (height - 1) then Color.GraySample(comp[0].pixels[..], comp[0].stride, width, j) else old(out[j])
    {
      if ncomp == 3 {
        assert 3 * (width * height) <= out.Length by {
          assert 3 * (width * height) == width * height * 3;
        }
        PackRgb(comp[0], comp[1], comp[2], width, height, out);
      } else {
        assert width * height <= out.Length by {
          assert width * height == width * height * 1;
        }
        PackGray(comp[0], width, height, out);
      }
    }

    // -------------------------------------------------------------------
    // The marker loop.

    /** `ujDecode` on a created or reset context: the start-of-image check,
        then the marker loop, one segment at a time, until an error or the
        end of a scan, which counts as success. A context ends valid
        exactly when a scan header was accepted, and decoded when besides
        decoding was enabled; a fault in the entropy-coded data leaves it
        valid and decoded with a syntax error. */
    method Run(jpeg: seq<byte>)
      requires Valid() && !valid && rgb == null
      modifies this, input, comp[0], comp[1], comp[2], comp[0].pixels, comp[1].pixels, comp[2].pixels
      modifies vlctab[0], vlctab[1], vlctab[2], vlctab[3], block
      ensures Valid() && input.data == jpeg && noDecode == old(noDecode) && fastChroma == old(fastChroma) && rgb == null
      ensures input.error == Ok || input.error == NoJpeg || input.error == SyntaxError || input.error == Unsupported
      ensures !Soi(jpeg) ==> input.error == NoJpeg && !valid
      ensures input.error == Ok ==> valid
      ensures valid ==> input.error == Ok || (decoded && input.error == SyntaxError)
      ensures decoded == (valid && !noDecode)
    {
      input.Start(jpeg);
      if |jpeg| < 2 || jpeg[0] != 0xFF || jpeg[1] != 0xD8 {
        input.SetError(NoJpeg);
        ValidKept();
        return;
      }
      input.Skip(2);
      ValidKept();
      while input.error == Ok
        invariant Valid() && input.data == jpeg && noDecode == old(noDecode) && fastChroma == old(fastChroma) && rgb == null
        invariant Kept(comp[0]) && Kept(comp[1]) && Kept(comp[2])
        invariant input.error == Ok ==> !valid && input.size >= 0
        invariant input.error == Ok || input.error == SyntaxError || input.error == Unsupported || input.error == Finished
        invariant input.error == Finished ==> valid
        invariant valid ==> input.error == Finished || (decoded && input.error == SyntaxError)
        invariant decoded == (valid && !noDecode)
        decreases if input.error == Ok then input.size + 1 else 0
      {
        Segment();
      }
      if input.error == Finished {
        label finished:
        input.SetError(Ok);
        ValidKept@finished();
      }
    }

    /** One round of the marker loop of `ujDecode`: a marker must follow,
        and its segment is parsed, skipped or rejected. A round that raises
        no error has consumed input; only a scan marks the context valid. */
    method Segment()
      requires Valid() && input.error == Ok && input.size >= 0 && !valid && !decoded && rgb == null
      modifies this, input, comp[0], comp[1], comp[2], comp[0].pixels, comp[1].pixels, comp[2].pixels
      modifies vlctab[0], vlctab[1], vlctab[2], vlctab[3], block
      ensures Stepped() && (input.error == Ok ==> input.size < old(input.size))
      ensures old(input.size) < 2 || old(input.data[input.pos]) != 0xFF ==> input.error == SyntaxError && !valid
      ensures old(input.size) >= 2 && old(input.data[input.pos]) == 0xFF ==>
        (valid ==> Dispatch(old(input.data[input.pos + 1])) == ReadScan) &&
        (Dispatch(old(input.data[input.pos + 1])) == Reject ==> input.error == Unsupported)
    {
      if input.size < 2 || input.data[input.pos] != 0xFF {
        input.SetError(SyntaxError);
        ValidKept();
        return;
      }
      var m := input.data[input.pos + 1];
      input.Skip(2);
      ValidKept();
      Handle(m);
    }

    /** What every round of the marker loop keeps and promises: the
        invariant, the input and the option flags, no packed image, each
        plane the old one or a new one; an error-free round that consumed
        no more than it had and left the context unvalidated; only the
        end of a scan (which validates) or the errors a parser raises; and
        decoded exactly when valid with decoding enabled, the entropy-coded
        data of a valid, decoded image raising at most a syntax error. */
    twostate predicate Stepped()
      reads this, input, comp
    {
      Valid() && input.data == old(input.data) && noDecode == old(noDecode) && fastChroma == old(fastChroma) &&
      rgb == null && Kept(comp[0]) && Kept(comp[1]) && Kept(comp[2]) &&
      (input.error == Ok ==> !valid && 0 <= input.size <= old(input.size)) &&
      (input.error == Ok || input.error == SyntaxError || input.error == Unsupported || input.error == Finished) &&
      (input.error == Finished ==> valid) &&
      (valid ==> input.error == Finished || (decoded && input.error == SyntaxError)) &&
      decoded == (valid && !noDecode)
    }

    /** The `switch` of the marker loop, for marker `m`. */
    method Handle(m: byte)
      requires Valid() && input.error == Ok && input.size >= 0 && !valid && !decoded && rgb == null
      modifies this, input, comp[0], comp[1], comp[2], comp[0].pixels, comp[1].pixels, comp[2].pixels
      modifies vlctab[0], vlctab[1], vlctab[2], vlctab[3], block
      ensures Stepped()
      ensures valid ==> Dispatch(m) == ReadScan
      ensures Dispatch(m) == Reject ==> input.error == Unsupported
    {
      match Dispatch(m)
      case ReadFrame => FrameSegment();
      case ReadScan => ScanSegment();
      case _ => MarkerSegment(m);
    }

    /** Any other marker in the marker loop. */
    method MarkerSegment(m: byte)
      requires Valid() && input.error == Ok && input.size >= 0 && !valid && !decoded && rgb == null
      requires Dispatch(m) != ReadFrame && Dispatch(m) != ReadScan
      modifies this`rstinterval, this`qtab, this`qtavail, this`exifLe, this`coSitedChroma
      modifies input, vlctab[0], vlctab[1], vlctab[2], vlctab[3]
      ensures Stepped() && !valid
      ensures Dispatch(m) == Reject ==> input.error == Unsupported
    {
      Marker(m);
    }

    /** A frame header in the marker loop. */
    method FrameSegment()
      requires Valid() && input.error == Ok && input.size >= 0 && !valid && !decoded && rgb == null
      modifies this, input, comp[0], comp[1], comp[2]
      ensures Stepped() && !valid
    {
      DecodeSof();
    }

    /** A scan in the marker loop. */
    method ScanSegment()
      requires Valid() && input.error == Ok && input.size >= 0 && !valid && !decoded && rgb == null
      modifies this, input, comp[0], comp[1], comp[2], comp[0].pixels, comp[1].pixels, comp[2].pixels, block
      ensures Stepped()
    {
      DecodeScan();
    }

    /** The markers of the loop that leave the frame and the scan state
        alone: tables, restart interval, Exif, skipped and rejected
        segments. */
    method Marker(m: byte)
      requires Valid() && input.error == Ok && input.size >= 0 && Dispatch(m) != ReadFrame && Dispatch(m) != ReadScan
      modifies this`rstinterval, this`qtab, this`qtavail, this`exifLe, this`coSitedChroma
      modifies input, vlctab[0], vlctab[1], vlctab[2], vlctab[3]
      ensures Valid() && input.data == old(input.data)
      ensures input.error == Ok ==> 0 <= input.size <= old(input.size)
      ensures input.error == Ok || input.error == SyntaxError || input.error == Unsupported
      ensures Dispatch(m) == Reject ==> input.error == Unsupported
    {
      match Dispatch(m)
      case ReadHuffman => DecodeDht();
      case ReadQuant => DecodeDqt();
      case ReadRestart => DecodeDri();
      case ReadExif => DecodeExif();
      case SkipSegment =>
        input.SkipMarker();
        ValidKept();
      case Reject =>
        input.SetError(Unsupported);
        ValidKept();
    }
  }
}

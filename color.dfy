/** The output stage of `ujConvert`: the fixed-point YCbCr to RGB conversion
    of JFIF (ITU-T T.871, section 7), with 8 fractional bits, and the copy of
    a grayscale plane into a packed picture. */
module Color {
  import opened Common
  import opened Planes

  /** `(256 * y + 359 * cr' + 128) >> 8`, clamped. */
  function Red(y: byte, cb: byte, cr: byte): byte
  {
    Clip((256 * y + 359 * (cr - 128) + 128) / 256)
  }

  /** `(256 * y - 88 * cb' - 183 * cr' + 128) >> 8`, clamped. */
  function Green(y: byte, cb: byte, cr: byte): byte
  {
    Clip((256 * y - 88 * (cb - 128) - 183 * (cr - 128) + 128) / 256)
  }

  /** `(256 * y + 454 * cb' + 128) >> 8`, clamped. */
  function Blue(y: byte, cb: byte, cr: byte): byte
  {
    Clip((256 * y + 454 * (cb - 128) + 128) / 256)
  }

  /** Channel `k` (0 red, 1 green, 2 blue) of the pixel with samples
      `y`, `cb`, `cr`. */
  function Channel(y: byte, cb: byte, cr: byte, k: int): byte
  {
    if k == 0 then Red(y, cb, cr) else if k == 1 then Green(y, cb, cr) else Blue(y, cb, cr)
  }

  /** Byte `j` of the packed RGB picture `w` pixels wide made from three
      planes whose rows lie `sy`, `scb` and `scr` bytes apart. */
  function RgbSample(py: seq<byte>, sy: int, pcb: seq<byte>, scb: int, pcr: seq<byte>, scr: int,
                     w: int, j: int): byte
    requires w >= 1
  {
    var p := j / 3;
    Channel(Px(py, sy, p / w, p % w), Px(pcb, scb, p / w, p % w), Px(pcr, scr, p / w, p % w), j % 3)
  }

  /** Byte `j` of the grayscale picture `w` pixels wide `ujConvert` writes:
      it comes from the plane row below the one of the same number. */
  function GraySample(p: seq<byte>, s: int, w: int, j: int): byte
    requires w >= 1
  {
    Px(p, s, j / w + 1, j % w)
  }

  /** Without chroma (both chroma samples at their zero of 128) every
      channel is the luma sample: the rounding constant never carries. */
  lemma NeutralChromaIsGray(y: byte)
    ensures Red(y, 128, 128) == y && Green(y, 128, 128) == y && Blue(y, 128, 128) == y
  {
    DivModUnique(256 * y + 128, 256, y, 128);
  }

  /** Each channel is the nearest integer to its fixed-point value whenever
      the clamp does not apply: the `+ 128` before the shift rounds. */
  lemma ChannelsRound(y: byte, cb: byte, cr: byte)
    ensures var v := 256 * y + 359 * (cr - 128);
      0 < Red(y, cb, cr) < 255 ==> 256 * Red(y, cb, cr) - 128 <= v < 256 * Red(y, cb, cr) + 128
    ensures var v := 256 * y - 88 * (cb - 128) - 183 * (cr - 128);
      0 < Green(y, cb, cr) < 255 ==> 256 * Green(y, cb, cr) - 128 <= v < 256 * Green(y, cb, cr) + 128
    ensures var v := 256 * y + 454 * (cb - 128);
      0 < Blue(y, cb, cr) < 255 ==> 256 * Blue(y, cb, cr) - 128 <= v < 256 * Blue(y, cb, cr) + 128
  {
    Rounds(256 * y + 359 * (cr - 128));
    Rounds(256 * y - 88 * (cb - 128) - 183 * (cr - 128));
    Rounds(256 * y + 454 * (cb - 128));
  }

  lemma Rounds(v: int)
    ensures var q := (v + 128) / 256; 256 * q - 128 <= v < 256 * q + 128
  {
  }

  /** A brighter luma sample never gives a darker channel. */
  lemma ChannelsFollowLuma(y1: byte, y2: byte, cb: byte, cr: byte, k: int)
    requires y1 <= y2
    ensures Channel(y1, cb, cr, k) <= Channel(y2, cb, cr, k)
  {
    var d := if k == 0 then 359 * (cr - 128) else if k == 1 then -88 * (cb - 128) - 183 * (cr - 128) else 454 * (cb - 128);
    DivMonotone(256 * y1 + d + 128, 256 * y2 + d + 128, 256);
  }

  lemma DivMonotone(a: int, b: int, d: int)
    requires a <= b && d >= 1
    ensures a / d <= b / d
  {
    if a / d > b / d {
      MulMonotone(b / d + 1, a / d, d);
    }
  }

  /** Where byte `j` of a packed row `o = 3 * w * y` onwards lies: pixel
      `(j - o) / 3` of row `y`, channel `(j - o) % 3`. */
  lemma RgbIndex(j: int, y: int, w: int)
    requires w >= 1 && 0 <= y && 3 * (w * y) <= j < 3 * (w * y) + 3 * w
    ensures (j / 3) / w == y && (j / 3) % w == (j - 3 * (w * y)) / 3
    ensures j % 3 == (j - 3 * (w * y)) % 3
  {
    var k := j - 3 * (w * y);
    DivModUnique(j, 3, w * y + k / 3, k % 3);
    RowOf(j / 3, y, w);
  }

  /** Byte `k` of a packed row whose pixels take their samples from `iy`,
      `icb` and `icr` onwards. */
  function PackedByte(py: seq<byte>, pcb: seq<byte>, pcr: seq<byte>, iy: int, icb: int, icr: int, k: int): byte
  {
    Channel(At(py, iy + k / 3), At(pcb, icb + k / 3), At(pcr, icr + k / 3), k % 3)
  }

  lemma PackedPixel(py: seq<byte>, pcb: seq<byte>, pcr: seq<byte>, iy: int, icb: int, icr: int, x: int)
    ensures var y, cb, cr := At(py, iy + x), At(pcb, icb + x), At(pcr, icr + x);
      PackedByte(py, pcb, pcr, iy, icb, icr, 3 * x) == Red(y, cb, cr) &&
      PackedByte(py, pcb, pcr, iy, icb, icr, 3 * x + 1) == Green(y, cb, cr) &&
      PackedByte(py, pcb, pcr, iy, icb, icr, 3 * x + 2) == Blue(y, cb, cr)
  {
    assert (3 * x) / 3 == x && (3 * x + 1) / 3 == x && (3 * x + 2) / 3 == x;
    assert (3 * x) % 3 == 0 && (3 * x + 1) % 3 == 1 && (3 * x + 2) % 3 == 2;
  }

  /** One row of the RGB branch of `ujConvert`: three bytes per pixel from
      the samples at `iy`, `icb` and `icr`, written from `o` on. */
  method RgbRow(py: array<byte>, pcb: array<byte>, pcr: array<byte>, iy: int, icb: int, icr: int,
                w: int, out: array<byte>, o: int)
    requires out != py && out != pcb && out != pcr
    requires 0 <= iy && iy + w <= py.Length && 0 <= icb && icb + w <= pcb.Length
    requires 0 <= icr && icr + w <= pcr.Length
    requires w >= 0 && 0 <= o && o + 3 * w <= out.Length
    modifies out
    ensures forall j :: 0 <= j < out.Length ==>
      out[j] == if o <= j < o + 3 * w then PackedByte(py[..], pcb[..], pcr[..], iy, icb, icr, j - o) else old(out[j])
  {
    ghost var a, b, c := py[..], pcb[..], pcr[..];
    ghost var row: seq<byte> := seq(3 * w, k => PackedByte(a, b, c, iy, icb, icr, k));
    assert forall k :: 0 <= k < |row| ==> row[k] == PackedByte(a, b, c, iy, icb, icr, k);
    ghost var before := out[..];
    var x := 0;
    while x < w
      invariant 0 <= x <= w
      invariant RowHolds(out[..], before, o, 3 * x, row)
    {
      PixelAt(py, pcb, pcr, iy, icb, icr, x, out, o, row, before);
      x := x + 1;
    }
    forall j | 0 <= j < out.Length
      ensures out[j] == if o <= j < o + 3 * w then row[j - o] else before[j]
    {
      RowFinished(out[..], before, o, 3 * w, row, j);
    }
  }

  /** Pixel `x` of a row: the three channels of the samples at `iy + x`,
      `icb + x` and `icr + x`. */
  method PixelAt(py: array<byte>, pcb: array<byte>, pcr: array<byte>, iy: int, icb: int, icr: int, x: int,
                 out: array<byte>, o: int, ghost row: seq<byte>, ghost before: seq<byte>)
    requires out != py && out != pcb && out != pcr
    requires 0 <= x && 0 <= iy && iy + x < py.Length && 0 <= icb && icb + x < pcb.Length
    requires 0 <= icr && icr + x < pcr.Length
    requires 0 <= o && 3 * x + 3 <= |row| && o + 3 * x + 3 <= out.Length
    requires forall k :: 0 <= k < |row| ==> row[k] == PackedByte(py[..], pcb[..], pcr[..], iy, icb, icr, k)
    requires RowHolds(out[..], before, o, 3 * x, row)
    modifies out
    ensures RowHolds(out[..], before, o, 3 * x + 3, row)
  {
    var y, cb, cr := py[iy + x], pcb[icb + x], pcr[icr + x];
    PackedPixel(py[..], pcb[..], pcr[..], iy, icb, icr, x);
    PixelPut(out, o, 3 * x, Red(y, cb, cr), Green(y, cb, cr), Blue(y, cb, cr), row, before);
  }

  /** Store the three bytes of one pixel: `*pout++` three times. */
  method PixelPut(out: array<byte>, o: int, n: int, r: byte, g: byte, b: byte,
                  ghost row: seq<byte>, ghost before: seq<byte>)
    requires 0 <= o && 0 <= n && n + 3 <= |row| && o + n + 3 <= out.Length
    requires row[n] == r && row[n + 1] == g && row[n + 2] == b
    requires RowHolds(out[..], before, o, n, row)
    modifies out
    ensures RowHolds(out[..], before, o, n + 3, row)
  {
    RowPut(out, o, n, r, row, before);
    RowPut(out, o, n + 1, g, row, before);
    RowPut(out, o, n + 2, b, row, before);
  }

  /** Row `y` of the RGB picture, placed at `3 * (w * y)`. */
  method RgbRowAt(py: array<byte>, sy: int, pcb: array<byte>, scb: int, pcr: array<byte>, scr: int,
                  w: int, h: int, y: int, out: array<byte>)
    requires out != py && out != pcb && out != pcr
    requires 1 <= w <= sy && w <= scb && w <= scr && 0 <= y < h
    requires h * sy <= py.Length && h * scb <= pcb.Length && h * scr <= pcr.Length
    requires 3 * (w * h) <= out.Length
    modifies out
    ensures forall j :: 0 <= j < out.Length ==>
      out[j] == if 3 * (w * y) <= j < 3 * (w * y) + 3 * w then RgbSample(py[..], sy, pcb[..], scb, pcr[..], scr, w, j)
        else old(out[j])
  {
    var iy, icb, icr, o := y * sy, y * scb, y * scr, 3 * (w * y);
    RowFits(w, h, y, sy, scb, scr, py.Length, pcb.Length, pcr.Length);
    RgbRow(py, pcb, pcr, iy, icb, icr, w, out, o);
    RowIsPacked(py[..], sy, pcb[..], scb, pcr[..], scr, w, y);
  }

  /** Row `y` of `h`, `w` pixels wide, lies inside each plane and inside
      the packed picture. */
  lemma RowFits(w: int, h: int, y: int, sy: int, scb: int, scr: int, ny: int, ncb: int, ncr: int)
    requires 1 <= w <= sy && w <= scb && w <= scr && 0 <= y < h
    requires h * sy <= ny && h * scb <= ncb && h * scr <= ncr
    ensures 0 <= y * sy && y * sy + w <= ny && 0 <= y * scb && y * scb + w <= ncb
    ensures 0 <= y * scr && y * scr + w <= ncr && 0 <= 3 * (w * y) && 3 * (w * y) + 3 * w <= 3 * (w * h)
  {
    MulMonotone(y + 1, h, sy);
    MulMonotone(y + 1, h, scb);
    MulMonotone(y + 1, h, scr);
    MulSucc(y, sy);
    MulSucc(y, scb);
    MulSucc(y, scr);
    MulMonotone(y + 1, h, w);
    MulMonotone(0, y, sy);
    MulMonotone(0, y, scb);
    MulMonotone(0, y, scr);
    MulMonotone(0, y, w);
  }

  /** The packed row taken from the start of row `y` of each plane is row
      `y` of the RGB picture. */
  lemma RowIsPacked(py: seq<byte>, sy: int, pcb: seq<byte>, scb: int, pcr: seq<byte>, scr: int, w: int, y: int)
    requires w >= 1 && 0 <= y
    ensures forall j :: 3 * (w * y) <= j < 3 * (w * y) + 3 * w ==>
      PackedByte(py, pcb, pcr, y * sy, y * scb, y * scr, j - 3 * (w * y)) == RgbSample(py, sy, pcb, scb, pcr, scr, w, j)
  {
    forall j | 3 * (w * y) <= j < 3 * (w * y) + 3 * w
      ensures PackedByte(py, pcb, pcr, y * sy, y * scb, y * scr, j - 3 * (w * y)) == RgbSample(py, sy, pcb, scb, pcr, scr, w, j)
    {
      RgbIndex(j, y, w);
    }
  }

  /** The RGB branch of `ujConvert`: `h` rows of `w` pixels, each plane
      advanced by its own stride, the picture packed without padding. */
  method ConvertRgb(py: array<byte>, sy: int, pcb: array<byte>, scb: int, pcr: array<byte>, scr: int,
                    w: int, h: int, out: array<byte>)
    requires out != py && out != pcb && out != pcr
    requires 1 <= w <= sy && w <= scb && w <= scr && 0 <= h
    requires h * sy <= py.Length && h * scb <= pcb.Length && h * scr <= pcr.Length
    requires 3 * (w * h) <= out.Length
    modifies out
    ensures forall j :: 0 <= j < 3 * (w * h) ==> out[j] == RgbSample(py[..], sy, pcb[..], scb, pcr[..], scr, w, j)
    ensures forall j :: 3 * (w * h) <= j < out.Length ==> out[j] == old(out[j])
  {
    var y := 0;
    PixelsFrom(0, h, w);
    while y < h
      invariant 0 <= y <= h && 3 * (w * y) <= 3 * (w * h)
      invariant forall j :: 0 <= j < 3 * (w * y) ==> out[j] == RgbSample(py[..], sy, pcb[..], scb, pcr[..], scr, w, j)
      invariant forall j :: 3 * (w * h) <= j < out.Length ==> out[j] == old(out[j])
    {
      RgbRowAt(py, sy, pcb, scb, pcr, scr, w, h, y, out);
      PixelsFrom(y + 1, h, w);
      y := y + 1;
    }
  }

  /** The pixels of the first `y` rows, `w` to a row, are `w` more than
      those of the rows before and no more than those of all `h` rows. */
  lemma PixelsFrom(y: int, h: int, w: int)
    requires 0 <= y <= h && w >= 0
    ensures w * y <= w * h && (y >= 1 ==> w * y == w * (y - 1) + w)
  {
    MulMonotone(y, h, w);
    if y >= 1 {
      MulSucc(y - 1, w);
    }
  }

  /** `memcpy(out + o, src + a, n)`. */
  method CopyRow(src: array<byte>, a: int, out: array<byte>, o: int, n: int)
    requires out != src && 0 <= n && 0 <= a && a + n <= src.Length && 0 <= o && o + n <= out.Length
    modifies out
    ensures forall j :: 0 <= j < out.Length ==>
      out[j] == if o <= j < o + n then src[a + (j - o)] else old(out[j])
  {
    ghost var row: seq<byte> := src[a .. a + n];
    ghost var before := out[..];
    var x := 0;
    while x < n
      invariant 0 <= x <= n
      invariant RowHolds(out[..], before, o, x, row)
    {
      RowPut(out, o, x, src[a + x], row, before);
      x := x + 1;
    }
    forall j | 0 <= j < out.Length
      ensures out[j] == if o <= j < o + n then row[j - o] else before[j]
    {
      RowFinished(out[..], before, o, n, row, j);
    }
  }

  /** Output row `r` of the grayscale picture: plane row `r + 1`. */
  method GrayRowAt(p: array<byte>, s: int, w: int, h: int, r: int, out: array<byte>)
    requires out != p && 1 <= w <= s && 0 <= r < h - 1 && h * s <= p.Length && w * h <= out.Length
    modifies out
    ensures forall j :: 0 <= j < out.Length ==>
      out[j] == if r * w <= j < r * w + w then GraySample(p[..], s, w, j) else old(out[j])
  {
    var pin, o := (r + 1) * s, r * w;
    assert 0 <= pin && pin + w <= p.Length && 0 <= o && o + w <= out.Length by {
      MulMonotone(0, r + 1, s);
      MulMonotone(0, r, w);
      MulSucc(r + 1, s);
      MulMonotone(r + 2, h, s);
      MulSucc(r, w);
      MulMonotone(r + 1, h, w);
      assert w * h == h * w;
    }
    CopyRow(p, pin, out, o, w);
    forall j | o <= j < o + w
      ensures p[pin + (j - o)] == GraySample(p[..], s, w, j)
    {
      RowOf(j, r, w);
    }
  }

  /** The grayscale branch of `ujConvert`: starting one plane row down, it
      copies `h - 1` rows of `w` samples, so the last output row keeps
      whatever the buffer held. */
  method ConvertGray(p: array<byte>, s: int, w: int, h: int, out: array<byte>)
    requires out != p && 1 <= w <= s && 1 <= h && h * s <= p.Length && w * h <= out.Length
    modifies out
    ensures forall j :: 0 <= j < w * (h - 1) ==> out[j] == GraySample(p[..], s, w, j)
    ensures forall j :: w * (h - 1) <= j < out.Length ==> out[j] == old(out[j])
  {
    var r := 0;
    MulMonotone(0, h - 1, w);
    while r < h - 1
      invariant 0 <= r <= h - 1 && r * w <= (h - 1) * w
      invariant forall j :: 0 <= j < r * w ==> out[j] == GraySample(p[..], s, w, j)
      invariant forall j :: (h - 1) * w <= j < out.Length ==> out[j] == old(out[j])
    {
      GrayRowAt(p, s, w, h, r, out);
      NextRow(r, h - 1, w);
      r := r + 1;
    }
    assert w * (h - 1) == (h - 1) * w;
  }

  /** One row further down: the rows so far grow by `w` samples and stay
      within the `n` rows. */
  lemma NextRow(r: int, n: int, w: int)
    requires 0 <= r < n && w >= 0
    ensures (r + 1) * w <= n * w && (r + 1) * w == r * w + w
  {
    MulMonotone(r + 1, n, w);
    MulSucc(r, w);
  }

  /** The grayscale picture is the image shifted up by one row: output row
      `r` holds plane row `r + 1`, so the first image row is lost. */
  lemma GrayIsShiftedUp(p: seq<byte>, s: int, w: int, r: int, x: int)
    requires 1 <= w && 0 <= r && 0 <= x < w
    ensures GraySample(p, s, w, r * w + x) == Px(p, s, r + 1, x)
  {
    RowOf(r * w + x, r, w);
  }

  /** A picture made from neutral chroma planes is gray: all three bytes
      of every pixel equal its luma sample. */
  lemma NeutralPlanesAreGray(py: seq<byte>, sy: int, pcb: seq<byte>, scb: int, pcr: seq<byte>, scr: int,
                             w: int, j: int)
    requires w >= 1 && 0 <= j
    requires forall i :: 0 <= i < |pcb| ==> pcb[i] == 128
    requires forall i :: 0 <= i < |pcr| ==> pcr[i] == 128
    requires var p := j / 3; 0 <= (p / w) * scb + p % w < |pcb| && 0 <= (p / w) * scr + p % w < |pcr|
    ensures var p := j / 3; RgbSample(py, sy, pcb, scb, pcr, scr, w, j) == Px(py, sy, p / w, p % w)
  {
    var p := j / 3;
    NeutralChromaIsGray(Px(py, sy, p / w, p % w));
  }
}

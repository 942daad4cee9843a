/** The marker segments uJPEG reads before the entropy-coded data: the frame
    header (section B.2.2 of ITU-T T.81), quantisation tables (B.2.4.1), the
    restart interval (B.2.4.4) and the scan header (B.2.3), each as a
    function of the segment body (the bytes after the two length bytes), and
    the plane geometry a frame header implies. */
module Segments {
  import opened Common

  // ---------------------------------------------------------------------
  // Frame header (`ujDecodeSOF`).

  /** One component of a frame: identifier, sampling factors and the
      quantisation table it uses. */
  datatype FrameComponent = FrameComponent(cid: byte, ssx: int, ssy: int, qtsel: int)

  /** A frame header: picture height and width in samples, and its components. */
  datatype Frame = Frame(height: int, width: int, comps: seq<FrameComponent>)

  /** A sampling factor the decoder accepts: a power of two that fits the
      4-bit field, so 8 is among them although section B.2.2 of ITU-T T.81
      stops at 4. */
  predicate Factor(n: int)
  {
    n == 1 || n == 2 || n == 4 || n == 8
  }

  /** `n & (n - 1)` clears the lowest set bit, so it is zero exactly for the
      powers of two; among the non-zero values of a nibble these are 1, 2, 4
      and 8. */
  lemma PowerOfTwoMask(n: int)
    requires 1 <= n < 16
    ensures And8(n, n - 1) == 0 <==> Factor(n)
  {
    var v := n as bv8;
    assert v & (v - 1) == 0 <==> (v == 1 || v == 2 || v == 4 || v == 8);
  }

  /** `b & 0xFC` is zero exactly for the selectors 0..3. */
  lemma SelectorMask(b: byte)
    ensures And8(b, 0xFC) == 0 <==> b < 4
  {
    var v := b as bv8;
    assert v & 0xFC == 0 <==> v < 4;
  }

  /** The three bytes of one component specification: the component
      identifier, the sampling factors (horizontal in the high nibble) and
      the quantisation table selector. A zero factor or a selector above 3
      is a syntax error, a factor that is no power of two unsupported. */
  function ParseComponent(cid: byte, sf: byte, tq: byte): (r: Result<FrameComponent>)
    ensures r.Success? <==> Factor(sf / 16) && Factor(sf % 16) && tq < 4
    ensures r.Success? ==> r.value == FrameComponent(cid, sf / 16, sf % 16, tq)
    ensures r.Failure? ==> (r.status == Unsupported <==>
      (sf / 16 != 0 && !Factor(sf / 16)) || (Factor(sf / 16) && sf % 16 != 0 && !Factor(sf % 16)))
  {
    var ssx, ssy := sf / 16, sf % 16;
    if ssx == 0 then Failure(SyntaxError)
    else if And8(ssx, ssx - 1) != 0 then PowerOfTwoMask(ssx); Failure(Unsupported)
    else if ssy == 0 then PowerOfTwoMask(ssx); Failure(SyntaxError)
    else if And8(ssy, ssy - 1) != 0 then PowerOfTwoMask(ssx); PowerOfTwoMask(ssy); Failure(Unsupported)
    else if And8(tq, 0xFC) != 0 then PowerOfTwoMask(ssx); PowerOfTwoMask(ssy); SelectorMask(tq); Failure(SyntaxError)
    else PowerOfTwoMask(ssx); PowerOfTwoMask(ssy); SelectorMask(tq); Success(FrameComponent(cid, ssx, ssy, tq))
  }

  /** The first `n` component specifications of `seg`, in order; the first
      faulty one decides the result code. */
  function ParseComponents(seg: seq<byte>, n: nat): (r: Result<seq<FrameComponent>>)
    requires 3 * n <= |seg|
    ensures r.Success? ==> |r.value| == n && forall k :: 0 <= k < n ==>
      ParseComponent(seg[3 * k], seg[3 * k + 1], seg[3 * k + 2]) == Success(r.value[k])
    ensures r.Failure? ==> exists k :: 0 <= k < n && ParseComponent(seg[3 * k], seg[3 * k + 1], seg[3 * k + 2]) == Failure(r.status)
  {
    if n == 0 then Success([])
    else
      match ParseComponents(seg, n - 1)
      case Failure(e) => Failure(e)
      case Success(cs) =>
        match ParseComponent(seg[3 * (n - 1)], seg[3 * (n - 1) + 1], seg[3 * (n - 1) + 2])
        case Failure(e) => Failure(e)
        case Success(c) => Success(cs + [c])
  }

  /** The largest horizontal sampling factor of a list of components (0 for
      none), as the loop of `ujDecodeSOF` collects it. */
  function SsxMax(cs: seq<FrameComponent>): (m: int)
    ensures forall k :: 0 <= k < |cs| ==> cs[k].ssx <= m
    ensures cs == [] ==> m == 0
  {
    if cs == [] then 0
    else
      var m := SsxMax(cs[..|cs| - 1]);
      if cs[|cs| - 1].ssx > m then cs[|cs| - 1].ssx else m
  }

  /** The largest vertical sampling factor of a list of components. */
  function SsyMax(cs: seq<FrameComponent>): (m: int)
    ensures forall k :: 0 <= k < |cs| ==> cs[k].ssy <= m
    ensures cs == [] ==> m == 0
  {
    if cs == [] then 0
    else
      var m := SsyMax(cs[..|cs| - 1]);
      if cs[|cs| - 1].ssy > m then cs[|cs| - 1].ssy else m
  }

  /** A frame with at least one component, every sampling factor accepted. */
  predicate Sampled(f: Frame)
  {
    |f.comps| >= 1 && forall k :: 0 <= k < |f.comps| ==> Factor(f.comps[k].ssx) && Factor(f.comps[k].ssy)
  }

  /** The largest sampling factors of a sampled frame are accepted factors. */
  lemma MaxIsFactor(f: Frame)
    requires Sampled(f)
    ensures Factor(SsxMax(f.comps)) && Factor(SsyMax(f.comps))
  {
    MaxOfFactors(f.comps);
  }

  lemma {:induction false} MaxOfFactors(cs: seq<FrameComponent>)
    requires cs != [] && forall k :: 0 <= k < |cs| ==> Factor(cs[k].ssx) && Factor(cs[k].ssy)
    ensures Factor(SsxMax(cs)) && Factor(SsyMax(cs))
    decreases |cs|
  {
    if |cs| > 1 {
      MaxOfFactors(cs[..|cs| - 1]);
    }
  }

  /** `mbsizex`: the width of an MCU in samples. */
  function MbSizeX(f: Frame): (n: int)
    requires Sampled(f)
    ensures 8 <= n <= 64
  {
    MaxIsFactor(f);
    8 * SsxMax(f.comps)
  }

  /** `mbsizey`: the height of an MCU in samples. */
  function MbSizeY(f: Frame): (n: int)
    requires Sampled(f)
    ensures 8 <= n <= 64
  {
    MaxIsFactor(f);
    8 * SsyMax(f.comps)
  }

  /** `mbwidth`: MCUs per row, enough to cover the picture width. */
  function MbWidth(f: Frame): (n: int)
    requires Sampled(f) && f.width >= 0
    ensures n >= 0
  {
    (f.width + MbSizeX(f) - 1) / MbSizeX(f)
  }

  /** `mbheight`: MCU rows, enough to cover the picture height. */
  function MbHeight(f: Frame): (n: int)
    requires Sampled(f) && f.height >= 0
    ensures n >= 0
  {
    (f.height + MbSizeY(f) - 1) / MbSizeY(f)
  }

  /** The width of the plane of component `c`: the picture width scaled by
      its share of the largest horizontal factor, rounded up. */
  function PlaneWidth(f: Frame, c: FrameComponent): int
    requires Sampled(f) && f.width >= 0
  {
    MaxIsFactor(f);
    (f.width * c.ssx + SsxMax(f.comps) - 1) / SsxMax(f.comps)
  }

  /** The height of the plane of component `c`. */
  function PlaneHeight(f: Frame, c: FrameComponent): int
    requires Sampled(f) && f.height >= 0
  {
    MaxIsFactor(f);
    (f.height * c.ssy + SsyMax(f.comps) - 1) / SsyMax(f.comps)
  }

  /** The row pitch of the plane of `c`: every MCU column's share of
      samples. (`ujDecodeSOF` first stores the width rounded up to 8 and then
      overwrites it with this value.) */
  function Stride(f: Frame, c: FrameComponent): int
    requires Sampled(f) && f.width >= 0
  {
    MaxIsFactor(f);
    MbWidth(f) * MbSizeX(f) * c.ssx / SsxMax(f.comps)
  }

  /** The number of rows the buffer of `c` holds: every MCU row's share. */
  function PaddedHeight(f: Frame, c: FrameComponent): int
    requires Sampled(f) && f.height >= 0
  {
    MaxIsFactor(f);
    MbHeight(f) * MbSizeY(f) * c.ssy / SsyMax(f.comps)
  }

  /** The size of the buffer `ujDecodeSOF` allocates for `c`. */
  function PlaneSize(f: Frame, c: FrameComponent): int
    requires Sampled(f) && f.width >= 0 && f.height >= 0
  {
    Stride(f, c) * PaddedHeight(f, c)
  }

  /** A subsampled plane narrower or lower than 3 samples, which the
      upsampling filters cannot take. */
  predicate TooSmall(f: Frame, c: FrameComponent)
    requires Sampled(f) && f.width >= 0 && f.height >= 0
  {
    (PlaneWidth(f, c) < 3 && c.ssx != SsxMax(f.comps)) || (PlaneHeight(f, c) < 3 && c.ssy != SsyMax(f.comps))
  }

  /** `ujDecodeSOF` on a segment body, as written: length, precision,
      component count and component list checks; a grayscale frame gets the
      sampling factors 1; then the plane size check. A picture width or
      height of 0 passes. */
  function ParseFrame(seg: seq<byte>): (r: Result<Frame>)
    ensures r.Success? ==> (Sampled(r.value) && (|r.value.comps| == 1 || |r.value.comps| == 3) &&
      0 <= r.value.width < 65536 && 0 <= r.value.height < 65536 &&
      (forall k :: 0 <= k < |r.value.comps| ==> 0 <= r.value.comps[k].qtsel < 4) &&
      forall k :: 0 <= k < |r.value.comps| ==> !TooSmall(r.value, r.value.comps[k]))
    ensures r.Success? && |r.value.comps| == 1 ==> r.value.comps[0].ssx == 1 && r.value.comps[0].ssy == 1
    ensures r.Failure? ==> r.status == SyntaxError || r.status == Unsupported
  {
    if |seg| < 9 then Failure(SyntaxError)
    else if seg[0] != 8 then Failure(Unsupported)
    else
      var ncomp := seg[5];
      if ncomp != 1 && ncomp != 3 then Failure(Unsupported)
      else if |seg| - 6 < 3 * ncomp then Failure(SyntaxError)
      else
        match ParseComponents(seg[6..], ncomp)
        case Failure(e) => Failure(e)
        case Success(cs) =>
          var comps := if ncomp == 1 then [cs[0].(ssx := 1, ssy := 1)] else cs;
          var f := Frame(Decode16(seg[1], seg[2]), Decode16(seg[3], seg[4]), comps);
          if exists k :: 0 <= k < |comps| && TooSmall(f, comps[k]) then Failure(Unsupported)
          else Success(f)
  }

  /** The frame header as the decoder of this model reads it: as written,
      and besides a width of 0 is a syntax error (section B.2.2 of ITU-T
      T.81 allows only 1..65535) and a height of 0, which announces a DNL
      segment, is unsupported. */
  function ParseSof(seg: seq<byte>): (r: Result<Frame>)
    ensures r.Success? ==> (Sampled(r.value) && (|r.value.comps| == 1 || |r.value.comps| == 3) &&
      1 <= r.value.width < 65536 && 1 <= r.value.height < 65536 &&
      (forall k :: 0 <= k < |r.value.comps| ==> 0 <= r.value.comps[k].qtsel < 4) &&
      forall k :: 0 <= k < |r.value.comps| ==> !TooSmall(r.value, r.value.comps[k]))
    ensures r.Failure? ==> r.status == SyntaxError || r.status == Unsupported
    ensures ParseFrame(seg).Failure? ==> r == ParseFrame(seg)
    ensures ParseFrame(seg).Success? && ParseFrame(seg).value.width >= 1 && ParseFrame(seg).value.height >= 1 ==>
      r == ParseFrame(seg)
    ensures ParseFrame(seg).Success? && ParseFrame(seg).value.width == 0 ==> r == Failure(SyntaxError)
    ensures ParseFrame(seg).Success? && ParseFrame(seg).value.width >= 1 && ParseFrame(seg).value.height == 0 ==>
      r == Failure(Unsupported)
  {
    match ParseFrame(seg)
    case Failure(e) => Failure(e)
    case Success(f) =>
      if f.width == 0 then Failure(SyntaxError)
      else if f.height == 0 then Failure(Unsupported)
      else Success(f)
  }

  // ---------------------------------------------------------------------
  // Plane geometry.

  /** A picture at least one sample wide and high has at least one MCU
      column and one MCU row. */
  lemma GridIsNonEmpty(f: Frame)
    requires Sampled(f) && f.width >= 1 && f.height >= 1
    ensures MbWidth(f) >= 1 && MbHeight(f) >= 1
  {
  }

  /** The row pitch is eight samples for every horizontal sampling unit of
      every MCU column, and the buffer height eight rows for every vertical
      unit of every MCU row: the divisions in `ujDecodeSOF` are exact. */
  lemma StrideIsWhole(f: Frame, c: FrameComponent)
    requires Sampled(f) && f.width >= 0 && f.height >= 0
    ensures Stride(f, c) == 8 * c.ssx * MbWidth(f)
    ensures PaddedHeight(f, c) == 8 * c.ssy * MbHeight(f)
  {
    MaxIsFactor(f);
    Cancel(MbWidth(f), SsxMax(f.comps), c.ssx);
    Cancel(MbHeight(f), SsyMax(f.comps), c.ssy);
  }

  /** A plane of accepted sampling factors has a pitch and a size of no
      fewer than 0 samples. */
  lemma PlaneSizeIsNatural(f: Frame, c: FrameComponent)
    requires Sampled(f) && f.width >= 0 && f.height >= 0 && Factor(c.ssx) && Factor(c.ssy)
    ensures Stride(f, c) >= 0 && PaddedHeight(f, c) >= 0 && PlaneSize(f, c) >= 0
  {
    StrideIsWhole(f, c);
  }

  /** The factor of the largest sampling factor in an MCU's size cancels. */
  lemma Cancel(n: int, m: int, s: int)
    requires m >= 1
    ensures n * (8 * m) * s / m == 8 * s * n
  {
    assert n * (8 * m) * s == (8 * s * n) * m;
    DivModUnique(n * (8 * m) * s, m, 8 * s * n, 0);
  }

  /** Rounding up a quotient: `(n + d - 1) / d` covers `n`. */
  lemma CeilCovers(n: int, d: int)
    requires n >= 0 && d >= 1
    ensures n <= ((n + d - 1) / d) * d
    ensures n >= 1 ==> (n + d - 1) / d >= 1
  {
  }

  /** A plane's rows fit its pitch and its rows fit its buffer: stride at
      least plane width, padded height at least plane height. */
  lemma PlaneFits(f: Frame, c: FrameComponent)
    requires Sampled(f) && f.width >= 0 && f.height >= 0 && Factor(c.ssx) && Factor(c.ssy)
    ensures PlaneWidth(f, c) <= Stride(f, c) && PlaneHeight(f, c) <= PaddedHeight(f, c)
  {
    MaxIsFactor(f);
    StrideIsWhole(f, c);
    ScaledCeiling(f.width, c.ssx, SsxMax(f.comps));
    ScaledCeiling(f.height, c.ssy, SsyMax(f.comps));
  }

  /** With `m = ceil(n / (8 * X))` units of `8 * X`, the share `s / X` of
      `n` rounded up fits in `8 * s * m`. */
  lemma ScaledCeiling(n: int, s: int, X: int)
    requires 0 <= n && 1 <= X && 1 <= s
    ensures (n * s + X - 1) / X <= 8 * s * ((n + 8 * X - 1) / (8 * X))
  {
    var m := (n + 8 * X - 1) / (8 * X);
    CeilCovers(n, 8 * X);
    assert n <= (8 * m) * X by { assert m * (8 * X) == (8 * m) * X; }
    Widen(n, 8 * m, X, s);
    assert (8 * m) * s == 8 * s * m;
  }

  /** `n <= m * X` gives `ceil(n * s / X) <= m * s`. */
  lemma Widen(n: int, m: int, X: int, s: int)
    requires 0 <= n && 1 <= X && 1 <= s && n <= m * X
    ensures (n * s + X - 1) / X <= m * s
  {
    assert n * s <= (m * X) * s by { MulMonotone(n, m * X, s); }
    assert (m * X) * s == (m * s) * X;
    var q := (n * s + X - 1) / X;
    assert q * X <= n * s + X - 1;
    if q > m * s {
      MulMonotone(m * s + 1, q, X);
    }
  }

  /** A component with the largest factors gets the full picture size; with
      a picture at least one sample wide and high every plane has at least
      one sample and there is at least one MCU each way. */
  lemma PlaneSizes(f: Frame, c: FrameComponent)
    requires Sampled(f) && f.width >= 1 && f.height >= 1 && Factor(c.ssx) && Factor(c.ssy)
    ensures c.ssx == SsxMax(f.comps) ==> PlaneWidth(f, c) == f.width
    ensures c.ssy == SsyMax(f.comps) ==> PlaneHeight(f, c) == f.height
    ensures PlaneWidth(f, c) >= 1 && PlaneHeight(f, c) >= 1
    ensures MbWidth(f) >= 1 && MbHeight(f) >= 1
  {
    MaxIsFactor(f);
    ShareOfOne(f.width, c.ssx, SsxMax(f.comps));
    ShareOfOne(f.height, c.ssy, SsyMax(f.comps));
  }

  /** The rounded-up share `s / X` of `n >= 1` is at least 1, and all of `n`
      when `s == X`; so is `n` in units of `8 * X`, rounded up. */
  lemma ShareOfOne(n: int, s: int, X: int)
    requires 1 <= n && 1 <= s && 1 <= X
    ensures (n * s + X - 1) / X >= 1 && (n + 8 * X - 1) / (8 * X) >= 1
    ensures s == X ==> (n * s + X - 1) / X == n
  {
    MulAtLeast(n, s);
    assert n * s + X - 1 >= X;
    DivModUnique(X, X, 1, 0);
    if s == X {
      DivModUnique(n * s + X - 1, X, n, X - 1);
    }
  }

  /** A plane narrower (lower) than the picture belongs to a subsampled
      component, and the frame check keeps those at 3 samples or more: the
      upsampling filters always get the three taps they need. */
  lemma SubsampledPlanesAreWide(f: Frame, c: FrameComponent)
    requires Sampled(f) && f.width >= 1 && f.height >= 1 && Factor(c.ssx) && Factor(c.ssy) && !TooSmall(f, c)
    ensures PlaneWidth(f, c) < f.width ==> PlaneWidth(f, c) >= 3
    ensures PlaneHeight(f, c) < f.height ==> PlaneHeight(f, c) >= 3
  {
    PlaneSizes(f, c);
  }

  /** Where block (`sbx`, `sby`) of MCU (`mbx`, `mby`) starts in a plane of
      pitch `stride`: `((mby * ssy + sby) * stride + mbx * ssx + sbx) << 3`. */
  function BlockOffset(ssx: int, ssy: int, stride: int, mbx: int, mby: int, sbx: int, sby: int): int
  {
    ((mby * ssy + sby) * stride + mbx * ssx + sbx) * 8
  }

  /** Every block of every MCU lies inside its plane: its 8x8 samples, from
      the offset on, rows `stride` apart, end before `stride * paddedHeight`.
      This is what lets the scan write blocks without bounds checks. */
  lemma BlockFits(ssx: int, ssy: int, mbw: int, mbh: int, mbx: int, mby: int, sbx: int, sby: int)
    requires 1 <= ssx && 1 <= ssy && 0 <= mbx < mbw && 0 <= mby < mbh && 0 <= sbx < ssx && 0 <= sby < ssy
    ensures var stride := 8 * ssx * mbw;
      var off := BlockOffset(ssx, ssy, stride, mbx, mby, sbx, sby);
      0 <= off && off + 7 * stride + 7 < stride * (8 * ssy * mbh)
  {
    Below(mbx, mbw, ssx, sbx);
    Below(mby, mbh, ssy, sby);
    TileFits(mby * ssy + sby, mbx * ssx + sbx, mbh * ssy, 8 * ssx * mbw, 8 * ssy * mbh);
  }

  /** Unit `t` of MCU `m`, with `s` units to an MCU, comes before the end
      of `n` MCUs. */
  lemma Below(m: int, n: int, s: int, t: int)
    requires 0 <= m < n && 0 <= t < s
    ensures 0 <= m * s + t < n * s
  {
    MulMonotone(0, m, s);
    MulSucc(m, s);
    MulMonotone(m + 1, n, s);
  }

  /** Block row `R` below `P` block rows and a block column `C` whose eight
      samples end before the pitch `S`: the tile lies inside the `H` rows. */
  lemma TileFits(R: int, C: int, P: int, S: int, H: int)
    requires 0 <= R < P && 0 <= C && 8 * C + 7 < S && H == 8 * P
    ensures 0 <= (R * S + C) * 8 && (R * S + C) * 8 + 7 * S + 7 < S * H
  {
    MulMonotone(0, R, S);
    MulMonotone(R + 1, P, S);
    MulSucc(R, S);
  }

  /** The plane size as the C code computes it, in a 32-bit `int`. */
  function PlaneSizeAsWritten(f: Frame, c: FrameComponent): int
    requires Sampled(f) && f.width >= 0 && f.height >= 0
  {
    Wrap32(Stride(f, c) * PaddedHeight(f, c))
  }

  /** A grayscale frame header whose one component has sampling factors
      1x1 and quantisation table 0 parses to the frame it announces. */
  lemma GrayFrame(seg: seq<byte>, f: Frame)
    requires |seg| == 9 && seg[0] == 8 && seg[5] == 1 && seg[6] == 1 && seg[7] == 0x11 && seg[8] == 0
    requires f == Frame(Decode16(seg[1], seg[2]), Decode16(seg[3], seg[4]), [FrameComponent(1, 1, 1, 0)])
    requires !TooSmall(f, f.comps[0])
    ensures ParseFrame(seg) == Success(f)
  {
    var c := FrameComponent(1, 1, 1, 0);
    assert ParseComponent(1, 0x11, 0) == Success(c) by { PowerOfTwoMask(1); SelectorMask(0); }
    var cs := seg[6..];
    assert cs[0] == 1 && cs[1] == 0x11 && cs[2] == 0;
    assert ParseComponents(cs, 0) == Success([]);
    assert [] + [c] == [c];
    assert ParseComponents(cs, 1) == Success([c]);
    assert [c][0].(ssx := 1, ssy := 1) == c;
  }

  /** A grayscale frame of 65535 x 65535 samples gets a pitch of 65536 and
      65536 padded rows; their product wraps to 0 in 32 bits, so the C code
      allocates an empty plane that the scan then writes into. */
  lemma HugeFrameWrapsToEmpty(seg: seq<byte>)
    requires |seg| == 9 && seg[0] == 8 && seg[1] == 0xFF && seg[2] == 0xFF && seg[3] == 0xFF && seg[4] == 0xFF
    requires seg[5] == 1 && seg[6] == 1 && seg[7] == 0x11 && seg[8] == 0
    ensures ParseFrame(seg).Success? &&
      var f := ParseFrame(seg).value;
      Stride(f, f.comps[0]) == 65536 && PaddedHeight(f, f.comps[0]) == 65536 &&
      PlaneSizeAsWritten(f, f.comps[0]) == 0 && PlaneSize(f, f.comps[0]) == 0x1_0000_0000
  {
    var f := Frame(65535, 65535, [FrameComponent(1, 1, 1, 0)]);
    HugeGeometry(f);
    GrayFrame(seg, f);
  }

  lemma HugeGeometry(f: Frame)
    requires f == Frame(65535, 65535, [FrameComponent(1, 1, 1, 0)])
    ensures Sampled(f) && !TooSmall(f, f.comps[0])
    ensures Stride(f, f.comps[0]) == 65536 && PaddedHeight(f, f.comps[0]) == 65536
  {
    var c := f.comps[0];
    assert SsxMax(f.comps) == 1 && SsyMax(f.comps) == 1;
    assert MbWidth(f) == 8192 && MbHeight(f) == 8192;
    StrideIsWhole(f, c);
  }

  /** A frame header with width 0 passes the checks as written and gets a
      plane of pitch 0, so the plane is empty while the scan still decodes
      one block into it. */
  lemma ZeroWidthFrameIsAccepted(seg: seq<byte>)
    requires |seg| == 9 && seg[0] == 8 && seg[1] == 0 && seg[2] == 8 && seg[3] == 0 && seg[4] == 0
    requires seg[5] == 1 && seg[6] == 1 && seg[7] == 0x11 && seg[8] == 0
    ensures ParseFrame(seg) == Success(Frame(8, 0, [FrameComponent(1, 1, 1, 0)]))
    ensures var f := Frame(8, 0, [FrameComponent(1, 1, 1, 0)]);
      Sampled(f) && MbWidth(f) == 0 && PlaneSize(f, f.comps[0]) == 0
  {
    var f := Frame(8, 0, [FrameComponent(1, 1, 1, 0)]);
    ZeroWidthGeometry(f);
    GrayFrame(seg, f);
  }

  /** The same header is a syntax error for the decoder of this model. */
  lemma ZeroWidthFrameIsRejected(seg: seq<byte>)
    requires |seg| == 9 && seg[0] == 8 && seg[1] == 0 && seg[2] == 8 && seg[3] == 0 && seg[4] == 0
    requires seg[5] == 1 && seg[6] == 1 && seg[7] == 0x11 && seg[8] == 0
    ensures ParseSof(seg) == Failure(SyntaxError)
  {
    ZeroWidthFrameIsAccepted(seg);
  }

  lemma ZeroWidthGeometry(f: Frame)
    requires f == Frame(8, 0, [FrameComponent(1, 1, 1, 0)])
    ensures Sampled(f) && !TooSmall(f, f.comps[0])
    ensures Stride(f, f.comps[0]) == 0 && MbWidth(f) == 0 && PlaneSize(f, f.comps[0]) == 0
  {
    var c := f.comps[0];
    assert SsxMax(f.comps) == 1 && SsyMax(f.comps) == 1;
    assert MbWidth(f) == 0 && MbHeight(f) == 1;
    StrideIsWhole(f, c);
  }

  /** A frame header with height 0 passes the checks as written too: there
      are no MCU rows and the plane is empty, while the scan still decodes
      the first row of MCUs into it before it tests the row count. */
  lemma ZeroHeightFrameIsAccepted(seg: seq<byte>)
    requires |seg| == 9 && seg[0] == 8 && seg[1] == 0 && seg[2] == 0 && seg[3] == 0 && seg[4] == 8
    requires seg[5] == 1 && seg[6] == 1 && seg[7] == 0x11 && seg[8] == 0
    ensures ParseFrame(seg) == Success(Frame(0, 8, [FrameComponent(1, 1, 1, 0)]))
    ensures var f := Frame(0, 8, [FrameComponent(1, 1, 1, 0)]);
      Sampled(f) && MbWidth(f) == 1 && MbHeight(f) == 0 && PlaneSize(f, f.comps[0]) == 0
  {
    var f := Frame(0, 8, [FrameComponent(1, 1, 1, 0)]);
    ZeroHeightGeometry(f);
    GrayFrame(seg, f);
  }

  /** The same header is unsupported for the decoder of this model: a
      height of 0 announces a DNL segment, which it does not read. */
  lemma ZeroHeightFrameIsRejected(seg: seq<byte>)
    requires |seg| == 9 && seg[0] == 8 && seg[1] == 0 && seg[2] == 0 && seg[3] == 0 && seg[4] == 8
    requires seg[5] == 1 && seg[6] == 1 && seg[7] == 0x11 && seg[8] == 0
    ensures ParseSof(seg) == Failure(Unsupported)
  {
    ZeroHeightFrameIsAccepted(seg);
  }

  lemma ZeroHeightGeometry(f: Frame)
    requires f == Frame(0, 8, [FrameComponent(1, 1, 1, 0)])
    ensures Sampled(f) && !TooSmall(f, f.comps[0])
    ensures PaddedHeight(f, f.comps[0]) == 0 && MbWidth(f) == 1 && MbHeight(f) == 0 && PlaneSize(f, f.comps[0]) == 0
  {
    var c := f.comps[0];
    assert SsxMax(f.comps) == 1 && SsyMax(f.comps) == 1;
    assert MbWidth(f) == 1 && MbHeight(f) == 0;
    StrideIsWhole(f, c);
  }

  // ---------------------------------------------------------------------
  // Quantisation tables (`ujDecodeDQT`).

  /** One quantisation table: its identifier (0..3) and its 64 values in
      zig-zag order. */
  datatype QTable = QTable(id: int, values: seq<byte>)

  /** A DQT body: 65-byte tables while at least 65 bytes remain, an
      identifier above 3 a syntax error, and nothing may be left over. */
  function ParseDqt(seg: seq<byte>): (r: Result<seq<QTable>>)
    ensures r.Success? ==> |seg| == 65 * |r.value|
    ensures r.Success? ==> forall k :: 0 <= k < |r.value| ==> 0 <= r.value[k].id < 4 && |r.value[k].values| == 64
    ensures r.Failure? ==> r.status == SyntaxError
    decreases |seg|
  {
    if |seg| < 65 then
      (if |seg| == 0 then Success([]) else Failure(SyntaxError))
    else if And8(seg[0], 0xFC) != 0 then Failure(SyntaxError)
    else
      match ParseDqt(seg[65..])
      case Failure(e) => Failure(e)
      case Success(ts) => SelectorMask(seg[0]); Success([QTable(seg[0], seg[1..65])] + ts)
  }

  /** The body an encoder writes for a list of tables. */
  function DqtBody(ts: seq<QTable>): (s: seq<byte>)
    requires forall k :: 0 <= k < |ts| ==> 0 <= ts[k].id < 4 && |ts[k].values| == 64
    ensures |s| == 65 * |ts|
  {
    if ts == [] then [] else [ts[0].id as byte] + ts[0].values + DqtBody(ts[1..])
  }

  /** Parsing what the encoder wrote gives back the tables. */
  lemma {:induction false} DqtRoundTrip(ts: seq<QTable>)
    requires forall k :: 0 <= k < |ts| ==> 0 <= ts[k].id < 4 && |ts[k].values| == 64
    ensures ParseDqt(DqtBody(ts)) == Success(ts)
  {
    if ts != [] {
      var s := DqtBody(ts);
      DqtRoundTrip(ts[1..]);
      assert s[65..] == DqtBody(ts[1..]);
      assert s[1..65] == ts[0].values;
      SelectorMask(s[0]);
      assert [ts[0]] + ts[1..] == ts;
    }
  }

  /** `qtab` after storing tables in order; a later table with the same
      identifier replaces an earlier one. */
  function StoreTables(qtab: seq<seq<byte>>, ts: seq<QTable>): (r: seq<seq<byte>>)
    requires |qtab| == 4
    requires forall k :: 0 <= k < |ts| ==> 0 <= ts[k].id < 4
    ensures |r| == 4
    ensures forall t :: 0 <= t < 4 && (forall k :: 0 <= k < |ts| ==> ts[k].id != t) ==> r[t] == qtab[t]
    decreases |ts|
  {
    if ts == [] then qtab else StoreTables(qtab[ts[0].id := ts[0].values], ts[1..])
  }

  /** `qtavail` after the tables: the identifiers seen so far (the bits
      `1 << id` of the C code's mask). */
  function Available(avail: set<int>, ts: seq<QTable>): (r: set<int>)
    ensures avail <= r && forall k :: 0 <= k < |ts| ==> ts[k].id in r
    ensures forall t :: t in r ==> t in avail || exists k :: 0 <= k < |ts| && ts[k].id == t
    decreases |ts|
  {
    if ts == [] then avail
    else
      var r := Available(avail + {ts[0].id}, ts[1..]);
      assert forall k :: 1 <= k < |ts| ==> ts[k] == ts[1..][k - 1];
      r
  }

  /** Every table stored last under its identifier is what `qtab` holds for
      that identifier afterwards, and all 64 values have 8 bits. */
  lemma {:induction false} StoredLast(qtab: seq<seq<byte>>, ts: seq<QTable>, k: nat)
    requires |qtab| == 4 && k < |ts|
    requires forall j :: 0 <= j < |ts| ==> 0 <= ts[j].id < 4
    requires forall j :: k < j < |ts| ==> ts[j].id != ts[k].id
    ensures StoreTables(qtab, ts)[ts[k].id] == ts[k].values
    decreases |ts|
  {
    if k == 0 {
      var q := qtab[ts[0].id := ts[0].values];
      assert forall j :: 0 <= j < |ts[1..]| ==> ts[1..][j].id != ts[0].id;
    } else {
      StoredLast(qtab[ts[0].id := ts[0].values], ts[1..], k - 1);
    }
  }

  // ---------------------------------------------------------------------
  // Restart interval (`ujDecodeDRI`).

  /** A DRI body: at least two bytes, the first two the big-endian number of
      MCUs between restart markers (0 for none). */
  function ParseDri(seg: seq<byte>): (r: Result<int>)
    ensures r.Success? <==> |seg| >= 2
    ensures r.Success? ==> 0 <= r.value < 65536 && r.value / 256 == seg[0] && r.value % 256 == seg[1]
    ensures r.Failure? ==> r.status == SyntaxError
  {
    if |seg| < 2 then Failure(SyntaxError) else Success(Decode16(seg[0], seg[1]))
  }

  // ---------------------------------------------------------------------
  // Scan header (`ujDecodeScan` up to the entropy-coded data).

  /** The tables a scan component uses: a DC table slot (0 or 1) and an AC
      table slot (2 or 3) of the decoder's four Huffman slots. */
  datatype ScanComponent = ScanComponent(dctabsel: int, actabsel: int)

  /** `b & 0xEE` is zero exactly for the four table selector bytes 0x00,
      0x01, 0x10 and 0x11; then `b >> 4` is the DC table and `(b & 1) | 2`
      the slot of the AC table. */
  lemma SelectorByte(b: byte)
    ensures And8(b, 0xEE) == 0 <==> b == 0x00 || b == 0x01 || b == 0x10 || b == 0x11
  {
    var v := b as bv8;
    assert v & 0xEE == 0 <==> (v == 0x00 || v == 0x01 || v == 0x10 || v == 0x11);
  }

  /** The component selectors of a scan header, two bytes each: the
      component identifiers must match the frame's in order, and the table
      selector byte must be one of 0x00, 0x01, 0x10, 0x11. */
  function ParseSelectors(seg: seq<byte>, cids: seq<byte>): (r: Result<seq<ScanComponent>>)
    requires 2 * |cids| <= |seg|
    ensures r.Success? ==> |r.value| == |cids|
    ensures r.Success? ==> forall k :: 0 <= k < |cids| ==>
      0 <= r.value[k].dctabsel < 2 && 2 <= r.value[k].actabsel < 4
    ensures r.Failure? ==> r.status == SyntaxError
    decreases |cids|
  {
    if cids == [] then Success([])
    else if seg[0] != cids[0] then Failure(SyntaxError)
    else if And8(seg[1], 0xEE) != 0 then Failure(SyntaxError)
    else
      match ParseSelectors(seg[2..], cids[1..])
      case Failure(e) => Failure(e)
      case Success(sels) =>
        SelectorByte(seg[1]);
        Success([ScanComponent(seg[1] / 16, seg[1] % 2 + 2)] + sels)
  }

  /** A scan header body for a frame with components `cids`, as written:
      length, component count, selectors, then the spectral selection and
      approximation bytes of a sequential scan (0, 63, 0). */
  function ScanHeader(seg: seq<byte>, cids: seq<byte>): (r: Result<seq<ScanComponent>>)
    ensures r.Success? ==> |r.value| == |cids| && |seg| >= 4 + 2 * |cids|
    ensures r.Success? ==> forall k :: 0 <= k < |cids| ==> 0 <= r.value[k].dctabsel < 2 && 2 <= r.value[k].actabsel < 4
    ensures r.Failure? ==> r.status == SyntaxError || r.status == Unsupported
  {
    var n := |cids|;
    if |seg| < 4 + 2 * n then Failure(SyntaxError)
    else if seg[0] != n then Failure(Unsupported)
    else
      match ParseSelectors(seg[1..], cids)
      case Failure(e) => Failure(e)
      case Success(sels) =>
        if seg[1 + 2 * n] != 0 || seg[2 + 2 * n] != 63 || seg[3 + 2 * n] != 0 then Failure(Unsupported)
        else Success(sels)
  }

  /** The scan header as the decoder of this model reads it: as written,
      and besides a scan before any frame header (no components yet) is a
      syntax error, as section B.2.1 of ITU-T T.81 puts the frame header
      first. */
  function ParseScan(seg: seq<byte>, cids: seq<byte>): (r: Result<seq<ScanComponent>>)
    ensures cids == [] ==> r == Failure(SyntaxError)
    ensures cids != [] ==> r == ScanHeader(seg, cids)
  {
    if cids == [] then Failure(SyntaxError) else ScanHeader(seg, cids)
  }

  /** The parser of a scan header for the components `cids`. */
  function ScanParser(cids: seq<byte>): seq<byte> -> Result<seq<ScanComponent>>
  {
    seg => ParseScan(seg, cids)
  }

  /** As written, a scan header that names no components is accepted when
      no frame header came first. */
  lemma EmptyScanIsAccepted()
    ensures ScanHeader([0, 0, 63, 0], []) == Success([])
    ensures ParseScan([0, 0, 63, 0], []) == Failure(SyntaxError)
  {
    var seg: seq<byte> := [0, 0, 63, 0];
    assert ParseSelectors(seg[1..], []) == Success([]);
  }

  /** The body an encoder writes for a scan of components `cids` with
      table selectors `sels`. */
  function ScanBody(cids: seq<byte>, sels: seq<ScanComponent>): (s: seq<byte>)
    requires |cids| == |sels| < 256
    requires forall k :: 0 <= k < |sels| ==> 0 <= sels[k].dctabsel < 2 && 2 <= sels[k].actabsel < 4
    ensures |s| == 4 + 2 * |cids|
  {
    [|cids| as byte] + Selectors(cids, sels) + [0, 63, 0]
  }

  function Selectors(cids: seq<byte>, sels: seq<ScanComponent>): (s: seq<byte>)
    requires |cids| == |sels|
    requires forall k :: 0 <= k < |sels| ==> 0 <= sels[k].dctabsel < 2 && 2 <= sels[k].actabsel < 4
    ensures |s| == 2 * |cids|
    ensures forall k :: 0 <= k < |cids| ==>
      s[2 * k] == cids[k] && s[2 * k + 1] == 16 * sels[k].dctabsel + sels[k].actabsel - 2
  {
    if cids == [] then []
    else
      var n := |cids| - 1;
      var pre := Selectors(cids[..n], sels[..n]);
      var s := pre + [cids[n], (16 * sels[n].dctabsel + sels[n].actabsel - 2) as byte];
      assert forall k :: 0 <= k < n ==> s[2 * k] == pre[2 * k] && s[2 * k + 1] == pre[2 * k + 1];
      s
  }

  /** The selector byte of a valid pair of table slots passes the mask
      and decodes back to those slots. */
  lemma SelectorDecodes(b: byte, sel: ScanComponent)
    requires 0 <= sel.dctabsel < 2 && 2 <= sel.actabsel < 4
    requires b == 16 * sel.dctabsel + sel.actabsel - 2
    ensures And8(b, 0xEE) == 0 && ScanComponent(b / 16, b % 2 + 2) == sel
  {
    SelectorByte(b);
  }

  /** Selector bytes that name the frame's components in order and encode
      valid table slots parse back to those slots. */
  lemma {:induction false} SelectorsRead(seg: seq<byte>, cids: seq<byte>, sels: seq<ScanComponent>)
    requires |cids| == |sels| && 2 * |cids| <= |seg|
    requires forall k :: 0 <= k < |sels| ==> 0 <= sels[k].dctabsel < 2 && 2 <= sels[k].actabsel < 4
    requires forall k :: 0 <= k < |cids| ==>
      seg[2 * k] == cids[k] && seg[2 * k + 1] == 16 * sels[k].dctabsel + sels[k].actabsel - 2
    ensures ParseSelectors(seg, cids) == Success(sels)
    decreases |cids|
  {
    if cids != [] {
      var t, tc, ts := seg[2..], cids[1..], sels[1..];
      forall k | 0 <= k < |tc|
        ensures t[2 * k] == tc[k] && t[2 * k + 1] == 16 * ts[k].dctabsel + ts[k].actabsel - 2
      {
        assert t[2 * k] == seg[2 * (k + 1)] && t[2 * k + 1] == seg[2 * (k + 1) + 1];
      }
      SelectorsRead(t, tc, ts);
      SelectorDecodes(seg[1], sels[0]);
      assert sels == [sels[0]] + ts;
    }
  }

  /** Parsing the scan header an encoder wrote gives back the table slots. */
  lemma ScanRoundTrip(cids: seq<byte>, sels: seq<ScanComponent>)
    requires |cids| == |sels| < 256
    requires forall k :: 0 <= k < |sels| ==> 0 <= sels[k].dctabsel < 2 && 2 <= sels[k].actabsel < 4
    ensures ScanHeader(ScanBody(cids, sels), cids) == Success(sels)
  {
    var n := |cids|;
    var sel := Selectors(cids, sels);
    var s := ScanBody(cids, sels);
    assert s == [n as byte] + sel + [0, 63, 0];
    var t := s[1..];
    assert t == sel + [0, 63, 0];
    forall k | 0 <= k < n
      ensures t[2 * k] == cids[k] && t[2 * k + 1] == 16 * sels[k].dctabsel + sels[k].actabsel - 2
    {
      assert t[2 * k] == sel[2 * k] && t[2 * k + 1] == sel[2 * k + 1];
    }
    SelectorsRead(t, cids, sels);
    assert s[0] == n as byte && s[1 + 2 * n] == 0 && s[2 + 2 * n] == 63 && s[3 + 2 * n] == 0;
  }
}

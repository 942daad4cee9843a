/** The colour planes of uJPEG (`ujComponent`) and the chroma upsamplers of
    `ujConvert`: the accurate filters, centred (`ujUpsampleHCentered`,
    `ujUpsampleVCentered`) and co-sited (`ujUpsampleHCoSited`,
    `ujUpsampleVCoSited`), and the pixel-replicating `ujUpsampleFast`.

    A plane is a byte array read row by row, `stride` bytes apart. Each
    filter pass replaces it by a new array twice as wide (or as high) whose
    stride is its width. The value of every output sample is given by a
    function of the old plane; the functions read the plane through `At`,
    which is total, while the methods read the arrays directly, so Dafny
    checks every access of the passes against the array bounds. */
module Planes {
  import opened Common

  /** Sample `i` of a plane, or 0 off its ends. */
  function At(p: seq<byte>, i: int): byte
  {
    if 0 <= i < |p| then p[i] else 0
  }

  /** `CF(x)`: the rounding, 7-bit shift and clamp of the centred filters. */
  function CF(x: int): byte
  {
    Clip((x + 64) / 128)
  }

  /** `SF(x)`: the rounding, 4-bit shift and clamp of the co-sited filters. */
  function SF(x: int): byte
  {
    Clip((x + 8) / 16)
  }

  /** Sample `x` of row `r` of a plane whose rows are `stride` bytes apart. */
  function Px(p: seq<byte>, stride: int, r: int, x: int): byte
  {
    At(p, r * stride + x)
  }

  /** Line of `n` samples of a plane starting at `a`: an input row of
      `ujUpsampleHCentered`/`ujUpsampleHCoSited`, `stride` bytes long. */
  function Line(p: seq<byte>, a: int, n: int): (s: seq<byte>)
    requires n >= 0
    ensures |s| == n && forall k :: 0 <= k < n ==> s[k] == At(p, a + k)
  {
    seq<byte>(n, k => At(p, a + k))
  }

  /** Column `x` of a plane of `h` rows `stride` bytes apart: an input
      column of `ujUpsampleVCentered`/`ujUpsampleVCoSited`. */
  function ColumnLine(p: seq<byte>, stride: int, h: int, x: int): (s: seq<byte>)
    requires h >= 0
    ensures |s| == h && forall r :: 0 <= r < h ==> s[r] == Px(p, stride, r, x)
  {
    seq<byte>(h, r => Px(p, stride, r, x))
  }

  /** The weighted sum behind output sample `X` of the centred filter run
      over a line of `n` samples: `2n` outputs, the first three from the
      first three samples, the inner ones from four samples each (taps -9,
      111, 29, -3 and their mirror), the last three from the last three
      entries of `s`. A row pass hands it the whole stride, so its right
      edge reads the three bytes before the next row; a column pass hands
      it exactly `n`. */
  function CenteredSum(s: seq<byte>, n: int, X: int): int
  {
    var m := |s|;
    if X == 0 then 139 * At(s, 0) - 11 * At(s, 1)
    else if X == 1 then 104 * At(s, 0) + 27 * At(s, 1) - 3 * At(s, 2)
    else if X == 2 then 28 * At(s, 0) + 109 * At(s, 1) - 9 * At(s, 2)
    else if X == 2 * n - 3 then 28 * At(s, m - 1) + 109 * At(s, m - 2) - 9 * At(s, m - 3)
    else if X == 2 * n - 2 then 104 * At(s, m - 1) + 27 * At(s, m - 2) - 3 * At(s, m - 3)
    else if X == 2 * n - 1 then 139 * At(s, m - 1) - 11 * At(s, m - 2)
    else if X % 2 == 1 then
      var x := (X - 3) / 2;
      -9 * At(s, x) + 111 * At(s, x + 1) + 29 * At(s, x + 2) - 3 * At(s, x + 3)
    else
      var x := (X - 4) / 2;
      -3 * At(s, x) + 29 * At(s, x + 1) + 111 * At(s, x + 2) - 9 * At(s, x + 3)
  }

  /** Output sample `X` of the centred filter: its sum, rounded, shifted
      by 7 and clamped. */
  function Centered(s: seq<byte>, n: int, X: int): byte
  {
    CF(CenteredSum(s, n, X))
  }

  /** Output sample `X` of the co-sited filter run over a line of `n`
      samples: even outputs copy a sample, odd ones interpolate between two
      (taps -1, 9, 9, -1); the right edge reads the last entries of `s`. */
  function CoSited(s: seq<byte>, n: int, X: int): byte
  {
    if X == 0 then At(s, 0)
    else if X == 2 then At(s, 1)
    else if X == 2 * n - 2 then At(s, |s| - 1)
    else if X % 2 == 0 then At(s, X / 2)
    else SF(CoSitedSum(s, n, X))
  }

  /** The weighted sum behind an odd output sample of the co-sited filter. */
  function CoSitedSum(s: seq<byte>, n: int, X: int): int
  {
    var m := |s|;
    if X == 1 then 8 * At(s, 0) + 9 * At(s, 1) - At(s, 2)
    else if X == 2 * n - 3 then 8 * At(s, m - 1) + 9 * At(s, m - 2) - At(s, m - 3)
    else if X == 2 * n - 1 then 17 * At(s, m - 1) - At(s, m - 2)
    else
      var x := (X + 1) / 2;
      9 * (At(s, x - 1) + At(s, x)) - (At(s, x - 2) + At(s, x + 1))
  }

  /** Output sample `X` of the output row of `ujUpsampleHCentered` whose
      input row, `w` samples wide, starts at `a`. */
  function HCentered(p: seq<byte>, w: int, a: int, stride: int, X: int): byte
    requires stride >= 0
  {
    Centered(Line(p, a, stride), w, X)
  }

  /** Output sample `X` of the output row of `ujUpsampleHCoSited` whose
      input row starts at `a`. */
  function HCoSited(p: seq<byte>, w: int, a: int, stride: int, X: int): byte
    requires stride >= 0
  {
    CoSited(Line(p, a, stride), w, X)
  }

  /** Output sample of output row `Y`, column `x` of `ujUpsampleVCentered`,
      for an input plane `h` rows high. */
  function VCentered(p: seq<byte>, stride: int, h: int, Y: int, x: int): byte
    requires h >= 0
  {
    Centered(ColumnLine(p, stride, h, x), h, Y)
  }

  /** Output sample of output row `Y`, column `x` of `ujUpsampleVCoSited`.
      Output row `2h - 2` takes input row `h - 3`, where the co-sited grid
      puts input row `h - 1`. */
  function VCoSited(p: seq<byte>, stride: int, h: int, Y: int, x: int): byte
    requires h >= 0
  {
    if Y == 2 * h - 2 then Px(p, stride, h - 3, x) else CoSited(ColumnLine(p, stride, h, x), h, Y)
  }

  /** The number of doublings that take a size `n` to at least `target`:
      the shift `ujUpsampleFast` computes, and the number of passes the
      accurate upsampling of `ujConvert` makes along one axis. */
  function Doublings(n: int, target: int): (k: nat)
    requires n >= 1
    ensures k == 0 <==> n >= target
    decreases if n < target then target - n else 0
  {
    if n >= target then 0 else 1 + Doublings(2 * n, target)
  }

  /** A size `n` doubled until it reaches `target`: the width or height a
      plane has once `ujConvert` has upsampled it. */
  function Grown(n: int, target: int): (g: int)
    requires n >= 1
    ensures g >= n && g >= target
    ensures n < target ==> g < 2 * target
    decreases if n < target then target - n else 0
  {
    if n >= target then n else Grown(2 * n, target)
  }

  /** The grown size is the size times two to the number of doublings. */
  lemma {:induction false} GrownIsDoubling(n: int, target: int)
    requires n >= 1
    ensures Grown(n, target) == n * Pow2(Doublings(n, target))
    decreases if n < target then target - n else 0
  {
    if n < target {
      GrownIsDoubling(2 * n, target);
      ShiftStep(n, Doublings(2 * n, target));
    }
  }

  /** One more doubling. */
  lemma ShiftStep(n: int, k: nat)
    ensures n * Pow2(k + 1) == 2 * n * Pow2(k)
  {
    assert Pow2(k + 1) == 2 * Pow2(k);
  }

  /** The shift loop of `ujUpsampleFast`: double `n` until it reaches
      `target`, counting the doublings. */
  method Widen(n: int, target: int) returns (g: int, shift: nat)
    requires n >= 1
    ensures g == Grown(n, target) && shift == Doublings(n, target)
  {
    g, shift := n, 0;
    while g < target
      invariant g >= 1
      invariant Grown(g, target) == Grown(n, target)
      invariant Doublings(g, target) + shift == Doublings(n, target)
      decreases target - g
    {
      g, shift := 2 * g, shift + 1;
    }
  }

  /** Output sample `j` of `ujUpsampleFast`, for an output `w2` samples wide:
      input sample `x >> xs` of input row `y >> ys`. */
  function FastSample(p: seq<byte>, stride: int, xs: nat, ys: nat, w2: int, j: int): byte
    requires w2 >= 1
  {
    At(p, (j / w2) / Pow2(ys) * stride + (j % w2) / Pow2(xs))
  }

  /** The replicated sample always lies inside the image the plane held:
      output row `y` reads input row `y >> ys`, output column `x` input column
      `x >> xs`, both inside the old dimensions, never in the padding. */
  lemma FastReadsInside(w: int, h: int, stride: int, xs: nat, ys: nat, j: int)
    requires 1 <= w <= stride && 1 <= h
    requires 0 <= j < (w * Pow2(xs)) * (h * Pow2(ys))
    ensures var w2 := w * Pow2(xs);
      0 <= (j / w2) / Pow2(ys) < h && 0 <= (j % w2) / Pow2(xs) < w
    ensures var w2 := w * Pow2(xs);
      0 <= (j / w2) / Pow2(ys) * stride + (j % w2) / Pow2(xs) < h * stride
  {
    ReadsInside(w, h, stride, Pow2(xs), Pow2(ys), j);
  }

  lemma ReadsInside(w: int, h: int, stride: int, dx: int, dy: int, j: int)
    requires 1 <= w <= stride && 1 <= h && 1 <= dx && 1 <= dy
    requires 0 <= j < (w * dx) * (h * dy)
    ensures 0 <= (j / (w * dx)) / dy < h && 0 <= (j % (w * dx)) / dx < w
    ensures 0 <= (j / (w * dx)) / dy * stride + (j % (w * dx)) / dx < h * stride
  {
    var w2, h2 := w * dx, h * dy;
    MulAtLeast(w, dx);
    assert w2 * h2 == h2 * w2;
    DivBelow(j, h2, w2);
    var y, x := j / w2, j % w2;
    DivBelow(y, h, dy);
    DivBelow(x, w, dx);
    InPlane(y / dy, h, stride, x / dx);
  }

  /** A value below `n` copies of `d`, divided by `d`, is below `n`. */
  lemma DivBelow(v: int, n: int, d: int)
    requires 0 <= v < n * d && d >= 1
    ensures 0 <= v / d < n
  {
    var q := v / d;
    if q >= n {
      MulMonotone(n, q, d);
    }
  }

  /** The first `n` positions of the column of a buffer `w` wide starting
      at `x` hold the values `col[0 .. n]`; the rest are as in `before`. */
  ghost predicate ColumnHolds(cur: seq<byte>, before: seq<byte>, x: int, w: int, n: int, col: seq<byte>)
    requires w >= 1
  {
    |cur| == |before| &&
    forall j :: 0 <= j < |cur| ==>
      cur[j] == if OnColumn(j, x, w, n) then (var k := (j - x) / w; if 0 <= k < |col| then col[k] else 0) else before[j]
  }

  /** Before the first write, a buffer holds nothing of the column. */
  lemma ColumnEmpty(cur: seq<byte>, x: int, w: int, col: seq<byte>)
    requires 0 <= x < w
    ensures ColumnHolds(cur, cur, x, w, 0, col)
  {
    forall j | 0 <= j < |cur|
      ensures !OnColumn(j, x, w, 0)
    {
      if j >= x {
        DivModUnique(j - x, w, (j - x) / w, (j - x) % w);
      }
    }
  }

  /** Store the next sample of a column, `cin`-style: `*cout = v; cout += w`. */
  method ColumnPut(out: array<byte>, x: int, w: int, n: int, cout: int, v: byte,
                   ghost col: seq<byte>, ghost before: seq<byte>)
    requires 0 <= x < w && 0 <= n < |col| && cout == x + n * w && cout < out.Length
    requires v == col[n]
    requires ColumnHolds(out[..], before, x, w, n, col)
    modifies out
    ensures ColumnHolds(out[..], before, x, w, n + 1, col)
  {
    MulMonotone(0, n, w);
    ColumnGrows(x, w, n);
    out[cout] := v;
  }

  /** On a buffer `w` wide and `n` rows high, a finished column starting at
      `x` holds, at every position in it, the value for that position's row. */
  lemma ColumnFinished(cur: seq<byte>, before: seq<byte>, x: int, w: int, n: int, col: seq<byte>, j: int)
    requires 0 <= x < w && |col| == n && |cur| == n * w && 0 <= j < |cur|
    requires ColumnHolds(cur, before, x, w, n, col)
    ensures j % w == x ==> 0 <= j / w < n
    ensures cur[j] == if j % w == x then col[j / w] else before[j]
  {
    ColumnIsResidue(j, x, w, n);
    if j % w == x {
      DivBelow(j, n, w);
    }
  }

  /** The first `n` samples of the output row starting at `lout` hold
      `row[0 .. n]`; the rest of the buffer is as in `before`. */
  ghost predicate RowHolds(cur: seq<byte>, before: seq<byte>, lout: int, n: int, row: seq<byte>)
  {
    |cur| == |before| &&
    forall j :: 0 <= j < |cur| ==>
      cur[j] == if lout <= j < lout + n then (if j - lout < |row| then row[j - lout] else 0) else before[j]
  }

  /** Store the next sample of a row: `lout[n] = v`. */
  method RowPut(out: array<byte>, lout: int, n: int, v: byte, ghost row: seq<byte>, ghost before: seq<byte>)
    requires 0 <= lout && 0 <= n < |row| && lout + n < out.Length
    requires v == row[n]
    requires RowHolds(out[..], before, lout, n, row)
    modifies out
    ensures RowHolds(out[..], before, lout, n + 1, row)
  {
    out[lout + n] := v;
  }

  lemma RowFinished(cur: seq<byte>, before: seq<byte>, lout: int, n: int, row: seq<byte>, j: int)
    requires |row| == n && 0 <= j < |cur|
    requires RowHolds(cur, before, lout, n, row)
    ensures cur[j] == if lout <= j < lout + n then row[j - lout] else before[j]
  {
  }

  /** The inner samples of the centred filter: outputs `2x + 3` and
      `2x + 4` from samples `x .. x + 3` of the line. */
  lemma CenteredInner(s: seq<byte>, n: int, x: int)
    requires 3 <= n && 0 <= x < n - 3
    ensures CenteredSum(s, n, 2 * x + 3) ==
      -9 * At(s, x) + 111 * At(s, x + 1) + 29 * At(s, x + 2) - 3 * At(s, x + 3)
    ensures CenteredSum(s, n, 2 * x + 4) ==
      -3 * At(s, x) + 29 * At(s, x + 1) + 111 * At(s, x + 2) - 9 * At(s, x + 3)
  {
    assert (2 * x + 3 - 3) / 2 == x && (2 * x + 4 - 4) / 2 == x;
  }

  /** The inner samples of the co-sited filter: output `2x - 1`
      interpolates samples `x - 1` and `x`, output `2x` copies sample `x`. */
  lemma CoSitedInner(s: seq<byte>, n: int, x: int)
    requires 3 <= n && 2 <= x < n - 1
    ensures CoSited(s, n, 2 * x - 1) == SF(CoSitedSum(s, n, 2 * x - 1))
    ensures CoSitedSum(s, n, 2 * x - 1) == 9 * (At(s, x - 1) + At(s, x)) - (At(s, x - 2) + At(s, x + 1))
    ensures CoSited(s, n, 2 * x) == At(s, x)
  {
    assert (2 * x - 1 + 1) / 2 == x && (2 * x) / 2 == x;
  }

  /** The co-sited inner samples numbered as a column pass numbers them:
      output rows `2i + 3` and `2i + 4` from input rows `i .. i + 3`. */
  lemma CoSitedInnerRows(s: seq<byte>, n: int, i: int)
    requires 3 <= n && 0 <= i < n - 3
    ensures CoSited(s, n, 2 * i + 3) == SF(CoSitedSum(s, n, 2 * i + 3))
    ensures CoSitedSum(s, n, 2 * i + 3) == 9 * (At(s, i + 1) + At(s, i + 2)) - (At(s, i) + At(s, i + 3))
    ensures CoSited(s, n, 2 * i + 4) == At(s, i + 2)
  {
    CoSitedInner(s, n, i + 2);
    assert 2 * (i + 2) - 1 == 2 * i + 3 && 2 * (i + 2) == 2 * i + 4;
  }

  /** `(r + 1) * s`, `(r + 2) * s` and `(r + 3) * s` one stride apart. */
  lemma RowSteps(r: int, s: int)
    ensures (r + 1) * s == r * s + s && (r + 2) * s == r * s + 2 * s && (r + 3) * s == r * s + 3 * s
  {
  }

  /** One output row of `ujUpsampleHCentered`: the input row starts at
      `lin`, the output row at `lout`. */
  method HCenteredRow(inp: array<byte>, w: int, lin: int, stride: int, out: array<byte>, lout: int)
    requires inp != out
    requires 3 <= w <= stride && 0 <= lin && lin + stride <= inp.Length
    requires 0 <= lout && lout + 2 * w <= out.Length
    modifies out
    ensures forall j :: 0 <= j < out.Length ==>
      out[j] == if lout <= j < lout + 2 * w then HCentered(inp[..], w, lin, stride, j - lout) else old(out[j])
  {
    ghost var p := inp[..];
    ghost var r := Line(p, lin, stride);
    ghost var row := seq(2 * w, X => Centered(r, w, X));
    ghost var before := out[..];
    HCenteredHead(inp, w, lin, stride, out, lout, p, r, row, before);
    var x := 0;
    while x < w - 3
      invariant 0 <= x <= w - 3
      invariant RowHolds(out[..], before, lout, 2 * x + 3, row)
    {
      HCenteredPair(inp, w, lin, stride, x, out, lout, p, r, row, before);
      x := x + 1;
    }
    HCenteredTail(inp, w, lin, stride, out, lout, p, r, row, before);
    forall j | 0 <= j < out.Length
      ensures out[j] == if lout <= j < lout + 2 * w then HCentered(p, w, lin, stride, j - lout) else before[j]
    {
      RowFinished(out[..], before, lout, 2 * w, row, j);
    }
  }

  /** The first three samples of a centred output row. */
  method HCenteredHead(inp: array<byte>, w: int, lin: int, stride: int, out: array<byte>, lout: int,
                       ghost p: seq<byte>, ghost r: seq<byte>, ghost row: seq<byte>, ghost before: seq<byte>)
    requires inp != out
    requires 3 <= w <= stride && 0 <= lin && lin + stride <= inp.Length
    requires 0 <= lout && lout + 2 * w <= out.Length
    requires p == inp[..] && r == Line(p, lin, stride)
    requires |row| == 2 * w && forall X :: 0 <= X < 2 * w ==> row[X] == Centered(r, w, X)
    requires RowHolds(out[..], before, lout, 0, row)
    modifies out
    ensures RowHolds(out[..], before, lout, 3, row)
  {
    var i0, i1, i2 := inp[lin] as int, inp[lin + 1] as int, inp[lin + 2] as int;
    CenteredHead(r, w, i0, i1, i2);
    RowPut(out, lout, 0, CF(139 * i0 - 11 * i1), row, before);
    RowPut(out, lout, 1, CF(104 * i0 + 27 * i1 - 3 * i2), row, before);
    RowPut(out, lout, 2, CF(28 * i0 + 109 * i1 - 9 * i2), row, before);
  }

  /** Sample `k` of an input row is the plane's byte `a + k`. */
  lemma LineAt(p: seq<byte>, a: int, n: int, k: int)
    requires 0 <= k < n && 0 <= a + k < |p|
    ensures At(Line(p, a, n), k) == p[a + k]
  {
  }

  /** The first three centred output samples of a line, in terms of its
      first three samples `a`, `b`, `d`. */
  lemma CenteredHead(c: seq<byte>, n: int, a: int, b: int, d: int)
    requires 3 <= n && At(c, 0) == a && At(c, 1) == b && At(c, 2) == d
    ensures Centered(c, n, 0) == CF(139 * a - 11 * b)
    ensures Centered(c, n, 1) == CF(104 * a + 27 * b - 3 * d)
    ensures Centered(c, n, 2) == CF(28 * a + 109 * b - 9 * d)
  {
    assert CenteredSum(c, n, 0) == 139 * a - 11 * b;
    assert CenteredSum(c, n, 1) == 104 * a + 27 * b - 3 * d;
    assert CenteredSum(c, n, 2) == 28 * a + 109 * b - 9 * d;
  }

  /** The last three centred output samples of a line, in terms of the last
      three entries `a`, `b`, `d` of `c` (last first). */
  lemma CenteredTail(c: seq<byte>, n: int, a: int, b: int, d: int)
    requires 3 <= n && 3 <= |c|
    requires At(c, |c| - 1) == a && At(c, |c| - 2) == b && At(c, |c| - 3) == d
    ensures Centered(c, n, 2 * n - 3) == CF(28 * a + 109 * b - 9 * d)
    ensures Centered(c, n, 2 * n - 2) == CF(104 * a + 27 * b - 3 * d)
    ensures Centered(c, n, 2 * n - 1) == CF(139 * a - 11 * b)
  {
    assert CenteredSum(c, n, 2 * n - 3) == 28 * a + 109 * b - 9 * d;
    assert CenteredSum(c, n, 2 * n - 2) == 104 * a + 27 * b - 3 * d;
    assert CenteredSum(c, n, 2 * n - 1) == 139 * a - 11 * b;
  }

  /** The first three co-sited output samples of a line, in terms of its
      first three samples `a`, `b`, `d`. */
  lemma CoSitedHead(c: seq<byte>, n: int, a: int, b: int, d: int)
    requires 3 <= n && At(c, 0) == a && At(c, 1) == b && At(c, 2) == d
    ensures CoSited(c, n, 0) == a
    ensures CoSited(c, n, 1) == SF(8 * a + 9 * b - d)
    ensures CoSited(c, n, 2) == b
  {
  }

  /** Co-sited output samples `2x - 1` and `2x` of a line, in terms of the
      four input samples `a`, `b`, `e`, `d` from `x - 2` on. */
  lemma CoSitedPair(c: seq<byte>, n: int, x: int, a: int, b: int, e: int, d: int)
    requires 3 <= n && 2 <= x < n - 1
    requires At(c, x - 2) == a && At(c, x - 1) == b && At(c, x) == e && At(c, x + 1) == d
    ensures CoSited(c, n, 2 * x - 1) == SF(9 * (b + e) - (a + d))
    ensures CoSited(c, n, 2 * x) == e
  {
    CoSitedInner(c, n, x);
  }

  /** The odd co-sited output samples `2n - 3` and `2n - 1` of a line, in
      terms of the last three entries `a`, `b`, `d` of `c` (last first). */
  lemma CoSitedTail(c: seq<byte>, n: int, a: int, b: int, d: int)
    requires 3 <= n && 3 <= |c|
    requires At(c, |c| - 1) == a && At(c, |c| - 2) == b && At(c, |c| - 3) == d
    ensures CoSited(c, n, 2 * n - 3) == SF(8 * a + 9 * b - d)
    ensures CoSited(c, n, 2 * n - 2) == a
    ensures CoSited(c, n, 2 * n - 1) == SF(17 * a - b)
  {
  }

  /** Four consecutive samples of column `x`, from input row `i` on; `cin`
      is at input row `i + 1`. */
  lemma ColumnQuad(p: seq<byte>, stride: int, h: int, x: int, i: int, cin: int)
    requires 1 <= stride && 0 <= i && i + 3 < h
    requires cin == (i + 1) * stride + x && cin - stride == i * stride + x
    requires cin + stride == (i + 2) * stride + x && cin + 2 * stride == (i + 3) * stride + x
    requires 0 <= cin - stride && cin + 2 * stride < |p|
    ensures At(ColumnLine(p, stride, h, x), i) == p[cin - stride]
    ensures At(ColumnLine(p, stride, h, x), i + 1) == p[cin]
    ensures At(ColumnLine(p, stride, h, x), i + 2) == p[cin + stride]
    ensures At(ColumnLine(p, stride, h, x), i + 3) == p[cin + 2 * stride]
  {
    ColumnAt(p, stride, h, x, i, cin - stride);
    ColumnAt(p, stride, h, x, i + 1, cin);
    ColumnAt(p, stride, h, x, i + 2, cin + stride);
    ColumnAt(p, stride, h, x, i + 3, cin + 2 * stride);
  }

  /** Centred output samples `2i + 3` and `2i + 4` of a line, in terms of the
      four input samples `a`, `b`, `e`, `d` from `i` on. */
  lemma CenteredPair(c: seq<byte>, n: int, i: int, a: int, b: int, e: int, d: int)
    requires 3 <= n && 0 <= i < n - 3
    requires At(c, i) == a && At(c, i + 1) == b && At(c, i + 2) == e && At(c, i + 3) == d
    ensures Centered(c, n, 2 * i + 3) == CF(-9 * a + 111 * b + 29 * e - 3 * d)
    ensures Centered(c, n, 2 * i + 4) == CF(-3 * a + 29 * b + 111 * e - 9 * d)
  {
    CenteredInner(c, n, i);
  }

  lemma ColumnAt(p: seq<byte>, stride: int, h: int, x: int, r: int, i: int)
    requires 0 <= r < h && i == r * stride + x && 0 <= i < |p|
    ensures At(ColumnLine(p, stride, h, x), r) == p[i]
  {
  }

  /** Output samples `2x + 3` and `2x + 4` of a centred output row. */
  method HCenteredPair(inp: array<byte>, w: int, lin: int, stride: int, x: int, out: array<byte>, lout: int,
                       ghost p: seq<byte>, ghost r: seq<byte>, ghost row: seq<byte>, ghost before: seq<byte>)
    requires inp != out
    requires 3 <= w <= stride && 0 <= lin && lin + stride <= inp.Length && 0 <= x < w - 3
    requires 0 <= lout && lout + 2 * w <= out.Length
    requires p == inp[..] && r == Line(p, lin, stride)
    requires |row| == 2 * w && forall X :: 0 <= X < 2 * w ==> row[X] == Centered(r, w, X)
    requires RowHolds(out[..], before, lout, 2 * x + 3, row)
    modifies out
    ensures RowHolds(out[..], before, lout, 2 * x + 5, row)
  {
    var a, b, c, d := inp[lin + x] as int, inp[lin + x + 1] as int, inp[lin + x + 2] as int, inp[lin + x + 3] as int;
    CenteredPair(r, w, x, a, b, c, d);
    RowPut(out, lout, 2 * x + 3, CF(-9 * a + 111 * b + 29 * c - 3 * d), row, before);
    RowPut(out, lout, 2 * x + 4, CF(-3 * a + 29 * b + 111 * c - 9 * d), row, before);
  }

  /** The last three samples of a centred output row, from the three bytes
      before the start of the next input row. */
  method HCenteredTail(inp: array<byte>, w: int, lin: int, stride: int, out: array<byte>, lout: int,
                       ghost p: seq<byte>, ghost r: seq<byte>, ghost row: seq<byte>, ghost before: seq<byte>)
    requires inp != out
    requires 3 <= w <= stride && 0 <= lin && lin + stride <= inp.Length
    requires 0 <= lout && lout + 2 * w <= out.Length
    requires p == inp[..] && r == Line(p, lin, stride)
    requires |row| == 2 * w && forall X :: 0 <= X < 2 * w ==> row[X] == Centered(r, w, X)
    requires RowHolds(out[..], before, lout, 2 * w - 3, row)
    modifies out
    ensures RowHolds(out[..], before, lout, 2 * w, row)
  {
    var e := lin + stride;
    var e1, e2, e3 := inp[e - 1] as int, inp[e - 2] as int, inp[e - 3] as int;
    CenteredTail(r, w, e1, e2, e3);
    RowPut(out, lout, 2 * w - 3, CF(28 * e1 + 109 * e2 - 9 * e3), row, before);
    RowPut(out, lout, 2 * w - 2, CF(104 * e1 + 27 * e2 - 3 * e3), row, before);
    RowPut(out, lout, 2 * w - 1, CF(139 * e1 - 11 * e2), row, before);
  }

  /** One output row of `ujUpsampleHCoSited`. */
  method HCoSitedRow(inp: array<byte>, w: int, lin: int, stride: int, out: array<byte>, lout: int)
    requires inp != out
    requires 3 <= w <= stride && 0 <= lin && lin + stride <= inp.Length
    requires 0 <= lout && lout + 2 * w <= out.Length
    modifies out
    ensures forall j :: 0 <= j < out.Length ==>
      out[j] == if lout <= j < lout + 2 * w then HCoSited(inp[..], w, lin, stride, j - lout) else old(out[j])
  {
    ghost var p := inp[..];
    ghost var r := Line(p, lin, stride);
    ghost var row := seq(2 * w, X => CoSited(r, w, X));
    ghost var before := out[..];
    HCoSitedHead(inp, w, lin, stride, out, lout, p, r, row, before);
    var x := 2;
    while x < w - 1
      invariant 2 <= x <= w - 1
      invariant RowHolds(out[..], before, lout, 2 * x - 1, row)
    {
      HCoSitedPair(inp, w, lin, stride, x, out, lout, p, r, row, before);
      x := x + 1;
    }
    HCoSitedTail(inp, w, lin, stride, out, lout, p, r, row, before);
    forall j | 0 <= j < out.Length
      ensures out[j] == if lout <= j < lout + 2 * w then HCoSited(p, w, lin, stride, j - lout) else before[j]
    {
      RowFinished(out[..], before, lout, 2 * w, row, j);
    }
  }

  /** The first three samples of a co-sited output row. */
  method HCoSitedHead(inp: array<byte>, w: int, lin: int, stride: int, out: array<byte>, lout: int,
                      ghost p: seq<byte>, ghost r: seq<byte>, ghost row: seq<byte>, ghost before: seq<byte>)
    requires inp != out
    requires 3 <= w <= stride && 0 <= lin && lin + stride <= inp.Length
    requires 0 <= lout && lout + 2 * w <= out.Length
    requires p == inp[..] && r == Line(p, lin, stride)
    requires |row| == 2 * w && forall X :: 0 <= X < 2 * w ==> row[X] == CoSited(r, w, X)
    requires RowHolds(out[..], before, lout, 0, row)
    modifies out
    ensures RowHolds(out[..], before, lout, 3, row)
  {
    var i0, i1, i2 := inp[lin] as int, inp[lin + 1] as int, inp[lin + 2] as int;
    CoSitedHead(r, w, i0, i1, i2);
    RowPut(out, lout, 0, inp[lin], row, before);
    RowPut(out, lout, 1, SF(8 * i0 + 9 * i1 - i2), row, before);
    RowPut(out, lout, 2, inp[lin + 1], row, before);
  }

  /** Output samples `2x - 1` and `2x` of a co-sited output row. */
  method HCoSitedPair(inp: array<byte>, w: int, lin: int, stride: int, x: int, out: array<byte>, lout: int,
                      ghost p: seq<byte>, ghost r: seq<byte>, ghost row: seq<byte>, ghost before: seq<byte>)
    requires inp != out
    requires 3 <= w <= stride && 0 <= lin && lin + stride <= inp.Length && 2 <= x < w - 1
    requires 0 <= lout && lout + 2 * w <= out.Length
    requires p == inp[..] && r == Line(p, lin, stride)
    requires |row| == 2 * w && forall X :: 0 <= X < 2 * w ==> row[X] == CoSited(r, w, X)
    requires RowHolds(out[..], before, lout, 2 * x - 1, row)
    modifies out
    ensures RowHolds(out[..], before, lout, 2 * x + 1, row)
  {
    var a, b, c, d := inp[lin + x - 2] as int, inp[lin + x - 1] as int, inp[lin + x] as int, inp[lin + x + 1] as int;
    CoSitedPair(r, w, x, a, b, c, d);
    RowPut(out, lout, 2 * x - 1, SF(9 * (b + c) - (a + d)), row, before);
    RowPut(out, lout, 2 * x, inp[lin + x], row, before);
  }

  /** The last three samples of a co-sited output row. */
  method HCoSitedTail(inp: array<byte>, w: int, lin: int, stride: int, out: array<byte>, lout: int,
                      ghost p: seq<byte>, ghost r: seq<byte>, ghost row: seq<byte>, ghost before: seq<byte>)
    requires inp != out
    requires 3 <= w <= stride && 0 <= lin && lin + stride <= inp.Length
    requires 0 <= lout && lout + 2 * w <= out.Length
    requires p == inp[..] && r == Line(p, lin, stride)
    requires |row| == 2 * w && forall X :: 0 <= X < 2 * w ==> row[X] == CoSited(r, w, X)
    requires RowHolds(out[..], before, lout, 2 * w - 3, row)
    modifies out
    ensures RowHolds(out[..], before, lout, 2 * w, row)
  {
    var e := lin + stride;
    var e1, e2, e3 := inp[e - 1] as int, inp[e - 2] as int, inp[e - 3] as int;
    CoSitedTail(r, w, e1, e2, e3);
    RowPut(out, lout, 2 * w - 3, SF(8 * e1 + 9 * e2 - e3), row, before);
    RowPut(out, lout, 2 * w - 2, inp[e - 1], row, before);
    RowPut(out, lout, 2 * w - 1, SF(17 * e1 - e2), row, before);
  }

  /** One output column of `ujUpsampleVCentered`: `cin` walks down input
      column `x`, `cout` down output column `x` of an output `w` wide. */
  method VCenteredColumn(inp: array<byte>, stride: int, h: int, x: int, out: array<byte>, w: int)
    requires inp != out
    requires 0 <= x < w <= stride && 3 <= h && stride * h <= inp.Length && out.Length == 2 * h * w
    modifies out
    ensures forall j :: 0 <= j < out.Length ==>
      out[j] == if j % w == x then VCentered(inp[..], stride, h, j / w, x) else old(out[j])
  {
    ghost var p := inp[..];
    ghost var c := ColumnLine(p, stride, h, x);
    ghost var col := seq(2 * h, Y => Centered(c, h, Y));
    ghost var before := out[..];
    assert forall Y :: 0 <= Y < 2 * h ==> col[Y] == Centered(c, h, Y);
    ColumnEmpty(before, x, w, col);
    VCenteredFill(inp, stride, h, x, out, w, p, c, col, before);
    forall j | 0 <= j < out.Length
      ensures out[j] == if j % w == x then VCentered(p, stride, h, j / w, x) else before[j]
    {
      ColumnFinished(out[..], before, x, w, 2 * h, col, j);
    }
  }

  /** Fills output column `x` of `ujUpsampleVCentered`: head, inner pairs, tail. */
  method VCenteredFill(inp: array<byte>, stride: int, h: int, x: int, out: array<byte>, w: int,
                       ghost p: seq<byte>, ghost c: seq<byte>, ghost col: seq<byte>, ghost before: seq<byte>)
    requires inp != out
    requires 0 <= x < w <= stride && 3 <= h && stride * h <= inp.Length && out.Length == 2 * h * w
    requires p == inp[..] && c == ColumnLine(p, stride, h, x)
    requires |col| == 2 * h && forall Y :: 0 <= Y < 2 * h ==> col[Y] == Centered(c, h, Y)
    requires ColumnHolds(out[..], before, x, w, 0, col)
    modifies out
    ensures ColumnHolds(out[..], before, x, w, 2 * h, col)
  {
    assert x + 2 * stride < inp.Length && x + 2 * w < out.Length by {
      InPlane(2, h, stride, x);
      InPlane(2, 2 * h, w, x);
    }
    VCenteredHead(inp, stride, h, x, out, w, p, c, col, before);
    var cin, cout := x + stride, x + 3 * w;
    var i := 0;
    while i < h - 3
      invariant 0 <= i <= h - 3
      invariant cin == (i + 1) * stride + x && cout == x + (2 * i + 3) * w
      invariant ColumnHolds(out[..], before, x, w, 2 * i + 3, col)
    {
      assert cin - stride == i * stride + x && cin + stride == (i + 2) * stride + x &&
        cin + 2 * stride == (i + 3) * stride + x && 0 <= cin - stride && cin + 2 * stride < inp.Length by {
        RowSteps(i, stride);
        InPlane(i, h, stride, x);
        InPlane(i + 3, h, stride, x);
      }
      assert cout + w == x + (2 * i + 4) * w && cout + 2 * w == x + (2 * i + 5) * w && cout + w < out.Length by {
        MulSucc(2 * i + 3, w);
        MulSucc(2 * i + 4, w);
        InPlane(2 * i + 4, 2 * h, w, x);
      }
      VCenteredPair(inp, stride, h, x, i, cin, out, w, cout, p, c, col, before);
      cout := cout + 2 * w;
      cin := cin + stride;
      i := i + 1;
    }
    cin := cin + stride;
    assert cin - stride == (h - 2) * stride + x && cin - 2 * stride == (h - 3) * stride + x &&
      0 <= cin - 2 * stride && cin < inp.Length by {
      RowSteps(h - 3, stride);
      InPlane(h - 3, h, stride, x);
      InPlane(h - 1, h, stride, x);
    }
    assert cout + w == x + (2 * h - 2) * w && cout + 2 * w == x + (2 * h - 1) * w && cout + 2 * w < out.Length by {
      MulSucc(2 * h - 3, w);
      MulSucc(2 * h - 2, w);
      InPlane(2 * h - 1, 2 * h, w, x);
    }
    VCenteredTail(inp, stride, h, x, cin, out, w, cout, p, c, col, before);
  }



  /** The first three samples of a centred output column. */
  method VCenteredHead(inp: array<byte>, stride: int, h: int, x: int, out: array<byte>, w: int,
                       ghost p: seq<byte>, ghost c: seq<byte>, ghost col: seq<byte>, ghost before: seq<byte>)
    requires inp != out
    requires 0 <= x < w && 1 <= stride && 3 <= h && x + 2 * stride < inp.Length && x + 2 * w < out.Length
    requires p == inp[..] && c == ColumnLine(p, stride, h, x)
    requires |col| == 2 * h && forall Y :: 0 <= Y < 2 * h ==> col[Y] == Centered(c, h, Y)
    requires ColumnHolds(out[..], before, x, w, 0, col)
    modifies out
    ensures ColumnHolds(out[..], before, x, w, 3, col)
  {
    var s1, s2 := stride, 2 * stride;
    ColumnAt(p, stride, h, x, 0, x);
    ColumnAt(p, stride, h, x, 1, x + s1);
    ColumnAt(p, stride, h, x, 2, x + s2);
    var a, b, d := inp[x] as int, inp[x + s1] as int, inp[x + s2] as int;
    CenteredHead(c, h, a, b, d);
    ColumnPut(out, x, w, 0, x, CF(139 * a - 11 * b), col, before);
    ColumnPut(out, x, w, 1, x + w, CF(104 * a + 27 * b - 3 * d), col, before);
    ColumnPut(out, x, w, 2, x + 2 * w, CF(28 * a + 109 * b - 9 * d), col, before);
  }

  /** Output rows `2i + 3` and `2i + 4` of a centred output column; `cin`
      is at input row `i + 1`. */
  method VCenteredPair(inp: array<byte>, stride: int, h: int, x: int, i: int, cin: int,
                       out: array<byte>, w: int, cout: int,
                       ghost p: seq<byte>, ghost c: seq<byte>, ghost col: seq<byte>, ghost before: seq<byte>)
    requires inp != out
    requires 0 <= x < w && 1 <= stride && 3 <= h && 0 <= i < h - 3
    requires cin == (i + 1) * stride + x && cin - stride == i * stride + x
    requires cin + stride == (i + 2) * stride + x && cin + 2 * stride == (i + 3) * stride + x
    requires 0 <= cin - stride && cin + 2 * stride < inp.Length
    requires cout == x + (2 * i + 3) * w && cout + w == x + (2 * i + 4) * w && cout + w < out.Length
    requires p == inp[..] && c == ColumnLine(p, stride, h, x)
    requires |col| == 2 * h && forall Y :: 0 <= Y < 2 * h ==> col[Y] == Centered(c, h, Y)
    requires ColumnHolds(out[..], before, x, w, 2 * i + 3, col)
    modifies out
    ensures ColumnHolds(out[..], before, x, w, 2 * i + 5, col)
  {
    var s1, s2 := stride, 2 * stride;
    ColumnQuad(p, stride, h, x, i, cin);
    var a, b, e, d := inp[cin - s1] as int, inp[cin] as int, inp[cin + s1] as int, inp[cin + s2] as int;
    CenteredPair(c, h, i, a, b, e, d);
    ColumnPut(out, x, w, 2 * i + 3, cout, CF(-9 * a + 111 * b + 29 * e - 3 * d), col, before);
    ColumnPut(out, x, w, 2 * i + 4, cout + w, CF(-3 * a + 29 * b + 111 * e - 9 * d), col, before);
  }

  /** The last three samples of a centred output column; `cin` is at the
      last input row. */
  method VCenteredTail(inp: array<byte>, stride: int, h: int, x: int, cin: int,
                       out: array<byte>, w: int, cout: int,
                       ghost p: seq<byte>, ghost c: seq<byte>, ghost col: seq<byte>, ghost before: seq<byte>)
    requires inp != out
    requires 0 <= x < w && 1 <= stride && 3 <= h
    requires cin == (h - 1) * stride + x && cin - stride == (h - 2) * stride + x
    requires cin - 2 * stride == (h - 3) * stride + x && 0 <= cin - 2 * stride && cin < inp.Length
    requires cout == x + (2 * h - 3) * w && cout + w == x + (2 * h - 2) * w
    requires cout + 2 * w == x + (2 * h - 1) * w && cout + 2 * w < out.Length
    requires p == inp[..] && c == ColumnLine(p, stride, h, x)
    requires |col| == 2 * h && forall Y :: 0 <= Y < 2 * h ==> col[Y] == Centered(c, h, Y)
    requires ColumnHolds(out[..], before, x, w, 2 * h - 3, col)
    modifies out
    ensures ColumnHolds(out[..], before, x, w, 2 * h, col)
  {
    var s1, s2 := stride, 2 * stride;
    ColumnAt(p, stride, h, x, h - 1, cin);
    ColumnAt(p, stride, h, x, h - 2, cin - s1);
    ColumnAt(p, stride, h, x, h - 3, cin - s2);
    var a, b, d := inp[cin] as int, inp[cin - s1] as int, inp[cin - s2] as int;
    CenteredTail(c, h, a, b, d);
    ColumnPut(out, x, w, 2 * h - 3, cout, CF(28 * a + 109 * b - 9 * d), col, before);
    ColumnPut(out, x, w, 2 * h - 2, cout + w, CF(104 * a + 27 * b - 3 * d), col, before);
    ColumnPut(out, x, w, 2 * h - 1, cout + 2 * w, CF(139 * a - 11 * b), col, before);
  }

  /** One output column of `ujUpsampleVCoSited`. */
  method VCoSitedColumn(inp: array<byte>, stride: int, h: int, x: int, out: array<byte>, w: int)
    requires inp != out
    requires 0 <= x < w <= stride && 3 <= h && stride * h <= inp.Length && out.Length == 2 * h * w
    modifies out
    ensures forall j :: 0 <= j < out.Length ==>
      out[j] == if j % w == x then VCoSited(inp[..], stride, h, j / w, x) else old(out[j])
  {
    ghost var p := inp[..];
    ghost var c := ColumnLine(p, stride, h, x);
    ghost var col := seq(2 * h, Y => VCoSited(p, stride, h, Y, x));
    ghost var before := out[..];
    assert forall Y :: 0 <= Y < 2 * h ==> col[Y] == VCoSited(p, stride, h, Y, x);
    ColumnEmpty(before, x, w, col);
    VCoSitedFill(inp, stride, h, x, out, w, p, c, col, before);
    forall j | 0 <= j < out.Length
      ensures out[j] == if j % w == x then VCoSited(p, stride, h, j / w, x) else before[j]
    {
      ColumnFinished(out[..], before, x, w, 2 * h, col, j);
    }
  }

  /** Fills output column `x` of `ujUpsampleVCoSited`: head, inner pairs, tail. */
  method VCoSitedFill(inp: array<byte>, stride: int, h: int, x: int, out: array<byte>, w: int,
                       ghost p: seq<byte>, ghost c: seq<byte>, ghost col: seq<byte>, ghost before: seq<byte>)
    requires inp != out
    requires 0 <= x < w <= stride && 3 <= h && stride * h <= inp.Length && out.Length == 2 * h * w
    requires p == inp[..] && c == ColumnLine(p, stride, h, x)
    requires |col| == 2 * h && forall Y :: 0 <= Y < 2 * h ==> col[Y] == VCoSited(p, stride, h, Y, x)
    requires ColumnHolds(out[..], before, x, w, 0, col)
    modifies out
    ensures ColumnHolds(out[..], before, x, w, 2 * h, col)
  {
    assert x + 2 * stride < inp.Length && x + 2 * w < out.Length by {
      InPlane(2, h, stride, x);
      InPlane(2, 2 * h, w, x);
    }
    VCoSitedHead(inp, stride, h, x, out, w, p, c, col, before);
    var cin, cout := x + stride, x + 3 * w;
    var i := 0;
    while i < h - 3
      invariant 0 <= i <= h - 3
      invariant cin == (i + 1) * stride + x && cout == x + (2 * i + 3) * w
      invariant ColumnHolds(out[..], before, x, w, 2 * i + 3, col)
    {
      assert cin - stride == i * stride + x && cin + stride == (i + 2) * stride + x &&
        cin + 2 * stride == (i + 3) * stride + x && 0 <= cin - stride && cin + 2 * stride < inp.Length by {
        RowSteps(i, stride);
        InPlane(i, h, stride, x);
        InPlane(i + 3, h, stride, x);
      }
      assert cout + w == x + (2 * i + 4) * w && cout + 2 * w == x + (2 * i + 5) * w && cout + w < out.Length by {
        MulSucc(2 * i + 3, w);
        MulSucc(2 * i + 4, w);
        InPlane(2 * i + 4, 2 * h, w, x);
      }
      VCoSitedPair(inp, stride, h, x, i, cin, out, w, cout, p, c, col, before);
      cout := cout + 2 * w;
      cin := cin + stride;
      i := i + 1;
    }
    assert cin + stride == (h - 1) * stride + x && cin - stride == (h - 3) * stride + x &&
      0 <= cin - stride && cin + stride < inp.Length by {
      RowSteps(h - 3, stride);
      InPlane(h - 3, h, stride, x);
      InPlane(h - 1, h, stride, x);
    }
    assert cout + w == x + (2 * h - 2) * w && cout + 2 * w == x + (2 * h - 1) * w && cout + 2 * w < out.Length by {
      MulSucc(2 * h - 3, w);
      MulSucc(2 * h - 2, w);
      InPlane(2 * h - 1, 2 * h, w, x);
    }
    VCoSitedTail(inp, stride, h, x, cin, out, w, cout, p, c, col, before);
  }



  /** The first three samples of a co-sited output column. */
  method VCoSitedHead(inp: array<byte>, stride: int, h: int, x: int, out: array<byte>, w: int,
                      ghost p: seq<byte>, ghost c: seq<byte>, ghost col: seq<byte>, ghost before: seq<byte>)
    requires inp != out
    requires 0 <= x < w && 1 <= stride && 3 <= h && x + 2 * stride < inp.Length && x + 2 * w < out.Length
    requires p == inp[..] && c == ColumnLine(p, stride, h, x)
    requires |col| == 2 * h && forall Y :: 0 <= Y < 2 * h ==> col[Y] == VCoSited(p, stride, h, Y, x)
    requires ColumnHolds(out[..], before, x, w, 0, col)
    modifies out
    ensures ColumnHolds(out[..], before, x, w, 3, col)
  {
    var s1, s2 := stride, 2 * stride;
    ColumnAt(p, stride, h, x, 0, x);
    ColumnAt(p, stride, h, x, 1, x + s1);
    ColumnAt(p, stride, h, x, 2, x + s2);
    var a, b, d := inp[x] as int, inp[x + s1] as int, inp[x + s2] as int;
    CoSitedHead(c, h, a, b, d);
    ColumnPut(out, x, w, 0, x, inp[x], col, before);
    ColumnPut(out, x, w, 1, x + w, SF(8 * a + 9 * b - d), col, before);
    ColumnPut(out, x, w, 2, x + 2 * w, inp[x + s1], col, before);
  }

  /** Output rows `2i + 3` and `2i + 4` of a co-sited output column; `cin`
      is at input row `i + 1`. */
  method VCoSitedPair(inp: array<byte>, stride: int, h: int, x: int, i: int, cin: int,
                      out: array<byte>, w: int, cout: int,
                      ghost p: seq<byte>, ghost c: seq<byte>, ghost col: seq<byte>, ghost before: seq<byte>)
    requires inp != out
    requires 0 <= x < w && 1 <= stride && 3 <= h && 0 <= i < h - 3
    requires cin == (i + 1) * stride + x && cin - stride == i * stride + x
    requires cin + stride == (i + 2) * stride + x && cin + 2 * stride == (i + 3) * stride + x
    requires 0 <= cin - stride && cin + 2 * stride < inp.Length
    requires cout == x + (2 * i + 3) * w && cout + w == x + (2 * i + 4) * w && cout + w < out.Length
    requires p == inp[..] && c == ColumnLine(p, stride, h, x)
    requires |col| == 2 * h && forall Y :: 0 <= Y < 2 * h ==> col[Y] == VCoSited(p, stride, h, Y, x)
    requires ColumnHolds(out[..], before, x, w, 2 * i + 3, col)
    modifies out
    ensures ColumnHolds(out[..], before, x, w, 2 * i + 5, col)
  {
    var s1, s2 := stride, 2 * stride;
    ColumnQuad(p, stride, h, x, i, cin);
    var a, b, e, d := inp[cin - s1] as int, inp[cin] as int, inp[cin + s1] as int, inp[cin + s2] as int;
    CoSitedPair(c, h, i + 2, a, b, e, d);
    ColumnPut(out, x, w, 2 * i + 3, cout, SF(9 * (b + e) - (a + d)), col, before);
    ColumnPut(out, x, w, 2 * i + 4, cout + w, inp[cin + s1], col, before);
  }

  /** The last three samples of a co-sited output column; `cin` is at input
      row `h - 2`, and output row `2h - 2` copies input row `h - 3`. */
  method VCoSitedTail(inp: array<byte>, stride: int, h: int, x: int, cin: int,
                      out: array<byte>, w: int, cout: int,
                      ghost p: seq<byte>, ghost c: seq<byte>, ghost col: seq<byte>, ghost before: seq<byte>)
    requires inp != out
    requires 0 <= x < w && 1 <= stride && 3 <= h
    requires cin + stride == (h - 1) * stride + x && cin == (h - 2) * stride + x
    requires cin - stride == (h - 3) * stride + x && 0 <= cin - stride && cin + stride < inp.Length
    requires cout == x + (2 * h - 3) * w && cout + w == x + (2 * h - 2) * w
    requires cout + 2 * w == x + (2 * h - 1) * w && cout + 2 * w < out.Length
    requires p == inp[..] && c == ColumnLine(p, stride, h, x)
    requires |col| == 2 * h && forall Y :: 0 <= Y < 2 * h ==> col[Y] == VCoSited(p, stride, h, Y, x)
    requires ColumnHolds(out[..], before, x, w, 2 * h - 3, col)
    modifies out
    ensures ColumnHolds(out[..], before, x, w, 2 * h, col)
  {
    var s1 := stride;
    ColumnAt(p, stride, h, x, h - 1, cin + s1);
    ColumnAt(p, stride, h, x, h - 2, cin);
    ColumnAt(p, stride, h, x, h - 3, cin - s1);
    var a, b, d := inp[cin + s1] as int, inp[cin] as int, inp[cin - s1] as int;
    CoSitedTail(c, h, a, b, d);
    ColumnPut(out, x, w, 2 * h - 3, cout, SF(8 * a + 9 * b - d), col, before);
    ColumnPut(out, x, w, 2 * h - 2, cout + w, inp[cin - s1], col, before);
    ColumnPut(out, x, w, 2 * h - 1, cout + 2 * w, SF(17 * a - b), col, before);
  }

  /** One output row `y` of `ujUpsampleFast`: each input sample of row
      `y >> ys` repeated `1 << xs` times. */
  method FastRow(inp: array<byte>, s: int, w: int, h: int, xs: nat, ys: nat, y: int,
                 out: array<byte>, w2: int, ghost p: seq<byte>)
    requires inp != out && p == inp[..]
    requires 1 <= w <= s && 1 <= h && s * h <= inp.Length
    requires w2 == w * Pow2(xs) && 0 <= y < h * Pow2(ys) && (y + 1) * w2 <= out.Length
    modifies out
    ensures forall j :: 0 <= j < out.Length ==>
      out[j] == if y * w2 <= j < y * w2 + w2 then FastSample(p, s, xs, ys, w2, j) else old(out[j])
  {
    MulAtLeast(w, Pow2(xs));
    MulSucc(y, w2);
    InPlane(y, y + 1, w2, 0);
    DivBelow(y, h, Pow2(ys));
    InPlane(y / Pow2(ys), h, s, 0);
    var lin, lout, d := (y / Pow2(ys)) * s, y * w2, Pow2(xs);
    ghost var row := seq(w2, X => At(p, lin + X / d));
    ghost var before := out[..];
    var x := 0;
    while x < w2
      invariant 0 <= x <= w2
      invariant RowHolds(out[..], before, lout, x, row)
    {
      DivBelow(x, w, d);
      RowPut(out, lout, x, inp[lin + x / d], row, before);
      x := x + 1;
    }
    forall j | 0 <= j < out.Length
      ensures out[j] == if lout <= j < lout + w2 then FastSample(p, s, xs, ys, w2, j) else before[j]
    {
      RowFinished(out[..], before, lout, w2, row, j);
      if lout <= j < lout + w2 {
        RowOf(j, y, w2);
      }
    }
  }

  /** The plane of `ujUpsampleFast`, `w2 = w << xs` by `h2 = h << ys`. */
  method FastPlane(inp: array<byte>, s: int, w: int, h: int, xs: nat, ys: nat, w2: int, h2: int)
    returns (out: array<byte>)
    requires 1 <= w <= s && 1 <= h && s * h <= inp.Length
    requires w2 == w * Pow2(xs) && h2 == h * Pow2(ys)
    ensures fresh(out) && out.Length == w2 * h2
    ensures forall j :: 0 <= j < out.Length ==> out[j] == FastSample(inp[..], s, xs, ys, w2, j)
  {
    MulAtLeast(w, Pow2(xs));
    MulAtLeast(h, Pow2(ys));
    ghost var p := inp[..];
    out := new byte[w2 * h2];
    assert w2 * h2 == h2 * w2;
    var y := 0;
    while y < h2
      invariant 0 <= y <= h2 && inp[..] == p
      invariant y * w2 <= out.Length
      invariant forall j :: 0 <= j < y * w2 ==> out[j] == FastSample(p, s, xs, ys, w2, j)
    {
      InPlane(y, h2, w2, 0);
      MulSucc(y, w2);
      FastRow(inp, s, w, h, xs, ys, y, out, w2, p);
      y := y + 1;
    }
  }


  /** Output row `y` of `ujUpsampleHCentered`, placed at `y * (2 * w)`. */
  method HCenteredRowAt(inp: array<byte>, w: int, h: int, s: int, y: int, out: array<byte>, ghost p: seq<byte>)
    requires inp != out && p == inp[..]
    requires 3 <= w <= s && 0 <= y < h && s * h <= inp.Length && h * (2 * w) == out.Length
    modifies out
    ensures forall j :: 0 <= j < out.Length ==>
      out[j] == if y * (2 * w) <= j < y * (2 * w) + 2 * w then HCentered(p, w, (j / (2 * w)) * s, s, j % (2 * w))
        else old(out[j])
  {
    InPlane(y, h, s, 0);
    InPlane(y, h, 2 * w, 0);
    var lin, lout := y * s, y * (2 * w);
    HCenteredRow(inp, w, lin, s, out, lout);
    forall j | lout <= j < lout + 2 * w
      ensures j / (2 * w) == y && j % (2 * w) == j - lout
    {
      RowOf(j, y, 2 * w);
    }
  }

  /** The output plane of `ujUpsampleHCentered`: `h` rows of `2 * w` samples,
      output row `y` filtered from the input row at `y * s`. */
  method HCenteredPlane(inp: array<byte>, w: int, h: int, s: int) returns (out: array<byte>)
    requires 3 <= w <= s && 1 <= h && s * h <= inp.Length
    ensures fresh(out) && out.Length == (2 * w) * h
    ensures forall j :: 0 <= j < out.Length ==> out[j] == HCentered(inp[..], w, (j / (2 * w)) * s, s, j % (2 * w))
  {
    ghost var p := inp[..];
    out := new byte[(2 * w) * h];
    assert (2 * w) * h == h * (2 * w);
    var y := 0;
    while y < h
      invariant 0 <= y <= h && inp[..] == p
      invariant y * (2 * w) <= out.Length
      invariant forall j :: 0 <= j < y * (2 * w) ==> out[j] == HCentered(p, w, (j / (2 * w)) * s, s, j % (2 * w))
    {
      InPlane(y, h, 2 * w, 0);
      MulSucc(y, 2 * w);
      HCenteredRowAt(inp, w, h, s, y, out, p);
      y := y + 1;
    }
  }

  /** Output row `y` of `ujUpsampleHCoSited`, placed at `y * (2 * w)`. */
  method HCoSitedRowAt(inp: array<byte>, w: int, h: int, s: int, y: int, out: array<byte>, ghost p: seq<byte>)
    requires inp != out && p == inp[..]
    requires 3 <= w <= s && 0 <= y < h && s * h <= inp.Length && h * (2 * w) == out.Length
    modifies out
    ensures forall j :: 0 <= j < out.Length ==>
      out[j] == if y * (2 * w) <= j < y * (2 * w) + 2 * w then HCoSited(p, w, (j / (2 * w)) * s, s, j % (2 * w))
        else old(out[j])
  {
    InPlane(y, h, s, 0);
    InPlane(y, h, 2 * w, 0);
    var lin, lout := y * s, y * (2 * w);
    HCoSitedRow(inp, w, lin, s, out, lout);
    forall j | lout <= j < lout + 2 * w
      ensures j / (2 * w) == y && j % (2 * w) == j - lout
    {
      RowOf(j, y, 2 * w);
    }
  }

  /** The output plane of `ujUpsampleHCoSited`: `h` rows of `2 * w` samples,
      output row `y` filtered from the input row at `y * s`. */
  method HCoSitedPlane(inp: array<byte>, w: int, h: int, s: int) returns (out: array<byte>)
    requires 3 <= w <= s && 1 <= h && s * h <= inp.Length
    ensures fresh(out) && out.Length == (2 * w) * h
    ensures forall j :: 0 <= j < out.Length ==> out[j] == HCoSited(inp[..], w, (j / (2 * w)) * s, s, j % (2 * w))
  {
    ghost var p := inp[..];
    out := new byte[(2 * w) * h];
    assert (2 * w) * h == h * (2 * w);
    var y := 0;
    while y < h
      invariant 0 <= y <= h && inp[..] == p
      invariant y * (2 * w) <= out.Length
      invariant forall j :: 0 <= j < y * (2 * w) ==> out[j] == HCoSited(p, w, (j / (2 * w)) * s, s, j % (2 * w))
    {
      InPlane(y, h, 2 * w, 0);
      MulSucc(y, 2 * w);
      HCoSitedRowAt(inp, w, h, s, y, out, p);
      y := y + 1;
    }
  }

  /** `ujComponent`: one colour plane and the per-component state of the
      decoder. A plane of length 0 stands for the `NULL` plane of a
      component that has no plane. */
  class Component {
    var cid: int
    var ssx: int
    var ssy: int
    var width: int
    var height: int
    var stride: int
    var qtsel: int
    var actabsel: int
    var dctabsel: int
    var dcpred: int
    var pixels: array<byte>

    /** A zeroed component, as `memset` leaves it. */
    constructor ()
      ensures cid == 0 && ssx == 0 && ssy == 0 && width == 0 && height == 0 && stride == 0
      ensures qtsel == 0 && actabsel == 0 && dctabsel == 0 && dcpred == 0
      ensures pixels.Length == 0 && fresh(pixels)
    {
      cid, ssx, ssy, width, height, stride := 0, 0, 0, 0, 0, 0;
      qtsel, actabsel, dctabsel, dcpred := 0, 0, 0, 0;
      pixels := new byte[0];
    }

    /** The component as `ujInit` leaves it: its plane released and every
        field zero. */
    method Reset()
      modifies this
      ensures cid == 0 && ssx == 0 && ssy == 0 && width == 0 && height == 0 && stride == 0
      ensures qtsel == 0 && actabsel == 0 && dctabsel == 0 && dcpred == 0
      ensures pixels.Length == 0 && fresh(pixels)
    {
      cid, ssx, ssy, width, height, stride := 0, 0, 0, 0, 0, 0;
      qtsel, actabsel, dctabsel, dcpred := 0, 0, 0, 0;
      pixels := new byte[0];
    }

    /** The fields that only the segment parsers and the scan change. */
    function Header(): (int, int, int, int, int, int, int)
      reads this
    {
      (cid, ssx, ssy, qtsel, actabsel, dctabsel, dcpred)
    }

    /** A plane at least one sample wide and high whose rows fit its array. */
    predicate Shape()
      reads this`width, this`height, this`stride, this`pixels
    {
      1 <= width <= stride && 1 <= height && stride * height <= pixels.Length
    }

    /** `ujUpsampleHCentered`: double the width with the centred filter. */
    method UpsampleHCentered()
      requires Shape() && 3 <= width
      modifies this
      ensures width == 2 * old(width) && stride == width && height == old(height) && Header() == old(Header())
      ensures fresh(pixels) && pixels.Length == width * height && Shape()
      ensures forall j :: 0 <= j < pixels.Length ==>
        pixels[j] == HCentered(old(pixels[..]), old(width), (j / width) * old(stride), old(stride), j % width)
    {
      var out := HCenteredPlane(pixels, width, height, stride);
      width, stride, pixels := 2 * width, 2 * width, out;
    }

    /** `ujUpsampleHCoSited`: double the width with the co-sited filter. */
    method UpsampleHCoSited()
      requires Shape() && 3 <= width
      modifies this
      ensures width == 2 * old(width) && stride == width && height == old(height) && Header() == old(Header())
      ensures fresh(pixels) && pixels.Length == width * height && Shape()
      ensures forall j :: 0 <= j < pixels.Length ==>
        pixels[j] == HCoSited(old(pixels[..]), old(width), (j / width) * old(stride), old(stride), j % width)
    {
      var out := HCoSitedPlane(pixels, width, height, stride);
      width, stride, pixels := 2 * width, 2 * width, out;
    }

    /** `ujUpsampleVCentered`: double the height with the centred filter. */
    method UpsampleVCentered()
      requires Shape() && 3 <= height
      modifies this
      ensures height == 2 * old(height) && width == old(width) && stride == width && Header() == old(Header())
      ensures fresh(pixels) && pixels.Length == width * height && Shape()
      ensures forall j :: 0 <= j < pixels.Length ==>
        pixels[j] == VCentered(old(pixels[..]), old(stride), old(height), j / width, j % width)
    {
      var w, h, s, inp := width, height, stride, pixels;
      var out := new byte[(w * h) * 2];
      assert (w * h) * 2 == 2 * h * w;
      var x := 0;
      while x < w
        invariant 0 <= x <= w
        modifies out
        invariant forall j :: 0 <= j < out.Length && j % w < x ==> out[j] == VCentered(inp[..], s, h, j / w, j % w)
      {
        VCenteredColumn(inp, s, h, x, out, w);
        x := x + 1;
      }
      height, stride, pixels := 2 * h, w, out;
    }

    /** `ujUpsampleVCoSited`: double the height with the co-sited filter. */
    method UpsampleVCoSited()
      requires Shape() && 3 <= height
      modifies this
      ensures height == 2 * old(height) && width == old(width) && stride == width && Header() == old(Header())
      ensures fresh(pixels) && pixels.Length == width * height && Shape()
      ensures forall j :: 0 <= j < pixels.Length ==>
        pixels[j] == VCoSited(old(pixels[..]), old(stride), old(height), j / width, j % width)
    {
      var w, h, s, inp := width, height, stride, pixels;
      var out := new byte[(w * h) * 2];
      assert (w * h) * 2 == 2 * h * w;
      var x := 0;
      while x < w
        invariant 0 <= x <= w
        modifies out
        invariant forall j :: 0 <= j < out.Length && j % w < x ==> out[j] == VCoSited(inp[..], s, h, j / w, j % w)
      {
        VCoSitedColumn(inp, s, h, x, out, w);
        x := x + 1;
      }
      height, stride, pixels := 2 * h, w, out;
    }

    /** `ujUpsampleFast`: replicate samples until the plane covers the image.
        When it already does, nothing changes. */
    method UpsampleFast(imageWidth: int, imageHeight: int)
      requires Shape()
      modifies this
      ensures Header() == old(Header()) && Shape()
      ensures width == Grown(old(width), imageWidth) && height == Grown(old(height), imageHeight)
      ensures width == old(width) && height == old(height) ==> pixels == old(pixels) && stride == old(stride)
      ensures width != old(width) || height != old(height) ==>
        fresh(pixels) && stride == width && pixels.Length == width * height &&
        forall j :: 0 <= j < pixels.Length ==>
          pixels[j] == FastSample(old(pixels[..]), old(stride), Doublings(old(width), imageWidth),
                                  Doublings(old(height), imageHeight), width, j)
    {
      var w, h, s, inp := width, height, stride, pixels;
      var nw, xshift := Widen(w, imageWidth);
      var nh, yshift := Widen(h, imageHeight);
      GrownIsDoubling(w, imageWidth);
      GrownIsDoubling(h, imageHeight);
      width, height := nw, nh;
      if xshift == 0 && yshift == 0 {
        return;
      }
      var out := FastPlane(inp, s, w, h, xshift, yshift, nw, nh);
      stride, pixels := nw, out;
    }

    /** One round of the accurate branch of `ujConvert`: a horizontal pass
        when the plane is narrower than the image, then a vertical pass when
        it is lower. */
    method UpsampleStep(imageWidth: int, imageHeight: int, coSited: bool)
      requires Shape() && (width < imageWidth || height < imageHeight)
      requires width < imageWidth ==> width >= 3
      requires height < imageHeight ==> height >= 3
      modifies this
      ensures Shape() && Header() == old(Header()) && fresh(pixels)
      ensures width == if old(width) < imageWidth then 2 * old(width) else old(width)
      ensures height == if old(height) < imageHeight then 2 * old(height) else old(height)
    {
      if width < imageWidth {
        if coSited {
          UpsampleHCoSited();
        } else {
          UpsampleHCentered();
        }
      }
      if height < imageHeight {
        if coSited {
          UpsampleVCoSited();
        } else {
          UpsampleVCentered();
        }
      }
    }

    /** The accurate branch of `ujConvert` for one plane: alternate
        horizontal and vertical passes until the plane covers the image. */
    method UpsampleAccurate(imageWidth: int, imageHeight: int, coSited: bool)
      requires Shape()
      requires width < imageWidth ==> width >= 3
      requires height < imageHeight ==> height >= 3
      modifies this
      ensures Header() == old(Header()) && Shape()
      ensures width == Grown(old(width), imageWidth) && height == Grown(old(height), imageHeight)
      ensures width == old(width) && height == old(height) ==> pixels == old(pixels) && stride == old(stride)
      ensures pixels == old(pixels) || fresh(pixels)
    {
      while width < imageWidth || height < imageHeight
        invariant Shape() && Header() == old(Header())
        invariant width < imageWidth ==> width >= 3
        invariant height < imageHeight ==> height >= 3
        invariant width >= old(width) && height >= old(height)
        invariant Grown(width, imageWidth) == Grown(old(width), imageWidth)
        invariant Grown(height, imageHeight) == Grown(old(height), imageHeight)
        invariant width == old(width) && height == old(height) ==> pixels == old(pixels) && stride == old(stride)
        invariant pixels == old(pixels) || fresh(pixels)
        decreases (if width < imageWidth then imageWidth - width else 0) + (if height < imageHeight then imageHeight - height else 0)
      {
        UpsampleStep(imageWidth, imageHeight, coSited);
      }
    }
  }

  /** Every filter keeps a flat line flat: the taps of each filter add up
      to its divisor, so a line of one value `v` upsamples to `v` again. */
  lemma FiltersKeepFlatLines(s: seq<byte>, v: byte, n: int, X: int)
    requires 3 <= n <= |s|
    requires forall i :: 0 <= i < |s| ==> s[i] == v
    requires 0 <= X < 2 * n
    ensures Centered(s, n, X) == v && CoSited(s, n, X) == v
  {
    FlatSums(s, v, n, X);
    DivModUnique(128 * v + 64, 128, v, 64);
    DivModUnique(16 * v + 8, 16, v, 8);
  }

  /** On a flat line the centred taps sum to 128 times the value and the
      co-sited interpolation taps to 16 times, and every copy is the value. */
  lemma FlatSums(s: seq<byte>, v: byte, n: int, X: int)
    requires 3 <= n <= |s|
    requires forall i :: 0 <= i < |s| ==> s[i] == v
    requires 0 <= X < 2 * n
    ensures CenteredSum(s, n, X) == 128 * v
    ensures CoSited(s, n, X) == v || (CoSited(s, n, X) == SF(CoSitedSum(s, n, X)) && CoSitedSum(s, n, X) == 16 * v)
  {
    var m := |s|;
    assert At(s, 0) == v && At(s, 1) == v && At(s, 2) == v;
    assert At(s, m - 1) == v && At(s, m - 2) == v && At(s, m - 3) == v;
    if 3 <= X < 2 * n - 3 {
      var x := if X % 2 == 1 then (X - 3) / 2 else (X - 4) / 2;
      assert At(s, x) == v && At(s, x + 1) == v && At(s, x + 2) == v && At(s, x + 3) == v;
      CenteredInner(s, n, x);
      CoSitedInner(s, n, x + 2);
    }
  }

  /** A flat plane stays flat under all four passes, on every row and
      every column. */
  lemma FiltersKeepFlatPlanes(p: seq<byte>, v: byte, w: int, h: int, stride: int, lin: int, x: int, X: int, Y: int)
    requires 3 <= w <= stride && 3 <= h && stride * h <= |p|
    requires forall i :: 0 <= i < |p| ==> p[i] == v
    requires 0 <= lin && lin + stride <= |p| && 0 <= X < 2 * w
    requires 0 <= x < w && 0 <= Y < 2 * h
    ensures HCentered(p, w, lin, stride, X) == v && HCoSited(p, w, lin, stride, X) == v
    ensures VCentered(p, stride, h, Y, x) == v && VCoSited(p, stride, h, Y, x) == v
  {
    var r := Line(p, lin, stride);
    FiltersKeepFlatLines(r, v, w, X);
    var c := ColumnLine(p, stride, h, x);
    forall k | 0 <= k < h
      ensures c[k] == v
    {
      InPlane(k, h, stride, x);
    }
    FiltersKeepFlatLines(c, v, h, Y);
  }

  /** The co-sited horizontal pass keeps every input sample: output sample
      `2x` of a row is input sample `x`, for every `x` but the last, and for
      the last too when the rows are packed (stride equal to width). */
  lemma HCoSitedKeepsSamples(p: seq<byte>, w: int, lin: int, stride: int, x: int)
    requires 3 <= w <= stride && 0 <= x < w
    requires x == w - 1 ==> stride == w
    ensures HCoSited(p, w, lin, stride, 2 * x) == At(p, lin + x)
  {
    if 2 <= x < w - 1 {
      CoSitedInner(Line(p, lin, stride), w, x);
    }
  }

  /** The co-sited vertical pass keeps every input row but the last at the
      even output rows; output row `2h - 2` repeats input row `h - 3`. */
  lemma VCoSitedKeepsRows(p: seq<byte>, stride: int, h: int, r: int, x: int)
    requires 3 <= h && 0 <= r < h - 1
    ensures VCoSited(p, stride, h, 2 * r, x) == Px(p, stride, r, x)
    ensures VCoSited(p, stride, h, 2 * h - 2, x) == Px(p, stride, h - 3, x)
  {
    if 2 <= r {
      CoSitedInner(ColumnLine(p, stride, h, x), h, r);
    }
  }
}

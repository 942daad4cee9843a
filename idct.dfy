/** The fixed-point inverse DCT of uJPEG (`ujRowIDCT`, `ujColIDCT`): a row
    pass over the coefficient block in place, then a column pass that writes
    clamped samples into a plane. The functions are the full butterflies; the
    methods are the C routines with their all-AC-zero shortcuts. An
    arithmetic right shift `x >> k` is the floor division `x / 2^k`. */
module Idct {
  import opened Common

  const W1: int := 2841
  const W2: int := 2676
  const W3: int := 2408
  const W5: int := 1609
  const W6: int := 1108
  const W7: int := 565

  /** The butterfly of `ujRowIDCT` on one row of eight coefficients. */
  function RowIdct(b: seq<int>): (r: seq<int>)
    requires |b| == 8
    ensures |r| == 8
  {
    var x0 := b[0] * 2048 + 128;
    var x1 := b[4] * 2048;
    var x2, x3, x4, x5, x6, x7 := b[6], b[2], b[1], b[7], b[5], b[3];
    var x8 := W7 * (x4 + x5);
    var x4 := x8 + (W1 - W7) * x4;
    var x5 := x8 - (W1 + W7) * x5;
    var x8 := W3 * (x6 + x7);
    var x6 := x8 - (W3 - W5) * x6;
    var x7 := x8 - (W3 + W5) * x7;
    var x8 := x0 + x1;
    var x0 := x0 - x1;
    var x1 := W6 * (x3 + x2);
    var x2 := x1 - (W2 + W6) * x2;
    var x3 := x1 + (W2 - W6) * x3;
    var x1 := x4 + x6;
    var x4 := x4 - x6;
    var x6 := x5 + x7;
    var x5 := x5 - x7;
    var x7 := x8 + x3;
    var x8 := x8 - x3;
    var x3 := x0 + x2;
    var x0 := x0 - x2;
    var x2 := (181 * (x4 + x5) + 128) / 256;
    var x4 := (181 * (x4 - x5) + 128) / 256;
    [(x7 + x1) / 256, (x3 + x2) / 256, (x0 + x4) / 256, (x8 + x6) / 256,
     (x8 - x6) / 256, (x0 - x4) / 256, (x3 - x2) / 256, (x7 - x1) / 256]
  }

  /** The butterfly of `ujColIDCT` on one column of row-transformed values:
      the eight values, top to bottom, before the level shift and clamp. */
  function ColIdct(b: seq<int>): (r: seq<int>)
    requires |b| == 8
    ensures |r| == 8
  {
    var x0 := b[0] * 256 + 8192;
    var x1 := b[4] * 256;
    var x2, x3, x4, x5, x6, x7 := b[6], b[2], b[1], b[7], b[5], b[3];
    var x8 := W7 * (x4 + x5) + 4;
    var x4 := (x8 + (W1 - W7) * x4) / 8;
    var x5 := (x8 - (W1 + W7) * x5) / 8;
    var x8 := W3 * (x6 + x7) + 4;
    var x6 := (x8 - (W3 - W5) * x6) / 8;
    var x7 := (x8 - (W3 + W5) * x7) / 8;
    var x8 := x0 + x1;
    var x0 := x0 - x1;
    var x1 := W6 * (x3 + x2) + 4;
    var x2 := (x1 - (W2 + W6) * x2) / 8;
    var x3 := (x1 + (W2 - W6) * x3) / 8;
    var x1 := x4 + x6;
    var x4 := x4 - x6;
    var x6 := x5 + x7;
    var x5 := x5 - x7;
    var x7 := x8 + x3;
    var x8 := x8 - x3;
    var x3 := x0 + x2;
    var x0 := x0 - x2;
    var x2 := (181 * (x4 + x5) + 128) / 256;
    var x4 := (181 * (x4 - x5) + 128) / 256;
    [(x7 + x1) / 16384, (x3 + x2) / 16384, (x0 + x4) / 16384, (x8 + x6) / 16384,
     (x8 - x6) / 16384, (x0 - x4) / 16384, (x3 - x2) / 16384, (x7 - x1) / 16384]
  }

  /** The samples `ujColIDCT` stores: each value shifted up by 128 and
      clamped to a byte. */
  function Samples(v: seq<int>): (s: seq<byte>)
    ensures |s| == |v| && forall i :: 0 <= i < |v| ==> s[i] == Clip(v[i] + 128)
  {
    seq(|v|, i requires 0 <= i < |v| => Clip(v[i] + 128))
  }

  /** No AC coefficient in a row or column: the condition of both shortcuts. */
  predicate AcFree(b: seq<int>)
    requires |b| == 8
  {
    b[1] == 0 && b[2] == 0 && b[3] == 0 && b[4] == 0 && b[5] == 0 && b[6] == 0 && b[7] == 0
  }

  /** The row shortcut equals the butterfly: a row without AC coefficients
      becomes eight copies of `blk[0] << 3`. */
  lemma RowShortcut(b: seq<int>)
    requires |b| == 8 && AcFree(b)
    ensures RowIdct(b) == seq(8, _ => b[0] * 8)
  {
    var x0 := b[0] * 2048 + 128;
    DivModUnique(x0, 256, b[0] * 8, 128);
  }

  /** The column shortcut equals the butterfly: a column without AC values
      becomes eight copies of `(blk[0] + 32) >> 6`, hence eight samples
      `clip(((blk[0] + 32) >> 6) + 128)`. */
  lemma ColShortcut(b: seq<int>)
    requires |b| == 8 && AcFree(b)
    ensures ColIdct(b) == seq(8, _ => (b[0] + 32) / 64)
  {
    var x0 := b[0] * 256 + 8192;
    assert x0 == (b[0] + 32) * 256;
    var q := (b[0] + 32) / 64;
    var m := (b[0] + 32) % 64;
    DivModUnique(x0, 16384, q, m * 256);
    assert (4 - 0) / 8 == 0 && (4 + 0) / 8 == 0 && 128 / 256 == 0;
  }

  /** The column shortcut after level shift and clipping: eight copies of
      one sample. */
  lemma ColShortcutSamples(b: seq<int>)
    requires |b| == 8 && AcFree(b)
    ensures var v := Clip((b[0] + 32) / 64 + 128);
      Samples(ColIdct(b)) == [v, v, v, v, v, v, v, v]
  {
    ColShortcut(b);
  }

  /** Row `r` (0..7) of a block stored row-major in 64 values. */
  function Row(blk: seq<int>, r: int): (s: seq<int>)
    requires |blk| == 64 && 0 <= r < 8
    ensures |s| == 8
  {
    blk[8 * r .. 8 * r + 8]
  }

  /** Column `c` (0..7) of a block stored row-major in 64 values. */
  function Column(blk: seq<int>, c: int): (s: seq<int>)
    requires |blk| == 64 && 0 <= c < 8
    ensures |s| == 8 && forall r :: 0 <= r < 8 ==> s[r] == blk[8 * r + c]
  {
    seq(8, r requires 0 <= r < 8 => blk[8 * r + c])
  }

  /** The block after the row pass. */
  function RowPass(blk: seq<int>): (t: seq<int>)
    requires |blk| == 64
    ensures |t| == 64
  {
    seq(64, i requires 0 <= i < 64 => RowIdct(Row(blk, i / 8))[i % 8])
  }

  /** The sample the column pass puts at row `r` of column `c` of a tile,
      from a block that has been through the row pass. */
  function ColumnPixel(t: seq<int>, r: int, c: int): byte
    requires |t| == 64 && 0 <= r < 8 && 0 <= c < 8
  {
    Samples(ColIdct(Column(t, c)))[r]
  }

  /** The sample the two passes put at row `r`, column `c` of a tile. */
  function TilePixel(blk: seq<int>, r: int, c: int): byte
    requires |blk| == 64 && 0 <= r < 8 && 0 <= c < 8
  {
    ColumnPixel(RowPass(blk), r, c)
  }

  lemma RowPassAt(blk: seq<int>, r: int, c: int)
    requires |blk| == 64 && 0 <= r < 8 && 0 <= c < 8
    ensures RowPass(blk)[8 * r + c] == RowIdct(Row(blk, r))[c]
  {
    var i := 8 * r + c;
    assert i / 8 == r && i % 8 == c;
  }

  /** A block whose only non-zero coefficient is DC decodes to a flat tile
      of `clip(((8 * dc + 32) >> 6) + 128)`. */
  lemma DcOnlyTile(blk: seq<int>, r: int, c: int)
    requires |blk| == 64 && 0 <= r < 8 && 0 <= c < 8
    requires forall n :: 1 <= n < 64 ==> blk[n] == 0
    ensures TilePixel(blk, r, c) == Clip((8 * blk[0] + 32) / 64 + 128)
  {
    var col := Column(RowPass(blk), c);
    DcOnlyColumn(blk, c);
    ColShortcut(col);
  }

  /** After the row pass, every column of a DC-only block holds `8 * dc`
      on top and zeros below. */
  lemma DcOnlyColumn(blk: seq<int>, c: int)
    requires |blk| == 64 && 0 <= c < 8
    requires forall n :: 1 <= n < 64 ==> blk[n] == 0
    ensures Column(RowPass(blk), c)[0] == 8 * blk[0] && AcFree(Column(RowPass(blk), c))
  {
    var col := Column(RowPass(blk), c);
    forall i | 0 <= i < 8
      ensures col[i] == (if i == 0 then 8 * blk[0] else 0)
    {
      DcOnlyRow(blk, i, c);
    }
  }

  lemma DcOnlyRow(blk: seq<int>, i: int, c: int)
    requires |blk| == 64 && 0 <= i < 8 && 0 <= c < 8
    requires forall n :: 1 <= n < 64 ==> blk[n] == 0
    ensures RowPass(blk)[8 * i + c] == (if i == 0 then 8 * blk[0] else 0)
  {
    RowPassAt(blk, i, c);
    DcOnlyRowShape(blk, i);
    RowShortcut(Row(blk, i));
  }

  lemma DcOnlyRowShape(blk: seq<int>, i: int)
    requires |blk| == 64 && 0 <= i < 8
    requires forall n :: 1 <= n < 64 ==> blk[n] == 0
    ensures AcFree(Row(blk, i)) && Row(blk, i)[0] == (if i == 0 then blk[0] else 0)
  {
  }

  /** `ujRowIDCT`: the row pass over `blk[off .. off + 8]`, in place. A row
      without AC coefficients takes the shortcut; any other row the full
      butterfly. */
  method RowIDCT(blk: array<int>, off: int)
    requires 0 <= off && off + 8 <= blk.Length
    modifies blk
    ensures blk[off .. off + 8] == RowIdct(old(blk[off .. off + 8]))
    ensures forall i :: 0 <= i < blk.Length && !(off <= i < off + 8) ==> blk[i] == old(blk[i])
  {
    var b := blk[off .. off + 8];
    var r: seq<int>;
    if blk[off + 4] * 2048 == 0 && blk[off + 6] == 0 && blk[off + 2] == 0 && blk[off + 1] == 0
      && blk[off + 7] == 0 && blk[off + 5] == 0 && blk[off + 3] == 0
    {
      var v := blk[off] * 8;
      r := [v, v, v, v, v, v, v, v];
      RowShortcut(b);
    } else {
      r := RowIdct(b);
    }
    StoreRow(blk, off, r);
  }

  /** Store eight values over `blk[off .. off + 8]`. */
  method StoreRow(blk: array<int>, off: int, r: seq<int>)
    requires |r| == 8 && 0 <= off && off + 8 <= blk.Length
    modifies blk
    ensures blk[off .. off + 8] == r
    ensures forall i :: 0 <= i < blk.Length && !(off <= i < off + 8) ==> blk[i] == old(blk[i])
  {
    var n := 0;
    while n < 8
      invariant 0 <= n <= 8
      invariant forall j :: 0 <= j < n ==> blk[off + j] == r[j]
      invariant forall i :: 0 <= i < blk.Length && !(off <= i < off + n) ==> blk[i] == old(blk[i])
    {
      blk[off + n] := r[n];
      n := n + 1;
    }
    assert blk[off .. off + 8] == r;
  }

  /** `ujColIDCT`: the column pass over column `col` of the 64-value block
      `blk`, writing exactly the eight samples `out[at + r * stride]`. A
      column without AC values takes the shortcut; any other the full
      butterfly. */
  method ColIDCT(blk: array<int>, col: int, out: array<byte>, at: int, stride: int)
    requires blk.Length == 64 && 0 <= col < 8
    requires stride >= 1 && 0 <= at && at + 7 * stride < out.Length
    modifies out
    ensures ColumnWritten(out[..], old(out[..]), Samples(ColIdct(Column(blk[..], col))), at, stride)
  {
    var vals := ColumnSamples(blk, col);
    WriteColumn(out, at, stride, vals);
  }

  /** The eight samples of column `col`: the shortcut when it has no AC
      values, the full butterfly otherwise. */
  method ColumnSamples(blk: array<int>, col: int) returns (vals: seq<byte>)
    requires blk.Length == 64 && 0 <= col < 8
    ensures vals == Samples(ColIdct(Column(blk[..], col)))
  {
    ghost var s := blk[..];
    if blk[col + 32] * 256 == 0 && blk[col + 48] == 0 && blk[col + 16] == 0 && blk[col + 8] == 0
      && blk[col + 56] == 0 && blk[col + 40] == 0 && blk[col + 24] == 0
    {
      var v := Clip((blk[col] + 32) / 64 + 128);
      vals := [v, v, v, v, v, v, v, v];
      ShortcutColumn(s, col, vals);
    } else {
      vals := Samples(ColIdct(Column(blk[..], col)));
    }
  }

  /** The test `ujColIDCT` makes on the block itself selects exactly the
      columns `ColShortcutSamples` covers. */
  lemma ShortcutColumn(s: seq<int>, col: int, vals: seq<byte>)
    requires |s| == 64 && 0 <= col < 8
    requires s[col + 32] * 256 == 0 && s[col + 48] == 0 && s[col + 16] == 0 && s[col + 8] == 0
    requires s[col + 56] == 0 && s[col + 40] == 0 && s[col + 24] == 0
    requires vals == var v := Clip((s[col] + 32) / 64 + 128); [v, v, v, v, v, v, v, v]
    ensures vals == Samples(ColIdct(Column(s, col)))
  {
    ColumnAcFree(s, col);
    ColShortcutSamples(Column(s, col));
  }

  /** The same test, read on the column as a sequence of its own. */
  lemma ColumnAcFree(s: seq<int>, col: int)
    requires |s| == 64 && 0 <= col < 8
    requires s[col + 32] * 256 == 0 && s[col + 48] == 0 && s[col + 16] == 0 && s[col + 8] == 0
    requires s[col + 56] == 0 && s[col + 40] == 0 && s[col + 24] == 0
    ensures AcFree(Column(s, col)) && Column(s, col)[0] == s[col]
  {
    assert s[col + 32] == 0;
  }

  /** `o` is `before` with the eight samples `vals` stored down the column
      starting at `at`, `stride` apart, and nothing else changed. */
  ghost predicate ColumnWritten(o: seq<byte>, before: seq<byte>, vals: seq<byte>, at: int, stride: int)
    requires |vals| == 8 && stride >= 1
  {
    |o| == |before| &&
    forall i :: 0 <= i < |o| ==>
      o[i] == if OnColumn(i, at, stride, 8) then vals[(i - at) / stride] else before[i]
  }

  /** Store eight samples down a column of `out`. */
  method WriteColumn(out: array<byte>, at: int, stride: int, vals: seq<byte>)
    requires |vals| == 8
    requires stride >= 1 && 0 <= at && at + 7 * stride < out.Length
    modifies out
    ensures ColumnWritten(out[..], old(out[..]), vals, at, stride)
  {
    var n, pos := 0, at;
    while n < 8
      invariant 0 <= n <= 8 && pos == at + n * stride
      invariant forall i :: 0 <= i < out.Length ==>
        out[i] == if OnColumn(i, at, stride, n) then vals[(i - at) / stride] else old(out[i])
    {
      ColumnGrows(at, stride, n);
      MulMonotone(n, 7, stride);
      out[pos] := vals[n];
      MulSucc(n, stride);
      n, pos := n + 1, pos + stride;
    }
  }



  /** Position `i` of a plane with row pitch `stride` lies in the 8x8 tile
      whose top left sample is at `at`. */
  predicate InTile(i: int, at: int, stride: int)
    requires stride >= 8
  {
    i >= at && 0 <= (i - at) / stride < 8 && (i - at) % stride < 8
  }

  /** Column `c` of a tile, as `ujColIDCT` walks it from `at + c`, is the
      part of the tile whose column is `c`, and its step count is the row. */
  lemma TileColumn(i: int, at: int, stride: int, c: int)
    requires stride >= 8 && 0 <= c < 8
    ensures OnColumn(i, at + c, stride, 8) <==> InTile(i, at, stride) && (i - at) % stride == c
    ensures OnColumn(i, at + c, stride, 8) ==> (i - (at + c)) / stride == (i - at) / stride
  {
    var d := i - at;
    var q, r := d / stride, d % stride;
    if r >= c {
      DivModUnique(d - c, stride, q, r - c);
    } else {
      DivModUnique(d - c, stride, q - 1, r - c + stride);
    }
  }

  /** The two passes of `ujDecodeBlock`: `ujRowIDCT` on each row of the
      block in place, then `ujColIDCT` on each column into the tile at `at`
      of a plane with row pitch `stride`. Exactly the 64 tile samples
      change, and each is the `TilePixel` of the block. */
  method Transform(blk: array<int>, out: array<byte>, at: int, stride: int)
    requires blk.Length == 64 && stride >= 8 && 0 <= at && at + 7 * stride + 7 < out.Length
    modifies blk, out
    ensures blk[..] == RowPass(old(blk[..]))
    ensures Painted(out[..], old(out[..]), old(blk[..]), at, stride)
  {
    RowPasses(blk);
    ColumnPasses(blk, out, at, stride);
  }

  /** `out` is `before` with the 8x8 tile at `at` (row pitch `stride`)
      replaced by the inverse transform of `blk`, and nothing else changed. */
  ghost predicate Painted(out: seq<byte>, before: seq<byte>, blk: seq<int>, at: int, stride: int)
    requires |out| == |before| && |blk| == 64 && stride >= 8
  {
    forall i :: 0 <= i < |out| ==>
      out[i] == if InTile(i, at, stride) then TilePixel(blk, (i - at) / stride, (i - at) % stride) else before[i]
  }

  /** `ujRowIDCT` on the eight rows of the block, in place. */
  method RowPasses(blk: array<int>)
    requires blk.Length == 64
    modifies blk
    ensures blk[..] == RowPass(old(blk[..]))
  {
    var coef := 0;
    while coef < 64
      invariant 0 <= coef <= 64 && coef % 8 == 0
      invariant RowsDone(blk[..], old(blk[..]), coef)
    {
      RowStep(blk, coef, old(blk[..]));
      coef := coef + 8;
    }
    assert blk[..] == RowPass(old(blk[..]));
  }

  /** The first `n` values of `b` are those of the row pass of `b0`, the
      others those of `b0`. */
  ghost predicate RowsDone(b: seq<int>, b0: seq<int>, n: int)
  {
    |b| == 64 && |b0| == 64 &&
    (forall i :: 0 <= i < n && i < 64 ==> b[i] == RowPass(b0)[i]) &&
    (forall i :: n <= i < 64 && 0 <= i ==> b[i] == b0[i])
  }

  /** One more row of the row pass. */
  method RowStep(blk: array<int>, coef: int, ghost b0: seq<int>)
    requires blk.Length == 64 && 0 <= coef < 64 && coef % 8 == 0
    requires RowsDone(blk[..], b0, coef)
    modifies blk
    ensures RowsDone(blk[..], b0, coef + 8)
  {
    var r := coef / 8;
    assert 8 * r == coef;
    assert blk[coef .. coef + 8] == Row(b0, r);
    RowIDCT(blk, coef);
    RowLands(b0, blk[..], r);
  }

  /** A row put through `ujRowIDCT` in place holds that row of the row
      pass. */
  lemma RowLands(b0: seq<int>, b: seq<int>, r: int)
    requires |b0| == 64 && |b| == 64 && 0 <= r < 8
    requires b[8 * r .. 8 * r + 8] == RowIdct(Row(b0, r))
    ensures forall i :: 8 * r <= i < 8 * r + 8 ==> b[i] == RowPass(b0)[i]
  {
    forall i | 8 * r <= i < 8 * r + 8
      ensures b[i] == RowPass(b0)[i]
    {
      var c := i - 8 * r;
      assert i / 8 == r && i % 8 == c;
      assert b[i] == b[8 * r .. 8 * r + 8][c];
    }
  }

  /** `ujColIDCT` on the eight columns of a row-transformed block, into the
      tile at `at`. */
  method ColumnPasses(blk: array<int>, out: array<byte>, at: int, stride: int)
    requires blk.Length == 64 && stride >= 8 && 0 <= at && at + 7 * stride + 7 < out.Length
    modifies out
    ensures forall i :: 0 <= i < out.Length ==>
      out[i] == if InTile(i, at, stride) then ColumnPixel(blk[..], (i - at) / stride, (i - at) % stride) else old(out[i])
  {
    var coef := 0;
    while coef < 8
      invariant 0 <= coef <= 8
      invariant TileColumns(out[..], old(out[..]), blk[..], at, stride, coef)
    {
      ColumnPass(blk, out, at, stride, coef, old(out[..]));
      coef := coef + 1;
    }
  }

  /** The first `n` columns of the tile at `at` hold the column pass of `t`,
      and every other position its value in `o0`. */
  ghost predicate TileColumns(o: seq<byte>, o0: seq<byte>, t: seq<int>, at: int, stride: int, n: int)
    requires |t| == 64 && stride >= 8
  {
    |o| == |o0| &&
    forall i :: 0 <= i < |o| ==>
      o[i] == if InTile(i, at, stride) && (i - at) % stride < n then ColumnPixel(t, (i - at) / stride, (i - at) % stride) else o0[i]
  }

  /** Writing column `coef` of the tile extends the columns done by one. */
  lemma ColumnStep(o: seq<byte>, prev: seq<byte>, o0: seq<byte>, t: seq<int>, at: int, stride: int, coef: int)
    requires |t| == 64 && stride >= 8 && 0 <= coef < 8
    requires TileColumns(prev, o0, t, at, stride, coef)
    requires ColumnWritten(o, prev, Samples(ColIdct(Column(t, coef))), at + coef, stride)
    ensures TileColumns(o, o0, t, at, stride, coef + 1)
  {
    forall i | 0 <= i < |o|
      ensures o[i] == if InTile(i, at, stride) && (i - at) % stride < coef + 1
        then ColumnPixel(t, (i - at) / stride, (i - at) % stride) else o0[i]
    {
      TileColumn(i, at, stride, coef);
    }
  }

  method ColumnPass(blk: array<int>, out: array<byte>, at: int, stride: int, coef: int, ghost o0: seq<byte>)
    requires blk.Length == 64 && stride >= 8 && 0 <= at && at + 7 * stride + 7 < out.Length && 0 <= coef < 8
    requires TileColumns(out[..], o0, blk[..], at, stride, coef)
    modifies out
    ensures TileColumns(out[..], o0, blk[..], at, stride, coef + 1)
  {
    ghost var prev := out[..];
    ColIDCT(blk, coef, out, at + coef, stride);
    ColumnStep(out[..], prev, o0, blk[..], at, stride, coef);
  }
}

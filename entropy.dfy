/** The entropy decoding of one 8x8 block by uJPEG (`ujGetVLC` and the
    coefficient loop of `ujDecodeBlock`) as functions of the input and the
    reader state: Huffman-coded symbols looked up in a 65536-slot table,
    their additional bits read with EXTEND (section F.2.2 of ITU-T T.81),
    and AC runs placed in zig-zag order. */
module Entropy {
  import opened Common
  import opened BitStream
  import opened Huffman
  import opened ZigZag

  /** What `ujGetVLC` hands back: the coefficient value, the symbol byte it
      stores through `code` (`None` when it returns before storing one), the
      reader afterwards, and whether it raised a syntax error. */
  datatype Vlc = Vlc(value: int, code: Option<byte>, r: Reader, err: bool)

  /** The table slot the next 16 bits of the input select. */
  function Lookup(data: seq<byte>, r: Reader, row: seq<VlcCode>): VlcCode
    requires Sane(data, r) && |row| == 65536
  {
    row[Window(Fill(data, r, 16).r, 16)]
  }

  /** `ujGetVLC` with lookup row `row`: show 16 bits, take the slot they
      index; a slot of length 0 is a syntax error; otherwise skip the code's
      bits, and read the low nibble of the symbol as a count of additional
      bits. */
  function GetVlc(data: seq<byte>, r: Reader, row: seq<VlcCode>): (v: Vlc)
    requires Sane(data, r) && |row| == 65536
    ensures Sane(data, v.r)
    ensures v.code.None? <==> Lookup(data, r, row).bits == 0
    ensures v.code.None? ==> v.value == 0 && v.err
    ensures v.code.Some? ==> v.code.value == Lookup(data, r, row).code
    ensures v.code.Some? && v.code.value % 16 == 0 ==> v.value == 0
    ensures v.code.Some? && v.code.value % 16 != 0 ==> InCategory(v.value, v.code.value % 16)
  {
    var f := Fill(data, r, 16);
    var e := Lookup(data, r, row);
    if e.bits == 0 then Vlc(0, None, f.r, true)
    else
      var k := Skip(data, f.r, e.bits);
      var size := e.code % 16;
      if size == 0 then Vlc(0, Some(e.code), k.r, f.err || k.err)
      else Extended(data, k.r, e.code, f.err || k.err)
  }

  /** The value has magnitude category `s` (Table F.1 of ITU-T T.81). */
  predicate InCategory(x: int, s: nat)
    requires s >= 1
  {
    Pow2(s - 1) <= (if x < 0 then -x else x) <= Pow2(s) - 1
  }

  /** The tail of `ujGetVLC` for a symbol with a size nibble: `ujGetBits`
      of that many bits, decoded with EXTEND (Figure F.12 of ITU-T T.81). */
  function Extended(data: seq<byte>, r: Reader, code: byte, err: bool): (v: Vlc)
    requires Sane(data, r) && code % 16 != 0
    ensures Sane(data, v.r) && v.code == Some(code) && InCategory(v.value, code % 16)
    ensures err ==> v.err
  {
    var size := code % 16;
    var g := Fill(data, r, size);
    var m := Skip(data, g.r, size);
    var bits := Window(g.r, size);
    ExtendRange(bits, size);
    Vlc(Extend(bits, size), Some(code), m.r, err || g.err || m.err)
  }

  lemma DivBound(x: nat, a: nat, b: nat)
    requires a > 0 && b > 0 && x < a * b
    ensures x / a < b
  {
    var q := x / a;
    assert q * a <= x;
    if q >= b {
      MulMonotone(b, q, a);
    }
  }

  /** The top `a` of the pending bits are the top `a` bits of the top `b`. */
  lemma WindowPrefix(r: Reader, a: nat, b: nat)
    requires a <= b <= r.bufbits && r.buf < Pow2(r.bufbits)
    ensures Window(r, a) == Window(r, b) / Pow2(b - a)
  {
    var n := r.bufbits;
    Pow2Add(n - b, b - a);
    Pow2Add(b - a, a);
    Pow2Add(n - b, b);
    TopBits(r.buf, Pow2(n - b), Pow2(b - a), Pow2(a));
  }

  /** The arithmetic of `WindowPrefix`: with `P = p * q`, `B = q * s` and
      `x < p * B`, dropping the low `p` then the low `q` is dropping the low
      `P`, and neither quotient needs a remainder. */
  lemma TopBits(x: nat, p: nat, q: nat, s: nat)
    requires p > 0 && q > 0 && s > 0 && x < p * (q * s)
    ensures (x / (p * q)) % s == ((x / p) % (q * s)) / q
  {
    var y := x / p;
    DivBound(x, p, q * s);
    DivModUnique(y, q * s, 0, y);
    DivDiv(x, p, q);
    assert p * (q * s) == (p * q) * s;
    DivBound(x, p * q, s);
    var z := x / (p * q);
    DivModUnique(z, s, 0, z);
  }

  lemma QuotientSplit(w: nat, d: nat, q: nat)
    requires d > 0 && w / d == q
    ensures w == q * d + w % d
  {
  }

  /** Annex C through the lookup table: the slot that 16 bits starting with
      the canonical code of symbol `k` select holds that symbol. */
  lemma LookupDecodes(data: seq<byte>, r: Reader, es: seq<VlcCode>, prev: seq<VlcCode>, k: nat)
    requires Sane(data, r) && Canonical(es) && Used(es) <= 65536 && |prev| == 65536 && k < |es|
    requires Window(Fill(data, r, 16).r, es[k].bits) == Code(es, k)
    ensures Lookup(data, r, Installed(es, prev)) == es[k]
  {
    var f := Fill(data, r, 16);
    var w := Window(f.r, 16);
    var L := es[k].bits;
    var sp := Spread(L);
    WindowPrefix(f.r, L, 16);
    var t := w % sp;
    QuotientSplit(w, sp, Code(es, k));
    LayoutAt(es, k, t);
    Pow2Values();
    InstalledLookup(es, prev, w);
  }

  /** So when the next bits of the input are the canonical code of symbol
      `k` of a table `ujDecodeDHT` installed, `ujGetVLC` yields that symbol. */
  lemma GetVlcDecodes(data: seq<byte>, r: Reader, es: seq<VlcCode>, prev: seq<VlcCode>, k: nat)
    requires Sane(data, r) && Canonical(es) && Used(es) <= 65536 && |prev| == 65536 && k < |es|
    requires Window(Fill(data, r, 16).r, es[k].bits) == Code(es, k)
    ensures GetVlc(data, r, Installed(es, prev)).code == Some(es[k].code)
  {
    LookupDecodes(data, r, es, prev, k);
  }

  /** And an index beyond the codes of the table is rejected: the slot is
      unused, so `ujGetVLC` raises a syntax error without a symbol. */
  lemma GetVlcRejects(data: seq<byte>, r: Reader, es: seq<VlcCode>, prev: seq<VlcCode>)
    requires Sane(data, r) && Canonical(es) && Used(es) <= 65536 && |prev| == 65536
    requires Window(Fill(data, r, 16).r, 16) >= Used(es)
    ensures var v := GetVlc(data, r, Installed(es, prev));
      v.code.None? && v.err && v.value == 0
  {
    var row := Installed(es, prev);
    var w := Window(Fill(data, r, 16).r, 16);
    Pow2Values();
    InstalledLookup(es, prev, w);
    assert Lookup(data, r, row) == row[w];
    UnusedSlot(data, r, row);
  }

  lemma UnusedSlot(data: seq<byte>, r: Reader, row: seq<VlcCode>)
    requires Sane(data, r) && |row| == 65536 && Lookup(data, r, row).bits == 0
    ensures var v := GetVlc(data, r, row);
      v.code.None? && v.err && v.value == 0
  {
  }

  /** The decoded block so far: coefficients, DC predictor, reader, whether
      an error was raised, and whether `ujThrow` left `ujDecodeBlock` before
      the inverse transform. */
  datatype Coefs = Coefs(blk: seq<int>, dcpred: int, r: Reader, err: bool, thrown: bool)

  /** One round of the `do ... while (coef < 63)` loop of `ujDecodeBlock`:
      either the block is finished (`Stop`) or the loop goes on from a later
      zig-zag position. */
  datatype Round =
    | Stop(c: Coefs)
    | Again(r: Reader, code: byte, coef: int, blk: seq<int>, err: bool)

  /** The round at zig-zag position `coef` with the symbol byte `code` of the
      previous round (a failed lookup leaves it in place). Symbol 0 ends the
      block (EOB); a symbol with no size bits other than 0xF0 (a run of
      sixteen zeros) is a syntax error, and so is a run past position 63;
      otherwise the coefficient after the run is the value times its
      quantiser. */
  function AcRound(data: seq<byte>, r: Reader, row: seq<VlcCode>, q: seq<byte>, code: byte, coef: int,
                   blk: seq<int>, dcpred: int, err: bool): (s: Round)
    requires Sane(data, r) && |row| == 65536 && |q| == 64 && |blk| == 64 && 0 <= coef < 63
    ensures s.Stop? ==> Sane(data, s.c.r) && |s.c.blk| == 64 && s.c.dcpred == dcpred && (err ==> s.c.err)
    ensures s.Stop? ==> forall n :: 0 <= n < 64 && Pos(n) <= coef ==> s.c.blk[n] == blk[n]
    ensures s.Again? ==> Sane(data, s.r) && coef < s.coef < 63 && |s.blk| == 64 && (err ==> s.err)
    ensures s.Again? ==> forall n :: 0 <= n < 64 && Pos(n) <= coef ==> s.blk[n] == blk[n]
  {
    Decide(GetVlc(data, r, row), q, code, coef, blk, dcpred, err)
  }

  /** The round once its symbol `v` is read: the cursor is where the symbol
      left it, and only the position after the run can change. */
  function Decide(v: Vlc, q: seq<byte>, code: byte, coef: int, blk: seq<int>, dcpred: int, err: bool): (s: Round)
    requires |q| == 64 && |blk| == 64 && 0 <= coef < 63
    ensures s.Stop? ==> s.c.r == v.r && |s.c.blk| == 64 && s.c.dcpred == dcpred
    ensures s.Stop? ==> s.c.err == (s.c.thrown || err || v.err)
    ensures s.Stop? ==> forall n :: 0 <= n < 64 && Pos(n) <= coef ==> s.c.blk[n] == blk[n]
    ensures s.Again? ==> s.r == v.r && coef < s.coef < 63 && |s.blk| == 64 && s.err == (err || v.err)
    ensures s.Again? ==> forall n :: 0 <= n < 64 && Pos(n) <= coef ==> s.blk[n] == blk[n]
  {
    var code' := if v.code.Some? then v.code.value else code;
    var err' := err || v.err;
    if code' == 0 then Stop(Coefs(blk, dcpred, v.r, err', false))
    else if code' % 16 == 0 && code' != 0xF0 then Stop(Coefs(blk, dcpred, v.r, true, true))
    else
      var k := coef + code' / 16 + 1;
      if k > 63 then Stop(Coefs(blk, dcpred, v.r, true, true))
      else
        var blk' := blk[Zig(k) := v.value * q[k]];
        if k < 63 then Again(v.r, code', k, blk', err')
        else Stop(Coefs(blk', dcpred, v.r, err', false))
  }

  /** The whole loop from zig-zag position `coef`. */
  function AcLoop(data: seq<byte>, r: Reader, row: seq<VlcCode>, q: seq<byte>, code: byte, coef: int,
                  blk: seq<int>, dcpred: int, err: bool): (c: Coefs)
    requires Sane(data, r) && |row| == 65536 && |q| == 64 && |blk| == 64 && 0 <= coef < 63
    ensures Sane(data, c.r) && |c.blk| == 64 && c.dcpred == dcpred
    ensures err ==> c.err
    ensures forall n :: 0 <= n < 64 && Pos(n) <= coef ==> c.blk[n] == blk[n]
    decreases 63 - coef
  {
    match AcRound(data, r, row, q, code, coef, blk, dcpred, err)
    case Stop(c) => c
    case Again(r', code', k, blk', err') => AcLoop(data, r', row, q, code', k, blk', dcpred, err')
  }

  /** A block whose only nonzero coefficient is the DC one, the predictor
      `pred` times the quantiser `q0`. */
  function DcOnly(pred: int, q0: int): (blk: seq<int>)
    ensures |blk| == 64 && blk[0] == pred * q0 && forall i :: 1 <= i < 64 ==> blk[i] == 0
  {
    seq(64, i requires 0 <= i < 64 => if i == 0 then pred * q0 else 0)
  }

  /** The DC predictor after the block's DC difference `v`. */
  function Predict(dcpred: int, v: Vlc): int
  {
    dcpred + v.value
  }

  /** The entropy-coded part of `ujDecodeBlock`: the DC difference added to
      the predictor and scaled by the first quantiser, every other
      coefficient 0, then the AC loop from position 0. */
  function Block(data: seq<byte>, r: Reader, dcrow: seq<VlcCode>, acrow: seq<VlcCode>, q: seq<byte>,
                 dcpred: int): (c: Coefs)
    requires Sane(data, r) && |dcrow| == 65536 && |acrow| == 65536 && |q| == 64
    ensures Sane(data, c.r) && |c.blk| == 64
    ensures c.dcpred == dcpred + GetVlc(data, r, dcrow).value
    ensures c.blk[0] == c.dcpred * q[0]
  {
    var v := GetVlc(data, r, dcrow);
    var pred := Predict(dcpred, v);
    assert Zig(0) == 0;
    AcLoop(data, v.r, acrow, q, 0, 0, DcOnly(pred, q[0]), pred, v.err)
  }

  /** A block is the AC loop started after its DC symbol with only the DC
      coefficient set. */
  lemma BlockStart(data: seq<byte>, r: Reader, dcrow: seq<VlcCode>, acrow: seq<VlcCode>, q: seq<byte>, dcpred: int)
    requires Sane(data, r) && |dcrow| == 65536 && |acrow| == 65536 && |q| == 64
    ensures var v := GetVlc(data, r, dcrow);
      Block(data, r, dcrow, acrow, q, dcpred) ==
      AcLoop(data, v.r, acrow, q, 0, 0, DcOnly(Predict(dcpred, v), q[0]), Predict(dcpred, v), v.err)
  {
  }

  /** A block whose first AC symbol is EOB keeps only its DC coefficient: the
      inverse transform then gives a flat tile. */
  lemma EobBlockIsDcOnly(data: seq<byte>, r: Reader, dcrow: seq<VlcCode>, acrow: seq<VlcCode>, q: seq<byte>,
                         dcpred: int)
    requires Sane(data, r) && |dcrow| == 65536 && |acrow| == 65536 && |q| == 64
    requires GetVlc(data, GetVlc(data, r, dcrow).r, acrow).code == Some(0)
    ensures var c := Block(data, r, dcrow, acrow, q, dcpred);
      !c.thrown && forall n :: 1 <= n < 64 ==> c.blk[n] == 0
  {
  }

  /** A run of sixteen zeros (0xF0) writes one zero coefficient sixteen
      positions on and leaves the fifteen positions between untouched. */
  lemma ZeroRunSkips(data: seq<byte>, r: Reader, row: seq<VlcCode>, q: seq<byte>, code: byte, coef: int,
                     blk: seq<int>, dcpred: int, err: bool)
    requires Sane(data, r) && |row| == 65536 && |q| == 64 && |blk| == 64 && 0 <= coef < 63
    requires GetVlc(data, r, row).code == Some(0xF0) && coef + 16 < 63
    ensures var v := GetVlc(data, r, row);
      AcRound(data, r, row, q, code, coef, blk, dcpred, err) ==
      Again(v.r, 0xF0, coef + 16, blk[Zig(coef + 16) := 0], err || v.err)
  {
    var v := GetVlc(data, r, row);
    assert v.value == 0;
    assert (0xF0 as byte) / 16 + 1 == 16;
  }

  /** The reader the blocks `bs` leave, or `r` when there are none. */
  function ReaderAfter(r: Reader, bs: seq<Coefs>): Reader
  {
    if bs == [] then r else bs[|bs| - 1].r
  }

  /** The DC predictor the blocks `bs` leave, or `dcpred` when there are
      none. */
  function PredAfter(dcpred: int, bs: seq<Coefs>): int
  {
    if bs == [] then dcpred else bs[|bs| - 1].dcpred
  }

  /** `ujDecodeBlock` for a fixed input, pair of lookup rows and
      quantisation table, as a function of the reader and the DC predictor
      it starts from. */
  function BlockStep(data: seq<byte>, dcrow: seq<VlcCode>, acrow: seq<VlcCode>, q: seq<byte>): (step: (Reader, int) --> Coefs)
    requires |dcrow| == 65536 && |acrow| == 65536 && |q| == 64
  {
    (r: Reader, d: int) requires Sane(data, r) => Block(data, r, dcrow, acrow, q, d)
  }

  /** `bs` are blocks decoded one after the other by `step`: the first from
      reader `r` and DC predictor `dcpred`, each later one from the reader
      and predictor the one before it left. */
  ghost predicate Chain(step: (Reader, int) --> Coefs, r: Reader, dcpred: int, bs: seq<Coefs>)
    decreases |bs|
  {
    bs != [] ==>
      step.requires(r, dcpred) && bs[0] == step(r, dcpred) && Chain(step, bs[0].r, bs[0].dcpred, bs[1..])
  }

  /** A chain grows by the block decoded from where it ends. */
  lemma {:induction false} ChainGrows(step: (Reader, int) --> Coefs, r: Reader, dcpred: int, bs: seq<Coefs>, c: Coefs)
    requires Chain(step, r, dcpred, bs) && step.requires(ReaderAfter(r, bs), PredAfter(dcpred, bs))
    requires c == step(ReaderAfter(r, bs), PredAfter(dcpred, bs))
    ensures Chain(step, r, dcpred, bs + [c])
    decreases |bs|
  {
    if bs != [] {
      assert (bs + [c])[0] == bs[0] && (bs + [c])[1..] == bs[1..] + [c];
      assert ReaderAfter(bs[0].r, bs[1..]) == ReaderAfter(r, bs);
      assert PredAfter(bs[0].dcpred, bs[1..]) == PredAfter(dcpred, bs);
      ChainGrows(step, bs[0].r, bs[0].dcpred, bs[1..], c);
    }
  }
}

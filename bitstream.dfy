/** The entropy-coded-segment reader of uJPEG (`ujShowBits`, `ujSkipBits`,
    `ujByteAlign`) as functions on a reader state, with the byte stuffing of
    section F.1.2.3 of ITU-T T.81 and its inverse. */
module BitStream {
  import opened Common

  /** A reader position: `pos` indexes the input, `size` counts the bytes the
      reader may still take, and the low `bufbits` bits of `buf` are pending
      (the next bit to be read is the highest of them). */
  datatype Reader = Reader(pos: int, size: int, buf: nat, bufbits: nat)

  /** The input positions the reader may touch lie inside the input, and the
      buffer holds no bit above `bufbits`. */
  predicate Sane(data: seq<byte>, r: Reader)
  {
    0 <= r.pos && r.pos + r.size <= |data| && r.buf < Pow2(r.bufbits)
  }

  /** The bytes one refill step hands to the bit buffer, where the input
      position is afterwards, and whether the step raised a syntax error. */
  datatype Step = Step(bytes: seq<byte>, pos: int, size: int, err: bool)

  /** One pass of the refill loop of `ujShowBits`. Exhausted input yields a
      0xFF byte; a data byte 0xFF takes the following byte as well: 0x00 and
      0xFF are stuffing, 0xD9 (end of image) empties the input, a restart
      marker 0xD0..0xD7 is kept in the buffer behind the 0xFF, and any other
      byte, or no byte at all, raises a syntax error. The marker test is the
      source's mask `(m & 0xF8) == 0xD0`, written as the range it selects
      (`RestartMaskIsRange`). */
  function NextBytes(data: seq<byte>, pos: int, size: int): (s: Step)
    requires 0 <= pos && pos + size <= |data|
    ensures 0 <= s.pos && s.pos + s.size <= |data|
    ensures 1 <= |s.bytes| <= 2
    ensures s.size <= size && s.pos >= pos
  {
    if size <= 0 then Step([0xFF], pos, size, false)
    else
      var b := data[pos];
      if b != 0xFF then Step([b], pos + 1, size - 1, false)
      else if size - 1 == 0 then Step([0xFF], pos + 1, 0, true)
      else
        var m := data[pos + 1];
        if m == 0x00 || m == 0xFF then Step([0xFF], pos + 2, size - 2, false)
        else if m == 0xD9 then Step([0xFF], pos + 2, 0, false)
        else if !(0xD0 <= m <= 0xD7) then Step([0xFF], pos + 2, size - 2, true)
        else Step([0xFF, m], pos + 2, size - 2, false)
  }

  /** `buf = (buf << 8) | b; bufbits += 8`, keeping only the pending bits. */
  function PushByte(r: Reader, b: byte): (r': Reader)
    requires r.buf < Pow2(r.bufbits)
    ensures r'.buf < Pow2(r'.bufbits) && r'.bufbits == r.bufbits + 8
    ensures r'.pos == r.pos && r'.size == r.size
  {
    assert Pow2(r.bufbits + 8) == Pow2(r.bufbits) * 256 by { Pow2Add(r.bufbits, 8); }
    r.(buf := r.buf * 256 + b, bufbits := r.bufbits + 8)
  }

  function PushBytes(r: Reader, bs: seq<byte>): (r': Reader)
    requires r.buf < Pow2(r.bufbits)
    ensures r'.buf < Pow2(r'.bufbits) && r'.bufbits == r.bufbits + 8 * |bs|
    ensures r'.pos == r.pos && r'.size == r.size
    decreases |bs|
  {
    if bs == [] then r else PushBytes(PushByte(r, bs[0]), bs[1..])
  }

  /** Pushing one or two bytes is pushing them one after the other. */
  lemma PushSome(r: Reader, a: byte, b: byte)
    requires r.buf < Pow2(r.bufbits)
    ensures PushBytes(r, [a]) == PushByte(r, a)
    ensures PushBytes(r, [a, b]) == PushByte(PushByte(r, a), b)
  {
    var r1 := PushByte(r, a);
    assert [a][1..] == [] && [a, b][1..] == [b] && [b][1..] == [];
    assert PushBytes(r, [a]) == PushBytes(r1, []);
    assert PushBytes(r, [a, b]) == PushBytes(r1, [b]);
    assert PushBytes(r1, [b]) == PushBytes(PushByte(r1, b), []);
  }

  /** Pushing bytes only appends below the pending bits: the bits that were
      pending stay on top, in the same order. */
  lemma {:induction false} PushBytesKeepsPending(r: Reader, bs: seq<byte>)
    requires r.buf < Pow2(r.bufbits)
    ensures PushBytes(r, bs).buf / Pow2(8 * |bs|) == r.buf
    decreases |bs|
  {
    if bs != [] {
      var r1 := PushByte(r, bs[0]);
      PushBytesKeepsPending(r1, bs[1..]);
      var n := 8 * |bs[1..]|;
      var x := PushBytes(r1, bs[1..]).buf;
      assert x / Pow2(n) == r.buf * 256 + bs[0];
      Pow2Add(n, 8);
      DivDiv(x, Pow2(n), 256);
    }
  }

  lemma MulNonNegative(a: int, b: int)
    requires a >= 0 && b >= 0
    ensures a * b >= 0
  {
  }

  /** Division by a product is repeated division. */
  lemma DivDiv(x: nat, a: nat, b: nat)
    requires a > 0 && b > 0
    ensures x / (a * b) == (x / a) / b
  {
    var q := x / a;
    var r := x % a;
    var q2 := q / b;
    var r2 := q % b;
    assert x == q * a + r;
    assert q == q2 * b + r2;
    assert x == q2 * (a * b) + (r2 * a + r);
    assert r2 * a + r < a * b by {
      MulNonNegative(b - 1 - r2, a);
      assert (b - 1 - r2) * a == (b - 1) * a - r2 * a;
    }
    MulNonNegative(r2, a);
    DivUnique(x, a * b, q2, r2 * a + r);
  }

  /** Quotient and remainder are determined by the division identity. */
  lemma DivUnique(x: int, d: int, q: int, r: int)
    requires d > 0 && 0 <= r < d && x == q * d + r
    ensures x / d == q && x % d == r
  {
    var q0 := x / d;
    var r0 := x % d;
    assert x == q0 * d + r0;
    assert (q - q0) * d == r0 - r;
    if q > q0 {
      MulNonNegative(q - q0 - 1, d);
    } else if q < q0 {
      MulNonNegative(q0 - q - 1, d);
    }
  }

  /** One pass of the refill loop applied to a reader. */
  function RefillStep(data: seq<byte>, r: Reader): (f: Filled)
    requires Sane(data, r)
    ensures Sane(data, f.r)
    ensures r.bufbits + 8 <= f.r.bufbits <= r.bufbits + 16
  {
    var s := NextBytes(data, r.pos, r.size);
    Filled(PushBytes(r.(pos := s.pos, size := s.size), s.bytes), s.err)
  }

  /** A reader after some refilling, and whether any refill raised an error. */
  datatype Filled = Filled(r: Reader, err: bool)

  /** The `while (uj->bufbits < bits)` loop of `ujShowBits`. */
  function Fill(data: seq<byte>, r: Reader, bits: nat): (f: Filled)
    requires Sane(data, r)
    ensures Sane(data, f.r)
    ensures f.r.bufbits >= bits && f.r.bufbits >= r.bufbits
    ensures r.bufbits < bits ==> f.r.bufbits < bits + 16
    ensures r.bufbits >= bits ==> f == Filled(r, false)
    decreases bits - r.bufbits
  {
    if r.bufbits >= bits then Filled(r, false)
    else
      var s := RefillStep(data, r);
      var f := Fill(data, s.r, bits);
      Filled(f.r, s.err || f.err)
  }

  /** The value `ujShowBits` returns once `bits` bits are pending: the top
      `bits` of them. */
  function Window(r: Reader, bits: nat): (v: nat)
    requires bits <= r.bufbits
    ensures v < Pow2(bits)
  {
    (r.buf / Pow2(r.bufbits - bits)) % Pow2(bits)
  }

  /** `uj->bufbits -= bits`, dropping the consumed bits from the buffer. */
  function Consume(r: Reader, bits: nat): (r': Reader)
    requires bits <= r.bufbits && r.buf < Pow2(r.bufbits)
    ensures r'.buf < Pow2(r'.bufbits) && r'.bufbits == r.bufbits - bits
    ensures r'.pos == r.pos && r'.size == r.size
  {
    r.(bufbits := r.bufbits - bits, buf := r.buf % Pow2(r.bufbits - bits))
  }

  /** `ujSkipBits`: refill only if fewer than `bits` bits are pending, then
      consume them. */
  function Skip(data: seq<byte>, r: Reader, bits: nat): (f: Filled)
    requires Sane(data, r)
    ensures Sane(data, f.r)
    ensures r.bufbits >= bits ==> f.r.pos == r.pos && !f.err && f.r.bufbits == r.bufbits - bits
  {
    var g := if r.bufbits < bits then Fill(data, r, bits) else Filled(r, false);
    Filled(Consume(g.r, bits), g.err)
  }

  /** `ujByteAlign`: `bufbits &= 0xF8` drops the rest of a partly read byte. */
  function Align(r: Reader): (r': Reader)
    requires r.buf < Pow2(r.bufbits)
    ensures r'.buf < Pow2(r'.bufbits) && r'.bufbits % 8 == 0
    ensures r.bufbits - 8 < r'.bufbits <= r.bufbits && r'.pos == r.pos && r'.size == r.size
  {
    Consume(r, r.bufbits % 8)
  }

  /** The mask test `(m & 0xF8) == 0xD0` holds exactly for the eight
      restart markers 0xD0..0xD7. */
  lemma RestartMaskIsRange(m: bv8)
    ensures m & 0xF8 == 0xD0 <==> 0xD0 <= m <= 0xD7
  {
  }

  /** The same test on a byte value. */
  lemma RestartByte(m: byte)
    ensures And8(m, 0xF8) == 0xD0 <==> 0xD0 <= m <= 0xD7
  {
    var v := m as bv8;
    RestartMaskIsRange(v);
    assert And8(m, 0xF8) == 0xD0 <==> v & 0xF8 == 0xD0;
    assert 0xD0 <= m <= 0xD7 <==> 0xD0 <= v <= 0xD7;
  }

  /** Masking a small count with 0xF8 clears its three low bits. */
  lemma MaskClearsLowBits(n: nat)
    requires n < 32
    ensures And8(n, 0xF8) == n - n % 8
  {
    var b := n as bv8;
    assert b as int == n;
    assert (b & 0xF8) == b - (b & 7);
    assert (b & 7) as int == n % 8 by {
      assert b % 8 == b & 7;
      assert (b % 8) as int == n % 8;
    }
  }

  /** `bufbits & 0xF8` on the buffer's bit count is what `Align` computes:
      the count becomes a multiple of 8, no larger and less than 8 smaller. */
  lemma AlignIsMask(r: Reader)
    requires r.buf < Pow2(r.bufbits) && r.bufbits < 32
    ensures Align(r).bufbits == And8(r.bufbits, 0xF8)
    ensures Align(r).bufbits % 8 == 0 && Align(r).bufbits <= r.bufbits < Align(r).bufbits + 8
  {
    MaskClearsLowBits(r.bufbits);
  }

  /** Refilling never disturbs the bits already pending: the top `k` pending
      bits, for any `k` no larger than what was pending before, read the same
      after a refill. This is why a value shown is not consumed. */
  lemma {:induction false} FillKeepsWindow(data: seq<byte>, r: Reader, bits: nat, k: nat)
    requires Sane(data, r) && k <= r.bufbits
    ensures Window(Fill(data, r, bits).r, k) == Window(r, k)
    decreases bits - r.bufbits
  {
    if r.bufbits < bits {
      var s := NextBytes(data, r.pos, r.size);
      var r1 := RefillStep(data, r).r;
      StepKeepsWindow(r.(pos := s.pos, size := s.size), s.bytes, k);
      FillKeepsWindow(data, r1, bits, k);
    }
  }

  lemma StepKeepsWindow(r: Reader, bs: seq<byte>, k: nat)
    requires r.buf < Pow2(r.bufbits) && k <= r.bufbits
    ensures Window(PushBytes(r, bs), k) == Window(r, k)
  {
    var r' := PushBytes(r, bs);
    var n := 8 * |bs|;
    PushBytesKeepsPending(r, bs);
    Pow2Add(n, r.bufbits - k);
    assert r'.bufbits - k == n + (r.bufbits - k);
    DivDiv(r'.buf, Pow2(n), Pow2(r.bufbits - k));
  }

  /** Showing twice is showing once: a second `ujShowBits` of no more bits
      reads nothing from the input and returns the same value. */
  lemma ShowIsIdempotent(data: seq<byte>, r: Reader, bits: nat, k: nat)
    requires Sane(data, r) && k <= bits
    ensures var f := Fill(data, r, bits);
      Fill(data, f.r, k) == Filled(f.r, false) &&
      Window(Fill(data, f.r, k).r, k) == Window(f.r, k)
  {
  }

  // ---------------------------------------------------------------------
  // The byte level: what a run of refill steps takes from the input.

  /** The bytes `n` refill steps take from the input, where they leave the
      input position, and whether any of them raised a syntax error. */
  function Drain(data: seq<byte>, pos: int, size: int, n: nat): (s: Step)
    requires 0 <= pos && pos + size <= |data|
    ensures 0 <= s.pos && s.pos + s.size <= |data|
    decreases n
  {
    if n == 0 then Step([], pos, size, false)
    else
      var s := NextBytes(data, pos, size);
      var t := Drain(data, s.pos, s.size, n - 1);
      Step(s.bytes + t.bytes, t.pos, t.size, s.err || t.err)
  }

  /** The encoder's side of section F.1.2.3: every 0xFF of entropy-coded data
      is followed by a stuffed 0x00. */
  function Stuff(p: seq<byte>): (s: seq<byte>)
    ensures |s| >= |p|
  {
    if p == [] then [] else (if p[0] == 0xFF then [0xFF, 0x00] else [p[0]]) + Stuff(p[1..])
  }

  /** Reading stuffed data gives back the data: one refill step per data
      byte, no error, and the reader ends exactly behind the stuffed bytes,
      whatever follows them. */
  lemma StuffRoundTrip(pre: seq<byte>, p: seq<byte>, post: seq<byte>)
    ensures var data := pre + Stuff(p) + post;
      Drain(data, |pre|, |Stuff(p)| + |post|, |p|)
        == Step(p, |pre| + |Stuff(p)|, |post|, false)
  {
    StuffIsStuffedAt(pre, p, post);
    StuffLength(p);
    StuffRead(pre + Stuff(p) + post, |pre|, p, |post|, |Stuff(p)| + |post|, |pre| + |Stuff(p)|);
  }

  /** The input holds the data bytes `p` in stuffed form from `pos` on. */
  predicate StuffedAt(data: seq<byte>, pos: int, p: seq<byte>)
    decreases |p|
  {
    p == [] ||
    (0 <= pos < |data| && data[pos] == p[0] &&
     if p[0] == 0xFF then pos + 1 < |data| && data[pos + 1] == 0x00 && StuffedAt(data, pos + 2, p[1..])
     else StuffedAt(data, pos + 1, p[1..]))
  }

  /** The encoder's output holds its input in stuffed form. */
  lemma {:induction false} StuffIsStuffedAt(pre: seq<byte>, p: seq<byte>, post: seq<byte>)
    ensures StuffedAt(pre + Stuff(p) + post, |pre|, p)
    decreases |p|
  {
    if p != [] {
      var head: seq<byte> := if p[0] == 0xFF then [0xFF, 0x00] else [p[0]];
      var data := pre + Stuff(p) + post;
      assert Stuff(p) == head + Stuff(p[1..]);
      assert data == (pre + head) + Stuff(p[1..]) + post;
      StuffIsStuffedAt(pre + head, p[1..], post);
      assert data[|pre|] == p[0];
      if p[0] == 0xFF {
        assert data[|pre| + 1] == 0x00;
      }
    }
  }

  /** The length of the stuffed form of `p`. */
  function StuffedLength(p: seq<byte>): nat
  {
    if p == [] then 0 else (if p[0] == 0xFF then 2 else 1) + StuffedLength(p[1..])
  }

  lemma {:induction false} StuffLength(p: seq<byte>)
    ensures |Stuff(p)| == StuffedLength(p)
  {
    if p != [] {
      StuffLength(p[1..]);
    }
  }

  /** `StuffRoundTrip` for stuffed data found at `pos` of any input, with
      `rest` more bytes of the segment behind it. */
  lemma {:induction false} StuffRead(data: seq<byte>, pos: int, p: seq<byte>, rest: int, size: int, end: int)
    requires 0 <= pos && 0 <= rest && size == StuffedLength(p) + rest && end == pos + StuffedLength(p)
    requires end + rest <= |data| && StuffedAt(data, pos, p)
    ensures Drain(data, pos, size, |p|) == Step(p, end, rest, false)
    decreases |p|
  {
    if p != [] {
      StuffedTail(data, pos, p);
      StuffRead(data, pos + HeadLength(p), p[1..], rest, StuffedLength(p[1..]) + rest, end);
    }
    StuffedByteRead(data, pos, p, rest, size, end);
  }

  /** Behind the stuffed form of the first data byte lies the stuffed form
      of the others. */
  lemma StuffedTail(data: seq<byte>, pos: int, p: seq<byte>)
    requires p != [] && StuffedAt(data, pos, p)
    ensures StuffedAt(data, pos + HeadLength(p), p[1..])
    ensures StuffedLength(p) == HeadLength(p) + StuffedLength(p[1..])
  {
  }

  /** The number of input bytes the stuffed form of the first data byte takes. */
  function HeadLength(p: seq<byte>): int
    requires p != []
  {
    if p[0] == 0xFF then 2 else 1
  }

  /** The inductive step of `StuffRead`: one refill step takes the first data
      byte from its stuffed form, and the remaining data bytes are read from
      behind it. */
  lemma StuffedByteRead(data: seq<byte>, pos: int, p: seq<byte>, rest: int, size: int, end: int)
    requires 0 <= pos && 0 <= rest && size == StuffedLength(p) + rest && end == pos + StuffedLength(p)
    requires end + rest <= |data| && StuffedAt(data, pos, p)
    requires p != [] ==>
      var k := HeadLength(p);
      Drain(data, pos + k, StuffedLength(p[1..]) + rest, |p[1..]|) ==
        Step(p[1..], end, rest, false)
    ensures Drain(data, pos, size, |p|) == Step(p, end, rest, false)
  {
    if p != [] {
      var k := HeadLength(p);
      var s := NextBytes(data, pos, size);
      assert s == Step([p[0]], pos + k, StuffedLength(p[1..]) + rest, false);
      assert [p[0]] + p[1..] == p;
    }
  }

  /** Once the input is used up every refill step yields 0xFF padding. */
  lemma {:induction false} ExhaustedPads(data: seq<byte>, pos: int, size: int, n: nat)
    requires 0 <= pos && pos + size <= |data| && size <= 0
    ensures Drain(data, pos, size, n) == Step(seq(n, _ => 0xFF), pos, size, false)
  {
    if n > 0 {
      ExhaustedPads(data, pos, size, n - 1);
      assert [0xFF as byte] + seq(n - 1, _ => 0xFF as byte) == seq(n, _ => 0xFF as byte);
    }
  }

  /** An end-of-image marker met inside entropy-coded data reads as one 0xFF
      byte followed by the same 0xFF padding as a truncated input. */
  lemma EndOfImagePads(pre: seq<byte>, post: seq<byte>, n: nat)
    requires n >= 1
    ensures var data := pre + [0xFF, 0xD9] + post;
      Drain(data, |pre|, 2 + |post|, n).bytes == seq(n, _ => 0xFF)
  {
    var data := pre + [0xFF, 0xD9] + post;
    assert data[|pre|] == 0xFF && data[|pre| + 1] == 0xD9;
    var s := NextBytes(data, |pre|, 2 + |post|);
    assert s == Step([0xFF], |pre| + 2, 0, false);
    ExhaustedPads(data, |pre| + 2, 0, n - 1);
    assert [0xFF as byte] + seq(n - 1, _ => 0xFF as byte) == seq(n, _ => 0xFF as byte);
  }

  /** A restart marker inside entropy-coded data reaches the bit buffer as
      its two bytes, with no error. */
  lemma RestartMarkerKept(pre: seq<byte>, k: nat, post: seq<byte>)
    requires k < 8
    ensures var data := pre + [0xFF, 0xD0 + k] + post;
      NextBytes(data, |pre|, 2 + |post|) == Step([0xFF, 0xD0 + k], |pre| + 2, |post|, false)
  {
    var data := pre + [0xFF, 0xD0 + k] + post;
    assert data[|pre|] == 0xFF && data[|pre| + 1] == 0xD0 + k;
  }

  // ---------------------------------------------------------------------
  // Restart markers.

  /** The test `((i & 0xFFF8) != 0xFFD0) || ((i & 7) != n)` that
      `ujDecodeScan` applies to the 16-bit word read at a restart, taken
      byte by byte: the masks leave the high byte whole and split the low
      one at bit 3. */
  function WrongMarker(i: int, n: int): bool
    requires 0 <= i < 65536 && 0 <= n < 8
  {
    var hi, lo := i / 256, i % 256;
    hi != 0xFF || And8(lo, 0xF8) != 0xD0 || And8(lo, 7) != n
  }

  /** The test lets through exactly the restart marker RSTn, 0xFFD0 + n. */
  lemma MarkerTest(i: int, n: int)
    requires 0 <= i < 65536 && 0 <= n < 8
    ensures !WrongMarker(i, n) <==> i == 0xFFD0 + n
  {
    var hi, lo := i / 256, i % 256;
    RestartByte(lo);
    LowBits(lo);
    assert i == 256 * hi + lo;
  }

  /** `b & 7` is the remainder of `b` by eight. */
  lemma LowBits(b: byte)
    ensures And8(b, 7) == b % 8
  {
    var m := b as bv8;
    MaskIsRemainder(m);
    assert And8(b, 7) == (m & 7) as int;
  }

  /** `(n + 1) & 7`: the number of the restart marker after RSTn. */
  function NextMarker(n: int): (m: int)
    requires 0 <= n < 8
    ensures m == (n + 1) % 8 && m == if n == 7 then 0 else n + 1
  {
    MaskIsRemainder((n + 1) as bv8);
    (((n + 1) as bv8) & 7) as int
  }

  lemma MaskIsRemainder(m: bv8)
    ensures m & 7 == m % 8 && (m % 8) as int == (m as int) % 8
  {
  }
}

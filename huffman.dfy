/** The Huffman side of uJPEG: the 65536-slot lookup tables `ujDecodeDHT`
    builds from a DHT segment, the canonical codes of Annex C of ITU-T T.81
    those tables realise, and the EXTEND rule of Figure F.12 `ujGetVLC`
    applies to the additional bits of a coefficient. */
module Huffman {
  import opened Common

  /** A code length as stored in a table slot; 0 marks an unused slot. */
  type CodeLength = n: int | 0 <= n <= 16

  /** `ujVLCCode`: the length of the code that starts with the slot's 16-bit
      index, and the symbol it stands for. */
  datatype VlcCode = VlcCode(bits: CodeLength, code: byte)

  /** The number of slots a code of `bits` bits covers: every 16-bit index
      that starts with it. */
  function Spread(bits: int): (n: nat)
    requires 1 <= bits <= 16
    ensures 1 <= n <= 32768
  {
    Pow2Monotone(16 - bits, 15);
    assert Pow2(15) == 32768;
    Pow2(16 - bits)
  }

  /** Sum of a list of counts. */
  function Sum(s: seq<byte>): (n: nat)
    ensures n <= 255 * |s|
  {
    if s == [] then 0 else Sum(s[..|s| - 1]) + s[|s| - 1]
  }

  /** The symbols of a table listed by code length, shortest first: every
      entry has a length of at least one bit, and lengths never decrease. */
  predicate Canonical(es: seq<VlcCode>)
  {
    (forall k :: 0 <= k < |es| ==> es[k].bits >= 1) &&
    (forall i, j :: 0 <= i <= j < |es| ==> es[i].bits <= es[j].bits)
  }

  /** Figure C.1 of ITU-T T.81: the symbols of a table with their code
      lengths, `counts[L-1]` symbols of length `L` taken in order from
      `values`. */
  function Entries(counts: seq<byte>, values: seq<byte>): (es: seq<VlcCode>)
    requires |counts| <= 16 && |values| >= Sum(counts)
    ensures |es| == Sum(counts) && Canonical(es)
    ensures forall k :: 0 <= k < |es| ==> es[k].code == values[k] && es[k].bits <= |counts|
    decreases |counts|
  {
    if counts == [] then []
    else
      var n := |counts|;
      var pre := counts[..n - 1];
      var start := Sum(pre);
      var shorter := Entries(pre, values);
      var longest := seq(counts[n - 1], i requires 0 <= i < counts[n - 1] => VlcCode(n, values[start + i]));
      CanonicalAppend(shorter, longest, n);
      shorter + longest
  }

  /** Symbols of one length `n` after symbols no longer than `n - 1` keep
      the list canonical. */
  lemma CanonicalAppend(a: seq<VlcCode>, b: seq<VlcCode>, n: int)
    requires Canonical(a) && forall k :: 0 <= k < |a| ==> a[k].bits <= n - 1
    requires n >= 1 && forall k :: 0 <= k < |b| ==> b[k].bits == n
    ensures Canonical(a + b)
  {
    var c := a + b;
    forall i, j | 0 <= i <= j < |c|
      ensures c[i].bits <= c[j].bits
    {
      if j < |a| {
        assert c[i] == a[i] && c[j] == a[j];
      } else if i < |a| {
        assert c[i] == a[i] && c[j] == b[j - |a|];
      } else {
        assert c[i] == b[i - |a|] && c[j] == b[j - |a|];
      }
    }
  }

  /** The slots a list of symbols takes in a lookup table. */
  function Used(es: seq<VlcCode>): nat
    requires forall k :: 0 <= k < |es| ==> es[k].bits >= 1
  {
    if es == [] then 0 else Used(es[..|es| - 1]) + Spread(es[|es| - 1].bits)
  }

  /** The table slots `ujDecodeDHT` fills for a list of symbols: each
      symbol of length L repeated over 2^(16-L) consecutive slots, in order. */
  function Layout(es: seq<VlcCode>): (t: seq<VlcCode>)
    requires forall k :: 0 <= k < |es| ==> es[k].bits >= 1
    ensures |t| == Used(es)
  {
    if es == [] then []
    else
      var e := es[|es| - 1];
      Layout(es[..|es| - 1]) + seq(Spread(e.bits), _ => e)
  }

  /** Figure C.2 of ITU-T T.81: the canonical code of the `k`-th symbol. The
      first code is 0; the next is one more, shifted left by the growth of
      the code length. */
  function Code(es: seq<VlcCode>, k: nat): nat
    requires Canonical(es) && k < |es|
  {
    if k == 0 then 0 else (Code(es, k - 1) + 1) * Pow2(es[k].bits - es[k - 1].bits)
  }

  /** A full lookup table row after one DHT table: the symbols' slots, then
      every remaining slot marked unused with its old symbol byte kept. */
  function Installed(es: seq<VlcCode>, row: seq<VlcCode>): (t: seq<VlcCode>)
    requires Canonical(es) && Used(es) <= 65536 && |row| == 65536
    ensures |t| == 65536
  {
    var u := Used(es);
    Layout(es) + seq(65536 - u, j requires 0 <= j < 65536 - u => VlcCode(0, row[u + j].code))
  }

  // ---------------------------------------------------------------------
  // Annex C: the slots of a symbol are exactly the indices that begin with
  // its canonical code.

  lemma UsedPrefix(es: seq<VlcCode>, k: nat)
    requires Canonical(es) && k < |es|
    ensures es[..k + 1][..k] == es[..k]
    ensures Used(es[..k + 1]) == Used(es[..k]) + Spread(es[k].bits)
  {
    assert es[..k + 1][..k] == es[..k];
  }

  /** The first slot of the `k`-th symbol is its canonical code followed by
      zero bits: the slots before it are `Code * 2^(16-L)`. */
  lemma {:induction false} CodeAddress(es: seq<VlcCode>, k: nat)
    requires Canonical(es) && k < |es|
    ensures Used(es[..k]) == Code(es, k) * Spread(es[k].bits)
  {
    if k > 0 {
      CodeAddress(es, k - 1);
      UsedPrefix(es, k - 1);
      var a := es[k - 1].bits;
      var b := es[k].bits;
      assert 1 <= a <= b;
      var c, p, sb := Code(es, k - 1), Pow2(b - a), Spread(b);
      SpreadSplit(a, b);
      Regroup(c, p, sb);
      calc {
        Used(es[..k]);
        Used(es[..k - 1]) + Spread(a);
        c * Spread(a) + Spread(a);
        c * (p * sb) + p * sb;
        ((c + 1) * p) * sb;
        Code(es, k) * sb;
      }
    }
  }

  /** A code `b - a` bits longer covers `2^(b-a)` times fewer slots. */
  lemma SpreadSplit(a: int, b: int)
    requires 1 <= a <= b <= 16
    ensures Spread(a) == Pow2(b - a) * Spread(b)
  {
    Pow2Add(b - a, 16 - b);
  }

  lemma Regroup(c: nat, p: nat, s: nat)
    ensures c * (p * s) + p * s == ((c + 1) * p) * s
  {
    calc {
      ((c + 1) * p) * s;
      (c * p + p) * s;
      (c * p) * s + p * s;
    }
  }

  lemma {:induction false} UsedMonotone(es: seq<VlcCode>, k: nat)
    requires Canonical(es) && k <= |es|
    ensures Used(es[..k]) <= Used(es)
    decreases |es|
  {
    if k < |es| {
      var n := |es| - 1;
      assert es[..n][..k] == es[..k];
      assert Canonical(es[..n]);
      UsedMonotone(es[..n], k);
    } else {
      assert es[..k] == es;
    }
  }

  /** The slots of a prefix of the symbol list are a prefix of the slots of
      the whole list. */
  lemma {:induction false} LayoutPrefix(es: seq<VlcCode>, k: nat)
    requires Canonical(es) && k <= |es|
    ensures Used(es[..k]) <= Used(es)
    ensures Layout(es[..k]) == Layout(es)[..Used(es[..k])]
    decreases |es|
  {
    if k < |es| {
      var n := |es| - 1;
      assert es[..n][..k] == es[..k];
      assert Canonical(es[..n]);
      LayoutPrefix(es[..n], k);
      UsedMonotone(es[..n], k);
    } else {
      assert es[..k] == es;
    }
  }

  /** Annex C made concrete: every 16-bit index whose top `L` bits are the
      canonical code of a symbol of length `L` selects that symbol. */
  lemma LayoutAt(es: seq<VlcCode>, k: nat, t: nat)
    requires Canonical(es) && k < |es| && t < Spread(es[k].bits)
    ensures Code(es, k) * Spread(es[k].bits) + t < Used(es)
    ensures Layout(es)[Code(es, k) * Spread(es[k].bits) + t] == es[k]
  {
    CodeAddress(es, k);
    UsedPrefix(es, k);
    LayoutPrefix(es, k + 1);
    UsedMonotone(es, k + 1);
    var pre := es[..k + 1];
    assert pre[..k] == es[..k] && pre[k] == es[k];
    assert Layout(pre) == Layout(es[..k]) + seq(Spread(es[k].bits), _ => es[k]);
    assert Layout(pre)[Used(es[..k]) + t] == es[k];
  }

  /** When the table is not over-subscribed every canonical code fits in
      its own length, as Annex C requires of a valid table. */
  lemma CodesFit(es: seq<VlcCode>, k: nat)
    requires Canonical(es) && k < |es| && Used(es) <= 65536
    ensures Code(es, k) < Pow2(es[k].bits)
  {
    CodeAddress(es, k);
    UsedPrefix(es, k);
    UsedMonotone(es, k + 1);
    var b := es[k].bits;
    Pow2Add(b, 16 - b);
    var c := Code(es, k);
    var sp := Spread(b);
    MulSucc(c, sp);
    Pow2Values();
    assert Pow2(b) * sp == 65536;
    var u := Used(es[..k + 1]);
    assert u == c * sp + sp;
    assert u <= 65536;
    assert (c + 1) * sp <= Pow2(b) * sp;
    FactorBound(c + 1, Pow2(b), sp);
  }

  lemma FactorBound(x: int, y: int, s: int)
    requires s >= 1 && x * s <= y * s
    ensures x <= y
  {
    if x > y {
      MulPositive(x - y, s);
    }
  }

  lemma MulPositive(a: int, b: int)
    requires a > 0 && b > 0
    ensures a * b > 0
  {
  }

  /** The row `ujDecodeDHT` leaves: a symbol's code selects it, every slot
      beyond the symbols is unused, and exactly 65536 slots are written. */
  lemma InstalledLookup(es: seq<VlcCode>, row: seq<VlcCode>, w: nat)
    requires Canonical(es) && Used(es) <= 65536 && |row| == 65536 && w < 65536
    ensures w < Used(es) ==> Installed(es, row)[w] == Layout(es)[w] && Installed(es, row)[w].bits >= 1
    ensures w >= Used(es) ==> Installed(es, row)[w] == VlcCode(0, row[w].code)
  {
    if w < Used(es) {
      LayoutBits(es, w);
    }
  }

  lemma {:induction false} LayoutBits(es: seq<VlcCode>, w: nat)
    requires forall k :: 0 <= k < |es| ==> es[k].bits >= 1
    requires w < Used(es)
    ensures Layout(es)[w].bits >= 1
    decreases |es|
  {
    var n := |es| - 1;
    if w < Used(es[..n]) {
      LayoutBits(es[..n], w);
    }
  }

  /** Slots a table takes, as `remain` counts them down: adding a level of
      `c` symbols of length `L` uses `c << (16 - L)` more slots. */
  lemma {:induction false} UsedLevel(counts: seq<byte>, values: seq<byte>)
    requires 1 <= |counts| <= 16 && |values| >= Sum(counts)
    ensures var n := |counts|;
      Used(Entries(counts, values)) == Used(Entries(counts[..n - 1], values)) + counts[n - 1] * Spread(n)
  {
    var n := |counts|;
    var pre := Entries(counts[..n - 1], values);
    var lvl := seq(counts[n - 1], i requires 0 <= i < counts[n - 1] => VlcCode(n, values[Sum(counts[..n - 1]) + i]));
    assert Entries(counts, values) == pre + lvl;
    UsedAppend(pre, lvl, n);
  }

  lemma {:induction false} UsedAppend(a: seq<VlcCode>, b: seq<VlcCode>, n: int)
    requires 1 <= n <= 16
    requires forall k :: 0 <= k < |a| ==> a[k].bits >= 1
    requires forall k :: 0 <= k < |b| ==> b[k].bits == n
    ensures Used(a + b) == Used(a) + |b| * Spread(n)
    decreases |b|
  {
    if b != [] {
      var m := |b| - 1;
      assert (a + b)[..|a + b| - 1] == a + b[..m];
      assert (a + b)[|a + b| - 1] == b[m];
      UsedAppend(a, b[..m], n);
      assert Used(a + b) == Used(a + b[..m]) + Spread(n);
      MulSucc(m, Spread(n));
    } else {
      assert a + b == a;
    }
  }

  // ---------------------------------------------------------------------
  // DHT segments (section B.2.4.2).

  /** One table of a DHT segment as `ujDecodeDHT` stores it. */
  datatype Table = Table(slot: int, entries: seq<VlcCode>)

  /** `(b | (b >> 3)) & 3`: DC tables 0 and 1 go to slots 0 and 1, AC
      tables 0 and 1 to slots 2 and 3. */
  lemma SlotOfClassAndId(b: byte)
    requires And8(b, 0xEC) == 0 && And8(b, 0x02) == 0
    ensures b == 0x00 || b == 0x01 || b == 0x10 || b == 0x11
    ensures DhtSlot(b) == (if b >= 0x10 then 2 else 0) + b % 16
  {
    var v := b as bv8;
    assert (v & 0xEC) == 0 && (v & 0x02) == 0;
    assert v == 0x00 || v == 0x01 || v == 0x10 || v == 0x11;
  }

  /** The first table of `seg` (at least 17 bytes): its slot, its symbols
      and the bytes it takes, or why `ujDecodeDHT` rejects it. */
  function ParseTable(seg: seq<byte>): (r: Result<(Table, nat)>)
    requires |seg| >= 17
    ensures r.Success? ==> 17 <= r.value.1 <= |seg| && Canonical(r.value.0.entries)
    ensures r.Success? ==> Used(r.value.0.entries) <= 65536 && 0 <= r.value.0.slot < 4
    ensures r.Failure? ==> r.status == SyntaxError || r.status == Unsupported
  {
    var b := seg[0];
    if And8(b, 0xEC) != 0 then Failure(SyntaxError)
    else if And8(b, 0x02) != 0 then Failure(Unsupported)
    else
      var counts := seg[1..17];
      if Sum(counts) > |seg| - 17 then Failure(SyntaxError)
      else
        var es := Entries(counts, seg[17..]);
        if Used(es) > 65536 then Failure(SyntaxError)
        else Success((Table(DhtSlot(b), es), 17 + Sum(counts)))
  }

  /** The body of a DHT segment: tables while at least 17 bytes remain, and
      nothing left over. */
  function ParseDht(seg: seq<byte>): (r: Result<seq<Table>>)
    ensures r.Success? ==> forall t :: t in r.value ==> 0 <= t.slot < 4 && Canonical(t.entries) && Used(t.entries) <= 65536
    ensures r.Failure? ==> r.status == SyntaxError || r.status == Unsupported
    decreases |seg|
  {
    if |seg| < 17 then
      (if |seg| == 0 then Success([]) else Failure(SyntaxError))
    else
      match ParseTable(seg)
      case Failure(e) => Failure(e)
      case Success(p) =>
        match ParseDht(seg[p.1..])
        case Failure(e) => Failure(e)
        case Success(ts) => Success([p.0] + ts)
  }

  /** The four lookup rows after installing the tables of a segment in
      order; a later table for a slot replaces an earlier one. */
  function InstallAll(rows: seq<seq<VlcCode>>, ts: seq<Table>): (r: seq<seq<VlcCode>>)
    requires |rows| == 4 && forall s :: 0 <= s < 4 ==> |rows[s]| == 65536
    requires forall t :: t in ts ==> 0 <= t.slot < 4 && Canonical(t.entries) && Used(t.entries) <= 65536
    ensures |r| == 4 && forall s :: 0 <= s < 4 ==> |r[s]| == 65536
    decreases |ts|
  {
    if ts == [] then rows
    else
      var t := ts[0];
      InstallAll(rows[t.slot := Installed(t.entries, rows[t.slot])], ts[1..])
  }

  /** The table filling of `ujDecodeDHT` for one table, with `vlc` the
      running slot index: every symbol, in the order of its code length,
      written with its length over 2^(16-L) consecutive slots; then the
      length of each remaining slot cleared, its symbol byte left as it was.
      The source's two nested loops over code lengths and their counts
      visit the symbols in exactly this order. */
  method Install(row: array<VlcCode>, es: seq<VlcCode>)
    requires row.Length == 65536 && Canonical(es) && Used(es) <= 65536
    modifies row
    ensures row[..] == Installed(es, old(row[..]))
  {
    ghost var prev := row[..];
    var vlc, k := 0, 0;
    while k < |es|
      invariant 0 <= k <= |es|
      invariant vlc == Used(es[..k]) && vlc <= Used(es)
      invariant forall j :: 0 <= j < vlc ==> row[j] == Layout(es)[j]
      invariant forall j :: vlc <= j < 65536 ==> row[j] == prev[j]
    {
      vlc := PutSymbol(row, es, k, vlc, prev);
      k := k + 1;
    }
    assert es[..k] == es;
    var remain := vlc;
    while remain < 65536
      invariant vlc <= remain <= 65536
      invariant forall j :: 0 <= j < vlc ==> row[j] == Layout(es)[j]
      invariant forall j :: vlc <= j < remain ==> row[j] == VlcCode(0, prev[j].code)
      invariant forall j :: remain <= j < 65536 ==> row[j] == prev[j]
    {
      row[remain] := row[remain].(bits := 0);
      remain := remain + 1;
    }
    forall j | 0 <= j < 65536
      ensures row[j] == Installed(es, prev)[j]
    {
      InstalledLookup(es, prev, j);
    }
  }

  /** The `spread` slots of symbol `k`, from slot `vlc` on. */
  method PutSymbol(row: array<VlcCode>, es: seq<VlcCode>, k: nat, vlc: int, ghost prev: seq<VlcCode>) returns (next: int)
    requires row.Length == 65536 && Canonical(es) && Used(es) <= 65536 && k < |es| && |prev| == 65536
    requires vlc == Used(es[..k]) && vlc <= Used(es)
    requires forall j :: 0 <= j < vlc ==> row[j] == Layout(es)[j]
    requires forall j :: vlc <= j < 65536 ==> row[j] == prev[j]
    modifies row
    ensures next == Used(es[..k + 1]) && next <= Used(es)
    ensures forall j :: 0 <= j < next && j < Used(es) ==> row[j] == Layout(es)[j]
    ensures forall j :: next <= j < 65536 ==> row[j] == prev[j]
  {
    var e := es[k];
    var spread := Spread(e.bits);
    CodeAddress(es, k);
    UsedPrefix(es, k);
    UsedMonotone(es, k + 1);
    var n := 0;
    while n < spread
      invariant 0 <= n <= spread
      invariant forall j :: 0 <= j < vlc ==> row[j] == Layout(es)[j]
      invariant forall j :: vlc <= j < vlc + n ==> row[j] == e
      invariant forall j :: vlc + n <= j < 65536 ==> row[j] == prev[j]
    {
      row[vlc + n] := e;
      n := n + 1;
    }
    forall j | vlc <= j < vlc + spread
      ensures row[j] == Layout(es)[j]
    {
      LayoutAt(es, k, j - vlc);
    }
    next := vlc + spread;
  }

  // ---------------------------------------------------------------------
  // Coefficient values (section F.2.2.1, Figure F.12).

  /** EXTEND: `s` additional bits `v` read as a value of magnitude category
      `s`; a leading 0 bit marks a negative value. */
  function Extend(v: int, s: nat): int
    requires 1 <= s
  {
    if v < Pow2(s - 1) then v - Pow2(s) + 1 else v
  }

  /** The decoded value lies in magnitude category `s`: its absolute value
      is between 2^(s-1) and 2^s - 1, with the sign the top bit selects. */
  lemma ExtendRange(v: nat, s: nat)
    requires 1 <= s && v < Pow2(s)
    ensures var r := Extend(v, s);
      (v >= Pow2(s - 1) ==> r == v && Pow2(s - 1) <= r <= Pow2(s) - 1) &&
      (v < Pow2(s - 1) ==> r < 0 && Pow2(s - 1) <= -r <= Pow2(s) - 1)
  {
    assert Pow2(s) == 2 * Pow2(s - 1);
  }

  /** The magnitude category SSSS of a value (Table F.1): the number of bits
      of its absolute value. */
  function Category(x: int): (s: nat)
    ensures x != 0 ==> s >= 1
    decreases if x < 0 then 1 - x else x
  {
    if x == 0 then 0
    else if x < 0 then Category(-x)
    else 1 + Category(x / 2)
  }

  /** The additional bits the encoder appends for a value (section F.1.2.1):
      the value itself if positive, else the value plus 2^s - 1. */
  function AdditionalBits(x: int): int
  {
    if x >= 0 then x else x + Pow2(Category(x)) - 1
  }

  lemma {:induction false} CategoryBounds(x: nat)
    requires x >= 1
    ensures Pow2(Category(x) - 1) <= x < Pow2(Category(x))
    decreases x
  {
    if x >= 2 {
      CategoryBounds(x / 2);
    }
  }

  /** EXTEND inverts the encoder: the additional bits of a non-zero value,
      read in its category, give the value back. */
  lemma ExtendRoundTrip(x: int)
    requires x != 0
    ensures Category(x) >= 1 && 0 <= AdditionalBits(x) < Pow2(Category(x))
    ensures Extend(AdditionalBits(x), Category(x)) == x
  {
    var s := Category(x);
    if x > 0 {
      CategoryBounds(x);
    } else {
      CategoryBounds(-x);
      assert Pow2(s) == 2 * Pow2(s - 1);
    }
  }

  /** And the other way: every `s`-bit pattern decodes to a value of
      category `s` whose additional bits are that pattern. */
  lemma ExtendIsInjective(v: nat, s: nat)
    requires 1 <= s && v < Pow2(s)
    ensures Extend(v, s) != 0 && Category(Extend(v, s)) == s
    ensures AdditionalBits(Extend(v, s)) == v
  {
    var r := Extend(v, s);
    ExtendRange(v, s);
    var m := if r < 0 then -r else r;
    CategoryOf(m, s);
  }

  lemma {:induction false} CategoryOf(m: nat, s: nat)
    requires 1 <= s && Pow2(s - 1) <= m < Pow2(s)
    ensures Category(m) == s && Category(-(m as int)) == s
    decreases s
  {
    if s > 1 {
      assert Pow2(s - 1) == 2 * Pow2(s - 2);
      CategoryOf(m / 2, s - 1);
    }
  }
}

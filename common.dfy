/** Shared definitions of the uJPEG model: bytes, result codes, powers of two,
    the 8-bit clamp and the few bit operations the decoder applies to bytes. */
module Common {

  /** An `unsigned char` of the decoder. */
  type byte = x: int | 0 <= x < 256

  /** `ujResult` (ujpeg.h), plus the internal `__UJ_FINISHED` code that
      marks the end of a scan and is never reported to a caller. */
  datatype Status =
    | Ok | NoContext | NotDecoded | InvalidArg | IoError | OutOfMem
    | NoJpeg | Unsupported | SyntaxError | InternalErr | Finished
  {
    /** The numeric value of the enum constant. */
    function Code(): (n: nat)
      ensures n <= 10
      ensures n == 10 <==> this == Finished
      ensures n == 0 <==> this == Ok
    {
      match this
      case Ok => 0
      case NoContext => 1
      case NotDecoded => 2
      case InvalidArg => 3
      case IoError => 4
      case OutOfMem => 5
      case NoJpeg => 6
      case Unsupported => 7
      case SyntaxError => 8
      case InternalErr => 9
      case Finished => 10
    }

    /** A code that may be handed to a caller of the API. */
    predicate Reportable() { this != Finished }
  }

  /** The ten reportable result codes are numbered 0 to 9 without gaps or
      repetitions, and the internal end-of-scan code lies outside that range. */
  lemma CodesAreDistinct(a: Status, b: Status)
    ensures a.Code() == b.Code() ==> a == b
    ensures a.Reportable() ==> a.Code() <= 9
  {
  }

  /** The outcome of a parse: a value, or the result code that stopped it. */
  datatype Result<T> = Success(value: T) | Failure(status: Status)

  /** A value that may be absent. */
  datatype Option<T> = None | Some(value: T)

  /** `1 << n`. */
  function Pow2(n: nat): (p: nat)
    ensures p >= 1
  {
    if n == 0 then 1 else 2 * Pow2(n - 1)
  }

  lemma {:induction false} Pow2Add(a: nat, b: nat)
    ensures Pow2(a + b) == Pow2(a) * Pow2(b)
  {
    if a > 0 {
      Pow2Add(a - 1, b);
    }
  }

  lemma {:induction false} Pow2Monotone(a: nat, b: nat)
    requires a <= b
    ensures Pow2(a) <= Pow2(b)
  {
    if a < b {
      Pow2Monotone(a, b - 1);
    }
  }

  /** The powers of two the decoder's byte and 16-bit arithmetic uses. */
  lemma Pow2Values()
    ensures Pow2(3) == 8 && Pow2(8) == 256 && Pow2(15) == 32768 && Pow2(16) == 65536
  {
    assert Pow2(8) == 256;
    Pow2Add(8, 7);
    Pow2Add(8, 8);
  }

  /** One more of a multiple. */
  lemma MulSucc(m: int, s: int)
    ensures m * s + s == (m + 1) * s
  {
  }

  /** `ujClip`: saturate an intermediate value to 0..255. */
  function Clip(x: int): (r: byte)
    ensures 0 <= x < 256 ==> r == x
    ensures x < 0 ==> r == 0
    ensures x > 255 ==> r == 255
  {
    if x < 0 then 0 else if x > 0xFF then 0xFF else x
  }

  /** `ujDecode16`: a big-endian 16-bit field. */
  function Decode16(hi: byte, lo: byte): (v: nat)
    ensures v < 65536
    ensures v / 256 == hi && v % 256 == lo
  {
    hi * 256 + lo
  }

  /** A value reduced to a 32-bit two's-complement `int`, as C arithmetic
      on `int` wraps on the machines the decoder targets. */
  function Wrap32(v: int): (r: int)
    ensures -0x8000_0000 <= r < 0x8000_0000
    ensures -0x8000_0000 <= v < 0x8000_0000 ==> r == v
  {
    (v + 0x8000_0000) % 0x1_0000_0000 - 0x8000_0000
  }

  /** Bitwise `a & b` on two bytes. */
  function And8(a: byte, b: byte): byte
  {
    ((a as bv8) & (b as bv8)) as int
  }

  /** Bitwise `(a | (a >> 3)) & 3` on a byte: the table slot of a Huffman
      table class/identifier byte. */
  function DhtSlot(a: byte): (s: int)
    ensures 0 <= s < 4
  {
    (((a as bv8) | ((a as bv8) >> 3)) & 3) as int
  }

  /** Division by a positive divisor is determined by quotient and remainder. */
  lemma DivModUnique(x: int, d: int, q: int, r: int)
    requires d > 0 && 0 <= r < d && x == q * d + r
    ensures x / d == q && x % d == r
  {
    var q0 := x / d;
    var r0 := x % d;
    assert x == q0 * d + r0;
    if q > q0 {
      MulAtLeast(q - q0, d);
    } else if q < q0 {
      MulAtLeast(q0 - q, d);
    }
  }

  lemma MulAtLeast(a: int, d: int)
    requires a >= 1 && d > 0
    ensures a * d >= d
  {
  }

  lemma MulMonotone(a: int, b: int, n: int)
    requires a <= b && n >= 0
    ensures a * n <= b * n
  {
  }

  /** Sample `k` (`0 <= k < n`) of row `r` of a plane of `h` rows `n` apart
      lies inside the plane. */
  lemma InPlane(r: int, h: int, n: int, k: int)
    requires 0 <= r < h && 0 <= k < n
    ensures 0 <= r * n + k < h * n && r * n + n <= h * n
  {
    MulAtLeast(h - r, n);
    assert h * n - r * n == (h - r) * n;
  }

  /** Position `i` is one of the first `n` of the column `at`, `at + stride`,
      `at + 2 * stride`, ... of a buffer. */
  predicate OnColumn(i: int, at: int, stride: int, n: int)
    requires stride >= 1
  {
    i >= at && (i - at) % stride == 0 && (i - at) / stride < n
  }

  /** Writing a column one position further: the next position is new to it,
      lies `n` steps down, and is the only position the column gains. */
  lemma ColumnGrows(at: int, stride: int, n: int)
    requires stride >= 1 && 0 <= n
    ensures OnColumn(at + n * stride, at, stride, n + 1) && (n * stride) / stride == n
    ensures !OnColumn(at + n * stride, at, stride, n)
    ensures forall i :: OnColumn(i, at, stride, n + 1) ==> OnColumn(i, at, stride, n) || i == at + n * stride
  {
    DivModUnique(n * stride, stride, n, 0);
    forall i | OnColumn(i, at, stride, n + 1)
      ensures OnColumn(i, at, stride, n) || i == at + n * stride
    {
      var q := (i - at) / stride;
      assert i - at == q * stride;
    }
  }

  /** The `r`-th position of a column belongs to its first `n` when `r < n`. */
  lemma ColumnMember(at: int, stride: int, r: int, n: int)
    requires stride >= 1 && 0 <= r < n
    ensures OnColumn(at + r * stride, at, stride, n) && ((at + r * stride) - at) / stride == r
  {
    DivModUnique(r * stride, stride, r, 0);
  }

  /** On a buffer `w` wide, the column starting at `x` holds exactly the
      positions whose remainder by `w` is `x`, and its step count is the row. */
  lemma ColumnIsResidue(j: int, x: int, w: int, n: int)
    requires 0 <= x < w && 0 <= j < n * w
    ensures OnColumn(j, x, w, n) <==> j % w == x
    ensures j % w == x ==> (j - x) / w == j / w
  {
    var q := j / w;
    var r := j % w;
    if r == x {
      ResidueOnColumn(j, x, w, n);
    } else if j >= x {
      ResidueOffColumn(j, x, w);
    }
  }

  lemma ResidueOnColumn(j: int, x: int, w: int, n: int)
    requires 0 <= x < w && 0 <= j < n * w && j % w == x
    ensures OnColumn(j, x, w, n) && (j - x) / w == j / w
  {
    var q := j / w;
    DivModUnique(j - x, w, q, 0);
    assert q < n by {
      if q >= n {
        MulMonotone(n, q, w);
      }
    }
  }

  lemma ResidueOffColumn(j: int, x: int, w: int)
    requires 0 <= x < w && x <= j && j % w != x
    ensures (j - x) % w != 0
  {
    var q := j / w;
    var r := j % w;
    if r > x {
      DivModUnique(j - x, w, q, r - x);
    } else {
      DivModUnique(j - x, w, q - 1, r - x + w);
    }
  }

  /** Position `j` of a buffer of rows `n` wide lies in row `y` exactly when
      it lies in `[y * n, y * n + n)`; its column is then `j - y * n`. */
  lemma RowOf(j: int, y: int, n: int)
    requires n >= 1 && y * n <= j < y * n + n
    ensures j / n == y && j % n == j - y * n
  {
    DivModUnique(j, n, y, j - y * n);
  }
}

/** The public interface of uJPEG (`ujpeg.h`): the library's error status,
    decoding a JPEG file held in memory into a context, the two option
    switches, and the queries and the conversion on a decoded context. A
    handle that may be `NULL` is a `Context?`. */
module Api {
  import opened Common
  import Decoder
  import Planes
  import Color

  /** The status a query sets before it answers: `UJ_NO_CONTEXT` without a
      context, `UJ_NOT_DECODED` when the context does not have what the
      query needs, `UJ_OK` otherwise. */
  function Gate(present: bool, ready: bool): (e: Status)
    ensures e.Reportable()
    ensures e == Ok <==> present && ready
  {
    if !present then NoContext else if ready then Ok else NotDecoded
  }

  /** The checks of `ujGetPlane` as written: the status they leave and the
      index of the component whose address is returned. Only the upper
      bound of the plane number is checked. */
  function PlaneAsWritten(decoded: bool, ncomp: int, num: int): (r: Result<int>)
    ensures r.Success? <==> decoded && num < ncomp
    ensures r.Success? ==> r.value == num
  {
    if !decoded then Failure(NotDecoded)
    else if num >= ncomp then Failure(InvalidArg)
    else Success(num)
  }

  /** A negative plane number passes the checks as written, so the handle
      returned addresses memory before the first component. */
  lemma NegativePlaneIsAccepted()
    ensures PlaneAsWritten(true, 3, -1) == Success(-1)
  {
  }

  /** `ujGetPlane`'s checks with the lower bound the plane numbers 0 (Y),
      1 (Cb) and 2 (Cr) evidently call for: a plane is handed out exactly
      when the context is decoded and the number names one of its
      components. */
  function PlaneIndex(decoded: bool, ncomp: int, num: int): (r: Result<int>)
    ensures r.Success? <==> decoded && 0 <= num < ncomp
    ensures r.Success? ==> r.value == num
    ensures r.Failure? ==> r.status == (if decoded then InvalidArg else NotDecoded)
  {
    if !decoded then Failure(NotDecoded)
    else if num < 0 || num >= ncomp then Failure(InvalidArg)
    else Success(num)
  }

  /** The corrected checks differ from the ones as written only on negative
      plane numbers, which they reject. */
  lemma PlaneIndexOnlyAddsLowerBound(decoded: bool, ncomp: int, num: int)
    ensures 0 <= num ==> PlaneIndex(decoded, ncomp, num) == PlaneAsWritten(decoded, ncomp, num)
    ensures num < 0 && decoded ==> PlaneIndex(decoded, ncomp, num) == Failure(InvalidArg)
  {
  }

  /** `ujGetImageSize` as written: `width * height * ncomp` in 32-bit
      `int` arithmetic, evaluated left to right. */
  function ImageSizeAsWritten(width: int, height: int, ncomp: int): (n: int)
    ensures -0x8000_0000 <= n < 0x8000_0000
  {
    Wrap32(Wrap32(width * height) * ncomp)
  }

  /** A colour frame of 41887 by 34179 samples passes every header check
      (both sizes fit the 16-bit fields, each plane holds fewer than 2^31
      samples), yet the image size as written wraps to 23 bytes: a buffer
      allocated by that size receives over four billion bytes. */
  lemma HugeImageSizeWraps()
    ensures 41887 < 65536 && 34179 < 65536 && 41888 * 34184 < 0x8000_0000
    ensures ImageSizeAsWritten(41887, 34179, 3) == 23
    ensures 41887 * 34179 * 3 == 0x1_0000_0000 + 23
  {
    assert 41887 * 34179 == 1431655773;
  }

  /** `out` holds the picture of `img` packed as `ujConvert` packs it: RGB
      triples row by row for a colour picture, and for a grayscale one the
      luma rows from the second on. */
  ghost predicate Packed(img: Decoder.Context, out: array<byte>)
    requires img.Structure() && 1 <= img.width
    reads img, img.comp[0], img.comp[1], img.comp[2], img.comp[0].pixels, img.comp[1].pixels, img.comp[2].pixels, out
  {
    var c0, c1, c2 := img.comp[0], img.comp[1], img.comp[2];
    (img.ncomp == 3 ==>
       forall j :: 0 <= j < 3 * (img.width * img.height) && j < out.Length ==>
         out[j] == Color.RgbSample(c0.pixels[..], c0.stride, c1.pixels[..], c1.stride, c2.pixels[..], c2.stride, img.width, j)) &&
    (img.ncomp == 1 ==>
       forall j :: 0 <= j < img.width * (img.height - 1) && j < out.Length ==>
         out[j] == Color.GraySample(c0.pixels[..], c0.stride, img.width, j))
  }

  /** The library's one piece of global state, `ujError`: the status the
      last call left behind, which `ujGetError` reports. */
  class Library {
    var error: Status

    /** `ujError` never holds the internal end-of-scan code between calls. */
    ghost predicate Valid()
      reads this
    {
      error.Reportable()
    }

    /** The library as loaded: `ujError` starts as `UJ_OK`. */
    constructor ()
      ensures Valid() && error == Ok
    {
      error := Ok;
    }

    /** `ujGetError`: the status of the last call, which is never the
        internal end-of-scan code. */
    function GetError(): (e: Status)
      requires Valid()
      reads this
      ensures e.Reportable() && e.Code() < 10
    {
      error
    }

    /** `ujCreate`: a new zeroed context that decodes its scans and uses
        the accurate chroma filters. */
    method Create() returns (uj: Decoder.Context)
      modifies this
      ensures Valid() && error == Ok
      ensures fresh(uj) && uj.Valid() && uj.Zeroed() && !uj.noDecode && !uj.fastChroma
      ensures fresh(uj.input) && fresh(uj.comp[0]) && fresh(uj.comp[1]) && fresh(uj.comp[2]) && fresh(uj.block)
      ensures fresh(uj.vlctab[0]) && fresh(uj.vlctab[1]) && fresh(uj.vlctab[2]) && fresh(uj.vlctab[3])
      ensures fresh(uj.comp[0].pixels) && fresh(uj.comp[1].pixels) && fresh(uj.comp[2].pixels)
    {
      uj := new Decoder.Context();
      error := Ok;
    }

    /** `ujDecode`: decode `jpeg` into `img`, which is reset first, or into
        a new context when `img` is absent. The handle comes back exactly
        when the decode succeeded or a scan header was accepted before a
        fault in the entropy-coded data; otherwise a new context is
        released and the call answers `NULL`. The status is never the
        internal end-of-scan code, and a file that does not open with the
        start-of-image marker is refused as no JPEG. */
    method Decode(img: Decoder.Context?, jpeg: seq<byte>) returns (r: Decoder.Context?)
      requires img != null ==> img.Valid()
      modifies this`error, if img == null then {} else {img} + img.Parts()
      ensures Valid()
      ensures error == Ok || error == NoJpeg || error == SyntaxError || error == Unsupported
      ensures !Decoder.Soi(jpeg) ==> r == null && error == NoJpeg
      ensures r == null ==> error != Ok
      ensures r != null ==>
        r.Valid() && r.valid && r.rgb == null && r.input.data == jpeg && r.decoded == !r.noDecode &&
        (error == Ok || (r.decoded && error == SyntaxError))
      ensures img != null ==>
        img.Valid() && img.noDecode == old(img.noDecode) && img.fastChroma == old(img.fastChroma) &&
        (r == null <==> !img.valid) && (r != null ==> r == img)
      ensures img == null && r != null ==> fresh(r) && !r.noDecode && !r.fastChroma
    {
      var uj := DecodeInto(img, jpeg);
      r := if uj.input.error != Ok && !uj.valid then null else uj;
      Report(uj.input.error);
    }

    /** Leave `e` as the status of the call. */
    method Report(e: Status)
      requires e.Reportable()
      modifies this`error
      ensures Valid() && error == e
    {
      error := e;
    }

    /** `ujDisableDecoding`: later decodes into `img` stop after the scan
        header; without a context the call fails. */
    method DisableDecoding(img: Decoder.Context?)
      requires img != null ==> img.Valid()
      modifies this, img
      ensures Valid() && error == Gate(img != null, true)
      ensures img != null ==> img.Valid() && img.noDecode && img.fastChroma == old(img.fastChroma)
    {
      if img != null {
        img.noDecode := true;
        error := Ok;
      } else {
        error := NoContext;
      }
    }

    /** `ujSetChromaMode`: any nonzero mode selects the fast chroma
        upsampling (`UJ_CHROMA_MODE_FAST` is 1), zero the accurate filters;
        without a context the call fails. */
    method SetChromaMode(img: Decoder.Context?, mode: int)
      requires img != null ==> img.Valid()
      modifies this, img
      ensures Valid() && error == Gate(img != null, true)
      ensures img != null ==> img.Valid() && img.fastChroma == (mode != 0) && img.noDecode == old(img.noDecode)
    {
      if img != null {
        img.fastChroma := mode != 0;
        error := Ok;
      } else {
        error := NoContext;
      }
    }

    /** `ujIsValid`: whether the last decode into `img` accepted a scan;
        only a missing context touches the status. */
    method IsValid(img: Decoder.Context?) returns (v: bool)
      requires Valid()
      modifies this
      ensures Valid()
      ensures img == null ==> !v && error == NoContext
      ensures img != null ==> v == img.valid && error == old(error)
    {
      if img == null {
        error := NoContext;
        return false;
      }
      v := img.valid;
    }

    /** `ujGetWidth`: the picture's width, at least one, for a valid
        context, and 0 with the failing status otherwise. */
    method GetWidth(img: Decoder.Context?) returns (w: int)
      requires img != null ==> img.Valid()
      modifies this
      ensures Valid() && error == Gate(img != null, img != null && img.valid)
      ensures error == Ok ==> w == img.width && 1 <= w
      ensures error != Ok ==> w == 0
    {
      error := Gate(img != null, img != null && img.valid);
      w := if error != Ok then 0 else img.width;
    }

    /** `ujGetHeight`: the picture's height, at least one, for a valid
        context, and 0 with the failing status otherwise. */
    method GetHeight(img: Decoder.Context?) returns (h: int)
      requires img != null ==> img.Valid()
      modifies this
      ensures Valid() && error == Gate(img != null, img != null && img.valid)
      ensures error == Ok ==> h == img.height && 1 <= h
      ensures error != Ok ==> h == 0
    {
      error := Gate(img != null, img != null && img.valid);
      h := if error != Ok then 0 else img.height;
    }

    /** `ujIsColor`: a valid picture is in colour exactly when it has three
        components; it has one otherwise. */
    method IsColor(img: Decoder.Context?) returns (color: bool)
      requires img != null ==> img.Valid()
      modifies this
      ensures Valid() && error == Gate(img != null, img != null && img.valid)
      ensures error == Ok ==> (color <==> img.ncomp == 3) && (!color <==> img.ncomp == 1)
      ensures error != Ok ==> !color
    {
      error := Gate(img != null, img != null && img.valid);
      color := if error != Ok then false else img.ncomp != 1;
    }

    /** `ujGetImageSize`: the bytes of the packed picture, one per sample
        and component, which is the size of the buffer `GetImage` fills;
        0 with the failing status without a valid picture. */
    method GetImageSize(img: Decoder.Context?) returns (size: int)
      requires img != null ==> img.Valid()
      modifies this
      ensures Valid() && error == Gate(img != null, img != null && img.valid)
      ensures error == Ok ==> size == img.width * img.height * img.ncomp && img.width <= size
      ensures error != Ok ==> size == 0
    {
      error := Gate(img != null, img != null && img.valid);
      if error != Ok {
        return 0;
      }
      size := img.width * img.height * img.ncomp;
      assert img.width <= size by {
        MulAtLeast(img.height, img.width);
        MulAtLeast(img.ncomp, img.width * img.height);
      }
    }

    /** `ujGetPlane`: component `num` of a decoded context, at least one
        sample wide and high with its rows inside its buffer, or no plane
        with the failing status. */
    method GetPlane(img: Decoder.Context?, num: int) returns (p: Planes.Component?)
      requires img != null ==> img.Valid()
      modifies this
      ensures Valid()
      ensures img == null ==> p == null && error == NoContext
      ensures img != null ==>
        match PlaneIndex(img.decoded, img.ncomp, num)
        case Failure(e) => p == null && error == e
        case Success(i) => p == img.comp[i] && error == Ok && p.Shape()
    {
      if img == null {
        error := NoContext;
        return null;
      }
      match PlaneIndex(img.decoded, img.ncomp, num)
      case Failure(e) =>
        error := e;
        p := null;
      case Success(i) =>
        error := Ok;
        p := img.comp[i];
    }

    /** `ujGetImage`: the packed picture of a decoded context. Given a
        buffer `dest`, the picture goes there: a copy of the packed image
        kept by an earlier call, or else a fresh conversion. Without one,
        the first call converts into a new buffer of the image size that
        the context keeps, and later calls hand back that same buffer
        untouched. */
    method GetImage(img: Decoder.Context?, dest: array?<byte>) returns (r: array?<byte>)
      requires Valid() && (img != null ==> img.Valid())
      requires img != null && img.decoded && dest != null ==>
        img.width * img.height * img.ncomp <= dest.Length && dest != img.rgb &&
        dest != img.comp[0].pixels && dest != img.comp[1].pixels && dest != img.comp[2].pixels
      modifies this, img, if img == null then {} else {img.comp[0], img.comp[1], img.comp[2]}, dest
      ensures Valid() && (img != null ==> img.Valid() && img.decoded == old(img.decoded))
      ensures error == Gate(img != null, img != null && old(img.decoded)) && (r == null <==> error != Ok)
      ensures r != null && dest != null ==> r == dest
      ensures r != null && dest == null ==> r == img.rgb && r.Length == img.width * img.height * img.ncomp
      ensures r != null && old(img.rgb) != null ==>
        img.rgb == old(img.rgb) && unchanged(img.rgb) &&
        forall j :: 0 <= j < img.width * img.height * img.ncomp && j < r.Length ==> r[j] == img.rgb[j]
      ensures r != null && old(img.rgb) == null ==> (dest == null ==> fresh(r)) && Packed(img, r)
    {
      error := Gate(img != null, img != null && img.decoded);
      if error != Ok {
        return null;
      }
      if dest != null {
        IntoBuffer(img, dest);
        return dest;
      }
      r := IntoCache(img);
    }
  }

  /** `ujGetImage` given a buffer: a copy of the packed image the context
      keeps, or else a fresh conversion into the buffer. */
  method IntoBuffer(img: Decoder.Context, dest: array<byte>)
    requires img.Valid() && img.decoded
    requires img.width * img.height * img.ncomp <= dest.Length && dest != img.rgb
    requires dest != img.comp[0].pixels && dest != img.comp[1].pixels && dest != img.comp[2].pixels
    modifies img.comp[0], img.comp[1], img.comp[2], dest
    ensures img.Valid()
    ensures img.rgb != null ==>
      unchanged(img.rgb) && forall j :: 0 <= j < img.width * img.height * img.ncomp && j < dest.Length ==> dest[j] == img.rgb[j]
    ensures img.rgb == null ==> Packed(img, dest)
  {
    if img.rgb != null {
      Copy(img.rgb, dest, img.width * img.height * img.ncomp);
    } else {
      img.Convert(dest);
    }
  }

  /** `ujGetImage` without a buffer: the packed image the context keeps,
      converted into a new buffer of the image size on the first call. */
  method IntoCache(img: Decoder.Context) returns (r: array<byte>)
    requires img.Valid() && img.decoded
    modifies img, img.comp[0], img.comp[1], img.comp[2]
    ensures img.Valid() && img.decoded && r == img.rgb && r.Length == img.width * img.height * img.ncomp
    ensures old(img.rgb) != null ==> r == old(img.rgb) && unchanged(r)
    ensures old(img.rgb) == null ==> fresh(r) && Packed(img, r)
  {
    if img.rgb != null {
      return img.rgb;
    }
    r := new byte[img.width * img.height * img.ncomp];
    img.Convert(r);
    img.Cache(r);
  }

  /** The decoding half of `ujDecode`: the context prepared, then the
      start-of-image check and the marker loop run on it. */
  method DecodeInto(img: Decoder.Context?, jpeg: seq<byte>) returns (uj: Decoder.Context)
    requires img != null ==> img.Valid()
    modifies if img == null then {} else {img} + img.Parts()
    ensures uj.Valid() && uj.input.data == jpeg && uj.rgb == null && uj.decoded == (uj.valid && !uj.noDecode)
    ensures uj.input.error == Ok || uj.input.error == NoJpeg || uj.input.error == SyntaxError || uj.input.error == Unsupported
    ensures !Decoder.Soi(jpeg) ==> uj.input.error == NoJpeg && !uj.valid
    ensures uj.input.error == Ok ==> uj.valid
    ensures uj.valid ==> uj.input.error == Ok || (uj.decoded && uj.input.error == SyntaxError)
    ensures img != null ==> uj == img && uj.noDecode == old(img.noDecode) && uj.fastChroma == old(img.fastChroma)
    ensures img == null ==> fresh(uj) && !uj.noDecode && !uj.fastChroma
  {
    uj := Prepare(img);
    uj.Run(jpeg);
  }

  /** The context `ujDecode` decodes into: `img` reset by `ujInit`, or a
      new one from `ujCreate`. */
  method Prepare(img: Decoder.Context?) returns (uj: Decoder.Context)
    requires img != null ==> img.Valid()
    modifies if img == null then {} else {img} + img.Parts()
    ensures uj.Valid() && !uj.valid && uj.rgb == null
    ensures fresh(uj.comp[0].pixels) && fresh(uj.comp[1].pixels) && fresh(uj.comp[2].pixels)
    ensures img != null ==> uj == img && uj.noDecode == old(img.noDecode) && uj.fastChroma == old(img.fastChroma)
    ensures img == null ==>
      fresh(uj) && !uj.noDecode && !uj.fastChroma &&
      fresh(uj.input) && fresh(uj.comp[0]) && fresh(uj.comp[1]) && fresh(uj.comp[2]) && fresh(uj.block) &&
      fresh(uj.vlctab[0]) && fresh(uj.vlctab[1]) && fresh(uj.vlctab[2]) && fresh(uj.vlctab[3])
  {
    if img == null {
      uj := new Decoder.Context();
    } else {
      uj := img;
      uj.Init();
    }
  }

  /** `memcpy(dest, src, n)`: the first `n` bytes of `src` copied into
      `dest`, the rest of `dest` kept. */
  method Copy(src: array<byte>, dest: array<byte>, n: int)
    requires 0 <= n <= src.Length && n <= dest.Length && src != dest
    modifies dest
    ensures forall j :: 0 <= j < n ==> dest[j] == src[j]
    ensures forall j :: n <= j < dest.Length ==> dest[j] == old(dest[j])
  {
    forall j | 0 <= j < n {
      dest[j] := src[j];
    }
  }
}

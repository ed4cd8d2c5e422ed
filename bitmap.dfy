/**
  The bitmap container reader (bitmap.go): the BITMAPFILEHEADER and
  BITMAPINFOHEADER fields the converter needs, the acceptance rule for image
  dimensions, and the cut-out of the pixel data.

  The file's contents are an input byte sequence; reading the file is not
  part of this model. Each parser exists twice: the function named
  ...AsWritten follows the length guards of the source exactly, and the
  function without the suffix has the guard the bytes it reads require.
 */
module Bitmap {
  import opened Bytes

  /** Bytes the file-header parser reads: 0..14. */
  const FileHeaderEnd: nat := 14
  /** Bytes the image-header parser reads: up to the image size field at 38..42. */
  const ImageHeaderEnd: nat := 42
  /** The length guard of ParseFileHeader as written (bitmap.go:62). */
  const FileHeaderGuard: nat := 4
  /** The length guard of ParseImageHeader as written (bitmap.go:93): 14 + 12. */
  const ImageHeaderGuard: nat := 26
  /** The only accepted image width, in pixels. */
  const RequiredWidth: nat := 128

  datatype Error =
    | FileHeaderTooShort     // "Data too short for header"
    | ImageHeaderTooShort    // "Data too short for image header"
    | WidthNot128            // "Image width must be 128"
    | HeightNotMultipleOf8   // "Image height must be a multiple of 8"
    | OffsetPastEnd          // pixel-data offset beyond the end of the file

  /**
    What a parsing step ends in: a value, a reported error, or a read or slice
    outside the bytes of the file. For the last, Go panics, or (when the slice
    handed over by the file reader has spare capacity) reads bytes that are not
    part of the file; the model does not tell the two apart.
   */
  datatype Outcome<+T> = Parsed(value: T) | Failed(error: Error) | OutOfRange

  datatype FileHeader = FileHeader(size: nat, offset: nat)

  datatype ImageHeader = ImageHeader(
    headerSize: nat,
    width: nat,
    height: nat,
    bitDepth: nat,
    compression: nat,
    size: nat,
    ppmX: nat,
    ppmY: nat,
    colorMapEntries: nat,
    significantColors: nat)

  /** An opened bitmap: its two headers and the pixel data. */
  datatype Image = Image(fileHeader: FileHeader, imageHeader: ImageHeader, data: seq<byte>)

  // ---------------------------------------------------------------- file header

  /** ParseFileHeader with the guard of bitmap.go:62, which checks for 4 bytes but reads 14. */
  function ParseFileHeaderAsWritten(input: seq<byte>): (r: Outcome<FileHeader>)
    ensures r.Failed? <==> |input| < FileHeaderGuard
    ensures r.OutOfRange? <==> FileHeaderGuard <= |input| < FileHeaderEnd
    ensures r.Parsed? ==> r == ParseFileHeader(input)
  {
    if |input| < FileHeaderGuard then Failed(FileHeaderTooShort)
    else if |input| < FileHeaderEnd then OutOfRange
    else ParseFileHeader(input)
  }

  /** The file header: file size at bytes 2..6, pixel-data offset at bytes 10..14. */
  function ParseFileHeader(input: seq<byte>): (r: Outcome<FileHeader>)
    ensures r.Parsed? <==> |input| >= FileHeaderEnd
    ensures !r.Parsed? ==> r == Failed(FileHeaderTooShort)
    ensures r.Parsed? ==> r.value.size < TwoTo32 && r.value.offset < TwoTo32
  {
    if |input| < FileHeaderEnd then Failed(FileHeaderTooShort)
    else Parsed(FileHeader(LE32(input, 2), LE32(input, 10)))
  }

  /** Fields that fit the 32-bit slots of the file header. */
  predicate FileHeaderFits(h: FileHeader) {
    h.size < TwoTo32 && h.offset < TwoTo32
  }

  /** raw with h's two fields stored at their offsets. */
  function WriteFileHeader(raw: seq<byte>, h: FileHeader): (r: seq<byte>)
    requires |raw| >= FileHeaderEnd && FileHeaderFits(h)
    ensures |r| == |raw|
    ensures forall k :: 0 <= k < |raw| && !(2 <= k < 6) && !(10 <= k < 14) ==> r[k] == raw[k]
  {
    Put32(Put32(raw, 2, h.size), 10, h.offset)
  }

  /** Parsing a written file header returns the fields written. */
  lemma FileHeaderRoundTrip(raw: seq<byte>, h: FileHeader)
    requires |raw| >= FileHeaderEnd && FileHeaderFits(h)
    ensures ParseFileHeader(WriteFileHeader(raw, h)) == Parsed(h)
  {
    var s1 := Put32(raw, 2, h.size);
    LE32Put32(raw, 2, h.size);
    LE32Put32(s1, 10, h.offset);
    LE32Frame(s1, Put32(s1, 10, h.offset), 2);
  }

  /** Writing back the parsed file header reproduces the input. */
  lemma FileHeaderWriteBack(raw: seq<byte>)
    requires |raw| >= FileHeaderEnd
    ensures ParseFileHeader(raw).Parsed?
    ensures WriteFileHeader(raw, ParseFileHeader(raw).value) == raw
  {
    Put32LE32(raw, 2);
    Put32LE32(raw, 10);
  }

  /** Only bytes 2..6 and 10..14 decide the parsed file header. */
  lemma FileHeaderReadsOnlyItsFields(s: seq<byte>, t: seq<byte>)
    requires |s| >= FileHeaderEnd && |t| >= FileHeaderEnd
    requires s[2..6] == t[2..6] && s[10..14] == t[10..14]
    ensures ParseFileHeader(s) == ParseFileHeader(t)
  {
    LE32Frame(s, t, 2);
    LE32Frame(s, t, 10);
  }

  // --------------------------------------------------------------- image header

  /** ParseImageHeader with the guard of bitmap.go:93, which checks for 26 bytes but reads 42. */
  function ParseImageHeaderAsWritten(input: seq<byte>): (r: Outcome<ImageHeader>)
    ensures r.Failed? <==> |input| < ImageHeaderGuard
    ensures r.OutOfRange? <==> ImageHeaderGuard <= |input| < ImageHeaderEnd
    ensures r.Parsed? ==> r == ParseImageHeader(input)
  {
    if |input| < ImageHeaderGuard then Failed(ImageHeaderTooShort)
    else if |input| < ImageHeaderEnd then OutOfRange
    else ParseImageHeader(input)
  }

  /**
    The five fields the converter reads: header size at 14, width at 18 and
    height at 22 (32 bits), bit depth at 28 (16 bits), image size at 38
    (32 bits). Compression, resolution and the colour counts stay zero.
   */
  function ParseImageHeader(input: seq<byte>): (r: Outcome<ImageHeader>)
    ensures r.Parsed? <==> |input| >= ImageHeaderEnd
    ensures !r.Parsed? ==> r == Failed(ImageHeaderTooShort)
    ensures r.Parsed? ==> ImageHeaderFits(r.value)
  {
    if |input| < ImageHeaderEnd then Failed(ImageHeaderTooShort)
    else Parsed(ImageHeader(LE32(input, 14), LE32(input, 18), LE32(input, 22), LE16(input, 28),
                            0, LE32(input, 38), 0, 0, 0, 0))
  }

  /**
    A header the parser can produce: the written fields fit their slots and
    the fields the parser never writes are zero.
   */
  predicate ImageHeaderFits(h: ImageHeader) {
    && h.headerSize < TwoTo32 && h.width < TwoTo32 && h.height < TwoTo32
    && h.bitDepth < TwoTo16 && h.size < TwoTo32
    && h.compression == 0 && h.ppmX == 0 && h.ppmY == 0
    && h.colorMapEntries == 0 && h.significantColors == 0
  }

  /** raw with h's five parsed fields stored at their offsets. */
  function WriteImageHeader(raw: seq<byte>, h: ImageHeader): (r: seq<byte>)
    requires |raw| >= ImageHeaderEnd && ImageHeaderFits(h)
    ensures |r| == |raw|
  {
    var s1 := Put32(raw, 14, h.headerSize);
    var s2 := Put32(s1, 18, h.width);
    var s3 := Put32(s2, 22, h.height);
    var s4 := Put16(s3, 28, h.bitDepth);
    Put32(s4, 38, h.size)
  }

  /** Parsing a written image header returns the header written. */
  lemma ImageHeaderRoundTrip(raw: seq<byte>, h: ImageHeader)
    requires |raw| >= ImageHeaderEnd && ImageHeaderFits(h)
    ensures ParseImageHeader(WriteImageHeader(raw, h)) == Parsed(h)
  {
    var s1 := Put32(raw, 14, h.headerSize);
    var s2 := Put32(s1, 18, h.width);
    var s3 := Put32(s2, 22, h.height);
    var s4 := Put16(s3, 28, h.bitDepth);
    var s5 := Put32(s4, 38, h.size);
    LE32Put32(raw, 14, h.headerSize);
    LE32Put32(s1, 18, h.width);
    LE32Put32(s2, 22, h.height);
    LE16Put16(s3, 28, h.bitDepth);
    LE32Put32(s4, 38, h.size);
    LE32Frame(s1, s5, 14);
    LE32Frame(s2, s5, 18);
    LE32Frame(s3, s5, 22);
    assert LE16(s4, 28) == LE16(s5, 28);
  }

  /** Writing back the parsed image header reproduces the input. */
  lemma ImageHeaderWriteBack(raw: seq<byte>)
    requires |raw| >= ImageHeaderEnd
    ensures ParseImageHeader(raw).Parsed?
    ensures WriteImageHeader(raw, ParseImageHeader(raw).value) == raw
  {
    Put32LE32(raw, 14);
    Put32LE32(raw, 18);
    Put32LE32(raw, 22);
    Put16LE16(raw, 28);
    Put32LE32(raw, 38);
  }

  // ------------------------------------------------------------------ OpenBitmap

  /** The dimensions OpenBitmap accepts: 128 pixels wide, a multiple of 8 high. */
  predicate Accepted(h: ImageHeader): (r: bool)
    ensures r ==> h.width / 8 == 16 && h.height == 8 * (h.height / 8)
  {
    h.width == RequiredWidth && h.height % 8 == 0
  }

  /** The image header of a file long enough to hold one. */
  function ImageHeaderAt(raw: seq<byte>): (h: ImageHeader)
    requires |raw| >= ImageHeaderEnd
    ensures ParseImageHeader(raw) == Parsed(h)
  {
    ParseImageHeader(raw).value
  }

  /** A file OpenBitmap accepts: a full header, 128 wide, height a multiple of 8, offset inside the file. */
  predicate Acceptable(raw: seq<byte>) {
    && |raw| >= ImageHeaderEnd
    && Accepted(ImageHeaderAt(raw))
    && LE32(raw, 10) <= |raw|
  }

  /**
    OpenBitmap after the file is read (bitmap.go:24-48), with the source's
    guards: both header parsers as written, and no check of the offset before
    the pixel data is sliced out.
   */
  function OpenBitmapAsWritten(raw: seq<byte>): (r: Outcome<Image>)
    ensures r.OutOfRange? <==>
      || FileHeaderGuard <= |raw| < FileHeaderEnd
      || ImageHeaderGuard <= |raw| < ImageHeaderEnd
      || OpenBitmap(raw) == Failed(OffsetPastEnd)
    ensures !r.OutOfRange? ==> r == OpenBitmap(raw)
  {
    match ParseFileHeaderAsWritten(raw)
    case Failed(e) => Failed(e)
    case OutOfRange => OutOfRange
    case Parsed(fh) =>
      match ParseImageHeaderAsWritten(raw)
      case Failed(e) => Failed(e)
      case OutOfRange => OutOfRange
      case Parsed(ih) =>
        if ih.width != RequiredWidth then Failed(WidthNot128)
        else if ih.height % 8 != 0 then Failed(HeightNotMultipleOf8)
        else if fh.offset > |raw| then OutOfRange
        else Parsed(Image(fh, ih, raw[fh.offset..]))
  }

  /**
    OpenBitmap with every read inside the file: the file-header error comes
    first, then the image-header error, then the width, then the height, and
    an offset past the end of the file is reported instead of sliced.
   */
  function OpenBitmap(raw: seq<byte>): (r: Outcome<Image>)
    ensures !r.OutOfRange?
    ensures r.Parsed? <==> Acceptable(raw)
    ensures |raw| < FileHeaderEnd ==> r == Failed(FileHeaderTooShort)
    ensures FileHeaderEnd <= |raw| < ImageHeaderEnd ==> r == Failed(ImageHeaderTooShort)
    ensures |raw| >= ImageHeaderEnd ==>
      (ImageHeaderAt(raw).width != RequiredWidth ==> r == Failed(WidthNot128)) &&
      (ImageHeaderAt(raw).width == RequiredWidth && ImageHeaderAt(raw).height % 8 != 0 ==>
         r == Failed(HeightNotMultipleOf8)) &&
      (Accepted(ImageHeaderAt(raw)) && LE32(raw, 10) > |raw| ==> r == Failed(OffsetPastEnd))
    ensures r.Parsed? ==>
      && r.value.fileHeader == FileHeader(LE32(raw, 2), LE32(raw, 10))
      && r.value.imageHeader == ImageHeaderAt(raw)
      && Accepted(r.value.imageHeader)
      && r.value.fileHeader.offset <= |raw|
      && r.value.data == raw[r.value.fileHeader.offset..]
      && |r.value.data| == |raw| - r.value.fileHeader.offset
  {
    match ParseFileHeader(raw)
    case Failed(e) => Failed(e)
    case OutOfRange => OutOfRange
    case Parsed(fh) =>
      match ParseImageHeader(raw)
      case Failed(e) => Failed(e)
      case OutOfRange => OutOfRange
      case Parsed(ih) =>
        if ih.width != RequiredWidth then Failed(WidthNot128)
        else if ih.height % 8 != 0 then Failed(HeightNotMultipleOf8)
        else if fh.offset > |raw| then Failed(OffsetPastEnd)
        else Parsed(Image(fh, ih, raw[fh.offset..]))
  }

  /** A 4-byte file passes the file-header guard, yet its header is read from bytes 0..14. */
  lemma FileHeaderGuardTooWeak()
    ensures ParseFileHeaderAsWritten([0, 0, 0, 0]) == OutOfRange
    ensures ParseFileHeader([0, 0, 0, 0]) == Failed(FileHeaderTooShort)
  {
  }

  /** A 26-byte file passes the image-header guard, yet bytes up to 42 are read. */
  lemma ImageHeaderGuardTooWeak()
    ensures ParseImageHeaderAsWritten(seq(26, _ => 0)) == OutOfRange
    ensures ParseImageHeader(seq(26, _ => 0)) == Failed(ImageHeaderTooShort)
  {
  }

  /** A 42-byte, 128x0 image whose pixel-data offset is 1000 is sliced past its end. */
  lemma OffsetPastEndIsSliced()
    ensures var raw := WriteFileHeader(Put32(seq(42, _ => 0), 18, 128), FileHeader(0, 1000));
      && OpenBitmapAsWritten(raw) == OutOfRange
      && OpenBitmap(raw) == Failed(OffsetPastEnd)
  {
    var zeros: seq<byte> := seq(42, _ => 0);
    var s1 := Put32(zeros, 18, 128);
    var raw := WriteFileHeader(s1, FileHeader(0, 1000));
    LE32Put32(zeros, 18, 128);
    FileHeaderRoundTrip(s1, FileHeader(0, 1000));
    LE32Frame(s1, raw, 18);
    LE32Frame(s1, raw, 22);
    assert LE32(s1, 22) == 0;
  }
}

/** The byte-packed 65-byte `VTFHeader` (version 7.2 layout): field
    offsets and widths, and the little-endian reading and writing of it. */
module VtfHeader {
  import opened Bytes

  const HEADER_BYTES: nat := 65

  /** `VTF_SIGNATURE`: 'V', 'T', 'F' and a terminating NUL. */
  const SIGNATURE: seq<byte> := [0x56, 0x54, 0x46, 0x00]

  datatype Field =
    | Signature | VersionMajor | VersionMinor | HeaderSize | Width | Height
    | Flags | Frames | FirstFrame | Padding0 | Reflectivity | Padding1
    | BumpmapScale | HighResImageFormat | MipmapCount | LowResImageFormat
    | LowResImageWidth | LowResImageHeight | Depth

  /** The fields in declaration order. */
  const Fields: seq<Field> := [
    Signature, VersionMajor, VersionMinor, HeaderSize, Width, Height,
    Flags, Frames, FirstFrame, Padding0, Reflectivity, Padding1,
    BumpmapScale, HighResImageFormat, MipmapCount, LowResImageFormat,
    LowResImageWidth, LowResImageHeight, Depth]

  /** Width in bytes of each field's C type. */
  function Size(f: Field): nat {
    match f
    case Signature => 4          // char[4]
    case VersionMajor => 4       // uint32_t version[0]
    case VersionMinor => 4       // uint32_t version[1]
    case HeaderSize => 4
    case Width => 2
    case Height => 2
    case Flags => 4
    case Frames => 2
    case FirstFrame => 2
    case Padding0 => 4
    case Reflectivity => 12      // float[3], kept as opaque bytes
    case Padding1 => 4
    case BumpmapScale => 4       // float, kept as opaque bytes
    case HighResImageFormat => 4
    case MipmapCount => 1
    case LowResImageFormat => 4
    case LowResImageWidth => 1
    case LowResImageHeight => 1
    case Depth => 2
  }

  /** Byte offset of each field within the header. */
  function Offset(f: Field): nat {
    match f
    case Signature => 0
    case VersionMajor => 4
    case VersionMinor => 8
    case HeaderSize => 12
    case Width => 16
    case Height => 18
    case Flags => 20
    case Frames => 24
    case FirstFrame => 26
    case Padding0 => 28
    case Reflectivity => 32
    case Padding1 => 44
    case BumpmapScale => 48
    case HighResImageFormat => 52
    case MipmapCount => 56
    case LowResImageFormat => 57
    case LowResImageWidth => 61
    case LowResImageHeight => 62
    case Depth => 63
  }

  /** Under `#pragma pack(1)` every field starts where the previous one
      ends: no alignment padding, 65 bytes in all. */
  lemma Packed()
    ensures Offset(Fields[0]) == 0
    ensures forall i :: 0 <= i < |Fields| - 1 ==>
      Offset(Fields[i + 1]) == Offset(Fields[i]) + Size(Fields[i])
    ensures Offset(Fields[|Fields| - 1]) + Size(Fields[|Fields| - 1]) == HEADER_BYTES
  {
  }

  /** The field that holds byte `i` of the header. */
  function FieldAt(i: nat): (f: Field)
    requires i < HEADER_BYTES
    ensures Offset(f) <= i < Offset(f) + Size(f)
  {
    if i < 4 then Signature
    else if i < 8 then VersionMajor
    else if i < 12 then VersionMinor
    else if i < 16 then HeaderSize
    else if i < 18 then Width
    else if i < 20 then Height
    else if i < 24 then Flags
    else if i < 26 then Frames
    else if i < 28 then FirstFrame
    else if i < 32 then Padding0
    else if i < 44 then Reflectivity
    else if i < 48 then Padding1
    else if i < 52 then BumpmapScale
    else if i < 56 then HighResImageFormat
    else if i < 57 then MipmapCount
    else if i < 61 then LowResImageFormat
    else if i < 62 then LowResImageWidth
    else if i < 63 then LowResImageHeight
    else Depth
  }

  /** Fields do not overlap: a byte belongs to exactly one field. */
  lemma FieldAtUnique(i: nat, f: Field)
    requires Offset(f) <= i < Offset(f) + Size(f)
    ensures i < HEADER_BYTES && FieldAt(i) == f
  {
  }

  /** The header as integers and opaque byte runs. */
  datatype Header = Header(
    signature: seq<byte>,
    versionMajor: nat,
    versionMinor: nat,
    headerSize: nat,
    width: nat,
    height: nat,
    flags: nat,
    frames: nat,
    firstFrame: nat,
    padding0: seq<byte>,
    reflectivity: seq<byte>,
    padding1: seq<byte>,
    bumpmapScale: seq<byte>,
    highResImageFormat: nat,
    mipmapCount: nat,
    lowResImageFormat: nat,
    lowResImageWidth: nat,
    lowResImageHeight: nat,
    depth: nat)

  /** The bytes a field of `h` occupies in the file. */
  function FieldBytes(h: Header, f: Field): seq<byte> {
    match f
    case Signature => h.signature
    case VersionMajor => EncodeLE(h.versionMajor, 4)
    case VersionMinor => EncodeLE(h.versionMinor, 4)
    case HeaderSize => EncodeLE(h.headerSize, 4)
    case Width => EncodeLE(h.width, 2)
    case Height => EncodeLE(h.height, 2)
    case Flags => EncodeLE(h.flags, 4)
    case Frames => EncodeLE(h.frames, 2)
    case FirstFrame => EncodeLE(h.firstFrame, 2)
    case Padding0 => h.padding0
    case Reflectivity => h.reflectivity
    case Padding1 => h.padding1
    case BumpmapScale => h.bumpmapScale
    case HighResImageFormat => EncodeLE(h.highResImageFormat, 4)
    case MipmapCount => EncodeLE(h.mipmapCount, 1)
    case LowResImageFormat => EncodeLE(h.lowResImageFormat, 4)
    case LowResImageWidth => EncodeLE(h.lowResImageWidth, 1)
    case LowResImageHeight => EncodeLE(h.lowResImageHeight, 1)
    case Depth => EncodeLE(h.depth, 2)
  }

  /** Every field fits its C type. */
  predicate WellFormed(h: Header) {
    && |h.signature| == 4 && |h.padding0| == 4 && |h.reflectivity| == 12
    && |h.padding1| == 4 && |h.bumpmapScale| == 4
    && h.versionMajor < 0x1_0000_0000 && h.versionMinor < 0x1_0000_0000
    && h.headerSize < 0x1_0000_0000 && h.width < 0x1_0000 && h.height < 0x1_0000
    && h.flags < 0x1_0000_0000 && h.frames < 0x1_0000 && h.firstFrame < 0x1_0000
    && h.highResImageFormat < 0x1_0000_0000 && h.mipmapCount < 0x100
    && h.lowResImageFormat < 0x1_0000_0000 && h.lowResImageWidth < 0x100
    && h.lowResImageHeight < 0x100 && h.depth < 0x1_0000
  }

  lemma FieldBytesSize(h: Header, f: Field)
    requires WellFormed(h)
    ensures |FieldBytes(h, f)| == Size(f)
  {
  }

  function Slice(b: seq<byte>, f: Field): (r: seq<byte>)
    requires |b| == HEADER_BYTES
    ensures |r| == Size(f)
  {
    b[Offset(f)..Offset(f) + Size(f)]
  }

  /** Reading the packed struct from 65 bytes, multi-byte fields little-endian. */
  function ParseHeader(b: seq<byte>): (h: Header)
    requires |b| == HEADER_BYTES
    ensures WellFormed(h)
  {
    Header(
      Slice(b, Signature),
      DecodeLE(Slice(b, VersionMajor)),
      DecodeLE(Slice(b, VersionMinor)),
      DecodeLE(Slice(b, HeaderSize)),
      DecodeLE(Slice(b, Width)),
      DecodeLE(Slice(b, Height)),
      DecodeLE(Slice(b, Flags)),
      DecodeLE(Slice(b, Frames)),
      DecodeLE(Slice(b, FirstFrame)),
      Slice(b, Padding0),
      Slice(b, Reflectivity),
      Slice(b, Padding1),
      Slice(b, BumpmapScale),
      DecodeLE(Slice(b, HighResImageFormat)),
      DecodeLE(Slice(b, MipmapCount)),
      DecodeLE(Slice(b, LowResImageFormat)),
      DecodeLE(Slice(b, LowResImageWidth)),
      DecodeLE(Slice(b, LowResImageHeight)),
      DecodeLE(Slice(b, Depth)))
  }

  /** Writing the packed struct: byte `i` comes from the field that holds it. */
  function EncodeHeader(h: Header): (b: seq<byte>)
    requires WellFormed(h)
    ensures |b| == HEADER_BYTES
  {
    seq(HEADER_BYTES, i requires 0 <= i < HEADER_BYTES =>
      FieldBytesSize(h, FieldAt(i));
      FieldBytes(h, FieldAt(i))[i - Offset(FieldAt(i))])
  }

  /** Each field of a written header occupies exactly its slice. */
  lemma {:induction false} EncodedSlice(h: Header, f: Field)
    requires WellFormed(h)
    ensures Slice(EncodeHeader(h), f) == FieldBytes(h, f)
  {
    FieldBytesSize(h, f);
    var b := EncodeHeader(h);
    forall i | 0 <= i < Size(f)
      ensures Slice(b, f)[i] == FieldBytes(h, f)[i]
    {
      FieldAtUnique(Offset(f) + i, f);
    }
  }

  /** A well-formed header is determined by the bytes of its fields. */
  lemma {:induction false} FieldBytesDetermineHeader(g: Header, h: Header)
    requires WellFormed(g) && WellFormed(h)
    requires forall f: Field :: FieldBytes(g, f) == FieldBytes(h, f)
    ensures g == h
  {
    assert FieldBytes(g, Signature) == FieldBytes(h, Signature);
    assert FieldBytes(g, Padding0) == FieldBytes(h, Padding0);
    assert FieldBytes(g, Reflectivity) == FieldBytes(h, Reflectivity);
    assert FieldBytes(g, Padding1) == FieldBytes(h, Padding1);
    assert FieldBytes(g, BumpmapScale) == FieldBytes(h, BumpmapScale);
    LeadingWordsDetermined(g, h);
    TrailingWordsDetermined(g, h);
  }

  /** The integer fields up to `firstFrame` are determined by their bytes. */
  lemma LeadingWordsDetermined(g: Header, h: Header)
    requires WellFormed(g) && WellFormed(h)
    requires forall f: Field :: FieldBytes(g, f) == FieldBytes(h, f)
    ensures g.versionMajor == h.versionMajor && g.versionMinor == h.versionMinor
    ensures g.headerSize == h.headerSize && g.width == h.width && g.height == h.height
    ensures g.flags == h.flags && g.frames == h.frames && g.firstFrame == h.firstFrame
  {
    assert FieldBytes(g, VersionMajor) == FieldBytes(h, VersionMajor);
    EncodeLEInjective(g.versionMajor, h.versionMajor, 4);
    assert FieldBytes(g, VersionMinor) == FieldBytes(h, VersionMinor);
    EncodeLEInjective(g.versionMinor, h.versionMinor, 4);
    assert FieldBytes(g, HeaderSize) == FieldBytes(h, HeaderSize);
    EncodeLEInjective(g.headerSize, h.headerSize, 4);
    assert FieldBytes(g, Width) == FieldBytes(h, Width);
    EncodeLEInjective(g.width, h.width, 2);
    assert FieldBytes(g, Height) == FieldBytes(h, Height);
    EncodeLEInjective(g.height, h.height, 2);
    assert FieldBytes(g, Flags) == FieldBytes(h, Flags);
    EncodeLEInjective(g.flags, h.flags, 4);
    assert FieldBytes(g, Frames) == FieldBytes(h, Frames);
    EncodeLEInjective(g.frames, h.frames, 2);
    assert FieldBytes(g, FirstFrame) == FieldBytes(h, FirstFrame);
    EncodeLEInjective(g.firstFrame, h.firstFrame, 2);
  }

  /** The integer fields from `highResImageFormat` on are determined by
      their bytes. */
  lemma TrailingWordsDetermined(g: Header, h: Header)
    requires WellFormed(g) && WellFormed(h)
    requires forall f: Field :: FieldBytes(g, f) == FieldBytes(h, f)
    ensures g.highResImageFormat == h.highResImageFormat && g.mipmapCount == h.mipmapCount
    ensures g.lowResImageFormat == h.lowResImageFormat
    ensures g.lowResImageWidth == h.lowResImageWidth && g.lowResImageHeight == h.lowResImageHeight
    ensures g.depth == h.depth
  {
    assert FieldBytes(g, HighResImageFormat) == FieldBytes(h, HighResImageFormat);
    EncodeLEInjective(g.highResImageFormat, h.highResImageFormat, 4);
    assert FieldBytes(g, MipmapCount) == FieldBytes(h, MipmapCount);
    EncodeLEInjective(g.mipmapCount, h.mipmapCount, 1);
    assert FieldBytes(g, LowResImageFormat) == FieldBytes(h, LowResImageFormat);
    EncodeLEInjective(g.lowResImageFormat, h.lowResImageFormat, 4);
    assert FieldBytes(g, LowResImageWidth) == FieldBytes(h, LowResImageWidth);
    EncodeLEInjective(g.lowResImageWidth, h.lowResImageWidth, 1);
    assert FieldBytes(g, LowResImageHeight) == FieldBytes(h, LowResImageHeight);
    EncodeLEInjective(g.lowResImageHeight, h.lowResImageHeight, 1);
    assert FieldBytes(g, Depth) == FieldBytes(h, Depth);
    EncodeLEInjective(g.depth, h.depth, 2);
  }

  /** Reading back a written header recovers every field. */
  lemma {:induction false} ParseEncodeHeader(h: Header)
    requires WellFormed(h)
    ensures ParseHeader(EncodeHeader(h)) == h
  {
    var b := EncodeHeader(h);
    forall f: Field
      ensures FieldBytes(ParseHeader(b), f) == FieldBytes(h, f)
    {
      ParsedFieldBytes(b, f);
      EncodedSlice(h, f);
    }
    FieldBytesDetermineHeader(ParseHeader(b), h);
  }

  /** Each field of a read header re-encodes to the bytes it was read from. */
  lemma {:induction false} ParsedFieldBytes(b: seq<byte>, f: Field)
    requires |b| == HEADER_BYTES
    ensures FieldBytes(ParseHeader(b), f) == Slice(b, f)
  {
    EncodeDecodeLE(Slice(b, f));
  }

  /** A header whose fields hold the slices of `b` is written as `b`. */
  lemma {:induction false} EncodeOfSlices(h: Header, b: seq<byte>)
    requires WellFormed(h) && |b| == HEADER_BYTES
    requires forall f: Field :: FieldBytes(h, f) == Slice(b, f)
    ensures EncodeHeader(h) == b
  {
    forall i | 0 <= i < HEADER_BYTES
      ensures EncodeHeader(h)[i] == b[i]
    {
      var f := FieldAt(i);
      assert EncodeHeader(h)[i] == FieldBytes(h, f)[i - Offset(f)];
    }
  }

  /** Writing a read header reproduces the 65 bytes it was read from. */
  lemma {:induction false} EncodeParseHeader(b: seq<byte>)
    requires |b| == HEADER_BYTES
    ensures EncodeHeader(ParseHeader(b)) == b
  {
    forall f: Field ensures FieldBytes(ParseHeader(b), f) == Slice(b, f) {
      ParsedFieldBytes(b, f);
    }
    EncodeOfSlices(ParseHeader(b), b);
  }
}

/**
 The Windows bitmap header as the example reads it (source/bitmap.c:68-124).

 The packed WINBITMAP struct overlays the first 34 bytes of the file: the
 14-byte BITMAPFILEHEADER followed by the first 20 bytes of the
 BITMAPINFOHEADER. All multi-byte fields are little-endian. The example reads
 each field through a pointer on its big-endian host and byte-swaps it, which
 amounts to a little-endian decode of the bytes at the field's offset.
 */
module BmpHeader {
  import opened ByteOrder

  // Byte offsets of the fields of the packed struct.
  const MagicAt: nat := 0
  const FileSizeAt: nat := 2
  const ReservedAt: nat := 6
  const DataOffsetAt: nat := 10
  const InfoSizeAt: nat := 14
  const WidthAt: nat := 18
  const HeightAt: nat := 22
  const PlanesAt: nat := 26
  const BitsPerPixelAt: nat := 28
  const CompressionAt: nat := 30
  /** Size of the packed struct. */
  const HeaderSize: nat := 34

  /** The widest picture the 640-pixel framebuffer takes. */
  const MaxWidth: bv32 := 640

  /** The fields of the packed WINBITMAP struct, as decoded values. */
  datatype WinBitmap = WinBitmap(
    magic: bv16,
    fileSize: bv32,
    reserved: bv32,
    dataOffset: bv32,
    infoSize: bv32,
    width: bv32,
    height: bv32,
    planes: bv16,
    bitsPerPixel: bv16,
    compression: bv32)

  /**
   Reads every field little-endian at its offset. Every one of the 34 bytes
   is the byte at the same place in the packed struct of the decoded fields.
   */
  function DecodeHeader(b: seq<bv8>): (h: WinBitmap)
    requires HeaderSize <= |b|
    ensures forall i {:trigger FieldByte(h, i)} | 0 <= i < HeaderSize :: FieldByte(h, i) == b[i]
  {
    var h := WinBitmap(
      LoadLE16(b, MagicAt),
      LoadLE32(b, FileSizeAt),
      LoadLE32(b, ReservedAt),
      LoadLE32(b, DataOffsetAt),
      LoadLE32(b, InfoSizeAt),
      LoadLE32(b, WidthAt),
      LoadLE32(b, HeightAt),
      LoadLE16(b, PlanesAt),
      LoadLE16(b, BitsPerPixelAt),
      LoadLE32(b, CompressionAt));
    FieldsLaidOut(b, h);
    h
  }

  /** Fields read little-endian at their offsets lay the bytes they were read from back out. */
  lemma FieldsLaidOut(b: seq<bv8>, h: WinBitmap)
    requires HeaderSize <= |b|
    requires h.magic == LoadLE16(b, MagicAt) && h.fileSize == LoadLE32(b, FileSizeAt)
    requires h.reserved == LoadLE32(b, ReservedAt) && h.dataOffset == LoadLE32(b, DataOffsetAt)
    requires h.infoSize == LoadLE32(b, InfoSizeAt) && h.width == LoadLE32(b, WidthAt)
    requires h.height == LoadLE32(b, HeightAt) && h.planes == LoadLE16(b, PlanesAt)
    requires h.bitsPerPixel == LoadLE16(b, BitsPerPixelAt) && h.compression == LoadLE32(b, CompressionAt)
    ensures forall i {:trigger FieldByte(h, i)} | 0 <= i < HeaderSize :: FieldByte(h, i) == b[i]
  {
    forall i | 0 <= i < HeaderSize
      ensures FieldByte(h, i) == b[i]
    {
      if i < FileSizeAt {
        Field16LaidOut(b, MagicAt, h.magic, i);
      } else if i < ReservedAt {
        Field32LaidOut(b, FileSizeAt, h.fileSize, i);
      } else if i < DataOffsetAt {
        Field32LaidOut(b, ReservedAt, h.reserved, i);
      } else if i < InfoSizeAt {
        Field32LaidOut(b, DataOffsetAt, h.dataOffset, i);
      } else if i < WidthAt {
        Field32LaidOut(b, InfoSizeAt, h.infoSize, i);
      } else if i < HeightAt {
        Field32LaidOut(b, WidthAt, h.width, i);
      } else if i < PlanesAt {
        Field32LaidOut(b, HeightAt, h.height, i);
      } else if i < BitsPerPixelAt {
        Field16LaidOut(b, PlanesAt, h.planes, i);
      } else if i < CompressionAt {
        Field16LaidOut(b, BitsPerPixelAt, h.bitsPerPixel, i);
      } else {
        Field32LaidOut(b, CompressionAt, h.compression, i);
      }
    }
  }

  /** Byte `i` of a 32-bit field read little-endian at `o` is the file's byte `i`. */
  lemma Field32LaidOut(b: seq<bv8>, o: nat, v: bv32, i: nat)
    requires o <= i < o + 4 <= |b|
    requires v == LoadLE32(b, o)
    ensures Byte32(v, i - o) == b[i]
  {
  }

  /** Byte `i` of a 16-bit field read little-endian at `o` is the file's byte `i`. */
  lemma Field16LaidOut(b: seq<bv8>, o: nat, v: bv16, i: nat)
    requires o <= i < o + 2 <= |b|
    requires v == LoadLE16(b, o)
    ensures Byte16(v, i - o) == b[i]
  {
  }

  /** Byte `i` of the packed struct holding the fields of `h`. */
  function FieldByte(h: WinBitmap, i: nat): bv8
    requires i < HeaderSize
  {
    if i < FileSizeAt then Byte16(h.magic, i - MagicAt)
    else if i < ReservedAt then Byte32(h.fileSize, i - FileSizeAt)
    else if i < DataOffsetAt then Byte32(h.reserved, i - ReservedAt)
    else if i < InfoSizeAt then Byte32(h.dataOffset, i - DataOffsetAt)
    else if i < WidthAt then Byte32(h.infoSize, i - InfoSizeAt)
    else if i < HeightAt then Byte32(h.width, i - WidthAt)
    else if i < PlanesAt then Byte32(h.height, i - HeightAt)
    else if i < BitsPerPixelAt then Byte16(h.planes, i - PlanesAt)
    else if i < CompressionAt then Byte16(h.bitsPerPixel, i - BitsPerPixelAt)
    else Byte32(h.compression, i - CompressionAt)
  }

  /** Lays the fields out little-endian at their offsets. */
  function EncodeHeader(h: WinBitmap): seq<bv8>
  {
    seq(HeaderSize, i requires 0 <= i < HeaderSize => FieldByte(h, i))
  }

  /** A file whose first 34 bytes lay out the fields of `h` decodes to `h`. */
  lemma DecodeLaidOut(b: seq<bv8>, h: WinBitmap)
    requires HeaderSize <= |b|
    requires forall i | 0 <= i < HeaderSize :: b[i] == FieldByte(h, i)
    ensures DecodeHeader(b) == h
  {
    LoadStoreLE16(b, MagicAt, h.magic);
    LoadStoreLE32(b, FileSizeAt, h.fileSize);
    LoadStoreLE32(b, ReservedAt, h.reserved);
    LoadStoreLE32(b, DataOffsetAt, h.dataOffset);
    LoadStoreLE32(b, InfoSizeAt, h.infoSize);
    LoadStoreLE32(b, WidthAt, h.width);
    LoadStoreLE32(b, HeightAt, h.height);
    LoadStoreLE16(b, PlanesAt, h.planes);
    LoadStoreLE16(b, BitsPerPixelAt, h.bitsPerPixel);
    LoadStoreLE32(b, CompressionAt, h.compression);
  }

  /** Decoding an encoded header gives back every field. */
  lemma DecodeEncode(h: WinBitmap)
    ensures DecodeHeader(EncodeHeader(h)) == h
  {
    DecodeLaidOut(EncodeHeader(h), h);
  }

  /** Encoding a decoded header gives back the first 34 bytes of the file. */
  lemma EncodeDecode(b: seq<bv8>)
    requires HeaderSize <= |b|
    ensures EncodeHeader(DecodeHeader(b)) == b[..HeaderSize]
  {
    StoreLoadLE16(b, MagicAt);
    StoreLoadLE32(b, FileSizeAt);
    StoreLoadLE32(b, ReservedAt);
    StoreLoadLE32(b, DataOffsetAt);
    StoreLoadLE32(b, InfoSizeAt);
    StoreLoadLE32(b, WidthAt);
    StoreLoadLE32(b, HeightAt);
    StoreLoadLE16(b, PlanesAt);
    StoreLoadLE16(b, BitsPerPixelAt);
    StoreLoadLE32(b, CompressionAt);
  }

  /** Each early `return 0` of ShowBMP, in the order the checks are made. */
  datatype Rejection = NotBitmap | NotSinglePlane | Compressed | NotTrueColour | TooLarge

  datatype Verdict = Accepted | Rejected(reason: Rejection)

  /** `memcmp(&bfMagic, "BM", 2) == 0`: the file's first two bytes are the characters of "BM". */
  function HasMagic(b: seq<bv8>): (m: bool)
    requires 2 <= |b|
    ensures m <==> forall i | 0 <= i < 2 :: b[i] as int == "BM"[i] as int
  {
    b[0] == 0x42 && b[1] == 0x4D
  }

  /** Whether a decoded header passes the check that rejects with `reason`. */
  predicate Passes(h: WinBitmap, reason: Rejection, xfbHeight: nat)
  {
    match reason
    case NotBitmap => h.magic == 0x4D42
    case NotSinglePlane => h.planes == 1
    case Compressed => h.compression == 0
    case NotTrueColour => h.bitsPerPixel == 24
    case TooLarge => h.width <= MaxWidth && h.height as int <= xfbHeight
  }

  /** Position of each check in the source. */
  function Order(reason: Rejection): nat
  {
    match reason
    case NotBitmap => 0
    case NotSinglePlane => 1
    case Compressed => 2
    case NotTrueColour => 3
    case TooLarge => 4
  }

  /**
   The headers ShowBMP decodes: "BM", one plane, uncompressed, 24 bits per
   pixel, at most 640 pixels wide and no taller than the framebuffer.
   */
  predicate Acceptable(h: WinBitmap, xfbHeight: nat)
  {
    && h.magic == 0x4D42
    && h.planes == 1
    && h.compression == 0
    && h.bitsPerPixel == 24
    && h.width <= MaxWidth
    && h.height as int <= xfbHeight
  }

  /** The raw "BM" test and the decoded magic field agree. */
  lemma MagicIsLittleEndianBM(b: seq<bv8>)
    requires HeaderSize <= |b|
    ensures HasMagic(b) <==> DecodeHeader(b).magic == 0x4D42
  {
    assert LoadLE16(b, 0) == 0x4D42 ==> Byte16(LoadLE16(b, 0), 0) == 0x42 && Byte16(LoadLE16(b, 0), 1) == 0x4D;
  }

  /**
   The five checks of ShowBMP, made in the source's order on the bytes of the
   file: the magic by comparing bytes, every other field by FLIP of what the
   big-endian host reads at the field's offset.
   */
  function CheckHeader(b: seq<bv8>, xfbHeight: nat): (v: Verdict)
    requires HeaderSize <= |b|
    ensures v == Accepted <==> Acceptable(DecodeHeader(b), xfbHeight)
    ensures v.Rejected? ==> !Passes(DecodeHeader(b), v.reason, xfbHeight)
    ensures v.Rejected? ==>
              forall earlier: Rejection :: Order(earlier) < Order(v.reason) ==> Passes(DecodeHeader(b), earlier, xfbHeight)
  {
    MagicIsLittleEndianBM(b);
    FlipHostLoad16(b, PlanesAt);
    FlipHostLoad32(b, CompressionAt);
    FlipHostLoad16(b, BitsPerPixelAt);
    FlipHostLoad32(b, WidthAt);
    FlipHostLoad32(b, HeightAt);
    if !HasMagic(b) then Rejected(NotBitmap)
    else if Flip16(HostLoad16(b, PlanesAt)) != 1 then Rejected(NotSinglePlane)
    else if Flip32(HostLoad32(b, CompressionAt)) != 0 then Rejected(Compressed)
    else if Flip16(HostLoad16(b, BitsPerPixelAt)) != 24 then Rejected(NotTrueColour)
    else if Flip32(HostLoad32(b, WidthAt)) > MaxWidth
            || Flip32(HostLoad32(b, HeightAt)) as int > xfbHeight then Rejected(TooLarge)
    else Accepted
  }

  /** A file that starts with an encoded struct is accepted exactly when the struct's fields are acceptable. */
  lemma CheckEncoded(h: WinBitmap, xfbHeight: nat, rest: seq<bv8>)
    ensures CheckHeader(EncodeHeader(h) + rest, xfbHeight) == Accepted <==> Acceptable(h, xfbHeight)
  {
    DecodeLaidOut(EncodeHeader(h) + rest, h);
  }
}

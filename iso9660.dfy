/**
 * The on-disk layout of an ISO 9660 (ECMA-119) volume as far as the navigator relies on it:
 * the both-byte-order integers (sections 7.2.3 and 7.3.3), the directory record
 * (section 9.1), its file flags (section 9.1.6) and the Primary Volume Descriptor
 * (section 8.4). The image is an immutable byte sequence; every read here is bounds-checked.
 */
module Iso9660 {
  import opened Results

  /** One byte of the image. */
  type Byte = b: int | 0 <= b < 256

  type Bytes = seq<Byte>

  /** Size of a logical block. */
  const BlockSize: nat := 2048

  /** The standard identifier "CD001" and its length. */
  const StandardId: Bytes := [0x43, 0x44, 0x30, 0x30, 0x31]
  const StandardIdLen: nat := 5

  /** Number of bytes of the packed recording date of a directory record. */
  const DateLen: nat := 7

  /** The Primary Volume Descriptor occupies logical block 16. */
  const PrimVolDescBlock: nat := 16

  /** Absolute byte offset of the Primary Volume Descriptor. */
  const VolDescOffset: nat := PrimVolDescBlock * BlockSize

  function Pow256(n: nat): (p: nat)
    ensures p >= 1
  {
    if n == 0 then 1 else 256 * Pow256(n - 1)
  }

  // ---------------------------------------------------------------------------
  // Little- and big-endian unsigned integers

  /** The unsigned integer whose least significant byte comes first. */
  function LittleEndian(s: Bytes): (v: nat)
    ensures v < Pow256(|s|)
  {
    if s == [] then 0 else s[0] + 256 * LittleEndian(s[1..])
  }

  /** The unsigned integer whose most significant byte comes first. */
  function BigEndian(s: Bytes): (v: nat)
    ensures v < Pow256(|s|)
  {
    if s == [] then 0 else 256 * BigEndian(s[..|s| - 1]) + s[|s| - 1]
  }

  function ToLittleEndian(v: nat, n: nat): (s: Bytes)
    requires v < Pow256(n)
    ensures |s| == n && LittleEndian(s) == v
  {
    if n == 0 then [] else [v % 256] + ToLittleEndian(v / 256, n - 1)
  }

  function ToBigEndian(v: nat, n: nat): (s: Bytes)
    requires v < Pow256(n)
    ensures |s| == n && BigEndian(s) == v
  {
    if n == 0 then []
    else
      var s := ToBigEndian(v / 256, n - 1) + [v % 256];
      assert s[..|s| - 1] == ToBigEndian(v / 256, n - 1);
      s
  }

  /** Splitting 256·x + b into its last byte and the rest. */
  lemma DivMod256(x: nat, b: Byte)
    ensures (256 * x + b) / 256 == x && (256 * x + b) % 256 == b
  {
  }

  /** Decoding n little-endian bytes and encoding the value again gives the same bytes. */
  lemma {:induction false} LittleEndianEncodeDecode(s: Bytes)
    ensures ToLittleEndian(LittleEndian(s), |s|) == s
  {
    if s != [] {
      var v := LittleEndian(s);
      assert v % 256 == s[0] && v / 256 == LittleEndian(s[1..]);
      LittleEndianEncodeDecode(s[1..]);
    }
  }

  /** Encoding v = 256·x + b in m bytes is encoding x in m - 1 bytes followed by b. */
  lemma ToBigEndianAppend(v: nat, x: nat, b: Byte, m: nat)
    requires 0 < m && x < Pow256(m - 1) && v == 256 * x + b
    ensures v < Pow256(m) && ToBigEndian(v, m) == ToBigEndian(x, m - 1) + [b]
  {
    DivMod256(x, b);
  }

  /** Re-encoding a big-endian value peels off its last byte. */
  lemma ToBigEndianLast(s: Bytes)
    requires s != []
    ensures ToBigEndian(BigEndian(s), |s|)
         == ToBigEndian(BigEndian(s[..|s| - 1]), |s| - 1) + [s[|s| - 1]]
  {
    ToBigEndianAppend(BigEndian(s), BigEndian(s[..|s| - 1]), s[|s| - 1], |s|);
  }

  /** Decoding n big-endian bytes and encoding the value again gives the same bytes. */
  lemma {:induction false} BigEndianEncodeDecode(s: Bytes)
    ensures ToBigEndian(BigEndian(s), |s|) == s
  {
    if s != [] {
      ToBigEndianLast(s);
      BigEndianEncodeDecode(s[..|s| - 1]);
      assert s[|s| - 1..] == [s[|s| - 1]];
      assert s == s[..|s| - 1] + s[|s| - 1..];
    }
  }

  // ---------------------------------------------------------------------------
  // Both-byte-order fields

  /**
   * A both-byte-order field: `struct int16_lsb_msb` (width 2) and `struct int32_lsb_msb`
   * (width 4). The value is stored twice, first little-endian, then big-endian. The code
   * only ever reads `le`.
   */
  datatype Dual = Dual(le: nat, be: nat)

  const Int16Width: nat := 2
  const Int32Width: nat := 4

  function DecodeDual(s: Bytes, width: nat): (d: Dual)
    requires |s| == 2 * width
    ensures d.le < Pow256(width) && d.be < Pow256(width)
  {
    Dual(LittleEndian(s[..width]), BigEndian(s[width..]))
  }

  function EncodeDual(d: Dual, width: nat): (s: Bytes)
    requires d.le < Pow256(width) && d.be < Pow256(width)
    ensures |s| == 2 * width
    ensures DecodeDual(s, width) == d
  {
    var lo, hi := ToLittleEndian(d.le, width), ToBigEndian(d.be, width);
    assert (lo + hi)[..width] == lo && (lo + hi)[width..] == hi;
    lo + hi
  }

  /** The first `width` bytes are the little-endian copy of `le`, the rest the big-endian copy of `be`. */
  lemma DualLayout(d: Dual, width: nat)
    requires d.le < Pow256(width) && d.be < Pow256(width)
    ensures var s := EncodeDual(d, width);
      LittleEndian(s[..width]) == d.le && BigEndian(s[width..]) == d.be
  {
    var s := EncodeDual(d, width);
    assert DecodeDual(s, width) == d;
  }

  /** Every 2*width bytes are the encoding of the field they decode to. */
  lemma DualEncodeDecode(s: Bytes, width: nat)
    requires |s| == 2 * width
    ensures EncodeDual(DecodeDual(s, width), width) == s
  {
    LittleEndianEncodeDecode(s[..width]);
    BigEndianEncodeDecode(s[width..]);
    assert s == s[..width] + s[width..];
  }

  // ---------------------------------------------------------------------------
  // Directory record (`struct iso_dir`)

  // Byte offsets of the fields of a directory record.
  const LengthAt: nat := 0
  const ExtAttrLengthAt: nat := 1
  const ExtentAt: nat := 2
  const SizeAt: nat := 10
  const DateAt: nat := 18
  const FlagsAt: nat := 25
  const FileUnitSizeAt: nat := 26
  const InterleaveGapAt: nat := 27
  const VolumeSequenceAt: nat := 28
  const NameLenAt: nat := 32
  const NameAt: nat := 33

  /** The fixed part of a directory record, before the name bytes. */
  const DirHeaderSize: nat := 33

  /** Widths of the packed fields of `struct iso_dir` before the name, in declaration order. */
  const DirRecordWidths: seq<nat> := [1, 1, 8, 8, 7, 1, 1, 1, 4, 1]

  /** Offset of field i of a packed structure whose field widths are `widths`. */
  function FieldOffset(widths: seq<nat>, i: nat): nat
    requires i <= |widths|
  {
    if i == 0 then 0 else FieldOffset(widths, i - 1) + widths[i - 1]
  }

  /** The field offsets used by the decoder are those of the packed structure. */
  lemma DirRecordLayout()
    ensures FieldOffset(DirRecordWidths, 0) == LengthAt
    ensures FieldOffset(DirRecordWidths, 1) == ExtAttrLengthAt
    ensures FieldOffset(DirRecordWidths, 2) == ExtentAt && DirRecordWidths[2] == 2 * Int32Width
    ensures FieldOffset(DirRecordWidths, 3) == SizeAt && DirRecordWidths[3] == 2 * Int32Width
    ensures FieldOffset(DirRecordWidths, 4) == DateAt && DirRecordWidths[4] == DateLen
    ensures FieldOffset(DirRecordWidths, 5) == FlagsAt
    ensures FieldOffset(DirRecordWidths, 6) == FileUnitSizeAt
    ensures FieldOffset(DirRecordWidths, 7) == InterleaveGapAt
    ensures FieldOffset(DirRecordWidths, 8) == VolumeSequenceAt && DirRecordWidths[8] == 2 * Int16Width
    ensures FieldOffset(DirRecordWidths, 9) == NameLenAt
    ensures FieldOffset(DirRecordWidths, 10) == NameAt == DirHeaderSize
  {
    assert FieldOffset(DirRecordWidths, 3) == 10;
    assert FieldOffset(DirRecordWidths, 6) == 26;
    assert FieldOffset(DirRecordWidths, 9) == 32;
  }

  /** A decoded directory record; `name` holds the `nameLen` raw name bytes. */
  datatype DirRecord = DirRecord(
    length: Byte,
    extAttrLength: Byte,
    extent: Dual,
    size: Dual,
    date: Bytes,
    flags: Byte,
    fileUnitSize: Byte,
    interleaveGapSize: Byte,
    volumeSequenceNumber: Dual,
    nameLen: Byte,
    name: Bytes)

  /** The record's fields fit their on-disk widths. */
  predicate WellFormed(r: DirRecord) {
    && r.extent.le < Pow256(Int32Width) && r.extent.be < Pow256(Int32Width)
    && r.size.le < Pow256(Int32Width) && r.size.be < Pow256(Int32Width)
    && r.volumeSequenceNumber.le < Pow256(Int16Width) && r.volumeSequenceNumber.be < Pow256(Int16Width)
    && |r.date| == DateLen
    && |r.name| == r.nameLen
  }

  /** The fixed header followed by the name bytes. */
  function EncodeDirRecord(r: DirRecord): (s: Bytes)
    requires WellFormed(r)
    ensures |s| == DirHeaderSize + r.nameLen
  {
    [r.length, r.extAttrLength]
      + EncodeDual(r.extent, Int32Width)
      + EncodeDual(r.size, Int32Width)
      + r.date
      + [r.flags, r.fileUnitSize, r.interleaveGapSize]
      + EncodeDual(r.volumeSequenceNumber, Int16Width)
      + [r.nameLen]
      + r.name
  }

  /** Decodes a header and exactly the `name_len` name bytes that follow it. */
  function DecodeDirRecord(s: Bytes): (r: DirRecord)
    requires |s| >= DirHeaderSize && |s| == DirHeaderSize + s[NameLenAt]
    ensures WellFormed(r)
  {
    DirRecord(
      s[LengthAt],
      s[ExtAttrLengthAt],
      DecodeDual(s[ExtentAt..SizeAt], Int32Width),
      DecodeDual(s[SizeAt..DateAt], Int32Width),
      s[DateAt..FlagsAt],
      s[FlagsAt],
      s[FileUnitSizeAt],
      s[InterleaveGapAt],
      DecodeDual(s[VolumeSequenceAt..NameLenAt], Int16Width),
      s[NameLenAt],
      s[NameAt..])
  }

  /** A slice lying inside a prefix of `s` is that slice of the prefix. */
  lemma SliceOfPrefix(p: Bytes, s: Bytes, i: nat, j: nat)
    requires p <= s && i <= j <= |p|
    ensures s[i..j] == p[i..j]
  {
    assert p == s[..|p|];
  }

  lemma DecodeEncodeDirRecord(r: DirRecord)
    requires WellFormed(r)
    ensures DecodeDirRecord(EncodeDirRecord(r)) == r
  {
    var extent := EncodeDual(r.extent, Int32Width);
    var size := EncodeDual(r.size, Int32Width);
    var volSeq := EncodeDual(r.volumeSequenceNumber, Int16Width);
    // The encoding up to the end of the extent, of the date, and of the volume sequence number.
    var toSize := [r.length, r.extAttrLength] + extent;
    var toFlags := toSize + size + r.date;
    var toNameLen := toFlags + [r.flags, r.fileUnitSize, r.interleaveGapSize] + volSeq;
    var s := EncodeDirRecord(r);
    assert s == toNameLen + [r.nameLen] + r.name;
    assert toNameLen <= s && toFlags <= toNameLen && toSize <= toFlags;
    SliceOfPrefix(toSize, s, ExtentAt, SizeAt);
    SliceOfPrefix(toFlags, s, SizeAt, DateAt);
    SliceOfPrefix(toFlags, s, DateAt, FlagsAt);
    SliceOfPrefix(toNameLen, s, VolumeSequenceAt, NameLenAt);
    assert toSize[ExtentAt..SizeAt] == extent;
    assert toFlags[SizeAt..DateAt] == size;
    assert toFlags[DateAt..FlagsAt] == r.date;
    assert toNameLen[VolumeSequenceAt..NameLenAt] == volSeq;
    assert s[NameAt..] == r.name;
  }

  lemma EncodeDecodeDirRecord(s: Bytes)
    requires |s| >= DirHeaderSize && |s| == DirHeaderSize + s[NameLenAt]
    ensures EncodeDirRecord(DecodeDirRecord(s)) == s
  {
    var d := DecodeDirRecord(s);
    var extent, size, volSeq := s[ExtentAt..SizeAt], s[SizeAt..DateAt], s[VolumeSequenceAt..NameLenAt];
    DualEncodeDecode(extent, Int32Width);
    DualEncodeDecode(size, Int32Width);
    DualEncodeDecode(volSeq, Int16Width);
    var head := [d.length, d.extAttrLength];
    var mid := [d.flags, d.fileUnitSize, d.interleaveGapSize];
    assert head == s[..ExtentAt];
    assert mid == s[FlagsAt..VolumeSequenceAt];
    assert [d.nameLen] == s[NameLenAt..NameAt];
    calc {
      EncodeDirRecord(d);
      head + extent + size + d.date + mid + volSeq + [d.nameLen] + d.name;
      s[..ExtentAt] + s[ExtentAt..SizeAt] + s[SizeAt..DateAt] + s[DateAt..FlagsAt]
        + s[FlagsAt..VolumeSequenceAt] + s[VolumeSequenceAt..NameLenAt] + s[NameLenAt..NameAt] + s[NameAt..];
      s;
    }
  }

  lemma SliceOfSlice(a: Bytes, i: nat, j: nat, k: nat, l: nat)
    requires i <= j <= |a| && k <= l <= j - i
    ensures a[i..j][k..l] == a[i + k .. i + l]
  {
    forall t | 0 <= t < l - k
      ensures a[i..j][k..l][t] == a[i + k .. i + l][t]
    {
    }
  }

  /**
   * Whether a directory record starting at byte `pos` lies inside the image: its 33-byte
   * header and the `name_len` name bytes after it.
   */
  predicate RecordFits(image: Bytes, pos: nat) {
    pos + DirHeaderSize <= |image| && pos + DirHeaderSize + image[pos + NameLenAt] <= |image|
  }

  /** The record starting at byte `pos` of the image, or OutOfBounds when it does not fit. */
  function ReadDirRecord(image: Bytes, pos: nat): (r: Result<DirRecord>)
    ensures r.Ok? <==> RecordFits(image, pos)
    ensures r.Err? ==> r.error == OutOfBounds
    ensures r.Ok? ==> WellFormed(r.value)
  {
    if !RecordFits(image, pos) then Err(OutOfBounds)
    else Ok(DecodeDirRecord(image[pos .. pos + DirHeaderSize + image[pos + NameLenAt]]))
  }

  // The fields of the record at `pos`, read in place (`entry->field`), as the navigator reads them.

  function RecordExtent(image: Bytes, pos: nat): (extent: nat)
    requires RecordFits(image, pos)
    ensures extent < Pow256(Int32Width)
  {
    LittleEndian(image[pos + ExtentAt .. pos + ExtentAt + Int32Width])
  }

  function RecordSize(image: Bytes, pos: nat): (size: nat)
    requires RecordFits(image, pos)
    ensures size < Pow256(Int32Width)
  {
    LittleEndian(image[pos + SizeAt .. pos + SizeAt + Int32Width])
  }

  function RecordDate(image: Bytes, pos: nat): (date: Bytes)
    requires RecordFits(image, pos)
    ensures |date| == DateLen
  {
    image[pos + DateAt .. pos + DateAt + DateLen]
  }

  function RecordFlags(image: Bytes, pos: nat): Byte
    requires RecordFits(image, pos)
  {
    image[pos + FlagsAt]
  }

  /** The `name_len` raw name bytes. */
  function RecordName(image: Bytes, pos: nat): (name: Bytes)
    requires RecordFits(image, pos)
    ensures |name| == image[pos + NameLenAt]
  {
    image[pos + NameAt .. pos + NameAt + image[pos + NameLenAt]]
  }

  /** The fields read in place at `pos` are the fields of the record decoded there. */
  lemma ReadDirRecordFields(image: Bytes, pos: nat)
    requires RecordFits(image, pos)
    ensures ReadDirRecord(image, pos).value.length == image[pos + LengthAt]
    ensures ReadDirRecord(image, pos).value.extent.le == RecordExtent(image, pos) < Pow256(Int32Width)
    ensures ReadDirRecord(image, pos).value.size.le == RecordSize(image, pos) < Pow256(Int32Width)
    ensures ReadDirRecord(image, pos).value.date == RecordDate(image, pos)
    ensures ReadDirRecord(image, pos).value.flags == RecordFlags(image, pos)
    ensures ReadDirRecord(image, pos).value.nameLen == image[pos + NameLenAt]
    ensures ReadDirRecord(image, pos).value.name == RecordName(image, pos)
  {
    var end := pos + DirHeaderSize + image[pos + NameLenAt];
    var s := image[pos..end];
    var d := DecodeDirRecord(s);
    assert ReadDirRecord(image, pos) == Ok(d);
    assert d.extent.le == RecordExtent(image, pos) by {
      SliceOfSlice(image, pos, end, ExtentAt, ExtentAt + Int32Width);
      SliceOfSlice(s, ExtentAt, SizeAt, 0, Int32Width);
    }
    assert d.size.le == RecordSize(image, pos) by {
      SliceOfSlice(image, pos, end, SizeAt, SizeAt + Int32Width);
      SliceOfSlice(s, SizeAt, DateAt, 0, Int32Width);
    }
    assert d.date == RecordDate(image, pos) by {
      SliceOfSlice(image, pos, end, DateAt, FlagsAt);
    }
    assert d.name == RecordName(image, pos) by {
      SliceOfSlice(image, pos, end, NameAt, end - pos);
    }
  }

  /** Re-encoding the record read at `pos` gives back exactly the image bytes it was read from. */
  lemma ReadDirRecordEncodes(image: Bytes, pos: nat)
    requires RecordFits(image, pos)
    ensures EncodeDirRecord(ReadDirRecord(image, pos).value) == image[pos .. pos + DirHeaderSize + image[pos + NameLenAt]]
  {
    var s := image[pos .. pos + DirHeaderSize + image[pos + NameLenAt]];
    assert ReadDirRecord(image, pos) == Ok(DecodeDirRecord(s));
    EncodeDecodeDirRecord(s);
  }

  // ---------------------------------------------------------------------------
  // File flags (`enum iso_file_type`)

  datatype FileFlag =
    | Hidden               // ISO_FILE_HIDDEN
    | Directory            // ISO_FILE_ISDIR
    | Associated           // ISO_FILE_ASSOCIAT
    | ExtendedAttributes   // ISO_FILE_USEEXT
    | Permissions          // ISO_FILE_USEPERM
    | MultiExtent          // ISO_FILE_MULTIDIR

  function FlagMask(f: FileFlag): Byte {
    match f
    case Hidden => 1
    case Directory => 2
    case Associated => 4
    case ExtendedAttributes => 8
    case Permissions => 16
    case MultiExtent => 128
  }

  /** The bit position of each flag within the flags byte. */
  function FlagBit(f: FileFlag): nat {
    match f
    case Hidden => 0
    case Directory => 1
    case Associated => 2
    case ExtendedAttributes => 3
    case Permissions => 4
    case MultiExtent => 7
  }

  function Pow2(n: nat): (p: nat)
    ensures p >= 1
  {
    if n == 0 then 1 else 2 * Pow2(n - 1)
  }

  /** Bitwise AND of two unsigned integers, the C operator `&`. */
  function BitAnd(a: nat, b: nat): nat {
    if a == 0 || b == 0 then 0 else 2 * BitAnd(a / 2, b / 2) + (a % 2) * (b % 2)
  }

  /** Bit k of `a`. */
  function Bit(a: nat, k: nat): nat {
    if k == 0 then a % 2 else Bit(a / 2, k - 1)
  }

  /** Whether the flags byte has the bit of flag `f` set. */
  predicate HasFlag(flags: Byte, f: FileFlag) {
    Bit(flags, FlagBit(f)) == 1
  }

  /** Each flag is a single-bit mask. */
  lemma FlagMaskIsSingleBit(f: FileFlag)
    ensures FlagMask(f) == Pow2(FlagBit(f))
  {
    assert Pow2(2) == 4;
    assert Pow2(4) == 16;
    assert Pow2(6) == 64;
  }

  /** AND with the single-bit mask 2^k is non-zero exactly when bit k is set. */
  lemma {:induction false} BitAndSingleBit(a: nat, k: nat)
    ensures BitAnd(a, Pow2(k)) != 0 <==> Bit(a, k) == 1
  {
    if k > 0 && a == 0 {
      BitAndSingleBit(a, k - 1);
    } else if k > 0 {
      var p := Pow2(k - 1);
      assert (2 * p) / 2 == p && (2 * p) % 2 == 0;
      assert BitAnd(a, Pow2(k)) == 2 * BitAnd(a / 2, p);
      BitAndSingleBit(a / 2, k - 1);
    }
  }

  lemma {:induction false} BitOfZero(k: nat)
    ensures Bit(0, k) == 0
  {
    if k > 0 {
      BitOfZero(k - 1);
    }
  }

  /** 2^j has bit j set and no other. */
  lemma {:induction false} BitOfPow2(j: nat, k: nat)
    ensures Bit(Pow2(j), k) == if j == k then 1 else 0
  {
    if k > 0 && j == 0 {
      BitOfZero(k - 1);
    } else if k > 0 {
      assert Pow2(j) / 2 == Pow2(j - 1);
      BitOfPow2(j - 1, k - 1);
    }
  }

  /** Testing a flag's bit is the C test `flags & mask`, which is non-zero exactly when that bit is set. */
  lemma FlagTestIsMask(f: FileFlag, flags: Byte)
    ensures HasFlag(flags, f) <==> BitAnd(flags, FlagMask(f)) != 0
  {
    FlagMaskIsSingleBit(f);
    BitAndSingleBit(flags, FlagBit(f));
  }

  /** The masks are pairwise disjoint: a byte holding one flag's mask tests positive for that flag only. */
  lemma FlagMasksDisjoint(f: FileFlag, g: FileFlag)
    ensures HasFlag(FlagMask(f), g) <==> f == g
  {
    FlagMaskIsSingleBit(f);
    BitOfPow2(FlagBit(f), FlagBit(g));
  }

  // ---------------------------------------------------------------------------
  // Primary Volume Descriptor (`struct iso_prim_voldesc`)

  /** Widths of the 33 packed fields of the Primary Volume Descriptor, in declaration order. */
  const PrimVolDescWidths: seq<nat> := [
    1,    //  0 vol_desc_type
    5,    //  1 std_identifier
    1,    //  2 vol_desc_version
    1,    //  3 unused1
    32,   //  4 system_identifier
    32,   //  5 volume_identifier
    8,    //  6 unused2
    8,    //  7 volume_space_size
    32,   //  8 unused3
    4,    //  9 vol_set_size
    4,    // 10 vol_seq_number
    4,    // 11 logical_block_size
    8,    // 12 path_table_size
    4,    // 13 type_l_path_table_loc
    4,    // 14 opt_type_l_path_table_loc
    4,    // 15 type_m_path_table_loc
    4,    // 16 opt_type_m_path_table_loc
    34,   // 17 root_dir
    128,  // 18 volume_set_id
    128,  // 19 publisher_id
    128,  // 20 data_preparer_id
    128,  // 21 application_id
    37,   // 22 copyright_file_id
    37,   // 23 abstract_file_id
    37,   // 24 bibliographic_file_id
    17,   // 25 creation_date
    17,   // 26 modification_date
    17,   // 27 expiration_date
    17,   // 28 effective_date
    1,    // 29 file_struct_version
    1,    // 30 unused4
    512,  // 31 application_use
    653   // 32 reserved
  ]

  // Byte offsets, within the descriptor, of the fields the navigator reads.
  const StdIdentifierAt: nat := 1
  const VolumeSpaceSizeAt: nat := 80
  const LogicalBlockSizeAt: nat := 128
  const RootDirAt: nat := 156
  const ApplicationIdAt: nat := 574
  const CreationDateAt: nat := 813

  /** The packed descriptor fills exactly one block, and its fields sit where the navigator reads them. */
  lemma PrimVolDescLayout()
    ensures VolDescOffset == 0x8000
    ensures FieldOffset(PrimVolDescWidths, 1) == StdIdentifierAt && PrimVolDescWidths[1] == StandardIdLen
    ensures FieldOffset(PrimVolDescWidths, 7) == VolumeSpaceSizeAt && PrimVolDescWidths[7] == 2 * Int32Width
    ensures FieldOffset(PrimVolDescWidths, 11) == LogicalBlockSizeAt && PrimVolDescWidths[11] == 2 * Int16Width
    ensures FieldOffset(PrimVolDescWidths, 17) == RootDirAt && PrimVolDescWidths[17] == DirHeaderSize + 1
    ensures FieldOffset(PrimVolDescWidths, 21) == ApplicationIdAt && PrimVolDescWidths[21] == 128
    ensures FieldOffset(PrimVolDescWidths, 25) == CreationDateAt && PrimVolDescWidths[25] == 17
    ensures FieldOffset(PrimVolDescWidths, |PrimVolDescWidths|) == BlockSize
  {
    // The running offsets of the packed fields.
    assert FieldOffset(PrimVolDescWidths, 1) == 1;
    assert FieldOffset(PrimVolDescWidths, 2) == 6;
    assert FieldOffset(PrimVolDescWidths, 3) == 7;
    assert FieldOffset(PrimVolDescWidths, 4) == 8;
    assert FieldOffset(PrimVolDescWidths, 5) == 40;
    assert FieldOffset(PrimVolDescWidths, 6) == 72;
    assert FieldOffset(PrimVolDescWidths, 7) == 80;
    assert FieldOffset(PrimVolDescWidths, 8) == 88;
    assert FieldOffset(PrimVolDescWidths, 9) == 120;
    assert FieldOffset(PrimVolDescWidths, 10) == 124;
    assert FieldOffset(PrimVolDescWidths, 11) == 128;
    assert FieldOffset(PrimVolDescWidths, 12) == 132;
    assert FieldOffset(PrimVolDescWidths, 13) == 140;
    assert FieldOffset(PrimVolDescWidths, 14) == 144;
    assert FieldOffset(PrimVolDescWidths, 15) == 148;
    assert FieldOffset(PrimVolDescWidths, 16) == 152;
    assert FieldOffset(PrimVolDescWidths, 17) == 156;
    assert FieldOffset(PrimVolDescWidths, 18) == 190;
    assert FieldOffset(PrimVolDescWidths, 19) == 318;
    assert FieldOffset(PrimVolDescWidths, 20) == 446;
    assert FieldOffset(PrimVolDescWidths, 21) == 574;
    assert FieldOffset(PrimVolDescWidths, 22) == 702;
    assert FieldOffset(PrimVolDescWidths, 23) == 739;
    assert FieldOffset(PrimVolDescWidths, 24) == 776;
    assert FieldOffset(PrimVolDescWidths, 25) == 813;
    assert FieldOffset(PrimVolDescWidths, 26) == 830;
    assert FieldOffset(PrimVolDescWidths, 27) == 847;
    assert FieldOffset(PrimVolDescWidths, 28) == 864;
    assert FieldOffset(PrimVolDescWidths, 29) == 881;
    assert FieldOffset(PrimVolDescWidths, 30) == 882;
    assert FieldOffset(PrimVolDescWidths, 31) == 883;
    assert FieldOffset(PrimVolDescWidths, 32) == 1395;
  }
}

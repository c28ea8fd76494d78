# iso_helper in Dafny

A model of the navigator of `iso_helper`, an interactive browser for ISO 9660 (ECMA-119)
CD-ROM images, together with proofs about it. The program maps an image into memory and checks
the Primary Volume Descriptor at byte 0x8000. It then answers `ls`, `cd`, `get` and `cat` by
walking the directory records of the current directory. It keeps the current directory as a
pointer to that directory's record, and it keeps the displayed path in a character buffer.

The image is an immutable byte sequence. A directory record is identified by its absolute
position in the image, because the program compares record pointers by address (the current
directory against the root). The program does no bounds checking. In the model, every read is
checked instead: it is performed only when the record's 33-byte header and its `name_len` name
bytes lie inside the image, and a read past the end gives the error `OutOfBounds`.

Files and modules:

- `results.dfy`, module `Results`: the error kinds and the `Result`/`Outcome` types.
- `iso9660.dfy`, module `Iso9660`: the layout declared in `src/iso9660.h`. This covers the
  block size, the standard identifier, the both-byte-order integers (sections 7.2.3 and 7.3.3
  of ECMA-119), the directory record (section 9.1), the file flags (section 9.1.6) and the
  Primary Volume Descriptor (section 8.4). It also has the in-place field readers.
- `iso_helper.dfy`, module `IsoHelper`: the logic of `src/iso_helper.c`. This covers:
  - name stripping, and the name buffer the loops fill;
  - the pure parts of a listing line;
  - the directory walk and first-match lookup;
  - the loops of `ls`, `find_directory_entry`, `get` and `cat` as methods, each proved
    against a specification function;
  - the byte range and output name of `copy_file`;
  - `cd` as a method of the `Navigator` class, which holds the current directory and path;
  - the start-up check of the standard identifier.

The loops of `ls`, `find_directory_entry`, `get` and `cat` are proved against two functions:
- `ScanFrom` and `ListFrom` follow the loops record by record.
- `WalkFrom` describes the whole walk as the sequence of record positions it visits and the
  reason it stopped.

The lemmas `ScanFromIsLookup` and `ListFromIsListing` connect the two, so each method's result
is stated in terms of the walk.

Points where the model follows the code's behaviour precisely:

- A zero-length record ends the walk. The walk does not skip to the next block.
- `cd` appends the path component whenever the resulting directory is not the root and the
  component is not `"."`. This includes `".."` and a failed lookup from a subdirectory. So
  `cd ..` and `cd missing` both lengthen the displayed path although the directory stays.
- `cd ..` never enters the parent directory. The parent pseudo-record's name is the single
  byte 0x01, and stripping leaves it as that byte, so it never equals `".."`.
- `cd .` never matches the self record either, since that record strips to the empty name.
  The path is left unchanged.
- `ls` output is kept line by line. A read past the image after some records keeps the lines
  already shown, as the program prints each line as it goes.
- The name is copied with `snprintf(name, name_len + 1, "%s", entry->name)`. The `%s` may read
  past `name_len` in the source, but at most `name_len` bytes are stored, so the stored name is
  the first `name_len` bytes cut at the first NUL. That is what the model uses.

## Model

| member | source | states |
|---|---|---|
| Iso9660.LittleEndian | src/iso9660.h:17-21 | the `le` half read least significant byte first is a value below 256^n, so a 4-byte `le` is a `uint32_t` |
| Iso9660.LittleEndianEncodeDecode | src/iso9660.h:17-21 | re-encoding a decoded little-endian integer gives back exactly the bytes it came from |
| Iso9660.BigEndianEncodeDecode | src/iso9660.h:17-21 | re-encoding a decoded big-endian integer gives back exactly the bytes it came from |
| Iso9660.ToLittleEndian | src/iso9660.h:17-21 | encoding a value below 256^n gives n bytes that decode back to it |
| Iso9660.DecodeDual | src/iso9660.h:11-21 | both halves of a both-byte-order field of width n are values below 256^n |
| Iso9660.EncodeDual | src/iso9660.h:11-21 | a both-byte-order field is 2·width bytes and decodes back to its pair of values |
| Iso9660.DualLayout | src/iso9660.h:11-21 | bytes 0..width-1 hold `le` little-endian and bytes width..2·width-1 hold `be` big-endian (2+2 bytes for `int16_lsb_msb`, 4+4 bytes for `int32_lsb_msb`) |
| Iso9660.DualEncodeDecode | src/iso9660.h:11-21 | every 2·width bytes are the encoding of the field they decode to |
| Iso9660.DirRecordLayout | src/iso9660.h:44-60 | the packed `iso_dir` fields sit at 0, 1, 2, 10, 18 (7 bytes), 25, 26, 27, 28 and 32, and the name starts at 33, the size of the fixed part |
| Iso9660.DecodeDirRecord | src/iso9660.h:47-60 | a header followed by exactly `name_len` bytes decodes to a record whose fields fit their widths, with a 7-byte date and a name of `name_len` bytes |
| Iso9660.DecodeEncodeDirRecord | src/iso9660.h:47-60 | decoding an encoded well-formed record gives the record back |
| Iso9660.EncodeDecodeDirRecord | src/iso9660.h:47-60 | a header plus exactly `name_len` name bytes is the encoding of the record it decodes to |
| Iso9660.ReadDirRecord | src/iso9660.h:47-60 | a record can be read at a position exactly when its header and name lie inside the image; otherwise the read is OutOfBounds |
| Iso9660.RecordExtent | src/iso9660.h:51 | the `extent.le` read in place is a 32-bit value |
| Iso9660.RecordSize | src/iso9660.h:52 | the `size.le` read in place is a 32-bit value |
| Iso9660.RecordDate | src/iso9660.h:53 | the recording date read in place is exactly ISO_DATE_LEN = 7 bytes |
| Iso9660.RecordName | src/iso9660.h:58-59 | the raw name read in place is exactly `name_len` bytes |
| Iso9660.ReadDirRecordFields | src/iso9660.h:47-60 | the fields read in place (length, extent, size, date, flags, name length, name) are those of the record decoded at that position, and extent and size fit 32 bits |
| Iso9660.ReadDirRecordEncodes | src/iso9660.h:47-60 | re-encoding the record read at a position gives back exactly the header and name bytes it was read from |
| Iso9660.FlagMaskIsSingleBit | src/iso9660.h:32-42 | each flag value (1, 2, 4, 8, 16, 128) is a single bit 2^k |
| Iso9660.BitAndSingleBit | src/iso9660.h:32-42 | the C test `a & 2^k` is non-zero exactly when bit k of a is set |
| Iso9660.FlagTestIsMask | src/iso9660.h:32-42 | testing a flag is the C test `flags & ISO_FILE_…`, in both directions |
| Iso9660.FlagMasksDisjoint | src/iso9660.h:32-42 | the flag masks are pairwise disjoint: a flag's mask tests positive for that flag alone |
| Iso9660.BitOfPow2 | src/iso9660.h:32-42 | 2^j has bit j set and every other bit clear |
| Iso9660.PrimVolDescLayout | src/iso9660.h:62-123 | the descriptor starts at 16·2048 = 0x8000. It spans exactly one 2048-byte block. `std_identifier` is at 1 (5 bytes), `volume_space_size` at 80, `logical_block_size` at 128, `root_dir` at 156 (34 bytes), `application_id` at 574 (128 bytes) and `creation_date` at 813 (17 bytes) |
| IsoHelper.CutAtPrefix | src/iso_helper.c:31-35 | cutting at a byte gives a prefix free of that byte, followed in the input by that byte unless it is the whole input |
| IsoHelper.StripName | src/iso_helper.c:29-35 | the exposed name is a prefix of the raw name holding no NUL and no ';' |
| IsoHelper.StripNameIsLongestCleanPrefix | src/iso_helper.c:29-35 | the stripped name is exactly the longest prefix of the raw name holding neither NUL nor ';' (both directions) |
| IsoHelper.StripNameUnchanged | src/iso_helper.c:29-35 | a name with no NUL and no ';' is exposed unchanged |
| IsoHelper.StripNameIdempotent | src/iso_helper.c:29-35 | stripping twice is stripping once |
| IsoHelper.StripNameHasNoNul | src/iso_helper.c:29-35 | a stripped name holds no NUL and no ';' |
| IsoHelper.PseudoRecordNames | src/iso_helper.c:97-104 | for comparison, the self record's name strips to "" and the parent record's to the byte 0x01, so neither is ever "." or ".." |
| IsoHelper.DisplayName | src/iso_helper.c:29-44 | `ls` shows "." for the one-byte name 0x00, ".." for 0x01 and the stripped name otherwise, and never shows a NUL or ';' |
| IsoHelper.EntryName | src/iso_helper.c:29-35 | the bounded copy into the name buffer, followed by overwriting the first ';' with a NUL, leaves exactly the stripped name in the buffer |
| IsoHelper.RecordingDate | src/iso_helper.c:46-56 | the date is "Unspecified" exactly when its year byte is 0; otherwise the year is that byte + 1900, between 1901 and 2155 |
| IsoHelper.ModeChars | src/iso_helper.c:58-59 | the mode is two characters, the first 'd' or '-' and the second 'h' or '-' |
| IsoHelper.ModeCharsTestMasks | src/iso_helper.c:58-59 | 'd' is shown exactly when `flags & ISO_FILE_ISDIR` is non-zero, and 'h' exactly when `flags & ISO_FILE_HIDDEN` is |
| IsoHelper.Describe | src/iso_helper.c:25-60 | the line's mode starts with 'd' exactly when the directory flag is set, its size is the 32-bit `size.le`, and its name shows no NUL or ';' |
| IsoHelper.DescribeEntry | src/iso_helper.c:25-60 | the line printed for a record has its mode characters, its little-endian size, its date and its display name |
| IsoHelper.ExtentOffset | src/iso_helper.c:67 | the corrected offset, without the program's 32-bit wrap-around: the data starts at a block boundary and the offset divided by 2048 is the extent |
| IsoHelper.WalkFrom | src/iso_helper.c:63-82 | every record the walk reads lies inside the image |
| IsoHelper.WalkFromWithinExtent | src/iso_helper.c:71-81 | every record the walk visits starts inside the directory's extent, at or after the start offset, and has a length of at least 1 |
| IsoHelper.WalkFromChained | src/iso_helper.c:71-81 | the walk visits offsets 0, len₀, len₀+len₁, …: the first record is at the start and each next one starts where the previous one ends |
| IsoHelper.WalkFromStops | src/iso_helper.c:71-81 | the walk stops just after its last record, at the end of the extent exactly when the offset reaches `size`, otherwise at a zero length byte, past the end of the image, or at a record of non-zero length that does not fit in the image |
| IsoHelper.FirstMatchIsFirst | src/iso_helper.c:90-110 | no record before the selected index is a hit, and the selected index is a hit unless there is none |
| IsoHelper.Lookup | src/iso_helper.c:90-110 | a record a lookup yields is a hit: it fits in the image, its stripped name is the path, and it is a directory when only directories count |
| IsoHelper.LookupIsFirstHit | src/iso_helper.c:90-111 | a lookup succeeds exactly when some visited record is a hit, and then yields the first one in walk order; otherwise it is OutOfBounds when the walk stopped at a read past the image and NotFound when it did not |
| IsoHelper.LookupSkip | src/iso_helper.c:104-109 | a record that is not a hit passes the lookup on to the rest of the walk |
| IsoHelper.ScanFrom | src/iso_helper.c:90-110 | a record the loop stops at lies at or after the start offset and is a hit; otherwise the loop ends with NotFound or OutOfBounds |
| IsoHelper.ScanFromIsLookup | src/iso_helper.c:90-111 | scanning record by record, as the loops do, finds what the first-match lookup over the whole walk finds |
| IsoHelper.FindDirectoryEntry | src/iso_helper.c:84-112 | the loop returns the first directory record named `path` in the extent, or NotFound when there is none |
| IsoHelper.Lines | src/iso_helper.c:71-81 | one line per visited record, in walk order, each describing that record |
| IsoHelper.ListFrom | src/iso_helper.c:71-81 | the ls loop ends either normally or with OutOfBounds, never with another error |
| IsoHelper.ListFromIsListing | src/iso_helper.c:71-81 | listing record by record prints exactly the lines of the whole walk, and fails exactly when the walk stopped at a read past the image |
| IsoHelper.ListFromStep | src/iso_helper.c:73-80 | each record's line comes first, followed by whatever the rest of the walk prints |
| IsoHelper.Ls | src/iso_helper.c:63-82 | `ls` prints one line per record of the directory, in walk order, and stops at the end of the extent or the first zero length byte. A read past the image ends it with OutOfBounds after the lines already printed |
| IsoHelper.FileBytes | src/iso_helper.c:143-147 | the extracted data is exactly `size` bytes, starting at `extent`·2048; it is OutOfBounds exactly when that range runs past the image |
| IsoHelper.CopyFile | src/iso_helper.c:143-164 | copy_file writes the file's byte range under its stripped name |
| IsoHelper.SelectFile | src/iso_helper.c:174-199 | get and cat act only on a record that fits in the image and is not a directory |
| IsoHelper.Get | src/iso_helper.c:167-201 | the loop extracts the first record named `path`. A directory gives IsADirectory and no bytes, and no such record gives NotFound |
| IsoHelper.Cat | src/iso_helper.c:203-240 | the loop yields the bytes of the first record named `path`. A directory gives IsADirectory and no bytes, and no such record gives NotFound |
| IsoHelper.SelectFileTakesFirstNamed | src/iso_helper.c:174-200 | when the first record with the stripped name `path` is not a directory, get and cat select exactly that record |
| IsoHelper.SelectFileIsFirstNamed | src/iso_helper.c:174-200 | the first record of any type with the stripped name `path` decides get and cat. A directory there gives IsADirectory (both directions). NotFound holds exactly when no record has that name and the walk ended normally |
| IsoHelper.GetAgreesWithCat | src/iso_helper.c:167-240 | get succeeds exactly when cat does, writes exactly the bytes cat shows under the name `path`, and fails with the same error otherwise |
| IsoHelper.AppendComponent | src/iso_helper.c:130-134 | at "/" the path becomes "/" + p; elsewhere it becomes path + "/" + p |
| IsoHelper.ChangeDirectory | src/iso_helper.c:114-136 | cd ends with success, NotFound or OutOfBounds; a read past the image leaves the whole state unchanged, and NotFound keeps the current directory |
| IsoHelper.CdEmptyResets | src/iso_helper.c:117-122 | cd with the empty path sets the root and exactly "/" from any state |
| IsoHelper.CdEntersFirstDirectory | src/iso_helper.c:124-126 | cd with a non-empty `p` succeeds exactly when the current directory holds a directory record named `p` (both directions), and then moves to the first one in walk order |
| IsoHelper.CdNotFoundKeepsDirectory | src/iso_helper.c:84-112 | cd fails with NotFound exactly when no directory record of the current directory is named `p` and the walk ended normally; the current directory is then unchanged |
| IsoHelper.CdPathUpdate | src/iso_helper.c:128-135 | after the lookup, `p` is appended (after "/" unless the path is "/") exactly when the resulting directory is not the root and `p` is not "."; otherwise the path is unchanged |
| IsoHelper.CdNotFoundInSubdirectoryAppends | src/iso_helper.c:126-135 | a failed lookup from a subdirectory keeps the directory and still appends "/" + p to the path |
| IsoHelper.CdNotFoundAtRootKeepsPath | src/iso_helper.c:126-135 | a failed lookup from the root leaves the whole state, and so the path "/", unchanged |
| IsoHelper.CdDotDotSkipsParentRecord | src/iso_helper.c:97-106 | `cd ..` never enters the parent pseudo-record (raw name 0x01) |
| IsoHelper.CdKeepsPathAbsolute | src/iso_helper.c:117-135 | the displayed path stays absolute across cd |
| IsoHelper.Navigator.Cd | src/iso_helper.c:114-136 | the new current directory and path are those `ChangeDirectory` gives for the old state, and the path stays absolute |
| IsoHelper.StrNEqual | src/iso_helper.c:276 | strncmp(…, n) == 0 when the first n bytes agree; conversely, when it is 0, the bytes agree up to and including the first NUL |
| IsoHelper.StrNEqualNoNul | src/iso_helper.c:276 | against an identifier with no NUL among its first n bytes, strncmp(…, n) == 0 exactly when those n bytes are equal |
| IsoHelper.OpenVolume | src/iso_helper.c:274-285 | the image is accepted exactly when the 5 bytes at 0x8001 are "CD001"; the root is then the record at 0x8000 + 156; a mismatch is InvalidFormat |
| IsoHelper.Navigator.constructor | src/iso_helper.c:284-286 | at start-up both the current directory and the root are the descriptor's root record, and the path is "/" |
| IsoHelper.ExtentOffsetAsWritten | src/iso_helper.c:67 | the offset the program computes: `extent * ISO_BLOCK_SIZE` as an unsigned 32-bit product |
| IsoHelper.ExtentOffsetAgreesBelow4GiB | src/iso_helper.c:67 | below 4 GiB the 32-bit product is the block's offset |
| IsoHelper.ExtentOffsetWrapsAt4GiB | src/iso_helper.c:67 | block 2^21 lies at 4 GiB but the 32-bit product makes it offset 0 |

## Left out

- The command loop, prompt, argument handling and file access in `main` (`fgets`, `open`,
  `fstat`, `mmap`, `munmap`, `close`): this is I/O plumbing. The image is a parameter.
- `print_help`, `info` and `pwd`: they only print. The path `pwd` prints is the `path` field
  of `Navigator`.
- The `printf` text of a listing line: `ls` yields the line's parts (mode characters, size,
  date and name), not the formatted string with its padding.
- The `fopen`/`fwrite`/`fclose` calls of `copy_file` and the `fwrite` to standard output in
  `cat`: these are foreign I/O. The model yields the bytes and the output file name. A failing
  `fopen` is not modelled.
- `iso_path_table_le` is declared in `src/iso9660.h` but the program never uses it.
- Reads past the end of the image are undefined behaviour in the program; the model reports
  them as OutOfBounds instead.
  - A `cd` that meets such a read leaves the state unchanged.
  - A record is read only when its full header and name lie inside the image, even where the
    program would touch only some of its fields.
- The 2048-byte limit of the path buffer (MAX_PATH_LEN): the program's `strcat` can overflow it
  after enough `cd` commands. The model's path is unbounded.
- The `%s` over-read of the name copy: `snprintf` may read past `name_len` bytes without storing
  them. Only the stored bytes are modelled.
- DirWalk, FindDirectoryEntry, Ls, FileBytes, Get, Cat and Navigator.Cd: these use the
  corrected ExtentOffset, which does not wrap. The program computes `extent * ISO_BLOCK_SIZE`
  modulo 2^32. For a record whose extent is 2^21 or more, the program reads the block at
  extent mod 2^21, while the model reports OutOfBounds on any image smaller than the true
  offset. ExtentOffsetAsWritten and the Findings table state the difference.
- The big-endian halves of both-byte-order fields are decoded but never compared with the
  little-endian halves, because the program reads only `le`.

## Findings

| source | as written | input that shows it | evidently intended | confidence | as-written member | corrected member |
|---|---|---|---|---|---|---|
| src/iso_helper.c:67 | `extent * ISO_BLOCK_SIZE` multiplies a `uint32_t` by an `int`, so the product is unsigned 32-bit and wraps modulo 2^32 (the same expression is at lines 87, 147, 171, 207 and 233) | extent 0x200000 (block 2^21, at 4 GiB) gives offset 0 instead of 0x100000000 | the byte offset extent·2048, computed without wrap-around, as for any image larger than 4 GiB | not executed | IsoHelper.ExtentOffsetWrapsAt4GiB | IsoHelper.ExtentOffset |

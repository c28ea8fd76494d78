/**
 * The navigator over an ISO 9660 image: name normalisation, the directory walk shared by
 * ls, cd, get and cat, first-match lookup, extraction of a file's byte range, and the
 * navigation state (current directory record and displayed path) that cd updates.
 *
 * Names and paths are byte strings (C character buffers). A directory record is identified by
 * its absolute position in the image, since the program keeps pointers into the mapped image
 * and compares them by address; its fields are read in place at that position.
 */
module IsoHelper {
  import opened Results
  import opened Iso9660

  const Nul: Byte := 0x00
  const Semicolon: Byte := 0x3B
  const SlashByte: Byte := 0x2F

  /** A C string: the bytes before its terminating NUL. Commands hand paths over as C strings. */
  type CString = s: Bytes | Nul !in s

  /** "/", ".", ".." */
  const Root: CString := [0x2F]
  const Dot: CString := [0x2E]
  const DotDot: CString := [0x2E, 0x2E]

  /** The one-byte names of the "this directory" and "parent directory" records. */
  const SelfName: Bytes := [0x00]
  const ParentName: Bytes := [0x01]

  // ---------------------------------------------------------------------------
  // Name normalisation

  /** The bytes of `s` before the first `c`; all of `s` when it holds no `c`. */
  function CutAt(s: Bytes, c: Byte): Bytes {
    if s == [] || s[0] == c then [] else [s[0]] + CutAt(s[1..], c)
  }

  /** The cut is the longest prefix of `s` free of `c`. */
  lemma {:induction false} CutAtPrefix(s: Bytes, c: Byte)
    ensures CutAt(s, c) <= s
    ensures c !in CutAt(s, c)
    ensures |CutAt(s, c)| < |s| ==> s[|CutAt(s, c)|] == c
  {
    if s != [] && s[0] != c {
      CutAtPrefix(s[1..], c);
    }
  }

  /** The bytes at which the exposed name ends: the NUL that ends the copy, and ';'. */
  predicate IsStop(b: Byte) {
    b == Nul || b == Semicolon
  }

  predicate NoStop(s: Bytes) {
    forall i :: 0 <= i < |s| ==> !IsStop(s[i])
  }

  /**
   * The name under which a record is listed, looked up and extracted: the `name_len` raw
   * bytes as a C string copy keeps them (up to the first NUL), cut at the first ';'.
   */
  function StripName(raw: Bytes): (r: Bytes)
    ensures r <= raw && Nul !in r && Semicolon !in r
  {
    CutAtPrefix(raw, Nul);
    CutAtPrefix(CutAt(raw, Nul), Semicolon);
    CutAt(CutAt(raw, Nul), Semicolon)
  }

  /** The stripped name is exactly the longest prefix of the raw name free of NUL and ';'. */
  lemma StripNameIsLongestCleanPrefix(raw: Bytes, r: Bytes)
    ensures StripName(raw) == r <==> r <= raw && NoStop(r) && (|r| == |raw| || IsStop(raw[|r|]))
  {
    var t := CutAt(raw, Nul);
    var s := CutAt(t, Semicolon);
    CutAtPrefix(raw, Nul);
    CutAtPrefix(t, Semicolon);
    assert s <= raw && NoStop(s) && (|s| == |raw| || IsStop(raw[|s|])) by {
      assert |s| < |t| ==> t[|s|] == Semicolon;
      assert |t| < |raw| ==> raw[|t|] == Nul;
    }
    if r <= raw && NoStop(r) && (|r| == |raw| || IsStop(raw[|r|])) {
      assert r == raw[..|r|] && s == raw[..|s|];
    }
  }

  /** A name holding neither NUL nor ';' is exposed unchanged. */
  lemma StripNameUnchanged(raw: Bytes)
    requires NoStop(raw)
    ensures StripName(raw) == raw
  {
    StripNameIsLongestCleanPrefix(raw, raw);
  }

  /** Stripping is idempotent. */
  lemma StripNameIdempotent(raw: Bytes)
    ensures StripName(StripName(raw)) == StripName(raw)
  {
    var s := StripName(raw);
    StripNameIsLongestCleanPrefix(raw, s);
    StripNameUnchanged(s);
  }

  /** A stripped name is a C string: a lookup can only succeed for a path of this kind. */
  lemma StripNameHasNoNul(raw: Bytes)
    ensures Nul !in StripName(raw) && Semicolon !in StripName(raw)
  {
    StripNameIsLongestCleanPrefix(raw, StripName(raw));
  }

  /**
   * The pseudo-records compare under the names the stripping gives them: the self record
   * (one byte 0x00) under the empty name, the parent record (one byte 0x01) under [0x01];
   * neither is ever found under "." or "..".
   */
  lemma PseudoRecordNames()
    ensures StripName(SelfName) == []
    ensures StripName(ParentName) == ParentName
    ensures StripName(SelfName) != Dot && StripName(ParentName) != DotDot
  {
    StripNameUnchanged(ParentName);
  }

  /** The name `ls` shows: "." and ".." for the one-byte pseudo-names, the stripped name otherwise. */
  function DisplayName(raw: Bytes): (r: Bytes)
    ensures NoStop(r)
    ensures raw == SelfName ==> r == Dot
    ensures raw == ParentName ==> r == DotDot
    ensures raw != SelfName && raw != ParentName ==> r == StripName(raw)
  {
    if raw == SelfName then Dot
    else if raw == ParentName then DotDot
    else
      StripNameIsLongestCleanPrefix(raw, StripName(raw));
      StripName(raw)
  }

  // ---------------------------------------------------------------------------
  // The pure pieces of a listing line

  /** The recording date as `ls` shows it, or Unspecified when its year byte is 0. */
  datatype Date =
    | Unspecified
    | Recorded(year: nat, month: Byte, day: Byte, hour: Byte, minute: Byte)

  function RecordingDate(date: Bytes): (d: Date)
    requires |date| == DateLen
    ensures d.Unspecified? <==> date[0] == 0
    ensures d.Recorded? ==> 1901 <= d.year <= 2155 && d.year - 1900 == date[0]
  {
    if date[0] == 0 then Unspecified
    else Recorded(date[0] as int + 1900, date[1], date[2], date[3], date[4])
  }

  /** The two mode characters: 'd' for a directory, 'h' for a hidden entry, '-' otherwise. */
  function ModeChars(flags: Byte): (m: string)
    ensures |m| == 2
    ensures m[0] in {'d', '-'} && m[1] in {'h', '-'}
  {
    [if HasFlag(flags, Directory) then 'd' else '-', if HasFlag(flags, Hidden) then 'h' else '-']
  }

  /** 'd' is shown exactly when `flags & ISO_FILE_ISDIR` is non-zero, 'h' exactly when `flags & ISO_FILE_HIDDEN` is. */
  lemma ModeCharsTestMasks(flags: Byte)
    ensures ModeChars(flags)[0] == 'd' <==> BitAnd(flags, 2) != 0
    ensures ModeChars(flags)[1] == 'h' <==> BitAnd(flags, 1) != 0
  {
    FlagTestIsMask(Directory, flags);
    FlagTestIsMask(Hidden, flags);
  }

  /** What `print_directory_entry` shows of a record: mode, size, date and name. */
  datatype ListLine = ListLine(mode: string, size: nat, date: Date, name: Bytes)

  function Describe(image: Bytes, pos: nat): (line: ListLine)
    requires RecordFits(image, pos)
    ensures |line.mode| == 2 && (line.mode[0] == 'd' <==> HasFlag(RecordFlags(image, pos), Directory))
    ensures line.size < Pow256(Int32Width) && NoStop(line.name)
  {
    ListLine(ModeChars(RecordFlags(image, pos)), RecordSize(image, pos),
      RecordingDate(RecordDate(image, pos)), DisplayName(RecordName(image, pos)))
  }

  /** The size of the program's name and path buffers (MAX_PATH_LEN). */
  const MaxPathLen: nat := 2048

  /**
   * The name buffer the walks fill for a record: the bounded copy of the name stops after
   * `name_len` bytes or at a NUL, and the first ';' is then overwritten with a NUL. The result
   * is the C string left in the buffer.
   */
  method EntryName(image: Bytes, pos: nat) returns (name: Bytes)
    requires RecordFits(image, pos)
    ensures name == StripName(RecordName(image, pos))
  {
    var raw := RecordName(image, pos);
    var buf := new Byte[MaxPathLen];
    var n := 0;
    while n < |raw| && raw[n] != Nul
      invariant n <= |raw|
      invariant buf[..n] == raw[..n]
      invariant Nul !in raw[..n]
    {
      buf[n] := raw[n];
      n := n + 1;
    }
    buf[n] := Nul;
    var k := 0;
    while k < n && buf[k] != Semicolon
      invariant k <= n
      invariant Semicolon !in buf[..k]
    {
      k := k + 1;
    }
    if k < n {
      buf[k] := Nul;
    }
    name := buf[..k];
    assert name == raw[..k];
    StripNameIsLongestCleanPrefix(raw, name);
  }

  /**
   * print_directory_entry's name, mode, size and date for the record at `pos`: the name
   * buffer is filled as for a lookup and then replaced by "." or ".." for the one-byte
   * pseudo-names.
   */
  method DescribeEntry(image: Bytes, pos: nat) returns (line: ListLine)
    requires RecordFits(image, pos)
    ensures line == Describe(image, pos)
  {
    var name := EntryName(image, pos);
    var raw := RecordName(image, pos);
    if |raw| == 1 && raw[0] == 0x00 {
      name := Dot;
    } else if |raw| == 1 && raw[0] == 0x01 {
      name := DotDot;
    }
    line := ListLine(ModeChars(RecordFlags(image, pos)), RecordSize(image, pos), RecordingDate(RecordDate(image, pos)), name);
  }

  // ---------------------------------------------------------------------------
  // Directory walk

  /** Why a walk stopped: the offset reached the directory size, a zero length byte, or a read past the image. */
  datatype Stop = EndOfExtent | ZeroLength | BadRead

  /**
   * The positions of the records a walk read, in order, why it stopped, and the offset
   * (within the extent) where it stopped.
   */
  datatype Walk = Walk(entries: seq<nat>, stop: Stop, at: nat)

  /** Absolute byte offset of logical block `extent`. */
  function ExtentOffset(extent: nat): (offset: nat)
    ensures offset % BlockSize == 0 && offset / BlockSize == extent
  {
    extent * BlockSize
  }

  /**
   * The offset as the program computes it: the extent is a uint32_t and the block size an int,
   * so `extent * ISO_BLOCK_SIZE` is an unsigned 32-bit product, reduced modulo 2^32.
   */
  function ExtentOffsetAsWritten(extent: nat): (offset: nat)
    requires extent < 0x1_0000_0000
    ensures offset < 0x1_0000_0000
    ensures offset % BlockSize == 0
  {
    (extent * BlockSize) % 0x1_0000_0000
  }

  /** On images below 4 GiB the 32-bit product is the block's offset. */
  lemma ExtentOffsetAgreesBelow4GiB(extent: nat)
    requires ExtentOffset(extent) < 0x1_0000_0000
    ensures ExtentOffsetAsWritten(extent) == ExtentOffset(extent)
  {
  }

  /** Block 2^21, the first at 4 GiB, is computed as offset 0: the walk would read the system area. */
  lemma ExtentOffsetWrapsAt4GiB()
    ensures ExtentOffset(0x20_0000) == 0x1_0000_0000
    ensures ExtentOffsetAsWritten(0x20_0000) == 0
  {
  }

  /** Every record position of the sequence lies inside the image. */
  predicate AllFit(image: Bytes, entries: seq<nat>) {
    forall i :: 0 <= i < |entries| ==> RecordFits(image, entries[i])
  }

  /**
   * The walk over the extent at byte `base` of a directory of `size` bytes, from offset
   * `offset` on: read the length byte; stop at a zero length or when the offset reaches
   * `size`; otherwise take the record and advance by its length.
   */
  function WalkFrom(image: Bytes, base: nat, size: nat, offset: nat): (w: Walk)
    decreases size - offset
    ensures AllFit(image, w.entries)
  {
    if offset >= size then Walk([], EndOfExtent, offset)
    else if base + offset >= |image| then Walk([], BadRead, offset)
    else if image[base + offset] == 0 then Walk([], ZeroLength, offset)
    else if !RecordFits(image, base + offset) then Walk([], BadRead, offset)
    else
      var rest := WalkFrom(image, base, size, offset + image[base + offset]);
      Walk([base + offset] + rest.entries, rest.stop, rest.at)
  }

  /** The walk over the directory whose record is at `dir`. */
  function DirWalk(image: Bytes, dir: nat): Walk
    requires RecordFits(image, dir)
  {
    WalkFrom(image, ExtentOffset(RecordExtent(image, dir)), RecordSize(image, dir), 0)
  }

  /** Every record of `w` starts inside the extent, at or after `offset`, and has a length of at least 1. */
  predicate WithinExtent(image: Bytes, base: nat, size: nat, offset: nat, w: Walk) {
    forall i :: 0 <= i < |w.entries| ==>
      base + offset <= w.entries[i] < base + size && w.entries[i] < |image| && image[w.entries[i]] >= 1
  }

  /** The first record of `w` is at `offset`, and each next one starts where the previous one ends. */
  predicate Chained(image: Bytes, base: nat, offset: nat, w: Walk) {
    && (|w.entries| > 0 ==> w.entries[0] == base + offset)
    && forall i :: 0 <= i < |w.entries| - 1 ==>
         w.entries[i] < |image| && w.entries[i + 1] == w.entries[i] + image[w.entries[i]]
  }

  /**
   * `w` stops where the record after its last one would start, and says why: at the end of
   * the extent exactly when that offset reaches `size`, at a zero length byte, or past the
   * end of the image or at a record of non-zero length that does not fit inside it.
   */
  predicate StopsRightly(image: Bytes, base: nat, size: nat, offset: nat, w: Walk) {
    && (|w.entries| == 0 ==> w.at == offset)
    && (|w.entries| > 0 ==>
          var last := w.entries[|w.entries| - 1];
          last < |image| && base + w.at == last + image[last])
    && (w.stop == EndOfExtent <==> w.at >= size)
    && (w.stop == ZeroLength ==> base + w.at < |image| && image[base + w.at] == 0)
    && (w.stop == BadRead ==>
          base + w.at >= |image| || (image[base + w.at] != 0 && !RecordFits(image, base + w.at)))
  }

  lemma {:induction false} WalkFromWithinExtent(image: Bytes, base: nat, size: nat, offset: nat)
    ensures WithinExtent(image, base, size, offset, WalkFrom(image, base, size, offset))
    decreases size - offset
  {
    var w := WalkFrom(image, base, size, offset);
    if offset < size && base + offset < |image| && image[base + offset] != 0
      && RecordFits(image, base + offset)
    {
      var next := offset + image[base + offset];
      var rest := WalkFrom(image, base, size, next);
      assert w == Walk([base + offset] + rest.entries, rest.stop, rest.at);
      WalkFromWithinExtent(image, base, size, next);
      forall i | 0 < i < |w.entries|
        ensures base + offset <= w.entries[i] < base + size && w.entries[i] < |image| && image[w.entries[i]] >= 1
      {
        assert w.entries[i] == rest.entries[i - 1];
      }
    }
  }

  lemma {:induction false} WalkFromChained(image: Bytes, base: nat, size: nat, offset: nat)
    ensures Chained(image, base, offset, WalkFrom(image, base, size, offset))
    decreases size - offset
  {
    var w := WalkFrom(image, base, size, offset);
    if offset < size && base + offset < |image| && image[base + offset] != 0
      && RecordFits(image, base + offset)
    {
      var next := offset + image[base + offset];
      var rest := WalkFrom(image, base, size, next);
      assert w == Walk([base + offset] + rest.entries, rest.stop, rest.at);
      WalkFromChained(image, base, size, next);
      forall i | 0 <= i < |w.entries| - 1
        ensures w.entries[i] < |image| && w.entries[i + 1] == w.entries[i] + image[w.entries[i]]
      {
        if i > 0 {
          assert w.entries[i] == rest.entries[i - 1] && w.entries[i + 1] == rest.entries[i];
        }
      }
    }
  }

  lemma {:induction false} WalkFromStops(image: Bytes, base: nat, size: nat, offset: nat)
    ensures StopsRightly(image, base, size, offset, WalkFrom(image, base, size, offset))
    decreases size - offset
  {
    var w := WalkFrom(image, base, size, offset);
    if offset < size && base + offset < |image| && image[base + offset] != 0
      && RecordFits(image, base + offset)
    {
      var next := offset + image[base + offset];
      var rest := WalkFrom(image, base, size, next);
      assert w == Walk([base + offset] + rest.entries, rest.stop, rest.at);
      WalkFromStops(image, base, size, next);
      if rest.entries != [] {
        assert w.entries[|w.entries| - 1] == rest.entries[|rest.entries| - 1];
      }
    }
  }

  // ---------------------------------------------------------------------------
  // First-match lookup

  /**
   * Whether the record at `pos` is a hit for `path`: its stripped name equals it, and it is a
   * directory if `dirsOnly`.
   */
  predicate Matches(image: Bytes, pos: nat, path: Bytes, dirsOnly: bool) {
    && RecordFits(image, pos)
    && StripName(RecordName(image, pos)) == path
    && (!dirsOnly || HasFlag(RecordFlags(image, pos), Directory))
  }

  /** The index of the first hit, or |entries| when there is none. */
  function FirstMatch(image: Bytes, entries: seq<nat>, path: Bytes, dirsOnly: bool): (i: nat)
    ensures i <= |entries|
  {
    if entries == [] then 0
    else if Matches(image, entries[0], path, dirsOnly) then 0
    else 1 + FirstMatch(image, entries[1..], path, dirsOnly)
  }

  /** FirstMatch is the first hit: every record before it is not a hit, and it is one unless it is |entries|. */
  lemma {:induction false} FirstMatchIsFirst(image: Bytes, entries: seq<nat>, path: Bytes, dirsOnly: bool)
    ensures forall j :: 0 <= j < FirstMatch(image, entries, path, dirsOnly) ==> !Matches(image, entries[j], path, dirsOnly)
    ensures FirstMatch(image, entries, path, dirsOnly) < |entries| ==>
      Matches(image, entries[FirstMatch(image, entries, path, dirsOnly)], path, dirsOnly)
  {
    if entries != [] && !Matches(image, entries[0], path, dirsOnly) {
      FirstMatchIsFirst(image, entries[1..], path, dirsOnly);
      var i := FirstMatch(image, entries, path, dirsOnly);
      forall j | 0 < j < i
        ensures !Matches(image, entries[j], path, dirsOnly)
      {
        assert entries[j] == entries[1..][j - 1];
      }
    }
  }

  /**
   * The record a scan of the walk yields: the first hit; otherwise NotFound when the walk
   * ended normally and OutOfBounds when it stopped at a read past the image.
   */
  function Lookup(image: Bytes, w: Walk, path: Bytes, dirsOnly: bool): (r: Result<nat>)
    ensures r.Ok? ==> Matches(image, r.value, path, dirsOnly)
  {
    FirstMatchIsFirst(image, w.entries, path, dirsOnly);
    var i := FirstMatch(image, w.entries, path, dirsOnly);
    if i < |w.entries| then Ok(w.entries[i])
    else if w.stop == BadRead then Err(OutOfBounds)
    else Err(NotFound)
  }

  /**
   * A lookup succeeds iff some record of the walk is a hit, and then yields the first one;
   * it fails with OutOfBounds exactly when there is no hit and the walk stopped at a bad read,
   * and with NotFound otherwise.
   */
  lemma LookupIsFirstHit(image: Bytes, w: Walk, path: Bytes, dirsOnly: bool)
    ensures Lookup(image, w, path, dirsOnly).Ok? <==>
      exists i :: 0 <= i < |w.entries| && Matches(image, w.entries[i], path, dirsOnly)
    ensures Lookup(image, w, path, dirsOnly).Ok? ==>
      exists i :: && 0 <= i < |w.entries|
                  && w.entries[i] == Lookup(image, w, path, dirsOnly).value
                  && Matches(image, w.entries[i], path, dirsOnly)
                  && forall j :: 0 <= j < i ==> !Matches(image, w.entries[j], path, dirsOnly)
    ensures Lookup(image, w, path, dirsOnly).Err? ==>
      Lookup(image, w, path, dirsOnly).error == (if w.stop == BadRead then OutOfBounds else NotFound)
  {
    FirstMatchIsFirst(image, w.entries, path, dirsOnly);
  }

  /** A scan that passes a record which is not a hit continues with the rest of the walk. */
  lemma LookupSkip(image: Bytes, e: nat, w: Walk, path: Bytes, dirsOnly: bool)
    requires !Matches(image, e, path, dirsOnly)
    ensures Lookup(image, Walk([e] + w.entries, w.stop, w.at), path, dirsOnly) == Lookup(image, w, path, dirsOnly)
  {
    assert ([e] + w.entries)[1..] == w.entries;
  }

  /**
   * The scan the lookup loops perform, record by record from offset `offset`: stop with
   * NotFound at the end of the extent or at a zero length byte, with OutOfBounds at a read
   * past the image, with the record's position at the first hit.
   */
  function ScanFrom(image: Bytes, base: nat, size: nat, offset: nat, path: Bytes, dirsOnly: bool): (r: Result<nat>)
    ensures r.Ok? ==> base + offset <= r.value && Matches(image, r.value, path, dirsOnly)
    ensures r.Err? ==> r.error == NotFound || r.error == OutOfBounds
    decreases size - offset
  {
    if offset >= size then Err(NotFound)
    else if base + offset >= |image| then Err(OutOfBounds)
    else if image[base + offset] == 0 then Err(NotFound)
    else if !RecordFits(image, base + offset) then Err(OutOfBounds)
    else if Matches(image, base + offset, path, dirsOnly) then Ok(base + offset)
    else ScanFrom(image, base, size, offset + image[base + offset], path, dirsOnly)
  }

  /** A record that is not a hit passes the scan on to the next record. */
  lemma ScanFromStep(image: Bytes, base: nat, size: nat, offset: nat, path: Bytes, dirsOnly: bool, offset': nat)
    requires offset < size && base + offset < |image| && image[base + offset] != 0 && RecordFits(image, base + offset)
    requires !Matches(image, base + offset, path, dirsOnly) && offset' == offset + image[base + offset]
    ensures ScanFrom(image, base, size, offset, path, dirsOnly) == ScanFrom(image, base, size, offset', path, dirsOnly)
  {
    assert ScanFrom(image, base, size, offset, path, dirsOnly)
        == ScanFrom(image, base, size, offset + image[base + offset], path, dirsOnly);
  }

  /** Scanning record by record finds what the first-match lookup over the whole walk finds. */
  lemma {:induction false} ScanFromIsLookup(image: Bytes, base: nat, size: nat, offset: nat, path: Bytes, dirsOnly: bool)
    ensures ScanFrom(image, base, size, offset, path, dirsOnly)
         == Lookup(image, WalkFrom(image, base, size, offset), path, dirsOnly)
    decreases size - offset
  {
    var pos := base + offset;
    if offset < size && pos < |image| && image[pos] != 0 && RecordFits(image, pos)
      && !Matches(image, pos, path, dirsOnly)
    {
      var next := offset + image[pos];
      var rest := WalkFrom(image, base, size, next);
      assert WalkFrom(image, base, size, offset) == Walk([pos] + rest.entries, rest.stop, rest.at);
      ScanFromIsLookup(image, base, size, next, path, dirsOnly);
      LookupSkip(image, pos, rest, path, dirsOnly);
    }
  }

  /**
   * find_directory_entry: scan the directory at block `extent` of `size` bytes for the first
   * directory record whose stripped name is `path`.
   */
  method FindDirectoryEntry(image: Bytes, extent: nat, size: nat, path: CString) returns (r: Result<nat>)
    ensures r == Lookup(image, WalkFrom(image, ExtentOffset(extent), size, 0), path, true)
  {
    var base := ExtentOffset(extent);
    ScanFromIsLookup(image, base, size, 0, path, true);
    var offset: nat := 0;
    while offset < size
      invariant ScanFrom(image, base, size, 0, path, true) == ScanFrom(image, base, size, offset, path, true)
      decreases size - offset
    {
      var pos := base + offset;
      if pos >= |image| {
        return Err(OutOfBounds);
      }
      var length := image[pos];
      if length == 0 {
        break;
      }
      if !RecordFits(image, pos) {
        return Err(OutOfBounds);
      }
      var name := EntryName(image, pos);
      if name == path && HasFlag(RecordFlags(image, pos), Directory) {
        return Ok(pos);
      }
      ghost var before := offset;
      offset := offset + length;
      ScanFromStep(image, base, size, before, path, true, offset);
    }
    return Err(NotFound);
  }

  // ---------------------------------------------------------------------------
  // ls

  function Lines(image: Bytes, entries: seq<nat>): (lines: seq<ListLine>)
    requires AllFit(image, entries)
    ensures |lines| == |entries|
    ensures forall i :: 0 <= i < |entries| ==> lines[i] == Describe(image, entries[i])
  {
    if entries == [] then [] else [Describe(image, entries[0])] + Lines(image, entries[1..])
  }

  /** The lines ls prints, and whether it stopped at a read past the image. */
  datatype LsOutput = LsOutput(lines: seq<ListLine>, status: Outcome)

  /** What ls prints of a walk: one line per record read; the walk's stop at a bad read is a failure. */
  function Listing(image: Bytes, w: Walk): LsOutput
    requires AllFit(image, w.entries)
  {
    LsOutput(Lines(image, w.entries), if w.stop == BadRead then Fail(OutOfBounds) else Pass)
  }

  /** What ls prints of the directory whose record is at `dir`. */
  function LsResult(image: Bytes, dir: nat): LsOutput {
    if !RecordFits(image, dir) then LsOutput([], Fail(OutOfBounds)) else Listing(image, DirWalk(image, dir))
  }

  /**
   * What the ls loop prints from offset `offset` on, record by record: a line per record
   * until the end of the extent or a zero length byte; a read past the image ends the
   * listing with a failure.
   */
  function ListFrom(image: Bytes, base: nat, size: nat, offset: nat): (r: LsOutput)
    ensures r.status == Pass || r.status == Fail(OutOfBounds)
    decreases size - offset
  {
    if offset >= size then LsOutput([], Pass)
    else if base + offset >= |image| then LsOutput([], Fail(OutOfBounds))
    else if image[base + offset] == 0 then LsOutput([], Pass)
    else if !RecordFits(image, base + offset) then LsOutput([], Fail(OutOfBounds))
    else
      var rest := ListFrom(image, base, size, offset + image[base + offset]);
      LsOutput([Describe(image, base + offset)] + rest.lines, rest.status)
  }

  /** Listing record by record prints what the listing of the whole walk prints. */
  lemma {:induction false} ListFromIsListing(image: Bytes, base: nat, size: nat, offset: nat)
    ensures ListFrom(image, base, size, offset) == Listing(image, WalkFrom(image, base, size, offset))
    decreases size - offset
  {
    var pos := base + offset;
    if offset < size && pos < |image| && image[pos] != 0 && RecordFits(image, pos) {
      var next := offset + image[pos];
      var rest := WalkFrom(image, base, size, next);
      assert WalkFrom(image, base, size, offset) == Walk([pos] + rest.entries, rest.stop, rest.at);
      ListFromIsListing(image, base, size, next);
      assert ([pos] + rest.entries)[1..] == rest.entries;
      assert Lines(image, [pos] + rest.entries) == [Describe(image, pos)] + Lines(image, rest.entries);
      var tail := ListFrom(image, base, size, next);
      assert ListFrom(image, base, size, offset) == LsOutput([Describe(image, pos)] + tail.lines, tail.status);
    }
  }

  /** One record of the ls loop: its line comes first, then whatever the rest of the walk prints. */
  lemma ListFromStep(image: Bytes, base: nat, size: nat, offset: nat, lines: seq<ListLine>, offset': nat, lines': seq<ListLine>)
    requires offset < size && base + offset < |image| && image[base + offset] != 0 && RecordFits(image, base + offset)
    requires offset' == offset + image[base + offset] && lines' == lines + [Describe(image, base + offset)]
    ensures Prefixed(lines, ListFrom(image, base, size, offset)) == Prefixed(lines', ListFrom(image, base, size, offset'))
  {
    var rest := ListFrom(image, base, size, offset + image[base + offset]);
    var line := Describe(image, base + offset);
    assert ListFrom(image, base, size, offset) == LsOutput([line] + rest.lines, rest.status);
    assert lines + ([line] + rest.lines) == (lines + [line]) + rest.lines;
  }

  /** `lines` followed by what `out` prints. */
  function Prefixed(lines: seq<ListLine>, out: LsOutput): LsOutput {
    LsOutput(lines + out.lines, out.status)
  }

  lemma PrefixedNothing(out: LsOutput)
    ensures Prefixed([], out) == out
  {
    assert [] + out.lines == out.lines;
  }

  /** ls: one line for every record of the directory at `dir`, in walk order. */
  method Ls(image: Bytes, dir: nat) returns (lines: seq<ListLine>, status: Outcome)
    ensures LsOutput(lines, status) == LsResult(image, dir)
  {
    lines := [];
    if !RecordFits(image, dir) {
      return lines, Fail(OutOfBounds);
    }
    var base, size := ExtentOffset(RecordExtent(image, dir)), RecordSize(image, dir);
    PrefixedNothing(ListFrom(image, base, size, 0));
    var offset: nat := 0;
    status := Pass;
    while offset < size
      invariant ListFrom(image, base, size, 0) == Prefixed(lines, ListFrom(image, base, size, offset))
      invariant status == Pass
      decreases size - offset
    {
      var pos := base + offset;
      if pos >= |image| {
        status := Fail(OutOfBounds);
        break;
      }
      var length := image[pos];
      if length == 0 {
        break;
      }
      if !RecordFits(image, pos) {
        status := Fail(OutOfBounds);
        break;
      }
      ghost var before, prior := offset, lines;
      var line := DescribeEntry(image, pos);
      lines := lines + [line];
      offset := offset + length;
      ListFromStep(image, base, size, before, prior, offset, lines);
    }
    assert ListFrom(image, base, size, offset) == LsOutput([], status);
    assert Prefixed(lines, LsOutput([], status)) == LsOutput(lines, status);
    ListFromIsListing(image, base, size, 0);
  }

  // ---------------------------------------------------------------------------
  // get, cat and copy_file

  /** The `size` bytes of the record's extent, or OutOfBounds when they do not lie inside the image. */
  function FileBytes(image: Bytes, pos: nat): (r: Result<Bytes>)
    requires RecordFits(image, pos)
    ensures r.Ok? <==> ExtentOffset(RecordExtent(image, pos)) + RecordSize(image, pos) <= |image|
    ensures r.Err? ==> r.error == OutOfBounds
    ensures r.Ok? ==> |r.value| == RecordSize(image, pos)
    ensures r.Ok? ==> forall k :: 0 <= k < |r.value| ==> r.value[k] == image[ExtentOffset(RecordExtent(image, pos)) + k]
  {
    var start := ExtentOffset(RecordExtent(image, pos));
    if start + RecordSize(image, pos) > |image| then Err(OutOfBounds)
    else Ok(image[start .. start + RecordSize(image, pos)])
  }

  /** What copy_file writes: the file's bytes, under the record's stripped name. */
  datatype Extracted = Extracted(fileName: Bytes, data: Bytes)

  function CopyFile(image: Bytes, pos: nat): (r: Result<Extracted>)
    requires RecordFits(image, pos)
    ensures r.Ok? <==> FileBytes(image, pos).Ok?
    ensures r.Ok? ==> r.value.fileName == StripName(RecordName(image, pos)) && Ok(r.value.data) == FileBytes(image, pos)
    ensures r.Err? ==> r.error == OutOfBounds
  {
    match FileBytes(image, pos)
    case Err(e) => Err(e)
    case Ok(data) => Ok(Extracted(StripName(RecordName(image, pos)), data))
  }

  /**
   * The record get and cat act on: the first record of the directory at `dir` whose stripped
   * name is `path`, of any type; IsADirectory when that record is a directory.
   */
  function SelectFile(image: Bytes, dir: nat, path: Bytes): (r: Result<nat>)
    ensures r.Ok? ==> RecordFits(image, r.value) && !HasFlag(RecordFlags(image, r.value), Directory)
  {
    if !RecordFits(image, dir) then Err(OutOfBounds)
    else match Lookup(image, DirWalk(image, dir), path, false)
      case Err(e) => Err(e)
      case Ok(pos) => if HasFlag(RecordFlags(image, pos), Directory) then Err(IsADirectory) else Ok(pos)
  }

  /** What get extracts from the directory at `dir`. */
  function GetResult(image: Bytes, dir: nat, path: Bytes): Result<Extracted> {
    match SelectFile(image, dir, path)
    case Err(e) => Err(e)
    case Ok(pos) => CopyFile(image, pos)
  }

  /** What cat writes out from the directory at `dir`. */
  function CatResult(image: Bytes, dir: nat, path: Bytes): Result<Bytes> {
    match SelectFile(image, dir, path)
    case Err(e) => Err(e)
    case Ok(pos) => FileBytes(image, pos)
  }

  /** get: copy the first record named `path` out of the directory at `dir`. */
  method Get(image: Bytes, dir: nat, path: CString) returns (r: Result<Extracted>)
    ensures r == GetResult(image, dir, path)
  {
    if !RecordFits(image, dir) {
      return Err(OutOfBounds);
    }
    var base, size := ExtentOffset(RecordExtent(image, dir)), RecordSize(image, dir);
    ScanFromIsLookup(image, base, size, 0, path, false);
    var offset: nat := 0;
    while offset < size
      invariant ScanFrom(image, base, size, 0, path, false) == ScanFrom(image, base, size, offset, path, false)
      decreases size - offset
    {
      var pos := base + offset;
      if pos >= |image| {
        return Err(OutOfBounds);
      }
      var length := image[pos];
      if length == 0 {
        break;
      }
      if !RecordFits(image, pos) {
        return Err(OutOfBounds);
      }
      var name := EntryName(image, pos);
      if name == path {
        if HasFlag(RecordFlags(image, pos), Directory) {
          return Err(IsADirectory);
        }
        return CopyFile(image, pos);
      }
      ghost var before := offset;
      offset := offset + length;
      ScanFromStep(image, base, size, before, path, false, offset);
    }
    return Err(NotFound);
  }

  /** cat: the bytes of the first record named `path` in the directory at `dir`. */
  method Cat(image: Bytes, dir: nat, path: CString) returns (r: Result<Bytes>)
    ensures r == CatResult(image, dir, path)
  {
    if !RecordFits(image, dir) {
      return Err(OutOfBounds);
    }
    var base, size := ExtentOffset(RecordExtent(image, dir)), RecordSize(image, dir);
    ScanFromIsLookup(image, base, size, 0, path, false);
    var offset: nat := 0;
    while offset < size
      invariant ScanFrom(image, base, size, 0, path, false) == ScanFrom(image, base, size, offset, path, false)
      decreases size - offset
    {
      var pos := base + offset;
      if pos >= |image| {
        return Err(OutOfBounds);
      }
      var length := image[pos];
      if length == 0 {
        break;
      }
      if !RecordFits(image, pos) {
        return Err(OutOfBounds);
      }
      var name := EntryName(image, pos);
      if name == path {
        if HasFlag(RecordFlags(image, pos), Directory) {
          return Err(IsADirectory);
        }
        return FileBytes(image, pos);
      }
      ghost var before := offset;
      offset := offset + length;
      ScanFromStep(image, base, size, before, path, false, offset);
    }
    return Err(NotFound);
  }

  /**
   * get and cat agree: get succeeds exactly when cat does, writes the bytes cat would show,
   * and names the output file after the path it was given.
   */
  lemma GetAgreesWithCat(image: Bytes, dir: nat, path: CString)
    ensures GetResult(image, dir, path).Ok? <==> CatResult(image, dir, path).Ok?
    ensures GetResult(image, dir, path).Ok? ==>
      && Ok(GetResult(image, dir, path).value.data) == CatResult(image, dir, path)
      && GetResult(image, dir, path).value.fileName == path
    ensures GetResult(image, dir, path).Err? ==> GetResult(image, dir, path).error == CatResult(image, dir, path).error
  {
  }

  /**
   * The outcome of get and cat in terms of the walk: the first record named `path` decides;
   * a directory gives IsADirectory; no such record gives NotFound, or OutOfBounds when the
   * walk stopped at a read past the image.
   */
  lemma SelectFileIsFirstNamed(image: Bytes, dir: nat, path: CString)
    requires RecordFits(image, dir)
    ensures SelectFile(image, dir, path).Ok? ==>
      exists i :: && 0 <= i < |DirWalk(image, dir).entries|
                  && DirWalk(image, dir).entries[i] == SelectFile(image, dir, path).value
                  && StripName(RecordName(image, DirWalk(image, dir).entries[i])) == path
                  && forall j :: 0 <= j < i ==> !Matches(image, DirWalk(image, dir).entries[j], path, false)
    ensures SelectFile(image, dir, path) == Err(IsADirectory) <==>
      exists i :: && 0 <= i < |DirWalk(image, dir).entries|
                  && Matches(image, DirWalk(image, dir).entries[i], path, false)
                  && HasFlag(RecordFlags(image, DirWalk(image, dir).entries[i]), Directory)
                  && forall j :: 0 <= j < i ==> !Matches(image, DirWalk(image, dir).entries[j], path, false)
    ensures SelectFile(image, dir, path) == Err(NotFound) <==>
      && DirWalk(image, dir).stop != BadRead
      && forall i :: 0 <= i < |DirWalk(image, dir).entries| ==> !Matches(image, DirWalk(image, dir).entries[i], path, false)
  {
    var w := DirWalk(image, dir);
    LookupIsFirstHit(image, w, path, false);
    FirstMatchIsFirst(image, w.entries, path, false);
    var k := FirstMatch(image, w.entries, path, false);
    if SelectFile(image, dir, path) == Err(IsADirectory) {
      assert k < |w.entries|;
    }
    if exists i :: && 0 <= i < |w.entries|
                   && Matches(image, w.entries[i], path, false)
                   && HasFlag(RecordFlags(image, w.entries[i]), Directory)
                   && forall j :: 0 <= j < i ==> !Matches(image, w.entries[j], path, false)
    {
      var i :| && 0 <= i < |w.entries|
               && Matches(image, w.entries[i], path, false)
               && HasFlag(RecordFlags(image, w.entries[i]), Directory)
               && forall j :: 0 <= j < i ==> !Matches(image, w.entries[j], path, false);
      assert i == k;
    }
  }

  /** Conversely, when the first record named `path` is not a directory, get and cat select it. */
  lemma SelectFileTakesFirstNamed(image: Bytes, dir: nat, path: CString)
    requires RecordFits(image, dir)
    ensures forall i :: && 0 <= i < |DirWalk(image, dir).entries|
                        && Matches(image, DirWalk(image, dir).entries[i], path, false)
                        && !HasFlag(RecordFlags(image, DirWalk(image, dir).entries[i]), Directory)
                        && (forall j :: 0 <= j < i ==> !Matches(image, DirWalk(image, dir).entries[j], path, false))
                        ==> SelectFile(image, dir, path) == Ok(DirWalk(image, dir).entries[i])
  {
    var w := DirWalk(image, dir);
    FirstMatchIsFirst(image, w.entries, path, false);
    var k := FirstMatch(image, w.entries, path, false);
    forall i | && 0 <= i < |w.entries|
               && Matches(image, w.entries[i], path, false)
               && !HasFlag(RecordFlags(image, w.entries[i]), Directory)
               && (forall j :: 0 <= j < i ==> !Matches(image, w.entries[j], path, false))
      ensures SelectFile(image, dir, path) == Ok(w.entries[i])
    {
      assert i == k;
    }
  }

  // ---------------------------------------------------------------------------
  // cd and the navigation state

  /** Where the navigator stands: the position of the current directory's record, and the displayed path. */
  datatype NavState = NavState(current: nat, path: CString)

  /** The path after entering `p`: "/" and `p` run together at the root, joined by "/" elsewhere. */
  function AppendComponent(path: CString, p: CString): (r: CString)
    ensures path == Root ==> r == Root + p
    ensures path != Root ==> r == path + [SlashByte] + p
  {
    if path == Root then path + p else path + [SlashByte] + p
  }

  /**
   * cd `p` from state `s`: the empty path goes back to the root and "/". Otherwise the first
   * directory named `p` in the current directory becomes current; with none, the current
   * directory stays. Then, unless the resulting directory is the root or `p` is ".", `p` is
   * appended to the path, whether or not the lookup found it. A read past the image leaves
   * the state as it was.
   */
  function ChangeDirectory(image: Bytes, root: nat, s: NavState, p: CString): (r: (Outcome, NavState))
    ensures r.0 == Pass || r.0 == Fail(NotFound) || r.0 == Fail(OutOfBounds)
    ensures r.0 == Fail(OutOfBounds) ==> r.1 == s
    ensures r.0 == Fail(NotFound) ==> r.1.current == s.current
  {
    if p == [] then (Pass, NavState(root, Root))
    else if !RecordFits(image, s.current) then (Fail(OutOfBounds), s)
    else
      var found := Lookup(image, DirWalk(image, s.current), p, true);
      if found == Err(OutOfBounds) then (Fail(OutOfBounds), s)
      else
        var current := if found.Ok? then found.value else s.current;
        var path := if current != root && p != Dot then AppendComponent(s.path, p) else s.path;
        (if found.Ok? then Pass else Fail(NotFound), NavState(current, path))
  }

  /** cd with the empty path resets the state to the root and "/", whatever it was. */
  lemma CdEmptyResets(image: Bytes, root: nat, s: NavState)
    ensures ChangeDirectory(image, root, s, []) == (Pass, NavState(root, Root))
  {
  }

  /**
   * cd with a non-empty `p` succeeds exactly when the current directory holds a directory
   * record with the stripped name `p`, and it then moves to the first such record in walk order.
   */
  lemma CdEntersFirstDirectory(image: Bytes, root: nat, s: NavState, p: CString)
    ensures p != [] ==>
      (ChangeDirectory(image, root, s, p).0 == Pass <==>
         && RecordFits(image, s.current)
         && exists i :: 0 <= i < |DirWalk(image, s.current).entries| && Matches(image, DirWalk(image, s.current).entries[i], p, true))
    ensures p != [] && ChangeDirectory(image, root, s, p).0 == Pass ==>
      && RecordFits(image, s.current)
      && exists i :: && 0 <= i < |DirWalk(image, s.current).entries|
                     && DirWalk(image, s.current).entries[i] == ChangeDirectory(image, root, s, p).1.current
                     && Matches(image, DirWalk(image, s.current).entries[i], p, true)
                     && forall j :: 0 <= j < i ==> !Matches(image, DirWalk(image, s.current).entries[j], p, true)
  {
    if p != [] && RecordFits(image, s.current) {
      LookupIsFirstHit(image, DirWalk(image, s.current), p, true);
    }
  }

  /**
   * cd fails with NotFound exactly when no directory record of the current directory is named
   * `p` and the walk ended normally; the current directory is then unchanged.
   */
  lemma CdNotFoundKeepsDirectory(image: Bytes, root: nat, s: NavState, p: CString)
    requires p != [] && RecordFits(image, s.current)
    ensures ChangeDirectory(image, root, s, p).0 == Fail(NotFound) <==>
      && DirWalk(image, s.current).stop != BadRead
      && forall i :: 0 <= i < |DirWalk(image, s.current).entries| ==> !Matches(image, DirWalk(image, s.current).entries[i], p, true)
    ensures ChangeDirectory(image, root, s, p).0 == Fail(NotFound) ==> ChangeDirectory(image, root, s, p).1.current == s.current
  {
    LookupIsFirstHit(image, DirWalk(image, s.current), p, true);
  }

  /**
   * The path after a cd that got as far as the lookup: `p` is appended, after a "/" unless
   * the path was "/", exactly when the resulting directory is not the root and `p` is not ".".
   * This holds for a failed lookup too: from a subdirectory, `cd missing` and `cd ..` both
   * lengthen the path although the current directory stays.
   */
  lemma CdPathUpdate(image: Bytes, root: nat, s: NavState, p: CString)
    ensures p != [] && ChangeDirectory(image, root, s, p).0 != Fail(OutOfBounds) ==>
      if ChangeDirectory(image, root, s, p).1.current != root && p != Dot
      then ChangeDirectory(image, root, s, p).1.path == (if s.path == Root then Root + p else s.path + [SlashByte] + p)
      else ChangeDirectory(image, root, s, p).1.path == s.path
  {
  }

  /** A failed lookup from a subdirectory keeps the directory and still appends `p` to the path. */
  lemma CdNotFoundInSubdirectoryAppends(image: Bytes, root: nat, s: NavState, p: CString)
    requires p != [] && p != Dot && s.current != root && s.path != Root
    requires ChangeDirectory(image, root, s, p).0 == Fail(NotFound)
    ensures ChangeDirectory(image, root, s, p).1 == NavState(s.current, s.path + [SlashByte] + p)
  {
  }

  /** A failed lookup from the root leaves the path as it was, "/" in particular. */
  lemma CdNotFoundAtRootKeepsPath(image: Bytes, root: nat, s: NavState, p: CString)
    requires p != [] && s.current == root
    requires ChangeDirectory(image, root, s, p).0 == Fail(NotFound)
    ensures ChangeDirectory(image, root, s, p).1 == s
  {
  }

  /**
   * cd ".." never enters the parent pseudo-record: that record's stripped name is the byte
   * 0x01, not "..". It moves only to a directory whose name really is "..".
   */
  lemma CdDotDotSkipsParentRecord(image: Bytes, root: nat, s: NavState)
    ensures ChangeDirectory(image, root, s, DotDot).0 == Pass ==>
      && RecordFits(image, ChangeDirectory(image, root, s, DotDot).1.current)
      && RecordName(image, ChangeDirectory(image, root, s, DotDot).1.current) != ParentName
  {
    PseudoRecordNames();
  }

  /** cd keeps the path absolute. */
  lemma CdKeepsPathAbsolute(image: Bytes, root: nat, s: NavState, p: CString)
    requires |s.path| > 0 && s.path[0] == SlashByte
    ensures |ChangeDirectory(image, root, s, p).1.path| > 0 && ChangeDirectory(image, root, s, p).1.path[0] == SlashByte
  {
  }

  // ---------------------------------------------------------------------------
  // Volume check and the navigator

  /**
   * strncmp(s, t, n) == 0: the first `n` characters agree, where the comparison ends early at
   * a NUL both strings share.
   */
  function StrNEqual(s: Bytes, t: Bytes, n: nat): (equal: bool)
    requires n <= |s| && n <= |t|
    ensures s[..n] == t[..n] ==> equal
    ensures equal ==> forall i :: 0 <= i < n && Nul !in s[..i] ==> s[i] == t[i]
  {
    if n == 0 then true
    else
      assert s[1..][..n - 1] == s[1..n] && t[1..][..n - 1] == t[1..n];
      s[0] == t[0] && (s[0] == Nul || StrNEqual(s[1..], t[1..], n - 1))
  }

  /** Against a string with no NUL among its first `n` bytes, strncmp compares those `n` bytes exactly. */
  lemma {:induction false} StrNEqualNoNul(s: Bytes, t: Bytes, n: nat)
    requires n <= |s| && n <= |t| && Nul !in t[..n]
    ensures StrNEqual(s, t, n) <==> s[..n] == t[..n]
  {
    if n > 0 {
      assert t[0] == t[..n][0];
      assert t[1..][..n - 1] == t[1..n];
      assert Nul !in t[1..][..n - 1];
      StrNEqualNoNul(s[1..], t[1..], n - 1);
      assert s[..n] == [s[0]] + s[1..][..n - 1];
      assert t[..n] == [t[0]] + t[1..][..n - 1];
    }
  }

  /** Where the standard identifier of the volume descriptor lies in the image. */
  const StdIdOffset: nat := VolDescOffset + StdIdentifierAt

  /**
   * The start-up check: the image is accepted when the 5 bytes at 0x8001 are "CD001", and
   * then the root is the directory record embedded in the descriptor at 0x8000 + 156. An
   * image too short to hold the identifier is a read past its end.
   */
  function OpenVolume(image: Bytes): (r: Result<nat>)
    ensures r.Ok? <==> |image| >= 0x8006 && image[0x8001 .. 0x8006] == StandardId
    ensures r.Ok? ==> r.value == 0x8000 + 156
    ensures r.Err? ==> r.error == (if |image| < 0x8006 then OutOfBounds else InvalidFormat)
  {
    if |image| < StdIdOffset + StandardIdLen then Err(OutOfBounds)
    else
      var id := image[StdIdOffset .. StdIdOffset + StandardIdLen];
      StrNEqualNoNul(id, StandardId, StandardIdLen);
      assert id[..StandardIdLen] == id && StandardId[..StandardIdLen] == StandardId;
      if !StrNEqual(id, StandardId, StandardIdLen) then Err(InvalidFormat)
      else Ok(VolDescOffset + RootDirAt)
  }

  /** The navigation state of the session over one accepted image, updated in place by cd. */
  class Navigator {
    const image: Bytes
    const root: nat
    var current: nat
    var path: CString

    function State(): NavState
      reads this
    {
      NavState(current, path)
    }

    /** The displayed path is absolute. */
    predicate Valid()
      reads this
    {
      |path| > 0 && path[0] == SlashByte
    }

    /** Start-up: both the current directory and the root are the descriptor's root record; the path is "/". */
    constructor(image: Bytes)
      requires OpenVolume(image).Ok?
      ensures this.image == image && root == OpenVolume(image).value
      ensures State() == NavState(root, Root)
      ensures Valid()
    {
      this.image := image;
      root := OpenVolume(image).value;
      current := OpenVolume(image).value;
      path := Root;
    }

    /** cd `p`: update the current directory and the displayed path. */
    method Cd(p: CString) returns (status: Outcome)
      requires Valid()
      modifies this
      ensures (status, State()) == ChangeDirectory(image, root, old(State()), p)
      ensures Valid()
    {
      if p == [] {
        current, path := root, Root;
        return Pass;
      }
      if !RecordFits(image, current) {
        return Fail(OutOfBounds);
      }
      var found := FindDirectoryEntry(image, RecordExtent(image, current), RecordSize(image, current), p);
      if found == Err(OutOfBounds) {
        return Fail(OutOfBounds);
      }
      if found.Ok? {
        current := found.value;
        status := Pass;
      } else {
        status := Fail(NotFound);
      }
      if current != root && p != Dot {
        if path != Root {
          path := path + [SlashByte];
        }
        path := path + p;
      }
    }
  }
}

/**
 * The on-disk layout of a PCF (Portable Compiled Format) bitmap font, as the three decoders
 * of the repository read it: a little-endian header and table directory, then big-endian
 * table bodies (accelerators, encodings, bitmaps) found at the offsets the directory gives.
 *
 * Every failure of the decoders is a Rust panic (slice indexing, `assert!`, `expect`,
 * `unwrap`, arithmetic overflow in a debug build); here each one is a `Failure` carrying
 * the `Error` that names its cause.
 */
module PcfLayout {
  import opened Wrappers
  import opened Bytes

  // Table types: the directory keys each table by one of these bits.
  const PCF_PROPERTIES: int := 1
  const PCF_ACCELERATORS: int := 2
  const PCF_METRICS: int := 4
  const PCF_BITMAPS: int := 8
  const PCF_INK_METRICS: int := 16
  const PCF_BDF_ENCODINGS: int := 32
  const PCF_SWIDTHS: int := 64
  const PCF_GLYPH_NAMES: int := 128
  const PCF_BDF_ACCELERATORS: int := 256

  // Format-word bits.
  const PCF_DEFAULT_FORMAT: int := 0
  const PCF_ACCEL_W_INKBOUNDS: int := 0x100
  const PCF_COMPRESSED_METRICS: int := 0x100
  const PCF_GLYPH_PAD_MASK: int := 3
  const PCF_BYTE_MASK: int := 4

  datatype Error =
    | OutOfBounds                  // a slice or index past the end of the font bytes
    | MissingTable(tableType: int) // `expect`/`unwrap`/`[]` on a table the directory lacks
    | NoAcceleratorTable           // neither accelerator table is present
    | NotBigEndian                 // the accelerators' format word lacks the byte-order bit
    | NotDefaultFormat             // the encoding/bitmap format check (it never fires)
    | Overflow                     // an i32/i16/u8 overflow, which panics in a debug build
    | ConversionFailed             // a negative i32 converted to usize with `try_into`
    | UncompressedMetrics          // per-glyph metrics that are not compressed

  /** Whether the directory's words are read as i32 (pcf-parser, earliest copy) or u32 (older copy). */
  datatype Signedness = Signed | Unsigned

  /** One directory entry: where a table lives and how it is formatted. */
  datatype Table = Table(format: int, size: int, offset: int)

  /** A little-endian directory word, as an i32 or a u32. */
  function Word(s: seq<Byte>, at: int, sg: Signedness): int
    requires InBounds(s, at, 4)
  {
    if sg == Signed then I32LE(s, at) else U32LE(s, at)
  }

  /** The magic number: the little-endian i32 of bytes 0..4. */
  function Header(s: seq<Byte>): (r: Result<int, Error>)
    ensures r.Success? <==> |s| >= 4
  {
    if |s| < 4 then Failure(OutOfBounds) else Success(I32LE(s, 0))
  }

  /** The number of directory records: the little-endian i32 of bytes 4..8. */
  function TableCount(s: seq<Byte>): (r: Result<int, Error>)
    ensures r.Success? <==> |s| >= 8
  {
    if |s| < 8 then Failure(OutOfBounds) else Success(I32LE(s, 4))
  }

  /** Header and table count are the words that were written there, whatever follows. */
  lemma HeaderRoundTrip(magic: int, count: int, rest: seq<Byte>)
    requires InI32(magic) && InI32(count)
    ensures Header(EncodeI32LE(magic) + EncodeI32LE(count) + rest) == Success(magic)
    ensures TableCount(EncodeI32LE(magic) + EncodeI32LE(count) + rest) == Success(count)
  {
    var s := EncodeI32LE(magic) + EncodeI32LE(count) + rest;
    I32LERoundTrip(magic, s, 0);
    I32LERoundTrip(count, s, 4);
    assert s[0..4] == EncodeI32LE(magic);
    assert s[4..8] == EncodeI32LE(count);
    I32LERoundTrip(magic, EncodeI32LE(magic), 0);
    I32LERoundTrip(count, EncodeI32LE(count), 0);
    assert I32LE(s, 0) == I32LE(EncodeI32LE(magic), 0);
    assert I32LE(s, 4) == I32LE(EncodeI32LE(count), 0);
  }

  /** The bytes "\x01fcp" spell the PCF magic number 1885562369. */
  lemma HeaderMagic(rest: seq<Byte>)
    requires |rest| >= 4
    ensures Header([1, 0x66, 0x63, 0x70] + rest) == Success(1885562369)
  {
  }

  // The table directory: `table_count` records of 16 bytes, record `i` at 8 + 16 * i.

  function RecordOffset(i: nat): nat {
    8 + 16 * i
  }

  function RecordType(s: seq<Byte>, i: nat, sg: Signedness): int
    requires RecordOffset(i) + 16 <= |s|
  {
    Word(s, RecordOffset(i), sg)
  }

  function RecordTable(s: seq<Byte>, i: nat, sg: Signedness): Table
    requires RecordOffset(i) + 16 <= |s|
  {
    var at := RecordOffset(i);
    Table(Word(s, at + 4, sg), Word(s, at + 8, sg), Word(s, at + 12, sg))
  }

  /** The map built by inserting records `0..n` in order, so a later record replaces an earlier one of the same type. */
  function DirectoryPrefix(s: seq<Byte>, n: nat, sg: Signedness): map<int, Table>
    requires RecordOffset(n) <= |s|
  {
    if n == 0 then map[]
    else DirectoryPrefix(s, n - 1, sg)[RecordType(s, n - 1, sg) := RecordTable(s, n - 1, sg)]
  }

  /** The directory the decoders build: a negative count reads no record, and every record must lie inside the bytes. */
  function DirectoryOf(s: seq<Byte>, sg: Signedness): (r: Result<map<int, Table>, Error>)
    ensures r.Success? <==> |s| >= 8 && RecordOffset(Records(I32LE(s, 4))) <= |s|
  {
    var count :- TableCount(s);
    var n := Records(count);
    if RecordOffset(n) > |s| then Failure(OutOfBounds) else Success(DirectoryPrefix(s, n, sg))
  }

  /** `for _ in 0..count` runs no iteration when `count` is negative. */
  function Records(count: int): nat {
    if count < 0 then 0 else count
  }

  /** `read_tables`: read `table_count` records, each at `cursor`, then advance `cursor` by 16. */
  method ReadTables(s: seq<Byte>, sg: Signedness) returns (r: Result<map<int, Table>, Error>)
    ensures r == DirectoryOf(s, sg)
  {
    if |s| < 8 {
      return Failure(OutOfBounds);
    }
    var n := Records(I32LE(s, 4));
    var tables: map<int, Table> := map[];
    var cursor := 8;
    var i := 0;
    while i < n
      invariant 0 <= i <= n
      invariant cursor == RecordOffset(i) && cursor <= |s|
      invariant tables == DirectoryPrefix(s, i, sg)
    {
      if cursor + 16 > |s| {
        return Failure(OutOfBounds);
      }
      var ty := Word(s, cursor, sg);
      var table := Table(Word(s, cursor + 4, sg), Word(s, cursor + 8, sg), Word(s, cursor + 12, sg));
      tables := tables[ty := table];
      cursor := cursor + 16;
      i := i + 1;
    }
    return Success(tables);
  }

  /** The directory's keys are exactly the types of the records read. */
  lemma {:induction false} DirectoryKeys(s: seq<Byte>, n: nat, sg: Signedness, t: int)
    requires RecordOffset(n) <= |s|
    ensures t in DirectoryPrefix(s, n, sg) <==> exists i :: 0 <= i < n && RecordType(s, i, sg) == t
  {
    if n > 0 {
      DirectoryKeys(s, n - 1, sg, t);
      if t in DirectoryPrefix(s, n - 1, sg) {
        var i :| 0 <= i < n - 1 && RecordType(s, i, sg) == t;
        assert 0 <= i < n && RecordType(s, i, sg) == t;
      }
    }
  }

  /** A record that no later record of the same type follows is the one the directory keeps. */
  lemma {:induction false} DirectoryLastWins(s: seq<Byte>, n: nat, sg: Signedness, i: nat)
    requires RecordOffset(n) <= |s| && i < n
    requires forall j :: i < j < n ==> RecordType(s, j, sg) != RecordType(s, i, sg)
    ensures RecordType(s, i, sg) in DirectoryPrefix(s, n, sg)
    ensures DirectoryPrefix(s, n, sg)[RecordType(s, i, sg)] == RecordTable(s, i, sg)
  {
    if i < n - 1 {
      DirectoryLastWins(s, n - 1, sg, i);
    }
  }

  /** The directory has at most one entry per record, and exactly one when the record types are distinct. */
  lemma {:induction false} DirectorySize(s: seq<Byte>, n: nat, sg: Signedness)
    requires RecordOffset(n) <= |s|
    ensures |DirectoryPrefix(s, n, sg)| <= n
    ensures (forall i, j :: 0 <= i < j < n ==> RecordType(s, i, sg) != RecordType(s, j, sg))
            ==> |DirectoryPrefix(s, n, sg)| == n
  {
    if n > 0 {
      DirectorySize(s, n - 1, sg);
      var t := RecordType(s, n - 1, sg);
      var m := DirectoryPrefix(s, n - 1, sg);
      assert DirectoryPrefix(s, n, sg) == m[t := RecordTable(s, n - 1, sg)];
      if t !in m {
        assert |m[t := RecordTable(s, n - 1, sg)]| == |m| + 1;
      } else {
        assert |m[t := RecordTable(s, n - 1, sg)]| == |m|;
      }
      if forall i, j :: 0 <= i < j < n ==> RecordType(s, i, sg) != RecordType(s, j, sg) {
        DirectoryKeys(s, n - 1, sg, t);
        assert t !in m;
      }
    }
  }

  /** `bitmap_format`: the format of the bitmap table; `unwrap` panics when there is none. */
  function BitmapFormat(tables: map<int, Table>): (r: Result<int, Error>)
    ensures r.Failure? ==> r.error == MissingTable(PCF_BITMAPS)
  {
    if PCF_BITMAPS in tables then Success(tables[PCF_BITMAPS].format)
    else Failure(MissingTable(PCF_BITMAPS))
  }

  /**
   * On a decoded directory, `bitmap_format` is the format field of the last record of type 8,
   * and fails exactly when no record has type 8.
   */
  lemma BitmapFormatOfDirectory(s: seq<Byte>, n: nat, sg: Signedness)
    requires RecordOffset(n) <= |s|
    ensures (forall i :: 0 <= i < n ==> RecordType(s, i, sg) != PCF_BITMAPS)
            <==> BitmapFormat(DirectoryPrefix(s, n, sg)) == Failure(MissingTable(PCF_BITMAPS))
    ensures forall i :: (0 <= i < n && RecordType(s, i, sg) == PCF_BITMAPS &&
                         (forall j :: i < j < n ==> RecordType(s, j, sg) != PCF_BITMAPS))
                        ==> BitmapFormat(DirectoryPrefix(s, n, sg)) == Success(RecordTable(s, i, sg).format)
  {
    DirectoryKeys(s, n, sg, PCF_BITMAPS);
    forall i | 0 <= i < n && RecordType(s, i, sg) == PCF_BITMAPS &&
               (forall j :: i < j < n ==> RecordType(s, j, sg) != PCF_BITMAPS)
      ensures BitmapFormat(DirectoryPrefix(s, n, sg)) == Success(RecordTable(s, i, sg).format)
    {
      DirectoryLastWins(s, n, sg, i);
    }
  }

  // Uncompressed metrics: five big-endian i16 then one big-endian u16.

  datatype Metrics = Metrics(
    leftSideBearing: int,
    rightSideBearing: int,
    characterWidth: int,
    characterAscent: int,
    characterDescent: int,
    characterAttributes: int)

  function MetricsAt(s: seq<Byte>, at: int): Metrics
    requires InBounds(s, at, 12)
  {
    Metrics(I16BE(s, at), I16BE(s, at + 2), I16BE(s, at + 4), I16BE(s, at + 6), I16BE(s, at + 8),
            U16BE(s, at + 10))
  }

  predicate MetricsInRange(m: Metrics) {
    InI16(m.leftSideBearing) && InI16(m.rightSideBearing) && InI16(m.characterWidth) &&
    InI16(m.characterAscent) && InI16(m.characterDescent) && 0 <= m.characterAttributes < U16_LIMIT
  }

  function EncodeMetrics(m: Metrics): (s: seq<Byte>)
    requires MetricsInRange(m)
    ensures |s| == 12
  {
    EncodeI16BE(m.leftSideBearing) + EncodeI16BE(m.rightSideBearing) + EncodeI16BE(m.characterWidth) +
    EncodeI16BE(m.characterAscent) + EncodeI16BE(m.characterDescent) + EncodeU16BE(m.characterAttributes)
  }

  /** Reading a metrics record inverts writing one: the field order is fixed. */
  lemma MetricsRoundTrip(m: Metrics)
    requires MetricsInRange(m)
    ensures MetricsAt(EncodeMetrics(m), 0) == m
  {
    var e := EncodeMetrics(m);
    assert e[0..2] == EncodeI16BE(m.leftSideBearing);
    assert e[2..4] == EncodeI16BE(m.rightSideBearing);
    assert e[4..6] == EncodeI16BE(m.characterWidth);
    assert e[6..8] == EncodeI16BE(m.characterAscent);
    assert e[8..10] == EncodeI16BE(m.characterDescent);
    assert e[10..12] == EncodeU16BE(m.characterAttributes);
    I16BEAt(e, 0, m.leftSideBearing);
    I16BEAt(e, 2, m.rightSideBearing);
    I16BEAt(e, 4, m.characterWidth);
    I16BEAt(e, 6, m.characterAscent);
    I16BEAt(e, 8, m.characterDescent);
    U16BEAt(e, 10, m.characterAttributes);
  }

  /** Writing back a decoded metrics record gives the twelve bytes it was read from. */
  lemma MetricsReadBack(s: seq<Byte>, at: int)
    requires InBounds(s, at, 12)
    ensures MetricsInRange(MetricsAt(s, at)) && EncodeMetrics(MetricsAt(s, at)) == s[at..at + 12]
  {
    I16BERoundTrip(0, s, at);
    I16BERoundTrip(0, s, at + 2);
    I16BERoundTrip(0, s, at + 4);
    I16BERoundTrip(0, s, at + 6);
    I16BERoundTrip(0, s, at + 8);
    U16BERoundTrip(0, s, at + 10);
    assert s[at..at + 12] == s[at..at + 2] + s[at + 2..at + 4] + s[at + 4..at + 6] + s[at + 6..at + 8] +
                             s[at + 8..at + 10] + s[at + 10..at + 12];
  }

  /** `read_uncompressed_metrics`: read one record at `cursor` and advance the cursor by exactly 12. */
  method ReadUncompressedMetrics(s: seq<Byte>, cursor: int) returns (m: Metrics, next: int)
    requires InBounds(s, cursor, 12)
    ensures m == MetricsAt(s, cursor) && next == cursor + 12
  {
    var leftSideBearing := I16BE(s, cursor);
    var rightSideBearing := I16BE(s, cursor + 2);
    var characterWidth := I16BE(s, cursor + 4);
    var characterAscent := I16BE(s, cursor + 6);
    var characterDescent := I16BE(s, cursor + 8);
    var characterAttributes := U16BE(s, cursor + 10);
    next := cursor + 12;
    m := Metrics(leftSideBearing, rightSideBearing, characterWidth, characterAscent, characterDescent,
                 characterAttributes);
  }

  // Accelerators: a little-endian format word, eight flag bytes, three big-endian i32 and two
  // (or, with the ink-bounds bit, four) uncompressed metrics records.

  datatype Accelerators = Accelerators(
    noOverlap: Byte,
    constantMetrics: Byte,
    terminalFont: Byte,
    constantWidth: Byte,
    inkInside: Byte,
    inkMetrics: Byte,
    drawDirection: Byte,
    padding: Byte,
    fontAscent: int,
    fontDescent: int,
    maxOverlap: int,
    minbounds: Metrics,
    maxbounds: Metrics,
    inkMinbounds: Metrics,
    inkMaxbounds: Metrics)

  /** The table the accelerators are read from: the BDF accelerators when present, else the plain ones. */
  function AcceleratorTable(tables: map<int, Table>): Option<Table> {
    if PCF_BDF_ACCELERATORS in tables then Some(tables[PCF_BDF_ACCELERATORS])
    else if PCF_ACCELERATORS in tables then Some(tables[PCF_ACCELERATORS])
    else None
  }

  predicate HasInkBounds(format: int) {
    And32(format, PCF_ACCEL_W_INKBOUNDS) != 0
  }

  /** Bytes an accelerator table occupies from its format word to its last metrics record. */
  function AcceleratorsSpan(format: int): nat {
    if HasInkBounds(format) then 72 else 48
  }

  function AcceleratorsAt(s: seq<Byte>, off: int): Result<Accelerators, Error> {
    if !InBounds(s, off, 4) then Failure(OutOfBounds)
    else
      var format := I32LE(s, off);
      if And32(format, PCF_BYTE_MASK) == 0 then Failure(NotBigEndian)
      else if !InBounds(s, off, AcceleratorsSpan(format)) then Failure(OutOfBounds)
      else
        var minbounds := MetricsAt(s, off + 24);
        var maxbounds := MetricsAt(s, off + 36);
        Success(Accelerators(
          s[off + 4], s[off + 5], s[off + 6], s[off + 7], s[off + 8], s[off + 9], s[off + 10], s[off + 11],
          I32BE(s, off + 12), I32BE(s, off + 16), I32BE(s, off + 20),
          minbounds, maxbounds,
          if HasInkBounds(format) then MetricsAt(s, off + 48) else minbounds,
          if HasInkBounds(format) then MetricsAt(s, off + 60) else maxbounds))
  }

  function AcceleratorsOf(s: seq<Byte>, tables: map<int, Table>): Result<Accelerators, Error> {
    match AcceleratorTable(tables)
    case None => Failure(NoAcceleratorTable)
    case Some(t) => AcceleratorsAt(s, t.offset)
  }

  /** `read_accelerators`, threading a cursor through the table as the decoders do. */
  method ReadAccelerators(s: seq<Byte>, tables: map<int, Table>) returns (r: Result<Accelerators, Error>)
    ensures r == AcceleratorsOf(s, tables)
  {
    var table := AcceleratorTable(tables);
    if table.None? {
      return Failure(NoAcceleratorTable);
    }
    var cursor := table.value.offset;
    if !InBounds(s, cursor, 4) {
      return Failure(OutOfBounds);
    }
    var format := I32LE(s, cursor);
    cursor := cursor + 4;
    if And32(format, PCF_BYTE_MASK) == 0 {
      return Failure(NotBigEndian);
    }
    var hasInkbounds := And32(format, PCF_ACCEL_W_INKBOUNDS);
    if !InBounds(s, cursor - 4, AcceleratorsSpan(format)) {
      return Failure(OutOfBounds);
    }
    var noOverlap, constantMetrics, terminalFont, constantWidth := s[cursor], s[cursor + 1], s[cursor + 2], s[cursor + 3];
    var inkInside, inkMetrics, drawDirection, padding := s[cursor + 4], s[cursor + 5], s[cursor + 6], s[cursor + 7];
    cursor := cursor + 8;
    var fontAscent := I32BE(s, cursor);
    cursor := cursor + 4;
    var fontDescent := I32BE(s, cursor);
    cursor := cursor + 4;
    var maxOverlap := I32BE(s, cursor);
    cursor := cursor + 4;
    var minbounds, maxbounds;
    minbounds, cursor := ReadUncompressedMetrics(s, cursor);
    maxbounds, cursor := ReadUncompressedMetrics(s, cursor);
    var inkMinbounds, inkMaxbounds := minbounds, maxbounds;
    if hasInkbounds != 0 {
      inkMinbounds, cursor := ReadUncompressedMetrics(s, cursor);
      inkMaxbounds, cursor := ReadUncompressedMetrics(s, cursor);
    }
    return Success(Accelerators(noOverlap, constantMetrics, terminalFont, constantWidth, inkInside, inkMetrics,
                                drawDirection, padding, fontAscent, fontDescent, maxOverlap,
                                minbounds, maxbounds, inkMinbounds, inkMaxbounds));
  }

  /**
   * Decoded accelerators: the BDF table wins over the plain one, the format word has its
   * byte-order bit (bit 2) set, and without the ink-bounds bit (bit 8) the ink bounds are the
   * logical bounds.
   */
  lemma AcceleratorsProperties(s: seq<Byte>, tables: map<int, Table>)
    ensures AcceleratorsOf(s, tables) == Failure(NoAcceleratorTable)
            <==> PCF_BDF_ACCELERATORS !in tables && PCF_ACCELERATORS !in tables
    ensures PCF_BDF_ACCELERATORS in tables
            ==> AcceleratorsOf(s, tables) == AcceleratorsAt(s, tables[PCF_BDF_ACCELERATORS].offset)
    ensures AcceleratorsOf(s, tables).Success? ==>
              var off := AcceleratorTable(tables).value.offset;
              var a := AcceleratorsOf(s, tables).value;
              InBounds(s, off, 4) && TestBit(I32LE(s, off) % U32_LIMIT, 2) &&
              (!TestBit(I32LE(s, off) % U32_LIMIT, 8) ==> a.inkMinbounds == a.minbounds && a.inkMaxbounds == a.maxbounds)
  {
    if AcceleratorsOf(s, tables).Success? {
      var off := AcceleratorTable(tables).value.offset;
      And32SingleBit(I32LE(s, off), 2);
      And32SingleBit(I32LE(s, off), 8);
      assert Pow2(2) == PCF_BYTE_MASK;
      assert Pow2(8) == PCF_ACCEL_W_INKBOUNDS by {
        Pow2Step8(0);
      }
    }
  }

  /** Without the ink-bounds bit, the ink bounds are the plain bounds. */
  lemma AcceleratorsWithoutInkBounds(s: seq<Byte>, off: int)
    requires InBounds(s, off, 4) && !HasInkBounds(I32LE(s, off))
    ensures AcceleratorsAt(s, off).Success? ==>
              AcceleratorsAt(s, off).value.inkMinbounds == AcceleratorsAt(s, off).value.minbounds &&
              AcceleratorsAt(s, off).value.inkMaxbounds == AcceleratorsAt(s, off).value.maxbounds
  {
  }

  /** The format word 0xE carries the byte-order bit (bit 2). */
  lemma FormatFourteenByteOrder(format: int)
    requires format == 0xE
    ensures And32(format, PCF_BYTE_MASK) != 0
  {
    assert Pow2(2) == PCF_BYTE_MASK;
    assert TestBit(format % U32_LIMIT, 2) by {
      assert format % U32_LIMIT == 0xE;
      assert 0xE / Pow2(2) == 3;
    }
    And32SingleBit(format, 2);
  }

  /** The format word 0xE lacks the ink-bounds bit (bit 8). */
  lemma FormatFourteenNoInkBounds(format: int)
    requires format == 0xE
    ensures !HasInkBounds(format)
  {
    assert !TestBit(format % U32_LIMIT, 8) by {
      assert format % U32_LIMIT == 0xE;
      Pow2Step8(0);
      assert 0xE / Pow2(8) == 0;
    }
    And32SingleBit(format, 8);
  }

  /** An accelerator table whose format word is 0xE (as in the repository's test font) has no ink bounds of its own. */
  lemma AcceleratorsFormatFourteen(s: seq<Byte>, off: int)
    requires InBounds(s, off, 4) && I32LE(s, off) == 0xE
    ensures AcceleratorsAt(s, off).Success? ==>
              AcceleratorsAt(s, off).value.inkMinbounds == AcceleratorsAt(s, off).value.minbounds
    ensures AcceleratorsAt(s, off) != Failure(NotBigEndian)
  {
    FormatFourteenByteOrder(I32LE(s, off));
    FormatFourteenNoInkBounds(I32LE(s, off));
    AcceleratorsWithoutInkBounds(s, off);
  }

  /**
   * The repository's test font: format word 0xE, zero flag bytes, ascent 10, descent 2,
   * maximum overlap 1, and ink bounds that repeat the logical bounds.
   */
  lemma AcceleratorsExample(s: seq<Byte>, off: int)
    requires InBounds(s, off, 48) && I32LE(s, off) == 0xE
    requires forall k :: off + 4 <= k < off + 12 ==> s[k] == 0
    requires I32BE(s, off + 12) == 10 && I32BE(s, off + 16) == 2 && I32BE(s, off + 20) == 1
    requires MetricsAt(s, off + 24) == Metrics(-1, 1, 0, -1, -7, 0)
    requires MetricsAt(s, off + 36) == Metrics(3, 11, 11, 9, 3, 0)
    ensures AcceleratorsAt(s, off) ==
            Success(Accelerators(0, 0, 0, 0, 0, 0, 0, 0, 10, 2, 1,
                                 Metrics(-1, 1, 0, -1, -7, 0), Metrics(3, 11, 11, 9, 3, 0),
                                 Metrics(-1, 1, 0, -1, -7, 0), Metrics(3, 11, 11, 9, 3, 0)))
  {
    FormatFourteenByteOrder(I32LE(s, off));
    FormatFourteenNoInkBounds(I32LE(s, off));
  }

  // Encodings: a little-endian format word, then five big-endian i16.

  datatype Encoding = Encoding(minByte2: int, maxByte2: int, minByte1: int, maxByte1: int, defaultChar: int)

  function EncodingAt(s: seq<Byte>, off: int): Result<Encoding, Error> {
    if !InBounds(s, off, 4) then Failure(OutOfBounds)
    else
      var format := I32LE(s, off);
      if And32(format, PCF_DEFAULT_FORMAT) != 0 then Failure(NotDefaultFormat)
      else if !InBounds(s, off + 4, 10) then Failure(OutOfBounds)
      else Success(Encoding(I16BE(s, off + 4), I16BE(s, off + 6), I16BE(s, off + 8), I16BE(s, off + 10),
                            I16BE(s, off + 12)))
  }

  function EncodingOf(s: seq<Byte>, tables: map<int, Table>): Result<Encoding, Error> {
    if PCF_BDF_ENCODINGS !in tables then Failure(MissingTable(PCF_BDF_ENCODINGS))
    else EncodingAt(s, tables[PCF_BDF_ENCODINGS].offset)
  }

  /** `read_encoding`, threading a cursor through the table. */
  method ReadEncoding(s: seq<Byte>, tables: map<int, Table>) returns (r: Result<Encoding, Error>)
    ensures r == EncodingOf(s, tables)
  {
    if PCF_BDF_ENCODINGS !in tables {
      return Failure(MissingTable(PCF_BDF_ENCODINGS));
    }
    var cursor := tables[PCF_BDF_ENCODINGS].offset;
    if !InBounds(s, cursor, 4) {
      return Failure(OutOfBounds);
    }
    var format := I32LE(s, cursor);
    cursor := cursor + 4;
    if And32(format, PCF_DEFAULT_FORMAT) != 0 {
      return Failure(NotDefaultFormat);
    }
    if !InBounds(s, cursor, 10) {
      return Failure(OutOfBounds);
    }
    var minByte2 := I16BE(s, cursor);
    cursor := cursor + 2;
    var maxByte2 := I16BE(s, cursor);
    cursor := cursor + 2;
    var minByte1 := I16BE(s, cursor);
    cursor := cursor + 2;
    var maxByte1 := I16BE(s, cursor);
    cursor := cursor + 2;
    var defaultChar := I16BE(s, cursor);
    return Success(Encoding(minByte2, maxByte2, minByte1, maxByte1, defaultChar));
  }

  function EncodeEncoding(format: int, e: Encoding): (s: seq<Byte>)
    requires InI32(format)
    requires InI16(e.minByte2) && InI16(e.maxByte2) && InI16(e.minByte1) && InI16(e.maxByte1) && InI16(e.defaultChar)
    ensures |s| == 14
  {
    EncodeI32LE(format) + EncodeI16BE(e.minByte2) + EncodeI16BE(e.maxByte2) + EncodeI16BE(e.minByte1) +
    EncodeI16BE(e.maxByte1) + EncodeI16BE(e.defaultChar)
  }

  /**
   * Whatever its format word, an encoding table decodes to the five fields written after it,
   * in the order min_byte2, max_byte2, min_byte1, max_byte1, default_char: the
   * "default format" check `format & 0 == 0` always passes.
   */
  lemma EncodingRoundTrip(prefix: seq<Byte>, format: int, e: Encoding, rest: seq<Byte>)
    requires InI32(format)
    requires InI16(e.minByte2) && InI16(e.maxByte2) && InI16(e.minByte1) && InI16(e.maxByte1) && InI16(e.defaultChar)
    ensures EncodingAt(prefix + EncodeEncoding(format, e) + rest, |prefix|) == Success(e)
  {
    var s := prefix + EncodeEncoding(format, e) + rest;
    var off := |prefix|;
    EncodingFormatCheckVacuous(s, off);
    assert s[off + 4..off + 6] == EncodeI16BE(e.minByte2);
    assert s[off + 6..off + 8] == EncodeI16BE(e.maxByte2);
    assert s[off + 8..off + 10] == EncodeI16BE(e.minByte1);
    assert s[off + 10..off + 12] == EncodeI16BE(e.maxByte1);
    assert s[off + 12..off + 14] == EncodeI16BE(e.defaultChar);
    I16BEAt(s, off + 4, e.minByte2);
    I16BEAt(s, off + 6, e.maxByte2);
    I16BEAt(s, off + 8, e.minByte1);
    I16BEAt(s, off + 10, e.maxByte1);
    I16BEAt(s, off + 12, e.defaultChar);
  }

  /** The encoding format check never fails, whatever the format word. */
  lemma EncodingFormatCheckVacuous(s: seq<Byte>, off: int)
    ensures EncodingAt(s, off) != Failure(NotDefaultFormat)
    ensures BitmapAt(s, off) != Failure(NotDefaultFormat)
  {
    if InBounds(s, off, 4) {
      AndWithZero(I32LE(s, off) % U32_LIMIT, WORD_BITS);
    }
  }

  // Bitmaps: a little-endian format word, a big-endian glyph count, one big-endian offset
  // per glyph, then four big-endian candidate sizes of which the format's pad class picks one.

  datatype Bitmap = Bitmap(glyphCount: int, bitmapSizes: int)

  function BitmapAt(s: seq<Byte>, off: int): Result<Bitmap, Error> {
    if !InBounds(s, off, 4) then Failure(OutOfBounds)
    else
      var format := I32LE(s, off);
      if And32(format, PCF_DEFAULT_FORMAT) != 0 then Failure(NotDefaultFormat)
      else if !InBounds(s, off + 4, 4) then Failure(OutOfBounds)
      else
        var glyphCount := I32BE(s, off + 4);
        if !InI32(4 * glyphCount) then Failure(Overflow)
        // A negative count becomes a usize near 2^64: adding it to the cursor either overflows
        // or leaves the cursor past the end of the bytes.
        else if glyphCount < 0 then (if off + 8 + 4 * glyphCount >= 0 then Failure(Overflow) else Failure(OutOfBounds))
        else
          var sizes := off + 8 + 4 * glyphCount;
          if !InBounds(s, sizes, 16) then Failure(OutOfBounds)
          else
            And32LowTwoBits(format);
            Success(Bitmap(glyphCount, I32BE(s, sizes + 4 * And32(format, PCF_GLYPH_PAD_MASK))))
  }

  function BitmapOf(s: seq<Byte>, tables: map<int, Table>): Result<Bitmap, Error> {
    if PCF_BITMAPS !in tables then Failure(MissingTable(PCF_BITMAPS))
    else BitmapAt(s, tables[PCF_BITMAPS].offset)
  }

  /** `read_bitmap`, threading a cursor past the per-glyph offsets to the four size words. */
  method ReadBitmap(s: seq<Byte>, tables: map<int, Table>) returns (r: Result<Bitmap, Error>)
    ensures r == BitmapOf(s, tables)
  {
    if PCF_BITMAPS !in tables {
      return Failure(MissingTable(PCF_BITMAPS));
    }
    var cursor := tables[PCF_BITMAPS].offset;
    if !InBounds(s, cursor, 4) {
      return Failure(OutOfBounds);
    }
    var format := I32LE(s, cursor);
    cursor := cursor + 4;
    if And32(format, PCF_DEFAULT_FORMAT) != 0 {
      return Failure(NotDefaultFormat);
    }
    if !InBounds(s, cursor, 4) {
      return Failure(OutOfBounds);
    }
    var glyphCount := I32BE(s, cursor);
    cursor := cursor + 4;
    if !InI32(4 * glyphCount) {
      return Failure(Overflow);
    }
    if glyphCount < 0 {
      return if cursor + 4 * glyphCount >= 0 then Failure(Overflow) else Failure(OutOfBounds);
    }
    cursor := cursor + 4 * glyphCount;
    if !InBounds(s, cursor, 16) {
      return Failure(OutOfBounds);
    }
    var one := I32BE(s, cursor);
    cursor := cursor + 4;
    var two := I32BE(s, cursor);
    cursor := cursor + 4;
    var three := I32BE(s, cursor);
    cursor := cursor + 4;
    var four := I32BE(s, cursor);
    And32LowTwoBits(format);
    var bitmapSizes := [one, two, three, four][And32(format, PCF_GLYPH_PAD_MASK)];
    return Success(Bitmap(glyphCount, bitmapSizes));
  }

  /**
   * A decoded bitmap header: the glyph count is the big-endian word at offset + 4, and the size
   * is the candidate word selected by the format's two low bits (the row-padding class).
   */
  lemma BitmapSizeSelection(s: seq<Byte>, off: int)
    requires BitmapAt(s, off).Success?
    ensures InBounds(s, off, 8)
    ensures var b := BitmapAt(s, off).value;
            b.glyphCount == I32BE(s, off + 4) && 0 <= b.glyphCount &&
            InBounds(s, off + 8 + 4 * b.glyphCount, 16) &&
            b.bitmapSizes == I32BE(s, off + 8 + 4 * b.glyphCount + 4 * (I32LE(s, off) % 4))
  {
    And32LowTwoBits(I32LE(s, off));
  }

  /**
   * The fixture's bitmap header: format word 14 selects the third of the four size words,
   * and 97 glyph offsets lie between the count and the sizes.
   */
  lemma BitmapExample(s: seq<Byte>, off: int)
    requires InBounds(s, off, 8 + 4 * 97 + 16)
    requires I32LE(s, off) == 14 && I32BE(s, off + 4) == 97
    requires I32BE(s, off + 8 + 4 * 97 + 8) == 2988
    ensures BitmapAt(s, off) == Success(Bitmap(97, 2988))
  {
    And32LowTwoBits(14);
    EncodingFormatCheckVacuous(s, off);
  }
}

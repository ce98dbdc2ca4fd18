/**
 * The pure part of the current PCF decoder (pcf-parser): the font bounding box, the offsets
 * `load_metadata` precomputes, the per-code-point lookups `load_glyphs` is made of (glyph
 * index, compressed metrics, bitmap offset, unpacked bitmap), and the glyph map that
 * `load_glyphs` produces.
 *
 * Arithmetic is that of a debug build: an i16/i32/u8 overflow panics, modelled as
 * `Failure(Overflow)`.
 */
module PcfParser {
  import opened Wrappers
  import opened Bytes
  import opened PcfLayout

  datatype Coord = Coord(x: int, y: int)

  /** The ink box of a font or glyph: its size, and the offset of its lower-left corner from the origin. */
  datatype BoundingBox = BoundingBox(size: Coord, offset: Coord)

  function CheckI16(x: int): (r: Result<int, Error>)
    ensures r.Success? <==> InI16(x)
    ensures r.Success? ==> r.value == x
  {
    if InI16(x) then Success(x) else Failure(Overflow)
  }

  function CheckI32(x: int): (r: Result<int, Error>)
    ensures r.Success? <==> InI32(x)
    ensures r.Success? ==> r.value == x
  {
    if InI32(x) then Success(x) else Failure(Overflow)
  }

  /** `try_into::<usize>()` on an i32, which fails on a negative value. */
  function ToUsize(x: int): (r: Result<nat, Error>)
    ensures r.Success? <==> x >= 0
    ensures r.Success? ==> r.value == x
  {
    if x < 0 then Failure(ConversionFailed) else Success(x)
  }

  /**
   * `get_bounding_box`: the box spanned by the ink bounds, from the leftmost left side
   * bearing to the rightmost right side bearing and from the lowest descent to the highest ascent.
   */
  function BoundingBoxOf(acc: Accelerators): (r: Result<BoundingBox, Error>)
    ensures r.Success? <==>
              InI16(acc.inkMaxbounds.rightSideBearing - acc.inkMinbounds.leftSideBearing) &&
              InI16(acc.inkMaxbounds.characterAscent + acc.inkMaxbounds.characterDescent) &&
              InI16(-acc.inkMaxbounds.characterDescent)
    ensures r.Success? ==>
              var b := r.value;
              b.offset.x == acc.inkMinbounds.leftSideBearing &&
              b.offset.x + b.size.x == acc.inkMaxbounds.rightSideBearing &&
              b.offset.y == -acc.inkMaxbounds.characterDescent &&
              b.offset.y + b.size.y == acc.inkMaxbounds.characterAscent
  {
    var minbounds := acc.inkMinbounds;
    var maxbounds := acc.inkMaxbounds;
    var width :- CheckI16(maxbounds.rightSideBearing - minbounds.leftSideBearing);
    var height :- CheckI16(maxbounds.characterAscent + maxbounds.characterDescent);
    var dy :- CheckI16(-maxbounds.characterDescent);
    Success(BoundingBox(Coord(width, height), Coord(minbounds.leftSideBearing, dy)))
  }

  /** Ink bounds left -1, right 11, ascent 9, descent 3 (the repository's test font) give a 12 x 12 box at (-1, -3). */
  lemma BoundingBoxExample(acc: Accelerators)
    requires acc.inkMinbounds.leftSideBearing == -1 && acc.inkMaxbounds.rightSideBearing == 11
    requires acc.inkMaxbounds.characterAscent == 9 && acc.inkMaxbounds.characterDescent == 3
    ensures BoundingBoxOf(acc) == Success(BoundingBox(Coord(12, 12), Coord(-1, -3)))
  {
  }

  /** Offsets into the font that `load_glyphs` uses, computed once by `load_metadata`. */
  datatype Metadata = Metadata(
    indicesOffset: int,
    bitmapOffsetOffsets: int,
    firstBitmapOffset: int,
    metricsCompressedRaw: int,
    isMetricsCompressed: bool,
    firstMetricOffset: int,
    metricsSize: int)

  /** `tables[&t]`, which panics when the directory has no table of type `t`. */
  function TableAt(tables: map<int, Table>, t: int): (r: Result<Table, Error>)
    ensures r.Success? <==> t in tables
    ensures r.Success? ==> r.value == tables[t]
    ensures r.Failure? ==> r.error == MissingTable(t)
  {
    if t in tables then Success(tables[t]) else Failure(MissingTable(t))
  }

  /**
   * When `load_metadata` does not panic: the encodings, bitmaps and metrics tables are all in
   * the directory, and each of its i32 sums and products fits.
   */
  ghost predicate MetadataFits(tables: map<int, Table>, bitmap: Bitmap) {
    PCF_BDF_ENCODINGS in tables && PCF_BITMAPS in tables && PCF_METRICS in tables &&
    InI32(tables[PCF_BDF_ENCODINGS].offset + 14) &&
    InI32(tables[PCF_BITMAPS].offset + 8) &&
    InI32(6 + bitmap.glyphCount) && InI32(4 * (6 + bitmap.glyphCount)) &&
    InI32(tables[PCF_BITMAPS].offset + 4 * (6 + bitmap.glyphCount)) &&
    InI32(tables[PCF_METRICS].offset + if TestBit(tables[PCF_METRICS].format % U32_LIMIT, 8) then 6 else 8)
  }

  /**
   * `load_metadata`. The glyph indices follow the encoding table's 14-byte header; the bitmap
   * data follows the bitmap header, the per-glyph offsets and the four size words; the first
   * metrics record follows the metrics table's format word and its count (2 bytes when
   * compressed, 4 when not).
   */
  function MetadataOf(tables: map<int, Table>, bitmap: Bitmap): (r: Result<Metadata, Error>)
    ensures r.Success? <==> MetadataFits(tables, bitmap)
    ensures PCF_BDF_ENCODINGS !in tables ==> r == Failure(MissingTable(PCF_BDF_ENCODINGS))
    ensures r.Failure? ==>
              r.error in {MissingTable(PCF_BDF_ENCODINGS), MissingTable(PCF_BITMAPS), MissingTable(PCF_METRICS), Overflow}
    ensures PCF_BDF_ENCODINGS in tables && PCF_BITMAPS in tables && PCF_METRICS in tables && r.Failure? ==>
              r.error == Overflow
    ensures r.Success? ==>
              var md := r.value;
              PCF_BDF_ENCODINGS in tables && PCF_BITMAPS in tables && PCF_METRICS in tables &&
              md.indicesOffset == tables[PCF_BDF_ENCODINGS].offset + 4 + 10 &&
              md.bitmapOffsetOffsets == tables[PCF_BITMAPS].offset + 8 &&
              md.firstBitmapOffset == md.bitmapOffsetOffsets + 4 * bitmap.glyphCount + 16 &&
              (md.isMetricsCompressed <==> TestBit(tables[PCF_METRICS].format % U32_LIMIT, 8)) &&
              md.firstMetricOffset == tables[PCF_METRICS].offset + 4 + (if md.isMetricsCompressed then 2 else 4) &&
              md.metricsSize == (if md.isMetricsCompressed then 5 else 12) &&
              md.metricsCompressedRaw == (if md.isMetricsCompressed then PCF_COMPRESSED_METRICS else 0) &&
              InI32(md.indicesOffset) && InI32(md.bitmapOffsetOffsets) && InI32(md.firstBitmapOffset) &&
              InI32(md.firstMetricOffset)
  {
    var encodings :- TableAt(tables, PCF_BDF_ENCODINGS);
    var indicesOffset :- CheckI32(encodings.offset + 14);
    var bitmaps :- TableAt(tables, PCF_BITMAPS);
    var bitmapOffsetOffsets :- CheckI32(bitmaps.offset + 8);
    var count :- CheckI32(6 + bitmap.glyphCount);
    var words :- CheckI32(4 * count);
    var firstBitmapOffset :- CheckI32(bitmaps.offset + words);
    var metrics :- TableAt(tables, PCF_METRICS);
    var metricsCompressedRaw := And32(metrics.format, PCF_COMPRESSED_METRICS);
    var isMetricsCompressed := metricsCompressedRaw != 0;
    CompressedBit(metrics.format);
    var firstMetricOffset :- CheckI32(metrics.offset + if isMetricsCompressed then 6 else 8);
    Success(Metadata(indicesOffset, bitmapOffsetOffsets, firstBitmapOffset, metricsCompressedRaw,
                     isMetricsCompressed, firstMetricOffset, if isMetricsCompressed then 5 else 12))
  }

  /**
   * The header offsets of the fixture font: encodings table at 5392, bitmaps table at 1992,
   * metrics table at 1500 with format 270 (bit 8 set, so compressed), 97 glyphs.
   */
  lemma MetadataExample(tables: map<int, Table>)
    requires PCF_BDF_ENCODINGS in tables && tables[PCF_BDF_ENCODINGS].offset == 5392
    requires PCF_BITMAPS in tables && tables[PCF_BITMAPS].offset == 1992
    requires PCF_METRICS in tables && tables[PCF_METRICS].format == 270 && tables[PCF_METRICS].offset == 1500
    ensures MetadataOf(tables, Bitmap(97, 2988)) == Success(Metadata(5406, 2000, 2404, 256, true, 1506, 5))
  {
    Pow2Step8(0);
    AndWithPow2(270, 8, WORD_BITS);
    assert TestBit(270, 8);
  }

  lemma CompressedBit(format: int)
    ensures And32(format, PCF_COMPRESSED_METRICS) != 0 <==> TestBit(format % U32_LIMIT, 8)
    ensures And32(format, PCF_COMPRESSED_METRICS) == if TestBit(format % U32_LIMIT, 8) then PCF_COMPRESSED_METRICS else 0
  {
    And32SingleBit(format, 8);
    Pow2Step8(0);
  }

  /** The decoded headers `PcfFont::new` stores, in the order it reads them. */
  datatype Decoded = Decoded(
    tables: map<int, Table>,
    accelerators: Accelerators,
    encoding: Encoding,
    bitmap: Bitmap,
    boundingBox: BoundingBox,
    metadata: Metadata)

  function Decode(s: seq<Byte>): Result<Decoded, Error> {
    var tables :- DirectoryOf(s, Signed);
    var accelerators :- AcceleratorsOf(s, tables);
    var encoding :- EncodingOf(s, tables);
    var bitmap :- BitmapOf(s, tables);
    var boundingBox :- BoundingBoxOf(accelerators);
    var metadata :- MetadataOf(tables, bitmap);
    Success(Decoded(tables, accelerators, encoding, bitmap, boundingBox, metadata))
  }

  // Glyph indices: the encoding table maps a code point's two bytes to a u16 glyph index.

  /** The high byte of a code point: `(cp >> 8) & 0xFF` (an arithmetic shift, then the low 8 bits). */
  function Enc1(cp: int): int {
    (cp / 0x100) % 0x100
  }

  /** The low byte of a code point: `cp & 0xFF`. */
  function Enc2(cp: int): int {
    cp % 0x100
  }

  predicate InEncodingRange(enc: Encoding, cp: int) {
    enc.minByte1 <= Enc1(cp) <= enc.maxByte1 && enc.minByte2 <= Enc2(cp) <= enc.maxByte2
  }

  /** The byte offset of a code point's u16 slot in the index array (exact arithmetic). */
  function IndexSlot(enc: Encoding, md: Metadata, cp: int): int {
    md.indicesOffset +
    2 * ((Enc1(cp) - enc.minByte1) * (enc.maxByte2 - enc.minByte2 + 1) + Enc2(cp) - enc.minByte2)
  }

  const NO_GLYPH: int := 65535

  /**
   * Every intermediate i32 value of `indices_offset + 2 * encoding_idx` fits: the row, the
   * row span and length, the row's start, the column added and the minimum taken off, the
   * doubled index and the final sum.
   */
  ghost predicate SlotFits(enc: Encoding, md: Metadata, cp: int) {
    var row := Enc1(cp) - enc.minByte1;
    var rowLength := enc.maxByte2 - enc.minByte2 + 1;
    var encodingIdx := row * rowLength + Enc2(cp) - enc.minByte2;
    InI32(row) && InI32(enc.maxByte2 - enc.minByte2) && InI32(rowLength) &&
    InI32(row * rowLength) && InI32(row * rowLength + Enc2(cp)) && InI32(encodingIdx) &&
    InI32(2 * encodingIdx) && InI32(md.indicesOffset + 2 * encodingIdx)
  }

  /**
   * The cursor of a code point's index slot, `indices_offset + 2 * encoding_idx`, evaluated
   * in i32 arithmetic operation by operation and then converted to a usize.
   */
  function SlotCursor(enc: Encoding, md: Metadata, cp: int): (r: Result<nat, Error>)
    ensures r.Success? <==> SlotFits(enc, md, cp) && IndexSlot(enc, md, cp) >= 0
    ensures r.Failure? ==> (r.error == ConversionFailed <==> SlotFits(enc, md, cp))
    ensures r.Failure? ==> r.error == ConversionFailed || r.error == Overflow
    ensures r.Success? ==> r.value == IndexSlot(enc, md, cp)
  {
    var row :- CheckI32(Enc1(cp) - enc.minByte1);
    var span :- CheckI32(enc.maxByte2 - enc.minByte2);
    var rowLength :- CheckI32(span + 1);
    var rowStart :- CheckI32(row * rowLength);
    var withColumn :- CheckI32(rowStart + Enc2(cp));
    var encodingIdx :- CheckI32(withColumn - enc.minByte2);
    var slotOffset :- CheckI32(2 * encodingIdx);
    var slot :- CheckI32(md.indicesOffset + slotOffset);
    ToUsize(slot)
  }

  /** One iteration of `load_indices`: `None` outside the encoding's ranges or at an empty (0xFFFF) slot. */
  function GlyphIndex(s: seq<Byte>, enc: Encoding, md: Metadata, cp: int): (r: Result<Option<int>, Error>)
    ensures !InEncodingRange(enc, cp) ==> r == Success(None)
    ensures InEncodingRange(enc, cp) ==>
              (r.Success? <==> SlotCursor(enc, md, cp).Success? && InBounds(s, IndexSlot(enc, md, cp), 2))
    ensures InEncodingRange(enc, cp) && SlotCursor(enc, md, cp).Failure? ==> r == Failure(SlotCursor(enc, md, cp).error)
    ensures InEncodingRange(enc, cp) && SlotCursor(enc, md, cp).Success? && !InBounds(s, IndexSlot(enc, md, cp), 2) ==>
              r == Failure(OutOfBounds)
    ensures InEncodingRange(enc, cp) && r.Success? ==>
              InBounds(s, IndexSlot(enc, md, cp), 2) &&
              r.value == (if U16BE(s, IndexSlot(enc, md, cp)) == NO_GLYPH then None
                          else Some(U16BE(s, IndexSlot(enc, md, cp))))
    ensures r.Success? && r.value.Some? ==> 0 <= r.value.value < NO_GLYPH
  {
    var enc1 := Enc1(cp);
    var enc2 := Enc2(cp);
    if enc1 < enc.minByte1 || enc1 > enc.maxByte1 then Success(None)
    else if enc2 < enc.minByte2 || enc2 > enc.maxByte2 then Success(None)
    else
      var cursor :- SlotCursor(enc, md, cp);
      if !InBounds(s, cursor, 2) then Failure(OutOfBounds)
      else
        var glyphIdx := U16BE(s, cursor);
        if glyphIdx != NO_GLYPH then Success(Some(glyphIdx)) else Success(None)
  }

  /**
   * Code point 65 ('A') under the test font's encoding (bytes 0..126 of row 0) reads the
   * index slot 130 bytes into the index array; a 35 stored there is glyph 35.
   */
  lemma GlyphIndexExample(s: seq<Byte>, md: Metadata)
    requires 0 <= md.indicesOffset && InI32(md.indicesOffset + 130)
    requires InBounds(s, md.indicesOffset + 130, 2) && U16BE(s, md.indicesOffset + 130) == 35
    ensures GlyphIndex(s, Encoding(0, 126, 0, 0, 1), md, 65) == Success(Some(35))
  {
  }

  /** `load_indices` as a value: one entry per code point, or the first failure. */
  function IndicesOf(s: seq<Byte>, enc: Encoding, md: Metadata, cps: seq<int>): (r: Result<seq<Option<int>>, Error>)
    ensures r.Success? <==> forall i :: 0 <= i < |cps| ==> GlyphIndex(s, enc, md, cps[i]).Success?
    ensures r.Success? ==>
              (|r.value| == |cps| && forall i :: 0 <= i < |cps| ==> GlyphIndex(s, enc, md, cps[i]) == Success(r.value[i]))
    ensures forall i :: 0 <= i < |cps| && GlyphIndex(s, enc, md, cps[i]).Failure? &&
                        (forall j :: 0 <= j < i ==> GlyphIndex(s, enc, md, cps[j]).Success?)
                        ==> r == Failure(GlyphIndex(s, enc, md, cps[i]).error)
  {
    if |cps| == 0 then Success([])
    else
      var init := cps[..|cps| - 1];
      assert forall i :: 0 <= i < |init| ==> init[i] == cps[i];
      var indices :- IndicesOf(s, enc, md, init);
      var last :- GlyphIndex(s, enc, md, cps[|cps| - 1]);
      Success(indices + [last])
  }

  /** A lookup that fails after successful ones is the failure of the whole `load_indices`. */
  lemma IndicesFailFirst(s: seq<Byte>, enc: Encoding, md: Metadata, cps: seq<int>, i: nat)
    requires i < |cps| && IndicesOf(s, enc, md, cps[..i]).Success?
    ensures GlyphIndex(s, enc, md, cps[i]).Failure? ==>
              IndicesOf(s, enc, md, cps) == Failure(GlyphIndex(s, enc, md, cps[i]).error)
  {
    assert forall j :: 0 <= j < i ==> cps[..i][j] == cps[j];
  }

  // Compressed metrics: five bytes, each stored with a bias of 0x80.

  datatype CompressedMetrics = CompressedMetrics(
    leftSideBearing: int,
    rightSideBearing: int,
    characterWidth: int,
    characterAscent: int,
    characterDescent: int,
    characterAttributes: int)

  /** `bytes[at] - 0x80` on a u8: a stored byte below 0x80 underflows, which panics. */
  function Unbias(s: seq<Byte>, at: int): (r: Result<int, Error>)
    ensures r.Success? <==> 0 <= at < |s| && s[at] >= 0x80
    ensures r.Success? ==> r.value + 0x80 == s[at] && 0 <= r.value < 0x80
  {
    if !(0 <= at < |s|) then Failure(OutOfBounds)
    else if s[at] < 0x80 then Failure(Overflow)
    else Success(s[at] - 0x80)
  }

  /** `read_compressed_metrics`: five unbiased bytes; the attributes are always 0. */
  function CompressedMetricsAt(s: seq<Byte>, at: int): (r: Result<CompressedMetrics, Error>)
    ensures r.Success? <==> InBounds(s, at, 5) && forall k :: at <= k < at + 5 ==> s[k] >= 0x80
    ensures r.Success? ==> r.value.characterAttributes == 0 && CompressedInRange(r.value)
  {
    var leftSideBearing :- Unbias(s, at);
    var rightSideBearing :- Unbias(s, at + 1);
    var characterWidth :- Unbias(s, at + 2);
    var characterAscent :- Unbias(s, at + 3);
    var characterDescent :- Unbias(s, at + 4);
    Success(CompressedMetrics(leftSideBearing, rightSideBearing, characterWidth, characterAscent,
                              characterDescent, 0))
  }

  predicate CompressedInRange(m: CompressedMetrics) {
    0 <= m.leftSideBearing < 0x80 && 0 <= m.rightSideBearing < 0x80 && 0 <= m.characterWidth < 0x80 &&
    0 <= m.characterAscent < 0x80 && 0 <= m.characterDescent < 0x80
  }

  function EncodeCompressed(m: CompressedMetrics): (s: seq<Byte>)
    requires CompressedInRange(m)
    ensures |s| == 5
  {
    [m.leftSideBearing + 0x80, m.rightSideBearing + 0x80, m.characterWidth + 0x80,
     m.characterAscent + 0x80, m.characterDescent + 0x80]
  }

  /** Reading compressed metrics inverts storing them with the 0x80 bias, wherever they sit. */
  lemma CompressedRoundTrip(prefix: seq<Byte>, m: CompressedMetrics, rest: seq<Byte>)
    requires CompressedInRange(m) && m.characterAttributes == 0
    ensures CompressedMetricsAt(prefix + EncodeCompressed(m) + rest, |prefix|) == Success(m)
  {
    var s := prefix + EncodeCompressed(m) + rest;
    var at := |prefix|;
    assert s[at] == m.leftSideBearing + 0x80 && s[at + 1] == m.rightSideBearing + 0x80;
    assert s[at + 2] == m.characterWidth + 0x80 && s[at + 3] == m.characterAscent + 0x80;
    assert s[at + 4] == m.characterDescent + 0x80;
  }

  /** The stored bytes 0x80 0x87 0x88 0x89 0x80 of the test font's 'A' decode to (0, 7, 8, 9, 0). */
  lemma CompressedExample(prefix: seq<Byte>, rest: seq<Byte>)
    ensures CompressedMetricsAt(prefix + [0x80, 0x87, 0x88, 0x89, 0x80] + rest, |prefix|)
            == Success(CompressedMetrics(0, 7, 8, 9, 0, 0))
  {
    CompressedRoundTrip(prefix, CompressedMetrics(0, 7, 8, 9, 0, 0), rest);
  }

  /** Both i32 steps of `base + stride * index` fit: the product, then the sum. */
  predicate CursorFits(base: int, stride: int, index: int) {
    InI32(stride * index) && InI32(base + stride * index)
  }

  /**
   * One iteration of `load_all_metrics`: the record at `first_metric_offset + metrics_size * index`.
   * An i32 overflow fails with `Overflow`, a negative cursor fails its usize conversion, and
   * otherwise the record's own read decides.
   */
  function MetricsFor(s: seq<Byte>, md: Metadata, index: int): (r: Result<CompressedMetrics, Error>)
    ensures var at := md.firstMetricOffset + md.metricsSize * index;
            r.Success? <==> CursorFits(md.firstMetricOffset, md.metricsSize, index) && at >= 0 &&
                            InBounds(s, at, 5) && forall k :: at <= k < at + 5 ==> s[k] >= 0x80
    ensures !CursorFits(md.firstMetricOffset, md.metricsSize, index) ==> r == Failure(Overflow)
    ensures CursorFits(md.firstMetricOffset, md.metricsSize, index) && md.firstMetricOffset + md.metricsSize * index < 0 ==>
              r == Failure(ConversionFailed)
    ensures CursorFits(md.firstMetricOffset, md.metricsSize, index) && md.firstMetricOffset + md.metricsSize * index >= 0 ==>
              r == CompressedMetricsAt(s, md.firstMetricOffset + md.metricsSize * index)
  {
    var scaled :- CheckI32(md.metricsSize * index);
    var sum :- CheckI32(md.firstMetricOffset + scaled);
    var cursor :- ToUsize(sum);
    CompressedMetricsAt(s, cursor)
  }

  /** `load_all_metrics` as a value: `None` exactly where the index is `None`, or the first failure. */
  function AllMetricsOf(s: seq<Byte>, md: Metadata, indices: seq<Option<int>>)
    : (r: Result<seq<Option<CompressedMetrics>>, Error>)
    ensures r.Success? <==> forall i :: 0 <= i < |indices| && indices[i].Some? ==> MetricsFor(s, md, indices[i].value).Success?
    ensures r.Success? ==> (|r.value| == |indices| &&
              forall i :: 0 <= i < |indices| ==>
                ((r.value[i].Some? <==> indices[i].Some?) &&
                (indices[i].Some? ==> MetricsFor(s, md, indices[i].value) == Success(r.value[i].value))))
    ensures forall i :: 0 <= i < |indices| && indices[i].Some? && MetricsFor(s, md, indices[i].value).Failure? &&
                        (forall j :: 0 <= j < i && indices[j].Some? ==> MetricsFor(s, md, indices[j].value).Success?)
                        ==> r == Failure(MetricsFor(s, md, indices[i].value).error)
  {
    if |indices| == 0 then Success([])
    else
      var init := indices[..|indices| - 1];
      assert forall i :: 0 <= i < |init| ==> init[i] == indices[i];
      var all :- AllMetricsOf(s, md, init);
      match indices[|indices| - 1]
      case None => Success(all + [None])
      case Some(index) =>
        var metrics :- MetricsFor(s, md, index);
        Success(all + [Some(metrics)])
  }

  lemma MetricsFailFirst(s: seq<Byte>, md: Metadata, indices: seq<Option<int>>, i: nat)
    requires i < |indices| && AllMetricsOf(s, md, indices[..i]).Success?
    ensures indices[i].Some? && MetricsFor(s, md, indices[i].value).Failure? ==>
              AllMetricsOf(s, md, indices) == Failure(MetricsFor(s, md, indices[i].value).error)
  {
    assert forall j :: 0 <= j < i ==> indices[..i][j] == indices[j];
  }

  /**
   * One iteration of `load_bitmap_offsets`: the big-endian u32 at `bitmap_offset_offsets + 4 * index`,
   * as an i32. An i32 overflow fails with `Overflow`, a negative cursor fails its usize
   * conversion, and four missing bytes fail with `OutOfBounds`.
   */
  function BitmapOffsetFor(s: seq<Byte>, md: Metadata, index: int): (r: Result<int, Error>)
    ensures r.Success? <==> CursorFits(md.bitmapOffsetOffsets, 4, index) &&
                            md.bitmapOffsetOffsets + 4 * index >= 0 && InBounds(s, md.bitmapOffsetOffsets + 4 * index, 4)
    ensures !CursorFits(md.bitmapOffsetOffsets, 4, index) ==> r == Failure(Overflow)
    ensures CursorFits(md.bitmapOffsetOffsets, 4, index) && md.bitmapOffsetOffsets + 4 * index < 0 ==>
              r == Failure(ConversionFailed)
    ensures (CursorFits(md.bitmapOffsetOffsets, 4, index) && md.bitmapOffsetOffsets + 4 * index >= 0 &&
             !InBounds(s, md.bitmapOffsetOffsets + 4 * index, 4)) ==> r == Failure(OutOfBounds)
    ensures r.Success? ==>
              InBounds(s, md.bitmapOffsetOffsets + 4 * index, 4) &&
              r.value == ToI32(U32BE(s, md.bitmapOffsetOffsets + 4 * index))
  {
    var scaled :- CheckI32(4 * index);
    var sum :- CheckI32(md.bitmapOffsetOffsets + scaled);
    var cursor :- ToUsize(sum);
    if !InBounds(s, cursor, 4) then Failure(OutOfBounds)
    else Success(ToI32(U32BE(s, cursor)))
  }

  /** Glyph index 35 ('A' in the test font) reads its bitmap offset from slot 35, 140 bytes in. */
  lemma BitmapOffsetExample(s: seq<Byte>, md: Metadata)
    requires 0 <= md.bitmapOffsetOffsets && InI32(md.bitmapOffsetOffsets + 140)
    requires InBounds(s, md.bitmapOffsetOffsets + 140, 4) && U32BE(s, md.bitmapOffsetOffsets + 140) == 960
    ensures BitmapOffsetFor(s, md, 35) == Success(960)
  {
  }

  /** `load_bitmap_offsets` as a value: `None` exactly where the index is `None`, or the first failure. */
  function AllBitmapOffsetsOf(s: seq<Byte>, md: Metadata, indices: seq<Option<int>>)
    : (r: Result<seq<Option<int>>, Error>)
    ensures r.Success? <==> forall i :: 0 <= i < |indices| && indices[i].Some? ==> BitmapOffsetFor(s, md, indices[i].value).Success?
    ensures r.Success? ==> (|r.value| == |indices| &&
              forall i :: 0 <= i < |indices| ==>
                ((r.value[i].Some? <==> indices[i].Some?) &&
                (indices[i].Some? ==> BitmapOffsetFor(s, md, indices[i].value) == Success(r.value[i].value))))
    ensures forall i :: 0 <= i < |indices| && indices[i].Some? && BitmapOffsetFor(s, md, indices[i].value).Failure? &&
                        (forall j :: 0 <= j < i && indices[j].Some? ==> BitmapOffsetFor(s, md, indices[j].value).Success?)
                        ==> r == Failure(BitmapOffsetFor(s, md, indices[i].value).error)
  {
    if |indices| == 0 then Success([])
    else
      var init := indices[..|indices| - 1];
      assert forall i :: 0 <= i < |init| ==> init[i] == indices[i];
      var all :- AllBitmapOffsetsOf(s, md, init);
      match indices[|indices| - 1]
      case None => Success(all + [None])
      case Some(index) =>
        var offset :- BitmapOffsetFor(s, md, index);
        Success(all + [Some(offset)])
  }

  lemma OffsetsFailFirst(s: seq<Byte>, md: Metadata, indices: seq<Option<int>>, i: nat)
    requires i < |indices| && AllBitmapOffsetsOf(s, md, indices[..i]).Success?
    ensures indices[i].Some? && BitmapOffsetFor(s, md, indices[i].value).Failure? ==>
              AllBitmapOffsetsOf(s, md, indices) == Failure(BitmapOffsetFor(s, md, indices[i].value).error)
  {
    assert forall j :: 0 <= j < i ==> indices[..i][j] == indices[j];
  }

  // Glyphs.

  datatype Glyph = Glyph(
    codePoint: int,
    encoding: Option<char>,
    bitmap: seq<int>,
    width: nat,
    height: nat,
    dx: int,
    dy: int,
    shiftX: int,
    shiftY: int,
    tileIndex: int)

  /** `u32::try_from(cp).ok().and_then(char::from_u32)`: the character, when `cp` is a Unicode scalar value. */
  function CharOf(cp: int): (r: Option<char>)
    ensures r.Some? <==> (0 <= cp < 0xD800 || 0xE000 <= cp < 0x11_0000)
    ensures r.Some? ==> r.value == cp as char
  {
    if 0 <= cp < 0xD800 || 0xE000 <= cp < 0x11_0000 then Some(cp as char) else None
  }

  /** The glyph's width and height, computed in u8 arithmetic from its metrics; either may overflow. */
  function GlyphSize(m: CompressedMetrics): (r: Result<(nat, nat), Error>)
    ensures r.Success? <==> m.leftSideBearing <= m.rightSideBearing && 0 <= m.characterAscent + m.characterDescent < 0x100
    ensures r.Success? ==> r.value == (m.rightSideBearing - m.leftSideBearing, m.characterAscent + m.characterDescent)
  {
    if m.rightSideBearing < m.leftSideBearing then Failure(Overflow)
    else if m.characterAscent + m.characterDescent >= 0x100 || m.characterAscent + m.characterDescent < 0 then Failure(Overflow)
    else Success((m.rightSideBearing - m.leftSideBearing, m.characterAscent + m.characterDescent))
  }

  /** Decoded compressed metrics (each field below 0x80) never overflow the u8 height. */
  lemma CompressedHeightFits(m: CompressedMetrics)
    requires CompressedInRange(m)
    ensures GlyphSize(m).Success? <==> m.leftSideBearing <= m.rightSideBearing
  {
  }

  /** Rows of glyph bitmaps are padded to whole 32-bit words. */
  function BytesPerRow(width: nat): nat {
    4 * ((width + 31) / 32)
  }

  /** Where a glyph's bitmap starts: `first_bitmap_offset + bitmap_offset`, as a usize. */
  function BitmapStart(md: Metadata, bitmapOffset: int): (r: Result<nat, Error>)
    ensures r.Success? <==> InI32(md.firstBitmapOffset + bitmapOffset) && md.firstBitmapOffset + bitmapOffset >= 0
    ensures !InI32(md.firstBitmapOffset + bitmapOffset) ==> r == Failure(Overflow)
    ensures InI32(md.firstBitmapOffset + bitmapOffset) && md.firstBitmapOffset + bitmapOffset < 0 ==>
              r == Failure(ConversionFailed)
    ensures r.Success? ==> r.value == md.firstBitmapOffset + bitmapOffset
  {
    var sum :- CheckI32(md.firstBitmapOffset + bitmapOffset);
    ToUsize(sum)
  }

  /** Every row start the unpacking loop reads lies inside the bytes (no read when the width is 0). */
  predicate RowsInBounds(s: seq<Byte>, start: nat, width: nat, height: nat) {
    width == 0 || height == 0 || start + BytesPerRow(width) * (height - 1) < |s|
  }

  /** A row starting past the end of the bytes makes every taller bitmap out of bounds. */
  lemma RowsAbove(s: seq<Byte>, start: nat, width: nat, height: nat, y: nat)
    requires width > 0 && y < height && start + BytesPerRow(width) * y >= |s|
    ensures !RowsInBounds(s, start, width, height)
  {
    MulMonotone(BytesPerRow(width), y, height - 1);
  }

  /** The rows above `y` and row `y` itself inside the bytes make `y + 1` rows in bounds. */
  lemma RowsExtend(s: seq<Byte>, start: nat, width: nat, y: nat)
    requires start + BytesPerRow(width) * y < |s|
    ensures RowsInBounds(s, start, width, y + 1)
  {
    assert y + 1 - 1 == y;
  }

  /** `byte & (128 >> (x % 8)) != 0` on the byte at the start of row `y`. */
  predicate PixelOn(s: seq<Byte>, start: nat, width: nat, x: nat, y: nat)
    requires start + BytesPerRow(width) * y < |s|
  {
    AndBits(s[start + BytesPerRow(width) * y], Shr(0x80, x % 8), BYTE_BITS) != 0
  }

  lemma RowsBelow(s: seq<Byte>, start: nat, width: nat, height: nat, y: nat)
    requires RowsInBounds(s, start, width, height) && width > 0 && y < height
    ensures start + BytesPerRow(width) * y < |s|
  {
    MulMonotone(BytesPerRow(width), y, height - 1);
  }

  /** Pixel `k` of a row-major bitmap `width` wide: its row lies inside the bytes and its bit is set. */
  predicate PixelAt(s: seq<Byte>, start: nat, width: nat, k: nat)
    requires width > 0
  {
    start + BytesPerRow(width) * (k / width) < |s| && PixelOn(s, start, width, k % width, k / width)
  }

  /** The bitmap `load_glyphs` unpacks: entry `y * width + x` is 1 when pixel (x, y) is on, else 0. */
  function GlyphBitmap(s: seq<Byte>, start: nat, width: nat, height: nat): (r: seq<int>)
    ensures |r| == width * height
    ensures forall k :: 0 <= k < |r| ==> r[k] == 0 || r[k] == 1
  {
    seq(width * height, k requires 0 <= k => if width > 0 && PixelAt(s, start, width, k) then 1 else 0)
  }

  /**
   * The pixel formula: entry (x, y) is bit 7 - x % 8 of the byte that starts row `y`, that is
   * `first_bitmap_offset + bitmap_offset + 4 * ceil(width / 32) * y`. The column's byte
   * offset `x / 8` never enters.
   */
  lemma GlyphBitmapPixel(s: seq<Byte>, start: nat, width: nat, height: nat, x: nat, y: nat)
    requires RowsInBounds(s, start, width, height) && x < width && y < height
    ensures start + BytesPerRow(width) * y < |s|
    ensures y * width + x < width * height
    ensures GlyphBitmap(s, start, width, height)[y * width + x] == 1
            <==> TestBit(s[start + BytesPerRow(width) * y], 7 - x % 8)
  {
    RowsBelow(s, start, width, height, y);
    FlatIndex(width, height, x, y);
    MaskBit(s[start + BytesPerRow(width) * y], x % 8);
  }

  /** `byte & (128 >> j)` is non-zero exactly when bit 7 - j of the byte is set. */
  lemma MaskBit(b: Byte, j: nat)
    requires j < 8
    ensures AndBits(b, Shr(0x80, j), BYTE_BITS) != 0 <==> TestBit(b, 7 - j)
  {
    ShrOfTop(j);
    AndWithPow2(b, 7 - j, BYTE_BITS);
  }

  lemma ShrOfTop(j: nat)
    requires j < 8
    ensures Shr(0x80, j) == Pow2(7 - j)
  {
    assert Pow2(7) == 0x80;
    ShrPow2(7, j);
  }

  /** Because the column byte is ignored, columns x and x + 8 of every row show the same pixel. */
  lemma GlyphBitmapColumnsAlias(s: seq<Byte>, start: nat, width: nat, height: nat, x: nat, y: nat)
    requires RowsInBounds(s, start, width, height) && x + 8 < width && y < height
    ensures y * width + x + 8 < width * height
    ensures GlyphBitmap(s, start, width, height)[y * width + x] == GlyphBitmap(s, start, width, height)[y * width + x + 8]
  {
    GlyphBitmapPixel(s, start, width, height, x, y);
    GlyphBitmapPixel(s, start, width, height, x + 8, y);
    assert y * width + (x + 8) == y * width + x + 8;
    assert 7 - (x + 8) % 8 == 7 - x % 8;
  }

  /** Entry `y * width + x` of a row-major bitmap is pixel (x, y), and it lies inside the bitmap. */
  lemma PixelIndex(s: seq<Byte>, start: nat, width: nat, height: nat, x: nat, y: nat)
    requires x < width && y < height && start + BytesPerRow(width) * y < |s|
    ensures 0 <= y * width + x < width * height
    ensures PixelAt(s, start, width, y * width + x) <==> PixelOn(s, start, width, x, y)
  {
    FlatIndex(width, height, x, y);
  }

  /** The bitmap after the pixel loops have visited the first `done` entries, starting from `init`. */
  function Unpacked(s: seq<Byte>, start: nat, width: nat, init: seq<int>, done: nat): (r: seq<int>)
    requires width > 0
    ensures |r| == |init|
  {
    seq(|init|, k requires 0 <= k < |init| => if k < done && PixelAt(s, start, width, k) then 1 else init[k])
  }

  lemma UnpackedStep(s: seq<Byte>, start: nat, width: nat, init: seq<int>, done: nat)
    requires width > 0 && done < |init|
    ensures Unpacked(s, start, width, init, done)[done] == init[done]
    ensures Unpacked(s, start, width, init, done + 1) ==
            Unpacked(s, start, width, init, done)[done := if PixelAt(s, start, width, done) then 1 else init[done]]
  {
  }

  /** Having visited every entry, the loops have laid the glyph's bitmap over `init`. */
  lemma UnpackedAll(s: seq<Byte>, start: nat, width: nat, height: nat, init: seq<int>)
    requires width > 0 && |init| == width * height && RowsInBounds(s, start, width, height)
    ensures UnpackSpec(s, init, start, width, height) == Success(Unpacked(s, start, width, init, height * width))
  {
    assert Unpacked(s, start, width, init, height * width) == Overlay(init, GlyphBitmap(s, start, width, height));
  }

  /** Before the loops, the bitmap is `init`. */
  lemma UnpackedNone(s: seq<Byte>, start: nat, width: nat, init: seq<int>)
    requires width > 0
    ensures Unpacked(s, start, width, init, 0) == init
  {
  }

  /** The unpacking loop only ever sets entries to 1: the bitmap it starts from, with the set pixels on. */
  function Overlay(init: seq<int>, bitmap: seq<int>): (r: seq<int>)
    requires |init| == |bitmap|
    ensures |r| == |init|
    ensures forall k :: 0 <= k < |r| ==> r[k] == (if bitmap[k] == 1 then 1 else init[k])
  {
    seq(|init|, k requires 0 <= k < |init| => if bitmap[k] == 1 then 1 else init[k])
  }

  /** The pixel loops of `load_glyphs` as a value: the bitmap laid over `init`, or the out-of-bounds panic. */
  function UnpackSpec(s: seq<Byte>, init: seq<int>, start: nat, width: nat, height: nat): (r: Result<seq<int>, Error>)
    requires |init| == width * height
    ensures r.Success? <==> RowsInBounds(s, start, width, height)
    ensures r.Failure? ==> r.error == OutOfBounds
    ensures r.Success? ==>
              (|r.value| == |init| &&
               forall k :: 0 <= k < |init| ==> r.value[k] == (if GlyphBitmap(s, start, width, height)[k] == 1 then 1 else init[k]))
  {
    if RowsInBounds(s, start, width, height) then Success(Overlay(init, GlyphBitmap(s, start, width, height)))
    else Failure(OutOfBounds)
  }

  /** Unpacking onto the all-zero bitmap, or onto an earlier unpacking of the same glyph, gives the bitmap itself. */
  lemma OverlayOntoBlank(init: seq<int>, bitmap: seq<int>)
    requires |init| == |bitmap|
    requires forall k :: 0 <= k < |bitmap| ==> bitmap[k] == 0 || bitmap[k] == 1
    requires (forall k :: 0 <= k < |init| ==> init[k] == 0) || init == bitmap
    ensures Overlay(init, bitmap) == bitmap
  {
  }

  /**
   * The glyph `load_glyphs` stores for `cp`: size from the metrics, origin offsets
   * (lsb, -descent), advance = character width, and the unpacked bitmap.
   */
  function LoadedGlyph(s: seq<Byte>, md: Metadata, cp: int, m: CompressedMetrics, bitmapOffset: int)
    : (r: Result<Glyph, Error>)
    ensures r.Success? <==> (GlyphSize(m).Success? && BitmapStart(md, bitmapOffset).Success? &&
                             RowsInBounds(s, BitmapStart(md, bitmapOffset).value, GlyphSize(m).value.0, GlyphSize(m).value.1))
    ensures GlyphSize(m).Failure? ==> r == Failure(Overflow)
    ensures GlyphSize(m).Success? && BitmapStart(md, bitmapOffset).Failure? ==> r == Failure(BitmapStart(md, bitmapOffset).error)
    ensures (GlyphSize(m).Success? && BitmapStart(md, bitmapOffset).Success? &&
             !RowsInBounds(s, BitmapStart(md, bitmapOffset).value, GlyphSize(m).value.0, GlyphSize(m).value.1)) ==>
              r == Failure(OutOfBounds)
    ensures r.Success? ==>
              var g := r.value;
              g.codePoint == cp && g.encoding == CharOf(cp) &&
              g.width == m.rightSideBearing - m.leftSideBearing &&
              g.height == m.characterAscent + m.characterDescent &&
              g.dx == m.leftSideBearing && g.dy == -m.characterDescent && g.shiftX == m.characterWidth &&
              g.shiftY == 0 && g.tileIndex == 0 &&
              BitmapStart(md, bitmapOffset).Success? &&
              RowsInBounds(s, BitmapStart(md, bitmapOffset).value, g.width, g.height) &&
              g.bitmap == GlyphBitmap(s, BitmapStart(md, bitmapOffset).value, g.width, g.height)
  {
    var (width, height) :- GlyphSize(m);
    var start :- BitmapStart(md, bitmapOffset);
    if !RowsInBounds(s, start, width, height) then Failure(OutOfBounds)
    else
      Success(Glyph(cp, CharOf(cp), GlyphBitmap(s, start, width, height), width, height,
                    m.leftSideBearing, -m.characterDescent, m.characterWidth, 0, 0))
  }

  /** The freshly inserted glyph of the first loop of `load_glyphs`: the final glyph with an all-zero bitmap. */
  function BlankGlyph(cp: int, m: CompressedMetrics): (r: Glyph)
    requires GlyphSize(m).Success?
    ensures |r.bitmap| == r.width * r.height && forall k :: 0 <= k < |r.bitmap| ==> r.bitmap[k] == 0
  {
    var (width, height) := GlyphSize(m).value;
    Glyph(cp, CharOf(cp), seq(width * height, _ => 0), width, height,
          m.leftSideBearing, -m.characterDescent, m.characterWidth, 0, 0)
  }

  /** Compressed metrics (0, 7, 8, 9, 0) of the test font's 'A' give a 7 x 9 glyph, dx 0, dy 0, advance 8. */
  lemma LoadedGlyphExample(s: seq<Byte>, md: Metadata, bitmapOffset: int)
    requires LoadedGlyph(s, md, 65, CompressedMetrics(0, 7, 8, 9, 0, 0), bitmapOffset).Success?
    ensures var g := LoadedGlyph(s, md, 65, CompressedMetrics(0, 7, 8, 9, 0, 0), bitmapOffset).value;
            g.width == 7 && g.height == 9 && g.dx == 0 && g.dy == 0 && g.shiftX == 8 &&
            g.encoding == Some('A') && |g.bitmap| == 63
  {
  }

  /** Pixels `x .. width - 1` of a row held in one byte, most significant bit first. */
  function ByteRow(b: Byte, x: nat, width: nat): (r: seq<int>)
    requires x <= width <= 8
    ensures |r| == width - x
    decreases width - x
  {
    if x == width then [] else [if TestBit(b, 7 - x) then 1 else 0] + ByteRow(b, x + 1, width)
  }

  lemma {:induction false} ByteRowAt(b: Byte, x: nat, width: nat, i: nat)
    requires x <= width <= 8 && i < width - x
    ensures ByteRow(b, x, width)[i] == if TestBit(b, 7 - (x + i)) then 1 else 0
    decreases width - x
  {
    if i > 0 {
      ByteRowAt(b, x + 1, width, i - 1);
    }
  }

  /** Row `y` of a glyph at most 8 pixels wide is the top `width` bits of the byte starting that row. */
  lemma NarrowRow(s: seq<Byte>, start: nat, width: nat, height: nat, y: nat)
    requires 0 < width <= 8 && y < height && RowsInBounds(s, start, width, height)
    ensures y * width + width <= width * height && start + 4 * y < |s|
    ensures GlyphBitmap(s, start, width, height)[y * width .. y * width + width] == ByteRow(s[start + 4 * y], 0, width)
  {
    assert BytesPerRow(width) == 4;
    NextRow(width, y);
    MulMonotone(width, y + 1, height);
    var bits, row := GlyphBitmap(s, start, width, height), ByteRow(s[start + 4 * y], 0, width);
    var slice := bits[y * width .. y * width + width];
    forall x | 0 <= x < width
      ensures slice[x] == row[x]
    {
      NarrowPixel(s, start, width, height, x, y);
    }
  }

  /** One pixel of a glyph at most 8 pixels wide is the matching top bit of its row's byte. */
  lemma NarrowPixel(s: seq<Byte>, start: nat, width: nat, height: nat, x: nat, y: nat)
    requires 0 < width <= 8 && x < width && y < height && RowsInBounds(s, start, width, height)
    ensures y * width + x < width * height && start + 4 * y < |s|
    ensures GlyphBitmap(s, start, width, height)[y * width + x] == ByteRow(s[start + 4 * y], 0, width)[x]
  {
    assert BytesPerRow(width) == 4;
    assert x % 8 == x;
    GlyphBitmapPixel(s, start, width, height, x, y);
    ByteRowAt(s[start + 4 * y], 0, width, x);
  }

  // The seven distinct row bytes of the fixture's 'A', spelled out as pixels, one lemma each.
  lemma RowOf10() ensures ByteRow(0x10, 0, 7) == [0, 0, 0, 1, 0, 0, 0] { }
  lemma RowOf18() ensures ByteRow(0x18, 0, 7) == [0, 0, 0, 1, 1, 0, 0] { }
  lemma RowOf28() ensures ByteRow(0x28, 0, 7) == [0, 0, 1, 0, 1, 0, 0] { }
  lemma RowOf24() ensures ByteRow(0x24, 0, 7) == [0, 0, 1, 0, 0, 1, 0] { }
  lemma RowOf7C() ensures ByteRow(0x7C, 0, 7) == [0, 1, 1, 1, 1, 1, 0] { }
  lemma RowOf42() ensures ByteRow(0x42, 0, 7) == [0, 1, 0, 0, 0, 0, 1] { }
  lemma RowOf82() ensures ByteRow(0x82, 0, 7) == [1, 0, 0, 0, 0, 0, 1] { }

  /** The test font's 'A', one row of seven pixels per entry. */
  const UPPERCASE_A: seq<seq<int>> := [
    [0, 0, 0, 1, 0, 0, 0],
    [0, 0, 0, 1, 1, 0, 0],
    [0, 0, 1, 0, 1, 0, 0],
    [0, 0, 1, 0, 0, 1, 0],
    [0, 0, 1, 0, 0, 1, 0],
    [0, 1, 1, 1, 1, 1, 0],
    [0, 1, 0, 0, 0, 0, 1],
    [0, 1, 0, 0, 0, 0, 1],
    [1, 0, 0, 0, 0, 0, 1]]

  /** The bytes that start the nine rows of the test font's 'A'. */
  const UPPERCASE_A_ROWS: seq<Byte> := [0x10, 0x18, 0x28, 0x24, 0x24, 0x7C, 0x42, 0x42, 0x82]

  lemma UppercaseARow(s: seq<Byte>, start: nat, y: nat)
    requires start + 32 < |s| && y < 9 && s[start + 4 * y] == UPPERCASE_A_ROWS[y]
    ensures 7 * y + 7 <= |GlyphBitmap(s, start, 7, 9)|
    ensures GlyphBitmap(s, start, 7, 9)[7 * y .. 7 * y + 7] == UPPERCASE_A[y]
  {
    NarrowRow(s, start, 7, 9, y);
    assert y * 7 == 7 * y;
    if y == 0 { RowOf10(); }
    else if y == 1 { RowOf18(); }
    else if y == 2 { RowOf28(); }
    else if y == 3 || y == 4 { RowOf24(); }
    else if y == 5 { RowOf7C(); }
    else if y == 6 || y == 7 { RowOf42(); }
    else { RowOf82(); }
  }

  /** Nine row bytes at a 4-byte stride unpack, row by row, to the 7 by 9 picture of the letter. */
  lemma UppercaseABitmap(s: seq<Byte>, start: nat)
    requires start + 32 < |s|
    requires forall y :: 0 <= y < 9 ==> s[start + 4 * y] == UPPERCASE_A_ROWS[y]
    ensures |GlyphBitmap(s, start, 7, 9)| == 63
    ensures forall y :: 0 <= y < 9 ==> GlyphBitmap(s, start, 7, 9)[7 * y .. 7 * y + 7] == UPPERCASE_A[y]
  {
    forall y | 0 <= y < 9
      ensures GlyphBitmap(s, start, 7, 9)[7 * y .. 7 * y + 7] == UPPERCASE_A[y]
    {
      UppercaseARow(s, start, y);
    }
  }

  /** The test font's 'A' in full: metrics (0, 7, 8, 9, 0) and nine row bytes give the 7 by 9 glyph. */
  lemma UppercaseAGlyph(s: seq<Byte>, md: Metadata, bitmapOffset: int)
    requires LoadedGlyph(s, md, 65, CompressedMetrics(0, 7, 8, 9, 0, 0), bitmapOffset).Success?
    requires var start := md.firstBitmapOffset + bitmapOffset;
             0 <= start && start + 32 < |s| &&
             forall y :: 0 <= y < 9 ==> s[start + 4 * y] == UPPERCASE_A_ROWS[y]
    ensures var g := LoadedGlyph(s, md, 65, CompressedMetrics(0, 7, 8, 9, 0, 0), bitmapOffset).value;
            g.codePoint == 65 && g.encoding == Some('A') &&
            g.width == 7 && g.height == 9 && g.dx == 0 && g.dy == 0 &&
            g.shiftX == 8 && g.shiftY == 0 && g.tileIndex == 0 && |g.bitmap| == 63 &&
            forall y :: 0 <= y < 9 ==> g.bitmap[7 * y .. 7 * y + 7] == UPPERCASE_A[y]
  {
    LoadedGlyphExample(s, md, bitmapOffset);
    UppercaseABitmap(s, md.firstBitmapOffset + bitmapOffset);
  }

  /** The code points `load_glyphs` works on: those not yet loaded, in order, repeats kept. */
  function Pending(glyphs: map<int, Glyph>, cps: seq<int>): seq<int> {
    if |cps| == 0 then []
    else Pending(glyphs, cps[..|cps| - 1]) + (if cps[|cps| - 1] in glyphs then [] else [cps[|cps| - 1]])
  }

  /** The pending code points are the requested ones without a glyph, and stay within i32. */
  lemma {:induction false} PendingMembers(glyphs: map<int, Glyph>, cps: seq<int>)
    ensures var r := Pending(glyphs, cps);
            (forall c :: c in r <==> c in cps && c !in glyphs) &&
            (forall i :: 0 <= i < |cps| && cps[i] !in glyphs ==> cps[i] in r) &&
            ((forall i :: 0 <= i < |cps| ==> InI32(cps[i])) ==> forall i :: 0 <= i < |r| ==> InI32(r[i]))
  {
    if |cps| > 0 {
      var init := cps[..|cps| - 1];
      PendingMembers(glyphs, init);
      assert cps == init + [cps[|cps| - 1]];
    }
  }

  /**
   * The filter keeps order and repeats: the pending code points of a concatenation are those
   * of its parts, one after the other.
   */
  lemma {:induction false} PendingAppend(glyphs: map<int, Glyph>, a: seq<int>, b: seq<int>)
    ensures Pending(glyphs, a + b) == Pending(glyphs, a) + Pending(glyphs, b)
    decreases |b|
  {
    if |b| == 0 {
      assert a + b == a;
    } else {
      var init, last := b[..|b| - 1], b[|b| - 1];
      assert b == init + [last];
      assert a + b == (a + init) + [last];
      PendingSnoc(glyphs, a + init, last);
      PendingSnoc(glyphs, init, last);
      PendingAppend(glyphs, a, init);
    }
  }

  /** Appending one code point appends it to the pending ones exactly when it has no glyph yet. */
  lemma PendingSnoc(glyphs: map<int, Glyph>, cps: seq<int>, c: int)
    ensures Pending(glyphs, cps + [c]) == Pending(glyphs, cps) + if c in glyphs then [] else [c]
  {
    assert (cps + [c])[..|cps|] == cps;
  }

  /** A single code point is pending exactly when it has no glyph yet. */
  lemma PendingOne(glyphs: map<int, Glyph>, c: int)
    ensures Pending(glyphs, [c]) == if c in glyphs then [] else [c]
  {
    assert [c][..0] == [];
  }

  /** The second loop of `load_glyphs` as a value: each resolved code point's glyph, or the first failure. */
  function GlyphsOf(s: seq<Byte>, md: Metadata, cps: seq<int>, metrics: seq<Option<CompressedMetrics>>,
                    offsets: seq<Option<int>>): (r: Result<seq<Option<Glyph>>, Error>)
    requires |metrics| == |cps| && |offsets| == |cps|
    requires forall i :: 0 <= i < |cps| ==> (metrics[i].Some? <==> offsets[i].Some?)
    ensures r.Success? <==> forall i :: 0 <= i < |cps| && metrics[i].Some? ==>
              LoadedGlyph(s, md, cps[i], metrics[i].value, offsets[i].value).Success?
    ensures r.Success? ==> (|r.value| == |cps| &&
              forall i :: 0 <= i < |cps| ==>
                ((r.value[i].Some? <==> metrics[i].Some?) &&
                (metrics[i].Some? ==> LoadedGlyph(s, md, cps[i], metrics[i].value, offsets[i].value) == Success(r.value[i].value))))
  {
    if |cps| == 0 then Success([])
    else
      var n := |cps| - 1;
      assert forall i :: 0 <= i < n ==> cps[..n][i] == cps[i] && metrics[..n][i] == metrics[i] && offsets[..n][i] == offsets[i];
      var init :- GlyphsOf(s, md, cps[..n], metrics[..n], offsets[..n]);
      match metrics[n]
      case None => Success(init + [None])
      case Some(m) =>
        var glyph :- LoadedGlyph(s, md, cps[n], m, offsets[n].value);
        Success(init + [Some(glyph)])
  }

  /** The first glyph that fails to load decides the error of the second loop. */
  lemma {:induction false} GlyphsFirstFailure(s: seq<Byte>, md: Metadata, cps: seq<int>, metrics: seq<Option<CompressedMetrics>>,
                                              offsets: seq<Option<int>>, i: nat)
    requires |metrics| == |cps| && |offsets| == |cps| && i < |cps|
    requires forall j :: 0 <= j < |cps| ==> (metrics[j].Some? <==> offsets[j].Some?)
    requires forall j :: 0 <= j < i && metrics[j].Some? ==>
               LoadedGlyph(s, md, cps[j], metrics[j].value, offsets[j].value).Success?
    requires metrics[i].Some? && LoadedGlyph(s, md, cps[i], metrics[i].value, offsets[i].value).Failure?
    ensures GlyphsOf(s, md, cps, metrics, offsets) == Failure(LoadedGlyph(s, md, cps[i], metrics[i].value, offsets[i].value).error)
  {
    var n := |cps| - 1;
    var cps', metrics', offsets' := cps[..n], metrics[..n], offsets[..n];
    assert forall j :: 0 <= j < n ==> cps'[j] == cps[j] && metrics'[j] == metrics[j] && offsets'[j] == offsets[j];
    var error := LoadedGlyph(s, md, cps[i], metrics[i].value, offsets[i].value).error;
    if i < n {
      assert GlyphsOf(s, md, cps', metrics', offsets') == Failure(error) by {
        GlyphsFirstFailure(s, md, cps', metrics', offsets', i);
      }
    } else {
      assert GlyphsOf(s, md, cps', metrics', offsets').Success?;
    }
  }

  /** Inserting the loaded glyphs in order into the map. */
  function Installed(glyphs: map<int, Glyph>, cps: seq<int>, loaded: seq<Option<Glyph>>): map<int, Glyph>
    requires |loaded| == |cps|
  {
    if |cps| == 0 then glyphs
    else
      var n := |cps| - 1;
      var prefix := Installed(glyphs, cps[..n], loaded[..n]);
      if loaded[n].Some? then prefix[cps[n] := loaded[n].value] else prefix
  }

  /** The entries of each loaded code point equal `load` when every loaded entry of that code point is `load`. */
  lemma {:induction false} InstalledEntries(glyphs: map<int, Glyph>, cps: seq<int>, loaded: seq<Option<Glyph>>)
    requires |loaded| == |cps|
    requires forall i, j :: 0 <= i < |cps| && 0 <= j < |cps| && cps[i] == cps[j] ==> loaded[i] == loaded[j]
    ensures forall c :: c in Installed(glyphs, cps, loaded) <==>
              c in glyphs || exists i :: 0 <= i < |cps| && cps[i] == c && loaded[i].Some?
    ensures forall i :: 0 <= i < |cps| && loaded[i].Some? ==> Installed(glyphs, cps, loaded)[cps[i]] == loaded[i].value
    ensures forall c :: c in glyphs && (forall i :: 0 <= i < |cps| && loaded[i].Some? ==> cps[i] != c)
              ==> Installed(glyphs, cps, loaded)[c] == glyphs[c]
  {
    if |cps| > 0 {
      var n := |cps| - 1;
      InstalledEntries(glyphs, cps[..n], loaded[..n]);
      forall c | c in Installed(glyphs, cps, loaded)
        ensures c in glyphs || exists i :: 0 <= i < |cps| && cps[i] == c && loaded[i].Some?
      {
        if c !in glyphs && !(loaded[n].Some? && c == cps[n]) {
          var i :| 0 <= i < n && cps[..n][i] == c && loaded[..n][i].Some?;
          assert cps[i] == c && loaded[i].Some?;
        }
      }
      forall c | c in glyphs || exists i :: 0 <= i < |cps| && cps[i] == c && loaded[i].Some?
        ensures c in Installed(glyphs, cps, loaded)
      {
        if c !in glyphs && !(loaded[n].Some? && c == cps[n]) {
          var i :| 0 <= i < |cps| && cps[i] == c && loaded[i].Some?;
          assert i < n && cps[..n][i] == c && loaded[..n][i].Some?;
        }
      }
      forall i | 0 <= i < |cps| && loaded[i].Some?
        ensures Installed(glyphs, cps, loaded)[cps[i]] == loaded[i].value
      {
        if i < n && cps[i] != cps[n] {
          assert cps[..n][i] == cps[i] && loaded[..n][i] == loaded[i];
        }
      }
      forall c | c in glyphs && (forall i :: 0 <= i < |cps| && loaded[i].Some? ==> cps[i] != c)
        ensures Installed(glyphs, cps, loaded)[c] == glyphs[c]
      {
        forall i | 0 <= i < n && loaded[..n][i].Some?
          ensures cps[..n][i] != c
        {
          assert loaded[i].Some? && cps[..n][i] == cps[i];
        }
      }
    }
  }

  /** Every resolved glyph's width and height fit their u8 computation (the first loop of `load_glyphs`). */
  predicate SizesFit(metrics: seq<Option<CompressedMetrics>>) {
    forall i :: 0 <= i < |metrics| && metrics[i].Some? ==> GlyphSize(metrics[i].value).Success?
  }

  /**
   * The glyph map after the first loop of `load_glyphs`: the old entries, and a blank glyph at
   * each resolved code point.
   */
  ghost predicate BlanksInserted(before: map<int, Glyph>, cps: seq<int>, metrics: seq<Option<CompressedMetrics>>,
                                 after: map<int, Glyph>)
    requires |metrics| == |cps|
  {
    BlanksUpTo(before, cps, metrics, |cps|, after)
  }

  /** The glyph map while the first loop of `load_glyphs` runs: a blank glyph at each resolved position before `done`. */
  ghost predicate BlanksUpTo(before: map<int, Glyph>, cps: seq<int>, metrics: seq<Option<CompressedMetrics>>,
                             done: nat, g: map<int, Glyph>)
    requires |metrics| == |cps| && done <= |cps|
  {
    (forall c :: c in g <==> c in before || exists j :: 0 <= j < done && cps[j] == c && metrics[j].Some?) &&
    (forall c :: c in before ==> g[c] == before[c]) &&
    (forall j :: 0 <= j < done && metrics[j].Some? ==>
       GlyphSize(metrics[j].value).Success? && cps[j] in g && g[cps[j]] == BlankGlyph(cps[j], metrics[j].value))
  }

  /** While the first loop runs, every entry the map had before is still there, unchanged. */
  lemma BlanksKeep(before: map<int, Glyph>, cps: seq<int>, metrics: seq<Option<CompressedMetrics>>,
                   done: nat, g: map<int, Glyph>)
    requires |metrics| == |cps| && done <= |cps| && BlanksUpTo(before, cps, metrics, done, g)
    ensures before.Keys <= g.Keys && forall c :: c in before ==> g[c] == before[c]
  {
    forall c | c in before
      ensures c in g && g[c] == before[c]
    {
    }
  }

  /** Before the first loop, nothing has been inserted. */
  lemma BlanksStart(before: map<int, Glyph>, cps: seq<int>, metrics: seq<Option<CompressedMetrics>>)
    requires |metrics| == |cps|
    ensures BlanksUpTo(before, cps, metrics, 0, before)
  {
  }

  /** Inserting the blank glyph of a resolved position extends the first loop's progress by one. */
  lemma BlanksStep(before: map<int, Glyph>, cps: seq<int>, metrics: seq<Option<CompressedMetrics>>,
                   i: nat, g: map<int, Glyph>)
    requires |metrics| == |cps| && i < |cps| && BlanksUpTo(before, cps, metrics, i, g)
    requires forall j :: 0 <= j < |cps| ==> cps[j] !in before
    requires forall j :: 0 <= j < |cps| && cps[j] == cps[i] ==> metrics[j] == metrics[i]
    requires metrics[i].Some? && GlyphSize(metrics[i].value).Success?
    ensures BlanksUpTo(before, cps, metrics, i + 1, g[cps[i] := BlankGlyph(cps[i], metrics[i].value)])
  {
    var after := g[cps[i] := BlankGlyph(cps[i], metrics[i].value)];
    forall c | c in after
      ensures c in before || exists j :: 0 <= j < i + 1 && cps[j] == c && metrics[j].Some?
    {
      if c != cps[i] {
        assert c in g;
      }
    }
    forall c | c in before
      ensures after[c] == before[c]
    {
      assert c != cps[i];
    }
    forall j | 0 <= j < i + 1 && metrics[j].Some?
      ensures GlyphSize(metrics[j].value).Success? && cps[j] in after &&
              after[cps[j]] == BlankGlyph(cps[j], metrics[j].value)
    {
      if j < i && cps[j] == cps[i] {
        assert metrics[j] == metrics[i];
      }
    }
  }

  /**
   * The glyph map while the second loop of `load_glyphs` runs: the old entries, every resolved
   * code point blank or already unpacked, and those before position `done` unpacked.
   */
  ghost predicate UnpackProgress(s: seq<Byte>, md: Metadata, before: map<int, Glyph>, cps: seq<int>,
                                 metrics: seq<Option<CompressedMetrics>>, offsets: seq<Option<int>>,
                                 done: nat, g: map<int, Glyph>)
    requires |metrics| == |cps| && |offsets| == |cps|
    requires forall j :: 0 <= j < |cps| ==> (metrics[j].Some? <==> offsets[j].Some?)
  {
    (forall c :: c in g <==> c in before || exists j :: 0 <= j < |cps| && cps[j] == c && metrics[j].Some?) &&
    (forall c :: c in before ==> g[c] == before[c]) &&
    (forall j :: 0 <= j < |cps| && metrics[j].Some? ==>
       GlyphSize(metrics[j].value).Success? && cps[j] in g &&
       (g[cps[j]] == BlankGlyph(cps[j], metrics[j].value) ||
        LoadedGlyph(s, md, cps[j], metrics[j].value, offsets[j].value) == Success(g[cps[j]]))) &&
    (forall j :: 0 <= j < done && j < |cps| && metrics[j].Some? ==>
       LoadedGlyph(s, md, cps[j], metrics[j].value, offsets[j].value) == Success(g[cps[j]]))
  }

  /** The second loop starts from the map the first loop left. */
  lemma UnpackStart(s: seq<Byte>, md: Metadata, before: map<int, Glyph>, cps: seq<int>,
                    metrics: seq<Option<CompressedMetrics>>, offsets: seq<Option<int>>, g: map<int, Glyph>)
    requires |metrics| == |cps| && |offsets| == |cps|
    requires forall j :: 0 <= j < |cps| ==> (metrics[j].Some? <==> offsets[j].Some?)
    requires BlanksInserted(before, cps, metrics, g)
    ensures UnpackProgress(s, md, before, cps, metrics, offsets, 0, g)
  {
  }

  /** Storing the unpacked glyph of position `i` keeps the loop's invariant, one position further. */
  lemma UnpackStep(s: seq<Byte>, md: Metadata, before: map<int, Glyph>, cps: seq<int>,
                   metrics: seq<Option<CompressedMetrics>>, offsets: seq<Option<int>>, i: nat,
                   g: map<int, Glyph>, glyph: Glyph)
    requires |metrics| == |cps| && |offsets| == |cps| && i < |cps|
    requires forall j :: 0 <= j < |cps| ==> (metrics[j].Some? <==> offsets[j].Some?)
    requires forall j, k :: 0 <= j < |cps| && 0 <= k < |cps| && cps[j] == cps[k]
               ==> metrics[j] == metrics[k] && offsets[j] == offsets[k]
    requires forall j :: 0 <= j < |cps| ==> cps[j] !in before
    requires UnpackProgress(s, md, before, cps, metrics, offsets, i, g)
    requires metrics[i].Some? && LoadedGlyph(s, md, cps[i], metrics[i].value, offsets[i].value) == Success(glyph)
    ensures UnpackProgress(s, md, before, cps, metrics, offsets, i + 1, g[cps[i] := glyph])
  {
    var c := cps[i];
    var g' := g[c := glyph];
    assert c in g;
    assert g'.Keys == g.Keys;
    assert forall b :: b in before ==> b != c;
    forall j | 0 <= j < |cps| && metrics[j].Some?
      ensures cps[j] in g'
      ensures g'[cps[j]] == BlankGlyph(cps[j], metrics[j].value) ||
              LoadedGlyph(s, md, cps[j], metrics[j].value, offsets[j].value) == Success(g'[cps[j]])
      ensures (j < i + 1 || cps[j] == c) ==>
              LoadedGlyph(s, md, cps[j], metrics[j].value, offsets[j].value) == Success(g'[cps[j]])
    {
      if cps[j] == c {
        assert metrics[j] == metrics[i] && offsets[j] == offsets[i];
      } else {
        assert g'[cps[j]] == g[cps[j]];
      }
    }
  }

  /** Position `i` without a glyph changes nothing. */
  lemma UnpackSkip(s: seq<Byte>, md: Metadata, before: map<int, Glyph>, cps: seq<int>,
                   metrics: seq<Option<CompressedMetrics>>, offsets: seq<Option<int>>, i: nat, g: map<int, Glyph>)
    requires |metrics| == |cps| && |offsets| == |cps| && i < |cps|
    requires forall j :: 0 <= j < |cps| ==> (metrics[j].Some? <==> offsets[j].Some?)
    requires UnpackProgress(s, md, before, cps, metrics, offsets, i, g) && metrics[i].None?
    ensures UnpackProgress(s, md, before, cps, metrics, offsets, i + 1, g)
  {
  }

  /** When the second loop has visited every position, the map holds the loaded glyphs over the old entries. */
  /** While the second loop runs, every entry the map had before the first loop is still there, unchanged. */
  lemma UnpackKeep(s: seq<Byte>, md: Metadata, before: map<int, Glyph>, cps: seq<int>,
                   metrics: seq<Option<CompressedMetrics>>, offsets: seq<Option<int>>, done: nat, g: map<int, Glyph>)
    requires |metrics| == |cps| && |offsets| == |cps|
    requires forall j :: 0 <= j < |cps| ==> (metrics[j].Some? <==> offsets[j].Some?)
    requires UnpackProgress(s, md, before, cps, metrics, offsets, done, g)
    ensures before.Keys <= g.Keys && forall c :: c in before ==> g[c] == before[c]
  {
    forall c | c in before
      ensures c in g && g[c] == before[c]
    {
    }
  }

  lemma UnpackEnd(s: seq<Byte>, md: Metadata, before: map<int, Glyph>, cps: seq<int>,
                  metrics: seq<Option<CompressedMetrics>>, offsets: seq<Option<int>>, g: map<int, Glyph>)
    requires |metrics| == |cps| && |offsets| == |cps|
    requires forall j :: 0 <= j < |cps| ==> (metrics[j].Some? <==> offsets[j].Some?)
    requires forall j, k :: 0 <= j < |cps| && 0 <= k < |cps| && cps[j] == cps[k]
               ==> metrics[j] == metrics[k] && offsets[j] == offsets[k]
    requires forall j :: 0 <= j < |cps| ==> cps[j] !in before
    requires UnpackProgress(s, md, before, cps, metrics, offsets, |cps|, g)
    ensures GlyphsOf(s, md, cps, metrics, offsets).Success?
    ensures g == Installed(before, cps, GlyphsOf(s, md, cps, metrics, offsets).value)
  {
    var loaded := GlyphsOf(s, md, cps, metrics, offsets).value;
    GlyphsConsistent(s, md, cps, metrics, offsets, loaded);
    InstalledFrom(before, cps, loaded, g);
  }

  /** A map with exactly the old entries plus each loaded glyph at its code point is `Installed`. */
  lemma InstalledFrom(glyphs: map<int, Glyph>, cps: seq<int>, loaded: seq<Option<Glyph>>, result: map<int, Glyph>)
    requires |loaded| == |cps|
    requires forall i, j :: 0 <= i < |cps| && 0 <= j < |cps| && cps[i] == cps[j] ==> loaded[i] == loaded[j]
    requires forall i :: 0 <= i < |cps| ==> cps[i] !in glyphs
    requires forall c :: c in result <==> c in glyphs || exists i :: 0 <= i < |cps| && cps[i] == c && loaded[i].Some?
    requires forall c :: c in glyphs ==> result[c] == glyphs[c]
    requires forall i :: 0 <= i < |cps| && loaded[i].Some? ==> cps[i] in result && result[cps[i]] == loaded[i].value
    ensures result == Installed(glyphs, cps, loaded)
  {
    InstalledEntries(glyphs, cps, loaded);
    var installed := Installed(glyphs, cps, loaded);
    forall c | c in result
      ensures c in installed && result[c] == installed[c]
    {
      if c !in glyphs {
        var i :| 0 <= i < |cps| && cps[i] == c && loaded[i].Some?;
      } else {
        assert forall i :: 0 <= i < |cps| && loaded[i].Some? ==> cps[i] != c;
      }
    }
    forall c | c in installed
      ensures c in result
    {
      if c !in glyphs {
        var i :| 0 <= i < |cps| && cps[i] == c && loaded[i].Some?;
      }
    }
    assert result.Keys == installed.Keys;
  }

  /**
   * `load_glyphs` as a value: the new glyph map, or the panic that stops it. Already loaded
   * code points are skipped; with nothing left the map is returned unchanged. Otherwise the
   * indices are looked up first, uncompressed metrics then panic, and the metrics, bitmap
   * offsets, glyph sizes (first loop) and bitmaps (second loop) follow, each failing at its
   * first bad entry.
   */
  function LoadGlyphsSpec(s: seq<Byte>, enc: Encoding, md: Metadata, glyphs: map<int, Glyph>, cps: seq<int>)
    : Result<map<int, Glyph>, Error>
    requires forall i :: 0 <= i < |cps| ==> InI32(cps[i])
  {
    var pending := Pending(glyphs, cps);
    if |pending| == 0 then Success(glyphs)
    else
      var resolved :- Resolved(s, enc, md, pending);
      var (metrics, offsets) := resolved;
      if !SizesFit(metrics) then Failure(Overflow)
      else
        var loaded :- GlyphsOf(s, md, pending, metrics, offsets);
        Success(Installed(glyphs, pending, loaded))
  }

  /**
   * The resolving half of `load_glyphs`: the glyph indices of the code points, the check that
   * the metrics are compressed, then the metrics and the bitmap offset of each indexed glyph.
   */
  function Resolved(s: seq<Byte>, enc: Encoding, md: Metadata, cps: seq<int>)
    : (r: Result<(seq<Option<CompressedMetrics>>, seq<Option<int>>), Error>)
    ensures r.Success? ==> md.isMetricsCompressed && |r.value.0| == |cps| && |r.value.1| == |cps|
    ensures r.Success? ==> forall i :: 0 <= i < |cps| ==> (r.value.0[i].Some? <==> r.value.1[i].Some?)
    ensures !md.isMetricsCompressed ==>
              r == (if IndicesOf(s, enc, md, cps).Failure? then Failure(IndicesOf(s, enc, md, cps).error)
                    else Failure(UncompressedMetrics))
  {
    var indices :- IndicesOf(s, enc, md, cps);
    if !md.isMetricsCompressed then Failure(UncompressedMetrics)
    else
      var metrics :- AllMetricsOf(s, md, indices);
      var offsets :- AllBitmapOffsetsOf(s, md, indices);
      Success((metrics, offsets))
  }

  /**
   * Repeats of a code point resolve alike at each position, and every resolved metrics record
   * is in the range of the compressed format.
   */
  lemma ResolvedConsistent(s: seq<Byte>, enc: Encoding, md: Metadata, cps: seq<int>)
    requires Resolved(s, enc, md, cps).Success?
    ensures var (metrics, offsets) := Resolved(s, enc, md, cps).value;
            forall i, j :: 0 <= i < |cps| && 0 <= j < |cps| && cps[i] == cps[j] ==>
              metrics[i] == metrics[j] && offsets[i] == offsets[j]
    ensures var metrics := Resolved(s, enc, md, cps).value.0;
            forall i :: 0 <= i < |metrics| && metrics[i].Some? ==> CompressedInRange(metrics[i].value)
    ensures var metrics := Resolved(s, enc, md, cps).value.0;
            forall i :: 0 <= i < |metrics| && metrics[i].None? ==> GlyphIndex(s, enc, md, cps[i]) == Success(None)
  {
    var indices := IndicesOf(s, enc, md, cps).value;
    var (metrics, offsets) := Resolved(s, enc, md, cps).value;
    IndicesConsistent(s, enc, md, cps, indices);
    MetricsConsistent(s, md, indices, metrics);
    OffsetsConsistent(s, md, indices, offsets);
  }

  /** A repeated code point has the same glyph index at each of its positions. */
  lemma IndicesConsistent(s: seq<Byte>, enc: Encoding, md: Metadata, cps: seq<int>, indices: seq<Option<int>>)
    requires IndicesOf(s, enc, md, cps) == Success(indices)
    ensures |indices| == |cps|
    ensures forall i, j :: 0 <= i < |cps| && 0 <= j < |cps| && cps[i] == cps[j] ==> indices[i] == indices[j]
  {
    forall i, j | 0 <= i < |cps| && 0 <= j < |cps| && cps[i] == cps[j]
      ensures indices[i] == indices[j]
    {
      assert GlyphIndex(s, enc, md, cps[i]) == Success(indices[i]);
      assert GlyphIndex(s, enc, md, cps[j]) == Success(indices[j]);
    }
  }

  /** A repeated glyph index has the same metrics at each of its positions. */
  lemma MetricsConsistent(s: seq<Byte>, md: Metadata, indices: seq<Option<int>>, metrics: seq<Option<CompressedMetrics>>)
    requires AllMetricsOf(s, md, indices) == Success(metrics)
    ensures |metrics| == |indices|
    ensures forall i, j :: 0 <= i < |indices| && 0 <= j < |indices| && indices[i] == indices[j] ==> metrics[i] == metrics[j]
  {
    forall i, j | 0 <= i < |indices| && 0 <= j < |indices| && indices[i] == indices[j]
      ensures metrics[i] == metrics[j]
    {
      if indices[i].Some? {
        assert MetricsFor(s, md, indices[i].value) == Success(metrics[i].value);
        assert MetricsFor(s, md, indices[j].value) == Success(metrics[j].value);
      }
    }
  }

  /** A repeated glyph index has the same bitmap offset at each of its positions. */
  lemma OffsetsConsistent(s: seq<Byte>, md: Metadata, indices: seq<Option<int>>, offsets: seq<Option<int>>)
    requires AllBitmapOffsetsOf(s, md, indices) == Success(offsets)
    ensures |offsets| == |indices|
    ensures forall i, j :: 0 <= i < |indices| && 0 <= j < |indices| && indices[i] == indices[j] ==> offsets[i] == offsets[j]
  {
    forall i, j | 0 <= i < |indices| && 0 <= j < |indices| && indices[i] == indices[j]
      ensures offsets[i] == offsets[j]
    {
      if indices[i].Some? {
        assert BitmapOffsetFor(s, md, indices[i].value) == Success(offsets[i].value);
        assert BitmapOffsetFor(s, md, indices[j].value) == Success(offsets[j].value);
      }
    }
  }

  /** A repeated code point with the same metrics and offset at each position loads the same glyph at each. */
  lemma GlyphsConsistent(s: seq<Byte>, md: Metadata, cps: seq<int>, metrics: seq<Option<CompressedMetrics>>,
                         offsets: seq<Option<int>>, loaded: seq<Option<Glyph>>)
    requires |metrics| == |cps| && |offsets| == |cps|
    requires forall i :: 0 <= i < |cps| ==> (metrics[i].Some? <==> offsets[i].Some?)
    requires forall i, j :: 0 <= i < |cps| && 0 <= j < |cps| && cps[i] == cps[j] ==> metrics[i] == metrics[j] && offsets[i] == offsets[j]
    requires GlyphsOf(s, md, cps, metrics, offsets) == Success(loaded)
    ensures |loaded| == |cps|
    ensures forall i, j :: 0 <= i < |cps| && 0 <= j < |cps| && cps[i] == cps[j] ==> loaded[i] == loaded[j]
  {
    forall i, j | 0 <= i < |cps| && 0 <= j < |cps| && cps[i] == cps[j]
      ensures loaded[i] == loaded[j]
    {
      assert metrics[i] == metrics[j] && offsets[i] == offsets[j];
    }
  }

  /**
   * Repeats of a code point load the same glyph, and a code point that loads nothing has no
   * glyph index.
   */
  lemma LoadConsistent(s: seq<Byte>, enc: Encoding, md: Metadata, pending: seq<int>,
                       metrics: seq<Option<CompressedMetrics>>, offsets: seq<Option<int>>,
                       loaded: seq<Option<Glyph>>)
    requires Resolved(s, enc, md, pending) == Success((metrics, offsets))
    requires GlyphsOf(s, md, pending, metrics, offsets) == Success(loaded)
    ensures |loaded| == |pending|
    ensures forall i, j :: 0 <= i < |pending| && 0 <= j < |pending| && pending[i] == pending[j] ==> loaded[i] == loaded[j]
    ensures forall i :: 0 <= i < |pending| && loaded[i].None? ==> GlyphIndex(s, enc, md, pending[i]) == Success(None)
  {
    ResolvedConsistent(s, enc, md, pending);
    GlyphsConsistent(s, md, pending, metrics, offsets, loaded);
  }

  /** The intermediate values of a successful load that had something to do. */
  lemma LoadGlyphsSteps(s: seq<Byte>, enc: Encoding, md: Metadata, glyphs: map<int, Glyph>, cps: seq<int>)
    returns (pending: seq<int>, metrics: seq<Option<CompressedMetrics>>, offsets: seq<Option<int>>,
             loaded: seq<Option<Glyph>>)
    requires forall i :: 0 <= i < |cps| ==> InI32(cps[i])
    requires LoadGlyphsSpec(s, enc, md, glyphs, cps).Success? && |Pending(glyphs, cps)| > 0
    ensures pending == Pending(glyphs, cps)
    ensures Resolved(s, enc, md, pending) == Success((metrics, offsets))
    ensures GlyphsOf(s, md, pending, metrics, offsets) == Success(loaded)
    ensures LoadGlyphsSpec(s, enc, md, glyphs, cps) == Success(Installed(glyphs, pending, loaded))
  {
    pending := Pending(glyphs, cps);
    metrics, offsets := Resolved(s, enc, md, pending).value.0, Resolved(s, enc, md, pending).value.1;
    loaded := GlyphsOf(s, md, pending, metrics, offsets).value;
  }

  /** Loading never disturbs glyphs already present. */
  lemma LoadGlyphsKeepsExisting(s: seq<Byte>, enc: Encoding, md: Metadata, glyphs: map<int, Glyph>, cps: seq<int>)
    requires forall i :: 0 <= i < |cps| ==> InI32(cps[i])
    requires LoadGlyphsSpec(s, enc, md, glyphs, cps).Success?
    ensures var after := LoadGlyphsSpec(s, enc, md, glyphs, cps).value;
            glyphs.Keys <= after.Keys && forall c :: c in glyphs ==> after[c] == glyphs[c]
  {
    if |Pending(glyphs, cps)| > 0 {
      var pending, metrics, offsets, loaded := LoadGlyphsSteps(s, enc, md, glyphs, cps);
      LoadConsistent(s, enc, md, pending, metrics, offsets, loaded);
      InstalledEntries(glyphs, pending, loaded);
      PendingMembers(glyphs, cps);
      var after := Installed(glyphs, pending, loaded);
      forall c | c in glyphs
        ensures c in after && after[c] == glyphs[c]
      {
        forall i | 0 <= i < |pending|
          ensures pending[i] != c
        {
          assert pending[i] in pending;
        }
      }
    } else {
      assert LoadGlyphsSpec(s, enc, md, glyphs, cps) == Success(glyphs);
    }
  }

  /**
   * What a successful load adds for a requested code point that had no glyph: it has a glyph
   * afterwards exactly when the encoding gives it an index, and then that glyph is the one
   * `LoadedGlyph` builds from the metrics and the bitmap offset stored for the index.
   */
  lemma LoadGlyphsAdds(s: seq<Byte>, enc: Encoding, md: Metadata, glyphs: map<int, Glyph>, cps: seq<int>, i: nat)
    requires forall k :: 0 <= k < |cps| ==> InI32(cps[k])
    requires LoadGlyphsSpec(s, enc, md, glyphs, cps).Success?
    requires i < |cps| && cps[i] !in glyphs
    ensures GlyphIndex(s, enc, md, cps[i]).Success?
    ensures var after := LoadGlyphsSpec(s, enc, md, glyphs, cps).value;
            var index := GlyphIndex(s, enc, md, cps[i]).value;
            (cps[i] in after <==> index.Some?) &&
            (index.Some? ==>
               MetricsFor(s, md, index.value).Success? && BitmapOffsetFor(s, md, index.value).Success? &&
               LoadedGlyph(s, md, cps[i], MetricsFor(s, md, index.value).value,
                           BitmapOffsetFor(s, md, index.value).value) == Success(after[cps[i]]))
  {
    var c := cps[i];
    PendingMembers(glyphs, cps);
    assert c in Pending(glyphs, cps);
    var pending, metrics, offsets, loaded := LoadGlyphsSteps(s, enc, md, glyphs, cps);
    LoadConsistent(s, enc, md, pending, metrics, offsets, loaded);
    InstalledEntries(glyphs, pending, loaded);
    var j :| 0 <= j < |pending| && pending[j] == c;
    LoadedAt(s, enc, md, pending, metrics, offsets, loaded, j);
    if loaded[j].None? {
      assert forall k :: 0 <= k < |pending| && pending[k] == c ==> loaded[k].None?;
    }
  }

  /** Position `j` of a successful resolve and load: its glyph exists exactly when its code point has an index. */
  lemma LoadedAt(s: seq<Byte>, enc: Encoding, md: Metadata, pending: seq<int>,
                 metrics: seq<Option<CompressedMetrics>>, offsets: seq<Option<int>>, loaded: seq<Option<Glyph>>, j: nat)
    requires Resolved(s, enc, md, pending) == Success((metrics, offsets))
    requires GlyphsOf(s, md, pending, metrics, offsets) == Success(loaded)
    requires j < |pending|
    ensures GlyphIndex(s, enc, md, pending[j]).Success?
    ensures var index := GlyphIndex(s, enc, md, pending[j]).value;
            (loaded[j].Some? <==> index.Some?) &&
            (index.Some? ==>
               MetricsFor(s, md, index.value).Success? && BitmapOffsetFor(s, md, index.value).Success? &&
               LoadedGlyph(s, md, pending[j], MetricsFor(s, md, index.value).value,
                           BitmapOffsetFor(s, md, index.value).value) == Success(loaded[j].value))
  {
    var indices := IndicesOf(s, enc, md, pending).value;
    assert AllMetricsOf(s, md, indices) == Success(metrics);
    assert AllBitmapOffsetsOf(s, md, indices) == Success(offsets);
    assert GlyphIndex(s, enc, md, pending[j]) == Success(indices[j]);
  }

  /**
   * Loading the same code points twice is the same as loading them once: what the first call
   * left out has no glyph index, so the second call inserts nothing.
   */
  lemma LoadGlyphsIdempotent(s: seq<Byte>, enc: Encoding, md: Metadata, glyphs: map<int, Glyph>, cps: seq<int>)
    requires forall i :: 0 <= i < |cps| ==> InI32(cps[i])
    requires LoadGlyphsSpec(s, enc, md, glyphs, cps).Success?
    ensures var after := LoadGlyphsSpec(s, enc, md, glyphs, cps).value;
            LoadGlyphsSpec(s, enc, md, after, cps) == Success(after)
  {
    var after := LoadGlyphsSpec(s, enc, md, glyphs, cps).value;
    var again := Pending(after, cps);
    if |again| == 0 {
      assert LoadGlyphsSpec(s, enc, md, after, cps) == Success(after);
    } else {
      StillMissingHaveNoIndex(s, enc, md, glyphs, cps);
      LoadOfUnindexed(s, enc, md, after, cps);
    }
  }

  /** What a successful load left out has no glyph index; and if anything was left out, the metrics are compressed. */
  lemma StillMissingHaveNoIndex(s: seq<Byte>, enc: Encoding, md: Metadata, glyphs: map<int, Glyph>, cps: seq<int>)
    requires forall i :: 0 <= i < |cps| ==> InI32(cps[i])
    requires LoadGlyphsSpec(s, enc, md, glyphs, cps).Success?
    ensures var again := Pending(LoadGlyphsSpec(s, enc, md, glyphs, cps).value, cps);
            (|again| > 0 ==> md.isMetricsCompressed) &&
            forall k :: 0 <= k < |again| ==> GlyphIndex(s, enc, md, again[k]) == Success(None)
  {
    var after := LoadGlyphsSpec(s, enc, md, glyphs, cps).value;
    var pending := Pending(glyphs, cps);
    var again := Pending(after, cps);
    PendingMembers(glyphs, cps);
    PendingMembers(after, cps);
    if |again| > 0 {
      assert |pending| > 0 by {
        assert again[0] in cps && again[0] !in after;
        LoadGlyphsKeepsExisting(s, enc, md, glyphs, cps);
        assert again[0] !in glyphs;
        assert again[0] in pending;
      }
      var _, metrics, offsets, loaded := LoadGlyphsSteps(s, enc, md, glyphs, cps);
      LoadConsistent(s, enc, md, pending, metrics, offsets, loaded);
      InstalledEntries(glyphs, pending, loaded);
      forall k | 0 <= k < |again|
        ensures GlyphIndex(s, enc, md, again[k]) == Success(None)
      {
        var c := again[k];
        assert c in again;
        assert c in pending;
        var i :| 0 <= i < |pending| && pending[i] == c;
        assert loaded[i].None?;
      }
    }
  }

  /** Code points the encoding maps to no glyph leave the glyph map as it is. */
  lemma LoadOfUnindexed(s: seq<Byte>, enc: Encoding, md: Metadata, glyphs: map<int, Glyph>, cps: seq<int>)
    requires forall i :: 0 <= i < |cps| ==> InI32(cps[i])
    requires md.isMetricsCompressed || |Pending(glyphs, cps)| == 0
    requires forall k :: 0 <= k < |Pending(glyphs, cps)| ==> GlyphIndex(s, enc, md, Pending(glyphs, cps)[k]) == Success(None)
    ensures LoadGlyphsSpec(s, enc, md, glyphs, cps) == Success(glyphs)
  {
    var pending := Pending(glyphs, cps);
    NoIndices(s, enc, md, pending);
    if |pending| > 0 {
      var noMetrics: seq<Option<CompressedMetrics>> := seq(|pending|, _ => None);
      var noGlyph: seq<Option<Glyph>> := seq(|pending|, _ => None);
      NoIndexLoadsNothing(s, md, pending);
      assert SizesFit(noMetrics);
      NothingInstalled(glyphs, pending);
      assert Installed(glyphs, pending, noGlyph) == glyphs;
    }
  }

  lemma NoIndices(s: seq<Byte>, enc: Encoding, md: Metadata, cps: seq<int>)
    requires forall k :: 0 <= k < |cps| ==> GlyphIndex(s, enc, md, cps[k]) == Success(None)
    ensures IndicesOf(s, enc, md, cps) == Success(seq(|cps|, _ => None))
  {
    var noIndex: seq<Option<int>> := seq(|cps|, _ => None);
    assert IndicesOf(s, enc, md, cps).value == noIndex;
  }

  lemma NoIndexLoadsNothing(s: seq<Byte>, md: Metadata, cps: seq<int>)
    ensures var noIndex: seq<Option<int>> := seq(|cps|, _ => None);
            AllMetricsOf(s, md, noIndex) == Success(seq(|cps|, _ => None)) &&
            AllBitmapOffsetsOf(s, md, noIndex) == Success(noIndex) &&
            GlyphsOf(s, md, cps, seq(|cps|, _ => None), noIndex) == Success(seq(|cps|, _ => None))
  {
    var noIndex: seq<Option<int>> := seq(|cps|, _ => None);
    var noMetrics: seq<Option<CompressedMetrics>> := seq(|cps|, _ => None);
    var noGlyph: seq<Option<Glyph>> := seq(|cps|, _ => None);
    assert AllMetricsOf(s, md, noIndex) == Success(noMetrics) by {
      assert AllMetricsOf(s, md, noIndex).value == noMetrics;
    }
    assert AllBitmapOffsetsOf(s, md, noIndex) == Success(noIndex) by {
      assert AllBitmapOffsetsOf(s, md, noIndex).value == noIndex;
    }
    assert GlyphsOf(s, md, cps, noMetrics, noIndex) == Success(noGlyph) by {
      assert GlyphsOf(s, md, cps, noMetrics, noIndex).value == noGlyph;
    }
  }

  lemma {:induction false} NothingInstalled(glyphs: map<int, Glyph>, cps: seq<int>)
    ensures Installed(glyphs, cps, seq(|cps|, _ => None)) == glyphs
  {
    if |cps| > 0 {
      var n := |cps| - 1;
      var none: seq<Option<Glyph>> := seq(|cps|, _ => None);
      assert none[..n] == seq(n, _ => None);
      NothingInstalled(glyphs, cps[..n]);
    }
  }
}

/**
 * `PcfFont` of pcf-parser: the font bytes, the headers decoded once by `new`, and the map of
 * glyphs that `load_glyphs` fills in place. Each loop of the decoder is a method proved
 * against the pure definition of the same step in `PcfParser`.
 */
module PcfFontObject {
  import opened Wrappers
  import opened Bytes
  import opened PcfLayout
  import opened PcfParser

  const NO_METRICS: Metrics := Metrics(0, 0, 0, 0, 0, 0)
  const NO_ACCELERATORS: Accelerators :=
    Accelerators(0, 0, 0, 0, 0, 0, 0, 0, 0, 0, 0, NO_METRICS, NO_METRICS, NO_METRICS, NO_METRICS)
  const NO_ENCODING: Encoding := Encoding(0, 0, 0, 0, 0)
  const NO_BITMAP: Bitmap := Bitmap(0, 0)
  const NO_BOUNDING_BOX: BoundingBox := BoundingBox(Coord(0, 0), Coord(0, 0))
  const NO_METADATA: Metadata := Metadata(0, 0, 0, 0, false, 0, 0)

  class PcfFont {
    const bytes: seq<Byte>
    var glyphs: map<int, Glyph>
    var tables: map<int, Table>
    var accelerators: Accelerators
    var encoding: Encoding
    var bitmap: Bitmap
    var boundingBox: BoundingBox
    var metadata: Metadata

    /** The headers are those the bytes decode to. */
    ghost predicate Valid()
      reads this
    {
      Decode(bytes) == Success(Decoded(tables, accelerators, encoding, bitmap, boundingBox, metadata))
    }

    /** The font before `new` fills it in: the bytes, and every other field at its default. */
    constructor Blank(font: seq<Byte>)
      ensures bytes == font && glyphs == map[] && tables == map[]
      ensures accelerators == NO_ACCELERATORS && encoding == NO_ENCODING && bitmap == NO_BITMAP
      ensures boundingBox == NO_BOUNDING_BOX && metadata == NO_METADATA
    {
      bytes := font;
      glyphs := map[];
      tables := map[];
      accelerators := NO_ACCELERATORS;
      encoding := NO_ENCODING;
      bitmap := NO_BITMAP;
      boundingBox := NO_BOUNDING_BOX;
      metadata := NO_METADATA;
    }

    /**
     * `PcfFont::new`: reads the headers (`ReadHeaders`) into a fresh font with no glyphs
     * loaded. The first step that panics decides the error.
     */
    static method New(font: seq<Byte>) returns (r: Result<PcfFont, Error>)
      ensures r.Success? <==> Decode(font).Success?
      ensures r.Failure? ==> Decode(font) == Failure(r.error)
      ensures r.Success? ==> fresh(r.value) && r.value.bytes == font && r.value.Valid() && r.value.glyphs == map[]
    {
      var headers :- ReadHeaders(font);
      var pcf := new PcfFont.Blank(font);
      pcf.tables := headers.tables;
      pcf.accelerators := headers.accelerators;
      pcf.encoding := headers.encoding;
      pcf.bitmap := headers.bitmap;
      pcf.boundingBox := headers.boundingBox;
      pcf.metadata := headers.metadata;
      return Success(pcf);
    }

    /**
     * The assignments of `PcfFont::new`: the table directory, the accelerators, the encoding,
     * the bitmap header, the bounding box and the metadata, in that order, each read from the
     * ones before.
     */
    static method ReadHeaders(font: seq<Byte>) returns (r: Result<Decoded, Error>)
      ensures r == Decode(font)
    {
      var tables :- ReadTables(font, Signed);
      var accelerators :- ReadAccelerators(font, tables);
      var encoding :- ReadEncoding(font, tables);
      var bitmap :- ReadBitmap(font, tables);
      var boundingBox :- BoundingBoxOf(accelerators);
      var metadata :- MetadataOf(tables, bitmap);
      return Success(Decoded(tables, accelerators, encoding, bitmap, boundingBox, metadata));
    }

    /** `load_indices`: the glyph index of each code point, `None` where the font has none. */
    method LoadIndices(codePoints: seq<int>) returns (r: Result<seq<Option<int>>, Error>)
      ensures r == IndicesOf(bytes, encoding, metadata, codePoints)
    {
      var indices := new Option<int>[|codePoints|](_ => None);
      for i := 0 to |codePoints|
        invariant IndicesOf(bytes, encoding, metadata, codePoints[..i]) == Success(indices[..i])
        invariant forall j :: i <= j < indices.Length ==> indices[j] == None
      {
        IndicesFailFirst(bytes, encoding, metadata, codePoints, i);
        assert codePoints[..i + 1][..i] == codePoints[..i];
        var codePoint := codePoints[i];
        var enc1 := Enc1(codePoint);
        var enc2 := Enc2(codePoint);
        if enc1 < encoding.minByte1 || enc1 > encoding.maxByte1 {
          assert indices[..i + 1] == indices[..i] + [None];
          continue;
        }
        if enc2 < encoding.minByte2 || enc2 > encoding.maxByte2 {
          assert indices[..i + 1] == indices[..i] + [None];
          continue;
        }
        var cursor :- SlotCursor(encoding, metadata, codePoint);
        if !InBounds(bytes, cursor, 2) {
          return Failure(OutOfBounds);
        }
        var glyphIdx := U16BE(bytes, cursor);
        if glyphIdx != NO_GLYPH {
          indices[i] := Some(glyphIdx);
        }
        assert indices[..i + 1] == indices[..i] + [indices[i]];
      }
      assert codePoints[..|codePoints|] == codePoints;
      assert indices[..] == indices[..|codePoints|];
      return Success(indices[..]);
    }

    /** `load_all_metrics`: the compressed metrics of each glyph index, `None` where there is no index. */
    method LoadAllMetrics(codePoints: seq<int>, indices: seq<Option<int>>)
      returns (r: Result<seq<Option<CompressedMetrics>>, Error>)
      requires |indices| == |codePoints|
      ensures r == AllMetricsOf(bytes, metadata, indices)
    {
      var allMetrics := new Option<CompressedMetrics>[|codePoints|](_ => None);
      for i := 0 to |codePoints|
        invariant AllMetricsOf(bytes, metadata, indices[..i]) == Success(allMetrics[..i])
        invariant forall j :: i <= j < allMetrics.Length ==> allMetrics[j] == None
      {
        MetricsFailFirst(bytes, metadata, indices, i);
        assert indices[..i + 1][..i] == indices[..i];
        if indices[i].Some? {
          var index := indices[i].value;
          var scaled :- CheckI32(metadata.metricsSize * index);
          var sum :- CheckI32(metadata.firstMetricOffset + scaled);
          var cursor :- ToUsize(sum);
          var metrics :- CompressedMetricsAt(bytes, cursor);
          allMetrics[i] := Some(metrics);
        }
        assert allMetrics[..i + 1] == allMetrics[..i] + [allMetrics[i]];
      }
      assert indices[..|indices|] == indices;
      assert allMetrics[..] == allMetrics[..|codePoints|];
      return Success(allMetrics[..]);
    }

    /** `load_bitmap_offsets`: where each indexed glyph's bitmap starts, relative to the bitmap data. */
    method LoadBitmapOffsets(codePoints: seq<int>, indices: seq<Option<int>>)
      returns (r: Result<seq<Option<int>>, Error>)
      requires |indices| == |codePoints|
      ensures r == AllBitmapOffsetsOf(bytes, metadata, indices)
    {
      var bitmapOffsets := new Option<int>[|codePoints|](_ => None);
      for i := 0 to |codePoints|
        invariant AllBitmapOffsetsOf(bytes, metadata, indices[..i]) == Success(bitmapOffsets[..i])
        invariant forall j :: i <= j < bitmapOffsets.Length ==> bitmapOffsets[j] == None
      {
        OffsetsFailFirst(bytes, metadata, indices, i);
        assert indices[..i + 1][..i] == indices[..i];
        if indices[i].Some? {
          var index := indices[i].value;
          var scaled :- CheckI32(4 * index);
          var sum :- CheckI32(metadata.bitmapOffsetOffsets + scaled);
          var cursor :- ToUsize(sum);
          if !InBounds(bytes, cursor, 4) {
            return Failure(OutOfBounds);
          }
          bitmapOffsets[i] := Some(ToI32(U32BE(bytes, cursor)));
        }
        assert bitmapOffsets[..i + 1] == bitmapOffsets[..i] + [bitmapOffsets[i]];
      }
      assert indices[..|indices|] == indices;
      assert bitmapOffsets[..] == bitmapOffsets[..|codePoints|];
      return Success(bitmapOffsets[..]);
    }

    /**
     * The pixel loops of `load_glyphs`: for each row `y` and column `x`, test bit
     * `128 >> (x % 8)` of the byte at the start of row `y` and set entry `y * width + x`.
     * A row start past the end of the bytes panics; with no columns nothing is read.
     */
    method UnpackBitmap(init: seq<int>, start: nat, width: nat, height: nat) returns (r: Result<seq<int>, Error>)
      requires |init| == width * height
      ensures r == UnpackSpec(bytes, init, start, width, height)
    {
      var pixels := new int[|init|](k requires 0 <= k < |init| => init[k]);
      if width == 0 {
        // No column: the row bytes are never read.
        assert |init| == 0 && pixels[..] == init;
        return Success(pixels[..]);
      }
      var bytesPerRow := BytesPerRow(width);
      UnpackedNone(bytes, start, width, init);
      for y := 0 to height
        invariant RowsInBounds(bytes, start, width, y)
        invariant pixels[..] == Unpacked(bytes, start, width, init, y * width)
      {
        var rowStart := start + bytesPerRow * y;
        if rowStart >= |bytes| {
          RowsAbove(bytes, start, width, height, y);
          return Failure(OutOfBounds);
        }
        RowsExtend(bytes, start, width, y);
        UnpackRow(pixels, init, start, width, height, y);
      }
      UnpackedAll(bytes, start, width, height, init);
      return Success(pixels[..]);
    }

    /**
     * The inner pixel loop for row `y`, whose first byte lies inside the bytes: the byte at the
     * row start decides each column's pixel.
     */
    method UnpackRow(pixels: array<int>, init: seq<int>, start: nat, width: nat, height: nat, y: nat)
      requires pixels.Length == |init| == width * height && width > 0 && y < height
      requires start + BytesPerRow(width) * y < |bytes|
      requires pixels[..] == Unpacked(bytes, start, width, init, y * width)
      modifies pixels
      ensures pixels[..] == Unpacked(bytes, start, width, init, (y + 1) * width)
    {
      var rowStart := start + BytesPerRow(width) * y;
      for x := 0 to width
        invariant pixels[..] == Unpacked(bytes, start, width, init, y * width + x)
      {
        var byte := bytes[rowStart];
        var mask := Shr(0x80, x % 8);
        var masked := AndBits(byte, mask, BYTE_BITS);
        PixelIndex(bytes, start, width, height, x, y);
        var k := y * width + x;
        UnpackedStep(bytes, start, width, init, k);
        if masked != 0 {
          pixels[k] := 1;
        }
      }
      NextRow(width, y);
    }

    /**
     * `load_glyphs`: loads the glyphs of the code points not yet in `glyphs`. The code
     * points are resolved to indices, metrics and bitmap offsets; the first loop inserts
     * each resolved glyph with an all-zero bitmap, the second unpacks its pixels in place.
     * A panic at any step is the `Fail` outcome.
     */
    method LoadGlyphs(codePoints: seq<int>) returns (r: Outcome<Error>)
      requires Valid() && forall i :: 0 <= i < |codePoints| ==> InI32(codePoints[i])
      modifies this`glyphs
      ensures Valid()
      ensures old(glyphs).Keys <= glyphs.Keys && forall c :: c in old(glyphs) ==> glyphs[c] == old(glyphs)[c]
      ensures var expected := LoadGlyphsSpec(bytes, encoding, metadata, old(glyphs), codePoints);
              (r.Pass? <==> expected.Success?) &&
              (r.Fail? ==> expected == Failure(r.error)) &&
              (r.Pass? ==> glyphs == expected.value)
    {
      var pending := Pending(glyphs, codePoints);
      PendingMembers(glyphs, codePoints);
      if |pending| == 0 {
        return Pass;
      }
      var resolved := Resolve(pending);
      if resolved.Failure? {
        return Fail(resolved.error);
      }
      var (metrics, offsets) := resolved.value;
      ResolvedConsistent(bytes, encoding, metadata, pending);
      ghost var before := glyphs;
      r := InsertBlanks(pending, metrics);
      if r.Fail? {
        return r;
      }
      r := UnpackGlyphs(pending, metrics, offsets, before);
    }

    /**
     * The lookups at the head of `load_glyphs`: glyph indices, the panic on uncompressed
     * metrics, then the metrics and bitmap offsets of the indexed glyphs.
     */
    method Resolve(pending: seq<int>) returns (r: Result<(seq<Option<CompressedMetrics>>, seq<Option<int>>), Error>)
      ensures r == Resolved(bytes, encoding, metadata, pending)
    {
      var indices :- LoadIndices(pending);
      if !metadata.isMetricsCompressed {
        return Failure(UncompressedMetrics);
      }
      var metrics :- LoadAllMetrics(pending, indices);
      var offsets :- LoadBitmapOffsets(pending, indices);
      return Success((metrics, offsets));
    }

    /**
     * The first loop of `load_glyphs`: each resolved code point gets a glyph whose size comes
     * from its metrics and whose bitmap is all zeros. A size that overflows its u8 panics.
     */
    method InsertBlanks(pending: seq<int>, metrics: seq<Option<CompressedMetrics>>) returns (r: Outcome<Error>)
      requires |metrics| == |pending|
      requires forall j :: 0 <= j < |metrics| && metrics[j].Some? ==> CompressedInRange(metrics[j].value)
      requires forall j :: 0 <= j < |pending| ==> pending[j] !in glyphs
      requires forall i, j :: 0 <= i < |pending| && 0 <= j < |pending| && pending[i] == pending[j] ==> metrics[i] == metrics[j]
      modifies this`glyphs
      ensures r.Pass? <==> SizesFit(metrics)
      ensures r.Fail? ==> r.error == Overflow
      ensures r.Pass? ==> BlanksInserted(old(glyphs), pending, metrics, glyphs)
      ensures old(glyphs).Keys <= glyphs.Keys && forall c :: c in old(glyphs) ==> glyphs[c] == old(glyphs)[c]
    {
      ghost var before := glyphs;
      BlanksStart(before, pending, metrics);
      for i := 0 to |metrics|
        invariant BlanksUpTo(before, pending, metrics, i, glyphs)
        invariant forall j :: 0 <= j < i && metrics[j].Some? ==> GlyphSize(metrics[j].value).Success?
      {
        if metrics[i].Some? {
          var m := metrics[i].value;
          if m.rightSideBearing < m.leftSideBearing {
            BlanksKeep(before, pending, metrics, i, glyphs);
            return Fail(Overflow);
          }
          if m.characterAscent + m.characterDescent > 255 {
            return Fail(Overflow);
          }
          var width := m.rightSideBearing - m.leftSideBearing;
          var height := m.characterAscent + m.characterDescent;
          var codePoint := pending[i];
          var glyph := Glyph(codePoint, CharOf(codePoint), seq(width * height, _ => 0), width, height,
                             m.leftSideBearing, -m.characterDescent, m.characterWidth, 0, 0);
          assert glyph == BlankGlyph(codePoint, m);
          BlanksStep(before, pending, metrics, i, glyphs);
          glyphs := glyphs[codePoint := glyph];
        }
      }
      BlanksKeep(before, pending, metrics, |metrics|, glyphs);
      return Pass;
    }

    /**
     * The second loop of `load_glyphs`: each resolved glyph's bitmap is unpacked in place, its
     * start being `first_bitmap_offset + bitmap_offset` as an i32 converted to a usize. The
     * first glyph that panics decides the error.
     */
    method UnpackGlyphs(pending: seq<int>, metrics: seq<Option<CompressedMetrics>>, offsets: seq<Option<int>>,
                        ghost before: map<int, Glyph>) returns (r: Outcome<Error>)
      requires |metrics| == |pending| && |offsets| == |pending|
      requires forall j :: 0 <= j < |pending| ==> (metrics[j].Some? <==> offsets[j].Some?)
      requires forall i, j :: 0 <= i < |pending| && 0 <= j < |pending| && pending[i] == pending[j]
                 ==> metrics[i] == metrics[j] && offsets[i] == offsets[j]
      requires forall j :: 0 <= j < |pending| ==> pending[j] !in before
      requires SizesFit(metrics) && BlanksInserted(before, pending, metrics, glyphs)
      modifies this`glyphs
      ensures var loaded := GlyphsOf(bytes, metadata, pending, metrics, offsets);
              (r.Pass? <==> loaded.Success?) &&
              (r.Fail? ==> loaded == Failure(r.error)) &&
              (r.Pass? ==> glyphs == Installed(before, pending, loaded.value))
      ensures before.Keys <= glyphs.Keys && forall c :: c in before ==> glyphs[c] == before[c]
    {
      UnpackStart(bytes, metadata, before, pending, metrics, offsets, glyphs);
      for i := 0 to |pending|
        invariant UnpackProgress(bytes, metadata, before, pending, metrics, offsets, i, glyphs)
      {
        ghost var g := glyphs;
        if metrics[i].Some? {
          var loadedOne := UnpackGlyph(pending[i], metrics[i].value, offsets[i].value);
          if loadedOne.Fail? {
            GlyphsFirstFailure(bytes, metadata, pending, metrics, offsets, i);
            UnpackKeep(bytes, metadata, before, pending, metrics, offsets, i, glyphs);
            return loadedOne;
          }
          UnpackStep(bytes, metadata, before, pending, metrics, offsets, i, g, glyphs[pending[i]]);
        } else {
          UnpackSkip(bytes, metadata, before, pending, metrics, offsets, i, g);
        }
      }
      UnpackKeep(bytes, metadata, before, pending, metrics, offsets, |pending|, glyphs);
      UnpackEnd(bytes, metadata, before, pending, metrics, offsets, glyphs);
      return Pass;
    }

    /**
     * One iteration of the second loop of `load_glyphs`: the bitmap start as an i32 sum converted
     * to a usize, then the pixel loops over the glyph's blank (or already unpacked) bitmap.
     */
    method UnpackGlyph(codePoint: int, m: CompressedMetrics, bitmapOffset: int) returns (r: Outcome<Error>)
      requires GlyphSize(m).Success? && codePoint in glyphs
      requires glyphs[codePoint] == BlankGlyph(codePoint, m) ||
               LoadedGlyph(bytes, metadata, codePoint, m, bitmapOffset) == Success(glyphs[codePoint])
      modifies this`glyphs
      ensures var loaded := LoadedGlyph(bytes, metadata, codePoint, m, bitmapOffset);
              (r.Pass? <==> loaded.Success?) &&
              (r.Fail? ==> loaded == Failure(r.error)) &&
              (r.Pass? ==> glyphs == old(glyphs)[codePoint := loaded.value])
      ensures r.Fail? ==> glyphs == old(glyphs)
    {
      var sum := metadata.firstBitmapOffset + bitmapOffset;
      if !InI32(sum) {
        return Fail(Overflow);
      }
      if sum < 0 {
        return Fail(ConversionFailed);
      }
      var width := m.rightSideBearing - m.leftSideBearing;
      var height := m.characterAscent + m.characterDescent;
      var glyph := glyphs[codePoint];
      var unpacked := UnpackBitmap(glyph.bitmap, sum, width, height);
      if unpacked.Failure? {
        return Fail(unpacked.error);
      }
      OverlayOntoBlank(glyph.bitmap, GlyphBitmap(bytes, sum, width, height));
      glyphs := glyphs[codePoint := glyph.(bitmap := unpacked.value)];
      return Pass;
    }
  }
}

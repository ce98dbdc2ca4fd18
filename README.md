# PCF bitmap fonts, modelled in Dafny

This project models the decoding side of the `bitmap-fonts` repository, a Rust decoder for the
X11 Portable Compiled Format (PCF). A PCF file is a little-endian header and a table directory
of 16-byte records, followed by sub-tables:

- accelerators (font-wide metrics and bounds);
- encodings (a two-byte index space from code points to glyph indices);
- compressed per-glyph metrics (bytes biased by 0x80);
- per-glyph bitmap offsets;
- the glyph bitmaps themselves, as MSB-first rows padded to 4 bytes.

The model covers three pieces of the repository:

- **pcf-parser** (`pcf-parser/src/pcf.rs`), the decoder:
  - reading the header, table directory, accelerator, encoding and bitmap sub-tables;
  - deriving the font bounding box and the table metadata;
  - looking up glyph indices, metrics and bitmap offsets for code points;
  - `load_glyphs`, which unpacks each glyph's bitmap into a 0/1 vector in `PcfFont::glyphs`.

  Two older copies of the decoder are modelled alongside it:
  - `src/lib/pcf.rs` reads the directory with u32 fields;
  - `src/lib/lib.rs` reads only the directory.
- **eg-pcf-macros** (`eg-pcf-macros/src/lib.rs`), the build-time side of `include_pcf!`:
  - character-range filtering;
  - flipping a bounding box into a top-left rectangle;
  - collecting glyph pixels into one bit stream, with each glyph's `start_index`;
  - choosing the replacement glyph;
  - `bits_to_bytes`.
- **eg-pcf** (`eg-pcf/src/lib.rs`), the runtime side: `get_glyph` and the bit addressing of
  `PcfGlyph::draw`.

Modules, one file each:

| module | file | contents |
|---|---|---|
| `Wrappers` | `wrappers.dfy` | `Option`, `Result` and `Outcome` (the unit result of a state-changing method) |
| `Bytes` | `bytes.dfy` | The `byteorder` reads as explicit byte composition with two's-complement conversion, their inverse writers, and bit operations on `i32` words |
| `Graphics` | `graphics.dfy` | `Point`, `Size`, `Rectangle`, translation, and the row-major point walk of a rectangle |
| `PcfLayout` | `pcf_layout.dfy` | Table-type and format constants, header, table directory, accelerators, uncompressed metrics, encoding and bitmap headers |
| `PcfParser` | `pcf_parser.dfy` | The rest of pcf-parser as values: bounding box, metadata, glyph indices, compressed metrics, bitmap offsets, bitmap unpacking, and `load_glyphs` as a function from the old glyph map to the new one |
| `PcfFontObject` | `pcf_font.dfy` | `PcfFont` as a class whose methods fill arrays and update `glyphs` in loops, each proved against the functions of `PcfParser` |
| `LegacyPcf` | `legacy_pcf.dfy` | The `src/lib/pcf.rs` decoder as a class |
| `EarliestPcf` | `earliest_pcf.dfy` | The `src/lib/lib.rs` decoder as a class |
| `EgPcf` | `eg_pcf.dfy` | Runtime glyph lookup and drawing |
| `EgPcfMacros` | `eg_pcf_macros.dfy` | The build-time `include_pcf!` helpers |

Design choices:

- **Panics are failures.** Every panic of the source is a `Failure(e)` of a `Result`. This covers:
  - slice indexing out of range;
  - `assert!`, `unwrap` and `try_into().unwrap()`;
  - a missing table in the directory;
  - integer overflow.

  The error kinds are `OutOfBounds`, `MissingTable(t)`, `NoAcceleratorTable`, `NotBigEndian`,
  `NotDefaultFormat`, `Overflow`, `ConversionFailed` and `UncompressedMetrics`.
- **Debug-build arithmetic.** Integer arithmetic follows a debug build, where overflow panics:
  - `i16`, `i32` and `u8` operations that leave their range fail with `Overflow`;
  - in particular, a compressed-metrics byte below 0x80 fails, because the `u8` subtraction
    `byte - 0x80` underflows;
  - a `u8` width or height outside 0..255 fails the same way.
- **Checks kept as written.** The "default format" checks are `format & 0 == 0`. They are kept
  exactly as written and proved never to fail (`PcfLayout.EncodingFormatCheckVacuous`).
- **Bitmap unpacking as written.** The unpacking reads only the byte that starts each row, with
  no column-byte term. The model does the same, and `PcfParser.GlyphBitmapColumnsAlias` proves
  what follows: in a glyph wider than 8 pixels, columns x and x + 8 always show the same pixel.
- **Glyphs start empty.** `PcfFont::new` never loads glyphs, so `PcfFontObject.PcfFont.New`
  promises an empty `glyphs` map.
- **Abstract glyphs in the macros.** The macros crate calls `glyph.bounding_box` and
  `glyph.pixel(x, y)`. `pcf-parser/src/glyph.rs` defines neither, so those helpers are modelled
  over a `SourceGlyph`, which is a bounding box and a pixel function.
- **Concrete values on synthetic bytes.** The repository's tests read `OpenSans-Regular-12.pcf`,
  whose bytes are not part of this model. Their expected values are stated as lemmas over byte
  strings that hold the relevant bytes, for example the nine row bytes of 'A'.

## Model

| member | source | states |
|---|---|---|
| Bytes.I16BERoundTrip | pcf-parser/src/pcf.rs:252-256 | Writing any i16 big-endian and reading it back at any position gives the value back |
| Bytes.U16BERoundTrip | pcf-parser/src/pcf.rs:257 | Writing any u16 big-endian and reading it back gives the value back |
| Bytes.I32LERoundTrip | pcf-parser/src/pcf.rs:174-178 | Writing any i32 little-endian and reading it back gives the value back |
| Bytes.U32LERoundTrip | src/lib/pcf.rs:133-137 | Writing any u32 little-endian and reading it back gives the value back |
| Bytes.I32BERoundTrip | pcf-parser/src/pcf.rs:214-218 | Writing any i32 big-endian and reading it back gives the value back |
| Bytes.U32BERoundTrip | pcf-parser/src/pcf.rs:457 | Writing any u32 big-endian and reading it back gives the value back |
| Bytes.AsU32RoundTrip | pcf-parser/src/pcf.rs:457 | Casting a u32 to i32 and back to u32 gives the original value |
| Bytes.And32SingleBit | pcf-parser/src/pcf.rs:201-203 | `x & (1 << k)` on an i32 word is non-zero exactly when bit k of the word's two's-complement pattern is set |
| Bytes.And32LowTwoBits | pcf-parser/src/pcf.rs:347 | `x & 3` is the word's value mod 4, for negative words too |
| Bytes.FromBitsTestBit | eg-pcf-macros/src/lib.rs:211-216 | Bit k of the number a bit string spells (most significant first) is the string's entry k places from its end |
| PcfLayout.Header | pcf-parser/src/pcf.rs:154-156 | `header` succeeds exactly when the file has at least 4 bytes; indexing a shorter file fails |
| PcfLayout.TableCount | pcf-parser/src/pcf.rs:158-160 | `table_count` succeeds exactly when the file has at least 8 bytes |
| PcfLayout.HeaderRoundTrip | pcf-parser/src/pcf.rs:154-160 | For any two i32 written little-endian at the start of a file, `header` and `table_count` read them back |
| PcfLayout.HeaderMagic | pcf-parser/src/pcf.rs:565-569 | The magic bytes 1, 'f', 'c', 'p' read as the little-endian i32 1885562369 |
| PcfLayout.DirectoryOf | pcf-parser/src/pcf.rs:170-185 | Reading the directory fails exactly when the file is shorter than 8 bytes or than the `8 + 16·table_count` bytes of records |
| PcfLayout.ReadTables | pcf-parser/src/pcf.rs:170-185 | The cursor loop inserts record i, read at offset 8 + 16·i, into the map; the resulting map equals the directory function |
| PcfLayout.DirectoryKeys | pcf-parser/src/pcf.rs:173-180 | The directory's keys are exactly the type words of the first `table_count` records |
| PcfLayout.DirectoryLastWins | pcf-parser/src/pcf.rs:180 | A table type maps to the last record carrying that type; a later duplicate overwrites an earlier one |
| PcfLayout.DirectorySize | src/lib/lib.rs:134 | The directory holds at most `table_count` tables, and exactly that many when all record types differ |
| PcfLayout.BitmapFormat | pcf-parser/src/pcf.rs:166-168 | `bitmap_format` fails only with the missing-bitmaps-table error |
| PcfLayout.BitmapFormatOfDirectory | pcf-parser/src/pcf.rs:166-168 | On a decoded directory, `bitmap_format` fails iff no record has type 8; otherwise it is the format of the last type-8 record |
| PcfLayout.MetricsRoundTrip | pcf-parser/src/pcf.rs:251-269 | Encoding any in-range uncompressed metrics record (five i16 and one u16, big-endian) and reading it back gives the record |
| PcfLayout.MetricsReadBack | pcf-parser/src/pcf.rs:251-269 | Any 12 bytes decode to an in-range record that re-encodes to the same 12 bytes |
| PcfLayout.ReadUncompressedMetrics | pcf-parser/src/pcf.rs:251-269 | Reading through the cursor yields the record at the cursor and advances the cursor by exactly 12 |
| PcfLayout.ReadAccelerators | pcf-parser/src/pcf.rs:187-249 | The cursor-threading reader returns exactly the accelerators function's result, including its failures |
| PcfLayout.AcceleratorsProperties | pcf-parser/src/pcf.rs:187-230 | The read fails with the no-table error iff both accelerator tables are missing, and reads the BDF table when it is present. A successful read has format bit 2 set, and when bit 8 is clear its ink bounds equal the logical bounds |
| PcfLayout.AcceleratorsWithoutInkBounds | pcf-parser/src/pcf.rs:223-230 | With bit 8 of the format word clear, the ink bounds repeat the min and max bounds |
| PcfLayout.FormatFourteenByteOrder | pcf-parser/src/pcf.rs:201 | Format word 0xE passes the big-endian check |
| PcfLayout.FormatFourteenNoInkBounds | pcf-parser/src/pcf.rs:203 | Format word 0xE has no ink-bounds bit |
| PcfLayout.AcceleratorsFormatFourteen | pcf-parser/src/pcf.rs:197-230 | An accelerator table with format 0xE never fails the big-endian check, and its ink bounds repeat its bounds |
| PcfLayout.AcceleratorsExample | pcf-parser/src/pcf.rs:644-694 | The test's accelerators (format 0xE, ascent 10, descent 2, overlap 1, and the listed bounds) decode to the expected record, with ink bounds copied from the bounds |
| PcfLayout.ReadEncoding | pcf-parser/src/pcf.rs:289-319 | The cursor-threading reader returns exactly the encoding function's result |
| PcfLayout.EncodingRoundTrip | pcf-parser/src/pcf.rs:289-319 | For any format word and any five i16 fields, writing the table and reading it back returns them in the order min_byte2, max_byte2, min_byte1, max_byte1, default_char |
| PcfLayout.EncodingFormatCheckVacuous | pcf-parser/src/pcf.rs:297-300 | The `format & 0 == 0` checks of the encoding and bitmap readers never fail, whatever the bytes |
| PcfLayout.ReadBitmap | pcf-parser/src/pcf.rs:322-353 | The cursor-threading reader returns exactly the bitmap-header function's result |
| PcfLayout.BitmapSizeSelection | pcf-parser/src/pcf.rs:335-347 | A decoded bitmap header has glyph_count read at offset+4, which is non-negative. Its size is the word at index `format mod 4` among the four that follow the glyph_count offsets |
| PcfLayout.BitmapExample | pcf-parser/src/pcf.rs:712-721 | With format word 14 and 97 glyphs, the header decodes to (97, 2988) when the third size word holds 2988 |
| PcfParser.BoundingBoxOf | pcf-parser/src/pcf.rs:355-368 | The box succeeds iff its i16 sums fit. Its offset is (ink_min.lsb, −ink_max.descent) and its far corner is (ink_max.rsb, ink_max.ascent) |
| PcfParser.BoundingBoxExample | pcf-parser/src/pcf.rs:731-740 | The test's bearings give size (12, 12) and offset (−1, −3) |
| PcfParser.MetadataOf | pcf-parser/src/pcf.rs:370-390 | `load_metadata` succeeds iff the encodings, bitmaps and metrics tables are present and every i32 sum fits. A missing encodings table is the first failure, a missing table otherwise fails with its type, and with all three present the only failure is `Overflow`. On success: `indices_offset = enc + 14`, `bitmap_offset_offsets = bmp + 8`, `first_bitmap_offset = bmp + 4·(6 + glyph_count)`. Metrics are compressed iff format bit 8 is set, which sets `first_metric_offset` (+6 or +8), `metrics_size` (5 or 12) and `metrics_compressed_raw` (256 or 0) |
| PcfParser.MetadataExample | pcf-parser/src/pcf.rs:743-758 | The test's table offsets give metadata (5406, 2000, 2404, 256, compressed, 1506, 5) |
| PcfParser.CompressedBit | pcf-parser/src/pcf.rs:375-376 | `format & PCF_COMPRESSED_METRICS` is non-zero iff bit 8 of the format word is set |
| PcfParser.SlotCursor | pcf-parser/src/pcf.rs:407-413 | The cursor succeeds iff each i32 step of `indices_offset + 2·encoding_idx` fits and the sum is not negative. Overflow fails with `Overflow`, a negative sum with the `try_into` failure. On success the cursor is `indices_offset + 2·((enc1 − min1)·(max2 − min2 + 1) + enc2 − min2)` |
| PcfParser.GlyphIndex | pcf-parser/src/pcf.rs:395-418 | Code points whose bytes fall outside the encoding's ranges have no glyph. An in-range lookup succeeds iff the cursor does and its two bytes are in bounds; otherwise it fails with the cursor's error or `OutOfBounds`. On success the glyph index is the big-endian u16 at the slot, and 65535 means no glyph |
| PcfParser.GlyphIndexExample | pcf-parser/src/pcf.rs:761-766 | With encoding (0, 126, 0, 0, 1), code point 65 reads slot 130 and maps to glyph 35 |
| PcfParser.IndicesOf | pcf-parser/src/pcf.rs:392-421 | `load_indices` returns one entry per code point, each that code point's index; it fails with the first code point's failure |
| PcfParser.IndicesFailFirst | pcf-parser/src/pcf.rs:392-421 | If every earlier code point succeeds, a failing code point makes the whole lookup fail with its error |
| PcfParser.Unbias | pcf-parser/src/pcf.rs:272-276 | A stored byte b gives b − 0x80, in 0..127; a byte below 0x80 underflows the `u8` subtraction |
| PcfParser.CompressedMetricsAt | pcf-parser/src/pcf.rs:271-286 | Compressed metrics succeed iff all five bytes are in bounds and at least 0x80; attributes are always 0 |
| PcfParser.CompressedRoundTrip | pcf-parser/src/pcf.rs:271-286 | Biasing any five in-range fields by 0x80 and reading them back gives the fields |
| PcfParser.CompressedExample | pcf-parser/src/pcf.rs:769-786 | The bytes 80 87 88 89 80 decode to the test's metrics (0, 7, 8, 9, 0) |
| PcfParser.MetricsFor | pcf-parser/src/pcf.rs:430-437 | Glyph i's metrics are read at `first_metric_offset + metrics_size·i`. The read succeeds iff both i32 steps fit, the cursor is not negative, and the five bytes there are in bounds and at least 0x80. An i32 overflow fails with `Overflow`, a negative cursor with the usize conversion failure, and otherwise the record's own read decides |
| PcfParser.AllMetricsOf | pcf-parser/src/pcf.rs:423-444 | `load_all_metrics` has one entry per index, `None` exactly where the index is `None`; it fails with the first failing read |
| PcfParser.MetricsFailFirst | pcf-parser/src/pcf.rs:423-444 | A failing read after successful ones makes `load_all_metrics` fail with that error |
| PcfParser.BitmapOffsetFor | pcf-parser/src/pcf.rs:453-458 | Glyph i's bitmap offset is the big-endian u32 at `bitmap_offset_offsets + 4·i`, cast to i32. It succeeds iff both i32 steps fit, the cursor is not negative and four bytes are in bounds; the failures are `Overflow`, the usize conversion failure and `OutOfBounds`, in that order |
| PcfParser.AllBitmapOffsetsOf | pcf-parser/src/pcf.rs:446-465 | `load_bitmap_offsets` has one entry per index, `None` exactly where the index is `None`; it fails with the first failing read |
| PcfParser.OffsetsFailFirst | pcf-parser/src/pcf.rs:446-465 | A failing read after successful ones makes `load_bitmap_offsets` fail with that error |
| PcfParser.BitmapOffsetExample | pcf-parser/src/pcf.rs:789-795 | Glyph 35 reads offset 960 from 140 bytes past `bitmap_offset_offsets` |
| PcfParser.CharOf | pcf-parser/src/pcf.rs:502 | A glyph's `encoding` is the char of its code point, absent exactly for surrogates, negatives and values past U+10FFFF |
| PcfParser.GlyphSize | pcf-parser/src/pcf.rs:494-499 | Width rsb − lsb and height ascent + descent succeed exactly when both fit a u8 |
| PcfParser.CompressedHeightFits | pcf-parser/src/pcf.rs:494-499 | For metrics read from compressed bytes only the width can fail, namely when rsb < lsb |
| PcfParser.GlyphBitmap | pcf-parser/src/pcf.rs:500 | The bitmap has width·height entries, each 0 or 1 |
| PcfParser.GlyphBitmapPixel | pcf-parser/src/pcf.rs:536-551 | Entry y·width + x is 1 iff bit 7 − x mod 8 is set in the byte at `start + 4·ceil(width/32)·y` |
| PcfParser.GlyphBitmapColumnsAlias | pcf-parser/src/pcf.rs:541-545 | Because the column byte never enters the address, columns x and x + 8 of every row hold the same value |
| PcfParser.UnpackSpec | pcf-parser/src/pcf.rs:536-552 | Unpacking over a starting vector fails only when a row start is out of bounds. Otherwise it sets to 1 exactly the entries whose bitmap bit is set and keeps every other entry |
| PcfParser.OverlayOntoBlank | pcf-parser/src/pcf.rs:500-552 | Unpacking onto a zeroed vector (the freshly inserted glyph), or onto the same bitmap again, gives the bitmap itself |
| PcfParser.LoadedGlyph | pcf-parser/src/pcf.rs:493-552 | Loading a glyph succeeds iff its size fits u8, its bitmap start fits i32 and is not negative, and every row start is in bounds; a size overflow, the start's own failure, or `OutOfBounds` otherwise. A loaded glyph has `width = rsb − lsb`, `height = ascent + descent`, `dx = lsb`, `dy = −descent`, `shift_x = character_width`, and `shift_y = tile_index = 0`. Its encoding is the char of its code point, and its bitmap is unpacked from `first_bitmap_offset + bitmap_offset` |
| PcfParser.BitmapStart | pcf-parser/src/pcf.rs:525-528 | The bitmap start `first_bitmap_offset + bitmap_offset` succeeds iff the i32 sum fits and is not negative, failing with `Overflow` or the usize conversion failure |
| PcfParser.BlankGlyph | pcf-parser/src/pcf.rs:500-517 | The glyph inserted before unpacking has a zeroed bitmap of width·height entries |
| PcfParser.LoadedGlyphExample | pcf-parser/src/pcf.rs:806-835 | Metrics (0, 7, 8, 9, 0) for code point 65 give a 7×9 glyph 'A' with dx 0, dy 0, shift_x 8 and 63 bitmap entries |
| PcfParser.NarrowRow | pcf-parser/src/pcf.rs:540-551 | A row of a glyph at most 8 pixels wide is the top `width` bits, most significant first, of the byte that starts that row |
| PcfParser.UppercaseARow | pcf-parser/src/pcf.rs:814-824 | Each of the test's row bytes unpacks to the matching row of the 'A' picture |
| PcfParser.UppercaseABitmap | pcf-parser/src/pcf.rs:814-824 | The test's nine row bytes unpack, row by row, to the test's 7×9 picture of 'A' |
| PcfParser.UppercaseAGlyph | pcf-parser/src/pcf.rs:806-835 | The whole expected glyph of the test: code point 65, 'A', 7×9, dx 0, dy 0, shift_x 8, shift_y 0, tile_index 0, and the 'A' picture as its bitmap |
| PcfParser.PendingMembers | pcf-parser/src/pcf.rs:473-476 | The code points to load are exactly the requested ones not already in `glyphs`, and stay within i32 |
| PcfParser.PendingAppend | pcf-parser/src/pcf.rs:473-476 | The filter keeps order and repeats: the pending code points of `a + b` are those of `a` followed by those of `b` |
| PcfParser.PendingSnoc | pcf-parser/src/pcf.rs:473-476 | Appending a code point appends it to the pending ones exactly when it has no glyph |
| PcfParser.PendingOne | pcf-parser/src/pcf.rs:473-476 | A single code point is pending iff it has no glyph yet |
| PcfParser.GlyphsOf | pcf-parser/src/pcf.rs:523-556 | Unpacking succeeds iff every resolved code point's glyph loads; each entry is that code point's loaded glyph |
| PcfParser.GlyphsFirstFailure | pcf-parser/src/pcf.rs:523-556 | After successful glyphs, the first failing glyph makes unpacking fail with its error |
| PcfParser.InstalledEntries | pcf-parser/src/pcf.rs:519 | After installing, the map's keys are the old keys plus the code points that loaded. Each loaded code point maps to its glyph, and every other old entry is kept |
| PcfParser.Resolved | pcf-parser/src/pcf.rs:482-489 | Resolving fails on uncompressed metrics (after the index lookup's own failures) and otherwise pairs every code point's metrics with its bitmap offset |
| PcfParser.ResolvedConsistent | pcf-parser/src/pcf.rs:482-489 | Repeated code points resolve alike, resolved metrics are in range, and an unresolved code point has no glyph index |
| PcfParser.LoadGlyphsSteps | pcf-parser/src/pcf.rs:467-557 | When something is pending, `load_glyphs` resolves the pending code points, loads their glyphs and installs them into the old map |
| PcfParser.LoadGlyphsKeepsExisting | pcf-parser/src/pcf.rs:473-480 | Glyphs already loaded stay in the map unchanged |
| PcfParser.LoadGlyphsAdds | pcf-parser/src/pcf.rs:467-557 | After a successful load, a requested code point that had no glyph has one exactly when the encoding gives it an index. That glyph is the one built from the metrics and bitmap offset stored for the index, as the test at pcf-parser/src/pcf.rs:806-835 expects for 'A' |
| PcfParser.LoadedAt | pcf-parser/src/pcf.rs:491-552 | For each position of the resolved and loaded code points, a glyph was built exactly when the encoding gives that code point an index, and it is the glyph built from the metrics and bitmap offset stored for that index |
| PcfParser.LoadGlyphsIdempotent | pcf-parser/src/pcf.rs:467-557 | Loading the same code points a second time changes nothing |
| PcfParser.StillMissingHaveNoIndex | pcf-parser/src/pcf.rs:482-521 | After a successful load, every requested code point still missing has no glyph index |
| PcfParser.LoadOfUnindexed | pcf-parser/src/pcf.rs:473-489 | Requesting only code points without a glyph index leaves the map as it was |
| PcfParser.NoIndices | pcf-parser/src/pcf.rs:392-421 | If no code point has an index, `load_indices` is all `None` |
| PcfFontObject.PcfFont.Blank | pcf-parser/src/pcf.rs:136-139 | The font value before the headers are read: the bytes, and empty or default fields |
| PcfFontObject.PcfFont.New | pcf-parser/src/pcf.rs:135-149 | Construction succeeds iff the headers decode. It fails with the decoder's error. On success the font holds the bytes and the decoded headers, and `glyphs` is empty |
| PcfFontObject.PcfFont.ReadHeaders | pcf-parser/src/pcf.rs:141-146 | Reading directory, accelerators, encoding, bitmap header, bounding box and metadata in order yields the decoded headers |
| PcfFontObject.PcfFont.LoadIndices | pcf-parser/src/pcf.rs:392-421 | Filling the pre-sized vector in a loop yields exactly `IndicesOf` |
| PcfFontObject.PcfFont.LoadAllMetrics | pcf-parser/src/pcf.rs:423-444 | Filling the pre-sized vector in a loop yields exactly `AllMetricsOf` |
| PcfFontObject.PcfFont.LoadBitmapOffsets | pcf-parser/src/pcf.rs:446-465 | Filling the pre-sized vector in a loop yields exactly `AllBitmapOffsetsOf` |
| PcfFontObject.PcfFont.UnpackBitmap | pcf-parser/src/pcf.rs:536-552 | The nested y/x loops over an array give exactly the unpacking specification |
| PcfFontObject.PcfFont.UnpackRow | pcf-parser/src/pcf.rs:541-551 | One pass of the inner loop extends the unpacked prefix by one row |
| PcfFontObject.PcfFont.LoadGlyphs | pcf-parser/src/pcf.rs:467-557 | `load_glyphs` updates `glyphs` to exactly the specification's new map, and fails with its error. Whether it passes or fails, every glyph already in the map is kept unchanged. The decoded headers stay those of the bytes |
| PcfFontObject.PcfFont.Resolve | pcf-parser/src/pcf.rs:482-489 | Resolving indices, metrics and offsets of the pending code points yields `Resolved` |
| PcfFontObject.PcfFont.InsertBlanks | pcf-parser/src/pcf.rs:491-521 | The first loop succeeds iff every size fits a u8, and then inserts a blank glyph for every resolved code point. Either way, the entries it started with are kept |
| PcfFontObject.PcfFont.UnpackGlyphs | pcf-parser/src/pcf.rs:523-556 | The second loop leaves `glyphs` equal to the old map with every loaded glyph installed, or fails with the first glyph's error. Either way, the entries from before the first loop are kept |
| PcfFontObject.PcfFont.UnpackGlyph | pcf-parser/src/pcf.rs:524-552 | One glyph's unpacking replaces its entry with the loaded glyph and changes nothing else. A failure leaves the map as it was |
| LegacyPcf.FormatWordAsU32 | src/lib/pcf.rs:178-183 | Masking the format word read as u32 gives the same result as masking it read as i32, so the older reader's checks agree with the newer one's |
| LegacyPcf.Pcf.Blank | src/lib/pcf.rs:123-129 | The font value before the directory is read, with default accelerators and encoding |
| LegacyPcf.Pcf.New | src/lib/pcf.rs:122-147 | Construction succeeds iff directory, accelerators and encoding decode. The font then holds exactly what they decode to |
| LegacyPcf.Pcf.ReadDirectory | src/lib/pcf.rs:131-141 | The u32 cursor loop fills `tables` with exactly the unsigned directory, or fails as it does |
| LegacyPcf.Pcf.TablesWithinCount | src/lib/pcf.rs:139 | A constructed font has at most `table_count` tables |
| LegacyPcf.Pcf.BitmapFormatOfFont | src/lib/pcf.rs:163-165 | `bitmap_format` fails iff no record has type 8, and otherwise is the last type-8 record's format |
| EarliestPcf.Pcf.Blank | src/lib/lib.rs:120-124 | The font value before the directory is read |
| EarliestPcf.Pcf.New | src/lib/lib.rs:119-139 | Construction succeeds iff the signed directory decodes, and the font then holds it |
| EarliestPcf.Pcf.ReadDirectory | src/lib/lib.rs:126-136 | The i32 cursor loop fills `tables` with exactly the signed directory, or fails as it does |
| EarliestPcf.Pcf.TablesWithinCount | src/lib/lib.rs:134 | A constructed font has at most `table_count` tables, and exactly that many when record types are distinct |
| EarliestPcf.Pcf.BitmapFormatOfFont | src/lib/lib.rs:151-153 | `bitmap_format` fails iff no record has type 8, and otherwise is the last type-8 record's format |
| EgPcfMacros.RangesContain | eg-pcf-macros/src/lib.rs:49-59 | `CharacterRanges::contains` holds iff some range contains the char |
| EgPcfMacros.IncludeContains | eg-pcf-macros/src/lib.rs:20-25 | `IncludePcf::contains` holds for every char when no ranges were given, else iff some range contains it |
| EgPcfMacros.RangeOfTwo | eg-pcf-macros/src/lib.rs:76-83 | The inclusive range `'A'..='B'` contains exactly 'A' and 'B' |
| EgPcfMacros.BoundingBoxToRectangle | eg-pcf-macros/src/lib.rs:99-108 | The conversion succeeds iff the i32 negations and sums fit, and its width and height fit in u32 |
| EgPcfMacros.BoundingBoxRoundTrip | eg-pcf-macros/src/lib.rs:99-108 | Flipping back from the rectangle's top-left (`offset.x`, `−offset.y − size.y − 1`) and size recovers the bounding box |
| EgPcfMacros.RowsAt | eg-pcf-macros/src/lib.rs:136-139 | Entry y·width + x of the nested loops' output is pixel (x, y) |
| EgPcfMacros.GlyphBitsAt | eg-pcf-macros/src/lib.rs:134-140 | A glyph emits size.x·size.y bits in row-major order, bit y·size.x + x being pixel (x, y) |
| EgPcfMacros.GlyphLiteralOf | eg-pcf-macros/src/lib.rs:124-153 | `glyph_literal` succeeds iff the glyph has an encoding, its box converts and its loops finish. It returns the glyph's bits and a literal with its character, the given `start_index`, the converted box and `device_width = shift_x as u32` |
| EgPcfMacros.GlyphBitsCount | eg-pcf-macros/src/lib.rs:136-137 | The bit count is the product of the u32 casts of the box's width and height |
| EgPcfMacros.GlyphLiteral | eg-pcf-macros/src/lib.rs:124-153 | The y/x loops pushing pixels into `data` yield exactly `GlyphLiteralOf` |
| EgPcfMacros.BitsToBytes | eg-pcf-macros/src/lib.rs:209-219 | `bits_to_bytes` produces ceil(n/8) bytes |
| EgPcfMacros.ChunkBit | eg-pcf-macros/src/lib.rs:211-216 | Bit 7 − i of a chunk's byte is set iff the chunk has an entry i and it is true |
| EgPcfMacros.BitsToBytesBit | eg-pcf-macros/src/lib.rs:209-219 | Bit i of the packed bytes, MSB first, is bit i of the input, and 0 in the padding |
| EgPcfMacros.BitsRoundTrip | eg-pcf-macros/src/lib.rs:209-219 | Unpacking the packed bytes MSB first gives the input followed by fewer than 8 zero bits |
| EgPcfMacros.HighChunks | eg-pcf-macros/src/lib.rs:215 | A leading true chunk entry contributes 0x80, and entries 0 and 7 together give 0x81 |
| EgPcfMacros.BitsToBytesExamples | eg-pcf-macros/src/lib.rs:225-244 | The four test vectors give 0x00, 0x80, 0x81 and [0x00, 0x80] |
| EgPcfMacros.LastIndexOf | eg-pcf-macros/src/lib.rs:179-182 | The last position holding a char, absent iff none does |
| EgPcfMacros.FirstIndexOf | eg-pcf-macros/src/lib.rs:180-182 | The first position holding a char, absent iff none does |
| EgPcfMacros.Replacement | eg-pcf-macros/src/lib.rs:179-192 | The replacement index is the last U+FFFD glyph when one is kept. Otherwise it is the first ' ' glyph, and absent (later 0) when there is neither |
| EgPcfMacros.ReplacementStep | eg-pcf-macros/src/lib.rs:179-183 | Appending a glyph updates the replacement index exactly as the loop body's condition does |
| EgPcfMacros.RetainedMembers | eg-pcf-macros/src/lib.rs:173-177 | A glyph is kept iff it is among the font's glyph values and has an encoding that the ranges contain |
| EgPcfMacros.RetainedAppend | eg-pcf-macros/src/lib.rs:173-177 | The filter keeps order and repeats: the kept glyphs of `a + b` are those of `a` followed by those of `b` |
| EgPcfMacros.RetainedSnoc | eg-pcf-macros/src/lib.rs:173-177 | Appending a glyph to the values appends it to the kept glyphs exactly when it passes the filter |
| EgPcfMacros.Retained | eg-pcf-macros/src/lib.rs:173-177 | Every kept glyph passes the filter, and there are no more kept glyphs than values |
| EgPcfMacros.Collected | eg-pcf-macros/src/lib.rs:173-189 | A successful collection has one literal per kept glyph |
| EgPcfMacros.CollectedFails | eg-pcf-macros/src/lib.rs:173-189 | A failure on a prefix of the glyphs is the failure of the whole loop |
| EgPcfMacros.IncludedFontFails | eg-pcf-macros/src/lib.rs:173-192 | If collecting fails, `include_pcf` fails with the same error |
| EgPcfMacros.IncludedDone | eg-pcf-macros/src/lib.rs:190-195 | After the loop the font literal holds the glyph literals, the packed bits, `line_height` as the u32 cast of the box height, and the replacement index or 0 |
| EgPcfMacros.IncludePcf | eg-pcf-macros/src/lib.rs:168-195 | The loop over the glyph values yields exactly the included-font function |
| EgPcfMacros.CollectedShape | eg-pcf-macros/src/lib.rs:185-187 | Each kept glyph's literal has `start_index` equal to the total bits of the glyphs kept before it, and the data is all their bits in order |
| EgPcfMacros.IncludedGlyph | eg-pcf-macros/src/lib.rs:185-193 | Literal i of the included font is built from kept glyph i at the bit count of the kept glyphs before it, over the packed bits of all of them |
| EgPcfMacros.DrawIncludedGlyph | eg-pcf-macros/src/lib.rs:185-193 | Drawing glyph i of an included font pairs its rectangle's points with exactly that glyph's own bits |
| EgPcfMacros.DrawFromAll | eg-pcf-macros/src/lib.rs:185-193 | Skipping a glyph's `start_index` bits into the packed data and pairing them with its points reads exactly that glyph's bits |
| EgPcfMacros.DrawnPixels | eg-pcf-macros/src/lib.rs:134-140 | A glyph's bits drawn over its rectangle emit exactly the points (left + x, top + y) whose pixel (x, y) is set |
| EgPcfMacros.RectangleSize | eg-pcf-macros/src/lib.rs:106 | For a non-negative box the rectangle's size is the box's size |
| EgPcf.FindGlyph | eg-pcf/src/lib.rs:25-27 | The search returns the first position whose character matches, and nothing iff no glyph matches |
| EgPcf.GetGlyph | eg-pcf/src/lib.rs:24-29 | `get_glyph` fails (an index panic) exactly when no glyph matches and the replacement index is out of range |
| EgPcf.GetGlyphFirst | eg-pcf/src/lib.rs:25-27 | The first glyph with the character is the one returned |
| EgPcf.GetGlyphFallback | eg-pcf/src/lib.rs:28 | With an in-range replacement index the lookup never fails and falls back to that glyph |
| EgPcf.GetGlyphRoundTrip | eg-pcf/src/lib.rs:25-27 | A glyph whose character is unique is found by that character |
| EgPcf.Skip | eg-pcf/src/lib.rs:50-52 | Skipping n bits drops exactly the first n, or everything when fewer remain |
| EgPcf.PairedMembers | eg-pcf/src/lib.rs:54-60 | A point is emitted iff some position pairs it with a 1 bit |
| EgPcf.PairedAppend | eg-pcf/src/lib.rs:54-60 | Pairing distributes over concatenation of equally long points and bits |
| EgPcf.Draw | eg-pcf/src/lib.rs:41-61 | `draw` emits, in order, the translated box's points paired with 1 bits of the data after skipping `start_index` bits |
| EgPcf.Walk | eg-pcf/src/lib.rs:54-60 | The zip/filter loop emits exactly the paired points |
| Graphics.PointsCount | eg-pcf/src/lib.rs:54-56 | A rectangle has width·height points |
| Graphics.PointAt | eg-pcf/src/lib.rs:54-56 | Point y·width + x of a rectangle's row-major walk is (left + x, top + y) |

The definitions below model source functions directly but carry no contract of their own. Each is stated through the members named after it.

- `PcfLayout.AcceleratorsOf` and `PcfLayout.AcceleratorsAt`: `read_accelerators` (pcf-parser/src/pcf.rs:187-249; src/lib/pcf.rs:167-229). See `AcceleratorsProperties`, `ReadAccelerators` and `AcceleratorsExample`.
- `PcfLayout.EncodingOf` and `PcfLayout.EncodingAt`: `read_encoding` (pcf-parser/src/pcf.rs:289-319; src/lib/pcf.rs:252-282). See `ReadEncoding` and `EncodingRoundTrip`.
- `PcfLayout.BitmapOf` and `PcfLayout.BitmapAt`: `read_bitmap` (pcf-parser/src/pcf.rs:322-353). See `ReadBitmap`, `BitmapSizeSelection` and `BitmapExample`.
- `PcfParser.Decode`: the header reads of `PcfFont::new` (pcf-parser/src/pcf.rs:135-149). See `PcfFont.New` and `PcfFont.ReadHeaders`.
- `PcfParser.Pending`: the filter at pcf-parser/src/pcf.rs:473-476. See `PendingMembers`, `PendingAppend`, `PendingSnoc` and `PendingOne`.
- `PcfParser.Installed`: the `glyphs.insert` calls of `load_glyphs` (pcf-parser/src/pcf.rs:491-552). See `InstalledEntries`.
- `PcfParser.LoadGlyphsSpec`: `load_glyphs` (pcf-parser/src/pcf.rs:467-557). See `PcfFont.LoadGlyphs`, `LoadGlyphsSteps`, `LoadGlyphsAdds`, `LoadGlyphsKeepsExisting`, `LoadGlyphsIdempotent` and `StillMissingHaveNoIndex`.
- `LegacyPcf.Decode`: `Pcf::new` of the older copy (src/lib/pcf.rs:122-146). See `LegacyPcf.Pcf.New`.
- `EgPcfMacros.CharacterRange.Contains`: `CharacterRange::contains` (eg-pcf-macros/src/lib.rs:76-83). See `RangesContain` and `RangeOfTwo`.
- `EgPcfMacros.ChunkByte`: one chunk of `bits_to_bytes` (eg-pcf-macros/src/lib.rs:210-217). See `ChunkBit` and `BitsToBytesBit`.
- `EgPcfMacros.IncludedFont`: `include_pcf` after parsing (eg-pcf-macros/src/lib.rs:156-207). See `IncludePcf`, `IncludedDone`, `IncludedFontFails`, `IncludedGlyph` and `DrawIncludedGlyph`.
- `EgPcf.DataBits`: the MSB-first bit iterator over the data slice (eg-pcf/src/lib.rs:48). See `BitsRoundTrip` and `DrawFromAll`.
- `EgPcf.Paired`: the zip and filter of `draw` (eg-pcf/src/lib.rs:54-60). See `PairedMembers`, `PairedAppend` and `Walk`.
- `Graphics.Translate` and `Graphics.Points`: `translate` and `points` in `draw` (eg-pcf/src/lib.rs:54-56). See `PointsCount` and `PointAt`.

## Left out

- The proc-macro plumbing of `include_pcf!` is not modelled:
  - reading the font file and `CARGO_MANIFEST_DIR` (eg-pcf-macros/src/lib.rs:160-166);
  - the `quote!` token generation;
  - the `syn` `Parse` implementations.

  The model starts from the decoded glyph values and the parsed ranges.
- EgPcfMacros.GlyphLiteralOf fails with `NegativeSize` where the source would not finish. A negative height, or a negative width under a positive height, makes the loops `0..size as usize` (eg-pcf-macros/src/lib.rs:136-137) run about 2^64 times; `LoopsFinish` names the sizes that terminate.
- PcfFontObject.PcfFont.LoadGlyphs does not state the whole map after a failure. It states only that the entries it started with are kept; the blank glyphs the first loop inserted before a later panic, and the glyphs unpacked before it, are not listed.
- The iteration order of `font.glyphs.values()` is unspecified, so it is a sequence parameter of `EgPcfMacros.IncludePcf`.
- `PcfGlyph::draw` writes pixels to an embedded-graphics `DrawTarget`. The model returns the sequence of points it would draw instead. Target errors and the colour are not modelled.
- `eg-pcf/src/text.rs` (text rendering adapters) and `eg-pcf/examples/hello.rs` (a simulator window) are not part of this model.
- The `GlyphCache` stubs are not modelled, because their methods do nothing.
- The data-only files (`glyph.rs`, the crate `lib.rs` re-exports) are not modelled beyond the `Glyph` datatype.
- Release-build wrap-around is not modelled. In the decoder and the macro crate, overflow follows the debug build, where it panics; `ToI32`/`AsU32` write out the two's-complement conversions of `as` casts.
- Graphics.Translate adds unbounded integers, as do `Graphics.PointRow` and `Graphics.Points`. embedded-graphics adds `Point`s in i32, which panics on overflow in a debug build. So `EgPcf.Draw` never fails where `draw` (eg-pcf/src/lib.rs:55) would panic for a glyph moved past the i32 range.
- `usize` arithmetic is unbounded in the model. Wrap-around past 2^64 cannot happen for slice offsets of a real file.
- A negative `i32` offset cast to `usize` is treated as out of bounds. The cast's value is at least 2^63, which is past any real file.
- Unsupported format variants are not given behaviour the source lacks. These are bit order, scan unit, padding other than 4-byte rows, and uncompressed per-glyph metrics; `load_glyphs` fails on the last with `UncompressedMetrics`.
- The older copies in `src/lib/pcf.rs` share some functions with `pcf-parser/src/pcf.rs`:
  - their `header`, `table_count`, `read_uncompressed_metrics` and `read_encoding` are the same functions as the newer copy's: `PcfLayout.Header`, `PcfLayout.TableCount`, `PcfLayout.ReadUncompressedMetrics` and `PcfLayout.ReadEncoding`;
  - their `read_accelerators` reads the format word as u32, which `LegacyPcf.FormatWordAsU32` proves makes no difference;
  - the directory differs only in signedness, a parameter of `PcfLayout.DirectoryOf`.
- The test font's eight tables and their offsets are not restated. The test font file is not part of this model, and the directory lemmas hold for any records.

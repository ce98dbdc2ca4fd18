/**
 * The build-time side of the embedded font (`eg-pcf-macros`): `include_pcf!` keeps the
 * glyphs of a parsed font whose character lies in the requested ranges, lays their pixels
 * out row by row in one bit string (each glyph remembering where its bits start), packs
 * that string into bytes from the most significant bit down, and picks the replacement
 * glyph. The parsed font is an input here: its glyphs (a box and a pixel function each,
 * in the order the map yields them) and its bounding box.
 */
module EgPcfMacros {
  import opened Wrappers
  import opened Bytes
  import opened Graphics
  import opened EgPcf
  import PcfParser

  /**
   * How the macro fails: a glyph without a character (`unwrap` on `None`), an i32
   * overflow panic, or a pixel loop over a negative size read as usize, which would run
   * for about 2^64 rounds.
   */
  datatype Error = NoEncoding | Overflow | NegativeSize

  // Character ranges

  /** One `'a'` or `'a'..='z'` of the macro's arguments. */
  datatype CharacterRange = CharacterRange(from: char, to: Option<char>) {
    /** `CharacterRange::contains`: the single character, or the inclusive range. */
    predicate Contains(c: char) {
      match to
      case None => c == from
      case Some(last) => from <= c <= last
    }
  }

  /** `CharacterRanges::contains`: the loop that returns on the first range holding `c`. */
  function RangesContain(ranges: seq<CharacterRange>, c: char): (r: bool)
    ensures r <==> exists i :: 0 <= i < |ranges| && ranges[i].Contains(c)
  {
    if |ranges| == 0 then false
    else if ranges[0].Contains(c) then true
    else
      var rest := RangesContain(ranges[1..], c);
      assert forall i :: 1 <= i < |ranges| ==> ranges[i] == ranges[1..][i - 1];
      rest
  }

  /** `IncludePcf::contains`: without ranges every character is kept. */
  function IncludeContains(ranges: Option<seq<CharacterRange>>, c: char): (r: bool)
    ensures r <==> ranges.None? || exists i :: 0 <= i < |ranges.value| && ranges.value[i].Contains(c)
  {
    match ranges
    case None => true
    case Some(rs) => RangesContain(rs, c)
  }

  /** The crate's own use, `'A'..='B'`, keeps exactly `A` and `B`. */
  lemma RangeOfTwo(c: char)
    ensures IncludeContains(Some([CharacterRange('A', Some('B'))]), c) <==> c == 'A' || c == 'B'
  {
    assert [CharacterRange('A', Some('B'))][0] == CharacterRange('A', Some('B'));
  }

  // Boxes

  function CheckedI32(x: int): (r: Result<int, Error>)
    ensures r.Success? <==> InI32(x)
    ensures r.Success? ==> r.value == x
  {
    if InI32(x) then Success(x) else Failure(Overflow)
  }

  /** The four coordinates are i32 values, as the parser's `Coord` holds them. */
  predicate BoxInI32(bb: PcfParser.BoundingBox) {
    InI32(bb.size.x) && InI32(bb.size.y) && InI32(bb.offset.x) && InI32(bb.offset.y)
  }

  /**
   * `bounding_box_to_rectangle`: the top-left corner is the box's left edge and, in y-down
   * coordinates, `-offset.y - size.y - 1` (each step an i32 operation that panics on
   * overflow); the size is the box's size read as u32.
   */
  function BoundingBoxToRectangle(bb: PcfParser.BoundingBox): (r: Result<Rectangle, Error>)
    requires BoxInI32(bb)
    ensures r.Success? <==>
            InI32(-bb.offset.y) && InI32(-bb.offset.y - bb.size.y) && InI32(-bb.offset.y - bb.size.y - 1)
    ensures r.Success? ==> r.value.size.width < U32_LIMIT && r.value.size.height < U32_LIMIT
  {
    var flipped :- CheckedI32(-bb.offset.y);
    var above :- CheckedI32(flipped - bb.size.y);
    var top :- CheckedI32(above - 1);
    Success(Rectangle(Point(bb.offset.x, top), Size(AsU32(bb.size.x), AsU32(bb.size.y))))
  }

  /** The PCF box a rectangle was converted from. */
  function RectangleToBoundingBox(rect: Rectangle): PcfParser.BoundingBox
    requires rect.size.width < U32_LIMIT && rect.size.height < U32_LIMIT
  {
    var w, h := ToI32(rect.size.width), ToI32(rect.size.height);
    PcfParser.BoundingBox(PcfParser.Coord(w, h), PcfParser.Coord(rect.topLeft.x, -rect.topLeft.y - h - 1))
  }

  /** The conversion loses nothing: the box comes back from the rectangle. */
  lemma BoundingBoxRoundTrip(bb: PcfParser.BoundingBox)
    requires BoxInI32(bb) && BoundingBoxToRectangle(bb).Success?
    ensures RectangleToBoundingBox(BoundingBoxToRectangle(bb).value) == bb
  {
    AsU32RoundTrip(bb.size.x, 0);
    AsU32RoundTrip(bb.size.y, 0);
  }

  // Glyph pixels

  /**
   * A glyph of the parsed font as the macro reads it: its character, its box, its advance
   * and its pixels (`Glyph::pixel(x, y)`).
   */
  datatype SourceGlyph = SourceGlyph(
    encoding: Option<char>,
    boundingBox: PcfParser.BoundingBox,
    shiftX: int,
    pixel: (nat, nat) -> bool)

  /** The glyph's numbers are i32 values, as the parser's glyph holds them. */
  predicate GlyphInI32(g: SourceGlyph) {
    BoxInI32(g.boundingBox) && InI32(g.shiftX)
  }

  /**
   * The pixel loops finish: a negative height, or a negative width under a positive
   * height, read as usize would make them run for about 2^64 rounds.
   */
  predicate LoopsFinish(bb: PcfParser.BoundingBox) {
    bb.size.y == 0 || (bb.size.y > 0 && bb.size.x >= 0)
  }

  /** Row `y` of the glyph: its pixels from the left. */
  function Row(g: SourceGlyph, width: nat, y: nat): (r: seq<bool>)
    ensures |r| == width
  {
    seq(width, x requires 0 <= x < width => g.pixel(x, y))
  }

  /** The first `height` rows, top row first. */
  function Rows(g: SourceGlyph, width: nat, height: nat): (r: seq<bool>) {
    if height == 0 then [] else Rows(g, width, height - 1) + Row(g, width, height - 1)
  }

  /** The rows hold `width * height` bits. */
  lemma {:induction false} RowsCount(g: SourceGlyph, width: nat, height: nat)
    ensures |Rows(g, width, height)| == width * height
  {
    if height > 0 {
      RowsCount(g, width, height - 1);
      NextRow(width, height - 1);
    }
  }

  /**
   * The bits `glyph_literal` collects: every pixel of the glyph's box, row by row (none
   * when the loops do not run, or would not finish, which `GlyphLiteralOf` rejects).
   */
  function GlyphBits(g: SourceGlyph): (r: seq<bool>) {
    var size := g.boundingBox.size;
    if size.y > 0 && size.x >= 0 then Rows(g, size.x, size.y) else []
  }

  /** Entry `y * width + x` of the rows is pixel `(x, y)`. */
  lemma {:induction false} RowsAt(g: SourceGlyph, width: nat, height: nat, x: nat, y: nat)
    requires x < width && y < height
    ensures y * width + x < |Rows(g, width, height)|
    ensures Rows(g, width, height)[y * width + x] == g.pixel(x, y)
  {
    FlatIndex(width, height, x, y);
    if y < height - 1 {
      RowsAt(g, width, height - 1, x, y);
    } else {
      RowsCount(g, width, height - 1);
      assert y * width == width * (height - 1);
    }
  }

  /** The glyph's bits hold `size.x * size.y` pixels, pixel `(x, y)` at `y * size.x + x`. */
  lemma GlyphBitsAt(g: SourceGlyph, x: nat, y: nat)
    requires x < g.boundingBox.size.x && y < g.boundingBox.size.y
    ensures |GlyphBits(g)| == g.boundingBox.size.x * g.boundingBox.size.y
    ensures y * g.boundingBox.size.x + x < |GlyphBits(g)|
    ensures GlyphBits(g)[y * g.boundingBox.size.x + x] == g.pixel(x, y)
  {
    RowsCount(g, g.boundingBox.size.x, g.boundingBox.size.y);
    RowsAt(g, g.boundingBox.size.x, g.boundingBox.size.y, x, y);
  }

  /**
   * `glyph_literal(glyph, start_index)`: the glyph's bits and its `PcfGlyph`, whose advance
   * is `shift_x` read as u32 and whose bits start at `start_index`.
   */
  function GlyphLiteralOf(g: SourceGlyph, start: nat): (r: Result<(seq<bool>, PcfGlyph), Error>)
    requires GlyphInI32(g)
    ensures r.Success? <==>
            g.encoding.Some? && BoundingBoxToRectangle(g.boundingBox).Success? && LoopsFinish(g.boundingBox)
    ensures r.Success? ==>
              var (bits, literal) := r.value;
              bits == GlyphBits(g) && literal.character == g.encoding.value && literal.startIndex == start &&
              literal.boundingBox == BoundingBoxToRectangle(g.boundingBox).value &&
              literal.deviceWidth == AsU32(g.shiftX)
  {
    if g.encoding.None? then Failure(NoEncoding)
    else
      var rect :- BoundingBoxToRectangle(g.boundingBox);
      if !LoopsFinish(g.boundingBox) then Failure(NegativeSize)
      else
        Success((GlyphBits(g), PcfGlyph(g.encoding.value, rect, AsU32(g.shiftX), start)))
  }

  /** A glyph has as many bits as its rectangle has points (none when its height is zero). */
  lemma GlyphBitsCount(g: SourceGlyph)
    requires GlyphInI32(g) && LoopsFinish(g.boundingBox)
    ensures |GlyphBits(g)| == AsU32(g.boundingBox.size.x) * AsU32(g.boundingBox.size.y)
  {
    if g.boundingBox.size.y == 0 {
      assert AsU32(g.boundingBox.size.y) == 0;
    } else {
      RowsCount(g, g.boundingBox.size.x, g.boundingBox.size.y);
    }
  }

  /** `glyph_literal`: the pixel loops, `y` over the rows and `x` within a row. */
  method GlyphLiteral(g: SourceGlyph, start: nat) returns (r: Result<(seq<bool>, PcfGlyph), Error>)
    requires GlyphInI32(g)
    ensures r == GlyphLiteralOf(g, start)
  {
    if g.encoding.None? {
      return Failure(NoEncoding);
    }
    var character := g.encoding.value;
    var rect :- BoundingBoxToRectangle(g.boundingBox);
    var deviceWidth := AsU32(g.shiftX);
    if !LoopsFinish(g.boundingBox) {
      return Failure(NegativeSize);
    }
    var height: nat := g.boundingBox.size.y;
    var width: nat := if height == 0 then 0 else g.boundingBox.size.x;
    var data: seq<bool> := [];
    for y := 0 to height
      invariant data == Rows(g, width, y)
    {
      ghost var above := data;
      for x := 0 to width
        invariant data == above + Row(g, width, y)[..x]
      {
        data := data + [g.pixel(x, y)];
      }
      assert Row(g, width, y)[..width] == Row(g, width, y);
    }
    return Success((data, PcfGlyph(character, rect, deviceWidth, start)));
  }

  // Packing bits into bytes

  /** `0x80 >> i` summed over the set bits `i` of one chunk of at most eight bits. */
  function ChunkByte(chunk: seq<bool>): (r: nat)
    requires |chunk| <= 8
    ensures r + Pow2(8 - |chunk|) <= 0x100
  {
    if |chunk| == 0 then
      Pow2Step8(0);
      0
    else
      var m := |chunk| - 1;
      Pow2Seven();
      ShrPow2(7, m);
      ChunkByte(chunk[..m]) + (if chunk[m] then Shr(0x80, m) else 0)
  }

  /** `bits_to_bytes`: the bits in chunks of eight, the last one possibly shorter, each chunk one byte. */
  function BitsToBytes(bits: seq<bool>): (r: seq<Byte>)
    ensures |r| == (|bits| + 7) / 8
  {
    if |bits| == 0 then []
    else
      var n := if |bits| < 8 then |bits| else 8;
      [ChunkByte(bits[..n])] + BitsToBytes(bits[n..])
  }

  lemma Pow2Seven()
    ensures Pow2(7) == 0x80
  {
    assert Pow2(3) == 8;
    assert Pow2(7) == 16 * Pow2(3);
  }

  /** The last bit of a chunk adds `0x80 >> m` at its position `m`. */
  lemma ChunkByteLast(chunk: seq<bool>)
    requires 0 < |chunk| <= 8
    ensures var m := |chunk| - 1;
            ChunkByte(chunk) == ChunkByte(chunk[..m]) + (if chunk[m] then Pow2(7 - m) else 0)
  {
    Pow2Seven();
    ShrPow2(7, |chunk| - 1);
  }

  /** `v << s` without a width: `s` doublings. */
  function Shl(v: nat, s: nat): nat {
    if s == 0 then v else 2 * Shl(v, s - 1)
  }

  /** Shifting `2q + bit` by `s` is shifting `q` by one more, plus the bit at position `s`. */
  lemma {:induction false} ShlStep(q: nat, bit: bool, s: nat)
    ensures Shl(2 * q + (if bit then 1 else 0), s) == Shl(q, s + 1) + (if bit then Pow2(s) else 0)
  {
    if s > 0 {
      ShlStep(q, bit, s - 1);
    }
  }

  /** A chunk's byte is the chunk read as a binary number from its first bit, shifted to the top of the byte. */
  lemma {:induction false} ChunkByteValue(chunk: seq<bool>)
    requires |chunk| <= 8
    ensures ChunkByte(chunk) == Shl(FromBits(chunk), 8 - |chunk|)
  {
    if |chunk| > 0 {
      var m := |chunk| - 1;
      ChunkByteValue(chunk[..m]);
      ChunkByteLast(chunk);
      ShlStep(FromBits(chunk[..m]), chunk[m], 8 - |chunk|);
    }
  }

  /** Bit `j` of `2w` is bit `j - 1` of `w`, and bit 0 is clear. */
  lemma DoubleTestBit(w: nat, j: nat)
    ensures TestBit(2 * w, j) <==> j > 0 && TestBit(w, j - 1)
  {
    DivUnique(2 * w, 2, w, 0);
  }

  /** Bit `j` of `v << s` is bit `j - s` of `v`, and clear below `s`. */
  lemma {:induction false} ShlTestBit(v: nat, s: nat, j: nat)
    ensures TestBit(Shl(v, s), j) <==> j >= s && TestBit(v, j - s)
  {
    if s > 0 {
      DoubleTestBit(Shl(v, s - 1), j);
      if j > 0 {
        ShlTestBit(v, s - 1, j - 1);
      }
    }
  }

  /** Bit `7 - i` of a chunk's byte is the chunk's bit `i`, and clear past the chunk's end. */
  lemma ChunkBit(chunk: seq<bool>, i: nat)
    requires |chunk| <= 8 && i < 8
    ensures TestBit(ChunkByte(chunk), 7 - i) <==> i < |chunk| && chunk[i]
  {
    var k := 8 - |chunk|;
    ChunkByteValue(chunk);
    ShlTestBit(FromBits(chunk), k, 7 - i);
    if 7 - i >= k {
      FromBitsTestBit(chunk, 7 - i - k);
      assert |chunk| - 1 - (7 - i - k) == i;
    }
  }

  /** Bit `i` of the packed bytes, read most significant first, is bit `i` of the input, or clear past its end. */
  lemma {:induction false} BitsToBytesBit(bits: seq<bool>, i: nat)
    requires i < 8 * |BitsToBytes(bits)|
    ensures DataBit(BitsToBytes(bits), i) <==> i < |bits| && bits[i]
  {
    var n := if |bits| < 8 then |bits| else 8;
    var r := BitsToBytes(bits);
    assert r == [ChunkByte(bits[..n])] + BitsToBytes(bits[n..]);
    if i < 8 {
      ChunkBit(bits[..n], i);
    } else {
      assert n == 8;
      var tail := BitsToBytes(bits[n..]);
      DivUnique(i - 8, 8, i / 8 - 1, i % 8);
      assert r[i / 8] == tail[(i - 8) / 8];
      BitsToBytesBit(bits[n..], i - 8);
      assert i < |bits| ==> bits[n..][i - 8] == bits[i];
    }
  }

  /** The packed data unpacks to the bits, then fewer than eight clear bits. */
  lemma BitsRoundTrip(bits: seq<bool>)
    ensures var unpacked := DataBits(BitsToBytes(bits));
            |bits| <= |unpacked| < |bits| + 8 &&
            unpacked[..|bits|] == bits &&
            forall i :: |bits| <= i < |unpacked| ==> !unpacked[i]
  {
    var unpacked := DataBits(BitsToBytes(bits));
    forall i | 0 <= i < |unpacked|
      ensures unpacked[i] <==> i < |bits| && bits[i]
    {
      BitsToBytesBit(bits, i);
    }
  }

  /** `0x80 >> i` is `2^(7 - i)`: the value of position `i` of a chunk. */
  lemma ChunkPositions()
    ensures Shr(0x80, 0) == 0x80 && Shr(0x80, 7) == 0x01
  {
    Pow2Seven();
    ShrPow2(7, 7);
  }

  /** A chunk with no bit set packs to zero. */
  lemma {:induction false} ChunkOfZeros(c: seq<bool>)
    requires |c| <= 8 && forall i :: 0 <= i < |c| ==> !c[i]
    ensures ChunkByte(c) == 0
  {
    if |c| > 0 {
      ChunkOfZeros(c[..|c| - 1]);
    }
  }

  /** Chunks starting with a set bit: `[t]` and `[t, f, f, f, f, f, f, f]` pack to 0x80, `[t, f, f, f, f, f, f, t]` to 0x81. */
  lemma HighChunks()
    ensures ChunkByte([true]) == 0x80
    ensures ChunkByte([true, false, false, false, false, false, false, false]) == 0x80
    ensures ChunkByte([true, false, false, false, false, false, false, true]) == 0x81
  {
    var f, t := false, true;
    ChunkPositions();
    assert ChunkByte([t]) == 0x80 by { assert [t][..0] == []; }
    assert ChunkByte([t, f]) == 0x80 by { assert [t, f][..1] == [t]; }
    assert ChunkByte([t, f, f]) == 0x80 by { assert [t, f, f][..2] == [t, f]; }
    assert ChunkByte([t, f, f, f]) == 0x80 by { assert [t, f, f, f][..3] == [t, f, f]; }
    assert ChunkByte([t, f, f, f, f]) == 0x80 by { assert [t, f, f, f, f][..4] == [t, f, f, f]; }
    assert ChunkByte([t, f, f, f, f, f]) == 0x80 by { assert [t, f, f, f, f, f][..5] == [t, f, f, f, f]; }
    assert ChunkByte([t, f, f, f, f, f, f]) == 0x80 by { assert [t, f, f, f, f, f, f][..6] == [t, f, f, f, f, f]; }
    assert [t, f, f, f, f, f, f, t][..7] == [t, f, f, f, f, f, f];
    assert [t, f, f, f, f, f, f, f][..7] == [t, f, f, f, f, f, f];
  }

  /** The crate's own expectations of `bits_to_bytes`, the last with a partial chunk. */
  lemma BitsToBytesExamples()
    ensures BitsToBytes([false, false, false, false, false, false, false, false]) == [0x00]
    ensures BitsToBytes([true, false, false, false, false, false, false, false]) == [0x80]
    ensures BitsToBytes([true, false, false, false, false, false, false, true]) == [0x81]
    ensures BitsToBytes([false, false, false, false, false, false, false, false, true]) == [0x00, 0x80]
  {
    var f, t := false, true;
    var zero, high, both := [f, f, f, f, f, f, f, f], [t, f, f, f, f, f, f, f], [t, f, f, f, f, f, f, t];
    HighChunks();
    ChunkOfZeros(zero);
    assert zero[..8] == zero && zero[8..] == [];
    assert high[..8] == high && high[8..] == [];
    assert both[..8] == both && both[8..] == [];
    var partial := zero + [t];
    assert partial[..8] == zero && partial[8..] == [t];
    assert [t][..1] == [t] && [t][1..] == [];
    assert BitsToBytes([t]) == [0x80];
    assert partial == [f, f, f, f, f, f, f, f, t];
    assert BitsToBytes(partial) == [0x00] + BitsToBytes([t]);
  }

  // The replacement glyph

  const REPLACEMENT_CHARACTER: char := '\U{FFFD}'

  /** The position of the last `c` in `cs`. */
  function LastIndexOf(cs: seq<char>, c: char): (r: Option<nat>)
    ensures r.None? <==> forall j :: 0 <= j < |cs| ==> cs[j] != c
    ensures r.Some? ==> r.value < |cs| && cs[r.value] == c && forall j :: r.value < j < |cs| ==> cs[j] != c
  {
    if |cs| == 0 then None
    else if cs[|cs| - 1] == c then Some(|cs| - 1)
    else LastIndexOf(cs[..|cs| - 1], c)
  }

  /** The position of the first `c` in `cs`. */
  function FirstIndexOf(cs: seq<char>, c: char): (r: Option<nat>)
    ensures r.None? <==> forall j :: 0 <= j < |cs| ==> cs[j] != c
    ensures r.Some? ==> r.value < |cs| && cs[r.value] == c && forall j :: 0 <= j < r.value ==> cs[j] != c
  {
    if |cs| == 0 then None
    else
      match FirstIndexOf(cs[..|cs| - 1], c)
      case Some(i) => Some(i)
      case None => if cs[|cs| - 1] == c then Some(|cs| - 1) else None
  }

  /**
   * The replacement glyph among glyphs with characters `cs`: the last U+FFFD, otherwise
   * the first space, otherwise none.
   */
  function Replacement(cs: seq<char>): (r: Option<nat>)
    ensures r.Some? ==> r.value < |cs|
    ensures (exists i :: 0 <= i < |cs| && cs[i] == REPLACEMENT_CHARACTER) ==>
              r.Some? && cs[r.value] == REPLACEMENT_CHARACTER &&
              forall j :: r.value < j < |cs| ==> cs[j] != REPLACEMENT_CHARACTER
    ensures (forall i :: 0 <= i < |cs| ==> cs[i] != REPLACEMENT_CHARACTER) ==>
              (r.Some? <==> exists i :: 0 <= i < |cs| && cs[i] == ' ') &&
              (r.Some? ==> cs[r.value] == ' ' && forall j :: 0 <= j < r.value ==> cs[j] != ' ')
  {
    match LastIndexOf(cs, REPLACEMENT_CHARACTER)
    case Some(i) => Some(i)
    case None => FirstIndexOf(cs, ' ')
  }

  /**
   * The loop's rule computes it: a glyph for U+FFFD, or the first glyph for a space while
   * none is chosen yet, becomes the replacement.
   */
  lemma ReplacementStep(cs: seq<char>, c: char)
    ensures Replacement(cs + [c]) ==
            if c == REPLACEMENT_CHARACTER || (c == ' ' && Replacement(cs).None?) then Some(|cs|) else Replacement(cs)
  {
    var ds := cs + [c];
    assert ds[..|cs|] == cs;
    if c != REPLACEMENT_CHARACTER {
      assert LastIndexOf(ds, REPLACEMENT_CHARACTER) == LastIndexOf(cs, REPLACEMENT_CHARACTER);
      if LastIndexOf(cs, REPLACEMENT_CHARACTER).None? {
        assert FirstIndexOf(ds, ' ') == (if FirstIndexOf(cs, ' ').Some? then FirstIndexOf(cs, ' ')
                                          else if c == ' ' then Some(|cs|) else None);
      }
    }
  }

  // The font literal

  /** The font literal `include_pcf!` expands to (it sets no `bounding_box`). */
  datatype FontLiteral = FontLiteral(glyphs: seq<PcfGlyph>, data: seq<Byte>, lineHeight: nat, replacementCharacter: nat)

  /** The macro keeps a glyph that has a character the ranges hold. */
  predicate Kept(g: SourceGlyph, ranges: Option<seq<CharacterRange>>) {
    g.encoding.Some? && IncludeContains(ranges, g.encoding.value)
  }

  /** The kept glyphs, in the order the font's map yields them. */
  function Retained(values: seq<SourceGlyph>, ranges: Option<seq<CharacterRange>>): (r: seq<SourceGlyph>)
    ensures |r| <= |values| && forall i :: 0 <= i < |r| ==> Kept(r[i], ranges)
    ensures AllInI32(values) ==> AllInI32(r)
  {
    if |values| == 0 then []
    else
      var rest := Retained(values[..|values| - 1], ranges);
      if Kept(values[|values| - 1], ranges) then rest + [values[|values| - 1]] else rest
  }

  /** Appending a glyph to the map's values appends it to the kept glyphs exactly when it is kept. */
  lemma RetainedSnoc(values: seq<SourceGlyph>, g: SourceGlyph, ranges: Option<seq<CharacterRange>>)
    ensures Retained(values + [g], ranges) == Retained(values, ranges) + if Kept(g, ranges) then [g] else []
  {
    assert (values + [g])[..|values|] == values;
  }

  /**
   * The filter keeps order and repeats: the kept glyphs of a concatenation are those of its
   * parts, one after the other.
   */
  lemma {:induction false} RetainedAppend(a: seq<SourceGlyph>, b: seq<SourceGlyph>, ranges: Option<seq<CharacterRange>>)
    ensures Retained(a + b, ranges) == Retained(a, ranges) + Retained(b, ranges)
    decreases |b|
  {
    if |b| == 0 {
      assert a + b == a;
    } else {
      var init, last := b[..|b| - 1], b[|b| - 1];
      assert b == init + [last];
      assert a + b == (a + init) + [last];
      RetainedSnoc(a + init, last, ranges);
      RetainedSnoc(init, last, ranges);
      RetainedAppend(a, init, ranges);
    }
  }

  /** A glyph is kept exactly when it is among the values and passes the filter. */
  lemma {:induction false} RetainedMembers(values: seq<SourceGlyph>, ranges: Option<seq<CharacterRange>>)
    ensures forall g :: g in Retained(values, ranges) <==> g in values && Kept(g, ranges)
  {
    if |values| > 0 {
      var init := values[..|values| - 1];
      RetainedMembers(init, ranges);
      assert values == init + [values[|values| - 1]];
    }
  }

  /** The characters of kept glyphs. */
  function Characters(gs: seq<SourceGlyph>): (r: seq<char>)
    requires forall i :: 0 <= i < |gs| ==> gs[i].encoding.Some?
    ensures |r| == |gs| && forall i :: 0 <= i < |gs| ==> r[i] == gs[i].encoding.value
  {
    seq(|gs|, i requires 0 <= i < |gs| => gs[i].encoding.value)
  }

  predicate AllInI32(values: seq<SourceGlyph>) {
    forall i :: 0 <= i < |values| ==> GlyphInI32(values[i])
  }

  /**
   * The glyph loop of `include_pcf`: the literals of the kept glyphs and their bits laid
   * end to end, each literal's bits starting where the earlier ones end; the first
   * failing literal stops the macro.
   */
  function Collected(values: seq<SourceGlyph>, ranges: Option<seq<CharacterRange>>): (r: Result<(seq<PcfGlyph>, seq<bool>), Error>)
    requires AllInI32(values)
    ensures r.Success? ==> |r.value.0| == |Retained(values, ranges)|
  {
    if |values| == 0 then Success(([], []))
    else
      var before :- Collected(values[..|values| - 1], ranges);
      var (glyphs, bits) := before;
      var g := values[|values| - 1];
      if !Kept(g, ranges) then Success((glyphs, bits))
      else
        var literal :- GlyphLiteralOf(g, |bits|);
        Success((glyphs + [literal.1], bits + literal.0))
  }

  /** `include_pcf!`: the collected glyphs, the packed bits, the font's height as u32 and the replacement index (0 without one). */
  function IncludedFont(values: seq<SourceGlyph>, ranges: Option<seq<CharacterRange>>, fontBox: PcfParser.BoundingBox): (r: Result<FontLiteral, Error>)
    requires AllInI32(values) && InI32(fontBox.size.y)
  {
    var collected :- Collected(values, ranges);
    var (glyphs, bits) := collected;
    Success(FontLiteral(glyphs, BitsToBytes(bits), AsU32(fontBox.size.y),
                        Replacement(Characters(Retained(values, ranges))).GetOr(0)))
  }

  /** Once a prefix of the glyphs fails, the macro fails with that error. */
  lemma {:induction false} CollectedFails(values: seq<SourceGlyph>, ranges: Option<seq<CharacterRange>>, i: nat)
    requires AllInI32(values) && i <= |values|
    requires Collected(values[..i], ranges).Failure?
    ensures Collected(values, ranges) == Failure(Collected(values[..i], ranges).error)
    decreases |values| - i
  {
    if i < |values| {
      CollectedFailStep(values, ranges, i);
      CollectedFails(values, ranges, i + 1);
    } else {
      assert values[..i] == values;
    }
  }

  /** A failed prefix stays failed, with the same error, one glyph later. */
  lemma CollectedFailStep(values: seq<SourceGlyph>, ranges: Option<seq<CharacterRange>>, i: nat)
    requires AllInI32(values) && i < |values|
    requires Collected(values[..i], ranges).Failure?
    ensures Collected(values[..i + 1], ranges) == Collected(values[..i], ranges)
  {
    var prefix := values[..i + 1];
    assert prefix[..i] == values[..i];
  }

  /** The loop of `include_pcf` after the first `i` glyphs: what it has collected, and the replacement so far. */
  ghost predicate IncludedUpTo(values: seq<SourceGlyph>, ranges: Option<seq<CharacterRange>>, i: nat,
                               glyphs: seq<PcfGlyph>, data: seq<bool>, replacement: Option<nat>)
    requires AllInI32(values)
  {
    i <= |values| &&
    Collected(values[..i], ranges) == Success((glyphs, data)) &&
    replacement == Replacement(Characters(Retained(values[..i], ranges)))
  }

  /** A glyph the macro does not keep changes nothing. */
  lemma IncludedSkip(values: seq<SourceGlyph>, ranges: Option<seq<CharacterRange>>, i: nat,
                     glyphs: seq<PcfGlyph>, data: seq<bool>, replacement: Option<nat>)
    requires AllInI32(values) && i < |values| && !Kept(values[i], ranges)
    requires IncludedUpTo(values, ranges, i, glyphs, data, replacement)
    ensures IncludedUpTo(values, ranges, i + 1, glyphs, data, replacement)
  {
    var prefix := values[..i + 1];
    assert prefix[..i] == values[..i] && prefix[i] == values[i];
    assert Retained(prefix, ranges) == Retained(values[..i], ranges);
    assert Collected(prefix, ranges) == Collected(values[..i], ranges);
  }

  /** A kept glyph appends its literal and its bits, and may become the replacement. */
  lemma IncludedKeep(values: seq<SourceGlyph>, ranges: Option<seq<CharacterRange>>, i: nat,
                     glyphs: seq<PcfGlyph>, data: seq<bool>, replacement: Option<nat>,
                     bits: seq<bool>, literal: PcfGlyph)
    requires AllInI32(values) && i < |values| && Kept(values[i], ranges)
    requires IncludedUpTo(values, ranges, i, glyphs, data, replacement)
    requires GlyphLiteralOf(values[i], |data|) == Success((bits, literal))
    ensures var c := values[i].encoding.value;
            IncludedUpTo(values, ranges, i + 1, glyphs + [literal], data + bits,
                         if c == REPLACEMENT_CHARACTER || (c == ' ' && replacement.None?) then Some(|glyphs|) else replacement)
  {
    var c := values[i].encoding.value;
    var prefix, before := values[..i + 1], values[..i];
    assert prefix[..i] == before && prefix[i] == values[i];
    var kept := Retained(before, ranges);
    assert Retained(prefix, ranges) == kept + [values[i]];
    assert Collected(prefix, ranges) == Success((glyphs + [literal], data + bits));
    CharactersAppend(kept, values[i]);
    ReplacementStep(Characters(kept), c);
  }

  /** The characters of one more glyph end with its character. */
  lemma CharactersAppend(gs: seq<SourceGlyph>, g: SourceGlyph)
    requires forall i :: 0 <= i < |gs| ==> gs[i].encoding.Some?
    requires g.encoding.Some?
    ensures Characters(gs + [g]) == Characters(gs) + [g.encoding.value]
  {
    assert forall i :: 0 <= i < |gs| ==> (gs + [g])[i] == gs[i];
  }

  /** A kept glyph whose literal fails stops the macro with that error. */
  lemma IncludedFail(values: seq<SourceGlyph>, ranges: Option<seq<CharacterRange>>, fontBox: PcfParser.BoundingBox, i: nat,
                     glyphs: seq<PcfGlyph>, data: seq<bool>, replacement: Option<nat>)
    requires AllInI32(values) && InI32(fontBox.size.y) && i < |values| && Kept(values[i], ranges)
    requires IncludedUpTo(values, ranges, i, glyphs, data, replacement)
    requires GlyphLiteralOf(values[i], |data|).Failure?
    ensures IncludedFont(values, ranges, fontBox) == Failure(GlyphLiteralOf(values[i], |data|).error)
  {
    CollectedKeptFails(values, ranges, i, glyphs, data);
    CollectedFails(values, ranges, i + 1);
    IncludedFontFails(values, ranges, fontBox);
  }

  /** The macro fails exactly with the error of the glyph collection when that fails. */
  lemma IncludedFontFails(values: seq<SourceGlyph>, ranges: Option<seq<CharacterRange>>, fontBox: PcfParser.BoundingBox)
    requires AllInI32(values) && InI32(fontBox.size.y)
    requires Collected(values, ranges).Failure?
    ensures IncludedFont(values, ranges, fontBox) == Failure(Collected(values, ranges).error)
  {
  }

  /** The prefix that ends in a kept glyph whose literal fails fails with that literal's error. */
  lemma CollectedKeptFails(values: seq<SourceGlyph>, ranges: Option<seq<CharacterRange>>, i: nat,
                           glyphs: seq<PcfGlyph>, data: seq<bool>)
    requires AllInI32(values) && i < |values| && Kept(values[i], ranges)
    requires Collected(values[..i], ranges) == Success((glyphs, data))
    requires GlyphLiteralOf(values[i], |data|).Failure?
    ensures Collected(values[..i + 1], ranges) == Failure(GlyphLiteralOf(values[i], |data|).error)
  {
    var prefix := values[..i + 1];
    assert prefix[..i] == values[..i] && prefix[i] == values[i];
  }

  /** After the last glyph, the literal is the one the loop's results make. */
  lemma IncludedDone(values: seq<SourceGlyph>, ranges: Option<seq<CharacterRange>>, fontBox: PcfParser.BoundingBox,
                     glyphs: seq<PcfGlyph>, data: seq<bool>, replacement: Option<nat>)
    requires AllInI32(values) && InI32(fontBox.size.y)
    requires IncludedUpTo(values, ranges, |values|, glyphs, data, replacement)
    ensures IncludedFont(values, ranges, fontBox) ==
            Success(FontLiteral(glyphs, BitsToBytes(data), AsU32(fontBox.size.y), replacement.GetOr(0)))
  {
    assert values[..|values|] == values;
  }

  /**
   * `include_pcf`: the loop over the font's glyphs, then the packing and the literal.
   * `values` are the glyphs in the order the font's map yields them, `fontBox` the font's
   * bounding box.
   */
  method IncludePcf(values: seq<SourceGlyph>, ranges: Option<seq<CharacterRange>>, fontBox: PcfParser.BoundingBox)
    returns (r: Result<FontLiteral, Error>)
    requires AllInI32(values) && InI32(fontBox.size.y)
    ensures r == IncludedFont(values, ranges, fontBox)
  {
    var data: seq<bool> := [];
    var glyphs: seq<PcfGlyph> := [];
    var replacement: Option<nat> := None;
    assert values[..0] == [];
    for i := 0 to |values|
      invariant IncludedUpTo(values, ranges, i, glyphs, data, replacement)
    {
      var glyph := values[i];
      if glyph.encoding.None? || !IncludeContains(ranges, glyph.encoding.value) {
        IncludedSkip(values, ranges, i, glyphs, data, replacement);
        continue;
      }
      var c := glyph.encoding.value;
      var literal := GlyphLiteral(glyph, |data|);
      if literal.Failure? {
        IncludedFail(values, ranges, fontBox, i, glyphs, data, replacement);
        return Failure(literal.error);
      }
      var (glyphData, glyphLiteral) := literal.value;
      IncludedKeep(values, ranges, i, glyphs, data, replacement, glyphData, glyphLiteral);
      if c == REPLACEMENT_CHARACTER || (c == ' ' && replacement.None?) {
        replacement := Some(|glyphs|);
      }
      glyphs := glyphs + [glyphLiteral];
      data := data + glyphData;
    }
    IncludedDone(values, ranges, fontBox, glyphs, data, replacement);
    return Success(FontLiteral(glyphs, BitsToBytes(data), AsU32(fontBox.size.y), replacement.GetOr(0)));
  }

  // What the literal holds

  /** The bits of glyphs laid end to end. */
  function AllBits(gs: seq<SourceGlyph>): (r: seq<bool>)
  {
    if |gs| == 0 then [] else AllBits(gs[..|gs| - 1]) + GlyphBits(gs[|gs| - 1])
  }

  /** A slice inside the first part of a concatenation is a slice of that part. */
  lemma SliceOfFront(a: seq<bool>, b: seq<bool>, start: nat, len: nat)
    requires start + len <= |a|
    ensures (a + b)[start..start + len] == a[start..start + len]
  {
  }

  /** The slice of a concatenation past its first part is its second part. */
  lemma SliceOfBack(a: seq<bool>, b: seq<bool>)
    ensures (a + b)[|a|..|a| + |b|] == b
  {
  }

  /** Glyph `i`'s bits sit in the laid-out bits right after those of the glyphs before it. */
  lemma {:induction false} AllBitsSlice(gs: seq<SourceGlyph>, i: nat)
    requires i < |gs|
    ensures var start := |AllBits(gs[..i])|;
            start + |GlyphBits(gs[i])| <= |AllBits(gs)| &&
            AllBits(gs)[start..start + |GlyphBits(gs[i])|] == GlyphBits(gs[i])
  {
    var n := |gs| - 1;
    var prefix, last := gs[..n], GlyphBits(gs[n]);
    assert AllBits(gs) == AllBits(prefix) + last;
    if i < n {
      assert prefix[..i] == gs[..i] && prefix[i] == gs[i];
      AllBitsSlice(prefix, i);
      var start, len := |AllBits(gs[..i])|, |GlyphBits(gs[i])|;
      SliceOfFront(AllBits(prefix), last, start, len);
      assert AllBits(gs)[start..start + len] == AllBits(prefix)[start..start + len];
    } else {
      assert gs[..i] == prefix;
      SliceOfBack(AllBits(prefix), last);
    }
  }

  /**
   * Literals and bits made from `kept`: one literal per glyph, the glyphs' bits end to end,
   * and literal `i` made from glyph `i` with its bits starting after those of the glyphs
   * before it.
   */
  ghost predicate MadeFrom(kept: seq<SourceGlyph>, glyphs: seq<PcfGlyph>, bits: seq<bool>)
    requires AllInI32(kept)
  {
    |glyphs| == |kept| &&
    bits == AllBits(kept) &&
    forall i :: 0 <= i < |kept| ==>
      GlyphLiteralOf(kept[i], |AllBits(kept[..i])|) == Success((GlyphBits(kept[i]), glyphs[i]))
  }

  /** Appending one more glyph's literal and bits keeps them made from the kept glyphs. */
  lemma MadeFromAppend(kept: seq<SourceGlyph>, glyphs: seq<PcfGlyph>, bits: seq<bool>,
                       g: SourceGlyph, glyphBits: seq<bool>, literal: PcfGlyph)
    requires AllInI32(kept) && GlyphInI32(g) && MadeFrom(kept, glyphs, bits)
    requires GlyphLiteralOf(g, |bits|) == Success((glyphBits, literal))
    ensures AllInI32(kept + [g]) && MadeFrom(kept + [g], glyphs + [literal], bits + glyphBits)
  {
    var more, moreGlyphs := kept + [g], glyphs + [literal];
    assert more[..|kept|] == kept;
    assert forall i :: 0 <= i < |kept| ==> more[i] == kept[i];
    assert AllBits(more) == bits + glyphBits;
    forall i | 0 <= i < |more|
      ensures GlyphLiteralOf(more[i], |AllBits(more[..i])|) == Success((GlyphBits(more[i]), moreGlyphs[i]))
    {
      if i < |kept| {
        assert more[..i] == kept[..i];
      }
    }
  }

  /** A glyph loop that succeeds has collected literals and bits made from the kept glyphs. */
  lemma {:induction false} CollectedShape(values: seq<SourceGlyph>, ranges: Option<seq<CharacterRange>>,
                                          glyphs: seq<PcfGlyph>, bits: seq<bool>)
    requires AllInI32(values)
    requires Collected(values, ranges) == Success((glyphs, bits))
    ensures MadeFrom(Retained(values, ranges), glyphs, bits)
  {
    if |values| > 0 {
      var n := |values| - 1;
      var before := Collected(values[..n], ranges).value;
      CollectedShape(values[..n], ranges, before.0, before.1);
      if Kept(values[n], ranges) {
        var literal := GlyphLiteralOf(values[n], |before.1|).value;
        MadeFromAppend(Retained(values[..n], ranges), before.0, before.1, values[n], literal.0, literal.1);
      }
    }
  }

  /**
   * Glyph `i` of a literal the macro produced: it is made from kept glyph `i`, its bits
   * start after those of the kept glyphs before it, and the literal's data packs the bits
   * of all kept glyphs.
   */
  lemma IncludedGlyph(values: seq<SourceGlyph>, ranges: Option<seq<CharacterRange>>, fontBox: PcfParser.BoundingBox,
                      font: FontLiteral, i: nat)
    requires AllInI32(values) && InI32(fontBox.size.y)
    requires IncludedFont(values, ranges, fontBox) == Success(font) && i < |font.glyphs|
    ensures var kept := Retained(values, ranges);
            i < |kept| &&
            font.data == BitsToBytes(AllBits(kept)) &&
            GlyphLiteralOf(kept[i], |AllBits(kept[..i])|) == Success((GlyphBits(kept[i]), font.glyphs[i]))
  {
    var collected := Collected(values, ranges).value;
    CollectedShape(values, ranges, collected.0, collected.1);
    assert collected.0 == font.glyphs;
  }

  /**
   * Unpacked data that begins with `bits`, skipped to `start` where a glyph's bits lie, draws
   * exactly those bits, as long as the glyph has one point per bit.
   */
  lemma DrawFromPacked(unpacked: seq<bool>, bits: seq<bool>, start: nat, glyphBits: seq<bool>, points: seq<Point>)
    requires |bits| <= |unpacked| && unpacked[..|bits|] == bits
    requires start + |glyphBits| <= |bits| && bits[start..start + |glyphBits|] == glyphBits
    requires |points| == |glyphBits|
    ensures Paired(points, Skip(unpacked, start)) == Paired(points, glyphBits)
  {
    var rest := unpacked[start..];
    assert Skip(unpacked, start) == rest;
    SkipPrefix(unpacked, bits, start, |glyphBits|);
    assert rest[..|points|] == glyphBits;
    PairedPrefix(points, rest);
  }

  /**
   * Drawing glyph `i` of the literal with the literal's data draws exactly the pixels of
   * kept glyph `i`: its bits start where `start_index` says, and no bit of another glyph
   * is read.
   */
  lemma DrawIncludedGlyph(values: seq<SourceGlyph>, ranges: Option<seq<CharacterRange>>, fontBox: PcfParser.BoundingBox,
                          font: FontLiteral, i: nat, position: Point)
    requires AllInI32(values) && InI32(fontBox.size.y)
    requires IncludedFont(values, ranges, fontBox) == Success(font) && i < |font.glyphs|
    ensures var kept := Retained(values, ranges);
            i < |kept| && LoopsFinish(kept[i].boundingBox) &&
            var points := Points(Translate(font.glyphs[i].boundingBox, position));
            Paired(points, Skip(DataBits(font.data), font.glyphs[i].startIndex)) == Paired(points, GlyphBits(kept[i]))
  {
    IncludedGlyph(values, ranges, fontBox, font, i);
    DrawKeptGlyph(Retained(values, ranges), font.data, font.glyphs[i], i, position);
  }

  /** Glyph `i` of the kept glyphs, drawn from the packed bits of all of them, draws its own bits. */
  lemma DrawKeptGlyph(kept: seq<SourceGlyph>, data: seq<Byte>, literal: PcfGlyph, i: nat, position: Point)
    requires i < |kept| && GlyphInI32(kept[i]) && data == BitsToBytes(AllBits(kept))
    requires GlyphLiteralOf(kept[i], |AllBits(kept[..i])|) == Success((GlyphBits(kept[i]), literal))
    ensures var points := Points(Translate(literal.boundingBox, position));
            Paired(points, Skip(DataBits(data), literal.startIndex)) == Paired(points, GlyphBits(kept[i]))
  {
    LiteralPoints(kept[i], |AllBits(kept[..i])|, position);
    DrawFromAll(kept, i, Points(Translate(literal.boundingBox, position)));
  }

  /** Points as many as glyph `i`'s bits, paired with the packed bits from where glyph `i`'s start, meet its bits. */
  lemma DrawFromAll(kept: seq<SourceGlyph>, i: nat, points: seq<Point>)
    requires i < |kept| && |points| == |GlyphBits(kept[i])|
    ensures Paired(points, Skip(DataBits(BitsToBytes(AllBits(kept))), |AllBits(kept[..i])|)) == Paired(points, GlyphBits(kept[i]))
  {
    var bits := AllBits(kept);
    PackedPrefix(bits);
    AllBitsSlice(kept, i);
    DrawFromPacked(DataBits(BitsToBytes(bits)), bits, |AllBits(kept[..i])|, GlyphBits(kept[i]), points);
  }

  /** Unpacking the packed bits gives them back as a prefix. */
  lemma PackedPrefix(bits: seq<bool>)
    ensures |bits| <= |DataBits(BitsToBytes(bits))| && DataBits(BitsToBytes(bits))[..|bits|] == bits
  {
    BitsRoundTrip(bits);
  }

  /** A glyph literal's rectangle, wherever it is drawn, has one point per bit of the glyph. */
  lemma LiteralPoints(g: SourceGlyph, start: nat, position: Point)
    requires GlyphInI32(g) && GlyphLiteralOf(g, start).Success?
    ensures var (bits, literal) := GlyphLiteralOf(g, start).value;
            |Points(Translate(literal.boundingBox, position))| == |bits|
  {
    GlyphBitsCount(g);
    PointsCount(Translate(GlyphLiteralOf(g, start).value.1.boundingBox, position));
  }

  /** Unpacked data that begins with `bits`, read from `start` on, reads on in `bits`. */
  lemma SkipPrefix(unpacked: seq<bool>, bits: seq<bool>, start: nat, n: nat)
    requires |bits| <= |unpacked| && unpacked[..|bits|] == bits && start + n <= |bits|
    ensures unpacked[start..][..n] == bits[start..start + n]
  {
    forall j | 0 <= j < n
      ensures unpacked[start..][..n][j] == bits[start..start + n][j]
    {
      assert unpacked[..|bits|][start + j] == unpacked[start + j];
    }
  }

  /**
   * The points `Paired` draws for a glyph are its set pixels `(x, y)`, moved by the
   * glyph's rectangle corner and the drawing position.
   */
  lemma DrawnPixels(g: SourceGlyph, position: Point, p: Point)
    requires GlyphInI32(g) && LoopsFinish(g.boundingBox) && BoundingBoxToRectangle(g.boundingBox).Success?
    ensures var rect := Translate(BoundingBoxToRectangle(g.boundingBox).value, position);
            p in Paired(Points(rect), GlyphBits(g)) <==>
            exists x: nat, y: nat :: x < g.boundingBox.size.x && y < g.boundingBox.size.y && g.pixel(x, y) &&
                                    p == Point(rect.topLeft.x + x, rect.topLeft.y + y)
  {
    var rect := Translate(BoundingBoxToRectangle(g.boundingBox).value, position);
    PairedMembers(Points(rect), GlyphBits(g), p);
    if p in Paired(Points(rect), GlyphBits(g)) {
      DrawnIsPixel(g, rect, p);
    }
    if exists x: nat, y: nat :: x < g.boundingBox.size.x && y < g.boundingBox.size.y && g.pixel(x, y) &&
                                p == Point(rect.topLeft.x + x, rect.topLeft.y + y) {
      var x: nat, y: nat :| x < g.boundingBox.size.x && y < g.boundingBox.size.y && g.pixel(x, y) &&
                            p == Point(rect.topLeft.x + x, rect.topLeft.y + y);
      PixelIsDrawn(g, rect, x, y);
    }
  }

  /** A point paired with a set bit is a set pixel of the glyph, moved by the rectangle's corner. */
  lemma DrawnIsPixel(g: SourceGlyph, rect: Rectangle, p: Point)
    requires GlyphInI32(g) && LoopsFinish(g.boundingBox) && BoundingBoxToRectangle(g.boundingBox).Success?
    requires rect.size == BoundingBoxToRectangle(g.boundingBox).value.size
    requires exists k :: 0 <= k < |Points(rect)| && k < |GlyphBits(g)| && GlyphBits(g)[k] && Points(rect)[k] == p
    ensures exists x: nat, y: nat :: x < g.boundingBox.size.x && y < g.boundingBox.size.y && g.pixel(x, y) &&
                                    p == Point(rect.topLeft.x + x, rect.topLeft.y + y)
  {
    var points, bits := Points(rect), GlyphBits(g);
    var k :| 0 <= k < |points| && k < |bits| && bits[k] && points[k] == p;
    GlyphBitsCount(g);
    var x, y := Unflatten(g.boundingBox.size.x, g.boundingBox.size.y, k);
    GlyphBitsAt(g, x, y);
    PointAt(rect, x, y);
  }

  /** A set pixel `(x, y)` of the glyph is paired with a set bit at its point of the rectangle. */
  lemma PixelIsDrawn(g: SourceGlyph, rect: Rectangle, x: nat, y: nat)
    requires GlyphInI32(g) && LoopsFinish(g.boundingBox) && BoundingBoxToRectangle(g.boundingBox).Success?
    requires rect.size == BoundingBoxToRectangle(g.boundingBox).value.size
    requires x < g.boundingBox.size.x && y < g.boundingBox.size.y && g.pixel(x, y)
    ensures exists k :: 0 <= k < |Points(rect)| && k < |GlyphBits(g)| && GlyphBits(g)[k] &&
                        Points(rect)[k] == Point(rect.topLeft.x + x, rect.topLeft.y + y)
  {
    var w := g.boundingBox.size.x;
    assert rect.size.width == w by {
      RectangleSize(g);
    }
    var k := y * w + x;
    GlyphBitsAt(g, x, y);
    PointAt(rect, x, y);
    assert k < |Points(rect)| && k < |GlyphBits(g)| && GlyphBits(g)[k] &&
           Points(rect)[k] == Point(rect.topLeft.x + x, rect.topLeft.y + y);
  }

  /** A glyph with rows has a rectangle of its own width and height. */
  lemma RectangleSize(g: SourceGlyph)
    requires GlyphInI32(g) && LoopsFinish(g.boundingBox) && BoundingBoxToRectangle(g.boundingBox).Success?
    requires g.boundingBox.size.y > 0
    ensures BoundingBoxToRectangle(g.boundingBox).value.size == Size(g.boundingBox.size.x, g.boundingBox.size.y)
  {
  }
}

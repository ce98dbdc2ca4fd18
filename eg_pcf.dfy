/**
 * The runtime side of the embedded font (`eg-pcf`): a font is a table of glyphs and one
 * packed bit string holding every glyph's pixels. A glyph is found by a linear search on
 * its character, falling back to the replacement glyph, and is drawn by pairing the points
 * of its box, row by row, with the bits that start at the glyph's `start_index`.
 */
module EgPcf {
  import opened Wrappers
  import opened Bytes
  import opened Graphics

  /** `PcfGlyph`: the character, the box its pixels fill, the advance, and where its bits start. */
  datatype PcfGlyph = PcfGlyph(character: char, boundingBox: Rectangle, deviceWidth: nat, startIndex: nat)

  /** `PcfFont`: the glyph table, the packed pixel bits, and the index of the replacement glyph. */
  datatype PcfFont = PcfFont(
    boundingBox: Rectangle,
    replacementCharacter: nat,
    lineHeight: nat,
    glyphs: seq<PcfGlyph>,
    data: seq<Byte>)

  /** The glyphs for `c`, by position. */
  predicate HasGlyph(glyphs: seq<PcfGlyph>, c: char) {
    exists i :: 0 <= i < |glyphs| && glyphs[i].character == c
  }

  /** `glyphs.iter().find(|g| g.character == c)`, as the position of the glyph it finds. */
  function FindGlyph(glyphs: seq<PcfGlyph>, c: char): (r: Option<nat>)
    ensures r.None? <==> !HasGlyph(glyphs, c)
    ensures r.Some? ==> r.value < |glyphs| && glyphs[r.value].character == c &&
                        forall j :: 0 <= j < r.value ==> glyphs[j].character != c
  {
    if |glyphs| == 0 then None
    else if glyphs[0].character == c then Some(0)
    else
      match FindGlyph(glyphs[1..], c)
      case None =>
        assert forall i :: 1 <= i < |glyphs| ==> glyphs[i] == glyphs[1..][i - 1];
        None
      case Some(i) => Some(i + 1)
  }

  /**
   * `PcfFont::get_glyph`: the first glyph for `c`, otherwise the replacement glyph; `None`
   * is the index panic when the replacement index is past the end of the table.
   */
  function GetGlyph(font: PcfFont, c: char): (r: Option<PcfGlyph>)
    ensures r.None? <==> !HasGlyph(font.glyphs, c) && font.replacementCharacter >= |font.glyphs|
  {
    match FindGlyph(font.glyphs, c)
    case Some(i) => Some(font.glyphs[i])
    case None =>
      if font.replacementCharacter < |font.glyphs| then Some(font.glyphs[font.replacementCharacter]) else None
  }

  /** The glyph found for `c` is the first one in table order whose character is `c`. */
  lemma GetGlyphFirst(font: PcfFont, c: char, i: nat)
    requires i < |font.glyphs| && font.glyphs[i].character == c
    requires forall j :: 0 <= j < i ==> font.glyphs[j].character != c
    ensures GetGlyph(font, c) == Some(font.glyphs[i])
  {
  }

  /** Without a glyph for `c` the replacement glyph is drawn, and the lookup never fails while the index is in range. */
  lemma GetGlyphFallback(font: PcfFont, c: char)
    requires font.replacementCharacter < |font.glyphs|
    ensures GetGlyph(font, c).Some?
    ensures !HasGlyph(font.glyphs, c) ==> GetGlyph(font, c) == Some(font.glyphs[font.replacementCharacter])
  {
  }

  /** A glyph whose character no other glyph shares is found again by its own character. */
  lemma GetGlyphRoundTrip(font: PcfFont, i: nat)
    requires i < |font.glyphs|
    requires forall j :: 0 <= j < |font.glyphs| && font.glyphs[j].character == font.glyphs[i].character ==> j == i
    ensures GetGlyph(font, font.glyphs[i].character) == Some(font.glyphs[i])
  {
    GetGlyphFirst(font, font.glyphs[i].character, i);
  }

  /**
   * Bit `n` of the packed data as a one-bit-per-pixel iterator yields it: the bits of each
   * byte from the most significant down (the byte order parameter plays no part at one bit
   * per pixel).
   */
  predicate DataBit(data: seq<Byte>, n: nat)
    requires n < 8 * |data|
  {
    TestBit(data[n / 8], 7 - n % 8)
  }

  /** Every bit of the packed data, in iteration order. */
  function DataBits(data: seq<Byte>): (r: seq<bool>)
    ensures |r| == 8 * |data|
  {
    seq(8 * |data|, n requires 0 <= n < 8 * |data| => DataBit(data, n))
  }

  /**
   * What is left of an iterator over `bits` after `nth(n - 1)` (nothing is skipped when
   * `n` is 0): the bits from `n` on, or none when there are fewer than `n`.
   */
  function Skip(bits: seq<bool>, n: nat): (r: seq<bool>)
    ensures n <= |bits| ==> |r| == |bits| - n && forall i :: 0 <= i < |r| ==> r[i] == bits[n + i]
    ensures n > |bits| ==> r == []
  {
    if n <= |bits| then bits[n..] else []
  }

  /**
   * `points.zip(bits).filter(bit is 1).map(point)`: walking both in step until either
   * runs out, the points whose paired bit is set, in order.
   */
  function Paired(points: seq<Point>, bits: seq<bool>): (r: seq<Point>)
    ensures |r| <= |points|
  {
    if |points| == 0 || |bits| == 0 then []
    else (if bits[0] then [points[0]] else []) + Paired(points[1..], bits[1..])
  }

  /** Pairing splits over concatenation when the first parts have the same length. */
  lemma {:induction false} PairedAppend(p1: seq<Point>, b1: seq<bool>, p2: seq<Point>, b2: seq<bool>)
    requires |p1| == |b1|
    ensures Paired(p1 + p2, b1 + b2) == Paired(p1, b1) + Paired(p2, b2)
  {
    if |p1| > 0 {
      assert (p1 + p2)[1..] == p1[1..] + p2;
      assert (b1 + b2)[1..] == b1[1..] + b2;
      PairedAppend(p1[1..], b1[1..], p2, b2);
    } else {
      assert p1 + p2 == p2 && b1 + b2 == b2;
    }
  }

  /** Bits past the last point are never read. */
  lemma {:induction false} PairedPrefix(points: seq<Point>, bits: seq<bool>)
    requires |points| <= |bits|
    ensures Paired(points, bits) == Paired(points, bits[..|points|])
  {
    if |points| > 0 {
      assert bits[..|points|][1..] == bits[1..][..|points| - 1];
      PairedPrefix(points[1..], bits[1..]);
    }
  }

  /** A point is drawn exactly when some position pairs it with a set bit. */
  lemma {:induction false} PairedMembers(points: seq<Point>, bits: seq<bool>, p: Point)
    ensures p in Paired(points, bits) <==>
            exists k :: 0 <= k < |points| && k < |bits| && bits[k] && points[k] == p
  {
    if |points| > 0 && |bits| > 0 {
      PairedMembers(points[1..], bits[1..], p);
      if p in Paired(points[1..], bits[1..]) {
        var k :| 0 <= k < |points| - 1 && k < |bits| - 1 && bits[1..][k] && points[1..][k] == p;
        assert bits[k + 1] && points[k + 1] == p;
      }
      if exists k :: 0 <= k < |points| && k < |bits| && bits[k] && points[k] == p {
        var k :| 0 <= k < |points| && k < |bits| && bits[k] && points[k] == p;
        if k > 0 {
          assert bits[1..][k - 1] && points[1..][k - 1] == p;
        }
      }
    }
  }

  /**
   * `PcfGlyph::draw`: skips `start_index` bits of the data, then walks the glyph's box moved
   * to `position` row by row, pairing each point with the next bit; the result is the
   * points handed to the draw target, in order (the colour is the same for every one).
   */
  method Draw(glyph: PcfGlyph, position: Point, data: seq<Byte>) returns (drawn: seq<Point>)
    ensures drawn == Paired(Points(Translate(glyph.boundingBox, position)), Skip(DataBits(data), glyph.startIndex))
  {
    var bits := DataBits(data);
    var rest := bits;
    if glyph.startIndex > 0 {
      rest := if glyph.startIndex <= |bits| then bits[glyph.startIndex..] else [];
    }
    assert rest == Skip(bits, glyph.startIndex);
    drawn := Walk(Points(Translate(glyph.boundingBox, position)), rest);
  }

  /** The zip-and-filter walk: each point meets the next bit, and the points with a set bit are kept, in order. */
  method Walk(points: seq<Point>, bits: seq<bool>) returns (drawn: seq<Point>)
    ensures drawn == Paired(points, bits)
  {
    drawn := [];
    var k := 0;
    assert points[0..] == points && bits[0..] == bits;
    while k < |points| && k < |bits|
      invariant k <= |points| && k <= |bits|
      invariant drawn + Paired(points[k..], bits[k..]) == Paired(points, bits)
      decreases |points| - k
    {
      DrawStep(points, bits, k, drawn, Paired(points, bits));
      if bits[k] {
        drawn := drawn + [points[k]];
      }
      k := k + 1;
    }
  }

  /** One step of the walk keeps what is drawn plus what is left to pair equal to the whole drawing. */
  lemma DrawStep(points: seq<Point>, bits: seq<bool>, k: nat, drawn: seq<Point>, whole: seq<Point>)
    requires k < |points| && k < |bits|
    requires drawn + Paired(points[k..], bits[k..]) == whole
    ensures (if bits[k] then drawn + [points[k]] else drawn) + Paired(points[k + 1..], bits[k + 1..]) == whole
  {
    PairedStep(points, bits, k);
    var rest := Paired(points[k + 1..], bits[k + 1..]);
    if bits[k] {
      assert (drawn + [points[k]]) + rest == drawn + ([points[k]] + rest);
    } else {
      assert [] + rest == rest;
    }
  }

  /** One step of the walk: the point at `k` meets the bit at `next`. */
  lemma PairedStep(points: seq<Point>, bits: seq<bool>, k: nat)
    requires k < |points| && k < |bits|
    ensures Paired(points[k..], bits[k..]) ==
            (if bits[k] then [points[k]] else []) + Paired(points[k + 1..], bits[k + 1..])
  {
    assert points[k..][1..] == points[k + 1..] && bits[k..][1..] == bits[k + 1..];
  }
}

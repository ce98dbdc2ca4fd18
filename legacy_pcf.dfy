/**
 * The older copy of the decoder (`src/lib/pcf.rs`): `Pcf::new` reads the table directory
 * into the `tables` field in a cursor loop, with every directory word read as a
 * little-endian u32, then reads the accelerators and the encoding. `header`,
 * `table_count` and `bitmap_format` are `PcfLayout.Header`, `PcfLayout.TableCount` and
 * `PcfLayout.BitmapFormat` on the font's bytes and tables.
 */
module LegacyPcf {
  import opened Wrappers
  import opened Bytes
  import opened PcfLayout

  /** What `Pcf::new` of the older copy decodes: the u32 directory, then the accelerators and the encoding. */
  function Decode(font: seq<Byte>): Result<(map<int, Table>, Accelerators, Encoding), Error> {
    var tables :- DirectoryOf(font, Unsigned);
    var accelerators :- AcceleratorsOf(font, tables);
    var encoding :- EncodingOf(font, tables);
    Success((tables, accelerators, encoding))
  }

  /**
   * The older copy reads the accelerators' and the encoding's format words as u32 where
   * `AcceleratorsAt` and `EncodingAt` read i32; both have the same bit pattern, so every
   * mask test decides alike.
   */
  lemma FormatWordAsU32(s: seq<Byte>, off: int, mask: int)
    requires InBounds(s, off, 4)
    ensures And32(U32LE(s, off), mask) == And32(I32LE(s, off), mask)
  {
    BitsOfI32(U32LE(s, off));
    assert U32LE(s, off) % U32_LIMIT == U32LE(s, off);
  }

  class Pcf {
    const bytes: seq<Byte>
    var tables: map<int, Table>
    var accelerators: Accelerators
    var encoding: Encoding

    /** The decoded fields are those the bytes decode to. */
    ghost predicate Valid()
      reads this
    {
      Decode(bytes) == Success((tables, accelerators, encoding))
    }

    /** The struct literal at the head of `Pcf::new`: the bytes, an empty directory, default headers. */
    constructor Blank(font: seq<Byte>)
      ensures bytes == font && tables == map[]
      ensures accelerators == Accelerators(0, 0, 0, 0, 0, 0, 0, 0, 0, 0, 0,
                                           Metrics(0, 0, 0, 0, 0, 0), Metrics(0, 0, 0, 0, 0, 0),
                                           Metrics(0, 0, 0, 0, 0, 0), Metrics(0, 0, 0, 0, 0, 0))
      ensures encoding == Encoding(0, 0, 0, 0, 0)
    {
      bytes := font;
      tables := map[];
      var none := Metrics(0, 0, 0, 0, 0, 0);
      accelerators := Accelerators(0, 0, 0, 0, 0, 0, 0, 0, 0, 0, 0, none, none, none, none);
      encoding := Encoding(0, 0, 0, 0, 0);
    }

    /**
     * `Pcf::new`: the directory loop, then `read_accelerators` and `read_encoding`; the first
     * panic decides the error.
     */
    static method New(font: seq<Byte>) returns (r: Result<Pcf, Error>)
      ensures r.Success? <==> Decode(font).Success?
      ensures r.Failure? ==> Decode(font) == Failure(r.error)
      ensures r.Success? ==> fresh(r.value) && r.value.bytes == font && r.value.Valid()
    {
      var pcf := new Pcf.Blank(font);
      var read := pcf.ReadDirectory();
      if read.Fail? {
        return Failure(read.error);
      }
      var accelerators :- ReadAccelerators(font, pcf.tables);
      var encoding :- ReadEncoding(font, pcf.tables);
      pcf.accelerators := accelerators;
      pcf.encoding := encoding;
      return Success(pcf);
    }

    /**
     * The loop of `Pcf::new`: `table_count` records, record `i` at `8 + 16 * i`, each
     * inserted into `tables` under its type, so a later record of a type replaces an
     * earlier one.
     */
    method ReadDirectory() returns (r: Outcome<Error>)
      requires tables == map[]
      modifies this`tables
      ensures r.Pass? <==> DirectoryOf(bytes, Unsigned).Success?
      ensures r.Fail? ==> DirectoryOf(bytes, Unsigned) == Failure(r.error)
      ensures r.Pass? ==> tables == DirectoryOf(bytes, Unsigned).value
    {
      if |bytes| < 8 {
        return Fail(OutOfBounds);
      }
      var count := I32LE(bytes, 4);
      var cursor := 8;
      for i := 0 to Records(count)
        invariant cursor == RecordOffset(i) && cursor <= |bytes|
        invariant tables == DirectoryPrefix(bytes, i, Unsigned)
      {
        if cursor + 16 > |bytes| {
          return Fail(OutOfBounds);
        }
        var recordType := U32LE(bytes, cursor);
        var table := Table(U32LE(bytes, cursor + 4), U32LE(bytes, cursor + 8), U32LE(bytes, cursor + 12));
        tables := tables[recordType := table];
        cursor := cursor + 16;
      }
      return Pass;
    }

    /** A decoded font holds at most `table_count` tables (none when the count is negative). */
    lemma TablesWithinCount()
      requires Valid()
      ensures |bytes| >= 8 && |tables| <= Records(I32LE(bytes, 4))
    {
      DirectorySize(bytes, Records(I32LE(bytes, 4)), Unsigned);
    }

    /**
     * On a decoded font, `bitmap_format` panics exactly when no directory record has type 8,
     * and is otherwise the format of the last record of type 8.
     */
    lemma BitmapFormatOfFont()
      requires Valid()
      ensures var n := Records(I32LE(bytes, 4));
              RecordOffset(n) <= |bytes| &&
              ((forall i :: 0 <= i < n ==> RecordType(bytes, i, Unsigned) != PCF_BITMAPS)
                <==> BitmapFormat(tables) == Failure(MissingTable(PCF_BITMAPS))) &&
              forall i :: (0 <= i < n && RecordType(bytes, i, Unsigned) == PCF_BITMAPS &&
                           (forall j :: i < j < n ==> RecordType(bytes, j, Unsigned) != PCF_BITMAPS))
                          ==> BitmapFormat(tables) == Success(RecordTable(bytes, i, Unsigned).format)
    {
      BitmapFormatOfDirectory(bytes, Records(I32LE(bytes, 4)), Unsigned);
    }
  }
}

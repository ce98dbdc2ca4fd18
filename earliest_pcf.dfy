/**
 * The earliest copy of the decoder (`src/lib/lib.rs`): `Pcf::new` only reads the table
 * directory into the `tables` field, every directory word a little-endian i32. `header`,
 * `table_count` and `bitmap_format` are `PcfLayout.Header`, `PcfLayout.TableCount` and
 * `PcfLayout.BitmapFormat` on the font's bytes and tables.
 */
module EarliestPcf {
  import opened Wrappers
  import opened Bytes
  import opened PcfLayout

  class Pcf {
    const bytes: seq<Byte>
    var tables: map<int, Table>

    /** The directory is the one the bytes decode to. */
    ghost predicate Valid()
      reads this
    {
      DirectoryOf(bytes, Signed) == Success(tables)
    }

    /** The struct literal at the head of `Pcf::new`: the bytes and an empty directory. */
    constructor Blank(font: seq<Byte>)
      ensures bytes == font && tables == map[]
    {
      bytes := font;
      tables := map[];
    }

    /** `Pcf::new`: the directory loop; a record past the end of the bytes panics. */
    static method New(font: seq<Byte>) returns (r: Result<Pcf, Error>)
      ensures r.Success? <==> DirectoryOf(font, Signed).Success?
      ensures r.Failure? ==> DirectoryOf(font, Signed) == Failure(r.error)
      ensures r.Success? ==> fresh(r.value) && r.value.bytes == font && r.value.Valid()
    {
      var pcf := new Pcf.Blank(font);
      var read := pcf.ReadDirectory();
      if read.Fail? {
        return Failure(read.error);
      }
      return Success(pcf);
    }

    /**
     * The loop of `Pcf::new`: `table_count` records, record `i` at `8 + 16 * i`, each
     * inserted into `tables` under its type, so a later record of a type replaces an
     * earlier one.
     */
    method ReadDirectory() returns (r: Outcome<Error>)
      requires tables == map[]
      modifies this`tables
      ensures r.Pass? <==> DirectoryOf(bytes, Signed).Success?
      ensures r.Fail? ==> DirectoryOf(bytes, Signed) == Failure(r.error)
      ensures r.Pass? ==> tables == DirectoryOf(bytes, Signed).value
    {
      if |bytes| < 8 {
        return Fail(OutOfBounds);
      }
      var count := I32LE(bytes, 4);
      var cursor := 8;
      for i := 0 to Records(count)
        invariant cursor == RecordOffset(i) && cursor <= |bytes|
        invariant tables == DirectoryPrefix(bytes, i, Signed)
      {
        if cursor + 16 > |bytes| {
          return Fail(OutOfBounds);
        }
        var recordType := I32LE(bytes, cursor);
        var table := Table(I32LE(bytes, cursor + 4), I32LE(bytes, cursor + 8), I32LE(bytes, cursor + 12));
        tables := tables[recordType := table];
        cursor := cursor + 16;
      }
      return Pass;
    }

    /**
     * A decoded font holds at most `table_count` tables, because a record of a type already
     * present replaces the earlier one; with distinct types it holds exactly that many.
     */
    lemma TablesWithinCount()
      requires Valid()
      ensures |bytes| >= 8
      ensures var n := Records(I32LE(bytes, 4));
              RecordOffset(n) <= |bytes| && |tables| <= n &&
              ((forall i, j :: 0 <= i < j < n ==> RecordType(bytes, i, Signed) != RecordType(bytes, j, Signed))
                 ==> |tables| == n)
    {
      DirectorySize(bytes, Records(I32LE(bytes, 4)), Signed);
    }

    /**
     * On a decoded font, `bitmap_format` panics exactly when no directory record has type 8,
     * and is otherwise the format of the last record of type 8.
     */
    lemma BitmapFormatOfFont()
      requires Valid()
      ensures var n := Records(I32LE(bytes, 4));
              RecordOffset(n) <= |bytes| &&
              ((forall i :: 0 <= i < n ==> RecordType(bytes, i, Signed) != PCF_BITMAPS)
                <==> BitmapFormat(tables) == Failure(MissingTable(PCF_BITMAPS))) &&
              forall i :: (0 <= i < n && RecordType(bytes, i, Signed) == PCF_BITMAPS &&
                           (forall j :: i < j < n ==> RecordType(bytes, j, Signed) != PCF_BITMAPS))
                          ==> BitmapFormat(tables) == Success(RecordTable(bytes, i, Signed).format)
    {
      BitmapFormatOfDirectory(bytes, Records(I32LE(bytes, 4)), Signed);
    }
  }
}

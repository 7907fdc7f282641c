/** The ZIP index: ZIP-table rows grouped by their zipcode. */
module ZipCodes {
  import opened Records
  import opened Grouping

  /** The key the ZIP table is grouped by. */
  function ZipcodeOf(row: ZipRow): string
  {
    row.zipcode
  }

  /** Groups the ZIP table by zipcode; the keys are exactly the zipcodes
      the table mentions. */
  function Load(rows: seq<ZipRow>): (index: map<string, seq<ZipRow>>)
    ensures forall z :: z in index <==> exists row :: row in rows && row.zipcode == z
  {
    var index := GroupBy(rows, ZipcodeOf);
    assert forall z :: z in index <==> exists i :: 0 <= i < |rows| && ZipcodeOf(rows[i]) == z;
    index
  }

  /** The ZIP rows of one zipcode, or none when the zipcode is unknown. */
  function GetByZipcode(index: map<string, seq<ZipRow>>, zipcode: string): seq<ZipRow>
  {
    Lookup(index, zipcode)
  }

  /** The rows of zipcode `z` in input order: the reference meaning of a lookup. */
  function RowsOf(rows: seq<ZipRow>, z: string): seq<ZipRow>
  {
    Select(rows, ZipcodeOf, z)
  }

  /** After loading, a lookup returns exactly the table's rows with that
      zipcode, in input order, and the empty list for an unknown zipcode. */
  lemma GetByZipcodeAfterLoad(rows: seq<ZipRow>, z: string)
    ensures GetByZipcode(Load(rows), z) == RowsOf(rows, z)
    ensures forall row :: row in GetByZipcode(Load(rows), z) <==> row in rows && row.zipcode == z
    ensures GetByZipcode(Load(rows), z) == [] <==> forall row :: row in rows ==> row.zipcode != z
  {
    LookupGroupBy(rows, ZipcodeOf, z);
  }
}

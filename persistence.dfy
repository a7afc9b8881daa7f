/**
 * The inventory file at the level of CSV rows: each row a list of text
 * fields. Saving writes `name, category, quantity, barcode, YYYY-MM-DD`
 * per item; loading parses rows in file order and stops at the first row
 * that fails to parse.
 */
module Persistence {
  import opened Common
  import opened Text
  import opened Dates
  import opened FoodItems

  /** One CSV row: its fields, as the CSV reader returns them. */
  type Row = seq<string>

  /** Why a row does not make an item (each is a ValueError in the source). */
  datatype RowError =
    | WrongFieldCount(count: nat)
    | BadQuantity(text: string)
    | BadExpiryDate(text: string)

  /** Where a load stopped: the index of the row and why. */
  datatype RowFailure = RowFailure(index: nat, error: RowError)

  /** The records a load appends, and the row it stopped at, if any. */
  datatype LoadedRows = LoadedRows(records: seq<FoodRecord>, failure: Option<RowFailure>)

  /** The row `writerow` is given for one item. */
  function FormatRow(r: FoodRecord): (row: Row)
    ensures |row| == 5
  {
    [r.name, r.category, IntToString(r.quantity), r.barcode, FormatDate(r.expiryDate)]
  }

  /**
   * One iteration of the load loop: unpack five fields, `int` the
   * quantity, `strptime` the expiry.
   */
  function ParseRow(row: Row): (r: Result<FoodRecord, RowError>)
    ensures |row| != 5 ==> r == Failure(WrongFieldCount(|row|))
    ensures r.Success? ==> r.value.name == row[0] && r.value.category == row[1] && r.value.barcode == row[3]
  {
    if |row| != 5 then Failure(WrongFieldCount(|row|))
    else match ParseInt(row[2])
      case None => Failure(BadQuantity(row[2]))
      case Some(q) =>
        match ParseDate(row[4])
        case None => Failure(BadExpiryDate(row[4]))
        case Some(d) => Success(FoodRecord(row[0], row[1], q, row[3], d))
  }

  /** Every row parses back to the record it was written from. */
  lemma ParseFormatRow(r: FoodRecord)
    ensures ParseRow(FormatRow(r)) == Success(r)
  {
    ParseIntOfIntToString(r.quantity);
    ParseFormatDate(r.expiryDate);
  }

  /** The file `save_inventory` writes: one row per record, in order. */
  function SaveRows(records: seq<FoodRecord>): (rows: seq<Row>)
    ensures |rows| == |records|
    ensures forall i :: 0 <= i < |records| ==> rows[i] == FormatRow(records[i])
  {
    seq(|records|, i requires 0 <= i < |records| => FormatRow(records[i]))
  }

  /**
   * What `load_inventory` appends for a file of `rows`: the records of the
   * rows before the first row that fails to parse, and that failure.
   */
  function LoadRows(rows: seq<Row>): (r: LoadedRows)
    ensures r.failure.None? ==> |r.records| == |rows|
    ensures r.failure.Some? ==>
      var f := r.failure.value;
      f.index < |rows| && |r.records| == f.index && ParseRow(rows[f.index]) == Failure(f.error)
    ensures forall i :: 0 <= i < |r.records| ==> ParseRow(rows[i]) == Success(r.records[i])
  {
    if rows == [] then LoadedRows([], None)
    else
      match ParseRow(rows[0])
      case Failure(e) => LoadedRows([], Some(RowFailure(0, e)))
      case Success(rec) =>
        var rest := LoadRows(rows[1..]);
        LoadedRows([rec] + rest.records,
                   match rest.failure
                   case None => None
                   case Some(f) => Some(RowFailure(f.index + 1, f.error)))
  }

  /** Rows written by a save load back as the same records in the same order, with no failure. */
  lemma {:induction false} LoadSavedRows(records: seq<FoodRecord>)
    ensures LoadRows(SaveRows(records)) == LoadedRows(records, None)
  {
    if records != [] {
      ParseFormatRow(records[0]);
      LoadSavedRows(records[1..]);
      assert SaveRows(records)[1..] == SaveRows(records[1..]);
    }
  }

  /** Saving what was loaded from a save writes the same rows again. */
  lemma SaveLoadSaveRows(records: seq<FoodRecord>)
    ensures SaveRows(LoadRows(SaveRows(records)).records) == SaveRows(records)
  {
    LoadSavedRows(records);
  }

  /** The records of a run of parsed rows extend by the record of the next row that parses. */
  lemma ParsedPrefixGrows(rows: seq<Row>, parsed: seq<FoodRecord>, i: nat, rec: FoodRecord)
    requires |parsed| == i < |rows|
    requires forall j :: 0 <= j < i ==> ParseRow(rows[j]) == Success(parsed[j])
    requires ParseRow(rows[i]) == Success(rec)
    ensures forall j :: 0 <= j < i + 1 ==> ParseRow(rows[j]) == Success((parsed + [rec])[j])
  {
  }

  /** Rows that all parse load completely, as exactly their records. */
  lemma LoadRowsAllParsed(rows: seq<Row>, parsed: seq<FoodRecord>)
    requires |parsed| == |rows|
    requires forall j :: 0 <= j < |rows| ==> ParseRow(rows[j]) == Success(parsed[j])
    ensures LoadRows(rows) == LoadedRows(parsed, None)
  {
    var r := LoadRows(rows);
    assert forall k :: 0 <= k < |rows| ==> ParseRow(rows[k]).Success?;
    assert r.records == parsed;
  }

  /** The first row that fails to parse ends the load; the rows before it are loaded. */
  lemma LoadRowsFirstFailure(rows: seq<Row>, parsed: seq<FoodRecord>, i: nat, e: RowError)
    requires |parsed| == i < |rows|
    requires forall j :: 0 <= j < i ==> ParseRow(rows[j]) == Success(parsed[j])
    requires ParseRow(rows[i]) == Failure(e)
    ensures LoadRows(rows) == LoadedRows(parsed, Some(RowFailure(i, e)))
  {
    var r := LoadRows(rows);
    assert r.failure.Some? && r.failure.value.index == i;
    assert r.records == parsed;
  }
}

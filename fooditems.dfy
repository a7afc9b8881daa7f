/**
 * One food item: five attributes held in a mutable object, the expiry
 * normaliser its constructor runs, and its one-line summary.
 */
module FoodItems {
  import opened Common
  import opened Text
  import opened Dates

  /** The five attributes of a food item at one moment. */
  datatype FoodRecord = FoodRecord(
    name: string,
    category: string,
    quantity: int,
    barcode: string,
    expiryDate: CalendarDate)

  /** What the constructor may be handed as expiry: a date, a text, or a value of any other type. */
  datatype ExpiryInput = DateValue(date: CalendarDate) | TextValue(text: string) | OtherValue

  /** The ValueError raised by `strptime` on bad text, and the one raised for any other type. */
  datatype ExpiryError = BadDateText(text: string) | NotDateOrText

  /** `_parse_expiry_date`: a date passes through, a text is read as `YYYY-MM-DD`, anything else fails. */
  function ParseExpiryDate(expiry: ExpiryInput): (r: Result<CalendarDate, ExpiryError>)
    ensures expiry.DateValue? ==> r == Success(expiry.date)
    ensures expiry.TextValue? && r.Success? ==> FormatDate(r.value) == expiry.text
    ensures expiry.TextValue? && r.Failure? ==>
      r.error == BadDateText(expiry.text) && forall d: CalendarDate :: FormatDate(d) != expiry.text
    ensures expiry.OtherValue? ==> r == Failure(NotDateOrText)
  {
    match expiry
    case DateValue(d) => Success(d)
    case TextValue(text) =>
      (match ParseDate(text)
       case Some(d) =>
         FormatParseDate(text, d);
         Success(d)
       case None =>
         assert forall d: CalendarDate :: FormatDate(d) != text by {
           forall d: CalendarDate ensures FormatDate(d) != text {
             ParseDateExactlyFormatted(text, d);
           }
         }
         Failure(BadDateText(text)))
    case OtherValue => Failure(NotDateOrText)
  }

  /** `__str__`: the five attributes, labelled, in a fixed order. */
  function Summary(r: FoodRecord): (s: string)
    ensures |s| > 6 && s[..6] == "Name: "
  {
    "Name: " + r.name
      + ", Category: " + r.category
      + ", Quantity: " + IntToString(r.quantity)
      + ", Barcode: " + r.barcode
      + ", Expiry Date: " + FormatDate(r.expiryDate)
  }

  /**
   * The summary opens with the labelled name and closes with the labelled
   * expiry date, whose text reads back as the item's expiry date.
   */
  lemma SummaryBeginsWithNameEndsWithExpiry(r: FoodRecord)
    ensures var s := Summary(r);
      && |s| >= 6 + |r.name| + 25
      && s[..6 + |r.name|] == "Name: " + r.name
      && s[|s| - 25..|s| - 10] == ", Expiry Date: "
      && ParseDate(s[|s| - 10..]) == Some(r.expiryDate)
  {
    var s := Summary(r);
    var head := "Name: " + r.name;
    var fields := head + ", Category: " + r.category + ", Quantity: " + IntToString(r.quantity) + ", Barcode: " + r.barcode;
    var date := FormatDate(r.expiryDate);
    assert s == fields + ", Expiry Date: " + date;
    assert (fields + ", Expiry Date: " + date)[|fields| + 15..] == date;
    assert (fields + ", Expiry Date: ")[|fields|..] == ", Expiry Date: ";
    assert |fields| >= |head|;
    assert fields[..|head|] == head;
    ParseFormatDate(r.expiryDate);
  }

  /** A food item object; the inventory edits its fields in place. */
  class FoodItem {
    var name: string
    var category: string
    var quantity: int
    var barcode: string
    var expiryDate: CalendarDate

    /** The attributes stored exactly as given (the expiry already normalised). */
    constructor (name: string, category: string, quantity: int, barcode: string, expiryDate: CalendarDate)
      ensures Value() == FoodRecord(name, category, quantity, barcode, expiryDate)
    {
      this.name := name;
      this.category := category;
      this.quantity := quantity;
      this.barcode := barcode;
      this.expiryDate := expiryDate;
    }

    /** The item's attributes now. */
    function Value(): FoodRecord
      reads this
    {
      FoodRecord(name, category, quantity, barcode, expiryDate)
    }
  }

  /**
   * `FoodItem(name, category, quantity, barcode, expiry_date)`: normalises
   * the expiry, then stores the attributes; the ValueError of the
   * normaliser means no object.
   */
  method NewFoodItem(name: string, category: string, quantity: int, barcode: string, expiry: ExpiryInput)
    returns (r: Result<FoodItem, ExpiryError>)
    ensures r.Failure? <==> ParseExpiryDate(expiry).Failure?
    ensures r.Failure? ==> r.error == ParseExpiryDate(expiry).error
    ensures r.Success? ==>
      fresh(r.value) && r.value.Value() == FoodRecord(name, category, quantity, barcode, ParseExpiryDate(expiry).value)
  {
    match ParseExpiryDate(expiry)
    case Success(d) =>
      var item := new FoodItem(name, category, quantity, barcode, d);
      r := Success(item);
    case Failure(e) =>
      r := Failure(e);
  }
}

/**
 * The inventory's operations on the sequence of item records: first-match
 * lookup by barcode, the patch an edit applies, deletion of the first
 * match, and the near-expiry filter. Barcodes are not unique; every
 * lookup means the first record, in list order, that has the barcode.
 */
module StoreSpec {
  import opened Common
  import opened Dates
  import opened FoodItems

  /** The position of the first record with barcode `b`, if any. */
  function IndexOf(s: seq<FoodRecord>, b: string): (r: Option<nat>)
    ensures r.None? <==> forall j :: 0 <= j < |s| ==> s[j].barcode != b
    ensures r.Some? ==>
      r.value < |s| && s[r.value].barcode == b && forall j :: 0 <= j < r.value ==> s[j].barcode != b
  {
    if s == [] then None
    else if s[0].barcode == b then Some(0)
    else
      match IndexOf(s[1..], b)
      case None => None
      case Some(i) => Some(i + 1)
  }

  /** `search_food_item` on the records: the first record with the barcode, or None. */
  function Search(s: seq<FoodRecord>, b: string): (r: Option<FoodRecord>)
    ensures r.Some? ==> r.value.barcode == b
  {
    match IndexOf(s, b)
    case None => None
    case Some(i) => Some(s[i])
  }

  /**
   * The optional arguments of an edit. A name or category replaces the old
   * one only when present and non-empty (Python truthiness), a quantity
   * whenever present (0 included), an expiry date whenever present.
   */
  datatype Changes = Changes(
    name: Option<string>,
    category: Option<string>,
    quantity: Option<int>,
    expiryDate: Option<CalendarDate>)

  /** The attributes of the matched item after the edit's field assignments. */
  function ApplyChanges(r: FoodRecord, c: Changes): (patched: FoodRecord)
    ensures patched.barcode == r.barcode
  {
    FoodRecord(
      if c.name.Some? && c.name.value != "" then c.name.value else r.name,
      if c.category.Some? && c.category.value != "" then c.category.value else r.category,
      if c.quantity.Some? then c.quantity.value else r.quantity,
      r.barcode,
      if c.expiryDate.Some? then c.expiryDate.value else r.expiryDate)
  }

  /** `edit_food_item` on the records: the first match patched, the rest as they were. */
  function EditRecords(s: seq<FoodRecord>, b: string, c: Changes): (e: seq<FoodRecord>)
    ensures |e| == |s|
  {
    match IndexOf(s, b)
    case None => s
    case Some(i) => s[i := ApplyChanges(s[i], c)]
  }

  /** `delete_food_item` on the records: the first match taken out. */
  function DeleteRecords(s: seq<FoodRecord>, b: string): (d: seq<FoodRecord>)
    ensures |d| < |s| <==> exists j :: 0 <= j < |s| && s[j].barcode == b
  {
    match IndexOf(s, b)
    case None => s
    case Some(i) => s[..i] + s[i + 1..]
  }

  /** The near-expiry test: the expiry is at most `days` days after `today` (earlier dates included). */
  predicate IsNearExpiry(r: FoodRecord, today: CalendarDate, days: int) {
    DaysBetween(r.expiryDate, today) <= days
  }

  /** `near_expiry_items` on the records: those passing the test, in list order. */
  function NearExpiry(s: seq<FoodRecord>, today: CalendarDate, days: int): seq<FoodRecord> {
    if s == [] then []
    else
      NearExpiry(s[..|s| - 1], today, days)
        + (if IsNearExpiry(s[|s| - 1], today, days) then [s[|s| - 1]] else [])
  }

  // ---------------------------------------------------------------------------
  // Search and add

  /** Search gives the lowest-indexed record with the barcode, or None when no record has it. */
  lemma SearchFindsFirst(s: seq<FoodRecord>, b: string)
    ensures Search(s, b).None? <==> forall j :: 0 <= j < |s| ==> s[j].barcode != b
    ensures Search(s, b).Some? ==>
      exists i :: 0 <= i < |s| && Search(s, b) == Some(s[i]) && s[i].barcode == b
        && forall j :: 0 <= j < i ==> s[j].barcode != b
  {
  }

  /** A position holding the barcode, with no earlier one holding it, is the position IndexOf finds. */
  lemma IndexOfIs(s: seq<FoodRecord>, b: string, k: nat)
    requires k < |s| && s[k].barcode == b
    requires forall j :: 0 <= j < k ==> s[j].barcode != b
    ensures IndexOf(s, b) == Some(k)
  {
    var r := IndexOf(s, b);
    assert r.Some?;
    assert !(r.value < k);
    assert !(k < r.value);
  }

  /** Appending a record leaves an existing first match in place; otherwise the new record may become it. */
  lemma SearchAfterAdd(s: seq<FoodRecord>, r: FoodRecord, b: string)
    ensures Search(s + [r], b)
         == if Search(s, b).Some? then Search(s, b) else if r.barcode == b then Some(r) else None
  {
    var t := s + [r];
    match IndexOf(s, b)
    case Some(i) =>
      IndexOfIs(t, b, i);
    case None =>
      if r.barcode == b {
        IndexOfIs(t, b, |s|);
      } else {
        assert forall j :: 0 <= j < |t| ==> t[j].barcode != b;
      }
  }

  /** The scenario "add an item with a new barcode, find it, delete it": the list returns to what it was. */
  lemma AddSearchDelete(s: seq<FoodRecord>, r: FoodRecord)
    requires IndexOf(s, r.barcode).None?
    ensures Search(s + [r], r.barcode) == Some(r)
    ensures DeleteRecords(s + [r], r.barcode) == s
    ensures Search(DeleteRecords(s + [r], r.barcode), r.barcode).None?
  {
    var t := s + [r];
    IndexOfIs(t, r.barcode, |s|);
    assert t[..|s|] == s;
  }

  // ---------------------------------------------------------------------------
  // Edit

  /** An edit of a present barcode patches the first match only; an absent barcode changes nothing. */
  lemma EditChangesOnlyFirstMatch(s: seq<FoodRecord>, b: string, c: Changes)
    ensures |EditRecords(s, b, c)| == |s|
    ensures IndexOf(s, b).None? ==> EditRecords(s, b, c) == s
    ensures IndexOf(s, b).Some? ==>
      var i := IndexOf(s, b).value;
      EditRecords(s, b, c)[i] == ApplyChanges(s[i], c)
      && forall j :: 0 <= j < |s| && j != i ==> EditRecords(s, b, c)[j] == s[j]
  {
  }

  /** An edit never changes a barcode, so every lookup finds the same position afterwards. */
  lemma EditKeepsBarcodes(s: seq<FoodRecord>, b: string, c: Changes, b': string)
    ensures forall j :: 0 <= j < |s| ==> EditRecords(s, b, c)[j].barcode == s[j].barcode
    ensures IndexOf(EditRecords(s, b, c), b') == IndexOf(s, b')
  {
    var e := EditRecords(s, b, c);
    EditChangesOnlyFirstMatch(s, b, c);
    assert forall j :: 0 <= j < |s| ==> e[j].barcode == s[j].barcode;
    match IndexOf(s, b')
    case None =>
      assert forall j :: 0 <= j < |e| ==> e[j].barcode != b';
    case Some(k) =>
      IndexOfIs(e, b', k);
  }

  /** After an edit, searching the edited barcode finds the patched record. */
  lemma SearchAfterEdit(s: seq<FoodRecord>, b: string, c: Changes)
    requires IndexOf(s, b).Some?
    ensures Search(EditRecords(s, b, c), b) == Some(ApplyChanges(Search(s, b).value, c))
  {
    EditKeepsBarcodes(s, b, c, b);
  }

  /** Repeating the same edit changes nothing more. */
  lemma EditIdempotent(s: seq<FoodRecord>, b: string, c: Changes)
    ensures EditRecords(EditRecords(s, b, c), b, c) == EditRecords(s, b, c)
  {
    EditKeepsBarcodes(s, b, c, b);
  }

  /** Supplying only a quantity replaces the quantity and nothing else; 0 counts as supplied. */
  lemma EditOnlyQuantity(r: FoodRecord, q: int)
    ensures ApplyChanges(r, Changes(None, None, Some(q), None)) == r.(quantity := q)
  {
  }

  /**
   * Name and category each on their own: a missing or empty text keeps the
   * old value, a non-empty one replaces it.
   */
  lemma EditEmptyTextKeepsField(r: FoodRecord, c: Changes)
    ensures (c.name.None? || c.name == Some("")) ==> ApplyChanges(r, c).name == r.name
    ensures c.name.Some? && c.name.value != "" ==> ApplyChanges(r, c).name == c.name.value
    ensures (c.category.None? || c.category == Some("")) ==> ApplyChanges(r, c).category == r.category
    ensures c.category.Some? && c.category.value != "" ==> ApplyChanges(r, c).category == c.category.value
  {
  }

  // ---------------------------------------------------------------------------
  // Delete

  /** Deleting a present barcode removes exactly the first match and keeps the order of the rest. */
  lemma DeleteRemovesFirstMatch(s: seq<FoodRecord>, b: string)
    requires IndexOf(s, b).Some?
    ensures var i := IndexOf(s, b).value;
      && DeleteRecords(s, b) == s[..i] + s[i + 1..]
      && |DeleteRecords(s, b)| == |s| - 1
      && multiset(DeleteRecords(s, b)) + multiset{s[i]} == multiset(s)
  {
    var i := IndexOf(s, b).value;
    MultisetWithout(s, i);
  }

  /** Taking out position `i` takes exactly one copy of `s[i]` out of the multiset. */
  lemma MultisetWithout<T>(s: seq<T>, i: nat)
    requires i < |s|
    ensures multiset(s[..i] + s[i + 1..]) + multiset{s[i]} == multiset(s)
  {
    assert s == s[..i] + [s[i]] + s[i + 1..];
  }

  /** A barcode present in no record: search, edit and delete all miss and change nothing. */
  lemma AbsentBarcode(s: seq<FoodRecord>, b: string, c: Changes)
    requires forall j :: 0 <= j < |s| ==> s[j].barcode != b
    ensures Search(s, b).None?
    ensures EditRecords(s, b, c) == s
    ensures DeleteRecords(s, b) == s
  {
  }

  /** Behind a prefix without the barcode, the first match is the first match of the rest, shifted. */
  lemma {:induction false} IndexOfBehindPrefix(p: seq<FoodRecord>, t: seq<FoodRecord>, b: string)
    requires forall j :: 0 <= j < |p| ==> p[j].barcode != b
    ensures IndexOf(p + t, b) == if IndexOf(t, b).None? then None else Some(|p| + IndexOf(t, b).value)
  {
    if p == [] {
      assert p + t == t;
    } else {
      assert (p + t)[0] == p[0];
      assert (p + t)[1..] == p[1..] + t;
      IndexOfBehindPrefix(p[1..], t, b);
    }
  }

  /** After a delete, searching the same barcode finds the next record that had it, if any. */
  lemma SearchAfterDelete(s: seq<FoodRecord>, b: string)
    requires IndexOf(s, b).Some?
    ensures Search(DeleteRecords(s, b), b) == Search(s[IndexOf(s, b).value + 1..], b)
  {
    var i := IndexOf(s, b).value;
    var rest := s[i + 1..];
    var d := DeleteRecords(s, b);
    assert d == s[..i] + rest;
    IndexOfBehindPrefix(s[..i], rest, b);
    match IndexOf(rest, b)
    case None =>
    case Some(k) =>
      assert d[i + k] == rest[k];
  }

  // ---------------------------------------------------------------------------
  // Near expiry

  /** A record is in the near-expiry list exactly when it is in the list and passes the test. */
  lemma {:induction false} NearExpiryMembers(s: seq<FoodRecord>, today: CalendarDate, days: int, x: FoodRecord)
    ensures x in NearExpiry(s, today, days) <==> x in s && IsNearExpiry(x, today, days)
  {
    if s != [] {
      var init := s[..|s| - 1];
      NearExpiryMembers(init, today, days, x);
      assert s == init + [s[|s| - 1]];
    }
  }

  /** Appending one record extends the filtered list by that record exactly when it passes. */
  lemma NearExpirySnoc(s: seq<FoodRecord>, x: FoodRecord, today: CalendarDate, days: int)
    ensures NearExpiry(s + [x], today, days)
         == NearExpiry(s, today, days) + if IsNearExpiry(x, today, days) then [x] else []
  {
    var t := s + [x];
    assert t[..|t| - 1] == s;
  }

  /** The filter distributes over concatenation, so it keeps the list order. */
  lemma {:induction false} NearExpiryAppend(s: seq<FoodRecord>, t: seq<FoodRecord>, today: CalendarDate, days: int)
    ensures NearExpiry(s + t, today, days) == NearExpiry(s, today, days) + NearExpiry(t, today, days)
  {
    if t == [] {
      assert s + t == s;
    } else {
      var init, last := t[..|t| - 1], t[|t| - 1];
      assert t == init + [last];
      assert s + t == (s + init) + [last];
      NearExpiryAppend(s, init, today, days);
      NearExpirySnoc(s + init, last, today, days);
      NearExpirySnoc(init, last, today, days);
    }
  }

  /** The filter never lengthens the list. */
  lemma {:induction false} NearExpiryShorter(s: seq<FoodRecord>, today: CalendarDate, days: int)
    ensures |NearExpiry(s, today, days)| <= |s|
  {
    if s != [] {
      NearExpiryShorter(s[..|s| - 1], today, days);
    }
  }

  /** Items whose expiry date is already past are near expiry for every non-negative threshold. */
  lemma ExpiredIsNearExpiry(r: FoodRecord, today: CalendarDate, days: int)
    requires Before(r.expiryDate, today) && days >= 0
    ensures IsNearExpiry(r, today, days)
  {
    OrdinalOrder(r.expiryDate, today);
  }

  /** The threshold is inclusive: `days` days ahead is in, the day after that is out. */
  lemma NearExpiryBoundary(r: FoodRecord, today: CalendarDate, days: int)
    requires DaysBetween(r.expiryDate, today) == days && r.expiryDate != Date(MaxYear, 12, 31)
    ensures IsNearExpiry(r, today, days)
    ensures !IsNearExpiry(r.(expiryDate := NextDay(r.expiryDate)), today, days)
  {
    OrdinalNextDay(r.expiryDate);
  }

  /** With today 2024-01-03 and the default threshold 7: 2024-01-10 is in, 2024-01-11 out, 2023-12-25 in. */
  lemma NearExpiryWeekExample()
    ensures IsNearExpiry(FoodRecord("Milk", "Dairy", 2, "123", Date(2024, 1, 10)), Date(2024, 1, 3), 7)
    ensures !IsNearExpiry(FoodRecord("Milk", "Dairy", 2, "123", Date(2024, 1, 11)), Date(2024, 1, 3), 7)
    ensures IsNearExpiry(FoodRecord("Milk", "Dairy", 2, "123", Date(2023, 12, 25)), Date(2024, 1, 3), 7)
  {
  }
}

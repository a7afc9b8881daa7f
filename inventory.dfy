/**
 * The inventory store: an ordered list of food item objects, mirrored to a
 * CSV file. Every operation scans the list from the front and acts on the
 * first item whose barcode matches; every change is followed by a rewrite
 * of the whole file.
 */
module InventoryStore {
  import opened Common
  import opened Dates
  import opened FoodItems
  import opened Persistence
  import opened StoreSpec

  /** The file the inventory uses when none is named. */
  const DefaultFilename := "inventory.csv"

  /** The threshold of `near_expiry_items` when none is given. */
  const DefaultNearExpiryDays := 7

  /**
   * The files the inventory reads and writes: the rows of each existing file,
   * and the paths where opening for writing fails.
   */
  class FileSystem {
    var files: map<string, seq<Row>>
    var readOnly: set<string>

    constructor (files: map<string, seq<Row>>, readOnly: set<string>)
      ensures this.files == files && this.readOnly == readOnly
    {
      this.files := files;
      this.readOnly := readOnly;
    }
  }

  /** How a load ended: every row read, no file (an empty start), or stopped at a bad row. */
  datatype LoadOutcome = Loaded | FileNotFound | StoppedAt(failure: RowFailure)

  /** The rows of `filename`, or none when it does not exist. */
  function StoredRows(files: map<string, seq<Row>>, filename: string): seq<Row> {
    if filename in files then files[filename] else []
  }

  /** The outcome a load of `filename` reports. */
  function LoadOutcomeOf(files: map<string, seq<Row>>, filename: string): (o: LoadOutcome)
    ensures o == FileNotFound <==> filename !in files
    ensures o == Loaded ==> forall j :: 0 <= j < |files[filename]| ==> ParseRow(files[filename][j]).Success?
    ensures o.StoppedAt? ==>
      o.failure.index < |files[filename]| && ParseRow(files[filename][o.failure.index]).Failure?
    ensures o.StoppedAt? ==> forall j :: 0 <= j < o.failure.index ==> ParseRow(files[filename][j]).Success?
  {
    if filename !in files then FileNotFound
    else
      match LoadRows(files[filename]).failure
      case None => Loaded
      case Some(f) => StoppedAt(f)
  }

  /** The files after a save of `records` to `filename`: rewritten, or as they were when the write fails. */
  function AfterSave(files: map<string, seq<Row>>, readOnly: set<string>, filename: string, records: seq<FoodRecord>)
    : (after: map<string, seq<Row>>)
    ensures filename !in readOnly ==> filename in after && LoadRows(after[filename]) == LoadedRows(records, None)
    ensures filename in readOnly ==> after == files
    ensures forall n :: n != filename ==> (n in after <==> n in files)
    ensures forall n :: n in files && n != filename ==> after[n] == files[n]
  {
    LoadSavedRows(records);
    if filename in readOnly then files else files[filename := SaveRows(records)]
  }

  /** The attributes of a list of item objects, in order. */
  function Values(items: seq<FoodItem>): (r: seq<FoodRecord>)
    reads items
    ensures |r| == |items|
    ensures forall j {:trigger r[j]} :: 0 <= j < |items| ==> r[j] == items[j].Value()
  {
    if items == [] then [] else Values(items[..|items| - 1]) + [items[|items| - 1].Value()]
  }

  /** The attributes of a list with one more object are those of the list and then the object's. */
  lemma ValuesSnoc(items: seq<FoodItem>, x: FoodItem)
    ensures Values(items + [x]) == Values(items) + [x.Value()]
  {
    assert (items + [x])[..|items|] == items;
  }

  /** The attributes of a list with position `i` taken out are those of the list without `i`. */
  lemma ValuesWithout(items: seq<FoodItem>, i: nat)
    requires i < |items|
    ensures Values(items[..i] + items[i + 1..]) == Values(items)[..i] + Values(items)[i + 1..]
  {
    var rest := items[..i] + items[i + 1..];
    var v := Values(items);
    var w := v[..i] + v[i + 1..];
    var r := Values(rest);
    assert |r| == |w|;
    forall j | 0 <= j < |rest| ensures r[j] == w[j] {
      if j < i {
        assert rest[j] == items[j] && w[j] == v[j];
      } else {
        assert rest[j] == items[j + 1] && w[j] == v[j + 1];
      }
    }
    assert r == w;
  }

  /** No object appears twice in the list. */
  predicate NoAliases(items: seq<FoodItem>) {
    forall j, k :: 0 <= j < k < |items| ==> items[j] != items[k]
  }

  /** Appending an object not yet listed keeps the list free of aliases. */
  lemma AppendKeepsNoAliases(items: seq<FoodItem>, x: FoodItem)
    requires NoAliases(items) && x !in items
    ensures NoAliases(items + [x])
  {
  }

  /** Taking one position out keeps the list free of aliases. */
  lemma RemoveKeepsNoAliases(items: seq<FoodItem>, i: nat)
    requires NoAliases(items) && i < |items|
    ensures NoAliases(items[..i] + items[i + 1..])
  {
    var rest := items[..i] + items[i + 1..];
    forall j, k | 0 <= j < k < |rest| ensures rest[j] != rest[k] {
      var j', k' := if j < i then j else j + 1, if k < i then k else k + 1;
      assert rest[j] == items[j'] && rest[k] == items[k'];
    }
  }

  /**
   * Python's `list.remove(x)`: the first element that is `x` taken out.
   * Python raises ValueError when `x` is not listed; every caller here
   * removes an object it has just read from the list.
   */
  function RemoveFirst(items: seq<FoodItem>, x: FoodItem): (r: seq<FoodItem>)
    requires x in items
    ensures |r| == |items| - 1
  {
    if items[0] == x then items[1..]
    else [items[0]] + RemoveFirst(items[1..], x)
  }

  /** Removing an object whose first occurrence is at `i` takes out exactly position `i`. */
  lemma {:induction false} RemoveFirstAt(items: seq<FoodItem>, x: FoodItem, i: nat)
    requires i < |items| && items[i] == x
    requires forall j :: 0 <= j < i ==> items[j] != x
    ensures RemoveFirst(items, x) == items[..i] + items[i + 1..]
  {
    if i > 0 {
      RemoveFirstAt(items[1..], x, i - 1);
      assert items[1..][..i - 1] == items[1..i];
      assert items[1..][i..] == items[i + 1..];
      assert [items[0]] + items[1..i] == items[..i];
    }
  }

  /**
   * The field assignments of an edit on one item: a non-empty name or
   * category, any quantity, any expiry date replaces the old value.
   */
  method PatchFields(item: FoodItem, changes: Changes)
    modifies item
    ensures item.Value() == ApplyChanges(old(item.Value()), changes)
  {
    if changes.name.Some? && changes.name.value != "" {
      item.name := changes.name.value;
    }
    if changes.category.Some? && changes.category.value != "" {
      item.category := changes.category.value;
    }
    if changes.quantity.Some? {
      item.quantity := changes.quantity.value;
    }
    if changes.expiryDate.Some? {
      item.expiryDate := changes.expiryDate.value;
    }
  }

  /** The near-expiry scan on the objects themselves: those whose expiry passes the test, in list order. */
  function NearExpiryObjects(items: seq<FoodItem>, today: CalendarDate, days: int): seq<FoodItem>
    reads items
  {
    if items == [] then []
    else
      var last := items[|items| - 1];
      NearExpiryObjects(items[..|items| - 1], today, days)
        + if IsNearExpiry(last.Value(), today, days) then [last] else []
  }

  /** The attributes of the objects the scan keeps are the records the near-expiry filter keeps. */
  lemma {:induction false} NearExpiryObjectsValues(items: seq<FoodItem>, today: CalendarDate, days: int)
    ensures Values(NearExpiryObjects(items, today, days)) == NearExpiry(Values(items), today, days)
  {
    if items != [] {
      var init, last := items[..|items| - 1], items[|items| - 1];
      NearExpiryObjectsValues(init, today, days);
      assert items == init + [last];
      ValuesSnoc(init, last);
      NearExpirySnoc(Values(init), last.Value(), today, days);
      var kept := NearExpiryObjects(init, today, days);
      if IsNearExpiry(last.Value(), today, days) {
        ValuesSnoc(kept, last);
      } else {
        assert kept + [] == kept;
      }
    }
  }

  /** The scan keeps only listed objects. */
  lemma {:induction false} NearExpiryObjectsListed(items: seq<FoodItem>, today: CalendarDate, days: int)
    ensures forall x :: x in NearExpiryObjects(items, today, days) ==> x in items
  {
    if items != [] {
      var init := items[..|items| - 1];
      NearExpiryObjectsListed(init, today, days);
      assert forall x :: x in init ==> x in items;
    }
  }

  class Inventory {
    var foodItems: seq<FoodItem>
    const filename: string
    const fs: FileSystem

    /** The attributes of the listed items, in list order. */
    function Records(): seq<FoodRecord>
      reads this, foodItems
    {
      Values(foodItems)
    }

    /** An empty list, then a load of `filename`. */
    constructor (fs: FileSystem, filename: string := DefaultFilename)
      ensures this.filename == filename && this.fs == fs
      ensures Records() == LoadRows(StoredRows(fs.files, filename)).records
      ensures NoAliases(foodItems)
    {
      foodItems := [];
      this.filename := filename;
      this.fs := fs;
      new;
      var outcome := LoadInventory();
    }

    /**
     * Appends one new item per row, in file order, up to the first row that
     * fails to parse; the items appended before it stay. A missing file
     * appends nothing.
     */
    method LoadInventory() returns (outcome: LoadOutcome)
      modifies this
      ensures outcome == LoadOutcomeOf(fs.files, filename)
      ensures |foodItems| >= |old(foodItems)| && foodItems[..|old(foodItems)|] == old(foodItems)
      ensures Records() == old(Records()) + LoadRows(StoredRows(fs.files, filename)).records
      ensures NoAliases(old(foodItems)) ==> NoAliases(foodItems)
    {
      if filename !in fs.files {
        assert foodItems[..|foodItems|] == foodItems;
        return FileNotFound;
      }
      var failure := AppendRows(fs.files[filename]);
      match failure
      case None => outcome := Loaded;
      case Some(f) => outcome := StoppedAt(f);
    }

    /** The loop of the load over the rows of an open file. */
    method AppendRows(rows: seq<Row>) returns (failure: Option<RowFailure>)
      modifies this
      ensures failure == LoadRows(rows).failure
      ensures |foodItems| >= |old(foodItems)| && foodItems[..|old(foodItems)|] == old(foodItems)
      ensures Records() == old(Records()) + LoadRows(rows).records
      ensures NoAliases(old(foodItems)) ==> NoAliases(foodItems)
    {
      ghost var n0 := |foodItems|;
      ghost var parsed: seq<FoodRecord> := [];
      var i := 0;
      while i < |rows|
        invariant 0 <= i <= |rows|
        invariant |parsed| == i
        invariant forall j :: 0 <= j < i ==> ParseRow(rows[j]) == Success(parsed[j])
        invariant |foodItems| == n0 + i && foodItems[..n0] == old(foodItems)
        invariant Records() == old(Records()) + parsed
        invariant NoAliases(old(foodItems)) ==> NoAliases(foodItems)
      {
        var result := ParseRow(rows[i]);
        match result
        case Failure(e) =>
          LoadRowsFirstFailure(rows, parsed, i, e);
          return Some(RowFailure(i, e));
        case Success(rec) =>
          ghost var prev := foodItems;
          var item := AppendNewItem(rec);
          assert (prev + [item])[..n0] == prev[..n0];
          assert forall j :: 0 <= j < |prev| ==> (prev + [item])[j] == prev[j];
          ParsedPrefixGrows(rows, parsed, i, rec);
          assert old(Records()) + parsed + [rec] == old(Records()) + (parsed + [rec]);
          parsed := parsed + [rec];
          i := i + 1;
      }
      LoadRowsAllParsed(rows, parsed);
      failure := None;
    }

    /** One successful row of the load: a new item with the row's attributes, appended. */
    method AppendNewItem(rec: FoodRecord) returns (item: FoodItem)
      modifies this
      ensures fresh(item) && foodItems == old(foodItems) + [item]
      ensures Records() == old(Records()) + [rec]
      ensures NoAliases(old(foodItems)) ==> NoAliases(foodItems)
    {
      ghost var loaded := Records();
      ghost var before := foodItems;
      item := new FoodItem(rec.name, rec.category, rec.quantity, rec.barcode, rec.expiryDate);
      if NoAliases(foodItems) {
        AppendKeepsNoAliases(foodItems, item);
      }
      foodItems := foodItems + [item];
      assert Values(before) == loaded;
      ValuesSnoc(before, item);
    }

    /**
     * Writes one row per item, in list order, over the whole file; when the
     * file cannot be opened for writing nothing changes.
     */
    method SaveInventory()
      modifies fs
      ensures Records() == old(Records())
      ensures fs.readOnly == old(fs.readOnly)
      ensures fs.files == AfterSave(old(fs.files), fs.readOnly, filename, Records())
    {
      if filename in fs.readOnly {
        return;
      }
      var rows: seq<Row> := [];
      var i := 0;
      while i < |foodItems|
        invariant 0 <= i <= |foodItems|
        invariant |rows| == i
        invariant forall j :: 0 <= j < i ==> rows[j] == FormatRow(foodItems[j].Value())
        invariant fs.files == old(fs.files) && fs.readOnly == old(fs.readOnly)
      {
        var item := foodItems[i];
        rows := rows + [FormatRow(item.Value())];
        i := i + 1;
      }
      assert rows == SaveRows(Records());
      fs.files := fs.files[filename := rows];
    }

    /** Appends the item at the end, then saves. */
    method AddFoodItem(foodItem: FoodItem)
      modifies this, fs
      ensures foodItems == old(foodItems) + [foodItem]
      ensures Records() == old(Records()) + [foodItem.Value()]
      ensures NoAliases(old(foodItems)) && foodItem !in old(foodItems) ==> NoAliases(foodItems)
      ensures fs.readOnly == old(fs.readOnly)
      ensures fs.files == AfterSave(old(fs.files), fs.readOnly, filename, Records())
    {
      if NoAliases(foodItems) && foodItem !in foodItems {
        AppendKeepsNoAliases(foodItems, foodItem);
      }
      assert (foodItems + [foodItem])[..|foodItems|] == foodItems;
      foodItems := foodItems + [foodItem];
      SaveInventory();
    }

    /**
     * Patches the first item with the barcode, in place, then saves and
     * answers true; answers false, changing nothing, when no item has it.
     * The patch lands on the object, so every list position holding that
     * same object shows it.
     */
    method EditFoodItem(barcode: string, name: Option<string>, category: Option<string>,
                        quantity: Option<int>, expiryDate: Option<CalendarDate>)
      returns (found: bool)
      modifies foodItems, fs
      ensures found <==> IndexOf(old(Records()), barcode).Some?
      ensures !found ==> Records() == old(Records()) && fs.files == old(fs.files)
      ensures found ==>
        var i := IndexOf(old(Records()), barcode).value;
        forall j :: 0 <= j < |foodItems| ==>
          foodItems[j].Value()
            == if foodItems[j] == foodItems[i]
               then ApplyChanges(old(Records())[i], Changes(name, category, quantity, expiryDate))
               else old(Records())[j]
      ensures found && NoAliases(foodItems) ==>
        Records() == EditRecords(old(Records()), barcode, Changes(name, category, quantity, expiryDate))
      ensures found ==> fs.files == AfterSave(old(fs.files), fs.readOnly, filename, Records())
      ensures fs.readOnly == old(fs.readOnly)
    {
      var i := 0;
      while i < |foodItems|
        invariant 0 <= i <= |foodItems|
        invariant forall j :: 0 <= j < i ==> foodItems[j].barcode != barcode
        invariant Records() == old(Records())
        invariant fs.files == old(fs.files) && fs.readOnly == old(fs.readOnly)
      {
        var item := foodItems[i];
        if item.barcode == barcode {
          IndexOfIs(Records(), barcode, i);
          EditAt(i, Changes(name, category, quantity, expiryDate));
          return true;
        }
        i := i + 1;
      }
      return false;
    }

    /** The branch of an edit that found its item at position `i`: patch it, then save. */
    method EditAt(i: nat, changes: Changes)
      requires i < |foodItems|
      modifies foodItems[i], fs
      ensures forall j :: 0 <= j < |foodItems| ==>
        foodItems[j].Value()
          == if foodItems[j] == foodItems[i] then ApplyChanges(old(Records())[i], changes) else old(Records())[j]
      ensures NoAliases(foodItems) ==> Records() == old(Records())[i := ApplyChanges(old(Records())[i], changes)]
      ensures fs.files == AfterSave(old(fs.files), fs.readOnly, filename, Records())
      ensures fs.readOnly == old(fs.readOnly)
    {
      PatchItem(i, changes);
      SaveInventory();
    }

    /**
     * The edit of the item at position `i`. The patch lands on the object, so
     * every position holding that same object shows it and no other changes.
     */
    method PatchItem(i: nat, changes: Changes)
      requires i < |foodItems|
      modifies foodItems[i]
      ensures forall j :: 0 <= j < |foodItems| ==>
        foodItems[j].Value()
          == if foodItems[j] == foodItems[i] then ApplyChanges(old(Records())[i], changes) else old(Records())[j]
      ensures NoAliases(foodItems) ==> Records() == old(Records())[i := ApplyChanges(old(Records())[i], changes)]
    {
      var item := foodItems[i];
      ghost var olds := Records();
      label BeforePatch:
      PatchFields(item, changes);
      forall j | 0 <= j < |foodItems|
        ensures foodItems[j].Value() == if foodItems[j] == item then ApplyChanges(olds[i], changes) else olds[j]
      {
        assert old@BeforePatch(foodItems[j].Value()) == olds[j];
      }
      if NoAliases(foodItems) {
        ghost var expected := olds[i := ApplyChanges(olds[i], changes)];
        forall j | 0 <= j < |foodItems| ensures Records()[j] == expected[j] {
          if j != i {
            assert foodItems[j] != item;
          }
        }
        assert Records() == expected;
      }
    }

    /** `remove` of the item at position `i`, whose object occurs at no earlier position. */
    method RemoveItem(i: nat)
      requires i < |foodItems|
      requires forall j :: 0 <= j < i ==> foodItems[j] != foodItems[i]
      modifies this
      ensures foodItems == old(foodItems[..i] + foodItems[i + 1..])
      ensures Records() == old(Records()[..i] + Records()[i + 1..])
      ensures NoAliases(old(foodItems)) ==> NoAliases(foodItems)
    {
      if NoAliases(foodItems) {
        RemoveKeepsNoAliases(foodItems, i);
      }
      ghost var before := foodItems;
      var item := foodItems[i];
      RemoveFirstAt(foodItems, item, i);
      ValuesWithout(foodItems, i);
      foodItems := RemoveFirst(foodItems, item);
      assert Values(before) == old(Records());
    }

    /**
     * Takes the first item with the barcode out of the list (Python's
     * `remove` of that object), then saves and answers true; answers false,
     * changing nothing, when no item has it.
     */
    method DeleteFoodItem(barcode: string) returns (found: bool)
      modifies this, fs
      ensures found <==> IndexOf(old(Records()), barcode).Some?
      ensures !found ==> foodItems == old(foodItems) && fs.files == old(fs.files)
      ensures found ==>
        var i := IndexOf(old(Records()), barcode).value;
        && foodItems == old(foodItems[..i] + foodItems[i + 1..])
        && Records() == DeleteRecords(old(Records()), barcode)
        && fs.files == AfterSave(old(fs.files), fs.readOnly, filename, Records())
      ensures NoAliases(old(foodItems)) ==> NoAliases(foodItems)
      ensures fs.readOnly == old(fs.readOnly)
    {
      var i := 0;
      while i < |foodItems|
        invariant 0 <= i <= |foodItems|
        invariant forall j :: 0 <= j < i ==> foodItems[j].barcode != barcode
        invariant foodItems == old(foodItems)
        invariant fs.files == old(fs.files) && fs.readOnly == old(fs.readOnly)
      {
        var item := foodItems[i];
        if item.barcode == barcode {
          IndexOfIs(Records(), barcode, i);
          RemoveItem(i);
          SaveInventory();
          return true;
        }
        i := i + 1;
      }
      return false;
    }

    /** The first item with the barcode, or null when none has it; nothing changes. */
    method SearchFoodItem(barcode: string) returns (item: FoodItem?)
      ensures item == null <==> IndexOf(Records(), barcode).None?
      ensures item != null ==> item == foodItems[IndexOf(Records(), barcode).value]
      ensures Search(Records(), barcode) == if item == null then None else Some(item.Value())
    {
      var i := 0;
      while i < |foodItems|
        invariant 0 <= i <= |foodItems|
        invariant forall j :: 0 <= j < i ==> foodItems[j].barcode != barcode
      {
        if foodItems[i].barcode == barcode {
          IndexOfIs(Records(), barcode, i);
          return foodItems[i];
        }
        i := i + 1;
      }
      return null;
    }

    /**
     * The items whose expiry is at most `days` days after `today` (the
     * clock's date, passed in), already expired ones included, in list
     * order; nothing changes.
     */
    method NearExpiryItems(today: CalendarDate, days: int := DefaultNearExpiryDays) returns (nearExpiry: seq<FoodItem>)
      ensures nearExpiry == NearExpiryObjects(foodItems, today, days)
      ensures Values(nearExpiry) == NearExpiry(Records(), today, days)
      ensures forall x :: x in nearExpiry ==> x in foodItems
    {
      nearExpiry := [];
      var i := 0;
      while i < |foodItems|
        invariant 0 <= i <= |foodItems|
        invariant nearExpiry == NearExpiryObjects(foodItems[..i], today, days)
      {
        var item := foodItems[i];
        assert foodItems[..i + 1] == foodItems[..i] + [foodItems[i]];
        assert foodItems[..i + 1][..i] == foodItems[..i];
        if DaysBetween(item.expiryDate, today) <= days {
          nearExpiry := nearExpiry + [item];
        }
        i := i + 1;
      }
      assert foodItems[..i] == foodItems;
      NearExpiryObjectsValues(foodItems, today, days);
      NearExpiryObjectsListed(foodItems, today, days);
    }
  }
}

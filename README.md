# Food inventory store

A model of a small food-inventory program. The program keeps an ordered list
of food items; each item has a name, a category, an integer quantity, a
barcode and an expiry date. The list is mirrored to a CSV file with one row
per item: `name, category, quantity, barcode, YYYY-MM-DD`. The store does
the following:

- It loads that file when it is created. Loading stops at the first row that
  does not parse, and the items read before that row stay in the list.
- It rewrites the whole file after every add, successful edit and successful
  delete.
- Search, edit and delete all act on the FIRST item, in list order, whose
  barcode matches. Barcodes are not required to be unique.
- It lists the items whose expiry date is at most `days` days after today.
  The default is 7 days, and items already past their date are included.

`file_manager.py` is a line-for-line duplicate of the `Inventory` class in
`inventory.py`. The class methods below cite `inventory.py`. The lemmas about
the record-level behaviour cite the same logic in `file_manager.py`.

Modules:

- `Common`: the `Option` and `Result` datatypes.
- `Text`: decimal text. It covers Python's `str` of an integer, `int` of a
  text, and the zero-padded fields of an ISO date.
- `Dates`: proleptic-Gregorian dates, modelled on `datetime.date`.
  - The day ordinal, built the way CPython builds `toordinal`. It turns
    `(a - b).days` into a subtraction.
  - `str(date)` as `YYYY-MM-DD`.
  - `strptime(text, '%Y-%m-%d')`.
- `FoodItems`: the food item.
  - Its record value.
  - The expiry normaliser `_parse_expiry_date`.
  - The `__str__` summary.
  - The mutable `FoodItem` class.
- `Persistence`: the CSV file as rows of text fields. It covers the row one
  item is written as, the parse of one row, and what a save writes and a
  load reads.
- `StoreSpec`: the store's operations on the sequence of item records.
  - First-match lookup.
  - The patch an edit applies.
  - Deletion of the first match.
  - The near-expiry filter.
- `InventoryStore`: the store itself, modelled imperatively.
  - A `FileSystem` class maps file names to their rows. A missing name means
    `FileNotFoundError`. A name in `readOnly` means a write fails and the
    file is left as it was.
  - An `Inventory` class holds a `seq<FoodItem>` of object references, so
    the in-place edits and `list.remove` act on objects, as in Python.
  - Every method is tied to its `StoreSpec`/`Persistence` specification
    through `Records()`, the attributes of the listed items in list order.

## Model

| member | source | states |
|---|---|---|
| Text.PadDigits | inventory.py:44 | a zero-padded date field has exactly the requested width and only digits |
| Text.PadDigitsRoundTrip | inventory.py:44 | a number that fits the width is read back from its zero-padded field |
| Text.DigitsPadRoundTrip | inventory.py:28 | a field of digits is the zero-padded form of the number it denotes, and that number fits its width |
| Text.NatToString | inventory.py:44 | `str` of a non-negative quantity is a non-empty string of digits |
| Text.NatToStringValue | inventory.py:44 | the digits written for a non-negative integer denote that integer |
| Text.IntToString | inventory.py:44 | `str` of an integer is non-empty and starts with `-` exactly when the integer is negative |
| Text.ParseInt | inventory.py:28 | `int` of a text accepts only a non-empty text, and a negative result only from a text starting with `-` |
| Text.ParseIntOfIntToString | inventory.py:28 | `int(str(q)) == q` for every quantity, negative ones included |
| Text.ParseIntRejectsNonDigits | inventory.py:28 | a quantity field starting with neither a sign nor a digit is rejected |
| Dates.OrdinalOfFirstDay | inventory.py:132 | the ordinal of 0001-01-01 is 1, as for `toordinal` |
| Dates.Ordinal | inventory.py:132 | defines `toordinal` as CPython does: the days of the earlier years and months, plus the day; its properties are the ordinal lemmas below |
| Dates.DaysBetween | inventory.py:132 | defines `(later - earlier).days` as the difference of the ordinals; `Dates.OrdinalOrder` and `Dates.OrdinalInjective` give its sign |
| Dates.YearLength | inventory.py:132 | consecutive years start 365 or 366 (leap year) days apart |
| Dates.MonthTable | inventory.py:132 | the days-before-month table agrees with the month lengths, and the twelve months fill the year |
| Dates.OrdinalNextDay | inventory.py:132 | the next calendar day is a valid date whose ordinal is one more |
| Dates.MonthsAscend | inventory.py:132 | a later month of the same year starts after all the days of an earlier one |
| Dates.YearsAscend | inventory.py:132 | a later year starts after all the days of an earlier one |
| Dates.OrdinalWithinYear | inventory.py:132 | every date's ordinal lies inside its year's span |
| Dates.OrdinalBefore | inventory.py:132 | an earlier calendar date has a smaller ordinal |
| Dates.OrdinalOrder | inventory.py:132 | one date is earlier than another exactly when its ordinal is smaller, so the day difference orders dates |
| Dates.OrdinalInjective | inventory.py:132 | distinct dates have distinct ordinals (a zero day difference means the same date) |
| Dates.FormatDate | inventory.py:44 | `str(date)` is ten characters long |
| Dates.ParseFormatDate | inventory.py:28 | the expiry date written by a save is read back by `strptime` as the same date |
| Dates.FormatParseDate | fooditems.py:35 | any text `strptime` accepts is exactly the text form of the date it yields |
| Dates.ParseDate | fooditems.py:35 | `strptime(text, '%Y-%m-%d')` accepts only a ten-character text with `-` at positions 4 and 7 |
| Dates.ParseDateExactlyFormatted | fooditems.py:35 | text parses to a date if and only if it is that date's `YYYY-MM-DD` form |
| Dates.ParseDateRejectsFebruary30 | fooditems.py:35 | text shaped like a date that names no calendar day (2024-02-30) is rejected |
| FoodItems.ParseExpiryDate | fooditems.py:22-37 | a date passes through unchanged; a text yields the date whose text form it is, or fails exactly when no date has that form; any other value fails |
| FoodItems.Summary | fooditems.py:46 | the summary opens with `Name: ` |
| FoodItems.SummaryBeginsWithNameEndsWithExpiry | fooditems.py:39-46 | the summary opens with `Name: <name>` and closes with `, Expiry Date: ` and the date's text, which reads back as the item's expiry date |
| FoodItems.FoodItem.constructor | fooditems.py:4-20 | the five attributes are stored exactly as given |
| FoodItems.NewFoodItem | fooditems.py:4-20 | construction fails exactly when the expiry normaliser fails, with its error; otherwise a new object holds the given attributes and the normalised date |
| Persistence.FormatRow | file_manager.py:29 | each item is written as a row of five fields |
| Persistence.ParseRow | file_manager.py:16-17 | a row without exactly five fields is rejected with its field count; a parsed row keeps its name, category and barcode fields as they are |
| Persistence.ParseFormatRow | file_manager.py:16-17 | the row written for an item parses back to the same item |
| Persistence.SaveRows | file_manager.py:24-31 | a save writes one row per item, in list order |
| Persistence.LoadRows | file_manager.py:11-22 | a load yields the parsed rows before the first bad row, in order, and reports that row's index and error; without a bad row every row is loaded |
| Persistence.LoadSavedRows | file_manager.py:11-31 | loading a saved file gives back the same items in the same order, with no error |
| Persistence.SaveLoadSaveRows | file_manager.py:11-31 | saving what was loaded from a save writes the same rows again |
| Persistence.ParsedPrefixGrows | file_manager.py:15-18 | a run of parsed rows extends by the next row that parses |
| Persistence.LoadRowsAllParsed | file_manager.py:15-18 | rows that all parse load completely, as exactly their records |
| Persistence.LoadRowsFirstFailure | file_manager.py:15-22 | the first row that fails ends the load; the rows before it stay loaded |
| StoreSpec.IndexOf | file_manager.py:65-69 | the result is the lowest position holding the barcode, or None exactly when no position holds it |
| StoreSpec.Search | file_manager.py:65-69 | a found item has the searched barcode |
| StoreSpec.SearchFindsFirst | file_manager.py:65-69 | search returns None exactly when no item has the barcode, and otherwise the first item that has it |
| StoreSpec.IndexOfIs | file_manager.py:65-69 | a position holding the barcode, with no earlier one holding it, is the position found |
| StoreSpec.SearchAfterAdd | file_manager.py:33-36 | after an append, an existing first match stays the result; otherwise the new item is found if it has the barcode |
| StoreSpec.ApplyChanges | file_manager.py:41-48 | the patched item keeps its barcode |
| StoreSpec.EditRecords | file_manager.py:38-53 | an edit keeps the number of items |
| StoreSpec.DeleteRecords | file_manager.py:55-63 | a delete shortens the list exactly when some item has the barcode |
| StoreSpec.AddSearchDelete | file_manager.py:33-63 | adding an item with a new barcode, finding it, then deleting it returns the list to what it was |
| StoreSpec.EditChangesOnlyFirstMatch | file_manager.py:38-53 | an edit patches the first match only and leaves the length and every other item unchanged; an absent barcode changes nothing |
| StoreSpec.EditKeepsBarcodes | file_manager.py:38-53 | an edit never changes a barcode, so every later lookup finds the same position |
| StoreSpec.SearchAfterEdit | file_manager.py:38-53 | after an edit, searching the same barcode finds the patched item |
| StoreSpec.EditIdempotent | file_manager.py:38-53 | repeating the same edit changes nothing more |
| StoreSpec.EditOnlyQuantity | file_manager.py:45-46 | supplying only a quantity replaces the quantity and nothing else, and 0 counts as supplied |
| StoreSpec.EditEmptyTextKeepsField | file_manager.py:41-44 | for name and for category separately, whatever the other field holds: a missing or empty text keeps the old value, and a non-empty text replaces it |
| StoreSpec.DeleteRemovesFirstMatch | file_manager.py:55-63 | a delete removes exactly the first match, keeps the order of the rest, and takes one copy of that item out of the multiset |
| StoreSpec.MultisetWithout | file_manager.py:58 | taking out one position takes exactly one copy of its element out of the multiset |
| StoreSpec.AbsentBarcode | file_manager.py:38-69 | for a barcode no item has, search misses and edit and delete change nothing |
| StoreSpec.IndexOfBehindPrefix | file_manager.py:65-69 | behind a prefix without the barcode, the first match is the first match of the rest, shifted |
| StoreSpec.SearchAfterDelete | file_manager.py:55-69 | after a delete, the same barcode finds the next item that had it, if any |
| StoreSpec.IsNearExpiry | file_manager.py:75 | defines the near-expiry test: the expiry date lies at most `days` days after today; `StoreSpec.NearExpiryBoundary` and `StoreSpec.ExpiredIsNearExpiry` state its edges |
| StoreSpec.NearExpiry | file_manager.py:71-77 | defines the near-expiry scan on records, kept in list order; `StoreSpec.NearExpiryMembers` and `StoreSpec.NearExpiryAppend` state what it keeps |
| StoreSpec.NearExpirySnoc | file_manager.py:74-76 | one more item extends the near-expiry list by that item exactly when it passes the test |
| StoreSpec.NearExpiryMembers | file_manager.py:71-77 | an item is near expiry exactly when it is listed and its expiry is at most `days` days after today |
| StoreSpec.NearExpiryAppend | file_manager.py:71-77 | the filter distributes over concatenation, so it keeps list order |
| StoreSpec.NearExpiryShorter | file_manager.py:71-77 | the near-expiry list is never longer than the inventory |
| StoreSpec.ExpiredIsNearExpiry | file_manager.py:75 | an item already past its date is near expiry for any non-negative threshold |
| StoreSpec.NearExpiryBoundary | file_manager.py:75 | the threshold is inclusive: exactly `days` days ahead is in, one day later is out |
| StoreSpec.NearExpiryWeekExample | file_manager.py:75 | with today 2024-01-03 and 7 days, 2024-01-10 and 2023-12-25 are in and 2024-01-11 is out |
| InventoryStore.Values | inventory.py:43-44 | the attributes of the listed objects, one per object, in list order |
| InventoryStore.LoadOutcomeOf | inventory.py:22-33 | the load reports a missing file exactly when no file has the name; a full load only when every row parses; and a stop only at the first row of the file that fails to parse |
| InventoryStore.AfterSave | inventory.py:40-46 | a save that can write leaves a file that loads back as exactly the saved records with no error; a save that cannot write leaves every file as it was; no other file is created, removed or changed |
| InventoryStore.ValuesSnoc | inventory.py:29 | appending an object appends its attributes |
| InventoryStore.ValuesWithout | inventory.py:97 | taking an object out of the list takes its attributes out at the same position |
| InventoryStore.AppendKeepsNoAliases | inventory.py:28-29 | appending a newly created object keeps the list free of duplicated objects |
| InventoryStore.RemoveKeepsNoAliases | inventory.py:97 | taking one position out of a list without duplicated objects keeps it so |
| InventoryStore.RemoveFirst | inventory.py:97 | `list.remove` of a listed object makes the list one shorter |
| InventoryStore.RemoveFirstAt | inventory.py:97 | `list.remove` of an object first listed at position `i` takes out exactly that position |
| InventoryStore.PatchFields | inventory.py:73-80 | the item's new attributes are the old ones patched by the supplied changes, with the barcode kept |
| InventoryStore.NearExpiryObjects | inventory.py:129-134 | defines the near-expiry scan on the item objects, kept in list order; the two lemmas below tie it to the records and to the list |
| InventoryStore.NearExpiryObjectsValues | inventory.py:129-134 | the attributes of the objects the scan keeps are exactly the records the near-expiry specification keeps |
| InventoryStore.NearExpiryObjectsListed | inventory.py:129-134 | the scan keeps only objects of the list |
| InventoryStore.Inventory.constructor | inventory.py:6-15 | the list holds exactly the items a load of the named file (by default `inventory.csv`) yields, with no object listed twice |
| InventoryStore.Inventory.LoadInventory | inventory.py:17-33 | reports a missing file, a full load or the first bad row; appends the parsed items before that row and keeps the existing items |
| InventoryStore.Inventory.AppendRows | inventory.py:25-29 | the row loop appends exactly the records the load specification yields and reports its failure |
| InventoryStore.Inventory.AppendNewItem | inventory.py:28-29 | a new object with the row's attributes is appended |
| InventoryStore.Inventory.SaveInventory | inventory.py:35-46 | the file now holds one row per item in list order, or is unchanged when it cannot be written; the items are unchanged |
| InventoryStore.Inventory.AddFoodItem | inventory.py:48-57 | the item is appended at the end and the file is rewritten with the new list; adding an object not yet listed keeps the list free of duplicated objects |
| InventoryStore.Inventory.EditFoodItem | inventory.py:59-85 | answers true exactly when some item has the barcode; then the first match is patched in place (every position holding that object shows it), and the file is rewritten; with no duplicated objects the records are those of the edit specification; otherwise nothing changes |
| InventoryStore.Inventory.EditAt | inventory.py:73-81 | the found branch of an edit: the object is patched, all other objects keep their attributes, and the file is rewritten |
| InventoryStore.Inventory.PatchItem | inventory.py:73-80 | patching one object changes exactly the positions that hold it |
| InventoryStore.Inventory.RemoveItem | inventory.py:97 | the object is taken out at its first position, the records lose that position, and a list without duplicated objects stays so |
| InventoryStore.Inventory.DeleteFoodItem | inventory.py:87-102 | answers true exactly when some item has the barcode; then the first match is removed, the records are those of the delete specification, and the file is rewritten; otherwise nothing changes; a list without duplicated objects stays so |
| InventoryStore.Inventory.SearchFoodItem | inventory.py:104-117 | returns the first listed object with the barcode, or null exactly when none has it, agreeing with the search specification |
| InventoryStore.Inventory.NearExpiryItems | inventory.py:119-134 | returns exactly the objects the scan on the list keeps, in list order (so only listed objects, whose attributes are the records the near-expiry specification keeps); `days` defaults to 7 |

## Left out

- `main.py` (the interactive menu) and `__init__.py` are not part of this model.
- `display_inventory` is left out. It only prints.
- The messages printed by add, edit, delete, load and save are left out, as console output.
- The clock is a parameter. `NearExpiryItems` takes `today` instead of calling `datetime.date.today()`.
- CSV quoting and escaping are left out. A row is modelled as the list of fields the CSV reader returns.
- The `__main__` block of `file_manager.py` is left out. It is a usage example with a fixed path.
- Dates.ParseDate: accepts only the zero-padded `YYYY-MM-DD` form. `strptime` also accepts one-digit months and days, which a save never writes.
- Text.ParseInt: accepts an optional sign followed by ASCII digits. Python's `int` also allows surrounding whitespace, underscores between digits and non-ASCII digits.
- InventoryStore.Inventory.EditFoodItem: the new expiry date is an `Option` of a calendar date.
  - The source stores a text expiry unparsed. A later near-expiry query then fails on it.
  - An empty text counts as "not supplied" in the source.
  - Neither of these is modelled.
- InventoryStore.Inventory.SaveInventory: a write that fails part-way leaves the file unchanged in the model. The source leaves it truncated.
- InventoryStore.Inventory.LoadInventory: other failures of a load are not distinguished from the three outcomes modelled. These include an unreadable file and a malformed CSV line.
- InventoryStore.Inventory.LoadInventory: does not state that the loaded item objects are newly created. It states only that no object is listed twice.
- `list.remove` compares by identity, because `FoodItem` defines no `__eq__`. `RemoveFirst` uses object identity accordingly.
- Subclasses of `datetime.date` (such as `datetime`) passed as expiry dates are not modelled. A date is a calendar date and nothing more.
- Integers are unbounded, as Python's are.

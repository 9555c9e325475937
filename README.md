# Flight reservations: model, view logic and controller

This project models the logic of a small flight-reservation desktop application. The application is built on the model-view-controller pattern, with a GUI toolkit and an ORM over SQLite. The model covers three parts:

- **Storage layer** (`reservationsModel.py`). The `Reservations` table is a class holding a map from reservation id to a six-field record, plus the `Destinations` table.
  - `createReservation` adds a record under a fresh `AutoField` id. `updateReservation` overwrites the six non-id fields. `deleteReservation` removes a record.
  - Update and delete fail with `DoesNotExist` when no record has the id.
  - `getReservationsData` lists the records by descending id. `getDestinationsData` lists the cities in ascending order. `retrieveColumnNames` returns the seven column labels.
- **Controller** (`reservationsController.py`).
  - It turns the listing into value lists and then into tree rows numbered from 1, keyed `"-row_n-"`.
  - It turns the cities into `[city]` lists.
  - After a successful delete or update it hands the reservations window the new tree data and refreshes the window once.
- **Form validation** (`reservationsView.py`).
  - `validate` checks the form field by field. It collects the names of the missing fields and the texts of the failing date checks, then builds the error message.
  - Also modelled: the three date comparisons, `setGender`, `formatReservationInfo`, the edit window's choice of gender button, and the reservations window's `refreshTree`.

Three inputs of the source become parameters:

- The current time (`datetime.now()`) is a parameter `now`.
- The date parser (`datetime.strptime` with `%Y-%m-%d %H:%M:%S`) is a parameter `parse: string -> Option<Instant>`. `Instant` is an integer, so only the order of instants matters.
- A date that does not parse makes `validate` return `Failure(MalformedDate(text))`, standing for the raised exception.

The date checks follow the code as written:

- A departure at or before `now` is an error. So is an arrival at or before `now`.
- "Arrival Date comes before Departure Date!" is reported when the arrival is at or before the departure.

Equal instants are therefore errors in all three checks.

Modules:

- `Outcomes`: `Option` and `Result`.
- `Sequences`: filtering, `join` and concatenation of strings, and substring occurrence.
- `Text`: `str(n)` and its inverse, the code-point order on strings, and a sort.
- `TreeData`: the rows of the toolkit's `TreeData`.
- `ReservationsModel`, `ReservationsView` and `ReservationsController`: the three source files.

## Model

| member | source | states |
|---|---|---|
| ReservationsModel.ColumnNames | reservationsModel.py:118-128 | exactly the seven labels 'Reservation Id', 'Name', 'Gender', 'Passport #', 'Destination', 'Departure Date/Time', 'Arrival Date/Time', in field order, pairwise distinct |
| ReservationsModel.Listing | reservationsModel.py:109 | the answer of `ORDER BY reservation_id DESC`: the entry with the largest id, then the listing of the rest; empty exactly when the table is (its ordering and contents are stated by ListingCorrect and ListingUnique) |
| ReservationsModel.MaxId | reservationsModel.py:109 | the largest id in use is in use and no id exceeds it |
| ReservationsModel.ListingCorrect | reservationsModel.py:109 | the listing has strictly descending ids and shows every record of the table under its own id and nothing else |
| ReservationsModel.ListingUnique | reservationsModel.py:109 | any id-descending sequence showing exactly the table's records is the listing, so the query's answer is fully determined |
| ReservationsModel.NewestFirst | reservationsModel.py:137-139 | a record whose id exceeds every id in use heads the listing, followed by the unchanged listing of the others |
| ReservationsModel.ListingAfterDelete | reservationsModel.py:131-133 | after removing a record the listing is the old listing without that entry, the rest in the same order |
| ReservationsModel.ListingAfterUpdate | reservationsModel.py:143-151 | after overwriting a record the listing is the old listing with only that entry's record replaced |
| ReservationsModel.ReservationTable.constructor | reservationsModel.py:14-27 | an empty reservations table over the given destinations, whose next `AutoField` id is 1, so the first record created gets id 1 |
| ReservationsModel.FirstIds | reservationsModel.py:15 | on a new table the first two records created get ids 1 and 2, and the table holds exactly them |
| ReservationsModel.ReservationTable.ReservationsData | reservationsModel.py:108-110 | every reservation, each under its own id and nothing else, in strictly descending id order |
| ReservationsModel.ReservationTable.DestinationsData | reservationsModel.py:113-115 | the city of every destination and nothing else, in ascending code-point order |
| ReservationsModel.ReservationTable.CreateReservation | reservationsModel.py:137-140 | one record with the six given fields is added under the `AutoField`'s next id, which is larger than every id in use; the counter moves on by one; all other records are unchanged |
| ReservationsModel.ReservationTable.UpdateReservation | reservationsModel.py:143-152 | the six fields of record `id` are overwritten and nothing else changes; with no such record the result is `DoesNotExist` and the table is unchanged |
| ReservationsModel.ReservationTable.DeleteReservation | reservationsModel.py:131-134 | exactly record `id` is removed; with no such record the result is `DoesNotExist` and the table is unchanged |
| Text.Decimal | reservationsController.py:41 | `str(n)` is a non-empty string of digits whose first digit is not '0' for any n > 0 |
| Text.DecimalRoundTrip | reservationsController.py:41 | reading back the digits of `str(n)` gives `n` |
| Text.DecimalInjective | reservationsController.py:41 | different numbers are written differently |
| Text.LexLeReflexive | reservationsModel.py:114 | the string order is reflexive |
| Text.LexLeTotal | reservationsModel.py:114 | any two strings are comparable |
| Text.LexLeTransitive | reservationsModel.py:114 | the string order is transitive |
| Text.LexLeAntisymmetric | reservationsModel.py:114 | strings ordered both ways are equal |
| Text.InsertAscending | reservationsModel.py:114 | inserting into an ascending sequence keeps it ascending and adds exactly the new string |
| Text.SortAscending | reservationsModel.py:114 | the result is ascending and a permutation of the input |
| Text.AscendingUnique | reservationsModel.py:114 | two ascending permutations of the same strings are equal, so the ordered city list is determined |
| ReservationsController.RowValues | reservationsController.py:14 | one value per column of the table, the i-th being the record's value in the i-th declared column |
| ReservationsController.RowValuesRoundTrip | reservationsController.py:14 | the value list of a record reads back as that record with its id |
| ReservationsController.RowValuesInjective | reservationsController.py:14 | different records give different value lists |
| ReservationsController.ValueLists | reservationsController.py:14 | one value list per entry, in the listing's order, the i-th reading back as the i-th entry |
| ReservationsController.RetrieveReservationsList | reservationsController.py:12-15 | one value list per reservation; each reads back as a record stored under its id; ids strictly descend along the list |
| ReservationsController.RetrieveDestinations | reservationsController.py:20-23 | one single-element list per destination; the cities ascend and are exactly the destinations' cities |
| ReservationsController.RetrieveTreeColumnNames | reservationsController.py:26-28 | the seven column labels, the i-th being the verbose name of the i-th declared column, the column whose value RowValues puts at position i |
| ReservationsController.RowKey | reservationsController.py:41 | a key longer than its `-row_` prefix and closing dash |
| ReservationsController.RowKeyRoundTrip | reservationsController.py:41 | the row number can be read back from the key `"-row_n-"` |
| ReservationsController.RowKeysDistinct | reservationsController.py:38-42 | different row numbers give different keys |
| ReservationsController.TreeProjection | reservationsController.py:32-44 | one tree row per value list |
| ReservationsController.TreeRowsNumbered | reservationsController.py:38-42 | row i (from 1) has text i, a key that reads back as i, and the i-th value list; no two rows share a key |
| ReservationsController.InsertTreeRows | reservationsController.py:37-42 | the loop with counter `n` builds exactly the tree projection of the value lists |
| ReservationsController.RetrieveTreeData | reservationsController.py:31-44 | the tree data is exactly the tree projection of the reservations list |
| ReservationsController.DeleteReservation | reservationsController.py:57-63 | the record is deleted as in the storage layer; after a successful delete a given window holds the tree of the new table, shows it, and was refreshed exactly once; a failed delete leaves the window untouched |
| ReservationsController.CreateReservation | reservationsController.py:66-68 | the record is added as in the storage layer, under the id the `AutoField` assigns next, and that id is returned; no window is involved |
| ReservationsController.UpdateReservation | reservationsController.py:71-77 | the record is overwritten as in the storage layer; after a successful update a given window holds the tree of the new table, shows it, and was refreshed exactly once; a failed update leaves the window untouched |
| ReservationsView.SetGender | reservationsView.py:51-57 | "Male" exactly when the Male button is on, otherwise "Female", also when neither button is on |
| ReservationsView.RadioButtonsFor | reservationsView.py:319-324 | exactly one button is on, and it is Male exactly for a stored "Male" |
| ReservationsView.GenderRoundTrip | reservationsView.py:319-324 | reading back the buttons set for a stored "Male" or "Female" gives that gender again |
| ReservationsView.FormatReservationInfo | reservationsView.py:60-65 | the text starts with "Reservation for \nName: ", ends with " \nsaved." and contains the line "\nDestination: " plus the first selected city |
| ReservationsView.IsDepartureBeforeNow | reservationsView.py:96-103 | fails exactly when the departure does not parse; otherwise true exactly when the departure is at or before `now` |
| ReservationsView.IsArrivalBeforeNow | reservationsView.py:106-113 | fails exactly when the arrival does not parse; otherwise true exactly when the arrival is at or before `now` |
| ReservationsView.IsArrivalBeforeDeparture | reservationsView.py:86-93 | fails when either date does not parse, naming the departure first; otherwise true exactly when the arrival is at or before the departure |
| ReservationsView.CheckPresent | reservationsView.py:121-123 | one presence check: the field's name is appended exactly when it is missing, and the flag drops exactly then |
| ReservationsView.CheckDate | reservationsView.py:138-141 | one date check: it raises exactly when a date it reads is non-empty and unreadable; otherwise its text is appended and the flag drops exactly when the check runs and fails |
| ReservationsView.PresenceChecksInOrder | reservationsView.py:121-164 | the six presence checks run in source order collect exactly the names of the missing fields |
| ReservationsView.DateChecksInOrder | reservationsView.py:138-158 | the three date checks run in source order collect exactly the texts of the failing checks |
| ReservationsView.MissingNamesSelect | reservationsView.py:121-164 | after the first k presence checks the list holds the names of the missing fields among the first k |
| ReservationsView.DateErrorTextsSelect | reservationsView.py:138-158 | after the first k date checks the list holds the texts of the failing checks among the first k |
| ReservationsView.Validate | reservationsView.py:116-172 | raises exactly when a non-empty date does not parse, naming the departure first; otherwise valid exactly when nothing is missing and no date check fails, and the message is the fixed header, the missing names joined by ",\n", the date header and the date error texts |
| ReservationsView.MissingFields | reservationsView.py:121-164 | the fields `validate` reports missing: those of the six fields, in checking order, that `IsMissing` finds empty, so at most six (which ones and in what order is stated by MissingFieldsExactly and MissingFieldsInOrder) |
| ReservationsView.DateErrors | reservationsView.py:138-158 | the date checks `validate` reports: those of the three checks, in checking order, whose inputs are present and which `DateCheckFails` finds wrong, so at most three (stated in full by DateErrorsExactly and DateErrorsInOrder) |
| ReservationsView.MissingFieldsExactly | reservationsView.py:121-164 | a field is reported missing exactly when it has no value |
| ReservationsView.MissingFieldsInOrder | reservationsView.py:121-164 | missing fields are reported once each, in the order Name, Passport Number, Gender, Departure Date, Arrival Date, Destination |
| ReservationsView.DateErrorsExactly | reservationsView.py:138-158 | a date error is reported exactly when its inputs are present and the comparison finds the dates wrong |
| ReservationsView.DateErrorsInOrder | reservationsView.py:138-158 | date errors are reported once each: departure, then arrival, then their order |
| ReservationsView.NothingMissingExactly | reservationsView.py:121-164 | nothing is missing exactly when name, passport, a gender button, destination, departure and arrival are all given |
| ReservationsView.NoDateErrorsExactly | reservationsView.py:138-158 | with both dates given and readable, no date error exactly when now < departure < arrival |
| ReservationsView.ValidExactly | reservationsView.py:116-172 | with readable dates the form passes exactly when every field has a value and now < departure < arrival; equal instants fail |
| ReservationsView.ErrorMessage | reservationsView.py:166-168 | the message starts with the missing-data header and ends with the date error texts, also when nothing is missing and no check fails |
| ReservationsView.MissingFieldNamed | reservationsView.py:166-168 | every missing field's name occurs in the error message |
| ReservationsView.DateErrorReported | reservationsView.py:166-168 | every failing date check's text occurs in the error message |
| ReservationsView.NothingMissingHasDestination | reservationsView.py:160-164 | a form with nothing missing has a selected destination, so the confirmation text can be built |
| ReservationsView.ReservationsWindow.constructor | reservationsView.py:210-214 | a window holding and showing the given tree data, not yet refreshed |
| ReservationsView.ReservationsWindow.RefreshTree | reservationsView.py:249-252 | the tree shows the window's tree data, and the refresh count grows by one |

## Left out

- GUI code: layouts, event loops, popups, themes, button enabling, `clearEntries`, `saveReservation`, `populateEntries`, apart from its choice of gender button. `stubWindow.py` is not part of this model.
- The SQLite database, the ORM and the table lifecycle: `create_tables`, the `drop_*` functions, `addDestinationsRecords`, `list_tables`, `createReservationsTables`, and every `main`. The tables are held in memory.
- `db.commit` is written without a call, so it does nothing; there is no transaction model.
- `DateTimeField` conversion: the table keeps dates as the text the form submitted. The edit window's `strftime` formatting of stored dates is not modelled.
- `strptime` is the abstract parameter `parse`; the calendar and format details of `%Y-%m-%d %H:%M:%S` are not modelled.
- ReservationsView.Validate: the source calls `datetime.now()` separately in each check; the model uses one `now` for a whole validation, so a clock tick between the two checks is not captured.
- ReservationsModel.ReservationTable.CreateReservation: the `AutoField` is modelled as a counter above every id in use. SQLite's reuse of the largest id after it is deleted is not modelled.
- ReservationsView.FormatReservationInfo: states the header, the closing text and the destination line, not every character of the confirmation text.
- ReservationsController.RetrieveDestinations: models `_retrieveDestinationsList` and the `retrieveDestinations` wrapper as one function, since the wrapper returns the list unchanged. `retrieveReservations` is likewise the method RetrieveTreeData.
- ReservationsView.CheckPresent and ReservationsView.CheckDate: each source `if` block of `validate` is one call of these steps, in the source's order, instead of an inline `if`.
- `None` field values: every `Reservations` column is `null = False`, so `Reservations.create` with a `None` argument raises an `IntegrityError` from the NOT NULL constraint (reservationsModel.py:138). The model's fields are strings, so this failure path of `createReservation` is not modelled. The only caller passes form text (reservationsView.py:71-72), so the path does not arise there. The nullable `country` of a destination is kept but never shown.
- ReservationsModel.ReservationTable.CreateReservation and ReservationsController.CreateReservation: the source returns nothing (reservationsModel.py:137-140, reservationsController.py:66-68). The model returns the new id only so that the contracts can name it, and no caller in the source sees it.
- The edit window turns any exception of an update into a `(False, e)` pair. The model returns `DoesNotExist` from the update instead.
- The reservations window's `getTreeLayout` (reservationsView.py:226) calls `reservationsController.retrieveTreeData`, which the controller does not define (it has `_retrieveTreeData` and `retrieveReservations`). As written, building a `ReservationsWindow` raises `AttributeError`, so the controller's refresh path (reservationsController.py:60-62, 74-76) cannot be reached from the GUI. The model starts the window from given tree data, as the evidently intended `retrieveReservations()` call would give.

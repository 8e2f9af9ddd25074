# PyDataMan record form, modelled in Dafny

PyDataMan is a small desktop form that keeps contact-like records
(username, first name, phone, address, approval flag) in one SQLite table,
`Main`, and shows them in a table widget. This project models the part of
`main.py` that is logic rather than widgets:

- `validation.dfy` (module `Validation`): the field validator
  `validate_fields`. The duplicate rule is Python's substring test
  `candidate in username`, stated against a reference definition of
  "is a substring". The phone rule is `re.match('^[2-9]\d{2}-\d{3}-\d{4}', phone)`.
  It is written as a list of character classes matched at the start of the
  string only, and proved equal to a position-by-position check of the
  first twelve characters. `\d` is taken as ASCII `0-9` (the pattern has no
  UNICODE flag).
- `records.dfy` (module `Records`): the table rows (`Record`), the widget
  rows (`Row`) and the pure meaning of the statements the form issues.
  - INSERT with a NULL id takes SQLite's rowid rule: one more than the
    largest id present, or 1 in an empty table.
  - DELETE ... WHERE username=? removes every matching record.
  - SELECT * returns the records in storage order.
  - Lemmas say when the widget and the table stay in step.
- `main_window.dfy` (module `MainWindow`): class `Main` with two fields.
  `store` is table `Main`, `view` is the widget's rows. Its methods are the
  handlers `load_initial_settings`, `validate_fields`, `add_button_clicked`,
  `remove_row_clicked`, and the row and count part of
  `export_action_triggered`. The texts of the input fields, the checkbox
  state, the selected row and the path chosen in the save dialog are
  parameters.
- `export.dfy` (module `Export`): the six-field tuples handed to the CSV
  writer, and a proof that they carry every field of every record.

Two behaviours of the program are kept as written and shown by lemmas:

- Remove deletes every record that has the selected row's username, but
  only the selected row leaves the widget. Widget and table stay in step
  exactly when no other record has that username (`RemoveMirrorsIff`).
  A validated Add can never create a second record with an existing
  username (`ValidInsertKeepsUniqueUsernames`). A table that already holds
  such duplicates does fall out of step (`RemoveDiverges`).
- After a restart every row shows "Not approved" (see Findings).

The substring duplicate rule and the start-only phone anchor look looser
than intended. They are still modelled literally: candidate "ob" is
rejected when "bob" is stored, and "234-567-89101" is accepted.

## Model

| member | source | states |
|---|---|---|
| `Validation.Contains` | main.py:98 | the search `candidate in username`, written `Contains(candidate, username)` with the same argument order as `IsSubstring`, is true exactly when the candidate occurs at some position of the username |
| `Validation.EmptyIsSubstring` | main.py:98 | the empty candidate occurs in every username |
| `Validation.LongerIsNotSubstring` | main.py:98 | a candidate longer than a stored username never occurs in it |
| `Validation.MatchAtStartIff` | main.py:102 | a start-anchored, repetition-free pattern matches exactly when the string is at least as long as the pattern and each of the first characters is in its class |
| `Validation.PhoneMatchesIff` | main.py:102 | the phone pattern (`PhoneMatches`, which is `MatchAtStart` of `PhonePattern`) accepts exactly the strings whose first twelve characters are a digit 2-9, two digits, `-`, three digits, `-`, four digits |
| `Validation.PhoneIgnoresSuffix` | main.py:102 | characters after the twelfth never turn an accepted phone into a rejected one |
| `Validation.ShortPhoneRejected` | main.py:102 | a phone shorter than twelve characters is rejected |
| `Validation.TrailingDigitAccepted` | main.py:102 | "234-567-89101" is accepted |
| `Validation.Validate` | main.py:94-106 | its body tests `IsDuplicate` (the scan of `Contains`) and then `PhoneMatches`; the contract states DuplicateUsername iff the candidate is a substring of some stored username; InvalidPhone iff it is no duplicate and the phone has the wrong shape; Accepted iff both checks pass |
| `Validation.EmptyUsernameRejected` | main.py:95-100 | with at least one stored username, the empty candidate is rejected as a duplicate whatever the phone |
| `Validation.DuplicateDecidedFirst` | main.py:97-104 | a duplicate is reported whatever the phone: the phone check never overrides it |
| `Validation.SubstringNotEquality` | main.py:97-100 | with "bob" stored, "ob" is a duplicate and "bobby" is accepted |
| `Records.Usernames` | main.py:95-96 | `SELECT username FROM Main` gives one username per record, in storage order |
| `Records.MaxId` | main.py:38-39 | the largest id of a non-empty table is at least every stored id and is one of them |
| `Records.NextId` | main.py:82-83 | the id of an inserted record is larger than every stored id, and is 1 in an empty table |
| `Records.InsertKeepsDistinctIds` | main.py:82-83 | appending the inserted record keeps the primary key distinct |
| `Records.InsertKeepsAscendingIds` | main.py:82-83 | appending the inserted record keeps the ids ascending, so storage order stays rowid order |
| `Records.ValidInsertKeepsUniqueUsernames` | main.py:72-83 | a record admitted by the validator never repeats a stored username |
| `Records.DeleteByUsername` | main.py:90 | a record survives the delete iff it was stored and its username differs from the deleted one |
| `Records.DeleteDistributes` | main.py:90 | deleting from a concatenation is deleting from each part: the survivors keep their order |
| `Records.DeleteLength` | main.py:90 | the delete removes exactly as many records as carry the username |
| `Records.DeleteNoMatch` | main.py:90 | deleting leaves the table unchanged iff no record has that username |
| `Records.DeleteSingle` | main.py:89-92 | when only the record at position k has its username, deleting that username removes exactly position k |
| `Records.DeleteKeepsDistinctIds` | main.py:90 | the delete keeps the primary key distinct |
| `Records.DeleteKeepsAscendingIds` | main.py:90 | the delete keeps the ids ascending, so storage order stays rowid order |
| `Records.RemoveAt` | main.py:92 | `removeRow(k)` drops position k and keeps the other rows in order |
| `Records.InsertAt` | main.py:58 | `insertRow(k)` with its items puts the row at k and shifts the rows from k down by one |
| `Records.IndexOf` | main.py:57 | `allRows.index(row)` is the first position holding the row |
| `Records.IndexOfDistinct` | main.py:55-57 | with distinct ids every record is found at its own position |
| `Records.LoadedView` | main.py:53-63 | loading (each row built by `LoadedRow`, main.py:59-63) gives one row per record in storage order with the four text columns copied, and every status label is "Not approved" |
| `Records.RemoveMirrorsIff` | main.py:86-92 | after a remove, widget and table are still in step iff no other record shares the selected row's username |
| `Records.RemoveKeepsMirror` | main.py:86-92 | with unique usernames a remove keeps widget and table in step |
| `Records.RemoveDiverges` | main.py:89-92 | with two records named "bob", removing one row deletes both records while the widget still shows one row |
| `Records.LoadedStatusAsWritten` | main.py:63 | the label shown after loading differs from the label of the stored flag exactly when the stored status is "True" |
| `Records.ReloadForgetsApproval` | main.py:63 | an approved record added by the form is shown differently after a restart than when it was added |
| `Records.LoadedStatus` | main.py:63 | the intended label, `StatusLabel` of the stored flag (the same label main.py:81 uses), is "Approved" exactly when the stored status is "True" |
| `Records.IntendedReloadMatchesAdd` | main.py:81-82 | with the intended label, reloading a record (`IntendedLoadedRow`, the corrected row of main.py:59-63) gives the row the form showed when it added it |
| `Export.RecordOf` | main.py:118-121 | a row read back as a record is one whose six fields are that row |
| `Export.ExportRoundTrip` | main.py:118-121 | the exported rows (`ExportRows`) read back give exactly the stored records, in order |
| `MainWindow.Main.constructor` | main.py:31-51 | opening the window on a table whose ids ascend (rowid order, as `SELECT *` returns it) leaves the table as it is and fills the widget with the loaded view |
| `MainWindow.Main.LoadInitialSettings` | main.py:53-63 | the table is unchanged and the loaded rows come before whatever the widget held, in storage order |
| `MainWindow.Main.ValidateFields` | main.py:94-106 | the scan with early return gives the verdict of `Validate` over the stored usernames |
| `MainWindow.Main.AddButtonClicked` | main.py:65-84 | on a failed validation nothing changes; otherwise exactly one record, `NewRecord` (fields verbatim, fresh id from `NextId`, "True"/"False" from `StoredStatus`, main.py:82), and one row, `AddedRow` (main.py:76-81, its label from `StatusLabel`), are appended; mirroring and unique usernames are kept |
| `MainWindow.Main.RemoveRowClicked` | main.py:86-92 | with row -1 nothing changes; otherwise the table loses exactly the records with the selected username, order kept, and the widget loses exactly the selected row; with unique usernames they stay in step |
| `MainWindow.Main.ExportActionTriggered` | main.py:111-122 | a cancelled dialog exports nothing; otherwise one six-field row per record (`Cells` of the record; the whole export is `ExportRows`, main.py:118-121) in storage order, and the reported count equals the number of records |

## Left out

- Widgets, layout, message boxes, the file dialog, signal wiring, `closeEvent` and the exit confirmation: user-interface glue. A message box is reduced to the `Verdict` it reports.
- The `showToolbar` preference, `QSettings` and `utilities.str2bool`/`bool2str`: user-settings storage. `utilities` is not part of this model.
- The SQLite connection, commits and `CREATE TABLE`: storage I/O. Only the sequence meaning of INSERT, DELETE and SELECT is kept, and storage faults are not modelled.
- Records.NextId: does not model SQLite's fallback when the largest id is already 9223372036854775807. SQLite then picks an unused id at random; the model's unbounded integers never reach that case.
- MainWindow.Main.ExportActionTriggered: does not model CSV quoting, the file write, or the failure path that shows an error dialog (main.py:123-125). These belong to the `csv` library and the filesystem. Under Python 2 that path is also reached by the data. `writerow` calls `str()` on the `unicode` fields sqlite3 returns, so a non-ASCII character in any record raises partway through the file, and no count is reported. `str(QDir.toNativeSeparators(...))` at main.py:122 raises on a non-ASCII path after every row is written. A `Some` report therefore stands for the run where neither happens. The reported path is the chosen path itself, not its `toNativeSeparators` form. The success message is reduced to its row count and path.
- The app-data directory, logging, `unhandled_exception` and `main`: process plumbing.
- `import_action_triggered` and `about_action_triggered`: empty in the program.
- MainWindow.Main.RemoveRowClicked: requires `currentRow < |view|`. A value at or past the row count would make `item()` return None and raise at main.py:89. A value below -1 is skipped like -1.

## Findings

| source | as written | input that shows it | evidently intended | confidence | as-written member | corrected member |
|---|---|---|---|---|---|---|
| main.py:63 | `str(row[5]) is True` compares a string with the boolean object by identity, so it is never true and every reloaded row shows "Not approved" | add a record with the box ticked (shown "Approved", stored "True"), then restart: the row shows "Not approved" | `str(row[5]) == "True"`, so the label after a restart is the label shown when the record was added | high; not executed | `Records.LoadedStatusAsWritten`, `Records.ReloadForgetsApproval` | `Records.LoadedStatus`, `Records.IntendedReloadMatchesAdd` |

The window class keeps the as-written label in `LoadInitialSettings`,
because that is what the program shows. The corrected label is proved
against the rows the form builds in `AddButtonClicked`.

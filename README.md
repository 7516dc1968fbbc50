# Device record store of `DeviceAppWithDB`

`asa.py` is a Tkinter form application that keeps, for a fixed list of four
devices ("Камеры", "Микроконтроллера", "Датчик движения", "Термометр"), a text
description and an optional image in one SQLite table, `devices`, with the
columns `id` (INTEGER PRIMARY KEY AUTOINCREMENT), `device_name`,
`text_content`, `image_data`, `image_path` and `last_updated`. This project
models that table and the effect each user action has on it, and proves
what each action changes and what it leaves alone.

- `strip.dfy` — module `PyStrip`: Python's `str.strip()`, applied to every
  text before it is stored.
- `table.dfy` — module `DeviceTable`: rows, the device list, the default
  texts, and the SQL statements as functions on a sequence of rows in rowid
  order: the seeding INSERT loop (`Seed`), the three `UPDATE … WHERE
  device_name = ?` statements (`Update` with an `Assignment`), the
  `SELECT … WHERE device_name = ?` + `fetchone()` lookup (`Find`, `Fetch`)
  and the welcome-screen flags (`StatusOf`, `StatusFor`); then the
  read-back, frame, seeding and reset lemmas.
- `app.dfy` — module `DeviceStore`: class `DeviceApp`, whose fields are the
  table (`rows`) and the AUTOINCREMENT counter (`lastId`), and whose methods
  are `init_database`, `save_text_to_db`, `load_text_from_file`,
  `reset_text`, `load_image_to_db`, `delete_image_from_db`, `clear_db`,
  `clear_db_confirm` and the statistics loop of `show_welcome`.

Decisions:

- The table is a sequence, not a map: `device_name` carries no UNIQUE
  constraint and its index is not unique, so an UPDATE by name changes every
  row with that name, and nothing when there is none. There is no upsert.
- `fetchone()` after a SELECT by name is modelled as the first matching row
  in rowid order (what SQLite's scan of `idx_device_name` yields for equal
  keys).
- `id` follows AUTOINCREMENT: each INSERT takes the counter plus one, and
  `DELETE FROM devices` does not reset the counter, so the rows `clear_db`
  seeds have new ids.
- Tk's `Text.get("1.0", END)` returns the widget content followed by a
  newline (`WidgetValue`); the model proves that `strip` removes it, so what
  is stored is the stripped content.
- The current time (`CURRENT_TIMESTAMP`) is a `now` parameter. Confirmation
  dialogs are a `confirmed` flag. A file dialog is its returned path, `""`
  when cancelled; reading the file is its result, `None` when it failed
  (the source catches the exception and changes nothing).
- `device_name` has no UNIQUE constraint (asa.py:40) and its index is not
  unique (asa.py:49-51), so nothing keeps one row per device. `init_database`
  seeds only a table that is completely empty (`SELECT COUNT(*)` is 0,
  asa.py:56-57), so a table missing the row of one device stays without it
  (`InitializedNoSelfHeal`).

## Model

| member | source | states |
|---|---|---|
| `PyStrip.IsSpace` | asa.py:331 | the characters `str.strip()` removes: the code points Python's `str.isspace` accepts |
| `PyStrip.TrimLeft` | asa.py:331 | the left half of `strip`: a suffix of the input that is empty or does not start with whitespace |
| `PyStrip.TrimLeftCutsSpace` | asa.py:331 | everything the left trim removes is whitespace, so the kept suffix is the longest one not starting with whitespace |
| `PyStrip.TrimRight` | asa.py:331 | the right half of `strip`: a prefix of the input that is empty or does not end with whitespace |
| `PyStrip.TrimRightCutsSpace` | asa.py:331 | everything the right trim removes is whitespace, so the kept prefix is the longest one not ending with whitespace |
| `PyStrip.Strip` | asa.py:331 | neither end of the stored text is whitespace, and it is no longer than the input |
| `PyStrip.StripIsInnerSlice` | asa.py:331 | the stored text is an inner slice of the input: everything cut off before and after it is whitespace |
| `PyStrip.TrimLeftNonSpace` | asa.py:331 | a text starting with a non-space character is left as it is by the left half of `strip` |
| `PyStrip.StripStripped` | asa.py:331 | a text without whitespace at its ends is stored unchanged |
| `PyStrip.StripIdempotent` | asa.py:331 | stripping a stripped text changes nothing |
| `PyStrip.StripAppendSpace` | asa.py:331 | a whitespace character appended at the end does not change the stripped text |
| `DeviceTable.WidgetValue` | asa.py:331 | `Text.get("1.0", END)`: the widget content followed by the newline Tk appends |
| `DeviceTable.StoredTextIsStripped` | asa.py:331 | the newline Tk appends to a text widget's content is not stored: strip of widget value equals strip of content |
| `DeviceTable.Get` | asa.py:74 | `dict.get`: the value of the first entry carrying the key, if any |
| `DeviceTable.DefaultText` | asa.py:66-74 | `get_default_text`: the template under the device name in `defaults`, else "Добавьте текст для " followed by the name |
| `DeviceTable.GetMissing` | asa.py:74 | `dict.get` of a key no entry carries finds nothing |
| `DeviceTable.GetFirst` | asa.py:74 | `dict.get` of a key finds the value of the entry carrying it |
| `DeviceTable.DefaultTextOfDevice` | asa.py:68-74 | the `defaults` entries are keyed by the device list in order, and each listed device gets its own template |
| `DeviceTable.DefaultTextFallback` | asa.py:74 | any name outside the device list gets "Добавьте текст для " followed by the name |
| `DeviceTable.DefaultTextLength` | asa.py:66-74 | every default text, template or generic prompt, is longer than 10 characters |
| `DeviceTable.DevicesDistinct` | asa.py:16-16 | the four listed device names are pairwise different |
| `DeviceTable.TemplatesStripped` | asa.py:69-72 | no template begins or ends with whitespace |
| `DeviceTable.Inserted` | asa.py:60-63 | the row one INSERT of name and text creates: null image and path, the current timestamp |
| `DeviceTable.Seed` | asa.py:58-63 | seeding inserts exactly one row per listed name, in list order, with consecutive ids after the counter, the default text, no image and no path |
| `DeviceTable.SeedSnoc` | asa.py:58-63 | seeding one more name appends exactly one row, with the next id, after the rows of the earlier names |
| `DeviceTable.SeedWellFormed` | asa.py:39-39 | seeded ids are positive, increasing and within the advanced counter |
| `DeviceTable.Initialized` | asa.py:56-63 | the effect of `init_database` on the rows: the seed if the table is empty, the table as it was otherwise |
| `DeviceTable.Update` | asa.py:334-338 | an UPDATE by name applies its SET clause to every row with that name and leaves every other row as it was; no row is added, removed or moved; the same holds for the image UPDATEs at asa.py:212-216 and asa.py:229-234 |
| `DeviceTable.Assign` | asa.py:336 | the three SET clauses applied to one row, each also setting `last_updated` (the text clause here, the image clauses at asa.py:214 and asa.py:231) |
| `DeviceTable.AssignFrame` | asa.py:334-338 | each SET clause changes only its own columns and the timestamp: the text clause only the text, the image clauses only image and path; id and name never change; the same holds for the image UPDATEs at asa.py:212-216 and asa.py:229-234 |
| `DeviceTable.UpdateMissing` | asa.py:334-338 | an UPDATE by a name no row carries leaves the table unchanged (no upsert); the same holds for the image UPDATEs at asa.py:212-216 and asa.py:229-234 |
| `DeviceTable.UpdateWellFormed` | asa.py:334-338 | UPDATEs keep ids, so the id invariant of the table is preserved; the same holds for the image UPDATEs at asa.py:212-216 and asa.py:229-234 |
| `DeviceTable.Find` | asa.py:121-126 | the fetched row is the first row with the name; there is none exactly when no row has the name |
| `DeviceTable.Fetch` | asa.py:121-126 | `execute` of the SELECT by name then `fetchone()`: the row `Find` locates, or none |
| `DeviceTable.StatusOf` | asa.py:130-131 | the flags of one row: has-text when the text is non-null and longer than 10 characters, has-photo when the image is non-null and not empty; what each action does to them is proved in `SeedReadBack`, `SaveTextFlags`, `ImageReadBack`, `DeleteImageReadBack` and `ResetTextFlags` |
| `DeviceTable.StatusFor` | asa.py:128-131 | the welcome line of a device: nothing without a row, else the flags of the fetched row |
| `DeviceTable.FetchAfterUpdate` | asa.py:334-338 | reading a device back after an UPDATE by its name yields the previously fetched row with the SET clause applied, or still nothing; the same holds for the image UPDATEs at asa.py:212-216 and asa.py:229-234 |
| `DeviceTable.FetchOtherAfterUpdate` | asa.py:334-338 | an UPDATE by one name does not change what is read back for another name |
| `DeviceTable.SaveTextReadBack` | asa.py:329-339 | saving text and reading it back yields exactly the stripped text, with image and path unchanged |
| `DeviceTable.SaveTextFlags` | asa.py:329-339 | after saving, the has-text flag is raised exactly when the stored text is longer than 10 characters, and the photo flag is as it was, with the flags as computed at asa.py:128-131 |
| `DeviceTable.ImageReadBack` | asa.py:205-216 | loading an image and reading it back yields the file's bytes verbatim and its path, with the text unchanged; the photo flag is raised iff the file was not empty |
| `DeviceTable.DeleteImageReadBack` | asa.py:229-234 | after a delete, reading back yields a null image and path and no photo flag, with the text unchanged |
| `DeviceTable.ResetStoresTemplate` | asa.py:365-371 | resetting a listed device stores exactly its template |
| `DeviceTable.ResetRaisesTextFlag` | asa.py:365-371 | for any device name, the text a reset stores is longer than 10 characters |
| `DeviceTable.ResetTextFlags` | asa.py:365-371 | after a reset of a device that has a row, reading it back shows the has-text flag, whatever the device name |
| `DeviceTable.StrippedDefaultLength` | asa.py:66-74 | every default text is still longer than 10 characters after `strip` |
| `DeviceTable.FallbackStripLength` | asa.py:74-74 | the generic prompt for an unlisted name keeps at least 18 characters through strip |
| `DeviceTable.SeedReadBack` | asa.py:56-64 | in a freshly seeded table, each listed device reads back its own row with the default text and no image, and shows has-text and no photo |
| `DeviceTable.InitializedIdempotent` | asa.py:56-57 | running start-up initialisation a second time leaves the table as the first run left it |
| `DeviceTable.InitializedNoSelfHeal` | asa.py:56-57 | on a non-empty table, a device whose row is missing is still missing after initialisation |
| `DeviceStore.DeviceApp.constructor` | asa.py:10-19 | opening a stored table runs initialisation: the rows are the seed if the table was empty, the stored table otherwise, and never empty; the counter advances by the number of devices exactly when the table was empty |
| `DeviceStore.DeviceApp.InitDatabase` | asa.py:55-64 | on an empty table seeds one default row per device and advances the counter by four; on a non-empty one changes nothing |
| `DeviceStore.DeviceApp.Insert` | asa.py:60-63 | on a well-formed table, one INSERT appends a row with the next id, the given name and text, null image and path, and `now` as its timestamp, and keeps the table well formed |
| `DeviceStore.DeviceApp.InsertDefault` | asa.py:59-63 | one turn of the seeding loop extends the seeded rows by the default row of the next name and advances the counter by one |
| `DeviceStore.DeviceApp.SeedDefaults` | asa.py:58-63 | the insert loop over the device list leaves exactly the seed rows, counter advanced by the number of devices; `clear_db` runs the same loop at asa.py:452-457 |
| `DeviceStore.DeviceApp.ExecuteUpdate` | asa.py:334-338 | one UPDATE by name leaves exactly the rows `Update` describes, keeps the counter and keeps the table well formed |
| `DeviceStore.DeviceApp.SaveTextToDb` | asa.py:329-339 | every row of the device gets the stripped widget text and timestamp `now`; image, path, other rows and counter unchanged |
| `DeviceStore.DeviceApp.LoadTextFromFile` | asa.py:345-363 | a chosen and read file's text is saved as by `save_text_to_db`; a cancelled dialog or failed read changes nothing |
| `DeviceStore.DeviceApp.ResetText` | asa.py:365-371 | once confirmed, the device's rows store the stripped default text, exactly like a save of the template; otherwise nothing changes |
| `DeviceStore.DeviceApp.LoadImageToDb` | asa.py:199-224 | every row of the device gets the file's bytes, its path and timestamp `now`; text, other rows and counter unchanged; cancel or failed read change nothing |
| `DeviceStore.DeviceApp.DeleteImageFromDb` | asa.py:226-234 | once confirmed, image and path of every row of the device become null and the timestamp `now`; text, other rows and counter unchanged |
| `DeviceStore.DeviceApp.ClearDb` | asa.py:445-458 | whatever the prior contents, the table ends holding exactly the rows initialisation seeds into an empty table, numbered on from the counter |
| `DeviceStore.DeviceApp.ClearDbConfirm` | asa.py:439-443 | once the warning is confirmed, the table holds exactly the seed rows and the counter has advanced by the number of devices; otherwise rows and counter are unchanged |
| `DeviceStore.DeviceApp.WelcomeStats` | asa.py:120-131 | one entry per listed device, in order: none if the device has no row, otherwise the flags of the row its query fetches |

## Left out

- Widget construction, layout, notebooks, menus, labels and message boxes
  (asa.py:76-174, 273-313, 373-419): user interface without store logic.
  Their only inputs to the store, confirmation answers and file-dialog
  results, are method parameters.
- Displaying text and images (`load_text_from_db`, `load_image_from_db`,
  `view_full_image`): their query is `Fetch`; decoding with PIL, thumbnailing
  and the floating-point resize ratio are foreign library calls.
- Reading image and text files from disk, including the UTF-8 decoding of a
  text file: I/O; the bytes or text read, or the failure, are parameters.
- The SQLite connection, cursor, `commit`, `save_all` and `__del__`:
  plumbing with no effect on the rows. Every statement is taken to succeed,
  so the storage-failure branches are not modelled. In the source a failure
  does not always leave the table unchanged: `clear_db` commits its `DELETE`
  (asa.py:448-449) before the reseeding loop, so a failure in that INSERT
  loop leaves the table empty or partly reseeded; not modelled.
- `export_db`: copies the database file with `shutil` under a name built
  from the clock; file I/O and clock use.
- The "Добавить текст" button of `show_func` (asa.py:413): edits a widget
  only and never touches the store.
- `CURRENT_TIMESTAMP` is one `now` per action; that the inserts of one
  seeding loop may see different seconds is not modelled.
- The schema statements `CREATE TABLE IF NOT EXISTS` and `CREATE INDEX IF
  NOT EXISTS`: the table always exists in the model; the index only affects
  the order of `fetchone()`, modelled as rowid order.
- PyStrip.IsSpace: whitespace is a fixed list of the code points Python's
  `str.isspace` accepts, written by hand rather than derived from the
  Unicode database, so full agreement with `str.strip` is not claimed.
- Tk's own rewriting of inserted text (for instance of carriage returns) is
  not modelled; only the newline `Text.get` appends is.

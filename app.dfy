/**
 * The record-store side of `DeviceAppWithDB`: the `devices` table it holds
 * open, and the effect of each user action on that table. Widgets, dialogs
 * and file reading are replaced by their results, passed in as arguments:
 * the text a widget holds, whether a confirmation was accepted, the path a
 * file dialog returned ("" when cancelled) and what reading the file gave
 * (None when it failed).
 */
module DeviceStore {
  import opened PyStrip
  import opened DeviceTable

  class DeviceApp {
    /** The table in rowid order. */
    var rows: seq<Row>
    /** The AUTOINCREMENT counter: the largest id ever handed out. */
    var lastId: nat

    ghost predicate Valid()
      reads this
    {
      WellFormed(rows, lastId)
    }

    /**
     * Start-up: open the table stored in `devices.db` (empty when the file
     * is new), then run `init_database`.
     */
    constructor (stored: seq<Row>, storedLastId: nat, now: Timestamp)
      requires WellFormed(stored, storedLastId)
      ensures Valid()
      ensures rows == Initialized(stored, storedLastId, now)
      ensures lastId == if stored == [] then storedLastId + |Devices| else storedLastId
      ensures rows != []
    {
      rows := stored;
      lastId := storedLastId;
      new;
      InitDatabase(now);
    }

    /** `init_database`: seed one row per device, but only into an empty table. */
    method InitDatabase(now: Timestamp)
      requires Valid()
      modifies this
      ensures Valid()
      ensures rows == Initialized(old(rows), old(lastId), now)
      ensures old(rows) == [] ==> lastId == old(lastId) + |Devices|
      ensures old(rows) != [] ==> lastId == old(lastId)
      ensures rows != []
    {
      if |rows| == 0 {
        SeedDefaults(now);
      }
    }

    /**
     * One `INSERT INTO devices (device_name, text_content) VALUES (?, ?)`. On a
     * well-formed table no id exceeds the counter, so the counter plus one is
     * the id AUTOINCREMENT hands out.
     */
    method Insert(name: string, text: string, now: Timestamp)
      requires Valid()
      modifies this
      ensures Valid()
      ensures lastId == old(lastId) + 1
      ensures rows == old(rows) + [Row(lastId, name, Some(text), None, None, now)]
    {
      lastId := lastId + 1;
      rows := rows + [Inserted(lastId, name, text, now)];
    }

    /** One turn of the seeding loop: insert the default row of `names[i]`. */
    method InsertDefault(names: seq<string>, i: nat, ghost start: nat, now: Timestamp)
      requires i < |names| && lastId == start + i
      requires rows == Seed(names[..i], start, now)
      modifies this
      ensures lastId == start + i + 1
      ensures rows == Seed(names[..i + 1], start, now)
    {
      SeedWellFormed(names[..i], start, now);
      Insert(names[i], DefaultText(names[i]), now);
      SeedSnoc(names[..i], names[i], start, now);
      assert names[..i + 1] == names[..i] + [names[i]];
    }

    /** The loop `for device in self.devices` that inserts each default row in turn. */
    method SeedDefaults(now: Timestamp)
      requires Valid() && rows == []
      modifies this
      ensures Valid()
      ensures rows == Seed(Devices, old(lastId), now)
      ensures lastId == old(lastId) + |Devices|
    {
      ghost var start := lastId;
      for i := 0 to |Devices|
        invariant lastId == start + i
        invariant rows == Seed(Devices[..i], start, now)
      {
        InsertDefault(Devices, i, start, now);
      }
      assert Devices[..|Devices|] == Devices;
      SeedWellFormed(Devices, start, now);
    }

    /** One `UPDATE devices SET … WHERE device_name = ?` statement. */
    method ExecuteUpdate(device: string, a: Assignment, now: Timestamp)
      requires Valid()
      modifies this
      ensures Valid() && lastId == old(lastId)
      ensures rows == Update(old(rows), device, a, now)
    {
      UpdateWellFormed(rows, lastId, device, a, now);
      rows := Update(rows, device, a, now);
    }

    /**
     * `save_text_to_db`: the widget's text, stripped, becomes the text of
     * every row of the device, whose `last_updated` becomes `now`; image,
     * path, every other row and the counter are left as they were.
     */
    method SaveTextToDb(device: string, widget: string, now: Timestamp)
      requires Valid()
      modifies this
      ensures Valid() && lastId == old(lastId)
      ensures rows == Update(old(rows), device, SetText(Strip(widget)), now)
    {
      var text := Strip(WidgetValue(widget));
      StoredTextIsStripped(widget);
      ExecuteUpdate(device, SetText(text), now);
    }

    /**
     * `load_text_from_file`: a text file that was chosen and read is put in
     * the widget and saved; a cancelled dialog or a failed read changes
     * nothing.
     */
    method LoadTextFromFile(device: string, path: string, content: Option<string>, now: Timestamp)
      requires Valid()
      modifies this
      ensures Valid() && lastId == old(lastId)
      ensures path == "" || content.None? ==> rows == old(rows)
      ensures path != "" && content.Some? ==>
                rows == Update(old(rows), device, SetText(Strip(content.value)), now)
    {
      if path != "" {
        if content.Some? {
          SaveTextToDb(device, content.value, now);
        }
      }
    }

    /** `reset_text`: once confirmed, save the device's default text as if typed into the widget. */
    method ResetText(device: string, confirmed: bool, now: Timestamp)
      requires Valid()
      modifies this
      ensures Valid() && lastId == old(lastId)
      ensures !confirmed ==> rows == old(rows)
      ensures confirmed ==> rows == Update(old(rows), device, SetText(Strip(DefaultText(device))), now)
    {
      if confirmed {
        SaveTextToDb(device, DefaultText(device), now);
      }
    }

    /**
     * `load_image_to_db`: the bytes of the chosen file and its path become
     * the image of every row of the device, whose `last_updated` becomes
     * `now`; text, every other row and the counter are left as they were.
     * A cancelled dialog or a failed read changes nothing.
     */
    method LoadImageToDb(device: string, path: string, content: Option<Bytes>, now: Timestamp)
      requires Valid()
      modifies this
      ensures Valid() && lastId == old(lastId)
      ensures path == "" || content.None? ==> rows == old(rows)
      ensures path != "" && content.Some? ==>
                rows == Update(old(rows), device, SetImage(content.value, path), now)
    {
      if path != "" {
        if content.Some? {
          ExecuteUpdate(device, SetImage(content.value, path), now);
        }
      }
    }

    /**
     * `delete_image_from_db`: once confirmed, image and path of every row of
     * the device become NULL and `last_updated` becomes `now`; text, every
     * other row and the counter are left as they were.
     */
    method DeleteImageFromDb(device: string, confirmed: bool, now: Timestamp)
      requires Valid()
      modifies this
      ensures Valid() && lastId == old(lastId)
      ensures !confirmed ==> rows == old(rows)
      ensures confirmed ==> rows == Update(old(rows), device, NullImage, now)
    {
      if confirmed {
        ExecuteUpdate(device, NullImage, now);
      }
    }

    /**
     * `clear_db`: delete every row, then seed the defaults again. Whatever
     * the table held, it ends as an empty table ends after `init_database`;
     * ids continue from the counter, which DELETE does not reset.
     */
    method ClearDb(now: Timestamp)
      requires Valid()
      modifies this
      ensures Valid()
      ensures rows == Seed(Devices, old(lastId), now)
      ensures rows == Initialized([], old(lastId), now)
      ensures lastId == old(lastId) + |Devices|
    {
      rows := [];
      SeedDefaults(now);
    }

    /** `clear_db_confirm`: clear only once the warning was confirmed. */
    method ClearDbConfirm(confirmed: bool, now: Timestamp)
      requires Valid()
      modifies this
      ensures Valid()
      ensures !confirmed ==> rows == old(rows) && lastId == old(lastId)
      ensures confirmed ==> rows == Seed(Devices, old(lastId), now)
      ensures confirmed ==> lastId == old(lastId) + |Devices|
    {
      if confirmed {
        ClearDb(now);
      }
    }

    /**
     * The statistics of `show_welcome`: for each listed device, in order, no
     * line if it has no row, otherwise the has-text and has-photo flags of
     * the row its query fetches.
     */
    method WelcomeStats() returns (stats: seq<Option<Status>>)
      ensures |stats| == |Devices|
      ensures forall i :: 0 <= i < |Devices| ==> stats[i] == StatusFor(rows, Devices[i])
    {
      stats := [];
      for i := 0 to |Devices|
        invariant |stats| == i
        invariant forall k :: 0 <= k < i ==> stats[k] == StatusFor(rows, Devices[k])
      {
        var result := Fetch(rows, Devices[i]);
        if result.Some? {
          stats := stats + [Some(StatusOf(result.value))];
        } else {
          stats := stats + [None];
        }
      }
    }
  }
}

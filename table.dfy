/**
 * The `devices` table of `devices.db` as a sequence of rows in rowid order,
 * and the SQL statements the application runs on it as functions on that
 * sequence. `device_name` is neither unique nor a key: an UPDATE by name
 * touches every row with that name, or none.
 */
module DeviceTable {
  import opened PyStrip

  datatype Option<T> = None | Some(value: T)

  newtype byte = b: int | 0 <= b < 256
  type Bytes = seq<byte>

  /** The text SQLite's CURRENT_TIMESTAMP yields at the moment of a statement. */
  type Timestamp = string

  /** One row: `id`, `device_name`, `text_content`, `image_data`, `image_path`, `last_updated`. */
  datatype Row = Row(
    id: nat,
    deviceName: string,
    textContent: Option<string>,
    imageData: Option<Bytes>,
    imagePath: Option<string>,
    lastUpdated: Timestamp)

  /** The fixed device list of the application, in menu order. */
  const Devices: seq<string> := ["Камеры", "Микроконтроллера", "Датчик движения", "Термометр"]

  /**
   * The `defaults` dictionary of `get_default_text`: its entries in order,
   * each a device name with its template.
   */
  const Defaults: seq<(string, string)> := [
    (Devices[0], CameraTemplate),
    (Devices[1], ControllerTemplate),
    (Devices[2], MotionTemplate),
    (Devices[3], ThermometerTemplate)
  ]

  /** The templates: a heading line and a bulleted list, written as two literals joined. */
  const CameraTemplate: string :=
    "Характеристики камер:\n" +
    "• Разрешение\n• Фокусное расстояние\n• Чувствительность"
  const ControllerTemplate: string :=
    "Характеристики микроконтроллера:\n" +
    "• Архитектура\n• Частота\n• Память"
  const MotionTemplate: string :=
    "Характеристики датчика:\n" +
    "• Дальность\n• Угол обзора\n• Чувствительность"
  const ThermometerTemplate: string :=
    "Характеристики термометра:\n" +
    "• Диапазон\n• Точность\n• Время отклика"

  /** The text of a device without a template. */
  const FallbackPrefix: string := "Добавьте текст для "

  /** `dict.get(key)` on a dictionary given by its entries: the value stored under `key`, if any. */
  function Get(entries: seq<(string, string)>, key: string): Option<string> {
    if entries == [] then None
    else if entries[0].0 == key then Some(entries[0].1)
    else Get(entries[1..], key)
  }

  /** A key that no entry carries is not found. */
  lemma {:induction false} GetMissing(entries: seq<(string, string)>, key: string)
    requires forall i :: 0 <= i < |entries| ==> entries[i].0 != key
    ensures Get(entries, key) == None
  {
    if entries != [] {
      assert entries[0].0 != key;
      GetMissing(entries[1..], key);
    }
  }

  /** A key is found with the value of the first entry that carries it. */
  lemma {:induction false} GetFirst(entries: seq<(string, string)>, key: string, i: nat)
    requires i < |entries| && entries[i].0 == key
    requires forall j :: 0 <= j < i ==> entries[j].0 != key
    ensures Get(entries, key) == Some(entries[i].1)
  {
    if i > 0 {
      assert entries[0].0 != key;
      GetFirst(entries[1..], key, i - 1);
    }
  }

  /**
   * The default text of a device: its template, or the generic prompt for a
   * name without one.
   */
  function DefaultText(device: string): string {
    match Get(Defaults, device)
    case Some(t) => t
    case None => FallbackPrefix + device
  }

  /** No name occurs twice. */
  predicate Distinct(names: seq<string>) {
    forall i, j :: 0 <= i < j < |names| ==> names[i] != names[j]
  }

  /** Ids are positive, strictly increasing in rowid order and no larger than the AUTOINCREMENT counter. */
  predicate WellFormed(rows: seq<Row>, lastId: nat) {
    && (forall i :: 0 <= i < |rows| ==> 0 < rows[i].id <= lastId)
    && (forall i, j :: 0 <= i < j < |rows| ==> rows[i].id < rows[j].id)
  }

  // ---------------------------------------------------------------- INSERT

  /** `INSERT INTO devices (device_name, text_content) VALUES (?, ?)`: the other columns take their defaults. */
  function Inserted(id: nat, name: string, text: string, now: Timestamp): Row {
    Row(id, name, Some(text), None, None, now)
  }

  /**
   * The rows the seeding loop inserts into an empty table, one per name in
   * list order, when the AUTOINCREMENT counter stands at `lastId`.
   */
  function Seed(names: seq<string>, lastId: nat, now: Timestamp): (rows: seq<Row>)
    ensures |rows| == |names|
    ensures forall i {:trigger rows[i]} :: 0 <= i < |names| ==>
              rows[i] == Row(lastId + i + 1, names[i], Some(DefaultText(names[i])), None, None, now)
  {
    if names == [] then []
    else
      var n := |names| - 1;
      Seed(names[..n], lastId, now) + [Inserted(lastId + n + 1, names[n], DefaultText(names[n]), now)]
  }

  /** Seeding one more name appends one more row, with the next id. */
  lemma SeedSnoc(names: seq<string>, name: string, lastId: nat, now: Timestamp)
    ensures Seed(names + [name], lastId, now) ==
            Seed(names, lastId, now) + [Inserted(lastId + |names| + 1, name, DefaultText(name), now)]
  {
    assert (names + [name])[..|names|] == names;
  }

  /** A seeded table is well formed once the counter has moved past the ids it used. */
  lemma SeedWellFormed(names: seq<string>, lastId: nat, now: Timestamp)
    ensures WellFormed(Seed(names, lastId, now), lastId + |names|)
  {
  }

  /**
   * What `init_database` leaves in the table: the seed if the table was
   * empty (`SELECT COUNT(*)` is 0), otherwise the table as it was.
   */
  function Initialized(rows: seq<Row>, lastId: nat, now: Timestamp): seq<Row> {
    if |rows| == 0 then Seed(Devices, lastId, now) else rows
  }

  // ---------------------------------------------------------------- UPDATE

  /** The SET clause of the three UPDATE statements. */
  datatype Assignment =
    | SetText(text: string)                   // text_content = ?
    | SetImage(data: Bytes, path: string)     // image_data = ?, image_path = ?
    | NullImage                               // image_data = NULL, image_path = NULL

  /** One row after a SET clause; every clause also sets `last_updated = CURRENT_TIMESTAMP`. */
  function Assign(r: Row, a: Assignment, now: Timestamp): Row {
    match a
    case SetText(t) => r.(textContent := Some(t), lastUpdated := now)
    case SetImage(d, p) => r.(imageData := Some(d), imagePath := Some(p), lastUpdated := now)
    case NullImage => r.(imageData := None, imagePath := None, lastUpdated := now)
  }

  /**
   * What each SET clause touches: the text clause only the text, the two
   * image clauses only image and path, and all three the timestamp; id and
   * name never change.
   */
  lemma AssignFrame(r: Row, a: Assignment, now: Timestamp)
    ensures var r' := Assign(r, a, now);
            && r'.id == r.id && r'.deviceName == r.deviceName && r'.lastUpdated == now
            && (a.SetText? ==> r'.textContent == Some(a.text) && r'.imageData == r.imageData && r'.imagePath == r.imagePath)
            && (a.SetImage? ==> r'.imageData == Some(a.data) && r'.imagePath == Some(a.path) && r'.textContent == r.textContent)
            && (a.NullImage? ==> r'.imageData == None && r'.imagePath == None && r'.textContent == r.textContent)
  {
  }

  /**
   * `UPDATE devices SET … WHERE device_name = ?`: every row with that name
   * gets the assignment, every other row stays as it was, and no row is
   * added, removed or moved.
   */
  function Update(rows: seq<Row>, name: string, a: Assignment, now: Timestamp): (r: seq<Row>)
    ensures |r| == |rows|
    ensures forall i {:trigger r[i]} :: 0 <= i < |rows| ==>
              r[i] == if rows[i].deviceName == name then Assign(rows[i], a, now) else rows[i]
  {
    if rows == [] then []
    else
      var head := if rows[0].deviceName == name then Assign(rows[0], a, now) else rows[0];
      [head] + Update(rows[1..], name, a, now)
  }

  /** An UPDATE by a name no row carries changes nothing: there is no upsert. */
  lemma UpdateMissing(rows: seq<Row>, name: string, a: Assignment, now: Timestamp)
    requires forall i :: 0 <= i < |rows| ==> rows[i].deviceName != name
    ensures Update(rows, name, a, now) == rows
  {
  }

  /** An UPDATE keeps ids and names, so it keeps the table well formed. */
  lemma UpdateWellFormed(rows: seq<Row>, lastId: nat, name: string, a: Assignment, now: Timestamp)
    requires WellFormed(rows, lastId)
    ensures WellFormed(Update(rows, name, a, now), lastId)
  {
  }

  // ---------------------------------------------------------------- SELECT

  /**
   * The index of the row `SELECT … WHERE device_name = ?` followed by
   * `fetchone()` yields: the first row with that name, or `|rows|` if none.
   */
  function Find(rows: seq<Row>, name: string): (k: nat)
    ensures k <= |rows|
    ensures k < |rows| ==> rows[k].deviceName == name
    ensures forall j :: 0 <= j < k ==> rows[j].deviceName != name
  {
    if rows == [] then 0
    else if rows[0].deviceName == name then 0
    else 1 + Find(rows[1..], name)
  }

  /** The fetched row, if any. */
  function Fetch(rows: seq<Row>, name: string): Option<Row> {
    var k := Find(rows, name);
    if k < |rows| then Some(rows[k]) else None
  }

  /** The has-text and has-photo flags of the welcome screen. */
  datatype Status = Status(hasText: bool, hasImage: bool)

  /**
   * The flags of one row: text that is present and longer than 10
   * characters, an image that is present and not empty.
   */
  function StatusOf(r: Row): Status
  {
    Status(
      match r.textContent case Some(t) => |t| > 10 case None => false,
      match r.imageData case Some(d) => |d| > 0 case None => false)
  }

  /** The welcome-screen line of a device: nothing if it has no row, else the flags of its first row. */
  function StatusFor(rows: seq<Row>, name: string): Option<Status> {
    match Fetch(rows, name)
    case None => None
    case Some(r) => Some(StatusOf(r))
  }

  // ---------------------------------------------------------------- Tk text widget

  /** `Text.get("1.0", END)`: Tk reports the content followed by its own final newline. */
  function WidgetValue(content: string): string {
    content + "\n"
  }

  /** What `save_text_to_db` stores for a widget holding `content`: the content, stripped. */
  lemma StoredTextIsStripped(content: string)
    ensures Strip(WidgetValue(content)) == Strip(content)
  {
    StripAppendSpace(content, '\n');
  }

  // ---------------------------------------------------------------- properties

  lemma DevicesDistinct()
    ensures Distinct(Devices)
  {
  }

  /** Every listed device gets its own template. */
  lemma DefaultTextOfDevice(i: nat)
    requires i < |Devices|
    ensures Defaults[i].0 == Devices[i]
    ensures DefaultText(Devices[i]) == Defaults[i].1
  {
    DevicesDistinct();
    assert forall j :: 0 <= j < |Defaults| ==> Defaults[j].0 == Devices[j];
    GetFirst(Defaults, Devices[i], i);
  }

  /** A name outside the device list gets "Добавьте текст для " followed by the name. */
  lemma DefaultTextFallback(name: string)
    requires forall i :: 0 <= i < |Devices| ==> Devices[i] != name
    ensures DefaultText(name) == FallbackPrefix + name
  {
    assert forall j :: 0 <= j < |Defaults| ==> Defaults[j].0 == Devices[j];
    GetMissing(Defaults, name);
  }

  /** Every default text, template or generic prompt, is longer than 10 characters. */
  lemma DefaultTextLength(name: string)
    ensures |DefaultText(name)| > 10
  {
    if i :| 0 <= i < |Devices| && Devices[i] == name {
      DefaultTextOfDevice(i);
      assert |Defaults[i].1| > 10;
    } else {
      DefaultTextFallback(name);
    }
  }

  /** Two tables whose rows carry the same names in the same order fetch at the same index. */
  lemma FindSameNames(rows: seq<Row>, rows': seq<Row>, name: string)
    requires |rows| == |rows'|
    requires forall i :: 0 <= i < |rows| ==> rows[i].deviceName == rows'[i].deviceName
    ensures Find(rows, name) == Find(rows', name)
  {
  }

  /** When the names are pairwise different, the row of the `i`-th name is fetched from index `i`. */
  lemma FindDistinct(rows: seq<Row>, names: seq<string>, i: nat)
    requires |rows| == |names| && Distinct(names) && i < |names|
    requires forall k :: 0 <= k < |rows| ==> rows[k].deviceName == names[k]
    ensures Find(rows, names[i]) == i
  {
  }

  /**
   * Reading back after an UPDATE by name: the fetched row is the row fetched
   * before, with the assignment applied; a device without a row stays
   * without one.
   */
  lemma FetchAfterUpdate(rows: seq<Row>, name: string, a: Assignment, now: Timestamp)
    ensures Fetch(Update(rows, name, a, now), name) ==
            match Fetch(rows, name)
            case None => None
            case Some(r) => Some(Assign(r, a, now))
  {
    FindSameNames(rows, Update(rows, name, a, now), name);
  }

  /** An UPDATE by one name does not change what is fetched for another. */
  lemma FetchOtherAfterUpdate(rows: seq<Row>, name: string, other: string, a: Assignment, now: Timestamp)
    requires other != name
    ensures Fetch(Update(rows, name, a, now), other) == Fetch(rows, other)
  {
    FindSameNames(rows, Update(rows, name, a, now), other);
  }

  /** Saving text and reading it back yields exactly the stripped text; the image is left as it was. */
  lemma SaveTextReadBack(rows: seq<Row>, name: string, content: string, now: Timestamp)
    requires Fetch(rows, name).Some?
    ensures var r := Fetch(Update(rows, name, SetText(Strip(WidgetValue(content))), now), name);
            && r.Some?
            && r.value.textContent == Some(Strip(content))
            && r.value.imageData == Fetch(rows, name).value.imageData
            && r.value.imagePath == Fetch(rows, name).value.imagePath
  {
    StoredTextIsStripped(content);
    FetchAfterUpdate(rows, name, SetText(Strip(WidgetValue(content))), now);
  }

  /**
   * Saving text and reading it back: the has-text flag is raised exactly when
   * the stored text is longer than 10 characters; the photo flag is left as
   * it was.
   */
  lemma SaveTextFlags(rows: seq<Row>, name: string, content: string, now: Timestamp)
    requires Fetch(rows, name).Some?
    ensures var after := StatusFor(Update(rows, name, SetText(Strip(content)), now), name);
            && after.Some?
            && (after.value.hasText <==> |Strip(content)| > 10)
            && after.value.hasImage == StatusFor(rows, name).value.hasImage
  {
    FetchAfterUpdate(rows, name, SetText(Strip(content)), now);
  }

  /**
   * Loading an image and reading it back yields the bytes verbatim; the
   * photo flag is raised exactly when the file was not empty.
   */
  lemma ImageReadBack(rows: seq<Row>, name: string, data: Bytes, path: string, now: Timestamp)
    requires Fetch(rows, name).Some?
    ensures var r := Fetch(Update(rows, name, SetImage(data, path), now), name);
            && r.Some?
            && r.value.imageData == Some(data)
            && r.value.imagePath == Some(path)
            && r.value.textContent == Fetch(rows, name).value.textContent
            && (StatusFor(Update(rows, name, SetImage(data, path), now), name).value.hasImage <==> data != [])
  {
    FetchAfterUpdate(rows, name, SetImage(data, path), now);
  }

  /** After deleting the image, reading back yields no image and no photo flag; the text is left as it was. */
  lemma DeleteImageReadBack(rows: seq<Row>, name: string, now: Timestamp)
    requires Fetch(rows, name).Some?
    ensures var r := Fetch(Update(rows, name, NullImage, now), name);
            && r.Some?
            && r.value.imageData == None
            && r.value.imagePath == None
            && r.value.textContent == Fetch(rows, name).value.textContent
            && !StatusFor(Update(rows, name, NullImage, now), name).value.hasImage
  {
    FetchAfterUpdate(rows, name, NullImage, now);
  }

  /** Every template has no whitespace at its ends. */
  lemma TemplatesStripped()
    ensures forall i :: 0 <= i < |Defaults| ==> IsStripped(Defaults[i].1)
  {
  }

  /**
   * Resetting the text of a listed device stores its template exactly:
   * saving the default through the widget and `strip` changes nothing.
   */
  lemma ResetStoresTemplate(i: nat)
    requires i < |Devices|
    ensures Strip(WidgetValue(DefaultText(Devices[i]))) == Defaults[i].1
  {
    TemplatesStripped();
    DefaultTextOfDevice(i);
    StoredTextIsStripped(DefaultText(Devices[i]));
    StripStripped(Defaults[i].1);
  }

  /**
   * Whatever the device name, the text a reset stores is longer than 10
   * characters, so the has-text flag is raised after a reset.
   */
  lemma ResetRaisesTextFlag(name: string)
    ensures |Strip(WidgetValue(DefaultText(name)))| > 10
  {
    StoredTextIsStripped(DefaultText(name));
    StrippedDefaultLength(name);
  }

  /**
   * Resetting a device that has a row and reading it back shows the
   * has-text flag, whatever the device name.
   */
  lemma ResetTextFlags(rows: seq<Row>, name: string, now: Timestamp)
    requires Fetch(rows, name).Some?
    ensures var st := StatusFor(Update(rows, name, SetText(Strip(DefaultText(name))), now), name);
            st.Some? && st.value.hasText
  {
    SaveTextFlags(rows, name, DefaultText(name), now);
    StrippedDefaultLength(name);
  }

  /** `strip` leaves every default text longer than 10 characters. */
  lemma StrippedDefaultLength(name: string)
    ensures |Strip(DefaultText(name))| > 10
  {
    if i :| 0 <= i < |Devices| && Devices[i] == name {
      DefaultTextOfDevice(i);
      TemplatesStripped();
      StripStripped(Defaults[i].1);
      DefaultTextLength(name);
    } else {
      FallbackStripLength(name);
    }
  }

  /** The generic prompt keeps at least its first 18 characters through `strip`. */
  lemma FallbackStripLength(name: string)
    requires forall i :: 0 <= i < |Devices| ==> Devices[i] != name
    ensures |Strip(DefaultText(name))| > 17
  {
    var d := FallbackPrefix + name;
    DefaultTextFallback(name);
    assert FallbackPrefix[0] == 'Д' && FallbackPrefix[17] == 'я';
    assert d[..|FallbackPrefix|] == FallbackPrefix;
    assert !IsSpace(d[0]) && !IsSpace(d[17]);
    TrimLeftNonSpace(d);
    TrimRightKeeps(d, 17);
  }

  /**
   * A freshly seeded table holds, for every listed device, a row with its
   * default text and no image, and shows both the has-text flag and no
   * photo flag.
   */
  lemma SeedReadBack(lastId: nat, now: Timestamp, i: nat)
    requires i < |Devices|
    ensures Fetch(Seed(Devices, lastId, now), Devices[i]) ==
            Some(Row(lastId + i + 1, Devices[i], Some(DefaultText(Devices[i])), None, None, now))
    ensures StatusFor(Seed(Devices, lastId, now), Devices[i]) == Some(Status(true, false))
  {
    DevicesDistinct();
    DefaultTextLength(Devices[i]);
    FindDistinct(Seed(Devices, lastId, now), Devices, i);
  }

  /** Initialisation is idempotent: a second start finds the table filled and leaves it alone. */
  lemma InitializedIdempotent(rows: seq<Row>, lastId: nat, lastId': nat, now: Timestamp, now': Timestamp)
    ensures Initialized(Initialized(rows, lastId, now), lastId', now') == Initialized(rows, lastId, now)
  {
  }

  /**
   * Initialisation does not repair a partial table: a device whose row is
   * missing from a non-empty table is still missing afterwards.
   */
  lemma InitializedNoSelfHeal(rows: seq<Row>, lastId: nat, now: Timestamp, name: string)
    requires rows != [] && Fetch(rows, name).None?
    ensures Fetch(Initialized(rows, lastId, now), name).None?
  {
  }
}

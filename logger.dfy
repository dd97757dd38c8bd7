/**
 * Structured event records (`log_event` in bot/utils/logger.py): an
 * `EVENT=<event>` part followed by the optional `key=value` parts in a fixed
 * order, joined by " | ", emitted at error level when there is an error text.
 * The logging handlers are reduced to the list of records emitted so far.
 */
module Logging {
  import opened Common
  import opened Text

  datatype Level = Info | Error

  datatype Record = Record(level: Level, message: string)

  /** The keys a record can carry. */
  datatype Key = EventKey | UserIdKey | FilenameKey | FileIdKey | ErrorKey

  /** The text of a key as it appears in the message. */
  function KeyName(k: Key): string
  {
    match k
    case EventKey => "EVENT"
    case UserIdKey => "user_id"
    case FilenameKey => "filename"
    case FileIdKey => "file_id"
    case ErrorKey => "error"
  }

  datatype Field = Field(key: Key, value: string)

  /** Python truthiness of an optional text: present and non-empty. */
  predicate Given(o: Option<string>)
  {
    o.Some? && o.value != ""
  }

  /**
   * The fields of a record, in the order `log_event` appends them: the event
   * always comes first, and the keys follow the fixed order event, user_id,
   * filename, file_id, error.
   */
  function Fields(event: string, userId: Option<int>, filename: Option<string>, fileId: Option<string>,
                  error: Option<string>): (fs: seq<Field>)
    ensures |fs| >= 1 && fs[0] == Field(EventKey, event)
    ensures forall i, j :: 0 <= i < j < |fs| ==> Rank(fs[i].key) < Rank(fs[j].key)
  {
    [Field(EventKey, event)]
    + (if userId.Some? then [Field(UserIdKey, IntToString(userId.value))] else [])
    + (if Given(filename) then [Field(FilenameKey, filename.value)] else [])
    + (if Given(fileId) then [Field(FileIdKey, fileId.value)] else [])
    + (if Given(error) then [Field(ErrorKey, error.value)] else [])
  }

  /** `key=value` for each field. */
  function Render(fields: seq<Field>): (parts: seq<string>)
    ensures |parts| == |fields|
    ensures forall i :: 0 <= i < |fields| ==> parts[i] == RenderField(fields[i])
  {
    if fields == [] then [] else [RenderField(fields[0])] + Render(fields[1..])
  }

  function RenderField(f: Field): string
  {
    KeyName(f.key) + "=" + f.value
  }

  lemma RenderAppend(fields: seq<Field>, f: Field)
    ensures Render(fields + [f]) == Render(fields) + [RenderField(f)]
  {
    assert forall i :: 0 <= i < |fields| ==> (fields + [f])[i] == fields[i];
  }

  /** The message text of a record; it always begins with `EVENT=<event>`. */
  function Message(event: string, userId: Option<int>, filename: Option<string>, fileId: Option<string>,
                   error: Option<string>): (m: string)
    ensures |m| >= 6 + |event| && m[..6 + |event|] == "EVENT=" + event
  {
    var parts := Render(Fields(event, userId, filename, fileId, error));
    assert parts[0] == "EVENT" + "=" + event;
    JoinStartsWithFirst(parts, " | ");
    Join(parts, " | ")
  }

  /** Error level exactly when there is an error text. */
  function LevelFor(error: Option<string>): (l: Level)
    ensures l == Error <==> Given(error)
  {
    if Given(error) then Error else Info
  }

  /** The position of each key in the fixed order. */
  function Rank(key: Key): int
  {
    match key
    case EventKey => 0
    case UserIdKey => 1
    case FilenameKey => 2
    case FileIdKey => 3
    case ErrorKey => 4
  }

  /** A key occurs among the fields. */
  predicate HasKey(fields: seq<Field>, key: Key)
  {
    exists i :: 0 <= i < |fields| && fields[i].key == key
  }

  /** The emitted records. */
  class Logger {
    var records: seq<Record>

    constructor ()
      ensures records == []
    {
      records := [];
    }
  }

  /** `log_event`: build the parts one by one, join them, and emit at the level the error text decides. */
  method LogEvent(logger: Logger, event: string, userId: Option<int>, filename: Option<string>,
                  fileId: Option<string>, error: Option<string>)
    modifies logger
    ensures logger.records == old(logger.records)
      + [Record(LevelFor(error), Message(event, userId, filename, fileId, error))]
  {
    var fields := [Field(EventKey, event)];
    ghost var b := if userId.Some? then [Field(UserIdKey, IntToString(userId.value))] else [];
    ghost var c := if Given(filename) then [Field(FilenameKey, filename.value)] else [];
    ghost var d := if Given(fileId) then [Field(FileIdKey, fileId.value)] else [];
    ghost var e := if Given(error) then [Field(ErrorKey, error.value)] else [];
    if userId.Some? {
      fields := fields + [Field(UserIdKey, IntToString(userId.value))];
    }
    assert fields == [Field(EventKey, event)] + b;
    if Given(filename) {
      fields := fields + [Field(FilenameKey, filename.value)];
    }
    assert fields == [Field(EventKey, event)] + b + c;
    if Given(fileId) {
      fields := fields + [Field(FileIdKey, fileId.value)];
    }
    assert fields == [Field(EventKey, event)] + b + c + d;
    if Given(error) {
      fields := fields + [Field(ErrorKey, error.value)];
    }
    assert fields == Fields(event, userId, filename, fileId, error);
    var parts := Render(fields);
    var message := Join(parts, " | ");
    if Given(error) {
      logger.records := logger.records + [Record(Error, message)];
    } else {
      logger.records := logger.records + [Record(Info, message)];
    }
  }

  // ---------------------------------------------------------------------------
  // properties of a record

  /** Each optional field is present exactly when its value is given: `user_id` whenever it is not `None` (so 0 too), the texts when non-empty. */
  lemma FieldPresence(event: string, userId: Option<int>, filename: Option<string>,
                      fileId: Option<string>, error: Option<string>)
    ensures var fs := Fields(event, userId, filename, fileId, error);
      && (HasKey(fs, UserIdKey) <==> userId.Some?)
      && (HasKey(fs, FilenameKey) <==> Given(filename))
      && (HasKey(fs, FileIdKey) <==> Given(fileId))
      && (HasKey(fs, ErrorKey) <==> Given(error))
  {
    var b := if userId.Some? then [Field(UserIdKey, IntToString(userId.value))] else [];
    var c := if Given(filename) then [Field(FilenameKey, filename.value)] else [];
    var d := if Given(fileId) then [Field(FileIdKey, fileId.value)] else [];
    var e := if Given(error) then [Field(ErrorKey, error.value)] else [];
    PartsPresence(event, b, c, d, e);
    assert Fields(event, userId, filename, fileId, error) == [Field(EventKey, event)] + b + c + d + e;
  }

  /** Which keys occur in the event field followed by four optional parts of at most one field each. */
  lemma PartsPresence(event: string, b: seq<Field>, c: seq<Field>, d: seq<Field>, e: seq<Field>)
    requires |b| <= 1 && |c| <= 1 && |d| <= 1 && |e| <= 1
    requires (b != [] ==> b[0].key == UserIdKey) && (c != [] ==> c[0].key == FilenameKey)
    requires (d != [] ==> d[0].key == FileIdKey) && (e != [] ==> e[0].key == ErrorKey)
    ensures var fs := [Field(EventKey, event)] + b + c + d + e;
      && (HasKey(fs, UserIdKey) <==> b != [])
      && (HasKey(fs, FilenameKey) <==> c != [])
      && (HasKey(fs, FileIdKey) <==> d != [])
      && (HasKey(fs, ErrorKey) <==> e != [])
  {
    var a := [Field(EventKey, event)];
    HasKeyConcat(a, b);
    HasKeyConcat(a + b, c);
    HasKeyConcat(a + b + c, d);
    HasKeyConcat(a + b + c + d, e);
    OneField(a, EventKey, event);
    if b != [] { OneField(b, UserIdKey, b[0].value); }
    if c != [] { OneField(c, FilenameKey, c[0].value); }
    if d != [] { OneField(d, FileIdKey, d[0].value); }
    if e != [] { OneField(e, ErrorKey, e[0].value); }
  }

  lemma HasKeyConcat(xs: seq<Field>, ys: seq<Field>)
    ensures forall k :: HasKey(xs + ys, k) <==> HasKey(xs, k) || HasKey(ys, k)
  {
    forall k
      ensures HasKey(xs + ys, k) ==> HasKey(xs, k) || HasKey(ys, k)
    {
      if HasKey(xs + ys, k) {
        var i :| 0 <= i < |xs + ys| && (xs + ys)[i].key == k;
        if i >= |xs| {
          assert ys[i - |xs|].key == k;
        }
      }
    }
    forall k
      ensures HasKey(xs, k) ==> HasKey(xs + ys, k)
    {
      if HasKey(xs, k) {
        var i :| 0 <= i < |xs| && xs[i].key == k;
        assert (xs + ys)[i].key == k;
      }
    }
    forall k
      ensures HasKey(ys, k) ==> HasKey(xs + ys, k)
    {
      if HasKey(ys, k) {
        var i :| 0 <= i < |ys| && ys[i].key == k;
        assert (xs + ys)[|xs| + i].key == k;
      }
    }
  }

  lemma OneField(xs: seq<Field>, key: Key, value: string)
    requires xs == [Field(key, value)]
    ensures forall k :: HasKey(xs, k) <==> k == key
  {
    assert xs[0].key == key;
  }

  /** A user id is rendered in decimal and reads back as the same id. */
  lemma UserIdField(event: string, id: int, filename: Option<string>, fileId: Option<string>, error: Option<string>)
    ensures var fs := Fields(event, Some(id), filename, fileId, error);
      fs[1].key == UserIdKey && ParseInt(fs[1].value) == Some(id)
  {
    ParseIntToString(id);
  }

  /** Joining never puts anything before the first part. */
  lemma {:induction false} JoinStartsWithFirst(parts: seq<string>, sep: string)
    requires |parts| >= 1
    ensures |Join(parts, sep)| >= |parts[0]| && Join(parts, sep)[..|parts[0]|] == parts[0]
    decreases |parts|
  {
    if |parts| > 1 {
      var rest := Join(parts[1..], sep);
      assert Join(parts, sep) == parts[0] + sep + rest;
      assert (parts[0] + sep + rest)[..|parts[0]|] == parts[0];
    }
  }

  /** With only an event and no other values the message is exactly `EVENT=<event>` at info level. */
  lemma BareEvent(event: string)
    ensures Message(event, None, None, None, None) == "EVENT=" + event
    ensures LevelFor(None) == Info
  {
  }
}

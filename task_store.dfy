/// The persistence format of the task list (`tasks.txt`): one line
/// `task,due,priority\n` per row, fields written without escaping, read
/// back by stripping each line and splitting it on commas.
module TaskStore {
  import opened Wrappers
  import opened TextOps

  /// One row of the task table: the three cells Task, Due Time, Priority.
  datatype Row = Row(task: string, due: string, priority: string)

  /// Why a file could not be loaded: line `line` (counted from 0) had only
  /// `fields` comma-separated fields, so reading its third one faults.
  datatype LoadError = MissingField(line: nat, fields: nat)

  /// The text of a row's line without its newline: the three fields
  /// separated by commas.
  function Record(r: Row): string
  {
    r.task + "," + r.due + "," + r.priority
  }

  /// The line `saveTasks` writes for one row.
  function Line(r: Row): string
  {
    Record(r) + "\n"
  }

  /// The whole file `saveTasks` writes: the rows' lines in table order.
  function Serialize(rows: seq<Row>): string
  {
    if rows == [] then "" else Line(rows[0]) + Serialize(rows[1..])
  }

  /// Writing two tables one after the other writes their concatenation.
  lemma {:induction false} SerializeAppend(a: seq<Row>, b: seq<Row>)
    ensures Serialize(a + b) == Serialize(a) + Serialize(b)
    decreases |a|
  {
    if a == [] {
      assert a + b == b;
    } else {
      assert (a + b)[1..] == a[1..] + b;
      SerializeAppend(a[1..], b);
    }
  }

  /// `line.strip().split(',')`.
  function Fields(line: string): (f: seq<string>)
    ensures |f| >= 1 && Join(f, ',') == Strip(line)
    ensures forall i :: 0 <= i < |f| ==> ',' !in f[i]
  {
    Split(Strip(line), ',')
  }

  /// The rows a sequence of split lines gives, or the first line that has
  /// fewer than three fields: one row per line, made of the line's first
  /// three fields, any further fields ignored.
  function ParseRows(tasks: seq<seq<string>>): (r: Result<seq<Row>, LoadError>)
    ensures r.Ok? <==> forall i :: 0 <= i < |tasks| ==> |tasks[i]| >= 3
    ensures r.Ok? ==> |r.value| == |tasks|
    ensures r.Ok? ==> forall i :: 0 <= i < |tasks| ==>
      r.value[i] == Row(tasks[i][0], tasks[i][1], tasks[i][2])
    ensures r.Err? ==>
      r.error.line < |tasks| && r.error.fields == |tasks[r.error.line]| < 3
    ensures r.Err? ==> forall i :: 0 <= i < r.error.line ==> |tasks[i]| >= 3
  {
    if tasks == [] then Ok([])
    else
      var f := tasks[0];
      if |f| < 3 then Err(MissingField(0, |f|))
      else
        match ParseRows(tasks[1..])
        case Ok(rest) => Ok([Row(f[0], f[1], f[2])] + rest)
        case Err(e) => Err(MissingField(e.line + 1, e.fields))
  }

  /// Rows that match the first lines of `tasks` one for one are what those
  /// lines parse to.
  lemma PrefixParses(tasks: seq<seq<string>>, rows: seq<Row>)
    requires |rows| <= |tasks|
    requires forall i :: 0 <= i < |rows| ==>
      |tasks[i]| >= 3 && rows[i] == Row(tasks[i][0], tasks[i][1], tasks[i][2])
    ensures ParseRows(tasks[..|rows|]) == Ok(rows)
  {
    var r := ParseRows(tasks[..|rows|]);
    assert r.Ok?;
    assert r.value == rows;
  }

  /// The physical lines of a file's contents, as `readlines()` returns them
  /// from a file opened in text mode.
  function FileLines(text: string): (lines: seq<string>)
    ensures Concat(lines) == TranslateNewlines(text)
  {
    ReadLines(TranslateNewlines(text))
  }

  /// Every line of `lines`, stripped and split on commas.
  function FieldLists(lines: seq<string>): (tasks: seq<seq<string>>)
    ensures |tasks| == |lines|
    ensures forall i :: 0 <= i < |lines| ==> tasks[i] == Fields(lines[i])
  {
    seq(|lines|, i requires 0 <= i < |lines| => Fields(lines[i]))
  }

  /// What `loadTasks` makes of the file `file` (`None` when it does not
  /// exist).
  function Load(file: Option<string>): (r: Result<seq<Row>, LoadError>)
    ensures file.None? ==> r == Ok([])
  {
    match file
    case None => Ok([])
    case Some(text) => ParseRows(FieldLists(FileLines(text)))
  }

  /// Loading an existing file gives one row per line of the file, made of
  /// the first three comma-separated fields of the stripped line (further
  /// fields ignored); it fails exactly when some line has fewer than three
  /// fields, and then names the first such line and its field count.
  lemma LoadLines(text: string)
    ensures Load(Some(text)).Ok? <==>
      forall i :: 0 <= i < |FileLines(text)| ==> |Fields(FileLines(text)[i])| >= 3
    ensures Load(Some(text)).Ok? ==> |Load(Some(text)).value| == |FileLines(text)|
    ensures Load(Some(text)).Ok? ==>
      forall i :: 0 <= i < |FileLines(text)| ==>
        var f := Fields(FileLines(text)[i]);
        Load(Some(text)).value[i] == Row(f[0], f[1], f[2])
  {
    ParsedLines(FileLines(text));
  }

  /// `ParseRows` on the field lists of given lines, stated line by line.
  lemma ParsedLines(lines: seq<string>)
    ensures ParseRows(FieldLists(lines)).Ok? <==>
      forall i :: 0 <= i < |lines| ==> |Fields(lines[i])| >= 3
    ensures ParseRows(FieldLists(lines)).Ok? ==> |ParseRows(FieldLists(lines)).value| == |lines|
    ensures ParseRows(FieldLists(lines)).Ok? ==>
      forall i :: 0 <= i < |lines| ==>
        var f := Fields(lines[i]);
        ParseRows(FieldLists(lines)).value[i] == Row(f[0], f[1], f[2])
  {
  }

  /// A failed load names the first line with fewer than three fields, and
  /// how many fields it had.
  lemma LoadFault(text: string)
    ensures Load(Some(text)).Err? ==>
      var k := Load(Some(text)).error.line;
      k < |FileLines(text)| && Load(Some(text)).error.fields == |Fields(FileLines(text)[k])| < 3
    ensures Load(Some(text)).Err? ==>
      forall i :: 0 <= i < Load(Some(text)).error.line ==> |Fields(FileLines(text)[i])| >= 3
  {
  }

  /// A field without line-break characters.
  predicate NoBreak(s: string)
  {
    '\n' !in s && '\r' !in s
  }

  /// A field that cannot break the line structure of the file.
  predicate Plain(s: string)
  {
    ',' !in s && NoBreak(s)
  }

  /// A row without line-break characters in any field.
  predicate Unbroken(r: Row)
  {
    NoBreak(r.task) && NoBreak(r.due) && NoBreak(r.priority)
  }

  /// A row that survives being saved and loaded again: no comma or line
  /// break in any field, no whitespace at the start of the task and none at
  /// the end of the priority (the whole line is stripped on reading).
  predicate Storable(r: Row)
  {
    Plain(r.task) && Plain(r.due) && Plain(r.priority) &&
    (r.task == [] || !IsSpace(r.task[0])) &&
    (r.priority == [] || !IsSpace(r.priority[|r.priority| - 1]))
  }

  lemma RecordShape(r: Row)
    ensures Record(r) == Join([r.task, r.due, r.priority], ',')
    ensures |Record(r)| == |r.task| + |r.due| + |r.priority| + 2
    ensures Record(r) != []
  {
    JoinFirstThree([r.task, r.due, r.priority], ',');
    assert [r.task, r.due, r.priority][3..] == [];
  }

  /// A storable row's line splits back into exactly its three fields.
  lemma FieldsOfLine(r: Row)
    requires Storable(r)
    ensures Fields(Line(r)) == [r.task, r.due, r.priority]
  {
    var rec := Record(r);
    RecordShape(r);
    assert rec[0] == (if r.task == [] then ',' else r.task[0]);
    assert rec[|rec| - 1] == (if r.priority == [] then ',' else r.priority[|r.priority| - 1]);
    assert Unpadded(rec);
    StripTerminated(rec, '\n');
    SplitJoin([r.task, r.due, r.priority], ',');
  }

  /// Conversely: a row without line breaks whose line splits back into its
  /// own three fields is storable.
  lemma StorableOfFields(r: Row)
    requires Unbroken(r)
    requires var f := Fields(Line(r)); |f| >= 3 && Row(f[0], f[1], f[2]) == r
    ensures Storable(r)
  {
    var rec := Record(r);
    RecordShape(r);
    var stripped := Strip(rec + "\n");
    var f := Split(stripped, ',');
    assert f[0] == r.task && f[1] == r.due && f[2] == r.priority;
    assert ',' !in f[0] && ',' !in f[1] && ',' !in f[2];
    JoinFirstThree(f, ',');
    StripTerminatedLength(rec, '\n');
    assert rec[0] == (if r.task == [] then ',' else r.task[0]);
    assert rec[|rec| - 1] == (if r.priority == [] then ',' else r.priority[|r.priority| - 1]);
  }

  /// With no line breaks inside fields, the saved file has exactly one
  /// line per row, the row's line.
  lemma LinesOfSerialize(rows: seq<Row>)
    requires forall i :: 0 <= i < |rows| ==> Unbroken(rows[i])
    ensures |FileLines(Serialize(rows))| == |rows|
    ensures forall i :: 0 <= i < |rows| ==> FileLines(Serialize(rows))[i] == Line(rows[i])
  {
    NoCarriageReturn(rows);
    TranslateNewlinesIdentity(Serialize(rows));
    ReadLinesOfSerialize(rows);
  }

  /// Rows without `\r` in their fields save to text without `\r`.
  lemma {:induction false} NoCarriageReturn(rows: seq<Row>)
    requires forall i :: 0 <= i < |rows| ==>
      '\r' !in rows[i].task && '\r' !in rows[i].due && '\r' !in rows[i].priority
    ensures '\r' !in Serialize(rows)
    decreases |rows|
  {
    if rows != [] {
      NoCarriageReturn(rows[1..]);
      RecordShape(rows[0]);
    }
  }

  /// A row's line, followed by any text, reads as that line first.
  lemma ReadLinesRecord(r: Row, text: string)
    requires Unbroken(r)
    ensures ReadLines(Line(r) + text) == [Line(r)] + ReadLines(text)
  {
    RecordShape(r);
    assert '\n' !in Record(r);
    ReadLinesCons(Record(r), text);
  }

  /// `f` applied to every element of `s`, in order.
  function Map<A, B>(f: A -> B, s: seq<A>): (r: seq<B>)
    ensures |r| == |s|
    ensures forall i :: 0 <= i < |s| ==> r[i] == f(s[i])
  {
    seq(|s|, i requires 0 <= i < |s| => f(s[i]))
  }

  /// Mapping over a non-empty sequence maps its first element, then the
  /// rest.
  lemma MapCons<A, B>(f: A -> B, s: seq<A>)
    requires s != []
    ensures Map(f, s) == [f(s[0])] + Map(f, s[1..])
  {
    var tail := s[1..];
    var a, b := Map(f, s), [f(s[0])] + Map(f, tail);
    forall i | 0 <= i < |s|
      ensures a[i] == b[i]
    {
      if i > 0 {
        assert s[i] == tail[i - 1];
        assert b[i] == Map(f, tail)[i - 1];
      }
    }
  }

  /// The lines `saveTasks` writes, one per row.
  function Lines(rows: seq<Row>): seq<string>
  {
    Map(Line, rows)
  }

  lemma {:induction false} ReadLinesOfSerialize(rows: seq<Row>)
    requires forall i :: 0 <= i < |rows| ==> Unbroken(rows[i])
    ensures ReadLines(Serialize(rows)) == Lines(rows)
    decreases |rows|
  {
    if rows != [] {
      var tail := rows[1..];
      ReadLinesRecord(rows[0], Serialize(tail));
      ReadLinesOfSerialize(tail);
      MapCons(Line, rows);
    }
  }

  /// The round trip: loading what was saved gives the same table, provided
  /// every row is storable.
  lemma RoundTrip(rows: seq<Row>)
    requires forall i :: 0 <= i < |rows| ==> Storable(rows[i])
    ensures Load(Some(Serialize(rows))) == Ok(rows)
  {
    LinesOfSerialize(rows);
    var tasks := FieldLists(FileLines(Serialize(rows)));
    forall i | 0 <= i < |rows|
      ensures tasks[i] == [rows[i].task, rows[i].due, rows[i].priority]
    {
      FieldsOfLine(rows[i]);
    }
    var r := ParseRows(tasks);
    assert r.Ok?;
    assert r.value == rows by {
      forall i | 0 <= i < |rows|
        ensures r.value[i] == rows[i]
      {
        assert tasks[i] == [rows[i].task, rows[i].due, rows[i].priority];
      }
    }
    assert Load(Some(Serialize(rows))) == r;
  }

  /// For rows without line breaks the side condition is exact: the round
  /// trip holds if and only if every row is storable.
  lemma RoundTripExact(rows: seq<Row>)
    requires forall i :: 0 <= i < |rows| ==> Unbroken(rows[i])
    ensures Load(Some(Serialize(rows))) == Ok(rows) <==>
      forall i :: 0 <= i < |rows| ==> Storable(rows[i])
  {
    if Load(Some(Serialize(rows))) == Ok(rows) {
      LinesOfSerialize(rows);
      var lines := FileLines(Serialize(rows));
      forall i | 0 <= i < |rows|
        ensures Storable(rows[i])
      {
        assert lines[i] == Line(rows[i]);
        StorableOfFields(rows[i]);
      }
    }
    if forall i :: 0 <= i < |rows| ==> Storable(rows[i]) {
      RoundTrip(rows);
    }
  }

  /// The file as written where text mode turns every `\n` into `\r\n`
  /// (Windows), a `\n` inside a field included.
  function SerializeCRLF(rows: seq<Row>): string
  {
    ToCRLF(Serialize(rows))
  }

  /// Reading that file in text mode sees exactly the file written with
  /// `\n` line endings, for rows without `\r` in their fields.
  lemma TranslateSerializeCRLF(rows: seq<Row>)
    requires forall i :: 0 <= i < |rows| ==>
      '\r' !in rows[i].task && '\r' !in rows[i].due && '\r' !in rows[i].priority
    ensures TranslateNewlines(SerializeCRLF(rows)) == Serialize(rows)
  {
    NoCarriageReturn(rows);
    TranslateToCRLF(Serialize(rows));
  }

  /// The round trip holds for the Windows form of the file too.
  lemma RoundTripCRLF(rows: seq<Row>)
    requires forall i :: 0 <= i < |rows| ==> Storable(rows[i])
    ensures Load(Some(SerializeCRLF(rows))) == Ok(rows)
  {
    TranslateSerializeCRLF(rows);
    NoCarriageReturn(rows);
    TranslateNewlinesIdentity(Serialize(rows));
    assert FileLines(SerializeCRLF(rows)) == FileLines(Serialize(rows));
    RoundTrip(rows);
  }
}

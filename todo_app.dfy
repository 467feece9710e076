/// The to-do list window of todo.py without its widgets: the task table,
/// the background colour of each Priority cell, and the file `tasks.txt`
/// that the table is saved to after every change.
module ToDo {
  import opened Wrappers
  import opened TextOps
  import opened TaskStore
  import opened Selection

  /// The background colour of a Priority cell for each known priority.
  const PriorityColors: map<string, string> :=
    map["High" := "#4CAF50", "Medium" := "#FFD700", "Low" := "#FF0000"]

  /// The background of a cell whose priority is not in `PriorityColors`.
  const DefaultColor: string := "#FFFFFF"

  /// `getPriorityColor`: a dictionary lookup with white as the default.
  function PriorityColor(priority: string): string
  {
    if priority in PriorityColors then PriorityColors[priority] else DefaultColor
  }

  /// The colour of each priority: High green, Medium gold, Low red, and
  /// white exactly for every other string.
  lemma PriorityColorTable(priority: string)
    ensures priority == "High" ==> PriorityColor(priority) == "#4CAF50"
    ensures priority == "Medium" ==> PriorityColor(priority) == "#FFD700"
    ensures priority == "Low" ==> PriorityColor(priority) == "#FF0000"
    ensures PriorityColor(priority) == "#FFFFFF" <==> priority !in {"High", "Medium", "Low"}
  {
  }

  /// How `loadTasks` ended: no file, every line read, or a line with too
  /// few fields (where the source raises an index fault).
  datatype LoadOutcome = Missing | Loaded | Malformed(error: LoadError)

  /// The largest element of a non-empty set.
  method MaxOf(s: set<nat>) returns (m: nat)
    requires s != {}
    ensures m in s
    ensures forall x :: x in s ==> x <= m
  {
    m :| m in s;
    var pool := s - {m};
    while pool != {}
      invariant pool <= s && m in s
      invariant forall x :: x in s && x !in pool ==> x <= m
      decreases |pool|
    {
      var y :| y in pool;
      if y > m {
        m := y;
      }
      pool := pool - {y};
    }
  }

  /// `sorted(s, reverse=True)`: the elements of `s`, largest first.
  method SortedDescending(s: set<nat>) returns (order: seq<nat>)
    ensures forall i, j :: 0 <= i < j < |order| ==> order[i] > order[j]
    ensures forall x :: x in s <==> x in order
    ensures |order| == |s|
  {
    order := [];
    var rest := s;
    while rest != {}
      invariant rest <= s
      invariant forall x :: x in s <==> x in rest || x in order
      invariant forall i, j :: 0 <= i < j < |order| ==> order[i] > order[j]
      invariant forall i, x :: 0 <= i < |order| && x in rest ==> x < order[i]
      invariant |order| + |rest| == |s|
      decreases |rest|
    {
      var m := MaxOf(rest);
      order := order + [m];
      rest := rest - {m};
    }
  }

  /// The window's state: the task table's rows, the background of each
  /// row's Priority cell, and the contents of `tasks.txt` (`None` while the
  /// file does not exist).
  class ToDoApp {
    var rows: seq<Row>
    var backgrounds: seq<string>
    var disk: Option<string>

    /// Every Priority cell is coloured by its own row's priority.
    ghost predicate Valid()
      reads this
    {
      |backgrounds| == |rows| &&
      forall i :: 0 <= i < |rows| ==> backgrounds[i] == PriorityColor(rows[i].priority)
    }

    /// `initUI`: an empty table beside whatever `tasks.txt` holds.
    constructor (file: Option<string>)
      ensures Valid()
      ensures rows == [] && disk == file
    {
      rows := [];
      backgrounds := [];
      disk := file;
    }

    /// `saveTasks`: overwrite `tasks.txt` with one line per row.
    method SaveTasks()
      modifies this`disk
      ensures disk == Some(Serialize(rows))
    {
      var text := "";
      var row := 0;
      while row < |rows|
        invariant row <= |rows|
        invariant text == Serialize(rows[..row])
      {
        SerializeAppend(rows[..row], [rows[row]]);
        assert rows[..row + 1] == rows[..row] + [rows[row]];
        assert Serialize([rows[row]]) == Line(rows[row]);
        text := text + Line(rows[row]);
        row := row + 1;
      }
      assert rows[..|rows|] == rows;
      disk := Some(text);
    }

    /// `loadTasks`: with no file the table is left alone; otherwise the
    /// table becomes one row per line of the file, each row the first three
    /// comma-separated fields of the stripped line, and the loop stops at
    /// the first line with fewer than three fields, leaving the rows before
    /// it in the table.
    method LoadTasks() returns (outcome: LoadOutcome)
      requires Valid()
      modifies this`rows, this`backgrounds
      ensures Valid()
      ensures disk.None? ==> outcome == Missing && rows == old(rows)
      ensures disk.Some? && Load(disk).Ok? ==> outcome == Loaded && rows == Load(disk).value
      ensures disk.Some? && Load(disk).Err? ==>
        outcome == Malformed(Load(disk).error) && |rows| == Load(disk).error.line
      ensures disk.Some? && Load(disk).Err? ==>
        ParseRows(FieldLists(FileLines(disk.value))[..|rows|]) == Ok(rows)
    {
      match disk
      case None =>
        outcome := Missing;
      case Some(text) =>
        var tasks := FieldLists(FileLines(text));
        outcome := FillRows(tasks);
        assert disk.value == text;
        assert ParseRows(tasks[..|rows|]) == Ok(rows);
    }

    /// The loop of `loadTasks` over the already split lines `tasks`: the
    /// table is emptied, then one row per line is appended, up to the first
    /// line with fewer than three fields.
    method FillRows(tasks: seq<seq<string>>) returns (outcome: LoadOutcome)
      modifies this`rows, this`backgrounds
      ensures Valid()
      ensures ParseRows(tasks).Ok? ==> outcome == Loaded && rows == ParseRows(tasks).value
      ensures ParseRows(tasks).Err? ==>
        outcome == Malformed(ParseRows(tasks).error) && |rows| == ParseRows(tasks).error.line
      ensures |rows| <= |tasks| && ParseRows(tasks[..|rows|]) == Ok(rows)
    {
      rows, backgrounds := [], [];
      var row := 0;
      while row < |tasks|
        invariant row <= |tasks|
        invariant Valid() && |rows| == row
        invariant forall i :: 0 <= i < row ==>
          |tasks[i]| >= 3 && rows[i] == Row(tasks[i][0], tasks[i][1], tasks[i][2])
      {
        var task := tasks[row];
        if |task| < 3 {
          outcome := Malformed(MissingField(row, |task|));
          PrefixParses(tasks, rows);
          return;
        }
        rows := rows + [Row(task[0], task[1], task[2])];
        backgrounds := backgrounds + [PriorityColor(task[2])];
        row := row + 1;
      }
      outcome := Loaded;
      PrefixParses(tasks, rows);
    }

    /// `addTask`: a description that is empty after stripping is refused
    /// (the warning dialog) and nothing changes; otherwise one row holding
    /// the stripped description is appended and the table is saved.
    method AddTask(text: string, due: string, priority: string) returns (added: bool)
      requires Valid()
      modifies this
      ensures Valid()
      ensures added <==> HasText(text)
      ensures added ==> rows == old(rows) + [Row(Strip(text), due, priority)]
      ensures added ==> disk == Some(Serialize(rows))
      ensures !added ==> rows == old(rows) && backgrounds == old(backgrounds) && disk == old(disk)
    {
      var task := Strip(text);
      StripBlank(text);
      if task != [] {
        AppendRow(Row(task, due, priority));
        SaveTasks();
        added := true;
      } else {
        added := false;
      }
    }

    /// `insertRow` at the end followed by `setItem` on its three cells, the
    /// Priority cell coloured by its priority.
    method AppendRow(row: Row)
      requires Valid()
      modifies this`rows, this`backgrounds
      ensures Valid()
      ensures rows == old(rows) + [row]
    {
      rows := rows + [row];
      backgrounds := backgrounds + [PriorityColor(row.priority)];
    }

    /// Qt's `removeRow` on the table, which also drops the row's coloured
    /// cell.
    method RemoveRow(row: nat)
      requires Valid()
      modifies this`rows, this`backgrounds
      ensures Valid()
      ensures rows == RemoveAt(old(rows), row)
      ensures backgrounds == RemoveAt(old(backgrounds), row)
    {
      rows := RemoveAt(rows, row);
      backgrounds := RemoveAt(backgrounds, row);
    }

    /// `removeTask`: delete the selected rows, highest index first, then
    /// save. The table keeps exactly its unselected rows, so it shrinks by
    /// the number of distinct selected indices that name a row.
    method RemoveTask(selected: set<nat>)
      requires Valid()
      modifies this
      ensures Valid()
      ensures rows == Unselected(old(rows), selected)
      ensures |rows| == |old(rows)| - |SelectedBetween(selected, 0, |old(rows)|)|
      ensures disk == Some(Serialize(rows))
    {
      ghost var before := rows;
      var order := SortedDescending(selected);
      var k := 0;
      ghost var done: set<nat> := {};
      UnselectedNone(before, {}, 0);
      while k < |order|
        invariant k <= |order|
        invariant Valid()
        invariant rows == Unselected(before, done)
        invariant forall p :: p in done ==> p in selected && (k < |order| ==> order[k] < p)
        invariant forall i :: 0 <= i < k ==> order[i] in done
      {
        RemoveBelowSelected(before, done, 0, order[k]);
        RemoveRow(order[k]);
        done := done + {order[k]};
        k := k + 1;
      }
      assert done == selected;
      UnselectedLength(before, selected, 0);
      SaveTasks();
    }
  }
}

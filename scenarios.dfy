/// Worked examples of the to-do list's behaviour.
module Scenarios {
  import opened Wrappers
  import opened TextOps
  import opened TaskStore
  import opened Selection
  import opened ToDo

  /// Deleting rows 2 and 0 of a three-row table leaves the middle row when
  /// the higher index goes first; going lowest first would shift row 2 to
  /// index 1 and leave two rows.
  lemma RemoveFirstAndLast(a: Row, b: Row, c: Row)
    ensures Unselected([a, b, c], {2, 0}) == [b]
    ensures RemoveAt(RemoveAt([a, b, c], 2), 0) == [b]
    ensures RemoveAt(RemoveAt([a, b, c], 0), 2) == [b, c]
  {
    var selected: set<nat> := {2, 0};
    assert [a, b, c][1..] == [b, c];
    assert [b, c][1..] == [c];
    assert UnselectedFrom([c], selected, 2) == [];
    assert UnselectedFrom([b, c], selected, 1) == [b];
    assert UnselectedFrom([a, b, c], selected, 0) == [b];
  }

  /// The file saved for the single row of the first session.
  lemma SampleFile()
    ensures Serialize([Row("Write report", "09:00", "Medium")]) == "Write report,09:00,Medium\n"
  {
    var row := Row("Write report", "09:00", "Medium");
    assert Serialize([row]) == Line(row) + Serialize([]);
  }

  /// A first session: no file yet, so the table starts empty; adding one
  /// task saves exactly its line; removing row 0 empties table and file.
  method FirstSession() returns (afterLoad: seq<Row>, afterAdd: Option<string>, afterRemove: Option<string>)
    ensures afterLoad == []
    ensures afterAdd == Some("Write report,09:00,Medium\n")
    ensures afterRemove == Some("")
  {
    var app := new ToDoApp(None);
    var loaded := app.LoadTasks();
    afterLoad := app.rows;
    var text := "Write report";
    assert text[0] == 'W' && !IsSpace(text[0]);
    assert Unpadded(text);
    var added := app.AddTask(text, "09:00", "Medium");
    assert added;
    var row := Row(text, "09:00", "Medium");
    assert app.rows == [row];
    SampleFile();
    afterAdd := app.disk;
    app.RemoveTask({0});
    assert app.rows == UnselectedFrom([row], {0}, 0) == [];
    afterRemove := app.disk;
  }
}

# To-do list task table, modelled in Dafny

`todo.py` is a one-window PyQt5 to-do list. Beneath the widgets it keeps a
three-column task table (Task, Due Time, Priority). Every change to the table
is saved to `tasks.txt`, one `task,due,priority` line per row, and the file is
read back at start-up. This project takes that table out of Qt and models it:

- `TextOps` (`text_ops.dfy`) models the parts of Python's text handling the
  program relies on. `str.strip()` uses Python's full `str.isspace`
  character set. `str.split(',')` keeps empty fields. `readlines()` on a
  file opened in text mode translates `\r\n` and a lone `\r` to `\n`, and
  every line keeps its terminator.
- `TaskStore` (`task_store.dfy`) holds the row record, the file format
  written by `saveTasks` (`Serialize`), and the parse done by `loadTasks`
  (`ParseRows`, `Load`). It also proves the save/load round trip, with its
  exact side conditions.
- `Selection` (`selection.dfy`) models Qt's `removeRow` (`RemoveAt`) and
  the result the source intends from deleting a selection: the rows whose
  index is not selected (`Unselected`). It proves that deleting from the
  highest index down gives exactly that result.
- `ToDo` (`todo_app.dfy`) holds the priority colour lookup, Python's
  `sorted(..., reverse=True)` on the selected row set, and the class
  `ToDoApp`. The class has three fields: the table's rows, the background
  colour of each row's Priority cell, and the contents of `tasks.txt`
  (`None` while the file does not exist). Its methods `AddTask`,
  `RemoveTask`, `SaveTasks` and `LoadTasks` update these fields in place,
  as the widget methods do.
- `Scenarios` (`scenarios.dfy`) holds worked examples: a three-row
  deletion, and a first session that loads, adds and removes.

Behaviour the model keeps from the code:

- `addTask` strips the description and refuses it when nothing is left.
  In that case nothing changes and nothing is saved.
- `loadTasks` takes the first three comma-separated fields of each
  stripped line and ignores any further fields. It does not require
  exactly three.
- A line with fewer than three fields, such as a blank line, makes
  `loadTasks` fail with an index fault. `LoadTasks` reports this as
  `Malformed`, naming the first such line and its field count.
- A missing file leaves the table as it was.
- A priority read from the file can be any string. Only the combo box
  limits new rows to High, Medium and Low. Unknown priorities are coloured
  white, and the Low = red mapping is kept as written.

The round trip `Load(Some(Serialize(rows))) == Ok(rows)` needs more than
"no comma in any field". No field may hold a comma, `\n` or `\r`. The task
may not start with whitespace, and the priority may not end with
whitespace, because the whole line is stripped on reading. A row whose
three fields are all empty does round-trip (`,,` reads back as three empty
fields). For rows without line breaks these conditions are exact: the
round trip holds if and only if every row meets them (`RoundTripExact`).

## Model

| member | source | states |
|---|---|---|
| `TextOps.StripLeading` | todo.py:82 | the result is the suffix left after dropping leading whitespace: it does not start with whitespace and everything dropped is whitespace |
| `TextOps.StripTrailing` | todo.py:82 | the result is the prefix left after dropping trailing whitespace: it does not end with whitespace and everything dropped is whitespace |
| `TextOps.Strip` | todo.py:82 | `strip()` gives the empty string exactly when every character is whitespace; its result neither starts nor ends with whitespace; it returns its argument unchanged exactly when that argument has no whitespace at either end |
| `TextOps.StripBlank` | todo.py:82-86 | stripping leaves a non-empty description exactly when some character is not whitespace |
| `TextOps.StripSlice` | todo.py:127 | `strip()` keeps one contiguous slice of the line and drops only whitespace before and after it |
| `TextOps.StripTerminated` | todo.py:127 | stripping a line that has no whitespace at either end, plus its newline, gives back the line |
| `TextOps.StripTerminatedLength` | todo.py:127 | stripping a line plus one trailing whitespace character keeps at most the line itself |
| `TextOps.IndexOf` | todo.py:127 | the first occurrence of a character, or the length when it does not occur |
| `TextOps.IndexOfAbsent` | todo.py:127 | a character that does not occur is searched to the end |
| `TextOps.Split` | todo.py:127 | `split(',')` gives at least one field; no field contains a comma; joining the fields with commas gives back the line |
| `TextOps.SplitJoin` | todo.py:127 | splitting comma-joined comma-free fields gives back exactly those fields |
| `TextOps.JoinFirstThree` | todo.py:122 | joining three or more fields writes the first three, separated by commas, before the rest |
| `TextOps.ReadLines` | todo.py:127 | `readlines()` cuts the text into lines that concatenate back to it; each line is non-empty and holds a newline only as its last character; every line but the last ends in a newline |
| `TextOps.ReadLinesCons` | todo.py:127 | text that starts with a newline-free line and its `\n` reads as that line followed by the lines of the rest |
| `TextOps.TranslateNewlines` | todo.py:126 | no `\r` is left after reading in text mode, and the text never gets longer; `TranslateCRLF` and `TranslateCR` state the translation itself |
| `TextOps.TranslateCRLF` | todo.py:126 | a `\r\n` after text without `\r` reads as one `\n`, and the rest is translated on its own |
| `TextOps.TranslateCR` | todo.py:126 | a lone `\r` (not followed by `\n`) after text without `\r` reads as `\n` |
| `TextOps.ToCRLF` | todo.py:122 | text-mode writing on Windows: every `\n` is written as `\r\n`; `TranslateToCRLF` states its property |
| `TextOps.TranslateToCRLF` | todo.py:122-126 | reading back in text mode undoes the Windows rewriting of any text without `\r` |
| `TextOps.TranslateNewlinesIdentity` | todo.py:126 | text with no `\r` reads back unchanged |
| `TaskStore.Line` | todo.py:122 | the line written for one row: task, due time and priority separated by commas, then `\n`; `RecordShape`, `FieldsOfLine` and `ReadLinesRecord` state its properties |
| `TaskStore.Serialize` | todo.py:117-122 | the text `saveTasks` writes: one `Line` per row, in row order; `SerializeAppend`, `ReadLinesOfSerialize` and `RoundTrip` state its properties |
| `TaskStore.SerializeAppend` | todo.py:117-122 | the saved file is built row by row: saving `a + b` writes the file for `a` followed by the file for `b` |
| `TaskStore.Fields` | todo.py:127 | `line.strip().split(',')`: at least one field, none holding a comma, and the fields joined with commas give back the stripped line |
| `TaskStore.FileLines` | todo.py:126-127 | `readlines()` of a file opened in text mode: the lines concatenate to the text after newline translation; `LoadLines` and `LinesOfSerialize` state how they are used |
| `TaskStore.FieldLists` | todo.py:127 | the list comprehension: one field list per line, each the `Fields` of that line |
| `TaskStore.ParseRows` | todo.py:128-137 | one row per line, made of that line's first three fields, when every line has at least three fields; otherwise the error names the first line with fewer than three fields and its field count |
| `TaskStore.PrefixParses` | todo.py:130-137 | rows that match the first lines one for one are what those lines parse to |
| `TaskStore.Load` | todo.py:124-140 | a missing file gives an empty table |
| `TaskStore.LoadLines` | todo.py:127-137 | loading an existing file succeeds exactly when every line has at least three fields; the table then has one row per line, each the first three fields of the stripped line |
| `TaskStore.ParsedLines` | todo.py:127-137 | for any list of lines, the parse succeeds exactly when every line has at least three fields, and then gives one row per line from its first three fields |
| `TaskStore.LoadFault` | todo.py:131-135 | a failed load names the first line with fewer than three fields and its field count; every earlier line had at least three |
| `TaskStore.RecordShape` | todo.py:122 | the text of a row's line before its newline is its three fields joined by commas, two characters longer than the fields together, and never empty |
| `TaskStore.FieldsOfLine` | todo.py:122-127 | the line saved for a storable row splits back into exactly its three fields |
| `TaskStore.StorableOfFields` | todo.py:122-127 | conversely, a row without line breaks whose saved line splits back into its own fields is storable |
| `TaskStore.LinesOfSerialize` | todo.py:117-127 | with no line breaks inside fields, the saved file reads back as exactly one line per row, in row order, each the row's line |
| `TaskStore.NoCarriageReturn` | todo.py:117-122 | rows without `\r` in their fields save to a file without `\r`; a `\n` inside a field is allowed |
| `TaskStore.ReadLinesRecord` | todo.py:122-127 | a row's line without line breaks inside, followed by any text, is read back as that line first |
| `TaskStore.ReadLinesOfSerialize` | todo.py:117-127 | `readlines()` on the saved file gives back exactly the lines written, one per row |
| `TaskStore.RoundTrip` | todo.py:116-137 | loading what was saved gives back the same table when every row is storable |
| `TaskStore.RoundTripExact` | todo.py:116-137 | for rows without line breaks, the round trip holds if and only if every row is storable |
| `TaskStore.SerializeCRLF` | todo.py:117-122 | the text `saveTasks` writes where text mode turns every `\n` into `\r\n` (Windows), one inside a field included: `ToCRLF` of the saved text; `TranslateSerializeCRLF` and `RoundTripCRLF` state its properties |
| `TaskStore.TranslateSerializeCRLF` | todo.py:117-127 | for rows without `\r` in their fields, reading the Windows form of the file in text mode sees exactly the file written with `\n` endings |
| `TaskStore.RoundTripCRLF` | todo.py:116-137 | the round trip holds for the Windows form of the file too, under the same side conditions |
| `Selection.UnselectedFrom` | todo.py:108-112 | the rows whose index, counted from `base`, is not selected, in their original order: the result `removeTask` intends; `UnselectedPosition`, `UnselectedKeptLength`, `UnselectedLength` and `UnselectedFromCongruent` state its properties |
| `Selection.Unselected` | todo.py:108-112 | the rows whose index is not selected, in their original order; `ToDoApp.RemoveTask` is proved to leave exactly these rows |
| `Selection.RemoveAt` | todo.py:112 | `removeRow(k)` shortens the table by one and shifts the rows after `k` down by one; an index past the end changes nothing |
| `Selection.UnselectedFromCongruent` | todo.py:108-112 | selected indices below the current position do not affect which later rows are kept |
| `Selection.RemoveAtCons` | todo.py:112 | removing a row after the first leaves the first row in place |
| `Selection.RemoveBelowSelected` | todo.py:111-112 | one step of the descending loop: when every index deleted so far is above `m`, deleting row `m` of the current table also deletes original row `m` |
| `Selection.UnselectedKeptLength` | todo.py:108-112 | as many rows are kept as there are unselected indices |
| `Selection.UnselectedPosition` | todo.py:108-112 | every unselected row is kept, in its original order: it lands at the position given by the number of unselected rows before it |
| `Selection.UnselectedLength` | todo.py:108-112 | the table shrinks by the number of distinct selected indices that name a row |
| `Selection.UnselectedNone` | todo.py:111-114 | an empty selection, or one naming no row, keeps every row |
| `ToDo.PriorityColor` | todo.py:142-145 | `getPriorityColor`: a lookup in the three-entry colour table, white by default; `PriorityColorTable` states the value for every priority |
| `ToDo.PriorityColorTable` | todo.py:142-145 | High maps to `#4CAF50`, Medium to `#FFD700` and Low to `#FF0000`; the colour is `#FFFFFF` exactly for every other string |
| `ToDo.MaxOf` | todo.py:111 | the largest selected index |
| `ToDo.SortedDescending` | todo.py:111 | `sorted(selected_rows, reverse=True)` lists every selected index exactly once, in strictly decreasing order |
| `ToDo.ToDoApp.constructor` | todo.py:8-21 | the window starts with an empty table and an unread file |
| `ToDo.ToDoApp.SaveTasks` | todo.py:116-122 | the file afterwards holds exactly the serialised table |
| `ToDo.ToDoApp.LoadTasks` | todo.py:124-140 | with no file the table is unchanged; a good file replaces the table with `Load`'s rows; a bad line gives `Malformed` with `Load`'s error, and leaves in the table the rows parsed before that line |
| `ToDo.ToDoApp.FillRows` | todo.py:128-137 | the row loop fills the table from the split lines and stops at the first line with fewer than three fields |
| `ToDo.ToDoApp.AddTask` | todo.py:81-105 | a row is added exactly when the description has a non-whitespace character. It is `(stripped description, due, priority)`, appended after the unchanged rows, and the table is then saved. Otherwise rows, colours and file stay the same. Each Priority cell stays coloured by its priority |
| `ToDo.ToDoApp.AppendRow` | todo.py:87-97 | the new row goes after all existing rows, which stay unchanged, and its Priority cell is coloured by its priority |
| `ToDo.ToDoApp.RemoveRow` | todo.py:112 | removes one row and its coloured cell together |
| `ToDo.ToDoApp.RemoveTask` | todo.py:107-114 | the table afterwards holds exactly the unselected rows, in order, and has shrunk by the number of distinct selected indices that name a row; the file is saved even for an empty selection |
| `Scenarios.RemoveFirstAndLast` | todo.py:111-112 | deleting rows {2, 0} of three rows leaves the middle row when done highest first; lowest first would leave two rows |
| `Scenarios.SampleFile` | todo.py:122 | the file for the one row `("Write report", "09:00", "Medium")` is `Write report,09:00,Medium\n` |
| `Scenarios.FirstSession` | todo.py:81-140 | with no file the table starts empty; adding "Write report" at 09:00, Medium saves `Write report,09:00,Medium\n`; removing row 0 saves an empty file |

## Left out

- Widget construction, layout, the QSS stylesheet and the window itself
  (todo.py:14-79) are not modelled: they configure the user interface and
  have no table behaviour.
- The warning dialog (todo.py:105) is modelled only as `AddTask` returning
  `false` with no change.
- Clearing the input controls after an add (todo.py:99-101) is widget
  state and is left out.
- Qt's selection model and `index.row()` (todo.py:108-109) are left out.
  The selection is given as a set of row indices.
- `QTime.toString("hh:mm")` (todo.py:83) is Qt formatting. The due time
  is an input string of any form.
- The priority combo box (todo.py:25-26, 84) is not modelled, so the
  priority is any string, as it can be after a load.
- `QBrush` and `QColor` (todo.py:148-150) are left out. The colour is the
  hex string handed to them.
- Opening, reading and writing `tasks.txt` (todo.py:117, 126) are left out.
  The file is the field `disk`, holding its contents or `None` when it does
  not exist. The platform's text encoding is not modelled.
- `ToDoApp.SaveTasks` and `ToDoApp.LoadTasks` always succeed on the file. In
  the source only `FileNotFoundError` is caught (todo.py:139); any other I/O
  error on opening, reading or writing (a `PermissionError`, a
  `UnicodeDecodeError` or `UnicodeEncodeError`) propagates and ends the
  program. The model has no such errors.
- `SaveTasks` replaces the file's contents in one step. The source
  truncates the file and then writes line by line, so an interrupted save
  would leave a partial file; the model does not capture that.
- On writing, `SaveTasks` uses POSIX line endings (`\n` written as is).
  The Windows form, in which every `\n` (one inside a field included) is
  written as `\r\n`, is `SerializeCRLF`. `RoundTripCRLF` proves that it
  loads back the same table for storable rows.
- `ToDoApp.LoadTasks`: when a line has too few fields, the source has
  already resized the table and filled some cells of the faulting row. The
  fault then ends the constructor and the program. The model keeps only the
  completed rows and reports `Malformed`; the partly filled row and the
  empty rows after it are not modelled.
- `__init__` (todo.py:8-12) is modelled as the constructor followed by a
  call of `LoadTasks`. A constructor cannot report the load outcome.
- The `__main__` block and the Qt event loop (todo.py:153-156) are left
  out.

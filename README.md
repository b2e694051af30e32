# Task store, table renderer and activity summary, in Dafny

This project models three small pieces of the AJXD2/roadmap.sh utilities and
proves properties of them.

- **The task store** of the task CLI (`backend/task-cli/models.py`), in
  `task_models.dfy`. It covers the `TodoStatus` enumeration and the `JsonTodo`
  record. It also covers `JsonManager`, a class that holds an
  insertion-ordered dictionary from id to task and rewrites its JSON file
  after every change. The dictionary is the `todos` map. Its insertion order
  is the `order` sequence, and the last document written is `disk`. The
  record conversions done by `load` and `save` are modelled. The methods
  `Add`, `Update`, `Delete` and `Create` change the object in place and keep
  the invariant `Valid()`. That invariant says:
  - every key holds a record whose `id` is that key;
  - `order` lists each key exactly once.
- **The table renderer** of the task CLI (`make_table` and its inner
  `format_row` in `backend/task-cli/__main__.py`), in `task_cli.dfy`. Column
  widths come from `zip(headers, *rows)`. Each line is the border or a row of
  padded cells. The lines are joined by newlines.
- **The activity summary** of the GitHub activity tool (`display_activity` in
  `backend/github-user-activity/__main__.py`), in `user_activity.dfy`. Each
  event gets one line, chosen by its type. An empty list gets a fixed
  message. What is printed is modelled as the list of lines, plus whether a
  missing payload key raised `KeyError` part way through.

`optional.dfy` holds the `Option` type used for Python's `None`.

Timestamps are opaque values (`Timestamp`), and the time a method would read
from the clock is passed in as `now`. The JSON file is the value
`StoredFile`. A missing file and a file that is not JSON are both
represented. A parsed file is its list of `(key, record)` entries, with the
keys already converted by `int`.

Some behaviours of the code are worth stating plainly:
- **Ids can be reused.** Ids are `max(keys, default=0) + 1`, so deleting the
  newest task and creating another hands out the same id again
  (`CreateDeleteCreate`).
- **`updated_at >= created_at` is not guaranteed.** Both values come from
  the clock, so the model promises only `updatedAt == now` after `Update`.
- **Ids need not be positive.** A file may hold non-positive keys. `Create`
  returns the largest key plus one: 1 when the store is empty or its largest
  key is 0, and 0 or less when every key is negative.
- **A load can fail.** An unknown status string in the file raises
  `ValueError` from the constructor (`BadStatus`, `Open` returns `None`). It
  is not recovered silently.
- **The summary can stop part way.** An event whose branch reads a missing
  payload key raises `KeyError` and stops it (`Printed.stopped`).
- **The fallback removes every "Event".** It removes every occurrence of
  "Event" in the type, not only a trailing one. Removing occurrences can
  join the pieces into a new "Event", so the result is not claimed to be
  free of "Event".
- **Tables with no columns.** `zip` stops at the shortest row, so when
  `headers` or some row is empty there are no columns, and every line is
  `++` or `||`, two characters long. `LineLength` says so; the formula
  `sum(w + 3) + 1` holds only when there is at least one column.
- **No HTTP error handling in the code.** The activity tool's code has no
  HTTP error handling, so there is none to model.

## Model

| member | source | states |
|---|---|---|
| `TaskModels.ParseStatus` | backend/task-cli/models.py:8-11 | `TodoStatus(v)`: a member is returned only for its own value; every other string is rejected (the `ValueError`) |
| `TaskModels.StatusRoundTrip` | backend/task-cli/models.py:8-11 | each status parses back from its value, and the three values are distinct |
| `TaskModels.Value` | backend/task-cli/models.py:8-11 | `status.value`: `Todo` is stored as `todo`, `InProgress` as `in-progress` and `Done` as `done`, each string belonging to that status alone |
| `TaskModels.Decode` | backend/task-cli/models.py:45-51 | loading a stored record succeeds exactly when its status string is known; the record's id is the key, and saving it again gives the stored fields back with the id replaced by the key |
| `TaskModels.Encode` | backend/task-cli/models.py:57-63 | the stored record keeps the id, description and both timestamps, and its status string parses back to the status |
| `TaskModels.DecodeEncode` | backend/task-cli/models.py:45-63 | a record saved by `save` and loaded by `load` under its own id is the same record |
| `TaskModels.AssignKeepsWellFormed` | backend/task-cli/models.py:74 | `todos[t.id] = t` keeps every key matching its record's id and each key listed once: a new key goes last, an existing key keeps its place |
| `TaskModels.RemoveKeepsWellFormed` | backend/task-cli/models.py:95 | `del todos[id]` keeps the dictionary well formed |
| `TaskModels.Without` | backend/task-cli/models.py:95 | the key order after `del`: exactly the other keys remain, still without repeats; removing an absent key changes nothing |
| `TaskModels.WithoutKeepsOrder` | backend/task-cli/models.py:95 | after `del`, the keys before the removed one and the keys after it stay in their order, with nothing in between |
| `TaskModels.WithoutSkipsPrefix` | backend/task-cli/models.py:95 | keys in front of the first occurrence of the deleted key stay in front, unchanged |
| `TaskModels.Values` | backend/task-cli/models.py:99 | `list(todos.values())`: position `i` holds the record stored under the `i`-th key of the insertion order, so one record per listed key and only stored records |
| `TaskModels.ValuesAreStored` | backend/task-cli/models.py:99 | for a well-formed dictionary, every stored record is listed, and each listed record is the one stored under its id |
| `TaskModels.MaxOrDefault` | backend/task-cli/models.py:109 | `max(keys, default=d)`: `d` for no keys, otherwise a key that no key exceeds |
| `TaskModels.WithStatus` | backend/task-cli/models.py:102-104 | the comprehension keeps exactly the records with the status, as a subsequence of the input |
| `TaskModels.StatusesPartition` | backend/task-cli/models.py:101-104 | the three status filters together list every record exactly once by count |
| `TaskModels.LoadEntries` | backend/task-cli/models.py:43-53 | the load loop as a fold over the entries; a successful load is a well-formed dictionary |
| `TaskModels.LoadFailsOnBadStatus` | backend/task-cli/models.py:44-51 | the load fails if and only if some stored status string is unknown, and then reports the first such entry |
| `TaskModels.LoadedKeys` | backend/task-cli/models.py:44-46 | a successful load holds exactly the keys of the file's entries |
| `TaskModels.LoadedOrder` | backend/task-cli/models.py:44-51 | when no key appears twice in the file, a successful load keeps the keys in file order |
| `TaskModels.LoadedValues` | backend/task-cli/models.py:44-51 | under each key a successful load holds the record decoded from the last entry with that key |
| `TaskModels.BadStatusStopsLoad` | backend/task-cli/models.py:44-51 | once a prefix of the entries fails, the whole load fails with the same error |
| `TaskModels.Encoded` | backend/task-cli/models.py:56-65 | the document `save` writes: one entry per key in insertion order, each under its key and holding `Encode` of the record stored there (its own id included), which decodes back to that record |
| `TaskModels.SaveThenLoad` | backend/task-cli/models.py:33-68 | loading the document `save` wrote gives back the same dictionary in the same order |
| `TaskModels.JsonManager.FromLoaded` | backend/task-cli/models.py:27-31 | the manager holds the loaded dictionary and the file it came from |
| `TaskModels.JsonManager.Load` | backend/task-cli/models.py:33-53 | a missing or unparsable file loads as an empty dictionary; otherwise the loop computes exactly `LoadEntries`, stopping at the first bad status |
| `TaskModels.JsonManager.Open` | backend/task-cli/models.py:27-31 | the constructor fails exactly when the load fails; otherwise the new manager is valid and holds what was loaded |
| `TaskModels.JsonManager.Save` | backend/task-cli/models.py:55-68 | the file afterwards holds every record converted, in insertion order |
| `TaskModels.JsonManager.Get` | backend/task-cli/models.py:70-71 | a present id gives its record, which is one of `GetAll()`; an absent id gives the default |
| `TaskModels.JsonManager.Add` | backend/task-cli/models.py:73-75 | the record is stored under its id, nothing else changes, the invariant is kept and the file is rewritten |
| `TaskModels.JsonManager.Update` | backend/task-cli/models.py:77-91 | `id` is required, `description` and `status` default to `None`; an unknown id returns `None` and changes nothing; otherwise only the given fields change, `updated_at` becomes `now`, id and `created_at` are kept, no other entry changes, and the stored record is returned |
| `TaskModels.JsonManager.Delete` | backend/task-cli/models.py:93-96 | the key is removed if present and nothing else changes; an absent id changes nothing, not even the file |
| `TaskModels.JsonManager.GetAll` | backend/task-cli/models.py:98-99 | every stored record exactly once, in insertion order: position `i` holds the record under the `i`-th key of `order`, each stored record is present and nothing else is |
| `TaskModels.JsonManager.GetAllByStatus` | backend/task-cli/models.py:101-104 | exactly the records of `GetAll()` with that status, in the same relative order |
| `TaskModels.JsonManager.NextId` | backend/task-cli/models.py:109 | greater than every key; 1 for an empty store, otherwise one more than an existing key |
| `TaskModels.JsonManager.Create` | backend/task-cli/models.py:106-121 | the new id is fresh and above every key; exactly one entry is added, last, with the given description and status and both timestamps `now`; the file is rewritten |
| `TaskModels.CreateDeleteCreate` | backend/task-cli/models.py:93-121 | deleting the task just created and creating another reuses its id |
| `TaskCli.Repeat` | backend/task-cli/__main__.py:14 | `c * n` is `n` copies of `c` |
| `TaskCli.LeftJustify` | backend/task-cli/__main__.py:20 | `ljust`: the string, then spaces up to the width; a longer string is unchanged |
| `TaskCli.Join` | backend/task-cli/__main__.py:29 | the length of `sep.join(parts)`: the parts' lengths plus one separator between each two (where each part and separator falls: `JoinAt`) |
| `TaskCli.JoinAt` | backend/task-cli/__main__.py:29 | in `sep.join(parts)`, part `j` sits at `Offset(parts, sep, j)` (the parts before it plus one separator each), a separator follows every part but the last, and the last part ends the string |
| `TaskCli.UniformJoinAt` | backend/task-cli/__main__.py:29 | when every line has length `len` and the separator is one character, line `i` sits at `i * (len + 1)` and every line but the last is followed by the separator |
| `TaskCli.ColumnCount` | backend/task-cli/__main__.py:12 | `zip` truncates: the column count is the minimum of the header length and every row length |
| `TaskCli.ColumnWidth` | backend/task-cli/__main__.py:12 | a column's width is the maximum cell length in it, header included |
| `TaskCli.ColumnWidths` | backend/task-cli/__main__.py:12 | one width per column, each the maximum cell length of its column |
| `TaskCli.FramedLength` | backend/task-cli/__main__.py:14-22 | a line of cells or dashes each two longer than their width has length `LineLength(widths)`: `sum(w + 3) + 1` with one column or more, 2 with none |
| `TaskCli.Dashes` | backend/task-cli/__main__.py:14 | `"-" * (w + 2)`: one string of dashes per column, two longer than its width |
| `TaskCli.Border` | backend/task-cli/__main__.py:14-15 | the border has the line length, starts and ends with `+`, and holds only `+` and `-` (where the dashes fall: `BorderLayout`) |
| `TaskCli.BorderLayout` | backend/task-cli/__main__.py:14-15 | column `j`'s `w + 2` dashes sit one past their offset in the `+`-join and are followed by `+`, the last column's `+` closing the line; with no columns the border is `++` |
| `TaskCli.Cell` | backend/task-cli/__main__.py:20 | a cell is a space, the item, then spaces; its length is `max(w, len(item)) + 2`, so `w + 2` when the item fits its width and the item between single spaces when it is longer |
| `TaskCli.Cells` | backend/task-cli/__main__.py:20 | `zip(row, col_widths)`: one cell per pair, as many as the shorter of the two |
| `TaskCli.FormatRow` | backend/task-cli/__main__.py:17-22 | a row starts and ends with a vertical bar, and has the border's length when it fits the columns (where the cells fall: `RowLayout`) |
| `TaskCli.RowLayout` | backend/task-cli/__main__.py:17-22 | cell `j`, which is `Cell(row[j], w)`, sits one past its offset in the bar-join and is followed by a bar, the last cell's bar closing the line; with no cells the row is just the two bars |
| `TaskCli.RowsFit` | backend/task-cli/__main__.py:12-20 | the header and every row fit the computed widths |
| `TaskCli.GridAligned` | backend/task-cli/__main__.py:14-22 | the grid lines up: wherever the border has a `+`, every fitting row has a vertical bar |
| `TaskCli.TableLines` | backend/task-cli/__main__.py:24-27 | `len(rows) + 4` lines: border, header, border, the rows in order, border; all of one length |
| `TaskCli.MakeTable` | backend/task-cli/__main__.py:11-29 | the table's length is the line count times the line length plus the newlines between lines (where the lines fall: `TableLayout`) |
| `TaskCli.TableLayout` | backend/task-cli/__main__.py:24-29 | with `L` the common line length, line `i` of `TableLines` sits at `i * (L + 1)` in the table, and every line but the last is followed by a newline |
| `UserActivity.Capitalize` | backend/github-user-activity/__main__.py:17 | `capitalize`: same length and same letters ignoring case, the first character not lower case, the rest not upper case |
| `UserActivity.CapitalizeIdempotent` | backend/github-user-activity/__main__.py:17 | capitalizing twice is capitalizing once |
| `UserActivity.Decimal` | backend/github-user-activity/__main__.py:14-15 | `str` of the commit count: decimal digits without leading zeros |
| `UserActivity.DecimalRoundTrip` | backend/github-user-activity/__main__.py:14-15 | the printed digits read back as the count |
| `UserActivity.RemoveEvent` | backend/github-user-activity/__main__.py:27 | `replace("Event", "")`: shortens by a multiple of five and leaves a string without "Event" unchanged |
| `UserActivity.RemoveEventSuffix` | backend/github-user-activity/__main__.py:27 | a trailing "Event" is removed without affecting what precedes it |
| `UserActivity.RemoveEventSplit` | backend/github-user-activity/__main__.py:27 | everything before the first "Event" is kept, that "Event" is removed, and the rest is processed the same way; with the no-"Event" case of `RemoveEvent` this fixes the result for every string |
| `UserActivity.EventFreePrefixKept` | backend/github-user-activity/__main__.py:27 | a prefix without "Event" is kept in front of the processed remainder when an "Event" follows it |
| `UserActivity.Describe` | backend/github-user-activity/__main__.py:12-27 | one event's line: absent exactly when the chosen branch reads a missing payload key; every line ends with the repository name |
| `UserActivity.KnownTypeLines` | backend/github-user-activity/__main__.py:16-25 | the issue, watch, fork and create phrasings |
| `UserActivity.PushOfThreeCommits` | backend/github-user-activity/__main__.py:13-15 | a push of three commits reads "Pushed 3 commit(s) to <repo>" |
| `UserActivity.PushLineCount` | backend/github-user-activity/__main__.py:13-15 | the number in a push line is the number of commits |
| `UserActivity.UnknownTypeShowsName` | backend/github-user-activity/__main__.py:26-27 | an unknown type `<name>Event` reads "<name> in <repo>" |
| `UserActivity.UnknownTypeLine` | backend/github-user-activity/__main__.py:26-27 | any type other than the five known ones reads `RemoveEvent(type) + " in " + repo`, whatever the type looks like |
| `UserActivity.EventLines` | backend/github-user-activity/__main__.py:11-29 | one `- `-prefixed line per event, in order; the run stops if and only if some event lacks a key its branch reads, and then it stops at that event |
| `UserActivity.DisplayActivity` | backend/github-user-activity/__main__.py:6-29 | an empty list prints exactly the fixed message; a non-empty list prints exactly `EventLines` (so it stops at the first event missing a key) and never the fixed message, and without missing keys prints one line per event |

## Left out

- File I/O: `path.exists`, `open`, `json.load` and `json.dump` are not modelled. The file is the value `StoredFile` and `Save` records the document in `disk`. Files with the wrong shape are not modelled either: a top level that is not an object, a record missing a key, or a key that `int` rejects.
- Timestamps: `datetime.now`, `isoformat` and `fromisoformat` are left out. Timestamps are opaque and copied unchanged, and the ISO text round trip is not modelled.
- `JsonManager.path` and the `str` to `Path` conversion in the constructor play no part in the logic and are not modelled.
- Aliasing: Python's `update` mutates the record object that `get` returned, and callers holding that object see the change. The model stores records as values and returns the new record instead.
- The task CLI's `main`: argument parsing, the status emoji, date formatting and printing are not modelled.
- `str(item)` in `make_table`: cells are modelled as strings already.
- Character width: lengths count characters, as `len` does. The model makes no claim about how wide a character looks on a terminal.
- UserActivity.Capitalize: modelled for ASCII letters only. Python's Unicode case mapping, such as `'ß'.capitalize() == 'Ss'`, is not modelled.
- The activity tool's `__main__` block (`urlopen`, `json.loads`, `sys.argv`) is I/O and is not modelled.
- Activity events with the wrong shape: a missing `type` or `repo` key, or a non-string `action`, would raise other errors. The model assumes those fields are present and typed.
- Activity printing: `print` is modelled as the list of printed lines.

# TodoManager task collection, modelled in Dafny

This project models the task collection engine of `todo.py`. `TodoManager`
keeps an ordered list of tasks. Each task has content, a creation timestamp, a
completion flag and, once edited, a modification timestamp. The list is
changed by the console operations add, delete, modify, toggle, clear
completed, sort and import. View, search and export read it without changing
it.

The model is split into five modules:

- `Text` (`text.dfy`): the string operations the source relies on, as
  functions with lemmas about them. These are `str.strip()`, `str.lower()`,
  `str.isdigit()`, `needle in hay`, `startswith`/`endswith`, Python's `<` on
  `str` and the decimal rendering of an `int`.
- `Tasks` (`tasks.dfy`): the task record and the facts about a list of
  tasks. This covers the completed count and the pending subsequence that
  `clear_completed_tasks` keeps, plus the statistics that `view_tasks`
  prints.
- `Ordering` (`ordering.dfy`): the three sort orders of `sort_tasks`. Python's
  stable `list.sort` is modelled as a stable insertion sort. The module proves
  that the result is a permutation, is in order, and keeps the relative order
  of elements whose keys are equal.
- `Report` (`report.dfy`): the lines `export_tasks` writes and the line
  scanner of `import_tasks`. The scanner's three cursor loops are a method
  proved equal to a specification function.
- `Todo` (`todo.dfy`): the class `TodoManager`, with its `tasks` list as a
  field that the methods reassign. Each method is specified against the pure
  functions above, including its error outcomes.

Values the source reads with `input()` are parameters. The index selector is
passed after `int()` conversion, as an `Option<int>`; `None` stands for the
`ValueError` case. `datetime.now()` is a `now` parameter. The contents of a
file are passed as its lines.

Take a list whose contents are stripped and non-empty, as every operation
keeps them. Exporting it and then importing the exported lines gives back one
task per exported task, in order. The content of each recovered task is not the original
content, though. The export line puts the creation-time suffix after the
completed marker. The import removes the marker only when it ends the line, so
for exported lines it never does. Each recovered content is therefore the
whole line body: the content, the marker if the task was completed, and
` (创建: <timestamp>)`. `Report.ExportThenImport` proves exactly this, at the
level of lines. No claim is made that the original content comes back, because
the code does not give it back. The marker is removed only from a line that
ends with it, such as `3. ✅ buy milk [已完成]` (`Report.MarkedLineImported`).

## Model

| member | source | states |
|---|---|---|
| Text.Strip | todo.py:15 | The result has no whitespace at either end and is no longer than the input. |
| Text.LStripSplits | todo.py:15 | `lstrip` removes exactly a leading run of whitespace and keeps the rest of the string. |
| Text.RStripSplits | todo.py:15 | `rstrip` keeps a prefix and removes exactly a trailing run of whitespace. |
| Text.StripIdempotent | todo.py:265 | Stripping an already stripped line changes nothing. |
| Text.StripEmptyIffAllSpace | todo.py:15-17 | The stripped text is empty exactly when the input is all whitespace, which is when `add_task` refuses it. |
| Text.StripKeepsNonSpaceEnd | todo.py:280 | A string ending in a non-space loses only its leading whitespace. |
| Text.LStripSpacePrefix | todo.py:280 | A leading blank is removed by `lstrip`. |
| Text.LowerChar | todo.py:130 | Capital ASCII letters map to their lower-case letter; every other character is kept; no capital remains. |
| Text.LowerChars | todo.py:138 | `lower()` maps each character independently and keeps the length. |
| Text.LowerOfNoCapitals | todo.py:138 | A string with no capital letters is its own lower case. |
| Text.LowerIdempotent | todo.py:130 | Lower-casing twice is lower-casing once. |
| Text.ContainsMeansOccurs | todo.py:138 | The left-to-right scan finds `needle` in `hay` exactly when it occurs at some position. |
| Text.LexLessIrreflexive | todo.py:202-206 | No string sorts before itself. |
| Text.LexLessTransitive | todo.py:202-206 | Python's string order is transitive. |
| Text.LexLessTotal | todo.py:202-206 | Two different strings are always ordered one way or the other. |
| Text.DigitChar | todo.py:235 | A digit value maps to the digit character with that value. |
| Text.Decimal | todo.py:235 | The rendering of a number is a non-empty string of digits. |
| Text.DecimalRoundTrip | todo.py:235 | Reading a rendered number back gives the number. |
| Tasks.NewTask | todo.py:22-26 | A new task holds the given content and timestamp, is not completed and has no modification time. |
| Tasks.StrippedIsValid | todo.py:15-17 | A non-empty stripped input is valid content. |
| Tasks.CountCompleted | todo.py:51 | The completed count is at most the length, and it is zero exactly when no task is completed. |
| Tasks.Pending | todo.py:189 | The kept list is as long as the input minus the completed count. |
| Tasks.PendingArePending | todo.py:189 | Every kept task is pending, and the kept tasks are drawn from the list (multiset inclusion). |
| Tasks.PendingIsSubsequence | todo.py:189 | The kept tasks appear in their original order. |
| Tasks.PendingKeepsEveryPending | todo.py:189 | Every occurrence of every pending task is kept. |
| Tasks.PendingIdempotent | todo.py:189 | Clearing twice clears nothing more; after a clear nothing is completed. |
| Tasks.PendingOfAllPending | todo.py:182-189 | A list with no completed task is kept whole. |
| Tasks.PendingKeepsValid | todo.py:189 | Clearing keeps every task's content valid. |
| Tasks.Summarize | todo.py:50-52 | The total is the length, completed plus pending is the total, and pending is the length of the pending subsequence. |
| Ordering.ParseCriterion | todo.py:200-213 | Each of "created", "content" and "status" selects its own order, and no other string selects any order. |
| Ordering.BeforeIrreflexive | todo.py:200-210 | Tasks with equal keys come before each other in neither direction. |
| Ordering.BeforeTransitive | todo.py:200-210 | Each order is transitive. |
| Ordering.BeforeTotal | todo.py:200-210 | Any two keys are equal or ordered one way or the other. |
| Ordering.BeforeAsymmetric | todo.py:200-210 | Each order is asymmetric. |
| Ordering.Insert | todo.py:202-210 | Insertion adds exactly one element. |
| Ordering.InsertPermutes | todo.py:202-210 | Insertion adds `x` and loses nothing. |
| Ordering.InsertSorted | todo.py:202-210 | Inserting into a sorted list keeps it sorted. |
| Ordering.InsertGroup | todo.py:202-210 | An inserted element goes behind every element with an equal key. |
| Ordering.SortBy | todo.py:202-210 | Sorting keeps the length. |
| Ordering.SortByPermutes | todo.py:202-210 | The sorted list is a permutation of the input. |
| Ordering.SortBySorted | todo.py:202-210 | The sorted list is in order. |
| Ordering.SortByStable | todo.py:202-210 | For each key, the elements with that key keep their input order. |
| Ordering.SortByCorrect | todo.py:200-211 | Permutation, order and stability together. |
| Ordering.SortedByCreated | todo.py:202 | "created": creation times never increase, so the newest come first. |
| Ordering.SortedByContent | todo.py:206 | "content": contents never decrease. |
| Ordering.SortedByStatus | todo.py:210 | "status": pending tasks come before completed ones, and the pending tasks keep their input order. |
| Ordering.GroupPendingIsPending | todo.py:210 | The tasks with the pending key are exactly the pending subsequence. |
| Report.Rule | todo.py:228 | The rule is fifty `=` characters. |
| Report.TaskLines | todo.py:230-235 | Line k is the export line of task k, numbered from 1. |
| Report.ExportReport | todo.py:217-238 | Nothing is written exactly when the list is empty; otherwise the report has six lines more than there are tasks, and the task lines sit between the three header lines and the three footer lines. |
| Report.SkipRun | todo.py:270-278 | A cursor loop stops at the first character outside its class, or at the end, and passes only characters of its class. |
| Report.Candidate | todo.py:280-283 | The candidate content has no whitespace at either end; what it cuts off is stated by `Report.CandidateDropsMarker`. |
| Report.CandidateDropsMarker | todo.py:280-283 | Without a trailing completed marker the candidate is the stripped remainder; with one, the stripped remainder is the candidate, then a run of whitespace, then the marker. |
| Report.MarkedLineImported | todo.py:264-291 | A numbered line with the completed glyph whose text ends in the completed marker yields its content, with the marker cut off. |
| Report.LineContent | todo.py:265-285 | Blank lines, rules, header and footer lines produce nothing, and so do lines not starting with a digit; anything produced is valid content. |
| Report.FindContentStart | todo.py:268-278 | The three cursor loops stop where the content starts. |
| Report.ExtractContent | todo.py:265-285 | The loop body of `import_tasks` yields exactly the line's content, if any. |
| Report.Recovered | todo.py:264-292 | At most one content per line, each valid. |
| Report.RecoveredAppend | todo.py:264-292 | What is recovered from two blocks of lines is what each block yields, in order. |
| Report.ExportLineKept | todo.py:264-268 | An exported task line has nothing to strip and is not skipped. |
| Report.ExportLineCursor | todo.py:270-278 | On an exported line the cursor stops at the blank after the status glyph. |
| Report.BodyRecovered | todo.py:280-283 | The remainder of an exported line strips to the line body, and the body does not end with the completed marker. |
| Report.ExportLineRecovered | todo.py:264-285 | An exported task line yields exactly one content: its whole body. |
| Report.HeaderNothing | todo.py:264-266 | The header, the rule and the blank line yield nothing. |
| Report.FooterNothing | todo.py:264-266 | The blank line, the rule and the total yield nothing. |
| Report.TaskLinesRecovered | todo.py:264-292 | The task lines yield one content per task, in order, each the line body. |
| Report.ExportThenImport | todo.py:215-292 | Importing an export recovers one content per exported task, in order, and each is that task's line body. |
| Report.StartsWithStrip | todo.py:265-266 | A line starting with a marker that has no whitespace still starts with it once stripped. |
| Todo.RemoveAt | todo.py:66 | `pop(i)` removes element i and keeps the others in order: one shorter, the same before i, shifted after i, and the same multiset apart from the removed task. |
| Todo.Edited | todo.py:90-91 | Only task i changes: it gets the new content and the modification time, and its creation time and completion flag are kept. |
| Todo.Toggled | todo.py:113-114 | Only the completion flag of task i flips; its content and both timestamps are kept. |
| Todo.ToggleTwice | todo.py:113-114 | Toggling the same task twice restores the list. |
| Todo.ToggleCount | todo.py:112-114 | A toggle changes the completed count by exactly one, in the direction of the flip. |
| Todo.NewTasks | todo.py:286-291 | One new task per recovered content. |
| Todo.NewTasksAt | todo.py:286-291 | Appended task k is the fresh task holding content k. |
| Todo.ImportedAreFresh | todo.py:285-291 | Every imported task has valid content, is pending, is stamped with the import time and has never been edited. |
| Todo.RecoveredIsPresent | todo.py:264-292 | Scanning line by line collects exactly the recovered contents. |
| Todo.Hits | todo.py:136-139 | No more hits than tasks, and every hit position is in range. |
| Todo.HitsSound | todo.py:136-139 | Every hit names the task at its 1-based position, that task matches, and positions strictly increase. |
| Todo.HitsComplete | todo.py:136-139 | Every matching task appears among the hits at its 1-based position. |
| Todo.HitsExact | todo.py:136-139 | The hits are exactly the matching tasks, in increasing position. |
| Todo.MatchIgnoresCase | todo.py:138 | Lower-casing a task's content does not change whether it matches. |
| Todo.SearchScenario | todo.py:130-139 | With "buy milk" and "pay bills", searching "bill" gives exactly one hit: position 2. |
| Todo.ClearScenario | todo.py:180-189 | With one pending and one completed task, the clear keeps the pending task and removes one. |
| Todo.OperationsKeepValid | todo.py:13-292 | Add, delete, toggle, modify, sort, clear and import keep every stored content stripped and non-empty. |
| Todo.TodoManager.constructor | todo.py:8-11 | The manager remembers the file name and starts with the loaded list, or an empty one. |
| Todo.TodoManager.LoadTasks | todo.py:160-172 | A missing or unreadable file gives an empty list; otherwise the stored list. |
| Todo.TodoManager.AddTask | todo.py:13-29 | Empty stripped input changes nothing; otherwise exactly one new pending task holding the stripped text is appended. |
| Todo.TodoManager.ViewTasks | todo.py:31-52 | Nothing is shown for an empty list; otherwise the total, completed and pending counts. |
| Todo.TodoManager.DeleteTask | todo.py:54-72 | Outcome by case (empty list, not a number, out of range); on success the selected task is removed and order kept; otherwise nothing changes. |
| Todo.TodoManager.ModifyTask | todo.py:74-99 | The index is checked before the text; on success only the selected task's content and modification time change; otherwise nothing changes. |
| Todo.TodoManager.ToggleTaskStatus | todo.py:101-122 | On success only the selected task's flag flips; otherwise nothing changes. |
| Todo.TodoManager.SearchTasks | todo.py:124-149 | Empty list and empty keyword are reported; otherwise the result is exactly the matching positions in increasing order. |
| Todo.TodoManager.ClearCompletedTasks | todo.py:174-192 | With "y" after strip and lower, and some completed task, exactly the pending subsequence is kept and the completed count is reported; otherwise nothing changes. |
| Todo.TodoManager.SortTasks | todo.py:194-213 | Each recognised criterion gives the stable sorted permutation; any other string, or an empty list, changes nothing. |
| Todo.TodoManager.ExportTasks | todo.py:215-238 | The report lines of the current list, or nothing for an empty list. |
| Todo.TodoManager.ImportTasks | todo.py:256-295 | One fresh task per recovered line is appended after the existing tasks, in file order, and the returned count is the number appended. |

## Left out

- Console I/O: the prompts and messages, `main_menu` and `main` are not modelled. Each outcome is returned as an `Outcome` value instead of being printed.
- Persistence: `save_tasks` and the JSON decoding in `load_tasks` are not modelled. Only the fallback to an empty list on a missing or unreadable file is kept, with the decoded list passed in as an `Option`.
- File handling: asking for file names, the default export name, opening, reading and writing files, and the "file does not exist" and empty-name checks of `import_tasks` are not modelled. Export returns its lines, and import takes the lines of the file.
- Splitting the imported file: `content.strip().split('\n')` is not modelled. Stripping the whole text only removes blank lines and surrounding whitespace, and the scanner passes over both.
- The clock: `datetime.now()` is the `now` parameter. `Todo.TodoManager.ImportTasks` stamps every imported task with the same `now`, whereas the source reads the clock once per task.
- Todo.TodoManager.ViewTasks: only the statistics are modelled. The printed task lines and the unused `show_completed` parameter are not.
- Text.Lower: only ASCII letters are lower-cased. `str.lower()` also folds other scripts.
- Text.IsDigit: only ASCII digits are recognised. `str.isdigit()` also accepts other Unicode digits.
- `int()` parsing: the selector arrives already converted. Accepting surrounding blanks, signs and underscores is not modelled.
- Report.ExportThenImport: export and import are related at the level of lines. The file is assumed to read back as the lines that were written. That fails when a content or a timestamp holds a line break: `"x\n2. y"` is written as two lines and imports as two tasks. `load_tasks` accepts such a content from a hand-edited file.
- Default arguments: `TodoManager(filename="tasks.json")` and `sort_tasks(by="created")` are modelled without their defaults. The caller always passes the file name and the criterion.
- A round trip of export and import that gives back the original content is not claimed. As shown above, the code recovers the line body instead.

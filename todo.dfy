// TodoManager (todo.py): the list of tasks and the operations the console
// menu drives. Every value the source reads with input() is a parameter:
// the raw text typed in, the selector already converted by int() (None when
// int() raises ValueError), the keyword, the confirmation and the lines of
// an import file. datetime.now() is the `now` parameter.

module Todo {
  import opened Text
  import opened Tasks
  import opened Ordering
  import opened Report

  /** What an operation reports on the console. */
  datatype Outcome =
    | Done
    | NoTasks           // the list is empty, nothing to do
    | EmptyContent      // the stripped text is empty
    | NotANumber        // int() raised ValueError
    | InvalidIndex      // the number is outside 1..len(tasks)
    | NoneCompleted     // clear: no task is completed
    | Cancelled         // clear: the confirmation was not "y"
    | InvalidCriterion  // sort: unknown `by`

  /** The list without its element at 0-based position `i` (list.pop(i)). */
  function RemoveAt(s: seq<Task>, i: nat): (r: seq<Task>)
    requires i < |s|
    ensures |r| == |s| - 1
    ensures forall j :: 0 <= j < i ==> r[j] == s[j]
    ensures forall j :: i <= j < |r| ==> r[j] == s[j + 1]
    ensures multiset(r) + multiset{s[i]} == multiset(s)
  {
    assert s == s[..i] + [s[i]] + s[i + 1..];
    s[..i] + s[i + 1..]
  }

  /** The list after modify_task has given task `i` new content at time `now`. */
  function Edited(s: seq<Task>, i: nat, content: string, now: Timestamp): (r: seq<Task>)
    requires i < |s|
    ensures |r| == |s|
    ensures forall j :: 0 <= j < |s| && j != i ==> r[j] == s[j]
    ensures r[i].content == content && r[i].modifiedAt == Some(now)
    ensures r[i].createdAt == s[i].createdAt && r[i].completed == s[i].completed
  {
    s[i := s[i].(content := content, modifiedAt := Some(now))]
  }

  /** The list after toggle_task_status has flipped task `i`. */
  function Toggled(s: seq<Task>, i: nat): (r: seq<Task>)
    requires i < |s|
    ensures |r| == |s|
    ensures forall j :: 0 <= j < |s| && j != i ==> r[j] == s[j]
    ensures r[i].completed == !s[i].completed
    ensures r[i].content == s[i].content && r[i].createdAt == s[i].createdAt
    ensures r[i].modifiedAt == s[i].modifiedAt
  {
    s[i := s[i].(completed := !s[i].completed)]
  }

  /** Toggling the same task twice gives back the original list. */
  lemma ToggleTwice(s: seq<Task>, i: nat)
    requires i < |s|
    ensures Toggled(Toggled(s, i), i) == s
  {
    var r := Toggled(Toggled(s, i), i);
    assert forall j :: 0 <= j < |s| ==> r[j] == s[j];
  }

  /** Toggling changes the completed count by exactly one. */
  lemma {:induction false} ToggleCount(s: seq<Task>, i: nat)
    requires i < |s|
    ensures CountCompleted(Toggled(s, i)) == if s[i].completed then CountCompleted(s) - 1 else CountCompleted(s) + 1
  {
    var n := |s| - 1;
    var r := Toggled(s, i);
    if i < n {
      assert r[..n] == Toggled(s[..n], i);
      ToggleCount(s[..n], i);
    } else {
      assert r[..n] == s[..n];
    }
  }

  /** The tasks import_tasks appends for the recovered contents, all stamped
      `now`, in the order of the contents. */
  function NewTasks(contents: seq<string>, now: Timestamp): (r: seq<Task>)
    ensures |r| == |contents|
  {
    if contents == [] then []
    else NewTasks(contents[..|contents| - 1], now) + [NewTask(contents[|contents| - 1], now)]
  }

  /** Task `k` of the appended block is a fresh, pending task holding
      content `k`. */
  lemma {:induction false} NewTasksAt(contents: seq<string>, now: Timestamp, k: nat)
    requires k < |contents|
    ensures NewTasks(contents, now)[k] == NewTask(contents[k], now)
  {
    var n := |contents| - 1;
    if k < n {
      NewTasksAt(contents[..n], now, k);
    }
  }

  /** Every imported task carries content that is stripped and not empty,
      is pending and has never been edited. */
  lemma ImportedAreFresh(lines: seq<string>, now: Timestamp)
    ensures forall k :: 0 <= k < |Recovered(lines)| ==>
      var t := NewTasks(Recovered(lines), now)[k];
      ValidContent(t.content) && !t.completed && t.createdAt == now && t.modifiedAt == None
  {
    var recovered := Recovered(lines);
    forall k | 0 <= k < |recovered|
      ensures var t := NewTasks(recovered, now)[k];
        ValidContent(t.content) && !t.completed && t.createdAt == now && t.modifiedAt == None
    {
      NewTasksAt(recovered, now, k);
    }
  }

  lemma NewTasksSnoc(contents: seq<string>, c: string, now: Timestamp)
    ensures NewTasks(contents + [c], now) == NewTasks(contents, now) + [NewTask(c, now)]
  {
    assert (contents + [c])[..|contents|] == contents;
  }

  /** `scanned` holds, line by line, what the import scanner makes of `lines`. */
  predicate ScannedAs(lines: seq<string>, scanned: seq<Option<string>>)
    decreases |lines|
  {
    |lines| == |scanned|
    && (lines == [] ||
        (ScannedAs(lines[..|lines| - 1], scanned[..|lines| - 1])
         && scanned[|lines| - 1] == LineContent(lines[|lines| - 1])))
  }

  lemma ScannedStep(lines: seq<string>, k: nat, scanned: seq<Option<string>>, r: Option<string>)
    requires k < |lines| && ScannedAs(lines[..k], scanned) && r == LineContent(lines[k])
    ensures ScannedAs(lines[..k + 1], scanned + [r])
  {
    assert lines[..k + 1][..k] == lines[..k];
    assert (scanned + [r])[..k] == scanned;
  }

  /** The values of the entries that hold one, in order. */
  function Present(results: seq<Option<string>>): (r: seq<string>)
    ensures |r| <= |results|
  {
    if results == [] then []
    else
      var last := results[|results| - 1];
      Present(results[..|results| - 1]) + (if last.Some? then [last.value] else [])
  }

  lemma PresentSnoc(results: seq<Option<string>>, last: Option<string>)
    ensures Present(results + [last]) == Present(results) + (if last.Some? then [last.value] else [])
  {
    assert (results + [last])[..|results|] == results;
  }

  /** Scanning the lines one by one recovers what Recovered describes. */
  lemma {:induction false} RecoveredIsPresent(lines: seq<string>, scanned: seq<Option<string>>)
    requires ScannedAs(lines, scanned)
    ensures Recovered(lines) == Present(scanned)
    decreases |lines|
  {
    if lines != [] {
      var n := |lines| - 1;
      RecoveredIsPresent(lines[..n], scanned[..n]);
    }
  }

  lemma AppendNewTask(before: seq<Task>, contents: seq<string>, c: string, now: Timestamp)
    ensures before + NewTasks(contents + [c], now) == before + NewTasks(contents, now) + [NewTask(c, now)]
  {
    NewTasksSnoc(contents, c, now);
  }

  // ----- search -----

  /** One search hit: the 1-based position shown to the user and the task. */
  datatype Match = Match(index: nat, task: Task)

  datatype SearchResult = NothingToSearch | EmptyKeyword | Found(matches: seq<Match>)

  /** `keyword in task["content"].lower()`, the keyword being lower-cased already. */
  predicate IsMatch(keyword: string, t: Task) {
    Contains(Lower(t.content), keyword)
  }

  /** `matches` lists, in increasing order, exactly the 1-based positions of
      the tasks whose content contains `keyword`, each with its task. */
  predicate ExactMatches(tasks: seq<Task>, keyword: string, matches: seq<Match>) {
    (forall j :: 0 <= j < |matches| ==>
       1 <= matches[j].index <= |tasks| && matches[j].task == tasks[matches[j].index - 1]
       && IsMatch(keyword, matches[j].task))
    && (forall j, l :: 0 <= j < l < |matches| ==> matches[j].index < matches[l].index)
    && (forall i :: 0 <= i < |tasks| && IsMatch(keyword, tasks[i]) ==> Match(i + 1, tasks[i]) in matches)
  }

  /** The matches search_tasks collects, position by position. */
  function Hits(tasks: seq<Task>, keyword: string): (r: seq<Match>)
    ensures |r| <= |tasks|
    ensures forall j :: 0 <= j < |r| ==> 1 <= r[j].index <= |tasks|
  {
    if tasks == [] then []
    else
      var n := |tasks| - 1;
      Hits(tasks[..n], keyword) + (if IsMatch(keyword, tasks[n]) then [Match(n + 1, tasks[n])] else [])
  }

  /** The collected matches are exactly the tasks that match, in order. */
  lemma HitsExact(tasks: seq<Task>, keyword: string)
    ensures ExactMatches(tasks, keyword, Hits(tasks, keyword))
  {
    HitsSound(tasks, keyword);
    HitsComplete(tasks, keyword);
  }

  /** Every collected match is a matching task at its own position, and the
      positions increase. */
  lemma {:induction false} HitsSound(tasks: seq<Task>, keyword: string)
    ensures forall j :: 0 <= j < |Hits(tasks, keyword)| ==>
      1 <= Hits(tasks, keyword)[j].index <= |tasks|
      && Hits(tasks, keyword)[j].task == tasks[Hits(tasks, keyword)[j].index - 1]
      && IsMatch(keyword, Hits(tasks, keyword)[j].task)
    ensures forall j, l :: 0 <= j < l < |Hits(tasks, keyword)| ==>
      Hits(tasks, keyword)[j].index < Hits(tasks, keyword)[l].index
  {
    if tasks != [] {
      var n := |tasks| - 1;
      var init := tasks[..n];
      HitsSound(init, keyword);
      var h := Hits(init, keyword);
      var r := Hits(tasks, keyword);
      forall j | 0 <= j < |h|
        ensures r[j] == h[j] && tasks[h[j].index - 1] == init[h[j].index - 1]
      {
      }
    }
  }

  /** Every matching task is collected. */
  lemma {:induction false} HitsComplete(tasks: seq<Task>, keyword: string)
    ensures forall i :: 0 <= i < |tasks| && IsMatch(keyword, tasks[i]) ==> Match(i + 1, tasks[i]) in Hits(tasks, keyword)
  {
    if tasks != [] {
      var n := |tasks| - 1;
      var init := tasks[..n];
      HitsComplete(init, keyword);
      assert forall i :: 0 <= i < n ==> init[i] == tasks[i];
    }
  }

  /** The case of a task's content does not matter to the search. */
  lemma MatchIgnoresCase(keyword: string, t: Task)
    ensures IsMatch(keyword, t) <==> IsMatch(keyword, t.(content := Lower(t.content)))
  {
    LowerIdempotent(t.content);
  }

  /** A two-task list, "buy milk" pending and "pay bills" done: searching
      "bill" finds only the second task. */
  lemma SearchScenario(s: seq<Task>)
    requires |s| == 2 && s[0].content == "buy milk" && s[1].content == "pay bills"
    ensures Hits(s, Lower(Strip("bill"))) == [Match(2, s[1])]
  {
    ScenarioKeyword();
    MilkIsNoMatch(s[0]);
    BillsIsMatch(s[1]);
    assert s[..1][..0] == [];
    assert Hits(s[..1], "bill") == [];
  }

  /** On the same list, confirming the clear keeps only "buy milk" and
      removes one task. */
  lemma ClearScenario(s: seq<Task>)
    requires |s| == 2 && !s[0].completed && s[1].completed
    ensures Pending(s) == [s[0]] && |s| - |Pending(s)| == 1
  {
    assert s[..1] == [s[0]];
    assert s[..1][..0] == [];
  }

  lemma ScenarioKeyword()
    ensures Lower(Strip("bill")) == "bill"
  {
    assert Strip("bill") == "bill";
    LowerChars("bill");
  }

  lemma MilkIsNoMatch(t: Task)
    requires t.content == "buy milk"
    ensures !IsMatch("bill", t)
  {
    var c := t.content;
    LowerOfNoCapitals(c);
    ContainsMeansOccurs(c, "bill");
    forall i: nat ensures !OccursAt(c, "bill", i) {
      if i + 4 <= |c| {
        assert c[i..i + 4][0] == c[i] && c[i..i + 4][1] == c[i + 1];
        assert c[i] != 'b' || c[i + 1] != 'i';
      }
    }
  }

  lemma BillsIsMatch(t: Task)
    requires t.content == "pay bills"
    ensures IsMatch("bill", t)
  {
    var c := t.content;
    LowerOfNoCapitals(c);
    ContainsMeansOccurs(c, "bill");
    assert c[4..8] == "bill";
    assert OccursAt(c, "bill", 4);
  }

  // ----- invariants kept by the operations -----

  /** Every operation that stores content stores it stripped and non-empty,
      so a list whose contents are all valid stays so. */
  lemma OperationsKeepValid(s: seq<Task>, i: nat, raw: string, now: Timestamp, c: Criterion, lines: seq<string>)
    requires AllValid(s)
    ensures Strip(raw) != [] ==> AllValid(s + [NewTask(Strip(raw), now)])
    ensures i < |s| ==> AllValid(RemoveAt(s, i)) && AllValid(Toggled(s, i))
    ensures i < |s| && Strip(raw) != [] ==> AllValid(Edited(s, i, Strip(raw), now))
    ensures AllValid(SortBy(c, s))
    ensures AllValid(Pending(s))
    ensures AllValid(s + NewTasks(Recovered(lines), now))
  {
    PendingKeepsValid(s);
    var sorted := SortBy(c, s);
    SortByPermutes(c, s);
    forall k | 0 <= k < |sorted| ensures ValidContent(sorted[k].content) {
      assert sorted[k] in multiset(s);
    }
    var recovered := Recovered(lines);
    forall k | 0 <= k < |recovered| ensures ValidContent(NewTasks(recovered, now)[k].content) {
      NewTasksAt(recovered, now, k);
    }
  }

  class TodoManager {
    var tasks: seq<Task>
    var filename: string

    /** __init__: remembers the file name and loads it. `stored` is what
        load_tasks reads back from the file, or None when the file is missing
        or cannot be decoded. */
    constructor (filename: string, stored: Option<seq<Task>>)
      ensures this.filename == filename
      ensures tasks == if stored.Some? then stored.value else []
    {
      this.filename := filename;
      tasks := if stored.Some? then stored.value else [];
    }

    /** load_tasks: a missing or unreadable file gives an empty list. */
    method LoadTasks(stored: Option<seq<Task>>)
      modifies this`tasks
      ensures tasks == if stored.Some? then stored.value else []
    {
      if stored.Some? {
        tasks := stored.value;
      } else {
        tasks := [];
      }
    }

    /** add_task: appends one new task with the stripped text, unless that
        text is empty. */
    method AddTask(raw: string, now: Timestamp) returns (outcome: Outcome)
      modifies this`tasks
      ensures outcome == if Strip(raw) == [] then EmptyContent else Done
      ensures outcome == Done ==> tasks == old(tasks) + [NewTask(Strip(raw), now)]
      ensures outcome != Done ==> tasks == old(tasks)
    {
      var task := Strip(raw);
      if task == [] {
        return EmptyContent;
      }
      tasks := tasks + [NewTask(task, now)];
      return Done;
    }

    /** The statistics view_tasks prints, or None when there are no tasks. */
    method ViewTasks() returns (summary: Option<Summary>)
      ensures tasks == [] <==> summary == None
      ensures summary.Some? ==> summary.value.total == |tasks|
      ensures summary.Some? ==> summary.value.completed == CountCompleted(tasks)
      ensures summary.Some? ==> summary.value.pending == |Pending(tasks)|
    {
      if tasks == [] {
        return None;
      }
      return Some(Summarize(tasks));
    }

    /** delete_task: pops the task at 1-based position `selector`. */
    method DeleteTask(selector: Option<int>) returns (outcome: Outcome)
      modifies this`tasks
      ensures old(tasks) == [] ==> outcome == NoTasks
      ensures old(tasks) != [] && selector.None? ==> outcome == NotANumber
      ensures old(tasks) != [] && selector.Some? ==>
        outcome == (if 1 <= selector.value <= |old(tasks)| then Done else InvalidIndex)
      ensures outcome == Done ==> tasks == RemoveAt(old(tasks), selector.value - 1)
      ensures outcome != Done ==> tasks == old(tasks)
    {
      if tasks == [] {
        return NoTasks;
      }
      if selector.None? {
        return NotANumber;
      }
      var index := selector.value - 1;
      if 0 <= index < |tasks| {
        tasks := tasks[..index] + tasks[index + 1..];
        return Done;
      }
      return InvalidIndex;
    }

    /** modify_task: replaces the content of the selected task with the
        stripped text and stamps modified_at; the index is checked before the
        text is looked at. */
    method ModifyTask(selector: Option<int>, raw: string, now: Timestamp) returns (outcome: Outcome)
      modifies this`tasks
      ensures old(tasks) == [] ==> outcome == NoTasks
      ensures old(tasks) != [] && selector.None? ==> outcome == NotANumber
      ensures old(tasks) != [] && selector.Some? && !(1 <= selector.value <= |old(tasks)|) ==>
        outcome == InvalidIndex
      ensures old(tasks) != [] && selector.Some? && 1 <= selector.value <= |old(tasks)| ==>
        outcome == (if Strip(raw) == [] then EmptyContent else Done)
      ensures outcome == Done ==> tasks == Edited(old(tasks), selector.value - 1, Strip(raw), now)
      ensures outcome != Done ==> tasks == old(tasks)
    {
      if tasks == [] {
        return NoTasks;
      }
      if selector.None? {
        return NotANumber;
      }
      var index := selector.value - 1;
      if !(0 <= index < |tasks|) {
        return InvalidIndex;
      }
      var newTask := Strip(raw);
      if newTask == [] {
        return EmptyContent;
      }
      tasks := tasks[index := tasks[index].(content := newTask, modifiedAt := Some(now))];
      return Done;
    }

    /** toggle_task_status: flips the completed flag of the selected task. */
    method ToggleTaskStatus(selector: Option<int>) returns (outcome: Outcome)
      modifies this`tasks
      ensures old(tasks) == [] ==> outcome == NoTasks
      ensures old(tasks) != [] && selector.None? ==> outcome == NotANumber
      ensures old(tasks) != [] && selector.Some? ==>
        outcome == (if 1 <= selector.value <= |old(tasks)| then Done else InvalidIndex)
      ensures outcome == Done ==> tasks == Toggled(old(tasks), selector.value - 1)
      ensures outcome != Done ==> tasks == old(tasks)
    {
      if tasks == [] {
        return NoTasks;
      }
      if selector.None? {
        return NotANumber;
      }
      var index := selector.value - 1;
      if 0 <= index < |tasks| {
        var task := tasks[index];
        tasks := tasks[index := task.(completed := !task.completed)];
        return Done;
      }
      return InvalidIndex;
    }

    /** search_tasks: the positions and tasks whose lower-cased content
        contains the stripped, lower-cased keyword. The list is not changed. */
    method SearchTasks(raw: string) returns (result: SearchResult)
      ensures tasks == [] ==> result == NothingToSearch
      ensures tasks != [] && Strip(raw) == [] ==> result == EmptyKeyword
      ensures tasks != [] && Strip(raw) != [] ==> result == Found(Hits(tasks, Lower(Strip(raw))))
      ensures result.Found? ==> ExactMatches(tasks, Lower(Strip(raw)), result.matches)
    {
      if tasks == [] {
        return NothingToSearch;
      }
      var keyword := Lower(Strip(raw));
      if keyword == [] {
        return EmptyKeyword;
      }
      var results: seq<Match> := [];
      var i := 1;
      while i <= |tasks|
        invariant 1 <= i <= |tasks| + 1
        invariant results == Hits(tasks[..i - 1], keyword)
      {
        var task := tasks[i - 1];
        assert tasks[..i][..i - 1] == tasks[..i - 1];
        if Contains(Lower(task.content), keyword) {
          results := results + [Match(i, task)];
        }
        i := i + 1;
      }
      assert tasks[..i - 1] == tasks;
      HitsExact(tasks, keyword);
      return Found(results);
    }

    /** clear_completed_tasks: with confirmation "y" keeps only the pending
        tasks and reports how many were removed. */
    method ClearCompletedTasks(confirm: string) returns (outcome: Outcome, cleared: nat)
      modifies this`tasks
      ensures old(tasks) == [] ==> outcome == NoTasks
      ensures old(tasks) != [] && CountCompleted(old(tasks)) == 0 ==> outcome == NoneCompleted
      ensures old(tasks) != [] && CountCompleted(old(tasks)) > 0 ==>
        outcome == if Lower(Strip(confirm)) == "y" then Done else Cancelled
      ensures cleared == if outcome == Done then CountCompleted(old(tasks)) else 0
      ensures outcome == Done ==> tasks == Pending(old(tasks))
      ensures outcome != Done ==> tasks == old(tasks)
    {
      if tasks == [] {
        return NoTasks, 0;
      }
      var completedCount := CountCompleted(tasks);
      if completedCount == 0 {
        return NoneCompleted, 0;
      }
      var answer := Lower(Strip(confirm));
      if answer == "y" {
        tasks := Pending(tasks);
        return Done, completedCount;
      }
      return Cancelled, 0;
    }

    /** sort_tasks: reorders the list in place by "created" (newest first),
        "content" or "status" (pending first); Python's sort is stable. */
    method SortTasks(key: string) returns (outcome: Outcome)
      modifies this`tasks
      ensures old(tasks) == [] ==> outcome == NoTasks
      ensures old(tasks) != [] ==> outcome == if ParseCriterion(key).Some? then Done else InvalidCriterion
      ensures outcome == Done ==> tasks == SortBy(ParseCriterion(key).value, old(tasks))
      ensures outcome != Done ==> tasks == old(tasks)
    {
      if tasks == [] {
        return NoTasks;
      }
      if key == "created" {
        tasks := SortBy(Created, tasks);
      } else if key == "content" {
        tasks := SortBy(Content, tasks);
      } else if key == "status" {
        tasks := SortBy(Status, tasks);
      } else {
        return InvalidCriterion;
      }
      return Done;
    }

    /** export_tasks: the lines of the report, or None when there is nothing
        to export. The list is not changed. */
    method ExportTasks(now: Timestamp) returns (report: Option<seq<string>>)
      ensures report == ExportReport(tasks, now)
      ensures report.Some? ==> |report.value| == |tasks| + 6
    {
      if tasks == [] {
        return None;
      }
      return ExportReport(tasks, now);
    }

    /** import_tasks: scans the lines of the file in order and appends a new
        task, stamped `now`, for every line that yields content. */
    method ImportTasks(lines: seq<string>, now: Timestamp) returns (importedCount: nat)
      modifies this`tasks
      ensures tasks == old(tasks) + NewTasks(Recovered(lines), now)
      ensures importedCount == |Recovered(lines)|
    {
      importedCount := 0;
      ghost var scanned: seq<Option<string>> := [];
      ghost var contents: seq<string> := [];
      var k := 0;
      while k < |lines|
        invariant 0 <= k <= |lines|
        invariant ScannedAs(lines[..k], scanned)
        invariant contents == Present(scanned)
        invariant tasks == old(tasks) + NewTasks(contents, now)
        invariant importedCount == |contents|
      {
        var content := ExtractContent(lines[k]);
        ScannedStep(lines, k, scanned, content);
        PresentSnoc(scanned, content);
        if content.Some? {
          AppendNewTask(old(tasks), contents, content.value, now);
          tasks := tasks + [NewTask(content.value, now)];
          importedCount := importedCount + 1;
          contents := contents + [content.value];
        }
        scanned := scanned + [content];
        k := k + 1;
      }
      assert lines[..k] == lines;
      RecoveredIsPresent(lines, scanned);
    }
  }
}

// The task record kept by TodoManager (todo.py) and the pure facts about a
// list of them: the statistics of view_tasks and the list comprehension
// clear_completed_tasks keeps.

module Tasks {
  import opened Text

  /** A "%Y-%m-%d %H:%M:%S" rendering of the wall clock. Timestamps are
      supplied by the caller; the model never reads a clock. */
  type Timestamp = string

  datatype Option<T> = None | Some(value: T)

  /** One entry of `self.tasks`: the dictionary with keys "content",
      "created_at", "completed" and, once edited, "modified_at". */
  datatype Task = Task(content: string, createdAt: Timestamp, completed: bool, modifiedAt: Option<Timestamp>)

  /** The record add_task and import_tasks build: not completed, never edited. */
  function NewTask(content: string, now: Timestamp): (t: Task)
    ensures t.content == content && t.createdAt == now
    ensures !t.completed && t.modifiedAt == None
  {
    Task(content, now, false, None)
  }

  /** Content as add_task, modify_task and import_tasks accept it: already
      stripped and not empty. */
  predicate ValidContent(s: string) {
    s != [] && IsTrimmed(s)
  }

  predicate AllValid(tasks: seq<Task>) {
    forall i :: 0 <= i < |tasks| ==> ValidContent(tasks[i].content)
  }

  /** A raw input line, once stripped, is acceptable content exactly when it
      is not empty. */
  lemma StrippedIsValid(raw: string)
    requires Strip(raw) != []
    ensures ValidContent(Strip(raw))
  {
  }

  /** `sum(1 for task in tasks if task["completed"])`. */
  function CountCompleted(tasks: seq<Task>): (n: nat)
    ensures n <= |tasks|
    ensures n == 0 <==> forall i :: 0 <= i < |tasks| ==> !tasks[i].completed
  {
    if tasks == [] then 0
    else CountCompleted(tasks[..|tasks| - 1]) + (if tasks[|tasks| - 1].completed then 1 else 0)
  }

  /** `[task for task in tasks if not task["completed"]]`. */
  function Pending(tasks: seq<Task>): (r: seq<Task>)
    ensures |r| + CountCompleted(tasks) == |tasks|
  {
    if tasks == [] then []
    else
      var init := tasks[..|tasks| - 1];
      var last := tasks[|tasks| - 1];
      assert tasks == init + [last];
      Pending(init) + (if last.completed then [] else [last])
  }

  /** What the comprehension keeps is pending, and drawn from `tasks`. */
  lemma {:induction false} PendingArePending(tasks: seq<Task>)
    ensures forall i :: 0 <= i < |Pending(tasks)| ==> !Pending(tasks)[i].completed
    ensures multiset(Pending(tasks)) <= multiset(tasks)
  {
    if tasks != [] {
      var init := tasks[..|tasks| - 1];
      assert tasks == init + [tasks[|tasks| - 1]];
      PendingArePending(init);
    }
  }

  /** `sub` is `s` with some elements removed and the rest in their order. */
  predicate IsSubsequence(sub: seq<Task>, s: seq<Task>)
    decreases |s|
  {
    if sub == [] then true
    else if s == [] then false
    else if sub[|sub| - 1] == s[|s| - 1] then IsSubsequence(sub[..|sub| - 1], s[..|s| - 1])
    else IsSubsequence(sub, s[..|s| - 1])
  }

  /** The comprehension keeps the survivors in their original order. */
  lemma {:induction false} PendingIsSubsequence(tasks: seq<Task>)
    ensures IsSubsequence(Pending(tasks), tasks)
  {
    if tasks != [] {
      var init := tasks[..|tasks| - 1];
      var last := tasks[|tasks| - 1];
      assert tasks == init + [last];
      PendingIsSubsequence(init);
      var p := Pending(tasks);
      if last.completed {
        assert p == Pending(init);
        SubsequenceOfPrefix(p, init, last);
      } else {
        assert p[..|p| - 1] == Pending(init);
      }
    }
  }

  /** The comprehension keeps every occurrence of every pending task. */
  lemma {:induction false} PendingKeepsEveryPending(tasks: seq<Task>, t: Task)
    requires !t.completed
    ensures multiset(Pending(tasks))[t] == multiset(tasks)[t]
  {
    if tasks != [] {
      var init := tasks[..|tasks| - 1];
      var last := tasks[|tasks| - 1];
      assert tasks == init + [last];
      PendingKeepsEveryPending(init, t);
    }
  }

  /** A subsequence of a prefix is a subsequence of the whole. */
  lemma {:induction false} SubsequenceOfPrefix(sub: seq<Task>, s: seq<Task>, x: Task)
    requires IsSubsequence(sub, s)
    ensures IsSubsequence(sub, s + [x])
    decreases |s|, 1
  {
    assert (s + [x])[..|s + [x]| - 1] == s;
    if sub != [] && sub[|sub| - 1] == x {
      SubsequenceDropLast(sub, s);
    }
  }

  /** Dropping the last element of a subsequence keeps it a subsequence. */
  lemma {:induction false} SubsequenceDropLast(sub: seq<Task>, s: seq<Task>)
    requires sub != [] && IsSubsequence(sub, s)
    ensures IsSubsequence(sub[..|sub| - 1], s)
    decreases |s|, 0
  {
    var init := s[..|s| - 1];
    assert init + [s[|s| - 1]] == s;
    if sub[|sub| - 1] != s[|s| - 1] {
      SubsequenceDropLast(sub, init);
    }
    SubsequenceOfPrefix(sub[..|sub| - 1], init, s[|s| - 1]);
  }

  /** Clearing twice clears nothing more. */
  lemma {:induction false} PendingIdempotent(tasks: seq<Task>)
    ensures Pending(Pending(tasks)) == Pending(tasks)
    ensures CountCompleted(Pending(tasks)) == 0
  {
    var p := Pending(tasks);
    PendingArePending(tasks);
    PendingOfAllPending(p);
  }

  lemma {:induction false} PendingOfAllPending(tasks: seq<Task>)
    requires forall i :: 0 <= i < |tasks| ==> !tasks[i].completed
    ensures Pending(tasks) == tasks
  {
    if tasks != [] {
      PendingOfAllPending(tasks[..|tasks| - 1]);
      assert tasks[..|tasks| - 1] + [tasks[|tasks| - 1]] == tasks;
    }
  }

  /** Every task surviving the comprehension has valid content if every
      task before it did. */
  lemma PendingKeepsValid(tasks: seq<Task>)
    requires AllValid(tasks)
    ensures AllValid(Pending(tasks))
  {
    PendingArePending(tasks);
    forall i | 0 <= i < |Pending(tasks)| ensures ValidContent(Pending(tasks)[i].content) {
      var t := Pending(tasks)[i];
      assert t in multiset(Pending(tasks));
      assert t in multiset(tasks);
      assert t in tasks;
    }
  }

  /** The three figures view_tasks prints. */
  datatype Summary = Summary(total: nat, completed: nat, pending: nat)

  function Summarize(tasks: seq<Task>): (r: Summary)
    ensures r.total == |tasks| && r.completed + r.pending == r.total
    ensures r.pending == |Pending(tasks)|
  {
    var done := CountCompleted(tasks);
    Summary(|tasks|, done, |tasks| - done)
  }
}

// The three orders of TodoManager.sort_tasks (todo.py) and Python's
// list.sort, which is a stable sort: elements whose keys compare equal keep
// their relative order, with reverse=True as well as without it.

module Ordering {
  import opened Text
  import opened Tasks

  /** The three values of `by` that sort_tasks recognises. */
  datatype Criterion = Created | Content | Status

  /** The `by` argument as sort_tasks dispatches on it; any other string is refused. */
  function ParseCriterion(key: string): (r: Option<Criterion>)
    ensures r == Some(Created) <==> key == "created"
    ensures r == Some(Content) <==> key == "content"
    ensures r == Some(Status) <==> key == "status"
  {
    if key == "created" then Some(Created)
    else if key == "content" then Some(Content)
    else if key == "status" then Some(Status)
    else None
  }

  /** `x` has to come strictly before `y` under criterion `c`:
      Created sorts on created_at with reverse=True (newest first),
      Content sorts on content, Status on completed (False < True). */
  predicate Before(c: Criterion, x: Task, y: Task) {
    match c
    case Created => LexLess(y.createdAt, x.createdAt)
    case Content => LexLess(x.content, y.content)
    case Status => !x.completed && y.completed
  }

  /** `x` and `y` have equal sort keys under `c`. */
  predicate SameKey(c: Criterion, x: Task, y: Task) {
    match c
    case Created => x.createdAt == y.createdAt
    case Content => x.content == y.content
    case Status => x.completed == y.completed
  }

  lemma BeforeIrreflexive(c: Criterion, x: Task, y: Task)
    requires SameKey(c, x, y)
    ensures !Before(c, x, y) && !Before(c, y, x)
  {
    match c
    case Created => LexLessIrreflexive(x.createdAt);
    case Content => LexLessIrreflexive(x.content);
    case Status =>
  }

  lemma BeforeTransitive(c: Criterion, x: Task, y: Task, z: Task)
    requires Before(c, x, y) && Before(c, y, z)
    ensures Before(c, x, z)
  {
    match c
    case Created => LexLessTransitive(z.createdAt, y.createdAt, x.createdAt);
    case Content => LexLessTransitive(x.content, y.content, z.content);
    case Status =>
  }

  /** Keys are totally ordered. */
  lemma BeforeTotal(c: Criterion, x: Task, y: Task)
    ensures SameKey(c, x, y) || Before(c, x, y) || Before(c, y, x)
  {
    match c
    case Created => LexLessTotal(x.createdAt, y.createdAt);
    case Content => LexLessTotal(x.content, y.content);
    case Status =>
  }

  /** If `x` precedes `y` and `z` does not precede `y`, then `x` precedes `z`. */
  lemma BeforeNotAfter(c: Criterion, x: Task, y: Task, z: Task)
    requires Before(c, x, y) && !Before(c, z, y)
    ensures Before(c, x, z)
  {
    BeforeTotal(c, y, z);
    if SameKey(c, y, z) {
      match c
      case Created =>
      case Content =>
      case Status =>
    } else {
      BeforeTransitive(c, x, y, z);
    }
  }

  /** No element is followed by one that should precede it. */
  predicate Sorted(c: Criterion, s: seq<Task>) {
    forall i, j :: 0 <= i < j < |s| ==> !Before(c, s[j], s[i])
  }

  /** The elements of `s` whose key equals that of `t`, in their order in `s`. */
  function Group(c: Criterion, s: seq<Task>, t: Task): seq<Task> {
    if s == [] then []
    else (if SameKey(c, s[0], t) then [s[0]] else []) + Group(c, s[1..], t)
  }

  /** Places `x` after every element whose key does not exceed its own:
      an element inserted later stays behind earlier ones of equal key. */
  function Insert(c: Criterion, x: Task, s: seq<Task>): (r: seq<Task>)
    ensures |r| == |s| + 1
  {
    if s == [] then [x]
    else if Before(c, x, s[0]) then [x] + s
    else [s[0]] + Insert(c, x, s[1..])
  }

  /** Insertion adds `x` and loses nothing. */
  lemma {:induction false} InsertPermutes(c: Criterion, x: Task, s: seq<Task>)
    ensures multiset(Insert(c, x, s)) == multiset(s) + multiset{x}
    decreases |s|
  {
    if s != [] {
      assert s == [s[0]] + s[1..];
      InsertPermutes(c, x, s[1..]);
    }
  }

  /** The model of `tasks.sort(key=..., reverse=...)`: a stable insertion sort. */
  function SortBy(c: Criterion, s: seq<Task>): (r: seq<Task>)
    ensures |r| == |s|
  {
    if s == [] then []
    else Insert(c, s[|s| - 1], SortBy(c, s[..|s| - 1]))
  }

  /** The sort is a permutation of its input. */
  lemma {:induction false} SortByPermutes(c: Criterion, s: seq<Task>)
    ensures multiset(SortBy(c, s)) == multiset(s)
  {
    if s != [] {
      var init := s[..|s| - 1];
      assert s == init + [s[|s| - 1]];
      SortByPermutes(c, init);
      InsertPermutes(c, s[|s| - 1], SortBy(c, init));
    }
  }

  lemma BeforeAsymmetric(c: Criterion, x: Task, y: Task)
    requires Before(c, x, y)
    ensures !Before(c, y, x)
  {
    if Before(c, y, x) {
      BeforeTransitive(c, x, y, x);
      assert SameKey(c, x, x) by {
        match c
        case Created =>
        case Content =>
        case Status =>
      }
      BeforeIrreflexive(c, x, x);
    }
  }

  /** In a sorted list whose head comes after `x`, every element comes after `x`. */
  lemma AllAfter(c: Criterion, x: Task, s: seq<Task>)
    requires Sorted(c, s) && s != [] && Before(c, x, s[0])
    ensures forall k :: 0 <= k < |s| ==> Before(c, x, s[k])
  {
    forall k | 0 < k < |s| ensures Before(c, x, s[k]) {
      BeforeNotAfter(c, x, s[0], s[k]);
    }
  }

  lemma {:induction false} InsertSorted(c: Criterion, x: Task, s: seq<Task>)
    requires Sorted(c, s)
    ensures Sorted(c, Insert(c, x, s))
    decreases |s|
  {
    if s == [] {
    } else if Before(c, x, s[0]) {
      InsertFrontSorted(c, x, s);
    } else {
      InsertSorted(c, x, s[1..]);
      InsertPermutes(c, x, s[1..]);
      InsertUnfold(c, x, s);
      InsertBehindSorted(c, x, s, Insert(c, x, s[1..]));
    }
  }

  /** An element that precedes the head of a sorted list can go in front. */
  lemma InsertFrontSorted(c: Criterion, x: Task, s: seq<Task>)
    requires Sorted(c, s) && s != [] && Before(c, x, s[0])
    ensures Sorted(c, [x] + s)
  {
    AllAfter(c, x, s);
    var r := [x] + s;
    forall i, j | 0 <= i < j < |r| ensures !Before(c, r[j], r[i]) {
      if i == 0 {
        BeforeAsymmetric(c, x, s[j - 1]);
      } else {
        assert r[i] == s[i - 1] && r[j] == s[j - 1];
      }
    }
  }

  /** The head of a sorted list stays in front of the sorted insertion of an
      element it does not follow into the rest. */
  lemma InsertBehindSorted(c: Criterion, x: Task, s: seq<Task>, rest: seq<Task>)
    requires Sorted(c, s) && s != [] && !Before(c, x, s[0])
    requires Sorted(c, rest) && multiset(rest) == multiset(s[1..]) + multiset{x}
    ensures Sorted(c, [s[0]] + rest)
  {
    var r := [s[0]] + rest;
    forall i, j | 0 <= i < j < |r| ensures !Before(c, r[j], r[i]) {
      if i == 0 {
        assert r[j] in multiset(rest);
        if r[j] != x {
          assert r[j] in s[1..];
          var k :| 0 <= k < |s[1..]| && s[1..][k] == r[j];
          assert s[k + 1] == r[j];
        }
      } else {
        assert r[i] == rest[i - 1] && r[j] == rest[j - 1];
      }
    }
  }

  lemma {:induction false} GroupAppend(c: Criterion, a: seq<Task>, b: seq<Task>, t: Task)
    ensures Group(c, a + b, t) == Group(c, a, t) + Group(c, b, t)
    decreases |a|
  {
    if a == [] {
      assert a + b == b;
    } else {
      assert (a + b)[1..] == a[1..] + b;
      GroupAppend(c, a[1..], b, t);
    }
  }

  /** When every element of `s` comes strictly after `x`, none shares its key. */
  lemma {:induction false} GroupEmpty(c: Criterion, x: Task, s: seq<Task>, t: Task)
    requires SameKey(c, x, t)
    requires forall k :: 0 <= k < |s| ==> Before(c, x, s[k])
    ensures Group(c, s, t) == []
    decreases |s|
  {
    if s != [] {
      GroupEmpty(c, x, s[1..], t);
      var y := s[0];
      if SameKey(c, y, t) {
        assert SameKey(c, x, y) by {
          match c
          case Created =>
          case Content =>
          case Status =>
        }
        BeforeIrreflexive(c, x, y);
      }
    }
  }

  /** Inserting `x` into a sorted list puts it behind every element of equal key. */
  lemma {:induction false} InsertGroup(c: Criterion, x: Task, s: seq<Task>, t: Task)
    requires Sorted(c, s)
    ensures Group(c, Insert(c, x, s), t) == Group(c, s, t) + (if SameKey(c, x, t) then [x] else [])
    decreases |s|
  {
    if s == [] {
      assert Insert(c, x, s) == [] + [x];
    } else if Before(c, x, s[0]) {
      AllAfter(c, x, s);
      InsertFrontGroup(c, x, s, t);
    } else {
      InsertGroup(c, x, s[1..], t);
      InsertBehindGroup(c, x, s, t);
    }
  }

  lemma InsertFrontGroup(c: Criterion, x: Task, s: seq<Task>, t: Task)
    requires forall k :: 0 <= k < |s| ==> Before(c, x, s[k])
    ensures Group(c, [x] + s, t) == Group(c, s, t) + (if SameKey(c, x, t) then [x] else [])
  {
    GroupCons(c, x, s, t);
    if SameKey(c, x, t) {
      GroupEmpty(c, x, s, t);
    }
  }

  lemma InsertBehindGroup(c: Criterion, x: Task, s: seq<Task>, t: Task)
    requires s != [] && !Before(c, x, s[0])
    requires Group(c, Insert(c, x, s[1..]), t) == Group(c, s[1..], t) + (if SameKey(c, x, t) then [x] else [])
    ensures Group(c, Insert(c, x, s), t) == Group(c, s, t) + (if SameKey(c, x, t) then [x] else [])
  {
    InsertUnfold(c, x, s);
    GroupCons(c, s[0], Insert(c, x, s[1..]), t);
  }

  lemma InsertUnfold(c: Criterion, x: Task, s: seq<Task>)
    requires s != [] && !Before(c, x, s[0])
    ensures Insert(c, x, s) == [s[0]] + Insert(c, x, s[1..])
  {
  }

  /** The group of a list with a head is the head's share plus the tail's group. */
  lemma GroupCons(c: Criterion, h: Task, s: seq<Task>, t: Task)
    ensures Group(c, [h] + s, t) == (if SameKey(c, h, t) then [h] else []) + Group(c, s, t)
  {
    assert ([h] + s)[1..] == s;
  }

  /** The result of SortBy is in order. */
  lemma {:induction false} SortBySorted(c: Criterion, s: seq<Task>)
    ensures Sorted(c, SortBy(c, s))
  {
    if s != [] {
      SortBySorted(c, s[..|s| - 1]);
      InsertSorted(c, s[|s| - 1], SortBy(c, s[..|s| - 1]));
    }
  }

  /** Stability: for every key, the elements with that key appear in the
      result in exactly the order they had in the input. */
  lemma {:induction false} SortByStable(c: Criterion, s: seq<Task>, t: Task)
    ensures Group(c, SortBy(c, s), t) == Group(c, s, t)
  {
    if s != [] {
      var init := s[..|s| - 1];
      SortByStable(c, init, t);
      SortBySorted(c, init);
      InsertGroup(c, s[|s| - 1], SortBy(c, init), t);
      assert s == init + [s[|s| - 1]];
      GroupAppend(c, init, [s[|s| - 1]], t);
      GroupCons(c, s[|s| - 1], [], t);
      assert [s[|s| - 1]] + [] == [s[|s| - 1]];
    }
  }

  /** Everything sort_tasks promises of one call: a permutation, in order,
      and stable. */
  lemma SortByCorrect(c: Criterion, s: seq<Task>)
    ensures multiset(SortBy(c, s)) == multiset(s) && |SortBy(c, s)| == |s|
    ensures Sorted(c, SortBy(c, s))
    ensures forall t :: Group(c, SortBy(c, s), t) == Group(c, s, t)
  {
    SortBySorted(c, s);
    SortByPermutes(c, s);
    forall t ensures Group(c, SortBy(c, s), t) == Group(c, s, t) { SortByStable(c, s, t); }
  }

  /** "created": newest first, i.e. created_at never increases. */
  lemma SortedByCreated(s: seq<Task>)
    ensures forall i, j :: 0 <= i < j < |SortBy(Created, s)| ==>
      !LexLess(SortBy(Created, s)[i].createdAt, SortBy(Created, s)[j].createdAt)
  {
    SortBySorted(Created, s);
  }

  /** "content": content never decreases. */
  lemma SortedByContent(s: seq<Task>)
    ensures forall i, j :: 0 <= i < j < |SortBy(Content, s)| ==>
      !LexLess(SortBy(Content, s)[j].content, SortBy(Content, s)[i].content)
  {
    SortBySorted(Content, s);
  }

  /** "status": a stable partition, with every pending task before every
      completed one and each part in its original order. */
  lemma SortedByStatus(s: seq<Task>)
    ensures forall i, j :: 0 <= i < j < |SortBy(Status, s)| && SortBy(Status, s)[i].completed ==>
      SortBy(Status, s)[j].completed
    ensures Group(Status, SortBy(Status, s), NewTask("", "")) == Pending(s)
  {
    SortBySorted(Status, s);
    SortByStable(Status, s, NewTask("", ""));
    GroupPendingIsPending(s);
  }

  lemma {:induction false} GroupPendingIsPending(s: seq<Task>)
    ensures Group(Status, s, NewTask("", "")) == Pending(s)
  {
    if s != [] {
      var init, last := s[..|s| - 1], s[|s| - 1];
      assert s == init + [last];
      GroupPendingIsPending(init);
      GroupAppend(Status, init, [last], NewTask("", ""));
      GroupCons(Status, last, [], NewTask("", ""));
      assert [last] + [] == [last];
    }
  }
}

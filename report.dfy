// The text report of TodoManager.export_tasks and the line scanner of
// TodoManager.import_tasks (todo.py). Files are modelled as their lines;
// opening, reading and writing them is not.

module Report {
  import opened Text
  import opened Tasks

  const HeaderMark: string := "任务列表"
  const FooterMark: string := "总计"
  const RuleMark: string := "="
  /** The marker export_tasks appends to a completed task. */
  const DoneMark: string := "[已完成]"
  const DoneGlyph: char := '✅'
  const OpenGlyph: char := '⭕'

  /** "=" * 50 */
  function Rule(): (r: string)
    ensures |r| == 50 && forall i :: 0 <= i < |r| ==> r[i] == '='
  {
    seq(50, _ => '=')
  }

  function Glyph(t: Task): char {
    if t.completed then DoneGlyph else OpenGlyph
  }

  /** What follows "<i>. <glyph> " on an exported line: the content, the
      completed marker if any, and the creation time. */
  function LineBody(t: Task): string {
    t.content + (if t.completed then " " + DoneMark else "") + " (创建: " + t.createdAt + ")"
  }

  /** f"{i}. {status} {content}{completed_str}{created_str}" */
  function ExportLine(i: nat, t: Task): string {
    Decimal(i) + ". " + [Glyph(t)] + " " + LineBody(t)
  }

  /** One line per task, numbered from 1. */
  function TaskLines(tasks: seq<Task>): (r: seq<string>)
    ensures |r| == |tasks|
    ensures forall k :: 0 <= k < |tasks| ==> r[k] == ExportLine(k + 1, tasks[k])
  {
    if tasks == [] then []
    else TaskLines(tasks[..|tasks| - 1]) + [ExportLine(|tasks|, tasks[|tasks| - 1])]
  }

  /** The three lines export_tasks writes before the tasks. */
  function HeaderLines(now: Timestamp): seq<string> {
    [HeaderMark + " - 导出时间: " + now, Rule(), ""]
  }

  /** The three lines export_tasks writes after the tasks. */
  function FooterLines(count: nat): seq<string> {
    ["", Rule(), FooterMark + ": " + Decimal(count) + " 个任务"]
  }

  /** The lines of the exported file: a header stamped with `now`, a rule,
      a blank line, the task lines, a blank line, a rule and the total.
      Nothing is written for an empty list. */
  function ExportReport(tasks: seq<Task>, now: Timestamp): (r: Option<seq<string>>)
    ensures r == None <==> tasks == []
    ensures r.Some? ==> |r.value| == |tasks| + 6 && r.value[3..|tasks| + 3] == TaskLines(tasks)
  {
    if tasks == [] then None
    else
      var lines := HeaderLines(now) + TaskLines(tasks) + FooterLines(|tasks|);
      assert lines[3..|tasks| + 3] == TaskLines(tasks);
      Some(lines)
  }

  // ----- the import scanner -----

  /** The three runs of characters import_tasks skips in front of the content. */
  datatype CharClass = Numeral | Separator | StatusGlyph

  predicate InClass(k: CharClass, c: char) {
    match k
    case Numeral => IsDigit(c)
    case Separator => c == '.' || c == ' '
    case StatusGlyph => c == DoneGlyph || c == OpenGlyph
  }

  /** The end of the run of class-`k` characters that starts at `i`. */
  function SkipRun(s: string, i: nat, k: CharClass): (j: nat)
    requires i <= |s|
    ensures i <= j <= |s|
    ensures forall m :: i <= m < j ==> InClass(k, s[m])
    ensures j == |s| || !InClass(k, s[j])
    decreases |s| - i
  {
    if i == |s| || !InClass(k, s[i]) then i else SkipRun(s, i + 1, k)
  }

  /** A line import_tasks passes over without creating a task. */
  predicate Ignored(line: string) {
    line == [] || StartsWith(line, RuleMark) || StartsWith(line, HeaderMark)
    || StartsWith(line, FooterMark) || !IsDigit(line[0])
  }

  /** Where the content starts: after the index digits, the dots and
      blanks, and the status glyphs. */
  function ContentStart(line: string): (j: nat)
    ensures j <= |line|
  {
    SkipRun(line, SkipRun(line, SkipRun(line, 0, Numeral), Separator), StatusGlyph)
  }

  /** The rest of the line stripped, and stripped of a trailing completed
      marker if it has one. */
  function Candidate(rest: string): (r: string)
    ensures IsTrimmed(r)
  {
    var c := Strip(rest);
    if EndsWith(c, DoneMark) then Strip(c[..|c| - |DoneMark|]) else c
  }

  /** The candidate is the stripped remainder, except that a trailing
      completed marker is cut off together with the whitespace before it. */
  lemma CandidateDropsMarker(rest: string)
    ensures !EndsWith(Strip(rest), DoneMark) ==> Candidate(rest) == Strip(rest)
    ensures EndsWith(Strip(rest), DoneMark) ==>
      exists w :: AllSpace(w) && Strip(rest) == Candidate(rest) + w + DoneMark
  {
    var c := Strip(rest);
    if EndsWith(c, DoneMark) {
      var p := c[..|c| - |DoneMark|];
      MarkerCut(c, p);
      var w := p[|Strip(p)|..];
      assert AllSpace(w) && c == Strip(p) + w + DoneMark;
    }
  }

  /** Cutting the marker off a stripped string and stripping again removes
      only whitespace in front of the marker. */
  lemma MarkerCut(c: string, p: string)
    requires IsTrimmed(c) && EndsWith(c, DoneMark) && p == c[..|c| - |DoneMark|]
    ensures |Strip(p)| <= |p|
    ensures AllSpace(p[|Strip(p)|..]) && c == Strip(p) + p[|Strip(p)|..] + DoneMark
  {
    assert c == p + DoneMark;
    if p != [] {
      assert p[0] == c[0];
    }
    LStripOfTrimmed(p);
    RStripSplits(p);
    assert p == Strip(p) + p[|Strip(p)|..];
  }

  /** The content import_tasks recovers from one line of the file, if any. */
  function LineContent(raw: string): (r: Option<string>)
    ensures Ignored(Strip(raw)) ==> r == None
    ensures r.Some? ==> ValidContent(r.value)
  {
    var line := Strip(raw);
    if Ignored(line) then None
    else
      var content := Candidate(line[ContentStart(line)..]);
      if content == [] then None else Some(content)
  }

  /** The cursor loops of import_tasks: skip the index digits, then dots
      and blanks, then status glyphs. */
  method FindContentStart(line: string) returns (start: nat)
    ensures start == ContentStart(line)
  {
    start := 0;
    while start < |line| && IsDigit(line[start])
      invariant start <= |line|
      invariant SkipRun(line, start, Numeral) == SkipRun(line, 0, Numeral)
    {
      start := start + 1;
    }
    ghost var afterNumber := start;
    while start < |line| && (line[start] == '.' || line[start] == ' ')
      invariant afterNumber <= start <= |line|
      invariant SkipRun(line, start, Separator) == SkipRun(line, afterNumber, Separator)
    {
      start := start + 1;
    }
    ghost var afterSeparator := start;
    while start < |line| && (line[start] == DoneGlyph || line[start] == OpenGlyph)
      invariant afterSeparator <= start <= |line|
      invariant SkipRun(line, start, StatusGlyph) == SkipRun(line, afterSeparator, StatusGlyph)
    {
      start := start + 1;
    }
  }

  /** The per-line body of the loop in import_tasks. */
  method ExtractContent(raw: string) returns (r: Option<string>)
    ensures r == LineContent(raw)
  {
    var line := Strip(raw);
    if line == [] || StartsWith(line, RuleMark) || StartsWith(line, HeaderMark) || StartsWith(line, FooterMark) {
      return None;
    }
    if !IsDigit(line[0]) {
      return None;
    }
    var start := FindContentStart(line);
    var content := Candidate(line[start..]);
    if content == [] {
      return None;
    }
    return Some(content);
  }

  /** The contents import_tasks recovers from `lines`, in file order. */
  function Recovered(lines: seq<string>): (r: seq<string>)
    ensures |r| <= |lines|
    ensures forall k :: 0 <= k < |r| ==> ValidContent(r[k])
  {
    if lines == [] then []
    else
      var last := LineContent(lines[|lines| - 1]);
      Recovered(lines[..|lines| - 1]) + (if last.Some? then [last.value] else [])
  }

  lemma {:induction false} RecoveredAppend(a: seq<string>, b: seq<string>)
    ensures Recovered(a + b) == Recovered(a) + Recovered(b)
    decreases |b|
  {
    if b == [] {
      assert a + b == a;
    } else {
      assert (a + b)[..|a + b| - 1] == a + b[..|b| - 1];
      RecoveredAppend(a, b[..|b| - 1]);
    }
  }

  /** A numbered line with the completed glyph whose text ends in the
      completed marker, as in "3. ✅ buy milk [已完成]", imports as its
      content with the marker cut off. */
  lemma MarkedLineImported(i: nat, content: string)
    requires ValidContent(content)
    ensures LineContent(Decimal(i) + ". " + [DoneGlyph] + " " + (content + " " + DoneMark)) == Some(content)
  {
    var d := Decimal(i);
    var tail := content + " " + DoneMark;
    var line := Decimal(i) + ". " + [DoneGlyph] + " " + tail;
    assert line == d + ['.', ' ', DoneGlyph, ' '] + tail;
    MarkedLineKept(d, tail, line);
    MarkedLineCursor(d, tail, line);
    MarkedLineRest(d, tail, line);
    MarkedTailCandidate(content, tail);
    LineContentOf(line, |d| + 3, content);
  }

  lemma MarkedLineRest(d: string, tail: string, line: string)
    requires line == d + ['.', ' ', DoneGlyph, ' '] + tail
    ensures line[|d| + 3..] == [' '] + tail
  {
  }

  /** A kept line whose content starts at `start` yields the candidate found there. */
  lemma LineContentOf(line: string, start: nat, content: string)
    requires Strip(line) == line && !Ignored(line) && ContentStart(line) == start
    requires start <= |line| && Candidate(line[start..]) == content && content != []
    ensures LineContent(line) == Some(content)
  {
  }

  lemma MarkedLineKept(d: string, tail: string, line: string)
    requires d != [] && IsDigit(d[0])
    requires tail != [] && tail[|tail| - 1] == ']'
    requires line == d + ['.', ' ', DoneGlyph, ' '] + tail
    ensures Strip(line) == line && !Ignored(line)
  {
    assert line[0] == d[0];
    assert line[|line| - 1] == ']';
    LStripOfTrimmed(line);
    RStripOfTrimmed(line);
  }

  lemma MarkedLineCursor(d: string, tail: string, line: string)
    requires d != [] && forall m :: 0 <= m < |d| ==> IsDigit(d[m])
    requires line == d + ['.', ' ', DoneGlyph, ' '] + tail
    ensures ContentStart(line) == |d| + 3
  {
    var n := |d|;
    assert line[n] == '.' && line[n + 1] == ' ' && line[n + 2] == DoneGlyph && line[n + 3] == ' ';
    assert forall m :: 0 <= m < n ==> line[m] == d[m];
    SkipRunOver(line, 0, n, Numeral);
    SkipRunOver(line, n, n + 2, Separator);
    SkipRunOver(line, n + 2, n + 3, StatusGlyph);
  }

  lemma MarkedTailCandidate(content: string, tail: string)
    requires ValidContent(content) && tail == content + " " + DoneMark
    ensures Candidate([' '] + tail) == content
  {
    assert tail[0] == content[0];
    assert tail[|tail| - 1] == ']';
    StripKeepsNonSpaceEnd([' '] + tail);
    LStripSpacePrefix(' ', tail);
    LStripOfTrimmed(tail);
    assert tail[|tail| - |DoneMark|..] == DoneMark;
    var p := tail[..|tail| - |DoneMark|];
    assert p == content + " ";
    assert p[0] == content[0];
    LStripOfTrimmed(p);
    assert p[..|p| - 1] == content;
    RStripOfTrimmed(content);
  }

  /** An exported task line yields exactly one task, whose content is the
      whole line body: the creation-time suffix follows the completed marker,
      so the marker test never removes anything and both stay in the content. */
  lemma ExportLineRecovered(i: nat, t: Task)
    requires i >= 1 && ValidContent(t.content)
    ensures LineContent(ExportLine(i, t)) == Some(LineBody(t))
  {
    var line := ExportLine(i, t);
    var body := LineBody(t);
    ExportLineKept(i, t);
    ExportLineCursor(i, t);
    BodyRecovered(t);
    ExportLineTail(i, t);
  }

  lemma ExportLineTail(i: nat, t: Task)
    ensures |Decimal(i)| + 3 <= |ExportLine(i, t)|
    ensures ExportLine(i, t)[|Decimal(i)| + 3..] == [' '] + LineBody(t)
  {
    assert ExportLine(i, t) == (Decimal(i) + ['.', ' ', Glyph(t)]) + ([' '] + LineBody(t));
  }

  /** An exported line has nothing to strip and is not passed over. */
  lemma ExportLineKept(i: nat, t: Task)
    ensures Strip(ExportLine(i, t)) == ExportLine(i, t) && !Ignored(ExportLine(i, t))
  {
    var d := Decimal(i);
    var body := LineBody(t);
    var line := ExportLine(i, t);
    assert line == d + (". " + [Glyph(t)] + " " + body);
    assert line[0] == d[0];
    assert body[|body| - 1] == ')';
    assert line[|line| - 1] == ')';
    LStripOfTrimmed(line);
    RStripOfTrimmed(line);
  }

  /** The three cursor loops stop just before the blank that follows the glyph. */
  lemma ExportLineCursor(i: nat, t: Task)
    ensures |Decimal(i)| + 3 <= |ExportLine(i, t)|
    ensures SkipRun(ExportLine(i, t), SkipRun(ExportLine(i, t), SkipRun(ExportLine(i, t), 0, Numeral), Separator), StatusGlyph)
            == |Decimal(i)| + 3
  {
    var d := Decimal(i);
    var line := ExportLine(i, t);
    var n := |d|;
    assert line == d + ['.', ' ', Glyph(t), ' '] + LineBody(t);
    assert line[n] == '.' && line[n + 1] == ' ' && line[n + 2] == Glyph(t) && line[n + 3] == ' ';
    assert forall m :: 0 <= m < n ==> line[m] == d[m];
    SkipRunOver(line, 0, n, Numeral);
    SkipRunOver(line, n, n + 2, Separator);
    SkipRunOver(line, n + 2, n + 3, StatusGlyph);
  }

  /** The remainder after the glyph, stripped, is the line body, and the
      body never ends with the completed marker. */
  lemma BodyRecovered(t: Task)
    requires ValidContent(t.content)
    ensures Candidate([' '] + LineBody(t)) == LineBody(t)
  {
    var body := LineBody(t);
    assert body[|body| - 1] == ')';
    assert body[0] == t.content[0];
    StripKeepsNonSpaceEnd([' '] + body);
    LStripSpacePrefix(' ', body);
    LStripOfTrimmed(body);
    assert Strip([' '] + body) == body;
    assert DoneMark[|DoneMark| - 1] == ']';
    assert !EndsWith(body, DoneMark);
  }

  /** A run of class-`k` characters from `i` to `j`, followed by a character
      outside the class, is exactly what SkipRun passes over. */
  lemma {:induction false} SkipRunOver(s: string, i: nat, j: nat, k: CharClass)
    requires i <= j < |s|
    requires forall m :: i <= m < j ==> InClass(k, s[m])
    requires !InClass(k, s[j])
    ensures SkipRun(s, i, k) == j
    decreases j - i
  {
    if i < j { SkipRunOver(s, i + 1, j, k); }
  }

  /** Exporting and importing again recovers one task per exported task, in
      order; each recovered content is the exported line body. */
  lemma ExportThenImport(tasks: seq<Task>, now: Timestamp)
    requires tasks != [] && AllValid(tasks)
    ensures |Recovered(ExportReport(tasks, now).value)| == |tasks|
    ensures forall k :: 0 <= k < |tasks| ==> Recovered(ExportReport(tasks, now).value)[k] == LineBody(tasks[k])
  {
    HeaderNothing(now);
    FooterNothing(|tasks|);
    RecoveredBetween(HeaderLines(now), TaskLines(tasks), FooterLines(|tasks|));
    TaskLinesRecovered(tasks);
  }

  lemma RecoveredBetween(head: seq<string>, body: seq<string>, foot: seq<string>)
    requires Recovered(head) == [] && Recovered(foot) == []
    ensures Recovered(head + body + foot) == Recovered(body)
  {
    RecoveredAppend(head + body, foot);
    RecoveredAppend(head, body);
  }

  lemma HeaderNothing(now: Timestamp)
    ensures Recovered(HeaderLines(now)) == []
  {
    HeaderIgnored(now);
    RuleIgnored();
    NothingFromThree(HeaderMark + " - 导出时间: " + now, Rule(), "");
  }

  lemma FooterNothing(count: nat)
    ensures Recovered(FooterLines(count)) == []
  {
    FooterIgnored(count);
    RuleIgnored();
    NothingFromThree("", Rule(), FooterMark + ": " + Decimal(count) + " 个任务");
  }

  lemma NothingFromThree(a: string, b: string, c: string)
    requires LineContent(a) == None && LineContent(b) == None && LineContent(c) == None
    ensures Recovered([a, b, c]) == []
  {
    RecoveredSnoc([], a);
    assert [] + [a] == [a];
    RecoveredSnoc([a], b);
    assert [a] + [b] == [a, b];
    RecoveredSnoc([a, b], c);
    assert [a, b] + [c] == [a, b, c];
  }

  lemma {:induction false} TaskLinesRecovered(tasks: seq<Task>)
    requires AllValid(tasks)
    ensures |Recovered(TaskLines(tasks))| == |tasks|
    ensures forall k :: 0 <= k < |tasks| ==> Recovered(TaskLines(tasks))[k] == LineBody(tasks[k])
  {
    if tasks != [] {
      var n := |tasks|;
      var init := tasks[..n - 1];
      var last := ExportLine(n, tasks[n - 1]);
      TaskLinesRecovered(init);
      ExportLineRecovered(n, tasks[n - 1]);
      assert TaskLines(tasks) == TaskLines(init) + [last];
      RecoveredSnoc(TaskLines(init), last);
      var r := Recovered(TaskLines(tasks));
      assert r == Recovered(TaskLines(init)) + [LineBody(tasks[n - 1])];
      forall k | 0 <= k < n ensures r[k] == LineBody(tasks[k]) {
        if k < n - 1 { assert init[k] == tasks[k]; }
      }
    }
  }

  lemma RecoveredSnoc(lines: seq<string>, line: string)
    ensures Recovered(lines + [line]) == Recovered(lines) + (if LineContent(line).Some? then [LineContent(line).value] else [])
  {
    assert (lines + [line])[..|lines|] == lines;
  }

  lemma HeaderIgnored(now: Timestamp)
    ensures LineContent(HeaderMark + " - 导出时间: " + now) == None
  {
    var line := HeaderMark + " - 导出时间: " + now;
    StartsWithStrip(line, HeaderMark);
  }

  lemma FooterIgnored(n: nat)
    ensures LineContent(FooterMark + ": " + Decimal(n) + " 个任务") == None
  {
    var line := FooterMark + ": " + Decimal(n) + " 个任务";
    StartsWithStrip(line, FooterMark);
  }

  lemma RuleIgnored()
    ensures LineContent(Rule()) == None && LineContent("") == None
  {
    StartsWithStrip(Rule(), RuleMark);
  }

  /** A line that starts with a marker free of whitespace still starts
      with it once stripped. */
  lemma StartsWithStrip(line: string, mark: string)
    requires mark != [] && StartsWith(line, mark)
    requires forall i :: 0 <= i < |mark| ==> !IsSpace(mark[i])
    ensures StartsWith(Strip(line), mark)
  {
    assert line[0] == mark[0];
    LStripOfTrimmed(line);
    var r := RStrip(line);
    RStripSplits(line);
    assert forall k :: 0 <= k < |mark| ==> line[k] == mark[k] by {
      forall k | 0 <= k < |mark| ensures line[k] == mark[k] { assert line[..|mark|][k] == line[k]; }
    }
    assert forall k :: |r| <= k < |line| ==> IsSpace(line[k]) by {
      forall k | |r| <= k < |line| ensures IsSpace(line[k]) { assert line[|r|..][k - |r|] == line[k]; }
    }
    assert !IsSpace(line[|mark| - 1]);
    assert r[..|mark|] == line[..|mark|];
  }
}

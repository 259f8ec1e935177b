/** The server's reading of a unified diff (the GNU unified format): for
    every file it records the removed, added and context lines together with
    their old-side and new-side line numbers, counted from the hunk headers. */
module DiffScan {
  import opened Wrappers
  import opened Strings

  /** One recorded diff line. A line number of 0 marks a line that is absent
      from that side; `content` is the whole line, marker included. */
  datatype DiffLine = DiffLine(oldLineNo: int, newLineNo: int, content: string)

  /** The scanner's variables: the file being read (empty before the first
      file header), the two line counters, and the entries so far. */
  datatype Scanner = Scanner(currentFile: string, oldLine: int, newLine: int, result: map<string, seq<DiffLine>>)

  const Start: Scanner := Scanner("", 0, 0, map[])

  /** The prefix of the line naming the post-image file. */
  const FileMarker: string := "+++ b/"

  /** The entries of `file`; a file without entries reads as none, as a
      missing key of a Go map of slices does. */
  function LinesOf(result: map<string, seq<DiffLine>>, file: string): seq<DiffLine> {
    if file in result then result[file] else []
  }

  /** Header lines that the scanner passes over without effect. */
  predicate IsMetadata(line: string) {
    || HasPrefix(line, "--- ") || HasPrefix(line, "diff --git") || HasPrefix(line, "index ")
    || HasPrefix(line, "new file") || HasPrefix(line, "deleted file")
  }

  /** The number that opens a range such as `-12,4` or `+7`: what follows
      the sign up to the first comma, read with `strconv.Atoi`. */
  function RangeStart(range: string): int
    requires |range| > 0
  {
    Atoi(SplitN(range[1..], ",", 2)[0])
  }

  /** The effect of one range of a hunk header on the (old, new) counters. */
  function ApplyRange(counters: (int, int), range: string): (int, int) {
    if HasPrefix(range, "-") then (RangeStart(range), counters.1)
    else if HasPrefix(range, "+") then (counters.0, RangeStart(range))
    else counters
  }

  /** The effect of the ranges of a hunk header, taken from left to right. */
  function ApplyRanges(counters: (int, int), ranges: seq<string>): (int, int)
    decreases |ranges|
  {
    if |ranges| == 0 then counters
    else ApplyRange(ApplyRanges(counters, ranges[..|ranges| - 1]), ranges[|ranges| - 1])
  }

  /** The whitespace-separated words between the first two `@@` of a hunk
      header line. */
  function HeaderRanges(line: string): seq<string> {
    var parts := SplitN(line, "@@", 3);
    if |parts| >= 2 then Fields(Trim(parts[1])) else []
  }

  /** Appends `entry` to the current file's entries. */
  function Record(st: Scanner, entry: DiffLine): Scanner {
    st.(result := st.result[st.currentFile := LinesOf(st.result, st.currentFile) + [entry]])
  }

  /** The scanner's reaction to one line, in the order the tests are made. */
  function Step(st: Scanner, line: string): Scanner {
    if HasPrefix(line, FileMarker) then st.(currentFile := TrimPrefix(line, FileMarker))
    else if IsMetadata(line) then st
    else if HasPrefix(line, "@@ ") then
      var counters := ApplyRanges((st.oldLine, st.newLine), HeaderRanges(line));
      st.(oldLine := counters.0, newLine := counters.1)
    else if st.currentFile == "" then st
    else if HasPrefix(line, "-") then
      Record(st, DiffLine(st.oldLine, 0, line)).(oldLine := st.oldLine + 1)
    else if HasPrefix(line, "+") then
      Record(st, DiffLine(0, st.newLine, line)).(newLine := st.newLine + 1)
    else if HasPrefix(line, " ") || line == "" then
      Record(st, DiffLine(st.oldLine, st.newLine, line)).(oldLine := st.oldLine + 1, newLine := st.newLine + 1)
    else st
  }

  /** The scanner's state after `lines`. */
  function Scan(lines: seq<string>): Scanner
    decreases |lines|
  {
    if |lines| == 0 then Start else Step(Scan(lines[..|lines| - 1]), lines[|lines| - 1])
  }

  /** `parseDiffLines`: the entries per file after reading every line of
      `diff`. */
  method ParseDiffLines(diff: string) returns (result: map<string, seq<DiffLine>>)
    ensures result == Scan(Split(diff, '\n')).result
  {
    result := map[];
    var lines := Split(diff, '\n');
    var currentFile := "";
    var oldLine, newLine := 0, 0;
    for i := 0 to |lines|
      invariant Scanner(currentFile, oldLine, newLine, result) == Scan(lines[..i])
    {
      var line := lines[i];
      assert lines[..i + 1][..i] == lines[..i];
      if HasPrefix(line, "+++ b/") {
        currentFile := TrimPrefix(line, "+++ b/");
        continue;
      }
      if HasPrefix(line, "--- ") {
        continue;
      }
      if HasPrefix(line, "diff --git") {
        continue;
      }
      if HasPrefix(line, "index ") || HasPrefix(line, "new file") || HasPrefix(line, "deleted file") {
        continue;
      }
      if HasPrefix(line, "@@ ") {
        oldLine, newLine := ReadHunkHeader(line, oldLine, newLine);
        continue;
      }
      if currentFile == "" {
        continue;
      }
      if HasPrefix(line, "-") {
        result := result[currentFile := LinesOf(result, currentFile) + [DiffLine(oldLine, 0, line)]];
        oldLine := oldLine + 1;
      } else if HasPrefix(line, "+") {
        result := result[currentFile := LinesOf(result, currentFile) + [DiffLine(0, newLine, line)]];
        newLine := newLine + 1;
      } else if HasPrefix(line, " ") || line == "" {
        result := result[currentFile := LinesOf(result, currentFile) + [DiffLine(oldLine, newLine, line)]];
        oldLine := oldLine + 1;
        newLine := newLine + 1;
      }
    }
    assert lines[..|lines|] == lines;
  }

  /** The counter update of one hunk header line. */
  method ReadHunkHeader(line: string, oldLine: int, newLine: int) returns (oldStart: int, newStart: int)
    ensures (oldStart, newStart) == ApplyRanges((oldLine, newLine), HeaderRanges(line))
  {
    oldStart, newStart := oldLine, newLine;
    var parts := SplitN(line, "@@", 3);
    if |parts| >= 2 {
      var header := Trim(parts[1]);
      var ranges := Fields(header);
      oldStart, newStart := ReadRanges(ranges, oldLine, newLine);
    }
  }

  /** The loop over the words of a hunk header: a `-` word sets the old
      counter, a `+` word the new one, and other words are passed over. */
  method ReadRanges(ranges: seq<string>, oldLine: int, newLine: int) returns (oldStart: int, newStart: int)
    ensures (oldStart, newStart) == ApplyRanges((oldLine, newLine), ranges)
  {
    oldStart, newStart := oldLine, newLine;
    for k := 0 to |ranges|
      invariant (oldStart, newStart) == ApplyRanges((oldLine, newLine), ranges[..k])
    {
      var r := ranges[k];
      assert ranges[..k + 1][..k] == ranges[..k];
      if HasPrefix(r, "-") {
        var nums := SplitN(r[1..], ",", 2);
        oldStart := Atoi(nums[0]);
      } else if HasPrefix(r, "+") {
        var nums := SplitN(r[1..], ",", 2);
        newStart := Atoi(nums[0]);
      }
    }
    assert ranges[..|ranges|] == ranges;
  }

  lemma ScanSnoc(lines: seq<string>, line: string)
    ensures Scan(lines + [line]) == Step(Scan(lines), line)
  {
    assert (lines + [line])[..|lines|] == lines;
  }

  /** A `+++ b/X` line makes `X` the current file and changes nothing else. */
  lemma FileHeaderSelectsFile(lines: seq<string>, name: string)
    ensures Scan(lines + [FileMarker + name]) == Scan(lines).(currentFile := name)
  {
    ScanSnoc(lines, FileMarker + name);
    assert (FileMarker + name)[..|FileMarker|] == FileMarker;
  }

  /** `--- `, `diff --git`, `index `, `new file` and `deleted file` lines
      leave the scanner as it was. */
  lemma MetadataIgnored(lines: seq<string>, line: string)
    requires IsMetadata(line)
    ensures Scan(lines + [line]) == Scan(lines)
  {
    ScanSnoc(lines, line);
    assert line[0] != '+';
  }

  /** The marker of an entry agrees with its numbers: a removed line has
      no new-side number, an added line no old-side number. */
  predicate EntryShape(e: DiffLine) {
    || (HasPrefix(e.content, "-") && e.newLineNo == 0)
    || (HasPrefix(e.content, "+") && e.oldLineNo == 0)
    || HasPrefix(e.content, " ") || e.content == ""
  }

  /** Everything the scanner holds after `lines` comes from `lines`: the
      current file and every key were named by a `+++ b/` line, and every
      entry is one of the lines, with numbers that fit its marker. */
  ghost predicate Traced(st: Scanner, lines: seq<string>) {
    && (st.currentFile == "" || FileMarker + st.currentFile in lines)
    && (forall f :: f in st.result ==> f != "" && FileMarker + f in lines)
    && (forall f, e :: f in st.result && e in st.result[f] ==> e.content in lines && EntryShape(e))
  }

  lemma {:induction false} ScanTraced(lines: seq<string>)
    ensures Traced(Scan(lines), lines)
    decreases |lines|
  {
    if |lines| > 0 {
      var init, line := lines[..|lines| - 1], lines[|lines| - 1];
      ScanTraced(init);
      assert lines == init + [line];
      StepTraced(Scan(init), init, line);
    }
  }

  lemma StepTraced(st: Scanner, lines: seq<string>, line: string)
    requires Traced(st, lines)
    ensures Traced(Step(st, line), lines + [line])
  {
    var next := Step(st, line);
    if HasPrefix(line, FileMarker) {
      assert FileMarker + TrimPrefix(line, FileMarker) == line;
      TracedKeep(st, next, lines, line);
    } else if IsMetadata(line) || HasPrefix(line, "@@ ") || st.currentFile == "" {
      TracedKeep(st, next, lines, line);
    } else if HasPrefix(line, "-") {
      TracedRecord(st, next, lines, DiffLine(st.oldLine, 0, line));
    } else if HasPrefix(line, "+") {
      TracedRecord(st, next, lines, DiffLine(0, st.newLine, line));
    } else if HasPrefix(line, " ") || line == "" {
      TracedRecord(st, next, lines, DiffLine(st.oldLine, st.newLine, line));
    } else {
      TracedKeep(st, next, lines, line);
    }
  }

  /** A line that changes no entries keeps the trace. */
  lemma TracedKeep(st: Scanner, next: Scanner, lines: seq<string>, line: string)
    requires Traced(st, lines)
    requires next.result == st.result
    requires next.currentFile == st.currentFile || FileMarker + next.currentFile == line
    ensures Traced(next, lines + [line])
  {
    var all := lines + [line];
    assert forall x :: x in lines ==> x in all;
    assert line in all;
  }

  /** A recorded line keeps the trace. */
  lemma TracedRecord(st: Scanner, next: Scanner, lines: seq<string>, e: DiffLine)
    requires Traced(st, lines) && st.currentFile != ""
    requires EntryShape(e)
    requires next.currentFile == st.currentFile && next.result == Record(st, e).result
    ensures Traced(next, lines + [e.content])
  {
    var all := lines + [e.content];
    assert forall x :: x in lines ==> x in all;
    assert e.content in all;
    forall f, d | f in next.result && d in next.result[f]
      ensures d.content in all && EntryShape(d)
    {
      if f != st.currentFile || d !in LinesOf(st.result, st.currentFile) {
        assert f in st.result || d == e;
      }
    }
  }

  /** Before the first `+++ b/` line there is no current file, and a diff
      without one yields no entries at all. */
  lemma NoFileHeaderNoEntries(lines: seq<string>)
    requires forall i :: 0 <= i < |lines| ==> !HasPrefix(lines[i], FileMarker)
    ensures Scan(lines).currentFile == "" && Scan(lines).result == map[]
  {
    ScanTraced(lines);
    var st := Scan(lines);
    assert forall name :: HasPrefix(FileMarker + name, FileMarker) by {
      forall name ensures HasPrefix(FileMarker + name, FileMarker) {
        assert (FileMarker + name)[..|FileMarker|] == FileMarker;
      }
    }
    assert st.result.Keys == {};
  }

  /** A line that the scanner records once a file is selected. */
  predicate IsBodyLine(line: string) {
    && !HasPrefix(line, FileMarker) && !IsMetadata(line) && !HasPrefix(line, "@@ ")
    && (HasPrefix(line, "-") || HasPrefix(line, "+") || HasPrefix(line, " ") || line == "")
  }

  /** How many of `body` exist on the old side: every line but the added ones. */
  function OldCount(body: seq<string>): nat
    decreases |body|
  {
    if |body| == 0 then 0
    else OldCount(body[..|body| - 1]) + (if HasPrefix(body[|body| - 1], "+") then 0 else 1)
  }

  /** How many of `body` exist on the new side: every line but the removed ones. */
  function NewCount(body: seq<string>): nat
    decreases |body|
  {
    if |body| == 0 then 0
    else NewCount(body[..|body| - 1]) + (if HasPrefix(body[|body| - 1], "-") then 0 else 1)
  }

  /** The entry for a body line whose old and new positions are given. */
  function Numbered(oldLine: int, newLine: int, line: string): DiffLine {
    if HasPrefix(line, "-") then DiffLine(oldLine, 0, line)
    else if HasPrefix(line, "+") then DiffLine(0, newLine, line)
    else DiffLine(oldLine, newLine, line)
  }

  /** The entries of a run of body lines starting at the given positions: the
      i-th line sits after as many old-side and new-side lines as precede it. */
  function NumberedRun(oldLine: int, newLine: int, body: seq<string>): seq<DiffLine> {
    seq(|body|, i requires 0 <= i < |body| => Numbered(oldLine + OldCount(body[..i]), newLine + NewCount(body[..i]), body[i]))
  }

  /** `next` is `st` after the run `body` of body lines: the run is numbered
      consecutively on each side from the counters and appended, in order,
      to the current file's entries, the counters advance by the run's
      old-side and new-side line counts, and no other file changes. */
  ghost predicate RunRead(st: Scanner, next: Scanner, body: seq<string>) {
    && next.currentFile == st.currentFile
    && next.oldLine == st.oldLine + OldCount(body)
    && next.newLine == st.newLine + NewCount(body)
    && LinesOf(next.result, st.currentFile)
       == LinesOf(st.result, st.currentFile) + NumberedRun(st.oldLine, st.newLine, body)
    && (forall f :: f != st.currentFile ==> LinesOf(next.result, f) == LinesOf(st.result, f))
  }

  /** The scanner state after reading `more` from `st`. */
  function Resume(st: Scanner, more: seq<string>): Scanner
    decreases |more|
  {
    if |more| == 0 then st else Step(Resume(st, more[..|more| - 1]), more[|more| - 1])
  }

  /** Reading `lines` and then `more` is reading `lines + more`. */
  lemma {:induction false} ScanAppend(lines: seq<string>, more: seq<string>)
    ensures Scan(lines + more) == Resume(Scan(lines), more)
    decreases |more|
  {
    if |more| == 0 {
      assert lines + more == lines;
    } else {
      var init := more[..|more| - 1];
      ScanAppend(lines, init);
      assert lines + more == (lines + init) + [more[|more| - 1]];
      ScanSnoc(lines + init, more[|more| - 1]);
    }
  }

  /** Once a file is selected, the scanner reads a run of body lines as
      `RunRead` describes. */
  lemma BodyNumbering(lines: seq<string>, body: seq<string>)
    requires Scan(lines).currentFile != ""
    requires forall i :: 0 <= i < |body| ==> IsBodyLine(body[i])
    ensures RunRead(Scan(lines), Scan(lines + body), body)
  {
    ScanAppend(lines, body);
    ResumeNumbering(Scan(lines), body);
  }

  lemma {:induction false} ResumeNumbering(st: Scanner, body: seq<string>)
    requires st.currentFile != ""
    requires forall i :: 0 <= i < |body| ==> IsBodyLine(body[i])
    ensures RunRead(st, Resume(st, body), body)
    decreases |body|
  {
    if |body| == 0 {
      assert NumberedRun(st.oldLine, st.newLine, body) == [];
    } else {
      var init, line := body[..|body| - 1], body[|body| - 1];
      var mid := Resume(st, init);
      assert RunRead(st, mid, init) by {
        ResumeNumbering(st, init);
      }
      assert RunRead(st, Step(mid, line), body) by {
        assert IsBodyLine(line);
        BodyStep(mid, line);
        RunStep(st, mid, Step(mid, line), body);
      }
    }
  }

  lemma RunStep(st: Scanner, mid: Scanner, next: Scanner, body: seq<string>)
    requires |body| > 0
    requires RunRead(st, mid, body[..|body| - 1])
    requires var line := body[|body| - 1];
             next == Record(mid, Numbered(mid.oldLine, mid.newLine, line)).(
               oldLine := mid.oldLine + (if HasPrefix(line, "+") then 0 else 1),
               newLine := mid.newLine + (if HasPrefix(line, "-") then 0 else 1))
    ensures RunRead(st, next, body)
  {
    var init, line := body[..|body| - 1], body[|body| - 1];
    var entry := Numbered(mid.oldLine, mid.newLine, line);
    var before, run := LinesOf(st.result, st.currentFile), NumberedRun(st.oldLine, st.newLine, init);
    assert LinesOf(next.result, st.currentFile) == (before + run) + [entry];
    assert NumberedRun(st.oldLine, st.newLine, body) == run + [entry] by {
      NumberedRunSnoc(st.oldLine, st.newLine, body);
    }
    assert (before + run) + [entry] == before + (run + [entry]);
  }

  lemma BodyStep(st: Scanner, line: string)
    requires st.currentFile != "" && IsBodyLine(line)
    ensures Step(st, line) == Record(st, Numbered(st.oldLine, st.newLine, line)).(
              oldLine := st.oldLine + (if HasPrefix(line, "+") then 0 else 1),
              newLine := st.newLine + (if HasPrefix(line, "-") then 0 else 1))
  {
    if HasPrefix(line, "-") {
      FirstChar(line, "+");
    }
  }

  lemma NumberedRunSnoc(oldLine: int, newLine: int, body: seq<string>)
    requires |body| > 0
    ensures var init := body[..|body| - 1];
            NumberedRun(oldLine, newLine, body)
            == NumberedRun(oldLine, newLine, init)
               + [Numbered(oldLine + OldCount(init), newLine + NewCount(init), body[|body| - 1])]
  {
    var init := body[..|body| - 1];
    var lhs := NumberedRun(oldLine, newLine, body);
    var prefix := NumberedRun(oldLine, newLine, init);
    var last := Numbered(oldLine + OldCount(init), newLine + NewCount(init), body[|body| - 1]);
    forall i | 0 <= i < |init| ensures lhs[i] == prefix[i] {
      NumberedRunPrefix(oldLine, newLine, body, i);
    }
    assert lhs[|init|] == last by {
      assert body[..|init|] == init;
    }
    assert lhs == prefix + [last];
  }

  lemma NumberedRunPrefix(oldLine: int, newLine: int, body: seq<string>, i: nat)
    requires i + 1 < |body|
    ensures NumberedRun(oldLine, newLine, body)[i] == NumberedRun(oldLine, newLine, body[..|body| - 1])[i]
  {
    assert body[..i] == body[..|body| - 1][..i];
  }

  /** The new-side header of a deleted file, `+++ /dev/null`, is not a file
      header to the scanner: while a file is selected it is recorded as an
      added line of that file and advances the new counter. */
  lemma DeletedFileHeaderRecorded(lines: seq<string>)
    requires Scan(lines).currentFile != ""
    ensures var st := Scan(lines);
            Scan(lines + ["+++ /dev/null"]) == Record(st, DiffLine(0, st.newLine, "+++ /dev/null")).(newLine := st.newLine + 1)
  {
    ScanSnoc(lines, "+++ /dev/null");
    StepDevNull(Scan(lines));
  }

  lemma StepDevNull(st: Scanner)
    requires st.currentFile != ""
    ensures Step(st, "+++ /dev/null") == Record(st, DiffLine(0, st.newLine, "+++ /dev/null")).(newLine := st.newLine + 1)
  {
    var line := "+++ /dev/null";
    assert line[..|FileMarker|][4] != FileMarker[4];
    FirstChar(line, "-");
    FirstChar(line, "--- ");
    FirstChar(line, "diff --git");
    FirstChar(line, "index ");
    FirstChar(line, "new file");
    FirstChar(line, "deleted file");
    FirstChar(line, "@@ ");
    assert line[..1] == "+";
  }

  /** A range of a hunk header: `-a,b` or `+c,d`, or `-a` or `+c` when git
      leaves out a count of one. */
  function RangeText(sign: char, start: nat, count: Option<nat>): string {
    [sign] + NatToString(start) + (if count.Some? then "," + NatToString(count.value) else "")
  }

  /** The hunk header `@@ -a,b +c,d @@` followed by the section heading, each
      count present or left out. */
  function HunkHeader(a: nat, b: Option<nat>, c: nat, d: Option<nat>, section: string): string {
    "@@" + " " + RangeText('-', a, b) + " " + RangeText('+', c, d) + " " + "@@" + section
  }

  /** A hunk header sets the old counter to the start of its `-` range and
      the new counter to the start of its `+` range, and records nothing. */
  lemma HunkHeaderSetsCounters(lines: seq<string>, a: nat, b: Option<nat>, c: nat, d: Option<nat>, section: string)
    requires a <= MaxInt64 && c <= MaxInt64
    ensures Scan(lines + [HunkHeader(a, b, c, d, section)]) == Scan(lines).(oldLine := a, newLine := c)
  {
    var line := HunkHeader(a, b, c, d, section);
    ScanSnoc(lines, line);
    assert line[..3] == "@@ ";
    StepHeaderLine(Scan(lines), line);
    HunkRanges(a, b, c, d, section);
    var st := Scan(lines);
    TwoRanges(st.oldLine, st.newLine, a, b, c, d);
  }

  /** The header git writes for a new one-line file, `@@ -0,0 +1 @@`, leaves
      out the new side's count and still sets the counters to 0 and 1. */
  lemma NewOneLineFileHeader(lines: seq<string>)
    ensures Scan(lines + ["@@ -0,0 +1 @@"]) == Scan(lines).(oldLine := 0, newLine := 1)
  {
    assert NatToString(0) == "0" && NatToString(1) == "1";
    assert HunkHeader(0, Some(0), 1, None, "") == "@@ -0,0 +1 @@";
    HunkHeaderSetsCounters(lines, 0, Some(0), 1, None, "");
  }

  /** A line opening with none of the characters a header or a body line
      opens with, such as git's `\ No newline at end of file`, changes
      nothing: no file, no counter and no entry. */
  lemma OtherLineIgnored(st: Scanner, line: string)
    requires |line| > 0 && line[0] !in "+- @din"
    ensures Step(st, line) == st
  {
    FirstChar(line, FileMarker);
    FirstChar(line, "--- ");
    FirstChar(line, "diff --git");
    FirstChar(line, "index ");
    FirstChar(line, "new file");
    FirstChar(line, "deleted file");
    FirstChar(line, "@@ ");
    FirstChar(line, "-");
    FirstChar(line, "+");
    FirstChar(line, " ");
  }

  /** The marker git adds after a last line without a newline is skipped. */
  lemma NoNewlineMarkerIgnored(lines: seq<string>)
    ensures Scan(lines + ["\\ No newline at end of file"]) == Scan(lines)
  {
    var line := "\\ No newline at end of file";
    ScanSnoc(lines, line);
    OtherLineIgnored(Scan(lines), line);
  }

  lemma StepHeaderLine(st: Scanner, line: string)
    requires HasPrefix(line, "@@ ")
    ensures var counters := ApplyRanges((st.oldLine, st.newLine), HeaderRanges(line));
            Step(st, line) == st.(oldLine := counters.0, newLine := counters.1)
  {
    assert line[0] == '@';
    FirstChar(line, FileMarker);
    FirstChar(line, "--- ");
    FirstChar(line, "diff --git");
    FirstChar(line, "index ");
    FirstChar(line, "new file");
    FirstChar(line, "deleted file");
  }

  lemma FirstChar(s: string, p: string)
    requires |p| > 0 && |s| > 0 && s[0] != p[0]
    ensures !HasPrefix(s, p)
  {
    if |p| <= |s| {
      assert s[..|p|][0] == s[0];
    }
  }

  lemma TwoRanges(oldLine: int, newLine: int, a: nat, b: Option<nat>, c: nat, d: Option<nat>)
    requires a <= MaxInt64 && c <= MaxInt64
    ensures ApplyRanges((oldLine, newLine), [RangeText('-', a, b), RangeText('+', c, d)]) == (a, c)
  {
    var x, y := RangeText('-', a, b), RangeText('+', c, d);
    assert ApplyRange((oldLine, newLine), x) == (a, newLine) by {
      assert x[..1] == "-";
      RangeStartOf('-', a, b);
    }
    assert ApplyRange((a, newLine), y) == (a, c) by {
      assert y[..1] == "+" && !HasPrefix(y, "-");
      RangeStartOf('+', c, d);
    }
    assert [x, y][..1] == [x];
    assert [x][..0] == [];
  }

  /** The two ranges of a hunk header are its only words. */
  lemma HunkRanges(a: nat, b: Option<nat>, c: nat, d: Option<nat>, section: string)
    ensures HeaderRanges(HunkHeader(a, b, c, d, section)) == [RangeText('-', a, b), RangeText('+', c, d)]
  {
    RangeTextFacts('-', a, b);
    RangeTextFacts('+', c, d);
    HeaderWords(RangeText('-', a, b), RangeText('+', c, d), section);
  }

  lemma HeaderWords(x: string, y: string, section: string)
    requires x != [] && y != [] && NoSpace(x) && NoSpace(y) && '@' !in x && '@' !in y
    ensures HeaderRanges("@@" + " " + x + " " + y + " " + "@@" + section) == [x, y]
  {
    var mid := " " + (x + " " + y) + " ";
    Regroup(x, y, section);
    assert '@' !in mid;
    HeaderText(mid, section);
    PaddedWords(x, y);
  }

  lemma HeaderText(mid: string, section: string)
    requires '@' !in mid
    ensures HeaderRanges("@@" + mid + "@@" + section) == Fields(Trim(mid))
  {
    SplitHeader(mid, section);
  }

  lemma PaddedWords(x: string, y: string)
    requires x != [] && y != [] && NoSpace(x) && NoSpace(y)
    ensures Fields(Trim(" " + (x + " " + y) + " ")) == [x, y]
  {
    var ranges := x + " " + y;
    assert ranges[0] == x[0];
    assert ranges[|ranges| - 1] == y[|y| - 1];
    TrimPadded(ranges);
    FieldsCons(x, y);
    FieldsSingle(y);
  }

  lemma Regroup(x: string, y: string, section: string)
    ensures "@@" + " " + x + " " + y + " " + "@@" + section == "@@" + (" " + (x + " " + y) + " ") + "@@" + section
  {
  }

  /** The text between the first two `@@` of a line is its second piece. */
  lemma SplitHeader(mid: string, section: string)
    requires '@' !in mid
    ensures SplitN("@@" + mid + "@@" + section, "@@", 3) == ["", mid, section]
  {
    var line := "@@" + mid + "@@" + section;
    var rest := mid + "@@" + section;
    assert line[..2] == "@@";
    assert line[2..] == rest;
    FindAfter(mid, "@@", section);
    assert rest[..|mid|] == mid;
    assert rest[|mid| + 2..] == section;
    assert SplitN(rest, "@@", 2) == [mid, section];
  }

  /** A range is non-empty, opens with its sign, and holds neither
      whitespace nor `@`. */
  lemma RangeTextFacts(sign: char, start: nat, count: Option<nat>)
    requires sign == '-' || sign == '+'
    ensures var r := RangeText(sign, start, count); |r| > 0 && r[0] == sign && NoSpace(r) && '@' !in r
  {
    var x := NatToString(start);
    var y := if count.Some? then NatToString(count.value) else "";
    var r := RangeText(sign, start, count);
    assert forall i :: 0 <= i < |r| ==> r[i] == sign || r[i] == ',' || IsDigit(r[i]) by {
      forall i | 0 <= i < |r| ensures r[i] == sign || r[i] == ',' || IsDigit(r[i]) {
        if 1 <= i <= |x| {
          assert r[i] == x[i - 1];
        } else if i > |x| + 1 {
          assert r[i] == y[i - |x| - 2];
        }
      }
    }
  }

  /** Padding a trimmed text with one space on each side is undone by
      trimming. */
  lemma TrimPadded(x: string)
    requires x != [] && !IsSpace(x[0]) && !IsSpace(x[|x| - 1])
    ensures Trim(" " + x + " ") == x
  {
    var s := " " + x + " ";
    assert s[1..] == x + " ";
    TrimStartNoop(x + " ");
    assert TrimStart(s) == x + " ";
    assert (x + " ")[..|x|] == x;
    assert TrimEnd(x + " ") == x;
  }

  /** The number opening a range is its start. */
  lemma RangeStartOf(sign: char, start: nat, count: Option<nat>)
    requires start <= MaxInt64
    ensures RangeStart(RangeText(sign, start, count)) == start
  {
    var x := NatToString(start);
    var range := RangeText(sign, start, count);
    assert ',' !in x by {
      assert forall i :: 0 <= i < |x| ==> x[i] != ',';
    }
    if count.Some? {
      var y := NatToString(count.value);
      assert range[1..] == x + "," + y;
      FindAfter(x, ",", y);
      assert (x + "," + y)[..|x|] == x;
      assert (x + "," + y)[|x| + 1..] == y;
      assert SplitN(x + "," + y, ",", 2) == [x, y];
    } else {
      assert range[1..] == x;
      FindAbsent(x, ",");
    }
    AtoiOfIntToString(start);
  }
}

/** The review report the server writes: the comments grouped by file in
    the order their files first appear, each line comment under a heading
    naming its lines and followed by the quoted diff lines it covers, then
    the file-level comments; and the clipboard text pointing at the report. */
module ReviewMarkdown {
  import opened Wrappers
  import opened Strings
  import opened DiffScan

  /** A comment as the server receives it. `side` is the wire name; only
      "left" is told apart from the rest. */
  datatype Comment = Comment(file: string, startLine: Option<int>, endLine: Option<int>, side: string, body: string)

  /** The comments of one file, split into file-level and line comments,
      each kept in arrival order. */
  datatype FileComments = FileComments(fileLevel: seq<Comment>, lined: seq<Comment>)

  /** The files of `comments`, each once, in the order of their first comment. */
  function FilesInOrder(comments: seq<Comment>): (r: seq<string>)
    ensures forall f :: f in r <==> exists i :: 0 <= i < |comments| && comments[i].file == f
    ensures forall i, j :: 0 <= i < j < |r| ==> r[i] != r[j]
    decreases |comments|
  {
    if |comments| == 0 then []
    else
      var init := comments[..|comments| - 1];
      var f := comments[|comments| - 1].file;
      var r := FilesInOrder(init);
      assert forall i :: 0 <= i < |init| ==> init[i] == comments[i];
      if f in r then r else r + [f]
  }

  /** `files` lists files in first-seen order for `comments`. */
  ghost predicate FirstSeen(comments: seq<Comment>, files: seq<string>) {
    forall i, j, k :: 0 <= i < j < |files| && 0 <= k < |comments| && comments[k].file == files[j] ==>
      exists k' :: 0 <= k' < k && comments[k'].file == files[i]
  }

  /** Files come in first-seen order: every comment on a later file is
      preceded by some comment on each earlier file. */
  lemma {:induction false} FirstSeenOrder(comments: seq<Comment>)
    ensures FirstSeen(comments, FilesInOrder(comments))
    decreases |comments|
  {
    if |comments| > 0 {
      var n := |comments| - 1;
      var init := comments[..n];
      FirstSeenOrder(init);
      var r, r0 := FilesInOrder(comments), FilesInOrder(init);
      assert FirstSeen(init, r0);
      forall i, j, k | 0 <= i < j < |r| && 0 <= k < |comments| && comments[k].file == r[j]
        ensures exists k' :: 0 <= k' < k && comments[k'].file == r[i]
      {
        assert r[i] == r0[i] && r0[i] in r0;
        var first :| 0 <= first < n && init[first].file == r0[i];
        assert comments[first] == init[first];
        if j < |r0| {
          if k < n {
            assert 0 <= i < j < |r0| && 0 <= k < |init| && init[k].file == r0[j];
            var k' :| 0 <= k' < k && init[k'].file == r0[i];
            assert comments[k'] == init[k'];
          }
        } else {
          var f := comments[n].file;
          assert r == r0 + [f] && r[j] == f;
          assert forall m :: 0 <= m < n ==> init[m].file != f;
          assert forall m :: 0 <= m < n ==> comments[m] == init[m];
        }
      }
    }
  }

  /** The line comments on `file`, in arrival order. */
  function LinedOf(comments: seq<Comment>, file: string): (r: seq<Comment>)
    ensures forall c :: c in r <==> c in comments && c.file == file && c.startLine.Some?
    ensures forall i :: 0 <= i < |r| ==> r[i].startLine.Some?
    decreases |comments|
  {
    if |comments| == 0 then []
    else
      var c := comments[|comments| - 1];
      var r := LinedOf(comments[..|comments| - 1], file);
      assert comments == comments[..|comments| - 1] + [c];
      if c.file == file && c.startLine.Some? then r + [c] else r
  }

  /** The file-level comments on `file`, in arrival order. */
  function FileLevelOf(comments: seq<Comment>, file: string): (r: seq<Comment>)
    ensures forall c :: c in r <==> c in comments && c.file == file && c.startLine.None?
    decreases |comments|
  {
    if |comments| == 0 then []
    else
      var c := comments[|comments| - 1];
      var r := FileLevelOf(comments[..|comments| - 1], file);
      assert comments == comments[..|comments| - 1] + [c];
      if c.file == file && c.startLine.None? then r + [c] else r
  }

  /** Grouping keeps the relative order of the comments of each kind. */
  lemma {:induction false} GroupsAppend(a: seq<Comment>, b: seq<Comment>, file: string)
    ensures LinedOf(a + b, file) == LinedOf(a, file) + LinedOf(b, file)
    ensures FileLevelOf(a + b, file) == FileLevelOf(a, file) + FileLevelOf(b, file)
    decreases |b|
  {
    if |b| > 0 {
      var b' := b[..|b| - 1];
      assert (a + b)[..|a + b| - 1] == a + b';
      GroupsAppend(a, b', file);
    } else {
      assert a + b == a;
    }
  }

  /** A file without comments has empty groups. */
  lemma {:induction false} NoGroups(comments: seq<Comment>, file: string)
    requires forall i :: 0 <= i < |comments| ==> comments[i].file != file
    ensures LinedOf(comments, file) == [] && FileLevelOf(comments, file) == []
    decreases |comments|
  {
    if |comments| > 0 {
      NoGroups(comments[..|comments| - 1], file);
    }
  }

  lemma GroupsSnoc(comments: seq<Comment>, c: Comment)
    ensures FilesInOrder(comments + [c])
            == if c.file in FilesInOrder(comments) then FilesInOrder(comments) else FilesInOrder(comments) + [c.file]
    ensures forall f :: (LinedOf(comments + [c], f)
                         == if f == c.file && c.startLine.Some? then LinedOf(comments, f) + [c] else LinedOf(comments, f))
    ensures forall f :: (FileLevelOf(comments + [c], f)
                         == if f == c.file && c.startLine.None? then FileLevelOf(comments, f) + [c] else FileLevelOf(comments, f))
  {
    assert (comments + [c])[..|comments|] == comments;
  }

  /** `ordered` and `grouped` hold the grouping of the comments `seen`. */
  ghost predicate Grouped(seen: seq<Comment>, ordered: seq<string>, grouped: map<string, FileComments>) {
    && ordered == FilesInOrder(seen)
    && (forall f :: f in grouped <==> f in ordered)
    && (forall f :: f in grouped ==> grouped[f] == Group(seen, f))
  }

  /** One turn of the grouping loop: file the comment `c` under its file. */
  method AddToGroups(ghost seen: seq<Comment>, c: Comment, ordered: seq<string>, grouped: map<string, FileComments>)
    returns (ordered': seq<string>, grouped': map<string, FileComments>)
    requires Grouped(seen, ordered, grouped)
    ensures Grouped(seen + [c], ordered', grouped')
  {
    GroupsSnoc(seen, c);
    var now := seen + [c];
    ordered' := ordered;
    var fc: FileComments;
    if c.file in grouped {
      fc := grouped[c.file];
    } else {
      NoGroups(seen, c.file);
      fc := FileComments([], []);
      ordered' := ordered + [c.file];
    }
    assert fc == Group(seen, c.file);
    if c.startLine.None? {
      fc := fc.(fileLevel := fc.fileLevel + [c]);
    } else {
      fc := fc.(lined := fc.lined + [c]);
    }
    assert fc == Group(now, c.file);
    grouped' := grouped[c.file := fc];
    assert ordered' == FilesInOrder(now);
    forall f | f in grouped'
      ensures grouped'[f] == Group(now, f)
    {
      if f != c.file {
        assert grouped'[f] == grouped[f] == Group(seen, f);
      }
    }
  }

  /** The grouping loop: the files in first-seen order and, per file, its
      file-level and line comments. */
  method GroupComments(comments: seq<Comment>) returns (ordered: seq<string>, grouped: map<string, FileComments>)
    ensures ordered == FilesInOrder(comments)
    ensures forall f :: f in grouped <==> f in ordered
    ensures forall f :: f in grouped ==> grouped[f] == Group(comments, f)
  {
    ordered, grouped := [], map[];
    for k := 0 to |comments|
      invariant Grouped(comments[..k], ordered, grouped)
    {
      assert comments[..k + 1] == comments[..k] + [comments[k]];
      ordered, grouped := AddToGroups(comments[..k], comments[k], ordered, grouped);
    }
    assert comments[..|comments|] == comments;
  }

  /** The groups of `file`. */
  function Group(comments: seq<Comment>, file: string): FileComments {
    FileComments(FileLevelOf(comments, file), LinedOf(comments, file))
  }

  /** The line number of `line` on the comment's side: the old one for
      "left", the new one otherwise. */
  function SideLineNo(side: string, line: DiffLine): int {
    if side == "left" then line.oldLineNo else line.newLineNo
  }

  /** The diff lines a comment quotes: those whose number on its side lies
      in `[start, end]`, in diff order. */
  function Context(side: string, start: int, end: int, lines: seq<DiffLine>): seq<DiffLine>
    decreases |lines|
  {
    if |lines| == 0 then []
    else
      var l := lines[|lines| - 1];
      var r := Context(side, start, end, lines[..|lines| - 1]);
      if start <= SideLineNo(side, l) <= end then r + [l] else r
  }

  /** The context holds exactly the lines in range. */
  lemma {:induction false} ContextMembers(side: string, start: int, end: int, lines: seq<DiffLine>)
    ensures forall l :: l in Context(side, start, end, lines) <==> l in lines && start <= SideLineNo(side, l) <= end
    decreases |lines|
  {
    if |lines| > 0 {
      var init := lines[..|lines| - 1];
      ContextMembers(side, start, end, init);
      assert lines == init + [lines[|lines| - 1]];
    }
  }

  /** Selecting the context keeps the diff order. */
  lemma {:induction false} ContextAppend(side: string, start: int, end: int, a: seq<DiffLine>, b: seq<DiffLine>)
    ensures Context(side, start, end, a + b) == Context(side, start, end, a) + Context(side, start, end, b)
    decreases |b|
  {
    if |b| > 0 {
      var b' := b[..|b| - 1];
      assert (a + b)[..|a + b| - 1] == a + b';
      ContextAppend(side, start, end, a, b');
    } else {
      assert a + b == a;
    }
  }

  /** Diff lines as a quotation, one `> ` line each. */
  function Quote(lines: seq<DiffLine>): string
    decreases |lines|
  {
    if |lines| == 0 then "" else Quote(lines[..|lines| - 1]) + QuoteLine(lines[|lines| - 1])
  }

  function QuoteLine(line: DiffLine): string {
    "> " + line.content + "\n"
  }

  /** The end of a line comment's range; an absent end is the start. */
  function EndLine(c: Comment): int
    requires c.startLine.Some?
  {
    if c.endLine.Some? then c.endLine.value else c.startLine.value
  }

  /** The heading of a line comment: `Line n` for one line, `Lines s–e`
      (with an en dash) for a range. */
  function Heading(start: int, end: int): (r: string)
    ensures |r| > 10 && r[..9] == "\n### Line"
    ensures r[9] == ' ' <==> start == end
  {
    if start == end then "\n### Line " + IntToString(start) + "\n"
    else "\n### Lines " + IntToString(start) + "\U{2013}" + IntToString(end) + "\n"
  }

  /** Headings tell ranges apart: two ranges within the 64-bit range with
      the same heading are the same range. */
  lemma HeadingInjective(s1: int, e1: int, s2: int, e2: int)
    requires MinInt64 <= s1 <= MaxInt64 && MinInt64 <= e1 <= MaxInt64
    requires MinInt64 <= s2 <= MaxInt64 && MinInt64 <= e2 <= MaxInt64
    requires Heading(s1, e1) == Heading(s2, e2)
    ensures s1 == s2 && e1 == e2
  {
    var r := Heading(s1, e1);
    if s1 == e1 {
      assert IntToString(s1) == IntToString(s2) by {
        SingleHeading(s1);
        SingleHeading(s2);
      }
      IntToStringInjective(s1, s2);
    } else {
      var a, b := IntToString(s1), IntToString(e1);
      var c, d := IntToString(s2), IntToString(e2);
      assert a + "\U{2013}" + b == c + "\U{2013}" + d by {
        RangeHeading(s1, e1);
        RangeHeading(s2, e2);
      }
      EnDashSplit(a, b, c, d, s1, e1, s2, e2);
      IntToStringInjective(s1, s2);
      IntToStringInjective(e1, e2);
    }
  }

  /** A one-line heading holds its number between `Line ` and the newline. */
  lemma SingleHeading(n: int)
    ensures var r := Heading(n, n); |r| > 11 && r[10..|r| - 1] == IntToString(n)
  {
    var x := IntToString(n);
    assert Heading(n, n) == "\n### Line " + x + "\n";
    assert ("\n### Line " + x + "\n")[10..|x| + 10] == x;
  }

  /** A range heading holds its two numbers, joined by an en dash, between
      `Lines ` and the newline. */
  lemma RangeHeading(start: int, end: int)
    requires start != end
    ensures var r := Heading(start, end);
            |r| > 12 && r[11..|r| - 1] == IntToString(start) + "\U{2013}" + IntToString(end)
  {
    var a, b := IntToString(start), IntToString(end);
    var x := a + "\U{2013}" + b;
    assert "\n### Lines " + a + "\U{2013}" + b == "\n### Lines " + x;
    Middle("\n### Lines ", x, "\n");
  }

  /** The middle of a three-part concatenation is recovered by slicing. */
  lemma Middle(p: string, x: string, q: string)
    ensures (p + x + q)[|p|..|p| + |x|] == x
  {
  }

  lemma EnDashSplit(a: string, b: string, c: string, d: string, s1: int, e1: int, s2: int, e2: int)
    requires a == IntToString(s1) && b == IntToString(e1) && c == IntToString(s2) && d == IntToString(e2)
    requires a + "\U{2013}" + b == c + "\U{2013}" + d
    ensures a == c && b == d
  {
    NoEnDash(s1); NoEnDash(e1); NoEnDash(s2); NoEnDash(e2);
    SplitAfter(a, '\U{2013}', b);
    SplitAfter(c, '\U{2013}', d);
    SplitWithout(b, '\U{2013}');
    SplitWithout(d, '\U{2013}');
  }

  /** A printed number is made of digits and a minus sign. */
  lemma NoEnDash(i: int)
    ensures '\U{2013}' !in IntToString(i)
  {
    var r := IntToString(i);
    if i < 0 {
      var digits := NatToString(-i);
      assert r == "-" + digits;
      assert forall k :: 0 <= k < |digits| ==> digits[k] != '\U{2013}';
    } else {
      assert forall k :: 0 <= k < |r| ==> r[k] != '\U{2013}';
    }
  }

  /** One line comment: its heading, its quoted context and its body. */
  function CommentBlock(c: Comment, lines: seq<DiffLine>): string
    requires c.startLine.Some?
  {
    var start, end := c.startLine.value, EndLine(c);
    Heading(start, end) + Quote(Context(c.side, start, end, lines)) + (c.body + "\n")
  }

  predicate AllLined(comments: seq<Comment>) {
    forall i :: 0 <= i < |comments| ==> comments[i].startLine.Some?
  }

  /** The blocks of a file's line comments, in order. */
  function LinedBlocks(lined: seq<Comment>, lines: seq<DiffLine>): string
    requires AllLined(lined)
    decreases |lined|
  {
    if |lined| == 0 then ""
    else LinedBlocks(lined[..|lined| - 1], lines) + CommentBlock(lined[|lined| - 1], lines)
  }

  /** The bodies of a file's file-level comments, one per line, in order. */
  function Bodies(comments: seq<Comment>): string
    decreases |comments|
  {
    if |comments| == 0 then "" else Bodies(comments[..|comments| - 1]) + (comments[|comments| - 1].body + "\n")
  }

  /** A file's part of the report: its line comments under `## file`, then
      its file-level comments under `## file (file-level)`; an empty group
      prints nothing, not even its heading. */
  function FileSection(file: string, group: FileComments, lines: seq<DiffLine>): string
    requires AllLined(group.lined)
  {
    (if |group.lined| == 0 then "" else "\n## " + file + "\n" + LinedBlocks(group.lined, lines))
    + (if |group.fileLevel| == 0 then "" else "\n## " + file + " (file-level)\n" + Bodies(group.fileLevel))
  }

  /** The sections of `files`, in that order. */
  function Sections(files: seq<string>, comments: seq<Comment>, diffLines: map<string, seq<DiffLine>>): string
    decreases |files|
  {
    if |files| == 0 then ""
    else
      var file := files[|files| - 1];
      Sections(files[..|files| - 1], comments, diffLines) + FileSection(file, Group(comments, file), LinesOf(diffLines, file))
  }

  const Preamble: string :=
    "# Code Review Comments\n"
    + "\n> **How to read this file:**\n"
    + "> This file contains review comments on uncommitted changes in this repo.\n"
    + "> Comments are grouped by file. Each comment includes a line or line range\n"
    + "> reference and a quoted diff context snippet showing the relevant code.\n"
    + "> File-level comments (not tied to a specific line) appear under a\n"
    + "> \"(file-level)\" heading. A global comment, if present, appears at the top\n"
    + "> before any file sections.\n"

  /** The overall note's paragraph; an empty note prints nothing. */
  function GlobalBlock(globalComment: string): string {
    if globalComment == "" then "" else "\n" + globalComment + "\n"
  }

  /** The whole report for `comments`, with `diffLines` the scanned diff. */
  function Markdown(globalComment: string, comments: seq<Comment>, diffLines: map<string, seq<DiffLine>>): string {
    Preamble + GlobalBlock(globalComment) + Sections(FilesInOrder(comments), comments, diffLines)
  }

  /** The overall note only adds its paragraph right after the preamble, and
      only when it is not empty; the rest of the report does not depend on it. */
  lemma GlobalCommentPlacement(globalComment: string, comments: seq<Comment>, diffLines: map<string, seq<DiffLine>>)
    ensures var plain := Markdown("", comments, diffLines);
            && plain[..|Preamble|] == Preamble
            && Markdown(globalComment, comments, diffLines)
               == Preamble + GlobalBlock(globalComment) + plain[|Preamble|..]
  {
    Splice(Preamble, GlobalBlock(globalComment), Sections(FilesInOrder(comments), comments, diffLines));
  }

  lemma Splice(head: string, middle: string, tail: string)
    ensures (head + "" + tail)[..|head|] == head
    ensures head + middle + tail == head + middle + (head + "" + tail)[|head|..]
  {
    assert head + "" + tail == head + tail;
    assert (head + tail)[|head|..] == tail;
  }

  /** Without comments the report is the preamble and the overall note. */
  lemma EmptyReview(globalComment: string, diffLines: map<string, seq<DiffLine>>)
    ensures Markdown(globalComment, [], diffLines) == Preamble + GlobalBlock(globalComment)
  {
    assert Preamble + GlobalBlock(globalComment) + "" == Preamble + GlobalBlock(globalComment);
  }

  /** Every comment is printed in its file's section: the file is listed,
      and the comment is in exactly one of its file's two groups, chosen by
      whether it has a start line. */
  lemma EveryCommentPlaced(comments: seq<Comment>, i: nat)
    requires i < |comments|
    ensures var c := comments[i];
            && c.file in FilesInOrder(comments)
            && (c in LinedOf(comments, c.file) <==> c.startLine.Some?)
            && (c in FileLevelOf(comments, c.file) <==> c.startLine.None?)
  {
  }

  /** The quoting loop of one comment. */
  method WriteContext(sb: string, side: string, start: int, end: int, lines: seq<DiffLine>) returns (out: string)
    ensures out == sb + Quote(Context(side, start, end, lines))
  {
    out := sb;
    for k := 0 to |lines|
      invariant out == sb + Quote(Context(side, start, end, lines[..k]))
    {
      out := QuoteIfCovered(sb, out, side, start, end, lines, k);
    }
    assert lines[..|lines|] == lines;
  }

  /** One turn of the quoting loop: quote line `k` when it lies in range. */
  method QuoteIfCovered(ghost sb: string, out: string, side: string, start: int, end: int, lines: seq<DiffLine>, k: nat)
    returns (out': string)
    requires k < |lines| && out == sb + Quote(Context(side, start, end, lines[..k]))
    ensures out' == sb + Quote(Context(side, start, end, lines[..k + 1]))
  {
    var dl := lines[k];
    var lineNo := dl.newLineNo;
    if side == "left" {
      lineNo := dl.oldLineNo;
    }
    ghost var before := Quote(Context(side, start, end, lines[..k]));
    if lineNo >= start && lineNo <= end {
      out' := out + QuoteLine(dl);
      assert Quote(Context(side, start, end, lines[..k + 1])) == before + QuoteLine(dl) by {
        ContextStep(side, start, end, lines, k);
      }
      assert out' == sb + (before + QuoteLine(dl));
    } else {
      out' := out;
      assert Quote(Context(side, start, end, lines[..k + 1])) == before by {
        ContextStep(side, start, end, lines, k);
      }
    }
  }

  lemma ContextStep(side: string, start: int, end: int, lines: seq<DiffLine>, k: nat)
    requires k < |lines|
    ensures var before := Context(side, start, end, lines[..k]);
            if start <= SideLineNo(side, lines[k]) <= end then
              Context(side, start, end, lines[..k + 1]) == before + [lines[k]]
              && Quote(before + [lines[k]]) == Quote(before) + QuoteLine(lines[k])
            else Context(side, start, end, lines[..k + 1]) == before
  {
    assert lines[..k + 1][..k] == lines[..k];
    var before := Context(side, start, end, lines[..k]);
    assert (before + [lines[k]])[..|before|] == before;
  }

  /** The heading of one line comment. */
  method WriteHeading(sb: string, start: int, end: int) returns (out: string)
    ensures out == sb + Heading(start, end)
  {
    if start == end {
      out := sb + ("\n### Line " + IntToString(start) + "\n");
    } else {
      out := sb + ("\n### Lines " + IntToString(start) + "\U{2013}" + IntToString(end) + "\n");
    }
  }

  /** The loop over a file's line comments. */
  method WriteLined(sb: string, lined: seq<Comment>, lines: seq<DiffLine>) returns (out: string)
    requires AllLined(lined)
    ensures out == sb + LinedBlocks(lined, lines)
  {
    out := sb;
    for k := 0 to |lined|
      invariant out == sb + LinedBlocks(lined[..k], lines)
    {
      var c := lined[k];
      assert lined[..k + 1][..k] == lined[..k];
      ghost var before := LinedBlocks(lined[..k], lines);
      var start := c.startLine.value;
      var end := start;
      if c.endLine.Some? {
        end := c.endLine.value;
      }
      ghost var o0 := out;
      out := WriteHeading(out, start, end);
      ghost var o1 := out;
      out := WriteContext(out, c.side, start, end, lines);
      ghost var o2 := out;
      out := out + (c.body + "\n");
      ghost var h, q, b := Heading(start, end), Quote(Context(c.side, start, end, lines)), c.body + "\n";
      Concat4(o0, h, q, b);
      assert CommentBlock(c, lines) == h + q + b;
      Concat3(sb, before, CommentBlock(c, lines));
    }
    assert lined[..|lined|] == lined;
  }

  lemma Concat3(a: string, b: string, c: string)
    ensures a + b + c == a + (b + c)
  {
  }

  lemma Concat4(a: string, b: string, c: string, d: string)
    ensures a + b + c + d == a + (b + c + d)
  {
  }

  /** The loop over a file's file-level comments. */
  method WriteBodies(sb: string, fileLevel: seq<Comment>) returns (out: string)
    ensures out == sb + Bodies(fileLevel)
  {
    out := sb;
    for k := 0 to |fileLevel|
      invariant out == sb + Bodies(fileLevel[..k])
    {
      assert fileLevel[..k + 1][..k] == fileLevel[..k];
      ghost var before := Bodies(fileLevel[..k]);
      out := out + (fileLevel[k].body + "\n");
      assert out == sb + (before + (fileLevel[k].body + "\n"));
    }
    assert fileLevel[..|fileLevel|] == fileLevel;
  }

  /** The body of the loop over the files: one file's section. */
  method WriteFileSection(sb: string, file: string, fc: FileComments, lines: seq<DiffLine>) returns (out: string)
    requires AllLined(fc.lined)
    ensures out == sb + FileSection(file, fc, lines)
  {
    out := sb;
    ghost var linedPart, fileLevelPart := "", "";
    if |fc.lined| > 0 {
      out := out + ("\n## " + file + "\n");
      out := WriteLined(out, fc.lined, lines);
      linedPart := "\n## " + file + "\n" + LinedBlocks(fc.lined, lines);
      Concat3(sb, "\n## " + file + "\n", LinedBlocks(fc.lined, lines));
    }
    assert out == sb + linedPart;
    ghost var middle := out;
    if |fc.fileLevel| > 0 {
      out := out + ("\n## " + file + " (file-level)\n");
      out := WriteBodies(out, fc.fileLevel);
      fileLevelPart := "\n## " + file + " (file-level)\n" + Bodies(fc.fileLevel);
      Concat3(middle, "\n## " + file + " (file-level)\n", Bodies(fc.fileLevel));
    }
    assert out == sb + linedPart + fileLevelPart;
    assert FileSection(file, fc, lines) == linedPart + fileLevelPart;
    Concat3(sb, linedPart, fileLevelPart);
  }

  /** The per-file loop of `formatMarkdown`, appending to `head`. */
  method WriteSections(head: string, ordered: seq<string>, grouped: map<string, FileComments>,
                       comments: seq<Comment>, diffLines: map<string, seq<DiffLine>>) returns (sb: string)
    requires forall f :: f in ordered ==> f in grouped && grouped[f] == Group(comments, f)
    ensures sb == head + Sections(ordered, comments, diffLines)
  {
    sb := head;
    for k := 0 to |ordered|
      invariant sb == head + Sections(ordered[..k], comments, diffLines)
    {
      var file := ordered[k];
      assert ordered[..k + 1][..k] == ordered[..k];
      ghost var before := Sections(ordered[..k], comments, diffLines);
      var fc := grouped[file];
      var lines := LinesOf(diffLines, file);
      sb := WriteFileSection(sb, file, fc, lines);
      Concat3(head, before, FileSection(file, fc, lines));
    }
    assert ordered[..|ordered|] == ordered;
  }

  /** `formatMarkdown`: the report for the comments, quoting `diff`. */
  method FormatMarkdown(globalComment: string, comments: seq<Comment>, diff: string) returns (md: string)
    ensures md == Markdown(globalComment, comments, Scan(Split(diff, '\n')).result)
  {
    var diffLines := ParseDiffLines(diff);
    var ordered, grouped := GroupComments(comments);
    var sb := Preamble;
    if globalComment != "" {
      sb := sb + ("\n" + globalComment + "\n");
    }
    assert sb == Preamble + GlobalBlock(globalComment);
    md := WriteSections(sb, ordered, grouped, comments, diffLines);
  }

  const ClipboardPrefix: string := "review my comments on these changes in @"

  /** The text put on the clipboard: a request to review the report. */
  function ClipboardText(mdPath: string): (r: string)
    ensures HasPrefix(r, ClipboardPrefix) && TrimPrefix(r, ClipboardPrefix) == mdPath
  {
    var r := ClipboardPrefix + mdPath;
    assert r[..|ClipboardPrefix|] == ClipboardPrefix;
    r
  }
}

/** The review page's session: the saved comments, the id counter, the range
    anchor, the open line draft, the open file-level editor and the
    submitted flag, with one method per event handler of the page, and the
    pure helpers the page renders with. */
module ReviewApp {
  import opened Wrappers
  import opened Strings
  import opened ReviewTypes
  import opened DiffAdapter

  /** The first click of a pending two-click range selection. */
  datatype RangeAnchor = RangeAnchor(file: string, line: int, side: Side)

  /** A key press, reduced to the fields the hotkey test reads. */
  datatype KeyEvent = KeyEvent(key: string, metaKey: bool, ctrlKey: bool)

  /** The comments of one file, split into line-scoped and file-level ones. */
  datatype CommentBuckets = CommentBuckets(line: seq<ReviewComment>, file: seq<ReviewComment>)

  /** How the submission request ended: the server's answer together with
      whether the clipboard write succeeded, or the error message shown. */
  datatype SubmitOutcome =
    | Delivered(response: SubmitResponse, clipboardCopied: bool)
    | Rejected(message: string)

  function Min(a: int, b: int): int { if a < b then a else b }

  function Max(a: int, b: int): int { if a < b then b else a }

  /** Enter together with Meta or Ctrl saves an editor or submits. */
  predicate IsPrimarySubmitHotkey(event: KeyEvent) {
    event.key == "Enter" && (event.metaKey || event.ctrlKey)
  }

  /** The location label of a comment or draft. */
  function FormatLineRef(startLine: Option<int>, endLine: Option<int>): (r: string)
    ensures startLine.None? <==> r == "(file-level)"
  {
    match startLine
    case None => "(file-level)"
    case Some(start) =>
      var r := if endLine.Some? && endLine.value != start then
        "Lines " + IntToString(start) + "-" + IntToString(endLine.value)
      else
        "Line " + IntToString(start);
      assert r[0] == 'L';
      r
  }

  /** The range a label stands for: a single line when the end is absent or
      equal to the start. */
  function NormalizedRange(startLine: Option<int>, endLine: Option<int>): Option<(int, int)> {
    match startLine
    case None => None
    case Some(start) => Some((start, if endLine.Some? then endLine.value else start))
  }

  predicate InLineRange(line: Option<int>) {
    line.None? || 0 <= line.value <= MaxInt64
  }

  /** Labels tell ranges apart: two references of non-negative lines with the
      same label denote the same range. */
  lemma FormatLineRefInjective(s1: Option<int>, e1: Option<int>, s2: Option<int>, e2: Option<int>)
    requires InLineRange(s1) && InLineRange(e1) && InLineRange(s2) && InLineRange(e2)
    requires FormatLineRef(s1, e1) == FormatLineRef(s2, e2)
    ensures NormalizedRange(s1, e1) == NormalizedRange(s2, e2)
  {
    if s1.Some? && s2.Some? {
      var r := FormatLineRef(s1, e1);
      var multi1 := e1.Some? && e1.value != s1.value;
      var multi2 := e2.Some? && e2.value != s2.value;
      assert r[4] == 's' <==> multi1 by { LineRefShape(s1.value, e1); }
      assert r[4] == 's' <==> multi2 by { LineRefShape(s2.value, e2); }
      if multi1 {
        var a, b := IntToString(s1.value), IntToString(e1.value);
        var c, d := IntToString(s2.value), IntToString(e2.value);
        assert a + "-" + b == c + "-" + d by {
          RangeLabel(s1.value, e1.value);
          RangeLabel(s2.value, e2.value);
        }
        assert a == c && b == d by { DashSplit(a, b, c, d); }
        IntToStringInjective(s1.value, s2.value);
        IntToStringInjective(e1.value, e2.value);
      } else {
        assert IntToString(s1.value) == IntToString(s2.value) by {
          SingleLabel(s1.value, e1);
          SingleLabel(s2.value, e2);
        }
        IntToStringInjective(s1.value, s2.value);
      }
    }
  }

  /** The fifth character of a line label says whether it names a range. */
  lemma LineRefShape(start: int, endLine: Option<int>)
    ensures var r := FormatLineRef(Some(start), endLine);
            |r| > 5 && (r[4] == 's' <==> endLine.Some? && endLine.value != start)
  {
    if endLine.Some? && endLine.value != start {
      RangeLabel(start, endLine.value);
    } else {
      SingleLabel(start, endLine);
    }
  }

  /** A range label ends with its two numbers joined by a dash. */
  lemma RangeLabel(start: int, end: int)
    requires start != end
    ensures var r := FormatLineRef(Some(start), Some(end));
            |r| > 6 && r[..6] == "Lines " && r[6..] == IntToString(start) + "-" + IntToString(end)
  {
    var tail := IntToString(start) + "-" + IntToString(end);
    assert FormatLineRef(Some(start), Some(end)) == "Lines " + tail;
  }

  /** A single-line label ends with its number. */
  lemma SingleLabel(start: int, endLine: Option<int>)
    requires endLine.None? || endLine.value == start
    ensures var r := FormatLineRef(Some(start), endLine);
            |r| > 5 && r[..5] == "Line " && r[5..] == IntToString(start)
  {
    assert FormatLineRef(Some(start), endLine) == "Line " + IntToString(start);
  }

  /** Two non-negative numbers joined by a dash can be split back apart. */
  lemma DashSplit(a: string, b: string, c: string, d: string)
    requires AllDigits(a) && AllDigits(b) && AllDigits(c) && AllDigits(d)
    requires a + "-" + b == c + "-" + d
    ensures a == c && b == d
  {
    DashFree(a); DashFree(b); DashFree(c); DashFree(d);
    SplitAfter(a, '-', b);
    SplitAfter(c, '-', d);
    SplitWithout(b, '-');
    SplitWithout(d, '-');
  }

  lemma DashFree(digits: string)
    requires AllDigits(digits)
    ensures '-' !in digits
  {
    forall k | 0 <= k < |digits| ensures digits[k] != '-' {
      assert IsDigit(digits[k]);
    }
  }

  /** The name a file is shown under: its name, else its previous name, else
      a fixed placeholder; never empty. */
  function GetFileName(fileDiff: FileDiffMetadata): (r: string)
    ensures r != ""
    ensures r == fileDiff.name || r == fileDiff.prevName || r == "(unknown file)"
    ensures fileDiff.name != "" ==> r == fileDiff.name
    ensures fileDiff.name == "" && fileDiff.prevName == "" ==> r == "(unknown file)"
  {
    if fileDiff.name != "" then fileDiff.name
    else if fileDiff.prevName != "" then fileDiff.prevName
    else "(unknown file)"
  }

  function TotalAdditions(hunks: seq<Hunk>): nat
    decreases |hunks|
  {
    if |hunks| == 0 then 0 else TotalAdditions(hunks[..|hunks| - 1]) + hunks[|hunks| - 1].additionLines
  }

  function TotalDeletions(hunks: seq<Hunk>): nat
    decreases |hunks|
  {
    if |hunks| == 0 then 0 else TotalDeletions(hunks[..|hunks| - 1]) + hunks[|hunks| - 1].deletionLines
  }

  /** The totals add up over consecutive runs of hunks. */
  lemma {:induction false} TotalsAppend(a: seq<Hunk>, b: seq<Hunk>)
    ensures TotalAdditions(a + b) == TotalAdditions(a) + TotalAdditions(b)
    ensures TotalDeletions(a + b) == TotalDeletions(a) + TotalDeletions(b)
    decreases |b|
  {
    if |b| > 0 {
      var b' := b[..|b| - 1];
      assert (a + b)[..|a + b| - 1] == a + b';
      TotalsAppend(a, b');
    } else {
      assert a + b == a;
    }
  }

  /** The additions/deletions badge of a file: the sums over its hunks. */
  method GetFileStats(fileDiff: FileDiffMetadata) returns (additions: nat, deletions: nat)
    ensures additions == TotalAdditions(fileDiff.hunks)
    ensures deletions == TotalDeletions(fileDiff.hunks)
  {
    additions, deletions := 0, 0;
    for k := 0 to |fileDiff.hunks|
      invariant additions == TotalAdditions(fileDiff.hunks[..k])
      invariant deletions == TotalDeletions(fileDiff.hunks[..k])
    {
      var hunk := fileDiff.hunks[k];
      assert fileDiff.hunks[..k + 1][..k] == fileDiff.hunks[..k];
      additions := additions + hunk.additionLines;
      deletions := deletions + hunk.deletionLines;
    }
    assert fileDiff.hunks[..|fileDiff.hunks|] == fileDiff.hunks;
  }

  /** The comments of `file` that are line-scoped (`lineScoped`) or
      file-level (`!lineScoped`), in store order. */
  function Bucket(comments: seq<ReviewComment>, file: string, lineScoped: bool): (r: seq<ReviewComment>)
    ensures forall c :: c in r <==> c in comments && c.file == file && c.startLine.Some? == lineScoped
    decreases |comments|
  {
    if |comments| == 0 then []
    else
      var last := comments[|comments| - 1];
      var r := Bucket(comments[..|comments| - 1], file, lineScoped);
      assert comments == comments[..|comments| - 1] + [last];
      if last.file == file && last.startLine.Some? == lineScoped then r + [last] else r
  }

  /** `m` is the per-file index of `comments`: one entry per file that has a
      comment, holding that file's two buckets. */
  ghost predicate IndexOf(m: map<string, CommentBuckets>, comments: seq<ReviewComment>) {
    && m.Keys == (set c | c in comments :: c.file)
    && forall f :: f in m ==> m[f] == CommentBuckets(Bucket(comments, f, true), Bucket(comments, f, false))
  }

  /** `commentsByFile`: the index is built in one pass over the store. */
  method CommentsByFile(comments: seq<ReviewComment>) returns (m: map<string, CommentBuckets>)
    ensures IndexOf(m, comments)
  {
    m := map[];
    for k := 0 to |comments|
      invariant IndexOf(m, comments[..k])
    {
      var comment := comments[k];
      assert comments[..k + 1] == comments[..k] + [comment];
      var entry := if comment.file in m then m[comment.file] else CommentBuckets([], []);
      if comment.startLine.Some? {
        entry := entry.(line := entry.line + [comment]);
      } else {
        entry := entry.(file := entry.file + [comment]);
      }
      IndexStep(m, comments[..k], comment);
      m := m[comment.file := entry];
    }
    assert comments[..|comments|] == comments;
  }

  /** Adding one comment to the index of a store gives the index of the
      store with that comment appended. */
  lemma IndexStep(m: map<string, CommentBuckets>, comments: seq<ReviewComment>, comment: ReviewComment)
    requires IndexOf(m, comments)
    ensures
      var entry := if comment.file in m then m[comment.file] else CommentBuckets([], []);
      var entry' := if comment.startLine.Some? then entry.(line := entry.line + [comment])
                    else entry.(file := entry.file + [comment]);
      IndexOf(m[comment.file := entry'], comments + [comment])
  {
    var all := comments + [comment];
    var entry := if comment.file in m then m[comment.file] else CommentBuckets([], []);
    var entry' := if comment.startLine.Some? then entry.(line := entry.line + [comment])
                  else entry.(file := entry.file + [comment]);
    var m' := m[comment.file := entry'];
    assert m'.Keys == (set c | c in all :: c.file) by {
      FilesSnoc(comments, comment);
    }
    forall f | f in m'
      ensures m'[f] == CommentBuckets(Bucket(all, f, true), Bucket(all, f, false))
    {
      BucketSnoc(comments, comment, f, true);
      BucketSnoc(comments, comment, f, false);
      if f == comment.file {
        assert m'[f] == entry';
        assert entry == CommentBuckets(Bucket(comments, f, true), Bucket(comments, f, false)) by {
          CommentsForFileAreBuckets(m, comments, f);
        }
      } else {
        assert m'[f] == m[f];
      }
    }
  }

  /** The files of a store with one more comment: the old ones and its file. */
  lemma FilesSnoc(comments: seq<ReviewComment>, comment: ReviewComment)
    ensures (set c | c in comments + [comment] :: c.file) == (set c | c in comments :: c.file) + {comment.file}
  {
    assert forall c :: c in comments + [comment] <==> c in comments || c == comment;
  }

  lemma BucketSnoc(comments: seq<ReviewComment>, comment: ReviewComment, file: string, lineScoped: bool)
    ensures Bucket(comments + [comment], file, lineScoped)
         == Bucket(comments, file, lineScoped)
            + (if comment.file == file && comment.startLine.Some? == lineScoped then [comment] else [])
  {
    assert (comments + [comment])[..|comments|] == comments;
  }

  /** `getCommentsForFile`: the file's entry, or two empty buckets. */
  function GetCommentsForFile(m: map<string, CommentBuckets>, file: string): CommentBuckets {
    if file in m then m[file] else CommentBuckets([], [])
  }

  /** Looking a file up in the index gives exactly its two buckets, also for
      a file without comments. */
  lemma CommentsForFileAreBuckets(m: map<string, CommentBuckets>, comments: seq<ReviewComment>, file: string)
    requires IndexOf(m, comments)
    ensures GetCommentsForFile(m, file) == CommentBuckets(Bucket(comments, file, true), Bucket(comments, file, false))
  {
    if file !in m {
      assert forall c :: c in comments ==> c.file != file;
      EmptyBucket(comments, file, true);
      EmptyBucket(comments, file, false);
    }
  }

  lemma {:induction false} EmptyBucket(comments: seq<ReviewComment>, file: string, lineScoped: bool)
    requires forall c :: c in comments ==> c.file != file
    ensures Bucket(comments, file, lineScoped) == []
    decreases |comments|
  {
    if |comments| > 0 {
      var init := comments[..|comments| - 1];
      assert forall c :: c in init ==> c in comments;
      assert comments[|comments| - 1] in comments;
      EmptyBucket(init, file, lineScoped);
    }
  }

  /** A stored comment is file-level (no bounds, right side) or line-scoped
      (both bounds, in order). */
  predicate WellShaped(c: ReviewComment) {
    || (c.startLine.None? && c.endLine.None? && c.side == Right)
    || (c.startLine.Some? && c.endLine.Some? && c.startLine.value <= c.endLine.value)
  }

  predicate IdsIncreasing(comments: seq<ReviewComment>) {
    forall i, j :: 0 <= i < j < |comments| ==> comments[i].id < comments[j].id
  }

  /** `previous.filter((comment) => comment.id !== id)`. */
  function RemoveId(comments: seq<ReviewComment>, id: int): (r: seq<ReviewComment>)
    ensures forall c :: c in r <==> c in comments && c.id != id
    decreases |comments|
  {
    if |comments| == 0 then []
    else
      var last := comments[|comments| - 1];
      var r := RemoveId(comments[..|comments| - 1], id);
      assert comments == comments[..|comments| - 1] + [last];
      if last.id != id then r + [last] else r
  }

  /** Removal keeps the survivors in their order, so increasing ids stay
      increasing. */
  lemma {:induction false} RemoveIdKeepsOrder(comments: seq<ReviewComment>, id: int)
    requires IdsIncreasing(comments)
    ensures IdsIncreasing(RemoveId(comments, id))
    decreases |comments|
  {
    if |comments| > 0 {
      var init := comments[..|comments| - 1];
      var last := comments[|comments| - 1];
      assert IdsIncreasing(init);
      RemoveIdKeepsOrder(init, id);
      var r := RemoveId(init, id);
      if last.id != id {
        assert forall c :: c in r ==> c.id < last.id by {
          forall c | c in r ensures c.id < last.id {
            var i :| 0 <= i < |init| && init[i] == c;
            assert comments[i] == c;
          }
        }
        IncreasingSnoc(r, last);
      }
    }
  }

  /** A comment whose id exceeds every id of an increasing list extends it. */
  lemma IncreasingSnoc(comments: seq<ReviewComment>, last: ReviewComment)
    requires IdsIncreasing(comments)
    requires forall c :: c in comments ==> c.id < last.id
    ensures IdsIncreasing(comments + [last])
  {
    var r := comments + [last];
    forall i, j | 0 <= i < j < |r| ensures r[i].id < r[j].id {
      if j == |comments| {
        assert r[i] in comments;
      }
    }
  }

  /** Removing an id that no comment carries changes nothing. */
  lemma {:induction false} RemoveAbsentId(comments: seq<ReviewComment>, id: int)
    requires forall c :: c in comments ==> c.id != id
    ensures RemoveId(comments, id) == comments
    decreases |comments|
  {
    if |comments| > 0 {
      var init := comments[..|comments| - 1];
      assert forall c :: c in init ==> c in comments;
      assert comments[|comments| - 1] in comments;
      RemoveAbsentId(init, id);
      assert comments == init + [comments[|comments| - 1]];
    }
  }

  /** With increasing ids, removal drops at most one comment. */
  lemma {:induction false} RemoveIdDropsAtMostOne(comments: seq<ReviewComment>, id: int)
    requires IdsIncreasing(comments)
    ensures |RemoveId(comments, id)| >= |comments| - 1
    decreases |comments|
  {
    if |comments| > 0 {
      var init := comments[..|comments| - 1];
      var last := comments[|comments| - 1];
      if last.id == id {
        forall c | c in init ensures c.id != id {
          var i :| 0 <= i < |init| && init[i] == c;
          assert comments[i] == c;
        }
        RemoveAbsentId(init, id);
      } else {
        assert IdsIncreasing(init);
        RemoveIdDropsAtMostOne(init, id);
      }
    }
  }

  /** The request `handleSubmit` sends, or none when there is nothing to
      submit: no comments and a blank overall note. The note is trimmed and
      the comments keep their order and every field but the id. */
  function BuildSubmitRequest(diff: string, globalCommentRaw: string, comments: seq<ReviewComment>): (r: Option<SubmitRequest>)
    ensures r.None? <==> |comments| == 0 && AllSpace(globalCommentRaw)
    ensures r.Some? ==> r.value.diff == diff && r.value.globalComment == Trim(globalCommentRaw)
    ensures r.Some? ==> |r.value.comments| == |comments|
    ensures r.Some? ==> forall i :: 0 <= i < |comments| ==> WithId(r.value.comments[i], comments[i].id) == comments[i]
  {
    var trimmedGlobal := Trim(globalCommentRaw);
    if |comments| == 0 && |trimmedGlobal| == 0 then None
    else Some(SubmitRequest(diff, trimmedGlobal, seq(|comments|, i requires 0 <= i < |comments| => WithoutId(comments[i]))))
  }

  /** The status text after a successful submission. */
  function SubmittedText(response: SubmitResponse, clipboardCopied: bool): string {
    "Review submitted - " + response.mdPath
      + (if response.clipboardText != "" && clipboardCopied then " (copied to clipboard)" else "")
  }

  /** The session invariant over the session's values: ids were handed out
      by the counter in increasing order, every comment is well shaped, at
      most one editor is open, drafts are ordered ranges, and an anchor exists
      only together with the single-line draft opened at it. */
  ghost predicate Consistent(comments: seq<ReviewComment>, nextCommentId: int, rangeAnchor: Option<RangeAnchor>,
                             activeDraft: Option<DraftComment>, fileDraftTarget: Option<string>) {
    && 1 <= nextCommentId
    && (forall c :: c in comments ==> 1 <= c.id < nextCommentId && WellShaped(c))
    && IdsIncreasing(comments)
    && !(activeDraft.Some? && fileDraftTarget.Some?)
    && (activeDraft.Some? ==> activeDraft.value.startLine <= activeDraft.value.endLine)
    && (rangeAnchor.Some? ==>
          activeDraft == Some(DraftComment(rangeAnchor.value.file, rangeAnchor.value.line, rangeAnchor.value.line, rangeAnchor.value.side)))
  }

  class Session {
    /** The diff under review, fetched before the page shows. */
    const diff: string
    var comments: seq<ReviewComment>
    var nextCommentId: int
    var rangeAnchor: Option<RangeAnchor>
    var activeDraft: Option<DraftComment>
    var fileDraftTarget: Option<string>
    var submitted: bool
    var submittedText: Option<string>

    ghost predicate Valid()
      reads this
    {
      Consistent(comments, nextCommentId, rangeAnchor, activeDraft, fileDraftTarget)
    }

    /** The page's initial state: nothing saved, nothing open, ids from 1. */
    constructor (diff: string)
      ensures Valid()
      ensures this.diff == diff && comments == [] && nextCommentId == 1
      ensures rangeAnchor == None && activeDraft == None && fileDraftTarget == None
      ensures !submitted && submittedText == None
    {
      this.diff := diff;
      comments := [];
      nextCommentId := 1;
      rangeAnchor := None;
      activeDraft := None;
      fileDraftTarget := None;
      submitted := false;
      submittedText := None;
    }

    /** `onLineClick`. A shift-click whose anchor lies in the same file opens
        the range between the two clicks on the second click's side and drops
        the anchor; any other click anchors at the clicked line and opens a
        single-line draft there. Either way the file-level editor closes. */
    method OnLineClick(file: string, lineNumber: int, side: Side, shiftKey: bool, currentRangeAnchor: Option<RangeAnchor>)
      requires Valid()
      modifies this
      ensures Valid()
      ensures fileDraftTarget == None
      ensures shiftKey && currentRangeAnchor.Some? && currentRangeAnchor.value.file == file ==>
                && activeDraft == Some(DraftComment(file, Min(currentRangeAnchor.value.line, lineNumber),
                                                    Max(currentRangeAnchor.value.line, lineNumber), side))
                && rangeAnchor == None
      ensures !(shiftKey && currentRangeAnchor.Some? && currentRangeAnchor.value.file == file) ==>
                && rangeAnchor == Some(RangeAnchor(file, lineNumber, side))
                && activeDraft == Some(DraftComment(file, lineNumber, lineNumber, side))
      ensures comments == old(comments) && nextCommentId == old(nextCommentId)
      ensures submitted == old(submitted) && submittedText == old(submittedText)
    {
      fileDraftTarget := None;

      if shiftKey && currentRangeAnchor.Some? && currentRangeAnchor.value.file == file {
        var startLine := Min(currentRangeAnchor.value.line, lineNumber);
        var endLine := Max(currentRangeAnchor.value.line, lineNumber);
        activeDraft := Some(DraftComment(file, startLine, endLine, side));
        rangeAnchor := None;
        return;
      }

      rangeAnchor := Some(RangeAnchor(file, lineNumber, side));
      activeDraft := Some(DraftComment(file, lineNumber, lineNumber, side));
    }

    /** The renderer's line-number click: ignored once the review is
        submitted; otherwise `onLineClick` with the clicked side converted and
        the current anchor. */
    method LineNumberClick(file: string, lineNumber: int, annotationSide: AnnotationSide, shiftKey: bool)
      requires Valid()
      modifies this
      ensures Valid()
      ensures old(submitted) ==>
                && comments == old(comments) && nextCommentId == old(nextCommentId)
                && rangeAnchor == old(rangeAnchor) && activeDraft == old(activeDraft)
                && fileDraftTarget == old(fileDraftTarget) && submitted && submittedText == old(submittedText)
      ensures !old(submitted) ==>
                var side := ToCommentSide(annotationSide);
                var anchor := old(rangeAnchor);
                && fileDraftTarget == None && !submitted
                && comments == old(comments) && nextCommentId == old(nextCommentId)
                && submittedText == old(submittedText)
                && (shiftKey && anchor.Some? && anchor.value.file == file ==>
                      && activeDraft == Some(DraftComment(file, Min(anchor.value.line, lineNumber), Max(anchor.value.line, lineNumber), side))
                      && rangeAnchor == None)
                && (!(shiftKey && anchor.Some? && anchor.value.file == file) ==>
                      && rangeAnchor == Some(RangeAnchor(file, lineNumber, side))
                      && activeDraft == Some(DraftComment(file, lineNumber, lineNumber, side)))
    {
      if submitted {
        return;
      }
      OnLineClick(file, lineNumber, ToCommentSide(annotationSide), shiftKey, rangeAnchor);
    }

    /** `onToggleFileDraft`: closes the line draft and the anchor, and opens
        the file-level editor of `file` unless it was the open one. */
    method OnToggleFileDraft(file: string)
      requires Valid()
      modifies this
      ensures Valid()
      ensures activeDraft == None && rangeAnchor == None
      ensures fileDraftTarget == (if old(fileDraftTarget) == Some(file) then None else Some(file))
      ensures comments == old(comments) && nextCommentId == old(nextCommentId)
      ensures submitted == old(submitted) && submittedText == old(submittedText)
    {
      activeDraft := None;
      rangeAnchor := None;
      fileDraftTarget := if fileDraftTarget == Some(file) then None else Some(file);
    }

    /** `saveLineDraft`: without a draft nothing happens; otherwise one
        comment with the draft's location and the next id is appended, and
        the draft and the anchor close. */
    method SaveLineDraft(body: string)
      requires Valid()
      modifies this
      ensures Valid()
      ensures old(activeDraft).None? ==>
                && comments == old(comments) && nextCommentId == old(nextCommentId)
                && rangeAnchor == old(rangeAnchor) && activeDraft == old(activeDraft)
      ensures old(activeDraft).Some? ==>
                var d := old(activeDraft).value;
                && comments == old(comments) + [ReviewComment(old(nextCommentId), d.file, Some(d.startLine), Some(d.endLine), d.side, body)]
                && nextCommentId == old(nextCommentId) + 1
                && activeDraft == None && rangeAnchor == None
      ensures fileDraftTarget == old(fileDraftTarget)
      ensures submitted == old(submitted) && submittedText == old(submittedText)
    {
      var draft := activeDraft;
      if draft.None? {
        return;
      }
      var id := nextCommentId;
      nextCommentId := nextCommentId + 1;
      comments := comments + [ReviewComment(id, draft.value.file, Some(draft.value.startLine), Some(draft.value.endLine), draft.value.side, body)];
      activeDraft := None;
      rangeAnchor := None;
    }

    /** `cancelLineDraft`: closes the draft and the anchor. */
    method CancelLineDraft()
      requires Valid()
      modifies this
      ensures Valid()
      ensures activeDraft == None && rangeAnchor == None
      ensures comments == old(comments) && nextCommentId == old(nextCommentId)
      ensures fileDraftTarget == old(fileDraftTarget)
      ensures submitted == old(submitted) && submittedText == old(submittedText)
    {
      activeDraft := None;
      rangeAnchor := None;
    }

    /** `saveFileComment`: appends a file-level comment on the right side with
        the next id and closes the file-level editor. */
    method SaveFileComment(file: string, body: string)
      requires Valid()
      modifies this
      ensures Valid()
      ensures comments == old(comments) + [ReviewComment(old(nextCommentId), file, None, None, Right, body)]
      ensures nextCommentId == old(nextCommentId) + 1
      ensures fileDraftTarget == None
      ensures activeDraft == old(activeDraft) && rangeAnchor == old(rangeAnchor)
      ensures submitted == old(submitted) && submittedText == old(submittedText)
    {
      var id := nextCommentId;
      nextCommentId := nextCommentId + 1;
      comments := comments + [ReviewComment(id, file, None, None, Right, body)];
      fileDraftTarget := None;
    }

    /** `removeComment`: drops the comments with that id, keeps the rest in
        order; the counter is not touched, so the id is never handed out
        again. */
    method RemoveComment(id: int)
      requires Valid()
      modifies this
      ensures Valid()
      ensures comments == RemoveId(old(comments), id)
      ensures |comments| >= |old(comments)| - 1
      ensures nextCommentId == old(nextCommentId)
      ensures rangeAnchor == old(rangeAnchor) && activeDraft == old(activeDraft)
      ensures fileDraftTarget == old(fileDraftTarget)
      ensures submitted == old(submitted) && submittedText == old(submittedText)
    {
      RemoveIdKeepsOrder(comments, id);
      RemoveIdDropsAtMostOne(comments, id);
      comments := RemoveId(comments, id);
    }

    /** The line draft editor's Save: the trimmed body is saved unless it is
        empty, in which case nothing happens. */
    method LineDraftFormSave(body: string)
      requires Valid()
      modifies this
      ensures Valid()
      ensures AllSpace(body) ==>
                && comments == old(comments) && nextCommentId == old(nextCommentId)
                && rangeAnchor == old(rangeAnchor) && activeDraft == old(activeDraft)
      ensures !AllSpace(body) && old(activeDraft).Some? ==>
                var d := old(activeDraft).value;
                && comments == old(comments) + [ReviewComment(old(nextCommentId), d.file, Some(d.startLine), Some(d.endLine), d.side, Trim(body))]
                && nextCommentId == old(nextCommentId) + 1
                && activeDraft == None && rangeAnchor == None
      ensures !AllSpace(body) && old(activeDraft).None? ==>
                comments == old(comments) && nextCommentId == old(nextCommentId) && rangeAnchor == old(rangeAnchor)
      ensures fileDraftTarget == old(fileDraftTarget)
      ensures submitted == old(submitted) && submittedText == old(submittedText)
    {
      var trimmed := Trim(body);
      if trimmed == "" {
        return;
      }
      SaveLineDraft(trimmed);
    }

    /** The file-level editor's Save: the trimmed body is saved unless it is
        empty, in which case nothing happens. The editor is only shown before
        submission. */
    method FileCommentFormSave(file: string, body: string)
      requires Valid() && !submitted
      modifies this
      ensures Valid()
      ensures AllSpace(body) ==>
                comments == old(comments) && nextCommentId == old(nextCommentId) && fileDraftTarget == old(fileDraftTarget)
      ensures !AllSpace(body) ==>
                && comments == old(comments) + [ReviewComment(old(nextCommentId), file, None, None, Right, Trim(body))]
                && nextCommentId == old(nextCommentId) + 1
                && fileDraftTarget == None
      ensures activeDraft == old(activeDraft) && rangeAnchor == old(rangeAnchor)
      ensures submitted == old(submitted) && submittedText == old(submittedText)
    {
      var trimmed := Trim(body);
      if trimmed == "" {
        return;
      }
      SaveFileComment(file, trimmed);
    }

    /** `handleSubmit`. `globalCommentRaw` is the overall note as typed and
        `outcome` how the request ended. With nothing to submit no request is
        made and an alert is shown; a rejected request shows its message; in
        both cases the session is unchanged. A delivered one marks the
        session submitted and stores the status text. The note and the
        Submit button only take input before submission. */
    method HandleSubmit(globalCommentRaw: string, outcome: SubmitOutcome)
      returns (request: Option<SubmitRequest>, alert: Option<string>)
      requires Valid() && !submitted
      modifies this
      ensures Valid()
      ensures request == BuildSubmitRequest(diff, globalCommentRaw, old(comments))
      ensures request.None? ==> alert == Some("No comments to submit")
      ensures request.Some? && outcome.Rejected? ==> alert == Some(outcome.message)
      ensures request.Some? && outcome.Delivered? ==>
                && alert == None && submitted
                && submittedText == Some(SubmittedText(outcome.response, outcome.clipboardCopied))
      ensures !(request.Some? && outcome.Delivered?) ==>
                submitted == old(submitted) && submittedText == old(submittedText)
      ensures comments == old(comments) && nextCommentId == old(nextCommentId)
      ensures rangeAnchor == old(rangeAnchor) && activeDraft == old(activeDraft)
      ensures fileDraftTarget == old(fileDraftTarget)
    {
      request := BuildSubmitRequest(diff, globalCommentRaw, comments);
      if request.None? {
        alert := Some("No comments to submit");
        return;
      }
      match outcome
      case Delivered(response, copied) =>
        submitted := true;
        submittedText := Some(SubmittedText(response, copied));
        alert := None;
      case Rejected(message) =>
        alert := Some(message);
    }

    /** The line draft editor's key handler. The primary hotkey is consumed
        and saves as Save does; any other key is left to the editor and
        changes nothing. */
    method LineDraftKeyDown(event: KeyEvent, body: string) returns (consumed: bool)
      requires Valid()
      modifies this
      ensures Valid()
      ensures consumed == IsPrimarySubmitHotkey(event)
      ensures !consumed || AllSpace(body) ==>
                && comments == old(comments) && nextCommentId == old(nextCommentId)
                && rangeAnchor == old(rangeAnchor) && activeDraft == old(activeDraft)
      ensures consumed && !AllSpace(body) && old(activeDraft).Some? ==>
                var d := old(activeDraft).value;
                && comments == old(comments) + [ReviewComment(old(nextCommentId), d.file, Some(d.startLine), Some(d.endLine), d.side, Trim(body))]
                && nextCommentId == old(nextCommentId) + 1
                && activeDraft == None && rangeAnchor == None
      ensures consumed && !AllSpace(body) && old(activeDraft).None? ==>
                comments == old(comments) && nextCommentId == old(nextCommentId) && rangeAnchor == old(rangeAnchor)
      ensures fileDraftTarget == old(fileDraftTarget)
      ensures submitted == old(submitted) && submittedText == old(submittedText)
    {
      consumed := IsPrimarySubmitHotkey(event);
      if !consumed {
        return;
      }
      LineDraftFormSave(body);
    }

    /** The file-level editor's key handler. The primary hotkey is consumed
        and saves as Save does; any other key changes nothing. */
    method FileCommentKeyDown(event: KeyEvent, file: string, body: string) returns (consumed: bool)
      requires Valid() && !submitted
      modifies this
      ensures Valid()
      ensures consumed == IsPrimarySubmitHotkey(event)
      ensures !consumed || AllSpace(body) ==>
                comments == old(comments) && nextCommentId == old(nextCommentId) && fileDraftTarget == old(fileDraftTarget)
      ensures consumed && !AllSpace(body) ==>
                && comments == old(comments) + [ReviewComment(old(nextCommentId), file, None, None, Right, Trim(body))]
                && nextCommentId == old(nextCommentId) + 1
                && fileDraftTarget == None
      ensures activeDraft == old(activeDraft) && rangeAnchor == old(rangeAnchor)
      ensures submitted == old(submitted) && submittedText == old(submittedText)
    {
      consumed := IsPrimarySubmitHotkey(event);
      if !consumed {
        return;
      }
      FileCommentFormSave(file, body);
    }

    /** The overall note's key handler. The primary hotkey is consumed and
        submits as the Submit button does; any other key makes no request
        and changes nothing. */
    method GlobalNoteKeyDown(event: KeyEvent, globalCommentRaw: string, outcome: SubmitOutcome)
      returns (consumed: bool, request: Option<SubmitRequest>, alert: Option<string>)
      requires Valid() && !submitted
      modifies this
      ensures Valid()
      ensures consumed == IsPrimarySubmitHotkey(event)
      ensures !consumed ==> request == None && alert == None && !submitted && submittedText == old(submittedText)
      ensures consumed ==> request == BuildSubmitRequest(diff, globalCommentRaw, old(comments))
      ensures consumed && request.None? ==> alert == Some("No comments to submit")
      ensures consumed && request.Some? && outcome.Rejected? ==> alert == Some(outcome.message)
      ensures consumed && request.Some? && outcome.Delivered? ==>
                && alert == None && submitted
                && submittedText == Some(SubmittedText(outcome.response, outcome.clipboardCopied))
      ensures consumed && !(request.Some? && outcome.Delivered?) ==>
                !submitted && submittedText == old(submittedText)
      ensures comments == old(comments) && nextCommentId == old(nextCommentId)
      ensures rangeAnchor == old(rangeAnchor) && activeDraft == old(activeDraft)
      ensures fileDraftTarget == old(fileDraftTarget)
    {
      consumed := IsPrimarySubmitHotkey(event);
      if !consumed {
        request, alert := None, None;
        return;
      }
      request, alert := HandleSubmit(globalCommentRaw, outcome);
    }
  }

  /** Clicking line 5 and then shift-clicking line 2 of the same file selects
      lines 2 to 5; clicking line 5 and shift-clicking it again selects line 5
      alone. The anchor is used up by the second click. */
  method RangeSelectionScenario() returns (downward: Option<DraftComment>, single: Option<DraftComment>, anchorAfter: Option<RangeAnchor>)
    ensures downward == Some(DraftComment("a.py", 2, 5, Right))
    ensures single == Some(DraftComment("a.py", 5, 5, Right))
    ensures anchorAfter == None
  {
    var s := new Session("");
    s.LineNumberClick("a.py", 5, Additions, false);
    s.LineNumberClick("a.py", 2, Additions, true);
    downward := s.activeDraft;
    s.LineNumberClick("a.py", 5, Additions, false);
    s.LineNumberClick("a.py", 5, Additions, true);
    single := s.activeDraft;
    anchorAfter := s.rangeAnchor;
  }

  /** A fresh session in which one line comment and then one file-level
      comment are saved, with non-blank bodies, submits exactly those two, in
      order, with their trimmed bodies, the session's diff and an empty
      note. */
  method EndToEndScenario(diff: string, lineFile: string, line: int, lineBody: string, fileFile: string, fileBody: string)
    returns (request: Option<SubmitRequest>)
    requires !AllSpace(lineBody) && !AllSpace(fileBody)
    ensures request == Some(SubmitRequest(diff, "", [
      SubmitComment(lineFile, Some(line), Some(line), Right, Trim(lineBody)),
      SubmitComment(fileFile, None, None, Right, Trim(fileBody))]))
  {
    var s := new Session(diff);
    s.LineNumberClick(lineFile, line, Additions, false);
    s.LineDraftFormSave(lineBody);
    var c1 := ReviewComment(1, lineFile, Some(line), Some(line), Right, Trim(lineBody));
    assert s.comments == [c1];
    s.OnToggleFileDraft(fileFile);
    s.FileCommentFormSave(fileFile, fileBody);
    var c2 := ReviewComment(2, fileFile, None, None, Right, Trim(fileBody));
    assert s.comments == [c1, c2];
    var alert;
    request, alert := s.HandleSubmit("", Delivered(SubmitResponse("", "", ""), true));
    assert request == BuildSubmitRequest(diff, "", [c1, c2]);
    PairRequest(diff, c1, c2);
    assert request == Some(SubmitRequest(diff, "", [WithoutId(c1), WithoutId(c2)]));
    assert WithoutId(c1) == SubmitComment(lineFile, Some(line), Some(line), Right, Trim(lineBody));
    assert WithoutId(c2) == SubmitComment(fileFile, None, None, Right, Trim(fileBody));
  }

  /** In a line draft, a plain Enter saves nothing and Meta+Enter saves the
      draft. */
  method DraftHotkeyScenario(body: string) returns (afterEnter: seq<ReviewComment>, afterHotkey: seq<ReviewComment>)
    requires !AllSpace(body)
    ensures afterEnter == []
    ensures afterHotkey == [ReviewComment(1, "a.py", Some(3), Some(3), Right, Trim(body))]
  {
    var s := new Session("");
    s.LineNumberClick("a.py", 3, Additions, false);
    var consumed := s.LineDraftKeyDown(KeyEvent("Enter", false, false), body);
    afterEnter := s.comments;
    consumed := s.LineDraftKeyDown(KeyEvent("Enter", true, false), body);
    afterHotkey := s.comments;
  }

  /** In the overall note of a fresh session, a plain Enter submits nothing
      and Ctrl+Enter submits the trimmed note, which then marks the session
      submitted. */
  method NoteHotkeyScenario(diff: string, note: string) returns (plainRequest: Option<SubmitRequest>, request: Option<SubmitRequest>, submitted: bool)
    requires !AllSpace(note)
    ensures plainRequest == None
    ensures request == Some(SubmitRequest(diff, Trim(note), []))
    ensures submitted
  {
    var s := new Session(diff);
    var consumed, alert;
    consumed, plainRequest, alert := s.GlobalNoteKeyDown(KeyEvent("Enter", false, false), note, Rejected(""));
    consumed, request, alert := s.GlobalNoteKeyDown(KeyEvent("Enter", false, true), note, Delivered(SubmitResponse("", "", ""), false));
    submitted := s.submitted;
  }

  lemma PairRequest(diff: string, c1: ReviewComment, c2: ReviewComment)
    ensures BuildSubmitRequest(diff, "", [c1, c2]) == Some(SubmitRequest(diff, "", [WithoutId(c1), WithoutId(c2)]))
  {
    var r := BuildSubmitRequest(diff, "", [c1, c2]);
    var got := r.value.comments;
    assert WithId(got[0], c1.id) == c1;
    assert WithId(got[1], c2.id) == c2;
    assert got == [WithoutId(c1), WithoutId(c2)];
  }
}

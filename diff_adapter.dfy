/** The bridge between the review state and the diff renderer: the renderer's
    records, the conversion between its side vocabulary and the comments'
    one, and the overlays and highlighted range computed from the review
    state. */
module DiffAdapter {
  import opened Wrappers
  import opened Strings
  import opened ReviewTypes

  /** The renderer's name for a diff column. */
  datatype AnnotationSide = Deletions | Additions

  /** A hunk as the diff parser reports it: its added and removed line counts. */
  datatype Hunk = Hunk(additionLines: nat, deletionLines: nat)

  /** One file of a parsed patch. An empty `name` or `prevName` stands for an
      absent one. */
  datatype FileDiffMetadata = FileDiffMetadata(name: string, prevName: string, fileType: string, hunks: seq<Hunk>)

  /** One group of files in the parser's output. */
  datatype PatchGroup = PatchGroup(files: seq<FileDiffMetadata>)

  /** The renderer's highlighted line range. */
  datatype SelectedLineRange = SelectedLineRange(start: int, end: int, side: AnnotationSide, endSide: AnnotationSide)

  /** An overlay attached to one line of one column. */
  datatype LineAnnotation = LineAnnotation(side: AnnotationSide, lineNumber: int, metadata: AnnotationMeta)

  function ToCommentSide(side: AnnotationSide): (r: Side)
    ensures r == Left <==> side == Deletions
  {
    if side == Deletions then Left else Right
  }

  function ToAnnotationSide(side: Side): (r: AnnotationSide)
    ensures r == Deletions <==> side == Left
  {
    if side == Left then Deletions else Additions
  }

  /** The two conversions are inverse bijections. */
  lemma SideConversionRoundTrip(side: Side, annotationSide: AnnotationSide)
    ensures ToCommentSide(ToAnnotationSide(side)) == side
    ensures ToAnnotationSide(ToCommentSide(annotationSide)) == annotationSide
  {
  }

  /** The highlight for the open draft: none without a draft, otherwise the
      draft's bounds on the draft's column, starting and ending there. */
  function CreateSelectedRange(draft: Option<DraftComment>): (r: Option<SelectedLineRange>)
    ensures r.Some? <==> draft.Some?
    ensures r.Some? ==> r.value.start == draft.value.startLine && r.value.end == draft.value.endLine
    ensures r.Some? ==> r.value.side == r.value.endSide && ToCommentSide(r.value.side) == draft.value.side
  {
    match draft
    case None => None
    case Some(d) =>
      var side := ToAnnotationSide(d.side);
      Some(SelectedLineRange(d.startLine, d.endLine, side, side))
  }

  /** The comments of `comments` that are tied to a line, in their order. */
  function LineScoped(comments: seq<ReviewComment>): (r: seq<ReviewComment>)
    ensures |r| <= |comments|
    ensures forall c :: c in r <==> c in comments && c.startLine.Some?
    decreases |comments|
  {
    if |comments| == 0 then []
    else
      var last := comments[|comments| - 1];
      var r := LineScoped(comments[..|comments| - 1]);
      assert comments == comments[..|comments| - 1] + [last];
      if last.startLine.Some? then r + [last] else r
  }

  /** Filtering commutes with concatenation, so the relative order of the
      line-scoped comments is the input order. */
  lemma {:induction false} LineScopedAppend(a: seq<ReviewComment>, b: seq<ReviewComment>)
    ensures LineScoped(a + b) == LineScoped(a) + LineScoped(b)
    decreases |b|
  {
    if |b| > 0 {
      var b' := b[..|b| - 1];
      assert (a + b)[..|a + b| - 1] == a + b';
      LineScopedAppend(a, b');
    } else {
      assert a + b == a;
    }
  }

  /** The overlay of a line-scoped comment, at its start line. */
  function CommentAnnotation(c: ReviewComment): LineAnnotation
    requires c.startLine.Some?
  {
    LineAnnotation(ToAnnotationSide(c.side), c.startLine.value, CommentMeta(c))
  }

  /** The overlays of the line-scoped comments of `comments`, in order. */
  function Overlays(comments: seq<ReviewComment>): seq<LineAnnotation>
    decreases |comments|
  {
    if |comments| == 0 then []
    else
      var last := comments[|comments| - 1];
      Overlays(comments[..|comments| - 1]) + (if last.startLine.Some? then [CommentAnnotation(last)] else [])
  }

  /** There is one overlay per line-scoped comment, in the same order. */
  lemma {:induction false} OverlaysPerComment(comments: seq<ReviewComment>)
    ensures |Overlays(comments)| == |LineScoped(comments)|
    ensures forall i :: 0 <= i < |LineScoped(comments)| ==>
              LineScoped(comments)[i].startLine.Some? && Overlays(comments)[i] == CommentAnnotation(LineScoped(comments)[i])
    decreases |comments|
  {
    if |comments| > 0 {
      OverlaysPerComment(comments[..|comments| - 1]);
    }
  }

  /** The overlays for one file: one per line-scoped comment, in order, on the
      comment's start line and column, then one for the draft, if there is
      one, at the draft's start line. */
  method CreateLineAnnotations(comments: seq<ReviewComment>, draft: Option<DraftComment>)
    returns (annotations: seq<LineAnnotation>)
    ensures |annotations| == |LineScoped(comments)| + (if draft.Some? then 1 else 0)
    ensures forall i :: 0 <= i < |LineScoped(comments)| ==>
      var c := LineScoped(comments)[i];
      annotations[i] == LineAnnotation(ToAnnotationSide(c.side), c.startLine.value, CommentMeta(c))
    ensures draft.Some? ==>
              annotations[|annotations| - 1] ==
              LineAnnotation(ToAnnotationSide(draft.value.side), draft.value.startLine, DraftMeta(draft.value))
  {
    annotations := [];
    for k := 0 to |comments|
      invariant annotations == Overlays(comments[..k])
    {
      var comment := comments[k];
      assert comments[..k + 1][..k] == comments[..k];
      if comment.startLine == None {
        continue;
      }
      annotations := annotations + [LineAnnotation(ToAnnotationSide(comment.side), comment.startLine.value, CommentMeta(comment))];
    }
    assert comments[..|comments|] == comments;
    OverlaysPerComment(comments);
    ghost var scoped := annotations;
    if draft.Some? {
      var d := draft.value;
      annotations := annotations + [LineAnnotation(ToAnnotationSide(d.side), d.startLine, DraftMeta(d))];
      assert forall i :: 0 <= i < |scoped| ==> annotations[i] == scoped[i];
    }
  }

  /** The files of all groups, group after group. */
  function Flatten(groups: seq<PatchGroup>): (r: seq<FileDiffMetadata>)
    decreases |groups|
  {
    if |groups| == 0 then [] else Flatten(groups[..|groups| - 1]) + groups[|groups| - 1].files
  }

  /** Flattening keeps every file of every group and adds none. */
  lemma {:induction false} FlattenMembers(groups: seq<PatchGroup>, f: FileDiffMetadata)
    ensures f in Flatten(groups) <==> exists i :: 0 <= i < |groups| && f in groups[i].files
    decreases |groups|
  {
    if |groups| > 0 {
      var init := groups[..|groups| - 1];
      FlattenMembers(init, f);
      assert forall i :: 0 <= i < |init| ==> init[i] == groups[i];
    }
  }

  /** Flattening commutes with concatenation of the group lists. */
  lemma {:induction false} FlattenAppend(a: seq<PatchGroup>, b: seq<PatchGroup>)
    ensures Flatten(a + b) == Flatten(a) + Flatten(b)
    decreases |b|
  {
    if |b| > 0 {
      var b' := b[..|b| - 1];
      assert (a + b)[..|a + b| - 1] == a + b';
      FlattenAppend(a, b');
    } else {
      assert a + b == a;
    }
  }

  /** `parsePatchToFileDiffs`. `parsed` stands for what the external
      `parsePatchFiles` returns for `patch`; it is only consulted when the
      patch is not blank. A blank patch has no files; otherwise the result is
      every group's files, in order. */
  method ParsePatchToFileDiffs(patch: string, parsed: seq<PatchGroup>) returns (files: seq<FileDiffMetadata>)
    ensures AllSpace(patch) ==> files == []
    ensures !AllSpace(patch) ==> files == Flatten(parsed)
  {
    if Trim(patch) == "" {
      return [];
    }
    files := [];
    for g := 0 to |parsed|
      invariant files == Flatten(parsed[..g])
    {
      var group := parsed[g];
      assert parsed[..g + 1][..g] == parsed[..g];
      ghost var before := files;
      for k := 0 to |group.files|
        invariant files == before + group.files[..k]
      {
        files := files + [group.files[k]];
        assert group.files[..k + 1] == group.files[..k] + [group.files[k]];
      }
      assert group.files[..|group.files|] == group.files;
    }
    assert parsed[..|parsed|] == parsed;
  }
}

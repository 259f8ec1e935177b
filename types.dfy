/** The records the review page keeps, renders and sends to the server. */
module ReviewTypes {
  import opened Wrappers

  /** The diff column a line belongs to: the pre-image ("left") or the
      post-image ("right"). There is no third value. */
  datatype Side = Left | Right

  /** The name a side has on the wire. */
  function SideName(side: Side): (r: string)
    ensures r == "left" || r == "right"
    ensures r == "left" <==> side == Left
  {
    match side
    case Left => "left"
    case Right => "right"
  }

  /** Reads a side back from its wire name; other names are not sides. */
  function ParseSide(name: string): (r: Option<Side>)
    ensures r.Some? <==> name == "left" || name == "right"
  {
    if name == "left" then Some(Left) else if name == "right" then Some(Right) else None
  }

  /** The two spellings name the two sides one to one. */
  lemma SideNameRoundTrip(side: Side, name: string)
    ensures ParseSide(SideName(side)) == Some(side)
    ensures ParseSide(name) == Some(side) ==> SideName(side) == name
  {
  }

  /** A saved comment. `startLine == None` marks a file-level comment. */
  datatype ReviewComment = ReviewComment(
    id: int,
    file: string,
    startLine: Option<int>,
    endLine: Option<int>,
    side: Side,
    body: string)

  /** A comment as it is submitted: a `ReviewComment` without its `id`. */
  datatype SubmitComment = SubmitComment(
    file: string,
    startLine: Option<int>,
    endLine: Option<int>,
    side: Side,
    body: string)

  datatype SubmitRequest = SubmitRequest(diff: string, globalComment: string, comments: seq<SubmitComment>)

  datatype SubmitResponse = SubmitResponse(jsonPath: string, mdPath: string, clipboardText: string)

  /** An open line-range editor: both bounds are always present. */
  datatype DraftComment = DraftComment(file: string, startLine: int, endLine: int, side: Side)

  /** What an overlay on a diff line carries: a saved comment or the draft. */
  datatype AnnotationMeta =
    | CommentMeta(comment: ReviewComment)
    | DraftMeta(draft: DraftComment)

  /** Drops the `id`, keeping every other field. */
  function WithoutId(c: ReviewComment): SubmitComment {
    SubmitComment(c.file, c.startLine, c.endLine, c.side, c.body)
  }

  function WithId(s: SubmitComment, id: int): ReviewComment {
    ReviewComment(id, s.file, s.startLine, s.endLine, s.side, s.body)
  }

  /** `SubmitComment` is exactly `ReviewComment` without `id`: removing the id
      and putting it back is the identity, in both orders. */
  lemma WithoutIdRoundTrip(c: ReviewComment, s: SubmitComment, id: int)
    ensures WithId(WithoutId(c), c.id) == c
    ensures WithoutId(WithId(s, id)) == s
  {
  }
}

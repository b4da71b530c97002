/** The comment box of components/ProjectModal.tsx: the guarded submit
    lifecycle of `handleSubmitComment` and the date shown beside each
    comment. */
module ProjectModal {
  import opened Wrappers
  import opened Schemas
  import Text
  import Api
  import App

  /** The author every comment from the modal is posted under. */
  const ModalAuthor := "匿名访客"

  /** The text box and the in-flight flag. */
  datatype Composer = Composer(newComment: string, isSubmitting: bool)

  /** What one press of the send button did: the page state and composer
      after the request settled, and the request sent, if any. */
  datatype Submitted = Submitted(app: App.AppState, composer: Composer, sent: Option<Api.ApiCall>)

  /** Whether pressing send issues a request at all. */
  predicate MaySubmit(c: Composer) {
    !Text.IsBlank(c.newComment) && !c.isSubmitting
  }

  /** `handleSubmitComment` with the server's answer to the post: the
      untrimmed text is posted under the fixed author; the box is cleared
      only after the page has recorded the comment, and the in-flight flag
      drops whatever the outcome. */
  function SubmitComment(base: string, app: App.AppState, c: Composer, projectId: string,
                         response: Result<CommentResponse>): (r: Submitted)
    ensures !MaySubmit(c) ==> r == Submitted(app, c, None)
    ensures MaySubmit(c) ==> r.sent == Some(Api.PostCommentCall(base, projectId, c.newComment, ModalAuthor))
    ensures MaySubmit(c) ==> !r.composer.isSubmitting
    ensures MaySubmit(c) && response.Ok? ==>
      r.composer.newComment == [] && r.app == App.HandleAddComment(app, projectId, response)
    ensures response.Err? ==> r.app == app && r.composer.newComment == c.newComment
  {
    if !MaySubmit(c) then Submitted(app, c, None)
    else
      var call := Api.PostCommentCall(base, projectId, c.newComment, ModalAuthor);
      match response
      case Ok(_) => Submitted(App.HandleAddComment(app, projectId, response), Composer([], false), Some(call))
      case Err(_) => Submitted(app, Composer(c.newComment, false), Some(call))
  }

  /** A request is sent exactly when the text is not blank and no earlier
      submission is in flight; a successful send leaves a box that cannot
      be sent again, so one text is never posted twice by repeated presses. */
  lemma SubmitOnceOnly(base: string, app: App.AppState, c: Composer, projectId: string,
                       first: Result<CommentResponse>, second: Result<CommentResponse>)
    ensures SubmitComment(base, app, c, projectId, first).sent.Some? <==>
      (exists i :: 0 <= i < |c.newComment| && !Text.IsSpace(c.newComment[i])) && !c.isSubmitting
    ensures var r := SubmitComment(base, app, c, projectId, first);
      r.sent.Some? && first.Ok? ==> SubmitComment(base, r.app, r.composer, projectId, second).sent.None?
  {
    Text.BlankIffAllSpace(c.newComment);
    Text.BlankIffAllSpace([]);
  }

  /** The date shown under a comment: `createdAt.split('T')[0]`. */
  function CommentDate(createdAt: string): (r: string)
    ensures r == Text.Split(createdAt, 'T')[0]
  {
    Text.BeforeIsFirstPiece(createdAt, 'T');
    Text.Before(createdAt, 'T')
  }

  /** For an ISO timestamp the shown date is the calendar part, and a
      timestamp with no 'T' (the empty one a missing time maps to) is shown
      whole. */
  lemma CommentDateOfIso(date: string, time: string)
    requires 'T' !in date
    ensures CommentDate(date + "T" + time) == date
    ensures CommentDate(date) == date
  {
    Text.BeforeAfterConcat(date, time, 'T');
    Text.SplitFree(date, 'T');
  }
}

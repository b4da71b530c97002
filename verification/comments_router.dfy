/** The comment routes of backend/routers/comments.py: listing a project's
    comments, posting one, and deleting one, each keeping the project's
    denormalised `comments_count` in step with the comment table. */
module CommentsRouter {
  import opened Wrappers
  import opened Models
  import opened Schemas
  import Seqs
  import Ordering
  import opened ProjectsRouter

  const CommentNotFound := HttpError(NotFound, "评论不存在")
  const CommentDeleted := "评论已删除"

  const CommentNewestFirst: CommentRow -> Ordering.Key := (c: CommentRow) => TimeKey(c.createdAt)

  /** The comment filter of `delete_comment`: both the id and the project
      must match. */
  function CommentOfProject(commentId: string, projectId: string): CommentRow -> bool {
    (c: CommentRow) => c.id == commentId && c.projectId == projectId
  }

  /** The rows `get_comments` returns, newest first. */
  function CommentRows(db: Db, projectId: string): (r: seq<CommentRow>)
    ensures Ordering.SortedDesc(r, CommentNewestFirst)
    ensures multiset(r) == multiset(Seqs.Filter(db.comments, CommentOn(projectId)))
    ensures |r| == Seqs.Count(db.comments, CommentOn(projectId))
    ensures forall i :: 0 <= i < |r| ==> r[i].projectId == projectId
  {
    var rows := Seqs.Filter(db.comments, CommentOn(projectId));
    Ordering.SortDescSpec(rows, CommentNewestFirst);
    var r := Ordering.SortDesc(rows, CommentNewestFirst);
    forall i | 0 <= i < |r|
      ensures r[i].projectId == projectId
    {
      assert r[i] in multiset(rows);
      assert CommentOn(projectId)(r[i]);
    }
    r
  }

  /** A comment is listed exactly when it is stored under this project. */
  lemma CommentRowsMembership(db: Db, projectId: string, c: CommentRow)
    ensures c in CommentRows(db, projectId) <==> c in db.comments && c.projectId == projectId
  {
    var r := CommentRows(db, projectId);
    var f := Seqs.Filter(db.comments, CommentOn(projectId));
    assert c in r <==> c in multiset(r);
    assert c in f <==> c in multiset(f);
    Seqs.FilterMembership(db.comments, CommentOn(projectId), c);
  }

  /** `GET /projects/{id}/comments`. */
  function GetComments(db: Db, projectId: string): (r: Result<seq<CommentResponse>>)
    ensures r.Err? <==> ProjectIndex(db, projectId).None?
    ensures r.Err? ==> r.error == ProjectNotFound
    ensures r.Ok? ==> |r.value| == Seqs.Count(db.comments, CommentOn(projectId))
    ensures r.Ok? ==> forall i :: 0 <= i < |r.value| ==> r.value[i].projectId == projectId
    ensures r.Ok? ==> (|r.value| == |CommentRows(db, projectId)|
      && forall i :: 0 <= i < |r.value| ==> r.value[i] == CommentFromOrm(CommentRows(db, projectId)[i]))
  {
    match ProjectIndex(db, projectId)
    case None => Err(ProjectNotFound)
    case Some(_) =>
      var rows := CommentRows(db, projectId);
      Ok(seq(|rows|, i requires 0 <= i < |rows| => CommentFromOrm(rows[i])))
  }

  /** `POST /projects/{id}/comments`: one new row with a Picsum avatar seeded
      by the author, and one more on the project's counter. */
  function CreateComment(db: Db, projectId: string, data: CommentCreate, freshId: string, now: Instant): (r: Result<Handled<CommentResponse>>)
    ensures r.Err? <==> ProjectIndex(db, projectId).None?
    ensures r.Err? ==> r.error == ProjectNotFound
    ensures r.Ok? ==> (r.value.db.comments ==
      db.comments + [CommentRow(freshId, projectId, data.authorName, Some(PicsumAvatar(data.authorName)), data.content, Some(now))])
    ensures r.Ok? ==> (r.value.db.likes == db.likes
      && r.value.db.discussions == db.discussions && r.value.db.replies == db.replies)
    ensures r.Ok? ==> |r.value.db.projects| == |db.projects|
    ensures forall i :: ProjectIndex(db, projectId) == Some(i) && r.Ok? ==>
      && r.value.db.projects[i] == db.projects[i].(commentsCount := db.projects[i].commentsCount + 1)
      && forall j :: 0 <= j < |db.projects| && j != i ==> r.value.db.projects[j] == db.projects[j]
    ensures r.Ok? ==> (r.value.body.id == freshId && r.value.body.projectId == projectId
      && r.value.body.authorName == data.authorName && r.value.body.content == data.content
      && PicsumSeed(r.value.body.authorAvatar) == Some(data.authorName)
      && r.value.body.createdAt == now.iso)
  {
    match ProjectIndex(db, projectId)
    case None => Err(ProjectNotFound)
    case Some(i) =>
      var row := CommentRow(freshId, projectId, data.authorName, Some(PicsumAvatar(data.authorName)), data.content, Some(now));
      var p := db.projects[i];
      AvatarSeedRoundTrip(data.authorName);
      Ok(Handled(db.(projects := db.projects[i := p.(commentsCount := p.commentsCount + 1)],
                     comments := db.comments + [row]),
                 CommentFromOrm(row)))
  }

  /** `DELETE /projects/{id}/comments/{cid}`: the comment must belong to the
      project; its project's counter drops by one, never below zero. */
  function DeleteComment(db: Db, projectId: string, commentId: string): (r: Result<Handled<MessageResponse>>)
    ensures r.Err? <==> forall k :: 0 <= k < |db.comments| ==>
      !(db.comments[k].id == commentId && db.comments[k].projectId == projectId)
    ensures r.Err? ==> r.error == CommentNotFound
    ensures r.Ok? ==> r.value.body == MessageResponse(CommentDeleted, true)
    ensures r.Ok? ==> (r.value.db.likes == db.likes
      && r.value.db.discussions == db.discussions && r.value.db.replies == db.replies)
    ensures r.Ok? ==> exists k :: (0 <= k < |db.comments| && db.comments[k].id == commentId
      && db.comments[k].projectId == projectId && r.value.db.comments == Seqs.RemoveAt(db.comments, k))
    ensures r.Ok? ==> |r.value.db.projects| == |db.projects|
    ensures r.Ok? ==> forall j :: 0 <= j < |db.projects| && Some(j) != ProjectIndex(db, projectId) ==>
      r.value.db.projects[j] == db.projects[j]
    ensures forall i :: ProjectIndex(db, projectId) == Some(i) && r.Ok? ==>
      r.value.db.projects[i] == db.projects[i].(commentsCount := Max(0, db.projects[i].commentsCount - 1))
  {
    match Seqs.FirstIndex(db.comments, CommentOfProject(commentId, projectId))
    case None => Err(CommentNotFound)
    case Some(k) =>
      assert CommentOfProject(commentId, projectId)(db.comments[k]);
      var projects := match ProjectIndex(db, projectId)
        case None => db.projects
        case Some(i) =>
          db.projects[i := db.projects[i].(commentsCount := Max(0, db.projects[i].commentsCount - 1))];
      Ok(Handled(db.(projects := projects, comments := Seqs.RemoveAt(db.comments, k)),
                 MessageResponse(CommentDeleted, true)))
  }

  /** Posting a comment keeps every project's counter equal to its number of
      comments, and keeps comment ids unique. */
  lemma CreateCommentPreservesConsistency(db: Db, projectId: string, data: CommentCreate, freshId: string, now: Instant)
    requires Consistent(db) && FreshCommentId(db, freshId)
    ensures Consistent(After(db, CreateComment(db, projectId, data, freshId, now)))
  {
    if ProjectIndex(db, projectId).Some? {
      var i := ProjectIndex(db, projectId).value;
      PostedResult(db, projectId, data, freshId, now, i);
      AddCommentKeepsConsistency(db, i,
        CommentRow(freshId, projectId, data.authorName, Some(PicsumAvatar(data.authorName)), data.content, Some(now)));
    }
  }

  /** Appending a comment under a fresh id and raising its project's counter
      by one. */
  lemma AddCommentKeepsConsistency(db: Db, i: nat, row: CommentRow)
    requires Consistent(db) && FreshCommentId(db, row.id)
    requires i < |db.projects| && db.projects[i].id == row.projectId
    ensures var p := db.projects[i];
      Consistent(db.(projects := db.projects[i := p.(commentsCount := p.commentsCount + 1)], comments := db.comments + [row]))
  {
    var p := db.projects[i];
    var db' := db.(projects := db.projects[i := p.(commentsCount := p.commentsCount + 1)], comments := db.comments + [row]);
    assert forall j :: 0 <= j < |db.projects| ==> db'.projects[j].id == db.projects[j].id;
    forall j | 0 <= j < |db'.projects|
      ensures db'.projects[j].commentsCount == Seqs.Count(db'.comments, CommentOn(db'.projects[j].id))
    {
      Seqs.CountAppend(db.comments, row, CommentOn(db.projects[j].id));
    }
  }

  /** In a consistent database the project of a stored comment counts it, so
      its counter is positive. */
  lemma CommentedProjectCountPositive(db: Db, k: nat, i: nat)
    requires CommentCountsAgree(db)
    requires k < |db.comments| && i < |db.projects| && db.projects[i].id == db.comments[k].projectId
    ensures db.projects[i].commentsCount >= 1
  {
    Seqs.CountPositive(db.comments, k, CommentOn(db.projects[i].id));
  }

  /** Deleting a comment from a consistent database lowers its project's
      counter by exactly one (the floor at zero never applies). */
  lemma DeleteCommentExactDecrement(db: Db, projectId: string, commentId: string)
    requires Consistent(db)
    ensures var r := DeleteComment(db, projectId, commentId);
      r.Ok? && ProjectIndex(db, projectId).Some? ==>
        r.value.db.projects[ProjectIndex(db, projectId).value].commentsCount
          == db.projects[ProjectIndex(db, projectId).value].commentsCount - 1
  {
    var r := DeleteComment(db, projectId, commentId);
    if r.Ok? && ProjectIndex(db, projectId).Some? {
      var k := Seqs.FirstIndex(db.comments, CommentOfProject(commentId, projectId)).value;
      assert CommentOfProject(commentId, projectId)(db.comments[k]);
      CommentedProjectCountPositive(db, k, ProjectIndex(db, projectId).value);
    }
  }

  /** Deleting a comment keeps every project's counter equal to its number
      of comments, and keeps comment ids unique. */
  lemma DeleteCommentPreservesConsistency(db: Db, projectId: string, commentId: string)
    requires Consistent(db)
    ensures Consistent(After(db, DeleteComment(db, projectId, commentId)))
  {
    var r := DeleteComment(db, projectId, commentId);
    if r.Ok? {
      var projects := r.value.db.projects;
      var k := Seqs.FirstIndex(db.comments, CommentOfProject(commentId, projectId)).value;
      assert CommentOfProject(commentId, projectId)(db.comments[k]);
      assert r.value.db == db.(projects := projects, comments := Seqs.RemoveAt(db.comments, k));
      forall j | 0 <= j < |db.projects|
        ensures projects[j] == if db.projects[j].id == projectId
          then db.projects[j].(commentsCount := Max(0, db.projects[j].commentsCount - 1)) else db.projects[j]
      {
        if db.projects[j].id == projectId {
          assert ProjectIndex(db, projectId) == Some(j);
        }
      }
      DropCommentKeepsConsistency(db, k, projects);
    }
  }

  /** Removing the comment at `k` and lowering its project's counter, floored
      at zero. */
  lemma DropCommentKeepsConsistency(db: Db, k: nat, projects: seq<ProjectRow>)
    requires Consistent(db) && k < |db.comments| && |projects| == |db.projects|
    requires forall j :: 0 <= j < |db.projects| ==>
      projects[j] == if db.projects[j].id == db.comments[k].projectId
        then db.projects[j].(commentsCount := Max(0, db.projects[j].commentsCount - 1)) else db.projects[j]
    ensures Consistent(db.(projects := projects, comments := Seqs.RemoveAt(db.comments, k)))
  {
    var db' := db.(projects := projects, comments := Seqs.RemoveAt(db.comments, k));
    assert forall j :: 0 <= j < |db.projects| ==> projects[j].id == db.projects[j].id;
    forall j | 0 <= j < |projects|
      ensures projects[j].commentsCount == Seqs.Count(db'.comments, CommentOn(projects[j].id))
    {
      Seqs.CountRemoveAt(db.comments, k, CommentOn(db.projects[j].id));
      if db.projects[j].id == db.comments[k].projectId {
        CommentedProjectCountPositive(db, k, j);
      }
    }
    Seqs.RemoveAtDistinct(db.comments, k, CommentIdOf);
  }

  /** Deleting a comment just posted, under a fresh id, restores the
      database exactly when the counter was non-negative. */
  lemma CreateThenDeleteRestores(db: Db, projectId: string, data: CommentCreate, freshId: string, now: Instant)
    requires FreshCommentId(db, freshId)
    requires ProjectIndex(db, projectId).Some?
    requires db.projects[ProjectIndex(db, projectId).value].commentsCount >= 0
    ensures var posted := After(db, CreateComment(db, projectId, data, freshId, now));
      After(posted, DeleteComment(posted, projectId, freshId)) == db
  {
    var i := ProjectIndex(db, projectId).value;
    var p := db.projects[i];
    var row := CommentRow(freshId, projectId, data.authorName, Some(PicsumAvatar(data.authorName)), data.content, Some(now));
    var posted := db.(projects := db.projects[i := p.(commentsCount := p.commentsCount + 1)], comments := db.comments + [row]);
    PostedResult(db, projectId, data, freshId, now, i);
    Seqs.FirstIndexReplace(db.projects, i, p.(commentsCount := p.commentsCount + 1), ProjectWithId(projectId));
    assert Seqs.FirstIndex(db.comments, CommentOfProject(freshId, projectId)).None?;
    Seqs.FirstIndexAppend(db.comments, row, CommentOfProject(freshId, projectId));
    DeletedResult(posted, projectId, freshId, i, |db.comments|);
    DeleteUndoesPost(db, i, row);
  }

  /** The database after a comment is posted on the project at `i`. */
  lemma PostedResult(db: Db, projectId: string, data: CommentCreate, freshId: string, now: Instant, i: nat)
    requires ProjectIndex(db, projectId) == Some(i)
    ensures var p := db.projects[i];
      After(db, CreateComment(db, projectId, data, freshId, now))
        == db.(projects := db.projects[i := p.(commentsCount := p.commentsCount + 1)],
               comments := db.comments + [CommentRow(freshId, projectId, data.authorName,
                                                     Some(PicsumAvatar(data.authorName)), data.content, Some(now))])
  {
  }

  /** The database after the comment at `k` of the project at `i` is deleted. */
  lemma DeletedResult(db: Db, projectId: string, commentId: string, i: nat, k: nat)
    requires ProjectIndex(db, projectId) == Some(i)
    requires Seqs.FirstIndex(db.comments, CommentOfProject(commentId, projectId)) == Some(k)
    ensures var p := db.projects[i];
      After(db, DeleteComment(db, projectId, commentId))
        == db.(projects := db.projects[i := p.(commentsCount := Max(0, p.commentsCount - 1))],
               comments := Seqs.RemoveAt(db.comments, k))
  {
  }

  /** Lowering the raised counter and dropping the appended comment gives
      back the database, since a non-negative counter is not floored. */
  lemma DeleteUndoesPost(db: Db, i: nat, row: CommentRow)
    requires i < |db.projects| && db.projects[i].commentsCount >= 0
    ensures var p := db.projects[i];
      var posted := db.(projects := db.projects[i := p.(commentsCount := p.commentsCount + 1)], comments := db.comments + [row]);
      var q := posted.projects[i];
      posted.(projects := posted.projects[i := q.(commentsCount := Max(0, q.commentsCount - 1))],
              comments := Seqs.RemoveAt(posted.comments, |db.comments|)) == db
  {
    var p := db.projects[i];
    var posted := db.(projects := db.projects[i := p.(commentsCount := p.commentsCount + 1)], comments := db.comments + [row]);
    assert posted.projects[i := p] == db.projects;
    assert Seqs.RemoveAt(posted.comments, |db.comments|) == db.comments;
  }
}

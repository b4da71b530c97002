/** The project routes of backend/routers/projects.py over the table model:
    listing with a category filter, lookup, creation, partial update, and
    the per-(project, user) like toggle. */
module ProjectsRouter {
  import opened Wrappers
  import opened Models
  import opened Schemas
  import Seqs
  import Ordering

  const ProjectNotFound := HttpError(NotFound, "项目不存在")

  /** The value FastAPI supplies when the `X-User-Identifier` header is absent. */
  const AnonymousUser := "anonymous"

  function Max(a: int, b: int): int {
    if a >= b then a else b
  }

  /** Position of the project row with this id (`.filter(id == ...).first()`). */
  function ProjectIndex(db: Db, id: string): Option<nat> {
    Seqs.FirstIndex(db.projects, ProjectWithId(id))
  }

  /** Whether the like table holds a record for this project and user. */
  function LikeIndex(db: Db, projectId: string, user: string): Option<nat> {
    Seqs.FirstIndex(db.likes, LikeBy(projectId, user))
  }

  // ==================== listing ====================

  /** `if category and category != "All"`: only then is the list filtered. */
  predicate FiltersCategory(category: Option<string>) {
    category.Some? && category.value != [] && category.value != "All"
  }

  function InCategory(c: string): ProjectRow -> bool {
    (p: ProjectRow) => p.category == c
  }

  const NewestFirst: ProjectRow -> Ordering.Key := (p: ProjectRow) => TimeKey(p.createdAt)

  /** The rows `get_all_projects` returns, before mapping to responses:
      newest first, holding exactly the projects of the category (or all of
      them when the filter is off). */
  function ListProjectRows(db: Db, category: Option<string>): (r: seq<ProjectRow>)
    ensures Ordering.SortedDesc(r, NewestFirst)
    ensures FiltersCategory(category) ==>
      multiset(r) == multiset(Seqs.Filter(db.projects, InCategory(category.value)))
    ensures !FiltersCategory(category) ==> multiset(r) == multiset(db.projects)
    ensures |r| == if FiltersCategory(category) then Seqs.Count(db.projects, InCategory(category.value)) else |db.projects|
    ensures FiltersCategory(category) ==> forall i :: 0 <= i < |r| ==> r[i].category == category.value
  {
    var rows := if FiltersCategory(category) then Seqs.Filter(db.projects, InCategory(category.value))
                else db.projects;
    Ordering.SortDescSpec(rows, NewestFirst);
    var r := Ordering.SortDesc(rows, NewestFirst);
    assert FiltersCategory(category) ==> forall i :: 0 <= i < |r| ==> r[i].category == category.value by {
      if FiltersCategory(category) {
        forall i | 0 <= i < |r|
          ensures r[i].category == category.value
        {
          assert r[i] in multiset(rows);
          assert InCategory(category.value)(r[i]);
        }
      }
    }
    r
  }

  /** A project is listed exactly when it is stored and, if the filter is
      on, has the requested category. */
  lemma ListProjectsMembership(db: Db, category: Option<string>, p: ProjectRow)
    ensures p in ListProjectRows(db, category) <==>
      p in db.projects && (FiltersCategory(category) ==> p.category == category.value)
  {
    var r := ListProjectRows(db, category);
    assert p in r <==> p in multiset(r);
    if FiltersCategory(category) {
      var f := Seqs.Filter(db.projects, InCategory(category.value));
      Seqs.FilterMembership(db.projects, InCategory(category.value), p);
      assert p in f <==> p in multiset(f);
    } else {
      assert p in db.projects <==> p in multiset(db.projects);
    }
  }

  /** `GET /projects[?category=]`. */
  function GetAllProjects(db: Db, category: Option<string>): (r: seq<ProjectResponse>)
    ensures FiltersCategory(category) ==>
      |r| == Seqs.Count(db.projects, InCategory(category.value))
      && forall i :: 0 <= i < |r| ==> r[i].category == category.value
    ensures !FiltersCategory(category) ==> |r| == |db.projects|
    ensures |r| == |ListProjectRows(db, category)|
      && forall i :: 0 <= i < |r| ==> r[i] == ProjectFromOrm(ListProjectRows(db, category)[i])
  {
    ProjectResponses(ListProjectRows(db, category))
  }

  /** The response form of each row, in order. */
  function ProjectResponses(rows: seq<ProjectRow>): (r: seq<ProjectResponse>)
    ensures |r| == |rows|
    ensures forall i :: 0 <= i < |r| ==> r[i] == ProjectFromOrm(rows[i]) && r[i].category == rows[i].category
  {
    seq(|rows|, i requires 0 <= i < |rows| => ProjectFromOrm(rows[i]))
  }

  /** `GET /projects/{id}`. */
  function GetProject(db: Db, id: string): (r: Result<ProjectResponse>)
    ensures r.Err? <==> forall j :: 0 <= j < |db.projects| ==> db.projects[j].id != id
    ensures r.Err? ==> r.error == ProjectNotFound
    ensures r.Ok? ==> r.value.id == id && exists j :: 0 <= j < |db.projects| && ProjectFromOrm(db.projects[j]) == r.value
  {
    match ProjectIndex(db, id)
    case None => Err(ProjectNotFound)
    case Some(i) => Ok(ProjectFromOrm(db.projects[i]))
  }

  // ==================== creation and update ====================

  /** `POST /projects`: the new row starts with zero likes and comments and
      is stamped with the creation time. */
  function CreateProject(db: Db, data: ProjectCreate, freshId: string, now: Instant): (r: Handled<ProjectResponse>)
    ensures |r.db.projects| == |db.projects| + 1 && r.db.projects[..|db.projects|] == db.projects
    ensures r.db.comments == db.comments && r.db.likes == db.likes
    ensures r.db.discussions == db.discussions && r.db.replies == db.replies
    ensures r.body.id == freshId && r.body.title == data.title && r.body.category == data.category
    ensures r.body.tags == data.tags
    ensures r.body.likesCount == 0 && r.body.commentsCount == 0
    ensures r.body.createdAt == now.iso
    ensures r.db.projects == db.projects + [ProjectRow(
      freshId, data.title, data.category, data.shortDescription, data.fullDescription,
      data.backgroundStory, data.usageInstructions, data.thumbnailUrl, data.bannerUrl,
      data.externalLink, Some(data.tags), 0, 0, Some(now), Some(now))]
    ensures r.body == ProjectFromOrm(r.db.projects[|db.projects|])
  {
    var row := ProjectRow(
      freshId, data.title, data.category, data.shortDescription, data.fullDescription,
      data.backgroundStory, data.usageInstructions, data.thumbnailUrl, data.bannerUrl,
      data.externalLink, Some(data.tags), 0, 0, Some(now), Some(now));
    Handled(db.(projects := db.projects + [row]), ProjectFromOrm(row))
  }

  lemma CreateProjectPreservesConsistency(db: Db, data: ProjectCreate, freshId: string, now: Instant)
    requires Consistent(db) && FreshProjectId(db, freshId)
    ensures Consistent(CreateProject(db, data, freshId, now).db)
  {
    var db' := CreateProject(db, data, freshId, now).db;
    CountNone(db.comments, CommentOn(freshId));
    CountNone(db.likes, LikeOn(freshId));
    assert db'.projects[|db.projects|].id == freshId;
  }

  /** The stored row after `setattr` of every provided, non-null field. */
  function ApplyUpdate(p: ProjectRow, u: ProjectUpdate): (r: ProjectRow)
    ensures r.id == p.id && r.likesCount == p.likesCount && r.commentsCount == p.commentsCount
    ensures r.createdAt == p.createdAt && r.updatedAt == p.updatedAt
    ensures r.title == u.title.GetOr(p.title) && r.category == u.category.GetOr(p.category)
    ensures r.shortDescription == u.shortDescription.GetOr(p.shortDescription)
    ensures r.fullDescription == u.fullDescription.GetOr(p.fullDescription)
    ensures r.backgroundStory == u.backgroundStory.GetOr(p.backgroundStory)
    ensures r.usageInstructions == u.usageInstructions.GetOr(p.usageInstructions)
    ensures r.thumbnailUrl == u.thumbnailUrl.GetOr(p.thumbnailUrl)
    ensures r.bannerUrl == u.bannerUrl.GetOr(p.bannerUrl)
    ensures r.externalLink == u.externalLink.GetOr(p.externalLink)
    ensures u.tags.Some? ==> r.tags == u.tags
    ensures u.tags.None? ==> r.tags == p.tags
  {
    p.(title := u.title.GetOr(p.title),
       category := u.category.GetOr(p.category),
       shortDescription := u.shortDescription.GetOr(p.shortDescription),
       fullDescription := u.fullDescription.GetOr(p.fullDescription),
       backgroundStory := u.backgroundStory.GetOr(p.backgroundStory),
       usageInstructions := u.usageInstructions.GetOr(p.usageInstructions),
       thumbnailUrl := u.thumbnailUrl.GetOr(p.thumbnailUrl),
       bannerUrl := u.bannerUrl.GetOr(p.bannerUrl),
       externalLink := u.externalLink.GetOr(p.externalLink),
       tags := if u.tags.Some? then u.tags else p.tags)
  }

  const EmptyUpdate := ProjectUpdate(None, None, None, None, None, None, None, None, None, None)

  /** An update that provides nothing leaves the row as it was, and applying
      the same update twice is the same as applying it once. */
  lemma ApplyUpdateLaws(p: ProjectRow, u: ProjectUpdate)
    ensures ApplyUpdate(p, EmptyUpdate) == p
    ensures ApplyUpdate(ApplyUpdate(p, u), u) == ApplyUpdate(p, u)
  {
  }

  /** `PUT /projects/{id}`: rewrites only the target row. */
  function UpdateProject(db: Db, id: string, u: ProjectUpdate): (r: Result<Handled<ProjectResponse>>)
    ensures r.Err? <==> forall j :: 0 <= j < |db.projects| ==> db.projects[j].id != id
    ensures r.Err? ==> r.error == ProjectNotFound
    ensures r.Ok? ==> (r.value.db.comments == db.comments && r.value.db.likes == db.likes
      && r.value.db.discussions == db.discussions && r.value.db.replies == db.replies)
    ensures r.Ok? ==> |r.value.db.projects| == |db.projects|
    ensures forall i :: ProjectIndex(db, id) == Some(i) && r.Ok? ==>
      && r.value.db.projects[i] == ApplyUpdate(db.projects[i], u)
      && r.value.body == ProjectFromOrm(ApplyUpdate(db.projects[i], u))
      && forall j :: 0 <= j < |db.projects| && j != i ==> r.value.db.projects[j] == db.projects[j]
  {
    match ProjectIndex(db, id)
    case None => Err(ProjectNotFound)
    case Some(i) =>
      var p := ApplyUpdate(db.projects[i], u);
      Ok(Handled(db.(projects := db.projects[i := p]), ProjectFromOrm(p)))
  }

  const ProjectDeleted := "项目已删除"

  function NotCommentOn(projectId: string): CommentRow -> bool {
    (c: CommentRow) => c.projectId != projectId
  }

  /** `DELETE /projects/{id}`: the project goes, and its comments with it.
      Its like records stay behind: the like table has no cascade and
      SQLite does not enforce the foreign key by default. */
  function DeleteProject(db: Db, id: string): (r: Result<Handled<MessageResponse>>)
    ensures r.Err? <==> ProjectIndex(db, id).None?
    ensures r.Err? ==> r.error == ProjectNotFound
    ensures r.Ok? ==> r.value.body == MessageResponse(ProjectDeleted, true)
    ensures r.Ok? ==> (r.value.db.likes == db.likes
      && r.value.db.discussions == db.discussions && r.value.db.replies == db.replies)
    ensures r.Ok? ==> r.value.db.projects == Seqs.RemoveAt(db.projects, ProjectIndex(db, id).value)
    ensures r.Ok? ==> forall x :: x in r.value.db.comments <==> x in db.comments && x.projectId != id
  {
    match ProjectIndex(db, id)
    case None => Err(ProjectNotFound)
    case Some(i) =>
      var kept := Seqs.Filter(db.comments, NotCommentOn(id));
      assert forall x :: x in kept <==> x in db.comments && x.projectId != id by {
        forall x ensures x in kept <==> x in db.comments && x.projectId != id {
          Seqs.FilterMembership(db.comments, NotCommentOn(id), x);
        }
      }
      Ok(Handled(db.(projects := Seqs.RemoveAt(db.projects, i), comments := kept),
                 MessageResponse(ProjectDeleted, true)))
  }

  /** Deleting a project with its comments leaves every other project's
      comments and likes, and so its counters, as they were. */
  lemma DeleteProjectPreservesConsistency(db: Db, id: string)
    requires Consistent(db)
    ensures Consistent(After(db, DeleteProject(db, id)))
  {
    var r := DeleteProject(db, id);
    if r.Ok? {
      var i := ProjectIndex(db, id).value;
      var db' := r.value.db;
      assert db'.comments == Seqs.Filter(db.comments, NotCommentOn(id));
      Seqs.RemoveAtDistinct(db.projects, i, ProjectIdOf);
      Seqs.FilterDistinct(db.comments, NotCommentOn(id), CommentIdOf);
      forall j | 0 <= j < |db'.projects|
        ensures db'.projects[j].commentsCount == Seqs.Count(db'.comments, CommentOn(db'.projects[j].id))
        ensures db'.projects[j].likesCount == Seqs.Count(db'.likes, LikeOn(db'.projects[j].id))
      {
        var j' := if j < i then j else j + 1;
        assert db'.projects[j] == db.projects[j'];
        assert ProjectIdOf(db.projects[j']) != ProjectIdOf(db.projects[i]);
        Seqs.FilterFilter(db.comments, NotCommentOn(id), CommentOn(db.projects[j'].id));
      }
    }
  }

  // ==================== like toggle ====================

  /** `POST /projects/{id}/like`: with `isLiking`, add the (project, user)
      record and count it if it is missing; without, delete the record and
      uncount it, never below zero, if it is present. Only the target row's
      `likes_count` and the like table can change; the branch-by-branch
      effect is `ToggleLikeEffect`. */
  function ToggleLike(db: Db, projectId: string, isLiking: bool, userHeader: Option<string>): (r: Result<Handled<LikeResponse>>)
    ensures r.Err? <==> ProjectIndex(db, projectId).None?
    ensures r.Err? ==> r.error == ProjectNotFound
    ensures r.Ok? ==> r.value.body.isLiked == isLiking
    ensures r.Ok? ==> (r.value.db.comments == db.comments
      && r.value.db.discussions == db.discussions && r.value.db.replies == db.replies)
    ensures r.Ok? ==> |r.value.db.projects| == |db.projects|
    ensures forall i :: ProjectIndex(db, projectId) == Some(i) && r.Ok? ==>
      && (forall j :: 0 <= j < |db.projects| && j != i ==> r.value.db.projects[j] == db.projects[j])
      && r.value.db.projects[i] == db.projects[i].(likesCount := r.value.db.projects[i].likesCount)
      && r.value.body.newLikesCount == r.value.db.projects[i].likesCount
  {
    match ProjectIndex(db, projectId)
    case None => Err(ProjectNotFound)
    case Some(i) =>
      var p := db.projects[i];
      var user := userHeader.GetOr(AnonymousUser);
      match LikeIndex(db, projectId, user)
      case None =>
        if isLiking then
          var p' := p.(likesCount := p.likesCount + 1);
          Ok(Handled(db.(projects := db.projects[i := p'], likes := db.likes + [LikeRow(projectId, user)]),
                     LikeResponse(p'.likesCount, true)))
        else Ok(Handled(db, LikeResponse(p.likesCount, false)))
      case Some(k) =>
        if isLiking then Ok(Handled(db, LikeResponse(p.likesCount, true)))
        else
          var p' := p.(likesCount := Max(0, p.likesCount - 1));
          Ok(Handled(db.(projects := db.projects[i := p'], likes := Seqs.RemoveAt(db.likes, k)),
                     LikeResponse(p'.likesCount, false)))
  }

  /** What a successful toggle does to the like table and the counter, for
      each of its four cases. */
  lemma ToggleLikeEffect(db: Db, projectId: string, isLiking: bool, userHeader: Option<string>, i: nat)
    requires ProjectIndex(db, projectId) == Some(i)
    ensures var r := ToggleLike(db, projectId, isLiking, userHeader);
      var user := userHeader.GetOr(AnonymousUser);
      var before := db.projects[i].likesCount;
      && r.Ok?
      && (isLiking && LikeIndex(db, projectId, user).None? ==>
            r.value.db.likes == db.likes + [LikeRow(projectId, user)]
            && r.value.db.projects[i].likesCount == before + 1)
      && (!isLiking && LikeIndex(db, projectId, user).Some? ==>
            multiset(r.value.db.likes) + multiset{LikeRow(projectId, user)} == multiset(db.likes)
            && r.value.db.projects[i].likesCount == Max(0, before - 1))
      && (isLiking && LikeIndex(db, projectId, user).Some? ==> r.value.db == db)
      && (!isLiking && LikeIndex(db, projectId, user).None? ==> r.value.db == db)
  {
    var user := userHeader.GetOr(AnonymousUser);
    match LikeIndex(db, projectId, user)
    case None =>
    case Some(k) =>
      Seqs.RemoveAtMultiset(db.likes, k);
  }

  /** The database a request leaves behind: the committed one on success,
      the untouched one on an error. */
  function After<T>(db: Db, r: Result<Handled<T>>): Db {
    if r.Ok? then r.value.db else db
  }

  /** Repeating a like (or an unlike) by the same user changes nothing more:
      the second request finds the state the first one left. */
  lemma ToggleLikeIdempotent(db: Db, projectId: string, isLiking: bool, userHeader: Option<string>)
    requires UniqueLikes(db.likes)
    ensures var once := After(db, ToggleLike(db, projectId, isLiking, userHeader));
      After(once, ToggleLike(once, projectId, isLiking, userHeader)) == once
  {
    var user := userHeader.GetOr(AnonymousUser);
    var r := ToggleLike(db, projectId, isLiking, userHeader);
    if r.Ok? {
      var once := r.value.db;
      var i := ProjectIndex(db, projectId).value;
      assert once.projects[i].id == projectId;
      assert ProjectIndex(once, projectId).Some?;
      var k := LikeIndex(db, projectId, user);
      if isLiking && k.None? {
        assert LikeBy(projectId, user)(once.likes[|db.likes|]);
        assert LikeIndex(once, projectId, user).Some?;
      } else if !isLiking && k.Some? {
        forall j | 0 <= j < |once.likes|
          ensures !LikeBy(projectId, user)(once.likes[j])
        {
          if j < k.value {
            assert once.likes[j] == db.likes[j];
          } else {
            assert once.likes[j] == db.likes[j + 1];
            assert db.likes[j + 1] != db.likes[k.value];
          }
        }
      }
    }
  }

  /** A like followed by an unlike from a user who had not liked the project
      restores the database exactly. */
  lemma LikeThenUnlikeRestores(db: Db, projectId: string, userHeader: Option<string>)
    requires ProjectIndex(db, projectId).Some?
    requires db.projects[ProjectIndex(db, projectId).value].likesCount >= 0
    requires LikeIndex(db, projectId, userHeader.GetOr(AnonymousUser)).None?
    ensures var liked := After(db, ToggleLike(db, projectId, true, userHeader));
      After(liked, ToggleLike(liked, projectId, false, userHeader)) == db
  {
    var i := ProjectIndex(db, projectId).value;
    FirstLikeResult(db, projectId, userHeader, i);
    UnlikeAfterFirstLike(db, projectId, userHeader, i);
  }

  /** The unlike that follows a first like finds the appended row and takes
      it back out. */
  lemma UnlikeAfterFirstLike(db: Db, projectId: string, userHeader: Option<string>, i: nat)
    requires ProjectIndex(db, projectId) == Some(i) && db.projects[i].likesCount >= 0
    requires LikeIndex(db, projectId, userHeader.GetOr(AnonymousUser)).None?
    ensures var p := db.projects[i];
      var liked := db.(projects := db.projects[i := p.(likesCount := p.likesCount + 1)],
                       likes := db.likes + [LikeRow(projectId, userHeader.GetOr(AnonymousUser))]);
      After(liked, ToggleLike(liked, projectId, false, userHeader)) == db
  {
    var user := userHeader.GetOr(AnonymousUser);
    var row := LikeRow(projectId, user);
    var p := db.projects[i];
    var liked := db.(projects := db.projects[i := p.(likesCount := p.likesCount + 1)], likes := db.likes + [row]);
    LikedProjectIndex(db, projectId, user, i);
    LikedLikeIndex(db, projectId, user, i);
    UnlikeResult(liked, projectId, userHeader, i, |db.likes|);
    UnlikeUndoesLike(db, i, row);
  }

  /** Lowering the raised counter and dropping the appended row gives back
      the database, since a non-negative counter is not floored. */
  lemma UnlikeUndoesLike(db: Db, i: nat, row: LikeRow)
    requires i < |db.projects| && db.projects[i].likesCount >= 0
    ensures var p := db.projects[i];
      var liked := db.(projects := db.projects[i := p.(likesCount := p.likesCount + 1)], likes := db.likes + [row]);
      var q := liked.projects[i];
      liked.(projects := liked.projects[i := q.(likesCount := Max(0, q.likesCount - 1))],
             likes := Seqs.RemoveAt(liked.likes, |db.likes|)) == db
  {
    var p := db.projects[i];
    var liked := db.(projects := db.projects[i := p.(likesCount := p.likesCount + 1)], likes := db.likes + [row]);
    assert liked.projects[i := p] == db.projects;
    assert Seqs.RemoveAt(liked.likes, |db.likes|) == db.likes;
  }

  /** The database after a first like: the row appended and the counter up
      by one. */
  lemma FirstLikeResult(db: Db, projectId: string, userHeader: Option<string>, i: nat)
    requires ProjectIndex(db, projectId) == Some(i)
    requires LikeIndex(db, projectId, userHeader.GetOr(AnonymousUser)).None?
    ensures var p := db.projects[i];
      After(db, ToggleLike(db, projectId, true, userHeader))
        == db.(projects := db.projects[i := p.(likesCount := p.likesCount + 1)],
               likes := db.likes + [LikeRow(projectId, userHeader.GetOr(AnonymousUser))])
  {
  }

  /** The database after an unlike: the row at `k` removed and the counter
      down by one, floored at zero. */
  lemma UnlikeResult(db: Db, projectId: string, userHeader: Option<string>, i: nat, k: nat)
    requires ProjectIndex(db, projectId) == Some(i)
    requires LikeIndex(db, projectId, userHeader.GetOr(AnonymousUser)) == Some(k)
    ensures var p := db.projects[i];
      After(db, ToggleLike(db, projectId, false, userHeader))
        == db.(projects := db.projects[i := p.(likesCount := Max(0, p.likesCount - 1))],
               likes := Seqs.RemoveAt(db.likes, k))
  {
  }

  /** After a first like the project is found where it was. */
  lemma LikedProjectIndex(db: Db, projectId: string, user: string, i: nat)
    requires ProjectIndex(db, projectId) == Some(i)
    ensures var p := db.projects[i];
      var liked := db.(projects := db.projects[i := p.(likesCount := p.likesCount + 1)],
                       likes := db.likes + [LikeRow(projectId, user)]);
      ProjectIndex(liked, projectId) == Some(i)
  {
    var p := db.projects[i];
    var p' := p.(likesCount := p.likesCount + 1);
    var liked := db.(projects := db.projects[i := p'], likes := db.likes + [LikeRow(projectId, user)]);
    assert ProjectWithId(projectId)(p');
    Seqs.FirstIndexReplace(db.projects, i, p', ProjectWithId(projectId));
    assert ProjectIndex(liked, projectId) == Seqs.FirstIndex(db.projects[i := p'], ProjectWithId(projectId));
  }

  /** After a first like the new row is the user's only one, at the end of
      the like table. */
  lemma LikedLikeIndex(db: Db, projectId: string, user: string, i: nat)
    requires i < |db.projects| && LikeIndex(db, projectId, user).None?
    ensures var p := db.projects[i];
      var liked := db.(projects := db.projects[i := p.(likesCount := p.likesCount + 1)],
                       likes := db.likes + [LikeRow(projectId, user)]);
      LikeIndex(liked, projectId, user) == Some(|db.likes|)
  {
    var row := LikeRow(projectId, user);
    assert LikeBy(projectId, user)(row);
    Seqs.FirstIndexAppend(db.likes, row, LikeBy(projectId, user));
  }

  /** A like toggle never drives a non-negative counter below zero. */
  lemma ToggleLikeKeepsCountNonNegative(db: Db, projectId: string, isLiking: bool, userHeader: Option<string>)
    requires forall j :: 0 <= j < |db.projects| ==> db.projects[j].likesCount >= 0
    ensures var db' := After(db, ToggleLike(db, projectId, isLiking, userHeader));
      forall j :: 0 <= j < |db'.projects| ==> db'.projects[j].likesCount >= 0
  {
  }

  /** Each like record is counted once: toggling keeps every project's
      `likes_count` equal to its number of like records, and keeps at most
      one record per (project, user). */
  lemma ToggleLikePreservesConsistency(db: Db, projectId: string, isLiking: bool, userHeader: Option<string>)
    requires Consistent(db)
    ensures Consistent(After(db, ToggleLike(db, projectId, isLiking, userHeader)))
  {
    var user := userHeader.GetOr(AnonymousUser);
    if ProjectIndex(db, projectId).Some? {
      if isLiking && LikeIndex(db, projectId, user).None? {
        FirstLikeKeepsConsistency(db, projectId, userHeader);
      } else if !isLiking && LikeIndex(db, projectId, user).Some? {
        UnlikeKeepsConsistency(db, projectId, userHeader);
      }
    }
  }

  /** A first like appends the user's row and counts it on its project. */
  lemma FirstLikeKeepsConsistency(db: Db, projectId: string, userHeader: Option<string>)
    requires Consistent(db) && ProjectIndex(db, projectId).Some?
    requires LikeIndex(db, projectId, userHeader.GetOr(AnonymousUser)).None?
    ensures Consistent(After(db, ToggleLike(db, projectId, true, userHeader)))
  {
    var i := ProjectIndex(db, projectId).value;
    var row := LikeRow(projectId, userHeader.GetOr(AnonymousUser));
    FirstLikeResult(db, projectId, userHeader, i);
    AddLikeKeepsConsistency(db, i, row);
  }

  /** An unlike removes the user's row and uncounts it on its project; the
      counter was positive, so the floor at zero does not apply. */
  lemma UnlikeKeepsConsistency(db: Db, projectId: string, userHeader: Option<string>)
    requires Consistent(db) && ProjectIndex(db, projectId).Some?
    requires LikeIndex(db, projectId, userHeader.GetOr(AnonymousUser)).Some?
    ensures Consistent(After(db, ToggleLike(db, projectId, false, userHeader)))
  {
    var i := ProjectIndex(db, projectId).value;
    var k := LikeIndex(db, projectId, userHeader.GetOr(AnonymousUser)).value;
    UnlikeResult(db, projectId, userHeader, i, k);
    DropLikeKeepsConsistency(db, i, k);
  }

  /** Appending a new like row and raising its project's counter by one. */
  lemma AddLikeKeepsConsistency(db: Db, i: nat, row: LikeRow)
    requires Consistent(db) && i < |db.projects| && db.projects[i].id == row.projectId
    requires forall k :: 0 <= k < |db.likes| ==> db.likes[k] != row
    ensures var p := db.projects[i];
      Consistent(db.(projects := db.projects[i := p.(likesCount := p.likesCount + 1)], likes := db.likes + [row]))
  {
    var p := db.projects[i];
    var db' := db.(projects := db.projects[i := p.(likesCount := p.likesCount + 1)], likes := db.likes + [row]);
    assert forall j :: 0 <= j < |db.projects| ==> db'.projects[j].id == db.projects[j].id;
    forall j | 0 <= j < |db'.projects|
      ensures db'.projects[j].likesCount == Seqs.Count(db'.likes, LikeOn(db'.projects[j].id))
    {
      Seqs.CountAppend(db.likes, row, LikeOn(db.projects[j].id));
    }
  }

  /** Removing the like row at `k` and lowering its project's counter, floored
      at zero. */
  lemma DropLikeKeepsConsistency(db: Db, i: nat, k: nat)
    requires Consistent(db) && i < |db.projects| && k < |db.likes| && db.likes[k].projectId == db.projects[i].id
    ensures var p := db.projects[i];
      Consistent(db.(projects := db.projects[i := p.(likesCount := Max(0, p.likesCount - 1))],
                     likes := Seqs.RemoveAt(db.likes, k)))
  {
    var p := db.projects[i];
    var db' := db.(projects := db.projects[i := p.(likesCount := Max(0, p.likesCount - 1))],
                   likes := Seqs.RemoveAt(db.likes, k));
    assert forall j :: 0 <= j < |db.projects| ==> (db'.projects[j].id == db.projects[j].id
      && db'.projects[j].commentsCount == db.projects[j].commentsCount);
    Seqs.SameKeysDistinct(db.projects, db'.projects, ProjectIdOf);
    RemoveLikeKeepsUnique(db.likes, k);
    DropLikeKeepsCounts(db, i, k);
  }

  /** The like counters still agree once the row at `k` is gone and its
      project's counter is lowered: that counter was positive. */
  lemma DropLikeKeepsCounts(db: Db, i: nat, k: nat)
    requires UniqueProjectIds(db.projects) && LikeCountsAgree(db)
    requires i < |db.projects| && k < |db.likes| && db.likes[k].projectId == db.projects[i].id
    ensures var p := db.projects[i];
      LikeCountsAgree(db.(projects := db.projects[i := p.(likesCount := Max(0, p.likesCount - 1))],
                          likes := Seqs.RemoveAt(db.likes, k)))
  {
    var p := db.projects[i];
    var db' := db.(projects := db.projects[i := p.(likesCount := Max(0, p.likesCount - 1))],
                   likes := Seqs.RemoveAt(db.likes, k));
    assert forall j :: 0 <= j < |db.projects| ==> db'.projects[j].id == db.projects[j].id;
    Seqs.CountPositive(db.likes, k, LikeOn(p.id));
    forall j | 0 <= j < |db'.projects|
      ensures db'.projects[j].likesCount == Seqs.Count(db'.likes, LikeOn(db'.projects[j].id))
    {
      Seqs.CountRemoveAt(db.likes, k, LikeOn(db.projects[j].id));
      if j == i {
        assert p.likesCount == Seqs.Count(db.likes, LikeOn(p.id)) >= 1;
      }
    }
  }

  /** An update never touches ids or counters, so it keeps the database
      consistent. */
  lemma UpdateProjectPreservesConsistency(db: Db, id: string, u: ProjectUpdate)
    requires Consistent(db)
    ensures Consistent(After(db, UpdateProject(db, id, u)))
  {
    if ProjectIndex(db, id).Some? {
      var i := ProjectIndex(db, id).value;
      var p := ApplyUpdate(db.projects[i], u);
      assert After(db, UpdateProject(db, id, u)) == db.(projects := db.projects[i := p]);
      ReplaceProjectKeepsConsistency(db, i, p);
    }
  }

  /** Rewriting a project's other columns, with its id and counters kept. */
  lemma ReplaceProjectKeepsConsistency(db: Db, i: nat, p: ProjectRow)
    requires Consistent(db) && i < |db.projects|
    requires p.id == db.projects[i].id && p.likesCount == db.projects[i].likesCount
      && p.commentsCount == db.projects[i].commentsCount
    ensures Consistent(db.(projects := db.projects[i := p]))
  {
    var ps := db.projects[i := p];
    assert forall j :: 0 <= j < |ps| ==> (ps[j].id == db.projects[j].id
      && ps[j].likesCount == db.projects[j].likesCount && ps[j].commentsCount == db.projects[j].commentsCount);
  }
}

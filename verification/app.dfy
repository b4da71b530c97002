/** The page-level state of App.tsx: the project list, the comments posted
    in this session, the ids the visitor has liked, and the category tab.
    Each handler is one atomic transition taken after the server answered;
    a request that failed (`Err`) is the promise that rejected, and leaves
    the state untouched because every update follows the `await`. */
module App {
  import opened Wrappers
  import opened Schemas
  import Seqs
  import Api

  /** The tab that shows every project. */
  const AllTab := "All"

  datatype AppState = AppState(
    projects: seq<ProjectResponse>,
    commentsMap: map<string, seq<CommentResponse>>,
    likedProjectIds: seq<string>,
    filter: string)

  /** The page as it first renders: the bundled projects, no comments
      loaded, nothing liked, every category shown. */
  function Initial(projects: seq<ProjectResponse>): AppState {
    AppState(projects, map[], [], AllTab)
  }

  // ==================== filteredProjects ====================

  function OfCategory(c: string): ProjectResponse -> bool {
    (p: ProjectResponse) => p.category == c
  }

  /** The cards on show under the current tab. */
  function FilteredProjects(s: AppState): (r: seq<ProjectResponse>)
    ensures s.filter == AllTab ==> r == s.projects
    ensures forall p :: p in r <==> p in s.projects && (s.filter == AllTab || p.category == s.filter)
  {
    if s.filter == AllTab then s.projects
    else
      var r := Seqs.Filter(s.projects, OfCategory(s.filter));
      assert forall p :: p in r <==> p in s.projects && p.category == s.filter by {
        forall p {
          Seqs.FilterMembership(s.projects, OfCategory(s.filter), p);
        }
      }
      r
  }

  /** The filter keeps the order of the list: the cards of a concatenation
      are the cards of the first part followed by those of the second, and
      every card keeps its multiplicity. */
  lemma FilteredProjectsKeepOrder(s: AppState, a: seq<ProjectResponse>, b: seq<ProjectResponse>, p: ProjectResponse)
    requires s.projects == a + b
    ensures FilteredProjects(s) == FilteredProjects(s.(projects := a)) + FilteredProjects(s.(projects := b))
    ensures multiset(FilteredProjects(s))[p] ==
      if s.filter == AllTab || p.category == s.filter then multiset(s.projects)[p] else 0
  {
    if s.filter != AllTab {
      Seqs.FilterConcat(a, b, OfCategory(s.filter));
      Seqs.FilterMultiset(s.projects, OfCategory(s.filter), p);
    }
  }

  // ==================== handleLike ====================

  /** Whether a click on the heart asks the server to like (true) or to
      unlike (false): decided by the liked list as it was before the call. */
  predicate IsLiking(s: AppState, id: string) {
    id !in s.likedProjectIds
  }

  function NotId(id: string): string -> bool {
    (x: string) => x != id
  }

  /** Adds `delta` to the likes of every project with this id. */
  function BumpLikes(projects: seq<ProjectResponse>, id: string, delta: int): (r: seq<ProjectResponse>)
    ensures |r| == |projects|
    ensures forall i :: 0 <= i < |r| ==>
      r[i] == if projects[i].id == id then projects[i].(likesCount := projects[i].likesCount + delta) else projects[i]
  {
    seq(|projects|, i requires 0 <= i < |projects| =>
      if projects[i].id == id then projects[i].(likesCount := projects[i].likesCount + delta) else projects[i])
  }

  /** `handleLike(id)` once `ProjectAPI.toggleLike` has settled. The answer's
      body is not read: the local count moves by one, with no floor at
      zero, in the direction chosen before the request. */
  function HandleLike(s: AppState, id: string, response: Result<LikeResponse>): (r: AppState)
    ensures response.Err? ==> r == s
    ensures r.commentsMap == s.commentsMap && r.filter == s.filter
    ensures response.Ok? ==> (id in r.likedProjectIds <==> !(id in s.likedProjectIds))
    ensures forall x :: x != id ==> (x in r.likedProjectIds <==> x in s.likedProjectIds)
    ensures |r.projects| == |s.projects|
    ensures forall i :: 0 <= i < |s.projects| && s.projects[i].id != id ==> r.projects[i] == s.projects[i]
    ensures response.Ok? ==> forall i :: 0 <= i < |s.projects| && s.projects[i].id == id ==>
      r.projects[i] == s.projects[i].(likesCount := s.projects[i].likesCount + (if IsLiking(s, id) then 1 else -1))
  {
    if response.Err? then s
    else if IsLiking(s, id) then
      s.(likedProjectIds := s.likedProjectIds + [id], projects := BumpLikes(s.projects, id, 1))
    else
      var liked := Seqs.Filter(s.likedProjectIds, NotId(id));
      assert forall x :: x in liked <==> x in s.likedProjectIds && x != id by {
        forall x {
          Seqs.FilterMembership(s.likedProjectIds, NotId(id), x);
        }
      }
      s.(likedProjectIds := liked, projects := BumpLikes(s.projects, id, -1))
  }

  /** A click on the heart from start to finish: the `toggleLike` request,
      with `isLiking` the negation of the id's current membership and the
      identifier from `storage`, then the page once the request settled. The
      identifier is read (and perhaps created) before the request goes out,
      so the returned storage keeps it whatever the answer. */
  function SendLike(base: string, storage: Api.Storage, nowMs: nat, suffix: string, s: AppState, id: string,
                    response: Result<LikeResponse>): (r: (AppState, Api.ApiCall, Api.Storage))
    ensures r.1.verb == Api.Post && r.1.url == base + "/projects/" + id + "/like"
    ensures r.1.body == Api.LikeBody(id !in s.likedProjectIds)
    ensures r.1.userIdentifier.Some? && Api.Stored(r.2, Api.UserIdentifierKey) == r.1.userIdentifier
    ensures response.Err? ==> r.0 == s
    ensures response.Ok? ==> (id in r.0.likedProjectIds <==> r.1.body.isLiking)
    ensures |r.0.projects| == |s.projects|
    ensures response.Ok? ==> forall i :: 0 <= i < |s.projects| && s.projects[i].id == id ==>
      r.0.projects[i].likesCount == s.projects[i].likesCount + (if r.1.body.isLiking then 1 else -1)
  {
    var (call, storage') := Api.ToggleLikeCall(base, storage, nowMs, suffix, id, IsLiking(s, id));
    (HandleLike(s, id, response), call, storage')
  }

  /** Liking a project the visitor had not liked, then unliking it, gives
      back the very same page state: the liked list, in order, and every
      count. */
  lemma LikeThenUnlikeRestores(s: AppState, id: string, a: LikeResponse, b: LikeResponse)
    requires IsLiking(s, id)
    ensures HandleLike(HandleLike(s, id, Ok(a)), id, Ok(b)) == s
  {
    var s1 := HandleLike(s, id, Ok(a));
    assert !IsLiking(s1, id);
    Seqs.FilterConcat(s.likedProjectIds, [id], NotId(id));
    assert Seqs.Filter([id], NotId(id)) == [] + Seqs.Filter([], NotId(id));
    Seqs.FilterKeepsAll(s.likedProjectIds, NotId(id));
    var s2 := HandleLike(s1, id, Ok(b));
    assert s2.projects == s.projects;
  }

  /** Unliking then liking again restores which projects are liked and every
      count; only the liked id's place in the list may move to the end. */
  lemma UnlikeThenLikeRestoresCounts(s: AppState, id: string, a: LikeResponse, b: LikeResponse)
    requires !IsLiking(s, id)
    ensures var s2 := HandleLike(HandleLike(s, id, Ok(a)), id, Ok(b));
      && s2.projects == s.projects
      && (forall x :: x in s2.likedProjectIds <==> x in s.likedProjectIds)
  {
    var s1 := HandleLike(s, id, Ok(a));
    assert IsLiking(s1, id);
    var s2 := HandleLike(s1, id, Ok(b));
    assert s2.projects == s.projects;
  }

  // ==================== handleAddComment ====================

  /** The comments shown for a project (`commentsMap[id] || []`). */
  function CommentsOf(s: AppState, projectId: string): seq<CommentResponse> {
    if projectId in s.commentsMap then s.commentsMap[projectId] else []
  }

  /** `handleAddComment` once `ProjectAPI.postComment` has answered with the
      stored comment: it goes to the front of that project's list and the
      project's counter goes up by one. */
  function HandleAddComment(s: AppState, projectId: string, response: Result<CommentResponse>): (r: AppState)
    ensures response.Err? ==> r == s
    ensures r.likedProjectIds == s.likedProjectIds && r.filter == s.filter
    ensures response.Ok? ==> CommentsOf(r, projectId) == [response.value] + CommentsOf(s, projectId)
    ensures forall x :: x != projectId ==> CommentsOf(r, x) == CommentsOf(s, x)
    ensures |r.projects| == |s.projects|
    ensures forall i :: 0 <= i < |s.projects| && s.projects[i].id != projectId ==> r.projects[i] == s.projects[i]
    ensures response.Ok? ==> forall i :: 0 <= i < |s.projects| && s.projects[i].id == projectId ==>
      r.projects[i] == s.projects[i].(commentsCount := s.projects[i].commentsCount + 1)
    ensures forall i :: 0 <= i < |s.projects| ==> CommentLag(r, i) == CommentLag(s, i)
  {
    match response
    case Err(_) => s
    case Ok(c) =>
      var projects := seq(|s.projects|, i requires 0 <= i < |s.projects| =>
        if s.projects[i].id == projectId then s.projects[i].(commentsCount := s.projects[i].commentsCount + 1)
        else s.projects[i]);
      s.(commentsMap := s.commentsMap[projectId := [c] + CommentsOf(s, projectId)], projects := projects)
  }

  /** `handleAddComment(projectId, content, author)` from start to finish:
      the `postComment` request for that project, then the page once the
      answer arrived. A comment lands in that project's list exactly when
      the request succeeded. */
  function SendComment(base: string, s: AppState, projectId: string, content: string, author: string,
                       response: Result<CommentResponse>): (r: (AppState, Api.ApiCall))
    ensures r.1.verb == Api.Post && r.1.url == base + "/projects/" + projectId + "/comments"
    ensures r.1.body == Api.CommentBody(content, author) && r.1.userIdentifier.None?
    ensures |CommentsOf(r.0, projectId)| == |CommentsOf(s, projectId)| + (if response.Ok? then 1 else 0)
    ensures response.Err? ==> r.0 == s
  {
    (HandleAddComment(s, projectId, response), Api.PostCommentCall(base, projectId, content, author))
  }

  /** How far a project's counter runs ahead of the comments loaded for it
      in this session. The bundled counters count comments this page never
      loaded, so the two are not equal; posting keeps the gap. */
  function CommentLag(s: AppState, i: nat): int
    requires i < |s.projects|
  {
    s.projects[i].commentsCount - |CommentsOf(s, s.projects[i].id)|
  }
}

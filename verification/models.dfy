/** The database tables of the backend (backend/models.py) as an immutable
    record of sequences in scan order, together with the integrity facts the
    routers keep: primary keys are unique, and every denormalised counter
    equals the number of rows it summarises. */
module Models {
  import opened Wrappers
  import Seqs
  import Ordering

  /** An `isoformat()` rendering of a datetime is never empty. */
  type IsoText = s: string | s != [] witness "1970-01-01T00:00:00"

  /** A stored `DateTime`: its position in time and its `isoformat()` text. */
  datatype Instant = Instant(ticks: int, iso: IsoText)

  datatype ProjectRow = ProjectRow(
    id: string,
    title: string,
    category: string,
    shortDescription: string,
    fullDescription: string,
    backgroundStory: string,
    usageInstructions: string,
    thumbnailUrl: string,
    bannerUrl: string,
    externalLink: string,
    tags: Option<seq<string>>,
    likesCount: int,
    commentsCount: int,
    createdAt: Option<Instant>,
    updatedAt: Option<Instant>)

  datatype CommentRow = CommentRow(
    id: string,
    projectId: string,
    authorName: string,
    authorAvatar: Option<string>,
    content: string,
    createdAt: Option<Instant>)

  /** One row of the `likes` table: the pair that marks a user's like. */
  datatype LikeRow = LikeRow(projectId: string, userIdentifier: string)

  datatype DiscussionRow = DiscussionRow(
    id: string,
    title: string,
    content: string,
    category: string,
    authorName: string,
    authorAvatar: Option<string>,
    viewsCount: int,
    likesCount: int,
    repliesCount: int,
    isPinned: int,
    isClosed: int,
    createdAt: Option<Instant>,
    updatedAt: Option<Instant>,
    lastReplyAt: Option<Instant>)

  datatype ReplyRow = ReplyRow(
    id: string,
    discussionId: string,
    content: string,
    authorName: string,
    authorAvatar: Option<string>,
    likesCount: int,
    replyToId: Option<string>,
    createdAt: Option<Instant>)

  datatype Db = Db(
    projects: seq<ProjectRow>,
    comments: seq<CommentRow>,
    likes: seq<LikeRow>,
    discussions: seq<DiscussionRow>,
    replies: seq<ReplyRow>)

  /** A successful handler's committed database and its response body. */
  datatype Handled<T> = Handled(db: Db, body: T)

  // Row selectors, named so that every use denotes the same predicate.

  function ProjectWithId(id: string): ProjectRow -> bool {
    (p: ProjectRow) => p.id == id
  }

  function CommentOn(projectId: string): CommentRow -> bool {
    (c: CommentRow) => c.projectId == projectId
  }

  function LikeOn(projectId: string): LikeRow -> bool {
    (l: LikeRow) => l.projectId == projectId
  }

  function LikeBy(projectId: string, user: string): LikeRow -> bool {
    (l: LikeRow) => l.projectId == projectId && l.userIdentifier == user
  }

  function DiscussionWithId(id: string): DiscussionRow -> bool {
    (d: DiscussionRow) => d.id == id
  }

  function ReplyOn(discussionId: string): ReplyRow -> bool {
    (r: ReplyRow) => r.discussionId == discussionId
  }

  /** Sort key of a nullable timestamp column. */
  function TimeKey(t: Option<Instant>): Ordering.Key {
    match t
    case None => Ordering.Key(0, 0, 0)
    case Some(i) => Ordering.Key(0, 1, i.ticks)
  }

  // Primary keys.

  function ProjectIdOf(p: ProjectRow): string { p.id }
  function CommentIdOf(c: CommentRow): string { c.id }
  function DiscussionIdOf(d: DiscussionRow): string { d.id }
  function ReplyIdOf(r: ReplyRow): string { r.id }

  predicate UniqueProjectIds(ps: seq<ProjectRow>) {
    Seqs.DistinctBy(ps, ProjectIdOf)
  }

  predicate UniqueCommentIds(cs: seq<CommentRow>) {
    Seqs.DistinctBy(cs, CommentIdOf)
  }

  predicate UniqueDiscussionIds(ds: seq<DiscussionRow>) {
    Seqs.DistinctBy(ds, DiscussionIdOf)
  }

  predicate UniqueReplyIds(rs: seq<ReplyRow>) {
    Seqs.DistinctBy(rs, ReplyIdOf)
  }

  /** At most one like record per (project, user) pair. */
  ghost predicate UniqueLikes(ls: seq<LikeRow>) {
    forall i, j :: 0 <= i < j < |ls| ==> ls[i] != ls[j]
  }

  /** Deleting a like record keeps the records distinct. */
  lemma RemoveLikeKeepsUnique(ls: seq<LikeRow>, k: nat)
    requires UniqueLikes(ls) && k < |ls|
    ensures UniqueLikes(Seqs.RemoveAt(ls, k))
  {
    var rest := Seqs.RemoveAt(ls, k);
    forall a, b | 0 <= a < b < |rest|
      ensures rest[a] != rest[b]
    {
      var a' := if a < k then a else a + 1;
      var b' := if b < k then b else b + 1;
      assert rest[a] == ls[a'] && rest[b] == ls[b'];
    }
  }

  // Denormalised counters.

  ghost predicate CommentCountsAgree(db: Db) {
    forall i :: 0 <= i < |db.projects| ==>
      db.projects[i].commentsCount == Seqs.Count(db.comments, CommentOn(db.projects[i].id))
  }

  ghost predicate LikeCountsAgree(db: Db) {
    forall i :: 0 <= i < |db.projects| ==>
      db.projects[i].likesCount == Seqs.Count(db.likes, LikeOn(db.projects[i].id))
  }

  ghost predicate ReplyCountsAgree(db: Db) {
    forall i :: 0 <= i < |db.discussions| ==>
      db.discussions[i].repliesCount == Seqs.Count(db.replies, ReplyOn(db.discussions[i].id))
  }

  /** The integrity facts every router operation preserves. */
  ghost predicate Consistent(db: Db) {
    && UniqueProjectIds(db.projects)
    && UniqueCommentIds(db.comments)
    && UniqueDiscussionIds(db.discussions)
    && UniqueReplyIds(db.replies)
    && UniqueLikes(db.likes)
    && CommentCountsAgree(db)
    && LikeCountsAgree(db)
    && ReplyCountsAgree(db)
  }

  /** A freshly generated project id that no row refers to yet. */
  ghost predicate FreshProjectId(db: Db, id: string) {
    && (forall i :: 0 <= i < |db.projects| ==> db.projects[i].id != id)
    && (forall i :: 0 <= i < |db.comments| ==> db.comments[i].projectId != id)
    && (forall i :: 0 <= i < |db.likes| ==> db.likes[i].projectId != id)
  }

  ghost predicate FreshCommentId(db: Db, id: string) {
    forall i :: 0 <= i < |db.comments| ==> db.comments[i].id != id
  }

  /** A freshly generated discussion id that no row refers to yet. */
  ghost predicate FreshDiscussionId(db: Db, id: string) {
    && (forall i :: 0 <= i < |db.discussions| ==> db.discussions[i].id != id)
    && (forall i :: 0 <= i < |db.replies| ==> db.replies[i].discussionId != id)
  }

  ghost predicate FreshReplyId(db: Db, id: string) {
    forall i :: 0 <= i < |db.replies| ==> db.replies[i].id != id
  }

  /** A selector no row satisfies counts zero rows. */
  lemma CountNone<T>(xs: seq<T>, p: T -> bool)
    requires forall i :: 0 <= i < |xs| ==> !p(xs[i])
    ensures Seqs.Count(xs, p) == 0
  {
    if |Seqs.Filter(xs, p)| > 0 {
      var x := Seqs.Filter(xs, p)[0];
      Seqs.FilterMembership(xs, p, x);
    }
  }
}

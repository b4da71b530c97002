/** The request and response bodies of backend/schemas.py: request defaults,
    and the `from_orm_model` mappings from stored rows to responses with their
    avatar fallbacks, empty timestamps and flag-to-boolean conversion. */
module Schemas {
  import opened Wrappers
  import opened Models

  // Avatar URLs are built by plain string interpolation of the author name.

  const PicsumPrefix := "https://picsum.photos/seed/"
  const PicsumSuffix := "/100/100"
  const DicebearPrefix := "https://api.dicebear.com/7.x/avataaars/svg?seed="

  function PicsumAvatar(name: string): string {
    PicsumPrefix + name + PicsumSuffix
  }

  function DicebearAvatar(name: string): string {
    DicebearPrefix + name
  }

  /** The seed of a Picsum avatar URL, if `url` has that shape. */
  function PicsumSeed(url: string): (r: Option<string>)
    ensures r.Some? ==> PicsumAvatar(r.value) == url
  {
    var n := |PicsumPrefix|;
    var m := |PicsumSuffix|;
    if |url| >= n + m && url[..n] == PicsumPrefix && url[|url| - m..] == PicsumSuffix then
      assert url == url[..n] + url[n..|url| - m] + url[|url| - m..];
      Some(url[n..|url| - m])
    else None
  }

  /** The seed of a DiceBear avatar URL, if `url` has that shape. */
  function DicebearSeed(url: string): (r: Option<string>)
    ensures r.Some? ==> DicebearAvatar(r.value) == url
  {
    var n := |DicebearPrefix|;
    if |url| >= n && url[..n] == DicebearPrefix then
      assert url == url[..n] + url[n..];
      Some(url[n..])
    else None
  }

  /** The author name can be read back from a generated avatar, so different
      authors always get different avatars. */
  lemma AvatarSeedRoundTrip(name: string)
    ensures PicsumSeed(PicsumAvatar(name)) == Some(name)
    ensures DicebearSeed(DicebearAvatar(name)) == Some(name)
  {
    var u := PicsumAvatar(name);
    assert u[..|PicsumPrefix|] == PicsumPrefix;
    assert u[|u| - |PicsumSuffix|..] == PicsumSuffix;
    assert u[|PicsumPrefix|..|u| - |PicsumSuffix|] == name;
    var v := DicebearAvatar(name);
    assert v[..|DicebearPrefix|] == DicebearPrefix;
    assert v[|DicebearPrefix|..] == name;
  }

  /** Python's `stored or fallback` on a nullable string column. */
  function AvatarOr(stored: Option<string>, fallback: string): (r: string)
    ensures stored.Some? && stored.value != [] ==> r == stored.value
    ensures stored.None? || stored.value == [] ==> r == fallback
  {
    match stored
    case Some(s) => if s != [] then s else fallback
    case None => fallback
  }

  /** `t.isoformat() if t else ""`. */
  function IsoOrEmpty(t: Option<Instant>): (r: string)
    ensures r == [] <==> t.None?
    ensures t.Some? ==> r == t.value.iso
  {
    match t
    case Some(i) => i.iso
    case None => ""
  }

  /** Python's `bool(flag)` on an integer column. */
  function Flag(n: int): (b: bool)
    ensures b <==> n != 0
  {
    n != 0
  }

  // ==================== responses ====================

  datatype ProjectResponse = ProjectResponse(
    id: string,
    title: string,
    category: string,
    shortDescription: string,
    fullDescription: string,
    backgroundStory: string,
    usageInstructions: string,
    thumbnailUrl: string,
    bannerUrl: string,
    externalLink: string,
    tags: seq<string>,
    likesCount: int,
    commentsCount: int,
    createdAt: string,
    updatedAt: string)

  datatype CommentResponse = CommentResponse(
    id: string,
    projectId: string,
    authorName: string,
    authorAvatar: string,
    content: string,
    createdAt: string)

  datatype DiscussionResponse = DiscussionResponse(
    id: string,
    title: string,
    content: string,
    category: string,
    authorName: string,
    authorAvatar: string,
    viewsCount: int,
    likesCount: int,
    repliesCount: int,
    isPinned: bool,
    isClosed: bool,
    createdAt: string,
    updatedAt: string,
    lastReplyAt: string)

  datatype ReplyResponse = ReplyResponse(
    id: string,
    discussionId: string,
    content: string,
    authorName: string,
    authorAvatar: string,
    likesCount: int,
    replyToId: Option<string>,
    createdAt: string)

  datatype LikeResponse = LikeResponse(newLikesCount: int, isLiked: bool)

  datatype MessageResponse = MessageResponse(message: string, success: bool)

  function ProjectFromOrm(p: ProjectRow): (r: ProjectResponse)
    ensures r.id == p.id && r.category == p.category
    ensures r.tags == (if p.tags.Some? then p.tags.value else [])
    ensures r.likesCount == p.likesCount && r.commentsCount == p.commentsCount
    ensures r.title == p.title && r.shortDescription == p.shortDescription
      && r.fullDescription == p.fullDescription && r.backgroundStory == p.backgroundStory
      && r.usageInstructions == p.usageInstructions && r.thumbnailUrl == p.thumbnailUrl
      && r.bannerUrl == p.bannerUrl && r.externalLink == p.externalLink
    ensures r.createdAt == [] <==> p.createdAt.None?
    ensures r.updatedAt == [] <==> p.updatedAt.None?
    ensures p.createdAt.Some? ==> r.createdAt == p.createdAt.value.iso
    ensures p.updatedAt.Some? ==> r.updatedAt == p.updatedAt.value.iso
  {
    ProjectResponse(
      p.id, p.title, p.category, p.shortDescription, p.fullDescription,
      p.backgroundStory, p.usageInstructions, p.thumbnailUrl, p.bannerUrl,
      p.externalLink,
      match p.tags case Some(t) => t case None => [],
      p.likesCount, p.commentsCount,
      IsoOrEmpty(p.createdAt), IsoOrEmpty(p.updatedAt))
  }

  function CommentFromOrm(c: CommentRow): (r: CommentResponse)
    ensures r.id == c.id && r.projectId == c.projectId
    ensures r.authorName == c.authorName && r.content == c.content
    ensures r.authorAvatar != []
    ensures c.authorAvatar.Some? && c.authorAvatar.value != [] ==> r.authorAvatar == c.authorAvatar.value
    ensures c.authorAvatar.None? || c.authorAvatar.value == [] ==> PicsumSeed(r.authorAvatar) == Some(c.authorName)
    ensures r.createdAt == [] <==> c.createdAt.None?
    ensures c.createdAt.Some? ==> r.createdAt == c.createdAt.value.iso
  {
    AvatarSeedRoundTrip(c.authorName);
    CommentResponse(
      c.id, c.projectId, c.authorName,
      AvatarOr(c.authorAvatar, PicsumAvatar(c.authorName)),
      c.content, IsoOrEmpty(c.createdAt))
  }

  function DiscussionFromOrm(d: DiscussionRow): (r: DiscussionResponse)
    ensures r.id == d.id && r.category == d.category
    ensures r.title == d.title && r.content == d.content && r.authorName == d.authorName
    ensures r.viewsCount == d.viewsCount && r.likesCount == d.likesCount
    ensures r.repliesCount == d.repliesCount
    ensures r.isPinned <==> d.isPinned != 0
    ensures r.isClosed <==> d.isClosed != 0
    ensures r.authorAvatar != []
    ensures d.authorAvatar.Some? && d.authorAvatar.value != [] ==> r.authorAvatar == d.authorAvatar.value
    ensures d.authorAvatar.None? || d.authorAvatar.value == [] ==> DicebearSeed(r.authorAvatar) == Some(d.authorName)
    ensures r.createdAt == [] <==> d.createdAt.None?
    ensures r.updatedAt == [] <==> d.updatedAt.None?
    ensures r.lastReplyAt == [] <==> d.lastReplyAt.None?
    ensures d.createdAt.Some? ==> r.createdAt == d.createdAt.value.iso
    ensures d.updatedAt.Some? ==> r.updatedAt == d.updatedAt.value.iso
    ensures d.lastReplyAt.Some? ==> r.lastReplyAt == d.lastReplyAt.value.iso
  {
    AvatarSeedRoundTrip(d.authorName);
    DiscussionResponse(
      d.id, d.title, d.content, d.category, d.authorName,
      AvatarOr(d.authorAvatar, DicebearAvatar(d.authorName)),
      d.viewsCount, d.likesCount, d.repliesCount,
      Flag(d.isPinned), Flag(d.isClosed),
      IsoOrEmpty(d.createdAt), IsoOrEmpty(d.updatedAt), IsoOrEmpty(d.lastReplyAt))
  }

  function ReplyFromOrm(r: ReplyRow): (x: ReplyResponse)
    ensures x.id == r.id && x.discussionId == r.discussionId
    ensures x.content == r.content && x.authorName == r.authorName
    ensures x.likesCount == r.likesCount && x.replyToId == r.replyToId
    ensures x.authorAvatar != []
    ensures r.authorAvatar.Some? && r.authorAvatar.value != [] ==> x.authorAvatar == r.authorAvatar.value
    ensures r.authorAvatar.None? || r.authorAvatar.value == [] ==> DicebearSeed(x.authorAvatar) == Some(r.authorName)
    ensures x.createdAt == [] <==> r.createdAt.None?
    ensures r.createdAt.Some? ==> x.createdAt == r.createdAt.value.iso
  {
    AvatarSeedRoundTrip(r.authorName);
    ReplyResponse(
      r.id, r.discussionId, r.content, r.authorName,
      AvatarOr(r.authorAvatar, DicebearAvatar(r.authorName)),
      r.likesCount, r.replyToId, IsoOrEmpty(r.createdAt))
  }

  // ==================== request bodies ====================

  const DefaultProjectCategory := "Other"
  const DefaultCommentAuthor := "匿名访客"
  const DefaultDiscussionCategory := "general"
  const DefaultForumAuthor := "匿名用户"

  datatype ProjectCreate = ProjectCreate(
    title: string,
    category: string,
    shortDescription: string,
    fullDescription: string,
    backgroundStory: string,
    usageInstructions: string,
    thumbnailUrl: string,
    bannerUrl: string,
    externalLink: string,
    tags: seq<string>)

  /** A project-creation body with the optional `category` and `tags` keys
      filled in by their defaults when absent. */
  function ProjectCreateOf(
    title: string, category: Option<string>, shortDescription: string,
    fullDescription: string, backgroundStory: string, usageInstructions: string,
    thumbnailUrl: string, bannerUrl: string, externalLink: string,
    tags: Option<seq<string>>): (r: ProjectCreate)
    ensures category.None? ==> r.category == DefaultProjectCategory
    ensures category.Some? ==> r.category == category.value
    ensures tags.None? ==> r.tags == []
    ensures tags.Some? ==> r.tags == tags.value
  {
    ProjectCreate(title, category.GetOr(DefaultProjectCategory), shortDescription,
      fullDescription, backgroundStory, usageInstructions, thumbnailUrl, bannerUrl,
      externalLink, tags.GetOr([]))
  }

  /** A partial update: `None` stands for a key left out or sent as null. */
  datatype ProjectUpdate = ProjectUpdate(
    title: Option<string>,
    category: Option<string>,
    shortDescription: Option<string>,
    fullDescription: Option<string>,
    backgroundStory: Option<string>,
    usageInstructions: Option<string>,
    thumbnailUrl: Option<string>,
    bannerUrl: Option<string>,
    externalLink: Option<string>,
    tags: Option<seq<string>>)

  datatype CommentCreate = CommentCreate(content: string, authorName: string)

  /** A comment body; the `author` key defaults to the anonymous visitor. */
  function CommentCreateOf(content: string, author: Option<string>): (r: CommentCreate)
    ensures r.content == content
    ensures author.None? ==> r.authorName == DefaultCommentAuthor
    ensures author.Some? ==> r.authorName == author.value
  {
    CommentCreate(content, author.GetOr(DefaultCommentAuthor))
  }

  datatype DiscussionCreate = DiscussionCreate(
    title: string, content: string, category: string, authorName: string)

  /** A discussion body; `category` defaults to "general" and `authorName` to
      the anonymous user. */
  function DiscussionCreateOf(
    title: string, content: string, category: Option<string>,
    authorName: Option<string>): (r: DiscussionCreate)
    ensures r.title == title && r.content == content
    ensures category.None? ==> r.category == DefaultDiscussionCategory
    ensures category.Some? ==> r.category == category.value
    ensures authorName.None? ==> r.authorName == DefaultForumAuthor
    ensures authorName.Some? ==> r.authorName == authorName.value
  {
    DiscussionCreate(title, content, category.GetOr(DefaultDiscussionCategory),
      authorName.GetOr(DefaultForumAuthor))
  }

  datatype ReplyCreate = ReplyCreate(
    content: string, authorName: string, replyToId: Option<string>)

  /** A reply body; `authorName` defaults to the anonymous user and an absent
      `replyToId` is None. */
  function ReplyCreateOf(
    content: string, authorName: Option<string>,
    replyToId: Option<string>): (r: ReplyCreate)
    ensures r.content == content
    ensures authorName.None? ==> r.authorName == DefaultForumAuthor
    ensures authorName.Some? ==> r.authorName == authorName.value
    ensures replyToId.None? ==> r.replyToId.None?
  {
    ReplyCreate(content, authorName.GetOr(DefaultForumAuthor), replyToId)
  }
}

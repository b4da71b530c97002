/** The forum routes of backend/routers/discussions.py: the paginated
    discussion list (category filter, pinned-first ordering by the chosen
    sort, offset and limit), the view and like counters, creation and
    cascading deletion of discussions, replies with the closed-discussion
    guard, reply likes and the statistics overview. */
module DiscussionsRouter {
  import opened Wrappers
  import opened Models
  import opened Schemas
  import Seqs
  import Ordering
  import opened ProjectsRouter

  const DiscussionNotFound := HttpError(NotFound, "讨论不存在")
  const ReplyNotFound := HttpError(NotFound, "回复不存在")
  const DiscussionClosed := HttpError(BadRequest, "该讨论已关闭，无法回复")
  /** FastAPI's rejection of a query parameter outside its declared bounds;
      the body lists the failed constraints and is not modelled. */
  const InvalidQuery := HttpError(Unprocessable, "")
  const DiscussionDeleted := "讨论已删除"

  const DefaultSort := "latest"
  const DefaultDiscussionLimit := 20
  const MaxDiscussionLimit := 100
  const DefaultReplyLimit := 50
  const MaxReplyLimit := 200

  /** The four categories the statistics overview counts. */
  const StatCategories := ["general", "tech", "idea", "help"]

  function DiscussionIndex(db: Db, id: string): Option<nat> {
    Seqs.FirstIndex(db.discussions, DiscussionWithId(id))
  }

  function DiscussionInCategory(c: string): DiscussionRow -> bool {
    (d: DiscussionRow) => d.category == c
  }

  function NotReplyOn(discussionId: string): ReplyRow -> bool {
    (r: ReplyRow) => r.discussionId != discussionId
  }

  function ReplyOfDiscussion(replyId: string, discussionId: string): ReplyRow -> bool {
    (r: ReplyRow) => r.id == replyId && r.discussionId == discussionId
  }

  // ==================== query parameters ====================

  /** A `limit` query parameter: the default when absent, rejected outside
      `1..max`. */
  function LimitParam(v: Option<int>, default: nat, max: nat): (r: Option<nat>)
    ensures v.None? ==> r == Some(default)
    ensures v.Some? ==> (r.Some? <==> 1 <= v.value <= max)
    ensures v.Some? && r.Some? ==> r.value == v.value
  {
    match v
    case None => Some(default)
    case Some(n) => if 1 <= n <= max then Some(n) else None
  }

  /** An `offset` query parameter: 0 when absent, rejected when negative. */
  function OffsetParam(v: Option<int>): (r: Option<nat>)
    ensures v.None? ==> r == Some(0)
    ensures v.Some? ==> (r.Some? <==> v.value >= 0)
    ensures v.Some? && r.Some? ==> r.value == v.value
  {
    match v
    case None => Some(0)
    case Some(n) => if n >= 0 then Some(n) else None
  }

  // ==================== listing ====================

  /** `if category:` filters only on a non-empty category. */
  predicate FiltersDiscussionCategory(category: Option<string>) {
    category.Some? && category.value != []
  }

  /** Pinned flag first, then a nullable timestamp with NULL last. */
  function PinnedTimeKey(isPinned: int, t: Option<Instant>): Ordering.Key {
    Ordering.Key(isPinned, TimeKey(t).present, TimeKey(t).minor)
  }

  /** The `ORDER BY` of each sort: `popular` by likes, `active` by last
      reply, anything else by creation time, all after the pinned flag. */
  function DiscussionKey(sort: string): DiscussionRow -> Ordering.Key {
    if sort == "popular" then (d: DiscussionRow) => Ordering.Key(d.isPinned, 1, d.likesCount)
    else if sort == "active" then (d: DiscussionRow) => PinnedTimeKey(d.isPinned, d.lastReplyAt)
    else (d: DiscussionRow) => PinnedTimeKey(d.isPinned, d.createdAt)
  }

  /** `a` may precede `b` under a descending order of a nullable timestamp:
      NULL comes after every value. */
  predicate LaterOrNull(a: Option<Instant>, b: Option<Instant>) {
    b.None? || (a.Some? && a.value.ticks >= b.value.ticks)
  }

  /** The secondary order of each sort among equally pinned discussions. */
  predicate SortedBefore(sort: string, a: DiscussionRow, b: DiscussionRow) {
    if sort == "popular" then a.likesCount >= b.likesCount
    else if sort == "active" then LaterOrNull(a.lastReplyAt, b.lastReplyAt)
    else LaterOrNull(a.createdAt, b.createdAt)
  }

  /** The selected discussions in query order, before `OFFSET`/`LIMIT`. */
  function OrderedDiscussions(db: Db, category: Option<string>, sort: string): (r: seq<DiscussionRow>)
    ensures Ordering.SortedDesc(r, DiscussionKey(sort))
    ensures FiltersDiscussionCategory(category) ==>
      multiset(r) == multiset(Seqs.Filter(db.discussions, DiscussionInCategory(category.value)))
    ensures !FiltersDiscussionCategory(category) ==> multiset(r) == multiset(db.discussions)
  {
    var rows := if FiltersDiscussionCategory(category)
                then Seqs.Filter(db.discussions, DiscussionInCategory(category.value))
                else db.discussions;
    Ordering.SortDescSpec(rows, DiscussionKey(sort));
    Ordering.SortDesc(rows, DiscussionKey(sort))
  }

  /** The rows of one page of the discussion list. */
  function DiscussionPage(db: Db, category: Option<string>, sort: string, offset: nat, limit: nat): seq<DiscussionRow> {
    Seqs.Window(OrderedDiscussions(db, category, sort), offset, limit)
  }

  /** Every listed discussion is of the requested category, and the page
      has `limit` rows unless the selection runs out after `offset`. */
  lemma DiscussionPageContents(db: Db, category: Option<string>, sort: string, offset: nat, limit: nat)
    ensures var page := DiscussionPage(db, category, sort, offset, limit);
      var n := if FiltersDiscussionCategory(category)
               then Seqs.Count(db.discussions, DiscussionInCategory(category.value))
               else |db.discussions|;
      && |page| == (if offset >= n then 0 else Seqs.Min(limit, n - offset))
      && (forall i :: 0 <= i < |page| ==> page[i] in db.discussions)
      && (FiltersDiscussionCategory(category) ==>
            forall i :: 0 <= i < |page| ==> page[i].category == category.value)
  {
    var rows := OrderedDiscussions(db, category, sort);
    var page := DiscussionPage(db, category, sort, offset, limit);
    assert |rows| == |multiset(rows)|;
    forall i | 0 <= i < |page|
      ensures page[i] in db.discussions
      ensures FiltersDiscussionCategory(category) ==> page[i].category == category.value
    {
      assert page[i] == rows[offset + i];
      assert rows[offset + i] in multiset(rows);
      if FiltersDiscussionCategory(category) {
        var f := Seqs.Filter(db.discussions, DiscussionInCategory(category.value));
        assert page[i] in f;
        Seqs.FilterMembership(db.discussions, DiscussionInCategory(category.value), page[i]);
      }
    }
  }

  /** Pinned discussions come first; among equally pinned ones the page
      follows the sort's own order. */
  lemma DiscussionPageOrder(db: Db, category: Option<string>, sort: string, offset: nat, limit: nat)
    ensures var page := DiscussionPage(db, category, sort, offset, limit);
      forall i, j :: 0 <= i < j < |page| ==>
        page[i].isPinned > page[j].isPinned
        || (page[i].isPinned == page[j].isPinned && SortedBefore(sort, page[i], page[j]))
  {
    var rows := OrderedDiscussions(db, category, sort);
    var page := DiscussionPage(db, category, sort, offset, limit);
    forall i, j | 0 <= i < j < |page|
      ensures page[i].isPinned > page[j].isPinned
        || (page[i].isPinned == page[j].isPinned && SortedBefore(sort, page[i], page[j]))
    {
      assert page[i] == rows[offset + i] && page[j] == rows[offset + j];
      assert Ordering.AtLeast(DiscussionKey(sort)(rows[offset + i]), DiscussionKey(sort)(rows[offset + j]));
    }
  }

  /** A discussion of the selection is on some page: the first page of
      every row holds exactly the selected discussions. */
  lemma DiscussionListComplete(db: Db, category: Option<string>, sort: string, d: DiscussionRow)
    ensures d in DiscussionPage(db, category, sort, 0, |db.discussions|) <==>
      d in db.discussions && (FiltersDiscussionCategory(category) ==> d.category == category.value)
  {
    var rows := OrderedDiscussions(db, category, sort);
    assert |rows| == |multiset(rows)|;
    assert DiscussionPage(db, category, sort, 0, |db.discussions|) == rows;
    assert d in rows <==> d in multiset(rows);
    if FiltersDiscussionCategory(category) {
      var f := Seqs.Filter(db.discussions, DiscussionInCategory(category.value));
      Seqs.FilterMembership(db.discussions, DiscussionInCategory(category.value), d);
      assert d in f <==> d in multiset(f);
    } else {
      assert d in db.discussions <==> d in multiset(db.discussions);
    }
  }

  /** Consecutive pages follow on from one another without gaps or
      overlaps. */
  lemma DiscussionPagesTile(db: Db, category: Option<string>, sort: string, offset: nat, a: nat, b: nat)
    ensures DiscussionPage(db, category, sort, offset, a) + DiscussionPage(db, category, sort, offset + a, b)
      == DiscussionPage(db, category, sort, offset, a + b)
  {
    Seqs.WindowsTile(OrderedDiscussions(db, category, sort), offset, a, b);
  }

  /** `GET /discussions`. */
  function GetDiscussions(db: Db, category: Option<string>, sort: Option<string>, limit: Option<int>, offset: Option<int>): (r: Result<seq<DiscussionResponse>>)
    ensures r.Err? <==> LimitParam(limit, DefaultDiscussionLimit, MaxDiscussionLimit).None? || OffsetParam(offset).None?
    ensures r.Err? ==> r.error == InvalidQuery
    ensures r.Ok? ==> |r.value| <= LimitParam(limit, DefaultDiscussionLimit, MaxDiscussionLimit).value
    ensures r.Ok? ==>
      var page := DiscussionPage(db, category, sort.GetOr(DefaultSort),
        OffsetParam(offset).value, LimitParam(limit, DefaultDiscussionLimit, MaxDiscussionLimit).value);
      |r.value| == |page| && forall i :: 0 <= i < |r.value| ==> r.value[i] == DiscussionFromOrm(page[i])
  {
    match (LimitParam(limit, DefaultDiscussionLimit, MaxDiscussionLimit), OffsetParam(offset))
    case (Some(l), Some(o)) =>
      var page := DiscussionPage(db, category, sort.GetOr(DefaultSort), o, l);
      Ok(seq(|page|, i requires 0 <= i < |page| => DiscussionFromOrm(page[i])))
    case _ => Err(InvalidQuery)
  }

  // ==================== single discussion ====================

  /** `GET /discussions/{id}`: every successful read counts one view. */
  function GetDiscussion(db: Db, id: string): (r: Result<Handled<DiscussionResponse>>)
    ensures r.Err? <==> DiscussionIndex(db, id).None?
    ensures r.Err? ==> r.error == DiscussionNotFound
    ensures r.Ok? ==> (r.value.db.projects == db.projects && r.value.db.comments == db.comments
      && r.value.db.likes == db.likes && r.value.db.replies == db.replies)
    ensures r.Ok? ==> |r.value.db.discussions| == |db.discussions|
    ensures forall i :: DiscussionIndex(db, id) == Some(i) && r.Ok? ==>
      && r.value.db.discussions[i] == db.discussions[i].(viewsCount := db.discussions[i].viewsCount + 1)
      && r.value.body.viewsCount == db.discussions[i].viewsCount + 1
      && r.value.body.id == id
      && forall j :: 0 <= j < |db.discussions| && j != i ==> r.value.db.discussions[j] == db.discussions[j]
  {
    match DiscussionIndex(db, id)
    case None => Err(DiscussionNotFound)
    case Some(i) =>
      var d := db.discussions[i].(viewsCount := db.discussions[i].viewsCount + 1);
      Ok(Handled(db.(discussions := db.discussions[i := d]), DiscussionFromOrm(d)))
  }

  /** `POST /discussions`: a new discussion with no views, likes or replies,
      neither pinned nor closed, its three timestamps all the creation time
      and a DiceBear avatar seeded by the author. */
  function CreateDiscussion(db: Db, data: DiscussionCreate, freshId: string, now: Instant): (r: Handled<DiscussionResponse>)
    ensures |r.db.discussions| == |db.discussions| + 1 && r.db.discussions[..|db.discussions|] == db.discussions
    ensures r.db.projects == db.projects && r.db.comments == db.comments
    ensures r.db.likes == db.likes && r.db.replies == db.replies
    ensures r.body.id == freshId && r.body.title == data.title && r.body.content == data.content
    ensures r.body.category == data.category && r.body.authorName == data.authorName
    ensures DicebearSeed(r.body.authorAvatar) == Some(data.authorName)
    ensures r.body.viewsCount == 0 && r.body.likesCount == 0 && r.body.repliesCount == 0
    ensures !r.body.isPinned && !r.body.isClosed
    ensures r.body.createdAt == now.iso && r.body.lastReplyAt == now.iso
    ensures r.db.discussions == db.discussions + [DiscussionRow(
      freshId, data.title, data.content, data.category, data.authorName,
      Some(DicebearAvatar(data.authorName)), 0, 0, 0, 0, 0, Some(now), Some(now), Some(now))]
    ensures r.body == DiscussionFromOrm(r.db.discussions[|db.discussions|])
  {
    var row := DiscussionRow(
      freshId, data.title, data.content, data.category, data.authorName,
      Some(DicebearAvatar(data.authorName)), 0, 0, 0, 0, 0, Some(now), Some(now), Some(now));
    AvatarSeedRoundTrip(data.authorName);
    Handled(db.(discussions := db.discussions + [row]), DiscussionFromOrm(row))
  }

  /** `POST /discussions/{id}/like`: one more like on every call, with no
      record of who liked; the body is the new count. */
  function LikeDiscussion(db: Db, id: string): (r: Result<Handled<int>>)
    ensures r.Err? <==> DiscussionIndex(db, id).None?
    ensures r.Err? ==> r.error == DiscussionNotFound
    ensures r.Ok? ==> (r.value.db.projects == db.projects && r.value.db.comments == db.comments
      && r.value.db.likes == db.likes && r.value.db.replies == db.replies)
    ensures r.Ok? ==> |r.value.db.discussions| == |db.discussions|
    ensures forall i :: DiscussionIndex(db, id) == Some(i) && r.Ok? ==>
      && r.value.db.discussions[i] == db.discussions[i].(likesCount := db.discussions[i].likesCount + 1)
      && r.value.body == db.discussions[i].likesCount + 1
      && forall j :: 0 <= j < |db.discussions| && j != i ==> r.value.db.discussions[j] == db.discussions[j]
  {
    match DiscussionIndex(db, id)
    case None => Err(DiscussionNotFound)
    case Some(i) =>
      var d := db.discussions[i].(likesCount := db.discussions[i].likesCount + 1);
      Ok(Handled(db.(discussions := db.discussions[i := d]), d.likesCount))
  }

  /** The view and like counters only go up: two reads add two views, two
      likes add two likes, and the second like reports one more than the
      first. */
  lemma CountersAccumulate(db: Db, id: string)
    requires DiscussionIndex(db, id).Some?
    ensures var i := DiscussionIndex(db, id).value;
      var viewed := GetDiscussion(GetDiscussion(db, id).value.db, id).value.db;
      viewed.discussions[i].viewsCount == db.discussions[i].viewsCount + 2
    ensures var i := DiscussionIndex(db, id).value;
      var once := LikeDiscussion(db, id).value;
      var twice := LikeDiscussion(once.db, id).value;
      twice.db.discussions[i].likesCount == db.discussions[i].likesCount + 2
      && twice.body == once.body + 1
  {
    var i := DiscussionIndex(db, id).value;
    var v := GetDiscussion(db, id).value.db;
    assert DiscussionIndex(v, id) == Some(i) by {
      assert forall j :: 0 <= j < |db.discussions| && j != i ==> v.discussions[j] == db.discussions[j];
    }
    var l := LikeDiscussion(db, id).value.db;
    assert DiscussionIndex(l, id) == Some(i) by {
      assert forall j :: 0 <= j < |db.discussions| && j != i ==> l.discussions[j] == db.discussions[j];
    }
  }

  /** `DELETE /discussions/{id}`: the discussion goes, and its replies with
      it. */
  function DeleteDiscussion(db: Db, id: string): (r: Result<Handled<MessageResponse>>)
    ensures r.Err? <==> DiscussionIndex(db, id).None?
    ensures r.Err? ==> r.error == DiscussionNotFound
    ensures r.Ok? ==> r.value.body == MessageResponse(DiscussionDeleted, true)
    ensures r.Ok? ==> (r.value.db.projects == db.projects && r.value.db.comments == db.comments
      && r.value.db.likes == db.likes)
    ensures r.Ok? ==> r.value.db.discussions == Seqs.RemoveAt(db.discussions, DiscussionIndex(db, id).value)
    ensures r.Ok? ==> forall x :: x in r.value.db.replies <==> x in db.replies && x.discussionId != id
  {
    match DiscussionIndex(db, id)
    case None => Err(DiscussionNotFound)
    case Some(i) =>
      var kept := Seqs.Filter(db.replies, NotReplyOn(id));
      assert forall x :: x in kept <==> x in db.replies && x.discussionId != id by {
        forall x ensures x in kept <==> x in db.replies && x.discussionId != id {
          Seqs.FilterMembership(db.replies, NotReplyOn(id), x);
        }
      }
      Ok(Handled(db.(discussions := Seqs.RemoveAt(db.discussions, i), replies := kept),
                 MessageResponse(DiscussionDeleted, true)))
  }

  // ==================== replies ====================

  const RepliesOldestFirst: ReplyRow -> Ordering.Key := (r: ReplyRow) => Ordering.Reverse(TimeKey(r.createdAt))

  /** `a` may precede `b` in ascending creation order, NULL first. */
  predicate EarlierOrNull(a: Option<Instant>, b: Option<Instant>) {
    a.None? || (b.Some? && a.value.ticks <= b.value.ticks)
  }

  /** A discussion's replies, oldest first. */
  function OrderedReplies(db: Db, discussionId: string): (r: seq<ReplyRow>)
    ensures Ordering.SortedDesc(r, RepliesOldestFirst)
    ensures multiset(r) == multiset(Seqs.Filter(db.replies, ReplyOn(discussionId)))
  {
    var f := Seqs.Filter(db.replies, ReplyOn(discussionId));
    Ordering.SortDescSpec(f, RepliesOldestFirst);
    Ordering.SortDesc(f, RepliesOldestFirst)
  }

  /** There are as many ordered replies as the discussion has. */
  lemma OrderedRepliesCount(db: Db, discussionId: string)
    ensures |OrderedReplies(db, discussionId)| == Seqs.Count(db.replies, ReplyOn(discussionId))
  {
    var r := OrderedReplies(db, discussionId);
    var f := Seqs.Filter(db.replies, ReplyOn(discussionId));
    assert |r| == |multiset(r)| == |multiset(f)| == |f|;
  }

  /** The rows `get_replies` returns: the discussion's replies in order,
      from position `offset` on, `limit` of them unless they run out. */
  function ReplyPage(db: Db, discussionId: string, offset: nat, limit: nat): (r: seq<ReplyRow>)
    ensures |r| <= limit
    ensures var rows := OrderedReplies(db, discussionId);
      && |r| == (if offset >= |rows| then 0 else Seqs.Min(limit, |rows| - offset))
      && forall i :: 0 <= i < |r| ==> offset + i < |rows| && r[i] == rows[offset + i]
  {
    var rows := OrderedReplies(db, discussionId);
    Seqs.Window(rows, offset, limit)
  }

  /** A page of replies holds replies of the discussion only. */
  lemma ReplyPageBelongs(db: Db, discussionId: string, offset: nat, limit: nat)
    ensures var page := ReplyPage(db, discussionId, offset, limit);
      forall i :: 0 <= i < |page| ==> page[i] in db.replies && page[i].discussionId == discussionId
  {
    var f := Seqs.Filter(db.replies, ReplyOn(discussionId));
    var rows := OrderedReplies(db, discussionId);
    var page := ReplyPage(db, discussionId, offset, limit);
    forall i | 0 <= i < |page|
      ensures page[i] in db.replies && page[i].discussionId == discussionId
    {
      assert page[i] == rows[offset + i];
      assert rows[offset + i] in multiset(rows);
      assert page[i] in f;
      Seqs.FilterMembership(db.replies, ReplyOn(discussionId), page[i]);
    }
  }

  /** A page of replies is in ascending creation order, NULL first. */
  lemma ReplyPageOrder(db: Db, discussionId: string, offset: nat, limit: nat)
    ensures var page := ReplyPage(db, discussionId, offset, limit);
      forall i, j :: 0 <= i < j < |page| ==> EarlierOrNull(page[i].createdAt, page[j].createdAt)
  {
    var rows := OrderedReplies(db, discussionId);
    var page := ReplyPage(db, discussionId, offset, limit);
    forall i, j | 0 <= i < j < |page|
      ensures EarlierOrNull(page[i].createdAt, page[j].createdAt)
    {
      var a, b := rows[offset + i], rows[offset + j];
      assert page[i] == a && page[j] == b;
      assert Ordering.AtLeast(RepliesOldestFirst(a), RepliesOldestFirst(b));
      OldestFirstIsEarlier(a, b);
    }
  }

  /** Reading the reversed time key back: a reply that sorts first under it
      was created no later, or has no time. */
  lemma OldestFirstIsEarlier(a: ReplyRow, b: ReplyRow)
    requires Ordering.AtLeast(RepliesOldestFirst(a), RepliesOldestFirst(b))
    ensures EarlierOrNull(a.createdAt, b.createdAt)
  {
    var ka, kb := TimeKey(a.createdAt), TimeKey(b.createdAt);
    assert RepliesOldestFirst(a) == Ordering.Reverse(ka) && RepliesOldestFirst(b) == Ordering.Reverse(kb);
    Ordering.ReverseFlipsOrder(ka, kb);
    assert Ordering.AtLeast(kb, ka);
  }

  /** The first page large enough holds every reply of the discussion. */
  lemma ReplyListComplete(db: Db, discussionId: string, x: ReplyRow)
    requires x in db.replies && x.discussionId == discussionId
    ensures x in ReplyPage(db, discussionId, 0, |db.replies|)
  {
    var f := Seqs.Filter(db.replies, ReplyOn(discussionId));
    var rows := OrderedReplies(db, discussionId);
    Seqs.FilterMembership(db.replies, ReplyOn(discussionId), x);
    assert x in multiset(f);
    assert x in multiset(rows);
    OrderedRepliesCount(db, discussionId);
    Seqs.WindowWhole(rows, |db.replies|);
    assert ReplyPage(db, discussionId, 0, |db.replies|) == rows;
  }

  /** `GET /discussions/{id}/replies`: an unknown discussion simply has no
      replies. */
  function GetReplies(db: Db, discussionId: string, limit: Option<int>, offset: Option<int>): (r: Result<seq<ReplyResponse>>)
    ensures r.Err? <==> LimitParam(limit, DefaultReplyLimit, MaxReplyLimit).None? || OffsetParam(offset).None?
    ensures r.Err? ==> r.error == InvalidQuery
    ensures r.Ok? ==> |r.value| <= LimitParam(limit, DefaultReplyLimit, MaxReplyLimit).value
    ensures r.Ok? ==> forall i :: 0 <= i < |r.value| ==> r.value[i].discussionId == discussionId
    ensures r.Ok? ==>
      var page := ReplyPage(db, discussionId, OffsetParam(offset).value, LimitParam(limit, DefaultReplyLimit, MaxReplyLimit).value);
      |r.value| == |page| && forall i :: 0 <= i < |r.value| ==> r.value[i] == ReplyFromOrm(page[i])
  {
    match (LimitParam(limit, DefaultReplyLimit, MaxReplyLimit), OffsetParam(offset))
    case (Some(l), Some(o)) =>
      var page := ReplyPage(db, discussionId, o, l);
      ReplyPageBelongs(db, discussionId, o, l);
      Ok(ReplyResponses(page))
    case _ => Err(InvalidQuery)
  }

  /** The response form of each row, in order. */
  function ReplyResponses(rows: seq<ReplyRow>): (r: seq<ReplyResponse>)
    ensures |r| == |rows|
    ensures forall i :: 0 <= i < |r| ==> r[i] == ReplyFromOrm(rows[i]) && r[i].discussionId == rows[i].discussionId
  {
    seq(|rows|, i requires 0 <= i < |rows| => ReplyFromOrm(rows[i]))
  }

  /** `POST /discussions/{id}/replies`: refused on a closed discussion;
      otherwise one new reply, one more on the counter and the discussion's
      last reply time moved to now. */
  function CreateReply(db: Db, discussionId: string, data: ReplyCreate, freshId: string, now: Instant): (r: Result<Handled<ReplyResponse>>)
    ensures DiscussionIndex(db, discussionId).None? ==> r == Err(DiscussionNotFound)
    ensures forall i :: DiscussionIndex(db, discussionId) == Some(i) ==>
      (r.Err? <==> db.discussions[i].isClosed != 0) && (r.Err? ==> r.error == DiscussionClosed)
    ensures r.Ok? ==> (r.value.db.replies == db.replies + [ReplyRow(freshId, discussionId, data.content,
      data.authorName, Some(DicebearAvatar(data.authorName)), 0, data.replyToId, Some(now))])
    ensures r.Ok? ==> (r.value.db.projects == db.projects && r.value.db.comments == db.comments
      && r.value.db.likes == db.likes)
    ensures r.Ok? ==> |r.value.db.discussions| == |db.discussions|
    ensures forall i :: DiscussionIndex(db, discussionId) == Some(i) && r.Ok? ==>
      && r.value.db.discussions[i] == db.discussions[i].(repliesCount := db.discussions[i].repliesCount + 1,
                                                         lastReplyAt := Some(now))
      && forall j :: 0 <= j < |db.discussions| && j != i ==> r.value.db.discussions[j] == db.discussions[j]
    ensures r.Ok? ==> (r.value.body.id == freshId && r.value.body.discussionId == discussionId
      && r.value.body.replyToId == data.replyToId && r.value.body.likesCount == 0
      && DicebearSeed(r.value.body.authorAvatar) == Some(data.authorName))
    ensures r.Ok? ==> r.value.body == ReplyFromOrm(r.value.db.replies[|db.replies|])
  {
    match DiscussionIndex(db, discussionId)
    case None => Err(DiscussionNotFound)
    case Some(i) =>
      var d := db.discussions[i];
      if d.isClosed != 0 then Err(DiscussionClosed)
      else
        var row := ReplyRow(freshId, discussionId, data.content, data.authorName,
                            Some(DicebearAvatar(data.authorName)), 0, data.replyToId, Some(now));
        AvatarSeedRoundTrip(data.authorName);
        Ok(Handled(db.(discussions := db.discussions[i := d.(repliesCount := d.repliesCount + 1, lastReplyAt := Some(now))],
                       replies := db.replies + [row]),
                   ReplyFromOrm(row)))
  }

  /** `POST /discussions/{id}/replies/{rid}/like`: the reply must belong to
      the discussion; one more like on every call. */
  function LikeReply(db: Db, discussionId: string, replyId: string): (r: Result<Handled<int>>)
    ensures r.Err? <==> forall k :: 0 <= k < |db.replies| ==>
      !(db.replies[k].id == replyId && db.replies[k].discussionId == discussionId)
    ensures r.Err? ==> r.error == ReplyNotFound
    ensures r.Ok? ==> (r.value.db.projects == db.projects && r.value.db.comments == db.comments
      && r.value.db.likes == db.likes && r.value.db.discussions == db.discussions)
    ensures r.Ok? ==> |r.value.db.replies| == |db.replies|
    ensures r.Ok? ==> exists k :: (0 <= k < |db.replies| && ReplyOfDiscussion(replyId, discussionId)(db.replies[k])
      && r.value.db.replies == db.replies[k := db.replies[k].(likesCount := db.replies[k].likesCount + 1)]
      && r.value.body == db.replies[k].likesCount + 1)
  {
    assert forall k :: 0 <= k < |db.replies| ==> (ReplyOfDiscussion(replyId, discussionId)(db.replies[k])
      <==> db.replies[k].id == replyId && db.replies[k].discussionId == discussionId);
    match Seqs.FirstIndex(db.replies, ReplyOfDiscussion(replyId, discussionId))
    case None => Err(ReplyNotFound)
    case Some(k) =>
      var x := db.replies[k].(likesCount := db.replies[k].likesCount + 1);
      Ok(Handled(db.(replies := db.replies[k := x]), x.likesCount))
  }

  // ==================== consistency ====================

  /** Reading a discussion, liking it or liking one of its replies touches no
      id and no reply counter. */
  lemma CounterRoutesPreserveConsistency(db: Db, id: string, replyId: string)
    requires Consistent(db)
    ensures Consistent(After(db, GetDiscussion(db, id)))
    ensures Consistent(After(db, LikeDiscussion(db, id)))
    ensures Consistent(After(db, LikeReply(db, id, replyId)))
  {
    DiscussionCountersPreserveConsistency(db, id);
    LikeReplyPreservesConsistency(db, id, replyId);
  }

  lemma DiscussionCountersPreserveConsistency(db: Db, id: string)
    requires Consistent(db)
    ensures Consistent(After(db, GetDiscussion(db, id)))
    ensures Consistent(After(db, LikeDiscussion(db, id)))
  {
  }

  lemma LikeReplyPreservesConsistency(db: Db, id: string, replyId: string)
    requires Consistent(db)
    ensures Consistent(After(db, LikeReply(db, id, replyId)))
  {
    var r := LikeReply(db, id, replyId);
    if r.Ok? {
      var k := Seqs.FirstIndex(db.replies, ReplyOfDiscussion(replyId, id)).value;
      var db' := r.value.db;
      assert db'.replies == db.replies[k := db.replies[k].(likesCount := db.replies[k].likesCount + 1)];
      assert db'.discussions == db.discussions;
      forall j | 0 <= j < |db'.discussions|
        ensures db'.discussions[j].repliesCount == Seqs.Count(db'.replies, ReplyOn(db'.discussions[j].id))
      {
        ReplyLikeKeepsCount(db.replies, k, db.discussions[j].id);
      }
      assert forall i :: 0 <= i < |db'.replies| ==> ReplyIdOf(db'.replies[i]) == ReplyIdOf(db.replies[i]);
    }
  }

  /** Changing a reply's like counter does not move it between discussions. */
  lemma {:induction false} ReplyLikeKeepsCount(rs: seq<ReplyRow>, k: nat, discussionId: string)
    requires k < |rs|
    ensures Seqs.Count(rs[k := rs[k].(likesCount := rs[k].likesCount + 1)], ReplyOn(discussionId))
      == Seqs.Count(rs, ReplyOn(discussionId))
    decreases |rs|
  {
    var rs' := rs[k := rs[k].(likesCount := rs[k].likesCount + 1)];
    if k > 0 {
      ReplyLikeKeepsCount(rs[1..], k - 1, discussionId);
      assert rs'[1..] == rs[1..][k - 1 := rs[k].(likesCount := rs[k].likesCount + 1)];
    } else {
      assert rs'[1..] == rs[1..];
    }
  }

  lemma CreateDiscussionPreservesConsistency(db: Db, data: DiscussionCreate, freshId: string, now: Instant)
    requires Consistent(db) && FreshDiscussionId(db, freshId)
    ensures Consistent(CreateDiscussion(db, data, freshId, now).db)
  {
    var db' := CreateDiscussion(db, data, freshId, now).db;
    CountNone(db.replies, ReplyOn(freshId));
    assert db'.discussions[|db.discussions|].id == freshId;
  }

  /** A posted reply is counted by its discussion and by no other. */
  lemma CreateReplyPreservesConsistency(db: Db, discussionId: string, data: ReplyCreate, freshId: string, now: Instant)
    requires Consistent(db) && FreshReplyId(db, freshId)
    ensures Consistent(After(db, CreateReply(db, discussionId, data, freshId, now)))
  {
    var r := CreateReply(db, discussionId, data, freshId, now);
    if r.Ok? {
      var i := DiscussionIndex(db, discussionId).value;
      var d := db.discussions[i];
      var row := ReplyRow(freshId, discussionId, data.content, data.authorName,
                          Some(DicebearAvatar(data.authorName)), 0, data.replyToId, Some(now));
      assert r.value.db == db.(discussions := db.discussions[i := d.(repliesCount := d.repliesCount + 1, lastReplyAt := Some(now))],
                               replies := db.replies + [row]);
      AddReplyKeepsConsistency(db, i, row, now);
    }
  }

  /** Appending a reply under a fresh id, raising its discussion's counter by
      one and moving its last reply time. */
  lemma AddReplyKeepsConsistency(db: Db, i: nat, row: ReplyRow, now: Instant)
    requires Consistent(db) && FreshReplyId(db, row.id)
    requires i < |db.discussions| && db.discussions[i].id == row.discussionId
    ensures var d := db.discussions[i];
      Consistent(db.(discussions := db.discussions[i := d.(repliesCount := d.repliesCount + 1, lastReplyAt := Some(now))],
                     replies := db.replies + [row]))
  {
    var d := db.discussions[i];
    var db' := db.(discussions := db.discussions[i := d.(repliesCount := d.repliesCount + 1, lastReplyAt := Some(now))],
                   replies := db.replies + [row]);
    assert forall j :: 0 <= j < |db.discussions| ==> db'.discussions[j].id == db.discussions[j].id;
    forall j | 0 <= j < |db'.discussions|
      ensures db'.discussions[j].repliesCount == Seqs.Count(db'.replies, ReplyOn(db'.discussions[j].id))
    {
      Seqs.CountAppend(db.replies, row, ReplyOn(db.discussions[j].id));
    }
  }

  /** Deleting a discussion with its replies leaves every other discussion's
      replies, and so its counter, as they were. */
  lemma DeleteDiscussionPreservesConsistency(db: Db, id: string)
    requires Consistent(db)
    ensures Consistent(After(db, DeleteDiscussion(db, id)))
  {
    var r := DeleteDiscussion(db, id);
    if r.Ok? {
      var i := DiscussionIndex(db, id).value;
      var db' := r.value.db;
      assert db'.replies == Seqs.Filter(db.replies, NotReplyOn(id));
      Seqs.RemoveAtDistinct(db.discussions, i, DiscussionIdOf);
      Seqs.FilterDistinct(db.replies, NotReplyOn(id), ReplyIdOf);
      forall j | 0 <= j < |db'.discussions|
        ensures db'.discussions[j].repliesCount == Seqs.Count(db'.replies, ReplyOn(db'.discussions[j].id))
      {
        var j' := if j < i then j else j + 1;
        assert db'.discussions[j] == db.discussions[j'];
        assert db.discussions[j'].id != id;
        Seqs.FilterFilter(db.replies, NotReplyOn(id), ReplyOn(db.discussions[j'].id));
      }
    }
  }

  // ==================== statistics ====================

  datatype DiscussionStats = DiscussionStats(totalDiscussions: nat, totalReplies: nat, categories: map<string, nat>)

  /** `GET /discussions/stats/overview`. */
  function GetDiscussionStats(db: Db): (r: DiscussionStats)
    ensures r.totalDiscussions == |db.discussions| && r.totalReplies == |db.replies|
    ensures r.categories.Keys == set c | c in StatCategories
    ensures r.categories.Keys == {"general", "tech", "idea", "help"}
    ensures forall c :: c in r.categories ==> r.categories[c] == Seqs.Count(db.discussions, DiscussionInCategory(c))
  {
    assert StatCategories[0] == "general" && StatCategories[1] == "tech";
    assert StatCategories[2] == "idea" && StatCategories[3] == "help";
    DiscussionStats(|db.discussions|, |db.replies|,
      map c | c in StatCategories :: Seqs.Count(db.discussions, DiscussionInCategory(c)))
  }

  /** When every discussion is in one of the four counted categories, the
      category counts add up to the total. */
  lemma {:induction false} CategoryCountsSum(ds: seq<DiscussionRow>)
    requires forall i :: 0 <= i < |ds| ==> ds[i].category in StatCategories
    ensures Seqs.Count(ds, DiscussionInCategory("general")) + Seqs.Count(ds, DiscussionInCategory("tech"))
      + Seqs.Count(ds, DiscussionInCategory("idea")) + Seqs.Count(ds, DiscussionInCategory("help")) == |ds|
    decreases |ds|
  {
    if ds != [] {
      CategoryCountsSum(ds[1..]);
    }
  }

  lemma StatsAddUp(db: Db)
    requires forall i :: 0 <= i < |db.discussions| ==> db.discussions[i].category in StatCategories
    ensures var s := GetDiscussionStats(db);
      s.categories["general"] + s.categories["tech"] + s.categories["idea"] + s.categories["help"]
        == s.totalDiscussions
  {
    StatsEntries(db);
    CategoryCountsSum(db.discussions);
  }

  lemma StatsEntries(db: Db)
    ensures var m := GetDiscussionStats(db).categories;
      && m["general"] == Seqs.Count(db.discussions, DiscussionInCategory("general"))
      && m["tech"] == Seqs.Count(db.discussions, DiscussionInCategory("tech"))
      && m["idea"] == Seqs.Count(db.discussions, DiscussionInCategory("idea"))
      && m["help"] == Seqs.Count(db.discussions, DiscussionInCategory("help"))
  {
    assert StatCategories[0] == "general" && StatCategories[1] == "tech";
    assert StatCategories[2] == "idea" && StatCategories[3] == "help";
  }
}

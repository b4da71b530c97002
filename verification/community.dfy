/** The forum panel of components/Community.tsx: its loaders, the post,
    reply and like handlers, and the relative time shown on each post.
    As in App.tsx every handler is one atomic transition taken after the
    server answered, and a failed request (`Err`) is the promise that
    rejected and was caught. */
module Community {
  import opened Wrappers
  import opened Schemas
  import Text
  import Api

  /** The category tab that shows every discussion. */
  const AllCategories := "all"

  /** The `localStorage` key that remembers the forum nickname. */
  const AuthorNameKey := "community_author_name"

  datatype Forum = Forum(
    discussions: seq<DiscussionResponse>,
    selected: Option<DiscussionResponse>,
    replies: seq<ReplyResponse>,
    filter: string,
    sort: string,
    showNewPostForm: bool,
    newTitle: string,
    newContent: string,
    newCategory: string,
    authorName: string,
    replyContent: string,
    submitting: bool,
    storage: Api.Storage)

  /** The panel as it mounts: nothing loaded, every category, newest first,
      and the nickname remembered from an earlier visit, if any. */
  function Open(storage: Api.Storage): (f: Forum)
    ensures f.discussions == [] && f.selected == None && f.replies == []
    ensures f.filter == AllCategories && f.sort == "latest" && f.newCategory == DefaultDiscussionCategory
    ensures Api.Stored(storage, AuthorNameKey).Some? ==> f.authorName == Api.Stored(storage, AuthorNameKey).value
    ensures Api.Stored(storage, AuthorNameKey).None? ==> f.authorName == []
  {
    Forum([], None, [], AllCategories, "latest", false, [], [], DefaultDiscussionCategory,
          Api.Stored(storage, AuthorNameKey).GetOr([]), [], false, storage)
  }

  // ==================== loaders ====================

  /** The options `loadDiscussions` passes: the category unless the 'all'
      tab is on, and always the sort. */
  function ListOptions(f: Forum): (o: Api.DiscussionOptions)
    ensures Api.Lookup(Api.DiscussionParams(o), "category") ==
      (if f.filter != AllCategories && f.filter != [] then Some(f.filter) else None)
    ensures Api.Lookup(Api.DiscussionParams(o), "sort") == (if f.sort != [] then Some(f.sort) else None)
    ensures Api.Lookup(Api.DiscussionParams(o), "limit").None? && Api.Lookup(Api.DiscussionParams(o), "offset").None?
  {
    Api.DiscussionOptions(if f.filter == AllCategories then None else Some(f.filter), Some(f.sort), None, None)
  }

  /** `loadDiscussions`: the request for the current tab and sort, and the
      list replaced by the answer; a failed load keeps the old list. */
  function LoadDiscussions(base: string, f: Forum, response: Result<seq<DiscussionResponse>>): (r: (Forum, string))
    ensures r.1 == Api.DiscussionsUrl(base, ListOptions(f))
    ensures response.Ok? ==> r.0 == f.(discussions := response.value)
    ensures response.Err? ==> r.0 == f
  {
    var url := Api.DiscussionsUrl(base, ListOptions(f));
    match response
    case Ok(ds) => (f.(discussions := ds), url)
    case Err(_) => (f, url)
  }

  /** `loadReplies(id)`: the replies of one discussion replace the shown
      ones; a failed load keeps them. */
  function LoadReplies(base: string, f: Forum, discussionId: string, response: Result<seq<ReplyResponse>>): (r: (Forum, Api.ApiCall))
    ensures r.1 == Api.GetRepliesCall(base, discussionId)
    ensures response.Ok? ==> r.0 == f.(replies := response.value)
    ensures response.Err? ==> r.0 == f
  {
    var call := Api.GetRepliesCall(base, discussionId);
    match response
    case Ok(rs) => (f.(replies := rs), call)
    case Err(_) => (f, call)
  }

  // ==================== handleCreatePost ====================

  /** The new-post form may be sent: title, content and nickname are not
      blank. Unlike the comment box there is no in-flight check. */
  predicate MayPost(f: Forum) {
    !Text.IsBlank(f.newTitle) && !Text.IsBlank(f.newContent) && !Text.IsBlank(f.authorName)
  }

  /** `handleCreatePost` with the server's answer: the nickname is
      remembered before the request, so even a failed post stores it; a
      created post goes to the top of the list and the form is reset and
      closed; a failed one keeps what was typed. */
  function HandleCreatePost(base: string, f: Forum, response: Result<DiscussionResponse>): (r: (Forum, Option<Api.ApiCall>))
    ensures !MayPost(f) ==> r == (f, None)
    ensures MayPost(f) ==> r.1 == Some(Api.CreateDiscussionCall(base, f.newTitle, f.newContent, f.newCategory, f.authorName))
    ensures MayPost(f) ==> r.0.storage == f.storage[AuthorNameKey := f.authorName] && !r.0.submitting
    ensures MayPost(f) && response.Ok? ==> (r.0.discussions == [response.value] + f.discussions
      && r.0.newTitle == [] && r.0.newContent == [] && !r.0.showNewPostForm)
    ensures response.Err? ==> (r.0.discussions == f.discussions && r.0.newTitle == f.newTitle
      && r.0.newContent == f.newContent && r.0.showNewPostForm == f.showNewPostForm)
    ensures r.0.selected == f.selected && r.0.replies == f.replies && r.0.authorName == f.authorName
      && r.0.replyContent == f.replyContent && r.0.newCategory == f.newCategory
  {
    if !MayPost(f) then (f, None)
    else
      var call := Api.CreateDiscussionCall(base, f.newTitle, f.newContent, f.newCategory, f.authorName);
      var sent := f.(storage := f.storage[AuthorNameKey := f.authorName], submitting := false);
      match response
      case Ok(d) =>
        (sent.(discussions := [d] + f.discussions, newTitle := [], newContent := [], showNewPostForm := false), Some(call))
      case Err(_) => (sent, Some(call))
  }

  /** The guard and the reset of the new-post form work together: a post is
      requested exactly when the title, the content and the nickname each
      hold a character other than whitespace; a created post leaves the title
      empty, so submitting again at once sends nothing; and the nickname it
      stored is the one the panel opens with next time. */
  lemma PostGuardAndReset(base: string, f: Forum, created: DiscussionResponse, again: Result<DiscussionResponse>)
    ensures HandleCreatePost(base, f, Ok(created)).1.Some? <==>
      && (exists k :: 0 <= k < |f.newTitle| && !Text.IsSpace(f.newTitle[k]))
      && (exists k :: 0 <= k < |f.newContent| && !Text.IsSpace(f.newContent[k]))
      && (exists k :: 0 <= k < |f.authorName| && !Text.IsSpace(f.authorName[k]))
    ensures MayPost(f) ==>
      var g := HandleCreatePost(base, f, Ok(created)).0;
      HandleCreatePost(base, g, again) == (g, None) && Open(g.storage).authorName == f.authorName
  {
  }

  // ==================== handleReply ====================

  /** The reply box may be sent: a discussion is open and neither the reply
      nor the nickname is blank. */
  predicate MayReply(f: Forum) {
    !Text.IsBlank(f.replyContent) && !Text.IsBlank(f.authorName) && f.selected.Some?
  }

  /** Adds one to the reply count of every listed discussion with this id. */
  function BumpReplies(ds: seq<DiscussionResponse>, id: string): (r: seq<DiscussionResponse>)
    ensures |r| == |ds|
    ensures forall i :: 0 <= i < |ds| ==>
      r[i] == if ds[i].id == id then ds[i].(repliesCount := ds[i].repliesCount + 1) else ds[i]
  {
    seq(|ds|, i requires 0 <= i < |ds| =>
      if ds[i].id == id then ds[i].(repliesCount := ds[i].repliesCount + 1) else ds[i])
  }

  /** `handleReply` with the server's answer: the reply goes to the end of
      the thread, the box is cleared, and the open discussion and its entry
      in the list each count one more reply; a failed reply changes neither
      list and keeps the text. The nickname is remembered either way. */
  function HandleReply(base: string, f: Forum, response: Result<ReplyResponse>): (r: (Forum, Option<Api.ApiCall>))
    ensures !MayReply(f) ==> r == (f, None)
    ensures MayReply(f) ==> r.1 == Some(Api.CreateReplyCall(base, f.selected.value.id, f.replyContent, f.authorName))
    ensures MayReply(f) ==> r.0.storage == f.storage[AuthorNameKey := f.authorName] && !r.0.submitting
    ensures MayReply(f) && response.Ok? ==> (r.0.replies == f.replies + [response.value] && r.0.replyContent == []
      && r.0.selected == Some(f.selected.value.(repliesCount := f.selected.value.repliesCount + 1)))
    ensures response.Err? ==> (r.0.replies == f.replies && r.0.replyContent == f.replyContent
      && r.0.discussions == f.discussions && r.0.selected == f.selected)
    ensures |r.0.discussions| == |f.discussions|
    ensures forall i :: 0 <= i < |f.discussions| && (f.selected.None? || f.discussions[i].id != f.selected.value.id) ==>
      r.0.discussions[i] == f.discussions[i]
    ensures MayReply(f) && response.Ok? ==> forall i :: 0 <= i < |f.discussions| && f.discussions[i].id == f.selected.value.id ==>
      r.0.discussions[i] == f.discussions[i].(repliesCount := f.discussions[i].repliesCount + 1)
  {
    if !MayReply(f) then (f, None)
    else
      var d := f.selected.value;
      var call := Api.CreateReplyCall(base, d.id, f.replyContent, f.authorName);
      var sent := f.(storage := f.storage[AuthorNameKey := f.authorName], submitting := false);
      match response
      case Ok(reply) =>
        (sent.(replies := f.replies + [reply], replyContent := [],
               selected := Some(d.(repliesCount := d.repliesCount + 1)),
               discussions := BumpReplies(f.discussions, d.id)), Some(call))
      case Err(_) => (sent, Some(call))
  }

  // ==================== handleLikeDiscussion ====================

  /** `handleLikeDiscussion(id)` with the server's answer: the returned
      count replaces the local one, in the list and in the open copy when
      it is that discussion; nothing else changes. */
  function HandleLikeDiscussion(f: Forum, id: string, response: Result<int>): (r: Forum)
    ensures response.Err? ==> r == f
    ensures r.replies == f.replies && r.storage == f.storage && r.replyContent == f.replyContent
    ensures |r.discussions| == |f.discussions|
    ensures forall i :: 0 <= i < |f.discussions| && f.discussions[i].id != id ==> r.discussions[i] == f.discussions[i]
    ensures response.Ok? ==> forall i :: 0 <= i < |f.discussions| && f.discussions[i].id == id ==>
      r.discussions[i] == f.discussions[i].(likesCount := response.value)
    ensures f.selected.Some? && f.selected.value.id == id && response.Ok? ==>
      r.selected == Some(f.selected.value.(likesCount := response.value))
    ensures (f.selected.None? || f.selected.value.id != id) ==> r.selected == f.selected
  {
    match response
    case Err(_) => f
    case Ok(n) =>
      var ds := seq(|f.discussions|, i requires 0 <= i < |f.discussions| =>
        if f.discussions[i].id == id then f.discussions[i].(likesCount := n) else f.discussions[i]);
      var sel := if f.selected.Some? && f.selected.value.id == id then Some(f.selected.value.(likesCount := n)) else f.selected;
      f.(discussions := ds, selected := sel)
  }

  /** `handleLikeDiscussion(id)` from start to finish: the like request for
      that discussion, which carries no body and no identifier, then the
      forum once the answer arrived. */
  function SendLikeDiscussion(base: string, f: Forum, id: string, response: Result<int>): (r: (Forum, Api.ApiCall))
    ensures r.1.verb == Api.Post && r.1.url == base + "/discussions/" + id + "/like"
    ensures r.1.body == Api.NoBody && r.1.userIdentifier.None?
    ensures response.Err? ==> r.0 == f
    ensures |r.0.discussions| == |f.discussions|
    ensures response.Ok? ==> forall i :: 0 <= i < |f.discussions| && f.discussions[i].id == id ==>
      r.0.discussions[i].likesCount == response.value
  {
    (HandleLikeDiscussion(f, id, response), Api.LikeDiscussionCall(base, id))
  }

  /** The open discussion agrees with its entry in the list. */
  predicate InStep(f: Forum) {
    f.selected.Some? ==> forall i :: 0 <= i < |f.discussions| && f.discussions[i].id == f.selected.value.id ==>
      f.discussions[i] == f.selected.value
  }

  /** Replying and liking keep the open discussion and its list entry in
      step, since both copies receive the same update. */
  lemma HandlersKeepInStep(base: string, f: Forum, reply: Result<ReplyResponse>, id: string, like: Result<int>)
    requires InStep(f)
    ensures InStep(HandleReply(base, f, reply).0)
    ensures InStep(HandleLikeDiscussion(f, id, like))
  {
    var r := HandleReply(base, f, reply).0;
    if MayReply(f) && reply.Ok? {
      var d := f.selected.value;
      forall i | 0 <= i < |r.discussions| && r.discussions[i].id == d.id
        ensures r.discussions[i] == r.selected.value
      {
        assert f.discussions[i] == d;
      }
    }
  }

  /** Liking overwrites with the server's count, so a repeated answer
      changes nothing more. */
  lemma LikeOverwriteIdempotent(f: Forum, id: string, n: int)
    ensures HandleLikeDiscussion(HandleLikeDiscussion(f, id, Ok(n)), id, Ok(n)) == HandleLikeDiscussion(f, id, Ok(n))
  {
    var once := HandleLikeDiscussion(f, id, Ok(n));
    var twice := HandleLikeDiscussion(once, id, Ok(n));
    assert twice.discussions == once.discussions;
  }

  // ==================== formatTime ====================

  const MinuteMs := 60000
  const HourMs := 3600000
  const DayMs := 86400000

  /** The relative time shown on a post or reply. */
  datatype TimeLabel = JustNow | MinutesAgo(minutes: nat) | HoursAgo(hours: nat) | DaysAgo(days: nat) | Calendar

  /** `formatTime`: the whole minutes, hours and days between the post's
      time and now, floored, picked by the first that applies. `date` is the
      parsed timestamp in milliseconds, `None` when the text does not parse
      (every comparison with NaN is false, so it falls through to the
      calendar date). A time in the future counts as just now. */
  function FormatTime(nowMs: int, date: Option<int>): (r: TimeLabel)
    ensures r == JustNow <==> date.Some? && nowMs - date.value < MinuteMs
    ensures r.MinutesAgo? <==> date.Some? && MinuteMs <= nowMs - date.value < HourMs
    ensures r.HoursAgo? <==> date.Some? && HourMs <= nowMs - date.value < DayMs
    ensures r.DaysAgo? <==> date.Some? && DayMs <= nowMs - date.value < 30 * DayMs
    ensures r == Calendar <==> date.None? || nowMs - date.value >= 30 * DayMs
    ensures r.MinutesAgo? ==> 1 <= r.minutes < 60 && r.minutes * MinuteMs <= nowMs - date.value < (r.minutes + 1) * MinuteMs
    ensures r.HoursAgo? ==> 1 <= r.hours < 24 && r.hours * HourMs <= nowMs - date.value < (r.hours + 1) * HourMs
    ensures r.DaysAgo? ==> 1 <= r.days < 30 && r.days * DayMs <= nowMs - date.value < (r.days + 1) * DayMs
  {
    match date
    case None => Calendar
    case Some(t) =>
      var diff := nowMs - t;
      var minutes := diff / MinuteMs;
      var hours := diff / HourMs;
      var days := diff / DayMs;
      FloorBounds(diff, MinuteMs);
      FloorBounds(diff, HourMs);
      FloorBounds(diff, DayMs);
      if minutes < 1 then JustNow
      else if minutes < 60 then MinutesAgo(minutes)
      else if hours < 24 then HoursAgo(hours)
      else if days < 30 then DaysAgo(days)
      else Calendar
  }

  /** `Math.floor(x / d)` for a positive `d`: Dafny's `/` rounds the same
      way. */
  lemma FloorBounds(x: int, d: int)
    requires d > 0
    ensures (x / d) * d <= x < (x / d + 1) * d
    ensures x < d <==> x / d < 1
    ensures forall k: int :: k * d <= x <==> k <= x / d
  {
    forall k: int
      ensures k * d <= x <==> k <= x / d
    {
      if k <= x / d {
        MulMonotone(k, x / d, d);
      } else {
        MulMonotone(x / d + 1, k, d);
      }
    }
  }

  lemma MulMonotone(a: int, b: int, d: int)
    requires a <= b && d > 0
    ensures a * d <= b * d
  {
    assert b * d - a * d == (b - a) * d;
  }

  /** How long ago a label says, as a point on one scale (calendar dates
      are the oldest). */
  function Age(t: TimeLabel): (int, int) {
    match t
    case JustNow => (0, 0)
    case MinutesAgo(m) => (1, m)
    case HoursAgo(h) => (2, h)
    case DaysAgo(d) => (3, d)
    case Calendar => (4, 0)
  }

  predicate AgeAtMost(a: (int, int), b: (int, int)) {
    a.0 < b.0 || (a.0 == b.0 && a.1 <= b.1)
  }

  /** An older post never shows a younger label. */
  lemma FormatTimeMonotone(nowMs: int, newer: int, older: int)
    requires older <= newer
    ensures AgeAtMost(Age(FormatTime(nowMs, Some(newer))), Age(FormatTime(nowMs, Some(older))))
  {
    var a := FormatTime(nowMs, Some(newer));
    var b := FormatTime(nowMs, Some(older));
    if Age(a).0 == Age(b).0 {
      var x, y := nowMs - newer, nowMs - older;
      FloorBounds(x, MinuteMs);
      FloorBounds(x, HourMs);
      FloorBounds(x, DayMs);
      if a.MinutesAgo? {
        FloorBounds(y, MinuteMs);
      } else if a.HoursAgo? {
        FloorBounds(y, HourMs);
      } else if a.DaysAgo? {
        FloorBounds(y, DayMs);
      }
    }
  }

  /** The text of a label; the calendar date is the browser's
      `toLocaleDateString('zh-CN')`, given here as `calendar`. The number of
      a relative label is the text before its first space. */
  function RenderTime(t: TimeLabel, calendar: string): (s: string)
    ensures t == JustNow ==> s == "刚刚"
    ensures t == Calendar ==> s == calendar
    ensures t.MinutesAgo? ==> Text.ParseNat(Text.Before(s, ' ')) == Some(t.minutes) && Text.After(s, ' ') == "分钟前"
    ensures t.HoursAgo? ==> Text.ParseNat(Text.Before(s, ' ')) == Some(t.hours) && Text.After(s, ' ') == "小时前"
    ensures t.DaysAgo? ==> Text.ParseNat(Text.Before(s, ' ')) == Some(t.days) && Text.After(s, ' ') == "天前"
  {
    match t
    case JustNow => "刚刚"
    case MinutesAgo(m) => Counted(m, "分钟前")
    case HoursAgo(h) => Counted(h, "小时前")
    case DaysAgo(d) => Counted(d, "天前")
    case Calendar => calendar
  }

  /** `${n} unit`. */
  function Counted(n: nat, unit: string): (s: string)
    ensures Text.ParseNat(Text.Before(s, ' ')) == Some(n) && Text.After(s, ' ') == unit
  {
    var digits := Text.NatToDecimal(n);
    assert ' ' !in digits by {
      assert forall i :: 0 <= i < |digits| ==> Text.IsDigit(digits[i]);
    }
    Text.BeforeAfterConcat(digits, unit, ' ');
    Text.NatRoundTrip(n);
    digits + [' '] + unit
  }
}

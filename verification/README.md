# Project showcase and community forum — a Dafny model

The system is a small web application with two halves.

- **Backend.** A FastAPI service over a SQL database. It serves a project showcase, where projects have comments and per-visitor likes, and a community forum, where discussions have replies, likes, view counters and statistics.
- **Frontend.** A React page. It lists projects by category, lets a visitor like and comment on them, and hosts the forum.

This project models the logic under the markup, as pure transitions over immutable data:

- **Backend routes.** Each route is a function from a database to a `Result`: either an HTTP error, or a response together with the committed database.
  - The database (`Models.Db`) holds one sequence of rows per table, in scan order.
  - `.filter(...).first()` is `Seqs.FirstIndex`.
  - `COUNT` is `Seqs.Count`.
  - `ORDER BY ... DESC` is a stable insertion sort on a lexicographic key (`Ordering.SortDesc`).
  - `OFFSET/LIMIT` is `Seqs.Window`.
- **Fresh values.** Fresh row ids (`uuid4`) and the current time (`utcnow`) are parameters.
- **Denormalised counters.** The counters `comments_count`, `likes_count` and `replies_count` are tied to the rows they count by `Models.Consistent`, and every writing route is proved to keep it.
- **Response mapping.** The ORM-to-response mappings (`Schemas`) and the request-body defaults are modelled.
- **CORS setting.** The comma-separated CORS setting (`Config`) is modelled.
- **Client.** The API client (`Api`) is modelled:
  - the persisted anonymous visitor identifier;
  - the request each call sends;
  - the URL and query string of the list calls;
  - the `response.ok`-or-throw contract.
- **React handlers.** The handlers of `App`, `ProjectModal` and `Community` are each one atomic transition taken after the awaited call settles.
  - The server's answer is a `Result` parameter, where `Err` is a rejected promise.
  - The guarded handlers (`ProjectModal.SubmitComment`, `Community.HandleCreatePost` and `Community.HandleReply`) also return the request they sent (or `None`), so their guards can be stated.
  - The unguarded handlers `App.HandleLike`, `App.HandleAddComment` and `Community.HandleLikeDiscussion` return the state only. Each is paired with a function (`App.SendLike`, `App.SendComment` and `Community.SendLikeDiscussion`) that also returns the request it sends.

Modules:

- `Wrappers`, `Seqs`, `Text` and `Ordering` are shared helpers.
- `Models` holds the rows, the database and the consistency invariant.
- `Schemas`, `Config`, `ProjectsRouter`, `CommentsRouter` and `DiscussionsRouter` model the backend.
- `Api`, `App`, `ProjectModal` and `Community` model the frontend.

## Model

| member | source | states |
|---|---|---|
| ProjectsRouter.ListProjectRows | backend/routers/projects.py:27-30 | the listed rows are sorted newest first, and as a multiset they are exactly the projects of the category, or all projects when the filter is absent or "All" |
| Ordering.SortDescStable | backend/routers/projects.py:30 | the sort keeps rows with equal keys in table order, a tie-break SQL leaves unspecified |
| ProjectsRouter.ListProjectsMembership | backend/routers/projects.py:27-28 | a project is listed if and only if it is stored and, when the filter is on, has the requested category |
| ProjectsRouter.GetAllProjects | backend/routers/projects.py:19-31 | the i-th response is the response form of the i-th listed row (newest first, of the category when filtered), so there is one entry per matching project |
| ProjectsRouter.GetProject | backend/routers/projects.py:34-42 | 404 exactly when no project has the id; otherwise the response of a stored project with that id |
| ProjectsRouter.CreateProject | backend/routers/projects.py:45-68 | one row is appended and the other tables are untouched; exactly the row with the fresh id, the body's fields and tags, zero counters and both timestamps at now is appended; the response is that stored row's response form |
| ProjectsRouter.CreateProjectPreservesConsistency | backend/routers/projects.py:45-68 | creating a project with a fresh id keeps ids unique and counters equal to the rows they count |
| ProjectsRouter.ApplyUpdate | backend/routers/projects.py:84-87 | each provided field overwrites its column; every absent field, the id, the counters and the timestamps keep their values (`updated_at` frozen, see "## Left out") |
| ProjectsRouter.ApplyUpdateLaws | backend/routers/projects.py:84-87 | an update that provides nothing changes nothing, and applying the same update twice equals applying it once |
| ProjectsRouter.UpdateProject | backend/routers/projects.py:71-92 | 404 exactly when the id is missing; otherwise only the target row changes, to the updated row (`updated_at` frozen, see "## Left out") |
| ProjectsRouter.UpdateProjectPreservesConsistency | backend/routers/projects.py:71-92 | an update keeps the database consistent |
| ProjectsRouter.DeleteProject | backend/routers/projects.py:95-106 | 404 exactly when the id is missing; otherwise the project row and exactly its comments are removed, and the like table is untouched |
| ProjectsRouter.DeleteProjectPreservesConsistency | backend/routers/projects.py:95-106 | deleting a project keeps every remaining project's counters equal to its comments and likes |
| ProjectsRouter.ToggleLike | backend/routers/projects.py:109-147 | 404 exactly for an unknown project, with nothing changed; otherwise `isLiked` echoes the request, and only the target project's row may change (`updated_at` frozen, see "## Left out") |
| ProjectsRouter.ToggleLikeEffect | backend/routers/projects.py:126-145 | a new like appends one (project, user) record and adds 1; an unlike of an existing like removes one record and sets the count to max(0, count - 1); a repeated like or an unlike without a record leaves the database unchanged (`updated_at` frozen, see "## Left out") |
| ProjectsRouter.ToggleLikeIdempotent | backend/routers/projects.py:131-145 | repeating the same like or unlike from the same user changes nothing more |
| ProjectsRouter.LikeThenUnlikeRestores | backend/routers/projects.py:131-145 | a first like followed by an unlike from the same user gives back the original database (`updated_at` frozen, see "## Left out") |
| ProjectsRouter.ToggleLikeKeepsCountNonNegative | backend/routers/projects.py:143 | no toggle drives a non-negative like counter below zero |
| ProjectsRouter.ToggleLikePreservesConsistency | backend/routers/projects.py:109-147 | toggling keeps like records unique per (project, user) and every like counter equal to its records |
| CommentsRouter.CommentRows | backend/routers/comments.py:22-25 | the rows are newest first and are, as a multiset, exactly the project's comments |
| CommentsRouter.CommentRowsMembership | backend/routers/comments.py:22-25 | a comment is listed if and only if it is stored and belongs to the project |
| CommentsRouter.GetComments | backend/routers/comments.py:15-27 | 404 exactly for a missing project; otherwise the i-th response is the response form of the i-th of the project's comments, newest first |
| CommentsRouter.CreateComment | backend/routers/comments.py:30-57 | 404 for a missing project, with nothing added; otherwise one comment is appended with the given project, content and author and the picsum avatar seeded by the author, and only that project's count goes up by 1 (`updated_at` frozen, see "## Left out") |
| CommentsRouter.CreateCommentPreservesConsistency | backend/routers/comments.py:42-52 | a comment with a fresh id keeps every comment counter equal to the project's comments |
| CommentsRouter.DeleteComment | backend/routers/comments.py:60-83 | 404 with no change unless the comment belongs to the project; otherwise that comment is removed and the count becomes max(0, count - 1), with other projects unchanged (`updated_at` frozen, see "## Left out") |
| CommentsRouter.CommentedProjectCountPositive | backend/routers/comments.py:77-78 | in a consistent database a project with a comment has a positive counter |
| CommentsRouter.DeleteCommentExactDecrement | backend/routers/comments.py:77-78 | in a consistent database the floor at zero never applies, so deletion lowers the counter by exactly 1 |
| CommentsRouter.DeleteCommentPreservesConsistency | backend/routers/comments.py:60-83 | deleting a comment keeps the database consistent |
| CommentsRouter.CreateThenDeleteRestores | backend/routers/comments.py:30-83 | posting a comment and then deleting it gives back the original database (`updated_at` frozen, see "## Left out") |
| DiscussionsRouter.LimitParam | backend/routers/discussions.py:38-39 | an absent limit takes the default; a given one is accepted exactly when 1 <= limit <= max, and is then kept |
| DiscussionsRouter.OffsetParam | backend/routers/discussions.py:39 | an absent offset is 0; a given one is accepted exactly when it is non-negative |
| DiscussionsRouter.OrderedDiscussions | backend/routers/discussions.py:44-55 | the rows are sorted pinned first, then by the sort's key, and are as a multiset exactly the discussions of the category |
| DiscussionsRouter.DiscussionPageContents | backend/routers/discussions.py:46-57 | a page has min(limit, n - offset) rows of the n selected discussions, each of them stored and, with a filter, of that category |
| DiscussionsRouter.DiscussionPageOrder | backend/routers/discussions.py:50-55 | on a page, a pinned discussion precedes an unpinned one; among equals, "popular" orders by likes, "active" by last reply time and any other value by creation time, newest first |
| DiscussionsRouter.DiscussionListComplete | backend/routers/discussions.py:46-57 | with no offset and a large enough limit, the list holds exactly the stored discussions of the category |
| DiscussionsRouter.DiscussionPagesTile | backend/routers/discussions.py:57 | consecutive pages join into the page spanning both, without gaps or overlaps |
| DiscussionsRouter.GetDiscussions | backend/routers/discussions.py:34-58 | 422 exactly for an out-of-range limit or a negative offset; otherwise at most `limit` responses, one for each row of the ordered page |
| DiscussionsRouter.GetDiscussion | backend/routers/discussions.py:61-73 | 404 exactly for a missing id; otherwise only that discussion's view counter changes, by exactly 1 (`updated_at` frozen, see "## Left out") |
| DiscussionsRouter.CreateDiscussion | backend/routers/discussions.py:76-90 | exactly one discussion row is appended, with the body's fields, the dicebear avatar of the author stored, zero counters, unpinned, open, and created, updated and last replied at now; the response is that stored row's response form |
| DiscussionsRouter.LikeDiscussion | backend/routers/discussions.py:93-103 | 404 exactly for a missing id; otherwise that discussion's like counter goes up by 1 and the new count is returned (`updated_at` frozen, see "## Left out") |
| DiscussionsRouter.CountersAccumulate | backend/routers/discussions.py:64-103 | views and likes are one-way counters with no per-user check: two views add 2, and two likes add 2 and return successive counts |
| DiscussionsRouter.DeleteDiscussion | backend/routers/discussions.py:106-116 | 404 exactly for a missing id; otherwise the discussion and exactly its replies are removed |
| DiscussionsRouter.OrderedReplies | backend/routers/discussions.py:129-134 | the replies are oldest first and are, as a multiset, exactly the discussion's replies |
| DiscussionsRouter.OrderedRepliesCount | backend/routers/discussions.py:129-134 | the ordered list has exactly as many rows as the discussion has replies, so a page's size is min(limit, count - offset) |
| DiscussionsRouter.ReplyPage | backend/routers/discussions.py:129-135 | the page is the window of the discussion's replies, oldest first, starting at `offset`: its size is min(limit, n - offset) for the n ordered replies, or 0 past the end, and its i-th row is the (offset+i)-th reply |
| DiscussionsRouter.ReplyPageBelongs | backend/routers/discussions.py:129-135 | every reply on a page is stored and belongs to the discussion |
| DiscussionsRouter.ReplyPageOrder | backend/routers/discussions.py:133 | on a page an earlier reply never has a later creation time than a following one |
| DiscussionsRouter.ReplyListComplete | backend/routers/discussions.py:129-135 | every reply of the discussion appears on the first page once the limit covers the table |
| DiscussionsRouter.GetReplies | backend/routers/discussions.py:121-137 | 422 exactly for an out-of-range limit or a negative offset; otherwise the i-th response is the response form of the i-th row of the page chosen by the offset and the limit (default 50) |
| DiscussionsRouter.CreateReply | backend/routers/discussions.py:140-171 | 404 for a missing discussion; 400 exactly when it is closed, with nothing added; otherwise one reply is appended, the discussion's reply counter goes up by 1 and its last reply time is now, and nothing else changes (`updated_at` frozen, see "## Left out"); the response is the appended row's response form |
| DiscussionsRouter.LikeReply | backend/routers/discussions.py:174-187 | 404 unless the reply belongs to the discussion; otherwise that reply's counter goes up by 1 |
| DiscussionsRouter.CounterRoutesPreserveConsistency | backend/routers/discussions.py:61-187 | viewing, liking a discussion and liking a reply keep the database consistent |
| DiscussionsRouter.DiscussionCountersPreserveConsistency | backend/routers/discussions.py:61-103 | view and like counters of a discussion are outside the invariant, so changing them keeps it |
| DiscussionsRouter.LikeReplyPreservesConsistency | backend/routers/discussions.py:174-187 | liking a reply keeps reply ids unique and every reply counter equal to the discussion's replies |
| DiscussionsRouter.ReplyLikeKeepsCount | backend/routers/discussions.py:184 | changing a reply's likes does not change how many replies a discussion has |
| DiscussionsRouter.CreateDiscussionPreservesConsistency | backend/routers/discussions.py:76-90 | a discussion with a fresh id keeps the database consistent |
| DiscussionsRouter.CreateReplyPreservesConsistency | backend/routers/discussions.py:155-168 | a reply with a fresh id keeps every reply counter equal to the discussion's replies |
| DiscussionsRouter.DeleteDiscussionPreservesConsistency | backend/routers/discussions.py:106-116 | deleting a discussion with its replies keeps the database consistent |
| DiscussionsRouter.GetDiscussionStats | backend/routers/discussions.py:192-208 | totals are the table sizes, and there is one category entry for each of the four categories, equal to that category's count |
| DiscussionsRouter.CategoryCountsSum | backend/routers/discussions.py:197-203 | when every discussion has one of the four categories, the four counts add up to the number of discussions |
| DiscussionsRouter.StatsAddUp | backend/routers/discussions.py:192-208 | under that assumption the category counts of the statistics add up to the total |
| Schemas.AvatarSeedRoundTrip | backend/routers/comments.py:45 | the picsum and dicebear avatar URLs give back the author name they were seeded with |
| Schemas.AvatarOr | backend/schemas.py:116 | the stored avatar is kept when non-empty, otherwise the fallback is used |
| Schemas.IsoOrEmpty | backend/schemas.py:84-85 | a missing timestamp maps to the empty string and a present one to its ISO text |
| Schemas.Flag | backend/schemas.py:200-201 | a stored integer flag is true exactly when it is non-zero |
| Schemas.ProjectFromOrm | backend/schemas.py:67-86 | every text field, the id and the counters are copied, null tags become [], and each timestamp is its ISO text when present and empty when absent |
| Schemas.CommentFromOrm | backend/schemas.py:109-119 | the avatar is the stored one when non-empty, else the picsum URL of the author; the other fields are copied, and the time is its ISO text, or empty when absent |
| Schemas.DiscussionFromOrm | backend/schemas.py:187-205 | text fields and counters are copied, the flags are their non-zero tests, the avatar is the stored one when non-empty and else the author's dicebear URL, and the created, updated and last-reply times are their ISO text, or empty when absent |
| Schemas.ReplyFromOrm | backend/schemas.py:229-241 | content, author, likes and reply target are copied, the avatar is the stored one when non-empty and else the author's dicebear URL, and the time is its ISO text, or empty when absent |
| Schemas.ProjectCreateOf | backend/schemas.py:13-24 | an absent category is "Other" and absent tags are [] |
| Schemas.CommentCreateOf | backend/schemas.py:91-94 | an absent author is "匿名访客" |
| Schemas.DiscussionCreateOf | backend/schemas.py:159-164 | an absent category is "general" and an absent author is "匿名用户" |
| Schemas.ReplyCreateOf | backend/schemas.py:208-212 | an absent author is "匿名用户" and an absent reply target stays absent |
| Config.CorsOriginsList | backend/config.py:28-31 | there is one origin per comma-separated segment (commas + 1), each being its segment stripped of surrounding whitespace, in order |
| Config.OriginsAreClean | backend/config.py:31 | every origin has no surrounding whitespace and no comma |
| Config.OriginsRoundTrip | backend/config.py:31 | joining clean origins with commas and parsing gives back the same list |
| Config.SingleOrigin | backend/config.py:31 | a setting without commas or surrounding spaces is a one-origin list |
| Config.DefaultOrigins | backend/config.py:22-31 | the default setting yields the single origin http://localhost:5173 |
| Api.ApiBase | services/api.ts:9 | the configured base URL is used when non-empty, otherwise http://localhost:8000/api |
| Api.NewIdentifierEncodesTime | services/api.ts:15 | a generated identifier starts with "user_" and the creation time can be read back from it |
| Api.GetUserIdentifier | services/api.ts:12-19 | a stored identifier is returned with the storage unchanged; otherwise a new one is generated and stored; either way the returned identifier is the stored one and no other key changes |
| Api.UserIdentifierStable | services/api.ts:12-19 | a second call, at any time and with any random suffix, returns the same identifier and leaves the storage as it is |
| Api.ToggleLikeCall | services/api.ts:60-75 | the like toggle is a POST of `{isLiking}` to the project's like path, carrying the persisted visitor identifier as its user header |
| Api.TogglesShareIdentifier | services/api.ts:60-67 | consecutive toggles, on any projects, send the same visitor identifier |
| Api.UrlParts | services/api.ts:24-26 | a URL splits at its first '?' into the path and the query |
| Api.ServerFiltersAsClientAsked | services/api.ts:23-35 | the project list URL has `?category=` only for a category other than absent or "All", and the backend reads back exactly that filter |
| Api.DiscussionParams | services/api.ts:100-110 | the query has category and sort exactly when they are non-empty strings, and limit and offset exactly when they are non-zero numbers |
| Api.DiscussionParamsOrdered | services/api.ts:106-110 | the parameters appear in the order category, sort, limit, offset |
| Api.LookupConcat | services/api.ts:106-110 | a key looked up in appended parameter lists is found in the first list that has it |
| Api.Lookup | services/api.ts:106-110 | a parameter is found exactly when some pair has its key |
| Api.QueryRoundTrip | services/api.ts:112 | parsing a query string built from plain key=value pairs gives back the pairs |
| Api.DiscussionParamsArePlain | services/api.ts:106-110 | values without '&' give parameters that can be read back |
| Api.DiscussionsUrlRoundTrip | services/api.ts:100-120 | the discussion list URL has a '?' part exactly when a parameter was appended, and that part parses back to the parameters |
| Api.NoAmpersandInNumber | services/api.ts:108-109 | a number written in decimal never contains '&' |
| Api.ZeroPagingUsesServerDefaults | services/api.ts:108-109 | a limit and offset of 0 are not sent, so the backend's defaults apply |
| Api.Receive | services/api.ts:30-34 | a call succeeds with the parsed body exactly when the status is 2xx, and otherwise fails with that status |
| Api.ErrorMessageNamesStatus | services/api.ts:31 | the error message of a failed call names its status, which can be read back from it |
| App.FilteredProjects | App.tsx:22-25 | "All" shows the list unchanged; otherwise a project is shown if and only if it is in the list with that category |
| App.FilteredProjectsKeepOrder | App.tsx:24 | the filter keeps the list order (it distributes over concatenation) and each shown project keeps its multiplicity |
| App.HandleLike | App.tsx:27-47 | a failed toggle changes nothing; otherwise the id's liked membership flips, other ids keep theirs, only projects with that id change, by +1 when liking and -1 when unliking, without a floor |
| App.SendLike | App.tsx:27-47 | the request posts to the project's like URL with the stored visitor identifier and `isLiking` equal to "not already liked"; after success the id is liked exactly when the request asked to like, and its count moved by +1 when liking and -1 when unliking |
| App.LikeThenUnlikeRestores | App.tsx:34-45 | liking and then unliking gives back the very same state |
| App.UnlikeThenLikeRestoresCounts | App.tsx:34-45 | unliking and then liking gives back every count and the set of liked ids |
| App.HandleAddComment | App.tsx:49-62 | a failed post changes nothing; otherwise the comment goes to the front of that project's list, other lists are untouched, and only that project's counter goes up by 1, keeping each project's counter-to-list gap |
| App.SendComment | App.tsx:49-62 | the request posts the content and author to the project's comments URL; that project's shown comments grow by one exactly when the request succeeded |
| ProjectModal.SubmitComment | components/ProjectModal.tsx:27-38 | blank text or a submission in flight sends nothing; otherwise the comment is posted as "匿名访客" and submitting ends; the text is cleared only on success, and a failure leaves the page as it was |
| ProjectModal.SubmitOnceOnly | components/ProjectModal.tsx:29-34 | a request is sent exactly when the text has a non-space character and nothing is in flight; after a successful send the cleared box sends nothing more |
| ProjectModal.CommentDate | components/ProjectModal.tsx:162 | the shown date is the first 'T'-separated piece of the timestamp |
| ProjectModal.CommentDateOfIso | components/ProjectModal.tsx:162 | for an ISO timestamp the date part before 'T' is shown, and a bare date is shown whole |
| Community.Open | components/Community.tsx:14-32 | the forum opens empty, filtered on "all", sorted "latest", with the author name remembered in storage, or empty |
| Community.ListOptions | components/Community.tsx:38-41 | the list request carries the category unless the filter is "all", always carries the sort, and carries no paging |
| Community.LoadDiscussions | components/Community.tsx:35-48 | the list is replaced by the answer on success and left alone on failure |
| Community.LoadReplies | components/Community.tsx:51-58 | the replies are replaced by the answer on success and left alone on failure |
| Community.HandleCreatePost | components/Community.tsx:71-93 | with a blank title, content or author nothing happens; otherwise the post is requested and the author remembered; success prepends the post, clears title and content and closes the form; failure keeps the list and the inputs |
| Community.PostGuardAndReset | components/Community.tsx:71-93 | a post is requested if and only if title, content and nickname each contain a non-whitespace character; after a created post an immediate second submit sends nothing, and the stored nickname is the one the panel reopens with |
| Community.HandleReply | components/Community.tsx:96-119 | with a blank reply or author, or no discussion selected, nothing happens; success appends the reply, clears the box and adds 1 to the reply count of the selected copy and of list entries with its id only; failure changes no list and keeps the text |
| Community.HandleLikeDiscussion | components/Community.tsx:122-134 | a failure changes nothing; success overwrites the like count of entries with the id, and of the selected copy when it has that id, and nothing else |
| Community.SendLikeDiscussion | components/Community.tsx:122-134 | the request posts, with no body and no identifier, to the discussion's like URL; failure changes nothing and success sets every listed copy's like count to the returned one |
| Community.HandlersKeepInStep | components/Community.tsx:96-134 | when the selected discussion equals its list entry, replying and liking keep the two equal |
| Community.LikeOverwriteIdempotent | components/Community.tsx:125-130 | applying the same server count twice is the same as once |
| Community.FormatTime | components/Community.tsx:137-150 | under 1 minute is "just now", then whole minutes up to 60, whole hours up to 24, whole days up to 30, and otherwise (or for an unreadable date) a calendar date; each number n satisfies n·unit <= age < (n+1)·unit |
| Community.FormatTimeMonotone | components/Community.tsx:137-150 | an older date never gets a label that reads as younger than a newer date's |
| Community.RenderTime | components/Community.tsx:145-149 | the label reads "刚刚", or the number followed by a space and the unit ("分钟前", "小时前", "天前"), which reads back to that number, or the calendar text |

## Left out

- Database engine, sessions, commits and app wiring (backend/database.py, backend/main.py): each route is one atomic transition on an in-memory database.
- Concurrent requests and async interleaving: each backend route and each frontend handler is modelled as atomic. Stale responses and double clicks racing the `submitting` flag are therefore not represented.
- `updated_at` refresh (the ORM `onupdate` hook on projects and discussions, backend/models.py:47 and :119): SQLAlchemy resets the column on every UPDATE of the row, not only on `PUT /projects/{id}`. The model keeps the stored value. So the contracts that say only the counter or the target row changes hold with `updated_at` frozen: `ProjectsRouter.ApplyUpdate`, `ProjectsRouter.UpdateProject`, `ProjectsRouter.ToggleLike` (projects.py:136,143), `CommentsRouter.CreateComment`, `CommentsRouter.DeleteComment`, `DiscussionsRouter.GetDiscussion` (discussions.py:68-70), `DiscussionsRouter.LikeDiscussion` and `DiscussionsRouter.CreateReply` (discussions.py:165-168). In the source `get_discussion` returns the refreshed row, so even that read changes a visible field. The round trips `ProjectsRouter.LikeThenUnlikeRestores` and `CommentsRouter.CreateThenDeleteRestores` give back the database up to that column.
- The row order of ties under `ORDER BY`: SQL leaves it unspecified. The model breaks ties stably, by scan order (`Ordering.SortDescStable`).
- NULL ordering: NULL timestamps sort last under DESC and first under ASC, as SQLite does.
- SQL integer width: counters are unbounded integers.
- The id and `created_at` of like rows: a like record is modelled as its (project, user) pair.
- Likes of a deleted project: `delete_project` leaves them in the table, and so does `ProjectsRouter.DeleteProject`. They are then counted by no project.
- The body of FastAPI's 422 validation error: `DiscussionsRouter.InvalidQuery` carries status 422 with an empty detail.
- JSON encoding, `encodeURIComponent` and URL decoding: `Api.ProjectsUrl` takes them as function parameters, and the discussion list query assumes values without '&'.
- Whitespace beyond ASCII: `Text.IsSpace` is tab, line feed, vertical tab, form feed, carriage return and space. JavaScript `trim` also strips the Unicode spaces and line separators.
- Config.CorsOriginsList: Python `str.strip` (backend/config.py:31) also strips the ASCII separators U+001C to U+001F, U+0085 and the Unicode spaces, which `Text.Trim` keeps. `Text.IsSpace` serves the JavaScript guards as well, and JavaScript `trim` keeps U+001C to U+001F.
- Clock and randomness: `Date.now()`, `Math.random()` and `utcnow()` are parameters. One instant `now` stands for every clock read of one request. The source reads the clock once per column default (backend/models.py:46-47, :118-120, :150), and `create_reply` sets `last_reply_at` (discussions.py:166) before the reply's `created_at` default fires at commit, so those values may differ by microseconds.
- Date parsing: `new Date(s)` is given as an optional millisecond count (absent when the string does not parse). The backend writes naive UTC `isoformat()` text with no offset (backend/schemas.py:84-85, 202-204, 240), and JavaScript reads such a date-time as local time, so `formatTime` (components/Community.tsx:138-140) sees ages shifted by the browser's UTC offset. `Community.FormatTime` takes the parsed milliseconds, which hides that mismatch.
- `toLocaleDateString`: it is a parameter of `Community.RenderTime`.
- `localStorage`: it is a `map<string, string>`.
- The reply reload effect (components/Community.tsx:64-68): it calls `loadReplies` whenever `selectedDiscussion` is replaced. This happens on opening a discussion, on every successful `handleReply` (:109), and on every successful `handleLikeDiscussion` of the open discussion (:129). Only `Community.LoadReplies` itself is modelled, not the effect. `getReplies` sends no paging (services/api.ts:169-170), so the reload gets the server's default page of 50 replies, oldest first. Once a discussion has 50 or more replies, the reply that `Community.HandleReply` appends is therefore replaced by a page without it.
- Loading and spinner flags, JSX, styling, Navbar and ProjectCard: these are presentation only.
- AI insight routes, the DeepSeek and Gemini clients and their fallback text: these are foreign network calls.
- The seeding scripts: these are one-off database I/O.
- Client calls with no logic of their own (`getProjectById`, `getComments`, `getDiscussion`, `likeReply` and `getStats`): each is one request whose outcome is `Api.Receive`, and the route it calls is modelled in the backend.
- Api.DiscussionsUrlRoundTrip: stated for category and sort values without '&', because percent-encoding is not modelled.

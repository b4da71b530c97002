/** The browser's API layer (services/api.ts): the persisted anonymous user
    identifier, the request each client call sends, the query strings of the
    project and discussion lists, and the rule that every call fails on a
    non-2xx status and otherwise yields the parsed body. */
module Api {
  import opened Wrappers
  import Text
  import ProjectsRouter

  const DefaultApiBase := "http://localhost:8000/api"

  /** `VITE_API_BASE_URL || default`: an unset or empty setting falls back. */
  function ApiBase(env: Option<string>): (r: string)
    ensures env.Some? && env.value != [] ==> r == env.value
    ensures env.None? || env.value == [] ==> r == DefaultApiBase
  {
    match env
    case Some(s) => if s != [] then s else DefaultApiBase
    case None => DefaultApiBase
  }

  // ==================== the anonymous identifier ====================

  /** The browser's `localStorage`. */
  type Storage = map<string, string>

  const UserIdentifierKey := "user_identifier"
  const UserIdPrefix := "user_"

  /** The value `localStorage.getItem(key)` treats as present: a stored
      non-empty string. */
  function Stored(storage: Storage, key: string): Option<string> {
    if key in storage && storage[key] != [] then Some(storage[key]) else None
  }

  /** A fresh identifier from the clock in milliseconds and a random suffix. */
  function NewIdentifier(nowMs: nat, suffix: string): string {
    UserIdPrefix + Text.NatToDecimal(nowMs) + "_" + suffix
  }

  /** The clock reading a generated identifier was made from. */
  function IdentifierTime(id: string): Option<nat> {
    if |id| > |UserIdPrefix| && id[..|UserIdPrefix|] == UserIdPrefix then
      var digits := Text.Before(id[|UserIdPrefix|..], '_');
      if digits != [] && forall i :: 0 <= i < |digits| ==> Text.IsDigit(digits[i]) then
        var v := Text.DecimalValue(digits);
        if v >= 0 then Some(v) else None
      else None
    else None
  }

  /** A generated identifier carries its prefix and can be read back to the
      clock reading that made it. */
  lemma NewIdentifierEncodesTime(nowMs: nat, suffix: string)
    ensures var id := NewIdentifier(nowMs, suffix);
      id[..|UserIdPrefix|] == UserIdPrefix && IdentifierTime(id) == Some(nowMs)
  {
    var id := NewIdentifier(nowMs, suffix);
    var digits := Text.NatToDecimal(nowMs);
    assert id[|UserIdPrefix|..] == digits + ['_'] + suffix;
    assert '_' !in digits;
    Text.BeforeAfterConcat(digits, suffix, '_');
    Text.DecimalRoundTrip(nowMs);
  }

  /** `getUserIdentifier()`: the stored identifier when there is one;
      otherwise a new one, which is stored. */
  function GetUserIdentifier(storage: Storage, nowMs: nat, suffix: string): (r: (string, Storage))
    ensures r.0 != []
    ensures Stored(storage, UserIdentifierKey).Some? ==> r == (storage[UserIdentifierKey], storage)
    ensures Stored(storage, UserIdentifierKey).None? ==>
      r.1 == storage[UserIdentifierKey := r.0] && IdentifierTime(r.0) == Some(nowMs)
    ensures Stored(r.1, UserIdentifierKey) == Some(r.0)
    ensures forall k :: k != UserIdentifierKey ==> (k in r.1 <==> k in storage)
  {
    match Stored(storage, UserIdentifierKey)
    case Some(id) => (id, storage)
    case None =>
      var id := NewIdentifier(nowMs, suffix);
      NewIdentifierEncodesTime(nowMs, suffix);
      (id, storage[UserIdentifierKey := id])
  }

  /** Once an identifier exists, every later call returns it and stores
      nothing, whatever the clock and the random source say. */
  lemma UserIdentifierStable(storage: Storage, now1: nat, suffix1: string, now2: nat, suffix2: string)
    ensures var first := GetUserIdentifier(storage, now1, suffix1);
      GetUserIdentifier(first.1, now2, suffix2) == first
  {
  }

  // ==================== requests ====================

  datatype Method = Get | Post

  /** The JSON bodies the client sends. */
  datatype Body =
    | NoBody
    | LikeBody(isLiking: bool)
    | CommentBody(content: string, author: string)
    | DiscussionBody(title: string, content: string, category: string, authorName: string)
    | ReplyBody(content: string, authorName: string, replyToId: Option<string>)

  /** One `fetch`: method, URL, the `X-User-Identifier` header if any, and
      the body. */
  datatype ApiCall = ApiCall(verb: Method, url: string, userIdentifier: Option<string>, body: Body)

  /** `toggleLike`: reads (and may create) the identifier, then posts the
      like body with it. */
  function ToggleLikeCall(base: string, storage: Storage, nowMs: nat, suffix: string, projectId: string, isLiking: bool): (r: (ApiCall, Storage))
    ensures r.0.verb == Post && r.0.body == LikeBody(isLiking)
    ensures r.0.url == base + "/projects/" + projectId + "/like"
    ensures r.0.userIdentifier.Some? && Stored(r.1, UserIdentifierKey) == r.0.userIdentifier
    ensures Stored(storage, UserIdentifierKey).Some? ==>
      r.0.userIdentifier == Stored(storage, UserIdentifierKey) && r.1 == storage
  {
    var (id, storage') := GetUserIdentifier(storage, nowMs, suffix);
    (ApiCall(Post, base + "/projects/" + projectId + "/like", Some(id), LikeBody(isLiking)), storage')
  }

  /** Two like toggles from the same browser carry the same identifier, so
      the server sees one user. */
  lemma TogglesShareIdentifier(base: string, storage: Storage, now1: nat, s1: string, now2: nat, s2: string,
                               id1: string, id2: string, like1: bool, like2: bool)
    ensures var first := ToggleLikeCall(base, storage, now1, s1, id1, like1);
      var second := ToggleLikeCall(base, first.1, now2, s2, id2, like2);
      second.0.userIdentifier == first.0.userIdentifier && second.1 == first.1
  {
  }

  function PostCommentCall(base: string, projectId: string, content: string, author: string): ApiCall {
    ApiCall(Post, base + "/projects/" + projectId + "/comments", None, CommentBody(content, author))
  }

  function CreateDiscussionCall(base: string, title: string, content: string, category: string, authorName: string): ApiCall {
    ApiCall(Post, base + "/discussions", None, DiscussionBody(title, content, category, authorName))
  }

  function CreateReplyCall(base: string, discussionId: string, content: string, authorName: string): ApiCall {
    ApiCall(Post, base + "/discussions/" + discussionId + "/replies", None, ReplyBody(content, authorName, None))
  }

  function LikeDiscussionCall(base: string, id: string): ApiCall {
    ApiCall(Post, base + "/discussions/" + id + "/like", None, NoBody)
  }

  function GetRepliesCall(base: string, discussionId: string): ApiCall {
    ApiCall(Get, base + "/discussions/" + discussionId + "/replies", None, NoBody)
  }

  // ==================== query strings ====================

  /** The path of a URL: everything before the first '?'. */
  function PathOf(url: string): string {
    Text.Before(url, '?')
  }

  /** The query of a URL: everything after the first '?', if there is one. */
  function QueryOf(url: string): Option<string> {
    if |Text.Before(url, '?')| < |url| then Some(Text.After(url, '?')) else None
  }

  lemma UrlParts(path: string, query: string)
    requires '?' !in path
    ensures PathOf(path + "?" + query) == path && QueryOf(path + "?" + query) == Some(query)
    ensures PathOf(path) == path && QueryOf(path) == None
  {
    Text.BeforeAfterConcat(path, query, '?');
  }

  /** `getAllProjects(category)`: the category goes into the query, through
      `encodeURIComponent`, only when given and not 'All'. */
  function ProjectsUrl(base: string, category: Option<string>, encode: string -> string): string {
    if ProjectsRouter.FiltersCategory(category) then base + "/projects?category=" + encode(category.value)
    else base + "/projects"
  }

  const CategoryParam := "category="

  /** The `category` parameter the backend reads from a projects URL. */
  function ServerCategory(url: string, decode: string -> string): Option<string> {
    match QueryOf(url)
    case None => None
    case Some(q) =>
      if |q| >= |CategoryParam| && q[..|CategoryParam|] == CategoryParam then Some(decode(q[|CategoryParam|..]))
      else None
  }

  /** The backend filters the project list exactly when the client asked for
      a category other than 'All', and by that category. */
  lemma ServerFiltersAsClientAsked(base: string, category: Option<string>, encode: string -> string, decode: string -> string)
    requires '?' !in base
    requires category.Some? ==> decode(encode(category.value)) == category.value
    ensures var url := ProjectsUrl(base, category, encode);
      && PathOf(url) == base + "/projects"
      && ProjectsRouter.FiltersCategory(ServerCategory(url, decode)) == ProjectsRouter.FiltersCategory(category)
      && (ProjectsRouter.FiltersCategory(category) ==> ServerCategory(url, decode) == category)
  {
    var path := base + "/projects";
    assert '?' !in path;
    if ProjectsRouter.FiltersCategory(category) {
      var q := CategoryParam + encode(category.value);
      assert ProjectsUrl(base, category, encode) == path + "?" + q;
      UrlParts(path, q);
      assert q[..|CategoryParam|] == CategoryParam && q[|CategoryParam|..] == encode(category.value);
    } else {
      UrlParts(path, "");
    }
  }

  /** The options of `getDiscussions`. */
  datatype DiscussionOptions = DiscussionOptions(
    category: Option<string>, sort: Option<string>, limit: Option<int>, offset: Option<int>)

  /** JavaScript truthiness of an optional string and an optional number. */
  predicate TruthyText(s: Option<string>) {
    s.Some? && s.value != []
  }

  predicate TruthyNumber(n: Option<int>) {
    n.Some? && n.value != 0
  }

  /** The `URLSearchParams` of `getDiscussions`: each option appended, in the
      order category, sort, limit, offset, only when truthy. */
  function DiscussionParams(o: DiscussionOptions): (r: seq<(string, string)>)
    ensures Lookup(r, "category") == (if TruthyText(o.category) then o.category else None)
    ensures Lookup(r, "sort") == (if TruthyText(o.sort) then o.sort else None)
    ensures Lookup(r, "limit") == (if TruthyNumber(o.limit) then Some(Text.IntToDecimal(o.limit.value)) else None)
    ensures Lookup(r, "offset") == (if TruthyNumber(o.offset) then Some(Text.IntToDecimal(o.offset.value)) else None)
  {
    var c, s, l, f := CategoryAppend(o), SortAppend(o), LimitAppend(o), OffsetAppend(o);
    LookupIn4(c, s, l, f, "category");
    LookupIn4(c, s, l, f, "sort");
    LookupIn4(c, s, l, f, "limit");
    LookupIn4(c, s, l, f, "offset");
    AppendLookups(o);
    c + s + l + f
  }

  /** Each `append` holds its own key and none of the others. */
  lemma AppendLookups(o: DiscussionOptions)
    ensures Lookup(CategoryAppend(o), "category") == (if TruthyText(o.category) then o.category else None)
    ensures Lookup(SortAppend(o), "sort") == (if TruthyText(o.sort) then o.sort else None)
    ensures Lookup(LimitAppend(o), "limit") == (if TruthyNumber(o.limit) then Some(Text.IntToDecimal(o.limit.value)) else None)
    ensures Lookup(OffsetAppend(o), "offset") == (if TruthyNumber(o.offset) then Some(Text.IntToDecimal(o.offset.value)) else None)
    ensures Lookup(CategoryAppend(o), "sort").None? && Lookup(CategoryAppend(o), "limit").None?
      && Lookup(CategoryAppend(o), "offset").None?
    ensures Lookup(SortAppend(o), "limit").None? && Lookup(SortAppend(o), "offset").None?
    ensures Lookup(LimitAppend(o), "offset").None?
  {
    assert "category" != "sort" && "category" != "limit" && "category" != "offset";
    assert "sort" != "limit" && "sort" != "offset" && "limit" != "offset";
  }

  /** The four `params.append` calls of `getDiscussions`, one at a time. */
  function CategoryAppend(o: DiscussionOptions): seq<(string, string)> {
    if TruthyText(o.category) then [("category", o.category.value)] else []
  }

  function SortAppend(o: DiscussionOptions): seq<(string, string)> {
    if TruthyText(o.sort) then [("sort", o.sort.value)] else []
  }

  function LimitAppend(o: DiscussionOptions): seq<(string, string)> {
    if TruthyNumber(o.limit) then [("limit", Text.IntToDecimal(o.limit.value))] else []
  }

  function OffsetAppend(o: DiscussionOptions): seq<(string, string)> {
    if TruthyNumber(o.offset) then [("offset", Text.IntToDecimal(o.offset.value))] else []
  }

  lemma LookupIn4(c: seq<(string, string)>, s: seq<(string, string)>, l: seq<(string, string)>,
                  f: seq<(string, string)>, key: string)
    ensures Lookup(c + s + l + f, key) ==
      if Lookup(c, key).Some? then Lookup(c, key)
      else if Lookup(s, key).Some? then Lookup(s, key)
      else if Lookup(l, key).Some? then Lookup(l, key)
      else Lookup(f, key)
  {
    LookupConcat(c + s + l, f, key);
    LookupConcat(c + s, l, key);
    LookupConcat(c, s, key);
  }

  /** The first occurrence of a key in a concatenation is in the first part
      if it is there at all. */
  lemma {:induction false} LookupConcat(a: seq<(string, string)>, b: seq<(string, string)>, key: string)
    ensures Lookup(a + b, key) == if Lookup(a, key).Some? then Lookup(a, key) else Lookup(b, key)
    decreases |a|
  {
    if a != [] {
      LookupConcat(a[1..], b, key);
      assert (a + b)[1..] == a[1..] + b;
    } else {
      assert a + b == b;
    }
  }

  /** The parameters are in the client's appending order. */
  predicate Ranked(ps: seq<(string, string)>) {
    forall i, j :: 0 <= i < j < |ps| ==> ParamRank(ps[i].0) < ParamRank(ps[j].0)
  }

  /** Every parameter of `ps` ranks below `k`. */
  predicate RankedBelow(ps: seq<(string, string)>, k: int) {
    forall i :: 0 <= i < |ps| ==> ParamRank(ps[i].0) < k
  }

  /** Every parameter of `ps` ranks at `k` or above. */
  predicate RankedFrom(ps: seq<(string, string)>, k: int) {
    forall i :: 0 <= i < |ps| ==> ParamRank(ps[i].0) >= k
  }

  lemma RankedConcat(a: seq<(string, string)>, b: seq<(string, string)>, k: int)
    requires Ranked(a) && Ranked(b) && RankedBelow(a, k) && RankedFrom(b, k)
    ensures Ranked(a + b)
  {
    forall i, j | 0 <= i < j < |a + b|
      ensures ParamRank((a + b)[i].0) < ParamRank((a + b)[j].0)
    {
      if j < |a| {
      } else if i >= |a| {
        assert (a + b)[i] == b[i - |a|] && (a + b)[j] == b[j - |a|];
      } else {
        assert (a + b)[j] == b[j - |a|];
      }
    }
  }

  lemma BelowConcat(a: seq<(string, string)>, b: seq<(string, string)>, k: int)
    requires RankedBelow(a, k) && RankedBelow(b, k)
    ensures RankedBelow(a + b, k)
  {
    forall i | 0 <= i < |a + b|
      ensures ParamRank((a + b)[i].0) < k
    {
      if i >= |a| {
        assert (a + b)[i] == b[i - |a|];
      }
    }
  }

  /** `getDiscussions` appends category, sort, limit and offset in that
      order. */
  lemma DiscussionParamsOrdered(o: DiscussionOptions)
    ensures Ranked(DiscussionParams(o))
  {
    RankedPieces(CategoryAppend(o), SortAppend(o), LimitAppend(o), OffsetAppend(o));
  }

  /** Four pieces of at most one parameter each, of ranks 0 to 3 in turn,
      concatenate to a ranked sequence. */
  lemma RankedPieces(c: seq<(string, string)>, s: seq<(string, string)>, l: seq<(string, string)>, f: seq<(string, string)>)
    requires Single(c, 0) && Single(s, 1) && Single(l, 2) && Single(f, 3)
    ensures Ranked(c + s + l + f)
  {
    SingleRanked(c, 0);
    SingleRanked(s, 1);
    SingleRanked(l, 2);
    SingleRanked(f, 3);
    RankedConcat(c, s, 1);
    BelowConcat(c, s, 2);
    RankedConcat(c + s, l, 2);
    BelowConcat(c + s, l, 3);
    RankedConcat(c + s + l, f, 3);
  }

  /** At most one parameter, of rank `k`. */
  predicate Single(ps: seq<(string, string)>, k: int) {
    |ps| <= 1 && (ps != [] ==> ParamRank(ps[0].0) == k)
  }

  lemma SingleRanked(ps: seq<(string, string)>, k: int)
    requires Single(ps, k)
    ensures Ranked(ps) && RankedBelow(ps, k + 1) && RankedFrom(ps, k)
  {
  }

  /** Position of a parameter name in the order the client appends them. */
  function ParamRank(key: string): int {
    if key == "category" then 0 else if key == "sort" then 1 else if key == "limit" then 2
    else if key == "offset" then 3 else 4
  }

  /** The first value of a parameter (`URLSearchParams.get`). */
  function Lookup(ps: seq<(string, string)>, key: string): (r: Option<string>)
    ensures r.Some? ==> (key, r.value) in ps
    ensures r.None? <==> forall i :: 0 <= i < |ps| ==> ps[i].0 != key
    decreases |ps|
  {
    if ps == [] then None
    else if ps[0].0 == key then Some(ps[0].1)
    else Lookup(ps[1..], key)
  }

  function Param(p: (string, string)): string {
    p.0 + "=" + p.1
  }

  /** `params.toString()`: `key=value` pairs joined by '&'. Form encoding of
      the values is left out. */
  function QueryString(ps: seq<(string, string)>): string {
    Text.Join(seq(|ps|, i requires 0 <= i < |ps| => Param(ps[i])), '&')
  }

  /** How the backend reads a query string back into parameters. */
  function ParseQuery(q: string): seq<(string, string)> {
    if q == [] then []
    else
      var pieces := Text.Split(q, '&');
      seq(|pieces|, i requires 0 <= i < |pieces| => (Text.Before(pieces[i], '='), Text.After(pieces[i], '=')))
  }

  /** A parameter the query syntax can carry unchanged. */
  predicate PlainParam(p: (string, string)) {
    '&' !in p.0 && '=' !in p.0 && '&' !in p.1
  }

  /** Parsing a rendered query gives back its parameters, in order. */
  lemma QueryRoundTrip(ps: seq<(string, string)>)
    requires forall i :: 0 <= i < |ps| ==> PlainParam(ps[i])
    ensures ParseQuery(QueryString(ps)) == ps
  {
    var pieces := seq(|ps|, i requires 0 <= i < |ps| => Param(ps[i]));
    if ps != [] {
      forall i | 0 <= i < |ps|
        ensures '&' !in pieces[i]
      {
        assert pieces[i] == ps[i].0 + ['='] + ps[i].1;
      }
      Text.SplitJoin(pieces, '&');
      assert pieces[0] != [];
      assert Text.Split([], '&') == [[]];
      forall i | 0 <= i < |ps|
        ensures (Text.Before(pieces[i], '='), Text.After(pieces[i], '=')) == ps[i]
      {
        assert pieces[i] == ps[i].0 + ['='] + ps[i].1;
        Text.BeforeAfterConcat(ps[i].0, ps[i].1, '=');
      }
    }
  }

  /** `getDiscussions(options)`: the query is attached, after a '?', only
      when some parameter was appended. */
  function DiscussionsUrl(base: string, o: DiscussionOptions): string {
    var ps := DiscussionParams(o);
    base + "/discussions" + (if ps != [] then "?" + QueryString(ps) else "")
  }

  /** Every parameter `getDiscussions` appends survives the query syntax
      when the category and sort carry no '&'. */
  lemma DiscussionParamsArePlain(o: DiscussionOptions)
    requires o.category.Some? ==> '&' !in o.category.value
    requires o.sort.Some? ==> '&' !in o.sort.value
    ensures forall i :: 0 <= i < |DiscussionParams(o)| ==> PlainParam(DiscussionParams(o)[i])
  {
    var c, s, l, f := CategoryAppend(o), SortAppend(o), LimitAppend(o), OffsetAppend(o);
    NoAmpersandInNumber(o.limit);
    NoAmpersandInNumber(o.offset);
    PlainConcat(c, s);
    PlainConcat(c + s, l);
    PlainConcat(c + s + l, f);
  }

  lemma PlainConcat(a: seq<(string, string)>, b: seq<(string, string)>)
    requires forall i :: 0 <= i < |a| ==> PlainParam(a[i])
    requires forall i :: 0 <= i < |b| ==> PlainParam(b[i])
    ensures forall i :: 0 <= i < |a + b| ==> PlainParam((a + b)[i])
  {
  }

  /** The request URL has a query exactly when some option was truthy, and
      the backend reads back exactly the appended parameters. */
  lemma DiscussionsUrlRoundTrip(base: string, o: DiscussionOptions)
    requires '?' !in base
    requires o.category.Some? ==> '&' !in o.category.value
    requires o.sort.Some? ==> '&' !in o.sort.value
    ensures var url := DiscussionsUrl(base, o);
      && PathOf(url) == base + "/discussions"
      && (QueryOf(url).Some? <==> TruthyText(o.category) || TruthyText(o.sort)
                                  || TruthyNumber(o.limit) || TruthyNumber(o.offset))
      && (QueryOf(url).Some? ==> ParseQuery(QueryOf(url).value) == DiscussionParams(o))
  {
    var ps := DiscussionParams(o);
    var path := base + "/discussions";
    assert '?' !in path;
    assert ps != [] <==> TruthyText(o.category) || TruthyText(o.sort)
                         || TruthyNumber(o.limit) || TruthyNumber(o.offset) by {
      if ps == [] {
        assert Lookup(ps, "category").None? && Lookup(ps, "sort").None?;
        assert Lookup(ps, "limit").None? && Lookup(ps, "offset").None?;
      }
    }
    if ps != [] {
      assert DiscussionsUrl(base, o) == path + "?" + QueryString(ps);
      UrlParts(path, QueryString(ps));
      DiscussionParamsArePlain(o);
      QueryRoundTrip(ps);
    } else {
      assert DiscussionsUrl(base, o) == path;
      UrlParts(path, "");
    }
  }

  lemma NoAmpersandInNumber(n: Option<int>)
    ensures n.Some? ==> '&' !in Text.IntToDecimal(n.value)
  {
    if n.Some? && n.value < 0 {
      assert Text.IntToDecimal(n.value) == "-" + Text.NatToDecimal(-n.value);
    }
  }

  /** Because `0` is falsy, a limit or offset of 0 is never sent, so the
      backend uses its defaults (20 rows from the start) instead of
      rejecting the limit. */
  lemma ZeroPagingUsesServerDefaults(o: DiscussionOptions)
    requires o.limit == Some(0) && o.offset == Some(0)
    ensures Lookup(DiscussionParams(o), "limit").None? && Lookup(DiscussionParams(o), "offset").None?
  {
  }

  // ==================== responses ====================

  const HttpErrorPrefix := "HTTP error! status: "

  /** The outcome of one awaited call: the parsed body when the status is
      2xx (`response.ok`), otherwise the `HTTP error! status: N` error. */
  function Receive<T>(status: nat, body: T): (r: Result<T>)
    ensures r.Ok? <==> 200 <= status <= 299
    ensures r.Ok? ==> r.value == body
    ensures r.Err? ==> r.error.status == status
  {
    if 200 <= status <= 299 then Ok(body)
    else Err(HttpError(status, HttpErrorPrefix + Text.NatToDecimal(status)))
  }

  /** The status a client error message names. */
  function StatusInMessage(message: string): Option<nat> {
    if |message| >= |HttpErrorPrefix| && message[..|HttpErrorPrefix|] == HttpErrorPrefix then
      Text.ParseNat(message[|HttpErrorPrefix|..])
    else None
  }

  /** The error message of a failed call names its status. */
  lemma ErrorMessageNamesStatus<T>(status: nat, body: T)
    ensures var r := Receive(status, body);
      r.Err? ==> StatusInMessage(r.error.detail) == Some(status)
  {
    var m := HttpErrorPrefix + Text.NatToDecimal(status);
    assert m[..|HttpErrorPrefix|] == HttpErrorPrefix;
    assert m[|HttpErrorPrefix|..] == Text.NatToDecimal(status);
    Text.NatRoundTrip(status);
  }
}

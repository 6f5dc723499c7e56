/** The message handlers: the content filter, the channel page query with
    its limit/offset normalisation and `hasMore`, `sendMessage`, and the
    direct-message history between two users. The database query itself
    (`findAndCountAll`, `findAll`) is modelled by the functions `Select`,
    `NewestFirst` and `Window` over the rows of the `messages` table. */
module MessageController {
  import opened Common
  import opened Strings
  import opened Like
  import opened MessageModel
  import opened UserModel
  import UserController

  // ----- buildContentFilter -----

  datatype MatchMode = Substring | Prefix | Suffix | Exact

  /** The `switch (matchType)`: anything unrecognised, and an absent value
      (the default `'substring'`), falls to the substring case. */
  function ModeOf(matchType: Field): (mode: MatchMode)
    ensures mode == Prefix <==> matchType == Some("prefix")
    ensures mode == Suffix <==> matchType == Some("suffix")
    ensures mode == Exact <==> matchType == Some("exact")
  {
    if matchType == Some("prefix") then Prefix
    else if matchType == Some("suffix") then Suffix
    else if matchType == Some("exact") then Exact
    else Substring
  }

  /** The text of an optional query, `''` when it is absent. */
  function QueryText(query: Field): string
  {
    if query.Some? then query.value else ""
  }

  /** `buildContentFilter(query, matchType)`: the ILIKE pattern for the
      trimmed query, or `None` (the source's `null`, no filter at all) when
      nothing is left after trimming. */
  function BuildContentFilter(query: Field, matchType: Field): (r: Option<string>)
    ensures r.None? <==> AllSpace(QueryText(query))
    ensures r.Some? ==> |Trim(QueryText(query))| >= 1
    ensures r.Some? && ModeOf(matchType) == Prefix ==> r.value == Trim(QueryText(query)) + "%"
    ensures r.Some? && ModeOf(matchType) == Suffix ==> r.value == "%" + Trim(QueryText(query))
    ensures r.Some? && ModeOf(matchType) == Exact ==> r.value == Trim(QueryText(query))
    ensures r.Some? && ModeOf(matchType) == Substring ==> r.value == "%" + Trim(QueryText(query)) + "%"
  {
    var q := Trim(QueryText(query));
    TrimEmptyIffAllSpace(QueryText(query));
    if q == [] then None
    else match ModeOf(matchType)
      case Prefix => Some(q + "%")
      case Suffix => Some("%" + q)
      case Exact => Some(q)
      case Substring => Some("%" + q + "%")
  }

  /** What each match mode means for a text, up to case. */
  ghost predicate ModeAccepts(mode: MatchMode, q: string, t: string)
  {
    match mode
    case Exact => Lower(q) == Lower(t)
    case Prefix => OccursAt(q, t, 0)
    case Suffix => OccursAt(q, t, |t| - |q|)
    case Substring => exists i :: OccursAt(q, t, i)
  }

  /** For a query with no wildcard characters, the pattern
      `buildContentFilter` builds accepts exactly the texts that contain,
      start with, end with or equal the trimmed query, up to case. */
  lemma ContentFilterMeaning(query: string, matchType: Field, t: string)
    requires Trim(query) != [] && Literal(Trim(query))
    ensures BuildContentFilter(Some(query), matchType).Some?
    ensures Matches(BuildContentFilter(Some(query), matchType).value, t)
        <==> ModeAccepts(ModeOf(matchType), Trim(query), t)
  {
    TrimEmptyIffAllSpace(query);
    var q := Trim(query);
    match ModeOf(matchType)
    case Prefix => PrefixMeaning(q, t);
    case Suffix => SuffixMeaning(q, t);
    case Exact => ExactMeaning(q, t);
    case Substring => SubstringMeaning(q, t);
  }

  // ----- limit and offset -----

  function Min(a: int, b: int): int
  {
    if a < b then a else b
  }

  /** `Math.min(parseInt(limit, 10) || 15, 100)`, where an absent `limit`
      is the number 15. A parse that fails (NaN) or gives 0 becomes 15,
      anything above 100 becomes 100, and nothing is raised: a negative
      limit goes through unchanged. */
  function EffectiveLimit(raw: Field): (n: int)
    ensures n <= 100 && n != 0
    ensures raw.None? || ParseInt(raw.value).None? || ParseInt(raw.value) == Some(0) ==> n == 15
    ensures raw.Some? && ParseInt(raw.value).Some? && ParseInt(raw.value).value != 0 ==>
      n == Min(ParseInt(raw.value).value, 100)
  {
    var parsed := if raw.None? then Some(15) else ParseInt(raw.value);
    var n := if parsed.None? || parsed.value == 0 then 15 else parsed.value;
    Min(n, 100)
  }

  /** `parseInt(offset, 10) || 0`, where an absent `offset` is the number 0:
      a failed parse gives 0 and every number, negative ones included,
      goes through unchanged. */
  function EffectiveOffset(raw: Field): (n: int)
    ensures raw.None? || ParseInt(raw.value).None? ==> n == 0
    ensures raw.Some? && ParseInt(raw.value).Some? ==> n == ParseInt(raw.value).value
  {
    var parsed := if raw.None? then Some(0) else ParseInt(raw.value);
    if parsed.None? then 0 else parsed.value
  }

  /** A `limit` sent as the decimal form of `n` is served as `n` capped at
      100, except that 0 means 15. */
  lemma LimitOfDecimal(n: int)
    ensures EffectiveLimit(Some(ShowInt(n))) == if n == 0 then 15 else Min(n, 100)
  {
    ParseShowInt(n);
  }

  /** An `offset` sent as the decimal form of `n` is served as `n` itself. */
  lemma OffsetOfDecimal(n: int)
    ensures EffectiveOffset(Some(ShowInt(n))) == n
  {
    ParseShowInt(n);
  }

  // ----- selecting rows -----

  /** Rows in strictly increasing creation order. */
  ghost predicate Chronological(ms: seq<Message>)
  {
    forall j, k :: 0 <= j < k < |ms| ==> ms[j].createdAt < ms[k].createdAt
  }

  /** The rows that satisfy `keep`, in table order. */
  function Select(rows: seq<Message>, keep: Message -> bool): (r: seq<Message>)
    ensures |r| <= |rows|
    ensures forall k :: 0 <= k < |r| ==> r[k] in rows && keep(r[k])
    ensures forall k :: 0 <= k < |rows| && keep(rows[k]) ==> rows[k] in r
  {
    if rows == [] then []
    else (if keep(rows[0]) then [rows[0]] else []) + Select(rows[1..], keep)
  }

  /** Each kept row occurs in the selection as often as in the table, and
      no other row occurs in it. */
  lemma {:induction false} SelectCount(rows: seq<Message>, keep: Message -> bool, x: Message)
    ensures multiset(Select(rows, keep))[x] == if keep(x) then multiset(rows)[x] else 0
  {
    if rows != [] {
      SelectCount(rows[1..], keep, x);
      assert rows == [rows[0]] + rows[1..];
      assert multiset(rows) == multiset([rows[0]]) + multiset(rows[1..]);
      var head := if keep(rows[0]) then [rows[0]] else [];
      assert Select(rows, keep) == head + Select(rows[1..], keep);
      assert multiset(Select(rows, keep)) == multiset(head) + multiset(Select(rows[1..], keep));
    }
  }

  /** Selecting from a chronological table keeps the order. */
  lemma {:induction false} SelectChronological(rows: seq<Message>, keep: Message -> bool)
    requires Chronological(rows)
    ensures Chronological(Select(rows, keep))
  {
    if rows != [] {
      var rest := rows[1..];
      var tail := Select(rest, keep);
      assert Chronological(rest) by {
        forall j, k | 0 <= j < k < |rest| ensures rest[j].createdAt < rest[k].createdAt {
          assert rest[j] == rows[j + 1] && rest[k] == rows[k + 1];
        }
      }
      SelectChronological(rest, keep);
      forall k | 0 <= k < |tail| ensures rows[0].createdAt < tail[k].createdAt {
        var i :| 0 <= i < |rest| && rest[i] == tail[k];
        assert rest[i] == rows[i + 1];
      }
      if keep(rows[0]) {
        assert Select(rows, keep) == [rows[0]] + tail;
        ChronologicalCons(rows[0], tail);
      } else {
        assert Select(rows, keep) == tail;
      }
    }
  }

  lemma ChronologicalCons(m: Message, ms: seq<Message>)
    requires Chronological(ms)
    requires forall k :: 0 <= k < |ms| ==> m.createdAt < ms[k].createdAt
    ensures Chronological([m] + ms)
  {
    var r := [m] + ms;
    forall j, k | 0 <= j < k < |r| ensures r[j].createdAt < r[k].createdAt {
      assert r[k] == ms[k - 1];
      if j > 0 {
        assert r[j] == ms[j - 1];
      }
    }
  }

  /** Two selections that agree on every row of the table are the same. */
  lemma {:induction false} SelectSame(rows: seq<Message>, keep1: Message -> bool, keep2: Message -> bool)
    requires forall k :: 0 <= k < |rows| ==> keep1(rows[k]) == keep2(rows[k])
    ensures Select(rows, keep1) == Select(rows, keep2)
  {
    if rows != [] {
      assert keep1(rows[0]) == keep2(rows[0]);
      forall k | 0 <= k < |rows[1..]| ensures keep1(rows[1..][k]) == keep2(rows[1..][k]) {
        assert rows[1..][k] == rows[k + 1];
      }
      SelectSame(rows[1..], keep1, keep2);
    }
  }

  function Reverse<T>(s: seq<T>): (r: seq<T>)
    ensures |r| == |s| && forall k :: 0 <= k < |s| ==> r[k] == s[|s| - 1 - k]
  {
    if s == [] then [] else Reverse(s[1..]) + [s[0]]
  }

  /** The part of `s` that `LIMIT limit OFFSET offset` returns. */
  function Window<T>(s: seq<T>, offset: nat, limit: nat): (r: seq<T>)
    ensures |r| <= limit
    ensures |r| == Min(offset + limit, |s|) - Min(offset, |s|)
    ensures forall k :: 0 <= k < |r| ==> r[k] == s[offset + k]
  {
    s[Min(offset, |s|)..Min(offset + limit, |s|)]
  }

  // ----- the channel page -----

  /** The query parameters of `GET /channel/:channelId`. */
  datatype ChannelQuery = ChannelQuery(
    channelId: Id,
    limit: Field,
    offset: Field,
    authorUsername: Field,
    contentQuery: Field,
    matchType: Field)

  /** The `where` of the message query and the `where` of the author
      include: the content pattern is present only when
      `buildContentFilter` gave one, the author pattern only when
      `authorUsername` is truthy. */
  datatype Criteria = Criteria(channelId: Id, content: Option<string>, author: Option<string>)

  /** A message with the author fields joined in (`null` when the author row
      is missing). */
  datatype MessageView = MessageView(message: Message, author: Option<AuthorView>)

  function AuthorViewOf(users: seq<User>, id: Id): Option<AuthorView>
  {
    match UserController.FindById(users, id)
    case None => None
    case Some(u) => Some(AuthorOf(u))
  }

  function ViewOf(users: seq<User>, m: Message): MessageView
  {
    MessageView(m, AuthorViewOf(users, m.authorId))
  }

  function Views(users: seq<User>, ms: seq<Message>): (r: seq<MessageView>)
    ensures |r| == |ms| && forall k :: 0 <= k < |ms| ==> r[k] == ViewOf(users, ms[k])
  {
    seq(|ms|, k requires 0 <= k < |ms| => ViewOf(users, ms[k]))
  }

  /** A row belongs to the result: it is in the channel, its content matches
      the content pattern if there is one, and if an author pattern is given
      (an inner join, `required: true`) its author exists and the username
      matches that pattern. */
  predicate Selected(c: Criteria, users: seq<User>, m: Message)
  {
    && m.channelId == Some(c.channelId)
    && (c.content.None? || Matches(c.content.value, m.content))
    && (c.author.None? ||
        var author := UserController.FindById(users, m.authorId);
        author.Some? && Matches(c.author.value, author.value.username))
  }

  /** All rows the query selects, in table order. */
  function Matching(rows: seq<Message>, c: Criteria, users: seq<User>): seq<Message>
  {
    Select(rows, m => Selected(c, users, m))
  }

  /** All rows the query selects, newest first (`ORDER BY createdAt DESC`
      over a table kept in creation order). */
  function NewestFirst(rows: seq<Message>, c: Criteria, users: seq<User>): seq<Message>
  {
    Reverse(Matching(rows, c, users))
  }

  /** The result of `fetchMessagesByChannel`. */
  datatype PageResult = PageResult(messages: seq<MessageView>, count: nat, limit: int, offset: int)

  /** `findAndCountAll` with the given criteria, `limit` and `offset`:
      `None` when the database rejects the query, which PostgreSQL does for
      a negative LIMIT or OFFSET. */
  function FindAndCountAll(rows: seq<Message>, c: Criteria, users: seq<User>, limit: int, offset: int)
    : Option<PageResult>
  {
    if limit < 0 || offset < 0 then None
    else
      var all := NewestFirst(rows, c, users);
      Some(PageResult(Views(users, Window(all, offset, limit)), |all|, limit, offset))
  }

  /** `hasMore` as `getMessagesByChannel` computes it. */
  function HasMore(offset: int, pageLength: nat, total: nat): bool
  {
    offset + pageLength < total
  }

  /** The body of a successful `getMessagesByChannel`. */
  datatype Feed = Feed(count: nat, total: nat, hasMore: bool, data: seq<MessageView>)

  /** A served page: every item is a message of the channel that passes
      both filters, items are newest first, there are at most `limit` of
      them, `count` is the number of all selected rows, and the page is
      exactly the window `PageIsWindow` describes. */
  lemma PageProperties(rows: seq<Message>, c: Criteria, users: seq<User>, limit: int, offset: int)
    requires Chronological(rows)
    requires FindAndCountAll(rows, c, users, limit, offset).Some?
    ensures var p := FindAndCountAll(rows, c, users, limit, offset).value;
      && |p.messages| <= limit
      && p.count == |Select(rows, m => Selected(c, users, m))|
      && (forall k :: 0 <= k < |p.messages| ==>
            p.messages[k].message in rows && Selected(c, users, p.messages[k].message)
            && p.messages[k].message.channelId == Some(c.channelId))
      && (forall j, k :: 0 <= j < k < |p.messages| ==>
            p.messages[j].message.createdAt > p.messages[k].message.createdAt)
  {
    NewestWindowSelected(rows, c, users, limit, offset);
    NewestWindowOrder(rows, c, users, limit, offset);
  }

  /** The page holds the selected rows that follow the first `offset` of
      them counted from the newest, as many as `limit` allows: the `k`-th
      item is the `k`-th selected row after those, from the newest end. */
  lemma PageIsWindow(rows: seq<Message>, c: Criteria, users: seq<User>, limit: int, offset: int)
    requires FindAndCountAll(rows, c, users, limit, offset).Some?
    ensures var p := FindAndCountAll(rows, c, users, limit, offset).value;
      var sel := Matching(rows, c, users);
      && |p.messages| == Min(offset + limit, |sel|) - Min(offset, |sel|)
      && (forall k :: 0 <= k < |p.messages| ==> p.messages[k].message == sel[|sel| - 1 - (offset + k)])
  {
    assert limit >= 0 && offset >= 0;
    var sel := Matching(rows, c, users);
    var w := Window(NewestFirst(rows, c, users), offset, limit);
    WindowOfReverse(sel, offset, limit);
    var page := FindAndCountAll(rows, c, users, limit, offset).value.messages;
    assert page == Views(users, w);
    forall k | 0 <= k < |page| ensures page[k].message == sel[|sel| - 1 - (offset + k)] {
      assert page[k] == ViewOf(users, w[k]);
    }
  }

  /** A window of a reversed sequence, read from the far end. */
  lemma WindowOfReverse<T>(s: seq<T>, offset: nat, limit: nat)
    ensures var w := Window(Reverse(s), offset, limit);
      && |w| == Min(offset + limit, |s|) - Min(offset, |s|)
      && forall k :: 0 <= k < |w| ==> w[k] == s[|s| - 1 - (offset + k)]
  {
  }

  /** The rows of a window of the newest-first selection are selected rows. */
  lemma NewestWindowSelected(rows: seq<Message>, c: Criteria, users: seq<User>, limit: nat, offset: nat)
    ensures var w := Window(NewestFirst(rows, c, users), offset, limit);
      forall k :: 0 <= k < |w| ==> w[k] in rows && Selected(c, users, w[k])
  {
    var sel := Select(rows, m => Selected(c, users, m));
    var w := Window(NewestFirst(rows, c, users), offset, limit);
    forall k | 0 <= k < |w| ensures w[k] in rows && Selected(c, users, w[k]) {
      assert w[k] == sel[|sel| - 1 - (offset + k)];
    }
  }

  /** Over a chronological table, a window of the newest-first selection
      is strictly newest first. */
  lemma NewestWindowOrder(rows: seq<Message>, c: Criteria, users: seq<User>, limit: nat, offset: nat)
    requires Chronological(rows)
    ensures var w := Window(NewestFirst(rows, c, users), offset, limit);
      forall j, k :: 0 <= j < k < |w| ==> w[j].createdAt > w[k].createdAt
  {
    var sel := Select(rows, m => Selected(c, users, m));
    SelectChronological(rows, m => Selected(c, users, m));
    ReverseWindowDescending(sel, limit, offset);
  }

  lemma ReverseWindowDescending(s: seq<Message>, limit: nat, offset: nat)
    requires Chronological(s)
    ensures var w := Window(Reverse(s), offset, limit);
      forall j, k :: 0 <= j < k < |w| ==> w[j].createdAt > w[k].createdAt
  {
    var w := Window(Reverse(s), offset, limit);
    forall j, k | 0 <= j < k < |w| ensures w[j].createdAt > w[k].createdAt {
      assert w[j] == s[|s| - 1 - (offset + j)];
      assert w[k] == s[|s| - 1 - (offset + k)];
    }
  }

  /** `hasMore` holds exactly when selected rows remain after this page. */
  lemma HasMoreIff(rows: seq<Message>, c: Criteria, users: seq<User>, limit: int, offset: int)
    requires FindAndCountAll(rows, c, users, limit, offset).Some?
    ensures var p := FindAndCountAll(rows, c, users, limit, offset).value;
      HasMore(p.offset, |p.messages|, p.count) <==> offset + limit < p.count
  {
  }

  /** The `messages` table is well formed: rows in creation order, each
      row valid and older than `clock`, ids distinct. */
  ghost predicate Consistent(rows: seq<Message>, clock: int)
  {
    && Chronological(rows)
    && (forall k :: 0 <= k < |rows| ==> ValidMessage(rows[k]) && rows[k].createdAt < clock)
    && (forall j, k :: 0 <= j < k < |rows| ==> rows[j].id != rows[k].id)
  }

  /** Some row already has the primary key `id`. */
  predicate IdTaken(rows: seq<Message>, id: Id)
  {
    exists k :: 0 <= k < |rows| && rows[k].id == id
  }

  /** Inserting a valid row stamped with the clock under a fresh id keeps
      the table well formed once the clock moves on. */
  lemma InsertKeeps(rows: seq<Message>, clock: int, m: Message)
    requires Consistent(rows, clock)
    requires ValidMessage(m) && m.createdAt == clock && !IdTaken(rows, m.id)
    ensures Consistent(rows + [m], clock + 1)
  {
    var r := rows + [m];
    forall j, k | 0 <= j < k < |r| ensures r[j].createdAt < r[k].createdAt && r[j].id != r[k].id {
      assert r[j] == rows[j];
      if k < |rows| {
        assert r[k] == rows[k];
      }
    }
  }

  class MessageTable {
    var rows: seq<Message>
    /** The next creation timestamp the database hands out. */
    var clock: int

    ghost predicate Valid()
      reads this
    {
      Consistent(rows, clock)
    }

    constructor ()
      ensures Valid() && rows == []
    {
      rows := [];
      clock := 0;
    }

    /** `fetchMessagesByChannel`: normalise `limit` and `offset`, build the
        `where` (adding the content pattern only when there is one) and run
        the query. */
    method FetchMessagesByChannel(q: ChannelQuery, users: seq<User>) returns (r: Option<PageResult>)
      ensures r == FindAndCountAll(rows,
                    Criteria(q.channelId, BuildContentFilter(q.contentQuery, q.matchType),
                             if Truthy(q.authorUsername) then Some(Trim(q.authorUsername.value)) else None),
                    users, EffectiveLimit(q.limit), EffectiveOffset(q.offset))
    {
      var safeLimit := EffectiveLimit(q.limit);
      var safeOffset := EffectiveOffset(q.offset);
      var author := if Truthy(q.authorUsername) then Some(Trim(q.authorUsername.value)) else None;
      var where := Criteria(q.channelId, None, author);
      var contentFilter := BuildContentFilter(q.contentQuery, q.matchType);
      if contentFilter.Some? {
        where := where.(content := contentFilter);
      }
      r := FindAndCountAll(rows, where, users, safeLimit, safeOffset);
    }

    /** `getMessagesByChannel`: the page with its size, the total and
        `hasMore`; a rejected query is the catch-all 500. */
    method GetMessagesByChannel(q: ChannelQuery, users: seq<User>) returns (r: Reply<Feed>)
      ensures r.InternalError? <==> EffectiveLimit(q.limit) < 0 || EffectiveOffset(q.offset) < 0
      ensures r.Answer? ==>
        var c := Criteria(q.channelId, BuildContentFilter(q.contentQuery, q.matchType),
                          if Truthy(q.authorUsername) then Some(Trim(q.authorUsername.value)) else None);
        var p := FindAndCountAll(rows, c, users, EffectiveLimit(q.limit), EffectiveOffset(q.offset));
        && p.Some?
        && r.body == Feed(|p.value.messages|, p.value.count,
                          HasMore(EffectiveOffset(q.offset), |p.value.messages|, p.value.count),
                          p.value.messages)
        && (forall k :: 0 <= k < |r.body.data| ==> Selected(c, users, r.body.data[k].message))
      ensures r.Answer? ==>
        && r.status == 200
        && r.body.count == |r.body.data| <= EffectiveLimit(q.limit)
        && (r.body.hasMore <==> EffectiveOffset(q.offset) + EffectiveLimit(q.limit) < r.body.total)
      ensures r.Answer? ==> forall k :: 0 <= k < |r.body.data| ==>
        r.body.data[k].message in rows && r.body.data[k].message.channelId == Some(q.channelId)
      ensures r.Answer? && Chronological(rows) ==> forall j, k :: 0 <= j < k < |r.body.data| ==>
        r.body.data[j].message.createdAt > r.body.data[k].message.createdAt
      ensures !r.Refusal?
    {
      var fetched := FetchMessagesByChannel(q, users);
      if fetched.None? {
        return InternalError;
      }
      var p := fetched.value;
      var author := if Truthy(q.authorUsername) then Some(Trim(q.authorUsername.value)) else None;
      var c := Criteria(q.channelId, BuildContentFilter(q.contentQuery, q.matchType), author);
      HasMoreIff(rows, c, users, p.limit, p.offset);
      if Chronological(rows) {
        PageProperties(rows, c, users, p.limit, p.offset);
      } else {
        PageMembers(rows, c, users, p.limit, p.offset);
      }
      r := Answer(200, Feed(|p.messages|, p.count, HasMore(p.offset, |p.messages|, p.count), p.messages));
    }

    /** `sendMessage` followed by `createMessageWithAuthor`. The checks run
        in the handler's order and answer 400 without writing; falsy targets
        are stored as `null`; a row the model's validators reject (content
        over 2000 characters, or both a channel and a receiver, which the
        handler does not check itself) or a taken id is the catch-all 500
        and writes nothing. Otherwise exactly one row is appended and read
        back with its author. */
    method SendMessage(content: Field, authorId: Field, channelId: Field, receiverId: Field,
                       newId: Id, users: seq<User>)
      returns (r: Reply<MessageView>)
      requires Valid()
      modifies this
      ensures Valid()
      ensures !Truthy(content) || !Truthy(authorId) ==>
        r == Refusal(400, "Content and author ID are required") && rows == old(rows)
      ensures Truthy(content) && Truthy(authorId) && !Truthy(channelId) && !Truthy(receiverId) ==>
        r == Refusal(400, "Either channelId or receiverId is required") && rows == old(rows)
      ensures (Truthy(content) && Truthy(authorId) && (Truthy(channelId) || Truthy(receiverId))
               && !r.Answer?) ==> r == InternalError
      ensures Truthy(channelId) && Truthy(receiverId) ==> !r.Answer?
      ensures r.Refusal? || r.InternalError? ==> rows == old(rows)
      ensures r.Answer? ==>
        && Truthy(content) && Truthy(authorId) && |content.value| <= 2000
        && (Truthy(channelId) != Truthy(receiverId))
        && r.status == 201
        && rows == old(rows) + [r.body.message]
        && r.body == ViewOf(users, r.body.message)
        && r.body.message == NewMessage(newId, content.value, authorId.value,
                                        OrNull(channelId), OrNull(receiverId), old(clock))
      ensures (&& Truthy(content) && Truthy(authorId) && |content.value| <= 2000
               && (Truthy(channelId) != Truthy(receiverId))
               && (forall k :: 0 <= k < |old(rows)| ==> old(rows)[k].id != newId)) ==> r.Answer?
    {
      if !Truthy(content) || !Truthy(authorId) {
        return Refusal(400, "Content and author ID are required");
      }
      if !Truthy(channelId) && !Truthy(receiverId) {
        return Refusal(400, "Either channelId or receiverId is required");
      }
      var m := NewMessage(newId, content.value, authorId.value, OrNull(channelId), OrNull(receiverId), clock);
      if !ValidMessage(m) || IdTaken(rows, newId) {
        return InternalError;
      }
      InsertKeeps(rows, clock, m);
      rows := rows + [m];
      clock := clock + 1;
      r := Answer(201, ViewOf(users, m));
    }
  }

  /** Every item of a served page is a selected message of the table. */
  lemma PageMembers(rows: seq<Message>, c: Criteria, users: seq<User>, limit: int, offset: int)
    requires FindAndCountAll(rows, c, users, limit, offset).Some?
    ensures var p := FindAndCountAll(rows, c, users, limit, offset).value;
      forall k :: 0 <= k < |p.messages| ==>
        && p.messages[k].message in rows && Selected(c, users, p.messages[k].message)
        && p.messages[k].message.channelId == Some(c.channelId)
  {
    NewestWindowSelected(rows, c, users, limit, offset);
  }

  // ----- direct messages -----

  /** One message of a conversation between `u1` and `u2`. */
  predicate Between(m: Message, u1: Id, u2: Id)
  {
    (m.authorId == u1 && m.receiverId == Some(u2)) || (m.authorId == u2 && m.receiverId == Some(u1))
  }

  /** A direct message with author and receiver fields joined in. */
  datatype DirectView = DirectView(message: Message, author: Option<AuthorView>, receiver: Option<AuthorView>)

  function DirectViewOf(users: seq<User>, m: Message): DirectView
  {
    DirectView(m, AuthorViewOf(users, m.authorId),
               if m.receiverId.Some? then AuthorViewOf(users, m.receiverId.value) else None)
  }

  /** `getPrivateMessages`: the conversation oldest first
      (`ORDER BY createdAt ASC`), with its length. */
  function GetPrivateMessages(rows: seq<Message>, u1: Id, u2: Id, users: seq<User>)
    : (r: Reply<seq<DirectView>>)
    ensures r.Answer? && r.status == 200
    ensures forall k :: 0 <= k < |r.body| ==>
      r.body[k].message in rows && Between(r.body[k].message, u1, u2)
      && r.body[k] == DirectViewOf(users, r.body[k].message)
    ensures forall k :: 0 <= k < |rows| && Between(rows[k], u1, u2) ==>
      DirectViewOf(users, rows[k]) in r.body
  {
    var conversation := Select(rows, m => Between(m, u1, u2));
    var views := seq(|conversation|, k requires 0 <= k < |conversation| => DirectViewOf(users, conversation[k]));
    forall k | 0 <= k < |rows| && Between(rows[k], u1, u2) ensures DirectViewOf(users, rows[k]) in views {
      var i :| 0 <= i < |conversation| && conversation[i] == rows[k];
      assert views[i] == DirectViewOf(users, rows[k]);
    }
    Answer(200, views)
  }

  /** The conversation is the same whichever user is named first. */
  lemma PrivateMessagesSymmetric(rows: seq<Message>, u1: Id, u2: Id, users: seq<User>)
    ensures GetPrivateMessages(rows, u1, u2, users) == GetPrivateMessages(rows, u2, u1, users)
  {
    SelectSame(rows, m => Between(m, u1, u2), m => Between(m, u2, u1));
  }

  /** Over a chronological table the conversation is oldest first. */
  lemma PrivateMessagesAscending(rows: seq<Message>, u1: Id, u2: Id, users: seq<User>)
    requires Chronological(rows)
    ensures var r := GetPrivateMessages(rows, u1, u2, users).body;
      forall j, k :: 0 <= j < k < |r| ==> r[j].message.createdAt < r[k].message.createdAt
  {
    SelectChronological(rows, m => Between(m, u1, u2));
  }
}

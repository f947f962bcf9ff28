/**
 * The `/notices` routes: the user-facing list, detail, read mark and unread
 * count, and the administrator's create, update, soft delete and list. The
 * administrator set comes from the `ADMIN_USER_IDS` setting, which is a
 * parameter; `now` is `NOW()`. An id that is not a number reaches MySQL as
 * `NaN`, which the query rejects (500).
 */
module NoticeRouter {
  import opened Wrappers
  import opened Js
  import opened Seqs
  import opened Dates
  import opened Tables

  // ------------------------------------------------------------------
  // Administrators
  // ------------------------------------------------------------------

  /** `ADMIN_SET`: the comma-separated pieces of the setting, trimmed, that
      `parseInt` reads as a number; the others are dropped. */
  function AdminSet(env: Option<string>): (ids: set<int>)
    ensures forall n :: n in ids <==>
      exists p :: p in Split(if env.Some? then env.value else "", ',') && ParseInt(Trim(p)) == Some(n)
  {
    var pieces := Split(if env.Some? then env.value else "", ',');
    set p | p in pieces && ParseInt(Trim(p)).Some? :: ParseInt(Trim(p)).value
  }

  /** A numeral names exactly its own id. */
  lemma AdminSetOne(n: nat)
    ensures AdminSet(Some(NatToString(n))) == {n}
  {
    var s := NatToString(n);
    assert ',' !in s by {
      assert forall i :: 0 <= i < |s| ==> IsDigit(s[i]);
    }
    TrimOfTrimmed(s);
    ParseIntOfNatToString(n);
    AdminSetOfPiece(s);
  }

  /** A setting without a comma names the id its trimmed text parses to, if any. */
  lemma AdminSetOfPiece(p: string)
    requires ',' !in p
    ensures AdminSet(Some(p)) == if ParseInt(Trim(p)).Some? then {ParseInt(Trim(p)).value} else {}
  {
    SplitNoSep(p, ',');
  }

  /** The ids of a list are the ids of its first piece and those of the rest. */
  lemma AdminSetCons(p: string, rest: string)
    requires ',' !in p
    ensures AdminSet(Some(p + "," + rest)) == AdminSet(Some(p)) + AdminSet(Some(rest))
  {
    SplitCons(p, rest, ',');
    SplitNoSep(p, ',');
  }

  /** `ensureAdmin`: a truthy user id that is in the set. */
  function EnsureAdmin(admins: set<int>, u: Option<int>): (admitted: bool)
    ensures admitted <==> u.Some? && u.value != 0 && u.value in admins
  {
    match u
    case None => false
    case Some(id) => id != 0 && id in admins
  }

  // ------------------------------------------------------------------
  // Visibility, ordering, limits and cursors
  // ------------------------------------------------------------------

  /** `is_deleted = 0 AND publish_at <= NOW()`; a NULL publish time never passes. */
  predicate Visible(n: Notice, now: Instant) {
    !n.isDeleted && n.publishAt.Some? && InstantLe(n.publishAt.value, now)
  }

  /** `Notices.id` is the primary key. */
  predicate UniqueNoticeIds(ns: seq<Notice>) {
    forall i, j :: 0 <= i < |ns| && 0 <= j < |ns| && ns[i].id == ns[j].id ==> i == j
  }

  lemma SameIdSameNotice(ns: seq<Notice>, x: Notice, y: Notice)
    requires UniqueNoticeIds(ns) && x in ns && y in ns && x.id == y.id
    ensures x == y
  {
    var i :| 0 <= i < |ns| && ns[i] == x;
    var j :| 0 <= j < |ns| && ns[j] == y;
  }

  lemma NoticesDistinct(ns: seq<Notice>)
    requires UniqueNoticeIds(ns)
    ensures Distinct(ns)
  {
  }

  /** `ORDER BY pinned DESC, id DESC`. */
  predicate PinnedIdDesc(a: Notice, b: Notice) {
    (a.pinned && !b.pinned) || (a.pinned == b.pinned && a.id >= b.id)
  }

  lemma PinnedIdDescTotalPreorder()
    ensures TotalPreorder(PinnedIdDesc)
  {
  }

  /** `ORDER BY n.id DESC`. */
  predicate IdDesc(a: Notice, b: Notice) {
    a.id >= b.id
  }

  lemma IdDescTotalPreorder()
    ensures TotalPreorder(IdDesc)
  {
  }

  /** `Math.min(parseInt(limit, 10) || d, cap)`. */
  function ListLimit(p: Option<string>, d: int, cap: int): (n: int)
    ensures n <= cap
    ensures d != 0 && cap != 0 ==> n != 0
    ensures p.None? || ParseInt(p.value).None? || ParseInt(p.value) == Some(0) ==> n == (if d < cap then d else cap)
    ensures p.Some? && ParseInt(p.value).Some? && ParseInt(p.value) != Some(0) ==>
      n == (if ParseInt(p.value).value < cap then ParseInt(p.value).value else cap)
  {
    var x := IntOr(if p.Some? then ParseInt(p.value) else None, d);
    if x < cap then x else cap
  }

  /** `cursor ? parseInt(cursor, 10) : null`, then `if (cursor)`: a bound only
      for a cursor that parses to a nonzero number. */
  function Cursor(p: Option<string>): (c: Option<int>)
    ensures c.Some? <==> Truthy(p) && ParseInt(p.value).Some? && ParseInt(p.value).value != 0
    ensures c.Some? ==> ParseInt(p.value) == c
  {
    if Truthy(p) && ParseInt(p.value).Some? && ParseInt(p.value).value != 0 then ParseInt(p.value) else None
  }

  /** A page of a list and the cursor for the next one. */
  datatype Listing<T, C> = Listing(items: seq<T>, nextCursor: Option<C>)

  /** A row of the user list: `SUBSTRING(content, 1, 200) AS snippet`. */
  datatype NoticeItem = NoticeItem(id: int, title: Option<string>, snippet: Option<string>, pinned: bool,
                                   publishAt: Option<Instant>)

  function ItemOf(n: Notice): (i: NoticeItem)
    ensures i.id == n.id && i.pinned == n.pinned && i.title == n.title && i.publishAt == n.publishAt
    ensures i.snippet.Some? <==> n.content.Some?
    ensures n.content.Some? ==>
      |i.snippet.value| == (if |n.content.value| < 200 then |n.content.value| else 200) && i.snippet.value == n.content.value[..|i.snippet.value|]
  {
    NoticeItem(n.id, n.title, if n.content.Some? then Some(Prefix(n.content.value, 200)) else None, n.pinned, n.publishAt)
  }

  // ------------------------------------------------------------------
  // GET / — as written: an id cursor over a (pinned, id) order
  // ------------------------------------------------------------------

  function ListMatch(now: Instant, cursor: Option<int>): Notice -> bool {
    (n: Notice) => Visible(n, now) && (cursor.Some? ==> n.id < cursor.value)
  }

  /** The rows the list query selects, pinned first, then larger id first. */
  function ListRows(notices: seq<Notice>, now: Instant, cursor: Option<int>): (rows: seq<Notice>)
    ensures forall n :: n in rows <==> n in notices && Visible(n, now) && (cursor.Some? ==> n.id < cursor.value)
    ensures multiset(rows) == multiset(Filter(notices, ListMatch(now, cursor)))
    ensures SortedBy(rows, PinnedIdDesc)
  {
    PinnedIdDescTotalPreorder();
    SortByIsSorted(Filter(notices, ListMatch(now, cursor)), PinnedIdDesc);
    SortBy(Filter(notices, ListMatch(now, cursor)), PinnedIdDesc)
  }

  /** GET / as written: 500 for a negative limit (MySQL rejects it); otherwise
      the first `limit` rows and, when the page is full, the last row's id as
      the next cursor. */
  function ListNoticesAsWritten(notices: seq<Notice>, limitParam: Option<string>, cursorParam: Option<string>, now: Instant)
    : (res: Result<Listing<NoticeItem, int>>)
    ensures res.Err? <==> ListLimit(limitParam, 10, 50) < 0
    ensures res.Err? ==> res.status == 500
    ensures res.Ok? ==>
      var limit := ListLimit(limitParam, 10, 50);
      var rows := ListRows(notices, now, Cursor(cursorParam));
      var items := res.value.items;
      |items| == (if |rows| < limit then |rows| else limit)
      && (forall i :: 0 <= i < |items| ==> items[i] == ItemOf(rows[i]))
      && (res.value.nextCursor.Some? <==> |items| == limit)
      && (res.value.nextCursor.Some? ==> res.value.nextCursor.value == rows[limit - 1].id)
  {
    var limit := ListLimit(limitParam, 10, 50);
    if limit < 0 then Err(500)
    else
      var rows := ListRows(notices, now, Cursor(cursorParam));
      var page := Page(rows, limit, 0);
      Ok(Listing(Map(page, ItemOf), if |page| == limit then Some(page[|page| - 1].id) else None))
  }

  /** With a pinned notice 1 and an unpinned notice 2, pages of one row never
      show notice 2: the first page ends at the pinned notice 1, and its cursor
      asks for ids below 1. */
  lemma CursorSkipsUnpinned(t: Instant)
    ensures var n1 := Notice(1, None, None, true, Some(t), false, 0);
      var n2 := Notice(2, None, None, false, Some(t), false, 0);
      var first := ListNoticesAsWritten([n1, n2], Some("1"), None, t);
      var second := ListNoticesAsWritten([n1, n2], Some("1"), Some("1"), t);
      Visible(n2, t)
      && first.Ok? && first.value.items == [ItemOf(n1)] && first.value.nextCursor == Some(1)
      && second.Ok? && second.value.items == []
  {
    var n1 := Notice(1, None, None, true, Some(t), false, 0);
    var n2 := Notice(2, None, None, false, Some(t), false, 0);
    OneParses();
    assert ListLimit(Some("1"), 10, 50) == 1;
    FirstRowPinned(n1, n2, t);
    var later := ListRows([n1, n2], t, Some(1));
    assert later == [] by {
      assert forall n :: n !in later;
    }
    var first := ListNoticesAsWritten([n1, n2], Some("1"), None, t);
    assert |first.value.items| == 1 && first.value.items[0] == ItemOf(n1);
    assert first.value.items == [ItemOf(n1)];
  }

  lemma OneParses()
    ensures ParseInt("1") == Some(1) && Cursor(Some("1")) == Some(1)
  {
    ParseIntOfNatToString(1);
    assert NatToString(1) == "1";
  }

  lemma FirstRowPinned(n1: Notice, n2: Notice, t: Instant)
    requires n1 == Notice(1, None, None, true, Some(t), false, 0)
    requires n2 == Notice(2, None, None, false, Some(t), false, 0)
    ensures var rows := ListRows([n1, n2], t, None); |rows| == 2 && rows[0] == n1
  {
    var all := Filter([n1, n2], ListMatch(t, None));
    assert all == [n1, n2] by {
      assert [n1, n2][1..] == [n2] && [n2][1..] == [];
      assert ListMatch(t, None)(n1) && ListMatch(t, None)(n2);
    }
    var rows := ListRows([n1, n2], t, None);
    assert |rows| == 2 && n1 in rows && n2 in rows;
  }

  // ------------------------------------------------------------------
  // GET / — corrected: a (pinned, id) cursor
  // ------------------------------------------------------------------

  /** `(pinned, id) < (cursor.pinned, cursor.id)` in the list's order. */
  predicate AfterKey(n: Notice, c: (bool, int)) {
    (c.0 && !n.pinned) || (n.pinned == c.0 && n.id < c.1)
  }

  function KeysetMatch(now: Instant, cursor: Option<(bool, int)>): Notice -> bool {
    (n: Notice) => Visible(n, now) && (cursor.Some? ==> AfterKey(n, cursor.value))
  }

  /** The rows after a (pinned, id) cursor, in the list's order. */
  function KeysetRows(notices: seq<Notice>, now: Instant, cursor: Option<(bool, int)>): (rows: seq<Notice>)
    ensures forall n :: n in rows <==> n in notices && Visible(n, now) && (cursor.Some? ==> AfterKey(n, cursor.value))
    ensures multiset(rows) == multiset(Filter(notices, KeysetMatch(now, cursor)))
    ensures SortedBy(rows, PinnedIdDesc)
  {
    PinnedIdDescTotalPreorder();
    SortByIsSorted(Filter(notices, KeysetMatch(now, cursor)), PinnedIdDesc);
    SortBy(Filter(notices, KeysetMatch(now, cursor)), PinnedIdDesc)
  }

  /** GET / with the cursor carrying the last row's pinned flag and id. */
  function ListNotices(notices: seq<Notice>, limitParam: Option<string>, cursor: Option<(bool, int)>, now: Instant)
    : (res: Result<Listing<NoticeItem, (bool, int)>>)
    ensures res.Err? <==> ListLimit(limitParam, 10, 50) < 0
    ensures res.Err? ==> res.status == 500
    ensures res.Ok? ==>
      var limit := ListLimit(limitParam, 10, 50);
      var rows := KeysetRows(notices, now, cursor);
      var items := res.value.items;
      |items| == (if |rows| < limit then |rows| else limit)
      && (forall i :: 0 <= i < |items| ==> items[i] == ItemOf(rows[i]))
      && (res.value.nextCursor.Some? <==> |items| == limit)
      && (res.value.nextCursor.Some? ==> res.value.nextCursor.value == (rows[limit - 1].pinned, rows[limit - 1].id))
  {
    var limit := ListLimit(limitParam, 10, 50);
    if limit < 0 then Err(500)
    else
      var rows := KeysetRows(notices, now, cursor);
      var page := Page(rows, limit, 0);
      var last := if |page| == limit then Some((page[|page| - 1].pinned, page[|page| - 1].id)) else None;
      Ok(Listing(Map(page, ItemOf), last))
  }

  /** Among rows with unique ids, an order that ties only rows sharing an id
      ties no two distinct selected rows. */
  lemma NoTiesSelected(notices: seq<Notice>, base: Notice -> bool, le: (Notice, Notice) -> bool)
    requires UniqueNoticeIds(notices)
    requires forall x, y :: x in notices && y in notices && le(x, y) && le(y, x) ==> x.id == y.id
    ensures var v := Filter(notices, base);
      forall x, y :: x in v && y in v && le(x, y) && le(y, x) ==> x == y
  {
    var v := Filter(notices, base);
    forall x, y | x in v && y in v && le(x, y) && le(y, x) ensures x == y {
      SameIdSameNotice(notices, x, y);
    }
  }

  /** Within the sorted list itself, the cursor selects the suffix after row `k`. */
  lemma CursorSuffix(notices: seq<Notice>, base: Notice -> bool, p: Notice -> bool, le: (Notice, Notice) -> bool, k: nat)
    requires UniqueNoticeIds(notices) && TotalPreorder(le)
    requires forall x, y :: x in Filter(notices, base) && y in Filter(notices, base) && le(x, y) && le(y, x) ==> x == y
    requires k < |SortBy(Filter(notices, base), le)|
    requires var l := SortBy(Filter(notices, base), le);
      forall i :: 0 <= i < |l| ==> (p(l[i]) <==> le(l[k], l[i]) && l[i].id != l[k].id)
    ensures var l := SortBy(Filter(notices, base), le);
      Filter(l, p) == l[k + 1..]
  {
    var v := Filter(notices, base);
    var l := SortBy(v, le);
    NoticesDistinct(notices);
    FilterDistinct(notices, base);
    PermutationDistinct(v, l);
    SortByIsSorted(v, le);
    assert forall x :: x in l ==> x in v;
    forall i | 0 <= i < |l| ensures p(l[i]) <==> le(l[k], l[i]) && l[i] != l[k] {
      if l[i] != l[k] && l[i].id == l[k].id {
        assert l[i] in v && l[k] in v;
        SameIdSameNotice(notices, l[i], l[k]);
      }
    }
    SortedSuffix(l, le, p, k);
  }

  /** For an order in which two rows tie only when they share an id, the rows
      after a cursor that selects exactly the rows strictly after row `k` of
      the sorted list are the list's suffix after `k`. */
  lemma SortedCursor(notices: seq<Notice>, base: Notice -> bool, p: Notice -> bool, le: (Notice, Notice) -> bool, k: nat)
    requires UniqueNoticeIds(notices) && TotalPreorder(le)
    requires forall x, y :: x in notices && y in notices && le(x, y) && le(y, x) ==> x.id == y.id
    requires forall i :: 0 <= i < |notices| ==> p(notices[i]) ==> base(notices[i])
    requires k < |SortBy(Filter(notices, base), le)|
    requires var l := SortBy(Filter(notices, base), le);
      forall i :: 0 <= i < |l| ==> (p(l[i]) <==> le(l[k], l[i]) && l[i].id != l[k].id)
    ensures SortBy(Filter(notices, p), le) == SortBy(Filter(notices, base), le)[k + 1..]
  {
    var v := Filter(notices, base);
    FilterFilter(notices, p, base);
    NoTiesSelected(notices, base, le);
    SortFilterCommute(v, le, p);
    CursorSuffix(notices, base, p, le, k);
  }

  /** The rows after the cursor of row `k` are exactly the rows after row `k`:
      following the cursor continues the list where the page ended. */
  lemma KeysetContinues(notices: seq<Notice>, now: Instant, k: nat)
    requires UniqueNoticeIds(notices)
    requires k < |KeysetRows(notices, now, None)|
    ensures var l := KeysetRows(notices, now, None);
      KeysetRows(notices, now, Some((l[k].pinned, l[k].id))) == l[k + 1..]
  {
    var l := KeysetRows(notices, now, None);
    var c := (l[k].pinned, l[k].id);
    var base, p := KeysetMatch(now, None), KeysetMatch(now, Some(c));
    PinnedIdDescTotalPreorder();
    assert l == SortBy(Filter(notices, base), PinnedIdDesc);
    forall i | 0 <= i < |l| ensures p(l[i]) <==> PinnedIdDesc(l[k], l[i]) && l[i].id != l[k].id {
      assert l[i] in l && l[k] in l;
      assert Visible(l[i], now);
      if l[i].id == l[k].id {
        SameIdSameNotice(notices, l[i], l[k]);
      }
      assert p(l[i]) == AfterKey(l[i], c);
    }
    forall x, y | x in notices && y in notices && PinnedIdDesc(x, y) && PinnedIdDesc(y, x) ensures x.id == y.id {
    }
    SortedCursor(notices, base, p, PinnedIdDesc, k);
  }

  // ------------------------------------------------------------------
  // GET /:id, POST /:id/read, GET /meta/unread-count
  // ------------------------------------------------------------------

  function VisibleWithId(id: int, now: Instant): Notice -> bool {
    (n: Notice) => n.id == id && Visible(n, now)
  }

  /** GET /:id: 500 for an id that is not a number, 404 unless a visible notice has it. */
  function Detail(notices: seq<Notice>, idParam: string, now: Instant): (res: Result<Notice>)
    ensures res.Err? ==> res.status == 404 || res.status == 500
    ensures res == Err(500) <==> ParseInt(idParam).None?
    ensures res == Err(404) <==> (ParseInt(idParam).Some? &&
      forall n :: n in notices ==> !(n.id == ParseInt(idParam).value && Visible(n, now)))
    ensures res.Ok? ==> res.value in notices && res.value.id == ParseInt(idParam).value && Visible(res.value, now)
  {
    match ParseInt(idParam)
    case None => Err(500)
    case Some(id) =>
      match FirstWhere(notices, VisibleWithId(id, now))
      case None =>
        assert forall n :: n in notices ==> !(n.id == id && Visible(n, now)) by {
          forall n | n in notices ensures !(n.id == id && Visible(n, now)) {
            var k :| 0 <= k < |notices| && notices[k] == n;
          }
        }
        Err(404)
      case Some(n) => Ok(n)
  }

  /** A deleted notice, or one whose publish time is still ahead, is never shown. */
  lemma DetailHidesInvisible(notices: seq<Notice>, idParam: string, now: Instant, n: Notice)
    requires UniqueNoticeIds(notices) && n in notices && ParseInt(idParam) == Some(n.id) && !Visible(n, now)
    ensures Detail(notices, idParam, now) == Err(404)
  {
    forall m | m in notices ensures !(m.id == n.id && Visible(m, now)) {
      if m.id == n.id {
        SameIdSameNotice(notices, m, n);
      }
    }
  }

  function UnreadFor(seen: map<(int, int), Instant>, u: int, now: Instant): Notice -> bool {
    (n: Notice) => Visible(n, now) && (n.id, u) !in seen
  }

  /** GET /meta/unread-count: the visible notices without a read row of the user. */
  function UnreadCount(notices: seq<Notice>, seen: map<(int, int), Instant>, u: int, now: Instant): (count: nat)
    ensures count <= |notices|
    ensures count == 0 <==> forall n :: n in notices ==> !(Visible(n, now) && (n.id, u) !in seen)
  {
    var rows := Filter(notices, UnreadFor(seen, u, now));
    assert rows == [] <==> forall n :: n in notices ==> !(Visible(n, now) && (n.id, u) !in seen) by {
      if rows != [] {
        assert rows[0] in rows;
      }
    }
    |rows|
  }

  /** The read rows after POST /:id/read: the (notice, user) row is inserted or its time refreshed. */
  function MarkedRead(seen: map<(int, int), Instant>, id: int, u: int, now: Instant): (r: map<(int, int), Instant>)
    ensures (id, u) in r && r[(id, u)] == now
    ensures r.Keys == seen.Keys + {(id, u)}
    ensures forall k :: k in seen && k != (id, u) ==> k in r && r[k] == seen[k]
  {
    seen[(id, u) := now]
  }

  /** POST /:id/read: 500 for an id that is not a number, 404 unless a visible
      notice has it; otherwise the read row is upserted and the reply is 204. */
  method MarkRead(db: Database, u: int, idParam: string, now: Instant) returns (status: int)
    modifies db`noticeReads
    ensures status == 500 <==> ParseInt(idParam).None?
    ensures status == 404 <==> Detail(db.notices, idParam, now) == Err(404)
    ensures status == 204 <==> Detail(db.notices, idParam, now).Ok?
    ensures status == 204 ==> db.noticeReads == MarkedRead(old(db.noticeReads), ParseInt(idParam).value, u, now)
    ensures status != 204 ==> db.noticeReads == old(db.noticeReads)
  {
    var found := Detail(db.notices, idParam, now);
    if found.Err? {
      return found.status;
    }
    var id := ParseInt(idParam).value;
    db.noticeReads := MarkedRead(db.noticeReads, id, u, now);
    status := 204;
  }

  /** Marking a visible notice read lowers the unread count by one if it was
      unread, and leaves it as it was if it had been read already. */
  lemma MarkReadCount(notices: seq<Notice>, seen: map<(int, int), Instant>, u: int, now: Instant, t: Instant, n: Notice)
    requires UniqueNoticeIds(notices) && n in notices && Visible(n, now)
    ensures UnreadCount(notices, MarkedRead(seen, n.id, u, t), u, now) + (if (n.id, u) in seen then 0 else 1)
            == UnreadCount(notices, seen, u, now)
  {
    var p := UnreadFor(seen, u, now);
    var q := UnreadFor(MarkedRead(seen, n.id, u, t), u, now);
    forall i | 0 <= i < |notices| ensures q(notices[i]) <==> p(notices[i]) && notices[i] != n {
      if notices[i].id == n.id {
        SameIdSameNotice(notices, notices[i], n);
      }
    }
    FilterDropOne(notices, p, q, n);
  }

  /** Repeating a read mark keeps one row per (notice, user) and only refreshes its time. */
  lemma ReadMarkTwice(seen: map<(int, int), Instant>, id: int, u: int, t1: Instant, t2: Instant)
    ensures var twice := MarkedRead(MarkedRead(seen, id, u, t1), id, u, t2);
      twice.Keys == MarkedRead(seen, id, u, t1).Keys && twice[(id, u)] == t2
  {
  }

  // ------------------------------------------------------------------
  // POST / (admin)
  // ------------------------------------------------------------------

  /** The body of POST /. */
  datatype NoticeInput = NoticeInput(title: Option<string>, content: Option<string>, pinned: Value, publishAt: Option<Instant>)

  /** The inserted row: the trimmed title, the flag as 0/1, `COALESCE(publish_at, NOW())`. */
  function NewNotice(b: NoticeInput, id: int, author: int, now: Instant): (n: Notice)
    requires b.title.Some?
    ensures n.id == id && n.createdBy == author && !n.isDeleted && n.content == b.content
    ensures n.title == Some(Trim(b.title.value)) && n.pinned == ValueTruthy(b.pinned)
    ensures n.publishAt == Some(if b.publishAt.Some? then b.publishAt.value else now)
  {
    Notice(id, Some(Trim(b.title.value)), b.content, ValueTruthy(b.pinned),
           Some(if b.publishAt.Some? then b.publishAt.value else now), false, author)
  }

  /** A new notice is visible from its publish time on, immediately when none is given. */
  lemma NewNoticeVisible(b: NoticeInput, id: int, author: int, now: Instant, t: Instant)
    requires b.title.Some?
    ensures Visible(NewNotice(b, id, author, now), t) <==>
      InstantLe(if b.publishAt.Some? then b.publishAt.value else now, t)
    ensures b.publishAt.None? ==> Visible(NewNotice(b, id, author, now), now)
  {
  }

  /** POST /: 403 for a non-administrator, 400 without a title or content,
      else 201 with the row appended under the next id. */
  method CreateNotice(db: Database, admins: set<int>, u: Option<int>, b: NoticeInput, now: Instant, newId: int)
    returns (status: int, id: Option<int>)
    modifies db`notices
    ensures status == 403 <==> !EnsureAdmin(admins, u)
    ensures status == 400 <==> EnsureAdmin(admins, u) && (!Truthy(b.title) || !Truthy(b.content))
    ensures status == 201 <==> EnsureAdmin(admins, u) && Truthy(b.title) && Truthy(b.content)
    ensures status == 201 ==> id == Some(newId) && db.notices == old(db.notices) + [NewNotice(b, newId, u.value, now)]
    ensures status != 201 ==> id.None? && db.notices == old(db.notices)
  {
    if !EnsureAdmin(admins, u) {
      return 403, None;
    }
    if !Truthy(b.title) || !Truthy(b.content) {
      return 400, None;
    }
    db.notices := db.notices + [NewNotice(b, newId, u.value, now)];
    status, id := 201, Some(newId);
  }

  // ------------------------------------------------------------------
  // PUT /:id (admin)
  // ------------------------------------------------------------------

  /** The body of PUT /:id: each allowed column absent or given. */
  datatype NoticeBody = NoticeBody(title: Field<Option<string>>, content: Field<Option<string>>, pinned: Field<Value>,
                                   publishAt: Field<Option<Instant>>, isDeleted: Field<Value>)

  /** One `k = ?` of the `SET` list with its value; the two flags already 0/1. */
  datatype Assignment = SetTitle(t: Option<string>) | SetContent(c: Option<string>) | SetPinned(p: bool)
                      | SetPublishAt(at: Option<Instant>) | SetDeleted(d: bool)

  const Allowed: seq<string> := ["title", "content", "pinned", "publish_at", "is_deleted"]

  /** The assignment the `k`-th allowed column contributes, if its field is given. */
  function Column(b: NoticeBody, k: nat): (a: seq<Assignment>)
    requires k < |Allowed|
    ensures |a| <= 1
  {
    if k == 0 then (if b.title.Given? then [SetTitle(b.title.value)] else [])
    else if k == 1 then (if b.content.Given? then [SetContent(b.content.value)] else [])
    else if k == 2 then (if b.pinned.Given? then [SetPinned(ValueTruthy(b.pinned.value))] else [])
    else if k == 3 then (if b.publishAt.Given? then [SetPublishAt(b.publishAt.value)] else [])
    else (if b.isDeleted.Given? then [SetDeleted(ValueTruthy(b.isDeleted.value))] else [])
  }

  /** The assignments of the first `k` allowed columns, in `allow` order. */
  function Columns(b: NoticeBody, k: nat): seq<Assignment>
    requires k <= |Allowed|
  {
    if k == 0 then [] else Columns(b, k - 1) + Column(b, k - 1)
  }

  function Assign(n: Notice, a: Assignment): Notice {
    match a
    case SetTitle(t) => n.(title := t)
    case SetContent(c) => n.(content := c)
    case SetPinned(p) => n.(pinned := p)
    case SetPublishAt(at) => n.(publishAt := at)
    case SetDeleted(d) => n.(isDeleted := d)
  }

  /** `UPDATE Notices SET ...` on one row: the assignments in order. */
  function AssignAll(n: Notice, fields: seq<Assignment>): Notice
    decreases |fields|
  {
    if fields == [] then n else AssignAll(Assign(n, fields[0]), fields[1..])
  }

  lemma {:induction false} AssignAllAppend(n: Notice, f: seq<Assignment>, g: seq<Assignment>)
    ensures AssignAll(n, f + g) == AssignAll(AssignAll(n, f), g)
    decreases |f|
  {
    if f != [] {
      assert (f + g)[0] == f[0] && (f + g)[1..] == f[1..] + g;
      AssignAllAppend(Assign(n, f[0]), f[1..], g);
    } else {
      assert f + g == g;
    }
  }

  /** The row as PUT /:id promises it: each given column replaced, the flags
      as booleans, every other column kept. */
  function Patched(n: Notice, b: NoticeBody): Notice {
    Notice(n.id,
           if b.title.Given? then b.title.value else n.title,
           if b.content.Given? then b.content.value else n.content,
           if b.pinned.Given? then ValueTruthy(b.pinned.value) else n.pinned,
           if b.publishAt.Given? then b.publishAt.value else n.publishAt,
           if b.isDeleted.Given? then ValueTruthy(b.isDeleted.value) else n.isDeleted,
           n.createdBy)
  }

  predicate NothingGiven(b: NoticeBody) {
    b.title.Absent? && b.content.Absent? && b.pinned.Absent? && b.publishAt.Absent? && b.isDeleted.Absent?
  }

  /** Column `k` applied on its own changes at most that one field. */
  function Applied(n: Notice, b: NoticeBody, k: nat): Notice
    requires k < |Allowed|
  {
    if k == 0 then (if b.title.Given? then n.(title := b.title.value) else n)
    else if k == 1 then (if b.content.Given? then n.(content := b.content.value) else n)
    else if k == 2 then (if b.pinned.Given? then n.(pinned := ValueTruthy(b.pinned.value)) else n)
    else if k == 3 then (if b.publishAt.Given? then n.(publishAt := b.publishAt.value) else n)
    else (if b.isDeleted.Given? then n.(isDeleted := ValueTruthy(b.isDeleted.value)) else n)
  }

  lemma ColumnApplied(n: Notice, b: NoticeBody, k: nat)
    requires k < |Allowed|
    ensures AssignAll(n, Column(b, k)) == Applied(n, b, k)
  {
    var c := Column(b, k);
    if c != [] {
      assert c[1..] == [];
    }
  }

  /** The five columns applied one after another. */
  function AppliedAll(n: Notice, b: NoticeBody): Notice {
    Applied(Applied(Applied(Applied(Applied(n, b, 0), b, 1), b, 2), b, 3), b, 4)
  }

  lemma ColumnsSplit(b: NoticeBody)
    ensures Columns(b, 5) == Column(b, 0) + Column(b, 1) + Column(b, 2) + Column(b, 3) + Column(b, 4)
  {
    assert Columns(b, 1) == Column(b, 0);
    assert Columns(b, 2) == Column(b, 0) + Column(b, 1);
    assert Columns(b, 3) == Column(b, 0) + Column(b, 1) + Column(b, 2);
    assert Columns(b, 4) == Column(b, 0) + Column(b, 1) + Column(b, 2) + Column(b, 3);
  }

  lemma ColumnsApplied(n: Notice, b: NoticeBody)
    ensures AssignAll(n, Columns(b, 5)) == AppliedAll(n, b)
  {
    var c0, c1, c2, c3, c4 := Column(b, 0), Column(b, 1), Column(b, 2), Column(b, 3), Column(b, 4);
    ColumnsSplit(b);
    AssignAllAppend(n, c0 + c1 + c2 + c3, c4);
    AssignAllAppend(n, c0 + c1 + c2, c3);
    AssignAllAppend(n, c0 + c1, c2);
    AssignAllAppend(n, c0, c1);
    var n1 := Applied(n, b, 0);
    var n2 := Applied(n1, b, 1);
    var n3 := Applied(n2, b, 2);
    var n4 := Applied(n3, b, 3);
    ColumnApplied(n, b, 0);
    ColumnApplied(n1, b, 1);
    ColumnApplied(n2, b, 2);
    ColumnApplied(n3, b, 3);
    ColumnApplied(n4, b, 4);
  }

  lemma AppliedAllPatched(n: Notice, b: NoticeBody)
    ensures AppliedAll(n, b) == Patched(n, b)
  {
    var m := AppliedAll(n, b);
    assert m.title == Patched(n, b).title;
    assert m.content == Patched(n, b).content;
    assert m.pinned == Patched(n, b).pinned;
    assert m.publishAt == Patched(n, b).publishAt;
    assert m.isDeleted == Patched(n, b).isDeleted;
  }

  /** Applying the collected assignments gives the patched row; there are none
      exactly when no allowed field is given. */
  lemma ColumnsPatch(n: Notice, b: NoticeBody)
    ensures AssignAll(n, Columns(b, 5)) == Patched(n, b)
    ensures Columns(b, 5) == [] <==> NothingGiven(b)
  {
    ColumnsSplit(b);
    ColumnsApplied(n, b);
    AppliedAllPatched(n, b);
  }

  /** The `for (const k of allow)` loop: one assignment per given field, in order. */
  method CollectAssignments(b: NoticeBody) returns (fields: seq<Assignment>)
    ensures fields == Columns(b, 5)
    ensures |fields| <= 5
  {
    fields := [];
    var i := 0;
    while i < |Allowed|
      invariant 0 <= i <= |Allowed|
      invariant fields == Columns(b, i) && |fields| <= i
    {
      var k := Allowed[i];
      if k == "title" && b.title.Given? {
        fields := fields + [SetTitle(b.title.value)];
      } else if k == "content" && b.content.Given? {
        fields := fields + [SetContent(b.content.value)];
      } else if k == "pinned" && b.pinned.Given? {
        fields := fields + [SetPinned(ValueTruthy(b.pinned.value))];
      } else if k == "publish_at" && b.publishAt.Given? {
        fields := fields + [SetPublishAt(b.publishAt.value)];
      } else if k == "is_deleted" && b.isDeleted.Given? {
        fields := fields + [SetDeleted(ValueTruthy(b.isDeleted.value))];
      }
      i := i + 1;
    }
  }

  /** `UPDATE ... WHERE id = ?` over the table. */
  function UpdatedRows(notices: seq<Notice>, id: int, f: Notice -> Notice): (r: seq<Notice>)
    ensures |r| == |notices|
    ensures forall i :: 0 <= i < |notices| ==> r[i] == if notices[i].id == id then f(notices[i]) else notices[i]
  {
    Map(notices, (n: Notice) => if n.id == id then f(n) else n)
  }

  /** PUT /:id: 403 for a non-administrator, 400 when no allowed field is
      given, 500 for an id that is not a number; otherwise the row with that
      id, if any, is patched and the reply is 200. */
  method UpdateNotice(db: Database, admins: set<int>, u: Option<int>, idParam: string, b: NoticeBody) returns (status: int)
    modifies db`notices
    ensures status == 403 <==> !EnsureAdmin(admins, u)
    ensures status == 400 <==> EnsureAdmin(admins, u) && NothingGiven(b)
    ensures status == 500 <==> EnsureAdmin(admins, u) && !NothingGiven(b) && ParseInt(idParam).None?
    ensures status == 200 <==> EnsureAdmin(admins, u) && !NothingGiven(b) && ParseInt(idParam).Some?
    ensures status == 200 ==>
      db.notices == UpdatedRows(old(db.notices), ParseInt(idParam).value, (n: Notice) => Patched(n, b))
    ensures status != 200 ==> db.notices == old(db.notices)
  {
    if !EnsureAdmin(admins, u) {
      return 403;
    }
    var fields := CollectAssignments(b);
    forall n ensures AssignAll(n, fields) == Patched(n, b) {
      ColumnsPatch(n, b);
    }
    ColumnsPatch(Notice(0, None, None, false, None, false, 0), b);
    if fields == [] {
      return 400;
    }
    match ParseInt(idParam)
    case None => return 500;
    case Some(id) =>
      db.notices := UpdatedRows(db.notices, id, (n: Notice) => AssignAll(n, fields));
      status := 200;
  }

  /** A truthy `is_deleted` in a PUT hides the notice, whatever else changes. */
  lemma PutDeletedHides(n: Notice, b: NoticeBody, now: Instant)
    requires b.isDeleted.Given? && ValueTruthy(b.isDeleted.value)
    ensures !Visible(Patched(n, b), now) && Patched(n, b).id == n.id
  {
  }

  // ------------------------------------------------------------------
  // DELETE /:id (admin)
  // ------------------------------------------------------------------

  function SoftDeleted(n: Notice): Notice {
    n.(isDeleted := true)
  }

  /** DELETE /:id: 403 for a non-administrator, 500 for an id that is not a
      number; otherwise `is_deleted = 1` on the row with that id and 204. */
  method DeleteNotice(db: Database, admins: set<int>, u: Option<int>, idParam: string) returns (status: int)
    modifies db`notices
    ensures status == 403 <==> !EnsureAdmin(admins, u)
    ensures status == 500 <==> EnsureAdmin(admins, u) && ParseInt(idParam).None?
    ensures status == 204 <==> EnsureAdmin(admins, u) && ParseInt(idParam).Some?
    ensures status == 204 ==> db.notices == UpdatedRows(old(db.notices), ParseInt(idParam).value, SoftDeleted)
    ensures status != 204 ==> db.notices == old(db.notices)
  {
    if !EnsureAdmin(admins, u) {
      return 403;
    }
    match ParseInt(idParam)
    case None => return 500;
    case Some(id) =>
      db.notices := UpdatedRows(db.notices, id, SoftDeleted);
      status := 204;
  }

  /** The delete is soft: every row stays, the deleted one keeps all its
      columns but the flag, and it leaves the user list, the detail and the
      unread count. */
  lemma SoftDeleteHides(notices: seq<Notice>, id: int, now: Instant, seen: map<(int, int), Instant>, u: int)
    ensures var after := UpdatedRows(notices, id, SoftDeleted);
      |after| == |notices|
      && (forall i :: 0 <= i < |notices| ==> after[i] == notices[i].(isDeleted := notices[i].isDeleted || notices[i].id == id))
      && (forall n :: n in after && n.id == id ==> !Visible(n, now))
      && UnreadCount(after, seen, u, now) <= UnreadCount(notices, seen, u, now)
  {
    var after := UpdatedRows(notices, id, SoftDeleted);
    forall n | n in after && n.id == id ensures !Visible(n, now) {
      var i :| 0 <= i < |after| && after[i] == n;
    }
    UnreadShrinks(notices, after, seen, u, now);
  }

  /** Hiding rows one for one never raises the unread count. */
  lemma {:induction false} UnreadShrinks(before: seq<Notice>, after: seq<Notice>, seen: map<(int, int), Instant>, u: int, now: Instant)
    requires |after| == |before|
    requires forall i :: 0 <= i < |before| ==> after[i].id == before[i].id && (Visible(after[i], now) ==> Visible(before[i], now))
    ensures UnreadCount(after, seen, u, now) <= UnreadCount(before, seen, u, now)
  {
    if before != [] {
      UnreadShrinks(before[1..], after[1..], seen, u, now);
      var p := UnreadFor(seen, u, now);
      assert Filter(before, p) == (if p(before[0]) then [before[0]] else []) + Filter(before[1..], p);
      assert Filter(after, p) == (if p(after[0]) then [after[0]] else []) + Filter(after[1..], p);
    }
  }

  // ------------------------------------------------------------------
  // GET /admin/list (admin)
  // ------------------------------------------------------------------

  /** A row of the administrator's list: the notice and its author's name (LEFT JOIN). */
  datatype AdminItem = AdminItem(notice: Notice, author: Option<string>)

  /** `n.id < cursor` when a cursor is given, `n.title LIKE '%q%'` when `q` is not empty. */
  function AdminMatch(cursor: Option<int>, q: string): Notice -> bool {
    (n: Notice) => (cursor.Some? ==> n.id < cursor.value) && (q != "" ==> n.title.Some? && LikeAnywhere(n.title.value, q))
  }

  /** Every notice, deleted or unpublished too, matching the cursor and the search, larger id first. */
  function AdminRows(notices: seq<Notice>, cursor: Option<int>, q: string): (rows: seq<Notice>)
    ensures forall n :: n in rows <==> n in notices && (cursor.Some? ==> n.id < cursor.value)
                                       && (q != "" ==> n.title.Some? && LikeAnywhere(n.title.value, q))
    ensures multiset(rows) == multiset(Filter(notices, AdminMatch(cursor, q)))
    ensures SortedBy(rows, IdDesc)
  {
    IdDescTotalPreorder();
    SortByIsSorted(Filter(notices, AdminMatch(cursor, q)), IdDesc);
    SortBy(Filter(notices, AdminMatch(cursor, q)), IdDesc)
  }

  function AuthorOf(users: map<int, User>, n: Notice): AdminItem {
    AdminItem(n, if n.createdBy in users then users[n.createdBy].name else None)
  }

  /** GET /admin/list: 403 for a non-administrator, 500 for a negative limit;
      otherwise the first `min(limit || 20, 100)` rows of the search with their
      author, and the last id as the cursor when the page is full. */
  function AdminList(notices: seq<Notice>, users: map<int, User>, admins: set<int>, u: Option<int>,
                     limitParam: Option<string>, cursorParam: Option<string>, query: Option<string>)
    : (res: Result<Listing<AdminItem, int>>)
    ensures res.Err? ==> res.status == 403 || res.status == 500
    ensures res == Err(403) <==> !EnsureAdmin(admins, u)
    ensures res == Err(500) <==> EnsureAdmin(admins, u) && ListLimit(limitParam, 20, 100) < 0
    ensures res.Ok? ==>
      var limit := ListLimit(limitParam, 20, 100);
      limit > 0
      && res.value == AdminPage(users, AdminRows(notices, Cursor(cursorParam), Trim(if query.Some? then query.value else "")), limit)
  {
    if !EnsureAdmin(admins, u) then Err(403)
    else
      var limit := ListLimit(limitParam, 20, 100);
      if limit < 0 then Err(500)
      else
        Ok(AdminPage(users, AdminRows(notices, Cursor(cursorParam), Trim(if query.Some? then query.value else "")), limit))
  }

  /** The first `limit` rows with their author, and the last id as the cursor
      when the page is full. */
  function AdminPage(users: map<int, User>, rows: seq<Notice>, limit: nat): (l: Listing<AdminItem, int>)
    requires limit > 0
    ensures |l.items| == (if |rows| < limit then |rows| else limit)
    ensures forall i :: 0 <= i < |l.items| ==> l.items[i] == AuthorOf(users, rows[i])
    ensures l.nextCursor.Some? <==> |l.items| == limit
    ensures l.nextCursor.Some? ==> l.nextCursor.value == rows[limit - 1].id
  {
    var page := Page(rows, limit, 0);
    Listing(Map(page, (n: Notice) => AuthorOf(users, n)), if |page| == limit then Some(page[|page| - 1].id) else None)
  }

  /** Ordered by id alone, the administrator's id cursor does continue the
      list right after the row it names (a zero id is no cursor). */
  lemma AdminCursorContinues(notices: seq<Notice>, q: string, k: nat)
    requires UniqueNoticeIds(notices)
    requires k < |AdminRows(notices, None, q)|
    ensures var l := AdminRows(notices, None, q);
      l[k].id != 0 ==> AdminRows(notices, Some(l[k].id), q) == l[k + 1..]
  {
    var l := AdminRows(notices, None, q);
    if l[k].id != 0 {
      IdDescTotalPreorder();
      SortedCursor(notices, AdminMatch(None, q), AdminMatch(Some(l[k].id), q), IdDesc, k);
    }
  }
}

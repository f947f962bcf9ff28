/**
 * The record comment routes: the readable-record check, the record detail,
 * the comment list, posting, soft deletion, reporting and the report count.
 * A path id is `Number(...)` of the path segment, so it arrives as a `Num`; a
 * non-finite one is refused with 400, and a finite one that is not a whole
 * number matches no row.
 */
module CommentRouter {
  import opened Wrappers
  import opened Js
  import opened Seqs
  import opened Tables
  import opened RecordRouter

  // ------------------------------------------------------------------
  // Ids and the readable-record check
  // ------------------------------------------------------------------

  /** The row id a finite path id can match: itself when it is a whole number. */
  function IdOf(n: Num): (id: Option<int>)
    requires n.Finite?
    ensures id.Some? <==> n.v.Floor as real == n.v
    ensures id.Some? ==> id.value as real == n.v
  {
    if n.v.Floor as real == n.v then Some(n.v.Floor) else None
  }

  /** `ensureReadable`: 404 for a missing record, the owner's id for a public
      record or the requester's own one, 403 for someone else's private record. */
  function EnsureReadable(records: seq<Record>, id: Option<int>, me: int): (res: Result<int>)
    ensures res.Err? ==> res.status == 404 || res.status == 403
    ensures res == Err(404) <==> id.None? || forall r :: r in records ==> r.id != id.value
    ensures res.Ok? ==> id.Some? && exists r :: r in records && r.id == id.value && r.userId == res.value
                                                 && (IsPublic(r) || r.userId == me)
    ensures res == Err(403) ==> id.Some? && exists r :: r in records && r.id == id.value && !IsPublic(r) && r.userId != me
  {
    match id
    case None => Err(404)
    case Some(rid) =>
      match FirstWhere(records, HasId(rid))
      case None =>
        assert forall r :: r in records ==> r.id != rid by {
          forall r | r in records ensures r.id != rid {
            var k :| 0 <= k < |records| && records[k] == r;
          }
        }
        Err(404)
      case Some(rec) =>
        if IsPublic(rec) then Ok(rec.userId)
        else if rec.userId == me then Ok(rec.userId)
        else Err(403)
  }

  /** With ids unique, the check is decided by the record itself. */
  lemma ReadableOfRecord(records: seq<Record>, r: Record, me: int)
    requires UniqueIds(records) && r in records
    ensures EnsureReadable(records, Some(r.id), me) == if IsPublic(r) || r.userId == me then Ok(r.userId) else Err(403)
  {
    var j :| 0 <= j < |records| && records[j] == r;
    forall k | 0 <= k < |records| && k != j ensures records[k].id != r.id {
      DistinctIds(records, k, j);
    }
  }

  // ------------------------------------------------------------------
  // GET /:recordId/full
  // ------------------------------------------------------------------

  /** The body of GET /:recordId/full. */
  datatype DetailView = DetailView(record: Record, userName: Option<string>, userImg: Option<string>, images: seq<string>)

  /** GET /:recordId/full: 400 for a non-finite id, the readable-record check,
      404 when the author has no `Users` row, else the record, its author and
      its image urls in display order. */
  function Full(records: seq<Record>, users: map<int, User>, images: seq<RecordImage>, recordId: Num, me: int)
    : (res: Result<DetailView>)
    ensures res.Err? ==> res.status in {400, 403, 404}
    ensures res == Err(400) <==> !recordId.Finite?
    ensures recordId.Finite? && EnsureReadable(records, IdOf(recordId), me).Err? ==>
      res == Err(EnsureReadable(records, IdOf(recordId), me).status)
    ensures recordId.Finite? && EnsureReadable(records, IdOf(recordId), me).Ok? ==>
      (res.Ok? <==> EnsureReadable(records, IdOf(recordId), me).value in users)
    ensures res.Ok? ==> var r := res.value.record;
      recordId.Finite? && IdOf(recordId) == Some(r.id) && r in records && (IsPublic(r) || r.userId == me)
      && r.userId in users && res.value.userName == users[r.userId].name && res.value.userImg == users[r.userId].img
      && res.value.images == ImageUrls(images, r.id)
  {
    if !recordId.Finite? then Err(400)
    else match EnsureReadable(records, IdOf(recordId), me)
      case Err(s) => Err(s)
      case Ok(_) =>
        var rid := IdOf(recordId).value;
        match FirstWhere(records, HasId(rid))
        case None => Err(404)
        case Some(r) =>
          if IsPublic(r) || r.userId == me then
            if r.userId in users then Ok(DetailView(r, users[r.userId].name, users[r.userId].img, ImageUrls(images, rid)))
            else Err(404)
          else Err(403)
  }

  /** With ids unique, the detail of an existing record is decided by the
      record itself: 403 for someone else's private record, 404 when its author
      has no `Users` row, else the record, its author and its images. */
  lemma FullOfRecord(records: seq<Record>, users: map<int, User>, images: seq<RecordImage>, r: Record, me: int)
    requires UniqueIds(records) && r in records
    ensures Full(records, users, images, Finite(r.id as real), me)
            == if !(IsPublic(r) || r.userId == me) then Err(403)
               else if r.userId !in users then Err(404)
               else Ok(DetailView(r, users[r.userId].name, users[r.userId].img, ImageUrls(images, r.id)))
  {
    assert IdOf(Finite(r.id as real)) == Some(r.id);
    ReadableOfRecord(records, r, me);
    FirstWithId(records, r);
  }

  // ------------------------------------------------------------------
  // GET /:recordId/comments
  // ------------------------------------------------------------------

  /** `Math.max(1, Number(page || 1))`; an absent or empty page is `None`. */
  function PageNumber(p: Option<Num>): (page: Num)
    ensures page.NaN? <==> p.Some? && p.value.NaN?
    ensures page.Finite? ==> page.v >= 1.0
    ensures p.None? ==> page == Finite(1.0)
    ensures p.Some? && p.value.Finite? && p.value.v >= 1.0 ==> page == p.value
  {
    Max(Finite(1.0), if p.Some? then p.value else Finite(1.0))
  }

  /** `Math.min(50, Math.max(1, Number(size || 20)))`. */
  function PageSize(s: Option<Num>): (size: Num)
    ensures size.NaN? <==> s.Some? && s.value.NaN?
    ensures !size.NaN? ==> size.Finite? && 1.0 <= size.v <= 50.0
    ensures s.None? ==> size == Finite(20.0)
    ensures s.Some? && s.value.Finite? && 1.0 <= s.value.v <= 50.0 ==> size == s.value
  {
    Min(Finite(50.0), Max(Finite(1.0), if s.Some? then s.value else Finite(20.0)))
  }

  /** The value MySQL accepts for `LIMIT` and `OFFSET`: a non-negative whole number. */
  function WholeOf(n: Num): (w: Option<nat>)
    ensures w.Some? <==> n.Finite? && n.v >= 0.0 && n.v.Floor as real == n.v
    ensures w.Some? ==> w.value as real == n.v
  {
    if n.Finite? && n.v >= 0.0 && n.v.Floor as real == n.v then Some(n.v.Floor) else None
  }

  /** `ORDER BY c.id DESC`. */
  predicate CommentIdDesc(a: Comment, b: Comment) {
    a.id >= b.id
  }

  lemma CommentIdDescTotalPreorder()
    ensures TotalPreorder(CommentIdDesc)
  {
  }

  /** `c.record_id = ? AND c.is_deleted = 0`, joined with the author's `Users` row. */
  function Listed(users: map<int, User>, rid: int): Comment -> bool {
    (c: Comment) => c.recordId == rid && !c.isDeleted && c.authorId in users
  }

  /** The record's comments the list shows, larger id first. */
  function CommentRows(comments: seq<Comment>, users: map<int, User>, rid: int): (rows: seq<Comment>)
    ensures forall c :: c in rows <==> c in comments && c.recordId == rid && !c.isDeleted && c.authorId in users
    ensures multiset(rows) == multiset(Filter(comments, Listed(users, rid)))
    ensures SortedBy(rows, CommentIdDesc)
  {
    CommentIdDescTotalPreorder();
    SortByIsSorted(Filter(comments, Listed(users, rid)), CommentIdDesc);
    SortBy(Filter(comments, Listed(users, rid)), CommentIdDesc)
  }

  /** A listed comment with its author's name and image. */
  datatype CommentItem = CommentItem(comment: Comment, authorName: Option<string>, authorImg: Option<string>)

  function ItemOf(users: map<int, User>, c: Comment): CommentItem {
    if c.authorId in users then CommentItem(c, users[c.authorId].name, users[c.authorId].img)
    else CommentItem(c, None, None)
  }

  /** `x` added `n` times. The offset `(page - 1) * size` is only used when
      `size` is whole, and then it is this sum; for a whole `page` it is the
      integer product (`TimesOfInt`). */
  function Times(x: real, n: nat): real {
    if n == 0 then 0.0 else Times(x, n - 1) + x
  }

  lemma {:induction false} TimesOfInt(a: int, n: nat)
    ensures Times(a as real, n) == (a * n) as real
  {
    if n > 0 {
      TimesOfInt(a, n - 1);
    }
  }

  /** `LIMIT ? OFFSET ?` of a request: the size and `(page - 1) * size`, when
      MySQL takes both, that is when both are non-negative whole numbers (an
      infinite page gives an infinite offset, which it refuses). */
  function Window(pageParam: Option<Num>, sizeParam: Option<Num>): (w: Option<(nat, nat)>)
    ensures w.Some? ==>
      var page := PageNumber(pageParam);
      page.Finite? && page.v >= 1.0 && 1 <= w.value.0 <= 50 && PageSize(sizeParam) == Finite(w.value.0 as real)
      && w.value.1 as real == Times(page.v - 1.0, w.value.0)
    ensures w.None? <==>
      !(PageNumber(pageParam).Finite? && WholeOf(PageSize(sizeParam)).Some?
        && WholeOf(Finite(Times(PageNumber(pageParam).v - 1.0, WholeOf(PageSize(sizeParam)).value))).Some?)
  {
    var page := PageNumber(pageParam);
    var size := PageSize(sizeParam);
    if !page.Finite? || WholeOf(size).None? then None
    else
      var n := WholeOf(size).value;
      var off := WholeOf(Finite(Times(page.v - 1.0, n)));
      if off.None? then None else Some((n, off.value))
  }

  /** A whole page number and size give the window of rows `(page - 1) * size ..`. */
  lemma WindowOfWhole(page: nat, size: nat)
    requires page >= 1 && 1 <= size <= 50
    ensures Window(Some(Finite(page as real)), Some(Finite(size as real))) == Some((size, (page - 1) * size))
  {
    var p, z := Finite(page as real), Finite(size as real);
    var off: nat := (page - 1) * size;
    assert PageNumber(Some(p)) == p;
    assert PageSize(Some(z)) == z;
    assert (size as real).Floor == size;
    assert WholeOf(z) == Some(size);
    TimesOfInt(page - 1, size);
    assert Times(page as real - 1.0, size) == off as real;
    assert (off as real).Floor == off;
    assert WholeOf(Finite(off as real)) == Some(off);
  }

  /** The body of GET /:recordId/comments. */
  datatype CommentPage = CommentPage(page: Num, size: nat, comments: seq<CommentItem>)

  /** GET /:recordId/comments: 400 for a non-finite id, the readable-record
      check, 500 when `LIMIT`/`OFFSET` are not whole numbers (a page or size
      that is NaN, a fractional size, an infinite page); otherwise the window
      of `size` rows starting at `(page - 1) * size`. */
  function ListComments(records: seq<Record>, comments: seq<Comment>, users: map<int, User>, recordId: Num, me: int,
                        pageParam: Option<Num>, sizeParam: Option<Num>)
    : (res: Result<CommentPage>)
    ensures res.Err? ==> res.status in {400, 403, 404, 500}
    ensures res == Err(400) <==> !recordId.Finite?
    ensures recordId.Finite? && EnsureReadable(records, IdOf(recordId), me).Err? ==>
      res == Err(EnsureReadable(records, IdOf(recordId), me).status)
    ensures recordId.Finite? && EnsureReadable(records, IdOf(recordId), me).Ok? ==>
      (res == Err(500) <==> Window(pageParam, sizeParam).None?)
    ensures res.Ok? ==>
      recordId.Finite? && IdOf(recordId).Some? && EnsureReadable(records, IdOf(recordId), me).Ok?
      && Window(pageParam, sizeParam).Some? && res.value.page == PageNumber(pageParam)
      && res.value.size == Window(pageParam, sizeParam).value.0
      && res.value.comments == CommentWindow(comments, users, IdOf(recordId).value, Window(pageParam, sizeParam).value)
  {
    if !recordId.Finite? then Err(400)
    else match EnsureReadable(records, IdOf(recordId), me)
      case Err(s) => Err(s)
      case Ok(_) =>
        match Window(pageParam, sizeParam)
        case None => Err(500)
        case Some(w) => Ok(CommentPage(PageNumber(pageParam), w.0, CommentWindow(comments, users, IdOf(recordId).value, w)))
  }

  /** `LIMIT size OFFSET off` over the record's listed comments, each with its author. */
  function CommentWindow(comments: seq<Comment>, users: map<int, User>, rid: int, w: (nat, nat)): (items: seq<CommentItem>)
    ensures var rows := CommentRows(comments, users, rid);
      |items| == (if w.1 >= |rows| then 0 else if |rows| - w.1 < w.0 then |rows| - w.1 else w.0)
      && forall i :: 0 <= i < |items| ==> w.1 + i < |rows| && items[i] == ItemOf(users, rows[w.1 + i])
  {
    Map(Page(CommentRows(comments, users, rid), w.0, w.1), (c: Comment) => ItemOf(users, c))
  }

  /** Page `page` of `size` rows shows the listed comments from position
      `(page - 1) * size` on: the comment at position `j` is row `k` of that
      page when `j == (page - 1) * size + k`. */
  lemma CommentOnItsPage(records: seq<Record>, comments: seq<Comment>, users: map<int, User>, rid: int, me: int,
                         page: nat, size: nat, k: nat, j: nat)
    requires page >= 1 && 1 <= size <= 50 && k < size && EnsureReadable(records, Some(rid), me).Ok?
    requires j == (page - 1) * size + k && j < |CommentRows(comments, users, rid)|
    ensures var res := ListComments(records, comments, users, Finite(rid as real), me,
                                    Some(Finite(page as real)), Some(Finite(size as real)));
      res.Ok? && k < |res.value.comments|
      && res.value.comments[k] == ItemOf(users, CommentRows(comments, users, rid)[j])
  {
    PageOffset(page, size, k, j);
    var off: nat := j - k;
    ListCommentsWhole(records, comments, users, rid, me, page, size, off);
    CommentWindowAt(comments, users, rid, size, off, k);
  }

  /** Position `j` of row `k` on page `page` is `k` past the page's start. */
  lemma PageOffset(page: nat, size: nat, k: nat, j: nat)
    requires page >= 1 && j == (page - 1) * size + k
    ensures k <= j && j - k == (page - 1) * size
  {
  }

  /** A whole page and size of a readable record list the window from `(page - 1) * size`. */
  lemma ListCommentsWhole(records: seq<Record>, comments: seq<Comment>, users: map<int, User>, rid: int, me: int,
                          page: nat, size: nat, off: nat)
    requires page >= 1 && 1 <= size <= 50 && EnsureReadable(records, Some(rid), me).Ok?
    requires off == (page - 1) * size
    ensures var res := ListComments(records, comments, users, Finite(rid as real), me,
                                    Some(Finite(page as real)), Some(Finite(size as real)));
      res.Ok? && res.value.comments == CommentWindow(comments, users, rid, (size, off))
  {
    assert IdOf(Finite(rid as real)) == Some(rid);
    WindowOfWhole(page, size);
  }

  /** Row `k` of a window is the listed comment `k` places after its start. */
  lemma CommentWindowAt(comments: seq<Comment>, users: map<int, User>, rid: int, size: nat, off: nat, k: nat)
    requires k < size && off + k < |CommentRows(comments, users, rid)|
    ensures var items := CommentWindow(comments, users, rid, (size, off));
      k < |items| && items[k] == ItemOf(users, CommentRows(comments, users, rid)[off + k])
  {
  }

  // ------------------------------------------------------------------
  // POST /:recordId/comments
  // ------------------------------------------------------------------

  /** `String(content || '').trim()`; an absent body field is `None`. */
  function PostedText(content: Option<string>): string {
    Trim(if Truthy(content) then content.value else "")
  }

  /** The status of POST /:recordId/comments, in the handler's order: 400 for
      a non-finite id, 400 for empty or over-long content, the readable-record
      check, 403 unless the record is public, else 201. */
  function PostStatus(records: seq<Record>, recordId: Num, me: int, content: Option<string>): (status: int)
    ensures status in {201, 400, 403, 404}
    ensures !recordId.Finite? ==> status == 400
    ensures recordId.Finite? && (PostedText(content) == "" || |PostedText(content)| > 2000) ==> status == 400
    ensures (recordId.Finite? && 1 <= |PostedText(content)| <= 2000
             && (IdOf(recordId).None? || forall r :: r in records ==> r.id != IdOf(recordId).value))
            ==> status == 404
    ensures status == 201 ==>
      recordId.Finite? && IdOf(recordId).Some? && 1 <= |PostedText(content)| <= 2000
      && exists r :: r in records && r.id == IdOf(recordId).value && IsPublic(r)
  {
    if !recordId.Finite? then 400
    else if PostedText(content) == "" then 400
    else if |PostedText(content)| > 2000 then 400
    else match EnsureReadable(records, IdOf(recordId), me)
      case Err(s) => s
      case Ok(_) =>
        match FirstWhere(records, HasId(IdOf(recordId).value))
        case None => 404
        case Some(rec) => if IsPublic(rec) then 201 else 403
  }

  /** Only a public record takes comments, even from its owner. */
  lemma PostNeedsPublic(records: seq<Record>, r: Record, me: int, content: Option<string>)
    requires UniqueIds(records) && r in records && 1 <= |PostedText(content)| <= 2000
    ensures PostStatus(records, Finite(r.id as real), me, content) == if IsPublic(r) then 201 else 403
  {
    assert IdOf(Finite(r.id as real)) == Some(r.id);
    ReadableOfRecord(records, r, me);
    FirstWithId(records, r);
  }

  /** POST /:recordId/comments: on 201 the trimmed comment is appended under
      the next id; otherwise nothing changes. */
  method PostComment(db: Database, me: int, recordId: Num, content: Option<string>, newId: int)
    returns (status: int, created: Option<Comment>)
    modifies db`comments
    ensures status == PostStatus(db.records, recordId, me, content)
    ensures status == 201 ==>
      created == Some(Comment(newId, IdOf(recordId).value, me, PostedText(content), false))
      && db.comments == old(db.comments) + [created.value]
    ensures status != 201 ==> created.None? && db.comments == old(db.comments)
  {
    status := PostStatus(db.records, recordId, me, content);
    if status != 201 {
      return status, None;
    }
    var c := Comment(newId, IdOf(recordId).value, me, PostedText(content), false);
    db.comments := db.comments + [c];
    created := Some(c);
  }

  /** A posted comment with an id above every earlier one heads the record's
      list, as long as its author has a `Users` row. */
  lemma PostedHeadsList(comments: seq<Comment>, users: map<int, User>, c: Comment)
    requires forall x :: x in comments ==> x.id < c.id
    requires !c.isDeleted && c.authorId in users
    ensures var rows := CommentRows(comments + [c], users, c.recordId);
      rows != [] && rows[0] == c
  {
    var rows := CommentRows(comments + [c], users, c.recordId);
    assert c in comments + [c];
    assert c in rows;
    var j :| 0 <= j < |rows| && rows[j] == c;
    assert CommentIdDesc(rows[0], c) by {
      if j != 0 {
        assert CommentIdDesc(rows[0], rows[j]);
      }
    }
    assert rows[0] in comments + [c];
  }

  // ------------------------------------------------------------------
  // DELETE /comments/:commentId
  // ------------------------------------------------------------------

  function CommentWithId(id: int): Comment -> bool {
    (c: Comment) => c.id == id
  }

  /** `RecordComments.id` is the primary key. */
  predicate UniqueCommentIds(cs: seq<Comment>) {
    forall i, j :: 0 <= i < |cs| && 0 <= j < |cs| && cs[i].id == cs[j].id ==> i == j
  }

  /** The comment a finite id names, if any (deleted ones included). */
  function FindComment(comments: seq<Comment>, n: Num): (c: Option<Comment>)
    requires n.Finite?
    ensures c.Some? ==> c.value in comments && IdOf(n) == Some(c.value.id)
    ensures c.None? <==> IdOf(n).None? || forall x :: x in comments ==> x.id != IdOf(n).value
  {
    match IdOf(n)
    case None => None
    case Some(id) =>
      var r := FirstWhere(comments, CommentWithId(id));
      assert r.None? ==> forall x :: x in comments ==> x.id != id by {
        if r.None? {
          forall x | x in comments ensures x.id != id {
            var k :| 0 <= k < |comments| && comments[k] == x;
          }
        }
      }
      r
  }

  /** The owner of the comment's record, through `JOIN Records r ON r.id = c.record_id`. */
  function RecordOwner(records: seq<Record>, c: Comment): (owner: Option<int>)
    ensures owner.Some? ==> exists r :: r in records && r.id == c.recordId && r.userId == owner.value
    ensures owner.None? <==> forall r :: r in records ==> r.id != c.recordId
  {
    match FirstWhere(records, HasId(c.recordId))
    case None =>
      assert forall r :: r in records ==> r.id != c.recordId by {
        forall r | r in records ensures r.id != c.recordId {
          var k :| 0 <= k < |records| && records[k] == r;
        }
      }
      None
    case Some(r) => Some(r.userId)
  }

  /** The status of DELETE /comments/:commentId: 400 for a non-finite id, 404
      without the comment or its record, 403 unless the requester wrote the
      comment or owns the record, else 204. */
  function DeleteStatus(comments: seq<Comment>, records: seq<Record>, idParam: Num, me: int): (status: int)
    ensures status in {204, 400, 403, 404}
    ensures status == 400 <==> !idParam.Finite?
    ensures idParam.Finite? && FindComment(comments, idParam).None? ==> status == 404
    ensures idParam.Finite? && FindComment(comments, idParam).Some? ==>
      var c := FindComment(comments, idParam).value;
      match RecordOwner(records, c)
      case None => status == 404
      case Some(owner) => status in {204, 403} && (status == 204 <==> c.authorId == me || owner == me)
    ensures status == 204 || status == 403 ==>
      idParam.Finite? && FindComment(comments, idParam).Some?
      && RecordOwner(records, FindComment(comments, idParam).value).Some?
      && (status == 204 <==> (FindComment(comments, idParam).value.authorId == me
                              || RecordOwner(records, FindComment(comments, idParam).value).value == me))
  {
    if !idParam.Finite? then 400
    else match FindComment(comments, idParam)
      case None => 404
      case Some(c) =>
        match RecordOwner(records, c)
        case None => 404
        case Some(owner) => if c.authorId != me && owner != me then 403 else 204
  }

  function SoftDeletedComment(c: Comment): Comment {
    c.(isDeleted := true)
  }

  /** `UPDATE RecordComments SET is_deleted=1 WHERE id=?`. */
  function DeletedComments(comments: seq<Comment>, id: int): (r: seq<Comment>)
    ensures |r| == |comments|
    ensures forall i :: 0 <= i < |comments| ==>
      r[i] == if comments[i].id == id then comments[i].(isDeleted := true) else comments[i]
  {
    Map(comments, (c: Comment) => if c.id == id then SoftDeletedComment(c) else c)
  }

  /** DELETE /comments/:commentId: on 204 the comment is marked deleted; otherwise nothing changes. */
  method DeleteComment(db: Database, me: int, idParam: Num) returns (status: int)
    modifies db`comments
    ensures status == DeleteStatus(old(db.comments), db.records, idParam, me)
    ensures status == 204 ==> db.comments == DeletedComments(old(db.comments), IdOf(idParam).value)
    ensures status != 204 ==> db.comments == old(db.comments)
  {
    status := DeleteStatus(db.comments, db.records, idParam, me);
    if status == 204 {
      db.comments := DeletedComments(db.comments, IdOf(idParam).value);
    }
  }

  /** A deleted comment leaves every list, while its row and content stay. */
  lemma DeletedLeavesList(comments: seq<Comment>, users: map<int, User>, id: int, rid: int)
    ensures forall c :: c in CommentRows(DeletedComments(comments, id), users, rid) ==> c.id != id
    ensures forall i :: 0 <= i < |comments| ==>
      DeletedComments(comments, id)[i].content == comments[i].content
      && DeletedComments(comments, id)[i].id == comments[i].id
  {
    DeletedIdDeleted(comments, id);
  }

  lemma DeletedIdDeleted(comments: seq<Comment>, id: int)
    ensures forall c :: c in DeletedComments(comments, id) && c.id == id ==> c.isDeleted
  {
    var after := DeletedComments(comments, id);
    forall c | c in after && c.id == id ensures c.isDeleted {
      var k :| 0 <= k < |after| && after[k] == c;
    }
  }

  // ------------------------------------------------------------------
  // POST /comments/:commentId/report and GET /comments/:commentId/report-count
  // ------------------------------------------------------------------

  /** The reporters of comment `id` in `CommentReports`. */
  function Reporters(reports: set<(int, int)>, id: int): (who: set<int>)
    ensures forall u :: u in who <==> (id, u) in reports
  {
    set p | p in reports && p.0 == id :: p.1
  }

  /** The body of a successful report. */
  datatype ReportReply = ReportReply(alreadyReported: bool, count: nat)

  /** The outcome of POST /comments/:commentId/report before the insert: 400
      for a non-finite id, 404 for a missing or deleted comment, 400 for one's
      own comment, else the comment's id. */
  function ReportTarget(comments: seq<Comment>, idParam: Num, me: int): (res: Result<int>)
    ensures res.Err? ==> res.status == 400 || res.status == 404
    ensures !idParam.Finite? ==> res == Err(400)
    ensures res.Ok? ==> idParam.Finite? && exists c :: c in comments && c.id == res.value && !c.isDeleted && c.authorId != me
    ensures res.Ok? ==> IdOf(idParam) == Some(res.value)
    ensures idParam.Finite? && FindComment(comments, idParam).None? ==> res == Err(404)
    ensures idParam.Finite? && FindComment(comments, idParam).Some? ==>
      var c := FindComment(comments, idParam).value;
      res == if c.isDeleted then Err(404) else if c.authorId == me then Err(400) else Ok(c.id)
  {
    if !idParam.Finite? then Err(400)
    else match FindComment(comments, idParam)
      case None => Err(404)
      case Some(c) =>
        if c.isDeleted then Err(404)
        else if c.authorId == me then Err(400)
        else Ok(c.id)
  }

  /** `INSERT IGNORE` of (comment, reporter), with 201 for a new row and 200 for
      one already there, and the comment's report count after it. */
  function Reported(reports: set<(int, int)>, id: int, me: int): (r: (set<(int, int)>, int, ReportReply))
    ensures r.0 == reports + {(id, me)}
    ensures r.1 == (if (id, me) in reports then 200 else 201)
    ensures r.2.alreadyReported <==> (id, me) in reports
    ensures r.2.count == |Reporters(r.0, id)|
  {
    var after := reports + {(id, me)};
    (after, if (id, me) in reports then 200 else 201, ReportReply((id, me) in reports, |Reporters(after, id)|))
  }

  /** The first report of a user adds one to the count; a repeat changes
      nothing and answers 200 with `alreadyReported`. */
  lemma ReportCounts(reports: set<(int, int)>, id: int, me: int)
    ensures var (after, status, reply) := Reported(reports, id, me);
      reply.count == |Reporters(reports, id)| + (if (id, me) in reports then 0 else 1)
      && var (again, status2, reply2) := Reported(after, id, me);
         again == after && status2 == 200 && reply2 == ReportReply(true, reply.count)
  {
    var after := reports + {(id, me)};
    assert Reporters(after, id) == Reporters(reports, id) + {me};
    if (id, me) in reports {
      assert Reporters(reports, id) + {me} == Reporters(reports, id);
    } else {
      assert me !in Reporters(reports, id);
    }
  }

  /** POST /comments/:commentId/report: on a valid target the pair is
      inserted (or already there) and the reply carries the count. */
  method ReportComment(db: Database, me: int, idParam: Num) returns (status: int, reply: Option<ReportReply>)
    modifies db`reports
    ensures ReportTarget(db.comments, idParam, me).Err? ==>
      status == ReportTarget(db.comments, idParam, me).status && reply.None? && db.reports == old(db.reports)
    ensures ReportTarget(db.comments, idParam, me).Ok? ==>
      var r := Reported(old(db.reports), ReportTarget(db.comments, idParam, me).value, me);
      db.reports == r.0 && status == r.1 && reply == Some(r.2)
  {
    var target := ReportTarget(db.comments, idParam, me);
    if target.Err? {
      return target.status, None;
    }
    var r := Reported(db.reports, target.value, me);
    db.reports := r.0;
    status, reply := r.1, Some(r.2);
  }

  /** GET /comments/:commentId/report-count: 400 for a non-finite id, else the
      number of reports of that id (no report for a fractional one). */
  function ReportCount(reports: set<(int, int)>, idParam: Num): (res: Result<nat>)
    ensures res == Err(400) <==> !idParam.Finite?
    ensures res.Ok? ==> res.value == (if IdOf(idParam).Some? then |Reporters(reports, IdOf(idParam).value)| else 0)
  {
    if !idParam.Finite? then Err(400)
    else match IdOf(idParam)
      case None => Ok(0)
      case Some(id) => Ok(|Reporters(reports, id)|)
  }

  /** The report count answers what the last report's reply said. */
  lemma CountAgreesWithReply(reports: set<(int, int)>, id: int, me: int)
    ensures ReportCount(Reported(reports, id, me).0, Finite(id as real)) == Ok(Reported(reports, id, me).2.count)
  {
    assert IdOf(Finite(id as real)) == Some(id);
  }
}

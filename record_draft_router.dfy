/**
 * The `/record-drafts` routes. Their list, representative-image, PUT and
 * DELETE handlers are the same code as the `/records` routes and are modelled
 * by the `RecordRouter` members; what differs is modelled here: the detail and
 * image reads are owner-only, and the calendar reads the stored
 * `EmotionCalendar` rows instead of the records.
 */
module RecordDraftRouter {
  import opened Wrappers
  import opened Js
  import opened Seqs
  import opened Dates
  import opened Tables
  import opened DailySummary
  import opened RecordRouter

  // ------------------------------------------------------------------
  // GET /:id and /:id/images — owner only
  // ------------------------------------------------------------------

  /** GET /:id: `SELECT * FROM Records WHERE id = ? AND userId = ?`; 500 for an
      id that is not a number, 404 unless the requester owns such a record. */
  function DraftGetRecord(records: seq<Record>, idParam: string, u: int): (res: Result<Record>)
    ensures res.Err? ==> res.status == 404 || res.status == 500
    ensures res == Err(500) <==> ParseInt(idParam).None?
    ensures res.Ok? ==> res.value in records && res.value.id == ParseInt(idParam).value && res.value.userId == u
    ensures res == Err(404) <==>
      ParseInt(idParam).Some? && forall r :: r in records ==> !(r.id == ParseInt(idParam).value && r.userId == u)
  {
    match ParseInt(idParam)
    case None => Err(500)
    case Some(id) =>
      match FirstWhere(records, OwnedBy(id, u))
      case None =>
        assert forall r :: r in records ==> !(r.id == id && r.userId == u) by {
          forall r | r in records ensures !(r.id == id && r.userId == u) {
            var k :| 0 <= k < |records| && records[k] == r;
          }
        }
        Err(404)
      case Some(r) => Ok(r)
  }

  /** Unlike GET /records/:id, a public record of another user stays hidden. */
  lemma DraftHidesPublicRecords(records: seq<Record>, users: map<int, User>, idParam: string, u: int, r: Record)
    requires UniqueIds(records) && r in records && ParseInt(idParam) == Some(r.id)
    requires r.userId != u && IsPublic(r) && r.userId in users
    ensures DraftGetRecord(records, idParam, u) == Err(404)
    ensures GetRecord(records, users, idParam, u).Ok?
  {
    forall x | x in records ensures !(x.id == r.id && x.userId == u) {
      var i :| 0 <= i < |records| && records[i] == x;
      var j :| 0 <= j < |records| && records[j] == r;
      if i != j {
        DistinctIds(records, i, j);
      }
    }
  }

  /** GET /:id/images: 500 for an id that is not a number, 404 when no record
      has the id, 403 when it is someone else's, else the image urls. */
  function DraftImages(records: seq<Record>, images: seq<RecordImage>, idParam: string, u: int)
    : (res: Result<seq<string>>)
    ensures res.Err? ==> res.status in {403, 404, 500}
    ensures res == Err(500) <==> ParseInt(idParam).None?
    ensures res == Err(404) <==> ParseInt(idParam).Some? && forall r :: r in records ==> r.id != ParseInt(idParam).value
    ensures res == Err(403) ==> exists r :: r in records && r.id == ParseInt(idParam).value && r.userId != u
    ensures res.Ok? ==>
      (exists r :: r in records && r.id == ParseInt(idParam).value && r.userId == u)
      && res.value == ImageUrls(images, ParseInt(idParam).value)
  {
    match ParseInt(idParam)
    case None => Err(500)
    case Some(id) =>
      match FirstWhere(records, HasId(id))
      case None =>
        assert forall r :: r in records ==> r.id != id by {
          forall r | r in records ensures r.id != id {
            var k :| 0 <= k < |records| && records[k] == r;
          }
        }
        Err(404)
      case Some(own) => if own.userId != u then Err(403) else Ok(ImageUrls(images, id))
  }

  /** With ids unique, 403 is exactly the case of a record owned by another user. */
  lemma DraftImagesForbidden(records: seq<Record>, images: seq<RecordImage>, idParam: string, u: int, r: Record)
    requires UniqueIds(records) && r in records && ParseInt(idParam) == Some(r.id)
    ensures DraftImages(records, images, idParam, u) == if r.userId == u then Ok(ImageUrls(images, r.id)) else Err(403)
  {
    var j :| 0 <= j < |records| && records[j] == r;
    forall k | 0 <= k < |records| && k != j ensures records[k].id != r.id {
      DistinctIds(records, k, j);
    }
  }

  // ------------------------------------------------------------------
  // GET /calendar — the stored calendar rows of a month
  // ------------------------------------------------------------------

  /** The stored rows of user `u` dated `y-m-day` .. `y-m-31`, ascending
      (the day-31 bound is compared as a date even in a shorter month). */
  function RowsFrom(cal: map<(int, Date), CalendarRow>, u: int, y: int, m: int, day: nat): (es: seq<CalendarEntry>)
    requires day >= 1
    ensures StoredRows(cal, u, y, m, day, es)
    ensures Covers(cal, u, y, m, day, es)
    ensures DatesAscending(es)
    decreases 32 - day
  {
    if day > 31 then []
    else
      var rest := RowsFrom(cal, u, y, m, day + 1);
      var d := Date(y, m, day);
      if (u, d) in cal then
        var e := CalendarEntry(d, cal[(u, d)].emotion, cal[(u, d)].expression);
        RowsCons(cal, u, y, m, day, e, rest);
        [e] + rest
      else rest
  }

  /** Each entry of `es` is a stored row of `u` in `y-m`, dated `day` .. 31. */
  predicate StoredRows(cal: map<(int, Date), CalendarRow>, u: int, y: int, m: int, day: int, es: seq<CalendarEntry>) {
    forall k :: 0 <= k < |es| ==>
      es[k].date.year == y && es[k].date.month == m && day <= es[k].date.day <= 31
      && (u, es[k].date) in cal && cal[(u, es[k].date)] == CalendarRow(es[k].emotion, es[k].expression)
  }

  /** Every stored date of `y-m` from `day` on has an entry of `es`. */
  ghost predicate Covers(cal: map<(int, Date), CalendarRow>, u: int, y: int, m: int, day: int, es: seq<CalendarEntry>) {
    forall d :: (u, d) in cal && d.year == y && d.month == m && day <= d.day <= 31 ==>
      exists k :: 0 <= k < |es| && es[k].date == d
  }

  lemma RowsCons(cal: map<(int, Date), CalendarRow>, u: int, y: int, m: int, day: int, e: CalendarEntry,
                 rest: seq<CalendarEntry>)
    requires 1 <= day <= 31 && e.date == Date(y, m, day)
    requires (u, e.date) in cal && cal[(u, e.date)] == CalendarRow(e.emotion, e.expression)
    requires StoredRows(cal, u, y, m, day + 1, rest) && Covers(cal, u, y, m, day + 1, rest) && DatesAscending(rest)
    ensures StoredRows(cal, u, y, m, day, [e] + rest)
    ensures Covers(cal, u, y, m, day, [e] + rest)
    ensures DatesAscending([e] + rest)
  {
    StoredCons(cal, u, y, m, day, e, rest);
    CoversCons(cal, u, y, m, day, e, rest);
    AscendingCons(cal, u, y, m, day, e, rest);
  }

  lemma StoredCons(cal: map<(int, Date), CalendarRow>, u: int, y: int, m: int, day: int, e: CalendarEntry,
                   rest: seq<CalendarEntry>)
    requires 1 <= day <= 31 && e.date == Date(y, m, day)
    requires (u, e.date) in cal && cal[(u, e.date)] == CalendarRow(e.emotion, e.expression)
    requires StoredRows(cal, u, y, m, day + 1, rest)
    ensures StoredRows(cal, u, y, m, day, [e] + rest)
  {
    var es := [e] + rest;
    forall k | 0 <= k < |es|
      ensures es[k].date.year == y && es[k].date.month == m && day <= es[k].date.day <= 31
              && (u, es[k].date) in cal && cal[(u, es[k].date)] == CalendarRow(es[k].emotion, es[k].expression)
    {
      if k > 0 {
        assert es[k] == rest[k - 1];
      }
    }
  }

  lemma CoversCons(cal: map<(int, Date), CalendarRow>, u: int, y: int, m: int, day: int, e: CalendarEntry,
                   rest: seq<CalendarEntry>)
    requires 1 <= day <= 31 && e.date == Date(y, m, day)
    requires Covers(cal, u, y, m, day + 1, rest)
    ensures Covers(cal, u, y, m, day, [e] + rest)
  {
    var es := [e] + rest;
    forall d | (u, d) in cal && d.year == y && d.month == m && day <= d.day <= 31
      ensures exists k :: 0 <= k < |es| && es[k].date == d
    {
      if d.day == day {
        assert es[0].date == d;
      } else {
        var k :| 0 <= k < |rest| && rest[k].date == d;
        assert es[k + 1].date == d;
      }
    }
  }

  lemma AscendingCons(cal: map<(int, Date), CalendarRow>, u: int, y: int, m: int, day: int, e: CalendarEntry,
                      rest: seq<CalendarEntry>)
    requires 1 <= day <= 31 && e.date == Date(y, m, day)
    requires StoredRows(cal, u, y, m, day + 1, rest) && DatesAscending(rest)
    ensures DatesAscending([e] + rest)
  {
    var es := [e] + rest;
    forall i, j | 0 <= i < j < |es| ensures DateLt(es[i].date, es[j].date) {
      assert es[j] == rest[j - 1];
      if i > 0 {
        assert es[i] == rest[i - 1];
      }
    }
  }

  /** `date BETWEEN 'y-m-01' AND 'y-m-31'` holds exactly for the dates of month `y-m`
      whose day is 1 .. 31. */
  lemma BetweenIsMonth(y: int, m: int, d: Date)
    ensures DateLe(Date(y, m, 1), d) && DateLe(d, Date(y, m, 31)) <==> d.year == y && d.month == m && 1 <= d.day <= 31
  {
  }

  /** GET /calendar: 400 without a year or month, otherwise the user's stored
      calendar rows of the month, in ascending date order. */
  function DraftCalendar(cal: map<(int, Date), CalendarRow>, u: int, year: Option<string>, month: Option<string>)
    : (res: Result<seq<CalendarEntry>>)
    ensures res.Err? <==> !Truthy(year) || !Truthy(month)
    ensures res.Err? ==> res.status == 400
    ensures res.Ok? ==> DatesAscending(res.value)
    ensures res.Ok? ==>
      match MonthStart(year.value, PadStart(month.value, 2, '0'))
      case None => res.value == []
      case Some(first) =>
        var end := Date(first.year, first.month, 31);
        (forall e :: e in res.value ==>
           DateLe(first, e.date) && DateLe(e.date, end)
           && (u, e.date) in cal && cal[(u, e.date)] == CalendarRow(e.emotion, e.expression))
        && (forall d :: (u, d) in cal && DateLe(first, d) && DateLe(d, end) ==>
              exists k :: 0 <= k < |res.value| && res.value[k].date == d)
  {
    if !Truthy(year) || !Truthy(month) then Err(400)
    else match MonthStart(year.value, PadStart(month.value, 2, '0'))
      case None => Ok([])
      case Some(first) =>
        var es := RowsFrom(cal, u, first.year, first.month, 1);
        assert forall d :: DateLe(first, d) && DateLe(d, Date(first.year, first.month, 31)) <==>
          d.year == first.year && d.month == first.month && 1 <= d.day <= 31;
        Ok(es)
  }

  /** While the stored calendar is faithful to the records, the draft calendar
      lists exactly the valid dates of the month on which the user wrote, each
      with that day's mode emotion and the expression of its latest record. */
  lemma DraftCalendarShowsModes(cal: map<(int, Date), CalendarRow>, records: seq<Record>, u: int,
                                year: string, month: string, first: Date)
    requires CalendarFaithful(cal, records)
    requires year != "" && month != "" && MonthStart(year, PadStart(month, 2, '0')) == Some(first)
    ensures DraftCalendar(cal, u, Some(year), Some(month)).Ok?
    ensures var es := DraftCalendar(cal, u, Some(year), Some(month)).value;
      (forall e :: e in es ==>
         var rs := DayRecords(records, u, e.date);
         rs != [] && IsWinner(rs, e.emotion) && e.expression == LatestExpr(rs, e.emotion))
      && (forall r :: r in records && r.userId == u && ValidDate(r.createdAt.date)
                      && r.createdAt.date.year == first.year && r.createdAt.date.month == first.month ==>
            exists k :: 0 <= k < |es| && es[k].date == r.createdAt.date)
  {
    DraftEntriesAreModes(cal, records, u, year, month);
    var es := DraftCalendar(cal, u, Some(year), Some(month)).value;
    forall r | r in records && r.userId == u && ValidDate(r.createdAt.date)
               && r.createdAt.date.year == first.year && r.createdAt.date.month == first.month
      ensures exists k :: 0 <= k < |es| && es[k].date == r.createdAt.date
    {
      var d := r.createdAt.date;
      assert DayFaithful(cal, records, u, d);
      assert r in DayRecords(records, u, d);
      BetweenIsMonth(first.year, first.month, d);
    }
  }

  lemma DraftEntriesAreModes(cal: map<(int, Date), CalendarRow>, records: seq<Record>, u: int, year: string, month: string)
    requires CalendarFaithful(cal, records)
    requires year != "" && month != ""
    ensures var es := DraftCalendar(cal, u, Some(year), Some(month)).value;
      forall e :: e in es ==>
        var rs := DayRecords(records, u, e.date);
        rs != [] && IsWinner(rs, e.emotion) && e.expression == LatestExpr(rs, e.emotion)
  {
    var es := DraftCalendar(cal, u, Some(year), Some(month)).value;
    forall e | e in es
      ensures var rs := DayRecords(records, u, e.date);
              rs != [] && IsWinner(rs, e.emotion) && e.expression == LatestExpr(rs, e.emotion)
    {
      assert DayFaithful(cal, records, u, e.date);
    }
  }
}

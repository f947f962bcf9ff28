/**
 * The `/recall` routes: records whose reveal time has come and that their
 * author has not acknowledged, the records written exactly 6 or 12 months
 * ago, and the acknowledgment itself (an insert into `Users_Rec`, the set of
 * (userId, recId) pairs). `now` and `today` (`NOW()`, `CURDATE()`) are inputs.
 */
module RecallRouter {
  import opened Wrappers
  import opened Js
  import opened Seqs
  import opened Dates
  import opened Tables
  import opened DailySummary
  import opened RecordRouter

  // ------------------------------------------------------------------
  // GET /pending
  // ------------------------------------------------------------------

  /** `reveal_at <= NOW()`; a NULL reveal time is never due. */
  predicate Due(r: Record, now: Instant) {
    r.revealAt.Some? && InstantLe(r.revealAt.value, now)
  }

  /** `LEFT JOIN Users_Rec ur ON ur.recId = r.id AND ur.userId = ? ... WHERE ur.id IS NULL`. */
  predicate Unacked(acks: set<(int, int)>, u: int, r: Record) {
    (u, r.id) !in acks
  }

  function PendingMatch(acks: set<(int, int)>, u: int, now: Instant): Record -> bool {
    (r: Record) => r.userId == u && Due(r, now) && Unacked(acks, u, r)
  }

  predicate OptLt(a: Option<Instant>, b: Option<Instant>) {
    OptLe(a, b) && a != b
  }

  /** `ORDER BY r.reveal_at DESC, r.id DESC`. */
  predicate RevealIdDesc(a: Record, b: Record) {
    OptLt(b.revealAt, a.revealAt) || (a.revealAt == b.revealAt && a.id >= b.id)
  }

  lemma RevealIdDescTotalPreorder()
    ensures TotalPreorder(RevealIdDesc)
  {
  }

  /** GET /pending: exactly the user's due, unacknowledged records, latest
      reveal first, then larger id first. */
  function Pending(records: seq<Record>, acks: set<(int, int)>, u: int, now: Instant): (rows: seq<Record>)
    ensures forall r :: r in rows <==> r in records && r.userId == u && Due(r, now) && (u, r.id) !in acks
    ensures multiset(rows) == multiset(Filter(records, PendingMatch(acks, u, now)))
    ensures SortedBy(rows, RevealIdDesc)
  {
    RevealIdDescTotalPreorder();
    SortByIsSorted(Filter(records, PendingMatch(acks, u, now)), RevealIdDesc);
    SortBy(Filter(records, PendingMatch(acks, u, now)), RevealIdDesc)
  }

  // ------------------------------------------------------------------
  // GET /ago and GET /today
  // ------------------------------------------------------------------

  /** `ORDER BY r.created_at DESC, r.id DESC`. */
  predicate CreatedIdDesc(a: Record, b: Record) {
    InstantLt(b.createdAt, a.createdAt) || (a.createdAt == b.createdAt && a.id >= b.id)
  }

  lemma CreatedIdDescTotalPreorder()
    ensures TotalPreorder(CreatedIdDesc)
  {
  }

  /** The user's records dated `d`, newest first (ties by larger id). */
  function WrittenOn(records: seq<Record>, u: int, d: Date): (rows: seq<Record>)
    ensures forall r :: r in rows <==> r in records && r.userId == u && r.createdAt.date == d
    ensures multiset(rows) == multiset(DayRecords(records, u, d))
    ensures SortedBy(rows, CreatedIdDesc)
  {
    CreatedIdDescTotalPreorder();
    SortByIsSorted(DayRecords(records, u, d), CreatedIdDesc);
    SortBy(DayRecords(records, u, d), CreatedIdDesc)
  }

  /** The body of GET /ago. */
  datatype AgoPage = AgoPage(months: int, items: seq<Record>)

  /** GET /ago: `months` must parse to 6 or 12 (else 400); the items are the
      user's records written on `today` minus that many months. */
  function Ago(records: seq<Record>, u: int, monthsParam: string, today: Date): (res: Result<AgoPage>)
    requires ValidDate(today)
    ensures res.Err? <==> ParseInt(monthsParam) != Some(6) && ParseInt(monthsParam) != Some(12)
    ensures res.Err? ==> res.status == 400
    ensures res.Ok? ==>
      var k := res.value.months;
      (k == 6 || k == 12) && Some(k) == ParseInt(monthsParam)
      && (forall r :: r in res.value.items <==>
            r in records && r.userId == u && r.createdAt.date == SubMonths(today, k))
      && SortedBy(res.value.items, CreatedIdDesc)
  {
    match ParseInt(monthsParam)
    case Some(k) =>
      if k == 6 || k == 12 then Ok(AgoPage(k, WrittenOn(records, u, SubMonths(today, k)))) else Err(400)
    case None => Err(400)
  }

  /** The body of GET /today. */
  datatype TodayRecall = TodayRecall(sixMonths: seq<Record>, oneYear: seq<Record>)

  /** GET /today: the records written 6 months ago and 12 months ago. */
  function RecallToday(records: seq<Record>, u: int, today: Date): (res: TodayRecall)
    requires ValidDate(today)
    ensures forall r :: r in res.sixMonths <==> r in records && r.userId == u && r.createdAt.date == SubMonths(today, 6)
    ensures forall r :: r in res.oneYear <==> r in records && r.userId == u && r.createdAt.date == SubMonths(today, 12)
    ensures SortedBy(res.sixMonths, CreatedIdDesc) && SortedBy(res.oneYear, CreatedIdDesc)
  {
    TodayRecall(WrittenOn(records, u, SubMonths(today, 6)), WrittenOn(records, u, SubMonths(today, 12)))
  }

  /** The two lists of GET /today are what GET /ago answers for 6 and 12 months. */
  lemma TodayIsAgo(records: seq<Record>, u: int, today: Date)
    requires ValidDate(today)
    ensures Ago(records, u, "6", today) == Ok(AgoPage(6, RecallToday(records, u, today).sixMonths))
    ensures Ago(records, u, "12", today) == Ok(AgoPage(12, RecallToday(records, u, today).oneYear))
  {
    assert ParseInt("6") == Some(6) by {
      ParseIntOfNatToString(6);
      assert NatToString(6) == "6";
    }
    assert ParseInt("12") == Some(12) by {
      ParseIntOfNatToString(12);
      assert NatToString(12) == "12";
    }
  }

  // ------------------------------------------------------------------
  // POST /:recordId/ack
  // ------------------------------------------------------------------

  /** The status of POST /:recordId/ack: 400 for an id that is not a number,
      404 for a missing record, 403 for someone else's, 400 while its reveal
      time is NULL or still ahead, else 200. */
  function AckStatus(records: seq<Record>, u: int, idParam: string, now: Instant): (status: int)
    ensures status in {200, 400, 403, 404}
    ensures ParseInt(idParam).None? ==> status == 400
    ensures ParseInt(idParam).Some? && (forall r :: r in records ==> r.id != ParseInt(idParam).value) ==> status == 404
    ensures status == 200 ==>
      ParseInt(idParam).Some?
      && exists r :: r in records && r.id == ParseInt(idParam).value && r.userId == u && Due(r, now)
  {
    match ParseInt(idParam)
    case None => 400
    case Some(id) =>
      match FirstWhere(records, HasId(id))
      case None =>
        assert forall r :: r in records ==> r.id != id by {
          forall r | r in records ensures r.id != id {
            var k :| 0 <= k < |records| && records[k] == r;
          }
        }
        404
      case Some(rec) =>
        if rec.userId != u then 403
        else if !Due(rec, now) then 400
        else 200
  }

  /** With ids unique, the outcome for an existing record is decided by its owner and reveal time. */
  lemma AckOfRecord(records: seq<Record>, u: int, idParam: string, now: Instant, r: Record)
    requires UniqueIds(records) && r in records && ParseInt(idParam) == Some(r.id)
    ensures AckStatus(records, u, idParam, now) == if r.userId != u then 403 else if !Due(r, now) then 400 else 200
  {
    var j :| 0 <= j < |records| && records[j] == r;
    forall k | 0 <= k < |records| && k != j ensures records[k].id != r.id {
      DistinctIds(records, k, j);
    }
  }

  /** The acknowledgments after the request: `INSERT IGNORE` adds the pair on a 200. */
  function AckedSet(acks: set<(int, int)>, records: seq<Record>, u: int, idParam: string, now: Instant)
    : (acks': set<(int, int)>)
    ensures acks <= acks'
    ensures AckStatus(records, u, idParam, now) == 200 ==>
      (u, ParseInt(idParam).value) in acks' && acks' - acks <= {(u, ParseInt(idParam).value)}
    ensures AckStatus(records, u, idParam, now) != 200 ==> acks' == acks
    ensures |acks' - acks| <= 1
  {
    if AckStatus(records, u, idParam, now) == 200 then
      var x := (u, ParseInt(idParam).value);
      assert acks + {x} - acks <= {x};
      acks + {x}
    else acks
  }

  /** Acknowledging twice leaves the same set as acknowledging once. */
  lemma AckIdempotent(acks: set<(int, int)>, records: seq<Record>, u: int, idParam: string, now: Instant)
    ensures var once := AckedSet(acks, records, u, idParam, now);
            AckedSet(once, records, u, idParam, now) == once
  {
    var once := AckedSet(acks, records, u, idParam, now);
    if AckStatus(records, u, idParam, now) == 200 {
      assert (u, ParseInt(idParam).value) in once;
    }
  }

  /** An acknowledged record leaves the pending list. */
  lemma AckedNotPending(records: seq<Record>, acks: set<(int, int)>, u: int, idParam: string, now: Instant)
    requires AckStatus(records, u, idParam, now) == 200
    ensures forall r :: r in Pending(records, AckedSet(acks, records, u, idParam, now), u, now) ==>
      r.id != ParseInt(idParam).value
  {
  }

  /** POST /:recordId/ack inserts the pair on success and changes nothing else. */
  method Ack(db: Database, u: int, idParam: string, now: Instant) returns (status: int)
    modifies db`acks
    ensures status == AckStatus(db.records, u, idParam, now)
    ensures db.acks == AckedSet(old(db.acks), db.records, u, idParam, now)
  {
    status := AckStatus(db.records, u, idParam, now);
    if status == 200 {
      db.acks := db.acks + {(u, ParseInt(idParam).value)};
    }
  }
}

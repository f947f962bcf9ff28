/**
 * The `/records` routes: the PUT patch validation loop, the transactional
 * edit and delete paths that re-run the daily summary, the read-side
 * visibility rule (owner or public), representative-image replacement, list
 * paging, the per-date calendar and today's latest record.
 */
module RecordRouter {
  import opened Wrappers
  import opened Js
  import opened Seqs
  import opened Dates
  import opened Tables
  import opened DailySummary

  // ------------------------------------------------------------------
  // PUT /:id — the request body and its validation
  // ------------------------------------------------------------------

  /** The whitelisted columns a PUT may set. */
  datatype Column = Title | EmotionType | ExpressionType | Content | Img | RevealAt
                  | Period | Latitude | Longitude | Place | Visibility

  /** `ALLOWED`, in its declared order (the order of the SET list). */
  const Allowed: seq<Column> :=
    [Title, EmotionType, ExpressionType, Content, Img, RevealAt, Period, Latitude, Longitude, Place, Visibility]

  lemma EveryColumnAllowed(c: Column)
    ensures exists i :: 0 <= i < |Allowed| && Allowed[i] == c
  {
    match c
    case Title => assert Allowed[0] == c;
    case EmotionType => assert Allowed[1] == c;
    case ExpressionType => assert Allowed[2] == c;
    case Content => assert Allowed[3] == c;
    case Img => assert Allowed[4] == c;
    case RevealAt => assert Allowed[5] == c;
    case Period => assert Allowed[6] == c;
    case Latitude => assert Allowed[7] == c;
    case Longitude => assert Allowed[8] == c;
    case Place => assert Allowed[9] == c;
    case Visibility => assert Allowed[10] == c;
  }

  /** The whitelisted members of `req.body`: each absent (`undefined`) or given,
      possibly as null. The emotion is the raw string the client sent. */
  datatype Patch = Patch(
    title: Field<Option<string>>,
    emotion: Field<Option<string>>,
    expression: Field<Option<string>>,
    content: Field<Option<string>>,
    img: Field<Option<string>>,
    revealAt: Field<Option<Instant>>,
    period: Field<Option<int>>,
    latitude: Field<Option<real>>,
    longitude: Field<Option<real>>,
    place: Field<Option<string>>,
    visibility: Field<Option<string>>)

  /** `req.body[f] !== undefined`. */
  predicate IsGiven(p: Patch, c: Column) {
    match c
    case Title => p.title.Given?
    case EmotionType => p.emotion.Given?
    case ExpressionType => p.expression.Given?
    case Content => p.content.Given?
    case Img => p.img.Given?
    case RevealAt => p.revealAt.Given?
    case Period => p.period.Given?
    case Latitude => p.latitude.Given?
    case Longitude => p.longitude.Given?
    case Place => p.place.Given?
    case Visibility => p.visibility.Given?
  }

  /** `String(v)` of a string or null. */
  function Shown(v: Option<string>): string {
    match v
    case None => "null"
    case Some(s) => s
  }

  /** The three checks of the loop: an emotion outside `EMOTIONS`, a title over
      100 characters, a place over 255 characters. */
  predicate Rejects(p: Patch, c: Column) {
    match c
    case EmotionType => p.emotion.Given? && (p.emotion.value.None? || ParseEmotion(p.emotion.value.value).None?)
    case Title => p.title.Given? && |Shown(p.title.value)| > 100
    case Place => p.place.Given? && |Shown(p.place.value)| > 255
    case _ => false
  }

  predicate AnyRejected(p: Patch) {
    exists i :: 0 <= i < |Allowed| && Rejects(p, Allowed[i])
  }

  /** The given columns among the first `n` of `ALLOWED`, in that order. */
  function GivenUpTo(p: Patch, n: nat): (cs: seq<Column>)
    requires n <= |Allowed|
    ensures forall c :: c in cs <==> exists i :: 0 <= i < n && Allowed[i] == c && IsGiven(p, c)
  {
    if n == 0 then []
    else GivenUpTo(p, n - 1) + (if IsGiven(p, Allowed[n - 1]) then [Allowed[n - 1]] else [])
  }

  /** The `updates` list: the given columns, in `ALLOWED` order. */
  function GivenColumns(p: Patch): (cs: seq<Column>)
    ensures forall c :: c in cs <==> IsGiven(p, c)
  {
    var cs := GivenUpTo(p, |Allowed|);
    assert forall c :: IsGiven(p, c) ==> c in cs by {
      forall c | IsGiven(p, c) ensures c in cs {
        EveryColumnAllowed(c);
      }
    }
    cs
  }

  /** What the loop and the `!updates.length` check decide: 400, or the columns to set. */
  function CheckPatch(p: Patch): (r: Result<seq<Column>>)
    ensures r.Err? ==> r.status == 400
    ensures r.Err? <==> AnyRejected(p) || forall c :: !IsGiven(p, c)
    ensures r.Ok? ==> r.value != [] && forall c :: c in r.value <==> IsGiven(p, c)
    ensures r.Ok? ==> (p.emotion.Given? ==> p.emotion.value.Some? && ParseEmotion(p.emotion.value.value).Some?)
                      && (p.title.Given? ==> |Shown(p.title.value)| <= 100)
                      && (p.place.Given? ==> |Shown(p.place.value)| <= 255)
  {
    var cs := GivenColumns(p);
    assert Allowed[0] == Title && Allowed[1] == EmotionType && Allowed[9] == Place;
    assert cs == [] <==> forall c :: !IsGiven(p, c) by {
      if cs != [] { assert IsGiven(p, cs[0]); }
    }
    if AnyRejected(p) || cs == [] then Err(400) else Ok(cs)
  }

  /** None of the first `n` columns of `ALLOWED` is rejected. */
  predicate NoneRejectedBefore(p: Patch, n: nat)
    requires n <= |Allowed|
  {
    forall j :: 0 <= j < n ==> !Rejects(p, Allowed[j])
  }

  lemma NoneRejectedStep(p: Patch, i: nat)
    requires i < |Allowed| && NoneRejectedBefore(p, i) && !Rejects(p, Allowed[i])
    ensures NoneRejectedBefore(p, i + 1)
  {
  }

  lemma CheckPatchRejects(p: Patch, i: nat)
    requires i < |Allowed| && Rejects(p, Allowed[i])
    ensures CheckPatch(p) == Err(400)
  {
  }

  lemma CheckPatchAccepts(p: Patch)
    requires NoneRejectedBefore(p, |Allowed|)
    ensures CheckPatch(p) == if GivenUpTo(p, |Allowed|) == [] then Err(400) else Ok(GivenUpTo(p, |Allowed|))
  {
    assert !AnyRejected(p);
  }

  /** The three checks of the loop body on a given field. */
  method CheckField(p: Patch, f: Column) returns (rejected: bool)
    requires IsGiven(p, f)
    ensures rejected == Rejects(p, f)
  {
    rejected := false;
    if f == EmotionType && (p.emotion.value.None? || ParseEmotion(p.emotion.value.value).None?) {
      rejected := true;
    }
    if f == Title && |Shown(p.title.value)| > 100 {
      rejected := true;
    }
    if f == Place && |Shown(p.place.value)| > 255 {
      rejected := true;
    }
  }

  /** The validation loop over `ALLOWED`, returning at the first rejected field. */
  method CollectUpdates(p: Patch) returns (r: Result<seq<Column>>)
    ensures r == CheckPatch(p)
  {
    var updates: seq<Column> := [];
    var i := 0;
    while i < |Allowed|
      invariant 0 <= i <= |Allowed|
      invariant updates == GivenUpTo(p, i)
      invariant NoneRejectedBefore(p, i)
    {
      var f := Allowed[i];
      if IsGiven(p, f) {
        var rejected := CheckField(p, f);
        if rejected {
          CheckPatchRejects(p, i);
          return Err(400);
        }
        updates := updates + [f];
      }
      NoneRejectedStep(p, i);
      i := i + 1;
    }
    CheckPatchAccepts(p);
    if updates == [] {
      return Err(400);
    }
    return Ok(updates);
  }

  function Pick<T>(f: Field<T>, current: T): T {
    match f
    case Absent => current
    case Given(v) => v
  }

  /** The emotion a given `emotion_type` sets (validation has already rejected the others). */
  function PickEmotion(f: Field<Option<string>>, current: Emotion): Emotion {
    match f
    case Given(Some(s)) => (match ParseEmotion(s) case Some(e) => e case None => current)
    case _ => current
  }

  /** `UPDATE Records SET <given columns> WHERE id=? AND userId=?` on one row. */
  function ApplyPatch(r: Record, p: Patch): (r': Record)
    ensures r'.id == r.id && r'.userId == r.userId && r'.createdAt == r.createdAt
  {
    r.(title := Pick(p.title, r.title),
       emotion := PickEmotion(p.emotion, r.emotion),
       expression := Pick(p.expression, r.expression),
       content := Pick(p.content, r.content),
       img := Pick(p.img, r.img),
       revealAt := Pick(p.revealAt, r.revealAt),
       period := Pick(p.period, r.period),
       latitude := Pick(p.latitude, r.latitude),
       longitude := Pick(p.longitude, r.longitude),
       place := Pick(p.place, r.place),
       visibility := Pick(p.visibility, r.visibility))
  }

  /** A patch that gives nothing leaves the row as it was. */
  lemma ApplyEmptyPatch(r: Record, p: Patch)
    requires forall c :: !IsGiven(p, c)
    ensures ApplyPatch(r, p) == r
  {
    assert !IsGiven(p, Title) && !IsGiven(p, EmotionType) && !IsGiven(p, ExpressionType);
    assert !IsGiven(p, Content) && !IsGiven(p, Img) && !IsGiven(p, RevealAt) && !IsGiven(p, Period);
    assert !IsGiven(p, Latitude) && !IsGiven(p, Longitude) && !IsGiven(p, Place) && !IsGiven(p, Visibility);
  }

  /** Each given column takes the requested value; every other column keeps its own. */
  lemma ApplyPatchColumns(r: Record, p: Patch)
    requires CheckPatch(p).Ok?
    ensures var r' := ApplyPatch(r, p);
            (p.title.Given? ==> r'.title == p.title.value) && (p.title.Absent? ==> r'.title == r.title)
            && (p.emotion.Given? ==> Some(r'.emotion) == ParseEmotion(p.emotion.value.value))
            && (p.emotion.Absent? ==> r'.emotion == r.emotion)
            && (p.expression.Given? ==> r'.expression == p.expression.value) && (p.expression.Absent? ==> r'.expression == r.expression)
            && (p.content.Given? ==> r'.content == p.content.value) && (p.content.Absent? ==> r'.content == r.content)
            && (p.img.Given? ==> r'.img == p.img.value) && (p.img.Absent? ==> r'.img == r.img)
            && (p.revealAt.Given? ==> r'.revealAt == p.revealAt.value) && (p.revealAt.Absent? ==> r'.revealAt == r.revealAt)
            && (p.period.Given? ==> r'.period == p.period.value) && (p.period.Absent? ==> r'.period == r.period)
            && (p.latitude.Given? ==> r'.latitude == p.latitude.value) && (p.latitude.Absent? ==> r'.latitude == r.latitude)
            && (p.longitude.Given? ==> r'.longitude == p.longitude.value) && (p.longitude.Absent? ==> r'.longitude == r.longitude)
            && (p.place.Given? ==> r'.place == p.place.value) && (p.place.Absent? ==> r'.place == r.place)
            && (p.visibility.Given? ==> r'.visibility == p.visibility.value)
            && (p.visibility.Absent? ==> r'.visibility == r.visibility)
  {
  }

  /** Applying the same patch twice is the same as applying it once. */
  lemma ApplyPatchIdempotent(r: Record, p: Patch)
    ensures ApplyPatch(ApplyPatch(r, p), p) == ApplyPatch(r, p)
  {
    match p.emotion
    case Given(Some(s)) =>
    case _ =>
  }

  // ------------------------------------------------------------------
  // The database invariant kept by the edit and delete paths
  // ------------------------------------------------------------------

  /** `WHERE id=? AND userId=?`. */
  function OwnedBy(id: int, u: int): Record -> bool {
    (r: Record) => r.id == id && r.userId == u
  }

  function NotOwnedBy(id: int, u: int): Record -> bool {
    (r: Record) => !(r.id == id && r.userId == u)
  }

  /** `SELECT ... FROM Records WHERE id=? AND userId=? FOR UPDATE`: the row's position. */
  function FindOwned(records: seq<Record>, id: int, u: int): (i: Option<nat>)
    ensures i.Some? ==> i.value < |records| && records[i.value].id == id && records[i.value].userId == u
    ensures i.None? <==> forall j :: 0 <= j < |records| ==> !(records[j].id == id && records[j].userId == u)
  {
    IndexWhere(records, OwnedBy(id, u))
  }

  /** Ids are a primary key and every creation time is a valid in-range date-time. */
  ghost predicate WellFormed(records: seq<Record>) {
    UniqueIds(records)
    && forall r :: r in records ==> ValidInstant(r.createdAt) && InRange(r.createdAt.date)
  }

  /** The Records table and its two derived tables agree: every calendar row is
      the mode of its day and every month counter counts its calendar days. */
  ghost predicate Summarised(records: seq<Record>, cal: map<(int, Date), CalendarRow>,
                             stats: map<(int, string), Counts>) {
    WellFormed(records) && CalendarFaithful(cal, records) && StatsConsistent(cal, stats)
  }

  /** Replacing a row by one with the same id, author and creation time and
      recomputing its day keeps the tables in agreement. */
  lemma {:induction false} UpdateKeepsSummarised(records: seq<Record>, cal: map<(int, Date), CalendarRow>,
                                                 stats: map<(int, string), Counts>, i: nat, x: Record)
    requires Summarised(records, cal, stats) && i < |records|
    requires x.id == records[i].id && x.userId == records[i].userId && x.createdAt == records[i].createdAt
    ensures var records' := records[i := x];
            var u, d := x.userId, x.createdAt.date;
            ValidDate(d) && InRange(d)
            && Summarised(records', SummaryCalendar(cal, records', u, d), SummaryStats(stats, cal, records', u, d))
  {
    var records' := records[i := x];
    var u, d := x.userId, x.createdAt.date;
    assert records[i] in records;
    assert UniqueIds(records') by {
      forall a, b | 0 <= a < b < |records'| ensures records'[a].id != records'[b].id {
        assert records'[a].id == records[a].id && records'[b].id == records[b].id;
      }
    }
    assert forall r :: r in records' ==> r in records || r == x by {
      forall r | r in records' ensures r in records || r == x {
        var k :| 0 <= k < |records'| && records'[k] == r;
        if k != i { assert records[k] == r; }
      }
    }
    forall u', d' | (u', d') != (u, d) ensures DayRecords(records', u', d') == DayRecords(records, u', d') {
      FilterUpdateOutside(records, i, x, OnDay(u', d'));
    }
    RecomputeRestoresCalendar(cal, records, records', u, d);
    RecomputeKeepsStatsConsistent(stats, cal, records', u, d);
  }

  lemma {:induction false} FilterKeepsUniqueIds(records: seq<Record>, p: Record -> bool)
    requires UniqueIds(records)
    ensures UniqueIds(Filter(records, p))
  {
    if records != [] {
      var t := records[1..];
      assert forall k :: 0 <= k < |t| ==> t[k] == records[k + 1];
      FilterKeepsUniqueIds(t, p);
      var ft := Filter(t, p);
      if p(records[0]) {
        var f := [records[0]] + ft;
        assert Filter(records, p) == f;
        forall a, b | 0 <= a < b < |f| ensures f[a].id != f[b].id {
          if a == 0 {
            assert f[b] == ft[b - 1] && ft[b - 1] in t;
            var k :| 0 <= k < |t| && t[k] == f[b];
          } else {
            assert f[a] == ft[a - 1] && f[b] == ft[b - 1];
          }
        }
      }
    }
  }

  /** Removing the row owned at position `i` and recomputing its day keeps the
      tables in agreement. */
  lemma DeleteKeepsSummarised(records: seq<Record>, cal: map<(int, Date), CalendarRow>,
                              stats: map<(int, string), Counts>, i: nat)
    requires Summarised(records, cal, stats) && i < |records|
    ensures var id, u, d := records[i].id, records[i].userId, records[i].createdAt.date;
            var records' := Filter(records, NotOwnedBy(id, u));
            ValidDate(d) && InRange(d)
            && Summarised(records', SummaryCalendar(cal, records', u, d), SummaryStats(stats, cal, records', u, d))
  {
    var id, u, d := records[i].id, records[i].userId, records[i].createdAt.date;
    var records' := Filter(records, NotOwnedBy(id, u));
    assert records[i] in records;
    FilterKeepsUniqueIds(records, NotOwnedBy(id, u));
    forall u', d' | (u', d') != (u, d) ensures DayRecords(records', u', d') == DayRecords(records, u', d') {
      forall k | 0 <= k < |records| && OnDay(u', d')(records[k]) ensures NotOwnedBy(id, u)(records[k]) {
        if k != i {
          DistinctIds(records, k, i);
        }
      }
      FilterFilter(records, OnDay(u', d'), NotOwnedBy(id, u));
    }
    RecomputeRestoresCalendar(cal, records, records', u, d);
    RecomputeKeepsStatsConsistent(stats, cal, records', u, d);
  }

  // ------------------------------------------------------------------
  // PUT /:id and DELETE /:id
  // ------------------------------------------------------------------

  /** The status PUT /:id answers: the validation's 400 first, then 500 for an
      id that is not a number (the query fails), 404 for a row that is missing
      or not the caller's, else 200. */
  function PutStatus(records: seq<Record>, idParam: string, u: int, p: Patch): (status: int)
    ensures status in {200, 400, 404, 500}
    ensures status == 400 <==> CheckPatch(p).Err?
    ensures status == 500 <==> CheckPatch(p).Ok? && ParseInt(idParam).None?
    ensures status == 404 ==>
      ParseInt(idParam).Some? && forall r :: r in records ==> !(r.id == ParseInt(idParam).value && r.userId == u)
    ensures status == 200 ==>
      ParseInt(idParam).Some? && exists r :: r in records && r.id == ParseInt(idParam).value && r.userId == u
  {
    if CheckPatch(p).Err? then 400
    else if ParseInt(idParam).None? then 500
    else match FindOwned(records, ParseInt(idParam).value, u)
      case None => 404
      case Some(i) => assert records[i] in records; 200
  }

  /** PUT /:id, one transaction: validate, lock the caller's row, update it,
      recompute the summary of the day it was created on. */
  method UpdateRecord(db: Database, idParam: string, u: int, p: Patch) returns (status: int)
    requires Summarised(db.records, db.calendar, db.stats)
    modifies db`records, db`calendar, db`stats
    ensures Summarised(db.records, db.calendar, db.stats)
    ensures status == PutStatus(old(db.records), idParam, u, p)
    ensures status != 200 ==> db.records == old(db.records) && db.calendar == old(db.calendar) && db.stats == old(db.stats)
    ensures status == 200 ==>
      var i := FindOwned(old(db.records), ParseInt(idParam).value, u).value;
      var d := old(db.records)[i].createdAt.date;
      db.records == old(db.records)[i := ApplyPatch(old(db.records)[i], p)]
      && ValidDate(d) && InRange(d)
      && db.calendar == SummaryCalendar(old(db.calendar), db.records, u, d)
      && db.stats == SummaryStats(old(db.stats), old(db.calendar), db.records, u, d)
  {
    var updates := CollectUpdates(p);
    if updates.Err? {
      return updates.status;
    }
    var id := ParseInt(idParam);
    if id.None? {
      return 500;
    }
    var origin := FindOwned(db.records, id.value, u);
    if origin.None? {
      return 404;
    }
    UpdateOwned(db, u, origin.value, p);
    return 200;
  }

  /** The transaction once row `i` is known to be the caller's row. */
  method UpdateOwned(db: Database, u: int, i: nat, p: Patch)
    requires Summarised(db.records, db.calendar, db.stats)
    requires i < |db.records| && db.records[i].userId == u
    modifies db`records, db`calendar, db`stats
    ensures Summarised(db.records, db.calendar, db.stats)
    ensures var d := old(db.records)[i].createdAt.date;
      db.records == old(db.records)[i := ApplyPatch(old(db.records)[i], p)]
      && ValidDate(d) && InRange(d)
      && db.calendar == SummaryCalendar(old(db.calendar), db.records, u, d)
      && db.stats == SummaryStats(old(db.stats), old(db.calendar), db.records, u, d)
  {
    var dateStr := db.records[i].createdAt.date;
    UpdateKeepsSummarised(db.records, db.calendar, db.stats, i, ApplyPatch(db.records[i], p));
    db.records := db.records[i := ApplyPatch(db.records[i], p)];
    RecomputeDailySummary(db, u, dateStr);
  }

  /** The images `DELETE FROM RecordImages WHERE recordId=?` keeps: those of other records. */
  function NotOfRecord(id: int): RecordImage -> bool {
    (im: RecordImage) => im.recordId != id
  }

  /** DELETE /:id, one transaction: lock the caller's row, delete its images,
      delete it, recompute the summary of the day it was created on. */
  method DeleteRecord(db: Database, idParam: string, u: int) returns (status: int)
    requires Summarised(db.records, db.calendar, db.stats)
    modifies db`records, db`images, db`calendar, db`stats
    ensures Summarised(db.records, db.calendar, db.stats)
    ensures status in {204, 404, 500}
    ensures status == 500 <==> ParseInt(idParam).None?
    ensures status == 404 <==> ParseInt(idParam).Some? && FindOwned(old(db.records), ParseInt(idParam).value, u).None?
    ensures status != 204 ==> db.records == old(db.records) && db.images == old(db.images)
                              && db.calendar == old(db.calendar) && db.stats == old(db.stats)
    ensures status == 204 ==>
      var id := ParseInt(idParam).value;
      var d := old(db.records)[FindOwned(old(db.records), id, u).value].createdAt.date;
      db.images == Filter(old(db.images), NotOfRecord(id))
      && db.records == Filter(old(db.records), NotOwnedBy(id, u))
      && ValidDate(d) && InRange(d)
      && db.calendar == SummaryCalendar(old(db.calendar), db.records, u, d)
      && db.stats == SummaryStats(old(db.stats), old(db.calendar), db.records, u, d)
    ensures status == 204 ==> forall im :: im in db.images ==> im.recordId != ParseInt(idParam).value
    ensures status == 204 ==> forall r :: r in db.records ==> r.id != ParseInt(idParam).value
    ensures status == 204 ==> |db.records| == |old(db.records)| - 1
  {
    var id := ParseInt(idParam);
    if id.None? {
      return 500;
    }
    var origin := FindOwned(db.records, id.value, u);
    if origin.None? {
      return 404;
    }
    DeleteOwned(db, id.value, u, origin.value);
    return 204;
  }

  /** The transaction once row `i` is known to be the caller's row with this id. */
  method DeleteOwned(db: Database, id: int, u: int, i: nat)
    requires Summarised(db.records, db.calendar, db.stats)
    requires i < |db.records| && db.records[i].id == id && db.records[i].userId == u
    modifies db`records, db`images, db`calendar, db`stats
    ensures Summarised(db.records, db.calendar, db.stats)
    ensures var d := old(db.records)[i].createdAt.date;
      db.images == Filter(old(db.images), NotOfRecord(id))
      && db.records == Filter(old(db.records), NotOwnedBy(id, u))
      && ValidDate(d) && InRange(d)
      && db.calendar == SummaryCalendar(old(db.calendar), db.records, u, d)
      && db.stats == SummaryStats(old(db.stats), old(db.calendar), db.records, u, d)
    ensures forall im :: im in db.images ==> im.recordId != id
    ensures forall r :: r in db.records ==> r.id != id
    ensures |db.records| == |old(db.records)| - 1
  {
    var dateStr := db.records[i].createdAt.date;
    DeleteKeepsSummarised(db.records, db.calendar, db.stats, i);
    DeleteRemovesOne(db.records, i);
    db.images := Filter(db.images, NotOfRecord(id));
    db.records := Filter(db.records, NotOwnedBy(id, u));
    RecomputeDailySummary(db, u, dateStr);
  }

  /** With ids unique, the delete removes exactly the one row, and no row with
      that id is left. */
  lemma DeleteRemovesOne(records: seq<Record>, i: nat)
    requires UniqueIds(records) && i < |records|
    ensures var r' := Filter(records, NotOwnedBy(records[i].id, records[i].userId));
            |r'| == |records| - 1 && forall r :: r in r' ==> r.id != records[i].id
  {
    var id, u := records[i].id, records[i].userId;
    var r' := Filter(records, NotOwnedBy(id, u));
    forall k | 0 <= k < |records| && k != i ensures NotOwnedBy(id, u)(records[k]) {
      DistinctIds(records, k, i);
    }
    FilterDropsOne(records, i, NotOwnedBy(id, u));
  }

  lemma {:induction false} FilterDropsOne<T(!new)>(s: seq<T>, i: nat, p: T -> bool)
    requires i < |s| && !p(s[i]) && forall k :: 0 <= k < |s| && k != i ==> p(s[k])
    ensures |Filter(s, p)| == |s| - 1
  {
    var t := s[1..];
    assert forall k :: 0 <= k < |t| ==> t[k] == s[k + 1];
    assert Filter(s, p) == (if p(s[0]) then [s[0]] else []) + Filter(t, p);
    if i == 0 {
      FilterKeepsAll(t, p);
    } else {
      FilterDropsOne(t, i - 1, p);
    }
  }

  lemma {:induction false} FilterKeepsAll<T(!new)>(s: seq<T>, p: T -> bool)
    requires forall k :: 0 <= k < |s| ==> p(s[k])
    ensures Filter(s, p) == s
  {
    if s != [] {
      var t := s[1..];
      assert forall k :: 0 <= k < |t| ==> t[k] == s[k + 1];
      FilterKeepsAll(t, p);
    }
  }

  // ------------------------------------------------------------------
  // GET /:id, /:id/images, /:id/full
  // ------------------------------------------------------------------

  /** The owner, or anyone when the record is public. */
  predicate CanView(r: Record, requester: int) {
    r.userId == requester || IsPublic(r)
  }

  /** A record joined with its author's `Users` row. */
  datatype RecordView = RecordView(record: Record, userName: Option<string>, userImg: Option<string>, isOwner: bool)

  function HasId(id: int): Record -> bool {
    (r: Record) => r.id == id
  }

  /** With ids unique, looking a record's id up finds that record. */
  lemma FirstWithId(records: seq<Record>, r: Record)
    requires UniqueIds(records) && r in records
    ensures FirstWhere(records, HasId(r.id)) == Some(r)
  {
    var j :| 0 <= j < |records| && records[j] == r;
    var f := FirstWhere(records, HasId(r.id));
    var k :| 0 <= k < |records| && records[k] == f.value;
    SameIdSameIndex(records, k, j);
  }

  /** `... FROM Records r JOIN Users u ON u.id = r.userId WHERE r.id = ?`. */
  function Joined(records: seq<Record>, users: map<int, User>, id: int): Record -> bool {
    (r: Record) => r.id == id && r.userId in users
  }

  /** GET /:id: 500 for an id that is not a number, 404 when there is no
      joined row or the requester may not see it (its existence is not revealed). */
  function GetRecord(records: seq<Record>, users: map<int, User>, idParam: string, requester: int)
    : (res: Result<RecordView>)
    ensures res.Err? ==> res.status == 404 || res.status == 500
    ensures res == Err(500) <==> ParseInt(idParam).None?
    ensures res.Ok? ==> var r := res.value.record;
      r in records && r.id == ParseInt(idParam).value && r.userId in users && CanView(r, requester)
      && res.value.userName == users[r.userId].name && res.value.userImg == users[r.userId].img
      && res.value.isOwner == (r.userId == requester)
    ensures UniqueIds(records) && res == Err(404) ==>
      forall r :: r in records && r.id == ParseInt(idParam).value && r.userId in users ==> !CanView(r, requester)
  {
    match ParseInt(idParam)
    case None => Err(500)
    case Some(id) =>
      match IndexWhere(records, Joined(records, users, id))
      case None => Err(404)
      case Some(i) =>
        var r := records[i];
        assert UniqueIds(records) ==> forall k :: 0 <= k < |records| && k != i ==> records[k].id != id by {
          if UniqueIds(records) {
            forall k | 0 <= k < |records| && k != i ensures records[k].id != id {
              DistinctIds(records, k, i);
            }
          }
        }
        if CanView(r, requester) then Ok(RecordView(r, users[r.userId].name, users[r.userId].img, r.userId == requester))
        else Err(404)
  }

  /** `ORDER BY sort_order ASC, id ASC`. */
  predicate ImageLe(a: RecordImage, b: RecordImage) {
    a.sortOrder < b.sortOrder || (a.sortOrder == b.sortOrder && a.id <= b.id)
  }

  lemma ImageLeTotalPreorder()
    ensures TotalPreorder(ImageLe)
  {
  }

  function OfRecord(id: int): RecordImage -> bool {
    (im: RecordImage) => im.recordId == id
  }

  /** `SELECT ... FROM RecordImages WHERE recordId=? ORDER BY sort_order ASC, id ASC`. */
  function ImageRows(images: seq<RecordImage>, id: int): (rows: seq<RecordImage>)
    ensures multiset(rows) == multiset(Filter(images, OfRecord(id)))
    ensures forall im :: im in rows <==> im in images && im.recordId == id
    ensures SortedBy(rows, ImageLe)
  {
    ImageLeTotalPreorder();
    SortByIsSorted(Filter(images, OfRecord(id)), ImageLe);
    SortBy(Filter(images, OfRecord(id)), ImageLe)
  }

  function Url(im: RecordImage): string { im.url }

  /** `imgs.map(x => x.url)`: the urls of the record's images in display order. */
  function ImageUrls(images: seq<RecordImage>, id: int): (urls: seq<string>)
    ensures |urls| == |Filter(images, OfRecord(id))|
    ensures var rows := ImageRows(images, id);
      |urls| == |rows| && forall i :: 0 <= i < |urls| ==> urls[i] == rows[i].url
    ensures forall u :: u in urls <==> exists im :: im in images && im.recordId == id && im.url == u
  {
    var rows := ImageRows(images, id);
    var urls := Map(rows, Url);
    UrlsOfRows(images, id, rows, urls);
    assert |rows| == |multiset(rows)|;
    urls
  }

  lemma UrlsOfRows(images: seq<RecordImage>, id: int, rows: seq<RecordImage>, urls: seq<string>)
    requires forall im :: im in rows <==> im in images && im.recordId == id
    requires |urls| == |rows| && forall i :: 0 <= i < |rows| ==> urls[i] == rows[i].url
    ensures forall u :: u in urls <==> exists im :: im in images && im.recordId == id && im.url == u
  {
    forall u | u in urls ensures exists im :: im in images && im.recordId == id && im.url == u {
      var k :| 0 <= k < |urls| && urls[k] == u;
      assert rows[k] in rows;
    }
    forall u | exists im :: im in images && im.recordId == id && im.url == u ensures u in urls {
      var im :| im in images && im.recordId == id && im.url == u;
      var k :| 0 <= k < |rows| && rows[k] == im;
      assert urls[k] == u;
    }
  }

  /** GET /:id/images: 500 for an id that is not a number, 404 when the record
      is missing or hidden from the requester, else its image urls. */
  function GetImages(records: seq<Record>, images: seq<RecordImage>, idParam: string, requester: int)
    : (res: Result<seq<string>>)
    ensures res == Err(500) <==> ParseInt(idParam).None?
    ensures res.Err? ==> res.status == 404 || res.status == 500
    ensures res.Ok? ==> res.value == ImageUrls(images, ParseInt(idParam).value)
    ensures res.Ok? ==> exists r :: r in records && r.id == ParseInt(idParam).value && CanView(r, requester)
    ensures ParseInt(idParam).Some? && (forall r :: r in records ==> r.id != ParseInt(idParam).value) ==> res == Err(404)
  {
    match ParseInt(idParam)
    case None => Err(500)
    case Some(id) =>
      match FirstWhere(records, HasId(id))
      case None => Err(404)
      case Some(r) => if CanView(r, requester) then Ok(ImageUrls(images, id)) else Err(404)
  }

  /** With ids unique, the images of an existing record are shown exactly when
      the requester may view it; otherwise the answer is 404. */
  lemma GetImagesOfRecord(records: seq<Record>, images: seq<RecordImage>, idParam: string, requester: int, r: Record)
    requires UniqueIds(records) && r in records && ParseInt(idParam) == Some(r.id)
    ensures GetImages(records, images, idParam, requester)
            == if CanView(r, requester) then Ok(ImageUrls(images, r.id)) else Err(404)
  {
    FirstWithId(records, r);
  }

  /** The body of GET /:id/full: the detail and the image urls together. */
  datatype FullView = FullView(view: RecordView, images: seq<string>)

  /** GET /:id/full: the same visibility decision as GET /:id, then the images. */
  function GetFull(records: seq<Record>, users: map<int, User>, images: seq<RecordImage>,
                   idParam: string, requester: int): (res: Result<FullView>)
    ensures res.Err? <==> GetRecord(records, users, idParam, requester).Err?
    ensures res.Err? ==> res.status == GetRecord(records, users, idParam, requester).status
    ensures res.Ok? ==> res.value.view == GetRecord(records, users, idParam, requester).value
                        && res.value.images == ImageUrls(images, ParseInt(idParam).value)
  {
    match GetRecord(records, users, idParam, requester)
    case Err(s) => Err(s)
    case Ok(v) => Ok(FullView(v, ImageUrls(images, v.record.id)))
  }

  // ------------------------------------------------------------------
  // PUT /:id/representative
  // ------------------------------------------------------------------

  /** `UPDATE Records SET img=? WHERE id=?`. */
  function SetImg(records: seq<Record>, id: int, url: string): (r': seq<Record>)
    ensures |r'| == |records|
    ensures forall i :: 0 <= i < |records| ==>
      r'[i] == if records[i].id == id then records[i].(img := Some(url)) else records[i]
  {
    if records == [] then []
    else [if records[0].id == id then records[0].(img := Some(url)) else records[0]] + SetImg(records[1..], id, url)
  }

  /** The status of PUT /:id/representative: 400 without a url, 500 for an id
      that is not a number, 404 for a missing record, 403 for someone else's,
      400 when the url is not one of the record's images, else 200. */
  function RepresentativeStatus(records: seq<Record>, images: seq<RecordImage>, idParam: string,
                                u: int, url: Option<string>): (status: int)
    ensures status in {200, 400, 403, 404, 500}
    ensures url == None || url == Some("") ==> status == 400
    ensures status == 500 <==> url.Some? && url.value != "" && ParseInt(idParam).None?
    ensures status == 404 <==>
      url.Some? && url.value != "" && ParseInt(idParam).Some?
      && forall r :: r in records ==> r.id != ParseInt(idParam).value
    ensures status == 200 ==>
      url.Some? && url.value != "" && ParseInt(idParam).Some?
      && (exists r :: r in records && r.id == ParseInt(idParam).value && r.userId == u)
      && (exists im :: im in images && im.recordId == ParseInt(idParam).value && im.url == url.value)
  {
    if url.None? || url.value == "" then 400
    else match ParseInt(idParam)
      case None => 500
      case Some(id) =>
        match FirstWhere(records, HasId(id))
        case None => 404
        case Some(own) =>
          if own.userId != u then 403
          else if FirstWhere(images, (im: RecordImage) => im.recordId == id && im.url == url.value).None? then 400
          else 200
  }

  /** With ids unique and a url given, the status for an existing record is
      decided by its owner and by whether the url is one of its images. */
  lemma RepresentativeOfRecord(records: seq<Record>, images: seq<RecordImage>, idParam: string,
                               u: int, url: string, r: Record)
    requires UniqueIds(records) && r in records && ParseInt(idParam) == Some(r.id) && url != ""
    ensures RepresentativeStatus(records, images, idParam, u, Some(url))
            == if r.userId != u then 403
               else if forall im :: im in images ==> im.recordId != r.id || im.url != url then 400
               else 200
  {
    FirstWithId(records, r);
    var f := FirstWhere(images, (im: RecordImage) => im.recordId == r.id && im.url == url);
    if f.None? {
      forall im | im in images ensures im.recordId != r.id || im.url != url {
        var k :| 0 <= k < |images| && images[k] == im;
      }
    }
  }

  /** PUT /:id/representative: only a 200 changes a row, and then only the
      `img` of the record with that id. */
  method SetRepresentative(db: Database, idParam: string, u: int, url: Option<string>) returns (status: int)
    modifies db`records
    ensures status == RepresentativeStatus(old(db.records), db.images, idParam, u, url)
    ensures status != 200 ==> db.records == old(db.records)
    ensures status == 200 ==> db.records == SetImg(old(db.records), ParseInt(idParam).value, url.value)
  {
    status := RepresentativeStatus(db.records, db.images, idParam, u, url);
    if status == 200 {
      db.records := SetImg(db.records, ParseInt(idParam).value, url.value);
    }
  }

  // ------------------------------------------------------------------
  // GET / — filters and paging
  // ------------------------------------------------------------------

  /** The query string of GET /; a date filter that is absent or empty is `None`. */
  datatype ListQuery = ListQuery(
    page: Option<string>,
    pageSize: Option<string>,
    from: Option<Date>,
    to: Option<Date>,
    emotion: Option<string>,
    visibility: Option<string>,
    q: Option<string>)

  /** `title LIKE %q% OR content LIKE %q%` (a NULL column matches nothing). */
  predicate Mentions(r: Record, q: string) {
    (r.title.Some? && LikeAnywhere(r.title.value, q)) || (r.content.Some? && LikeAnywhere(r.content.value, q))
  }

  /** The WHERE clause the handler assembles. */
  function ListMatch(q: ListQuery, u: int): Record -> bool {
    (r: Record) =>
      r.userId == u
      && (q.from.Some? ==> DateLe(q.from.value, r.createdAt.date))
      && (q.to.Some? ==> DateLe(r.createdAt.date, q.to.value))
      && (Truthy(q.emotion) && ParseEmotion(q.emotion.value).Some? ==> Some(r.emotion) == ParseEmotion(q.emotion.value))
      && (Truthy(q.visibility) ==> r.visibility == q.visibility)
      && (Truthy(q.q) ==> Mentions(r, q.q.value))
  }

  /** `Math.min(parseInt(pageSize, 10) || 10, 50)`; an absent value is the default 10. */
  function PageLimit(pageSize: Option<string>): (l: int)
    ensures l <= 50 && l != 0
    ensures pageSize.None? || ParseInt(pageSize.value).None? || ParseInt(pageSize.value) == Some(0) ==> l == 10
    ensures pageSize.Some? && ParseInt(pageSize.value).Some? && ParseInt(pageSize.value).value != 0 ==>
      var v := ParseInt(pageSize.value).value;
      (v <= 50 ==> l == v) && (v > 50 ==> l == 50)
  {
    var n := match pageSize case None => 10 case Some(s) => IntOr(ParseInt(s), 10);
    if n < 50 then n else 50
  }

  /** `parseInt(page, 10) || 1`; an absent value is the default 1. */
  function PageNumber(page: Option<string>): (n: int)
    ensures n != 0
    ensures page.None? || ParseInt(page.value).None? || ParseInt(page.value) == Some(0) ==> n == 1
    ensures page.Some? && ParseInt(page.value).Some? && ParseInt(page.value).value != 0 ==>
      n == ParseInt(page.value).value
  {
    match page case None => 1 case Some(s) => IntOr(ParseInt(s), 1)
  }

  /** `ORDER BY created_at DESC`. */
  predicate NewerFirst(a: Record, b: Record) {
    InstantLe(b.createdAt, a.createdAt)
  }

  lemma NewerFirstTotalPreorder()
    ensures TotalPreorder(NewerFirst)
  {
  }

  /** The body of GET /: the page size, the number of matching records, the page. */
  datatype ListPage = ListPage(pageSize: int, total: nat, items: seq<Record>)

  /** `ORDER BY created_at DESC LIMIT ? OFFSET ?` over the matching rows. */
  function NewestPage(rows: seq<Record>, limit: nat, offset: nat): (items: seq<Record>)
    ensures |items| <= limit
    ensures var sorted := SortBy(rows, NewerFirst);
      |items| == (if offset >= |rows| then 0 else if |rows| - offset < limit then |rows| - offset else limit)
      && forall i :: 0 <= i < |items| ==> items[i] == sorted[offset + i]
    ensures forall r :: r in items ==> r in rows
    ensures SortedBy(items, NewerFirst)
  {
    NewerFirstTotalPreorder();
    SortByIsSorted(rows, NewerFirst);
    var sorted := SortBy(rows, NewerFirst);
    PageSorted(sorted, NewerFirst, limit, offset);
    var items := Page(sorted, limit, offset);
    assert forall k :: 0 <= k < |items| ==> items[k] in sorted by {
      forall k | 0 <= k < |items| ensures items[k] in sorted {
        assert sorted[offset + k] == items[k];
      }
    }
    items
  }

  lemma OffsetSign(n: int, limit: int)
    ensures limit > 0 ==> ((n - 1) * limit < 0 <==> n < 1)
  {
    if limit <= 0 {
    } else if n >= 1 {
      assert (n - 1) * limit >= 0;
    } else {
      assert (n - 1) * limit <= -limit;
    }
  }

  /** `((parseInt(page, 10) || 1) - 1) * limit`: negative exactly when the page
      number is, for a positive limit. */
  function Offset(q: ListQuery): (o: int)
    ensures PageLimit(q.pageSize) > 0 ==> (o < 0 <==> PageNumber(q.page) < 1)
  {
    OffsetSign(PageNumber(q.page), PageLimit(q.pageSize));
    (PageNumber(q.page) - 1) * PageLimit(q.pageSize)
  }

  /** GET /: a negative LIMIT or OFFSET is an SQL error (500). */
  function ListRecords(records: seq<Record>, u: int, q: ListQuery): (res: Result<ListPage>)
    ensures res.Err? <==> PageLimit(q.pageSize) < 0 || PageNumber(q.page) < 1
    ensures res.Err? ==> res.status == 500
    ensures res.Ok? ==>
      var l := res.value;
      1 <= l.pageSize <= 50 && l.pageSize == PageLimit(q.pageSize)
      && l.total == |Filter(records, ListMatch(q, u))|
      && |l.items| <= l.pageSize
      && (forall r :: r in l.items ==> r in records && ListMatch(q, u)(r))
      && SortedBy(l.items, NewerFirst)
    ensures res.Ok? ==>
      PageNumber(q.page) >= 1 && Offset(q) >= 0
      && res.value.items == NewestPage(Filter(records, ListMatch(q, u)), res.value.pageSize, Offset(q))
  {
    var limit := PageLimit(q.pageSize);
    var offset := Offset(q);
    if limit < 0 || offset < 0 then Err(500)
    else
      var rows := Filter(records, ListMatch(q, u));
      Ok(ListPage(limit, |rows|, NewestPage(rows, limit, offset)))
  }

  /** Page `PageNumber` of `PageLimit` rows holds the matching records sorted
      newest first from position `Offset(q) == (page - 1) * limit` on: the
      record at position `j` is item `k` of its page when `j == Offset(q) + k`. */
  lemma RecordOnItsPage(records: seq<Record>, u: int, q: ListQuery, k: nat, j: nat)
    requires PageLimit(q.pageSize) >= 1 && PageNumber(q.page) >= 1 && k < PageLimit(q.pageSize)
    requires j == Offset(q) + k && j < |Filter(records, ListMatch(q, u))|
    ensures var res := ListRecords(records, u, q);
      res.Ok? && k < |res.value.items|
      && res.value.items[k] == SortBy(Filter(records, ListMatch(q, u)), NewerFirst)[j]
  {
    var off: nat := j - k;
    ListRecordsOk(records, u, q, off);
    NewestPageAt(Filter(records, ListMatch(q, u)), PageLimit(q.pageSize), off, k);
  }

  /** Item `k` of a page is the sorted row `k` places after the offset. */
  lemma NewestPageAt(rows: seq<Record>, limit: nat, off: nat, k: nat)
    requires k < limit && off + k < |rows|
    ensures var items := NewestPage(rows, limit, off);
      k < |items| && items[k] == SortBy(rows, NewerFirst)[off + k]
  {
  }

  /** A positive page size and page number list the page at offset `off`. */
  lemma ListRecordsOk(records: seq<Record>, u: int, q: ListQuery, off: nat)
    requires PageLimit(q.pageSize) >= 1 && PageNumber(q.page) >= 1
    requires off == Offset(q)
    ensures var res := ListRecords(records, u, q);
      res.Ok? && res.value.items == NewestPage(Filter(records, ListMatch(q, u)), PageLimit(q.pageSize), off)
  {
  }

  /** The emotion filter is applied only for one of the six names: an unknown
      name lists the same records as no emotion filter at all. */
  lemma UnknownEmotionIgnored(records: seq<Record>, u: int, q: ListQuery)
    requires q.emotion.Some? && ParseEmotion(q.emotion.value).None?
    ensures ListRecords(records, u, q) == ListRecords(records, u, q.(emotion := None))
  {
    var q' := q.(emotion := None);
    forall i | 0 <= i < |records| ensures ListMatch(q, u)(records[i]) == ListMatch(q', u)(records[i]) {
    }
    FilterCongruent(records, ListMatch(q, u), ListMatch(q', u));
    SameRowsSameList(records, u, q, q');
  }

  /** The listing depends on the filter only through the rows it keeps. */
  lemma SameRowsSameList(records: seq<Record>, u: int, q: ListQuery, q': ListQuery)
    requires q.page == q'.page && q.pageSize == q'.pageSize
    requires Filter(records, ListMatch(q, u)) == Filter(records, ListMatch(q', u))
    ensures ListRecords(records, u, q) == ListRecords(records, u, q')
  {
    var rows := Filter(records, ListMatch(q, u));
    var limit, offset := PageLimit(q.pageSize), Offset(q);
    assert offset == Offset(q');
    assert ListRecords(records, u, q) == if limit < 0 || offset < 0 then Err(500)
      else Ok(ListPage(limit, |rows|, NewestPage(rows, limit, offset)));
  }

  // ------------------------------------------------------------------
  // GET /calendar — the latest record of each date of a month
  // ------------------------------------------------------------------

  /** One row of a calendar response. */
  datatype CalendarEntry = CalendarEntry(date: Date, emotion: Emotion, expression: Option<string>)

  /** The year `%Y` reads from one to four digits. A one- or two-digit year
      follows MySQL's two-digit rule: 00-69 is 2000-2069, 70-99 is 1970-1999. */
  function YearOf(year: string): (y: nat)
    requires 1 <= |year| <= 4 && AllDigits(year)
    ensures y <= 9999
    ensures |year| > 2 ==> y == DigitsValue(year)
    ensures |year| <= 2 ==> 1970 <= y <= 2069 && y % 100 == DigitsValue(year)
  {
    DigitsValueBound(year);
    assert Pow10(1) == 10 && Pow10(2) == 100 && Pow10(3) == 1000 && Pow10(4) == 10000;
    var v := DigitsValue(year);
    if |year| > 2 then v else if v < 70 then 2000 + v else 1900 + v
  }

  /** `STR_TO_DATE(CONCAT(year, '-', m, '-01'), '%Y-%m-%d')` for the padded month
      `m`: a year of one to four digits and a two-digit month 01-12 name the
      first of that month; anything else is SQL NULL (`None`). */
  function MonthStart(year: string, m: string): (r: Option<Date>)
    ensures r.Some? <==>
      1 <= |year| <= 4 && AllDigits(year) && |m| == 2 && AllDigits(m) && 1 <= DigitsValue(m) <= 12
    ensures r.Some? ==>
      r.value == Date(YearOf(year), DigitsValue(m), 1) && ValidDate(r.value) && InRange(r.value)
  {
    if 1 <= |year| <= 4 && AllDigits(year) && |m| == 2 && AllDigits(m) && 1 <= DigitsValue(m) <= 12 then
      Some(Date(YearOf(year), DigitsValue(m), 1))
    else None
  }

  /** Written back as numerals, a year up to 9999 and a month name the first of
      that month; a year below 100 is read by the two-digit rule. */
  lemma MonthStartOfNumerals(y: nat, mo: nat)
    requires y <= 9999 && 1 <= mo <= 12
    ensures MonthStart(NatToString(y), PadStart(NatToString(mo), 2, '0'))
            == Some(Date(if y >= 100 then y else if y < 70 then 2000 + y else 1900 + y, mo, 1))
  {
    var ys := NatToString(y);
    DigitsValueOfNatToString(y);
    assert Pow10(1) == 10 && Pow10(2) == 100 && Pow10(3) == 1000 && Pow10(4) == 10000;
    NatToStringLength(y, 4);
    DigitsValueBound(ys);
    if y < 100 {
      NatToStringLength(y, 2);
    }
    MonthNumeral(mo);
  }

  /** The padded numeral of a month is two digits worth that month. */
  lemma MonthNumeral(mo: nat)
    requires 1 <= mo <= 12
    ensures var p := PadStart(NatToString(mo), 2, '0');
      |p| == 2 && AllDigits(p) && DigitsValue(p) == mo
  {
    var s := NatToString(mo);
    DigitsValueOfNatToString(mo);
    assert Pow10(2) == 100;
    NatToStringLength(mo, 2);
    var p := PadStart(s, 2, '0');
    if |s| == 1 {
      assert p == ['0'] + s;
      assert p[..1] == ['0'] && ['0'][..0] == [];
      assert s[..0] == [];
    }
  }

  /** MySQL reads the year `25` as 2025. */
  lemma MonthStartTwoDigitYear()
    ensures MonthStart("25", PadStart("9", 2, '0')) == Some(Date(2025, 9, 1))
  {
    assert PadStart("9", 2, '0') == "09";
    assert "25"[..1] == "2" && "2"[..0] == "";
    assert DigitsValue("25") == 25;
    assert "09"[..1] == "0" && "0"[..0] == "";
    assert DigitsValue("09") == 9;
  }

  function DateOf(r: Record): Date { r.createdAt.date }

  function OnDate(d: Date): Record -> bool {
    (r: Record) => r.createdAt.date == d
  }

  /** Dates in ascending order, one calendar entry per date. */
  predicate DatesAscending(es: seq<CalendarEntry>) {
    forall i, j :: 0 <= i < j < |es| ==> DateLt(es[i].date, es[j].date)
  }

  /** The latest record dated `d` (ties broken by the larger id). */
  function LatestDated(rs: seq<Record>, d: Date): (l: Record)
    requires exists r :: r in rs && r.createdAt.date == d
    ensures l in rs && l.createdAt.date == d
    ensures forall x :: x in rs && x.createdAt.date == d ==> RecLe(x, l)
  {
    LatestOfDate(rs, d);
    Latest(Filter(rs, OnDate(d))).value
  }

  /** `e` shows the latest of the records of `rs` dated `e.date`. */
  ghost predicate LatestEntry(rs: seq<Record>, e: CalendarEntry) {
    exists r :: r in rs && r.createdAt.date == e.date && r.emotion == e.emotion && r.expression == e.expression
                && forall x :: x in rs && x.createdAt.date == e.date ==> RecLe(x, r)
  }

  /** The entry of date `d`: the emotion and expression of its latest record. */
  function EntryOf(rs: seq<Record>, d: Date): (e: CalendarEntry)
    requires exists r :: r in rs && r.createdAt.date == d
    ensures e.date == d && LatestEntry(rs, e)
  {
    var l := LatestDated(rs, d);
    CalendarEntry(d, l.emotion, l.expression)
  }

  /** The entry of every date in `ds`. */
  function EntriesFor(rs: seq<Record>, ds: seq<Date>): (es: seq<CalendarEntry>)
    requires forall k :: 0 <= k < |ds| ==> exists r :: r in rs && r.createdAt.date == ds[k]
    ensures |es| == |ds|
    ensures forall k :: 0 <= k < |ds| ==> es[k].date == ds[k] && LatestEntry(rs, es[k])
  {
    if ds == [] then []
    else
      var t := ds[1..];
      assert forall k :: 0 <= k < |t| ==> t[k] == ds[k + 1];
      [EntryOf(rs, ds[0])] + EntriesFor(rs, t)
  }

  /** The distinct creation dates of `rs`, in order of first appearance. */
  function DatesOf(rs: seq<Record>): (ds: seq<Date>)
    ensures forall d :: d in ds <==> exists r :: r in rs && r.createdAt.date == d
    ensures Distinct(ds)
  {
    var all := Map(rs, DateOf);
    var dates := Dedup(all);
    assert forall d :: d in dates ==> exists r :: r in rs && r.createdAt.date == d by {
      forall d | d in dates ensures exists r :: r in rs && r.createdAt.date == d {
        var k :| 0 <= k < |all| && all[k] == d;
        assert rs[k] in rs;
      }
    }
    assert forall r :: r in rs ==> r.createdAt.date in dates by {
      forall r | r in rs ensures r.createdAt.date in dates {
        var k :| 0 <= k < |rs| && rs[k] == r;
        assert all[k] == r.createdAt.date;
      }
    }
    dates
  }

  /** The distinct creation dates of `rs`, ascending. */
  function SortedDates(rs: seq<Record>): (ds: seq<Date>)
    ensures forall d :: d in ds <==> exists r :: r in rs && r.createdAt.date == d
    ensures forall i, j :: 0 <= i < j < |ds| ==> DateLt(ds[i], ds[j])
  {
    var dates := DatesOf(rs);
    DateLeTotalPreorder();
    SortByIsSorted(dates, DateLe);
    var ds := SortBy(dates, DateLe);
    PermutationDistinct(dates, ds);
    assert forall d :: d in ds <==> d in dates by {
      assert forall d :: d in ds <==> d in multiset(ds);
      assert forall d :: d in dates <==> d in multiset(dates);
    }
    ds
  }

  /** The latest record dated `d`, when there is one. */
  lemma LatestOfDate(rs: seq<Record>, d: Date)
    requires exists r :: r in rs && r.createdAt.date == d
    ensures var l := Latest(Filter(rs, OnDate(d)));
            l.Some? && l.value in rs && l.value.createdAt.date == d
            && forall x :: x in rs && x.createdAt.date == d ==> RecLe(x, l.value)
  {
    var f := Filter(rs, OnDate(d));
    var r :| r in rs && r.createdAt.date == d;
    assert r in f;
    var l := Latest(f).value;
    forall x | x in rs && x.createdAt.date == d ensures RecLe(x, l) {
      assert x in f;
      var j :| 0 <= j < |f| && f[j] == x;
    }
  }

  /** `ROW_NUMBER() OVER (PARTITION BY DATE(created_at) ORDER BY created_at DESC, id DESC)`,
      `WHERE rn = 1 ORDER BY date ASC`. */
  function LatestPerDate(rs: seq<Record>): (es: seq<CalendarEntry>)
    ensures DatesAscending(es)
    ensures forall r :: r in rs ==> exists k :: 0 <= k < |es| && es[k].date == r.createdAt.date
    ensures forall e :: e in es ==> LatestEntry(rs, e)
  {
    var ds := SortedDates(rs);
    assert forall k :: 0 <= k < |ds| ==> ds[k] in ds;
    var es := EntriesFor(rs, ds);
    EntriesAscending(ds, es);
    EntriesCover(rs, ds, es);
    EntriesLatest(rs, ds, es);
    es
  }

  lemma EntriesAscending(ds: seq<Date>, es: seq<CalendarEntry>)
    requires |es| == |ds| && forall k :: 0 <= k < |ds| ==> es[k].date == ds[k]
    requires forall i, j :: 0 <= i < j < |ds| ==> DateLt(ds[i], ds[j])
    ensures DatesAscending(es)
  {
  }

  lemma EntriesCover(rs: seq<Record>, ds: seq<Date>, es: seq<CalendarEntry>)
    requires forall d :: d in ds <==> exists r :: r in rs && r.createdAt.date == d
    requires |es| == |ds| && forall k :: 0 <= k < |ds| ==> es[k].date == ds[k]
    ensures forall r :: r in rs ==> exists k :: 0 <= k < |es| && es[k].date == r.createdAt.date
  {
    forall r | r in rs ensures exists k :: 0 <= k < |es| && es[k].date == r.createdAt.date {
      var d := r.createdAt.date;
      assert d in ds;
      var k :| 0 <= k < |ds| && ds[k] == d;
      assert es[k].date == d;
    }
  }

  lemma EntriesLatest(rs: seq<Record>, ds: seq<Date>, es: seq<CalendarEntry>)
    requires |es| == |ds| && forall k :: 0 <= k < |ds| ==> LatestEntry(rs, es[k])
    ensures forall e :: e in es ==> LatestEntry(rs, e)
  {
    forall e | e in es ensures LatestEntry(rs, e) {
      var k :| 0 <= k < |es| && es[k] == e;
    }
  }

  lemma DateLeTotalPreorder()
    ensures TotalPreorder(DateLe)
  {
  }

  /** The window of the calendar query as written: from the first day's
      midnight to the last day's midnight (`created_at <= last_day`). */
  function InWindowAsWritten(u: int, first: Date, last: Date): Record -> bool {
    (r: Record) => r.userId == u && InstantLe(Midnight(first), r.createdAt) && InstantLe(r.createdAt, Midnight(last))
  }

  /** The window the endpoint means: every record dated within the month. */
  function InMonth(u: int, first: Date, last: Date): Record -> bool {
    (r: Record) => r.userId == u && DateLe(first, r.createdAt.date) && DateLe(r.createdAt.date, last)
  }

  /** A record of user `u` inside the bounds the calendar query binds:
      `created_at >= first_day` and `created_at <= last_day`, both midnight. */
  predicate InWrittenWindow(u: int, first: Date, r: Record)
    requires 1 <= first.month <= 12
  {
    r.userId == u && InstantLe(Midnight(first), r.createdAt)
    && InstantLe(r.createdAt, Midnight(LastDay(first.year, first.month)))
  }

  /** `es` is the calendar of the records in the written window: each entry
      shows the latest such record of its date, and every date of such a
      record has an entry. */
  ghost predicate WrittenCalendar(records: seq<Record>, u: int, first: Date, es: seq<CalendarEntry>)
    requires 1 <= first.month <= 12
  {
    (forall e :: e in es ==>
       exists r :: r in records && InWrittenWindow(u, first, r) && r.createdAt.date == e.date
                   && r.emotion == e.emotion && r.expression == e.expression
                   && forall x :: x in records && InWrittenWindow(u, first, x) && x.createdAt.date == e.date
                                  ==> RecLe(x, r))
    && (forall r :: r in records && InWrittenWindow(u, first, r) ==>
          exists k :: 0 <= k < |es| && es[k].date == r.createdAt.date)
  }

  /** GET /calendar as written: 400 for a falsy year or month, no entries
      when the month names no date, otherwise the latest record of each date
      among the user's records between the first day's and the last day's
      midnight, in ascending date order. */
  function CalendarAsWritten(records: seq<Record>, u: int, year: Option<string>, month: Option<string>)
    : (res: Result<seq<CalendarEntry>>)
    ensures res.Err? <==> !Truthy(year) || !Truthy(month)
    ensures res.Err? ==> res.status == 400
    ensures res.Ok? ==> DatesAscending(res.value)
    ensures res.Ok? ==>
      match MonthStart(year.value, PadStart(month.value, 2, '0'))
      case None => res.value == []
      case Some(first) => WrittenCalendar(records, u, first, res.value)
  {
    if !Truthy(year) || !Truthy(month) then Err(400)
    else match MonthStart(year.value, PadStart(month.value, 2, '0'))
      case None => Ok([])
      case Some(first) =>
        WrittenWindowCalendar(records, u, first);
        Ok(LatestPerDate(Filter(records, InWindowAsWritten(u, first, LastDay(first.year, first.month)))))
  }

  /** The latest entries of the written window form its calendar. */
  lemma WrittenWindowCalendar(records: seq<Record>, u: int, first: Date)
    requires 1 <= first.month <= 12
    ensures WrittenCalendar(records, u, first,
                            LatestPerDate(Filter(records, InWindowAsWritten(u, first, LastDay(first.year, first.month)))))
  {
    var p := InWindowAsWritten(u, first, LastDay(first.year, first.month));
    var rs := Filter(records, p);
    var es := LatestPerDate(rs);
    assert forall x :: x in rs <==> x in records && InWrittenWindow(u, first, x);
    forall e | e in es
      ensures exists r :: r in records && InWrittenWindow(u, first, r) && r.createdAt.date == e.date
                          && r.emotion == e.emotion && r.expression == e.expression
                          && forall x :: x in records && InWrittenWindow(u, first, x) && x.createdAt.date == e.date
                                         ==> RecLe(x, r)
    {
      assert LatestEntry(rs, e);
      var r :| r in rs && r.createdAt.date == e.date && r.emotion == e.emotion && r.expression == e.expression
                && forall x :: x in rs && x.createdAt.date == e.date ==> RecLe(x, r);
      assert r in records && InWrittenWindow(u, first, r);
    }
  }

  /** When none of the user's records of the month was written after
      midnight of its last day, the calendar as written is the intended one. */
  lemma AsWrittenAgreesOffLastDay(records: seq<Record>, u: int, year: Option<string>, month: Option<string>)
    requires forall r :: r in records ==> r.createdAt.second >= 0
    requires Truthy(year) && Truthy(month)
    requires var ms := MonthStart(year.value, PadStart(month.value, 2, '0'));
      ms.Some? ==> forall r :: r in records && r.userId == u
                              && r.createdAt.date == LastDay(ms.value.year, ms.value.month)
                              ==> r.createdAt.second == 0
    ensures CalendarAsWritten(records, u, year, month) == Calendar(records, u, year, month)
  {
    var ms := MonthStart(year.value, PadStart(month.value, 2, '0'));
    if ms.Some? {
      var first := ms.value;
      var last := LastDay(first.year, first.month);
      var p := InWindowAsWritten(u, first, last);
      var q := InMonth(u, first, last);
      forall i | 0 <= i < |records| ensures p(records[i]) == q(records[i]) {
        assert records[i] in records;
      }
      FilterCongruent(records, p, q);
    }
  }

  /** `e` shows the latest of user `u`'s records dated `e.date`. */
  ghost predicate ShowsLatest(records: seq<Record>, u: int, e: CalendarEntry) {
    exists r :: r in records && r.userId == u && r.createdAt.date == e.date
                && r.emotion == e.emotion && r.expression == e.expression
                && forall x :: x in records && x.userId == u && x.createdAt.date == e.date ==> RecLe(x, r)
  }

  /** `es` is the calendar of the month starting at `first`: each entry is a
      date of that month showing the user's latest record of that date, and
      every valid date of the month on which the user wrote has an entry. */
  ghost predicate MonthCalendar(records: seq<Record>, u: int, first: Date, es: seq<CalendarEntry>) {
    EntriesOfMonth(records, u, first, es) && MonthCovered(records, u, first, es)
  }

  ghost predicate EntriesOfMonth(records: seq<Record>, u: int, first: Date, es: seq<CalendarEntry>) {
    forall e :: e in es ==> e.date.year == first.year && e.date.month == first.month && ShowsLatest(records, u, e)
  }

  ghost predicate MonthCovered(records: seq<Record>, u: int, first: Date, es: seq<CalendarEntry>) {
    forall r :: r in records && r.userId == u && ValidDate(r.createdAt.date)
                && r.createdAt.date.year == first.year && r.createdAt.date.month == first.month
                ==> exists k :: 0 <= k < |es| && es[k].date == r.createdAt.date
  }

  /** GET /calendar with the month's last day included in full: one entry per
      date of the month that has a record of the user, each the latest record of
      its date (ties by larger id), in ascending date order. */
  function Calendar(records: seq<Record>, u: int, year: Option<string>, month: Option<string>)
    : (res: Result<seq<CalendarEntry>>)
    ensures res.Err? <==> !Truthy(year) || !Truthy(month)
    ensures res.Err? ==> res.status == 400
    ensures res.Ok? ==> DatesAscending(res.value)
    ensures res.Ok? ==>
      match MonthStart(year.value, PadStart(month.value, 2, '0'))
      case None => res.value == []
      case Some(first) => MonthCalendar(records, u, first, res.value)
  {
    if !Truthy(year) || !Truthy(month) then Err(400)
    else match MonthStart(year.value, PadStart(month.value, 2, '0'))
      case None => Ok([])
      case Some(first) =>
        MonthWindow(records, u, first);
        Ok(LatestPerDate(Filter(records, InMonth(u, first, LastDay(first.year, first.month)))))
  }

  /** The latest entries of the month window form the month's calendar. */
  lemma MonthWindow(records: seq<Record>, u: int, first: Date)
    requires ValidDate(first) && first.day == 1
    ensures MonthCalendar(records, u, first,
                          LatestPerDate(Filter(records, InMonth(u, first, LastDay(first.year, first.month)))))
  {
    MonthWindowEntries(records, u, first);
    MonthWindowCovers(records, u, first);
  }

  lemma MonthWindowEntries(records: seq<Record>, u: int, first: Date)
    requires ValidDate(first) && first.day == 1
    ensures EntriesOfMonth(records, u, first,
                           LatestPerDate(Filter(records, InMonth(u, first, LastDay(first.year, first.month)))))
  {
    var last := LastDay(first.year, first.month);
    var p := InMonth(u, first, last);
    var rs := Filter(records, p);
    var es := LatestPerDate(rs);
    forall e | e in es
      ensures e.date.year == first.year && e.date.month == first.month && ShowsLatest(records, u, e)
    {
      assert LatestEntry(rs, e);
      var r :| r in rs && r.createdAt.date == e.date && r.emotion == e.emotion && r.expression == e.expression
                && forall x :: x in rs && x.createdAt.date == e.date ==> RecLe(x, r);
      assert p(r);
      forall x | x in records && x.userId == u && x.createdAt.date == e.date ensures RecLe(x, r) {
        assert p(x);
        assert x in rs;
      }
    }
  }

  lemma MonthWindowCovers(records: seq<Record>, u: int, first: Date)
    requires ValidDate(first) && first.day == 1
    ensures MonthCovered(records, u, first,
                         LatestPerDate(Filter(records, InMonth(u, first, LastDay(first.year, first.month)))))
  {
    var last := LastDay(first.year, first.month);
    var p := InMonth(u, first, last);
    var rs := Filter(records, p);
    var es := LatestPerDate(rs);
    forall r | r in records && r.userId == u && ValidDate(r.createdAt.date)
               && r.createdAt.date.year == first.year && r.createdAt.date.month == first.month
      ensures exists k :: 0 <= k < |es| && es[k].date == r.createdAt.date
    {
      assert p(r);
      assert r in rs;
    }
  }

  /** A single record gives a one-entry calendar. */
  lemma LatestPerDateSingle(r: Record)
    ensures LatestPerDate([r]) == [CalendarEntry(r.createdAt.date, r.emotion, r.expression)]
  {
    var es := LatestPerDate([r]);
    var e := CalendarEntry(r.createdAt.date, r.emotion, r.expression);
    assert r in [r];
    forall k | 0 <= k < |es| ensures es[k] == e {
      assert es[k] in es;
      SingleLatestEntry(r, es[k]);
    }
    OnlyEntry(es, e);
  }

  lemma SingleLatestEntry(r: Record, e: CalendarEntry)
    requires LatestEntry([r], e)
    ensures e == CalendarEntry(r.createdAt.date, r.emotion, r.expression)
  {
    var x :| x in [r] && x.createdAt.date == e.date && x.emotion == e.emotion && x.expression == e.expression;
  }

  /** Ascending dates admit no repeated entry. */
  lemma OnlyEntry(es: seq<CalendarEntry>, e: CalendarEntry)
    requires DatesAscending(es) && |es| > 0 && forall k :: 0 <= k < |es| ==> es[k] == e
    ensures es == [e]
  {
    AscendingHead(es);
  }

  lemma AscendingHead(es: seq<CalendarEntry>)
    requires DatesAscending(es)
    ensures |es| <= 1 || es[0] != es[1]
  {
  }

  /** Year "2025" and month "9" (padded to "09") name September 2025. */
  lemma MonthStartSeptember()
    ensures MonthStart("2025", PadStart("9", 2, '0')) == Some(Date(2025, 9, 1))
  {
    assert PadStart("9", 2, '0') == "09";
    assert "2025"[..3] == "202" && "202"[..2] == "20" && "20"[..1] == "2" && "2"[..0] == "";
    assert DigitsValue("2025") == 2025;
    assert "09"[..1] == "0" && "0"[..0] == "";
    assert DigitsValue("09") == 9;
  }

  /** The record written on the last day of September at noon is missing from
      the as-written September calendar, and present in the corrected one. */
  lemma LastDayDropped()
    ensures var r := Record(1, 7, None, Joy, None, None, None, None, None, None, None, None, None,
                            Instant(Date(2025, 9, 30), 43200));
            CalendarAsWritten([r], 7, Some("2025"), Some("9")) == Ok([])
            && Calendar([r], 7, Some("2025"), Some("9")) == Ok([CalendarEntry(Date(2025, 9, 30), Joy, None)])
  {
    var r := Record(1, 7, None, Joy, None, None, None, None, None, None, None, None, None,
                    Instant(Date(2025, 9, 30), 43200));
    SeptemberAsWritten(r);
    SeptemberCorrected(r);
  }

  lemma SeptemberAsWritten(r: Record)
    requires r.userId == 7 && r.createdAt == Instant(Date(2025, 9, 30), 43200)
    ensures CalendarAsWritten([r], 7, Some("2025"), Some("9")) == Ok([])
  {
    MonthStartSeptember();
    var first := Date(2025, 9, 1);
    assert LastDay(2025, 9) == Date(2025, 9, 30);
    assert Filter([r], InWindowAsWritten(7, first, Date(2025, 9, 30))) == [];
  }

  lemma SeptemberCorrected(r: Record)
    requires r.userId == 7 && r.createdAt.date == Date(2025, 9, 30)
    ensures Calendar([r], 7, Some("2025"), Some("9")) == Ok([CalendarEntry(Date(2025, 9, 30), r.emotion, r.expression)])
  {
    MonthStartSeptember();
    var first := Date(2025, 9, 1);
    assert LastDay(2025, 9) == Date(2025, 9, 30);
    assert Filter([r], InMonth(7, first, Date(2025, 9, 30))) == [r];
    LatestPerDateSingle(r);
  }

  // ------------------------------------------------------------------
  // GET /today/latest
  // ------------------------------------------------------------------

  /** The latest of the user's records dated `today` (`None` is the 204 reply). */
  function TodayLatest(records: seq<Record>, u: int, today: Date): (r: Option<Record>)
    ensures r.None? <==> forall x :: x in records ==> !(x.userId == u && x.createdAt.date == today)
    ensures r.Some? ==> r.value in records && r.value.userId == u && r.value.createdAt.date == today
    ensures r.Some? ==> forall x :: x in records && x.userId == u && x.createdAt.date == today ==> RecLe(x, r.value)
  {
    var rs := DayRecords(records, u, today);
    var l := Latest(rs);
    assert l.Some? ==> forall x :: x in records && x.userId == u && x.createdAt.date == today ==> RecLe(x, l.value) by {
      if l.Some? {
        forall x | x in records && x.userId == u && x.createdAt.date == today ensures RecLe(x, l.value) {
          assert x in rs;
          var k :| 0 <= k < |rs| && rs[k] == x;
        }
      }
    }
    l
  }
}

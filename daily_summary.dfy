/**
 * `recomputeDailySummary`: after a record of a day changes, the day's
 * representative emotion (the mode of that day's records) is written to
 * `EmotionCalendar`, and the month's `Emotion_Stats` counters are moved by
 * +1/-1 so that they keep counting the calendar days of each emotion.
 */
module DailySummary {
  import opened Wrappers
  import opened Js
  import opened Seqs
  import opened Dates
  import opened Tables

  // ------------------------------------------------------------------
  // The day's records and the mode query
  // ------------------------------------------------------------------

  /** `WHERE userId=? AND DATE(created_at)=?`. */
  function OnDay(u: int, d: Date): Record -> bool {
    (r: Record) => r.userId == u && r.createdAt.date == d
  }

  /** The user's records created on day `d`, in table order. */
  function DayRecords(records: seq<Record>, u: int, d: Date): (rs: seq<Record>)
    ensures forall r :: r in rs <==> r in records && r.userId == u && r.createdAt.date == d
  {
    Filter(records, OnDay(u, d))
  }

  /** `COUNT(*)` of the group with emotion `e`. */
  function CountOf(rs: seq<Record>, e: Emotion): (n: nat)
    ensures n <= |rs|
    ensures n > 0 <==> exists i :: 0 <= i < |rs| && rs[i].emotion == e
  {
    if rs == [] then 0
    else
      assert forall i :: 0 < i < |rs| ==> rs[i] == rs[1..][i - 1];
      (if rs[0].emotion == e then 1 else 0) + CountOf(rs[1..], e)
  }

  function LaterOf(a: Instant, b: Instant): (r: Instant)
    ensures (r == a || r == b) && InstantLe(a, r) && InstantLe(b, r)
  {
    if InstantLe(a, b) then b else a
  }

  /** `MAX(created_at)` of the group with emotion `e`; `None` for an empty group. */
  function LastAt(rs: seq<Record>, e: Emotion): (t: Option<Instant>)
    ensures t.None? <==> forall i :: 0 <= i < |rs| ==> rs[i].emotion != e
    ensures t.Some? ==> exists i :: 0 <= i < |rs| && rs[i].emotion == e && rs[i].createdAt == t.value
    ensures t.Some? ==> forall i :: 0 <= i < |rs| && rs[i].emotion == e ==> InstantLe(rs[i].createdAt, t.value)
  {
    if rs == [] then None
    else
      assert forall i :: 0 < i < |rs| ==> rs[i] == rs[1..][i - 1];
      var rest := LastAt(rs[1..], e);
      if rs[0].emotion != e then rest
      else match rest
        case None => Some(rs[0].createdAt)
        case Some(t) => Some(LaterOf(rs[0].createdAt, t))
  }

  /** Order on `last_at` values, an absent one lowest. */
  predicate OptLe(a: Option<Instant>, b: Option<Instant>) {
    a.None? || (b.Some? && InstantLe(a.value, b.value))
  }

  /** `ORDER BY cnt DESC, last_at DESC`: group `a` comes no later than group `b`. */
  predicate RankGe(rs: seq<Record>, a: Emotion, b: Emotion) {
    CountOf(rs, a) > CountOf(rs, b)
    || (CountOf(rs, a) == CountOf(rs, b) && OptLe(LastAt(rs, b), LastAt(rs, a)))
  }

  /** `e` is a group the `LIMIT 1` may return: it has records, the highest count,
      and among the groups with that count the latest `created_at`. When two
      groups tie on both, either is a winner. */
  ghost predicate IsWinner(rs: seq<Record>, e: Emotion) {
    CountOf(rs, e) > 0 && forall x: Emotion :: RankGe(rs, e, x)
  }

  lemma RankGeTransitive(rs: seq<Record>, a: Emotion, b: Emotion, c: Emotion)
    requires RankGe(rs, a, b) && RankGe(rs, b, c)
    ensures RankGe(rs, a, c)
  {
  }

  /** The first of `es` that ranks no later than every other. */
  function Best(rs: seq<Record>, es: seq<Emotion>): (e: Emotion)
    requires es != []
    ensures e in es
    ensures forall i :: 0 <= i < |es| ==> RankGe(rs, e, es[i])
  {
    if |es| == 1 then es[0]
    else
      var b := Best(rs, es[1..]);
      assert forall i :: 1 <= i < |es| ==> es[i] == es[1..][i - 1];
      if RankGe(rs, es[0], b) then
        assert forall i :: 1 <= i < |es| ==> RankGe(rs, es[0], es[i]) by {
          forall i | 1 <= i < |es| ensures RankGe(rs, es[0], es[i]) {
            RankGeTransitive(rs, es[0], b, es[i]);
          }
        }
        es[0]
      else b
  }

  /** The first query of the recompute: the day's representative emotion, `None`
      when the day has no record. */
  function Mode(rs: seq<Record>): (m: Option<Emotion>)
    ensures m.None? <==> rs == []
    ensures m.Some? ==> IsWinner(rs, m.value)
  {
    if rs == [] then None
    else
      var b := Best(rs, Emotions);
      assert forall x: Emotion :: RankGe(rs, b, x) by {
        forall x: Emotion ensures RankGe(rs, b, x) {
          EveryEmotionListed(x);
          var i :| 0 <= i < |Emotions| && Emotions[i] == x;
        }
      }
      assert RankGe(rs, b, rs[0].emotion);
      Some(b)
  }

  /** `ORDER BY created_at DESC, id DESC`: `a` comes no earlier than `b`. */
  predicate RecLe(a: Record, b: Record) {
    InstantLt(a.createdAt, b.createdAt) || (a.createdAt == b.createdAt && a.id <= b.id)
  }

  /** `ORDER BY created_at DESC, id DESC LIMIT 1`: the latest of `rs`. */
  function Latest(rs: seq<Record>): (r: Option<Record>)
    ensures r.None? <==> rs == []
    ensures r.Some? ==> r.value in rs && forall i :: 0 <= i < |rs| ==> RecLe(rs[i], r.value)
  {
    if rs == [] then None
    else
      assert forall i :: 0 < i < |rs| ==> rs[i] == rs[1..][i - 1];
      match Latest(rs[1..])
      case None => Some(rs[0])
      case Some(x) => if RecLe(rs[0], x) then Some(x) else Some(rs[0])
  }

  function HasEmotion(e: Emotion): Record -> bool {
    (r: Record) => r.emotion == e
  }

  /** The second query: the latest of the day's records with emotion `e`. */
  function LatestWith(rs: seq<Record>, e: Emotion): (r: Option<Record>)
    ensures r.None? <==> forall i :: 0 <= i < |rs| ==> rs[i].emotion != e
    ensures r.Some? ==> r.value in rs && r.value.emotion == e
    ensures r.Some? ==> forall i :: 0 <= i < |rs| && rs[i].emotion == e ==> RecLe(rs[i], r.value)
  {
    var es := Filter(rs, HasEmotion(e));
    var r := Latest(es);
    assert forall i :: 0 <= i < |rs| && rs[i].emotion == e ==> rs[i] in es;
    assert r.Some? ==> forall i :: 0 <= i < |rs| && rs[i].emotion == e ==> RecLe(rs[i], r.value) by {
      if r.Some? {
        forall i | 0 <= i < |rs| && rs[i].emotion == e ensures RecLe(rs[i], r.value) {
          assert rs[i] in es;
          var k :| 0 <= k < |es| && es[k] == rs[i];
        }
      }
    }
    r
  }

  /** `latest ? latest.expression_type : null`. */
  function LatestExpr(rs: seq<Record>, e: Emotion): Option<string> {
    match LatestWith(rs, e)
    case None => None
    case Some(r) => r.expression
  }

  // ------------------------------------------------------------------
  // Emotion_Stats counters
  // ------------------------------------------------------------------

  /** The counter of emotion `e` for (u, m); a missing row reads as 0. */
  function StatCount(stats: map<(int, string), Counts>, u: int, m: string, e: Emotion): nat {
    if (u, m) in stats then stats[(u, m)].Get(e) else 0
  }

  /** `incStatSql`: `INSERT ... VALUES (?, ?, 1) ON DUPLICATE KEY UPDATE col = col + 1`. */
  function IncStat(stats: map<(int, string), Counts>, u: int, m: string, e: Emotion): (r: map<(int, string), Counts>)
    ensures (u, m) in r && r.Keys == stats.Keys + {(u, m)}
    ensures (u, m) !in stats ==> r[(u, m)] == ZeroCounts.Set(e, 1)
    ensures StatCount(r, u, m, e) == StatCount(stats, u, m, e) + 1
    ensures forall x :: x != e ==> StatCount(r, u, m, x) == StatCount(stats, u, m, x)
    ensures forall k :: k in stats && k != (u, m) ==> r[k] == stats[k]
  {
    if (u, m) in stats then stats[(u, m) := stats[(u, m)].Set(e, stats[(u, m)].Get(e) + 1)]
    else stats[(u, m) := ZeroCounts.Set(e, 1)]
  }

  /** `decStatSql`: `UPDATE ... SET col = GREATEST(col - 1, 0)`; no row, no change. */
  function DecStat(stats: map<(int, string), Counts>, u: int, m: string, e: Emotion): (r: map<(int, string), Counts>)
    ensures r.Keys == stats.Keys
    ensures (u, m) !in stats ==> r == stats
    ensures StatCount(r, u, m, e) == if StatCount(stats, u, m, e) > 0 then StatCount(stats, u, m, e) - 1 else 0
    ensures forall x :: x != e ==> StatCount(r, u, m, x) == StatCount(stats, u, m, x)
    ensures forall k :: k in stats && k != (u, m) ==> r[k] == stats[k]
  {
    if (u, m) in stats then
      var c := stats[(u, m)].Get(e);
      stats[(u, m) := stats[(u, m)].Set(e, if c > 0 then c - 1 else 0)]
    else stats
  }

  /** `dateStr.slice(0, 7)`: the 'YYYY-MM' of a day. */
  function MonthOf(d: Date): (m: string)
    requires ValidDate(d) && InRange(d)
    ensures m == MonthKey(d.year, d.month)
  {
    MonthKeyIsPrefix(d);
    Prefix(DateString(d), 7)
  }

  // ------------------------------------------------------------------
  // What one recompute leaves behind
  // ------------------------------------------------------------------

  /** `EmotionCalendar` after the recompute of (u, d). */
  function SummaryCalendar(cal: map<(int, Date), CalendarRow>, records: seq<Record>, u: int, d: Date)
    : map<(int, Date), CalendarRow>
  {
    var rs := DayRecords(records, u, d);
    match Mode(rs)
    case None => cal - {(u, d)}
    case Some(e) => cal[(u, d) := CalendarRow(e, LatestExpr(rs, e))]
  }

  /** `Emotion_Stats` after the recompute of (u, d), given the calendar before it. */
  function SummaryStats(stats: map<(int, string), Counts>, cal: map<(int, Date), CalendarRow>,
                        records: seq<Record>, u: int, d: Date): map<(int, string), Counts>
    requires ValidDate(d) && InRange(d)
  {
    StatsFor(stats, cal, u, d, MonthOf(d), Mode(DayRecords(records, u, d)))
  }

  /** The counters of month `m` once the day (u, d) has the winning emotion
      `mode` (`None` for a day without records), given the calendar before. */
  function StatsFor(stats: map<(int, string), Counts>, cal: map<(int, Date), CalendarRow>,
                    u: int, d: Date, m: string, mode: Option<Emotion>): map<(int, string), Counts>
  {
    match mode
    case None =>
      if (u, d) in cal then DecStat(stats, u, m, cal[(u, d)].emotion) else stats
    case Some(e) =>
      if (u, d) !in cal then IncStat(stats, u, m, e)
      else if cal[(u, d)].emotion != e then IncStat(DecStat(stats, u, m, cal[(u, d)].emotion), u, m, e)
      else stats
  }

  /** `recomputeDailySummary(conn, u, dateStr)`, inside the caller's transaction. */
  method RecomputeDailySummary(db: Database, u: int, d: Date)
    requires ValidDate(d) && InRange(d)
    modifies db`calendar, db`stats
    ensures db.calendar == SummaryCalendar(old(db.calendar), db.records, u, d)
    ensures db.stats == SummaryStats(old(db.stats), old(db.calendar), db.records, u, d)
  {
    var yearMonth := Prefix(DateString(d), 7);
    assert yearMonth == MonthOf(d);
    SummaryCalendarCases(db.calendar, db.records, u, d);
    SummaryStatsCases(db.stats, db.calendar, db.records, u, d);
    var cal, stats := db.calendar, db.stats;
    var existing := if (u, d) in cal then Some(cal[(u, d)].emotion) else None;
    var rs := DayRecords(db.records, u, d);
    var counts := Mode(rs);
    if counts.None? {
      if existing.Some? {
        stats := DecStat(stats, u, yearMonth, existing.value);
        cal := cal - {(u, d)};
      }
    } else {
      var newEmotion := counts.value;
      var newExpr := LatestExpr(rs, newEmotion);
      cal := cal[(u, d) := CalendarRow(newEmotion, newExpr)];
      if existing.None? {
        stats := IncStat(stats, u, yearMonth, newEmotion);
      } else if existing.value != newEmotion {
        stats := DecStat(stats, u, yearMonth, existing.value);
        stats := IncStat(stats, u, yearMonth, newEmotion);
      }
    }
    ghost var records := db.records;
    db.calendar, db.stats := cal, stats;
    assert db.records == records;
  }

  /** SummaryCalendar case by case, as the method computes it. */
  lemma SummaryCalendarCases(cal: map<(int, Date), CalendarRow>, records: seq<Record>, u: int, d: Date)
    ensures var rs := DayRecords(records, u, d);
            var cal1 := SummaryCalendar(cal, records, u, d);
            match Mode(rs)
            case None => cal1 == (if (u, d) in cal then cal - {(u, d)} else cal)
            case Some(e) => cal1 == cal[(u, d) := CalendarRow(e, LatestExpr(rs, e))]
  {
    if Mode(DayRecords(records, u, d)).None? && (u, d) !in cal {
      assert cal - {(u, d)} == cal;
    }
  }

  /** SummaryStats case by case, as the method computes it. */
  lemma SummaryStatsCases(stats: map<(int, string), Counts>, cal: map<(int, Date), CalendarRow>,
                          records: seq<Record>, u: int, d: Date)
    requires ValidDate(d) && InRange(d)
    ensures var rs := DayRecords(records, u, d);
            var m := MonthOf(d);
            var st1 := SummaryStats(stats, cal, records, u, d);
            match Mode(rs)
            case None => st1 == (if (u, d) in cal then DecStat(stats, u, m, cal[(u, d)].emotion) else stats)
            case Some(e) =>
              st1 == (if (u, d) !in cal then IncStat(stats, u, m, e)
                      else if cal[(u, d)].emotion != e then IncStat(DecStat(stats, u, m, cal[(u, d)].emotion), u, m, e)
                      else stats)
  {
    var mo := Mode(DayRecords(records, u, d));
    assert SummaryStats(stats, cal, records, u, d) == StatsFor(stats, cal, u, d, MonthOf(d), mo);
    match mo {
      case None =>
      case Some(e) =>
    }
  }

  // ------------------------------------------------------------------
  // Invariants and properties
  // ------------------------------------------------------------------

  /** The calendar row of (u, d) exists exactly when the day has records, and
      then holds a winning emotion and the expression of that emotion's latest record. */
  ghost predicate DayFaithful(cal: map<(int, Date), CalendarRow>, records: seq<Record>, u: int, d: Date) {
    var rs := DayRecords(records, u, d);
    ((u, d) in cal <==> rs != [])
    && ((u, d) in cal ==> IsWinner(rs, cal[(u, d)].emotion)
                          && cal[(u, d)].expression == LatestExpr(rs, cal[(u, d)].emotion))
  }

  ghost predicate CalendarFaithful(cal: map<(int, Date), CalendarRow>, records: seq<Record>) {
    forall u, d :: DayFaithful(cal, records, u, d)
  }

  /** The calendar keys of user `u` in month `m` whose emotion is `e`. */
  ghost function DaysWith(cal: map<(int, Date), CalendarRow>, u: int, m: string, e: Emotion): set<(int, Date)> {
    set k | k in cal && k.0 == u && ValidDate(k.1) && InRange(k.1) && MonthOf(k.1) == m && cal[k].emotion == e
  }

  /** Every month counter equals the number of that month's calendar days with its emotion. */
  ghost predicate StatsConsistent(cal: map<(int, Date), CalendarRow>, stats: map<(int, string), Counts>) {
    forall u, m, e :: StatCount(stats, u, m, e) == |DaysWith(cal, u, m, e)|
  }

  /** After the recompute the day's row is faithful to the day's records. */
  lemma RecomputeMakesDayFaithful(cal: map<(int, Date), CalendarRow>, records: seq<Record>, u: int, d: Date)
    ensures DayFaithful(SummaryCalendar(cal, records, u, d), records, u, d)
  {
  }

  /** The recompute touches no other day's row. */
  lemma RecomputeOnlyTouchesDay(cal: map<(int, Date), CalendarRow>, records: seq<Record>, u: int, d: Date)
    ensures forall k :: k != (u, d) ==>
      (k in SummaryCalendar(cal, records, u, d) <==> k in cal)
      && (k in cal ==> SummaryCalendar(cal, records, u, d)[k] == cal[k])
  {
  }

  /** A day with no record and a calendar row: the row is removed and its
      emotion's counter decremented; with no row, nothing changes. */
  lemma RecomputeEmptyDay(stats: map<(int, string), Counts>, cal: map<(int, Date), CalendarRow>,
                          records: seq<Record>, u: int, d: Date)
    requires ValidDate(d) && InRange(d)
    requires DayRecords(records, u, d) == []
    ensures (u, d) !in SummaryCalendar(cal, records, u, d)
    ensures (u, d) !in cal ==> SummaryCalendar(cal, records, u, d) == cal
                               && SummaryStats(stats, cal, records, u, d) == stats
    ensures (u, d) in cal ==> SummaryStats(stats, cal, records, u, d)
                              == DecStat(stats, u, MonthOf(d), cal[(u, d)].emotion)
  {
    assert Mode(DayRecords(records, u, d)) == None;
    SummaryCalendarCases(cal, records, u, d);
    SummaryStatsCases(stats, cal, records, u, d);
  }

  /** Only the counters of the day's own (user, month) row can change. */
  lemma RecomputeOnlyTouchesMonth(stats: map<(int, string), Counts>, cal: map<(int, Date), CalendarRow>,
                                  records: seq<Record>, u: int, d: Date)
    requires ValidDate(d) && InRange(d)
    ensures forall k :: k != (u, MonthOf(d)) ==>
      (k in SummaryStats(stats, cal, records, u, d) <==> k in stats)
      && (k in stats ==> SummaryStats(stats, cal, records, u, d)[k] == stats[k])
  {
    SummaryStatsCases(stats, cal, records, u, d);
  }

  /** Running the recompute a second time with no write in between changes
      neither the calendar nor any counter. */
  lemma RecomputeIdempotent(stats: map<(int, string), Counts>, cal: map<(int, Date), CalendarRow>,
                            records: seq<Record>, u: int, d: Date)
    requires ValidDate(d) && InRange(d)
    ensures var cal1 := SummaryCalendar(cal, records, u, d);
            SummaryCalendar(cal1, records, u, d) == cal1
            && SummaryStats(SummaryStats(stats, cal, records, u, d), cal1, records, u, d)
               == SummaryStats(stats, cal, records, u, d)
  {
    var cal1 := SummaryCalendar(cal, records, u, d);
    SummaryCalendarRow(cal, records, u, d);
    CalendarSettled(cal1, records, u, d);
    StatsSettled(SummaryStats(stats, cal, records, u, d), cal1, records, u, d);
  }

  /** After the recompute the day's row is absent or holds the new mode. */
  lemma SummaryCalendarRow(cal: map<(int, Date), CalendarRow>, records: seq<Record>, u: int, d: Date)
    ensures var rs := DayRecords(records, u, d);
            var cal1 := SummaryCalendar(cal, records, u, d);
            match Mode(rs)
            case None => (u, d) !in cal1
            case Some(e) => (u, d) in cal1 && cal1[(u, d)] == CalendarRow(e, LatestExpr(rs, e))
  {
  }

  /** A calendar whose row of (u, d) already is what the recompute writes is left as it is. */
  lemma CalendarSettled(cal: map<(int, Date), CalendarRow>, records: seq<Record>, u: int, d: Date)
    requires var rs := DayRecords(records, u, d);
             match Mode(rs)
             case None => (u, d) !in cal
             case Some(e) => (u, d) in cal && cal[(u, d)] == CalendarRow(e, LatestExpr(rs, e))
    ensures SummaryCalendar(cal, records, u, d) == cal
  {
    var rs := DayRecords(records, u, d);
    match Mode(rs)
    case None =>
      assert cal - {(u, d)} == cal;
    case Some(e) =>
      assert cal[(u, d) := CalendarRow(e, LatestExpr(rs, e))] == cal;
  }

  /** Counters whose day row already holds the mode (or is absent on an empty day) are left as they are. */
  lemma StatsSettled(stats: map<(int, string), Counts>, cal: map<(int, Date), CalendarRow>,
                     records: seq<Record>, u: int, d: Date)
    requires ValidDate(d) && InRange(d)
    requires match Mode(DayRecords(records, u, d))
             case None => (u, d) !in cal
             case Some(e) => (u, d) in cal && cal[(u, d)].emotion == e
    ensures SummaryStats(stats, cal, records, u, d) == stats
  {
    var mo := Mode(DayRecords(records, u, d));
    assert SummaryStats(stats, cal, records, u, d) == StatsFor(stats, cal, u, d, MonthOf(d), mo);
  }

  /** The recompute keeps every counter equal to its number of calendar days.
      In particular a decrement never meets a zero counter, so the `GREATEST`
      floor is never what keeps it non-negative. */
  lemma RecomputeKeepsStatsConsistent(stats: map<(int, string), Counts>, cal: map<(int, Date), CalendarRow>,
                                      records: seq<Record>, u: int, d: Date)
    requires ValidDate(d) && InRange(d)
    requires StatsConsistent(cal, stats)
    ensures StatsConsistent(SummaryCalendar(cal, records, u, d), SummaryStats(stats, cal, records, u, d))
  {
    var cal1 := SummaryCalendar(cal, records, u, d);
    var st1 := SummaryStats(stats, cal, records, u, d);
    forall u', m', e' ensures StatCount(st1, u', m', e') == |DaysWith(cal1, u', m', e')| {
      if (u', m') != (u, MonthOf(d)) {
        OtherMonthStep(stats, cal, records, u, d, u', m', e');
      } else {
        DayCountStep(stats, cal, records, u, d, e');
      }
    }
  }

  /** A counter of another user or month keeps its value and its days. */
  lemma OtherMonthStep(stats: map<(int, string), Counts>, cal: map<(int, Date), CalendarRow>,
                       records: seq<Record>, u: int, d: Date, u': int, m': string, e: Emotion)
    requires ValidDate(d) && InRange(d) && (u', m') != (u, MonthOf(d))
    ensures StatCount(SummaryStats(stats, cal, records, u, d), u', m', e) == StatCount(stats, u', m', e)
    ensures DaysWith(SummaryCalendar(cal, records, u, d), u', m', e) == DaysWith(cal, u', m', e)
  {
    var cal1 := SummaryCalendar(cal, records, u, d);
    var k := (u, d);
    RecomputeOnlyTouchesDay(cal, records, u, d);
    RecomputeOnlyTouchesMonth(stats, cal, records, u, d);
    DaysWithOutside(cal, cal1, u', m', e, k);
    assert k !in DaysWith(cal1, u', m', e) && k !in DaysWith(cal, u', m', e);
    assert DaysWith(cal1, u', m', e) == DaysWith(cal1, u', m', e) - {k};
    assert DaysWith(cal, u', m', e) == DaysWith(cal, u', m', e) - {k};
  }

  /** The counter of one emotion in the day's own month, before and after. */
  lemma DayCountStep(stats: map<(int, string), Counts>, cal: map<(int, Date), CalendarRow>,
                     records: seq<Record>, u: int, d: Date, e: Emotion)
    requires ValidDate(d) && InRange(d)
    requires StatCount(stats, u, MonthOf(d), e) == |DaysWith(cal, u, MonthOf(d), e)|
    ensures StatCount(SummaryStats(stats, cal, records, u, d), u, MonthOf(d), e)
            == |DaysWith(SummaryCalendar(cal, records, u, d), u, MonthOf(d), e)|
  {
    var cal1 := SummaryCalendar(cal, records, u, d);
    var k := (u, d);
    RecomputeOnlyTouchesDay(cal, records, u, d);
    assert Mode(DayRecords(records, u, d)) == Some(e) <==> k in cal1 && cal1[k].emotion == e by {
      SummaryCalendarRow(cal, records, u, d);
    }
    assert k in cal && cal[k].emotion == e ==> StatCount(stats, u, MonthOf(d), e) > 0 by {
      DaysWithAt(cal, u, d, e);
    }
    StatCountStep(stats, cal, records, u, d, e);
    CountFollowsCalendar(stats, cal, SummaryStats(stats, cal, records, u, d), cal1, u, d, e);
  }

  /** A counter moved by one exactly when the day's row gains or loses emotion
      `e` still counts the month's days with `e`, when no other row changed. */
  lemma CountFollowsCalendar(stats: map<(int, string), Counts>, cal: map<(int, Date), CalendarRow>,
                             stats1: map<(int, string), Counts>, cal1: map<(int, Date), CalendarRow>,
                             u: int, d: Date, e: Emotion)
    requires ValidDate(d) && InRange(d)
    requires forall x :: x != (u, d) ==> (x in cal1 <==> x in cal) && (x in cal ==> cal1[x] == cal[x])
    requires StatCount(stats, u, MonthOf(d), e) == |DaysWith(cal, u, MonthOf(d), e)|
    requires var wasE := (u, d) in cal && cal[(u, d)].emotion == e;
             var isE := (u, d) in cal1 && cal1[(u, d)].emotion == e;
             StatCount(stats1, u, MonthOf(d), e)
             == StatCount(stats, u, MonthOf(d), e) - (if wasE && !isE then 1 else 0) + (if isE && !wasE then 1 else 0)
    ensures StatCount(stats1, u, MonthOf(d), e) == |DaysWith(cal1, u, MonthOf(d), e)|
  {
    var mo, k := MonthOf(d), (u, d);
    var before, after := DaysWith(cal, u, mo, e), DaysWith(cal1, u, mo, e);
    DaysWithOutside(cal, cal1, u, mo, e, k);
    CardinalityStep(before, k);
    CardinalityStep(after, k);
    DaysWithAt(cal, u, d, e);
    DaysWithAt(cal1, u, d, e);
  }

  /** The day (u, d) counts for its own month exactly when its row holds `e`. */
  lemma DaysWithAt(cal: map<(int, Date), CalendarRow>, u: int, d: Date, e: Emotion)
    requires ValidDate(d) && InRange(d)
    ensures (u, d) in DaysWith(cal, u, MonthOf(d), e) <==> (u, d) in cal && cal[(u, d)].emotion == e
  {
  }

  /** Two calendars that agree outside key `k` have the same days outside `k`. */
  lemma DaysWithOutside(cal: map<(int, Date), CalendarRow>, cal1: map<(int, Date), CalendarRow>,
                        u: int, m: string, e: Emotion, k: (int, Date))
    requires forall x :: x != k ==> (x in cal1 <==> x in cal) && (x in cal ==> cal1[x] == cal[x])
    ensures DaysWith(cal1, u, m, e) - {k} == DaysWith(cal, u, m, e) - {k}
  {
  }

  lemma CardinalityStep<T>(s: set<T>, k: T)
    ensures |s| == |s - {k}| + (if k in s then 1 else 0)
  {
    if k in s {
      assert s == (s - {k}) + {k};
    } else {
      assert s == s - {k};
    }
  }

  /** How one recompute moves the counter of emotion `e` in the day's own month. */
  lemma StatCountStep(stats: map<(int, string), Counts>, cal: map<(int, Date), CalendarRow>,
                      records: seq<Record>, u: int, d: Date, e: Emotion)
    requires ValidDate(d) && InRange(d)
    requires (u, d) in cal && cal[(u, d)].emotion == e ==> StatCount(stats, u, MonthOf(d), e) > 0
    ensures var wasE := (u, d) in cal && cal[(u, d)].emotion == e;
            var isE := Mode(DayRecords(records, u, d)) == Some(e);
            StatCount(SummaryStats(stats, cal, records, u, d), u, MonthOf(d), e)
            == StatCount(stats, u, MonthOf(d), e) - (if wasE && !isE then 1 else 0) + (if isE && !wasE then 1 else 0)
  {
    var m := MonthOf(d);
    SummaryStatsCases(stats, cal, records, u, d);
    match Mode(DayRecords(records, u, d))
    case None =>
      if (u, d) in cal {
        DecCount(stats, u, m, cal[(u, d)].emotion, e);
      }
    case Some(y) =>
      if (u, d) !in cal {
        IncCount(stats, u, m, y, e);
      } else if cal[(u, d)].emotion != y {
        var dec := DecStat(stats, u, m, cal[(u, d)].emotion);
        DecCount(stats, u, m, cal[(u, d)].emotion, e);
        IncCount(dec, u, m, y, e);
      }
  }

  lemma DecCount(stats: map<(int, string), Counts>, u: int, m: string, x: Emotion, e: Emotion)
    ensures StatCount(DecStat(stats, u, m, x), u, m, e)
            == if x != e then StatCount(stats, u, m, e) else if StatCount(stats, u, m, e) > 0 then StatCount(stats, u, m, e) - 1 else 0
  {
  }

  lemma IncCount(stats: map<(int, string), Counts>, u: int, m: string, x: Emotion, e: Emotion)
    ensures StatCount(IncStat(stats, u, m, x), u, m, e) == StatCount(stats, u, m, e) + if x == e then 1 else 0
  {
  }

  /** Recomputing a day whose records changed, when no other day's records
      changed, keeps the whole calendar faithful. */
  lemma RecomputeRestoresCalendar(cal: map<(int, Date), CalendarRow>, records: seq<Record>,
                                  records': seq<Record>, u: int, d: Date)
    requires CalendarFaithful(cal, records)
    requires forall u', d' :: (u', d') != (u, d) ==> DayRecords(records', u', d') == DayRecords(records, u', d')
    ensures CalendarFaithful(SummaryCalendar(cal, records', u, d), records')
  {
    var cal1 := SummaryCalendar(cal, records', u, d);
    RecomputeOnlyTouchesDay(cal, records', u, d);
    forall u', d' ensures DayFaithful(cal1, records', u', d') {
      if (u', d') == (u, d) {
        RecomputeMakesDayFaithful(cal, records', u, d);
      } else {
        assert DayFaithful(cal, records, u', d');
        assert DayRecords(records', u', d') == DayRecords(records, u', d');
      }
    }
  }
}

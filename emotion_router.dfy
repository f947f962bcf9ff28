/**
 * The `/emotion` routes: the per-user "today" snapshot (`Today_Emotion`,
 * one row per user, last write wins), the month counters (`Emotion_Stats`)
 * with their all-zero default, and the month summary whose breakdown and
 * total are filled in by loops.
 */
module EmotionRouter {
  import opened Wrappers
  import opened Js
  import opened Seqs
  import opened Dates
  import opened Tables
  import opened DailySummary
  import opened RecordRouter

  // ------------------------------------------------------------------
  // POST /today and GET /today
  // ------------------------------------------------------------------

  /** The body of POST /today. */
  datatype TodayBody = TodayBody(
    emotion: Option<string>,
    expression: Option<string>,
    latitude: Field<Option<real>>,
    longitude: Field<Option<real>>)

  /** The four fields must be there: a truthy emotion and expression, and
      coordinates that are not `undefined` (null is accepted). */
  predicate Complete(b: TodayBody) {
    Truthy(b.emotion) && Truthy(b.expression) && b.latitude.Given? && b.longitude.Given?
  }

  /** The row the upsert writes. */
  function SnapshotOf(b: TodayBody, now: Instant): (s: Snapshot)
    requires Complete(b)
    ensures s.emotion == b.emotion && s.expression == b.expression
    ensures s.latitude == b.latitude.value && s.longitude == b.longitude.value && s.updatedAt == now
  {
    Snapshot(b.emotion, b.expression, b.latitude.value, b.longitude.value, now)
  }

  /** `INSERT ... ON DUPLICATE KEY UPDATE` on the user's key: the table after the request. */
  function Upserted(snaps: map<int, Snapshot>, u: int, b: TodayBody, now: Instant): (snaps': map<int, Snapshot>)
    ensures !Complete(b) ==> snaps' == snaps
    ensures Complete(b) ==> snaps'.Keys == snaps.Keys + {u} && snaps'[u] == SnapshotOf(b, now)
    ensures forall v :: v != u && v in snaps ==> v in snaps' && snaps'[v] == snaps[v]
  {
    if Complete(b) then snaps[u := SnapshotOf(b, now)] else snaps
  }

  /** POST /today: 400 and no write unless the body is complete, else the upsert. */
  method PostToday(db: Database, u: int, b: TodayBody, now: Instant) returns (status: int)
    modifies db`snapshots
    ensures status == (if Complete(b) then 200 else 400)
    ensures db.snapshots == Upserted(old(db.snapshots), u, b, now)
  {
    if !Complete(b) {
      return 400;
    }
    db.snapshots := db.snapshots[u := SnapshotOf(b, now)];
    status := 200;
  }

  /** GET /today: the user's row, 404 when there is none. */
  function GetToday(snaps: map<int, Snapshot>, u: int): (res: Result<Snapshot>)
    ensures res.Err? <==> u !in snaps
    ensures res.Err? ==> res.status == 404
    ensures res.Ok? ==> res.value == snaps[u]
  {
    if u in snaps then Ok(snaps[u]) else Err(404)
  }

  /** After a successful POST the user reads back exactly what was sent. */
  lemma PostThenGet(snaps: map<int, Snapshot>, u: int, b: TodayBody, now: Instant)
    requires Complete(b)
    ensures GetToday(Upserted(snaps, u, b, now), u) == Ok(SnapshotOf(b, now))
  {
  }

  /** Of two successful POSTs the second one wins, whatever the first one sent. */
  lemma LastWriteWins(snaps: map<int, Snapshot>, u: int, b1: TodayBody, t1: Instant, b2: TodayBody, t2: Instant)
    requires Complete(b2)
    ensures Upserted(Upserted(snaps, u, b1, t1), u, b2, t2) == Upserted(snaps, u, b2, t2)
  {
    var once := Upserted(snaps, u, b1, t1);
    var a := Upserted(once, u, b2, t2);
    var c := Upserted(snaps, u, b2, t2);
    assert a.Keys == c.Keys;
    forall v | v in a ensures a[v] == c[v] {
    }
  }

  // ------------------------------------------------------------------
  // GET /stats
  // ------------------------------------------------------------------

  /** `${year}-${String(month).padStart(2, '0')}`. */
  function YearMonth(year: string, month: string): string {
    year + "-" + PadStart(month, 2, '0')
  }

  /** GET /stats: 400 without a year or month; the month's counters, all six
      zero when the month has no row. */
  function GetStats(stats: map<(int, string), Counts>, u: int, year: Option<string>, month: Option<string>)
    : (res: Result<Counts>)
    ensures res.Err? <==> !Truthy(year) || !Truthy(month)
    ensures res.Err? ==> res.status == 400
    ensures res.Ok? ==> var k := (u, YearMonth(year.value, month.value));
      res.value == if k in stats then stats[k] else ZeroCounts
  {
    if !Truthy(year) || !Truthy(month) then Err(400)
    else
      var k := (u, YearMonth(year.value, month.value));
      if k in stats then Ok(stats[k]) else Ok(ZeroCounts)
  }

  /** The key GET /stats reads for a padded year and a numeric month is the key
      the recompute writes, so every count it answers is the recompute's counter. */
  lemma StatsReadsRecomputedKey(stats: map<(int, string), Counts>, u: int, y: nat, m: nat, e: Emotion)
    requires y <= 9999 && 1 <= m <= 12
    ensures GetStats(stats, u, Some(Pad(y, 4)), Some(NatToString(m))).Ok?
    ensures GetStats(stats, u, Some(Pad(y, 4)), Some(NatToString(m))).value.Get(e) == StatCount(stats, u, MonthKey(y, m), e)
  {
    var yy, mm := Pad(y, 4), Pad(m, 2);
    assert YearMonth(yy, NatToString(m)) == yy + "-" + mm;
    assert MonthKey(y, m) == yy + "-" + mm;
  }

  // ------------------------------------------------------------------
  // GET /stats/summary
  // ------------------------------------------------------------------

  /** The year and the padded month the handler goes on with, or the 400
      reply, as written: `String(month || '').padStart(2, '0')` is never
      empty, so only a blank year is refused. */
  function SummaryParamsAsWritten(year: Option<string>, month: Option<string>): (res: Result<(string, string)>)
    ensures res.Err? <==> Trim(if Truthy(year) then year.value else "") == ""
    ensures res.Err? ==> res.status == 400
  {
    var y := Trim(if Truthy(year) then year.value else "");
    var m := PadStart(if Truthy(month) then month.value else "", 2, '0');
    if y == "" || m == "" then Err(400) else Ok((y, m))
  }

  /** The guard as intended: a missing year or month is refused. */
  function SummaryParams(year: Option<string>, month: Option<string>): (res: Result<(string, string)>)
    ensures res.Err? <==> Trim(if Truthy(year) then year.value else "") == "" || !Truthy(month)
    ensures res.Err? ==> res.status == 400
    ensures res.Ok? ==> res.value.0 == Trim(year.value) && res.value.1 == PadStart(month.value, 2, '0')
  {
    var y := Trim(if Truthy(year) then year.value else "");
    if y == "" || !Truthy(month) then Err(400) else Ok((y, PadStart(month.value, 2, '0')))
  }

  /** A request without a month passes the written guard (as month "00") and is
      refused by the intended one. */
  lemma MissingMonthAccepted()
    ensures SummaryParamsAsWritten(Some("2025"), None) == Ok(("2025", "00"))
    ensures SummaryParams(Some("2025"), None) == Err(400)
  {
    assert Trim("2025") == "2025" by {
      assert !IsSpace('2') && !IsSpace('5');
      assert LeadingSpaces("2025") == 0;
    }
    assert PadStart("", 2, '0') == "00";
  }

  /** One row of `SELECT emotion_type, COUNT(*) AS cnt ... GROUP BY emotion_type`. */
  datatype GroupRow = GroupRow(emotion: Emotion, cnt: nat)

  /** The groups of `rs` for the emotions `es`, in that order, each present
      emotion once. */
  function GroupsOf(rs: seq<Record>, es: seq<Emotion>): (rows: seq<GroupRow>)
    ensures forall g :: g in rows ==> g.cnt > 0 && g.emotion in es && g.cnt == CountOf(rs, g.emotion)
  {
    if es == [] then []
    else
      var e := es[|es| - 1];
      GroupsOf(rs, es[..|es| - 1]) + (if CountOf(rs, e) > 0 then [GroupRow(e, CountOf(rs, e))] else [])
  }

  /** `breakdown[r.emotion_type].count = cnt` over the rows: the last row of emotion `e` decides. */
  function LastCount(rows: seq<GroupRow>, e: Emotion): nat {
    if rows == [] then 0
    else if rows[|rows| - 1].emotion == e then rows[|rows| - 1].cnt
    else LastCount(rows[..|rows| - 1], e)
  }

  /** `total += cnt` over the rows. */
  function SumCnt(rows: seq<GroupRow>): nat {
    if rows == [] then 0 else SumCnt(rows[..|rows| - 1]) + rows[|rows| - 1].cnt
  }

  /** The counts of `rs` summed over the emotions `es`. */
  function CountSum(rs: seq<Record>, es: seq<Emotion>): nat {
    if es == [] then 0 else CountSum(rs, es[..|es| - 1]) + CountOf(rs, es[|es| - 1])
  }

  /** Reading the groups back gives each emotion's count (0 for one outside `es`). */
  lemma {:induction false} GroupsCount(rs: seq<Record>, es: seq<Emotion>, e: Emotion)
    requires Distinct(es)
    ensures LastCount(GroupsOf(rs, es), e) == if e in es then CountOf(rs, e) else 0
  {
    if es == [] {
      assert GroupsOf(rs, es) == [];
    } else {
      var init, last := es[..|es| - 1], es[|es| - 1];
      assert es == init + [last];
      assert Distinct(init) by {
        forall i, j | 0 <= i < j < |init| ensures init[i] != init[j] {
          assert init[i] == es[i] && init[j] == es[j];
        }
      }
      assert e in es <==> e in init || e == last;
      assert last !in init by {
        forall i | 0 <= i < |init| ensures init[i] != last {
          assert init[i] == es[i];
        }
      }
      GroupsCount(rs, init, e);
      var g := GroupsOf(rs, init);
      var n := CountOf(rs, last);
      if n > 0 {
        var rows := g + [GroupRow(last, n)];
        assert GroupsOf(rs, es) == rows;
        assert rows[..|rows| - 1] == g;
        assert LastCount(rows, e) == if last == e then n else LastCount(g, e);
      } else {
        assert GroupsOf(rs, es) == g + [];
        assert g + [] == g;
      }
    }
  }

  /** The groups' counts add up to the counts summed over `es`. */
  lemma {:induction false} GroupsSum(rs: seq<Record>, es: seq<Emotion>)
    ensures SumCnt(GroupsOf(rs, es)) == CountSum(rs, es)
  {
    if es == [] {
      assert GroupsOf(rs, es) == [];
    } else {
      var init, last := es[..|es| - 1], es[|es| - 1];
      GroupsSum(rs, init);
      var g := GroupsOf(rs, init);
      var n := CountOf(rs, last);
      assert CountSum(rs, es) == CountSum(rs, init) + n;
      if n > 0 {
        var rows := g + [GroupRow(last, n)];
        assert GroupsOf(rs, es) == rows;
        assert rows[..|rows| - 1] == g;
        assert SumCnt(rows) == SumCnt(g) + n;
      } else {
        assert GroupsOf(rs, es) == g + [];
        assert g + [] == g;
      }
    }
  }

  /** Every record has one of the six emotions, so the six counts add up to the number of records. */
  lemma {:induction false} SixCounts(rs: seq<Record>)
    ensures CountOf(rs, Joy) + CountOf(rs, Sadness) + CountOf(rs, Anger)
            + CountOf(rs, Worry) + CountOf(rs, Proud) + CountOf(rs, Upset) == |rs|
  {
    if rs != [] {
      SixCounts(rs[1..]);
    }
  }

  /** Summed over the six emotions, the counts give the number of records. */
  lemma CountSumEmotions(rs: seq<Record>)
    ensures CountSum(rs, Emotions) == |rs|
  {
    var e6 := Emotions;
    var e5 := [Joy, Sadness, Anger, Worry, Proud];
    var e4 := [Joy, Sadness, Anger, Worry];
    var e3 := [Joy, Sadness, Anger];
    var e2 := [Joy, Sadness];
    var e1 := [Joy];
    assert e6[..5] == e5 && e5[..4] == e4 && e4[..3] == e3 && e3[..2] == e2 && e2[..1] == e1 && e1[..0] == [];
    assert CountSum(rs, e1) == CountOf(rs, Joy);
    assert CountSum(rs, e2) == CountSum(rs, e1) + CountOf(rs, Sadness);
    assert CountSum(rs, e3) == CountSum(rs, e2) + CountOf(rs, Anger);
    assert CountSum(rs, e4) == CountSum(rs, e3) + CountOf(rs, Worry);
    assert CountSum(rs, e5) == CountSum(rs, e4) + CountOf(rs, Proud);
    assert CountSum(rs, e6) == CountSum(rs, e5) + CountOf(rs, Upset);
    SixCounts(rs);
  }

  /** One emotion's entry of the breakdown. */
  datatype Share = Share(count: nat, percent: real)

  /** `Math.round(x * 10) / 10` (JavaScript rounds halves up). */
  function RoundTenth(x: real): (r: real)
    ensures 0.0 <= x <= 100.0 ==> 0.0 <= r <= 100.0
  {
    ((x * 10.0 + 0.5).Floor as real) / 10.0
  }

  /** `(count / total) * 100`, rounded to one decimal. */
  function Percent(count: nat, total: nat): (p: real)
    requires total > 0
    ensures count <= total ==> 0.0 <= p <= 100.0
  {
    RoundTenth((count as real / total as real) * 100.0)
  }

  /** The share the loops leave for emotion `e`. */
  function ShareOf(rows: seq<GroupRow>, e: Emotion): Share {
    var total := SumCnt(rows);
    Share(LastCount(rows, e), if total > 0 then Percent(LastCount(rows, e), total) else 0.0)
  }

  /** The three loops of the handler: zero every emotion, fill the counts and
      the total from the rows, then the percents when the total is positive. */
  method Breakdown(rows: seq<GroupRow>) returns (total: nat, breakdown: map<Emotion, Share>)
    ensures total == SumCnt(rows)
    ensures forall e :: e in breakdown && breakdown[e] == ShareOf(rows, e)
  {
    breakdown := map[];
    var i := 0;
    while i < |Emotions|
      invariant 0 <= i <= |Emotions|
      invariant forall e :: e in breakdown <==> e in Emotions[..i]
      invariant forall e :: e in breakdown ==> breakdown[e] == Share(0, 0.0)
    {
      breakdown := breakdown[Emotions[i] := Share(0, 0.0)];
      i := i + 1;
    }
    assert forall e :: e in breakdown by {
      forall e ensures e in breakdown {
        EveryEmotionListed(e);
        assert Emotions[..6] == Emotions;
      }
    }
    total := 0;
    var j := 0;
    while j < |rows|
      invariant 0 <= j <= |rows|
      invariant total == SumCnt(rows[..j])
      invariant forall e :: e in breakdown && breakdown[e] == Share(LastCount(rows[..j], e), 0.0)
    {
      var r := rows[j];
      assert rows[..j + 1][..j] == rows[..j];
      breakdown := breakdown[r.emotion := Share(r.cnt, 0.0)];
      total := total + r.cnt;
      j := j + 1;
    }
    assert rows[..j] == rows;
    if total > 0 {
      var k := 0;
      while k < |Emotions|
        invariant 0 <= k <= |Emotions|
        invariant forall e :: e in breakdown && breakdown[e].count == LastCount(rows, e)
        invariant forall e :: breakdown[e].percent == if e in Emotions[..k] then Percent(LastCount(rows, e), total) else 0.0
      {
        var e := Emotions[k];
        breakdown := breakdown[e := Share(breakdown[e].count, Percent(breakdown[e].count, total))];
        k := k + 1;
      }
      assert forall e :: e in Emotions[..6] by {
        forall e ensures e in Emotions[..6] {
          EveryEmotionListed(e);
          assert Emotions[..6] == Emotions;
        }
      }
    }
  }

  /** The body of GET /stats/summary. */
  datatype Summary = Summary(yearMonth: string, total: nat, breakdown: map<Emotion, Share>)

  /** The records the summary counts. */
  function MonthRecords(records: seq<Record>, u: int, year: string, month: string): seq<Record> {
    match MonthStart(year, month)
    case None => []
    case Some(first) => Filter(records, InMonth(u, first, LastDay(first.year, first.month)))
  }

  /** A month read as `00` names no month: the summary counts no record. */
  lemma ZeroMonthEmpty(records: seq<Record>, u: int, year: string)
    ensures MonthRecords(records, u, year, "00") == []
  {
    assert "00"[..1] == "0" && "0"[..0] == "";
    assert DigitsValue("00") == 0;
  }

  /** With a month given, the written guard answers what the intended one does,
      so the written handler and the intended one differ only without a month. */
  lemma GuardsAgreeWithMonth(year: Option<string>, month: Option<string>)
    requires Truthy(month)
    ensures SummaryParamsAsWritten(year, month) == SummaryParams(year, month)
  {
  }

  /** What the loops leave for the groups of `rs`: its size and, per emotion,
      its count and the count's rounded share of the total. */
  lemma {:induction false} BreakdownOfRecords(rs: seq<Record>, e: Emotion)
    ensures SumCnt(GroupsOf(rs, Emotions)) == |rs|
    ensures ShareOf(GroupsOf(rs, Emotions), e)
            == Share(CountOf(rs, e), if |rs| > 0 then Percent(CountOf(rs, e), |rs|) else 0.0)
  {
    GroupsSum(rs, Emotions);
    CountSumEmotions(rs);
    EmotionsDistinct();
    GroupsCount(rs, Emotions, e);
    EveryEmotionListed(e);
  }

  /** GET /stats/summary, with the guard as written: 400 only for a blank year;
      otherwise `total` is the number of the user's records in the month, each
      emotion's count is its number of those records, and the percents are 0
      unless the total is positive. A missing month is read as `00`, which
      names no month, so the reply is `YYYY-00` with no records. */
  method StatsSummary(db: Database, u: int, year: Option<string>, month: Option<string>) returns (res: Result<Summary>)
    ensures res.Err? <==> SummaryParamsAsWritten(year, month).Err?
    ensures res.Err? ==> res.status == 400
    ensures res.Ok? ==>
      var (y, m) := SummaryParamsAsWritten(year, month).value;
      var rs := MonthRecords(db.records, u, y, m);
      res.value.yearMonth == y + "-" + m
      && res.value.total == |rs|
      && (forall e :: e in res.value.breakdown
            && res.value.breakdown[e] == Share(CountOf(rs, e), if |rs| > 0 then Percent(CountOf(rs, e), |rs|) else 0.0))
  {
    match SummaryParamsAsWritten(year, month) {
      case Err(s) =>
        return Err(s);
      case Ok((y, m)) =>
        var rs := MonthRecords(db.records, u, y, m);
        var total, breakdown := Breakdown(GroupsOf(rs, Emotions));
        forall e
          ensures SumCnt(GroupsOf(rs, Emotions)) == |rs|
          ensures ShareOf(GroupsOf(rs, Emotions), e)
                  == Share(CountOf(rs, e), if |rs| > 0 then Percent(CountOf(rs, e), |rs|) else 0.0)
        {
          BreakdownOfRecords(rs, e);
        }
        res := Ok(Summary(y + "-" + m, total, breakdown));
    }
  }
}

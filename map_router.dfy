/**
 * The `/map` routes: the requester's located records of today and of a
 * seven-day week, and the place-click lookup (the requester's records at the
 * clicked spot and other users' public records within 500 m). The query
 * strings `lat`/`lng` arrive already passed through `Number(...)`. MySQL's
 * `ROUND` and the spherical distance are parameters.
 */
module MapRouter {
  import opened Wrappers
  import opened Js
  import opened Seqs
  import opened Dates
  import opened Tables
  import opened RecordRouter

  // ------------------------------------------------------------------
  // Validators
  // ------------------------------------------------------------------

  /** `/^\d{4}-\d{2}-\d{2}$/`. */
  predicate IsValidDate(s: string) {
    |s| == 10 && AllDigits(s[..4]) && s[4] == '-' && AllDigits(s[5..7]) && s[7] == '-' && AllDigits(s[8..])
  }

  /** `isValidDate(s)` on a query value: `String(s || '')`, so an absent value fails. */
  predicate IsValidDateParam(s: Option<string>) {
    s.Some? && IsValidDate(s.value)
  }

  /** The pattern, character by character: ten characters, dashes at 4 and 7, digits elsewhere. */
  lemma ValidDateShape(s: string)
    ensures IsValidDate(s) <==>
      |s| == 10 && forall i :: 0 <= i < |s| ==> if i == 4 || i == 7 then s[i] == '-' else IsDigit(s[i])
  {
    if |s| == 10 {
      assert forall i :: 0 <= i < 4 ==> s[..4][i] == s[i];
      assert forall i :: 5 <= i < 7 ==> s[5..7][i - 5] == s[i];
      assert forall i :: 8 <= i < 10 ==> s[8..][i - 8] == s[i];
    }
  }

  /** The date a string of that form names, as MySQL reads it (year, month, day fields). */
  function ParseDate(s: string): (d: Date)
    requires IsValidDate(s)
    ensures InRange(d) && 0 <= d.month < 100 && 0 <= d.day < 100
  {
    DigitsValueBound(s[..4]);
    DigitsValueBound(s[5..7]);
    DigitsValueBound(s[8..]);
    assert Pow10(4) == 10000 && Pow10(2) == 100;
    Date(DigitsValue(s[..4]), DigitsValue(s[5..7]), DigitsValue(s[8..]))
  }

  /** Every date the tables hold is written in that form, and reads back as itself. */
  lemma DateStringRoundTrip(d: Date)
    requires ValidDate(d) && InRange(d)
    ensures IsValidDate(DateString(d)) && ParseDate(DateString(d)) == d
  {
    PadLength(d.year, 4);
    PadLength(d.month, 2);
    PadLength(d.day, 2);
    var s := DateString(d);
    assert s[..4] == Pad(d.year, 4);
    assert s[5..7] == Pad(d.month, 2);
    assert s[8..] == Pad(d.day, 2);
    PadValue(d.year, 4);
    PadValue(d.month, 2);
    PadValue(d.day, 2);
  }

  /** `assertLatLng(lat, lng)` on `Number(lat)`, `Number(lng)`. */
  function AssertLatLng(lat: Num, lng: Num): (ok: bool)
    ensures ok <==> lat.Finite? && lng.Finite? && -90.0 <= lat.v <= 90.0 && -180.0 <= lng.v <= 180.0
  {
    lat.Finite? && lng.Finite?
    && NumLe(lat, Finite(90.0)) && NumLe(Finite(-90.0), lat)
    && NumLe(lng, Finite(180.0)) && NumLe(Finite(-180.0), lng)
  }

  /** `self_decimals`: 6 when absent; otherwise `parseInt(...) || 6` clamped into 0 .. 10. */
  function SelfDecimals(p: Option<string>): (k: int)
    ensures 0 <= k <= 10
    ensures p.None? ==> k == 6
    ensures p.Some? && (ParseInt(p.value) == None || ParseInt(p.value) == Some(0)) ==> k == 6
    ensures p.Some? && ParseInt(p.value).Some? && ParseInt(p.value) != Some(0) ==>
      var n := ParseInt(p.value).value;
      k == (if n < 0 then 0 else if n > 10 then 10 else n)
  {
    if p.None? then 6
    else
      var n := IntOr(ParseInt(p.value), 6);
      if n > 10 then 10 else if n < 0 then 0 else n
  }

  // ------------------------------------------------------------------
  // GET /me/today and GET /me/week
  // ------------------------------------------------------------------

  /** `r.latitude IS NOT NULL AND r.longitude IS NOT NULL`. */
  predicate Located(r: Record) {
    r.latitude.Some? && r.longitude.Some?
  }

  function TodayMatch(u: int, today: Date): Record -> bool {
    (r: Record) => r.userId == u && Located(r) && r.createdAt.date == today
  }

  /** GET /me/today: every located record of the requester written today,
      public or not, newest first. */
  function MeToday(records: seq<Record>, u: int, today: Date): (rows: seq<Record>)
    ensures forall r :: r in rows <==> r in records && r.userId == u && Located(r) && r.createdAt.date == today
    ensures multiset(rows) == multiset(Filter(records, TodayMatch(u, today)))
    ensures SortedBy(rows, NewerFirst)
  {
    NewerFirstTotalPreorder();
    SortByIsSorted(Filter(records, TodayMatch(u, today)), NewerFirst);
    SortBy(Filter(records, TodayMatch(u, today)), NewerFirst)
  }

  function WeekMatch(u: int, s: Date): Record -> bool
    requires ValidDate(s)
  {
    (r: Record) => r.userId == u && Located(r) && DateLe(s, r.createdAt.date) && DateLe(r.createdAt.date, AddDays(s, 6))
  }

  /** GET /me/week: 400 unless `start` has the date form; otherwise the
      requester's located records dated `start` .. `start + 6 days`, newest
      first. A start of that form that is no calendar date makes MySQL's
      bounds NULL, and nothing matches. */
  function MeWeek(records: seq<Record>, u: int, start: Option<string>): (res: Result<seq<Record>>)
    ensures res.Err? <==> !IsValidDateParam(start)
    ensures res.Err? ==> res.status == 400
    ensures res.Ok? ==> SortedBy(res.value, NewerFirst)
    ensures res.Ok? ==>
      var s := ParseDate(start.value);
      if ValidDate(s) then
        forall r :: r in res.value <==>
          r in records && r.userId == u && Located(r) && DateLe(s, r.createdAt.date) && DateLe(r.createdAt.date, AddDays(s, 6))
      else res.value == []
    ensures res.Ok? && ValidDate(ParseDate(start.value)) ==>
      multiset(res.value) == multiset(Filter(records, WeekMatch(u, ParseDate(start.value))))
  {
    if !IsValidDateParam(start) then Err(400)
    else
      var s := ParseDate(start.value);
      if !ValidDate(s) then Ok([])
      else
        NewerFirstTotalPreorder();
        SortByIsSorted(Filter(records, WeekMatch(u, s)), NewerFirst);
        Ok(SortBy(Filter(records, WeekMatch(u, s)), NewerFirst))
  }

  /** `AddDays(s, a + b)` is `b` days after `AddDays(s, a)`. */
  lemma {:induction false} AddDaysAdd(s: Date, a: nat, b: nat)
    requires ValidDate(s)
    ensures AddDays(s, a + b) == AddDays(AddDays(s, a), b)
    decreases a
  {
    if a > 0 {
      var t := NextDay(s);
      AddDaysAdd(t, a - 1, b);
      assert AddDays(s, a) == AddDays(t, a - 1);
    }
  }

  /** The valid dates from `s` through `s + n` days are exactly `s + k`, `0 <= k <= n`. */
  lemma {:induction false} DaysThrough(s: Date, n: nat)
    requires ValidDate(s)
    ensures forall x :: ValidDate(x) ==>
      (DateLe(s, x) && DateLe(x, AddDays(s, n)) <==> exists k :: 0 <= k <= n && x == AddDays(s, k))
    decreases n
  {
    if n == 0 {
      forall x | ValidDate(x)
        ensures DateLe(s, x) && DateLe(x, AddDays(s, n)) <==> exists k :: 0 <= k <= n && x == AddDays(s, k)
      {
        if DateLe(s, x) && DateLe(x, s) {
          assert x == AddDays(s, 0);
        }
      }
    } else {
      var t := NextDay(s);
      DaysThrough(t, n - 1);
      assert AddDays(s, n) == AddDays(t, n - 1);
      forall x | ValidDate(x)
        ensures DateLe(s, x) && DateLe(x, AddDays(s, n)) <==> exists k :: 0 <= k <= n && x == AddDays(s, k)
      {
        if DateLe(s, x) && DateLe(x, AddDays(s, n)) {
          if x == s {
            assert x == AddDays(s, 0);
          } else {
            assert DateLe(t, x);
            var k :| 0 <= k <= n - 1 && x == AddDays(t, k);
            assert x == AddDays(s, k + 1);
          }
          assert exists k :: 0 <= k <= n && x == AddDays(s, k);
        }
        if exists k :: 0 <= k <= n && x == AddDays(s, k) {
          var k :| 0 <= k <= n && x == AddDays(s, k);
          if k == 0 {
            assert DateLt(s, AddDays(s, n));
          } else {
            assert x == AddDays(t, k - 1);
            assert DateLe(t, x) && DateLe(x, AddDays(t, n - 1));
            assert DateLe(s, x);
          }
          assert DateLe(s, x) && DateLe(x, AddDays(s, n));
        }
      }
      assert forall x :: ValidDate(x) ==>
        (DateLe(s, x) && DateLe(x, AddDays(s, n)) <==> exists k :: 0 <= k <= n && x == AddDays(s, k));
    }
  }

  /** The week holds exactly the records of the seven days `start + 0` .. `start + 6`. */
  lemma WeekIsSevenDays(records: seq<Record>, u: int, start: string, r: Record)
    requires IsValidDate(start) && ValidDate(ParseDate(start)) && ValidDate(r.createdAt.date)
    ensures var s := ParseDate(start);
      r in MeWeek(records, u, Some(start)).value <==>
        r in records && r.userId == u && Located(r) && exists k :: 0 <= k <= 6 && r.createdAt.date == AddDays(s, k)
  {
    var s, d := ParseDate(start), r.createdAt.date;
    DaysThrough(s, 6);
    assert DateLe(s, d) && DateLe(d, AddDays(s, 6)) <==> exists k :: 0 <= k <= 6 && d == AddDays(s, k);
    assert MeWeek(records, u, Some(start)).Ok?;
  }

  // ------------------------------------------------------------------
  // GET /place-click
  // ------------------------------------------------------------------

  /** The optional `from` / `to` bounds, inclusive, on `DATE(r.created_at)`. */
  datatype Bounds = Bounds(from: Option<Date>, to: Option<Date>)

  predicate InDates(g: Bounds, d: Date) {
    (g.from.Some? ==> DateLe(g.from.value, d)) && (g.to.Some? ==> DateLe(d, g.to.value))
  }

  /** The query of GET /place-click. */
  datatype PlaceQuery = PlaceQuery(lat: Num, lng: Num, from: Option<string>, to: Option<string>, selfDecimals: Option<string>)

  /** A row of `others`: the record, its author's name and image, the distance. */
  datatype OtherRow = OtherRow(record: Record, user: User, distanceKm: real)

  /** The body of GET /place-click. */
  datatype PlaceView = PlaceView(centerLat: real, centerLng: real, my: seq<Record>, others: seq<OtherRow>)

  /** The date bounds `dateWhere` collects: a bound for each `from` / `to` given. */
  function DateBounds(from: Option<string>, to: Option<string>): (g: Bounds)
    requires Truthy(from) ==> IsValidDate(from.value)
    requires Truthy(to) ==> IsValidDate(to.value)
    ensures g.from.Some? <==> Truthy(from)
    ensures g.to.Some? <==> Truthy(to)
    ensures Truthy(from) ==> g.from.value == ParseDate(from.value)
    ensures Truthy(to) ==> g.to.value == ParseDate(to.value)
  {
    Bounds(if Truthy(from) then Some(ParseDate(from.value)) else None,
          if Truthy(to) then Some(ParseDate(to.value)) else None)
  }

  /** The `my` query: the requester's located records whose coordinates round
      to the clicked ones at `k` decimals, within the dates. */
  predicate Mine(me: int, lat: real, lng: real, k: int, g: Bounds, round: (real, int) -> real, r: Record) {
    r.userId == me && Located(r)
    && round(r.latitude.value, k) == round(lat, k) && round(r.longitude.value, k) == round(lng, k)
    && InDates(g, r.createdAt.date)
  }

  /** The `others` query: other users' located public records within the
      dates, joined to their author, whose distance (not NULL) is at most 0.5 km. */
  predicate Nearby(users: map<int, User>, me: int, lat: real, lng: real, g: Bounds,
                   distance: (real, real, real, real) -> Option<real>, r: Record)
  {
    r.userId != me && IsPublic(r) && Located(r) && InDates(g, r.createdAt.date) && r.userId in users
    && var d := distance(lat, lng, r.latitude.value, r.longitude.value); d.Some? && d.value <= 0.5
  }

  function MineFor(me: int, lat: real, lng: real, k: int, g: Bounds, round: (real, int) -> real): Record -> bool {
    (r: Record) => Mine(me, lat, lng, k, g, round, r)
  }

  function NearbyFor(users: map<int, User>, me: int, lat: real, lng: real, g: Bounds,
                     distance: (real, real, real, real) -> Option<real>): Record -> bool
  {
    (r: Record) => Nearby(users, me, lat, lng, g, distance, r)
  }

  /** The row `others` carries for a record that passed the query. */
  function OtherOf(users: map<int, User>, lat: real, lng: real, distance: (real, real, real, real) -> Option<real>, r: Record): OtherRow {
    var d := if Located(r) then distance(lat, lng, r.latitude.value, r.longitude.value) else None;
    OtherRow(r, if r.userId in users then users[r.userId] else User(None, None), if d.Some? then d.value else 0.0)
  }

  /** The records the `others` query selects, newest first. */
  function NearbyRecords(records: seq<Record>, users: map<int, User>, me: int, lat: real, lng: real, g: Bounds,
                         distance: (real, real, real, real) -> Option<real>): (rs: seq<Record>)
    ensures forall r :: r in rs <==> r in records && Nearby(users, me, lat, lng, g, distance, r)
    ensures multiset(rs) == multiset(Filter(records, NearbyFor(users, me, lat, lng, g, distance)))
    ensures SortedBy(rs, NewerFirst)
  {
    var p := NearbyFor(users, me, lat, lng, g, distance);
    NewerFirstTotalPreorder();
    SortByIsSorted(Filter(records, p), NewerFirst);
    SortBy(Filter(records, p), NewerFirst)
  }

  /** The rows of `others`: each selected record with its author and distance, in the same order. */
  function Others(records: seq<Record>, users: map<int, User>, me: int, lat: real, lng: real, g: Bounds,
                  distance: (real, real, real, real) -> Option<real>): (os: seq<OtherRow>)
    ensures var rs := NearbyRecords(records, users, me, lat, lng, g, distance);
      |os| == |rs| && forall i :: 0 <= i < |rs| ==> os[i] == OtherOf(users, lat, lng, distance, rs[i])
  {
    Map(NearbyRecords(records, users, me, lat, lng, g, distance), (r: Record) => OtherOf(users, lat, lng, distance, r))
  }

  /** `others` lists exactly the selected records, each with its author's
      profile and its distance, newest first. */
  lemma OthersRows(records: seq<Record>, users: map<int, User>, me: int, lat: real, lng: real, g: Bounds,
                   distance: (real, real, real, real) -> Option<real>)
    ensures var os := Others(records, users, me, lat, lng, g, distance);
      (forall o :: o in os ==>
         o.record in records && Nearby(users, me, lat, lng, g, distance, o.record)
         && o.user == users[o.record.userId]
         && Some(o.distanceKm) == distance(lat, lng, o.record.latitude.value, o.record.longitude.value))
      && (forall r :: r in records && Nearby(users, me, lat, lng, g, distance, r) ==>
            exists i :: 0 <= i < |os| && os[i].record == r)
      && forall i, j :: 0 <= i < j < |os| ==> InstantLe(os[j].record.createdAt, os[i].record.createdAt)
  {
    OthersSound(records, users, me, lat, lng, g, distance);
    OthersComplete(records, users, me, lat, lng, g, distance);
    OthersNewestFirst(records, users, me, lat, lng, g, distance);
  }

  lemma OthersSound(records: seq<Record>, users: map<int, User>, me: int, lat: real, lng: real, g: Bounds,
                    distance: (real, real, real, real) -> Option<real>)
    ensures forall o :: o in Others(records, users, me, lat, lng, g, distance) ==>
      o.record in records && Nearby(users, me, lat, lng, g, distance, o.record)
      && o.user == users[o.record.userId]
      && Some(o.distanceKm) == distance(lat, lng, o.record.latitude.value, o.record.longitude.value)
  {
    var rs := NearbyRecords(records, users, me, lat, lng, g, distance);
    var os := Others(records, users, me, lat, lng, g, distance);
    forall o | o in os
      ensures o.record in records && Nearby(users, me, lat, lng, g, distance, o.record)
      ensures o.user == users[o.record.userId]
      ensures Some(o.distanceKm) == distance(lat, lng, o.record.latitude.value, o.record.longitude.value)
    {
      var i :| 0 <= i < |os| && os[i] == o;
      assert o.record == rs[i] && rs[i] in rs;
    }
  }

  lemma OthersComplete(records: seq<Record>, users: map<int, User>, me: int, lat: real, lng: real, g: Bounds,
                       distance: (real, real, real, real) -> Option<real>)
    ensures var os := Others(records, users, me, lat, lng, g, distance);
      forall r :: r in records && Nearby(users, me, lat, lng, g, distance, r) ==>
        exists i :: 0 <= i < |os| && os[i].record == r
  {
    var rs := NearbyRecords(records, users, me, lat, lng, g, distance);
    var os := Others(records, users, me, lat, lng, g, distance);
    forall r | r in records && Nearby(users, me, lat, lng, g, distance, r)
      ensures exists i :: 0 <= i < |os| && os[i].record == r
    {
      var i :| 0 <= i < |rs| && rs[i] == r;
      assert os[i].record == r;
    }
  }

  lemma OthersNewestFirst(records: seq<Record>, users: map<int, User>, me: int, lat: real, lng: real, g: Bounds,
                          distance: (real, real, real, real) -> Option<real>)
    ensures var os := Others(records, users, me, lat, lng, g, distance);
      forall i, j :: 0 <= i < j < |os| ==> InstantLe(os[j].record.createdAt, os[i].record.createdAt)
  {
    var rs := NearbyRecords(records, users, me, lat, lng, g, distance);
    var os := Others(records, users, me, lat, lng, g, distance);
    forall i, j | 0 <= i < j < |os| ensures InstantLe(os[j].record.createdAt, os[i].record.createdAt) {
      assert os[i].record == rs[i] && os[j].record == rs[j];
      assert NewerFirst(rs[i], rs[j]);
    }
  }

  /** GET /place-click: 400 for an invalid position, then for a `from`, then
      for a `to` that is given without the date form; otherwise the clicked
      point, the requester's records at that spot (public or not) and the
      other users' public records within 500 m, each list newest first. */
  function PlaceClick(records: seq<Record>, users: map<int, User>, me: int, q: PlaceQuery,
                      round: (real, int) -> real, distance: (real, real, real, real) -> Option<real>)
    : (res: Result<PlaceView>)
    ensures res.Err? ==> res.status == 400
    ensures res.Err? <==>
      !AssertLatLng(q.lat, q.lng)
      || (Truthy(q.from) && !IsValidDate(q.from.value))
      || (Truthy(q.to) && !IsValidDate(q.to.value))
    ensures res.Ok? ==>
      var g := DateBounds(q.from, q.to);
      var k := SelfDecimals(q.selfDecimals);
      res.value.centerLat == q.lat.v && res.value.centerLng == q.lng.v
      && (forall r :: r in res.value.my <==> r in records && Mine(me, q.lat.v, q.lng.v, k, g, round, r))
      && multiset(res.value.my) == multiset(Filter(records, MineFor(me, q.lat.v, q.lng.v, k, g, round)))
      && SortedBy(res.value.my, NewerFirst)
      && res.value.others == Others(records, users, me, q.lat.v, q.lng.v, g, distance)
  {
    if !AssertLatLng(q.lat, q.lng) then Err(400)
    else if Truthy(q.from) && !IsValidDate(q.from.value) then Err(400)
    else if Truthy(q.to) && !IsValidDate(q.to.value) then Err(400)
    else
      var k := SelfDecimals(q.selfDecimals);
      var g := DateBounds(q.from, q.to);
      var p := MineFor(me, q.lat.v, q.lng.v, k, g, round);
      NewerFirstTotalPreorder();
      SortByIsSorted(Filter(records, p), NewerFirst);
      Ok(PlaceView(q.lat.v, q.lng.v, SortBy(Filter(records, p), NewerFirst),
                   Others(records, users, me, q.lat.v, q.lng.v, g, distance)))
  }

  /** `my` holds only the requester's records and `others` only other users'
      public ones, so no record is listed twice. */
  lemma PlaceListsDisjoint(records: seq<Record>, users: map<int, User>, me: int, q: PlaceQuery,
                           round: (real, int) -> real, distance: (real, real, real, real) -> Option<real>)
    requires PlaceClick(records, users, me, q, round, distance).Ok?
    ensures var v := PlaceClick(records, users, me, q, round, distance).value;
      (forall r :: r in v.my ==> r.userId == me)
      && (forall o :: o in v.others ==> o.record.userId != me && IsPublic(o.record))
      && forall o :: o in v.others ==> o.record !in v.my
  {
    var v := PlaceClick(records, users, me, q, round, distance).value;
    OthersRows(records, users, me, q.lat.v, q.lng.v, DateBounds(q.from, q.to), distance);
    forall o | o in v.others ensures o.record.userId != me && IsPublic(o.record) && o.record !in v.my {
    }
  }

  /** Without `from` and `to`, every located record of the requester at the
      spot is listed, whatever its date and visibility. */
  lemma PlaceClickUndated(records: seq<Record>, users: map<int, User>, me: int, q: PlaceQuery,
                          round: (real, int) -> real, distance: (real, real, real, real) -> Option<real>, r: Record)
    requires AssertLatLng(q.lat, q.lng) && !Truthy(q.from) && !Truthy(q.to)
    requires r in records && r.userId == me && Located(r)
    requires var k := SelfDecimals(q.selfDecimals);
      round(r.latitude.value, k) == round(q.lat.v, k) && round(r.longitude.value, k) == round(q.lng.v, k)
    ensures r in PlaceClick(records, users, me, q, round, distance).value.my
  {
  }
}

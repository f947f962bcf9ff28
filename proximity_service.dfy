/**
 * The Bluetooth proximity service: the users whose advertised token hash the
 * requester's phone has seen in the last few minutes, who have consented,
 * and whose today's position lies within the radius, nearest first and with
 * names masked; and the upload of scan results. The great-circle distance is
 * a parameter (`Some(km)`, or none where SQL's `ACOS` gives NULL).
 */
module ProximityService {
  import opened Wrappers
  import opened Js
  import opened Seqs
  import opened Dates
  import opened Tables
  import opened PrivacyGuard
  import opened TokenService

  // ------------------------------------------------------------------
  // Parameter clamps
  // ------------------------------------------------------------------

  predicate Between(n: Num, lo: real, hi: real) {
    n.Finite? && lo <= n.v <= hi
  }

  /** `Math.max(1, Math.min(windowMin, 5))` as written: NaN goes through. */
  function ClampWindowAsWritten(w: Num): (r: Num)
    ensures w.NaN? ==> r.NaN?
    ensures !w.NaN? ==> Between(r, 1.0, 5.0)
  {
    Max(Finite(1.0), Min(w, Finite(5.0)))
  }

  /** `Math.min(Math.max(1, limit), 7)` as written: NaN goes through. */
  function ClampLimitAsWritten(l: Num): (r: Num)
    ensures l.NaN? ==> r.NaN?
    ensures !l.NaN? ==> Between(r, 1.0, 7.0)
  {
    Min(Max(Finite(1.0), l), Finite(7.0))
  }

  /** `Math.max(0.1, Math.min(radiusKm, 5))` as written: NaN goes through. */
  function ClampRadiusAsWritten(r: Num): (c: Num)
    ensures r.NaN? ==> c.NaN?
    ensures !r.NaN? ==> Between(c, 0.1, 5.0)
  {
    Max(Finite(0.1), Min(r, Finite(5.0)))
  }

  /** A query such as `limit=abc` reaches the service as NaN and leaves the clamps as NaN. */
  lemma NaNEscapesClamps()
    ensures ClampWindowAsWritten(NaN).NaN? && ClampLimitAsWritten(NaN).NaN? && ClampRadiusAsWritten(NaN).NaN?
  {
  }

  /** The window as intended: always within 1 .. 5 minutes, NaN taken as the default 5. */
  function ClampWindow(w: Num): (r: Num)
    ensures Between(r, 1.0, 5.0)
    ensures !w.NaN? ==> r == ClampWindowAsWritten(w)
  {
    if w.NaN? then Finite(5.0) else ClampWindowAsWritten(w)
  }

  /** The limit as intended: always within 1 .. 7, NaN taken as the default 7. */
  function ClampLimit(l: Num): (r: Num)
    ensures Between(r, 1.0, 7.0)
    ensures !l.NaN? ==> r == ClampLimitAsWritten(l)
  {
    if l.NaN? then Finite(7.0) else ClampLimitAsWritten(l)
  }

  /** The radius as intended: always within 0.1 .. 5 km, NaN taken as the default 0.5. */
  function ClampRadius(r: Num): (c: Num)
    ensures Between(c, 0.1, 5.0)
    ensures !r.NaN? ==> c == ClampRadiusAsWritten(r)
  {
    if r.NaN? then Finite(0.5) else ClampRadiusAsWritten(r)
  }

  // ------------------------------------------------------------------
  // getNearbyByBle
  // ------------------------------------------------------------------

  /** The tables the nearby query joins. */
  datatype BleTables = BleTables(
    users: map<int, User>,
    settings: map<int, BleSetting>,
    snapshots: map<int, Snapshot>,
    tokens: seq<DeviceToken>,
    observations: seq<Observation>)

  /** `origin`: the two values of `origin.lat` and `origin.lng`. */
  datatype Origin = Origin(lat: Value, lng: Value)

  /** The options of `getNearbyByBle`. */
  datatype NearbyQuery = NearbyQuery(windowMin: Num, limit: Num, mask: Option<bool>, origin: Option<Origin>, radiusKm: Num)

  /** One returned row, apart from the name. */
  datatype NearbyInfo = NearbyInfo(
    userId: int,
    img: Option<string>,
    emotion: Option<string>,
    expression: Option<string>,
    updatedAt: Instant,
    latitude: real,
    longitude: real,
    distanceKm: real)

  /** The whole number of minutes MySQL takes from a decimal `INTERVAL ? MINUTE`
      amount: the amount rounded to the nearest integer, halves away from zero. */
  function IntervalMinutes(w: real): (m: int)
    ensures w >= 0.0 ==> m as real - 0.5 <= w < m as real + 0.5
    ensures w < 0.0 ==> m as real - 0.5 < w <= m as real + 0.5
  {
    if w >= 0.0 then (w + 0.5).Floor else -((-w + 0.5).Floor)
  }

  /** A window of 2.5 minutes looks back 3 minutes, one of 1.2 minutes 1 minute. */
  lemma IntervalMinutesExamples()
    ensures IntervalMinutes(2.5) == 3 && IntervalMinutes(1.2) == 1 && IntervalMinutes(5.0) == 5
  {
  }

  /** `reporter_id=? AND seen_at >= DATE_SUB(NOW(), INTERVAL ? MINUTE)`, the
      amount rounded to whole minutes. */
  predicate InWindow(o: Observation, me: int, w: real, now: Instant) {
    o.reporterId == me && ValidInstant(o.seenAt) && ValidInstant(now)
    && Seconds(o.seenAt) >= Seconds(now) - 60 * IntervalMinutes(w)
  }

  function InWindowOf(me: int, w: real, now: Instant): Observation -> bool {
    (o: Observation) => InWindow(o, me, w, now)
  }

  function HashOf(o: Observation): string { o.observedHash }

  /** `SELECT observed_hash ... GROUP BY observed_hash`: each hash the requester saw in the window, once. */
  function ObservedHashes(obs: seq<Observation>, me: int, w: real, now: Instant): (hs: seq<string>)
    ensures forall h :: h in hs <==> exists o :: o in obs && InWindow(o, me, w, now) && o.observedHash == h
    ensures Distinct(hs)
  {
    var seen := Filter(obs, InWindowOf(me, w, now));
    var hs := Map(seen, HashOf);
    assert forall h :: h in hs ==> exists o :: o in seen && o.observedHash == h by {
      forall h | h in hs ensures exists o :: o in seen && o.observedHash == h {
        var k :| 0 <= k < |hs| && hs[k] == h;
        assert seen[k] in seen;
      }
    }
    assert forall o :: o in seen ==> o.observedHash in hs by {
      forall o | o in seen ensures o.observedHash in hs {
        var k :| 0 <= k < |seen| && seen[k] == o;
        assert hs[k] == o.observedHash;
      }
    }
    Dedup(hs)
  }

  /** `token_hash IN (?) AND active=1 AND expires_at>NOW()`. */
  predicate TokenLive(t: DeviceToken, hs: seq<string>, now: Instant) {
    t.tokenHash in hs && t.active && InstantLt(now, t.expiresAt)
  }

  function TokenLiveFor(hs: seq<string>, now: Instant): DeviceToken -> bool {
    (t: DeviceToken) => TokenLive(t, hs, now)
  }

  /** `HAVING distance_km <= ?`: a NULL distance is never within. */
  predicate Within(d: Option<real>, radius: real) {
    d.Some? && d.value <= radius
  }

  /** A row of the third query: a live observed token of another user who
      exists, has consent on, and has a today's position within the radius. */
  predicate Eligible(tb: BleTables, me: int, hs: seq<string>, now: Instant, lat: Num, lng: Num, radius: real,
                     distance: (Num, Num, real, real) -> Option<real>, t: DeviceToken) {
    var u := t.userId;
    TokenLive(t, hs, now) && u != me && u in tb.users
    && u in tb.settings && tb.settings[u].enabled == 1
    && u in tb.snapshots && tb.snapshots[u].latitude.Some? && tb.snapshots[u].longitude.Some?
    && Within(distance(lat, lng, tb.snapshots[u].latitude.value, tb.snapshots[u].longitude.value), radius)
  }

  function EligibleFor(tb: BleTables, me: int, hs: seq<string>, now: Instant, lat: Num, lng: Num, radius: real,
                       distance: (Num, Num, real, real) -> Option<real>): DeviceToken -> bool {
    (t: DeviceToken) => Eligible(tb, me, hs, now, lat, lng, radius, distance, t)
  }

  /** The selected columns of an eligible user's row (total; the filter makes the defaults unreachable). */
  function RowOf(tb: BleTables, lat: Num, lng: Num, distance: (Num, Num, real, real) -> Option<real>, t: DeviceToken)
    : Named<NearbyInfo>
  {
    var u := t.userId;
    var user := if u in tb.users then tb.users[u] else User(None, None);
    if u in tb.snapshots && tb.snapshots[u].latitude.Some? && tb.snapshots[u].longitude.Some? then
      var s := tb.snapshots[u];
      var d := distance(lat, lng, s.latitude.value, s.longitude.value);
      Named(user.name, NearbyInfo(u, user.img, s.emotion, s.expression, s.updatedAt,
                                  s.latitude.value, s.longitude.value, if d.Some? then d.value else 0.0))
    else Named(user.name, NearbyInfo(u, user.img, None, None, Instant(Date(0, 1, 1), 0), 0.0, 0.0, 0.0))
  }

  function RowOfFor(tb: BleTables, lat: Num, lng: Num, distance: (Num, Num, real, real) -> Option<real>)
    : DeviceToken -> Named<NearbyInfo>
  {
    (t: DeviceToken) => RowOf(tb, lat, lng, distance, t)
  }

  /** `ORDER BY distance_km ASC, te.updated_at DESC`. */
  predicate NearerFirst(a: Named<NearbyInfo>, b: Named<NearbyInfo>) {
    a.rest.distanceKm < b.rest.distanceKm
    || (a.rest.distanceKm == b.rest.distanceKm && InstantLe(b.rest.updatedAt, a.rest.updatedAt))
  }

  lemma NearerFirstTotalPreorder()
    ensures TotalPreorder(NearerFirst)
  {
  }

  /** Both origin coordinates are numbers other than NaN and the infinities:
      mysql2 writes the others as the bare words `NaN` and `Infinity`, which
      MySQL refuses. */
  predicate FiniteOrigin(q: NearbyQuery) {
    q.origin.Some? && q.origin.value.lat.Number? && q.origin.value.lng.Number?
    && q.origin.value.lat.n.Finite? && q.origin.value.lng.n.Finite?
  }

  predicate IsInteger(x: real) {
    x.Floor as real == x
  }

  function MaskWith(mask: Option<bool>): Named<NearbyInfo> -> Named<NearbyInfo> {
    (p: Named<NearbyInfo>) => Apply(p, mask)
  }

  /** The rows of the third query, nearest first, before `LIMIT`. */
  function Candidates(tb: BleTables, me: int, hs: seq<string>, now: Instant, lat: Num, lng: Num, radius: real,
                      distance: (Num, Num, real, real) -> Option<real>): (rows: seq<Named<NearbyInfo>>)
    ensures SortedBy(rows, NearerFirst)
    ensures forall p :: p in rows ==> exists t :: t in tb.tokens && Eligible(tb, me, hs, now, lat, lng, radius, distance, t)
                                          && p == RowOf(tb, lat, lng, distance, t)
    ensures multiset(rows) ==
            multiset(Map(Filter(tb.tokens, EligibleFor(tb, me, hs, now, lat, lng, radius, distance)),
                         RowOfFor(tb, lat, lng, distance)))
  {
    var ts := Filter(tb.tokens, EligibleFor(tb, me, hs, now, lat, lng, radius, distance));
    var rows := Map(ts, RowOfFor(tb, lat, lng, distance));
    assert forall p :: p in rows ==> exists t :: t in ts && p == RowOf(tb, lat, lng, distance, t) by {
      forall p | p in rows ensures exists t :: t in ts && p == RowOf(tb, lat, lng, distance, t) {
        var k :| 0 <= k < |rows| && rows[k] == p;
        assert ts[k] in ts;
      }
    }
    NearerFirstTotalPreorder();
    SortByIsSorted(rows, NearerFirst);
    SortBy(rows, NearerFirst)
  }

  /** `getNearbyByBle(userId, options)` as written. A missing origin, or a
      coordinate that is not a number, throws (500). A window that is NaN
      after the clamp reaches the first query as `INTERVAL NaN MINUTE`, which
      MySQL refuses (500). No hash seen in the window, or no live token among
      them, gives no rows. Past those returns an origin coordinate that is NaN
      or infinite, a radius or limit that is NaN, or a limit that is not a
      whole number, makes the third query fail (500); otherwise at most
      `limit` of the nearest eligible users, names masked unless `mask` is
      false. */
  function GetNearbyByBle(tb: BleTables, me: int, q: NearbyQuery, now: Instant,
                          distance: (Num, Num, real, real) -> Option<real>)
    : (res: Result<seq<Named<NearbyInfo>>>)
    ensures q.origin.None? || !q.origin.value.lat.Number? || !q.origin.value.lng.Number? ==> res == Err(500)
    ensures res.Err? ==> res.status == 500
    ensures q.windowMin.NaN? ==> res == Err(500)
    ensures res.Ok? && res.value != [] ==> !q.limit.NaN? && !q.radiusKm.NaN? && FiniteOrigin(q)
    ensures !q.windowMin.NaN? && !q.limit.NaN? && !q.radiusKm.NaN? ==>
              res == GetNearbyByBleIntended(tb, me, q, now, distance)
  {
    var w := ClampWindowAsWritten(q.windowMin);
    var limit := ClampLimitAsWritten(q.limit);
    var radius := ClampRadiusAsWritten(q.radiusKm);
    if q.origin.None? || !q.origin.value.lat.Number? || !q.origin.value.lng.Number? then Err(500)
    else if w.NaN? then Err(500)
    else
      var lat, lng := q.origin.value.lat.n, q.origin.value.lng.n;
      var hs := ObservedHashes(tb.observations, me, w.v, now);
      if hs == [] then Ok([])
      else if Filter(tb.tokens, TokenLiveFor(hs, now)) == [] then Ok([])
      else if !lat.Finite? || !lng.Finite? || radius.NaN? || limit.NaN? || !IsInteger(limit.v) then Err(500)
      else
        var rows := Candidates(tb, me, hs, now, lat, lng, radius.v, distance);
        var n := limit.v.Floor;
        Ok(Map(rows[..if n < |rows| then n else |rows|], MaskWith(q.mask)))
  }

  /** A non-number in a clamped parameter fails the call only once the query
      that carries it runs: a NaN limit or radius with no hash seen still
      answers no rows. */
  lemma NaNUnreached(tb: BleTables, me: int, q: NearbyQuery, now: Instant,
                       distance: (Num, Num, real, real) -> Option<real>)
    requires q.origin.Some? && q.origin.value.lat.Number? && q.origin.value.lng.Number?
    requires !q.windowMin.NaN? && ObservedHashes(tb.observations, me, ClampWindow(q.windowMin).v, now) == []
    ensures GetNearbyByBle(tb, me, q, now, distance) == Ok([])
  {
  }

  /** With a hash seen and a live token among them, a NaN limit or radius fails the call. */
  lemma NaNReached(tb: BleTables, me: int, q: NearbyQuery, now: Instant,
                      distance: (Num, Num, real, real) -> Option<real>)
    requires q.origin.Some? && q.origin.value.lat.Number? && q.origin.value.lng.Number? && !q.windowMin.NaN?
    requires var hs := ObservedHashes(tb.observations, me, ClampWindow(q.windowMin).v, now);
      hs != [] && Filter(tb.tokens, TokenLiveFor(hs, now)) != []
    requires q.limit.NaN? || q.radiusKm.NaN?
    ensures GetNearbyByBle(tb, me, q, now, distance) == Err(500)
  {
  }

  /** With a hash seen and a live token among them, an origin coordinate that
      is NaN or infinite fails the call, with the written clamps and with the
      intended ones. */
  lemma NonFiniteOriginReached(tb: BleTables, me: int, q: NearbyQuery, now: Instant,
                               distance: (Num, Num, real, real) -> Option<real>)
    requires q.origin.Some? && q.origin.value.lat.Number? && q.origin.value.lng.Number? && !FiniteOrigin(q)
    requires var hs := ObservedHashes(tb.observations, me, ClampWindow(q.windowMin).v, now);
      hs != [] && Filter(tb.tokens, TokenLiveFor(hs, now)) != []
    ensures GetNearbyByBle(tb, me, q, now, distance) == Err(500)
    ensures GetNearbyByBleIntended(tb, me, q, now, distance) == Err(500)
  {
  }

  /** The call with the intended clamps: a non-number window, limit or radius
      takes its default, so only a bad origin (missing, not a number, or, once
      the third query runs, NaN or infinite) or a limit that is not a whole
      number fails. */
  function GetNearbyByBleIntended(tb: BleTables, me: int, q: NearbyQuery, now: Instant,
                                  distance: (Num, Num, real, real) -> Option<real>)
    : (res: Result<seq<Named<NearbyInfo>>>)
    ensures q.origin.None? || !q.origin.value.lat.Number? || !q.origin.value.lng.Number? ==> res == Err(500)
    ensures res.Err? ==> res.status == 500
    ensures res.Err? ==> q.origin.None? || !q.origin.value.lat.Number? || !q.origin.value.lng.Number?
                         || !FiniteOrigin(q) || !IsInteger(ClampLimit(q.limit).v)
    ensures res.Ok? && res.value != [] ==> FiniteOrigin(q)
  {
    var w := ClampWindow(q.windowMin).v;
    var limit := ClampLimit(q.limit).v;
    var radius := ClampRadius(q.radiusKm).v;
    if q.origin.None? || !q.origin.value.lat.Number? || !q.origin.value.lng.Number? then Err(500)
    else
      var lat, lng := q.origin.value.lat.n, q.origin.value.lng.n;
      var hs := ObservedHashes(tb.observations, me, w, now);
      if hs == [] then Ok([])
      else if Filter(tb.tokens, TokenLiveFor(hs, now)) == [] then Ok([])
      else if !lat.Finite? || !lng.Finite? || !IsInteger(limit) then Err(500)
      else
        var rows := Candidates(tb, me, hs, now, lat, lng, radius, distance);
        var n := limit.Floor;
        Ok(Map(rows[..if n < |rows| then n else |rows|], MaskWith(q.mask)))
  }

  /** Masking leaves the order alone. */
  lemma MaskKeepsOrder(rows: seq<Named<NearbyInfo>>, mask: Option<bool>)
    requires SortedBy(rows, NearerFirst)
    ensures SortedBy(Map(rows, MaskWith(mask)), NearerFirst)
  {
    var m := Map(rows, MaskWith(mask));
    forall i, j | 0 <= i < j < |m| ensures NearerFirst(m[i], m[j]) {
      assert m[i].rest == rows[i].rest && m[j].rest == rows[j].rest;
    }
  }

  /** The rows of a successful call are at most `limit`, nearest first. */
  lemma NearbyBounded(tb: BleTables, me: int, q: NearbyQuery, now: Instant,
                      distance: (Num, Num, real, real) -> Option<real>)
    requires GetNearbyByBle(tb, me, q, now, distance).Ok?
    ensures var rows := GetNearbyByBle(tb, me, q, now, distance).value;
      (|rows| as real) <= ClampLimit(q.limit).v && SortedBy(rows, NearerFirst)
  {
    var res := GetNearbyByBle(tb, me, q, now, distance);
    if res.value != [] {
      assert res == GetNearbyByBleIntended(tb, me, q, now, distance);
      IntendedBounded(tb, me, q, now, distance);
    }
  }

  /** The same bound for the call with the intended clamps. */
  lemma IntendedBounded(tb: BleTables, me: int, q: NearbyQuery, now: Instant,
                        distance: (Num, Num, real, real) -> Option<real>)
    requires GetNearbyByBleIntended(tb, me, q, now, distance).Ok?
    ensures var rows := GetNearbyByBleIntended(tb, me, q, now, distance).value;
      (|rows| as real) <= ClampLimit(q.limit).v && SortedBy(rows, NearerFirst)
  {
    var w := ClampWindow(q.windowMin).v;
    var limit := ClampLimit(q.limit).v;
    var lat, lng := q.origin.value.lat.n, q.origin.value.lng.n;
    var hs := ObservedHashes(tb.observations, me, w, now);
    if hs != [] && Filter(tb.tokens, TokenLiveFor(hs, now)) != [] {
      var rows := Candidates(tb, me, hs, now, lat, lng, ClampRadius(q.radiusKm).v, distance);
      var n := limit.Floor;
      var top := rows[..if n < |rows| then n else |rows|];
      assert SortedBy(top, NearerFirst);
      MaskKeepsOrder(top, q.mask);
    }
  }

  /** A successful call with rows returns the first `limit` candidates, masked. */
  lemma NearbyValue(tb: BleTables, me: int, q: NearbyQuery, now: Instant,
                    distance: (Num, Num, real, real) -> Option<real>)
    requires GetNearbyByBle(tb, me, q, now, distance).Ok?
    requires GetNearbyByBle(tb, me, q, now, distance).value != []
    ensures var hs := ObservedHashes(tb.observations, me, ClampWindow(q.windowMin).v, now);
      var rows := Candidates(tb, me, hs, now, q.origin.value.lat.n, q.origin.value.lng.n, ClampRadius(q.radiusKm).v, distance);
      var n := ClampLimit(q.limit).v.Floor;
      GetNearbyByBle(tb, me, q, now, distance).value == Map(rows[..if n < |rows| then n else |rows|], MaskWith(q.mask))
  {
  }

  /** Each row of a successful call is an eligible user (a live token seen in
      the window, not the requester, consent on, within the radius), shown with
      its name masked unless `mask` is false. */
  lemma NearbyEligible(tb: BleTables, me: int, q: NearbyQuery, now: Instant,
                       distance: (Num, Num, real, real) -> Option<real>, p: Named<NearbyInfo>)
    requires GetNearbyByBle(tb, me, q, now, distance).Ok?
    requires p in GetNearbyByBle(tb, me, q, now, distance).value
    ensures var hs := ObservedHashes(tb.observations, me, ClampWindow(q.windowMin).v, now);
      var lat, lng := q.origin.value.lat.n, q.origin.value.lng.n;
      exists t :: t in tb.tokens && Eligible(tb, me, hs, now, lat, lng, ClampRadius(q.radiusKm).v, distance, t)
        && p.rest == RowOf(tb, lat, lng, distance, t).rest
        && p.name == (if q.mask == Some(false) then tb.users[t.userId].name else Some(MaskName(tb.users[t.userId].name)))
  {
    var radius := ClampRadius(q.radiusKm).v;
    var lat, lng := q.origin.value.lat.n, q.origin.value.lng.n;
    var hs := ObservedHashes(tb.observations, me, ClampWindow(q.windowMin).v, now);
    NearbyValue(tb, me, q, now, distance);
    var rows := Candidates(tb, me, hs, now, lat, lng, radius, distance);
    var n := ClampLimit(q.limit).v.Floor;
    var top := rows[..if n < |rows| then n else |rows|];
    MaskedSource(top, q.mask, p);
    var x :| x in top && p == Apply(x, q.mask);
    assert x in rows;
    var t :| t in tb.tokens && Eligible(tb, me, hs, now, lat, lng, radius, distance, t) && x == RowOf(tb, lat, lng, distance, t);
    RowName(tb, lat, lng, distance, t);
    var name := tb.users[t.userId].name;
    assert x.name == name;
    assert p.rest == x.rest;
    assert p.name == (if q.mask == Some(false) then name else Some(MaskName(name)));
  }

  lemma MaskedSource(rows: seq<Named<NearbyInfo>>, mask: Option<bool>, p: Named<NearbyInfo>)
    requires p in Map(rows, MaskWith(mask))
    ensures exists x :: x in rows && p == Apply(x, mask)
  {
    var m := Map(rows, MaskWith(mask));
    var k :| 0 <= k < |m| && m[k] == p;
    assert rows[k] in rows;
  }

  lemma RowName(tb: BleTables, lat: Num, lng: Num, distance: (Num, Num, real, real) -> Option<real>, t: DeviceToken)
    requires t.userId in tb.users
    ensures RowOf(tb, lat, lng, distance, t).name == tb.users[t.userId].name
  {
  }

  /** Every eligible user is a candidate. */
  lemma CandidatesComplete(tb: BleTables, me: int, hs: seq<string>, now: Instant, lat: Num, lng: Num, radius: real,
                           distance: (Num, Num, real, real) -> Option<real>, t: DeviceToken)
    requires t in tb.tokens && Eligible(tb, me, hs, now, lat, lng, radius, distance, t)
    ensures RowOf(tb, lat, lng, distance, t) in Candidates(tb, me, hs, now, lat, lng, radius, distance)
  {
    var ts := Filter(tb.tokens, EligibleFor(tb, me, hs, now, lat, lng, radius, distance));
    var rows := Map(ts, RowOfFor(tb, lat, lng, distance));
    assert t in ts;
    var k :| 0 <= k < |ts| && ts[k] == t;
    assert rows[k] == RowOf(tb, lat, lng, distance, t);
  }

  /** With a hash seen, a live token among them, and no more candidates than
      the limit, the call returns all the candidates, masked. */
  lemma NearbyAll(tb: BleTables, me: int, q: NearbyQuery, now: Instant, distance: (Num, Num, real, real) -> Option<real>)
    requires FiniteOrigin(q)
    requires IsInteger(ClampLimit(q.limit).v)
    requires var hs := ObservedHashes(tb.observations, me, ClampWindow(q.windowMin).v, now);
      hs != [] && Filter(tb.tokens, TokenLiveFor(hs, now)) != []
      && (|Candidates(tb, me, hs, now, q.origin.value.lat.n, q.origin.value.lng.n, ClampRadius(q.radiusKm).v, distance)| as real)
         <= ClampLimit(q.limit).v
    ensures var hs := ObservedHashes(tb.observations, me, ClampWindow(q.windowMin).v, now);
      GetNearbyByBleIntended(tb, me, q, now, distance)
      == Ok(Map(Candidates(tb, me, hs, now, q.origin.value.lat.n, q.origin.value.lng.n, ClampRadius(q.radiusKm).v, distance),
                MaskWith(q.mask)))
  {
    var hs := ObservedHashes(tb.observations, me, ClampWindow(q.windowMin).v, now);
    var rows := Candidates(tb, me, hs, now, q.origin.value.lat.n, q.origin.value.lng.n, ClampRadius(q.radiusKm).v, distance);
    NearbyTaken(tb, me, q, now, distance);
    WithinWholeLimit(ClampLimit(q.limit).v, |rows|);
    assert rows[..|rows|] == rows;
  }

  /** A count no larger than a whole-number limit is no larger than its floor. */
  lemma WithinWholeLimit(limit: real, k: nat)
    requires IsInteger(limit) && (k as real) <= limit
    ensures k <= limit.Floor
  {
  }

  /** Past the early returns, the call answers the masked first `limit` candidates. */
  lemma NearbyTaken(tb: BleTables, me: int, q: NearbyQuery, now: Instant, distance: (Num, Num, real, real) -> Option<real>)
    requires FiniteOrigin(q)
    requires IsInteger(ClampLimit(q.limit).v)
    requires var hs := ObservedHashes(tb.observations, me, ClampWindow(q.windowMin).v, now);
      hs != [] && Filter(tb.tokens, TokenLiveFor(hs, now)) != []
    ensures var hs := ObservedHashes(tb.observations, me, ClampWindow(q.windowMin).v, now);
      var rows := Candidates(tb, me, hs, now, q.origin.value.lat.n, q.origin.value.lng.n, ClampRadius(q.radiusKm).v, distance);
      var n := ClampLimit(q.limit).v.Floor;
      GetNearbyByBleIntended(tb, me, q, now, distance) == Ok(Map(rows[..if n < |rows| then n else |rows|], MaskWith(q.mask)))
  {
  }

  /** When no more users are eligible than the limit allows, every one of them is listed. */
  lemma NearbyComplete(tb: BleTables, me: int, q: NearbyQuery, now: Instant,
                       distance: (Num, Num, real, real) -> Option<real>, t: DeviceToken)
    requires FiniteOrigin(q)
    requires IsInteger(ClampLimit(q.limit).v)
    requires var hs := ObservedHashes(tb.observations, me, ClampWindow(q.windowMin).v, now);
      var lat, lng := q.origin.value.lat.n, q.origin.value.lng.n;
      t in tb.tokens && Eligible(tb, me, hs, now, lat, lng, ClampRadius(q.radiusKm).v, distance, t)
      && (|Candidates(tb, me, hs, now, lat, lng, ClampRadius(q.radiusKm).v, distance)| as real) <= ClampLimit(q.limit).v
    ensures GetNearbyByBleIntended(tb, me, q, now, distance).Ok?
    ensures Apply(RowOf(tb, q.origin.value.lat.n, q.origin.value.lng.n, distance, t), q.mask)
            in GetNearbyByBleIntended(tb, me, q, now, distance).value
  {
    var radius := ClampRadius(q.radiusKm).v;
    var lat, lng := q.origin.value.lat.n, q.origin.value.lng.n;
    var hs := ObservedHashes(tb.observations, me, ClampWindow(q.windowMin).v, now);
    assert hs != [] by {
      assert t.tokenHash in hs;
    }
    assert t in Filter(tb.tokens, TokenLiveFor(hs, now));
    CandidatesComplete(tb, me, hs, now, lat, lng, radius, distance, t);
    NearbyAll(tb, me, q, now, distance);
    MaskedMember(Candidates(tb, me, hs, now, lat, lng, radius, distance), q.mask, RowOf(tb, lat, lng, distance, t));
  }

  lemma MaskedMember(rows: seq<Named<NearbyInfo>>, mask: Option<bool>, x: Named<NearbyInfo>)
    requires x in rows
    ensures Apply(x, mask) in Map(rows, MaskWith(mask))
  {
    var k :| 0 <= k < |rows| && rows[k] == x;
    assert Map(rows, MaskWith(mask))[k] == Apply(x, mask);
  }

  /** When the requester saw no hash in the window, nobody is near. */
  lemma NothingSeen(tb: BleTables, me: int, q: NearbyQuery, now: Instant, distance: (Num, Num, real, real) -> Option<real>)
    requires q.origin.Some? && q.origin.value.lat.Number? && q.origin.value.lng.Number?
    requires forall o :: o in tb.observations ==> !InWindow(o, me, ClampWindow(q.windowMin).v, now)
    ensures GetNearbyByBleIntended(tb, me, q, now, distance) == Ok([])
  {
    var hs := ObservedHashes(tb.observations, me, ClampWindow(q.windowMin).v, now);
    assert forall h :: h !in hs;
  }

  /** The early return on "no live token" changes nothing: without a live token
      the third query has no rows either. */
  lemma NoLiveTokenNoCandidates(tb: BleTables, me: int, hs: seq<string>, now: Instant, lat: Num, lng: Num, radius: real,
                                distance: (Num, Num, real, real) -> Option<real>)
    requires Filter(tb.tokens, TokenLiveFor(hs, now)) == []
    ensures Candidates(tb, me, hs, now, lat, lng, radius, distance) == []
  {
    var eligible := EligibleFor(tb, me, hs, now, lat, lng, radius, distance);
    FilterFilter(tb.tokens, eligible, TokenLiveFor(hs, now));
    assert Filter(tb.tokens, eligible) == Filter([], eligible) == [];
  }

  // ------------------------------------------------------------------
  // ingestScanResults
  // ------------------------------------------------------------------

  /** One uploaded observation: its fields as present or absent. */
  datatype Scan = Scan(hash: Option<string>, rssi: Option<Num>, seenAt: Option<Instant>)

  /** `!obs || !obs.hash` skips the entry; `None` is a null entry. */
  predicate Keeps(item: Option<Scan>) {
    item.Some? && Truthy(item.value.hash)
  }

  /** The row kept for an entry: rssi 0 when absent, the upload time when the entry has none. */
  function RowFor(reporter: int, s: Scan, now: Instant): (o: Observation)
    requires Truthy(s.hash)
    ensures o.reporterId == reporter && o.observedHash == s.hash.value
    ensures o.rssi == (if s.rssi.Some? then s.rssi.value else Finite(0.0))
    ensures o.seenAt == (if s.seenAt.Some? then s.seenAt.value else now)
  {
    Observation(reporter, s.hash.value, if s.rssi.Some? then s.rssi.value else Finite(0.0),
                if s.seenAt.Some? then s.seenAt.value else now)
  }

  /** The `values` the loop collects from `items`. */
  function Kept(reporter: int, items: seq<Option<Scan>>, now: Instant): (rows: seq<Observation>)
    ensures |rows| <= |items|
    ensures forall o :: o in rows ==> o.reporterId == reporter && o.observedHash != ""
  {
    if items == [] then []
    else
      var last := items[|items| - 1];
      Kept(reporter, items[..|items| - 1], now) + (if Keeps(last) then [RowFor(reporter, last.value, now)] else [])
  }

  /** The number of entries the loop keeps. */
  function KeptCount(items: seq<Option<Scan>>): nat {
    if items == [] then 0 else KeptCount(items[..|items| - 1]) + if Keeps(items[|items| - 1]) then 1 else 0
  }

  /** One row per kept entry, every kept entry in order. */
  lemma {:induction false} KeptRows(reporter: int, items: seq<Option<Scan>>, now: Instant)
    ensures |Kept(reporter, items, now)| == KeptCount(items)
    ensures (forall i :: 0 <= i < |items| ==> !Keeps(items[i])) ==> Kept(reporter, items, now) == []
  {
    if items != [] {
      KeptRows(reporter, items[..|items| - 1], now);
    }
  }

  /** The rows MySQL accepts in `INSERT ... VALUES ?`: every rssi a finite
      number. mysql2 writes NaN and the infinities as the bare words `NaN` and
      `Infinity`, which MySQL refuses, and a refused statement stores no row. */
  predicate Insertable(rows: seq<Observation>) {
    forall o :: o in rows ==> o.rssi.Finite?
  }

  /** The insert succeeds exactly when no kept entry carries an rssi that is
      NaN or infinite; an absent rssi becomes 0 and never fails. */
  lemma {:induction false} KeptInsertable(reporter: int, items: seq<Option<Scan>>, now: Instant)
    ensures Insertable(Kept(reporter, items, now)) <==>
      forall i :: 0 <= i < |items| && Keeps(items[i]) && items[i].value.rssi.Some? ==> items[i].value.rssi.value.Finite?
  {
    if items != [] {
      var init := items[..|items| - 1];
      KeptInsertable(reporter, init, now);
      assert forall i :: 0 <= i < |init| ==> init[i] == items[i];
      var rows := Kept(reporter, items, now);
      var pre := Kept(reporter, init, now);
      assert rows == pre + (if Keeps(items[|items| - 1]) then [RowFor(reporter, items[|items| - 1].value, now)] else []);
      assert Insertable(rows) <==>
               (Insertable(pre) && (Keeps(items[|items| - 1]) ==> RowFor(reporter, items[|items| - 1].value, now).rssi.Finite?));
    }
  }

  /** `ingestScanResults(reporterId, observations)`: nothing for a non-array or
      empty upload; otherwise one `INSERT` of the kept rows, and none when no
      entry is kept. `ok` is false when MySQL refuses the insert (an rssi that
      is NaN or infinite): the call throws and stores nothing. `now` stands
      for `new Date()`. */
  method IngestScanResults(db: Database, reporter: int, upload: Option<seq<Option<Scan>>>, now: Instant)
    returns (ok: bool)
    modifies db`observations
    ensures ok <==> upload.None? || Insertable(Kept(reporter, upload.value, now))
    ensures db.observations == old(db.observations) + (if upload.Some? && ok then Kept(reporter, upload.value, now) else [])
  {
    if upload.None? || |upload.value| == 0 {
      return true;
    }
    var items := upload.value;
    var values: seq<Observation> := [];
    var i := 0;
    while i < |items|
      invariant 0 <= i <= |items|
      invariant values == Kept(reporter, items[..i], now)
    {
      assert items[..i + 1][..i] == items[..i];
      var obs := items[i];
      if obs.Some? && Truthy(obs.value.hash) {
        var rssi := if obs.value.rssi.Some? then obs.value.rssi.value else Finite(0.0);
        var seenAt := if obs.value.seenAt.Some? then obs.value.seenAt.value else now;
        values := values + [Observation(reporter, obs.value.hash.value, rssi, seenAt)];
      }
      i := i + 1;
    }
    assert items[..i] == items;
    if |values| == 0 {
      return true;
    }
    if !Insertable(values) {
      return false;
    }
    db.observations := db.observations + values;
    ok := true;
  }
}

/**
 * The `/bluetooth` routes: consent read and write, token rotation, scan
 * upload, the nearby list with the "same emotion as me" flag, and the
 * profile of a tapped person with today's latest public record. `today` is
 * `CURDATE()`, `now` is `NOW()`; query numbers arrive already passed
 * through `Number(...)`.
 *
 * The handlers are modelled as if the router were mounted, with the
 * requester's id `u` given. As written, the router binds the whole module
 * object of `middleware/auth` where a function is expected, so registering
 * its first route fails and it is never served; and the middleware it means
 * to use, unlike `Jwt.Authorize`, neither strips a `Bearer ` prefix nor
 * turns the `userId` claim into a number.
 */
module BluetoothRouter {
  import opened Wrappers
  import opened Js
  import opened Seqs
  import opened Dates
  import opened Tables
  import opened DailySummary
  import opened RecordRouter
  import opened PrivacyGuard
  import opened SettingsService
  import opened TokenService
  import opened ProximityService

  // ------------------------------------------------------------------
  // applyPrivacy
  // ------------------------------------------------------------------

  /** `applyPrivacy`: the guard's `apply` when it has one, else a step that
      passes the request on untouched. The router defines it but none of its
      handlers calls it; the nearby rows are masked inside the proximity
      service instead. */
  function PrivacyStep<R(!new)>(apply: Option<R -> R>): (f: R -> R)
    ensures apply.Some? ==> f == apply.value
    ensures apply.None? ==> forall x :: f(x) == x
  {
    if apply.Some? then apply.value else (x: R) => x
  }

  // ------------------------------------------------------------------
  // getMyTodayDominantEmotion
  // ------------------------------------------------------------------

  /** An emotion of largest count among `es` (the first such in `es`). */
  function MostFrequentOf(rs: seq<Record>, es: seq<Emotion>): (e: Emotion)
    requires es != []
    ensures e in es && forall x :: x in es ==> CountOf(rs, x) <= CountOf(rs, e)
  {
    if |es| == 1 then es[0]
    else
      var best := MostFrequentOf(rs, es[1..]);
      assert forall x :: x in es ==> x == es[0] || x in es[1..];
      if CountOf(rs, es[0]) >= CountOf(rs, best) then es[0] else best
  }

  /** `GROUP BY emotion_type ORDER BY c DESC LIMIT 1`: an emotion of largest count (any of tied ones). */
  function MostFrequent(rs: seq<Record>): (e: Emotion)
    ensures forall x :: CountOf(rs, x) <= CountOf(rs, e)
    ensures rs != [] ==> CountOf(rs, e) > 0
  {
    var e := MostFrequentOf(rs, Emotions);
    forall x ensures x in Emotions { EveryEmotionListed(x); }
    assert rs != [] ==> CountOf(rs, rs[0].emotion) > 0;
    e
  }

  /** `getMyTodayDominantEmotion(userId)`: the most frequent emotion of the
      user's records today; without any, the today snapshot's emotion when it
      is not empty; else none. */
  function DominantEmotion(records: seq<Record>, snaps: map<int, Snapshot>, u: int, today: Date): (m: Option<string>)
    ensures DayRecords(records, u, today) != [] ==>
      exists e :: m == Some(Name(e)) && forall x :: CountOf(DayRecords(records, u, today), x) <= CountOf(DayRecords(records, u, today), e)
    ensures DayRecords(records, u, today) == [] ==>
      m == if u in snaps && Truthy(snaps[u].emotion) then snaps[u].emotion else None
    ensures m.Some? ==> m.value != ""
  {
    var rs := DayRecords(records, u, today);
    if rs != [] then
      var e := MostFrequent(rs);
      assert Name(e) != "";
      Some(Name(e))
    else if u in snaps && Truthy(snaps[u].emotion) then snaps[u].emotion
    else None
  }

  /** A user who wrote today is never described by the snapshot, even when it disagrees. */
  lemma RecordsBeatSnapshot(records: seq<Record>, snaps: map<int, Snapshot>, u: int, today: Date, r: Record)
    requires r in records && r.userId == u && r.createdAt.date == today
    ensures DominantEmotion(records, snaps, u, today).Some?
    ensures exists e :: DominantEmotion(records, snaps, u, today) == Some(Name(e)) && CountOf(DayRecords(records, u, today), e) > 0
  {
    var rs := DayRecords(records, u, today);
    assert r in rs;
    var e := MostFrequent(rs);
    assert CountOf(rs, e) >= CountOf(rs, r.emotion);
    var k :| 0 <= k < |rs| && rs[k] == r;
    assert CountOf(rs, r.emotion) > 0;
  }

  // ------------------------------------------------------------------
  // GET /nearby
  // ------------------------------------------------------------------

  /** A nearby row with the flag the loop adds. */
  datatype Flagged = Flagged(row: Named<NearbyInfo>, sameEmotionWithMe: bool)

  /** `mine ? (row.emotion_type === mine) : false`. */
  predicate SameEmotion(mine: Option<string>, row: Named<NearbyInfo>) {
    Truthy(mine) && row.rest.emotion == mine
  }

  /** The flagging loop over the list. */
  method MarkSameEmotion(list: seq<Named<NearbyInfo>>, mine: Option<string>) returns (out: seq<Flagged>)
    ensures |out| == |list|
    ensures forall i :: 0 <= i < |list| ==> out[i].row == list[i]
    ensures forall i :: 0 <= i < |list| ==> (out[i].sameEmotionWithMe <==> Truthy(mine) && list[i].rest.emotion == mine)
  {
    out := [];
    var i := 0;
    while i < |list|
      invariant 0 <= i <= |list| && |out| == i
      invariant forall k :: 0 <= k < i ==> out[k] == Flagged(list[k], SameEmotion(mine, list[k]))
    {
      var row := list[i];
      var same := if Truthy(mine) then row.rest.emotion == mine else false;
      out := out + [Flagged(row, same)];
      i := i + 1;
    }
  }

  /** The query of GET /nearby: `lat` and `lng` as numbers, the optional
      radius, window and limit, and the raw `mask`. */
  datatype NearbyParams = NearbyParams(lat: Num, lng: Num, radiusKm: Option<Num>, windowMin: Option<Num>,
                                       limit: Option<Num>, mask: Option<string>)

  /** The options GET /nearby passes to `getNearbyByBle`: radius 0.5, window 5
      and limit 7 by default, masking unless `mask` is `'0'`. */
  function NearbyOptions(p: NearbyParams): (q: NearbyQuery)
    ensures q.radiusKm == (if p.radiusKm.Some? then p.radiusKm.value else Finite(0.5))
    ensures q.windowMin == (if p.windowMin.Some? then p.windowMin.value else Finite(5.0))
    ensures q.limit == (if p.limit.Some? then p.limit.value else Finite(7.0))
    ensures q.mask == Some(p.mask != Some("0"))
    ensures q.origin == Some(Origin(Number(p.lat), Number(p.lng)))
  {
    NearbyQuery(
      if p.windowMin.Some? then p.windowMin.value else Finite(5.0),
      if p.limit.Some? then p.limit.value else Finite(7.0),
      Some(p.mask != Some("0")),
      Some(Origin(Number(p.lat), Number(p.lng))),
      if p.radiusKm.Some? then p.radiusKm.value else Finite(0.5))
  }

  /** The body of GET /nearby. */
  datatype NearbyBody = NearbyBody(myEmotion: Option<string>, users: seq<Flagged>)

  /** GET /nearby: 400 unless both coordinates are finite; otherwise my
      dominant emotion and the nearby list, each row flagged when its emotion
      is mine. The service cannot fail on the origin here, only on a window,
      limit or radius that is not a number, or a limit that is not whole; its
      failure is the route's 500. */
  method Nearby(db: Database, u: int, p: NearbyParams, now: Instant, today: Date,
                distance: (Num, Num, real, real) -> Option<real>) returns (res: Result<NearbyBody>)
    ensures res.Err? ==> res.status == 400 || res.status == 500
    ensures res == Err(400) <==> !p.lat.Finite? || !p.lng.Finite?
    ensures p.lat.Finite? && p.lng.Finite? ==>
      var tb := BleTables(db.users, db.bleSettings, db.snapshots, db.deviceTokens, db.observations);
      (res.Ok? <==> GetNearbyByBle(tb, u, NearbyOptions(p), now, distance).Ok?)
    ensures res.Ok? ==>
      var tb := BleTables(db.users, db.bleSettings, db.snapshots, db.deviceTokens, db.observations);
      var list := GetNearbyByBle(tb, u, NearbyOptions(p), now, distance);
      list.Ok? && res.value.myEmotion == DominantEmotion(db.records, db.snapshots, u, today)
      && |res.value.users| == |list.value|
      && forall i :: 0 <= i < |list.value| ==>
           res.value.users[i] == Flagged(list.value[i], SameEmotion(res.value.myEmotion, list.value[i]))
  {
    if !p.lat.Finite? || !p.lng.Finite? {
      return Err(400);
    }
    var mine := DominantEmotion(db.records, db.snapshots, u, today);
    var tb := BleTables(db.users, db.bleSettings, db.snapshots, db.deviceTokens, db.observations);
    var list := GetNearbyByBle(tb, u, NearbyOptions(p), now, distance);
    if list.Err? {
      return Err(500);
    }
    var users := MarkSameEmotion(list.value, mine);
    res := Ok(NearbyBody(mine, users));
  }

  // ------------------------------------------------------------------
  // Consent, rotation and scan upload
  // ------------------------------------------------------------------

  /** GET /consent: the stored row as it is, or enabled 0 and never enabled. */
  function ConsentView(settings: map<int, BleSetting>, u: int): (row: BleSetting)
    ensures u in settings ==> row == settings[u]
    ensures u !in settings ==> row == BleSetting(0, None)
  {
    if u in settings then settings[u] else BleSetting(0, None)
  }

  /** The route and the service agree once the flag is read as a boolean. */
  lemma ConsentViewAgrees(settings: map<int, BleSetting>, u: int)
    ensures (ConsentView(settings, u).enabled != 0) == GetConsent(settings, u).enabled
    ensures ConsentView(settings, u).lastEnabledAt == GetConsent(settings, u).lastEnabledAt
  {
  }

  /** POST /consent: `!!req.body?.enabled` is stored and echoed. */
  method PostConsent(db: Database, u: int, enabled: Value, now: Instant) returns (echo: bool)
    modifies db`bleSettings
    ensures echo == ValueTruthy(enabled)
    ensures db.bleSettings == WithConsent(old(db.bleSettings), u, echo, now)
  {
    echo := ValueTruthy(enabled);
    SetConsent(db, u, echo, now);
  }

  /** POST /device-token/rotate: the fresh token and the 7 days it is stored for. */
  method RotateToken(db: Database, u: int, token: string, hash: string -> string, now: Instant)
    returns (t: string, ttlDays: int)
    requires ValidInstant(now) && UniqueUsers(db.deviceTokens)
    modifies db`deviceTokens
    ensures t == token && ttlDays == 7
    ensures db.deviceTokens == Upsert(old(db.deviceTokens), RotatedRow(u, hash(token), now))
    ensures RotatedRow(u, hash(token), now).expiresAt == AddDaysAt(now, ttlDays)
  {
    t := RotateDeviceToken(db, u, token, hash, now);
    ttlDays := 7;
  }

  /** POST /scan-report: a body without an `observations` array uploads
      nothing; 204, or 500 when the insert is refused (an rssi that is NaN or
      infinite), which stores nothing. */
  method ScanReport(db: Database, u: int, observations: Option<seq<Option<Scan>>>, now: Instant) returns (status: int)
    modifies db`observations
    ensures status in {204, 500}
    ensures status == 500 <==> observations.Some? && !Insertable(Kept(u, observations.value, now))
    ensures db.observations == old(db.observations)
                               + (if observations.Some? && status == 204 then Kept(u, observations.value, now) else [])
  {
    var upload := if observations.Some? then observations.value else [];
    var ok := IngestScanResults(db, u, Some(upload), now);
    assert observations.None? ==> Kept(u, upload, now) == [];
    status := if ok then 204 else 500;
  }

  // ------------------------------------------------------------------
  // GET /person/:userId/today
  // ------------------------------------------------------------------

  function PublicOn(u: int, d: Date): Record -> bool {
    (r: Record) => r.userId == u && IsPublic(r) && r.createdAt.date == d
  }

  /** `visibility='public' AND DATE(created_at)=CURDATE() ORDER BY created_at DESC LIMIT 1`. */
  function LatestPublicToday(records: seq<Record>, u: int, today: Date): (r: Option<Record>)
    ensures r.None? <==> forall x :: x in records ==> !(x.userId == u && IsPublic(x) && x.createdAt.date == today)
    ensures r.Some? ==> r.value in records && r.value.userId == u && IsPublic(r.value) && r.value.createdAt.date == today
    ensures r.Some? ==> forall x :: x in records && x.userId == u && IsPublic(x) && x.createdAt.date == today ==>
                          InstantLe(x.createdAt, r.value.createdAt)
  {
    var rs := Filter(records, PublicOn(u, today));
    var l := Latest(rs);
    assert l.Some? ==> forall x :: x in records && x.userId == u && IsPublic(x) && x.createdAt.date == today ==>
                         InstantLe(x.createdAt, l.value.createdAt) by {
      if l.Some? {
        forall x | x in records && x.userId == u && IsPublic(x) && x.createdAt.date == today
          ensures InstantLe(x.createdAt, l.value.createdAt)
        {
          assert x in rs;
          var k :| 0 <= k < |rs| && rs[k] == x;
          assert RecLe(rs[k], l.value);
        }
      }
    }
    l
  }

  /** The body of GET /person/:userId/today. */
  datatype PersonView = PersonView(
    userId: int,
    profile: User,
    todayEmotion: Option<Snapshot>,
    latestPublicRecord: Option<(Record, seq<string>)>)

  /** GET /person/:userId/today: 400 for an id that is not a number, 404 for an
      unknown user; otherwise the unmasked profile, the today snapshot if any,
      and today's latest public record with its image urls, if any. */
  function Person(db_users: map<int, User>, snaps: map<int, Snapshot>, records: seq<Record>, images: seq<RecordImage>,
                  idParam: string, today: Date): (res: Result<PersonView>)
    ensures res.Err? ==> res.status == 400 || res.status == 404
    ensures res == Err(400) <==> ParseInt(idParam).None?
    ensures res == Err(404) <==> ParseInt(idParam).Some? && ParseInt(idParam).value !in db_users
    ensures res.Ok? ==> var id := ParseInt(idParam).value;
      res.value.userId == id && res.value.profile == db_users[id]
      && res.value.todayEmotion == (if id in snaps then Some(snaps[id]) else None)
      && (res.value.latestPublicRecord.None? <==>
            forall x :: x in records ==> !(x.userId == id && IsPublic(x) && x.createdAt.date == today))
      && (res.value.latestPublicRecord.Some? ==>
            var (r, urls) := res.value.latestPublicRecord.value;
            r in records && r.userId == id && IsPublic(r) && r.createdAt.date == today && urls == ImageUrls(images, r.id)
            && forall x :: x in records && x.userId == id && IsPublic(x) && x.createdAt.date == today ==>
                 InstantLe(x.createdAt, r.createdAt))
  {
    match ParseInt(idParam)
    case None => Err(400)
    case Some(id) =>
      if id !in db_users then Err(404)
      else
        var rec := LatestPublicToday(records, id, today);
        Ok(PersonView(id, db_users[id], if id in snaps then Some(snaps[id]) else None,
                      if rec.Some? then Some((rec.value, ImageUrls(images, rec.value.id))) else None))
  }

  /** A private record, or one of another day, is never shown on a tapped person. */
  lemma PersonShowsOnlyPublicToday(db_users: map<int, User>, snaps: map<int, Snapshot>, records: seq<Record>,
                                   images: seq<RecordImage>, idParam: string, today: Date, r: Record)
    requires r in records && (!IsPublic(r) || r.createdAt.date != today)
    requires Person(db_users, snaps, records, images, idParam, today).Ok?
    ensures var v := Person(db_users, snaps, records, images, idParam, today).value;
      v.latestPublicRecord.Some? ==> v.latestPublicRecord.value.0 != r
  {
  }
}

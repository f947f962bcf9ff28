/**
 * The Bluetooth consent of a user (`UserBleSettings`, one row per user):
 * reading it with its defaults, and the upsert that records when it was last
 * switched on.
 */
module SettingsService {
  import opened Wrappers
  import opened Dates
  import opened Tables

  /** What `getConsent` returns. */
  datatype Consent = Consent(enabled: bool, lastEnabledAt: Option<Instant>)

  /** `getConsent(userId)`: off and never enabled without a row; otherwise the
      stored flag as a boolean and the stored time. */
  function GetConsent(settings: map<int, BleSetting>, u: int): (c: Consent)
    ensures u !in settings ==> c == Consent(false, None)
    ensures u in settings ==> c.enabled == (settings[u].enabled != 0) && c.lastEnabledAt == settings[u].lastEnabledAt
  {
    if u !in settings then Consent(false, None)
    else Consent(settings[u].enabled != 0, settings[u].lastEnabledAt)
  }

  /** The user's row after `setConsent`: the flag as 1 or 0; the time is now
      when enabling, NULL for a new row being disabled, and kept otherwise. */
  function ConsentRow(row: Option<BleSetting>, enabled: bool, now: Instant): (r: BleSetting)
    ensures r.enabled == if enabled then 1 else 0
    ensures enabled ==> r.lastEnabledAt == Some(now)
    ensures !enabled && row.None? ==> r.lastEnabledAt == None
    ensures !enabled && row.Some? ==> r.lastEnabledAt == row.value.lastEnabledAt
  {
    var flag := if enabled then 1 else 0;
    match row
    case None => BleSetting(flag, if flag == 1 then Some(now) else None)
    case Some(prev) => BleSetting(flag, if flag == 1 then Some(now) else prev.lastEnabledAt)
  }

  /** The settings table after `setConsent(u, enabled)`. */
  function WithConsent(settings: map<int, BleSetting>, u: int, enabled: bool, now: Instant)
    : (settings': map<int, BleSetting>)
    ensures settings'.Keys == settings.Keys + {u}
    ensures settings'[u] == ConsentRow(if u in settings then Some(settings[u]) else None, enabled, now)
    ensures forall v :: v in settings && v != u ==> settings'[v] == settings[v]
  {
    settings[u := ConsentRow(if u in settings then Some(settings[u]) else None, enabled, now)]
  }

  /** `setConsent(userId, enabled)`: an `INSERT ... ON DUPLICATE KEY UPDATE` on the user's row. */
  method SetConsent(db: Database, u: int, enabled: bool, now: Instant)
    modifies db`bleSettings
    ensures db.bleSettings == WithConsent(old(db.bleSettings), u, enabled, now)
  {
    var row := if u in db.bleSettings then Some(db.bleSettings[u]) else None;
    var flag := if enabled then 1 else 0;
    var last := if flag == 1 then Some(now) else if row.Some? then row.value.lastEnabledAt else None;
    db.bleSettings := db.bleSettings[u := BleSetting(flag, last)];
  }

  /** Reading back after `setConsent`: the flag that was set, and the time of
      the latest switch-on (never, for a new user who switches off). */
  lemma SetThenGet(settings: map<int, BleSetting>, u: int, enabled: bool, now: Instant)
    ensures var c := GetConsent(WithConsent(settings, u, enabled, now), u);
      c.enabled == enabled
      && (enabled ==> c.lastEnabledAt == Some(now))
      && (!enabled ==> c.lastEnabledAt == GetConsent(settings, u).lastEnabledAt)
  {
  }

  /** Switching on and then off remembers when it was switched on. */
  lemma OnThenOff(settings: map<int, BleSetting>, u: int, t1: Instant, t2: Instant)
    ensures GetConsent(WithConsent(WithConsent(settings, u, true, t1), u, false, t2), u) == Consent(false, Some(t1))
  {
  }

  /** Switching off is idempotent. */
  lemma OffIdempotent(settings: map<int, BleSetting>, u: int, t1: Instant, t2: Instant)
    ensures WithConsent(WithConsent(settings, u, false, t1), u, false, t2) == WithConsent(settings, u, false, t1)
  {
    var once := WithConsent(settings, u, false, t1);
    var twice := WithConsent(once, u, false, t2);
    assert twice.Keys == once.Keys;
    forall v | v in twice ensures twice[v] == once[v] {
    }
  }
}

/**
 * The device tokens a phone advertises over Bluetooth: rotation stores only
 * the hash of a fresh token in the user's single `DeviceTokens` row, valid for
 * seven days; resolution maps an observed hash back to its user while the row
 * is active and unexpired. The random token and the SHA-256 hash are inputs.
 */
module TokenService {
  import opened Wrappers
  import opened Seqs
  import opened Dates
  import opened Tables

  /** `user_id` is the table's primary key. */
  predicate UniqueUsers(ts: seq<DeviceToken>) {
    forall i, j :: 0 <= i < j < |ts| ==> ts[i].userId != ts[j].userId
  }

  /** `INSERT ... ON DUPLICATE KEY UPDATE` on `row.userId`: the user's row is
      replaced where it stands, or the row is appended. */
  function Upsert(ts: seq<DeviceToken>, row: DeviceToken): (r: seq<DeviceToken>)
    requires UniqueUsers(ts)
    ensures row in r && UniqueUsers(r)
    ensures forall t :: t in r ==> t == row || (t in ts && t.userId != row.userId)
    ensures forall t :: t in ts && t.userId != row.userId ==> t in r
  {
    if ts == [] then [row]
    else
      assert forall t :: t in ts ==> t == ts[0] || t in ts[1..];
      assert forall t :: t in ts[1..] ==> t in ts;
      assert forall t :: t in ts[1..] ==> t.userId != ts[0].userId by {
        forall t | t in ts[1..] ensures t.userId != ts[0].userId {
          var k :| 0 <= k < |ts[1..]| && ts[1..][k] == t;
          assert ts[k + 1] == t;
        }
      }
      if ts[0].userId == row.userId then
        [row] + ts[1..]
      else
        var rest := Upsert(ts[1..], row);
        [ts[0]] + rest
  }

  /** The row `rotateDeviceToken` writes: hash of the token, active, expiring in 7 days. */
  function RotatedRow(u: int, tokenHash: string, now: Instant): DeviceToken
    requires ValidInstant(now)
  {
    DeviceToken(u, tokenHash, now, AddDaysAt(now, 7), true)
  }

  /** `rotateDeviceToken(userId)`: `token` is the fresh random token and `hash`
      the SHA-256 hex digest; the token is returned and only its hash is stored. */
  method RotateDeviceToken(db: Database, u: int, token: string, hash: string -> string, now: Instant)
    returns (t: string)
    requires ValidInstant(now) && UniqueUsers(db.deviceTokens)
    modifies db`deviceTokens
    ensures t == token
    ensures db.deviceTokens == Upsert(old(db.deviceTokens), RotatedRow(u, hash(token), now))
  {
    db.deviceTokens := Upsert(db.deviceTokens, RotatedRow(u, hash(token), now));
    t := token;
  }

  /** `token_hash=? AND active=1 AND expires_at>NOW()`. */
  function Valid(h: string, now: Instant): DeviceToken -> bool {
    (t: DeviceToken) => t.tokenHash == h && t.active && InstantLt(now, t.expiresAt)
  }

  /** `resolveUserByTokenHash(hash)`: the user of the first valid row with the hash, or none. */
  function ResolveUserByTokenHash(ts: seq<DeviceToken>, h: string, now: Instant): (r: Option<int>)
    ensures r.None? <==> forall t :: t in ts ==> !(t.tokenHash == h && t.active && InstantLt(now, t.expiresAt))
    ensures r.Some? ==> exists t :: t in ts && t.userId == r.value && t.tokenHash == h && t.active && InstantLt(now, t.expiresAt)
  {
    match FirstWhere(ts, Valid(h, now))
    case None =>
      assert forall t :: t in ts ==> !Valid(h, now)(t) by {
        forall t | t in ts ensures !Valid(h, now)(t) {
          var k :| 0 <= k < |ts| && ts[k] == t;
        }
      }
      None
    case Some(t) => Some(t.userId)
  }

  /** Until it expires, a freshly rotated token resolves to its user, provided
      no other user's row carries the same hash. */
  lemma RotateThenResolve(ts: seq<DeviceToken>, u: int, tokenHash: string, now: Instant, later: Instant)
    requires ValidInstant(now) && UniqueUsers(ts)
    requires InstantLt(later, AddDaysAt(now, 7))
    requires forall t :: t in ts && t.userId != u ==> t.tokenHash != tokenHash
    ensures ResolveUserByTokenHash(Upsert(ts, RotatedRow(u, tokenHash, now)), tokenHash, later) == Some(u)
  {
    var r := Upsert(ts, RotatedRow(u, tokenHash, now));
    assert RotatedRow(u, tokenHash, now) in r;
  }

  /** Rotation retires the user's previous token: no other hash resolves to the user any more. */
  lemma RotateRetiresOld(ts: seq<DeviceToken>, u: int, tokenHash: string, now: Instant, other: string, later: Instant)
    requires ValidInstant(now) && UniqueUsers(ts) && other != tokenHash
    ensures ResolveUserByTokenHash(Upsert(ts, RotatedRow(u, tokenHash, now)), other, later) != Some(u)
  {
  }
}

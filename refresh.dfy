/**
 * The refresh-token store: the lifetime in days read from the environment,
 * storing a token's hash with its expiry, finding a stored token still in
 * force, and revoking it (optionally naming the token that replaced it). The
 * random token, the SHA-256 hash and `UTC_TIMESTAMP()` are inputs.
 */
module Refresh {
  import opened Wrappers
  import opened Js
  import opened Seqs
  import opened Dates
  import opened Tables

  /** The position of the first `c` in `s`, or `|s|` when there is none. */
  function IndexOf(s: string, c: char): (k: nat)
    ensures k <= |s| && (k < |s| ==> s[k] == c)
    ensures forall j :: 0 <= j < k ==> s[j] != c
  {
    if s == [] || s[0] == c then 0 else 1 + IndexOf(s[1..], c)
  }

  /** `s.replace(c, '')` with a one-character pattern: the first `c` is removed. */
  function RemoveFirst(s: string, c: char): (r: string)
    ensures c !in s ==> r == s
    ensures c in s ==> |r| == |s| - 1 && r == s[..IndexOf(s, c)] + s[IndexOf(s, c) + 1..]
  {
    var k := IndexOf(s, c);
    if k == |s| then s else s[..k] + s[k + 1..]
  }

  /** `TTL_DAYS`: `parseInt(String(JWT_REFRESH_TTL || '30d').replace('d', ''), 10) || 30`. */
  function TtlDays(env: Option<string>): (days: int)
    ensures days != 0
  {
    IntOr(ParseInt(RemoveFirst(if Truthy(env) then env.value else "30d", 'd')), 30)
  }

  /** In a run of digits followed by `d`, the first `d` is the last character. */
  lemma {:induction false} IndexOfAfterDigits(s: string)
    requires AllDigits(s)
    ensures IndexOf(s + "d", 'd') == |s|
  {
    if s != [] {
      assert (s + "d")[1..] == s[1..] + "d";
      IndexOfAfterDigits(s[1..]);
    }
  }

  /** A setting of the form `<digits>d` gives the number the digits spell,
      and 30 when that number is zero. */
  lemma TtlDaysOfDigits(s: string)
    requires s != [] && AllDigits(s)
    ensures TtlDays(Some(s + "d")) == if DigitsValue(s) == 0 then 30 else DigitsValue(s)
  {
    IndexOfAfterDigits(s);
    assert (s + "d")[..|s|] == s && (s + "d")[|s| + 1..] == [];
    assert RemoveFirst(s + "d", 'd') == s;
    ParseIntOfDigits(s);
  }

  /** An unset or empty setting reads as `30d`. */
  lemma TtlDaysUnset(env: Option<string>)
    requires !Truthy(env)
    ensures TtlDays(env) == TtlDays(Some("30d"))
  {
  }

  /** Without the variable the lifetime is 30 days. */
  lemma TtlDaysDefault()
    ensures TtlDays(None) == 30 && TtlDays(Some("")) == 30
  {
    var s := "30";
    assert s + "d" == "30d";
    assert DigitsValue(s) == 30 by {
      assert s[..1] == "3" && s[1] == '0';
    }
    TtlDaysOfDigits(s);
    TtlDaysUnset(None);
    TtlDaysUnset(Some(""));
  }

  /** "14d" gives 14 days. */
  lemma TtlDaysFourteen()
    ensures TtlDays(Some("14d")) == 14
  {
    var s := "14";
    assert s + "d" == "14d";
    assert DigitsValue(s[..1]) == 1;
    TtlDaysOfDigits(s);
  }

  /** A setting without a `d` that starts with a letter (no digits for
      `parseInt` to read) gives 30 days. */
  lemma TtlDaysOfWord(s: string)
    requires s != [] && 'd' !in s
    requires !IsSpace(s[0]) && !IsDigit(s[0]) && s[0] != '-' && s[0] != '+'
    ensures TtlDays(Some(s)) == 30
  {
    assert RemoveFirst(s, 'd') == s;
    ParseIntNaN(s);
  }

  /** A value without a number, or a zero, falls back to 30 days. */
  lemma TtlDaysFallback()
    ensures TtlDays(Some("week")) == 30 && TtlDays(Some("0d")) == 30
  {
    assert "0" + "d" == "0d";
    TtlDaysOfDigits("0");
    var w := "week";
    assert w[0] == 'w' && w[1] == 'e' && w[2] == 'e' && w[3] == 'k';
    TtlDaysOfWord(w);
  }

  /** `x || null` for an optional string. */
  function OrNull(x: Option<string>): (r: Option<string>)
    ensures r.Some? <==> Truthy(x)
    ensures r.Some? ==> r == x
  {
    if Truthy(x) then x else None
  }

  /** The row `storeRefreshToken` inserts: the hash, the optional device and
      address, the user agent cut to 255 characters, expiry `ttl` days on, and
      neither revoked nor replaced. */
  function StoredRow(u: int, tokenHash: string, deviceId: Option<string>, ip: Option<string>,
                     userAgent: Option<string>, now: Instant, ttl: int): (row: RefreshToken)
    requires ValidInstant(now)
    ensures row.userId == u && row.tokenHash == tokenHash
    ensures |row.userAgent| <= 255
    ensures Truthy(userAgent) ==> row.userAgent == Prefix(userAgent.value, 255)
    ensures row.revokedAt.None? && row.replacedBy.None?
    ensures ttl > 0 ==> InstantLt(now, row.expiresAt)
  {
    RefreshToken(u, tokenHash, OrNull(deviceId), OrNull(ip),
                 Prefix(if Truthy(userAgent) then userAgent.value else "", 255),
                 AddDaysAt(now, ttl), None, None)
  }

  /** `storeRefreshToken`: one row appended, expiring `TTL_DAYS` days on, read
      from the `JWT_REFRESH_TTL` setting `env`; the token itself is never
      stored, only `hash(token)`. */
  method StoreRefreshToken(db: Database, u: int, token: string, deviceId: Option<string>, ip: Option<string>,
                           userAgent: Option<string>, hash: string -> string, now: Instant, env: Option<string>)
    requires ValidInstant(now)
    modifies db`refreshTokens
    ensures db.refreshTokens == old(db.refreshTokens) + [StoredRow(u, hash(token), deviceId, ip, userAgent, now, TtlDays(env))]
  {
    var ttl := TtlDays(env);
    db.refreshTokens := db.refreshTokens + [StoredRow(u, hash(token), deviceId, ip, userAgent, now, ttl)];
  }

  /** `token_hash = ? AND revoked_at IS NULL AND expires_at > UTC_TIMESTAMP()`. */
  predicate InForce(t: RefreshToken, h: string, now: Instant) {
    t.tokenHash == h && t.revokedAt.None? && InstantLt(now, t.expiresAt)
  }

  function InForceFor(h: string, now: Instant): RefreshToken -> bool {
    (t: RefreshToken) => InForce(t, h, now)
  }

  /** `findActiveRefreshToken(token)`: the first stored row of the token's hash
      that is neither revoked nor expired, or none. */
  function FindActiveRefreshToken(ts: seq<RefreshToken>, token: string, hash: string -> string, now: Instant)
    : (r: Option<RefreshToken>)
    ensures r.Some? ==> r.value in ts && InForce(r.value, hash(token), now)
    ensures r.None? <==> forall t :: t in ts ==> !InForce(t, hash(token), now)
  {
    var found := FirstWhere(ts, InForceFor(hash(token), now));
    assert found.None? ==> forall t :: t in ts ==> !InForce(t, hash(token), now) by {
      if found.None? {
        forall t | t in ts ensures !InForce(t, hash(token), now) {
          var k :| 0 <= k < |ts| && ts[k] == t;
          assert !InForceFor(hash(token), now)(ts[k]);
        }
      }
    }
    found
  }

  /** A token just stored with a positive lifetime is found, unless an earlier
      row of the same hash is still in force. */
  lemma StoreThenFind(ts: seq<RefreshToken>, u: int, token: string, deviceId: Option<string>, ip: Option<string>,
                      userAgent: Option<string>, hash: string -> string, now: Instant, ttl: int)
    requires ValidInstant(now) && ttl > 0
    requires forall t :: t in ts ==> !InForce(t, hash(token), now)
    ensures FindActiveRefreshToken(ts + [StoredRow(u, hash(token), deviceId, ip, userAgent, now, ttl)], token, hash, now)
            == Some(StoredRow(u, hash(token), deviceId, ip, userAgent, now, ttl))
  {
    var row := StoredRow(u, hash(token), deviceId, ip, userAgent, now, ttl);
    var all := ts + [row];
    assert forall t :: t in all ==> t in ts || t == row;
    assert InForce(row, hash(token), now);
    assert all[|ts|] == row;
    var found := FindActiveRefreshToken(all, token, hash, now);
    assert found.Some?;
    assert found.value in ts || found.value == row;
  }

  /** The `UPDATE` of `revokeRefreshToken`: each unrevoked row of the hash gets
      the revocation time and the replacement's hash (or NULL). */
  function RevokeRow(h: string, replacedBy: Option<string>, now: Instant): RefreshToken -> RefreshToken {
    (t: RefreshToken) => if t.tokenHash == h && t.revokedAt.None? then t.(revokedAt := Some(now), replacedBy := replacedBy) else t
  }

  /** The hash recorded as the replacement: `replacedByPlain ? sha256(replacedByPlain) : null`. */
  function ReplacementHash(replacement: Option<string>, hash: string -> string): (r: Option<string>)
    ensures r.Some? <==> Truthy(replacement)
    ensures r.Some? ==> r.value == hash(replacement.value)
  {
    if Truthy(replacement) then Some(hash(replacement.value)) else None
  }

  /** The table after `revokeRefreshToken`. */
  function Revoked(ts: seq<RefreshToken>, token: string, replacement: Option<string>, hash: string -> string, now: Instant)
    : (ts': seq<RefreshToken>)
    ensures |ts'| == |ts|
    ensures forall i :: 0 <= i < |ts| ==>
      if ts[i].tokenHash == hash(token) && ts[i].revokedAt.None?
      then ts'[i] == ts[i].(revokedAt := Some(now), replacedBy := ReplacementHash(replacement, hash))
      else ts'[i] == ts[i]
  {
    Map(ts, RevokeRow(hash(token), ReplacementHash(replacement, hash), now))
  }

  /** `revokeRefreshToken({tokenPlain, replacedByPlain})`. */
  method RevokeRefreshToken(db: Database, token: string, replacement: Option<string>, hash: string -> string, now: Instant)
    modifies db`refreshTokens
    ensures db.refreshTokens == Revoked(old(db.refreshTokens), token, replacement, hash, now)
  {
    db.refreshTokens := Revoked(db.refreshTokens, token, replacement, hash, now);
  }

  /** A revoked token is no longer found. */
  lemma RevokedNotFound(ts: seq<RefreshToken>, token: string, replacement: Option<string>, hash: string -> string,
                        now: Instant, later: Instant)
    ensures FindActiveRefreshToken(Revoked(ts, token, replacement, hash, now), token, hash, later).None?
  {
    var ts' := Revoked(ts, token, replacement, hash, now);
    forall t | t in ts' ensures !InForce(t, hash(token), later) {
      var i :| 0 <= i < |ts'| && ts'[i] == t;
    }
  }

  /** A second revocation, at any time and with any replacement, changes nothing:
      the first revocation time and replacement stay. */
  lemma RevokeIdempotent(ts: seq<RefreshToken>, token: string, r1: Option<string>, r2: Option<string>,
                         hash: string -> string, t1: Instant, t2: Instant)
    ensures Revoked(Revoked(ts, token, r1, hash, t1), token, r2, hash, t2) == Revoked(ts, token, r1, hash, t1)
  {
    var once := Revoked(ts, token, r1, hash, t1);
    var twice := Revoked(once, token, r2, hash, t2);
    forall i | 0 <= i < |ts| ensures twice[i] == once[i] {
    }
  }

  /** Rows of other tokens, and rows already revoked, are left as they are. */
  lemma RevokeTouchesOnlyToken(ts: seq<RefreshToken>, token: string, replacement: Option<string>,
                               hash: string -> string, now: Instant, i: int)
    requires 0 <= i < |ts| && (ts[i].tokenHash != hash(token) || ts[i].revokedAt.Some?)
    ensures Revoked(ts, token, replacement, hash, now)[i] == ts[i]
  {
  }
}

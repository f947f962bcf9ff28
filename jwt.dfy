/**
 * Reading the access token from the `Authorization` header, and the gate the
 * record, comment, notice, recall, emotion and map routers import from this
 * file: no token, a token the JWT library rejects, or a `userId` claim that
 * is not a number all give 403. Signature and expiry checking is the
 * library's and is a parameter here. The `/bluetooth` router does not use
 * this gate (see `BluetoothRouter`).
 */
module Jwt {
  import opened Wrappers
  import opened Js

  /** No white space at either end. */
  predicate Trimmed(s: string) {
    s == [] || (!IsSpace(s[0]) && !IsSpace(s[|s| - 1]))
  }

  /** The header starts, in any letter case, with "bearer ". */
  predicate IsBearer(s: string) {
    StartsWith(ToLowerAscii(s), "bearer ")
  }

  /** `extractToken(headerValue)`: none for a missing or empty header; for a
      "Bearer " header the rest, trimmed; otherwise the trimmed header. Lower-
      casing only the ASCII letters decides the prefix exactly, since no other
      character lower-cases to one of the letters of "bearer". */
  function ExtractToken(header: Option<string>): (t: Option<string>)
    ensures t.None? <==> !Truthy(header)
    ensures t.Some? ==> Trimmed(t.value)
    ensures Truthy(header) && IsBearer(Trim(header.value)) ==> t == Some(Trim(Trim(header.value)[7..]))
    ensures Truthy(header) && !IsBearer(Trim(header.value)) ==> t == Some(Trim(header.value))
  {
    if !Truthy(header) then None
    else
      var s := Trim(header.value);
      if IsBearer(s) then Some(Trim(s[7..])) else Some(s)
  }

  /** A "Bearer <token>" header carries the scheme. */
  lemma BearerPrefix(scheme: string, token: string)
    requires ToLowerAscii(scheme) == "bearer"
    ensures IsBearer(scheme + " " + token)
  {
    var h := scheme + " " + token;
    var l := ToLowerAscii(h);
    forall i | 0 <= i < 7 ensures l[i] == "bearer "[i] {
      if i < 6 {
        assert h[i] == scheme[i];
        assert ToLowerAscii(scheme)[i] == "bearer"[i];
      } else {
        assert h[i] == ' ';
      }
    }
    assert l[..7] == "bearer ";
  }

  /** A "Bearer <token>" header is its own trim. */
  lemma BearerHeader(scheme: string, token: string)
    requires ToLowerAscii(scheme) == "bearer"
    requires token != [] && Trimmed(token)
    ensures var h := scheme + " " + token; Trim(h) == h && IsBearer(h) && h[7..] == token
  {
    var h := scheme + " " + token;
    assert |scheme| == 6;
    assert h[0] == scheme[0];
    assert ToLowerAscii(scheme)[0] == 'b';
    assert h[|h| - 1] == token[|token| - 1];
    TrimOfTrimmed(h);
    BearerPrefix(scheme, token);
    assert h[7..] == token;
  }

  /** "Bearer <token>" in any letter case gives back the token. */
  lemma BearerRoundTrip(scheme: string, token: string)
    requires ToLowerAscii(scheme) == "bearer"
    requires token != [] && Trimmed(token)
    ensures ExtractToken(Some(scheme + " " + token)) == Some(token)
  {
    BearerHeader(scheme, token);
    TrimOfTrimmed(token);
  }

  /** A bare token without the scheme is passed through as it is. */
  lemma RawTokenPassThrough(token: string)
    requires token != [] && Trimmed(token) && !IsBearer(token)
    ensures ExtractToken(Some(token)) == Some(token)
  {
    TrimOfTrimmed(token);
  }

  /** `verifyToken`: 403 without a token, when `verify` (the JWT library's check,
      giving `Number(decoded.userId)`) rejects it, or when the claim is NaN;
      otherwise the request goes on as that user. */
  function Authorize(header: Option<string>, verify: string -> Option<Num>): (res: Result<Num>)
    ensures res.Err? ==> res.status == 403
    ensures res.Ok? <==>
      var t := ExtractToken(header);
      t.Some? && t.value != "" && verify(t.value).Some? && !verify(t.value).value.NaN?
    ensures res.Ok? ==> res.value == verify(ExtractToken(header).value).value
  {
    match ExtractToken(header)
    case None => Err(403)
    case Some(t) =>
      if t == "" then Err(403)
      else match verify(t)
        case None => Err(403)
        case Some(n) => if n.NaN? then Err(403) else Ok(n)
  }

  /** A missing, empty or blank header never reaches the route, whatever the library would say. */
  lemma NoTokenForbidden(header: Option<string>, verify: string -> Option<Num>)
    requires !Truthy(header) || Trim(header.value) == ""
    ensures Authorize(header, verify) == Err(403)
  {
    if Truthy(header) {
      var s := Trim(header.value);
      assert !IsBearer(s);
    }
  }
}

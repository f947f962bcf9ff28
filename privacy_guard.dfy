/**
 * The privacy guard applied to the nearby-user list: a user's name is shown
 * with its last character replaced by `*` (a one-character name gets a `*`
 * appended, a missing or empty one becomes `???`); every other field of the
 * row passes through.
 */
module PrivacyGuard {
  import opened Wrappers
  import opened Js

  /** `maskName(name)`. */
  function MaskName(name: Option<string>): (m: string)
    ensures !Truthy(name) ==> m == "???"
    ensures Truthy(name) ==> |m| == if |name.value| == 1 then 2 else |name.value|
    ensures Truthy(name) ==> m[|m| - 1] == '*'
    ensures Truthy(name) && |name.value| == 1 ==> m[..1] == name.value
    ensures Truthy(name) && |name.value| >= 2 ==> m[..|m| - 1] == name.value[..|name.value| - 1]
  {
    if !Truthy(name) then "???"
    else
      var n := name.value;
      if |n| <= 1 then n + "*" else n[..|n| - 1] + "*"
  }

  /** A masked name masks to itself: the guard can be applied twice. */
  lemma MaskIdempotent(name: Option<string>)
    requires Truthy(name)
    ensures MaskName(Some(MaskName(name))) == MaskName(name)
  {
    var m := MaskName(name);
    assert m[..|m| - 1] + "*" == m;
  }

  /** Two names that differ only in their last character cannot be told apart after masking. */
  lemma MaskHidesLast(a: string, b: string)
    requires |a| == |b| >= 2 && a[..|a| - 1] == b[..|b| - 1]
    ensures MaskName(Some(a)) == MaskName(Some(b))
  {
  }

  /** A row with a `name` and the other fields it is spread with. */
  datatype Named<T> = Named(name: Option<string>, rest: T)

  /** `apply(user, { mask })`: `mask` absent means true. */
  function Apply<T>(p: Named<T>, mask: Option<bool>): (r: Named<T>)
    ensures r.rest == p.rest
    ensures mask == Some(false) ==> r == p
    ensures mask != Some(false) ==> r.name == Some(MaskName(p.name))
  {
    if mask != Some(false) then p.(name := Some(MaskName(p.name))) else p
  }

  /** Applying the guard twice with the same option gives what applying it once
      gave, for a row with a name. */
  lemma ApplyTwice<T>(p: Named<T>, mask: Option<bool>)
    requires Truthy(p.name)
    ensures Apply(Apply(p, mask), mask) == Apply(p, mask)
  {
    if mask != Some(false) {
      MaskIdempotent(p.name);
    }
  }
}

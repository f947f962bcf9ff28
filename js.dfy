/**
 * The parts of JavaScript's built-in string and number semantics that the
 * server code relies on: `trim`, `parseInt(s, 10)`, `padStart`, `slice`,
 * `split`, `startsWith`, `Math.min`/`Math.max` with NaN, and truthiness;
 * and MySQL's `LIKE` patterns, which the searches build from strings.
 */
module Js {
  import opened Wrappers

  // ------------------------------------------------------------------
  // White space and trim
  // ------------------------------------------------------------------

  /** WhiteSpace and LineTerminator code points of ECMA-262, removed by `trim`
      and skipped by `parseInt`. */
  predicate IsSpace(c: char) {
    c == ' ' || c == '\t' || c == '\n' || c == '\U{B}' || c == '\U{C}' || c == '\r'
    || c == '\U{A0}' || c == '\U{1680}' || ('\U{2000}' <= c <= '\U{200A}')
    || c == '\U{2028}' || c == '\U{2029}' || c == '\U{202F}' || c == '\U{205F}'
    || c == '\U{3000}' || c == '\U{FEFF}'
  }

  /** The number of white-space characters at the start of `s`. */
  function LeadingSpaces(s: string): (k: nat)
    ensures k <= |s| && (k == |s| || !IsSpace(s[k]))
    ensures forall i :: 0 <= i < k ==> IsSpace(s[i])
  {
    if s != [] && IsSpace(s[0]) then 1 + LeadingSpaces(s[1..]) else 0
  }

  /** `s.trimStart()`: the suffix left after dropping leading white space. */
  function TrimStart(s: string): (r: string)
    ensures r == s[LeadingSpaces(s)..]
    ensures r == [] || !IsSpace(r[0])
  {
    if s != [] && IsSpace(s[0]) then TrimStart(s[1..]) else s
  }

  /** `s.trimEnd()`: the prefix left after dropping trailing white space. */
  function TrimEnd(s: string): (r: string)
    ensures |r| <= |s| && r == s[..|r|]
    ensures forall i :: |r| <= i < |s| ==> IsSpace(s[i])
    ensures r == [] || !IsSpace(r[|r| - 1])
  {
    if s != [] && IsSpace(s[|s| - 1]) then TrimEnd(s[..|s| - 1]) else s
  }

  /** `s.trim()`: a contiguous part of `s`, everything around it white space,
      and itself neither starting nor ending with white space. */
  function Trim(s: string): (r: string)
    ensures r == [] || (!IsSpace(r[0]) && !IsSpace(r[|r| - 1]))
    ensures LeadingSpaces(s) + |r| <= |s|
    ensures r == s[LeadingSpaces(s)..LeadingSpaces(s) + |r|]
    ensures forall i :: LeadingSpaces(s) + |r| <= i < |s| ==> IsSpace(s[i])
  {
    TrimEnd(TrimStart(s))
  }

  /** A string with no white space at either end is its own trim. */
  lemma {:induction false} TrimOfTrimmed(s: string)
    requires s == [] || (!IsSpace(s[0]) && !IsSpace(s[|s| - 1]))
    ensures Trim(s) == s
  {
  }

  // ------------------------------------------------------------------
  // Decimal digits
  // ------------------------------------------------------------------

  predicate IsDigit(c: char) { '0' <= c <= '9' }

  predicate AllDigits(s: string) { forall i :: 0 <= i < |s| ==> IsDigit(s[i]) }

  function DigitValue(c: char): nat
    requires IsDigit(c)
  {
    (c as int) - ('0' as int)
  }

  function DigitChar(n: nat): (c: char)
    requires n < 10
    ensures IsDigit(c) && DigitValue(c) == n
  {
    (('0' as int) + n) as char
  }

  /** `String(n)` for a non-negative integer: its shortest decimal numeral. */
  function NatToString(n: nat): (r: string)
    ensures |r| >= 1 && AllDigits(r)
    ensures r[0] == '0' ==> n == 0
  {
    if n < 10 then [DigitChar(n)] else NatToString(n / 10) + [DigitChar(n % 10)]
  }

  /** The value of a (possibly empty) run of decimal digits. */
  function DigitsValue(s: string): nat
    requires AllDigits(s)
  {
    if s == [] then 0 else DigitsValue(s[..|s| - 1]) * 10 + DigitValue(s[|s| - 1])
  }

  /** Reading back a numeral gives the number it was written from. */
  lemma {:induction false} DigitsValueOfNatToString(n: nat)
    ensures DigitsValue(NatToString(n)) == n
  {
    if n >= 10 {
      var s := NatToString(n);
      assert s[..|s| - 1] == NatToString(n / 10);
      DigitsValueOfNatToString(n / 10);
    }
  }

  /** The numeral of `n` has at most `w` digits when `n < 10^w`. */
  lemma {:induction false} NatToStringLength(n: nat, w: nat)
    requires w >= 1 && n < Pow10(w)
    ensures |NatToString(n)| <= w
  {
    if n >= 10 {
      assert Pow10(1) == 10;
      NatToStringLength(n / 10, w - 1);
    }
  }

  /** A run of `n` digits denotes a number below `10^n`. */
  lemma {:induction false} DigitsValueBound(s: string)
    requires AllDigits(s)
    ensures DigitsValue(s) < Pow10(|s|)
  {
    if s != [] {
      DigitsValueBound(s[..|s| - 1]);
    }
  }

  function Pow10(k: nat): (r: nat)
    ensures r >= 1
  {
    if k == 0 then 1 else 10 * Pow10(k - 1)
  }

  /** The longest prefix of `s` made of decimal digits. */
  function DigitPrefix(s: string): (r: string)
    ensures |r| <= |s| && r == s[..|r|] && AllDigits(r)
    ensures |r| == |s| || !IsDigit(s[|r|])
  {
    if s != [] && IsDigit(s[0]) then [s[0]] + DigitPrefix(s[1..]) else []
  }

  /** `parseInt(s, 10)`: leading white space is skipped, then an optional sign,
      then the longest run of decimal digits; `None` is NaN (no digits). */
  function ParseInt(s: string): (r: Option<int>)
  {
    var t := TrimStart(s);
    var negative := t != [] && t[0] == '-';
    var body := if t != [] && (t[0] == '-' || t[0] == '+') then t[1..] else t;
    var ds := DigitPrefix(body);
    if ds == [] then None else Some(if negative then -(DigitsValue(ds) as int) else DigitsValue(ds))
  }

  /** A numeral without sign or padding parses to its value. */
  lemma ParseIntOfDigits(s: string)
    requires s != [] && AllDigits(s)
    ensures ParseInt(s) == Some(DigitsValue(s))
  {
    assert !IsSpace(s[0]);
    assert DigitPrefix(s) == s;
  }

  /** A string that starts with a non-digit, non-sign, non-space character parses to NaN. */
  lemma ParseIntNaN(s: string)
    requires s != [] && !IsSpace(s[0]) && !IsDigit(s[0]) && s[0] != '-' && s[0] != '+'
    ensures ParseInt(s) == None
  {
    assert TrimStart(s) == s;
    assert DigitPrefix(s) == [];
  }

  /** Printing then parsing a non-negative integer is the identity. */
  lemma ParseIntOfNatToString(n: nat)
    ensures ParseInt(NatToString(n)) == Some(n)
  {
    ParseIntOfDigits(NatToString(n));
    DigitsValueOfNatToString(n);
  }

  /** `parseInt(s, 10) || d`: NaN and 0 are falsy and give the default. */
  function IntOr(p: Option<int>, d: int): (r: int)
    ensures r == d || (p.Some? && p.value != 0 && r == p.value)
    ensures p == None || p == Some(0) ==> r == d
  {
    if p.Some? && p.value != 0 then p.value else d
  }

  // ------------------------------------------------------------------
  // Strings
  // ------------------------------------------------------------------

  function Repeat(c: char, n: nat): (r: string)
    ensures |r| == n && forall i :: 0 <= i < n ==> r[i] == c
  {
    if n == 0 then [] else [c] + Repeat(c, n - 1)
  }

  /** `s.padStart(n, c)`: `s` preceded by enough copies of `c` to reach length `n`. */
  function PadStart(s: string, n: nat, c: char): (r: string)
    ensures |r| == if |s| >= n then |s| else n
    ensures r[|r| - |s|..] == s
    ensures forall i :: 0 <= i < |r| - |s| ==> r[i] == c
  {
    if |s| >= n then s else Repeat(c, n - |s|) + s
  }

  /** `s.slice(0, n)` for `n >= 0`. */
  function Prefix(s: string, n: nat): (r: string)
    ensures |r| == if |s| <= n then |s| else n
    ensures r == s[..|r|]
  {
    if |s| <= n then s else s[..n]
  }

  /** `s.slice(n)` for `n >= 0`. */
  function Suffix(s: string, n: nat): (r: string)
    ensures r == if |s| <= n then [] else s[n..]
  {
    if |s| <= n then [] else s[n..]
  }

  /** The pieces of `a + [c] + b`: `a` before index `|a|`, `c` at it, `b` after it. */
  lemma JoinedAt(a: string, c: char, b: string)
    ensures |a + [c] + b| == |a| + 1 + |b|
    ensures (a + [c] + b)[|a|] == c
    ensures (a + [c] + b)[..|a|] == a && (a + [c] + b)[|a| + 1..] == b
  {
    assert (a + [c] + b)[..|a|] == a;
    assert (a + [c] + b)[|a| + 1..] == b;
  }

  predicate StartsWith(s: string, p: string) {
    |p| <= |s| && s[..|p|] == p
  }

  /** Lower-casing of the ASCII letters; the only ones that matter when a
      string is compared with an ASCII literal. */
  function ToLowerAscii(s: string): (r: string)
    ensures |r| == |s|
    ensures forall i :: 0 <= i < |s| ==>
      r[i] == if 'A' <= s[i] <= 'Z' then (s[i] as int + 32) as char else s[i]
  {
    if s == [] then []
    else [if 'A' <= s[0] <= 'Z' then (s[0] as int + 32) as char else s[0]] + ToLowerAscii(s[1..])
  }

  /** `s.split(sep)`: the pieces between separators, never an empty list. */
  function Split(s: string, sep: char): (r: seq<string>)
    ensures |r| >= 1
    ensures forall i :: 0 <= i < |r| ==> sep !in r[i]
  {
    if s == [] then [""]
    else
      var rest := Split(s[1..], sep);
      if s[0] == sep then [""] + rest else [[s[0]] + rest[0]] + rest[1..]
  }

  /** `pieces.join(sep)`. */
  function Join(pieces: seq<string>, sep: char): string
  {
    if pieces == [] then ""
    else if |pieces| == 1 then pieces[0]
    else pieces[0] + [sep] + Join(pieces[1..], sep)
  }

  /** Splitting and joining again on the same separator gives back the string. */
  lemma {:induction false} JoinSplit(s: string, sep: char)
    ensures Join(Split(s, sep), sep) == s
  {
    if s != [] {
      var rest := Split(s[1..], sep);
      JoinSplit(s[1..], sep);
      if s[0] != sep {
        if |rest| == 1 {
        } else {
          assert Join(rest, sep) == rest[0] + [sep] + Join(rest[1..], sep);
        }
      }
    }
  }

  /** A string without the separator splits into itself alone. */
  lemma {:induction false} SplitNoSep(s: string, sep: char)
    requires sep !in s
    ensures Split(s, sep) == [s]
  {
    if s != [] {
      SplitNoSep(s[1..], sep);
      assert [s[0]] + s[1..] == s;
    }
  }

  /** A leading piece without the separator is the first piece of the split. */
  lemma {:induction false} SplitCons(p: string, rest: string, sep: char)
    requires sep !in p
    ensures Split(p + [sep] + rest, sep) == [p] + Split(rest, sep)
  {
    var s := p + [sep] + rest;
    if p == [] {
      assert s == [sep] + rest && s[1..] == rest;
    } else {
      assert s[1..] == p[1..] + [sep] + rest;
      SplitCons(p[1..], rest, sep);
      assert [p[0]] + p[1..] == p;
    }
  }

  /** `s` occurs as a contiguous part of `t`. */
  predicate Contains(t: string, s: string) {
    exists k :: 0 <= k <= |t| - |s| && OccursAt(t, s, k)
  }

  predicate OccursAt(t: string, s: string, k: int)
    requires 0 <= k <= |t| - |s|
  {
    t[k..k + |s|] == s
  }

  // ------------------------------------------------------------------
  // SQL LIKE
  // ------------------------------------------------------------------

  /** MySQL's `s LIKE p` with the default escape character `\`: `%` matches
      any run of characters, `_` any one character, `\c` the character `c`,
      and every other character itself. */
  predicate Like(s: string, p: string)
    decreases |s| + |p|
  {
    if p == [] then s == []
    else if p[0] == '%' then Like(s, p[1..]) || (s != [] && Like(s[1..], p))
    else if p[0] == '_' then s != [] && Like(s[1..], p[1..])
    else if p[0] == '\\' && |p| >= 2 then s != [] && s[0] == p[1] && Like(s[1..], p[2..])
    else s != [] && s[0] == p[0] && Like(s[1..], p[1..])
  }

  /** `LIKE '%q%'`, the pattern the search parameters are put into unescaped. */
  predicate LikeAnywhere(s: string, q: string) {
    Like(s, "%" + q + "%")
  }

  /** A search text without any of the pattern characters `%`, `_` and `\`. */
  predicate Plain(q: string) {
    forall i :: 0 <= i < |q| ==> q[i] != '%' && q[i] != '_' && q[i] != '\\'
  }

  lemma {:induction false} LikeAnyRun(s: string)
    ensures Like(s, "%")
  {
    assert "%"[1..] == [];
    if s != [] {
      LikeAnyRun(s[1..]);
    }
  }

  /** A plain text followed by `%` matches exactly the strings it starts. */
  lemma {:induction false} LikePrefix(s: string, q: string)
    requires Plain(q)
    ensures Like(s, q + "%") <==> StartsWith(s, q)
  {
    if q == [] {
      assert q + "%" == "%";
      LikeAnyRun(s);
    } else {
      var p := q + "%";
      assert p[0] == q[0] && p[1..] == q[1..] + "%";
      assert Plain(q[1..]) by {
        forall i | 0 <= i < |q[1..]| ensures q[1..][i] != '%' && q[1..][i] != '_' && q[1..][i] != '\\' {
          assert q[1..][i] == q[i + 1];
        }
      }
      if s != [] {
        LikePrefix(s[1..], q[1..]);
        if |q| <= |s| && s[..|q|] == q {
          assert s[1..][..|q| - 1] == q[1..];
        }
        if |q| - 1 <= |s| - 1 && s[1..][..|q| - 1] == q[1..] && s[0] == q[0] {
          assert s[..|q|] == [s[0]] + s[1..][..|q| - 1];
        }
      }
    }
  }

  /** A leading `%` lets the rest of the pattern match at any position. */
  lemma {:induction false} LikeSomewhere(s: string, rest: string)
    ensures Like(s, "%" + rest) <==> exists k :: 0 <= k <= |s| && Like(s[k..], rest)
  {
    var p := "%" + rest;
    assert p[0] == '%' && p[1..] == rest;
    assert s[0..] == s;
    if s != [] {
      LikeSomewhere(s[1..], rest);
      if exists k :: 0 <= k <= |s| && Like(s[k..], rest) {
        var k :| 0 <= k <= |s| && Like(s[k..], rest);
        if k > 0 {
          assert s[1..][k - 1..] == s[k..];
        }
      }
      if exists k :: 0 <= k <= |s[1..]| && Like(s[1..][k..], rest) {
        var k :| 0 <= k <= |s[1..]| && Like(s[1..][k..], rest);
        assert s[1..][k..] == s[k + 1..];
      }
    }
  }

  /** For a plain search text, `LIKE '%q%'` is substring containment. */
  lemma LikeAnywhereIsContains(s: string, q: string)
    requires Plain(q)
    ensures LikeAnywhere(s, q) <==> Contains(s, q)
  {
    assert "%" + q + "%" == "%" + (q + "%");
    LikeSomewhere(s, q + "%");
    if LikeAnywhere(s, q) {
      var k :| 0 <= k <= |s| && Like(s[k..], q + "%");
      LikePrefix(s[k..], q);
      assert s[k..][..|q|] == s[k..k + |q|];
      assert OccursAt(s, q, k);
    }
    if Contains(s, q) {
      var k :| 0 <= k <= |s| - |q| && OccursAt(s, q, k);
      LikePrefix(s[k..], q);
      assert s[k..][..|q|] == s[k..k + |q|];
    }
  }

  /** A search for `_` finds every non-empty text, not the texts holding `_`. */
  lemma UnderscoreMatchesAny()
    ensures LikeAnywhere("a", "_") && !Contains("a", "_")
  {
    var p := "%" + "_" + "%";
    assert p[1..] == "_%" && "_%"[1..] == "%";
    assert "a"[1..] == [];
    LikeAnyRun([]);
    assert Like("a", "_%");
    assert !OccursAt("a", "_", 0);
  }

  // ------------------------------------------------------------------
  // Numbers
  // ------------------------------------------------------------------

  /** A JavaScript number: finite, an infinity, or NaN. */
  datatype Num = Finite(v: real) | PosInf | NegInf | NaN

  /** `a <= b` on numbers other than NaN. */
  predicate NumLe(a: Num, b: Num)
    requires !a.NaN? && !b.NaN?
  {
    match (a, b)
    case (NegInf, _) => true
    case (_, PosInf) => true
    case (Finite(x), Finite(y)) => x <= y
    case _ => false
  }

  /** `Math.min(a, b)`: NaN when either is NaN. */
  function Min(a: Num, b: Num): (r: Num)
    ensures r.NaN? <==> a.NaN? || b.NaN?
    ensures !r.NaN? ==> (r == a || r == b) && NumLe(r, a) && NumLe(r, b)
  {
    if a.NaN? || b.NaN? then NaN else if NumLe(a, b) then a else b
  }

  /** `Math.max(a, b)`: NaN when either is NaN. */
  function Max(a: Num, b: Num): (r: Num)
    ensures r.NaN? <==> a.NaN? || b.NaN?
    ensures !r.NaN? ==> (r == a || r == b) && NumLe(a, r) && NumLe(b, r)
  {
    if a.NaN? || b.NaN? then NaN else if NumLe(a, b) then b else a
  }

  /** JavaScript truthiness of a query or body string: present and not empty. */
  predicate Truthy(s: Option<string>) {
    s.Some? && s.value != ""
  }

  /** JavaScript truthiness of a number: everything but NaN and zero. */
  predicate NumTruthy(n: Num) {
    !n.NaN? && n != Finite(0.0)
  }

  /** A JSON body or query value as the handlers see it. */
  datatype Value = Undefined | Null | Bool(b: bool) | Number(n: Num) | Str(s: string) | Object

  /** `!!v`. */
  predicate ValueTruthy(v: Value) {
    match v
    case Undefined => false
    case Null => false
    case Bool(b) => b
    case Number(n) => NumTruthy(n)
    case Str(s) => s != ""
    case Object => true
  }
}

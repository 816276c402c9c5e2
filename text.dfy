/**
 * ASCII models of the string helpers the transport manager relies on:
 * Python's `str.strip()`, `str.lower()` and `str.upper()`, and the two
 * normalisers `_norm_stop` and `_norm_route` built from them.
 */
module Text {

  /** `str.isspace()` on the ASCII range: TAB, LF, VT, FF, CR, the
      separators 0x1C-0x1F and the space character. */
  predicate IsSpace(c: char) {
    c == ' ' || (9 <= c as int <= 13) || (28 <= c as int <= 31)
  }

  function LowerChar(c: char): char {
    if 'A' <= c <= 'Z' then (c as int + 32) as char else c
  }

  function UpperChar(c: char): char {
    if 'a' <= c <= 'z' then (c as int - 32) as char else c
  }

  lemma LowerCharFacts(c: char)
    ensures LowerChar(LowerChar(c)) == LowerChar(c)
    ensures LowerChar(UpperChar(c)) == LowerChar(c)
    ensures IsSpace(LowerChar(c)) <==> IsSpace(c)
  {
  }

  lemma UpperCharFacts(c: char)
    ensures UpperChar(UpperChar(c)) == UpperChar(c)
    ensures IsSpace(UpperChar(c)) <==> IsSpace(c)
  {
  }

  /** `s.lower()`: every character mapped through LowerChar. */
  function ToLower(s: string): (r: string)
    ensures |r| == |s|
    ensures forall i :: 0 <= i < |s| ==> r[i] == LowerChar(s[i])
  {
    if s == [] then [] else [LowerChar(s[0])] + ToLower(s[1..])
  }

  /** `s.upper()`: every character mapped through UpperChar. */
  function ToUpper(s: string): (r: string)
    ensures |r| == |s|
    ensures forall i :: 0 <= i < |s| ==> r[i] == UpperChar(s[i])
  {
    if s == [] then [] else [UpperChar(s[0])] + ToUpper(s[1..])
  }

  /** The number of whitespace characters at the front of `s`. */
  function LeadingSpaces(s: string): (n: nat)
    ensures n <= |s|
    ensures forall k :: 0 <= k < n ==> IsSpace(s[k])
    ensures n < |s| ==> !IsSpace(s[n])
  {
    if s == [] || !IsSpace(s[0]) then 0 else 1 + LeadingSpaces(s[1..])
  }

  /** The number of whitespace characters at the back of `s`. */
  function TrailingSpaces(s: string): (n: nat)
    ensures n <= |s|
    ensures forall k :: |s| - n <= k < |s| ==> IsSpace(s[k])
    ensures n < |s| ==> !IsSpace(s[|s| - 1 - n])
  {
    if s == [] || !IsSpace(s[|s| - 1]) then 0 else 1 + TrailingSpaces(s[..|s| - 1])
  }

  /** `s.strip()`: the infix of `s` left after removing leading and
      trailing whitespace. */
  function Strip(s: string): (r: string)
    ensures r == [] || (!IsSpace(r[0]) && !IsSpace(r[|r| - 1]))
    ensures LeadingSpaces(s) + |r| <= |s|
    ensures r == s[LeadingSpaces(s)..LeadingSpaces(s) + |r|]
    ensures forall k :: LeadingSpaces(s) + |r| <= k < |s| ==> IsSpace(s[k])
  {
    var t := s[LeadingSpaces(s)..];
    t[..|t| - TrailingSpaces(t)]
  }

  /** `_norm_stop`: trim, then lower-case. A missing stop is the empty
      string. The result has no whitespace at either end and no upper-case
      letter. */
  function NormStop(s: string): (n: string)
    ensures |n| <= |s|
    ensures n == [] || (!IsSpace(n[0]) && !IsSpace(n[|n| - 1]))
    ensures forall i :: 0 <= i < |n| ==> !('A' <= n[i] <= 'Z')
    ensures s == "" ==> n == ""
  {
    ToLower(Strip(s))
  }

  /** `_norm_route`: trim, then upper-case. The result has no whitespace
      at either end and no lower-case letter. */
  function NormRoute(r: string): (n: string)
    ensures |n| <= |r|
    ensures n == [] || (!IsSpace(n[0]) && !IsSpace(n[|n| - 1]))
    ensures forall i :: 0 <= i < |n| ==> !('a' <= n[i] <= 'z')
    ensures r == "" ==> n == ""
  {
    ToUpper(Strip(r))
  }

  /** Two identifiers are the same up to letter case. */
  predicate SameIgnoringCase(a: string, b: string) {
    ToLower(a) == ToLower(b)
  }

  /** A string with no whitespace at either end is its own strip. */
  lemma StripFixed(u: string)
    requires u == [] || (!IsSpace(u[0]) && !IsSpace(u[|u| - 1]))
    ensures Strip(u) == u
  {
    assert LeadingSpaces(u) == 0;
    assert TrailingSpaces(u) == 0;
  }

  lemma {:induction false} NormStopIdempotent(s: string)
    ensures NormStop(NormStop(s)) == NormStop(s)
    ensures NormStop("") == ""
  {
    var t := Strip(s);
    var u := ToLower(t);
    if u != [] {
      LowerCharFacts(t[0]);
      LowerCharFacts(t[|t| - 1]);
    }
    StripFixed(u);
    forall i | 0 <= i < |u|
      ensures ToLower(u)[i] == u[i]
    {
      LowerCharFacts(t[i]);
    }
    assert Strip("") == "";
  }

  lemma {:induction false} NormRouteIdempotent(r: string)
    ensures NormRoute(NormRoute(r)) == NormRoute(r)
    ensures NormRoute("") == ""
  {
    var t := Strip(r);
    var u := ToUpper(t);
    if u != [] {
      UpperCharFacts(t[0]);
      UpperCharFacts(t[|t| - 1]);
    }
    StripFixed(u);
    forall i | 0 <= i < |u|
      ensures ToUpper(u)[i] == u[i]
    {
      UpperCharFacts(t[i]);
    }
    assert Strip("") == "";
  }

  /** Lower-casing an upper-cased string forgets the upper-casing. */
  lemma {:induction false} LowerOfUpper(s: string)
    ensures ToLower(ToUpper(s)) == ToLower(s)
  {
    forall i | 0 <= i < |s|
      ensures ToLower(ToUpper(s))[i] == ToLower(s)[i]
    {
      LowerCharFacts(s[i]);
    }
  }

  /** If the upper-case of `x` is the lower-case of `y`, neither has a
      letter, so they are equal ignoring case. */
  lemma {:induction false} UpperMeetsLower(x: string, y: string)
    requires ToUpper(x) == ToLower(y)
    ensures SameIgnoringCase(x, y)
  {
    forall i | 0 <= i < |x|
      ensures ToLower(x)[i] == ToLower(y)[i]
    {
      assert UpperChar(x[i]) == LowerChar(y[i]);
    }
  }

  /** Equal upper-case forms mean equal lower-case forms (ASCII). */
  lemma {:induction false} SameUpperSameLower(x: string, y: string)
    requires ToUpper(x) == ToUpper(y)
    ensures SameIgnoringCase(x, y)
  {
    LowerOfUpper(x);
    LowerOfUpper(y);
  }
}

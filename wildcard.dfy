/**
 * WildcardMatch from fwcmatch/src/wildcard.h and the pattern notation its backends
 * implement: the '*' and '?' part of the pattern matching notation of POSIX.1-2017,
 * Shell and Utilities, sections 2.13.1 and 2.13.2 (no bracket expressions, no escapes).
 */
module Wildcard {

  /** The reference semantics: '*' matches any string, '?' any one character, others themselves. */
  predicate Glob(t: string, p: string)
    decreases |t| + |p|
  {
    if p == [] then t == []
    else if p[0] == '*' then Glob(t, p[1..]) || (t != [] && Glob(t[1..], p))
    else t != [] && (p[0] == '?' || p[0] == t[0]) && Glob(t[1..], p[1..])
  }

  predicate AllStars(p: string)
  {
    forall k :: 0 <= k < |p| ==> p[k] == '*'
  }

  predicate StarFree(m: string)
  {
    forall k :: 0 <= k < |m| ==> m[k] != '*'
  }

  /** Each pattern character is '?' or the text character at the same place. */
  predicate CharsMatch(u: string, m: string)
    requires |u| == |m|
  {
    forall k :: 0 <= k < |m| ==> m[k] == '?' || m[k] == u[k]
  }

  /** The empty text matches exactly the patterns made of stars. */
  lemma {:induction false} GlobEmptyText(p: string)
    ensures Glob([], p) == AllStars(p)
  {
    if p != [] {
      GlobEmptyText(p[1..]);
      assert AllStars(p) == (p[0] == '*' && AllStars(p[1..])) by {
        if AllStars(p) {
          forall k | 0 <= k < |p[1..]| ensures p[1..][k] == '*' { assert p[k + 1] == '*'; }
        }
        if p[0] == '*' && AllStars(p[1..]) {
          forall k | 0 <= k < |p| ensures p[k] == '*' { if k > 0 { assert p[1..][k - 1] == '*'; } }
        }
      }
    }
  }

  /** A star-free pattern prefix consumes exactly as many text characters as it has. */
  lemma {:induction false} GlobStarFreePrefix(u: string, m: string, r: string)
    requires StarFree(m)
    ensures Glob(u, m + r) == (|u| >= |m| && CharsMatch(u[..|m|], m) && Glob(u[|m|..], r))
  {
    if m == [] {
      assert m + r == r;
      assert u[0..] == u;
    } else {
      var mr := m + r;
      assert mr[0] == m[0] && mr[1..] == m[1..] + r;
      assert m[0] != '*';
      assert StarFree(m[1..]) by {
        forall k | 0 <= k < |m[1..]| ensures m[1..][k] != '*' { assert m[k + 1] != '*'; }
      }
      if u != [] {
        GlobStarFreePrefix(u[1..], m[1..], r);
        if |u| >= |m| {
          assert u[1..][|m[1..]|..] == u[|m|..];
          assert u[1..][..|m[1..]|] == u[..|m|][1..];
          assert CharsMatch(u[..|m|], m) == ((m[0] == '?' || m[0] == u[0]) && CharsMatch(u[..|m|][1..], m[1..])) by {
            var w := u[..|m|];
            if CharsMatch(w, m) {
              forall k | 0 <= k < |m[1..]| ensures m[1..][k] == '?' || m[1..][k] == w[1..][k] {
                assert m[k + 1] == '?' || m[k + 1] == w[k + 1];
              }
            }
            if (m[0] == '?' || m[0] == w[0]) && CharsMatch(w[1..], m[1..]) {
              forall k | 0 <= k < |m| ensures m[k] == '?' || m[k] == w[k] {
                if k > 0 { assert m[1..][k - 1] == '?' || m[1..][k - 1] == w[1..][k - 1]; }
              }
            }
          }
        }
      }
    }
  }

  /** A pattern that starts with '*' matching a suffix also matches every longer suffix. */
  lemma {:induction false} GlobStarSuffix(s: string, i: nat, j: nat, q: string)
    requires i <= j <= |s| && q != [] && q[0] == '*'
    requires Glob(s[j..], q)
    ensures Glob(s[i..], q)
    decreases j - i
  {
    if i < j {
      GlobStarSuffix(s, i + 1, j, q);
      assert s[i..][1..] == s[i + 1..];
    }
  }

  /**
   * WildcardMatch::isMatch: an empty pattern matches every text (as grep does), an
   * empty text matches only the pattern "*", and everything else goes to the backend.
   */
  function IsMatch(impl: (string, string) -> bool, text: string, pattern: string): (r: bool)
    ensures pattern == [] ==> r
    ensures text == [] && r ==> pattern == [] || pattern == "*"
  {
    if pattern == [] then true
    else if text == [] then |pattern| == 1 && pattern[0] == '*'
    else impl(text, pattern)
  }

  /**
   * Given a backend with the reference semantics on non-empty arguments, the wrapper
   * matches exactly when the pattern is empty, or the reference semantics match and
   * the text is non-empty or the pattern is a single character: it departs from
   * glob on a non-empty text with the empty pattern, and on the empty text with a
   * pattern of two or more stars.
   */
  lemma IsMatchAgainstGlob(impl: (string, string) -> bool, text: string, pattern: string)
    requires forall t, p :: t != [] && p != [] ==> impl(t, p) == Glob(t, p)
    ensures IsMatch(impl, text, pattern) == (pattern == [] || (Glob(text, pattern) && (text != [] || |pattern| == 1)))
  {
    if pattern != [] && text == [] {
      GlobEmptyText(pattern);
    }
  }

  /**
   * Where the wrapper departs from the reference semantics: an empty pattern matches
   * a non-empty text, and an empty text does not match "**".
   */
  lemma NormalisationDeparts(impl: (string, string) -> bool)
    ensures IsMatch(impl, "", "") && IsMatch(impl, "", "*") && !IsMatch(impl, "", "a")
    ensures IsMatch(impl, "a", "") && !Glob("a", "")
    ensures !IsMatch(impl, "", "**") && Glob("", "**")
  {
    GlobEmptyText("**");
  }
}

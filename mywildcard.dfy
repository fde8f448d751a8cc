/**
 * MyWildcardMatch::isMatchImpl from fwcmatch/src/mywildcard.cpp: a single pass over
 * the text that remembers only the last '*' seen and, on a mismatch, retries the
 * rest of the pattern after that star one text character further on.
 *
 * The C++ walks a NUL-terminated pattern: reading one past the last character gives
 * '\0'.  The state of the loop is (ti, pi) for ptext and ppattern, hasStar for
 * starpos != nullptr, sp for starpos and tp for textpos.
 */
module MyWildcard {
  import opened Wildcard

  /** *ppattern: the pattern character at i, or the terminating NUL. */
  function PatAt(p: string, i: nat): char
  {
    if i < |p| then p[i] else '\0'
  }

  /** The final loop: skip stars, then succeed iff the terminator is reached. */
  predicate TailOk(p: string, i: nat)
    requires i <= |p|
    decreases |p| - i
  {
    if PatAt(p, i) == '*' then TailOk(p, i + 1) else PatAt(p, i) == '\0'
  }

  /**
   * The main loop as written: the equality branch is tried before the star branch,
   * and a text character is compared with the terminator when the pattern is used up.
   * Reading past the terminator only happens for a NUL in the text, which is excluded.
   */
  predicate Scan(t: string, p: string, ti: nat, pi: nat, hasStar: bool, sp: nat, tp: nat)
    requires '\0' !in t
    requires ti <= |t| && pi <= |p| && tp <= ti && sp <= |p|
    decreases if hasStar then |t| - tp else |t| + 1, |t| - ti, |p| - pi
  {
    if ti == |t| then TailOk(p, pi)
    else if t[ti] == PatAt(p, pi) || PatAt(p, pi) == '?' then
      Scan(t, p, ti + 1, pi + 1, hasStar, sp, tp)
    else if PatAt(p, pi) == '*' then
      if PatAt(p, pi + 1) == '\0' then true
      else Scan(t, p, ti, pi + 1, true, pi + 1, ti)
    else if hasStar then Scan(t, p, tp + 1, sp, true, sp, tp + 1)
    else false
  }

  /** isMatchImpl(text, pattern) as written. */
  predicate MatchAsWritten(t: string, p: string)
    requires '\0' !in t
  {
    Scan(t, p, 0, 0, false, 0, 0)
  }

  /**
   * The same scan with the star tested first and the pattern end tested by length,
   * so a '*' or a NUL in the text is an ordinary character.
   */
  predicate GlobScan(t: string, p: string, ti: nat, pi: nat, hasStar: bool, sp: nat, tp: nat)
    requires ti <= |t| && pi <= |p| && tp <= ti && sp <= |p|
    decreases if hasStar then |t| - tp else |t| + 1, |t| - ti, |p| - pi
  {
    if ti == |t| then AllStars(p[pi..])
    else if pi < |p| && p[pi] == '*' then
      if pi + 1 == |p| then true
      else GlobScan(t, p, ti, pi + 1, true, pi + 1, ti)
    else if pi < |p| && (p[pi] == '?' || p[pi] == t[ti]) then
      GlobScan(t, p, ti + 1, pi + 1, hasStar, sp, tp)
    else if hasStar then GlobScan(t, p, tp + 1, sp, true, sp, tp + 1)
    else false
  }

  /** The corrected matcher. */
  predicate MatchCorrected(t: string, p: string)
  {
    GlobScan(t, p, 0, 0, false, 0, 0)
  }

  /**
   * What a scan state stands for.  Without a star, t[..ti] has matched p[..pi]
   * character by character.  With one, p[sp - 1] is that star and the star-free
   * p[sp..pi] has matched t[tp..ti]; the star may still absorb t[tp..].
   */
  ghost predicate ScanState(t: string, p: string, ti: nat, pi: nat, hasStar: bool, sp: nat, tp: nat)
  {
    && ti <= |t| && pi <= |p| && tp <= ti && sp <= |p|
    && (hasStar ==>
          && 1 <= sp <= pi && p[sp - 1] == '*' && ti - tp == pi - sp
          && StarFree(p[sp..pi]) && CharsMatch(t[tp..ti], p[sp..pi]))
  }

  /** The answer a scan state owes. */
  ghost predicate Owed(t: string, p: string, ti: nat, pi: nat, hasStar: bool, sp: nat, tp: nat)
    requires ScanState(t, p, ti, pi, hasStar, sp, tp)
  {
    if hasStar then Glob(t[tp..], p[sp - 1..]) else Glob(t[ti..], p[pi..])
  }

  /** p[sp - 1..] split at pi: the star, the matched star-free run and the rest. */
  lemma SplitAtStar(p: string, sp: nat, pi: nat)
    requires 1 <= sp <= pi <= |p|
    ensures p[sp - 1..] == [p[sp - 1]] + (p[sp..pi] + p[pi..])
    ensures p[sp - 1..][1..] == p[sp..pi] + p[pi..]
  {
  }

  /** Text exhausted with a star pending: the rest of the pattern must be stars. */
  lemma {:induction false} OwedAtEnd(t: string, p: string, pi: nat, sp: nat, tp: nat)
    requires ScanState(t, p, |t|, pi, true, sp, tp)
    ensures Owed(t, p, |t|, pi, true, sp, tp) == AllStars(p[pi..])
  {
    var m, r := p[sp..pi], p[pi..];
    SplitAtStar(p, sp, pi);
    GlobEmptyText(r);
    GlobStarFreePrefix(t[tp..], m, r);
    assert t[tp..][..|m|] == t[tp..|t|];
    assert t[tp..][|m|..] == [];
    if AllStars(r) {
      assert Glob(t[tp..], p[sp - 1..][1..]);
    } else {
      NoLaterStart(t, tp, m, r);
    }
  }

  /** Starting the star-free run anywhere after tp leaves too little text. */
  lemma {:induction false} NoLaterStart(t: string, a: nat, m: string, r: string)
    requires a <= |t| && |t| - a == |m| && StarFree(m) && !AllStars(r)
    requires CharsMatch(t[a..], m)
    ensures !Glob(t[a..], ['*'] + (m + r))
    decreases |t| - a
  {
    var q := ['*'] + (m + r);
    assert q[1..] == m + r;
    GlobStarFreePrefix(t[a..], m, r);
    assert t[a..][|m|..] == [];
    GlobEmptyText(r);
    if a < |t| {
      assert t[a..][1..] == t[a + 1..];
      NotFromShorter(t, a + 1, m, r);
    }
  }

  /** Any text shorter than the star-free run is not matched by a leading star and the run. */
  lemma {:induction false} NotFromShorter(t: string, a: nat, m: string, r: string)
    requires a <= |t| && |t| - a < |m| && StarFree(m)
    ensures !Glob(t[a..], ['*'] + (m + r))
    decreases |t| - a
  {
    var q := ['*'] + (m + r);
    assert q[1..] == m + r;
    GlobStarFreePrefix(t[a..], m, r);
    if a < |t| {
      assert t[a..][1..] == t[a + 1..];
      NotFromShorter(t, a + 1, m, r);
    }
  }

  /**
   * Reaching the next star commits to the earliest place the run matched: a match of
   * "*" m rest from any a >= tp gives one of rest from ti = tp + |m|, and conversely.
   */
  lemma {:induction false} DropEarlierStar(t: string, a: nat, tp: nat, m: string, rest: string)
    requires tp <= a <= |t| && tp + |m| <= |t| && StarFree(m)
    requires CharsMatch(t[tp..tp + |m|], m)
    requires rest != [] && rest[0] == '*'
    requires Glob(t[a..], ['*'] + (m + rest))
    ensures Glob(t[tp + |m|..], rest)
    decreases |t| - a
  {
    var q := ['*'] + (m + rest);
    assert q[1..] == m + rest;
    GlobStarFreePrefix(t[a..], m, rest);
    if Glob(t[a..], m + rest) {
      assert t[a..][|m|..] == t[a + |m|..];
      GlobStarSuffix(t, tp + |m|, a + |m|, rest);
    } else {
      assert t[a..][1..] == t[a + 1..];
      DropEarlierStar(t, a + 1, tp, m, rest);
    }
  }

  /** The corrected scan gives what each state owes. */
  lemma {:induction false} GlobScanMeetsOwed(t: string, p: string, ti: nat, pi: nat, hasStar: bool, sp: nat, tp: nat)
    requires ScanState(t, p, ti, pi, hasStar, sp, tp)
    ensures GlobScan(t, p, ti, pi, hasStar, sp, tp) == Owed(t, p, ti, pi, hasStar, sp, tp)
    decreases if hasStar then |t| - tp else |t| + 1, |t| - ti, |p| - pi
  {
    if ti == |t| {
      if hasStar {
        OwedAtEnd(t, p, pi, sp, tp);
      } else {
        GlobEmptyText(p[pi..]);
      }
    } else if pi < |p| && p[pi] == '*' {
      assert p[pi..][1..] == p[pi + 1..];
      if pi + 1 == |p| {
        GlobEmptyText(p[pi + 1..]);
        GlobStarSuffix(t[ti..], 0, |t[ti..]|, p[pi..]);
        assert t[ti..][0..] == t[ti..];
        if hasStar {
          StarThenMatched(t, p, ti, pi, sp, tp);
        }
      } else {
        assert ScanState(t, p, ti, pi + 1, true, pi + 1, ti) by {
          assert p[pi + 1..pi + 1] == [] && t[ti..ti] == [];
        }
        GlobScanMeetsOwed(t, p, ti, pi + 1, true, pi + 1, ti);
        if hasStar {
          StarThenMatched(t, p, ti, pi, sp, tp);
        }
      }
    } else if pi < |p| && (p[pi] == '?' || p[pi] == t[ti]) {
      assert t[ti..][1..] == t[ti + 1..] && p[pi..][1..] == p[pi + 1..];
      if hasStar {
        ExtendRun(t, p, ti, pi, sp, tp);
      }
      GlobScanMeetsOwed(t, p, ti + 1, pi + 1, hasStar, sp, tp);
    } else if hasStar {
      Backtrack(t, p, ti, pi, sp, tp);
      assert ScanState(t, p, tp + 1, sp, true, sp, tp + 1) by {
        assert p[sp..sp] == [] && t[tp + 1..tp + 1] == [];
      }
      GlobScanMeetsOwed(t, p, tp + 1, sp, true, sp, tp + 1);
    } else {
      assert t[ti..] != [];
    }
  }

  /** A second star after a matched run: the earlier star's answer is the later star's. */
  lemma StarThenMatched(t: string, p: string, ti: nat, pi: nat, sp: nat, tp: nat)
    requires ScanState(t, p, ti, pi, true, sp, tp) && pi < |p| && p[pi] == '*'
    ensures Glob(t[tp..], p[sp - 1..]) == Glob(t[ti..], p[pi..])
  {
    var m, rest := p[sp..pi], p[pi..];
    SplitAtStar(p, sp, pi);
    assert p[sp - 1] == '*';
    assert t[tp..][0..] == t[tp..];
    assert t[tp..tp + |m|] == t[tp..ti];
    if Glob(t[tp..], p[sp - 1..]) {
      DropEarlierStar(t, tp, tp, m, rest);
    }
    if Glob(t[ti..], rest) {
      GlobStarFreePrefix(t[tp..], m, rest);
      assert t[tp..][..|m|] == t[tp..ti] && t[tp..][|m|..] == t[ti..];
      assert Glob(t[tp..], p[sp - 1..][1..]);
    }
  }

  /** One more character of the run matches. */
  lemma ExtendRun(t: string, p: string, ti: nat, pi: nat, sp: nat, tp: nat)
    requires ScanState(t, p, ti, pi, true, sp, tp) && ti < |t| && pi < |p|
    requires p[pi] != '*' && (p[pi] == '?' || p[pi] == t[ti])
    ensures ScanState(t, p, ti + 1, pi + 1, true, sp, tp)
  {
    assert p[sp..pi + 1] == p[sp..pi] + [p[pi]];
    assert t[tp..ti + 1] == t[tp..ti] + [t[ti]];
    var m := p[sp..pi + 1];
    var u := t[tp..ti + 1];
    forall k | 0 <= k < |m| ensures m[k] != '*' && (m[k] == '?' || m[k] == u[k]) {
      if k < pi - sp {
        assert m[k] == p[sp..pi][k] && u[k] == t[tp..ti][k];
      }
    }
  }

  /** The run failed at tp: the star must absorb t[tp]. */
  lemma Backtrack(t: string, p: string, ti: nat, pi: nat, sp: nat, tp: nat)
    requires ScanState(t, p, ti, pi, true, sp, tp) && ti < |t|
    requires !(pi < |p| && p[pi] == '*') && !(pi < |p| && (p[pi] == '?' || p[pi] == t[ti]))
    ensures Glob(t[tp..], p[sp - 1..]) == Glob(t[tp + 1..], p[sp - 1..])
  {
    var m, r := p[sp..pi], p[pi..];
    SplitAtStar(p, sp, pi);
    GlobStarFreePrefix(t[tp..], m, r);
    assert t[tp..][..|m|] == t[tp..ti] && t[tp..][|m|..] == t[ti..];
    assert !Glob(t[ti..], r);
    assert t[tp..][1..] == t[tp + 1..];
  }

  /** The corrected matcher decides the reference semantics for every text and pattern. */
  lemma MatchCorrectedIsGlob(t: string, p: string)
    ensures MatchCorrected(t, p) == Glob(t, p)
  {
    GlobScanMeetsOwed(t, p, 0, 0, false, 0, 0);
    assert t[0..] == t && p[0..] == p;
  }

  /** Without a NUL in the pattern, the terminator check is the length check. */
  lemma {:induction false} TailOkIsAllStars(p: string, i: nat)
    requires i <= |p| && '\0' !in p
    ensures TailOk(p, i) == AllStars(p[i..])
    decreases |p| - i
  {
    if i < |p| {
      TailOkIsAllStars(p, i + 1);
      assert p[i..][1..] == p[i + 1..];
      assert AllStars(p[i..]) == (p[i] == '*' && AllStars(p[i + 1..])) by {
        if p[i] == '*' && AllStars(p[i + 1..]) {
          forall k | 0 <= k < |p[i..]| ensures p[i..][k] == '*' {
            if k > 0 { assert p[i..][k] == p[i + 1..][k - 1]; }
          }
        }
      }
    }
  }

  /** With no '*' and no NUL in the text and no NUL in the pattern, the order of the branches does not matter. */
  lemma {:induction false} ScanAgrees(t: string, p: string, ti: nat, pi: nat, hasStar: bool, sp: nat, tp: nat)
    requires '\0' !in t && '*' !in t && '\0' !in p
    requires ti <= |t| && pi <= |p| && tp <= ti && sp <= |p|
    ensures Scan(t, p, ti, pi, hasStar, sp, tp) == GlobScan(t, p, ti, pi, hasStar, sp, tp)
    decreases if hasStar then |t| - tp else |t| + 1, |t| - ti, |p| - pi
  {
    if ti == |t| {
      TailOkIsAllStars(p, pi);
    } else {
      assert t[ti] != '*' && t[ti] != '\0';
      if pi < |p| {
        assert p[pi] != '\0';
      }
      if t[ti] == PatAt(p, pi) || PatAt(p, pi) == '?' {
        ScanAgrees(t, p, ti + 1, pi + 1, hasStar, sp, tp);
      } else if PatAt(p, pi) == '*' {
        if PatAt(p, pi + 1) != '\0' {
          ScanAgrees(t, p, ti, pi + 1, true, pi + 1, ti);
        }
      } else if hasStar {
        ScanAgrees(t, p, tp + 1, sp, true, sp, tp + 1);
      }
    }
  }

  /** The claim of the comments in mywildcard.cpp: glob semantics, for texts without '*' and NUL. */
  lemma MatchAsWrittenIsGlob(t: string, p: string)
    requires '\0' !in t && '*' !in t && '\0' !in p
    ensures MatchAsWritten(t, p) == Glob(t, p)
  {
    ScanAgrees(t, p, 0, 0, false, 0, 0);
    MatchCorrectedIsGlob(t, p);
  }

  /** A '*' in the text is consumed by a '*' of the pattern as a literal. */
  lemma StarInTextCounterexample()
    ensures !MatchAsWritten("*ab", "*b")
    ensures Glob("*ab", "*b") && MatchCorrected("*ab", "*b")
  {
    MatchCorrectedIsGlob("*ab", "*b");
    assert Glob("b", "b");
    assert Glob("ab", "*b") by { assert Glob("b", "*b"); }
  }

  /** The examples with '?' the comments of mywildcard.cpp walk through: one character each, no more and no fewer. */
  lemma QuestionExamples()
    ensures MatchAsWritten("abc", "a?c") && MatchAsWritten("abc", "a??")
    ensures !MatchAsWritten("abc", "a???")
  {
    MatchAsWrittenIsGlob("abc", "a???");
    MatchAsWrittenIsGlob("abc", "a?c");
    MatchAsWrittenIsGlob("abc", "a??");
  }

  /** The examples with '*' the comments of mywildcard.cpp walk through. */
  lemma StarExamples()
    ensures MatchAsWritten("abc", "a*c") && MatchAsWritten("abcabc", "*c")
  {
    MatchAsWrittenIsGlob("abc", "a*c");
    MatchAsWrittenIsGlob("abcabc", "*c");
    assert Glob("c", "c");
    assert Glob("c", "*c");
    assert Glob("bc", "*c");
  }

  /** isMatchImpl: the pointer loop, then the loop over trailing stars. */
  method IsMatchImpl(text: string, pattern: string) returns (r: bool)
    requires '\0' !in text
    ensures r == MatchAsWritten(text, pattern)
    ensures '*' !in text && '\0' !in pattern ==> (r <==> Glob(text, pattern))
  {
    if '*' !in text && '\0' !in pattern {
      MatchAsWrittenIsGlob(text, pattern);
    }
    var ptext, ppattern := 0, 0;
    var hasStar, starpos, textpos := false, 0, 0;
    while ptext != |text|
      invariant ptext <= |text| && ppattern <= |pattern| && textpos <= ptext && starpos <= |pattern|
      invariant Scan(text, pattern, ptext, ppattern, hasStar, starpos, textpos) == MatchAsWritten(text, pattern)
      decreases if hasStar then |text| - textpos else |text| + 1, |text| - ptext, |pattern| - ppattern
    {
      if text[ptext] == PatAt(pattern, ppattern) || '?' == PatAt(pattern, ppattern) {
        ptext := ptext + 1;
        ppattern := ppattern + 1;
      } else if '*' == PatAt(pattern, ppattern) {
        ppattern := ppattern + 1;
        if PatAt(pattern, ppattern) == '\0' {
          return true;
        }
        starpos := ppattern;
        hasStar := true;
        textpos := ptext;
      } else if hasStar {
        ppattern := starpos;
        textpos := textpos + 1;
        ptext := textpos;
      } else {
        return false;
      }
    }
    while '*' == PatAt(pattern, ppattern)
      invariant ppattern <= |pattern|
      invariant TailOk(pattern, ppattern) == MatchAsWritten(text, pattern)
      decreases |pattern| - ppattern
    {
      ppattern := ppattern + 1;
    }
    return PatAt(pattern, ppattern) == '\0';
  }
}

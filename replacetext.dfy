/**
 * The static replaceAll helper of fwcmatch/src/regexwildcard.cpp: std::string::find
 * and str.replace in a loop, specified by the leftmost, non-overlapping replacement
 * of every occurrence.
 */
module ReplaceText {
  import opened Wrappers

  predicate OccursAt(s: string, from: string, k: nat)
  {
    k + |from| <= |s| && s[k..k + |from|] == from
  }

  /** std::string::find(from, pos): the first occurrence at or after pos. */
  function Find(s: string, from: string, pos: nat): (r: Option<nat>)
    requires pos <= |s|
    decreases |s| - pos
    ensures r.Some? ==> pos <= r.value && OccursAt(s, from, r.value)
    ensures r.Some? ==> forall k :: pos <= k < r.value ==> !OccursAt(s, from, k)
    ensures r.None? ==> forall k :: pos <= k <= |s| ==> !OccursAt(s, from, k)
  {
    if pos + |from| > |s| then None
    else if s[pos..pos + |from|] == from then Some(pos)
    else if pos == |s| then None
    else Find(s, from, pos + 1)
  }

  /**
   * The leftmost, non-overlapping replacement of every occurrence of from by to,
   * read off the original text: replaced text is never looked at again.
   */
  function Replaced(s: string, from: string, to: string): string
    requires |from| > 0
  {
    if |s| < |from| then s
    else if s[..|from|] == from then to + Replaced(s[|from|..], from, to)
    else [s[0]] + Replaced(s[1..], from, to)
  }

  /** A character that does not start an occurrence is copied. */
  lemma ReplacedCopies(s: string, from: string, to: string, pos: nat)
    requires |from| > 0 && pos < |s| && !OccursAt(s, from, pos)
    ensures Replaced(s[pos..], from, to) == [s[pos]] + Replaced(s[pos + 1..], from, to)
  {
    var t := s[pos..];
    assert t[1..] == s[pos + 1..];
    if |t| >= |from| {
      assert t[..|from|] == s[pos..pos + |from|];
    } else {
      assert Replaced(t[1..], from, to) == t[1..];
      assert t == [t[0]] + t[1..];
    }
  }

  /** At an occurrence the replacement text is emitted and the occurrence skipped. */
  lemma ReplacedAtOccurrence(s: string, from: string, to: string, k: nat)
    requires |from| > 0 && OccursAt(s, from, k)
    ensures Replaced(s[k..], from, to) == to + Replaced(s[k + |from|..], from, to)
  {
    var t := s[k..];
    assert t[..|from|] == s[k..k + |from|];
    assert t[|from|..] == s[k + |from|..];
  }

  /** Characters before the next occurrence are copied as they are. */
  lemma {:induction false} ReplacedSkip(s: string, from: string, to: string, pos: nat, k: nat)
    requires |from| > 0 && pos <= k <= |s|
    requires forall j :: pos <= j < k ==> !OccursAt(s, from, j)
    ensures Replaced(s[pos..], from, to) == s[pos..k] + Replaced(s[k..], from, to)
    decreases k - pos
  {
    if pos < k {
      ReplacedCopies(s, from, to, pos);
      ReplacedSkip(s, from, to, pos + 1, k);
      Prepend(s[pos], s[pos + 1..k], Replaced(s[pos..], from, to),
        Replaced(s[pos + 1..], from, to), Replaced(s[k..], from, to));
      assert [s[pos]] + s[pos + 1..k] == s[pos..k];
    }
  }

  /** Concatenation regrouped: [x] + (m + c) read as ([x] + m) + c. */
  lemma Prepend(x: char, m: string, a: string, b: string, c: string)
    requires a == [x] + b && b == m + c
    ensures a == ([x] + m) + c
  {
  }

  /** A text without occurrences from pos on comes back unchanged. */
  lemma ReplacedNoOccurrence(s: string, from: string, to: string, pos: nat)
    requires |from| > 0 && pos <= |s|
    requires forall k :: pos <= k <= |s| ==> !OccursAt(s, from, k)
    ensures Replaced(s[pos..], from, to) == s[pos..]
  {
    ReplacedSkip(s, from, to, pos, |s|);
  }

  /** Concatenation regrouped: p + (b + (t + d)) read as ((p + b) + t) + d. */
  lemma Regroup(p: string, b: string, t: string, a: string, c: string, d: string)
    requires a == b + c && c == t + d
    ensures p + a == ((p + b) + t) + d
  {
  }

  /** One replacement: the prefix up to the occurrence and to, then the rest after the occurrence. */
  lemma ReplaceStep(s: string, from: string, to: string, pos: nat, k: nat)
    requires |from| > 0 && pos <= k && OccursAt(s, from, k)
    requires forall j :: pos <= j < k ==> !OccursAt(s, from, j)
    ensures s[..pos] + Replaced(s[pos..], from, to) == (s[..k] + to) + Replaced(s[k + |from|..], from, to)
  {
    ReplacedSkip(s, from, to, pos, k);
    ReplacedAtOccurrence(s, from, to, k);
    Regroup(s[..pos], s[pos..k], to, Replaced(s[pos..], from, to),
      Replaced(s[k..], from, to), Replaced(s[k + |from|..], from, to));
    assert s[..pos] + s[pos..k] == s[..k];
  }

  /** replaceAll(str, from, to): find from pos, replace, continue after the inserted text. */
  method ReplaceAll(str: string, from: string, to: string) returns (r: string)
    requires |from| > 0
    ensures r == Replaced(str, from, to)
  {
    r := str;
    var pos: nat := 0;
    var found := Find(r, from, pos);
    assert r[pos..] == str;
    while found.Some?
      invariant pos <= |r|
      invariant found == Find(r, from, pos)
      invariant Replaced(str, from, to) == r[..pos] + Replaced(r[pos..], from, to)
      decreases |r| - pos
    {
      var k := found.value;
      ReplaceStep(r, from, to, pos, k);
      var next := r[..k] + to + r[k + |from|..];
      assert next[..k + |to|] == r[..k] + to;
      assert next[k + |to|..] == r[k + |from|..];
      r, pos := next, k + |to|;
      found := Find(r, from, pos);
    }
    ReplacedNoOccurrence(r, from, to, pos);
    assert r[..pos] + r[pos..] == r;
  }

  /** replaceAll leaves a text in which from does not occur unchanged. */
  lemma ReplacedUnchanged(s: string, from: string, to: string)
    requires |from| > 0
    requires forall k :: 0 <= k <= |s| ==> !OccursAt(s, from, k)
    ensures Replaced(s, from, to) == s
  {
    ReplacedNoOccurrence(s, from, to, 0);
    assert s[0..] == s;
  }

  /** Replacing a single character: the first character is rewritten or kept, then the rest. */
  lemma ReplacedCharHead(s: string, c: char, to: string)
    requires |s| > 0
    ensures Replaced(s, [c], to) == (if s[0] == c then to else [s[0]]) + Replaced(s[1..], [c], to)
  {
    assert s[..1] == [s[0]];
  }

  /** A single-character from cannot straddle a split, so its replacement distributes over concatenation. */
  lemma {:induction false} ReplacedCharConcat(a: string, b: string, c: char, to: string)
    ensures Replaced(a + b, [c], to) == Replaced(a, [c], to) + Replaced(b, [c], to)
  {
    if a == [] {
      assert a + b == b;
    } else {
      assert (a + b)[0] == a[0] && (a + b)[1..] == a[1..] + b;
      ReplacedCharHead(a + b, c, to);
      ReplacedCharHead(a, c, to);
      ReplacedCharConcat(a[1..], b, c, to);
    }
  }

  /** One character is rewritten exactly when it is the character replaced. */
  lemma ReplacedOneChar(x: char, c: char, to: string)
    ensures Replaced([x], [c], to) == if x == c then to else [x]
  {
    ReplacedCharHead([x], c, to);
    assert [x][1..] == [];
  }

  /** Replacing a character by a non-empty text never shortens the text. */
  lemma {:induction false} ReplacedCharLonger(s: string, c: char, to: string)
    requires |to| >= 1
    ensures |Replaced(s, [c], to)| >= |s|
  {
    if |s| > 0 {
      ReplacedCharHead(s, c, to);
      ReplacedCharLonger(s[1..], c, to);
    }
  }

  /** A character the text lacks is never replaced. */
  lemma ReplacedAbsentChar(s: string, c: char, to: string)
    requires c !in s
    ensures Replaced(s, [c], to) == s
  {
    forall k | 0 <= k <= |s| ensures !OccursAt(s, [c], k) {
      if k < |s| {
        assert s[k] in s;
        assert s[k..k + 1] == [s[k]];
      }
    }
    ReplacedUnchanged(s, [c], to);
  }

  /** Search resumes after the inserted text: a to that contains from is not rescanned. */
  lemma ReplaceNoRescan()
    ensures Replaced("a", "a", "aa") == "aa"
  {
    ReplacedOneChar('a', 'a', "aa");
  }
}

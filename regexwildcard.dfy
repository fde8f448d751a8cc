/**
 * The glob-to-regex translation of REMatch (fwcmatch/src/regexwildcard.cpp): every
 * entry of a replacement table is applied in turn with replaceAll, and the result is
 * cached for the last pattern seen.  The regex engine itself is not modelled.
 */
module RegexWildcard {
  import opened Wrappers
  import opened ReplaceText

  datatype Replacement = Replacement(from: string, to: string)

  /** RE_REPLACE, in order: escape the regex metacharacters, then '*' to ".*" and '?' to ".". */
  const RE_REPLACE: seq<Replacement> := [
    Replacement("\\", "\\\\"),
    Replacement("^", "\\^"),
    Replacement(".", "\\."),
    Replacement("$", "\\$"),
    Replacement("|", "\\|"),
    Replacement("(", "\\("),
    Replacement(")", "\\)"),
    Replacement("{", "\\{"),
    Replacement("{", "\\}"),
    Replacement("[", "\\["),
    Replacement("]", "\\]"),
    Replacement("+", "\\+"),
    Replacement("/", "\\/"),
    Replacement("*", ".*"),
    Replacement("?", ".")
  ]

  /** The characters the table rewrites. */
  const SPECIAL: set<char> := {'\\', '^', '.', '$', '|', '(', ')', '{', '[', ']', '+', '/', '*', '?'}

  /** The entries from i on applied in order, each to the result of the ones before. */
  function ApplyFrom(i: nat, s: string): string
    requires i <= |RE_REPLACE|
    decreases |RE_REPLACE| - i
  {
    if i == |RE_REPLACE| then s else ApplyFrom(i + 1, Replaced(s, RE_REPLACE[i].from, RE_REPLACE[i].to))
  }

  /** The regex text mkRegExPattern builds for a glob: escaping never shortens it. */
  function Translate(pattern: string): (r: string)
    ensures |r| >= |pattern|
  {
    ApplyFromLonger(0, pattern);
    ApplyFrom(0, pattern)
  }

  /** Every entry replaces one character by at least one, so no entry shortens the text. */
  lemma {:induction false} ApplyFromLonger(i: nat, s: string)
    requires i <= |RE_REPLACE|
    ensures |ApplyFrom(i, s)| >= |s|
    decreases |RE_REPLACE| - i
  {
    if i < |RE_REPLACE| {
      var e := RE_REPLACE[i];
      assert e.from == [e.from[0]] && |e.to| >= 1;
      ReplacedCharLonger(s, e.from[0], e.to);
      ApplyFromLonger(i + 1, Replaced(s, e.from, e.to));
    }
  }

  /** The entries from i on rewrite a concatenation piece by piece. */
  lemma {:induction false} ApplyFromConcat(i: nat, a: string, b: string)
    requires i <= |RE_REPLACE|
    ensures ApplyFrom(i, a + b) == ApplyFrom(i, a) + ApplyFrom(i, b)
    decreases |RE_REPLACE| - i
  {
    if i < |RE_REPLACE| {
      var e := RE_REPLACE[i];
      assert e.from == [e.from[0]];
      ReplacedCharConcat(a, b, e.from[0], e.to);
      ApplyFromConcat(i + 1, Replaced(a, e.from, e.to), Replaced(b, e.from, e.to));
    }
  }

  /**
   * Every table entry rewrites a single character, so the translation works character
   * by character: the regex of a concatenation is the concatenation of the regexes.
   */
  lemma TranslateConcat(a: string, b: string)
    ensures Translate(a + b) == Translate(a) + Translate(b)
  {
    ApplyFromConcat(0, a, b);
  }

  /** Entries i up to j whose characters the text lacks leave the text unchanged. */
  lemma {:induction false} TableUntouched(i: nat, j: nat, s: string)
    requires i <= j <= |RE_REPLACE|
    requires forall m :: i <= m < j ==> RE_REPLACE[m].from[0] !in s
    ensures ApplyFrom(i, s) == ApplyFrom(j, s)
    decreases j - i
  {
    if i < j {
      assert RE_REPLACE[i].from == [RE_REPLACE[i].from[0]];
      ReplacedAbsentChar(s, RE_REPLACE[i].from[0], RE_REPLACE[i].to);
      TableUntouched(i + 1, j, s);
    }
  }

  /** A glob without any of the rewritten characters is its own regex text. */
  lemma TranslatePlain(pattern: string)
    requires forall k :: 0 <= k < |pattern| ==> pattern[k] !in SPECIAL
    ensures Translate(pattern) == pattern
  {
    forall m | 0 <= m < |RE_REPLACE| ensures RE_REPLACE[m].from[0] !in pattern {
      assert RE_REPLACE[m].from[0] in SPECIAL;
    }
    TableUntouched(0, |RE_REPLACE|, pattern);
  }

  /** The last entry on "a?c". */
  lemma QuestionRewritten()
    ensures Replaced("a?c", "?", ".") == "a.c"
  {
    assert "a?c" == "a" + "?c" && "?c" == "?" + "c";
    ReplacedCharConcat("a", "?c", '?', ".");
    ReplacedCharConcat("?", "c", '?', ".");
    ReplacedOneChar('a', '?', ".");
    ReplacedOneChar('?', '?', ".");
    ReplacedOneChar('c', '?', ".");
  }

  /** "a?c" becomes a.c : '?' is the last entry and nothing before it applies. */
  lemma TranslateQuestion()
    ensures Translate("a?c") == "a.c"
  {
    TableUntouched(0, 14, "a?c");
    QuestionRewritten();
  }

  /** The '.' entry on "a.b*". */
  lemma DotEscaped()
    ensures Replaced("a.b*", ".", "\\.") == "a\\.b*"
  {
    assert "a.b*" == "a." + "b*";
    ReplacedCharConcat("a.", "b*", '.', "\\.");
    ReplacedCharConcat("a", ".", '.', "\\.");
    ReplacedOneChar('a', '.', "\\.");
    ReplacedOneChar('.', '.', "\\.");
    ReplacedAbsentChar("b*", '.', "\\.");
  }

  /** The '*' entry on a\.b* . */
  lemma StarRewritten()
    ensures Replaced("a\\.b*", "*", ".*") == "a\\.b.*"
  {
    assert "a\\.b*" == "a\\.b" + "*";
    ReplacedCharConcat("a\\.b", "*", '*', ".*");
    ReplacedOneChar('*', '*', ".*");
    ReplacedAbsentChar("a\\.b", '*', ".*");
  }

  /** Entries 0 to 2 on "a.b*": only '.' is escaped. */
  lemma DotStarEscape()
    ensures ApplyFrom(0, "a.b*") == ApplyFrom(3, "a\\.b*")
  {
    TableUntouched(0, 2, "a.b*");
    assert RE_REPLACE[2] == Replacement(".", "\\.");
    DotEscaped();
  }

  /** Entries 3 to 13 on a\.b*: only '*' is rewritten, to ".*". */
  lemma DotStarRewrite()
    ensures ApplyFrom(3, "a\\.b*") == ApplyFrom(14, "a\\.b.*")
  {
    TableUntouched(3, 13, "a\\.b*");
    StarRewritten();
  }

  /** The escape of '.' comes before the rewrite of '*', so "a.b*" becomes a\.b.* . */
  lemma TranslateDotStar()
    ensures Translate("a.b*") == "a\\.b.*"
  {
    TableUntouched(14, 15, "a\\.b.*");
    DotStarEscape();
    DotStarRewrite();
  }

  /** The second '{' entry on the \{ the first one produced. */
  lemma BraceRewritten()
    ensures Replaced("\\{", "{", "\\}") == "\\\\}"
  {
    assert "\\{" == "\\" + "{";
    ReplacedCharConcat("\\", "{", '{', "\\}");
    ReplacedOneChar('{', '{', "\\}");
    ReplacedOneChar('\\', '{', "\\}");
  }

  /** Entries 0 to 8 on "{": the first '{' entry gives \{ and the second rewrites that '{'. */
  lemma BraceRewrite()
    ensures ApplyFrom(0, "{") == ApplyFrom(9, "\\\\}")
  {
    TableUntouched(0, 7, "{");
    ReplacedOneChar('{', '{', "\\{");
    BraceRewritten();
  }

  /** '{' is listed twice and '}' not at all: a '{' in the glob ends up as the three characters \\} . */
  lemma TranslateBrace()
    ensures Translate("{") == "\\\\}"
  {
    TableUntouched(9, 15, "\\\\}");
    BraceRewrite();
  }

  /** The REMatch cache: the last pattern and the regex text assigned for it, None before any assignment. */
  class REMatch {
    var pattern: string
    var regex: Option<string>

    ghost predicate Valid()
      reads this
    {
      if regex.Some? then regex.value == Translate(pattern) else pattern == []
    }

    constructor ()
      ensures Valid() && pattern == [] && regex == None
    {
      pattern := [];
      regex := None;
    }

    /** mkRegExPattern(pattern): translate unless pattern is the cached one. */
    method MkRegExPattern(pattern: string)
      requires Valid()
      modifies this
      ensures Valid() && this.pattern == pattern
      ensures pattern == old(this.pattern) ==> regex == old(regex)
      ensures pattern != old(this.pattern) ==> regex == Some(Translate(pattern))
    {
      if pattern == this.pattern {
        return;
      }
      this.pattern := pattern;
      var repattern := pattern;
      var i := 0;
      while i < |RE_REPLACE|
        invariant i <= |RE_REPLACE| && this.pattern == pattern
        invariant ApplyFrom(i, repattern) == Translate(pattern)
      {
        repattern := ReplaceAll(repattern, RE_REPLACE[i].from, RE_REPLACE[i].to);
        i := i + 1;
      }
      regex := Some(repattern);
    }
  }
}

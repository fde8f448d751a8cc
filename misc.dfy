/**
 * The string-reversal variants of TestReverse and the summation of TestFunc in
 * microbench/misc.cpp.  A std::string that a variant changes in place is an
 * array of characters; a const std::string& argument is a sequence.
 */
module MiscBench {

  /** The reverse of s: the last character first. */
  function Reversed(s: string): (r: string)
    ensures |r| == |s|
    ensures forall k :: 0 <= k < |s| ==> r[k] == s[|s| - 1 - k]
  {
    if s == [] then [] else [s[|s| - 1]] + Reversed(s[..|s| - 1])
  }

  /** Reversing twice gives the string back. */
  lemma ReversedTwice(s: string)
    ensures Reversed(Reversed(s)) == s
  {
  }

  /** The reverse of a concatenation is the concatenation of the reverses, swapped. */
  lemma ReversedConcat(a: string, b: string)
    ensures Reversed(a + b) == Reversed(b) + Reversed(a)
  {
    var l, r := Reversed(a + b), Reversed(b) + Reversed(a);
    assert forall k :: 0 <= k < |b| ==> l[k] == r[k];
    assert forall k :: |b| <= k < |a| + |b| ==> l[k] == r[k];
  }

  /** The first i characters and their mirror images are exchanged, the middle is untouched. */
  ghost predicate SwappedUpTo(cur: seq<char>, orig: seq<char>, i: nat)
  {
    && |cur| == |orig| && 2 * i <= |orig|
    && (forall k :: 0 <= k < i ==> cur[k] == orig[|orig| - 1 - k] && cur[|orig| - 1 - k] == orig[k])
    && (forall k :: i <= k < |orig| - i ==> cur[k] == orig[k])
  }

  /** Once the two cursors have met, the exchanges have reversed the string. */
  lemma SwappedToMiddle(cur: seq<char>, orig: seq<char>, i: nat)
    requires SwappedUpTo(cur, orig, i) && 2 * i + 1 >= |orig|
    ensures cur == Reversed(orig)
  {
    var n := |orig|;
    forall k | 0 <= k < n ensures cur[k] == Reversed(orig)[k] {
      if k >= n - i {
        assert cur[n - 1 - (n - 1 - k)] == orig[n - 1 - k];
      }
    }
  }

  /** std::swap(a[i], a[j]) keeps the exchanges made so far. */
  lemma SwapStep(before: seq<char>, after: seq<char>, orig: seq<char>, i: nat)
    requires SwappedUpTo(before, orig, i) && 2 * i + 2 <= |orig|
    requires after == before[i := before[|orig| - 1 - i]][|orig| - 1 - i := before[i]]
    ensures SwappedUpTo(after, orig, i + 1)
  {
  }

  /** byForLoop(str): swap i with last_idx - i for i below the middle; "" is left alone. */
  method ByForLoop(str: array<char>)
    modifies str
    ensures str[..] == Reversed(old(str[..]))
  {
    if str.Length == 0 {
      return;
    }
    ghost var orig := str[..];
    var middle := str.Length / 2;
    var lastIdx := str.Length - 1;
    for i := 0 to middle
      invariant SwappedUpTo(str[..], orig, i)
    {
      ghost var before := str[..];
      var t := str[i];
      str[i] := str[lastIdx - i];
      str[lastIdx - i] := t;
      SwapStep(before, str[..], orig, i);
    }
    SwappedToMiddle(str[..], orig, middle);
  }

  /** byForLoop2(str): iterators from both ends swapped until they meet. */
  method ByForLoop2(str: array<char>)
    modifies str
    ensures str[..] == Reversed(old(str[..]))
  {
    var first := 0;
    var last := str.Length;
    if first == last {
      return;
    }
    ghost var orig := str[..];
    last := last - 1;
    while first < last
      invariant last + first == str.Length - 1 && first <= last + 1
      invariant SwappedUpTo(str[..], orig, first)
    {
      ghost var before := str[..];
      var t := str[first];
      str[first] := str[last];
      str[last] := t;
      SwapStep(before, str[..], orig, first);
      first := first + 1;
      last := last - 1;
    }
    SwappedToMiddle(str[..], orig, first);
  }

  /** byForLoopConst(str): push the characters from the last to the first; "" for "". */
  method ByForLoopConst(str: string) returns (result: string)
    ensures result == Reversed(str)
  {
    result := [];
    if |str| == 0 {
      return;
    }
    var i: int := |str| - 1;
    while i >= 0
      invariant -1 <= i < |str| && |result| == |str| - 1 - i
      invariant forall j :: 0 <= j < |result| ==> result[j] == str[|str| - 1 - j]
    {
      result := result + [str[i]];
      i := i - 1;
    }
  }

  /** A fresh array holding the characters of s, as string result(str) makes a copy. */
  method Copy(s: string) returns (a: array<char>)
    ensures fresh(a) && a[..] == s
  {
    a := new char[|s|](k requires 0 <= k < |s| => s[k]);
  }

  /** byForLoopConst2(str): the swap loop of byForLoop on a copy; str itself is not changed. */
  method ByForLoopConst2(str: string) returns (result: string)
    ensures result == Reversed(str)
  {
    var copy := Copy(str);
    if |str| == 0 {
      return copy[..];
    }
    var middle := copy.Length / 2;
    var lastIdx := copy.Length - 1;
    for i := 0 to middle
      invariant SwappedUpTo(copy[..], str, i)
    {
      ghost var before := copy[..];
      var t := copy[i];
      copy[i] := copy[lastIdx - i];
      copy[lastIdx - i] := t;
      SwapStep(before, copy[..], str, i);
    }
    SwappedToMiddle(copy[..], str, middle);
    result := copy[..];
  }

  /** byContructor(str): string(str.rbegin(), str.rend()), the characters read backwards. */
  function ByContructor(str: string): (r: string)
    ensures r == Reversed(str)
  {
    seq(|str|, k requires 0 <= k < |str| => str[|str| - 1 - k])
  }

  /** byStdReverse(str): std::reverse over the whole string, every character set from its mirror at once. */
  method ByStdReverse(str: array<char>)
    modifies str
    ensures str[..] == Reversed(old(str[..]))
  {
    ghost var orig := str[..];
    var n := str.Length;
    var s := str[..];
    forall k | 0 <= k < n {
      str[k] := s[n - 1 - k];
    }
    assert forall k :: 0 <= k < n ==> str[..][k] == Reversed(orig)[k];
  }

  /** byStdReverseConst(str): std::reverse on a copy. */
  method ByStdReverseConst(str: string) returns (result: string)
    ensures result == Reversed(str)
  {
    var copy := Copy(str);
    ByStdReverse(copy);
    result := copy[..];
  }

  /**
   * All seven variants of TestReverse, each on its own copy of str: they give the
   * same string, the reverse of str.
   */
  method ReversalVariantsAgree(str: string) returns (results: seq<string>)
    ensures |results| == 7
    ensures forall i :: 0 <= i < 7 ==> results[i] == Reversed(str)
  {
    var r0 := ByStdReverseConst(str);
    var r1 := OnCopy(str, 0);
    var r2 := ByContructor(str);
    var r3 := ByForLoopConst(str);
    var r4 := ByForLoopConst2(str);
    var r5 := OnCopy(str, 1);
    var r6 := OnCopy(str, 2);
    results := [r0, r1, r2, r3, r4, r5, r6];
  }

  /** One of the in-place variants (0: byStdReverse, 1: byForLoop, 2: byForLoop2) run on a copy of str. */
  method OnCopy(str: string, variant: nat) returns (r: string)
    ensures r == Reversed(str)
  {
    var a := Copy(str);
    if variant == 0 {
      ByStdReverse(a);
    } else if variant == 1 {
      ByForLoop(a);
    } else {
      ByForLoop2(a);
    }
    r := a[..];
  }

  /** TestReverse: the input strings and the results of the last run. */
  class TestReverse {
    const strs: seq<string>
    var resultStrs: seq<string>

    constructor ()
      ensures strs == ["", "test", "some long long long string",
        "Lorem ipsum dolor sit amet, consectetur adipiscing elit, sed do eiusmod tempor incididunt ..."]
      ensures resultStrs == strs
    {
      strs := ["", "test", "some long long long string",
        "Lorem ipsum dolor sit amet, consectetur adipiscing elit, sed do eiusmod tempor incididunt ..."];
      new;
      resultStrs := strs;
    }

    /** runConst(func): result_strs[i] = func(strs[i]). */
    method RunConst(func: string -> string)
      modifies this
      ensures |resultStrs| == |strs|
      ensures forall i :: 0 <= i < |strs| ==> resultStrs[i] == func(strs[i])
    {
      resultStrs := strs;
      for i := 0 to |strs|
        invariant |resultStrs| == |strs|
        invariant forall k :: 0 <= k < i ==> resultStrs[k] == func(strs[k])
      {
        resultStrs := resultStrs[i := func(strs[i])];
      }
    }

    /** run(func): func applied in place to each copy in result_strs; func is given by its effect. */
    method Run(func: string -> string)
      modifies this
      ensures |resultStrs| == |strs|
      ensures forall i :: 0 <= i < |strs| ==> resultStrs[i] == func(strs[i])
    {
      resultStrs := strs;
      for i := 0 to |strs|
        invariant |resultStrs| == |strs|
        invariant forall k :: 0 <= k < i ==> resultStrs[k] == func(strs[k])
        invariant forall k :: i <= k < |strs| ==> resultStrs[k] == strs[k]
      {
        resultStrs := resultStrs[i := func(resultStrs[i])];
      }
    }
  }

  /** func(0, str) + ... + func(n - 1, str). */
  function SumOf(func: (int, string) -> int, str: string, n: nat): int
  {
    if n == 0 then 0 else SumOf(func, str, n - 1) + func(n - 1, str)
  }

  /** The lambda of the benchmarks: n + dep1 for an empty string, n + dep2 otherwise. */
  function BenchLambda(dep1: int, dep2: int): (int, string) -> int
  {
    (n: int, s: string) => if s == [] then n + dep1 else n + dep2
  }

  /** The benchmark sum in closed form: 0 + ... + (n - 1) plus n times the chosen dep. */
  lemma {:induction false} BenchSum(dep1: int, dep2: int, str: string, n: nat)
    ensures SumOf(BenchLambda(dep1, dep2), str, n) == n * (n - 1) / 2 + n * (if str == [] then dep1 else dep2)
  {
    if n > 0 {
      BenchSum(dep1, dep2, str, n - 1);
      assert (n - 1) * (n - 2) / 2 + (n - 1) == n * (n - 1) / 2 by {
        assert n * (n - 1) == (n - 1) * (n - 2) + 2 * (n - 1);
      }
    }
  }

  /** TestFunc: the string handed to the function and the iteration count. */
  class TestFunc {
    const str: string
    const iters: nat

    constructor ()
      ensures str == "test1" && iters == 1024
    {
      str := "test1";
      iters := 1024;
    }

    /** runLambda(func): res += func(i, str) for i below iters. */
    method RunLambda(func: (int, string) -> int) returns (res: int)
      ensures res == SumOf(func, str, iters)
    {
      res := 0;
      for i := 0 to iters
        invariant res == SumOf(func, str, i)
      {
        res := res + func(i, str);
      }
    }
  }

  /** BM_UseAsIsWithoutFunc: the lambda's body written inline in the loop. */
  method UseAsIsWithoutFunc(test: TestFunc, dep1: int, dep2: int) returns (res: int)
    ensures res == SumOf(BenchLambda(dep1, dep2), test.str, test.iters)
  {
    res := 0;
    for i := 0 to test.iters
      invariant res == SumOf(BenchLambda(dep1, dep2), test.str, i)
    {
      res := res + (if test.str == [] then i + dep1 else i + dep2);
    }
  }

  /** With dep1 = 100, dep2 = 200 and "test1", every benchmark reports 728576, well inside int. */
  lemma BenchResult()
    ensures SumOf(BenchLambda(100, 200), "test1", 1024) == 728576
    ensures 728576 < 0x8000_0000
  {
    BenchSum(100, 200, "test1", 1024);
  }
}

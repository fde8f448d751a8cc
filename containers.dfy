/**
 * hashCombine, the hash-caching record SomeArgs and the linear key search of
 * microbench/containers.cpp.  size_t is a 64-bit vector, so its additions and
 * shifts wrap as they do in C++; std::hash is a given function per field type.
 */
module ContainersBench {
  import opened Wrappers

  /** The std::hash specialisations used: for std::string, size_t, int and bool. */
  datatype Hasher = Hasher(ofStr: string -> bv64, ofSize: bv64 -> bv64, ofInt: int -> bv64, ofBool: bool -> bv64)

  /** One step of hashCombine: seed ^= h + 0x9e3779b9 + (seed << 6) + (seed >> 2). */
  function CombineStep(seed: bv64, h: bv64): bv64
  {
    seed ^ (h + 0x9e3779b9 + (seed << 6) + (seed >> 2))
  }

  /** hashCombine(seed, v...) over the hashes of its arguments, left to right. */
  function HashCombine(seed: bv64, hashes: seq<bv64>): (r: bv64)
    decreases |hashes|
    ensures hashes == [] ==> r == seed
    ensures |hashes| == 1 ==> r == CombineStep(seed, hashes[0])
  {
    if hashes == [] then seed else HashCombine(CombineStep(seed, hashes[0]), hashes[1..])
  }

  /** Combining a + b is combining a and then b: the fold runs strictly left to right. */
  lemma {:induction false} HashCombineAppend(seed: bv64, a: seq<bv64>, b: seq<bv64>)
    ensures HashCombine(seed, a + b) == HashCombine(HashCombine(seed, a), b)
    decreases |a|
  {
    if a == [] {
      assert a + b == b;
    } else {
      assert (a + b)[0] == a[0] && (a + b)[1..] == a[1..] + b;
      HashCombineAppend(CombineStep(seed, a[0]), a[1..], b);
    }
  }

  /** The four fields of SomeArgs that enter its hash and its comparison. */
  datatype Args = Args(str: string, v1: bv64, v2: int, b1: bool)

  /** _hash(): hashCombine from seed 0 over _str, _v1, _v2 and _b1, in that order. */
  function ArgsHash(h: Hasher, a: Args): bv64
  {
    HashCombine(0, [h.ofStr(a.str), h.ofSize(a.v1), h.ofInt(a.v2), h.ofBool(a.b1)])
  }

  /** notEqual: some field differs. */
  predicate ArgsDiffer(a: Args, b: Args)
    ensures ArgsDiffer(a, b) <==> a != b
  {
    !(a.b1 == b.b1 && a.v1 == b.v1 && a.v2 == b.v2 && a.str == b.str)
  }

  /** Different hashes can only come from different fields: the shortcut of notEqualByHash is sound. */
  lemma HashDiffersSound(h: Hasher, a: Args, b: Args)
    ensures ArgsHash(h, a) != ArgsHash(h, b) ==> ArgsDiffer(a, b)
  {
    if !ArgsDiffer(a, b) {
      assert a == b;
    }
  }

  /** Equal hashes prove nothing: with a constant string hash, "a" and "b" collide. */
  lemma EqualHashNotEqualArgs()
    ensures var h := Hasher(s => 0, v => v, i => 0, b => 0);
      ArgsHash(h, Args("a", 0, 0, false)) == ArgsHash(h, Args("b", 0, 0, false)) &&
      ArgsDiffer(Args("a", 0, 0, false), Args("b", 0, 0, false))
  {
  }

  /** SomeArgs with its mutable hash cache. */
  class SomeArgs {
    const hasher: Hasher
    var str: string
    var hashVal: bv64
    var v1: bv64
    var v2: int
    var b1: bool
    var hashReady: bool

    /** The fields as a value. */
    function Fields(): Args
      reads this
    {
      Args(str, v1, v2, b1)
    }

    /** The cache: a ready hash is the hash of the current fields. */
    ghost predicate Valid()
      reads this
    {
      hashReady ==> hashVal == ArgsHash(hasher, Fields())
    }

    constructor (hasher: Hasher)
      ensures Valid() && this.hasher == hasher
      ensures Fields() == Args([], 0, 0, false) && hashVal == 0 && !hashReady
    {
      this.hasher := hasher;
      str, hashVal, v1, v2, b1, hashReady := [], 0, 0, 0, false, false;
    }

    /** str() = s: the accessor clears _hash_ready and the value is written through it. */
    method SetStr(s: string)
      modifies this
      ensures Valid() && !hashReady && Fields() == old(Fields()).(str := s) && hashVal == old(hashVal)
    {
      hashReady := false;
      str := s;
    }

    /** v1() = v. */
    method SetV1(v: bv64)
      modifies this
      ensures Valid() && !hashReady && Fields() == old(Fields()).(v1 := v) && hashVal == old(hashVal)
    {
      hashReady := false;
      v1 := v;
    }

    /** v2() = v. */
    method SetV2(v: int)
      modifies this
      ensures Valid() && !hashReady && Fields() == old(Fields()).(v2 := v) && hashVal == old(hashVal)
    {
      hashReady := false;
      v2 := v;
    }

    /** b1() = v. */
    method SetB1(v: bool)
      modifies this
      ensures Valid() && !hashReady && Fields() == old(Fields()).(b1 := v) && hashVal == old(hashVal)
    {
      hashReady := false;
      b1 := v;
    }

    /** _hash(): recompute _hashVal from seed 0. */
    method ComputeHash() returns (r: bv64)
      modifies this
      ensures Valid() && r == hashVal && r == ArgsHash(hasher, Fields())
      ensures Fields() == old(Fields()) && hashReady == old(hashReady)
    {
      hashVal := 0;
      hashVal := HashCombine(hashVal, [hasher.ofStr(str), hasher.ofSize(v1), hasher.ofInt(v2), hasher.ofBool(b1)]);
      r := hashVal;
    }

    /**
     * hash(cached): a ready cached value is returned as it is; otherwise the hash is
     * recomputed, and marked ready when cached was asked for.  Either way the result
     * is the hash of the current fields.
     */
    method Hash(cached: bool) returns (r: bv64)
      requires Valid()
      modifies this
      ensures Valid() && r == ArgsHash(hasher, Fields()) && r == hashVal
      ensures Fields() == old(Fields())
      ensures hashReady == (old(hashReady) || cached)
      ensures cached && old(hashReady) ==> hashVal == old(hashVal)
    {
      if cached {
        if hashReady {
          return hashVal;
        }
        hashReady := true;
      }
      r := ComputeHash();
    }

    /** notEqual(other): some field differs. */
    predicate NotEqual(other: SomeArgs)
      reads this, other
      ensures NotEqual(other) <==> Fields() != other.Fields()
    {
      ArgsDiffer(Fields(), other.Fields())
    }

    /** notEqualByHash(other): hash(false) != other.hash(false), which implies notEqual. */
    method NotEqualByHash(other: SomeArgs) returns (r: bool)
      requires Valid() && other.Valid() && hasher == other.hasher
      modifies this, other
      ensures Valid() && other.Valid()
      ensures Fields() == old(Fields()) && other.Fields() == old(other.Fields())
      ensures r ==> NotEqual(other)
      ensures r <==> ArgsHash(hasher, Fields()) != ArgsHash(hasher, other.Fields())
    {
      var mine := Hash(false);
      var theirs := other.Hash(false);
      r := mine != theirs;
      HashDiffersSound(hasher, Fields(), other.Fields());
    }

    /** notEqualByHashCached(other): the same through the caches, still implying notEqual. */
    method NotEqualByHashCached(other: SomeArgs) returns (r: bool)
      requires Valid() && other.Valid() && hasher == other.hasher
      modifies this, other
      ensures Valid() && other.Valid() && hashReady && other.hashReady
      ensures Fields() == old(Fields()) && other.Fields() == old(other.Fields())
      ensures r ==> NotEqual(other)
      ensures r <==> ArgsHash(hasher, Fields()) != ArgsHash(hasher, other.Fields())
    {
      var mine := Hash(true);
      var theirs := other.Hash(true);
      r := mine != theirs;
      HashDiffersSound(hasher, Fields(), other.Fields());
    }
  }

  /** An entry of the searched vector: a key and its value. */
  datatype StrItem = StrItem(key: string, value: nat)

  /** The first position whose key is key, if any. */
  function FirstIndexOf(container: seq<StrItem>, key: string): (r: Option<nat>)
    ensures r.Some? ==> r.value < |container| && container[r.value].key == key
    ensures r.Some? ==> forall j :: 0 <= j < r.value ==> container[j].key != key
    ensures r.None? ==> forall j :: 0 <= j < |container| ==> container[j].key != key
  {
    if container == [] then None
    else if container[0].key == key then Some(0)
    else match FirstIndexOf(container[1..], key)
      case None => None
      case Some(i) => Some(i + 1)
  }

  /** The loop of BM_SearchInVector: the value of the first entry with key findStr, 0 when none has it. */
  method SearchInVector(container: seq<StrItem>, findStr: string) returns (found: int)
    ensures FirstIndexOf(container, findStr).None? ==> found == 0
    ensures FirstIndexOf(container, findStr).Some? ==> found == container[FirstIndexOf(container, findStr).value].value
  {
    found := 0;
    for i := 0 to |container|
      invariant found == 0
      invariant forall j :: 0 <= j < i ==> container[j].key != findStr
    {
      if findStr == container[i].key {
        found := container[i].value;
        return;
      }
    }
  }

  /** With distinct keys the search for the key at pos finds the value at pos. */
  lemma SearchFindsPosition(container: seq<StrItem>, pos: nat)
    requires pos < |container|
    requires forall i, j :: 0 <= i < j < |container| ==> container[i].key != container[j].key
    ensures FirstIndexOf(container, container[pos].key) == Some(pos)
  {
  }
}

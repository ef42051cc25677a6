/**
 * The Python list idioms the scraper relies on: comprehension filters, comprehensions
 * whose element expression can raise, `list(dict.fromkeys(xs))` (de-duplication that
 * keeps first-seen order) and `np.unique(xs)` on strings (sorted, de-duplicated).
 */
module PySeq {
  import opened Outcomes

  /** `[x for x in s if p(x)]`. */
  function Filter<T>(p: T -> bool, s: seq<T>): (r: seq<T>)
    ensures |r| <= |s|
    ensures forall k :: 0 <= k < |r| ==> p(r[k]) && r[k] in s
    ensures forall k :: 0 <= k < |s| && p(s[k]) ==> s[k] in r
  {
    if s == [] then []
    else (if p(s[0]) then [s[0]] else []) + Filter(p, s[1..])
  }

  /** The head of a filtered list is the first element that passes the test. */
  lemma {:induction false} FilterHead<T>(p: T -> bool, s: seq<T>, k: nat)
    requires k < |s| && p(s[k])
    requires forall j :: 0 <= j < k ==> !p(s[j])
    ensures Filter(p, s) != [] && Filter(p, s)[0] == s[k]
  {
    if k > 0 {
      FilterHead(p, s[1..], k - 1);
    }
  }

  /** Each element of a filtered list is an element of the input that passes the test. */
  lemma FilterOrigin<T>(p: T -> bool, s: seq<T>, j: nat) returns (k: nat)
    requires j < |Filter(p, s)|
    ensures k < |s| && s[k] == Filter(p, s)[j] && p(s[k])
  {
    var r := Filter(p, s);
    assert r[j] in s;
    k :| k < |s| && s[k] == r[j];
  }

  /** A filter that every element passes keeps the list as it is. */
  lemma {:induction false} FilterAll<T>(p: T -> bool, s: seq<T>)
    requires forall k :: 0 <= k < |s| ==> p(s[k])
    ensures Filter(p, s) == s
  {
    if s != [] {
      FilterAll(p, s[1..]);
      assert s == [s[0]] + s[1..];
    }
  }

  /** Filtering a concatenation filters each part, keeping their order. */
  lemma {:induction false} FilterConcat<T>(p: T -> bool, a: seq<T>, b: seq<T>)
    ensures Filter(p, a + b) == Filter(p, a) + Filter(p, b)
  {
    if a == [] {
      assert a + b == b;
    } else {
      var head := if p(a[0]) then [a[0]] else [];
      assert Filter(p, a + b) == head + Filter(p, a[1..] + b) by {
        assert (a + b)[0] == a[0] && (a + b)[1..] == a[1..] + b;
      }
      FilterConcat(p, a[1..], b);
      assert head + (Filter(p, a[1..]) + Filter(p, b)) == (head + Filter(p, a[1..])) + Filter(p, b);
    }
  }

  /**
   * Appending one element to a list appends it to the filtered list exactly when it
   * passes the test; with `Filter(p, []) == []` this fixes the order and the
   * multiplicity of what a filter keeps.
   */
  lemma FilterAppend<T>(p: T -> bool, s: seq<T>, x: T)
    ensures Filter(p, s + [x]) == Filter(p, s) + (if p(x) then [x] else [])
  {
    FilterConcat(p, s, [x]);
  }

  /**
   * The values a comprehension `[f(x) for x in s]` has produced when it stops: all of
   * them, or those before the first element whose `f` raises.
   */
  function MapUntilError<T, U>(f: T -> Result<U>, s: seq<T>): (r: seq<U>)
    ensures |r| <= |s|
    ensures forall k :: 0 <= k < |r| ==> f(s[k]).Ok? && r[k] == f(s[k]).value
    ensures |r| == |s| || f(s[|r|]).Err?
  {
    if s == [] || f(s[0]).Err? then []
    else [f(s[0]).value] + MapUntilError(f, s[1..])
  }

  /** `[f(x) for x in s]` where `f` may raise: the list, or the first exception raised. */
  function MapAll<T, U>(f: T -> Result<U>, s: seq<T>): (r: Result<seq<U>>)
    ensures r.Ok? <==> forall k :: 0 <= k < |s| ==> f(s[k]).Ok?
    ensures r.Ok? ==> |r.value| == |s| && forall k :: 0 <= k < |s| ==> r.value[k] == f(s[k]).value
    ensures r.Err? ==> exists k :: 0 <= k < |s| && f(s[k]) == Err(r.error) && forall j :: 0 <= j < k ==> f(s[j]).Ok?
  {
    var done := MapUntilError(f, s);
    if |done| == |s| then Ok(done) else Err(f(s[|done|]).error)
  }

  /** A comprehension that runs to its end produces every value. */
  lemma MapAllValue<T, U>(f: T -> Result<U>, s: seq<T>)
    requires MapAll(f, s).Ok?
    ensures MapAll(f, s).value == MapUntilError(f, s)
  {
  }

  /**
   * The values of a comprehension that has run to its end, or up to an element that
   * raises, are what `MapUntilError` describes.
   */
  lemma {:induction false} MapUntilErrorIs<T, U>(f: T -> Result<U>, s: seq<T>, done: seq<U>)
    requires |done| <= |s|
    requires forall k :: 0 <= k < |done| ==> f(s[k]) == Ok(done[k])
    requires |done| == |s| || f(s[|done|]).Err?
    ensures MapUntilError(f, s) == done
  {
    if done != [] {
      MapUntilErrorIs(f, s[1..], done[1..]);
    }
  }

  /** One more step of a comprehension that has not raised so far. */
  lemma MapUntilErrorExtend<T, U>(f: T -> Result<U>, s: seq<T>, j: nat)
    requires j < |s| && |MapUntilError(f, s[..j])| == j
    ensures f(s[j]).Ok? ==> MapUntilError(f, s[..j + 1]) == MapUntilError(f, s[..j]) + [f(s[j]).value]
    ensures f(s[j]).Err? ==> MapUntilError(f, s) == MapUntilError(f, s[..j])
  {
    var done := MapUntilError(f, s[..j]);
    if f(s[j]).Ok? {
      MapUntilErrorIs(f, s[..j + 1], done + [f(s[j]).value]);
    } else {
      MapUntilErrorIs(f, s, done);
    }
  }

  /** `[f(x) for x in s]` where `f` cannot raise. */
  function Map<T, U>(f: T -> U, s: seq<T>): (r: seq<U>)
    ensures |r| == |s| && forall k :: 0 <= k < |s| ==> r[k] == f(s[k])
  {
    seq(|s|, k requires 0 <= k < |s| => f(s[k]))
  }

  // ---------------------------------------------------------------------------
  // Distinct elements

  predicate Distinct<T(==)>(s: seq<T>) {
    forall i, j :: 0 <= i < j < |s| ==> s[i] != s[j]
  }

  /** The number of distinct values in a duplicate-free list is its length. */
  lemma {:induction false} DistinctCard<T>(s: seq<T>)
    requires Distinct(s)
    ensures |set x | x in s| == |s|
  {
    if s != [] {
      var t := s[1..];
      DistinctCard(t);
      assert (set x | x in s) == {s[0]} + (set x | x in t);
      assert s[0] !in t;
    }
  }

  /** The index at which `x` first occurs in `s`. */
  function FirstIndex<T(==)>(s: seq<T>, x: T): (k: nat)
    requires x in s
    ensures k < |s| && s[k] == x && x !in s[..k]
  {
    if s[0] == x then 0
    else
      var k := FirstIndex(s[1..], x);
      assert s[..k + 1] == [s[0]] + s[1..][..k];
      k + 1
  }

  /**
   * `list(dict.fromkeys(s))`: each value once, in the order in which its first
   * occurrence appears (dictionary insertion order).
   */
  function Dedup<T(==,!new)>(s: seq<T>): (r: seq<T>)
    ensures Distinct(r)
    ensures forall x :: x in r <==> x in s
  {
    if s == [] then []
    else
      var r := Dedup(s[..|s| - 1]);
      var x := s[|s| - 1];
      assert s == s[..|s| - 1] + [x];
      if x in r then r else r + [x]
  }

  lemma {:induction false} FirstIndexExtend<T>(s: seq<T>, x: T, y: T)
    requires y in s
    ensures FirstIndex(s + [x], y) == FirstIndex(s, y)
  {
    if s[0] != y {
      assert (s + [x])[1..] == s[1..] + [x];
      FirstIndexExtend(s[1..], x, y);
    }
  }

  /** The de-duplicated list orders values by their first occurrence in the input. */
  lemma {:induction false} DedupKeepsFirstSeenOrder<T(!new)>(s: seq<T>)
    ensures forall i, j :: 0 <= i < j < |Dedup(s)| ==> FirstIndex(s, Dedup(s)[i]) < FirstIndex(s, Dedup(s)[j])
  {
    if s != [] {
      var p, x := s[..|s| - 1], s[|s| - 1];
      assert s == p + [x];
      DedupKeepsFirstSeenOrder(p);
      var r := Dedup(p);
      forall y | y in r
        ensures FirstIndex(s, y) == FirstIndex(p, y)
      {
        FirstIndexExtend(p, x, y);
      }
      if x !in r {
        assert FirstIndex(s, x) == |p| by {
          assert x !in s[..|p|];
        }
      }
    }
  }

  /** De-duplicating a duplicate-free list changes nothing, so de-duplication is idempotent. */
  lemma {:induction false} DedupOfDistinct<T(!new)>(s: seq<T>)
    requires Distinct(s)
    ensures Dedup(s) == s
  {
    if s != [] {
      var p := s[..|s| - 1];
      DedupOfDistinct(p);
      assert s[|s| - 1] !in p;
      assert s == p + [s[|s| - 1]];
    }
  }

  // ---------------------------------------------------------------------------
  // np.unique on strings

  /** The order numpy sorts unicode strings in: lexicographic by code point, a proper prefix first. */
  predicate StrLess(a: string, b: string) {
    if b == [] then false
    else if a == [] then true
    else if a[0] != b[0] then a[0] < b[0]
    else StrLess(a[1..], b[1..])
  }

  lemma {:induction false} StrLessIrreflexive(a: string)
    ensures !StrLess(a, a)
  {
    if a != [] {
      StrLessIrreflexive(a[1..]);
    }
  }

  lemma {:induction false} StrLessTransitive(a: string, b: string, c: string)
    requires StrLess(a, b) && StrLess(b, c)
    ensures StrLess(a, c)
  {
    if a != [] && a[0] == b[0] && b[0] == c[0] {
      StrLessTransitive(a[1..], b[1..], c[1..]);
    }
  }

  lemma {:induction false} StrLessTotal(a: string, b: string)
    requires a != b
    ensures StrLess(a, b) || StrLess(b, a)
  {
    if a != [] && b != [] && a[0] == b[0] {
      assert a == [a[0]] + a[1..] && b == [b[0]] + b[1..];
      StrLessTotal(a[1..], b[1..]);
    }
  }

  predicate StrictlySorted(s: seq<string>) {
    forall i, j :: 0 <= i < j < |s| ==> StrLess(s[i], s[j])
  }

  /** Inserts `x` into a strictly sorted list unless it is already there. */
  function Insert(x: string, s: seq<string>): (r: seq<string>)
    requires StrictlySorted(s)
    ensures StrictlySorted(r)
    ensures forall y :: y in r <==> y == x || y in s
  {
    if s == [] then [x]
    else if x == s[0] then s
    else if StrLess(x, s[0]) then
      forall j | 0 <= j < |s|
        ensures StrLess(x, s[j])
      {
        if j > 0 {
          StrLessTransitive(x, s[0], s[j]);
        }
      }
      [x] + s
    else
      StrLessTotal(x, s[0]);
      var r := Insert(x, s[1..]);
      assert forall y :: y in r ==> StrLess(s[0], y);
      [s[0]] + r
  }

  /** `np.unique(s)` on a list of strings: its distinct values, in increasing order. */
  function SortedUnique(s: seq<string>): (r: seq<string>)
    ensures StrictlySorted(r)
    ensures forall y :: y in r <==> y in s
  {
    if s == [] then [] else Insert(s[0], SortedUnique(s[1..]))
  }

  /** `np.unique` returns exactly as many values as there are distinct values in its input. */
  lemma UniqueCount(s: seq<string>)
    ensures |SortedUnique(s)| == |set x | x in s|
  {
    var r := SortedUnique(s);
    forall i, j | 0 <= i < j < |r|
      ensures r[i] != r[j]
    {
      if r[i] == r[j] {
        StrLessIrreflexive(r[i]);
      }
    }
    DistinctCard(r);
    assert (set x | x in r) == (set x | x in s);
  }
}

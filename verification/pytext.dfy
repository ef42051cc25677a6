/**
 * The Python string operations the scraper is built from: `str.find`, `str.split`,
 * `str.join`, slicing and `str()` of a list.
 */
module PyText {

  /** `t` occurs in `s` starting at index `i`. */
  predicate OccursAt(s: string, t: string, i: int) {
    0 <= i && i + |t| <= |s| && s[i..i + |t|] == t
  }

  /** The lowest index `>= k` at which `t` occurs in `s`, or -1. */
  function FindFrom(s: string, t: string, k: nat): (r: int)
    requires k <= |s|
    decreases |s| - k
    ensures r == -1 || (k <= r && OccursAt(s, t, r))
    ensures forall j :: k <= j && (r == -1 || j < r) ==> !OccursAt(s, t, j)
  {
    if k + |t| > |s| then -1
    else if s[k..k + |t|] == t then k
    else FindFrom(s, t, k + 1)
  }

  /** Python's `s.find(t)`: the lowest index at which `t` occurs, or -1. */
  function Find(s: string, t: string): (r: int)
    ensures r == -1 || OccursAt(s, t, r)
    ensures forall j :: 0 <= j && (r == -1 || j < r) ==> !OccursAt(s, t, j)
  {
    FindFrom(s, t, 0)
  }

  /** Python's `s.find(t) != -1`. */
  predicate Contains(s: string, t: string) {
    Find(s, t) != -1
  }

  /** Python's `sep.join(parts)`. */
  function Join(parts: seq<string>, sep: string): string
  {
    if |parts| == 0 then ""
    else if |parts| == 1 then parts[0]
    else parts[0] + sep + Join(parts[1..], sep)
  }

  /** Python's `str([...])` of a list whose elements print as themselves (as tags do). */
  function ListRepr(items: seq<string>): (r: string)
    ensures |r| >= 2 && r[0] == '[' && r[|r| - 1] == ']'
    ensures items == [] ==> r == "[]"
    ensures |items| == 1 ==> r == "[" + items[0] + "]"
  {
    "[" + Join(items, ", ") + "]"
  }

  lemma PrefixBeforeFirstFree(s: string, sep: string, i: int)
    requires sep != ""
    requires 0 <= i <= |s|
    requires forall j :: 0 <= j < i ==> !OccursAt(s, sep, j)
    ensures !Contains(s[..i], sep)
  {
    forall j | 0 <= j
      ensures !OccursAt(s[..i], sep, j)
    {
      if OccursAt(s[..i], sep, j) {
        assert s[..i][j..j + |sep|] == s[j..j + |sep|];
        assert OccursAt(s, sep, j);
      }
    }
  }

  /**
   * Python's `s.split(sep)` for a non-empty separator: the pieces between the
   * non-overlapping occurrences of `sep`, found left to right. Joining them back
   * with `sep` gives `s` (and `SplitPiecesFree`: no piece contains `sep`).
   */
  function Split(s: string, sep: string): (parts: seq<string>)
    requires sep != ""
    decreases |s|
    ensures |parts| >= 1
    ensures Join(parts, sep) == s
  {
    var i := Find(s, sep);
    if i == -1 then [s]
    else
      var rest := Split(s[i + |sep|..], sep);
      assert s == s[..i] + sep + s[i + |sep|..];
      assert ([s[..i]] + rest)[1..] == rest;
      [s[..i]] + rest
  }

  /** No piece of `s.split(sep)` contains `sep`. */
  lemma {:induction false} SplitPiecesFree(s: string, sep: string)
    requires sep != ""
    decreases |s|
    ensures forall k :: 0 <= k < |Split(s, sep)| ==> !Contains(Split(s, sep)[k], sep)
  {
    var i := Find(s, sep);
    if i == -1 {
      PrefixBeforeFirstFree(s, sep, |s|);
      assert s[..|s|] == s;
    } else {
      PrefixBeforeFirstFree(s, sep, i);
      SplitPiecesFree(s[i + |sep|..], sep);
    }
  }

  /** The text of `s` before the first occurrence of `t` (all of `s` when `t` does not occur). */
  function Before(s: string, t: string): (r: string)
    requires t != ""
    ensures |r| <= |s| && r == s[..|r|] && !Contains(r, t)
    ensures !Contains(s, t) ==> r == s
    ensures Contains(s, t) ==> OccursAt(s, t, |r|)
  {
    var i := Find(s, t);
    if i == -1 then
      PrefixBeforeFirstFree(s, t, |s|);
      s
    else
      PrefixBeforeFirstFree(s, t, i);
      s[..i]
  }

  /** The text of `s` after the first occurrence of `t`. */
  function AfterFirst(s: string, t: string): (r: string)
    requires t != "" && Contains(s, t)
    ensures s == Before(s, t) + t + r
  {
    var i := Find(s, t);
    assert s == s[..i] + t + s[i + |t|..];
    s[i + |t|..]
  }

  lemma SplitHead(s: string, sep: string)
    requires sep != ""
    ensures Split(s, sep)[0] == Before(s, sep)
  {
  }

  /**
   * `s.split(sep)[0]` is the text before the first `sep`; `s.split(sep)[1]` exists exactly
   * when `sep` occurs, and is then the text between the first and the second `sep`.
   */
  lemma SplitFields(s: string, sep: string)
    requires sep != ""
    ensures Split(s, sep)[0] == Before(s, sep)
    ensures |Split(s, sep)| >= 2 <==> Contains(s, sep)
    ensures Contains(s, sep) ==> Split(s, sep)[1] == Before(AfterFirst(s, sep), sep)
  {
    SplitHead(s, sep);
    if Contains(s, sep) {
      SplitHead(AfterFirst(s, sep), sep);
    }
  }

  /** A string that contains `t` contains everything `t` contains. */
  lemma ContainsWithin(s: string, t: string, u: string, i: int)
    requires Contains(s, t) && OccursAt(t, u, i)
    ensures Contains(s, u)
  {
    var j := Find(s, t);
    assert s[j + i..j + i + |u|] == t[i..i + |u|];
    assert OccursAt(s, u, j + i);
  }

  /** Python's `s[lo:hi]`: out-of-range bounds are clamped, negative ones count from the end. */
  function PySlice(s: string, lo: int, hi: int): (r: string)
    ensures |r| <= |s|
    ensures forall k :: 0 <= k < |r| ==> r[k] in s
    ensures 0 <= lo <= hi <= |s| ==> r == s[lo..hi]
    ensures 0 <= lo && -|s| <= hi < 0 && lo <= |s| + hi ==> r == s[lo..|s| + hi]
    ensures 0 <= lo <= |s| <= hi ==> r == s[lo..]
    ensures 0 <= hi <= lo ==> r == []
    ensures 0 <= lo && hi < 0 && |s| + hi <= lo ==> r == []
  {
    var a := Clamp(if lo < 0 then lo + |s| else lo, |s|);
    var b := Clamp(if hi < 0 then hi + |s| else hi, |s|);
    if a < b then s[a..b] else ""
  }

  function Clamp(x: int, n: nat): (r: nat)
    ensures r <= n
  {
    if x < 0 then 0 else if x > n then n else x
  }
}

/**
 * Character-level reference definitions ("the longest prefix free of these characters",
 * "what follows the first c", "the text between the first two c") and the lemmas that
 * tie Python's `split` on a one-character separator to them.
 */
module CharSplit {
  import opened PyText

  /** The longest prefix of `s` in which no character belongs to `stops`. */
  function TakeUntil(s: string, stops: set<char>): (r: string)
    ensures |r| <= |s| && r == s[..|r|]
    ensures forall k :: 0 <= k < |r| ==> r[k] !in stops
    ensures |r| == |s| || s[|r|] in stops
  {
    if s == [] || s[0] in stops then ""
    else [s[0]] + TakeUntil(s[1..], stops)
  }

  /** What follows the first `c` in `s`. */
  function After(s: string, c: char): (r: string)
    requires c in s
    ensures |r| < |s|
    ensures s == s[..|s| - |r| - 1] + [c] + r
    ensures c !in s[..|s| - |r| - 1]
  {
    if s[0] == c then s[1..]
    else
      var r := After(s[1..], c);
      assert s[1..] == s[1..][..|s| - 1 - |r| - 1] + [c] + r;
      assert s == [s[0]] + s[1..];
      assert s[..|s| - |r| - 1] == [s[0]] + s[1..][..|s| - 1 - |r| - 1];
      r
  }

  /** The text between the first and the second `c` of `s` (to the end of `s` when there is no second). */
  function Between(s: string, c: char): string
    requires c in s
  {
    TakeUntil(After(s, c), {c})
  }

  /** What follows the last `c` in `s`: all of `s` when it has no `c`. */
  function AfterLast(s: string, c: char): (r: string)
    ensures |r| <= |s| && r == s[|s| - |r|..] && c !in r
    ensures |r| < |s| ==> s[|s| - |r| - 1] == c
    ensures |r| == |s| <==> c !in s
  {
    if s == [] || s[|s| - 1] == c then ""
    else
      var p := s[..|s| - 1];
      var r := AfterLast(p, c);
      assert s[|s| - |r| - 1..] == p[|p| - |r|..] + [s[|s| - 1]];
      r + [s[|s| - 1]]
  }

  /** What precedes the last `c` in `s`. */
  function BeforeLast(s: string, c: char): (r: string)
    requires c in s
    ensures s == r + [c] + AfterLast(s, c)
  {
    s[..|s| - |AfterLast(s, c)| - 1]
  }

  /** The last field but one of `s` cut at every `c`. */
  function PenultimateField(s: string, c: char): string
    requires c in s
  {
    AfterLast(BeforeLast(s, c), c)
  }

  lemma TakeUntilIs(s: string, stops: set<char>, n: nat)
    requires n <= |s|
    requires forall k :: 0 <= k < n ==> s[k] !in stops
    requires n == |s| || s[n] in stops
    ensures TakeUntil(s, stops) == s[..n]
  {
  }

  lemma AfterIs(p: string, c: char, q: string)
    requires c !in p
    ensures c in p + [c] + q
    ensures After(p + [c] + q, c) == q
  {
    var s := p + [c] + q;
    assert s[|p|] == c;
    var r := After(s, c);
    var m := |s| - |r| - 1;
    assert s[m] == c;
    assert s[m + 1..] == r;
    assert s[|p| + 1..] == q;
  }

  /** The text between two `c`s of which the first is the first `c` of the string. */
  lemma BetweenIs(p: string, c: char, mid: string, rest: string)
    requires c !in p && c !in mid
    ensures c in p + [c] + mid + [c] + rest
    ensures Between(p + [c] + mid + [c] + rest, c) == mid
  {
    var q := mid + [c] + rest;
    assert p + [c] + mid + [c] + rest == p + [c] + q;
    AfterIs(p, c, q);
    assert q[|mid|] == c;
    TakeUntilIs(q, {c}, |mid|);
    assert q[..|mid|] == mid;
  }

  // ---------------------------------------------------------------------------
  // Splitting on a one-character separator

  lemma OccursAtChar(s: string, c: char, j: int)
    ensures OccursAt(s, [c], j) <==> 0 <= j < |s| && s[j] == c
  {
    if 0 <= j < |s| {
      assert |s[j..j + 1]| == 1 && s[j..j + 1][0] == s[j];
    }
  }

  lemma ContainsChar(s: string, c: char)
    ensures Contains(s, [c]) <==> c in s
  {
    var i := Find(s, [c]);
    if i != -1 {
      OccursAtChar(s, c, i);
    }
    if c in s {
      var j :| 0 <= j < |s| && s[j] == c;
      OccursAtChar(s, c, j);
    }
  }

  lemma SplitEq(a: string, b: string, sep: string)
    requires sep != "" && a == b
    ensures Split(a, sep) == Split(b, sep)
  {
  }

  lemma SplitCharNone(s: string, c: char)
    requires c !in s
    ensures Split(s, [c]) == [s]
  {
    ContainsChar(s, c);
  }

  /** The first piece ends at the first `c`; the rest is the split of what follows it. */
  lemma SplitAtFirst(p: string, c: char, z: string)
    requires c !in p
    ensures Split(p + [c] + z, [c]) == [p] + Split(z, [c])
  {
    var s := p + [c] + z;
    OccursAtChar(s, c, |p|);
    forall j | 0 <= j < |p|
      ensures !OccursAt(s, [c], j)
    {
      OccursAtChar(s, c, j);
    }
    assert Find(s, [c]) == |p|;
    assert s[..|p|] == p;
    SplitEq(s[|p| + 1..], z, [c]);
  }

  /** Splitting on `c` distributes over a `c` that joins two strings. */
  lemma SplitCharConcat(x: string, y: string, c: char)
    ensures Split(x + [c] + y, [c]) == Split(x, [c]) + Split(y, [c])
  {
    var parts := Split(x, [c]) + Split(y, [c]);
    SplitPiecesFree(x, [c]);
    SplitPiecesFree(y, [c]);
    forall k | 0 <= k < |parts|
      ensures c !in parts[k]
    {
      ContainsChar(parts[k], c);
    }
    JoinAppend(Split(x, [c]), Split(y, [c]), [c]);
    SplitCharUnique(parts, c);
    SplitEq(x + [c] + y, Join(parts, [c]), [c]);
  }

  /** The last two fields of `p + c + x + c + y` are `x` and `y` when neither holds `c`. */
  lemma SplitLastTwo(p: string, x: string, y: string, c: char)
    requires c !in x && c !in y
    ensures var parts := Split(p + [c] + x + [c] + y, [c]);
            |parts| >= 2 && parts[|parts| - 2] == x && parts[|parts| - 1] == y
  {
    var t := x + [c] + y;
    assert Split(t, [c]) == [x, y] by {
      SplitCharConcat(x, y, c);
      SplitCharNone(x, c);
      SplitCharNone(y, c);
    }
    assert Split(p + [c] + x + [c] + y, [c]) == Split(p, [c]) + Split(t, [c]) by {
      assert p + [c] + x + [c] + y == p + [c] + t;
      SplitCharConcat(p, t, c);
    }
  }

  /** The last field of `s.split(c)` is what follows the last `c` (all of `s` when it has none). */
  lemma SplitLastField(s: string, c: char)
    ensures var parts := Split(s, [c]); parts[|parts| - 1] == AfterLast(s, c)
  {
    if c in s {
      var p, x := BeforeLast(s, c), AfterLast(s, c);
      SplitCharConcat(p, x, c);
      SplitCharNone(x, c);
    } else {
      SplitCharNone(s, c);
    }
  }

  /** Appending `c` and a `c`-free `y` to a string adds the one field `y` after the last field of its split. */
  lemma SplitAppendField(q: string, y: string, c: char)
    requires c !in y
    ensures var front, parts := Split(q, [c]), Split(q + [c] + y, [c]);
            |parts| >= 2 && parts[|parts| - 2] == front[|front| - 1] && parts[|parts| - 1] == y
  {
    var front, parts := Split(q, [c]), Split(q + [c] + y, [c]);
    assert parts == front + [y] by {
      SplitCharConcat(q, y, c);
      SplitCharNone(y, c);
    }
    assert |parts| == |front| + 1 && parts[|front| - 1] == front[|front| - 1];
  }

  /** `s.split(c)[-2]` and `s.split(c)[-1]` of a string holding `c` are its last two `c`-separated fields. */
  lemma SplitLastFields(s: string, c: char)
    requires c in s
    ensures var parts := Split(s, [c]);
            |parts| >= 2 && parts[|parts| - 2] == PenultimateField(s, c) && parts[|parts| - 1] == AfterLast(s, c)
  {
    var q := BeforeLast(s, c);
    SplitAppendField(q, AfterLast(s, c), c);
    SplitLastField(q, c);
  }

  /** For a one-character separator, `split` is the only way to cut a string into `c`-free pieces. */
  lemma {:induction false} SplitCharUnique(parts: seq<string>, c: char)
    requires |parts| >= 1
    requires forall k :: 0 <= k < |parts| ==> c !in parts[k]
    ensures Split(Join(parts, [c]), [c]) == parts
  {
    if |parts| == 1 {
      SplitCharNone(parts[0], c);
    } else {
      SplitCharUnique(parts[1..], c);
      SplitAtFirst(parts[0], c, Join(parts[1..], [c]));
      assert parts == [parts[0]] + parts[1..];
    }
  }

  lemma {:induction false} JoinAppend(a: seq<string>, b: seq<string>, sep: string)
    requires |a| >= 1 && |b| >= 1
    ensures Join(a + b, sep) == Join(a, sep) + sep + Join(b, sep)
  {
    assert (a + b)[0] == a[0];
    if |a| > 1 {
      JoinAppend(a[1..], b, sep);
      assert (a + b)[1..] == a[1..] + b;
    } else {
      assert (a + b)[1..] == b;
    }
  }

  /**
   * For a one-character separator, `s.split(c)[0]` is the text before the first `c`,
   * `s.split(c)[1]` exists exactly when `c` occurs, and is then the text between the
   * first and second `c`.
   */
  lemma SplitCharFields(s: string, c: char)
    ensures Split(s, [c])[0] == TakeUntil(s, {c})
    ensures |Split(s, [c])| >= 2 <==> c in s
    ensures c in s ==> Split(s, [c])[1] == Between(s, c)
  {
    SplitCharHead(s, c);
    if c in s {
      var q := After(s, c);
      var p := s[..|s| - |q| - 1];
      var parts := Split(s, [c]);
      assert parts == [p] + Split(q, [c]) by {
        SplitAtFirst(p, c, q);
      }
      assert parts[1] == TakeUntil(q, {c}) by {
        SplitCharHead(q, c);
      }
    } else {
      SplitCharNone(s, c);
    }
  }

  lemma SplitCharHead(s: string, c: char)
    ensures Split(s, [c])[0] == TakeUntil(s, {c})
  {
    if c in s {
      var q := After(s, c);
      var p := s[..|s| - |q| - 1];
      SplitAtFirst(p, c, q);
      TakeUntilIs(s, {c}, |p|);
    } else {
      SplitCharNone(s, c);
      TakeUntilIs(s, {c}, |s|);
    }
  }

  /** Cutting first at the characters of `a`, then at those of `b`, is cutting at both. */
  lemma TakeUntilTwice(s: string, a: set<char>, b: set<char>)
    ensures TakeUntil(TakeUntil(s, a), b) == TakeUntil(s, a + b)
  {
    var t := TakeUntil(s, a);
    var r := TakeUntil(t, b);
    assert r == s[..|r|] by {
      assert t[..|r|] == s[..|r|];
    }
    forall k | 0 <= k < |r|
      ensures s[k] !in a + b
    {
      assert r[k] == t[k] == s[k];
    }
    if |r| < |s| {
      if |r| < |t| {
        assert t[|r|] == s[|r|];
      }
    }
    TakeUntilIs(s, a + b, |r|);
  }
}

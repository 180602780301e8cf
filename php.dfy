/**
 * The few PHP built-ins that the range filter setting relies on, on
 * strings and lists: truthiness of a string, `explode` (with and without
 * a limit of two), `implode`, `array_values(array_filter(..))` and
 * `array_unique`.
 */
module Php {
  import opened Wrappers

  /** PHP truthiness of a string: exactly "" and "0" are falsy. */
  predicate Truthy(s: string) {
    s != "" && s != "0"
  }

  /** The delimiter `d` occurs in `s` starting at index `i`. */
  predicate OccursAt(d: string, s: string, i: int) {
    0 <= i && i + |d| <= |s| && s[i..i + |d|] == d
  }

  /** The delimiter `d` occurs somewhere in `s`. */
  predicate Contains(d: string, s: string) {
    exists i | 0 <= i <= |s| :: OccursAt(d, s, i)
  }

  /** The leftmost occurrence of `d` in `s`, as `strpos` finds it. */
  function Find(d: string, s: string): (r: Option<nat>)
    requires d != []
    ensures r.Some? ==> OccursAt(d, s, r.value)
    ensures r.Some? ==> forall j :: 0 <= j < r.value ==> !OccursAt(d, s, j)
    ensures r.None? <==> !Contains(d, s)
    decreases |s|
  {
    if |s| < |d| then None
    else if s[..|d|] == d then Some(0)
    else
      OccursShifted(d, s);
      match Find(d, s[1..])
      case None => None
      case Some(i) => Some(i + 1)
  }

  /** Dropping the first character moves every later occurrence one place to the left. */
  lemma OccursShifted(d: string, s: string)
    requires d != [] && |s| >= |d| && s[..|d|] != d
    ensures forall j :: OccursAt(d, s, j) <==> j >= 1 && OccursAt(d, s[1..], j - 1)
  {
    forall j
      ensures OccursAt(d, s, j) <==> j >= 1 && OccursAt(d, s[1..], j - 1)
    {
      if j >= 1 && j + |d| <= |s| {
        assert s[1..][j - 1..j - 1 + |d|] == s[j..j + |d|];
      }
    }
  }

  /** An occurrence with none before it is the one `Find` returns. */
  lemma FindLeftmost(d: string, s: string, i: nat)
    requires d != [] && OccursAt(d, s, i)
    requires forall j :: 0 <= j < i ==> !OccursAt(d, s, j)
    ensures Find(d, s) == Some(i)
  {
    assert Contains(d, s);
  }

  /** A prefix that ends before the leftmost occurrence holds no occurrence. */
  lemma PrefixBeforeFind(d: string, s: string, i: nat)
    requires d != [] && Find(d, s) == Some(i)
    ensures !Contains(d, s[..i])
  {
    var prefix := s[..i];
    assert |prefix| == i;
    forall j | 0 <= j <= i
      ensures !OccursAt(d, prefix, j)
    {
      if j + |d| <= i {
        assert !OccursAt(d, s, j);
        assert prefix[j..j + |d|] == s[j..j + |d|];
      }
    }
  }

  /** `explode(d, s)` without a limit: split `s` at every occurrence of `d`, left to right. */
  function Explode(d: string, s: string): (parts: seq<string>)
    requires d != []
    ensures |parts| >= 1
    decreases |s|
  {
    match Find(d, s)
    case None => [s]
    case Some(i) => [s[..i]] + Explode(d, s[i + |d|..])
  }

  /** A leading part that holds no occurrence of the delimiter becomes the first segment. */
  lemma ExplodeJoin(d: string, a: string, rest: string)
    requires d != []
    requires forall j :: 0 <= j < |a| ==> !OccursAt(d, a + d + rest, j)
    ensures Explode(d, a + d + rest) == [a] + Explode(d, rest)
  {
    var s := a + d + rest;
    assert s[|a|..|a| + |d|] == d;
    FindLeftmost(d, s, |a|);
    assert s[..|a|] == a && s[|a| + |d|..] == rest;
  }

  /** No segment that `explode` returns holds the delimiter. */
  lemma {:induction false} ExplodeSegmentsFree(d: string, s: string)
    requires d != []
    ensures forall k :: 0 <= k < |Explode(d, s)| ==> !Contains(d, Explode(d, s)[k])
    decreases |s|
  {
    match Find(d, s)
    case None =>
    case Some(i) =>
      PrefixBeforeFind(d, s, i);
      ExplodeSegmentsFree(d, s[i + |d|..]);
  }

  /** `explode(d, s, 2)`: split `s` at the leftmost occurrence of `d` only. */
  function ExplodeTwo(d: string, s: string): (parts: seq<string>)
    requires d != []
    ensures 1 <= |parts| <= 2
    ensures !Contains(d, parts[0])
    ensures |parts| == 1 <==> !Contains(d, s)
  {
    match Find(d, s)
    case None => [s]
    case Some(i) =>
      PrefixBeforeFind(d, s, i);
      [s[..i], s[i + |d|..]]
  }

  /** `implode(d, parts)`: join the parts with `d` between neighbours. */
  function Implode(d: string, parts: seq<string>): (r: string)
    ensures parts != [] ==> |parts[0]| <= |r| && r[..|parts[0]|] == parts[0]
    ensures |parts| >= 2 ==> OccursAt(d, r, |parts[0]|)
  {
    if parts == [] then ""
    else if |parts| == 1 then parts[0]
    else parts[0] + d + Implode(d, parts[1..])
  }

  /** Joining one more part in front of a non-empty list. */
  lemma ImplodeCons(d: string, head: string, tail: seq<string>)
    requires tail != []
    ensures Implode(d, [head] + tail) == head + d + Implode(d, tail)
  {
    assert ([head] + tail)[1..] == tail;
  }

  /** Joining what `explode` split gives back the original string. */
  lemma {:induction false} ImplodeExplode(d: string, s: string)
    requires d != []
    ensures Implode(d, Explode(d, s)) == s
    decreases |s|
  {
    var f := Find(d, s);
    if f.Some? {
      var i := f.value;
      var rest := s[i + |d|..];
      assert Explode(d, s) == [s[..i]] + Explode(d, rest);
      ImplodeExplode(d, rest);
      ImplodeCons(d, s[..i], Explode(d, rest));
      assert s == s[..i] + d + rest by {
        assert s[i..i + |d|] == d;
        assert s == s[..i] + s[i..i + |d|] + rest;
      }
    }
  }

  /** Joining what `explode` with limit two split gives back the original string. */
  lemma ImplodeExplodeTwo(d: string, s: string)
    requires d != []
    ensures Implode(d, ExplodeTwo(d, s)) == s
  {
    match Find(d, s)
    case None =>
    case Some(i) =>
      assert s == s[..i] + s[i..i + |d|] + s[i + |d|..];
  }

  /**
   * `explode` with limit two agrees with the unlimited one on the first
   * segment, and its second segment is everything the unlimited one finds
   * after that, joined again.
   */
  lemma ExplodeTwoIsJoinedExplode(d: string, s: string)
    requires d != []
    ensures ExplodeTwo(d, s)[0] == Explode(d, s)[0]
    ensures |ExplodeTwo(d, s)| == 2 <==> |Explode(d, s)| >= 2
    ensures |ExplodeTwo(d, s)| == 2 ==> ExplodeTwo(d, s)[1] == Implode(d, Explode(d, s)[1..])
  {
    match Find(d, s)
    case None =>
    case Some(i) =>
      ExplodeStep(d, s, i);
      ImplodeExplode(d, s[i + |d|..]);
  }

  /** One step of `explode` at the leftmost occurrence `i`. */
  lemma ExplodeStep(d: string, s: string, i: nat)
    requires d != [] && Find(d, s) == Some(i)
    ensures Explode(d, s) == [s[..i]] + Explode(d, s[i + |d|..])
    ensures Explode(d, s)[0] == s[..i]
    ensures Explode(d, s)[1..] == Explode(d, s[i + |d|..])
    ensures ExplodeTwo(d, s) == [s[..i], s[i + |d|..]]
  {
  }

  /** `array_values(array_filter(l))`: drop the falsy entries and reindex from zero. */
  function FilterTruthy(l: seq<string>): (r: seq<string>)
    ensures |r| <= |l|
    ensures forall k :: 0 <= k < |r| ==> Truthy(r[k])
    ensures forall x :: x in r <==> x in l && Truthy(x)
  {
    if l == [] then []
    else (if Truthy(l[0]) then [l[0]] else []) + FilterTruthy(l[1..])
  }

  /** Filtering keeps the relative order: it distributes over concatenation. */
  lemma {:induction false} FilterTruthyAppend(a: seq<string>, b: seq<string>)
    ensures FilterTruthy(a + b) == FilterTruthy(a) + FilterTruthy(b)
  {
    if a == [] {
      assert a + b == b;
    } else {
      assert (a + b)[0] == a[0];
      assert (a + b)[1..] == a[1..] + b;
      FilterTruthyAppend(a[1..], b);
    }
  }

  /** Filtering changes a list exactly when some entry of it is falsy. */
  lemma {:induction false} FilterTruthyUnchanged(l: seq<string>)
    ensures FilterTruthy(l) == l <==> forall k :: 0 <= k < |l| ==> Truthy(l[k])
  {
    if l != [] {
      FilterTruthyUnchanged(l[1..]);
      if !Truthy(l[0]) {
        assert |FilterTruthy(l)| < |l| by { assert |FilterTruthy(l[1..])| <= |l[1..]|; }
      }
    }
  }

  /**
   * `array_unique(l)` on a list: keep the first occurrence of every value
   * (the keys PHP keeps are not modelled, only the values in their order).
   */
  function Unique(l: seq<int>): (r: seq<int>)
    ensures forall x :: x in r <==> x in l
    ensures forall i, j :: 0 <= i < j < |r| ==> r[i] != r[j]
    ensures |r| <= |l|
    decreases |l|
  {
    if l == [] then []
    else
      var kept := Unique(l[..|l| - 1]);
      assert forall x :: x in l <==> x in l[..|l| - 1] || x == l[|l| - 1];
      if l[|l| - 1] in kept then kept else kept + [l[|l| - 1]]
  }

  /** A list that holds no value twice passes through `array_unique` unchanged. */
  lemma {:induction false} UniqueOfDistinct(l: seq<int>)
    requires forall i, j :: 0 <= i < j < |l| ==> l[i] != l[j]
    ensures Unique(l) == l
    decreases |l|
  {
    if l != [] {
      var init := l[..|l| - 1];
      UniqueOfDistinct(init);
      assert l[|l| - 1] !in init;
      assert init + [l[|l| - 1]] == l;
    }
  }
}

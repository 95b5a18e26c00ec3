/** Python's ordering of str values and the list operations built on it:
    sorted(list(set(xs))) and list.remove(x). */
module Ordering {

  /** a < b on Python str: lexicographic by code point, with a proper
      prefix ordered before the longer string. */
  predicate Less(a: string, b: string)
    decreases |a|
  {
    |b| > 0 && (|a| == 0 || if a[0] != b[0] then a[0] < b[0] else Less(a[1..], b[1..]))
  }

  lemma {:induction false} LessIrreflexive(a: string)
    ensures !Less(a, a)
  {
    if |a| > 0 {
      LessIrreflexive(a[1..]);
    }
  }

  lemma {:induction false} LessTransitive(a: string, b: string, c: string)
    requires Less(a, b) && Less(b, c)
    ensures Less(a, c)
  {
    if |a| > 0 && a[0] == b[0] && b[0] == c[0] {
      LessTransitive(a[1..], b[1..], c[1..]);
    }
  }

  /** Any two different strings are ordered one way or the other. */
  lemma {:induction false} LessTotal(a: string, b: string)
    ensures a == b || Less(a, b) || Less(b, a)
  {
    if |a| > 0 && |b| > 0 && a[0] == b[0] {
      LessTotal(a[1..], b[1..]);
      if a[1..] == b[1..] {
        assert a == [a[0]] + a[1..] && b == [b[0]] + b[1..];
      }
    }
  }

  lemma LessAsymmetric(a: string, b: string)
    ensures !(Less(a, b) && Less(b, a))
  {
    if Less(a, b) && Less(b, a) {
      LessTransitive(a, b, a);
      LessIrreflexive(a);
    }
  }

  /** Sorted ascending with no element repeated. */
  predicate StrictlySorted(s: seq<string>) {
    forall i, j | 0 <= i < j < |s| :: Less(s[i], s[j])
  }

  /** Insert x into a strictly sorted list unless it is already there. */
  function Insert(x: string, s: seq<string>): (r: seq<string>)
    requires StrictlySorted(s)
    ensures StrictlySorted(r)
    ensures forall y :: y in r <==> y == x || y in s
  {
    if |s| == 0 then [x]
    else if x == s[0] then s
    else if Less(x, s[0]) then
      assert forall j | 0 < j < |s| :: Less(x, s[j]) by {
        forall j | 0 < j < |s| ensures Less(x, s[j]) { LessTransitive(x, s[0], s[j]); }
      }
      [x] + s
    else
      LessTotal(x, s[0]);
      var rest := Insert(x, s[1..]);
      assert forall y | y in s[1..] :: y in s;
      assert forall j | 0 <= j < |rest| :: Less(s[0], rest[j]) by {
        forall j | 0 <= j < |rest| ensures Less(s[0], rest[j]) {
          assert rest[j] in rest;
          if rest[j] != x {
            var k :| 0 <= k < |s[1..]| && s[1..][k] == rest[j];
          }
        }
      }
      [s[0]] + rest
  }

  /** sorted(list(set(xs))): the distinct elements of xs in ascending order. */
  function SortedDistinct(xs: seq<string>): (r: seq<string>)
    ensures StrictlySorted(r)
    ensures forall y :: y in r <==> y in xs
  {
    if |xs| == 0 then []
    else
      var rest := SortedDistinct(xs[1..]);
      assert forall y | y in xs :: y == xs[0] || y in xs[1..] by {
        assert xs == [xs[0]] + xs[1..];
      }
      Insert(xs[0], rest)
  }

  lemma SameElementsSameEmptiness(a: seq<string>, b: seq<string>)
    requires forall y :: y in a <==> y in b
    ensures |a| == 0 <==> |b| == 0
  {
    if |a| > 0 {
      assert a[0] in b;
    }
    if |b| > 0 {
      assert b[0] in a;
    }
  }

  /** A strictly sorted list is determined by its elements: the result of
      sorted(list(set(xs))) does not depend on the order of xs. */
  lemma {:induction false} StrictlySortedUnique(a: seq<string>, b: seq<string>)
    requires StrictlySorted(a) && StrictlySorted(b)
    requires forall y :: y in a <==> y in b
    ensures a == b
  {
    SameElementsSameEmptiness(a, b);
    if |a| > 0 && |b| > 0 {
      assert a[0] in b && b[0] in a;
      var i :| 0 <= i < |b| && b[i] == a[0];
      var j :| 0 <= j < |a| && a[j] == b[0];
      if a[0] != b[0] {
        assert i > 0 && j > 0;
        LessAsymmetric(a[0], b[0]);
        assert false;
      }
      assert a == [a[0]] + a[1..] && b == [b[0]] + b[1..];
      forall y ensures y in a[1..] <==> y in b[1..] {
        LessIrreflexive(a[0]);
        if y in a[1..] {
          var k :| 1 <= k < |a| && a[k] == y;
          assert Less(a[0], a[k]) && y in b && y != b[0];
        }
        if y in b[1..] {
          var k :| 1 <= k < |b| && b[k] == y;
          assert Less(b[0], b[k]) && y in a && y != a[0];
        }
      }
      StrictlySortedUnique(a[1..], b[1..]);
      assert a == [a[0]] + a[1..] && b == [b[0]] + b[1..];
    }
  }

  /** list.remove(x): drop the first occurrence of x (Python raises when x is
      absent, which the callers here never let happen). */
  function Remove(s: seq<string>, x: string): (r: seq<string>)
    requires x in s
    ensures multiset(r) == multiset(s) - multiset{x}
    ensures r == s[..FirstIndex(s, x)] + s[FirstIndex(s, x) + 1..]
  {
    if s[0] == x then
      DropMultiset(s, 0);
      s[1..]
    else
      var rest := Remove(s[1..], x);
      RemoveStep(s, x, rest);
      DropMultiset(s, FirstIndex(s, x));
      [s[0]] + rest
  }

  /** Dropping position k removes one copy of s[k]. */
  lemma DropMultiset(s: seq<string>, k: nat)
    requires k < |s|
    ensures multiset(s[..k] + s[k + 1..]) == multiset(s) - multiset{s[k]}
  {
    assert s == s[..k] + [s[k]] + s[k + 1..];
  }

  lemma RemoveStep(s: seq<string>, x: string, rest: seq<string>)
    requires x in s && s[0] != x && x in s[1..]
    requires rest == s[1..][..FirstIndex(s[1..], x)] + s[1..][FirstIndex(s[1..], x) + 1..]
    ensures [s[0]] + rest == s[..FirstIndex(s, x)] + s[FirstIndex(s, x) + 1..]
  {
    var k := FirstIndex(s[1..], x);
    assert FirstIndex(s, x) == k + 1;
    assert s[..k + 1] == [s[0]] + s[1..][..k];
    assert s[k + 2..] == s[1..][k + 1..];
  }

  /** The position of the first occurrence of x. */
  function FirstIndex(s: seq<string>, x: string): (k: nat)
    requires x in s
    ensures k < |s| && s[k] == x && x !in s[..k]
  {
    if s[0] == x then 0
    else
      assert x in s[1..] by {
        assert s == [s[0]] + s[1..];
      }
      var k := FirstIndex(s[1..], x);
      assert s[..k + 1] == [s[0]] + s[1..][..k];
      k + 1
  }

  /** Removing x from a strictly sorted list keeps it strictly sorted and
      drops exactly x. */
  lemma RemoveSorted(s: seq<string>, x: string)
    requires x in s && StrictlySorted(s)
    ensures StrictlySorted(Remove(s, x))
    ensures forall y :: y in Remove(s, x) <==> y in s && y != x
  {
    var k := FirstIndex(s, x);
    DropKeepsSorted(s, k, Remove(s, x));
    DropMembers(s, k, Remove(s, x));
  }

  /** Dropping one position of a strictly sorted list keeps it strictly sorted. */
  lemma DropKeepsSorted(s: seq<string>, k: nat, r: seq<string>)
    requires k < |s| && r == s[..k] + s[k + 1..] && StrictlySorted(s)
    ensures StrictlySorted(r)
  {
    DropIndex(s, k, r);
  }

  /** Dropping one position of a strictly sorted list drops exactly that
      element: it occurs nowhere else. */
  lemma DropMembers(s: seq<string>, k: nat, r: seq<string>)
    requires k < |s| && r == s[..k] + s[k + 1..] && StrictlySorted(s)
    ensures forall y :: y in r <==> y in s && y != s[k]
  {
    DropIndex(s, k, r);
    LessIrreflexive(s[k]);
    forall y | y in s && y != s[k]
      ensures y in r
    {
      var m :| 0 <= m < |s| && s[m] == y;
      assert r[if m < k then m else m - 1] == y;
    }
    forall y | y in r
      ensures y != s[k]
    {
      var i :| 0 <= i < |r| && r[i] == y;
      var m := if i < k then i else i + 1;
      assert s[m] == y && m != k;
      assert Less(s[m], s[k]) || Less(s[k], s[m]);
    }
  }

  /** Dropping position k shifts the later elements down by one. */
  lemma DropIndex<T>(s: seq<T>, k: nat, r: seq<T>)
    requires k < |s| && r == s[..k] + s[k + 1..]
    ensures |r| == |s| - 1
    ensures forall i | 0 <= i < |r| :: r[i] == s[if i < k then i else i + 1]
  {
  }
}

/** Sequences without repeats, the sets of their elements, and counting. */
module Collections {

  ghost predicate NoDuplicates<T>(s: seq<T>) {
    forall i, j :: 0 <= i < j < |s| ==> s[i] != s[j]
  }

  function Elements<T>(s: seq<T>): set<T> {
    set x | x in s
  }

  function Reverse<T>(s: seq<T>): (r: seq<T>)
    ensures |r| == |s| && forall i :: 0 <= i < |s| ==> r[i] == s[|s| - 1 - i]
  {
    if s == [] then [] else Reverse(s[1..]) + [s[0]]
  }

  lemma TakeOneMore<T>(s: seq<T>, i: nat)
    requires i < |s|
    ensures s[..i + 1] == s[..i] + [s[i]]
    ensures Elements(s[..i + 1]) == Elements(s[..i]) + {s[i]}
  {
    assert s[..i + 1] == s[..i] + [s[i]];
  }

  lemma SizeOfDifference<T>(a: set<T>, b: set<T>)
    requires a <= b
    ensures |a| + |b - a| == |b|
  {
    assert b == a + (b - a);
  }

  lemma InPrefix<T>(s: seq<T>, a: nat, j: nat)
    requires j < a <= |s|
    ensures s[j] in s[..a]
  {
    assert s[..a][j] == s[j];
  }

  lemma BlockElements<T>(s: seq<T>, a: nat, b: nat)
    requires NoDuplicates(s) && a <= b <= |s|
    ensures Elements(s[a..b]) == Elements(s[..b]) - Elements(s[..a])
  {
    forall x ensures x in s[a..b] <==> x in s[..b] && x !in s[..a] {
      if x in s[a..b] {
        var j :| 0 <= j < b - a && s[a..b][j] == x;
        assert s[..b][a + j] == x;
      }
      if x in s[..b] && x !in s[..a] {
        var j :| 0 <= j < b && s[..b][j] == x;
        if j < a { InPrefix(s, a, j); }
        assert s[a..b][j - a] == x;
      }
    }
  }

  lemma {:induction false} DistinctFit<T>(s: seq<T>, pool: set<T>)
    requires NoDuplicates(s)
    requires forall i :: 0 <= i < |s| ==> s[i] in pool
    ensures |s| <= |pool|
  {
    if s == [] {
    } else {
      var last := s[|s| - 1];
      DistinctFit(s[..|s| - 1], pool - {last});
    }
  }

  lemma {:induction false} SizeOfElements<T>(s: seq<T>)
    requires NoDuplicates(s)
    ensures |Elements(s)| == |s|
  {
    if s == [] {
    } else {
      var front, last := s[..|s| - 1], s[|s| - 1];
      SizeOfElements(front);
      assert s == front + [last];
      assert Elements(s) == Elements(front) + {last};
    }
  }

  lemma SubsetSize<T>(a: set<T>, b: set<T>)
    requires a <= b
    ensures |a| <= |b|
    ensures |a| == |b| ==> a == b
  {
    assert b == a + (b - a);
  }

  function Sum(xs: seq<nat>): nat {
    if xs == [] then 0 else Sum(xs[..|xs| - 1]) + xs[|xs| - 1]
  }

  /** The n numbers 0, 1, ..., n - 1. */
  function Below(n: nat): (s: set<nat>)
    ensures |s| == n && forall k: nat :: k in s <==> k < n
  {
    if n == 0 then {}
    else
      var fewer := Below(n - 1);
      assert n - 1 !in fewer;
      fewer + {n - 1}
  }
}

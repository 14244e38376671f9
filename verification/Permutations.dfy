/** bindings/python/rad_util.py, permutations. */
module Permutations {
  import opened Collections
  import opened Digraph

  function Factorial(n: nat): nat {
    if n == 0 then 1 else n * Factorial(n - 1)
  }

  /** `new_list.insert(i, item)` on a copy of sub. */
  function Insert(sub: seq<Item>, item: Item, i: nat): seq<Item>
    requires i <= |sub|
  {
    sub[..i] + [item] + sub[i..]
  }

  /** The item put into `sub` at each of n places. */
  function Row(sub: seq<Item>, item: Item, n: nat): (row: seq<seq<Item>>)
    requires n <= |sub| + 1
    ensures |row| == n && forall i :: 0 <= i < n ==> row[i] == Insert(sub, item, i)
  {
    seq(n, i requires 0 <= i < n => Insert(sub, item, i))
  }

  /** The lists the two nested loops append for the sublists of `subs`, in order. */
  function InsertAll(subs: seq<seq<Item>>, item: Item, n: nat): seq<seq<Item>>
    requires forall k :: 0 <= k < |subs| ==> |subs[k]| + 1 == n
  {
    if subs == [] then []
    else
      var last := subs[|subs| - 1];
      InsertAll(subs[..|subs| - 1], item, n) + Row(last, item, n)
  }

  function PermutationsOf(list: seq<Item>): (r: seq<seq<Item>>)
    ensures forall k :: 0 <= k < |r| ==> |r[k]| == |list|
  {
    if |list| > 1 then
      var subs := PermutationsOf(list[1..]);
      InsertAllLengths(subs, list[0], |list|);
      InsertAll(subs, list[0], |list|)
    else [list]
  }

  /** t is some sublist with the item put in at some place. */
  ghost predicate IsInserted(subs: seq<seq<Item>>, item: Item, n: nat, t: seq<Item>)
    requires forall k :: 0 <= k < |subs| ==> |subs[k]| + 1 == n
  {
    exists k, i: nat :: 0 <= k < |subs| && i < n && t == Insert(subs[k], item, i)
  }

  /** One more sublist adds the lists of its row. */
  lemma IsInsertedStep(subs: seq<seq<Item>>, item: Item, n: nat, t: seq<Item>)
    requires subs != [] && forall k :: 0 <= k < |subs| ==> |subs[k]| + 1 == n
    ensures IsInserted(subs, item, n, t) <==>
      IsInserted(subs[..|subs| - 1], item, n, t) || t in Row(subs[|subs| - 1], item, n)
  {
    hide Insert;
    var front, last := subs[..|subs| - 1], subs[|subs| - 1];
    var row := Row(last, item, n);
    if IsInserted(subs, item, n, t) {
      var k, i: nat :| 0 <= k < |subs| && i < n && t == Insert(subs[k], item, i);
      if k < |front| { assert front[k] == subs[k]; } else { assert row[i] == t; }
    }
    if t in row {
      var i :| 0 <= i < n && row[i] == t;
      assert t == Insert(subs[|subs| - 1], item, i);
    }
    if IsInserted(front, item, n, t) {
      var k, i: nat :| 0 <= k < |front| && i < n && t == Insert(front[k], item, i);
      assert front[k] == subs[k];
    }
  }

  lemma {:induction false} InsertAllElements(subs: seq<seq<Item>>, item: Item, n: nat, t: seq<Item>)
    requires forall k :: 0 <= k < |subs| ==> |subs[k]| + 1 == n
    ensures t in InsertAll(subs, item, n) <==> IsInserted(subs, item, n, t)
  {
    hide Insert, Row;
    if subs != [] {
      InsertAllElements(subs[..|subs| - 1], item, n, t);
      IsInsertedStep(subs, item, n, t);
    }
  }

  lemma {:induction false} InsertAllLengths(subs: seq<seq<Item>>, item: Item, n: nat)
    requires forall k :: 0 <= k < |subs| ==> |subs[k]| + 1 == n
    ensures forall k :: 0 <= k < |InsertAll(subs, item, n)| ==> |InsertAll(subs, item, n)[k]| == n
  {
    if subs != [] {
      InsertAllLengths(subs[..|subs| - 1], item, n);
    }
  }

  lemma {:induction false} InsertAllCount(subs: seq<seq<Item>>, item: Item, n: nat)
    requires forall k :: 0 <= k < |subs| ==> |subs[k]| + 1 == n
    ensures |InsertAll(subs, item, n)| == n * |subs|
  {
    hide Insert;
    if subs != [] {
      InsertAllCount(subs[..|subs| - 1], item, n);
      TimesNext(n, |subs| - 1);
    }
  }

  lemma TimesNext(n: nat, m: nat)
    ensures n * (m + 1) == n * m + n
  {
  }

  // ---------- how many, which, and how often

  lemma {:induction false} HowMany(list: seq<Item>)
    ensures |PermutationsOf(list)| == Factorial(|list|)
  {
    if |list| > 1 {
      HowMany(list[1..]);
      InsertAllCount(PermutationsOf(list[1..]), list[0], |list|);
    }
  }

  lemma InsertKeepsItems(sub: seq<Item>, item: Item, i: nat)
    requires i <= |sub|
    ensures multiset(Insert(sub, item, i)) == multiset(sub) + multiset{item}
  {
    assert sub == sub[..i] + sub[i..];
  }

  lemma Unfold(list: seq<Item>)
    requires |list| > 1
    ensures PermutationsOf(list) == InsertAll(PermutationsOf(list[1..]), list[0], |list|)
  {
  }

  lemma TakeOut(t: seq<Item>, item: Item) returns (sub: seq<Item>, i: nat)
    requires item in t
    ensures i <= |sub| && t == Insert(sub, item, i) && |t| == |sub| + 1
    ensures multiset(t) == multiset(sub) + multiset{item}
  {
    i :| 0 <= i < |t| && t[i] == item;
    sub := t[..i] + t[i + 1..];
    assert t == Insert(sub, item, i);
    InsertKeepsItems(sub, item, i);
  }

  lemma SameItemsSameLength(s: seq<Item>, t: seq<Item>)
    requires multiset(s) == multiset(t)
    ensures |s| == |t|
    ensures |s| == 1 ==> s == t
  {
    assert |s| == |multiset(s)| && |t| == |multiset(t)|;
    if |s| == 1 {
      assert s[0] in multiset(t);
    }
  }

  lemma SplitFirst(list: seq<Item>)
    requires list != []
    ensures multiset(list) == multiset(list[1..]) + multiset{list[0]}
    ensures list[0] in multiset(list)
  {
    assert list == [list[0]] + list[1..];
  }

  lemma Cancel(a: multiset<Item>, b: multiset<Item>, item: Item)
    requires a + multiset{item} == b + multiset{item}
    ensures a == b
  {
    assert a == (a + multiset{item}) - multiset{item};
    assert b == (b + multiset{item}) - multiset{item};
  }

  lemma {:induction false} OnlyRearrangements(list: seq<Item>, t: seq<Item>)
    requires t in PermutationsOf(list)
    ensures multiset(t) == multiset(list)
    decreases |list|
  {
    if |list| > 1 {
      Unfold(list);
      hide Insert, InsertAll, PermutationsOf;
      var subs := PermutationsOf(list[1..]);
      InsertAllElements(subs, list[0], |list|, t);
      var k, i: nat :| 0 <= k < |subs| && i < |list| && t == Insert(subs[k], list[0], i);
      OnlyRearrangements(list[1..], subs[k]);
      InsertKeepsItems(subs[k], list[0], i);
      SplitFirst(list);
    }
  }

  lemma {:induction false} EveryRearrangement(list: seq<Item>, t: seq<Item>)
    requires multiset(t) == multiset(list)
    ensures t in PermutationsOf(list)
    decreases |list|
  {
    SameItemsSameLength(list, t);
    if |list| > 1 {
      Unfold(list);
      hide Insert, InsertAll, PermutationsOf;
      var subs := PermutationsOf(list[1..]);
      SplitFirst(list);
      var sub, i := TakeOut(t, list[0]);
      Cancel(multiset(sub), multiset(list[1..]), list[0]);
      EveryRearrangement(list[1..], sub);
      var k :| 0 <= k < |subs| && subs[k] == sub;
      assert IsInserted(subs, list[0], |list|, t);
      InsertAllElements(subs, list[0], |list|, t);
    }
  }

  /** The result holds exactly the rearrangements of the input. */
  lemma ExactlyTheRearrangements(list: seq<Item>, t: seq<Item>)
    ensures t in PermutationsOf(list) <==> multiset(t) == multiset(list)
  {
    if t in PermutationsOf(list) { OnlyRearrangements(list, t); }
    if multiset(t) == multiset(list) { EveryRearrangement(list, t); }
  }

  /** Putting an item into lists without it gives different lists for different places or lists. */
  lemma InsertInjective(a: seq<Item>, b: seq<Item>, item: Item, i: nat, j: nat)
    requires i <= |a| && j <= |b| && item !in a && item !in b && Insert(a, item, i) == Insert(b, item, j)
    ensures a == b && i == j
  {
    if i < j {
      BeforePlace(b, item, j, i);
    } else if j < i {
      BeforePlace(a, item, i, j);
    }
    var s := Insert(a, item, i);
    assert s[i] == item && s[j] == item;
    assert a == s[..i] + s[i + 1..] && b == s[..j] + s[j + 1..];
  }

  lemma BeforePlace(sub: seq<Item>, item: Item, i: nat, k: nat)
    requires k < i <= |sub|
    ensures Insert(sub, item, i)[k] in sub
  {
    assert Insert(sub, item, i)[k] == sub[k];
  }

  lemma {:induction false} InsertAllDistinct(subs: seq<seq<Item>>, item: Item, n: nat)
    requires forall k :: 0 <= k < |subs| ==> |subs[k]| + 1 == n && item !in subs[k]
    requires NoDuplicates(subs)
    ensures NoDuplicates(InsertAll(subs, item, n))
  {
    if subs != [] {
      var front, last := subs[..|subs| - 1], subs[|subs| - 1];
      var row := Row(last, item, n);
      var before := InsertAll(front, item, n);
      InsertAllDistinct(front, item, n);
      forall i, j | 0 <= i < j < n ensures row[i] != row[j] {
        if row[i] == row[j] { InsertInjective(last, last, item, i, j); }
      }
      forall t | t in before ensures t !in row {
        InsertAllElements(front, item, n, t);
        var k, i: nat :| 0 <= k < |front| && i < n && t == Insert(front[k], item, i);
        forall j | 0 <= j < n ensures row[j] != t {
          if row[j] == t { InsertInjective(front[k], last, item, i, j); }
        }
      }
      Concatenated(before, row);
    }
  }

  lemma Concatenated<T>(a: seq<T>, b: seq<T>)
    requires NoDuplicates(a) && NoDuplicates(b) && forall x :: x in a ==> x !in b
    ensures NoDuplicates(a + b)
  {
    forall i, j | 0 <= i < j < |a + b| ensures (a + b)[i] != (a + b)[j] {
      if i < |a| <= j {
        assert a[i] in a && b[j - |a|] in b;
      }
    }
  }

  /** For different items all results are different. */
  lemma {:induction false} AllDifferent(list: seq<Item>)
    requires NoDuplicates(list)
    ensures NoDuplicates(PermutationsOf(list))
  {
    if |list| > 1 {
      var item, rest := list[0], list[1..];
      var subs := PermutationsOf(rest);
      AllDifferent(rest);
      forall k | 0 <= k < |subs| ensures item !in subs[k] {
        ExactlyTheRearrangements(rest, subs[k]);
        assert subs[k] in subs;
        assert item in subs[k] <==> item in multiset(subs[k]);
      }
      InsertAllDistinct(subs, item, |list|);
    }
  }

  // ---------- in which order

  lemma {:induction false} InsertAllAt(subs: seq<seq<Item>>, item: Item, n: nat, k: nat, i: nat)
    requires forall j :: 0 <= j < |subs| ==> |subs[j]| + 1 == n
    requires k < |subs| && i < n
    ensures |InsertAll(subs, item, n)| == n * |subs| && n * k + i < n * |subs|
    ensures InsertAll(subs, item, n)[n * k + i] == subs[k][..i] + [item] + subs[k][i..]
  {
    var front, last := subs[..|subs| - 1], subs[|subs| - 1];
    InsertAllCount(subs, item, n);
    InsertAllCount(front, item, n);
    RowsBefore(n, k, |subs|, i);
    if k < |subs| - 1 {
      InsertAllAt(front, item, n, k, i);
    } else {
      assert InsertAll(subs, item, n)[n * k + i] == Row(last, item, n)[i];
    }
  }

  lemma RowsBefore(n: nat, k: nat, m: nat, i: nat)
    requires k < m && i < n
    ensures n * k + i < n * m
    ensures k < m - 1 ==> n * k + i < n * (m - 1)
  {
    assert n * (k + 1) <= n * m;
    if k < m - 1 {
      assert n * (k + 1) <= n * (m - 1);
    }
  }

  /** Result number n * k + i of n items is permutation number k of the items but the first, with the first put in
      front of its element number i. */
  lemma OrderOfResults(list: seq<Item>, k: nat, i: nat)
    requires |list| > 1 && k < |PermutationsOf(list[1..])| && i < |list|
    ensures |list| * k + i < |PermutationsOf(list)|
    ensures PermutationsOf(list)[|list| * k + i] ==
      PermutationsOf(list[1..])[k][..i] + [list[0]] + PermutationsOf(list[1..])[k][i..]
  {
    InsertAllAt(PermutationsOf(list[1..]), list[0], |list|, k, i);
  }

  // ---------- the program

  lemma RowStep(before: seq<seq<Item>>, sub: seq<Item>, item: Item, i: nat)
    requires i <= |sub|
    ensures before + Row(sub, item, i) + [Insert(sub, item, i)] == before + Row(sub, item, i + 1)
  {
    hide Insert;
  }

  lemma EmptyRow(before: seq<seq<Item>>, sub: seq<Item>, item: Item)
    ensures before + Row(sub, item, 0) == before
  {
  }

  lemma EmptyLists(item: Item, n: nat)
    ensures InsertAll([], item, n) == []
  {
  }

  lemma InsertAllStep(subs: seq<seq<Item>>, item: Item, n: nat, k: nat)
    requires k < |subs| && forall j :: 0 <= j < |subs| ==> |subs[j]| + 1 == n
    ensures InsertAll(subs[..k + 1], item, n) == InsertAll(subs[..k], item, n) + Row(subs[k], item, n)
  {
    assert subs[..k + 1][..k] == subs[..k];
  }

  method Permute(inputList: seq<Item>) returns (outLists: seq<seq<Item>>)
    ensures outLists == PermutationsOf(inputList)
    decreases |inputList|
  {
    hide InsertAll, Row;
    outLists := [];
    if |inputList| > 1 {
      var item := inputList[0];
      var subLists := Permute(inputList[1..]);
      EmptyLists(item, |inputList|);
      for k := 0 to |subLists|
        invariant outLists == InsertAll(subLists[..k], item, |inputList|)
      {
        var subList := subLists[k];
        ghost var before := outLists;
        EmptyRow(before, subList, item);
        for i := 0 to |inputList|
          invariant outLists == before + Row(subList, item, i)
        {
          var newList := subList[..i] + [item] + subList[i..];
          outLists := outLists + [newList];
          RowStep(before, subList, item, i);
        }
        InsertAllStep(subLists, item, |inputList|, k);
      }
      assert subLists[..|subLists|] == subLists;
    } else {
      outLists := [inputList];
    }
  }
}

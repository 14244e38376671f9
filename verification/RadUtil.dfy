/** bindings/python/rad_util.py, the rotation test used to recognise duplicate cycles. */
module RadUtil {

  datatype Option<T> = None | Some(value: T)

  function Rotate<T>(s: seq<T>, k: nat): seq<T>
    requires k <= |s|
  {
    s[k..] + s[..k]
  }

  /** b is a left over from a by moving some prefix of it to the end. */
  ghost predicate IsRotation<T>(a: seq<T>, b: seq<T>) {
    exists k: nat :: k <= |a| && b == Rotate(a, k)
  }

  lemma RotateTwice<T>(s: seq<T>, j: nat, k: nat)
    requires j <= |s| && k <= |s|
    ensures Rotate(Rotate(s, j), k) == if j + k <= |s| then Rotate(s, j + k) else Rotate(s, j + k - |s|)
  {
    var once := Rotate(s, j);
    assert s == s[..j] + s[j..];
    if j + k <= |s| {
      assert once[k..] == s[j + k..] + s[..j] && once[..k] == s[j..j + k];
      assert s[j..j + k] + [] == s[..j + k][j..];
    } else {
      assert once[k..] == s[j + k - |s|..j] && once[..k] == s[j..] + s[..j + k - |s|];
    }
  }

  lemma RotationSymmetric<T>(a: seq<T>, b: seq<T>)
    requires IsRotation(a, b)
    ensures IsRotation(b, a)
  {
    var k: nat :| k <= |a| && b == Rotate(a, k);
    RotateTwice(a, k, |a| - k);
    assert Rotate(b, |a| - k) == a;
  }

  lemma RotationTransitive<T>(a: seq<T>, b: seq<T>, c: seq<T>)
    requires IsRotation(a, b) && IsRotation(b, c)
    ensures IsRotation(a, c)
  {
    var j: nat :| j <= |a| && b == Rotate(a, j);
    var k: nat :| k <= |b| && c == Rotate(b, k);
    RotateTwice(a, j, k);
  }

  lemma DoubledWindow<T>(s: seq<T>, k: nat)
    requires k < |s|
    ensures (s + s)[k..k + |s|] == Rotate(s, k)
  {
  }

  lemma NotRotation<T>(a: seq<T>, b: seq<T>)
    requires a != [] && forall k: nat :: k < |a| ==> Rotate(a, k) != b
    ensures !IsRotation(a, b)
  {
    assert Rotate(a, |a|) == Rotate(a, 0);
  }

  /** Whether seq1 is seq2 wrapped around; None is the IndexError of two empty sequences. */
  method IsRotated<T(==)>(seq1: seq<T>, seq2: seq<T>) returns (r: Option<bool>)
    ensures r == None <==> seq1 == seq2 == []
    ensures r.Some? ==> (r.value <==> IsRotation(seq1, seq2))
  {
    if |seq1| != |seq2| {
      return Some(false);
    }
    if seq2 == [] {
      return None;
    }
    var startIndexes: seq<nat>, headItem := [], seq2[0];
    for index1 := 0 to |seq1|
      invariant forall m :: 0 <= m < |startIndexes| ==> startIndexes[m] < |seq1|
      invariant forall k: nat :: k < index1 && seq1[k] == headItem ==> k in startIndexes
    {
      if seq1[index1] == headItem {
        startIndexes := startIndexes + [index1];
      }
    }
    var doubleSeq1 := seq1 + seq1;
    for i := 0 to |startIndexes|
      invariant forall m :: 0 <= m < i ==> Rotate(seq1, startIndexes[m]) != seq2
    {
      var index1 := startIndexes[i];
      DoubledWindow(seq1, index1);
      if doubleSeq1[index1..index1 + |seq1|] == seq2 {
        return Some(true);
      }
    }
    forall k: nat | k < |seq1| ensures Rotate(seq1, k) != seq2 {
      if seq1[k] == headItem {
        assert k in startIndexes;
      } else {
        assert Rotate(seq1, k)[0] == seq1[k];
      }
    }
    NotRotation(seq1, seq2);
    return Some(false);
  }
}

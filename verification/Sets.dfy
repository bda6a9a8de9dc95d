/** Facts about finite sets that the other modules share. */
module Sets {

  lemma Pick<T>(s: set<T>) returns (x: T)
    requires s != {}
    ensures x in s
  {
    x :| x in s;
  }

  /** The n integers from s on. */
  function Range(s: int, n: nat): (r: set<int>)
    ensures forall i :: i in r <==> s <= i < s + n
    ensures |r| == n
  {
    if n == 0 then {} else Range(s, n - 1) + {s + n - 1}
  }

  lemma SameInts(a: set<int>, b: set<int>)
    requires forall x :: x in a <==> x in b
    ensures a == b
  {
    if a != b {
      if a - b != {} {
        var x := Pick(a - b);
      } else {
        assert b - a != {};
        var x := Pick(b - a);
      }
    }
  }

  lemma SubsetSize<T>(a: set<T>, b: set<T>)
    requires a <= b
    ensures |b - a| == |b| - |a|
  {
    assert b == (b - a) + a;
  }

  /** Distinct elements of a sequence are at most as many as the sequence is long. */
  lemma {:induction false} DistinctFits(a: seq<int>, b: seq<int>)
    requires forall i, j :: 0 <= i < j < |a| ==> a[i] != a[j]
    requires forall x :: x in a ==> x in b
    ensures |a| <= |b|
  {
    if a != [] {
      assert a[0] in a;
      var k :| 0 <= k < |b| && b[k] == a[0];
      var fewer := b[..k] + b[k + 1..];
      forall x | x in a[1..] ensures x in fewer {
        var i :| 0 <= i < |a[1..]| && a[1..][i] == x;
        assert a[i + 1] == x && x != a[0] && x in b;
        var j :| 0 <= j < |b| && b[j] == x;
        assert fewer[if j < k then j else j - 1] == x;
      }
      DistinctFits(a[1..], fewer);
    }
  }
}

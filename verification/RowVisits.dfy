/** Visiting the rows of a relation: in storage order, or in the order in which an
    iterator yields row numbers. `adds[i]` is what visiting row `i` adds to the result. */
module RowVisits {

  /** The result of visiting rows lo..hi in order. */
  function Scan<T>(adds: seq<seq<T>>, lo: nat, hi: nat): seq<T>
    requires hi <= |adds|
    decreases hi
  {
    if lo >= hi then [] else Scan(adds, lo, hi - 1) + adds[hi - 1]
  }

  /** Row numbers that an iterator may yield. */
  predicate Rows<T>(adds: seq<seq<T>>, ids: seq<nat>) {
    forall k :: 0 <= k < |ids| ==> ids[k] < |adds|
  }

  /** The result of visiting the rows that an iterator yields. */
  function Follow<T>(adds: seq<seq<T>>, ids: seq<nat>): seq<T>
    requires Rows(adds, ids)
  {
    if ids == [] then [] else Follow(adds, ids[..|ids| - 1]) + adds[ids[|ids| - 1]]
  }

  lemma {:induction false} ScanNothing<T>(adds: seq<seq<T>>, lo: nat, hi: nat)
    requires hi <= |adds| && forall i :: lo <= i < hi ==> adds[i] == []
    ensures Scan(adds, lo, hi) == []
    decreases hi
  {
    if lo < hi {
      ScanNothing(adds, lo, hi - 1);
    }
  }

  lemma {:induction false} ScanSplit<T>(adds: seq<seq<T>>, a: nat, b: nat, c: nat)
    requires a <= b <= c <= |adds|
    ensures Scan(adds, a, c) == Scan(adds, a, b) + Scan(adds, b, c)
    decreases c
  {
    if b < c {
      ScanSplit(adds, a, b, c - 1);
    }
  }

  /** Leaving out rows at both ends that add nothing changes nothing. */
  lemma ScanWindow<T>(adds: seq<seq<T>>, lo: nat, hi: nat)
    requires lo <= hi <= |adds|
    requires forall i :: 0 <= i < lo || hi <= i < |adds| ==> adds[i] == []
    ensures Scan(adds, lo, hi) == Scan(adds, 0, |adds|)
  {
    ScanSplit(adds, 0, lo, |adds|);
    ScanSplit(adds, lo, hi, |adds|);
    ScanNothing(adds, 0, lo);
    ScanNothing(adds, hi, |adds|);
  }

  lemma {:induction false} ScanSome<T>(adds: seq<seq<T>>, lo: nat, hi: nat, i: nat)
    requires lo <= i < hi <= |adds| && adds[i] != []
    ensures Scan(adds, lo, hi) != []
    decreases hi
  {
    if i < hi - 1 {
      ScanSome(adds, lo, hi - 1, i);
    }
  }

  /** And leaving out any other row changes the result. */
  lemma ScanWindowIff<T>(adds: seq<seq<T>>, lo: nat, hi: nat)
    requires lo <= hi <= |adds|
    ensures Scan(adds, lo, hi) == Scan(adds, 0, |adds|) <==>
            forall i :: 0 <= i < |adds| && !(lo <= i < hi) ==> adds[i] == []
  {
    ScanSplit(adds, 0, lo, |adds|);
    ScanSplit(adds, lo, hi, |adds|);
    if Scan(adds, lo, hi) == Scan(adds, 0, |adds|) {
      assert |Scan(adds, 0, lo)| == 0 && |Scan(adds, hi, |adds|)| == 0;
      forall i | 0 <= i < |adds| && !(lo <= i < hi) ensures adds[i] == [] {
        if adds[i] != [] {
          if i < lo {
            ScanSome(adds, 0, lo, i);
          } else {
            ScanSome(adds, hi, |adds|, i);
          }
        }
      }
    } else if forall i :: 0 <= i < |adds| && !(lo <= i < hi) ==> adds[i] == [] {
      ScanWindow(adds, lo, hi);
    }
  }

  lemma {:induction false} FollowSplit<T>(adds: seq<seq<T>>, a: seq<nat>, b: seq<nat>)
    requires Rows(adds, a) && Rows(adds, b)
    ensures Rows(adds, a + b) && Follow(adds, a + b) == Follow(adds, a) + Follow(adds, b)
  {
    if b == [] {
      assert a + b == a;
    } else {
      var n := |b| - 1;
      assert (a + b)[..|a + b| - 1] == a + b[..n];
      FollowSplit(adds, a, b[..n]);
    }
  }

  function Without(ids: seq<nat>, k: nat): seq<nat>
    requires k < |ids|
  {
    ids[..k] + ids[k + 1..]
  }

  lemma FollowOne<T>(adds: seq<seq<T>>, ids: seq<nat>, k: nat)
    requires Rows(adds, ids) && k < |ids|
    ensures Rows(adds, Without(ids, k))
    ensures multiset(Follow(adds, ids)) == multiset(Follow(adds, Without(ids, k))) + multiset(adds[ids[k]])
  {
    var a, one, b := ids[..k], [ids[k]], ids[k + 1..];
    assert ids == a + one + b;
    FollowSplit(adds, a + one, b);
    FollowSplit(adds, a, one);
    FollowSplit(adds, a, b);
    assert one[..0] == [];
    assert Follow(adds, one) == [] + adds[ids[k]];
  }

  predicate Distinct(ids: seq<nat>) {
    forall i, j :: 0 <= i < j < |ids| ==> ids[i] != ids[j]
  }

  /** The ids are row numbers below `n`, each at most once, and every row below `n`
      that adds something is among them. */
  ghost predicate Yields<T>(adds: seq<seq<T>>, ids: seq<nat>, n: nat) {
    && n <= |adds| && Distinct(ids)
    && (forall k :: 0 <= k < |ids| ==> ids[k] < n)
    && (forall i :: 0 <= i < n && adds[i] != [] ==> i in ids)
  }

  lemma YieldsWithout<T>(adds: seq<seq<T>>, ids: seq<nat>, k: nat, n: nat)
    requires Yields(adds, ids, n) && k < |ids| && ids[k] == n - 1
    ensures Yields(adds, Without(ids, k), n - 1)
  {
    var rest := Without(ids, k);
    forall i | 0 <= i < n - 1 && adds[i] != [] ensures i in rest {
      var j :| 0 <= j < |ids| && ids[j] == i;
      assert if j < k then rest[j] == i else rest[j - 1] == i;
    }
  }

  lemma NoneBelowZero<T>(adds: seq<seq<T>>, ids: seq<nat>, n: nat)
    requires Yields(adds, ids, n)
    ensures n == 0 ==> ids == []
  {
    if ids != [] {
      assert ids[0] < n;
    }
  }

  /** Take the last row below `n` out of the ids. */
  lemma WithoutLast<T>(adds: seq<seq<T>>, ids: seq<nat>, n: nat) returns (rest: seq<nat>)
    requires Yields(adds, ids, n) && n > 0
    ensures Yields(adds, rest, n - 1)
    ensures multiset(Follow(adds, ids)) == multiset(Follow(adds, rest)) + multiset(adds[n - 1])
  {
    if n - 1 in ids {
      var k :| 0 <= k < |ids| && ids[k] == n - 1;
      rest := Without(ids, k);
      YieldsWithout(adds, ids, k, n);
      FollowOne(adds, ids, k);
    } else {
      rest := ids;
      assert adds[n - 1] == [];
    }
  }

  /** Any iterator that yields every row that adds something once gives the same rows as the
      scan, in some order; the rows it yields beyond those do not matter. */
  lemma {:induction false} FollowIsScan<T>(adds: seq<seq<T>>, ids: seq<nat>, n: nat)
    requires Yields(adds, ids, n)
    ensures multiset(Follow(adds, ids)) == multiset(Scan(adds, 0, n))
    decreases n
  {
    NoneBelowZero(adds, ids, n);
    if n > 0 {
      var rest := WithoutLast(adds, ids, n);
      FollowIsScan(adds, rest, n - 1);
      assert Scan(adds, 0, n) == Scan(adds, 0, n - 1) + adds[n - 1];
    }
  }
}

/** Order of the text particles waiting for release: indices into the text,
    sorted by the row of their input cell, highest row first (Python's
    `list.sort(key=row, reverse=True)`). */
module Pending {

  /** Every index of `ps` names one of `n` text particles. */
  predicate InRange(ps: seq<nat>, n: nat) {
    forall k :: 0 <= k < |ps| ==> ps[k] < n
  }

  predicate Distinct(ps: seq<nat>) {
    forall i, j :: 0 <= i < j < |ps| ==> ps[i] != ps[j]
  }

  /** The particles `ps` are ordered by the rows `rows`, highest first. */
  predicate SortedDesc(ps: seq<nat>, rows: seq<int>)
    requires InRange(ps, |rows|)
  {
    forall i, j :: 0 <= i < j < |ps| ==> rows[ps[i]] >= rows[ps[j]]
  }

  /** `s` with its element at `k` taken out (Python's `list.pop(k)`). */
  function RemoveAt(s: seq<nat>, k: nat): (r: seq<nat>)
    requires k < |s|
    ensures |r| == |s| - 1
    ensures multiset(r) + multiset{s[k]} == multiset(s)
  {
    assert s == s[..k] + [s[k]] + s[k + 1..];
    s[..k] + s[k + 1..]
  }

  /** Insert `x` into `s` before the first entry whose row is not above the
      row of `x`. */
  function Insert(x: nat, s: seq<nat>, rows: seq<int>): (r: seq<nat>)
    requires x < |rows| && InRange(s, |rows|)
    ensures InRange(r, |rows|)
    ensures multiset(r) == multiset(s) + multiset{x}
    decreases |s|
  {
    if s == [] || rows[x] >= rows[s[0]] then [x] + s
    else
      assert s == [s[0]] + s[1..];
      [s[0]] + Insert(x, s[1..], rows)
  }

  /** Inserting into a sequence sorted highest row first keeps it sorted. */
  lemma {:induction false} InsertSorted(x: nat, s: seq<nat>, rows: seq<int>)
    requires x < |rows| && InRange(s, |rows|) && SortedDesc(s, rows)
    ensures SortedDesc(Insert(x, s, rows), rows)
    decreases |s|
  {
    if s != [] && rows[x] < rows[s[0]] {
      var t := Insert(x, s[1..], rows);
      InsertSorted(x, s[1..], rows);
      InsertBelow(x, s[1..], rows, rows[s[0]]);
      var r := [s[0]] + t;
      forall i, j | 0 <= i < j < |r|
        ensures rows[r[i]] >= rows[r[j]]
      {
        assert r[j] == t[j - 1];
        if i > 0 {
          assert r[i] == t[i - 1];
        }
      }
    }
  }

  /** No entry of an insertion is above a row bounding `x` and `s`. */
  lemma InsertBelow(x: nat, s: seq<nat>, rows: seq<int>, bound: int)
    requires x < |rows| && InRange(s, |rows|)
    requires rows[x] <= bound && forall i :: 0 <= i < |s| ==> rows[s[i]] <= bound
    ensures forall k :: 0 <= k < |Insert(x, s, rows)| ==> rows[Insert(x, s, rows)[k]] <= bound
  {
    var t := Insert(x, s, rows);
    forall k | 0 <= k < |t|
      ensures rows[t[k]] <= bound
    {
      assert t[k] in multiset(t);
      if t[k] != x {
        assert t[k] in multiset(s);
      }
    }
  }

  /** The particles of `ps`, highest row first, as a permutation of `ps`. */
  function SortDesc(ps: seq<nat>, rows: seq<int>): (r: seq<nat>)
    requires InRange(ps, |rows|)
    ensures InRange(r, |rows|)
    ensures multiset(r) == multiset(ps)
    ensures SortedDesc(r, rows)
    decreases |ps|
  {
    if ps == [] then []
    else
      assert ps == [ps[0]] + ps[1..];
      InsertSorted(ps[0], SortDesc(ps[1..], rows), rows);
      Insert(ps[0], SortDesc(ps[1..], rows), rows)
  }

  /** Popping any entry keeps the rest in range, distinct, and sorted. */
  lemma RemoveAtKeepsOrder(ps: seq<nat>, rows: seq<int>, k: nat)
    requires k < |ps| && InRange(ps, |rows|) && Distinct(ps) && SortedDesc(ps, rows)
    ensures InRange(RemoveAt(ps, k), |rows|) && Distinct(RemoveAt(ps, k)) && SortedDesc(RemoveAt(ps, k), rows)
    ensures ps[k] !in RemoveAt(ps, k)
  {
    var r := RemoveAt(ps, k);
    assert forall i :: 0 <= i < |r| ==> r[i] == if i < k then ps[i] else ps[i + 1];
  }

  /** A sequence has no repeats exactly when no multiset count exceeds 1,
      so a permutation of a repeat-free sequence is repeat-free. */
  lemma {:induction false} DistinctMultiset(ps: seq<nat>)
    ensures Distinct(ps) <==> forall x :: multiset(ps)[x] <= 1
    decreases |ps|
  {
    if ps != [] {
      DistinctMultiset(ps[1..]);
      assert ps == [ps[0]] + ps[1..];
      assert multiset(ps) == multiset{ps[0]} + multiset(ps[1..]);
      if Distinct(ps) {
        assert Distinct(ps[1..]);
        assert ps[0] !in ps[1..];
      }
      if forall x :: multiset(ps)[x] <= 1 {
        forall x
          ensures multiset(ps[1..])[x] <= 1
        {
          assert multiset(ps)[x] == multiset{ps[0]}[x] + multiset(ps[1..])[x];
        }
        assert multiset(ps)[ps[0]] == 1 + multiset(ps[1..])[ps[0]];
        forall i, j | 0 <= i < j < |ps|
          ensures ps[i] != ps[j]
        {
          if i > 0 {
            assert ps[i] == ps[1..][i - 1] && ps[j] == ps[1..][j - 1];
          } else {
            assert ps[j] in ps[1..];
          }
        }
      }
    }
  }
}

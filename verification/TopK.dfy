/**
 The k best of a stream of scores, kept by insertion (the hit list of kernel/peakvec.c),
 against the ranking it stands for.
 */
module TopK {

  /** Candidate `x` ranks before `y`: by score, then by order of arrival. */
  predicate Before(sc: seq<int>, x: nat, y: nat)
    requires x < |sc| && y < |sc|
  {
    sc[x] > sc[y] || (sc[x] == sc[y] && x < y)
  }

  function Min(a: nat, b: nat): nat {
    if a < b then a else b
  }

  /** `at` lists the `k` first-ranking candidates in order. */
  ghost predicate Ranked(sc: seq<int>, at: seq<nat>, k: nat) {
    && |at| == Min(k, |sc|)
    && (forall i :: 0 <= i < |at| ==> at[i] < |sc|)
    && (|at| < k ==> forall x: nat :: x < |sc| ==> x in at)
    && (forall i, j :: 0 <= i < j < |at| ==> Before(sc, at[i], at[j]))
    && (forall i, x: nat :: 0 <= i < |at| && x < |sc| && x !in at ==> Before(sc, at[i], x))
  }

  /** Where the insertion loop puts a score: before the first one it exceeds. */
  function Place(sc: seq<int>, at: seq<nat>, s: int): (p: nat)
    requires forall i :: 0 <= i < |at| ==> at[i] < |sc|
    ensures p <= |at|
    ensures forall i :: 0 <= i < p ==> s <= sc[at[i]]
    ensures p < |at| ==> s > sc[at[p]]
  {
    if |at| == 0 then 0
    else if s > sc[at[0]] then 0
    else 1 + Place(sc, at[1..], s)
  }

  function Cut<T>(at: seq<T>, k: nat): (c: seq<T>)
    ensures |c| == Min(k, |at|) && forall i :: 0 <= i < |c| ==> c[i] == at[i]
  {
    if |at| <= k then at else at[..k]
  }

  function Inserted<T>(s: seq<T>, p: nat, x: T): (r: seq<T>)
    requires p <= |s|
    ensures |r| == |s| + 1 && r[p] == x
    ensures forall i :: 0 <= i < p ==> r[i] == s[i]
    ensures forall i :: p < i <= |s| ==> r[i] == s[i - 1]
  {
    s[..p] + [x] + s[p..]
  }

  /** The hit list after the candidates `sc`. */
  function Best(sc: seq<int>, k: nat): (at: seq<nat>)
    ensures forall i :: 0 <= i < |at| ==> at[i] < |sc|
  {
    if sc == [] then []
    else
      var n := |sc| - 1;
      var at := Best(sc[..n], k);
      var p := Place(sc, at, sc[n]);
      Cut(Inserted(at, p, n), k)
  }

  /** Insertion keeps exactly the k best, ties in order of arrival. */
  lemma {:induction false} BestRanked(sc: seq<int>, k: nat)
    ensures Ranked(sc, Best(sc, k), k)
  {
    if sc != [] {
      var n := |sc| - 1;
      BestRanked(sc[..n], k);
      var at := Best(sc[..n], k);
      InsertRanked(sc, at, k, Place(sc, at, sc[n]));
    }
  }

  lemma InsertRanked(sc: seq<int>, at: seq<nat>, k: nat, p: nat)
    requires |sc| > 0 && Ranked(sc[..|sc| - 1], at, k) && p <= |at|
    requires forall i :: 0 <= i < p ==> sc[|sc| - 1] <= sc[at[i]]
    requires p < |at| ==> sc[|sc| - 1] > sc[at[p]]
    ensures Ranked(sc, Cut(Inserted(at, p, |sc| - 1), k), k)
  {
    var n := |sc| - 1;
    var b := Inserted(at, p, n);
    InsertOrdered(sc, at, k, p);
    InsertCovers(sc, at, k, p);
    CutRanked(sc, b, k);
  }

  lemma CutRanked(sc: seq<int>, b: seq<nat>, k: nat)
    requires |sc| > 0 && (forall i :: 0 <= i < |b| ==> b[i] < |sc|) && |b| == Min(k, |sc| - 1) + 1
    requires forall i, j :: 0 <= i < j < |b| ==> Before(sc, b[i], b[j])
    requires forall x: nat :: x < |sc| && x !in b ==> |b| == k + 1 && forall i :: 0 <= i < |b| - 1 ==>
        Before(sc, b[i], x)
    ensures Ranked(sc, Cut(b, k), k)
  {
    var c := Cut(b, k);
    forall i, x: nat | 0 <= i < |c| && x < |sc| && x !in c ensures Before(sc, c[i], x) {
      assert forall j :: 0 <= j < |c| ==> c[j] == b[j];
      if x in b {
        var j :| 0 <= j < |b| && b[j] == x;
      }
    }
  }

  lemma InsertOrdered(sc: seq<int>, at: seq<nat>, k: nat, p: nat)
    requires |sc| > 0 && Ranked(sc[..|sc| - 1], at, k) && p <= |at|
    requires forall i :: 0 <= i < p ==> sc[|sc| - 1] <= sc[at[i]]
    requires p < |at| ==> sc[|sc| - 1] > sc[at[p]]
    ensures var b := Inserted(at, p, |sc| - 1);
            && (forall i :: 0 <= i < |b| ==> b[i] < |sc|)
            && (forall i, j :: 0 <= i < j < |b| ==> Before(sc, b[i], b[j]))
  {
    var n := |sc| - 1;
    var prior, b := sc[..n], Inserted(at, p, n);
    forall i | 0 <= i < |at| ensures if i < p then Before(sc, at[i], n) else Before(sc, n, at[i]) {
      if p < i {
        assert Before(prior, at[p], at[i]);
      }
    }
    forall i, j | 0 <= i < j < |b| ensures Before(sc, b[i], b[j]) {
      var x, y := if i <= p then i else i - 1, if j <= p then j else j - 1;
      if i != p && j != p {
        assert Before(prior, at[x], at[y]);
      }
    }
  }

  lemma InsertCovers(sc: seq<int>, at: seq<nat>, k: nat, p: nat)
    requires |sc| > 0 && Ranked(sc[..|sc| - 1], at, k) && p <= |at|
    requires forall i :: 0 <= i < p ==> sc[|sc| - 1] <= sc[at[i]]
    requires p < |at| ==> sc[|sc| - 1] > sc[at[p]]
    ensures var b := Inserted(at, p, |sc| - 1);
            forall x: nat :: x < |sc| && x !in b ==>
              |b| == k + 1 && forall i :: 0 <= i < |b| - 1 ==> b[i] < |sc| && Before(sc, b[i], x)
  {
    var n := |sc| - 1;
    var b := Inserted(at, p, n);
    InsertOrdered(sc, at, k, p);
    forall x: nat | x < |sc| && x !in b
      ensures |b| == k + 1 && forall i :: 0 <= i < |b| - 1 ==> Before(sc, b[i], x)
    {
      assert b[p] == n;
      assert forall i :: 0 <= i < |at| ==> at[i] == b[if i < p then i else i + 1];
      assert x !in at;
      assert x < |sc[..n]|;
      forall i | 0 <= i < |at| ensures Before(sc, at[i], x) {
        assert Before(sc[..n], at[i], x);
      }
    }
  }

  /** The ranking is unique, so the hit list is the answer and not one of several. */
  lemma RankedUnique(sc: seq<int>, a: seq<nat>, b: seq<nat>, k: nat)
    requires Ranked(sc, a, k) && Ranked(sc, b, k)
    ensures a == b
  {
    forall i | 0 <= i < |a| ensures a[i] == b[i] {
      RankedUniqueAt(sc, a, b, k, i);
    }
  }

  lemma {:induction false} RankedUniqueAt(sc: seq<int>, a: seq<nat>, b: seq<nat>, k: nat, i: nat)
    requires Ranked(sc, a, k) && Ranked(sc, b, k) && i < |a|
    ensures a[..i + 1] == b[..i + 1]
  {
    if i > 0 {
      RankedUniqueAt(sc, a, b, k, i - 1);
    }
    FirstAgrees(sc, a, b, k, i);
    FirstAgrees(sc, b, a, k, i);
  }

  /** After a common beginning, the next of `a` does not rank before the next of `b`. */
  lemma FirstAgrees(sc: seq<int>, a: seq<nat>, b: seq<nat>, k: nat, i: nat)
    requires Ranked(sc, a, k) && Ranked(sc, b, k) && i < |a| && a[..i] == b[..i]
    ensures b[i] == a[i] || Before(sc, b[i], a[i])
  {
    var x := a[i];
    forall j | 0 <= j < i ensures b[j] == a[j] && Before(sc, a[j], x) {
      assert a[..i][j] == b[..i][j];
    }
    if x in b {
      var j :| 0 <= j < |b| && b[j] == x;
    }
  }
}

/**
 Who holds each page of RAM (kernel/pmm.c): a client, the single-page stack, the run
 list, or the page map.  The four never overlap and together they are all of RAM.
 */
module PagePool {

  datatype Run = Run(start: nat, n: nat)

  datatype Pool = Pool(ram: set<nat>, held: set<nat>, free: set<nat>, singles: seq<nat>, runs: seq<Run>)

  function Range(start: nat, n: nat): (s: set<nat>)
    ensures forall p: nat :: p in s <==> start <= p < start + n
    ensures |s| == n
  {
    if n == 0 then {} else Range(start, n - 1) + {start + n - 1}
  }

  predicate InRun(r: Run, p: nat) {
    r.start <= p < r.start + r.n
  }

  predicate OnRun(runs: seq<Run>, p: nat) {
    exists i :: 0 <= i < |runs| && InRun(runs[i], p)
  }

  ghost predicate SinglesDistinct(singles: seq<nat>) {
    forall i, j :: 0 <= i < j < |singles| ==> singles[i] != singles[j]
  }

  ghost predicate RunsApart(runs: seq<Run>) {
    && (forall i :: 0 <= i < |runs| ==> runs[i].n > 0)
    && (forall i, j, p: nat :: 0 <= i < j < |runs| && InRun(runs[i], p) ==> !InRun(runs[j], p))
  }

  /** Page `p` has exactly one holder if it is RAM, and none otherwise. */
  ghost predicate OneHolder(q: Pool, p: nat) {
    var a, f, s, r := p in q.held, p in q.free, p in q.singles, OnRun(q.runs, p);
    && (p in q.ram <==> a || f || s || r)
    && (a ==> !f && !s && !r) && (f ==> !s && !r) && (s ==> !r)
  }

  ghost predicate Partition(q: Pool) {
    (forall p: nat :: OneHolder(q, p)) && SinglesDistinct(q.singles) && RunsApart(q.runs)
  }

  /** What no client holds is on the stack, on a run or free in the map; nothing else. */
  lemma Reclaimable(q: Pool)
    requires Partition(q)
    ensures q.held <= q.ram
    ensures forall p: nat :: p in q.ram - q.held <==> p in q.free || p in q.singles || OnRun(q.runs, p)
  {
    forall p: nat
      ensures p in q.held ==> p in q.ram
      ensures p in q.ram - q.held <==> p in q.free || p in q.singles || OnRun(q.runs, p)
    {
      assert OneHolder(q, p);
    }
  }

  // ---- handing pages out ----

  lemma PopSingle(q: Pool)
    requires Partition(q) && |q.singles| > 0
    ensures var n := |q.singles| - 1;
            var p := q.singles[n];
            p !in q.held && p in q.ram &&
            Partition(q.(held := q.held + {p}, singles := q.singles[..n]))
  {
    var n := |q.singles| - 1;
    var p := q.singles[n];
    var t := q.(held := q.held + {p}, singles := q.singles[..n]);
    assert q.singles == t.singles + [p];
    assert OneHolder(q, p);
    forall x: nat ensures OneHolder(t, x) {
      assert OneHolder(q, x);
    }
  }

  function WithoutRun(runs: seq<Run>, i: nat): (r: seq<Run>)
    requires i < |runs|
    ensures |r| == |runs| - 1
  {
    runs[i := runs[|runs| - 1]][..|runs| - 1]
  }

  /** Dropping run `i` by moving the last run into its place. */
  lemma DropRun(runs: seq<Run>, i: nat)
    requires i < |runs| && RunsApart(runs)
    ensures RunsApart(WithoutRun(runs, i))
    ensures forall p: nat :: OnRun(WithoutRun(runs, i), p) <==> OnRun(runs, p) && !InRun(runs[i], p)
  {
    var t := WithoutRun(runs, i);
    forall p: nat ensures OnRun(t, p) <==> OnRun(runs, p) && !InRun(runs[i], p) {
      if j :| 0 <= j < |t| && InRun(t[j], p) {
        var k := if j == i then |runs| - 1 else j;
        assert InRun(runs[k], p);
      }
      if k :| 0 <= k < |runs| && k != i && InRun(runs[k], p) {
        assert InRun(t[if k == |runs| - 1 then i else k], p);
      }
    }
  }

  lemma ShrinkRun(runs: seq<Run>, i: nat, n: nat)
    requires i < |runs| && RunsApart(runs) && n < runs[i].n
    ensures var t := runs[i := Run(runs[i].start + n, runs[i].n - n)];
            RunsApart(t) && forall p: nat :: OnRun(t, p) <==> OnRun(runs, p) && p !in Range(runs[i].start, n)
  {
    hide Range, OnRun;
    var t := runs[i := Run(runs[i].start + n, runs[i].n - n)];
    forall j, p: nat | 0 <= j < |t| && InRun(t[j], p) ensures InRun(runs[j], p) {
    }
    forall p: nat ensures OnRun(t, p) <==> OnRun(runs, p) && p !in Range(runs[i].start, n) {
      ShrunkAt(runs, i, n, p);
    }
  }

  lemma ShrunkAt(runs: seq<Run>, i: nat, n: nat, p: nat)
    requires i < |runs| && RunsApart(runs) && n < runs[i].n
    ensures OnRun(runs[i := Run(runs[i].start + n, runs[i].n - n)], p) <==>
      OnRun(runs, p) && p !in Range(runs[i].start, n)
  {
    var t := runs[i := Run(runs[i].start + n, runs[i].n - n)];
    if j :| 0 <= j < |t| && InRun(t[j], p) {
      assert InRun(runs[j], p);
      assert p in Range(runs[i].start, n) ==> InRun(runs[i], p);
    }
    if k :| 0 <= k < |runs| && InRun(runs[k], p) && p !in Range(runs[i].start, n) {
      assert InRun(t[k], p);
    }
  }

  /** Any change that moves pages from the runs to the client, and perhaps one to the stack. */
  lemma TakeRun(q: Pool, i: nat, n: nat, runs: seq<Run>, singles: seq<nat>)
    requires Partition(q) && i < |q.runs| && 0 < n <= q.runs[i].n
    requires RunsApart(runs)
    requires singles == q.singles || (q.runs[i].n == n + 1 && singles == q.singles + [q.runs[i].start + n])
    requires forall p: nat :: OnRun(runs, p) <==>
      OnRun(q.runs, p) && p !in Range(q.runs[i].start, n) && !(singles != q.singles && p == q.runs[i].start + n)
    ensures Range(q.runs[i].start, n) !! q.held && Range(q.runs[i].start, n) <= q.ram
    ensures Partition(q.(held := q.held + Range(q.runs[i].start, n), runs := runs, singles := singles))
  {
    var start := q.runs[i].start;
    var t := q.(held := q.held + Range(start, n), runs := runs, singles := singles);
    forall p: nat | start <= p < start + q.runs[i].n ensures OnRun(q.runs, p) {
      assert InRun(q.runs[i], p);
    }
    forall p: nat ensures OneHolder(t, p) {
      assert OneHolder(q, p);
    }
    assert OneHolder(q, start + n);
    forall p | p in Range(start, n) ensures p !in q.held && p in q.ram {
      assert OneHolder(q, p);
    }
  }

  lemma TakeFree(q: Pool, taken: set<nat>)
    requires Partition(q) && taken <= q.free
    ensures taken !! q.held && taken <= q.ram
    ensures Partition(q.(held := q.held + taken, free := q.free - taken))
  {
    forall p: nat ensures OneHolder(q.(held := q.held + taken, free := q.free - taken), p) {
      assert OneHolder(q, p);
    }
    forall p | p in taken ensures p !in q.held && p in q.ram {
      assert OneHolder(q, p);
    }
  }

  // ---- taking pages back ----

  lemma PushSingle(q: Pool, p: nat)
    requires Partition(q) && p in q.held
    ensures Partition(q.(held := q.held - {p}, singles := q.singles + [p]))
  {
    var t := q.(held := q.held - {p}, singles := q.singles + [p]);
    assert OneHolder(q, p);
    forall x: nat ensures OneHolder(t, x) {
      assert OneHolder(q, x);
    }
  }

  lemma PushRun(q: Pool, p: nat, n: nat)
    requires Partition(q) && n > 0 && Range(p, n) <= q.held
    ensures Partition(q.(held := q.held - Range(p, n), runs := q.runs + [Run(p, n)]))
  {
    var t := q.(held := q.held - Range(p, n), runs := q.runs + [Run(p, n)]);
    forall x: nat ensures OnRun(t.runs, x) <==> OnRun(q.runs, x) || InRun(Run(p, n), x) {
      if k :| 0 <= k < |q.runs| && InRun(q.runs[k], x) {
        assert InRun(t.runs[k], x);
      }
      if InRun(Run(p, n), x) {
        assert InRun(t.runs[|q.runs|], x);
      }
    }
    forall x: nat ensures OneHolder(t, x) {
      assert OneHolder(q, x);
    }
    forall i, x: nat | 0 <= i < |q.runs| && InRun(q.runs[i], x) ensures !InRun(Run(p, n), x) {
      assert OneHolder(q, x) && OnRun(q.runs, x);
    }
  }

  lemma ReturnFree(q: Pool, p: nat)
    requires Partition(q) && p in q.held
    ensures Partition(q.(held := q.held - {p}, free := q.free + {p}))
  {
    forall x: nat ensures OneHolder(q.(held := q.held - {p}, free := q.free + {p}), x) {
      assert OneHolder(q, x);
    }
  }
}

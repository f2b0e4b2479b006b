/** The constraint relaxation phase of a frame: a fixed number of sequential
    passes over the constraint list, each visiting the constraints in list order
    and satisfying only the active ones. Satisfying a constraint is an abstract
    step on the simulation state, so that each step sees the state left by the
    previous one (Gauss-Seidel order). */
module Relaxation {

  import opened ClothTopology

  /** Number of relaxation passes per frame. */
  const PASSES: nat := 5

  /** Indices of the active constraints, in list order. */
  function ActiveIndices(cs: seq<Constraint>): seq<nat>
  {
    if cs == [] then []
    else ActiveIndices(cs[..|cs| - 1]) + (if cs[|cs| - 1].active then [|cs| - 1] else [])
  }

  /** `k` consecutive copies of `s`. */
  function Repeat<T>(s: seq<T>, k: nat): seq<T>
  {
    if k == 0 then [] else Repeat(s, k - 1) + s
  }

  /** Indices of the constraints satisfied during one relaxation phase, in call order. */
  function Schedule(cs: seq<Constraint>): seq<nat>
  {
    Repeat(ActiveIndices(cs), PASSES)
  }

  /** The state reached from `s` by satisfying, in order, the constraints whose
      indices `trace` lists (an index outside the list is skipped). */
  function Run<S>(satisfy: (S, Constraint) -> S, s: S, cs: seq<Constraint>, trace: seq<nat>): S
  {
    if trace == [] then s
    else
      var before := Run(satisfy, s, cs, trace[..|trace| - 1]);
      var t := trace[|trace| - 1];
      if t < |cs| then satisfy(before, cs[t]) else before
  }

  /** The relaxation phase: `PASSES` passes over the constraint list calling
      `satisfy` on each active constraint; the ghost `trace` records the index of
      every constraint satisfied. */
  method Relax<S>(cs: seq<Constraint>, s0: S, satisfy: (S, Constraint) -> S)
    returns (s: S, ghost trace: seq<nat>)
    ensures trace == Schedule(cs)
    ensures s == Run(satisfy, s0, cs, Schedule(cs))
  {
    s, trace := s0, [];
    var pass: nat := 0;
    while pass < PASSES
      invariant pass <= PASSES
      invariant trace == Repeat(ActiveIndices(cs), pass)
      invariant s == Run(satisfy, s0, cs, trace)
    {
      ghost var done := trace;
      var j := 0;
      while j < |cs|
        invariant j <= |cs|
        invariant trace == done + ActiveIndices(cs[..j])
        invariant s == Run(satisfy, s0, cs, trace)
      {
        assert cs[..j + 1][..j] == cs[..j];
        if cs[j].active {
          s := satisfy(s, cs[j]);
          trace := trace + [j];
          assert trace[..|trace| - 1] == done + ActiveIndices(cs[..j]);
        }
        j := j + 1;
      }
      assert cs[..|cs|] == cs;
      pass := pass + 1;
    }
  }

  // ---------------------------------------------------------------------------
  // Which constraints are satisfied, and how often

  /** An index is listed exactly when it names an active constraint, and the
      listed indices are strictly increasing (list order, no repetition). */
  lemma {:induction false} ActiveIndicesExact(cs: seq<Constraint>)
    ensures forall i: int :: i in ActiveIndices(cs) <==> 0 <= i < |cs| && cs[i].active
    ensures forall a, b :: 0 <= a < b < |ActiveIndices(cs)| ==> ActiveIndices(cs)[a] < ActiveIndices(cs)[b]
  {
    if cs != [] {
      var init := cs[..|cs| - 1];
      var last := if cs[|cs| - 1].active then [|cs| - 1] else [];
      ActiveIndicesExact(init);
      assert forall i :: 0 <= i < |init| ==> init[i] == cs[i];
      var a := ActiveIndices(cs);
      assert a == ActiveIndices(init) + last;
      forall x, y | 0 <= x < y < |a| ensures a[x] < a[y] {
        if y >= |ActiveIndices(init)| {
          assert a[x] in ActiveIndices(init);
        }
      }
    }
  }

  lemma {:induction false} RepeatCount<T>(s: seq<T>, k: nat, x: T)
    ensures multiset(Repeat(s, k))[x] == k * multiset(s)[x]
  {
    if k > 0 {
      RepeatCount(s, k - 1, x);
      assert multiset(Repeat(s, k)) == multiset(Repeat(s, k - 1)) + multiset(s);
      assert k * multiset(s)[x] == (k - 1) * multiset(s)[x] + multiset(s)[x];
    }
  }

  lemma {:induction false} ActiveIndicesCount(cs: seq<Constraint>, i: nat)
    ensures multiset(ActiveIndices(cs))[i] == if i < |cs| && cs[i].active then 1 else 0
  {
    if cs != [] {
      var init := cs[..|cs| - 1];
      var last := if cs[|cs| - 1].active then [|cs| - 1] else [];
      ActiveIndicesCount(init, i);
      assert multiset(ActiveIndices(cs)) == multiset(ActiveIndices(init)) + multiset(last);
      if i < |init| {
        assert init[i] == cs[i];
      }
    }
  }

  /** During one relaxation phase every active constraint is satisfied exactly
      `PASSES` times and no other constraint is satisfied at all. */
  lemma ScheduleCounts(cs: seq<Constraint>, i: nat)
    ensures multiset(Schedule(cs))[i] == if i < |cs| && cs[i].active then PASSES else 0
  {
    RepeatCount(ActiveIndices(cs), PASSES, i);
    ActiveIndicesCount(cs, i);
  }

  lemma {:induction false} RepeatPass<T>(s: seq<T>, k: nat, p: nat)
    requires p < k
    ensures |Repeat(s, k)| == k * |s|
    ensures p * |s| + |s| <= k * |s|
    ensures Repeat(s, k)[p * |s| .. p * |s| + |s|] == s
  {
    var prev := Repeat(s, k - 1);
    if p < k - 1 {
      RepeatPass(s, k - 1, p);
      assert Repeat(s, k)[..(k - 1) * |s|] == prev;
      assert Repeat(s, k)[p * |s| .. p * |s| + |s|] == prev[p * |s| .. p * |s| + |s|];
    } else {
      RepeatLength(s, k - 1);
      assert Repeat(s, k) == prev + s;
    }
    assert k * |s| == (k - 1) * |s| + |s|;
  }

  lemma {:induction false} RepeatLength<T>(s: seq<T>, k: nat)
    ensures |Repeat(s, k)| == k * |s|
  {
    if k > 0 {
      RepeatLength(s, k - 1);
      assert k * |s| == (k - 1) * |s| + |s|;
    }
  }

  /** The schedule is exactly `PASSES` consecutive copies of the in-order list
      of active constraints: pass `p` occupies the `p`-th block. */
  lemma SchedulePasses(cs: seq<Constraint>, p: nat)
    requires p < PASSES
    ensures var m := |ActiveIndices(cs)|;
      |Schedule(cs)| == PASSES * m
      && Schedule(cs)[p * m .. p * m + m] == ActiveIndices(cs)
  {
    RepeatPass(ActiveIndices(cs), PASSES, p);
  }

  // ---------------------------------------------------------------------------
  // Inactive constraints are never touched

  lemma {:induction false} ActiveIndicesSameFlags(cs: seq<Constraint>, ds: seq<Constraint>)
    requires |cs| == |ds|
    requires forall i :: 0 <= i < |cs| ==> cs[i].active == ds[i].active
    ensures ActiveIndices(cs) == ActiveIndices(ds)
  {
    if cs != [] {
      ActiveIndicesSameFlags(cs[..|cs| - 1], ds[..|ds| - 1]);
    }
  }

  lemma {:induction false} RunActiveOnly<S>(satisfy: (S, Constraint) -> S, s: S,
                                            cs: seq<Constraint>, ds: seq<Constraint>, trace: seq<nat>)
    requires |cs| == |ds|
    requires forall k :: 0 <= k < |trace| ==> trace[k] < |cs| && cs[trace[k]] == ds[trace[k]]
    ensures Run(satisfy, s, cs, trace) == Run(satisfy, s, ds, trace)
  {
    if trace != [] {
      var init := trace[..|trace| - 1];
      assert forall k :: 0 <= k < |init| ==> init[k] == trace[k];
      RunActiveOnly(satisfy, s, cs, ds, init);
    }
  }

  /** The outcome of a relaxation phase depends on the active constraints only:
      two constraint lists that agree on which constraints are active, and on
      every active constraint, relax the state identically. */
  lemma InactiveNeverTouched<S>(satisfy: (S, Constraint) -> S, s0: S,
                                cs: seq<Constraint>, ds: seq<Constraint>)
    requires |cs| == |ds|
    requires forall i :: 0 <= i < |cs| ==> cs[i].active == ds[i].active
    requires forall i :: 0 <= i < |cs| && cs[i].active ==> cs[i] == ds[i]
    ensures Schedule(cs) == Schedule(ds)
    ensures Run(satisfy, s0, cs, Schedule(cs)) == Run(satisfy, s0, ds, Schedule(ds))
  {
    ActiveIndicesSameFlags(cs, ds);
    var trace := Schedule(cs);
    forall k | 0 <= k < |trace| ensures trace[k] < |cs| && cs[trace[k]] == ds[trace[k]] {
      ScheduleVisitsActive(cs, k);
    }
    RunActiveOnly(satisfy, s0, cs, ds, trace);
  }

  /** Every entry of the schedule names an active constraint of the list. */
  lemma ScheduleVisitsActive(cs: seq<Constraint>, k: nat)
    requires k < |Schedule(cs)|
    ensures Schedule(cs)[k] < |cs| && cs[Schedule(cs)[k]].active
  {
    var t := Schedule(cs)[k];
    assert t in multiset(Schedule(cs));
    ScheduleCounts(cs, t);
  }
}

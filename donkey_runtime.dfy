/** The process-wide helpers of src/donkey.h: the `at_most` guard and the
    performance counters with their registry of live counters. */
module DonkeyRuntime {
  import opened Floats
  import Arith

  /** The C++ `int` of the helper's fields. */
  newtype int32 = x: int | -0x8000_0000 <= x < 0x8000_0000

  /** Two's-complement wrap-around of an int into 32 bits, as the atomic
      `__sync_fetch_and_add` on an `int` behaves. */
  function WrapInt32(x: int): (r: int32)
    ensures (r as int - x) % 0x1_0000_0000 == 0
  {
    (((x + 0x8000_0000) % 0x1_0000_0000) - 0x8000_0000) as int32
  }

  /** Wrapping after one more step is one more step, then wrapping. */
  lemma WrapSucc(x: int)
    requires x >= -0x8000_0000
    ensures WrapInt32(WrapInt32(x) as int + 1) == WrapInt32(x + 1)
  {
    Arith.ModNext(x + 0x8000_0000, 0x1_0000_0000);
  }

  /** Within the 32-bit range nothing wraps. */
  lemma WrapInRange(x: int)
    requires -0x8000_0000 <= x < 0x8000_0000
    ensures WrapInt32(x) as int == x
  {
    Arith.ModOf(x + 0x8000_0000, 0x1_0000_0000, 0, x + 0x8000_0000);
  }

  /** at_most_helper: the guarded block runs on the first `max` calls,
      until the count wraps around. */
  class AtMost {
    const max: int32
    var count: int32

    constructor (max_: int32)
      ensures max == max_ && count == 0
    {
      max := max_;
      count := 0;
    }

    /** operator(): count the call (wrapping at 2^31), then compare with max. */
    method Call() returns (fire: bool)
      modifies this
      ensures count == WrapInt32(old(count) as int + 1)
      ensures old(count) < 0x7fff_ffff ==> count == old(count) + 1
      ensures old(count) == 0x7fff_ffff ==> count == -0x8000_0000
      ensures fire <==> count <= max
    {
      count := WrapInt32(count as int + 1);
      if old(count) < 0x7fff_ffff {
        WrapInRange(old(count) as int + 1);
      } else {
        assert WrapInt32(0x8000_0000) == -0x8000_0000;
      }
      fire := count <= max;
    }
  }

  /** n calls on a helper: the k-th call (from 1) fires iff the wrapped
      count c + k is at most max. */
  method CallRepeatedly(h: AtMost, n: nat) returns (fired: seq<bool>)
    modifies h
    ensures h.count == WrapInt32(old(h.count) as int + n) && |fired| == n
    ensures forall k :: 0 <= k < n ==> (fired[k] <==> WrapInt32(old(h.count) as int + k + 1) <= h.max)
  {
    fired := [];
    var i := 0;
    WrapInRange(h.count as int);
    while i < n
      invariant 0 <= i <= n && |fired| == i
      invariant h.count == WrapInt32(old(h.count) as int + i)
      invariant forall k :: 0 <= k < i ==> (fired[k] <==> WrapInt32(old(h.count) as int + k + 1) <= h.max)
    {
      WrapSucc(old(h.count) as int + i);
      var f := h.Call();
      fired := fired + [f];
      i := i + 1;
    }
  }

  /** On a fresh helper the k-th call fires iff k <= max, for the first
      2^31 - 1 calls. */
  lemma FreshCalls(max: int32, k: nat)
    requires 1 <= k < 0x8000_0000
    ensures WrapInt32(k) <= max <==> k <= max as int
  {
    WrapInRange(k);
  }

  /** The 2^31-th call on a fresh helper wraps the count to INT_MIN, so it
      fires again whatever max is. */
  lemma WrappedCallFires(max: int32)
    ensures WrapInt32(0x8000_0000) == -0x8000_0000
    ensures WrapInt32(0x8000_0000) <= max
  {
  }

  // ------------------------------------------------------------- counters

  function Sum(s: seq<real>): real {
    if s == [] then 0.0 else Sum(s[..|s| - 1]) + s[|s| - 1]
  }

  function SumSquares(s: seq<real>): real {
    if s == [] then 0.0 else SumSquares(s[..|s| - 1]) + s[|s| - 1] * s[|s| - 1]
  }

  /** The running minimum that starts from `init` and takes every smaller value. */
  function RunningMin(init: real, s: seq<real>): real {
    if s == [] then init
    else var m := RunningMin(init, s[..|s| - 1]); if s[|s| - 1] < m then s[|s| - 1] else m
  }

  function RunningMax(init: real, s: seq<real>): real {
    if s == [] then init
    else var m := RunningMax(init, s[..|s| - 1]); if s[|s| - 1] > m then s[|s| - 1] else m
  }

  /** Started from DBL_MAX, the running minimum of finite doubles is the
      smallest value added. */
  lemma {:induction false} RunningMinIsMinimum(init: real, s: seq<real>)
    requires s != [] && forall i :: 0 <= i < |s| ==> s[i] <= init
    ensures RunningMin(init, s) in s
    ensures forall i :: 0 <= i < |s| ==> RunningMin(init, s) <= s[i]
  {
    var init' := s[..|s| - 1];
    if init' != [] {
      RunningMinIsMinimum(init, init');
      assert forall i :: 0 <= i < |init'| ==> init'[i] == s[i];
    }
  }

  lemma {:induction false} RunningMaxIsMaximum(init: real, s: seq<real>)
    requires s != [] && forall i :: 0 <= i < |s| ==> init <= s[i]
    ensures RunningMax(init, s) in s
    ensures forall i :: 0 <= i < |s| ==> s[i] <= RunningMax(init, s)
  {
    var init' := s[..|s| - 1];
    if init' != [] {
      RunningMaxIsMaximum(init, init');
      assert forall i :: 0 <= i < |init'| ==> init'[i] == s[i];
    }
  }

  /** The running statistics of a history with one more value. */
  lemma HistorySnoc(s: seq<real>, v: real, lo: real, hi: real)
    ensures Sum(s + [v]) == Sum(s) + v && SumSquares(s + [v]) == SumSquares(s) + v * v
    ensures RunningMin(lo, s + [v]) == (if v < RunningMin(lo, s) then v else RunningMin(lo, s))
    ensures RunningMax(hi, s + [v]) == (if v > RunningMax(hi, s) then v else RunningMax(hi, s))
  {
    var t := s + [v];
    assert t[..|t| - 1] == s && t[|t| - 1] == v;
  }

  /** A performance counter; `added` is the history of values given to add. */
  class PerformanceCounter {
    const name: string
    var m0: real
    var m1: real
    var m2: real
    var min: real
    var max: real
    ghost var added: seq<real>

    ghost predicate Valid()
      reads this
    {
      m0 == |added| as real && m1 == Sum(added) && m2 == SumSquares(added) &&
      min == RunningMin(DblMax(), added) && max == RunningMax(-DblMax(), added)
    }

    constructor (name_: string)
      ensures Valid() && name == name_ && added == []
      ensures m0 == 0.0 && m1 == 0.0 && m2 == 0.0 && min == DblMax() && max == -DblMax()
    {
      name := name_;
      m0, m1, m2 := 0.0, 0.0, 0.0;
      max := -DblMax();
      min := DblMax();
      added := [];
    }

    method Add(v: real)
      requires Valid()
      modifies this
      ensures Valid() && added == old(added) + [v]
      ensures m0 == old(m0) + 1.0 && m1 == old(m1) + v && m2 == old(m2) + v * v
      ensures min == (if v < old(min) then v else old(min))
      ensures max == (if v > old(max) then v else old(max))
    {
      HistorySnoc(added, v, DblMax(), -DblMax());
      m0 := m0 + 1.0;
      m1 := m1 + v;
      m2 := m2 + v * v;
      if v > max { max := v; }
      if v < min { min := v; }
      added := added + [v];
    }

    /** add() with its default argument 1.0. */
    method AddOne()
      requires Valid()
      modifies this
      ensures Valid() && added == old(added) + [1.0]
      ensures m0 == old(m0) + 1.0 && m1 == old(m1) + 1.0 && m2 == old(m2) + 1.0
      ensures min == (if 1.0 < old(min) then 1.0 else old(min))
      ensures max == (if 1.0 > old(max) then 1.0 else old(max))
    {
      Add(1.0);
    }
  }

  /** The reported fields of one counter. */
  datatype CounterReport = CounterReport(name: string, m0: real, m1: real, m2: real, min: real, max: real)

  function ReportOf(c: PerformanceCounter): CounterReport
    reads c
  {
    CounterReport(c.name, c.m0, c.m1, c.m2, c.min, c.max)
  }

  /** PerformanceCounter::active: the counters between construction and
      destruction. */
  class CounterRegistry {
    var active: set<PerformanceCounter>

    constructor ()
      ensures active == {}
    {
      active := {};
    }

    method Create(name: string) returns (c: PerformanceCounter)
      modifies this
      ensures fresh(c) && c.Valid() && c.name == name && c.added == []
      ensures active == old(active) + {c}
    {
      c := new PerformanceCounter(name);
      active := active + {c};
    }

    method Destroy(c: PerformanceCounter)
      modifies this
      ensures active == old(active) - {c}
    {
      active := active - {c};
    }

    /** perf: one report per live counter, in the set's order. */
    method Perf() returns (reports: seq<CounterReport>)
      ensures |reports| == |active|
      ensures forall c :: c in active ==> ReportOf(c) in reports
      ensures forall i :: 0 <= i < |reports| ==> exists c :: c in active && reports[i] == ReportOf(c)
    {
      reports := [];
      var rest := active;
      while rest != {}
        invariant rest <= active
        invariant |reports| + |rest| == |active|
        invariant forall c :: c in active - rest ==> ReportOf(c) in reports
        invariant forall i :: 0 <= i < |reports| ==> exists c :: c in active && reports[i] == ReportOf(c)
        decreases |rest|
      {
        var p :| p in rest;
        reports := reports + [ReportOf(p)];
        rest := rest - {p};
      }
    }
  }
}

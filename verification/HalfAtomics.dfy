/**
 The lock-free addition to a shared pair of halves: load the word, add, compare-exchange, and on
 failure try again from the value the exchange read.

 Many calls run interleaved on one word. The word keeps every value it ever had, in modification
 order. The first load is relaxed and may read any of them; a failed exchange may read any value that
 is not older than the one the call has already read and that differs from the expected one. Only a
 successful exchange must meet the newest value.
 */
module HalfAtomics {
  import opened Algebra

  /** One addition of values[t] per call t to a word that starts as `init`. */
  datatype Job<!W(!new)> = Job(init: W, values: seq<W>, add: (W, W) -> W)

  /** `seen` and `place` are positions in the modification order. */
  datatype Call<W> =
    | Idle
    | Trying(expected: W, seen: nat)
    | Done(returned: W, place: nat)

  datatype State<W> = State(history: seq<W>, calls: seq<Call<W>>, log: seq<nat>)

  datatype Step =
    | Load(t: nat, i: nat)
    | Exchange(t: nat)
    | Reload(t: nat, i: nat)

  function Start<W(!new)>(job: Job<W>): State<W> {
    State([job.init], seq(|job.values|, _ => Idle), [])
  }

  predicate Enabled<W(!new, ==)>(job: Job<W>, s: State<W>, e: Step) {
    && |s.calls| == |job.values| && |s.history| > 0 && e.t < |s.calls|
    && match e
       case Load(t, i) => s.calls[t].Idle? && i < |s.history|
       case Exchange(t) => s.calls[t].Trying? && s.history[|s.history| - 1] == s.calls[t].expected
       case Reload(t, i) =>
         s.calls[t].Trying? && s.calls[t].seen <= i < |s.history| && s.history[i] != s.calls[t].expected
  }

  function Apply<W(!new, ==)>(job: Job<W>, s: State<W>, e: Step): State<W>
    requires Enabled(job, s, e)
  {
    match e
    case Load(t, i) => s.(calls := s.calls[t := Trying(s.history[i], i)])
    case Exchange(t) =>
      var desired := job.add(s.calls[t].expected, job.values[t]);
      State(s.history + [desired], s.calls[t := Done(s.calls[t].expected, |s.log|)], s.log + [t])
    case Reload(t, i) => s.(calls := s.calls[t := Trying(s.history[i], i)])
  }

  predicate Runs<W(!new, ==)>(job: Job<W>, s: State<W>, es: seq<Step>)
    decreases |es|
  {
    es == [] || (Enabled(job, s, es[0]) && Runs(job, Apply(job, s, es[0]), es[1..]))
  }

  function Final<W(!new, ==)>(job: Job<W>, s: State<W>, es: seq<Step>): State<W>
    requires Runs(job, s, es)
    decreases |es|
  {
    if es == [] then s else Final(job, Apply(job, s, es[0]), es[1..])
  }

  // ---------------------------------------------------------------- what every step keeps

  ghost predicate HistoryInv<W(!new)>(job: Job<W>, s: State<W>) {
    && |s.history| == |s.log| + 1 && s.history[0] == job.init
    && forall k: nat :: k < |s.log| ==>
         s.log[k] < |job.values| && s.history[k + 1] == job.add(s.history[k], job.values[s.log[k]])
  }

  ghost predicate CallInv<W(!new)>(s: State<W>, t: nat)
    requires t < |s.calls|
  {
    match s.calls[t]
    case Idle => true
    case Trying(expected, seen) => seen < |s.history| && expected == s.history[seen]
    case Done(returned, place) =>
      place < |s.log| && place < |s.history| && s.log[place] == t && returned == s.history[place]
  }

  ghost predicate LogInv<W(!new)>(s: State<W>) {
    forall k: nat :: k < |s.log| ==> s.log[k] < |s.calls| && s.calls[s.log[k]].Done? && s.calls[s.log[k]].place == k
  }

  ghost predicate Invariant<W(!new)>(job: Job<W>, s: State<W>) {
    && |s.calls| == |job.values|
    && HistoryInv(job, s)
    && (forall t: nat :: t < |s.calls| ==> CallInv(s, t))
    && LogInv(s)
    && |s.log| == Total(s.calls, Finished)
  }

  /** Sum of a number per call. */
  function Total<W(!new)>(calls: seq<Call<W>>, f: Call<W> -> nat): nat {
    if calls == [] then 0 else Total(calls[..|calls| - 1], f) + f(calls[|calls| - 1])
  }

  function Finished<W(!new)>(c: Call<W>): nat {
    if c.Done? then 1 else 0
  }

  lemma {:induction false} TotalUpdate<W(!new)>(calls: seq<Call<W>>, f: Call<W> -> nat, t: nat, c: Call<W>)
    requires t < |calls|
    ensures Total(calls[t := c], f) + f(calls[t]) == Total(calls, f) + f(c)
  {
    var last := |calls| - 1;
    if t < last {
      TotalUpdate(calls[..last], f, t, c);
      assert calls[t := c][..last] == calls[..last][t := c];
    } else {
      assert calls[t := c][..last] == calls[..last];
    }
  }

  lemma {:induction false} TotalBound<W(!new)>(calls: seq<Call<W>>, f: Call<W> -> nat, bound: nat)
    requires forall t: nat :: t < |calls| ==> f(calls[t]) <= bound
    ensures Total(calls, f) <= |calls| * bound
  {
    var n := |calls|;
    if n > 0 {
      TotalBound(calls[..n - 1], f, bound);
      assert n * bound == (n - 1) * bound + bound;
    }
  }

  lemma {:induction false} NoneFinished<W(!new)>(calls: seq<Call<W>>)
    requires forall t: nat :: t < |calls| ==> calls[t].Idle?
    ensures Total(calls, Finished) == 0
  {
    if calls != [] {
      NoneFinished(calls[..|calls| - 1]);
    }
  }

  lemma StartKeeps<W(!new)>(job: Job<W>)
    ensures Invariant(job, Start(job))
  {
    NoneFinished(Start(job).calls);
  }

  lemma StepKeeps<W(!new)>(job: Job<W>, s: State<W>, e: Step)
    requires Invariant(job, s) && Enabled(job, s, e)
    ensures Invariant(job, Apply(job, s, e))
  {
    hide Total;
    var s' := Apply(job, s, e);
    TotalUpdate(s.calls, Finished, e.t, s'.calls[e.t]);
    forall t: nat | t < |s'.calls| ensures CallInv(s', t) {
      assert CallInv(s, t);
    }
  }

  lemma {:induction false} RunKeeps<W(!new)>(job: Job<W>, s: State<W>, es: seq<Step>)
    requires Invariant(job, s) && Runs(job, s, es)
    ensures Invariant(job, Final(job, s, es))
    decreases |es|
  {
    if es != [] {
      StepKeeps(job, s, es[0]);
      RunKeeps(job, Apply(job, s, es[0]), es[1..]);
    }
  }

  // ---------------------------------------------------------------- one call at a time

  /** The word after the calls in `order` ran one at a time. */
  function Fold<W(!new)>(job: Job<W>, order: seq<nat>): W
    requires forall k: nat :: k < |order| ==> order[k] < |job.values|
  {
    if order == [] then job.init
    else
      var last := |order| - 1;
      job.add(Fold(job, order[..last]), job.values[order[last]])
  }

  /** What each of those calls returned. */
  function Returns<W(!new)>(job: Job<W>, order: seq<nat>): map<nat, W>
    requires forall k: nat :: k < |order| ==> order[k] < |job.values|
  {
    if order == [] then map[]
    else
      var last := |order| - 1;
      Returns(job, order[..last])[order[last] := Fold(job, order[..last])]
  }

  /** What the completed calls of a state returned. */
  function Returned<W(!new)>(s: State<W>): map<nat, W> {
    map t: nat | t < |s.calls| && s.calls[t].Done? :: s.calls[t].returned
  }

  lemma {:induction false} HistoryIsFold<W(!new)>(job: Job<W>, s: State<W>, k: nat)
    requires HistoryInv(job, s) && k <= |s.log|
    ensures s.history[k] == Fold(job, s.log[..k])
  {
    if k > 0 {
      HistoryIsFold(job, s, k - 1);
      assert s.log[..k][..k - 1] == s.log[..k - 1];
      assert s.history[(k - 1) + 1] == job.add(s.history[k - 1], job.values[s.log[k - 1]]);
    }
  }

  lemma {:induction false} ReturnsAt<W(!new)>(job: Job<W>, s: State<W>, k: nat)
    requires Invariant(job, s) && k <= |s.log|
    ensures forall t: nat ::
              t in Returns(job, s.log[..k]) <==> t < |s.calls| && s.calls[t].Done? && s.calls[t].place < k
    ensures forall t: nat :: t in Returns(job, s.log[..k]) ==> Returns(job, s.log[..k])[t] == s.calls[t].returned
  {
    hide Total, Fold;
    if k > 0 {
      ReturnsAt(job, s, k - 1);
      HistoryIsFold(job, s, k - 1);
      var t := s.log[k - 1];
      assert s.log[..k][..k - 1] == s.log[..k - 1] && CallInv(s, t);
      forall u: nat | u < |s.calls| && s.calls[u].Done? && s.calls[u].place == k - 1 ensures u == t {
        assert CallInv(s, u);
      }
    }
  }

  /** Linearizability: after any run, the word and every returned value are those of the completed calls run one at
      a time in the order of their successful exchanges; each completed call is in that order exactly once. */
  lemma Linearizable<W(!new)>(job: Job<W>, es: seq<Step>)
    requires Runs(job, Start(job), es)
    ensures var s := Final(job, Start(job), es);
            && |s.history| > 0 && |s.calls| == |job.values|
            && (forall k: nat :: k < |s.log| ==> s.log[k] < |job.values|)
            && s.history[|s.history| - 1] == Fold(job, s.log)
            && Returned(s) == Returns(job, s.log)
            && (forall t: nat :: t < |s.calls| ==> (s.calls[t].Done? <==> t in s.log))
            && (forall i: nat, j: nat :: i < j < |s.log| ==> s.log[i] != s.log[j])
  {
    hide Total, Fold, Returns;
    StartKeeps(job);
    RunKeeps(job, Start(job), es);
    var s := Final(job, Start(job), es);
    HistoryIsFold(job, s, |s.log|);
    ReturnsAt(job, s, |s.log|);
    assert s.log[..|s.log|] == s.log;
    forall t: nat | t < |s.calls| ensures s.calls[t].Done? <==> t in s.log {
      assert CallInv(s, t);
    }
  }

  /** A completed call returned the word its own addition started from: that value stood in the word, and the value
      right after it is that plus the call's addend. */
  lemma ReturnsWordBefore<W(!new)>(job: Job<W>, es: seq<Step>, t: nat)
    requires Runs(job, Start(job), es) && t < |job.values|
    ensures var s := Final(job, Start(job), es);
            |s.calls| == |job.values| &&
            (s.calls[t].Done? ==>
               var p := s.calls[t].place;
               && p + 1 < |s.history| && s.history[0] == job.init
               && s.calls[t].returned == s.history[p]
               && s.history[p + 1] == job.add(s.calls[t].returned, job.values[t]))
  {
    hide Total;
    StartKeeps(job);
    RunKeeps(job, Start(job), es);
    assert CallInv(Final(job, Start(job), es), t);
  }

  /** Completed calls stay as they are, and the order only grows at its end. */
  lemma {:induction false} RunExtends<W(!new)>(job: Job<W>, s: State<W>, es: seq<Step>)
    requires Invariant(job, s) && Runs(job, s, es)
    ensures var f := Final(job, s, es);
            && s.log <= f.log && s.history <= f.history && |f.calls| == |s.calls|
            && forall t: nat :: t < |s.calls| && s.calls[t].Done? ==> f.calls[t] == s.calls[t]
    decreases |es|
  {
    hide Total;
    if es != [] {
      StepKeeps(job, s, es[0]);
      RunExtends(job, Apply(job, s, es[0]), es[1..]);
    }
  }

  /** Real-time order: a call that completed before another one did comes before it, so one that
      completed before the other started does. */
  lemma RealTimeOrder<W(!new)>(job: Job<W>, s: State<W>, es: seq<Step>, t: nat, u: nat)
    requires Invariant(job, s) && Runs(job, s, es) && t < |s.calls| && u < |s.calls|
    requires s.calls[t].Done? && !s.calls[u].Done?
    ensures var f := Final(job, s, es);
            |f.calls| == |s.calls| && f.calls[t].Done? && (f.calls[u].Done? ==> f.calls[t].place < f.calls[u].place)
  {
    hide Total;
    var f := Final(job, s, es);
    RunKeeps(job, s, es);
    RunExtends(job, s, es);
    assert CallInv(s, t) && CallInv(f, t) && CallInv(f, u);
    assert forall k: nat :: k < |s.log| ==> s.log[k] != u;
  }

  // ---------------------------------------------------------------- every run ends

  /** A failed exchange moves a call strictly forward in the modification order. */
  function Cost<W(!new)>(n: nat): Call<W> -> nat {
    (c: Call<W>) => match c case Idle => 0 case Trying(_, seen) => seen + 1 case Done(_, _) => n + 1
  }

  lemma {:induction false} FinishedAtMost<W(!new)>(calls: seq<Call<W>>, t: nat)
    requires t < |calls| && !calls[t].Done?
    ensures Total(calls, Finished) < |calls|
  {
    var last := |calls| - 1;
    if t == last {
      TotalBound(calls[..last], Finished, 1);
    } else {
      FinishedAtMost(calls[..last], t);
    }
  }

  lemma StepCosts<W(!new)>(job: Job<W>, s: State<W>, e: Step)
    requires Invariant(job, s) && Enabled(job, s, e)
    ensures Total(Apply(job, s, e).calls, Cost(|job.values|)) > Total(s.calls, Cost(|job.values|))
  {
    hide Total;
    var s' := Apply(job, s, e);
    FinishedAtMost(s.calls, e.t);
    assert CallInv(s, e.t);
    TotalUpdate(s.calls, Cost(|job.values|), e.t, s'.calls[e.t]);
  }

  lemma {:induction false} RunCosts<W(!new)>(job: Job<W>, s: State<W>, es: seq<Step>)
    requires Invariant(job, s) && Runs(job, s, es)
    ensures Total(Final(job, s, es).calls, Cost(|job.values|)) >= Total(s.calls, Cost(|job.values|)) + |es|
    decreases |es|
  {
    hide Total;
    if es != [] {
      StepKeeps(job, s, es[0]);
      StepCosts(job, s, es[0]);
      RunCosts(job, Apply(job, s, es[0]), es[1..]);
    }
  }

  /** n calls take at most n (n + 1) steps under any interleaving. */
  lemma RunsAreBounded<W(!new)>(job: Job<W>, es: seq<Step>)
    requires Runs(job, Start(job), es)
    ensures |es| <= |job.values| * (|job.values| + 1)
  {
    hide Total;
    var n, s := |job.values|, Final(job, Start(job), es);
    StartKeeps(job);
    RunKeeps(job, Start(job), es);
    RunCosts(job, Start(job), es);
    forall t: nat | t < n ensures Cost(n)(s.calls[t]) <= n + 1 {
      assert CallInv(s, t);
      if !s.calls[t].Done? {
        FinishedAtMost(s.calls, t);
      }
    }
    TotalBound(s.calls, Cost(n), n + 1);
  }

  /** A call that has not completed can always move, whatever the others do. */
  lemma CallCanMove<W(!new)>(job: Job<W>, s: State<W>, t: nat) returns (e: Step)
    requires Invariant(job, s) && t < |s.calls| && !s.calls[t].Done?
    ensures e.t == t && Enabled(job, s, e)
  {
    var newest := |s.history| - 1;
    assert CallInv(s, t);
    if s.calls[t].Idle? {
      e := Load(t, newest);
    } else if s.history[newest] == s.calls[t].expected {
      e := Exchange(t);
    } else {
      e := Reload(t, newest);
    }
  }

  // ---------------------------------------------------------------- the sum

  /** The addends of the calls in `order`, and the unit for the others. */
  function Taken<W(!new)>(m: Monoid<W>, values: seq<W>, order: seq<nat>): nat -> W {
    (t: nat) => if t < |values| && t in order then values[t] else m.unit
  }

  lemma {:induction false} FoldIsSum<W(!new)>(m: Monoid<W>, job: Job<W>, order: seq<nat>)
    requires IsCommutativeMonoid(m) && job.add == m.op
    requires forall k: nat :: k < |order| ==> order[k] < |job.values|
    requires forall i: nat, j: nat :: i < j < |order| ==> order[i] != order[j]
    ensures Fold(job, order) == m.op(job.init, Sum(m, Taken(m, job.values, order), |job.values|))
  {
    hide IsCommutativeMonoid, Sum;
    var n := |job.values|;
    if order == [] {
      SumOfUnits(m, Taken(m, job.values, order), n);
      OpUnit(m, job.init);
    } else {
      var last := |order| - 1;
      var rest, t := order[..last], order[last];
      FoldIsSum(m, job, rest);
      var one := (u: nat) => if u == t then job.values[t] else m.unit;
      SumSingle(m, one, n, t);
      SumPointwise(m, Taken(m, job.values, rest), one, n);
      TakenSplits(m, job.values, order);
      SumCongruent(m, Taken(m, job.values, order), (u: nat) => m.op(Taken(m, job.values, rest)(u), one(u)), n);
      OpAssoc(m, job.init, Sum(m, Taken(m, job.values, rest), n), job.values[t]);
    }
  }

  lemma TakenSplits<W(!new)>(m: Monoid<W>, values: seq<W>, order: seq<nat>)
    requires IsCommutativeMonoid(m) && order != []
    requires forall k: nat :: k < |order| ==> order[k] < |values|
    requires forall i: nat, j: nat :: i < j < |order| ==> order[i] != order[j]
    ensures var last := |order| - 1;
            forall u: nat :: Taken(m, values, order)(u) ==
              m.op(Taken(m, values, order[..last])(u), if u == order[last] then values[u] else m.unit)
  {
    hide IsCommutativeMonoid;
    var last := |order| - 1;
    var rest, t := order[..last], order[last];
    assert t !in rest && order == rest + [t];
    forall u: nat
      ensures Taken(m, values, order)(u) == m.op(Taken(m, values, rest)(u), if u == t then values[u] else m.unit)
    {
      OpUnit(m, Taken(m, values, order)(u));
    }
  }

  /** When no call can move any more, every call has added its value once; where addition is exact, the word is
      the start value plus all addends, whatever the interleaving was. */
  lemma CompletedWord<W(!new)>(m: Monoid<W>, job: Job<W>, es: seq<Step>)
    requires IsCommutativeMonoid(m) && job.add == m.op
    requires Runs(job, Start(job), es)
    requires forall e :: !Enabled(job, Final(job, Start(job), es), e)
    ensures var s := Final(job, Start(job), es);
            && |s.log| == |job.values| && |s.history| > 0
            && (forall t: nat :: t < |job.values| ==> t in s.log)
            && s.history[|s.history| - 1] ==
               m.op(job.init, Sum(m, (t: nat) => if t < |job.values| then job.values[t] else m.unit, |job.values|))
  {
    hide IsCommutativeMonoid, Total, Sum, Fold, Returns;
    var n, s := |job.values|, Final(job, Start(job), es);
    StartKeeps(job);
    RunKeeps(job, Start(job), es);
    Linearizable(job, es);
    forall t: nat | t < n ensures s.calls[t].Done? {
      if !s.calls[t].Done? {
        var e := CallCanMove(job, s, t);
      }
    }
    AllFinished(s.calls);
    FoldIsSum(m, job, s.log);
    SumCongruent(m, Taken(m, job.values, s.log), (t: nat) => if t < n then job.values[t] else m.unit, n);
  }

  lemma {:induction false} AllFinished<W(!new)>(calls: seq<Call<W>>)
    requires forall t: nat :: t < |calls| ==> calls[t].Done?
    ensures Total(calls, Finished) == |calls|
  {
    if calls != [] {
      AllFinished(calls[..|calls| - 1]);
    }
  }

  // ---------------------------------------------------------------- the pair of halves in a word

  /** A 32-bit word holds the low half in its low 16 bits. */
  function Low(word: nat): nat { word % 0x1_0000 }

  function High(word: nat): nat { word / 0x1_0000 }

  /** Vector addition of two packed pairs, for any addition on 16-bit halves. */
  function AddPair(half: (nat, nat) -> nat): (nat, nat) -> nat {
    (a: nat, b: nat) =>
      var sum: nat := half(Low(a), Low(b)) % 0x1_0000 + 0x1_0000 * half(High(a), High(b));
      sum
  }

  function Project(values: seq<nat>, part: nat -> nat): seq<nat> {
    seq(|values|, i requires 0 <= i < |values| => part(values[i]))
  }

  /** One exchange on the word adds both halves: each half is the fold of its own addends in the one common order. */
  lemma {:induction false} HalvesAddTogether(init: nat, values: seq<nat>, half: (nat, nat) -> nat, order: seq<nat>)
    requires forall a, b :: half(a, b) < 0x1_0000
    requires forall k: nat :: k < |order| ==> order[k] < |values|
    ensures var word := Fold(Job(init, values, AddPair(half)), order);
            && Low(word) == Fold(Job(Low(init), Project(values, Low), half), order)
            && High(word) == Fold(Job(High(init), Project(values, High), half), order)
  {
    if order != [] {
      HalvesAddTogether(init, values, half, order[..|order| - 1]);
    }
  }
}

/** Every interleaving of the workers of a parallel scan, at the granularity of the
    lock: connecting, taking the first task, claiming the next one, starting a query
    and reading from it are steps of any worker at any time. */
module ScanInterleavings {
  import opened Wrappers
  import opened ParallelScan

  /** A worker's flags, its claim (an index into the claims made so far) and the
      tuples of its query not read yet. */
  datatype Local = Local(connected: bool, hasTask: bool, done: bool, exec: bool, noConnection: bool,
                         claim: nat, pending: seq<Tid>)
  {
    /** It still has tuples of its claim to deliver. */
    predicate Holds(i: nat) {
      hasTask && !done && claim == i
    }

    predicate Scanning() {
      hasTask && !noConnection
    }

    predicate Running() {
      Scanning() && !done && exec
    }
  }

  /** The shared state, the workers, and the history: the ranges claimed, in order,
      and the tuples delivered for each. */
  datatype State = State(pageIdx: idx, usedMainThread: bool, workers: seq<Local>, claims: seq<Range>, delivered: seq<seq<Tid>>)

  datatype Step =
    | Connect(pool: bool)           // TryOpenNewConnection for one more worker
    | First(worker: nat)            // the rest of GetLocalState
    | Claim(worker: nat)            // ScanChunk with done set
    | Begin(worker: nat)            // BeginCopy
    | Read(worker: nat, n: nat)     // Read: some tuples
    | Finish(worker: nat)           // Read: FINISHED

  function Init(): State {
    State(0, false, [], [], [])
  }

  predicate Enabled(b: Bind, s: State, step: Step) {
    if step.Connect? then |s.workers| < b.MaxThreads()
    else
      step.worker < |s.workers| &&
      var l := s.workers[step.worker];
      match step
      case First(_) => l.connected && !l.hasTask
      case Claim(_) => l.Scanning() && l.done
      case Begin(_) => l.Scanning() && !l.done && !l.exec
      case Read(_, n) => l.Running() && 0 < n <= |l.pending|
      case Finish(_) => l.Running() && l.pending == []
  }

  /** A new range claimed by worker w. */
  function Take(s: State, w: nat, r: Range): State
    requires w < |s.workers|
  {
    State(r.max, s.usedMainThread, s.workers[w := Local(true, true, false, false, false, |s.claims|, [])],
          s.claims + [r], s.delivered + [[]])
  }

  function Apply(b: Bind, table: seq<Tid>, s: State, step: Step): State
    requires Enabled(b, s, step) && Basic(b, s)
  {
    match step
    case Connect(pool) =>
      var ok := !s.usedMainThread || pool;
      s.(usedMainThread := true, workers := s.workers + [Local(ok, false, false, false, !ok, 0, [])])
    case First(w) =>
      if b.Single() then Take(s, w, Range(0, POSTGRES_TID_MAX))
      else
        (match Next(b, s.pageIdx)
         case Some(r) => Take(s, w, r)
         case None => s.(workers := s.workers[w := s.workers[w].(hasTask := true, done := true)]))
    case Claim(w) =>
      (match Next(b, s.pageIdx)
       case Some(r) => Take(s, w, r)
       case None => s.(workers := s.workers[w := s.workers[w].(noConnection := true)]))
    case Begin(w) =>
      var l := s.workers[w];
      s.(workers := s.workers[w := l.(exec := true, pending := Query(table, s.claims[l.claim]))])
    case Read(w, n) =>
      var l := s.workers[w];
      s.(workers := s.workers[w := l.(pending := l.pending[n..])],
         delivered := s.delivered[l.claim := s.delivered[l.claim] + l.pending[..n]])
    case Finish(w) => s.(workers := s.workers[w := s.workers[w].(done := true)])
  }

  /** What holds in every run, whatever number of pages is expected: the first worker
      is connected, and while more pages are expected than exist nobody ends. */
  predicate Basic(b: Bind, s: State) {
    && |s.claims| == |s.delivered| && s.pageIdx <= POSTGRES_TID_MAX
    && (s.usedMainThread <==> s.workers != [])
    && (s.workers != [] ==> s.workers[0].connected)
    && (forall w | 0 <= w < |s.workers| ::
          var l := s.workers[w];
          && (l.connected || l.noConnection)
          && (l.hasTask ==> l.connected)
          && (l.hasTask && !l.done ==> l.claim < |s.claims|)
          && (l.connected && l.noConnection ==> l.hasTask && b.pagesApprox <= POSTGRES_TID_MAX))
  }

  lemma ApplyBasic(b: Bind, table: seq<Tid>, s: State, step: Step)
    requires Enabled(b, s, step) && Basic(b, s)
    ensures Basic(b, Apply(b, table, s, step))
  {
    hide Query;
  }

  // ----------------------------------------------------------------- invariant

  /** Claimed ranges follow each other from page 0 up to top. */
  predicate Chained(claims: seq<Range>, top: idx) {
    if claims == [] then top == 0
    else
      var r := claims[|claims| - 1];
      r.max == top && r.min <= r.max && Chained(claims[..|claims| - 1], r.min)
  }

  predicate LocalOk(b: Bind, table: seq<Tid>, s: State, l: Local)
    requires |s.claims| == |s.delivered|
  {
    && (l.hasTask ==> l.connected && s.claims != [])
    && (l.connected && l.noConnection ==> l.hasTask && l.done && s.pageIdx == POSTGRES_TID_MAX)
    && (b.Single() && s.claims != [] && l.connected ==> l.hasTask)
    && (l.hasTask && !l.done ==>
          && l.claim < |s.claims|
          && (if l.exec then s.delivered[l.claim] + l.pending == Query(table, s.claims[l.claim])
              else s.delivered[l.claim] == []))
  }

  /** What has been delivered for claim i is complete, or some worker goes on with it. */
  predicate Accounted(table: seq<Tid>, s: State, i: nat)
    requires |s.claims| == |s.delivered| && i < |s.claims|
  {
    && s.delivered[i] <= Query(table, s.claims[i])
    && (s.delivered[i] == Query(table, s.claims[i]) || exists w :: 0 <= w < |s.workers| && s.workers[w].Holds(i))
  }

  predicate Distinct(s: State) {
    forall v, w | 0 <= v < w < |s.workers| :: !(s.workers[v].hasTask && !s.workers[v].done && s.workers[w].Holds(s.workers[v].claim))
  }

  ghost predicate Inv(b: Bind, table: seq<Tid>, s: State) {
    && |s.claims| == |s.delivered| && Chained(s.claims, s.pageIdx)
    && (s.claims == [] || PageOk(b, s.pageIdx)) && s.pageIdx <= POSTGRES_TID_MAX
    && (b.Single() && s.claims != [] ==> s.pageIdx == POSTGRES_TID_MAX)
    && |s.workers| <= b.MaxThreads()
    && (s.workers == [] ==> s.claims == [])
    && (forall w | 0 <= w < |s.workers| :: LocalOk(b, table, s, s.workers[w]))
    && Distinct(s)
    && (forall i | 0 <= i < |s.claims| :: Accounted(table, s, i))
  }

  lemma ApplyInv(b: Bind, table: seq<Tid>, s: State, step: Step)
    requires b.Valid() && b.pagesApprox <= POSTGRES_TID_MAX
    requires Basic(b, s) && Inv(b, table, s) && Enabled(b, s, step)
    ensures Inv(b, table, Apply(b, table, s, step))
  {
    hide Query, Inv;
    match step {
      case Connect(pool) => ConnectInv(b, table, s, pool);
      case First(w) => FirstInv(b, table, s, w);
      case Claim(w) => ClaimInv(b, table, s, w);
      case Begin(w) => BeginInv(b, table, s, w);
      case Read(w, n) => ReadInv(b, table, s, w, n);
      case Finish(w) => FinishInv(b, table, s, w);
    }
  }

  /** Steps of a worker that does not hold claim i leave its holder in place. */
  lemma Keeps(s: State, t: State, w: nat, i: nat)
    requires |s.workers| <= |t.workers| && forall v | 0 <= v < |s.workers| && v != w :: t.workers[v] == s.workers[v]
    requires w < |s.workers| ==> !s.workers[w].Holds(i)
    ensures (exists v :: 0 <= v < |s.workers| && s.workers[v].Holds(i)) ==> exists v :: 0 <= v < |t.workers| && t.workers[v].Holds(i)
  {
  }

  lemma ConnectInv(b: Bind, table: seq<Tid>, s: State, pool: bool)
    requires b.Valid() && Basic(b, s) && Inv(b, table, s) && Enabled(b, s, Connect(pool))
    ensures Inv(b, table, Apply(b, table, s, Connect(pool)))
  {
    hide Query, PageOk, Chained;
    var t := Apply(b, table, s, Connect(pool));
    forall i | 0 <= i < |s.claims| ensures Accounted(table, t, i) {
      assert Accounted(table, s, i);
      Keeps(s, t, |s.workers|, i);
    }
    forall v | 0 <= v < |t.workers| ensures LocalOk(b, table, t, t.workers[v]) {
      assert v < |s.workers| ==> LocalOk(b, table, s, s.workers[v]);
    }
  }

  /** A worker that holds no claim takes the next range. */
  lemma TakeInv(b: Bind, table: seq<Tid>, s: State, w: nat, r: Range)
    requires b.Valid() && Inv(b, table, s) && w < |s.workers|
    requires var l := s.workers[w]; l.connected && !l.noConnection && (l.done || !l.hasTask)
    requires r.min == s.pageIdx <= r.max <= POSTGRES_TID_MAX && PageOk(b, r.max)
    requires b.Single() ==> r.max == POSTGRES_TID_MAX
    ensures Inv(b, table, Take(s, w, r))
  {
    hide Query, PageOk;
    var t := Take(s, w, r);
    var n := |s.claims|;
    assert t.claims[..n] == s.claims && t.workers[w].Holds(n);
    forall i | 0 <= i < |t.claims| ensures Accounted(table, t, i) {
      if i < n {
        assert Accounted(table, s, i);
        Keeps(s, t, w, i);
      }
    }
    forall v | 0 <= v < |t.workers| ensures LocalOk(b, table, t, t.workers[v]) {
      assert LocalOk(b, table, s, s.workers[v]);
    }
  }

  lemma FirstInv(b: Bind, table: seq<Tid>, s: State, w: nat)
    requires b.Valid() && b.pagesApprox <= POSTGRES_TID_MAX && Basic(b, s) && Inv(b, table, s) && Enabled(b, s, First(w))
    ensures Inv(b, table, Apply(b, table, s, First(w)))
  {
    hide Query;
    assert LocalOk(b, table, s, s.workers[w]);
    if b.Single() {
      TakeInv(b, table, s, w, Range(0, POSTGRES_TID_MAX));
    } else {
      NextAdvances(b, s.pageIdx);
      if Next(b, s.pageIdx).Some? {
        TakeInv(b, table, s, w, Next(b, s.pageIdx).value);
      } else {
        RestsInv(b, table, s, w, s.workers[w].(hasTask := true, done := true));
      }
    }
  }

  lemma ClaimInv(b: Bind, table: seq<Tid>, s: State, w: nat)
    requires b.Valid() && b.pagesApprox <= POSTGRES_TID_MAX && Basic(b, s) && Inv(b, table, s) && Enabled(b, s, Claim(w))
    ensures Inv(b, table, Apply(b, table, s, Claim(w)))
  {
    hide Query;
    assert LocalOk(b, table, s, s.workers[w]);
    NextAdvances(b, s.pageIdx);
    if Next(b, s.pageIdx).Some? {
      TakeInv(b, table, s, w, Next(b, s.pageIdx).value);
    } else {
      RestsInv(b, table, s, w, s.workers[w].(noConnection := true));
    }
  }

  /** A worker that holds nothing changes its flags. */
  lemma RestsInv(b: Bind, table: seq<Tid>, s: State, w: nat, l: Local)
    requires Inv(b, table, s) && w < |s.workers| && (s.workers[w].done || !s.workers[w].hasTask)
    requires l.connected && l.hasTask && l.done && s.pageIdx == POSTGRES_TID_MAX && s.claims != []
    ensures Inv(b, table, s.(workers := s.workers[w := l]))
  {
    hide Query, PageOk, Chained;
    var t := s.(workers := s.workers[w := l]);
    forall i | 0 <= i < |t.claims| ensures Accounted(table, t, i) {
      assert Accounted(table, s, i);
      Keeps(s, t, w, i);
    }
    forall v | 0 <= v < |t.workers| ensures LocalOk(b, table, t, t.workers[v]) {
      assert LocalOk(b, table, s, s.workers[v]);
    }
  }

  lemma BeginInv(b: Bind, table: seq<Tid>, s: State, w: nat)
    requires Basic(b, s) && Inv(b, table, s) && Enabled(b, s, Begin(w))
    ensures Inv(b, table, Apply(b, table, s, Begin(w)))
  {
    hide Query, PageOk, Chained;
    var t := Apply(b, table, s, Begin(w));
    assert LocalOk(b, table, s, s.workers[w]);
    var q := Query(table, s.claims[s.workers[w].claim]);
    assert [] + q == q;
    ProgressInv(b, table, s, t, w);
  }

  lemma ReadInv(b: Bind, table: seq<Tid>, s: State, w: nat, n: nat)
    requires Basic(b, s) && Inv(b, table, s) && Enabled(b, s, Read(w, n))
    ensures Inv(b, table, Apply(b, table, s, Read(w, n)))
  {
    hide Query, PageOk, Chained;
    var t := Apply(b, table, s, Read(w, n));
    var l := s.workers[w];
    assert LocalOk(b, table, s, l);
    assert (s.delivered[l.claim] + l.pending[..n]) + l.pending[n..] == s.delivered[l.claim] + l.pending;
    ProgressInv(b, table, s, t, w);
  }

  /** A worker goes on with its claim; nobody else is concerned. */
  lemma ProgressInv(b: Bind, table: seq<Tid>, s: State, t: State, w: nat)
    requires Inv(b, table, s) && w < |s.workers| && s.workers[w].Holds(s.workers[w].claim)
    requires |t.workers| == |s.workers| && forall v | 0 <= v < |s.workers| && v != w :: t.workers[v] == s.workers[v]
    requires t.pageIdx == s.pageIdx && t.claims == s.claims && |t.delivered| == |s.delivered|
    requires t.workers[w].Holds(s.workers[w].claim) && LocalOk(b, table, t, t.workers[w])
    requires t.delivered[s.workers[w].claim] <= Query(table, s.claims[s.workers[w].claim])
    requires forall i | 0 <= i < |s.claims| && i != s.workers[w].claim :: t.delivered[i] == s.delivered[i]
    ensures Inv(b, table, t)
  {
    hide Query, PageOk, Chained;
    var c := s.workers[w].claim;
    forall i | 0 <= i < |t.claims| ensures Accounted(table, t, i) {
      assert Accounted(table, s, i);
      if i != c {
        Keeps(s, t, w, i);
      }
    }
    forall v | 0 <= v < |t.workers| ensures LocalOk(b, table, t, t.workers[v]) {
      if v != w {
        assert LocalOk(b, table, s, s.workers[v]);
        assert !s.workers[v].Holds(c);
      }
    }
  }

  lemma FinishInv(b: Bind, table: seq<Tid>, s: State, w: nat)
    requires Basic(b, s) && Inv(b, table, s) && Enabled(b, s, Finish(w))
    ensures Inv(b, table, Apply(b, table, s, Finish(w)))
  {
    hide Query, PageOk, Chained;
    var t := Apply(b, table, s, Finish(w));
    var l := s.workers[w];
    assert LocalOk(b, table, s, l);
    assert s.delivered[l.claim] + [] == s.delivered[l.claim];
    forall i | 0 <= i < |t.claims| ensures Accounted(table, t, i) {
      assert Accounted(table, s, i);
      if i != l.claim {
        Keeps(s, t, w, i);
      }
    }
    forall v | 0 <= v < |t.workers| ensures LocalOk(b, table, t, t.workers[v]) {
      assert LocalOk(b, table, s, s.workers[v]);
    }
  }

  // -------------------------------------------------------------------- runs

  /** The state after an interleaving, if every step of it was possible. */
  function After(b: Bind, table: seq<Tid>, steps: seq<Step>): (r: Option<State>)
    ensures r.Some? ==> Basic(b, r.value)
  {
    if steps == [] then Some(Init())
    else
      match After(b, table, steps[..|steps| - 1])
      case None => None
      case Some(s) =>
        var step := steps[|steps| - 1];
        if Enabled(b, s, step) then ApplyBasic(b, table, s, step); Some(Apply(b, table, s, step)) else None
  }

  lemma {:induction false} AfterInv(b: Bind, table: seq<Tid>, steps: seq<Step>)
    requires b.Valid() && b.pagesApprox <= POSTGRES_TID_MAX && After(b, table, steps).Some?
    ensures Inv(b, table, After(b, table, steps).value)
  {
    if steps != [] {
      var before := steps[..|steps| - 1];
      AfterInv(b, table, before);
      ApplyInv(b, table, After(b, table, before).value, steps[|steps| - 1]);
    }
  }

  /** All tuples delivered. */
  function Output(delivered: seq<seq<Tid>>): seq<Tid> {
    if delivered == [] then [] else Output(delivered[..|delivered| - 1]) + delivered[|delivered| - 1]
  }

  /** Every worker has reported the end of its scan, or never had a connection. */
  predicate Ended(s: State) {
    s.workers != [] && forall w | 0 <= w < |s.workers| :: s.workers[w].noConnection
  }

  lemma {:induction false} OutputWithin(table: seq<Tid>, claims: seq<Range>, delivered: seq<seq<Tid>>, top: idx)
    requires IsTable(table) && |claims| == |delivered| && Chained(claims, top)
    requires forall i | 0 <= i < |claims| :: delivered[i] <= Query(table, claims[i])
    ensures multiset(Output(delivered)) <= multiset(Query(table, Range(0, top)))
    ensures (forall i | 0 <= i < |claims| :: delivered[i] == Query(table, claims[i])) ==>
            multiset(Output(delivered)) == multiset(Query(table, Range(0, top)))
  {
    hide Query, IsTable;
    var n := |claims|;
    if n == 0 {
      QueryNone(table, 0);
    } else {
      var r := claims[n - 1];
      OutputWithin(table, claims[..n - 1], delivered[..n - 1], r.min);
      QuerySplit(table, 0, r.min, r.max);
      Prefixed(delivered[n - 1], Query(table, r));
      assert multiset(Output(delivered)) == multiset(Output(delivered[..n - 1])) + multiset(delivered[n - 1]);
    }
  }

  lemma Prefixed(a: seq<Tid>, b: seq<Tid>)
    requires a <= b
    ensures multiset(a) <= multiset(b)
  {
    assert b == a + b[|a|..];
  }

  /** Main result, safety: no interleaving delivers a tuple more often than the table
      holds it, not even on the way. */
  lemma NeverTwice(b: Bind, table: seq<Tid>, steps: seq<Step>)
    requires b.Valid() && b.pagesApprox <= POSTGRES_TID_MAX && IsTable(table) && After(b, table, steps).Some?
    ensures multiset(Output(After(b, table, steps).value.delivered)) <= multiset(table)
  {
    hide Query, IsTable, After;
    AfterInv(b, table, steps);
    var s := After(b, table, steps).value;
    forall i | 0 <= i < |s.claims| ensures s.delivered[i] <= Query(table, s.claims[i]) {
      assert Accounted(table, s, i);
    }
    OutputWithin(table, s.claims, s.delivered, s.pageIdx);
    QuerySplit(table, 0, s.pageIdx, POSTGRES_TID_MAX);
    QueryAll(table);
  }

  /** Main result, completeness: once every worker has ended, every tuple of the table
      has been delivered exactly once, whichever later workers got no connection. */
  lemma ExactlyOnce(b: Bind, table: seq<Tid>, steps: seq<Step>)
    requires b.Valid() && b.pagesApprox <= POSTGRES_TID_MAX && IsTable(table)
    requires After(b, table, steps).Some? && Ended(After(b, table, steps).value)
    ensures multiset(Output(After(b, table, steps).value.delivered)) == multiset(table)
  {
    hide Query, IsTable, After;
    AfterInv(b, table, steps);
    var s := After(b, table, steps).value;
    assert s.workers[0].noConnection && LocalOk(b, table, s, s.workers[0]);
    forall i | 0 <= i < |s.claims| ensures s.delivered[i] == Query(table, s.claims[i]) {
      assert Accounted(table, s, i);
      forall v | 0 <= v < |s.workers| ensures !s.workers[v].Holds(i) {
        assert s.workers[v].noConnection && LocalOk(b, table, s, s.workers[v]);
      }
    }
    OutputWithin(table, s.claims, s.delivered, s.pageIdx);
    QueryAll(table);
  }

  // ------------------------------------------------------------------ ending

  /** An upper bound for the steps a worker takes before it claims again. */
  function Work(table: seq<Tid>, l: Local): nat {
    if l.noConnection then 0
    else if !l.hasTask then |table| + 4
    else if l.done then 1
    else if l.exec then |l.pending| + 2
    else |table| + 3
  }

  function TotalWork(table: seq<Tid>, workers: seq<Local>): nat {
    if workers == [] then 0 else TotalWork(table, workers[..|workers| - 1]) + Work(table, workers[|workers| - 1])
  }

  /** ... and before the scan ends: pages not claimed yet and workers not started yet
      count as well. */
  function Potential(b: Bind, table: seq<Tid>, s: State): int {
    Times(POSTGRES_TID_MAX - s.pageIdx, |table| + 3) + TotalWork(table, s.workers) + Times(b.MaxThreads() - |s.workers|, |table| + 5)
  }

  function Times(n: int, k: nat): int {
    n * k
  }

  lemma TimesDrops(c: int, a: int, k: nat)
    requires 0 <= c <= a
    ensures 0 <= Times(c, k) <= Times(a, k)
    ensures c < a ==> Times(c, k) <= Times(a, k) - k
  {
    var d := a - c;
    assert a * k == c * k + d * k;
    assert d > 0 ==> d * k == (d - 1) * k + k;
  }

  lemma {:induction false} WorkUpdated(table: seq<Tid>, workers: seq<Local>, w: nat, l: Local)
    requires w < |workers|
    ensures TotalWork(table, workers[w := l]) == TotalWork(table, workers) - Work(table, workers[w]) + Work(table, l)
  {
    var n := |workers| - 1;
    if w < n {
      WorkUpdated(table, workers[..n], w, l);
      assert workers[w := l][..n] == workers[..n][w := l];
    } else {
      assert workers[w := l][..n] == workers[..n];
    }
  }

  lemma {:induction false} QueryShort(table: seq<Tid>, r: Range)
    ensures |Query(table, r)| <= |table|
  {
    if table != [] {
      QueryShort(table[1..], r);
    }
  }

  /** Every step uses up some of the potential. */
  lemma StepsWork(b: Bind, table: seq<Tid>, s: State, step: Step)
    requires b.Valid() && b.pagesApprox <= POSTGRES_TID_MAX
    requires Basic(b, s) && Inv(b, table, s) && Enabled(b, s, step)
    ensures Potential(b, table, Apply(b, table, s, step)) < Potential(b, table, s)
  {
    hide Query, Work, TotalWork, Times, Next;
    var t := Apply(b, table, s, step);
    if step.Connect? {
      assert t.workers[..|s.workers|] == s.workers;
      WorkAdded(table, t.workers);
      TimesDrops(b.MaxThreads() - |t.workers|, b.MaxThreads() - |s.workers|, |table| + 5);
    } else {
      var w := step.worker;
      WorkUpdated(table, s.workers, w, t.workers[w]);
      assert t.workers == s.workers[w := t.workers[w]];
      WorkDrops(b, table, s, step);
      ApplyBasic(b, table, s, step);
      TimesDrops(POSTGRES_TID_MAX - t.pageIdx, POSTGRES_TID_MAX - s.pageIdx, |table| + 3);
    }
  }

  lemma WorkAdded(table: seq<Tid>, workers: seq<Local>)
    requires workers != []
    ensures TotalWork(table, workers) == TotalWork(table, workers[..|workers| - 1]) + Work(table, workers[|workers| - 1])
    ensures var l := workers[|workers| - 1]; !l.hasTask ==> Work(table, l) <= |table| + 4
  {
  }

  /** A step costs its worker something, or claims a page and costs it at most a
      whole query. */
  lemma WorkDrops(b: Bind, table: seq<Tid>, s: State, step: Step)
    requires b.Valid() && b.pagesApprox <= POSTGRES_TID_MAX && !step.Connect?
    requires Basic(b, s) && Inv(b, table, s) && Enabled(b, s, step)
    ensures var t := Apply(b, table, s, step);
            var l, m := s.workers[step.worker], t.workers[step.worker];
            if t.pageIdx > s.pageIdx then Work(table, m) < Work(table, l) + |table| + 3
            else t.pageIdx == s.pageIdx && Work(table, m) < Work(table, l)
  {
    var w := step.worker;
    assert LocalOk(b, table, s, s.workers[w]);
    if step.Begin? {
      QueryShort(table, s.claims[s.workers[w].claim]);
    } else if step.Claim? || (step.First? && !b.Single()) {
      NextAdvances(b, s.pageIdx);
    }
  }

  lemma PotentialPositive(b: Bind, table: seq<Tid>, s: State)
    requires s.pageIdx <= POSTGRES_TID_MAX && |s.workers| <= b.MaxThreads()
    ensures Potential(b, table, s) >= 0
  {
    TimesDrops(0, POSTGRES_TID_MAX - s.pageIdx, |table| + 3);
    TimesDrops(0, b.MaxThreads() - |s.workers|, |table| + 5);
  }

  /** Main result, termination: no interleaving runs longer than the potential of the
      initial state. */
  lemma {:induction false} RunsEnd(b: Bind, table: seq<Tid>, steps: seq<Step>)
    requires b.Valid() && b.pagesApprox <= POSTGRES_TID_MAX && After(b, table, steps).Some?
    ensures |steps| + Potential(b, table, After(b, table, steps).value) <= Potential(b, table, Init())
    ensures |steps| <= Potential(b, table, Init())
  {
    hide Potential;
    AfterInv(b, table, steps);
    PotentialPositive(b, table, After(b, table, steps).value);
    if steps != [] {
      var before := steps[..|steps| - 1];
      RunsEnd(b, table, before);
      AfterInv(b, table, before);
      StepsWork(b, table, After(b, table, before).value, steps[|steps| - 1]);
    }
  }

  /** ... and none stops short of the end: a run in which some worker has not ended
      can go on. */
  lemma RunsGoOn(b: Bind, table: seq<Tid>, steps: seq<Step>)
    requires b.Valid() && After(b, table, steps).Some?
    ensures Ended(After(b, table, steps).value) || exists step :: Enabled(b, After(b, table, steps).value, step)
  {
    var s := After(b, table, steps).value;
    hide After;
    if s.workers == [] {
      assert Enabled(b, s, Connect(true));
    } else if !Ended(s) {
      var w :| 0 <= w < |s.workers| && !s.workers[w].noConnection;
      var l := s.workers[w];
      if !l.hasTask {
        assert Enabled(b, s, First(w));
      } else if l.done {
        assert Enabled(b, s, Claim(w));
      } else if !l.exec {
        assert Enabled(b, s, Begin(w));
      } else if l.pending == [] {
        assert Enabled(b, s, Finish(w));
      } else {
        assert Enabled(b, s, Read(w, 1));
      }
    }
  }

  /** The bound on the expected pages is exact: beyond it no run ever ends. */
  lemma EndsOnlyWithin(b: Bind, table: seq<Tid>, steps: seq<Step>)
    requires After(b, table, steps).Some? && Ended(After(b, table, steps).value)
    ensures b.pagesApprox <= POSTGRES_TID_MAX
  {
    assert After(b, table, steps).value.workers[0].connected;
  }
}

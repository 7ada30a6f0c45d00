/** The scan's methods are what the interleavings are made of: each call of a worker is
    a sequence of its steps, from any state the other workers may have brought about. */
module ScanRefinement {
  import opened Wrappers
  import opened ParallelScan
  import opened ScanInterleavings

  /** Worker w of the state is as the worker's own objects show it. */
  predicate Shows(s: State, w: nat, v: View) {
    && w < |s.workers| && s.pageIdx == v.pageIdx && |s.claims| == |s.delivered|
    && var l := s.workers[w];
       && l.hasTask && l.done == v.done && l.noConnection == v.noConnection
       && (!v.done ==> l.exec == v.exec && l.claim < |s.claims| && s.claims[l.claim] == v.task)
       && (!v.done && v.exec ==> l.pending == v.pending)
  }

  /** The other workers, and what has been claimed, stay. */
  predicate OthersStay(s: State, t: State, w: nat) {
    && |t.workers| == |s.workers| && t.usedMainThread == s.usedMainThread && s.claims <= t.claims
    && forall v | 0 <= v < |s.workers| && v != w :: t.workers[v] == s.workers[v]
  }

  function StepOf(w: nat, a: Act): Step {
    match a
    case Claims => Claim(w)
    case Begins => Begin(w)
    case Reads(n) => Read(w, n)
    case Finishes => Finish(w)
  }

  function StepsOf(w: nat, acts: seq<Act>): (r: seq<Step>)
    ensures |r| == |acts|
  {
    seq(|acts|, i requires 0 <= i < |acts| => StepOf(w, acts[i]))
  }

  lemma {:induction false} OutputGains(delivered: seq<seq<Tid>>, i: nat, more: seq<Tid>)
    requires i < |delivered|
    ensures multiset(Output(delivered[i := delivered[i] + more])) == multiset(Output(delivered)) + multiset(more)
    decreases |delivered|
  {
    var n := |delivered| - 1;
    var gained := delivered[i := delivered[i] + more];
    if i == n {
      assert gained[..n] == delivered[..n];
      assert multiset(delivered[n] + more) == multiset(delivered[n]) + multiset(more);
    } else {
      assert gained[..n] == delivered[..n][i := delivered[i] + more];
      OutputGains(delivered[..n], i, more);
    }
  }

  /** An act of a worker is its step. */
  lemma ActIsStep(b: Bind, table: seq<Tid>, s: State, w: nat, v: View, a: Act)
    requires Basic(b, s) && Shows(s, w, v) && Acted(b, table, v, a).Some?
    ensures Enabled(b, s, StepOf(w, a))
    ensures var t := Apply(b, table, s, StepOf(w, a));
            && Shows(t, w, Acted(b, table, v, a).value) && OthersStay(s, t, w)
            && multiset(Output(t.delivered)) == multiset(Output(s.delivered)) + multiset(Yield(v, a))
  {
    hide Query, Next;
    var t := Apply(b, table, s, StepOf(w, a));
    match a
    case Claims =>
      assert Next(b, v.pageIdx).Some? ==> t.delivered[..|s.delivered|] == s.delivered;
    case Reads(n) =>
      OutputGains(s.delivered, s.workers[w].claim, v.pending[..n]);
    case _ =>
  }

  /** The acts of one call are steps, wherever the run is. */
  lemma {:induction false} CallIsRun(b: Bind, table: seq<Tid>, steps: seq<Step>, w: nat, v: View, acts: seq<Act>)
    requires After(b, table, steps).Some? && Shows(After(b, table, steps).value, w, v) && Worked(b, table, v, acts).Some?
    ensures After(b, table, steps + StepsOf(w, acts)).Some?
    ensures var s, t := After(b, table, steps).value, After(b, table, steps + StepsOf(w, acts)).value;
            && Shows(t, w, Worked(b, table, v, acts).value.0) && OthersStay(s, t, w)
            && multiset(Output(t.delivered)) == multiset(Output(s.delivered)) + multiset(Worked(b, table, v, acts).value.1)
    decreases |acts|
  {
    if acts == [] {
      assert steps + StepsOf(w, acts) == steps;
    } else {
      var n := |acts| - 1;
      WorkedLast(b, table, v, acts);
      var before := steps + StepsOf(w, acts[..n]);
      assert steps + StepsOf(w, acts) == before + [StepOf(w, acts[n])];
      hide Acted, Yield, Apply, Enabled, After, Shows, Worked, StepsOf, StepOf, OthersStay, Output;
      CallIsRun(b, table, steps, w, v, acts[..n]);
      var (u, out) := Worked(b, table, v, acts[..n]).value;
      var s, more := After(b, table, before).value, Yield(u, acts[n]);
      ActIsStep(b, table, s, w, u, acts[n]);
      RunOn(b, table, before, StepOf(w, acts[n]));
      assert multiset(out + more) == multiset(out) + multiset(more);
      OthersStayOn(After(b, table, steps).value, s, Apply(b, table, s, StepOf(w, acts[n])), w);
    }
  }

  lemma WorkedLast(b: Bind, table: seq<Tid>, v: View, acts: seq<Act>)
    requires acts != [] && Worked(b, table, v, acts).Some?
    ensures var n := |acts| - 1;
            && Worked(b, table, v, acts[..n]).Some?
            && var (u, out) := Worked(b, table, v, acts[..n]).value;
               Acted(b, table, u, acts[n]).Some?
               && Worked(b, table, v, acts).value == (Acted(b, table, u, acts[n]).value, out + Yield(u, acts[n]))
  {
    hide Acted, Yield;
  }

  lemma OthersStayOn(s: State, t: State, u: State, w: nat)
    requires OthersStay(s, t, w) && OthersStay(t, u, w)
    ensures OthersStay(s, u, w)
  {
  }

  lemma RunOn(b: Bind, table: seq<Tid>, steps: seq<Step>, step: Step)
    requires After(b, table, steps).Some? && Enabled(b, After(b, table, steps).value, step)
    ensures After(b, table, steps + [step]) == Some(Apply(b, table, After(b, table, steps).value, step))
  {
    assert (steps + [step])[..|steps|] == steps;
    hide Apply, Enabled;
  }

  /** The shared state as the run has it. */
  ghost predicate SharedAs(s: State, g: GlobalState)
    reads g
  {
    s.pageIdx == g.pageIdx && s.usedMainThread == g.usedMainThread
  }

  /** GetLocalState for one more worker: a Connect, and a First if it got a connection. */
  method Join(g: GlobalState, pool: bool, table: seq<Tid>, ghost steps: seq<Step>) returns (l: LocalState, ghost more: seq<Step>)
    requires After(g.b, table, steps).Some? && SharedAs(After(g.b, table, steps).value, g)
    requires |After(g.b, table, steps).value.workers| < g.b.MaxThreads()
    modifies g
    ensures fresh(l) && After(g.b, table, steps + more).Some?
    ensures var s, t := After(g.b, table, steps).value, After(g.b, table, steps + more).value;
            && SharedAs(t, g) && |t.workers| == |s.workers| + 1 && t.workers[..|s.workers|] == s.workers && s.claims <= t.claims
            && (if l.connected then Shows(t, |s.workers|, g.ViewOf(l)) else l.noConnection && t.workers[|s.workers|].noConnection)
            && multiset(Output(t.delivered)) == multiset(Output(s.delivered))
  {
    ghost var s := After(g.b, table, steps).value;
    ghost var w := |s.workers|;
    more := [Connect(pool)];
    RunOn(g.b, table, steps, Connect(pool));
    ghost var u := After(g.b, table, steps + more).value;
    l := g.GetLocalState(pool);
    hide Next, Query, After;
    if l.connected {
      RunOn(g.b, table, steps + more, First(w));
      ghost var t := Apply(g.b, table, u, First(w));
      assert steps + more + [First(w)] == steps + (more + [First(w)]);
      assert |t.delivered| > |s.delivered| ==> t.delivered[..|s.delivered|] == s.delivered;
      more := more + [First(w)];
    }
  }

  /** ScanChunk by worker w: its acts, and the tuples of the chunk among those delivered. */
  method Scan(g: GlobalState, l: LocalState, table: seq<Tid>, ghost w: nat, ghost steps: seq<Step>)
    returns (output: seq<Tid>, ghost more: seq<Step>)
    requires g.b.Valid() && g.b.pagesApprox <= POSTGRES_TID_MAX && PageOk(g.b, g.pageIdx) && IsTable(table)
    requires After(g.b, table, steps).Some? && SharedAs(After(g.b, table, steps).value, g)
    requires Shows(After(g.b, table, steps).value, w, g.ViewOf(l)) && !l.noConnection
    modifies g, l
    ensures After(g.b, table, steps + more).Some?
    ensures var s, t := After(g.b, table, steps).value, After(g.b, table, steps + more).value;
            && SharedAs(t, g) && Shows(t, w, g.ViewOf(l)) && OthersStay(s, t, w)
            && multiset(Output(t.delivered)) == multiset(Output(s.delivered)) + multiset(output)
    ensures |output| < VECTOR_SIZE ==> l.noConnection
  {
    ghost var view := g.ViewOf(l);
    hide Query, IsTable, PageOk, After, Worked;
    ghost var acts;
    output, acts := g.ScanChunk(l, table);
    CallIsRun(g.b, table, steps, w, view, acts);
    more := StepsOf(w, acts);
  }
}

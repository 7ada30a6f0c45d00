/** The parallel ctid scan (src/postgres_scanner.cpp): workers claim page ranges
    under a lock, query them and claim again. First the scan's own objects, then
    every interleaving of workers as a state machine over the same claims. */
module ParallelScan {
  import opened Wrappers

  const POSTGRES_TID_MAX: nat := 4294967295
  const TWO64: nat := 0x1_0000_0000_0000_0000

  type idx = x: int | 0 <= x < 0x1_0000_0000_0000_0000

  /** A tuple identifier: block number and line pointer. */
  datatype Tid = Tid(page: nat, offset: nat)

  datatype Range = Range(min: idx, max: idx)

  /** The planner's settings of a scan (PostgresBindData). */
  datatype Bind = Bind(pagesApprox: idx, pagesPerTask: idx, maxThreads: nat, requiresMaterialization: bool) {
    /** PrepareBind never leaves a task size of zero, and SetTablePages one thread
        where there is nothing to divide. */
    predicate Valid() {
      pagesPerTask >= 1 && maxThreads >= 1 && (pagesApprox == 0 ==> maxThreads == 1)
    }

    /** PostgresMaxThreads. */
    function MaxThreads(): nat {
      if requiresMaterialization then 1 else maxThreads
    }

    /** GetLocalState hands the whole table to one worker. */
    predicate Single() {
      pagesApprox == 0 || requiresMaterialization
    }
  }

  /** SetTablePages: one thread, unless the scan is read-only and binary and there are
      two tasks' worth of pages; then one for each full task. */
  function SetTablePages(approxNumPages: idx, pagesPerTask: idx, readOnly: bool, useTextProtocol: bool,
                         requiresMaterialization: bool): (b: Bind)
    requires pagesPerTask >= 1
    ensures b.Valid() && b.pagesApprox == approxNumPages && b.pagesPerTask == pagesPerTask
    ensures b.maxThreads > 1 <==> readOnly && !useTextProtocol && approxNumPages >= 2 * pagesPerTask
    ensures b.maxThreads > 1 ==> b.maxThreads * pagesPerTask <= approxNumPages < (b.maxThreads + 1) * pagesPerTask
    ensures b.MaxThreads() > 1 ==> !requiresMaterialization
  {
    var n := approxNumPages / pagesPerTask;
    FullTasks(approxNumPages, pagesPerTask);
    Bind(approxNumPages, pagesPerTask, if readOnly && !useTextProtocol && n > 1 then n else 1, requiresMaterialization)
  }

  lemma FullTasks(pages: nat, perTask: nat)
    requires perTask >= 1
    ensures (pages / perTask) * perTask <= pages < (pages / perTask + 1) * perTask
    ensures pages / perTask > 1 <==> pages >= 2 * perTask
  {
    var q := pages / perTask;
    assert pages == q * perTask + pages % perTask;
    assert q <= 1 ==> q * perTask <= perTask;
    assert q >= 2 ==> q * perTask >= 2 * perTask;
  }

  /** ctid BETWEEN '(min,0)'::tid AND '(max,0)'::tid, in the order of tid. */
  predicate Between(x: Tid, r: Range) {
    && (x.page > r.min || (x.page == r.min && x.offset >= 0))
    && (x.page < r.max || (x.page == r.max && x.offset <= 0))
  }

  /** What the server answers a query for a range: its tuples in table order. */
  function Query(table: seq<Tid>, r: Range): seq<Tid> {
    if table == [] then [] else (if Between(table[0], r) then [table[0]] else []) + Query(table[1..], r)
  }

  /** Line pointers start at 1 and the last block number is not a block. */
  predicate IsTable(table: seq<Tid>) {
    forall x | x in table :: x.offset >= 1 && x.page < POSTGRES_TID_MAX
  }

  // --------------------------------------------------------------------- claims

  /** The range PostgresParallelStateNext claims, in 64-bit arithmetic. */
  function Next(b: Bind, pageIdx: idx): Option<Range> {
    if pageIdx >= b.pagesApprox then None
    else
      var pageMax := (pageIdx + b.pagesPerTask) % TWO64;
      Some(Range(pageIdx, if pageMax >= b.pagesApprox || pageMax > POSTGRES_TID_MAX then POSTGRES_TID_MAX else pageMax))
  }

  /** The states of the shared page index between claims. */
  predicate PageOk(b: Bind, pageIdx: idx) {
    && (pageIdx < b.pagesApprox || pageIdx == POSTGRES_TID_MAX)
    && (0 < pageIdx < b.pagesApprox ==> b.pagesPerTask < b.pagesApprox)
  }

  /** With at most POSTGRES_TID_MAX pages expected, a claim starts where the last one
      ended, does not wrap around, and makes progress. */
  lemma NextAdvances(b: Bind, pageIdx: idx)
    requires b.Valid() && b.pagesApprox <= POSTGRES_TID_MAX && PageOk(b, pageIdx)
    ensures match Next(b, pageIdx)
            case None => pageIdx == POSTGRES_TID_MAX
            case Some(r) => r.min == pageIdx < r.max <= POSTGRES_TID_MAX && PageOk(b, r.max)
                            && r.max == if pageIdx + b.pagesPerTask < b.pagesApprox then pageIdx + b.pagesPerTask else POSTGRES_TID_MAX
  {
    if pageIdx < b.pagesApprox {
      assert pageIdx == 0 || pageIdx + b.pagesPerTask < TWO64;
    }
  }

  /** ... and only then: with more pages expected, claims never run out. */
  lemma NextEndless(b: Bind, pageIdx: idx)
    requires b.pagesApprox > POSTGRES_TID_MAX && pageIdx <= POSTGRES_TID_MAX
    ensures Next(b, pageIdx).Some? && Next(b, pageIdx).value.max <= POSTGRES_TID_MAX
  {
  }

  // ------------------------------------------------------ what a worker's calls consist of

  /** The shared page index and a worker's own state. */
  datatype View = View(pageIdx: idx, done: bool, exec: bool, noConnection: bool, task: Range, pending: seq<Tid>)

  /** Under the lock: claim a range. On its own connection: start the query, take tuples
      from it, reach its end. */
  datatype Act = Claims | Begins | Reads(n: nat) | Finishes

  function Acted(b: Bind, table: seq<Tid>, v: View, a: Act): Option<View> {
    if v.noConnection || v.done != a.Claims? then None
    else
      match a
      case Claims =>
        (match Next(b, v.pageIdx)
         case Some(r) => Some(v.(pageIdx := r.max, done := false, exec := false, task := r))
         case None => Some(v.(noConnection := true)))
      case Begins => if v.exec then None else Some(v.(exec := true, pending := Query(table, v.task)))
      case Reads(n) => if v.exec && 0 < n <= |v.pending| then Some(v.(pending := v.pending[n..])) else None
      case Finishes => if v.exec && v.pending == [] then Some(v.(done := true)) else None
  }

  /** What an act delivers. */
  function Yield(v: View, a: Act): seq<Tid> {
    if a.Reads? && a.n <= |v.pending| then v.pending[..a.n] else []
  }

  /** The state after some acts, and all they deliver, if each of them was possible. */
  function Worked(b: Bind, table: seq<Tid>, v: View, acts: seq<Act>): Option<(View, seq<Tid>)> {
    if acts == [] then Some((v, []))
    else
      match Worked(b, table, v, acts[..|acts| - 1])
      case None => None
      case Some((u, out)) =>
        var a := acts[|acts| - 1];
        match Acted(b, table, u, a)
        case None => None
        case Some(t) => Some((t, out + Yield(u, a)))
  }

  lemma WorkedOne(b: Bind, table: seq<Tid>, v: View, acts: seq<Act>, a: Act)
    requires Worked(b, table, v, acts).Some? && Acted(b, table, Worked(b, table, v, acts).value.0, a).Some?
    ensures var (u, out) := Worked(b, table, v, acts).value;
            Worked(b, table, v, acts + [a]) == Some((Acted(b, table, u, a).value, out + Yield(u, a)))
  {
    hide Acted, Yield;
    assert (acts + [a])[..|acts|] == acts;
  }

  // -------------------------------------------------------- the scan's own objects

  /** PostgresLocalState, with the reader's buffered tuples. */
  class LocalState {
    var done: bool
    var exec: bool
    var noConnection: bool
    var connected: bool
    var task: Range
    var batchIdx: idx
    var pending: seq<Tid>

    constructor ()
      ensures !done && !exec && !noConnection && !connected
    {
      done, exec, noConnection, connected := false, false, false, false;
      task, batchIdx, pending := Range(0, 0), 0, [];
    }

    /** PostgresInitInternal: the next query's range. */
    method InitInternal(r: Range)
      modifies this
      ensures task == r && !exec && !done && pending == old(pending)
      ensures noConnection == old(noConnection) && connected == old(connected) && batchIdx == old(batchIdx)
    {
      exec, done, task := false, false, r;
    }

    /** The reader's BeginCopy: the server starts to answer. */
    method BeginCopy(table: seq<Tid>)
      modifies this`pending
      ensures pending == Query(table, task)
    {
      pending := Query(table, task);
    }

    /** The reader's Read: tuples until the chunk is full or the answer ends. */
    method Read(output: seq<Tid>, size: nat) returns (out: seq<Tid>, finished: bool)
      requires |output| <= size
      modifies this`pending
      ensures out + pending == output + old(pending) && |output| <= |out| <= size
      ensures finished <==> |out| < size
      ensures finished ==> pending == []
    {
      var n := if |pending| < size - |output| then |pending| else size - |output|;
      assert output + pending[..n] + pending[n..] == output + pending;
      out := output + pending[..n];
      pending := pending[n..];
      finished := |out| < size;
    }
  }

  /** PostgresGlobalState; every method body that touches it holds its lock. */
  class GlobalState {
    const b: Bind
    var pageIdx: idx
    var batchIdx: idx
    var usedMainThread: bool

    constructor (b: Bind)
      ensures this.b == b && pageIdx == 0 && batchIdx == 0 && !usedMainThread
    {
      this.b := b;
      pageIdx, batchIdx, usedMainThread := 0, 0, false;
    }

    /** PostgresParallelStateNext. */
    method ParallelStateNext(l: LocalState) returns (more: bool)
      modifies this, l
      ensures batchIdx == (old(batchIdx) + 1) % TWO64 && l.batchIdx == old(batchIdx)
      ensures usedMainThread == old(usedMainThread)
      ensures l.noConnection == old(l.noConnection) && l.connected == old(l.connected)
      ensures match Next(b, old(pageIdx))
              case Some(r) => more && pageIdx == r.max && l.task == r && !l.exec && !l.done
              case None => !more && pageIdx == old(pageIdx) && l.done && l.exec == old(l.exec) && l.task == old(l.task)
      ensures l.pending == old(l.pending)
    {
      l.batchIdx := batchIdx;
      batchIdx := (batchIdx + 1) % TWO64;
      if pageIdx < b.pagesApprox {
        var pageMax := (pageIdx + b.pagesPerTask) % TWO64;
        if pageMax >= b.pagesApprox || pageMax > POSTGRES_TID_MAX {
          pageMax := POSTGRES_TID_MAX;
        }
        l.InitInternal(Range(pageIdx, pageMax));
        pageIdx := pageMax;
        return true;
      }
      l.done := true;
      more := false;
    }

    /** TryOpenNewConnection: the first worker always gets one. */
    method TryOpenNewConnection(l: LocalState, pool: bool) returns (ok: bool)
      modifies this`usedMainThread, l`connected
      ensures ok == (!old(usedMainThread) || pool) && usedMainThread
      ensures l.connected == (ok || old(l.connected))
    {
      if !usedMainThread {
        l.connected, usedMainThread := true, true;
        return true;
      }
      if !pool {
        return false;
      }
      l.connected := true;
      ok := true;
    }

    method GetLocalState(pool: bool) returns (l: LocalState)
      modifies this
      ensures fresh(l) && usedMainThread
      ensures l.connected == (!old(usedMainThread) || pool) && l.noConnection == !l.connected && !l.exec
      ensures !l.connected ==> pageIdx == old(pageIdx) && !l.done
      ensures l.connected && b.Single() ==> pageIdx == POSTGRES_TID_MAX && l.task == Range(0, POSTGRES_TID_MAX) && !l.done
      ensures l.connected && !b.Single() ==>
              match Next(b, old(pageIdx))
              case Some(r) => pageIdx == r.max && l.task == r && !l.done
              case None => pageIdx == old(pageIdx) && l.done
    {
      l := new LocalState();
      var ok := TryOpenNewConnection(l, pool);
      if !ok {
        l.noConnection := true;
        return;
      }
      if b.Single() {
        l.InitInternal(Range(0, POSTGRES_TID_MAX));
        pageIdx := POSTGRES_TID_MAX;
      } else {
        var more := ParallelStateNext(l);
        if !more {
          l.done := true;
        }
      }
    }

    ghost function ViewOf(l: LocalState): View
      reads this, l
    {
      View(pageIdx, l.done, l.exec, l.noConnection, l.task, l.pending)
    }

    /** What worker l alone would still deliver: the rest of its query, and every
        range not yet claimed. */
    ghost function Left(l: LocalState, table: seq<Tid>): multiset<Tid>
      reads this, l
    {
      Own(table, l.done, l.exec, l.task, l.pending) + Unclaimed(b, table, pageIdx)
    }

    /** ScanChunk: claim, query and read until the chunk is full or no range is left. */
    method ScanChunk(l: LocalState, table: seq<Tid>) returns (output: seq<Tid>, ghost acts: seq<Act>)
      requires b.Valid() && b.pagesApprox <= POSTGRES_TID_MAX && PageOk(b, pageIdx) && IsTable(table)
      modifies this, l
      ensures PageOk(b, pageIdx) && usedMainThread == old(usedMainThread) && l.connected == old(l.connected)
      ensures !old(l.noConnection) ==> Worked(b, table, old(ViewOf(l)), acts) == Some((ViewOf(l), output))
      ensures multiset(output) + Left(l, table) == old(Left(l, table))
      ensures |output| <= VECTOR_SIZE
      ensures |output| < VECTOR_SIZE ==> l.noConnection && Left(l, table) == multiset{}
    {
      output, acts := [], [];
      ghost var all, first := Left(l, table), ViewOf(l);
      hide Query, IsTable, Unclaimed, Own, PageOk, Next, Acted;
      assert multiset(output) + Left(l, table) == all;
      while true
        invariant PageOk(b, pageIdx) && |output| < VECTOR_SIZE
        invariant usedMainThread == old(usedMainThread) && l.connected == old(l.connected) && l.noConnection == old(l.noConnection)
        invariant multiset(output) + Left(l, table) == all
        invariant !first.noConnection ==> Worked(b, table, first, acts) == Some((ViewOf(l), output))
        decreases if pageIdx < b.pagesApprox then b.pagesApprox - pageIdx else 0, if l.done then 0 else 1
      {
        ghost var before := ViewOf(l);
        var more := NextTask(l, table);
        if before.done && !first.noConnection {
          assert output + Yield(before, Claims) == output;
          WorkedOne(b, table, first, acts, Claims);
          acts := acts + [Claims];
        }
        if !more {
          l.noConnection := true;
          return;
        }
        var finished;
        output, finished, acts := ReadTask(l, table, output, first, acts);
        if !finished {
          return;
        }
      }
    }

    /** if (done && !PostgresParallelStateNext()) */
    method NextTask(l: LocalState, table: seq<Tid>) returns (more: bool)
      requires b.Valid() && b.pagesApprox <= POSTGRES_TID_MAX && PageOk(b, pageIdx) && IsTable(table)
      modifies this, l
      ensures PageOk(b, pageIdx) && Left(l, table) == old(Left(l, table))
      ensures usedMainThread == old(usedMainThread) && l.connected == old(l.connected) && l.noConnection == old(l.noConnection)
      ensures more == !l.done && (!old(l.done) ==> ViewOf(l) == old(ViewOf(l)))
      ensures old(l.done) && !l.noConnection ==>
              Acted(b, table, old(ViewOf(l)), Claims) == Some(ViewOf(l).(noConnection := !more))
      ensures !more ==> Left(l, table) == multiset{}
      ensures old(l.done) && more ==> old(pageIdx) < b.pagesApprox && pageIdx > old(pageIdx)
      ensures !old(l.done) ==> more && pageIdx == old(pageIdx)
    {
      more := true;
      if l.done {
        NextAdvances(b, pageIdx);
        ClaimTakes(b, table, pageIdx);
        hide Query, IsTable, Unclaimed, PageOk;
        assert multiset{} + Unclaimed(b, table, pageIdx) == Unclaimed(b, table, pageIdx);
        more := ParallelStateNext(l);
        assert l.done ==> multiset{} + Unclaimed(b, table, pageIdx) == multiset{};
      }
    }

    /** Starts the query if need be and reads tuples from it. */
    method ReadTask(l: LocalState, table: seq<Tid>, output: seq<Tid>, ghost first: View, ghost acts: seq<Act>)
      returns (out: seq<Tid>, finished: bool, ghost more: seq<Act>)
      requires !l.done && |output| < VECTOR_SIZE
      requires !l.noConnection ==> Worked(b, table, first, acts) == Some((ViewOf(l), output))
      modifies l
      ensures l.connected == old(l.connected) && l.noConnection == old(l.noConnection)
      ensures !l.noConnection ==> Worked(b, table, first, more) == Some((ViewOf(l), out))
      ensures multiset(out) + Left(l, table) == multiset(output) + old(Left(l, table))
      ensures if finished then l.done && |out| < VECTOR_SIZE else |out| == VECTOR_SIZE
    {
      hide Query, Unclaimed, Worked, IsTable, PageOk;
      ghost var view, rest := ViewOf(l), Unclaimed(b, table, pageIdx);
      if !l.exec {
        l.BeginCopy(table);
        l.exec := true;
      }
      ghost var pending := l.pending;
      assert old(Left(l, table)) == multiset(pending) + rest;
      out, finished := l.Read(output, VECTOR_SIZE);
      Moved(output, pending, out, l.pending, rest);
      if !l.noConnection {
        more := TaskIsActs(b, table, first, acts, view, output, out, l.pending, finished);
      } else {
        more := acts;
      }
      if finished {
        l.done := true;
      }
      assert Left(l, table) == multiset(l.pending) + rest;
    }

    /** A scan by a single worker delivers every tuple of the table exactly once. */
    method ScanAlone(table: seq<Tid>) returns (all: seq<Tid>)
      requires b.Valid() && b.pagesApprox <= POSTGRES_TID_MAX && IsTable(table)
      requires pageIdx == 0 && !usedMainThread
      modifies this
      ensures multiset(all) == multiset(table)
    {
      QueryAll(table);
      FirstClaim(b, table);
      var l := GetLocalState(false);
      all := [];
      assert multiset(all) + Left(l, table) == multiset(table);
      hide Query, IsTable, Unclaimed, Own, Left, PageOk, Next;
      var scanning := true;
      while scanning
        invariant PageOk(b, pageIdx) && multiset(all) + Left(l, table) == multiset(table)
        invariant !scanning ==> Left(l, table) == multiset{}
        decreases |Left(l, table)|, scanning
      {
        ghost var before := Left(l, table);
        var chunk, acts := ScanChunk(l, table);
        Collected(all, chunk, before, Left(l, table));
        all := all + chunk;
        scanning := |chunk| > 0;
      }
    }
  }

  // ---------------------------------------------------------- ranges and tuples

  /** What a worker still delivers of its current task. */
  function Own(table: seq<Tid>, done: bool, exec: bool, task: Range, pending: seq<Tid>): multiset<Tid> {
    if done then multiset{} else if exec then multiset(pending) else multiset(Query(table, task))
  }

  function Unclaimed(b: Bind, table: seq<Tid>, pageIdx: idx): multiset<Tid> {
    if pageIdx < b.pagesApprox then multiset(Query(table, Range(pageIdx, POSTGRES_TID_MAX))) else multiset{}
  }

  /** A claim takes its range off the ranges not yet claimed, and nothing else. */
  lemma ClaimTakes(b: Bind, table: seq<Tid>, pageIdx: idx)
    requires b.Valid() && b.pagesApprox <= POSTGRES_TID_MAX && PageOk(b, pageIdx) && IsTable(table)
    ensures Unclaimed(b, table, pageIdx) ==
            if Next(b, pageIdx).None? then multiset{}
            else multiset(Query(table, Next(b, pageIdx).value)) + Unclaimed(b, table, Next(b, pageIdx).value.max)
  {
    NextAdvances(b, pageIdx);
    if Next(b, pageIdx).Some? {
      var r := Next(b, pageIdx).value;
      QuerySplit(table, pageIdx, r.max, POSTGRES_TID_MAX);
      QueryNone(table, POSTGRES_TID_MAX);
    }
  }

  lemma FirstClaim(b: Bind, table: seq<Tid>)
    requires b.Valid() && b.pagesApprox <= POSTGRES_TID_MAX && IsTable(table)
    ensures PageOk(b, POSTGRES_TID_MAX) && Unclaimed(b, table, POSTGRES_TID_MAX) == multiset{}
    ensures !b.Single() ==>
            && Next(b, 0).Some? && PageOk(b, Next(b, 0).value.max)
            && multiset(Query(table, Next(b, 0).value)) + Unclaimed(b, table, Next(b, 0).value.max) == multiset(table)
  {
    QueryAll(table);
    if !b.Single() {
      NextAdvances(b, 0);
      ClaimTakes(b, table, 0);
    }
  }

  /** Adjacent ranges share no tuple and miss none between them. */
  lemma {:induction false} QuerySplit(table: seq<Tid>, a: idx, b: idx, c: idx)
    requires a <= b <= c && IsTable(table)
    ensures multiset(Query(table, Range(a, c))) == multiset(Query(table, Range(a, b))) + multiset(Query(table, Range(b, c)))
  {
    if table != [] {
      QuerySplit(table[1..], a, b, c);
      var x := table[0];
      assert x in table;
      assert Between(x, Range(a, c)) <==> Between(x, Range(a, b)) || Between(x, Range(b, c));
      assert !(Between(x, Range(a, b)) && Between(x, Range(b, c)));
    }
  }

  lemma {:induction false} QueryNone(table: seq<Tid>, a: idx)
    requires IsTable(table)
    ensures Query(table, Range(a, a)) == []
  {
    if table != [] {
      assert table[0] in table;
      QueryNone(table[1..], a);
    }
  }

  lemma {:induction false} QueryAll(table: seq<Tid>)
    requires IsTable(table)
    ensures Query(table, Range(0, POSTGRES_TID_MAX)) == table
  {
    if table != [] {
      assert table[0] in table;
      QueryAll(table[1..]);
    }
  }

  lemma ReadIsAct(before: seq<Tid>, pending: seq<Tid>, output: seq<Tid>, left: seq<Tid>)
    requires output + left == before + pending && |output| > |before|
    ensures var n := |output| - |before|; n <= |pending| && left == pending[n..] && output == before + pending[..n]
  {
    var n := |output| - |before|;
    assert left == (before + pending)[|output|..] == pending[n..];
    assert output == (before + pending)[..|output|] == before + pending[..n];
  }

  /** Reading from a task is at most a Begins, a Reads and a Finishes. */
  lemma TaskIsActs(b: Bind, table: seq<Tid>, first: View, acts: seq<Act>, v: View, output: seq<Tid>, out: seq<Tid>,
                   left: seq<Tid>, finished: bool) returns (more: seq<Act>)
    requires !v.noConnection && !v.done && Worked(b, table, first, acts) == Some((v, output))
    requires out + left == output + if v.exec then v.pending else Query(table, v.task)
    requires |out| >= |output| && (finished ==> left == [])
    ensures Worked(b, table, first, more) == Some((v.(exec := true, pending := left, done := finished), out))
  {
    hide Query, Worked;
    var u := v;
    more := acts;
    if !v.exec {
      assert output + Yield(v, Begins) == output;
      WorkedOne(b, table, first, more, Begins);
      more, u := more + [Begins], v.(exec := true, pending := Query(table, v.task));
    }
    if |out| > |output| {
      ReadIsAct(output, u.pending, out, left);
      WorkedOne(b, table, first, more, Reads(|out| - |output|));
      more, u := more + [Reads(|out| - |output|)], u.(pending := left);
    } else {
      ReadNothing(output, u.pending, out, left);
    }
    if finished {
      assert out + Yield(u, Finishes) == out;
      WorkedOne(b, table, first, more, Finishes);
      more := more + [Finishes];
    }
  }

  lemma ReadNothing(before: seq<Tid>, pending: seq<Tid>, output: seq<Tid>, left: seq<Tid>)
    requires output + left == before + pending && |output| >= |before|
    ensures |output| == |before| ==> output == before && left == pending
  {
    if |output| == |before| {
      assert output == (output + left)[..|before|] == before;
      assert left == (output + left)[|before|..] == pending;
    }
  }

  lemma Moved(before: seq<Tid>, pending: seq<Tid>, output: seq<Tid>, left: seq<Tid>, rest: multiset<Tid>)
    requires output + left == before + pending
    ensures multiset(output) + (multiset(left) + rest) == multiset(before) + (multiset(pending) + rest)
    ensures left == [] ==> multiset(left) == multiset{}
  {
    assert multiset(output + left) == multiset(output) + multiset(left);
    assert multiset(before + pending) == multiset(before) + multiset(pending);
    Regroup(multiset(output), multiset(left), multiset(before), multiset(pending), rest);
  }

  lemma Collected(all: seq<Tid>, chunk: seq<Tid>, before: multiset<Tid>, after: multiset<Tid>)
    requires multiset(chunk) + after == before
    ensures multiset(all + chunk) + after == multiset(all) + before
    ensures |before| == |chunk| + |after|
  {
    assert multiset(all + chunk) == multiset(all) + multiset(chunk);
    assert (multiset(all) + multiset(chunk)) + after == multiset(all) + (multiset(chunk) + after);
  }

  lemma Regroup<T>(a: multiset<T>, b: multiset<T>, c: multiset<T>, d: multiset<T>, rest: multiset<T>)
    requires a + b == c + d
    ensures a + (b + rest) == c + (d + rest)
  {
    assert a + (b + rest) == (a + b) + rest;
    assert (c + d) + rest == c + (d + rest);
  }
}

/** Catalog loading: one forward cursor cuts a result into a slice per schema
    (SliceResult and SliceResultByName, src/storage/postgres_schema_set.cpp), and each
    slice is cut into runs of one type (src/storage/postgres_type_set.cpp). */
module CatalogSlices {
  import opened Bytes

  /** Rows start .. end of a result. */
  datatype Slice = Slice(start: nat, end: nat) {
    predicate Has(row: nat) {
      start <= row < end
    }
  }

  // ------------------------------------------------------------------- slicing

  /** The end of the run of key from the cursor on. */
  function RunEnd<K(==)>(key: K, rows: seq<K>, offset: nat): (end: nat)
    requires offset <= |rows|
    ensures offset <= end <= |rows|
    ensures forall r | offset <= r < end :: rows[r] == key
    ensures end < |rows| ==> rows[end] != key
    decreases |rows| - offset
  {
    if offset < |rows| && rows[offset] == key then RunEnd(key, rows, offset + 1) else offset
  }

  /** One slice per schema, each from where the one before it ended. */
  function Slices<K(==)>(schemas: seq<K>, rows: seq<K>, offset: nat): (slices: seq<Slice>)
    requires offset <= |rows|
    ensures |slices| == |schemas|
  {
    if schemas == [] then []
    else
      var end := RunEnd(schemas[0], rows, offset);
      [Slice(offset, end)] + Slices(schemas[1..], rows, end)
  }

  /** SliceResult: the cursor is shared by the slices. */
  method SliceResult<K(==)>(schemas: seq<K>, rows: seq<K>) returns (slices: seq<Slice>)
    ensures slices == Slices(schemas, rows, 0)
  {
    slices := [];
    var currentOffset := 0;
    var schema := 0;
    assert schemas[0..] == schemas;
    while schema < |schemas|
      invariant 0 <= schema <= |schemas| && currentOffset <= |rows|
      invariant slices + Slices(schemas[schema..], rows, currentOffset) == Slices(schemas, rows, 0)
    {
      var start := currentOffset;
      while currentOffset < |rows| && rows[currentOffset] == schemas[schema]
        invariant start <= currentOffset <= |rows|
        invariant RunEnd(schemas[schema], rows, currentOffset) == RunEnd(schemas[schema], rows, start)
      {
        currentOffset := currentOffset + 1;
      }
      assert schemas[schema..][1..] == schemas[schema + 1..];
      slices := slices + [Slice(start, currentOffset)];
      schema := schema + 1;
    }
  }

  predicate Distinct<K(==)>(s: seq<K>) {
    forall i, j | 0 <= i < j < |s| :: s[i] != s[j]
  }

  /** The position of a schema. */
  function IndexOf<K(==)>(schemas: seq<K>, key: K): (i: nat)
    requires key in schemas
    ensures i < |schemas| && schemas[i] == key
  {
    if schemas[0] == key then 0 else 1 + IndexOf(schemas[1..], key)
  }

  /** Every row's key is a schema's, and the rows come in the order of the schemas. */
  predicate Grouped<K(==)>(schemas: seq<K>, rows: seq<K>, offset: nat) {
    && (forall r | offset <= r < |rows| :: rows[r] in schemas)
    && (forall q, r | offset <= q < r < |rows| :: IndexOf(schemas, rows[q]) <= IndexOf(schemas, rows[r]))
  }

  /** Where the cursor ends up. */
  function Reached<K(==)>(schemas: seq<K>, rows: seq<K>, offset: nat): (end: nat)
    requires offset <= |rows|
    ensures offset <= end <= |rows|
  {
    if schemas == [] then offset else Reached(schemas[1..], rows, RunEnd(schemas[0], rows, offset))
  }

  /** Dropping the first schema, for keys other than it. */
  lemma IndexDrops<K>(schemas: seq<K>, key: K)
    requires schemas != [] && Distinct(schemas)
    ensures key in schemas[1..] <==> key in schemas && key != schemas[0]
    ensures key in schemas[1..] ==> IndexOf(schemas, key) == 1 + IndexOf(schemas[1..], key)
    ensures key == schemas[0] ==> IndexOf(schemas, key) == 0
  {
    if key in schemas[1..] {
      var i :| 0 <= i < |schemas| - 1 && schemas[1..][i] == key;
      assert schemas[0] != schemas[i + 1];
    }
  }

  lemma GroupedStep<K>(schemas: seq<K>, rows: seq<K>, offset: nat)
    requires schemas != [] && offset <= |rows| && Distinct(schemas)
    ensures Grouped(schemas, rows, offset) <==> Grouped(schemas[1..], rows, RunEnd(schemas[0], rows, offset))
  {
    var end, rest := RunEnd(schemas[0], rows, offset), schemas[1..];
    forall r | offset <= r < |rows|
      ensures rows[r] in rest <==> rows[r] in schemas && rows[r] != schemas[0]
      ensures rows[r] in rest ==> IndexOf(schemas, rows[r]) == 1 + IndexOf(rest, rows[r])
      ensures rows[r] == schemas[0] ==> rows[r] in schemas && IndexOf(schemas, rows[r]) == 0
    {
      IndexDrops(schemas, rows[r]);
    }
    hide IndexOf, Distinct;
    if Grouped(schemas, rows, offset) && end < |rows| {
      forall r | end <= r < |rows| ensures rows[r] in rest {
        assert IndexOf(schemas, rows[end]) <= IndexOf(schemas, rows[r]);
        assert rows[end] != schemas[0];
      }
    }
  }

  lemma {:induction false} AllReached<K>(schemas: seq<K>, rows: seq<K>, offset: nat)
    requires offset <= |rows| && Distinct(schemas)
    ensures Reached(schemas, rows, offset) == |rows| <==> Grouped(schemas, rows, offset)
    decreases |schemas|
  {
    if schemas == [] {
      assert offset < |rows| ==> rows[offset] !in schemas;
    } else {
      GroupedStep(schemas, rows, offset);
      AllReached(schemas[1..], rows, RunEnd(schemas[0], rows, offset));
    }
  }

  lemma SlicesStep<K>(schemas: seq<K>, rows: seq<K>, offset: nat, i: nat)
    requires offset <= |rows| && i < |schemas|
    ensures var end := RunEnd(schemas[0], rows, offset);
            Slices(schemas, rows, offset)[i] == if i == 0 then Slice(offset, end) else Slices(schemas[1..], rows, end)[i - 1]
  {
  }

  /** A slice lies between the cursor and where it ends up, and holds rows of its own
      schema only. */
  lemma {:induction false} SliceHolds<K>(schemas: seq<K>, rows: seq<K>, offset: nat, i: nat)
    requires offset <= |rows| && i < |schemas|
    ensures var s := Slices(schemas, rows, offset)[i];
            && offset <= s.start <= s.end <= Reached(schemas, rows, offset)
            && forall r: nat | s.Has(r) :: rows[r] == schemas[i]
    decreases |schemas|
  {
    SlicesStep(schemas, rows, offset, i);
    if i > 0 {
      SliceHolds(schemas[1..], rows, RunEnd(schemas[0], rows, offset), i - 1);
    }
    hide RunEnd, Slices;
  }

  lemma {:induction false} InSomeSlice<K>(schemas: seq<K>, rows: seq<K>, offset: nat, r: nat) returns (i: nat)
    requires offset <= |rows|
    requires offset <= r < Reached(schemas, rows, offset)
    ensures i < |schemas| && Slices(schemas, rows, offset)[i].Has(r)
    decreases |schemas|
  {
    var end := RunEnd(schemas[0], rows, offset);
    if r < end {
      i := 0;
    } else {
      var j := InSomeSlice(schemas[1..], rows, end, r);
      i := j + 1;
    }
    SlicesStep(schemas, rows, offset, i);
  }

  predicate Covered(slices: seq<Slice>, r: nat) {
    exists i :: 0 <= i < |slices| && slices[i].Has(r)
  }

  /** Slice i is exactly the rows of schema i, and every row is in a slice. */
  ghost predicate Tiled<K>(schemas: seq<K>, rows: seq<K>, slices: seq<Slice>)
    requires |slices| == |schemas|
  {
    && (forall r: nat | r < |rows| :: Covered(slices, r))
    && (forall i, r: nat | 0 <= i < |schemas| && r < |rows| :: slices[i].Has(r) <==> rows[r] == schemas[i])
  }

  /** Main result on slicing: the slices tile the result, one per schema, if and only if
      every row belongs to a listed schema and the rows come in the order of the
      schemas. Otherwise rows are lost. */
  lemma SlicesTile<K>(schemas: seq<K>, rows: seq<K>)
    requires Distinct(schemas)
    ensures Grouped(schemas, rows, 0) <==> Tiled(schemas, rows, Slices(schemas, rows, 0))
  {
    var s := Slices(schemas, rows, 0);
    AllReached(schemas, rows, 0);
    forall i | 0 <= i < |schemas|
      ensures s[i].end <= Reached(schemas, rows, 0) && forall r: nat | s[i].Has(r) :: rows[r] == schemas[i]
    {
      SliceHolds(schemas, rows, 0, i);
    }
    ReachedBound(schemas, rows);
    assert |s| == |schemas|;
    hide Slices, Reached, Grouped;
    if Grouped(schemas, rows, 0) {
      forall r: nat | r < |rows|
        ensures Covered(s, r)
        ensures forall i | 0 <= i < |schemas| && rows[r] == schemas[i] :: s[i].Has(r)
      {
        var i := InSomeSlice(schemas, rows, 0, r);
        assert s[i].Has(r) && rows[r] == schemas[i];
      }
    } else {
      var r := Reached(schemas, rows, 0);
      assert !Covered(s, r);
    }
  }

  lemma ReachedBound<K>(schemas: seq<K>, rows: seq<K>)
    ensures Reached(schemas, rows, 0) <= |rows|
  {
  }

  /** What the queries promise: schemas and rows in ascending order of their key. */
  lemma SortedIsGrouped(schemas: seq<int>, rows: seq<int>)
    requires forall i, j | 0 <= i < j < |schemas| :: schemas[i] < schemas[j]
    requires forall q, r | 0 <= q < r < |rows| :: rows[q] <= rows[r]
    requires forall r | 0 <= r < |rows| :: rows[r] in schemas
    ensures Distinct(schemas) && Grouped(schemas, rows, 0)
  {
    forall q, r | 0 <= q < r < |rows| ensures IndexOf(schemas, rows[q]) <= IndexOf(schemas, rows[r]) {
      var i, j := IndexOf(schemas, rows[q]), IndexOf(schemas, rows[r]);
      assert schemas[i] <= schemas[j];
    }
  }

  // ------------------------------------------------------------------ grouping

  /** The rows of a slice in maximal runs of equal type. */
  ghost predicate MaximalRuns(oids: seq<int>, slice: Slice, runs: seq<Slice>)
    requires slice.start <= slice.end <= |oids|
  {
    && (forall g | 0 <= g < |runs| :: slice.start <= runs[g].start < runs[g].end <= slice.end)
    && (forall g, r: nat | 0 <= g < |runs| && runs[g].Has(r) :: oids[r] == oids[runs[g].start])
    && (forall g | 0 < g < |runs| :: runs[g].start == runs[g - 1].end && oids[runs[g].start] != oids[runs[g - 1].start])
    && (if runs == [] then slice.start == slice.end else runs[0].start == slice.start && runs[|runs| - 1].end == slice.end)
  }

  /** InitializeEnums and InitializeCompositeTypes: the rows each created type is made
      from. The comparison converts the int64_t oid to idx_t. */
  method InitializeTypes(oids: seq<int>, slice: Slice) returns (runs: seq<Slice>)
    requires slice.start <= slice.end <= |oids| && forall o | o in oids :: IsSigned(8, o)
    ensures MaximalRuns(oids, slice, runs)
  {
    runs := [];
    var start := slice.start;
    var currentOid: int := Pow(256, 8) - 1;
    var row := slice.start;
    assert MaximalRuns(oids, Slice(slice.start, start), runs);
    hide MaximalRuns, Pow, IsSigned, ToUnsigned;
    while row < slice.end
      invariant slice.start <= start <= row <= slice.end
      invariant MaximalRuns(oids, Slice(slice.start, start), runs) && NewRun(oids, runs, start)
      invariant if row == slice.start then start == row && currentOid == Pow(256, 8) - 1
                else start < row && currentOid == ToUnsigned(8, oids[start])
      invariant forall r | start <= r < row :: oids[r] == oids[start]
    {
      assert oids[row] in oids && oids[start] in oids;
      SameOid(oids[row], oids[start]);
      MinusOne(oids[row]);
      if ToUnsigned(8, oids[row]) != currentOid {
        if row > start {
          RunAdded(oids, slice.start, start, row, runs);
          runs := runs + [Slice(start, row)];
        }
        start := row;
        currentOid := ToUnsigned(8, oids[row]);
      }
      row := row + 1;
    }
    if slice.end > start {
      RunAdded(oids, slice.start, start, slice.end, runs);
      runs := runs + [Slice(start, slice.end)];
    }
  }

  /** A run that starts here would not continue the last one. */
  predicate NewRun(oids: seq<int>, runs: seq<Slice>, start: nat) {
    start < |oids| && runs != [] ==> runs[|runs| - 1].start < |oids| && oids[start] != oids[runs[|runs| - 1].start]
  }

  lemma RunAdded(oids: seq<int>, from: nat, start: nat, end: nat, runs: seq<Slice>)
    requires from <= start < end <= |oids| && MaximalRuns(oids, Slice(from, start), runs) && NewRun(oids, runs, start)
    requires forall r | start <= r < end :: oids[r] == oids[start]
    ensures MaximalRuns(oids, Slice(from, end), runs + [Slice(start, end)])
    ensures end < |oids| && oids[end] != oids[start] ==> NewRun(oids, runs + [Slice(start, end)], end)
  {
    var n, all := |runs|, runs + [Slice(start, end)];
    assert forall g | 0 <= g < n :: all[g] == runs[g];
    forall g, r: nat | 0 <= g <= n && all[g].Has(r) ensures oids[r] == oids[all[g].start] {
      assert g < n ==> runs[g].Has(r);
    }
    forall g | 0 < g <= n ensures all[g].start == all[g - 1].end && oids[all[g].start] != oids[all[g - 1].start] {
      assert g < n ==> runs[g].start == runs[g - 1].end;
    }
  }

  lemma SameOid(a: int, b: int)
    requires IsSigned(8, a) && IsSigned(8, b)
    ensures ToUnsigned(8, a) == ToUnsigned(8, b) <==> a == b
  {
    SignedRoundTrip(8, a);
    SignedRoundTrip(8, b);
  }

  /** The initial current_oid is the oid -1; a first row of that oid is not missed. */
  lemma MinusOne(a: int)
    requires IsSigned(8, a)
    ensures ToUnsigned(8, a) == Pow(256, 8) - 1 <==> a == -1
  {
    Sizes();
    SameOid(a, -1);
    SignedRoundTrip(8, -1);
  }

  /** Main result on grouping: the runs of a slice are determined by it. */
  lemma {:induction false} RunsUnique(oids: seq<int>, slice: Slice, a: seq<Slice>, b: seq<Slice>)
    requires slice.start <= slice.end <= |oids| && MaximalRuns(oids, slice, a) && MaximalRuns(oids, slice, b)
    ensures a == b
    decreases |a|
  {
    RunsNone(oids, slice, a);
    RunsNone(oids, slice, b);
    hide MaximalRuns, RunEnd;
    if a != [] {
      FirstRun(oids, slice, a);
      FirstRun(oids, slice, b);
      RunsRest(oids, slice, a);
      RunsRest(oids, slice, b);
      RunsUnique(oids, Slice(a[0].end, slice.end), a[1..], b[1..]);
      assert a == [a[0]] + a[1..] && b == [b[0]] + b[1..];
    }
  }

  lemma RunsNone(oids: seq<int>, slice: Slice, a: seq<Slice>)
    requires slice.start <= slice.end <= |oids| && MaximalRuns(oids, slice, a)
    ensures a == [] <==> slice.start == slice.end
    ensures a != [] ==> a[0].end <= slice.end
  {
  }

  lemma {:induction false} RunEndUnique(key: int, rows: seq<int>, offset: nat, end: nat)
    requires offset <= end <= |rows| && (forall r | offset <= r < end :: rows[r] == key) && (end < |rows| ==> rows[end] != key)
    ensures end == RunEnd(key, rows, offset)
    decreases |rows| - offset
  {
    if offset < end {
      RunEndUnique(key, rows, offset + 1, end);
    }
  }

  /** The first run ends with the slice or where the type changes. */
  lemma FirstRun(oids: seq<int>, slice: Slice, a: seq<Slice>)
    requires slice.start <= slice.end <= |oids| && MaximalRuns(oids, slice, a) && a != []
    ensures slice.start < slice.end && a[0] == Slice(slice.start, RunEnd(oids[slice.start], oids[..slice.end], slice.start))
  {
    var end := a[0].end;
    forall r: nat | slice.start <= r < end ensures oids[..slice.end][r] == oids[slice.start] {
      assert a[0].Has(r);
    }
    if |a| > 1 {
      assert a[1].start == end;
    }
    RunEndUnique(oids[slice.start], oids[..slice.end], slice.start, end);
  }

  lemma RunsRest(oids: seq<int>, slice: Slice, a: seq<Slice>)
    requires slice.start <= slice.end <= |oids| && MaximalRuns(oids, slice, a) && a != []
    ensures MaximalRuns(oids, Slice(a[0].end, slice.end), a[1..])
  {
    var rest := a[1..];
    assert forall g | 0 <= g < |rest| :: rest[g] == a[g + 1];
    RunsAscend(oids, slice, a);
    forall g | 0 < g < |rest| ensures rest[g].start == rest[g - 1].end && oids[rest[g].start] != oids[rest[g - 1].start] {
      assert a[g + 1].start == a[g].end;
    }
    if rest == [] {
      assert |a| == 1;
    }
  }

  lemma RunsAscend(oids: seq<int>, slice: Slice, a: seq<Slice>)
    requires slice.start <= slice.end <= |oids| && MaximalRuns(oids, slice, a)
    ensures forall g, h | 0 <= g < h < |a| :: a[g].end <= a[h].start
  {
    forall g, h | 0 <= g < h < |a| ensures a[g].end <= a[h].start {
      RunsBetween(oids, slice, a, g, h);
    }
  }

  lemma {:induction false} RunsBetween(oids: seq<int>, slice: Slice, a: seq<Slice>, g: nat, h: nat)
    requires slice.start <= slice.end <= |oids| && MaximalRuns(oids, slice, a) && g < h < |a|
    ensures a[g].end <= a[h].start
    decreases h
  {
    if g + 1 < h {
      RunsBetween(oids, slice, a, g, h - 1);
    }
    assert a[h].start == a[h - 1].end;
  }

  /** With the rows of a type next to each other, as the queries order them, each type
      is created once. */
  lemma OncePerType(oids: seq<int>, slice: Slice, runs: seq<Slice>)
    requires slice.start <= slice.end <= |oids| && MaximalRuns(oids, slice, runs)
    requires forall p, q, r | slice.start <= p < q < r < slice.end && oids[p] == oids[r] :: oids[q] == oids[p]
    ensures forall g, h | 0 <= g < h < |runs| :: oids[runs[g].start] != oids[runs[h].start]
  {
    forall g, h | 0 <= g < h < |runs| ensures oids[runs[g].start] != oids[runs[h].start] {
      var p, r := runs[g].start, runs[h].start;
      assert runs[g + 1].start == runs[g].end && oids[runs[g + 1].start] != oids[p];
      if g + 1 < h {
        RunsBetween(oids, slice, runs, g + 1, h);
        assert p < runs[g + 1].start < r;
      }
    }
  }
}

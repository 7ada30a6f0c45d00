/** DuckDB vectors: validity and data per row; a list vector holds (offset, length)
    entries into a child vector, a struct vector one child per field. */
module Vectors {
  import opened NestedLists
  import opened WireFormat

  datatype Entry = Entry(offset: nat, length: nat)

  datatype Vec =
    | Column(valid: seq<bool>, data: seq<Value>)
    | ListVec(valid: seq<bool>, entries: seq<Entry>, child: Vec, size: nat)
    | StructVec(valid: seq<bool>, fields: seq<Vec>)

  /** The vector is laid out for type t and its list entries stay within the part
      of the child vector in use (ListVector::GetListSize). */
  predicate Shape(t: Type, vec: Vec)
    decreases vec
  {
    match vec
    case Column(valid, data) => !t.ListOf? && !t.StructOf? && |data| == |valid|
    case ListVec(valid, entries, child, size) =>
      && t.ListOf? && |entries| == |valid| && size <= |child.valid|
      && (forall i | 0 <= i < |entries| :: entries[i].offset + entries[i].length <= size)
      && Shape(t.elem, child)
    case StructVec(valid, fields) =>
      && t.StructOf? && |fields| == |t.fields|
      && forall k | 0 <= k < |fields| :: Shape(t.fields[k], fields[k]) && |fields[k].valid| == |valid|
  }

  /** The nested value a row denotes. */
  function At(t: Type, vec: Vec, i: nat): Value
    requires Shape(t, vec) && i < |vec.valid|
    decreases vec, 0
  {
    if !vec.valid[i] then NullV
    else
      match vec
      case Column(_, data) => data[i]
      case ListVec(_, entries, child, _) => ListV(Slice(t.elem, child, entries[i].offset, entries[i].length))
      case StructVec(_, fields) => StructV(seq(|fields|, k requires 0 <= k < |fields| => At(t.fields[k], fields[k], i)))
  }

  /** n consecutive rows. */
  function Slice(t: Type, vec: Vec, offset: nat, n: nat): (vs: seq<Value>)
    requires Shape(t, vec) && offset + n <= |vec.valid|
    ensures |vs| == n
    decreases vec, 1
  {
    seq(n, k requires 0 <= k < n => At(t, vec, offset + k))
  }

  /** Every row in the vector and its children holds a value of the type. */
  predicate Typed(t: Type, vec: Vec)
    requires Shape(t, vec)
    decreases vec
  {
    match vec
    case Column(valid, data) => forall i | 0 <= i < |data| :: valid[i] ==> HasType(t, data[i]) && !data[i].NullV?
    case ListVec(_, _, child, _) => Typed(t.elem, child)
    case StructVec(_, fields) => forall k | 0 <= k < |fields| :: Typed(t.fields[k], fields[k])
  }

  lemma {:induction false} TypedAt(t: Type, vec: Vec, i: nat)
    requires Shape(t, vec) && Typed(t, vec) && i < |vec.valid|
    ensures HasType(t, At(t, vec, i))
    decreases vec, 0
  {
    if vec.valid[i] {
      match vec
      case Column(_, data) =>
      case ListVec(_, entries, child, _) => TypedSlice(t.elem, child, entries[i].offset, entries[i].length);
      case StructVec(_, fields) =>
        forall k | 0 <= k < |fields| ensures HasType(t.fields[k], At(t.fields[k], fields[k], i)) {
          TypedAt(t.fields[k], fields[k], i);
        }
    }
  }

  lemma TypedSlice(t: Type, vec: Vec, offset: nat, n: nat)
    requires Shape(t, vec) && Typed(t, vec) && offset + n <= |vec.valid|
    ensures forall v | v in Slice(t, vec, offset, n) :: HasType(t, v)
    decreases vec, 1
  {
    var vs := Slice(t, vec, offset, n);
    forall k | 0 <= k < n ensures HasType(t, vs[k]) {
      TypedAt(t, vec, offset + k);
    }
  }

  // ------------------------------------------------------ vectors being filled

  /** Row i has not been written: still valid, at every depth of a struct. */
  predicate Fresh(vec: Vec, i: nat)
    requires i < |vec.valid|
    decreases vec
  {
    vec.valid[i] && (vec.StructVec? ==> forall k | 0 <= k < |vec.fields| :: i < |vec.fields[k].valid| && Fresh(vec.fields[k], i))
  }

  /** Ready for appending: child rows beyond the used part are fresh. */
  predicate Ready(t: Type, vec: Vec)
    decreases vec
  {
    Shape(t, vec) &&
    match vec
    case Column(_, _) => true
    case ListVec(_, _, child, size) => Ready(t.elem, child) && forall i | size <= i < |child.valid| :: Fresh(child, i)
    case StructVec(_, fields) => forall k | 0 <= k < |fields| :: Ready(t.fields[k], fields[k])
  }

  /** A vector with room for n rows, none of them written. */
  function NewVec(t: Type, n: nat): (vec: Vec)
    ensures |vec.valid| == n && Ready(t, vec) && forall i | 0 <= i < n :: Fresh(vec, i)
    decreases t
  {
    var valid := seq(n, _ => true);
    match t
    case ListOf(e) => ListVec(valid, seq(n, _ => Entry(0, 0)), NewVec(e, 0), 0)
    case StructOf(ts) => StructVec(valid, seq(|ts|, k requires 0 <= k < |ts| => NewVec(ts[k], n)))
    case _ => Column(valid, seq(n, _ => NumV(0)))
  }

  /** ListVector::Reserve: room for at least n rows, the new ones fresh. */
  function Reserve(vec: Vec, n: nat): (w: Vec)
    ensures |w.valid| >= |vec.valid| && |w.valid| >= n
    decreases vec
  {
    var more := if n > |vec.valid| then n - |vec.valid| else 0;
    var valid := vec.valid + seq(more, _ => true);
    match vec
    case Column(_, data) => Column(valid, data + seq(more, _ => NumV(0)))
    case ListVec(_, entries, child, size) => ListVec(valid, entries + seq(more, _ => Entry(0, 0)), child, size)
    case StructVec(_, fields) => StructVec(valid, seq(|fields|, k requires 0 <= k < |fields| => Reserve(fields[k], n)))
  }

  lemma {:induction false} ReserveKeeps(t: Type, vec: Vec, n: nat)
    requires Ready(t, vec)
    ensures Ready(t, Reserve(vec, n))
    ensures |Reserve(vec, n).valid| == if n > |vec.valid| then n else |vec.valid|
    ensures forall i | 0 <= i < |vec.valid| :: At(t, Reserve(vec, n), i) == At(t, vec, i)
    ensures forall i | 0 <= i < |vec.valid| :: Fresh(vec, i) ==> Fresh(Reserve(vec, n), i)
    ensures forall i | |vec.valid| <= i < |Reserve(vec, n).valid| :: Fresh(Reserve(vec, n), i)
    decreases vec
  {
    var w := Reserve(vec, n);
    match vec
    case Column(_, _) =>
    case ListVec(_, _, _, _) =>
    case StructVec(_, fields) =>
      forall k | 0 <= k < |fields|
        ensures Ready(t.fields[k], w.fields[k]) && |w.fields[k].valid| == |w.valid|
        ensures forall i | 0 <= i < |vec.valid| :: At(t.fields[k], w.fields[k], i) == At(t.fields[k], fields[k], i)
        ensures forall i | 0 <= i < |vec.valid| :: Fresh(fields[k], i) ==> Fresh(w.fields[k], i)
        ensures forall i | |vec.valid| <= i < |w.valid| :: Fresh(w.fields[k], i)
      {
        ReserveKeeps(t.fields[k], fields[k], n);
      }
      forall i | 0 <= i < |vec.valid| ensures At(t, w, i) == At(t, vec, i) {
        assert vec.valid[i] ==> At(t, w, i).fields == At(t, vec, i).fields;
      }
  }

  /** w is v except at rows off .. off + count: same length, same values, and rows
      not yet written still fresh. */
  ghost predicate Elsewhere(t: Type, v: Vec, w: Vec, off: nat, count: nat) {
    && Ready(t, v) && Ready(t, w) && Shape(t, v) && Shape(t, w) && |w.valid| == |v.valid|
    && (forall i | 0 <= i < |v.valid| && !(off <= i < off + count) :: At(t, w, i) == At(t, v, i))
    && (forall i | 0 <= i < |v.valid| && !(off <= i < off + count) && Fresh(v, i) :: Fresh(w, i))
  }

  lemma SliceSame(t: Type, v: Vec, w: Vec, offset: nat, n: nat)
    requires Shape(t, v) && Shape(t, w) && offset + n <= |v.valid| && offset + n <= |w.valid|
    requires forall i | offset <= i < offset + n :: At(t, w, i) == At(t, v, i)
    ensures Slice(t, w, offset, n) == Slice(t, v, offset, n)
  {
  }

  // ------------------------------------------------------------- storing cells

  /** FlatVector::SetNull. */
  function SetNull(vec: Vec, off: nat): Vec
    requires off < |vec.valid|
  {
    var valid := vec.valid[off := false];
    match vec
    case Column(_, data) => Column(valid, data)
    case ListVec(_, entries, child, size) => ListVec(valid, entries, child, size)
    case StructVec(_, fields) => StructVec(valid, fields)
  }

  /** Writing a scalar, or marking the row NULL. */
  function SetCell(vec: Vec, off: nat, v: Value): Vec
    requires vec.Column? && off < |vec.valid| && |vec.data| == |vec.valid|
  {
    if v.NullV? then SetNull(vec, off) else Column(vec.valid, vec.data[off := v])
  }

  lemma SetNullStores(t: Type, vec: Vec, off: nat)
    requires Ready(t, vec) && off < |vec.valid|
    ensures Elsewhere(t, vec, SetNull(vec, off), off, 1) && At(t, SetNull(vec, off), off) == NullV
  {
  }

  lemma SetCellStores(t: Type, vec: Vec, off: nat, v: Value)
    requires Ready(t, vec) && off < |vec.valid| && Fresh(vec, off) && vec.Column?
    ensures Elsewhere(t, vec, SetCell(vec, off, v), off, 1) && At(t, SetCell(vec, off, v), off) == v
  {
    if v.NullV? {
      SetNullStores(t, vec, off);
    }
  }

  /** count rows from off on become consecutive lists of d child rows from start on. */
  function SetEntries(entries: seq<Entry>, off: nat, count: nat, start: nat, d: nat): (r: seq<Entry>)
    ensures |r| == |entries|
  {
    seq(|entries|, i requires 0 <= i < |entries| => if off <= i < off + count then Entry(start + (i - off) * d, d) else entries[i])
  }

  /** Lists of d child rows each, laid out behind the used part of the child vector,
      of which the child vector w holds the values k: the rows of a ReadArray level. */
  lemma ListsStored(t: Type, vec: Vec, w: Vec, off: nat, count: nat, d: nat, total: nat, k: seq<Value>)
    requires Ready(t, vec) && vec.ListVec? && off + count <= |vec.valid| && |k| == total == count * d
    requires forall i | off <= i < off + count :: Fresh(vec, i)
    requires Elsewhere(t.elem, Reserve(vec.child, vec.size + total), w, vec.size, total)
    requires vec.size + total <= |w.valid|
    requires forall j | 0 <= j < total :: At(t.elem, w, vec.size + j) == k[j]
    ensures var n := ListVec(vec.valid, SetEntries(vec.entries, off, count, vec.size, d), w, vec.size + total);
            && Elsewhere(t, vec, n, off, count)
            && forall c | 0 <= c < count :: At(t, n, off + c) == ListV(Run(count, d, k, c))
  {
    ListsElsewhere(t, vec, w, off, count, d, total);
    var n := ListVec(vec.valid, SetEntries(vec.entries, off, count, vec.size, d), w, vec.size + total);
    forall c | 0 <= c < count ensures At(t, n, off + c) == ListV(Run(count, d, k, c)) {
      assert Fresh(vec, off + c);
      EntrySet(vec.entries, off, count, vec.size, d, c);
      ListRowStored(t, n, off + c, vec.size, count, d, c, total, k);
    }
  }

  lemma EntrySet(entries: seq<Entry>, off: nat, count: nat, start: nat, d: nat, c: nat)
    requires c < count && off + count <= |entries|
    ensures SetEntries(entries, off, count, start, d)[off + c] == Entry(start + c * d, d)
    ensures c * d + d <= count * d
  {
    SliceBounds(count, d, c);
    assert off + c - off == c;
  }

  lemma ListRowStored(t: Type, n: Vec, row: nat, start: nat, count: nat, d: nat, c: nat, total: nat, k: seq<Value>)
    requires Shape(t, n) && n.ListVec? && row < |n.valid| && n.valid[row] && c < count && |k| == total == count * d
    requires n.entries[row] == Entry(start + c * d, d) && start + total <= |n.child.valid|
    requires forall j | 0 <= j < total :: At(t.elem, n.child, start + j) == k[j]
    ensures At(t, n, row) == ListV(Run(count, d, k, c))
  {
    SliceBounds(count, d, c);
    SliceHolds(t.elem, n.child, start, c * d, d, k);
  }

  lemma SliceHolds(t: Type, vec: Vec, start: nat, p: nat, d: nat, k: seq<Value>)
    requires Shape(t, vec) && p + d <= |k| && start + |k| <= |vec.valid|
    requires forall j | 0 <= j < |k| :: At(t, vec, start + j) == k[j]
    ensures Slice(t, vec, start + p, d) == k[p..p + d]
  {
    var items := Slice(t, vec, start + p, d);
    forall j | 0 <= j < d ensures items[j] == k[p + j] {
      assert At(t, vec, start + (p + j)) == k[p + j];
      assert start + p + j == start + (p + j);
    }
  }

  lemma ListsElsewhere(t: Type, vec: Vec, w: Vec, off: nat, count: nat, d: nat, total: nat)
    requires Ready(t, vec) && vec.ListVec? && off + count <= |vec.valid| && total == count * d
    requires Elsewhere(t.elem, Reserve(vec.child, vec.size + total), w, vec.size, total)
    requires vec.size + total <= |w.valid|
    ensures var n := ListVec(vec.valid, SetEntries(vec.entries, off, count, vec.size, d), w, vec.size + total);
            Elsewhere(t, vec, n, off, count)
  {
    var m := vec.size + total;
    var n := ListVec(vec.valid, SetEntries(vec.entries, off, count, vec.size, d), w, m);
    ReserveKeeps(t.elem, vec.child, m);
    forall i | 0 <= i < |n.entries| ensures n.entries[i].offset + n.entries[i].length <= m {
      if off <= i < off + count {
        EntrySet(vec.entries, off, count, vec.size, d, i - off);
      }
    }
    forall i | m <= i < |w.valid| ensures Fresh(w, i) {
      assert Fresh(Reserve(vec.child, m), i);
    }
    forall i | 0 <= i < |vec.valid| && !(off <= i < off + count) ensures At(t, n, i) == At(t, vec, i) {
      var e := vec.entries[i];
      SliceSame(t.elem, vec.child, w, e.offset, e.length);
    }
  }
}

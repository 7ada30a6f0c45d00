/** Column types and values, and the flattening of rectangular nested lists: the
    array wire format stores the leaves of all levels in one sequence. */
module NestedLists {
  import opened Wrappers
  import opened Bytes
  import opened Decimal

  /** The column types the binary format carries. */
  datatype Type =
    | Boolean | SmallInt | Integer | BigInt | Float | Double
    | DecimalOf(storage: Storage, scale: nat)
    | Date | Time | TimeTz | Timestamp | TimestampTz | Interval | Uuid
    | Varchar | Blob
    | ListOf(elem: Type)
    | StructOf(fields: seq<Type>)

  /** A cell. NumV holds every type of one machine word: truth values, integers,
      the bits of floats, unscaled decimals, days and microseconds. */
  datatype Value =
    | NullV
    | NumV(n: int)
    | TimeTzV(micros: int, offset: int)
    | IntervalV(micros: int, days: int, months: int)
    | UuidV(upper: int, lower: int)
    | StrV(bytes: seq<byte>)
    | ListV(items: seq<Value>)
    | StructV(fields: seq<Value>)

  /** expected_dimensions: the list levels of a type. */
  function Depth(t: Type): nat {
    if t.ListOf? then 1 + Depth(t.elem) else 0
  }

  function Leaf(t: Type): (l: Type)
    ensures !l.ListOf?
  {
    if t.ListOf? then Leaf(t.elem) else t
  }

  function Prod(dims: seq<nat>): nat {
    if dims == [] then 1 else dims[0] * Prod(dims[1..])
  }

  lemma ProdCons(n: nat, dims: seq<nat>)
    requires dims != []
    ensures n * Prod(dims) == n * dims[0] * Prod(dims[1..])
  {
    MulAssociates(n, dims[0], Prod(dims[1..]));
  }

  lemma SliceBounds(n: nat, d: nat, c: nat)
    requires c < n
    ensures 0 <= c * d <= (c + 1) * d <= n * d
    ensures (c + 1) * d == c * d + d
  {
    assert (c + 1) * d <= n * d;
  }

  /** The c-th run of d elements of a sequence of n such runs. */
  function Run(n: nat, d: nat, k: seq<Value>, c: nat): (r: seq<Value>)
    requires |k| == n * d && c < n
    ensures |r| == d
  {
    SliceBounds(n, d, c);
    k[c * d..(c + 1) * d]
  }

  /** n lists of the given dimensions over the leaves l, built level by level as
      ReadArray lays out offsets: the innermost level first, then each level
      above it as runs of the level below. */
  function Rows(dims: seq<nat>, n: nat, l: seq<Value>): (r: seq<Value>)
    requires |l| == n * Prod(dims)
    ensures |r| == n
    decreases |dims|
  {
    if dims == [] then l
    else
      ProdCons(n, dims);
      var k := Rows(dims[1..], n * dims[0], l);
      seq(n, c requires 0 <= c < n => ListV(Run(n, dims[0], k, c)))
  }

  /** Every value is a list with the given lengths at every level, no list NULL. */
  predicate Rect(dims: seq<nat>, vs: seq<Value>)
    decreases |dims|
  {
    dims == [] || forall v | v in vs :: v.ListV? && |v.items| == dims[0] && Rect(dims[1..], v.items)
  }

  /** The leaves in the depth-first order in which WriteArray visits them. */
  function DepthFirst(dims: seq<nat>, vs: seq<Value>): seq<Value>
    requires Rect(dims, vs)
    decreases |dims|, |vs|
  {
    if dims == [] then vs
    else if vs == [] then []
    else DepthFirst(dims[1..], vs[0].items) + DepthFirst(dims, vs[1..])
  }

  /** The elements of the lists of one level, in order. */
  function Children(d: nat, vs: seq<Value>): (k: seq<Value>)
    requires forall v | v in vs :: v.ListV? && |v.items| == d
    ensures |k| == |vs| * d
  {
    if vs == [] then []
    else
      assert |vs| * d == d + (|vs| - 1) * d;
      vs[0].items + Children(d, vs[1..])
  }

  lemma {:induction false} ChildrenRun(d: nat, vs: seq<Value>, c: nat)
    requires forall v | v in vs :: v.ListV? && |v.items| == d
    requires c < |vs|
    ensures Run(|vs|, d, Children(d, vs), c) == vs[c].items
  {
    var k := Children(d, vs);
    SliceBounds(|vs|, d, c);
    if c > 0 {
      ChildrenRun(d, vs[1..], c - 1);
      SliceBounds(|vs| - 1, d, c - 1);
      assert k[d..] == Children(d, vs[1..]);
      assert k[c * d..(c + 1) * d] == k[d..][(c - 1) * d..c * d];
    }
  }

  lemma {:induction false} ChildrenRect(dims: seq<nat>, vs: seq<Value>)
    requires dims != [] && Rect(dims, vs)
    ensures Rect(dims[1..], Children(dims[0], vs))
  {
    if vs != [] {
      ChildrenRect(dims, vs[1..]);
    }
  }

  lemma {:induction false} DepthFirstAppend(dims: seq<nat>, a: seq<Value>, b: seq<Value>)
    requires Rect(dims, a) && Rect(dims, b)
    ensures Rect(dims, a + b)
    ensures DepthFirst(dims, a + b) == DepthFirst(dims, a) + DepthFirst(dims, b)
  {
    hide *;
    var c := a + b;
    RectAppend(dims, a, b);
    DepthFirstCons(dims, a);
    DepthFirstCons(dims, c);
    if a == [] {
      assert c == b;
      assert DepthFirst(dims, a) + DepthFirst(dims, b) == DepthFirst(dims, b);
    } else if dims == [] {
      DepthFirstCons(dims, b);
    } else {
      DepthFirstAppend(dims, a[1..], b);
      assert c[1..] == a[1..] + b && c[0] == a[0];
      Regrouped(DepthFirst(dims[1..], a[0].items), DepthFirst(dims, a[1..]), DepthFirst(dims, b));
    }
  }

  lemma DepthFirstCons(dims: seq<nat>, vs: seq<Value>)
    requires Rect(dims, vs)
    ensures dims == [] || vs == [] ==> DepthFirst(dims, vs) == vs
    ensures dims != [] && vs != [] ==>
            && vs[0].ListV? && Rect(dims[1..], vs[0].items) && Rect(dims, vs[1..])
            && DepthFirst(dims, vs) == DepthFirst(dims[1..], vs[0].items) + DepthFirst(dims, vs[1..])
  {
  }

  lemma RectAppend(dims: seq<nat>, a: seq<Value>, b: seq<Value>)
    requires Rect(dims, a) && Rect(dims, b)
    ensures Rect(dims, a + b)
  {
  }

  /** Visiting depth first is flattening one level, then visiting depth first. */
  lemma {:induction false} DepthFirstPeels(dims: seq<nat>, vs: seq<Value>)
    requires dims != [] && Rect(dims, vs)
    ensures Rect(dims[1..], Children(dims[0], vs))
    ensures DepthFirst(dims, vs) == DepthFirst(dims[1..], Children(dims[0], vs))
  {
    ChildrenRect(dims, vs);
    if vs == [] {
      DepthFirstEmpty(dims[1..]);
    } else {
      DepthFirstPeels(dims, vs[1..]);
      DepthFirstAppend(dims[1..], vs[0].items, Children(dims[0], vs[1..]));
    }
  }

  lemma DepthFirstEmpty(dims: seq<nat>)
    ensures DepthFirst(dims, []) == []
  {
  }

  /** Main result on arrays: the level-by-level reading of the depth-first
      writing is the nested list, for any number of rectangular lists. */
  lemma {:induction false} RowsOfDepthFirst(dims: seq<nat>, vs: seq<Value>)
    requires Rect(dims, vs)
    ensures |DepthFirst(dims, vs)| == |vs| * Prod(dims)
    ensures Rows(dims, |vs|, DepthFirst(dims, vs)) == vs
    decreases |dims|
  {
    if dims != [] {
      var d, n := dims[0], |vs|;
      var k := Children(d, vs);
      DepthFirstPeels(dims, vs);
      RowsOfDepthFirst(dims[1..], k);
      ProdCons(n, dims);
      assert Rows(dims[1..], n * d, DepthFirst(dims, vs)) == k;
      forall c | 0 <= c < n ensures ListV(Run(n, d, k, c)) == vs[c] {
        ChildrenRun(d, vs, c);
        assert vs[c] in vs;
      }
    }
  }
}

/**
 * The value of a `PGsparsevec` and its dense and binary forms: `dimensions`
 * plus parallel arrays of 0-based `indices` and their `values`; the array,
 * list and map constructors that keep only the nonzero elements; `toArray`
 * scattering the values into a dense array; and the binary layout (int32
 * dimensions, int32 count, int32 reserved 0, the indices, then the values).
 */
module SparseModel {
  import opened Java
  import opened ByteConverter

  /** The fields of a `PGsparsevec`; a null array is `None`. */
  datatype Sparse = Sparse(dimensions: Int32, indices: Option<seq<Int32>>, values: Option<seq<Float32>>)

  /** Every way of setting a `PGsparsevec` leaves `values` beside `indices`, with one value per index. */
  predicate WellFormed(s: Sparse)
  {
    s.indices.Some? ==> s.values.Some? && |s.indices.value| == |s.values.value|
  }

  predicate Increasing(xs: seq<int>)
  {
    forall i, j :: 0 <= i < j < |xs| ==> xs[i] < xs[j]
  }

  // ---------------------------------------------------------------------------
  // The array and list constructors

  /** The positions of the nonzero elements (`v[i] != 0`), in order. */
  function NonzeroIndices(v: seq<Float32>): (r: seq<int>)
    ensures |r| <= |v|
    ensures forall j :: 0 <= j < |r| ==> 0 <= r[j] < |v|
    decreases |v|
  {
    if v == [] then []
    else NonzeroIndices(v[..|v| - 1]) + (if IsZero(v[|v| - 1]) then [] else [|v| - 1])
  }

  /** The nonzero elements, in order. */
  function NonzeroValues(v: seq<Float32>): (r: seq<Float32>)
    ensures |r| == |NonzeroIndices(v)|
    decreases |v|
  {
    if v == [] then []
    else NonzeroValues(v[..|v| - 1]) + (if IsZero(v[|v| - 1]) then [] else [v[|v| - 1]])
  }

  /**
   * The positions the constructors keep are increasing, in range, of
   * nonzero elements, and every nonzero element's position is among them.
   */
  lemma {:induction false} NonzeroIndicesSpec(v: seq<Float32>)
    ensures Increasing(NonzeroIndices(v))
    ensures forall j :: 0 <= j < |NonzeroIndices(v)| ==>
              0 <= NonzeroIndices(v)[j] < |v| && !IsZero(v[NonzeroIndices(v)[j]])
    ensures forall i :: 0 <= i < |v| && !IsZero(v[i]) ==> i in NonzeroIndices(v)
    decreases |v|
  {
    if v != [] {
      var u := v[..|v| - 1];
      NonzeroIndicesSpec(u);
      assert forall i :: 0 <= i < |u| ==> u[i] == v[i];
    }
  }

  /** Each kept value is the element at the matching kept position. */
  lemma {:induction false} NonzeroValuesSpec(v: seq<Float32>)
    ensures forall j :: 0 <= j < |NonzeroValues(v)| ==> NonzeroValues(v)[j] == v[NonzeroIndices(v)[j]]
    decreases |v|
  {
    if v != [] {
      var u := v[..|v| - 1];
      NonzeroValuesSpec(u);
      NonzeroIndicesSpec(u);
      assert forall i :: 0 <= i < |u| ==> u[i] == v[i];
    }
  }

  /** The sparse value the array constructor builds from `v`. */
  function FromDense(v: seq<Float32>): (r: Sparse)
    requires |v| <= IntMax
    ensures WellFormed(r)
  {
    Sparse(|v|, Some(NonzeroIndices(v)), Some(NonzeroValues(v)))
  }

  // ---------------------------------------------------------------------------
  // toArray

  /**
   * `vec[indices[i]] = values[i]` for each `i` in turn, starting from `base`;
   * an index outside `base` throws `ArrayIndexOutOfBoundsException`.
   */
  function Scatter(base: seq<Float32>, idx: seq<int>, vals: seq<Float32>): (r: Result<seq<Float32>>)
    requires |idx| == |vals|
    ensures r.Ok? <==> forall j :: 0 <= j < |idx| ==> 0 <= idx[j] < |base|
    ensures r.Ok? ==> |r.value| == |base|
    ensures r.Err? ==> r.error == IndexOutOfBounds
    decreases |idx|
  {
    if idx == [] then Ok(base)
    else
      var n := |idx| - 1;
      assert forall j :: 0 <= j < n ==> idx[..n][j] == idx[j];
      match Scatter(base, idx[..n], vals[..n])
      case Err(e) => Err(e)
      case Ok(b) => if 0 <= idx[n] < |b| then Ok(b[idx[n] := vals[n]]) else Err(IndexOutOfBounds)
  }

  /**
   * `toArray()`: null for a null `indices`; `new float[dimensions]` throws
   * for a negative dimension count; then the values are scattered.
   */
  function ToDense(s: Sparse): (r: Result<Option<seq<Float32>>>)
    requires WellFormed(s)
    ensures r == Ok(None) <==> s.indices.None?
    ensures r.Ok? && r.value.Some? ==> |r.value.value| == s.dimensions
  {
    match s.indices
    case None => Ok(None)
    case Some(idx) =>
      if s.dimensions < 0 then Err(NegativeArraySize)
      else match Scatter(Zeros(s.dimensions, PositiveZero), idx, s.values.value)
        case Err(e) => Err(e)
        case Ok(d) => Ok(Some(d))
  }

  /**
   * With increasing in-range indices, each index gets its value and every
   * other position keeps its element.
   */
  lemma {:induction false} ScatterIncreasing(base: seq<Float32>, idx: seq<int>, vals: seq<Float32>)
    requires |idx| == |vals|
    requires Increasing(idx)
    requires forall j :: 0 <= j < |idx| ==> 0 <= idx[j] < |base|
    ensures Scatter(base, idx, vals).Ok?
    ensures forall j :: 0 <= j < |idx| ==> Scatter(base, idx, vals).value[idx[j]] == vals[j]
    ensures forall p :: 0 <= p < |base| && p !in idx ==> Scatter(base, idx, vals).value[p] == base[p]
  {
    if idx != [] {
      var n := |idx| - 1;
      ScatterIncreasing(base, idx[..n], vals[..n]);
      var b := Scatter(base, idx[..n], vals[..n]).value;
      var r := Scatter(base, idx, vals).value;
      assert r == b[idx[n] := vals[n]];
      forall j | 0 <= j < |idx|
        ensures r[idx[j]] == vals[j]
      {
        if j < n {
          assert idx[..n][j] == idx[j] && vals[..n][j] == vals[j];
          assert idx[j] < idx[n];
        }
      }
      forall p | 0 <= p < |base| && p !in idx
        ensures r[p] == base[p]
      {
        assert p !in idx[..n];
      }
    }
  }

  /** `v` with every zero as +0.0: what `toArray` yields for an element the constructor dropped. */
  function Normalized(v: seq<Float32>): (r: seq<Float32>)
    ensures |r| == |v|
    ensures forall i :: 0 <= i < |v| ==> r[i] == if IsZero(v[i]) then PositiveZero else v[i]
  {
    seq(|v|, i requires 0 <= i < |v| => if IsZero(v[i]) then PositiveZero else v[i])
  }

  /**
   * `toArray()` after the array constructor gives the array back, except
   * that a -0.0 comes back as +0.0.
   */
  lemma ToDenseFromDense(v: seq<Float32>)
    requires |v| <= IntMax
    ensures ToDense(FromDense(v)) == Ok(Some(Normalized(v)))
    ensures (forall i :: 0 <= i < |v| ==> IsZero(v[i]) ==> v[i] == PositiveZero) ==> Normalized(v) == v
  {
    var idx, vals := NonzeroIndices(v), NonzeroValues(v);
    NonzeroIndicesSpec(v);
    NonzeroValuesSpec(v);
    var base := Zeros(|v|, PositiveZero);
    ScatterIncreasing(base, idx, vals);
    var d := Scatter(base, idx, vals).value;
    forall p | 0 <= p < |v|
      ensures d[p] == Normalized(v)[p]
    {
      if p in idx {
        var j :| 0 <= j < |idx| && idx[j] == p;
      }
    }
    assert d == Normalized(v);
  }

  // ---------------------------------------------------------------------------
  // The map constructor

  /** A map's entries in its iteration order; the keys are distinct. */
  predicate DistinctKeys(es: seq<(Int32, Float32)>)
  {
    forall i, j :: 0 <= i < j < |es| ==> es[i].0 != es[j].0
  }

  predicate StrictlyByKey(es: seq<(Int32, Float32)>)
  {
    forall i, j :: 0 <= i < j < |es| ==> es[i].0 < es[j].0
  }

  /** `elements.removeIf(e -> e.getValue().floatValue() == 0)`. */
  function DropZeros(es: seq<(Int32, Float32)>): (r: seq<(Int32, Float32)>)
    ensures forall e :: e in r <==> e in es && !IsZero(e.1)
    ensures DistinctKeys(es) ==> DistinctKeys(r)
  {
    if es == [] then []
    else
      var rest := DropZeros(es[1..]);
      assert forall e :: e in es <==> e == es[0] || e in es[1..];
      assert DistinctKeys(es) ==> DistinctKeys(es[1..]) && forall e :: e in es[1..] ==> e.0 != es[0].0;
      if IsZero(es[0].1) then rest else [es[0]] + rest
  }

  /** Inserting an entry with a new key into a list ordered by key. */
  function InsertByKey(e: (Int32, Float32), sorted: seq<(Int32, Float32)>): (r: seq<(Int32, Float32)>)
    requires StrictlyByKey(sorted)
    requires forall x :: x in sorted ==> x.0 != e.0
    ensures StrictlyByKey(r)
    ensures forall x :: x in r <==> x == e || x in sorted
  {
    if sorted == [] || e.0 < sorted[0].0 then [e] + sorted
    else
      assert forall x :: x in sorted <==> x == sorted[0] || x in sorted[1..];
      var t := InsertByKey(e, sorted[1..]);
      assert forall k :: 0 <= k < |t| ==> sorted[0].0 < t[k].0 by {
        forall k | 0 <= k < |t|
          ensures sorted[0].0 < t[k].0
        {
          assert t[k] in t;
          if t[k] != e {
            var m :| 0 <= m < |sorted[1..]| && sorted[1..][m] == t[k];
            assert sorted[m + 1] == t[k];
          }
        }
      }
      [sorted[0]] + t
  }

  /** `elements.sort(by key)` on entries with distinct keys: the same entries, ordered by key. */
  function SortByKey(es: seq<(Int32, Float32)>): (r: seq<(Int32, Float32)>)
    requires DistinctKeys(es)
    ensures StrictlyByKey(r)
    ensures forall x :: x in r <==> x in es
  {
    if es == [] then []
    else
      assert forall x :: x in es <==> x == es[0] || x in es[1..];
      assert forall x :: x in es[1..] ==> x.0 != es[0].0;
      InsertByKey(es[0], SortByKey(es[1..]))
  }

  /** The entries the map constructor stores, in order. */
  function MapEntries(es: seq<(Int32, Float32)>): (r: seq<(Int32, Float32)>)
    requires DistinctKeys(es)
    ensures StrictlyByKey(r)
    ensures forall e :: e in r <==> e in es && !IsZero(e.1)
  {
    SortByKey(DropZeros(es))
  }

  /** Two lists strictly ordered by key with the same entries are the same list. */
  lemma {:induction false} StrictlyByKeyUnique(a: seq<(Int32, Float32)>, b: seq<(Int32, Float32)>)
    requires StrictlyByKey(a) && StrictlyByKey(b)
    requires forall e :: e in a <==> e in b
    ensures a == b
  {
    assert a != [] ==> a[0] in b;
    assert b != [] ==> b[0] in a;
    if a != [] && b != [] {
      assert a[0] == b[0] by {
        var k :| 0 <= k < |b| && b[k] == a[0];
        var m :| 0 <= m < |a| && a[m] == b[0];
        assert b[0].0 <= a[0].0 && a[0].0 <= b[0].0;
      }
      forall e
        ensures e in a[1..] <==> e in b[1..]
      {
        if e in a[1..] {
          var k :| 1 <= k < |a| && a[k] == e;
          assert e in b && e != b[0];
          var m :| 0 <= m < |b| && b[m] == e;
          assert b[1..][m - 1] == e;
        }
        if e in b[1..] {
          var k :| 1 <= k < |b| && b[k] == e;
          assert e in a && e != a[0];
          var m :| 0 <= m < |a| && a[m] == e;
          assert a[1..][m - 1] == e;
        }
      }
      StrictlyByKeyUnique(a[1..], b[1..]);
      assert a == [a[0]] + a[1..] && b == [b[0]] + b[1..];
    }
  }

  /**
   * The map constructor's result depends only on the map, not on the order
   * in which the map lists its entries.
   */
  lemma MapEntriesOrderFree(es1: seq<(Int32, Float32)>, es2: seq<(Int32, Float32)>)
    requires DistinctKeys(es1) && DistinctKeys(es2)
    requires forall e :: e in es1 <==> e in es2
    ensures MapEntries(es1) == MapEntries(es2)
  {
    StrictlyByKeyUnique(MapEntries(es1), MapEntries(es2));
  }

  /** The keys of the entries. */
  function Keys(es: seq<(Int32, Float32)>): (r: seq<Int32>)
    ensures |r| == |es| && forall i :: 0 <= i < |es| ==> r[i] == es[i].0
  {
    seq(|es|, i requires 0 <= i < |es| => es[i].0)
  }

  /** The values of the entries. */
  function Values(es: seq<(Int32, Float32)>): (r: seq<Float32>)
    ensures |r| == |es| && forall i :: 0 <= i < |es| ==> r[i] == es[i].1
  {
    seq(|es|, i requires 0 <= i < |es| => es[i].1)
  }

  /** The sparse value the map constructor builds; a null map gives no entries. */
  function FromMap(es: Option<seq<(Int32, Float32)>>, dimensions: Int32): (r: Sparse)
    requires es.Some? ==> DistinctKeys(es.value)
    ensures WellFormed(r)
  {
    var elements := if es.None? then [] else MapEntries(es.value);
    Sparse(dimensions, Some(Keys(elements)), Some(Values(elements)))
  }

  /**
   * The map constructor's indices increase, each with its map value, every
   * one nonzero, and every nonzero entry of the map is among them.
   */
  lemma FromMapEntries(es: seq<(Int32, Float32)>, dimensions: Int32)
    requires DistinctKeys(es)
    ensures var r := FromMap(Some(es), dimensions);
            && r.dimensions == dimensions
            && Increasing(r.indices.value)
            && (forall j :: 0 <= j < |r.indices.value| ==>
                  (r.indices.value[j], r.values.value[j]) in es && !IsZero(r.values.value[j]))
            && (forall e :: e in es && !IsZero(e.1) ==>
                  exists j :: 0 <= j < |r.indices.value| && r.indices.value[j] == e.0 && r.values.value[j] == e.1)
  {
    var m := MapEntries(es);
    forall e | e in es && !IsZero(e.1)
      ensures exists j :: 0 <= j < |m| && Keys(m)[j] == e.0 && Values(m)[j] == e.1
    {
      var j :| 0 <= j < |m| && m[j] == e;
      assert Keys(m)[j] == e.0 && Values(m)[j] == e.1;
    }
    forall j | 0 <= j < |m|
      ensures (Keys(m)[j], Values(m)[j]) in es && !IsZero(Values(m)[j])
    {
      assert m[j] in m;
      assert (Keys(m)[j], Values(m)[j]) == m[j];
    }
  }

  /** A null map gives an empty, not a null, vector. */
  lemma FromNullMap(dimensions: Int32)
    ensures FromMap(None, dimensions) == Sparse(dimensions, Some([]), Some([]))
  {
  }

  // ---------------------------------------------------------------------------
  // Binary form

  /**
   * What `toBytes` writes at `offset`: dimensions, count, reserved 0, the
   * indices, then the values.
   */
  function SparseBytes(dims: Int32, idx: seq<Int32>, vals: seq<Float32>): (r: seq<Byte>)
    ensures |r| == 12 + 4 * |idx| + 4 * |vals|
  {
    Int4Bytes(dims) + Int4Bytes(|idx|) + Int4Bytes(0) + Int4s(idx) + Float4s(vals)
  }

  /** The buffer holds what `setByteValue` reads at `offset`. */
  predicate Readable(value: seq<Byte>, offset: int)
  {
    && 0 <= offset && offset + 12 <= |value|
    && (Int4(value, offset + 8) == 0 && Int4(value, offset + 4) >= 0 ==>
          offset + 12 + 8 * Int4(value, offset + 4) <= |value|)
  }

  /**
   * `setByteValue(value, offset)`: `dimensions` is overwritten first; then
   * a nonzero reserved word throws, a negative count throws, and otherwise
   * both arrays are replaced.
   */
  function Decode(prior: Sparse, value: seq<Byte>, offset: int): (r: (Sparse, Outcome))
    requires Readable(value, offset)
    ensures r.0.dimensions == Int4(value, offset)
    ensures Int4(value, offset + 8) != 0 ==> r == (prior.(dimensions := Int4(value, offset)), Fail(UnexpectedUnused))
    ensures r.1.Fail? ==> r.0 == prior.(dimensions := Int4(value, offset))
  {
    var dims := Int4(value, offset);
    var nnz := Int4(value, offset + 4);
    var unused := Int4(value, offset + 8);
    if unused != 0 then (prior.(dimensions := dims), Fail(UnexpectedUnused))
    else if nnz < 0 then (prior.(dimensions := dims), Fail(NegativeArraySize))
    else (Sparse(dims, Some(ReadInt4s(value, offset + 12, nnz)), Some(ReadFloat4s(value, offset + 12 + 4 * nnz, nnz))), Pass)
  }

  /** `setByteValue` restores exactly what `toBytes` wrote. */
  lemma DecodeSparseBytes(prior: Sparse, value: seq<Byte>, offset: int, dims: Int32, idx: seq<Int32>, vals: seq<Float32>)
    requires |idx| == |vals| <= IntMax
    requires 0 <= offset && offset + 12 + 8 * |idx| <= |value|
    requires value[offset..offset + 12 + 8 * |idx|] == SparseBytes(dims, idx, vals)
    ensures Readable(value, offset)
    ensures Decode(prior, value, offset) == (Sparse(dims, Some(idx), Some(vals)), Pass)
  {
    var n := |idx|;
    var w := value[offset..offset + 12 + 8 * n];
    var head := Int4Bytes(dims) + Int4Bytes(n) + Int4Bytes(0);
    assert w == head + (Int4s(idx) + Float4s(vals));
    assert value[offset..offset + 12] == head by {
      assert w[..12] == head;
    }
    ReadHeader(value, offset, dims, n);
    assert value[offset + 12..offset + 12 + 8 * n] == Int4s(idx) + Float4s(vals) by {
      assert w[12..] == Int4s(idx) + Float4s(vals);
    }
    ReadRuns(value, offset + 12, idx, vals);
  }

  lemma SliceOfSlice(s: seq<Byte>, a: int, b: int, i: int, j: int)
    requires 0 <= a <= b <= |s| && 0 <= i <= j <= b - a
    ensures s[a..b][i..j] == s[a + i..a + j]
  {
    assert forall k :: 0 <= k < j - i ==> s[a..b][i..j][k] == s[a + i + k];
  }

  lemma ReadHeader(value: seq<Byte>, offset: int, dims: Int32, n: Int32)
    requires 0 <= offset && offset + 12 <= |value|
    requires value[offset..offset + 12] == Int4Bytes(dims) + Int4Bytes(n) + Int4Bytes(0)
    ensures Int4(value, offset) == dims && Int4(value, offset + 4) == n && Int4(value, offset + 8) == 0
  {
    SliceOfSlice(value, offset, offset + 12, 0, 4);
    SliceOfSlice(value, offset, offset + 12, 4, 8);
    SliceOfSlice(value, offset, offset + 12, 8, 12);
    Int4Read(value, offset, dims);
    Int4Read(value, offset + 4, n);
    Int4Read(value, offset + 8, 0);
  }

  lemma ReadRuns(value: seq<Byte>, idx0: int, idx: seq<Int32>, vals: seq<Float32>)
    requires |idx| == |vals|
    requires 0 <= idx0 && idx0 + 8 * |idx| <= |value|
    requires value[idx0..idx0 + 8 * |idx|] == Int4s(idx) + Float4s(vals)
    ensures ReadInt4s(value, idx0, |idx|) == idx
    ensures ReadFloat4s(value, idx0 + 4 * |idx|, |idx|) == vals
  {
    var m := 4 * |idx|;
    SliceOfSlice(value, idx0, idx0 + m + m, 0, m);
    SliceOfSlice(value, idx0, idx0 + m + m, m, m + m);
    ReadInt4sOf(value, idx0, idx);
    ReadFloat4sOf(value, idx0 + m, vals);
  }

  // ---------------------------------------------------------------------------
  // The values the unit tests use

  /** `new PGsparsevec(new float[] {1, 0, 2, 0, 3, 0})`: indices 0, 2, 4, values 1, 2, 3, and back. */
  lemma SixElements(v: seq<Float32>)
    requires v == [0x3F80_0000, 0, 0x4000_0000, 0, 0x4040_0000, 0]
    ensures FromDense(v) == Sparse(6, Some([0, 2, 4]), Some([0x3F80_0000, 0x4000_0000, 0x4040_0000]))
    ensures ToDense(FromDense(v)) == Ok(Some(v))
  {
    SixIndices(v);
    NonzeroValuesSpec(v);
    var w := NonzeroValues(v);
    assert |w| == 3 && w[0] == v[0] && w[1] == v[2] && w[2] == v[4];
    assert w == [0x3F80_0000, 0x4000_0000, 0x4040_0000];
    ToDenseFromDense(v);
    assert Normalized(v) == v;
  }

  lemma SixIndices(v: seq<Float32>)
    requires v == [0x3F80_0000, 0, 0x4000_0000, 0, 0x4040_0000, 0]
    ensures NonzeroIndices(v) == [0, 2, 4]
  {
    var r := NonzeroIndices(v);
    NonzeroIndicesSpec(v);
    forall x
      ensures x in r <==> x in [0, 2, 4]
    {
      if x in r {
        var j :| 0 <= j < |r| && r[j] == x;
      }
    }
    IncreasingUnique(r, [0, 2, 4]);
  }

  /** Two increasing sequences with the same elements are the same sequence. */
  lemma {:induction false} IncreasingUnique(a: seq<int>, b: seq<int>)
    requires Increasing(a) && Increasing(b)
    requires forall x :: x in a <==> x in b
    ensures a == b
  {
    if a != [] {
      SharedElement(a, b);
    }
    if b != [] {
      SharedElement(b, a);
    }
    if a != [] && b != [] {
      HeadsMatch(a, b);
      forall x
        ensures x in a[1..] <==> x in b[1..]
      {
        if x in a[1..] {
          TailIn(a, b, x);
        }
        if x in b[1..] {
          TailIn(b, a, x);
        }
      }
      IncreasingUnique(a[1..], b[1..]);
      assert a == [a[0]] + a[1..] && b == [b[0]] + b[1..];
    }
  }

  /** Sequences with the same elements are empty together. */
  lemma SharedElement(a: seq<int>, b: seq<int>)
    requires a != []
    requires forall x :: x in a <==> x in b
    ensures b != []
  {
    var y := a[0];
    assert y in a;
    assert y in b;
  }

  /** Both start with their least element, which they share. */
  lemma HeadsMatch(a: seq<int>, b: seq<int>)
    requires Increasing(a) && Increasing(b) && a != [] && b != []
    requires forall x :: x in a <==> x in b
    ensures a[0] == b[0]
  {
    assert a[0] in a && b[0] in b;
    var k :| 0 <= k < |b| && b[k] == a[0];
    var m :| 0 <= m < |a| && a[m] == b[0];
  }

  /** An element after the first in one is after the first in the other. */
  lemma TailIn(a: seq<int>, b: seq<int>, x: int)
    requires Increasing(a) && Increasing(b) && a != [] && b != [] && a[0] == b[0]
    requires forall y :: y in a <==> y in b
    requires x in a[1..]
    ensures x in b[1..]
  {
    var k :| 1 <= k < |a| && a[k] == x;
    assert x in a;
    var m :| 0 <= m < |b| && b[m] == x;
    assert b[1..][m - 1] == x;
  }
}

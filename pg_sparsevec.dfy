/**
 * `PGsparsevec`: a sparse vector kept as a dimension count and two
 * parallel arrays, the 0-based indices of the stored elements and their
 * values. Every method is proved against the value-level definitions of
 * `SparseModel` and `SparseText`.
 */
module SparseVector {
  import opened Java
  import opened ByteConverter
  import opened FloatText
  import opened JavaString
  import opened SparseModel
  import opened SparseText

  class PGsparsevec {
    var dimensions: Int32
    var indices: array?<Int32>
    var values: array?<Float32>

    /** The object's fields as a value. */
    function State(): (r: Sparse)
      reads this, indices, values
      ensures r.indices.None? <==> indices == null
      ensures r.values.None? <==> values == null
    {
      Sparse(dimensions,
             if indices == null then None else Some(indices[..]),
             if values == null then None else Some(values[..]))
    }

    /** What every constructor establishes and every method keeps: one value per index. */
    predicate Valid()
      reads this, indices, values
    {
      WellFormed(State())
    }

    /** `new PGsparsevec()`: no elements, zero dimensions. */
    constructor ()
      ensures State() == Sparse(0, None, None)
    {
      dimensions := 0;
      indices := null;
      values := null;
    }

    /** `new PGsparsevec(float[] v)`: the nonzero elements of `v`, in order. */
    constructor FromArray(v: array<Float32>)
      requires v.Length <= IntMax
      ensures fresh(indices) && fresh(values)
      ensures State() == FromDense(v[..])
      ensures Valid()
    {
      var n := CountNonzeros(v[..]);
      dimensions := v.Length;
      var ia, va := FillNonzeros(v[..], n);
      indices := ia;
      values := va;
    }

    /**
     * `new PGsparsevec(float[] v)` for any `v`: reading the length of a
     * null array throws `NullPointerException`; otherwise the array
     * constructor.
     */
    static method FromArrayOrNull(v: array?<Float32>) returns (r: Result<PGsparsevec>)
      requires v != null ==> v.Length <= IntMax
      ensures v == null <==> r == Err(NullPointer)
      ensures r.Ok? ==> fresh(r.value) && fresh(r.value.indices) && fresh(r.value.values)
      ensures r.Ok? ==> v != null && r.value.State() == FromDense(v[..]) && r.value.Valid()
    {
      if v == null {
        r := Err(NullPointer);
      } else {
        var p := new PGsparsevec.FromArray(v);
        r := Ok(p);
      }
    }

    /**
     * `new PGsparsevec(List<T> v)`, each element already converted with
     * `floatValue()`: a null list leaves no elements; otherwise as the
     * array constructor.
     */
    constructor FromList(v: Option<seq<Float32>>)
      requires v.Some? ==> |v.value| <= IntMax
      ensures v.None? ==> State() == Sparse(0, None, None)
      ensures v.Some? ==> fresh(indices) && fresh(values) && State() == FromDense(v.value)
      ensures Valid()
    {
      dimensions := 0;
      if v.None? {
        indices := null;
        values := null;
      } else {
        var n := CountNonzeros(v.value);
        dimensions := |v.value|;
        var ia, va := FillNonzeros(v.value, n);
        indices := ia;
        values := va;
      }
    }

    /**
     * `new PGsparsevec(Map<Integer, T> map, int dimensions)`: the entries
     * with a nonzero value, sorted by key; a null map gives none.
     */
    constructor FromMap(es: Option<seq<(Int32, Float32)>>, dims: Int32)
      requires es.Some? ==> DistinctKeys(es.value)
      ensures fresh(indices) && fresh(values)
      ensures State() == SparseModel.FromMap(es, dims)
      ensures Valid()
    {
      var elements := if es.None? then [] else MapEntries(es.value);
      var ia, va := EntryArrays(elements);
      indices := ia;
      values := va;
      dimensions := dims;
    }

    /** `new PGsparsevec(String s)`: a fresh object given the text, or the exception. */
    static method FromText(s: Option<string>, ft: FloatText) returns (r: Result<PGsparsevec>)
      ensures r.Ok? ==> fresh(r.value) && SetText(Sparse(0, None, None), s, ft) == (r.value.State(), Pass)
      ensures r.Err? ==> SetText(Sparse(0, None, None), s, ft).1 == Fail(r.error)
    {
      var p := new PGsparsevec();
      var out := p.SetValue(s, ft);
      if out.Pass? {
        r := Ok(p);
      } else {
        r := Err(out.error);
      }
    }

    /** `setValue(s)`: the fields end as `SetText` says. */
    method SetValue(s: Option<string>, ft: FloatText) returns (out: Outcome)
      modifies this
      ensures (State(), out) == SetText(old(State()), s, ft)
      ensures indices != old(indices) ==> indices == null || fresh(indices)
      ensures values != old(values) ==> fresh(values)
    {
      if s.None? {
        indices := null;
        return Pass;
      }
      var sp := SplitOnce(s.value, '/');
      var inner := Inner(sp[0]);
      if inner.Err? {
        return Fail(inner.error);
      }
      var elements := Split(inner.value, ',');
      if |sp| < 2 {
        return Fail(IndexOutOfBounds);
      }
      var dims := ParseInt(sp[1]);
      if dims.Err? {
        return Fail(dims.error);
      }
      dimensions := dims.value;
      var ia, va;
      ia, va, out := FillEntries(elements, ft);
      indices := ia;
      values := va;
    }

    /** `getValue()`: the text, built element by element. */
    method GetValue(ft: FloatText) returns (r: Result<Option<string>>)
      requires Valid()
      ensures r == Text(State(), ft)
    {
      if indices == null {
        return Ok(None);
      }
      if Wrap32(13 + 27 * indices.Length) < 0 {
        return Err(NegativeArraySize);
      }
      var body := JoinEntries(indices[..], values[..], ft);
      var sb := "{" + body + "}/" + IntToString(dimensions);
      return Ok(Some(sb));
    }

    /**
     * `lengthInBytes()`: 0 without elements, else 12 plus four bytes per
     * index and per value, in `int` arithmetic.
     */
    function LengthInBytes(): (r: Int32)
      requires Valid()
      reads this, indices, values
      ensures indices == null ==> r == 0
      ensures indices != null && 12 + 8 * indices.Length <= IntMax ==>
                r == |SparseBytes(dimensions, indices[..], values[..])|
    {
      if indices == null then 0 else Wrap32(12 + indices.Length * 4 + values.Length * 4)
    }

    /** `setByteValue(value, offset)`: the fields end as `Decode` says. */
    method SetByteValue(value: array<Byte>, offset: Int32) returns (out: Outcome)
      requires Readable(value[..], offset)
      modifies this
      ensures (State(), out) == Decode(old(State()), value[..], offset)
      ensures indices != old(indices) ==> fresh(indices)
      ensures values != old(values) ==> fresh(values)
    {
      var vs := value[..];
      dimensions := Int4(vs, offset);
      var nnz: int := Int4(vs, offset + 4);
      var unused := Int4(vs, offset + 8);
      if unused != 0 {
        return Fail(UnexpectedUnused);
      }
      if nnz < 0 {
        return Fail(NegativeArraySize);
      }
      var ia := ReadInt4Array(vs, offset + 12, nnz);
      indices := ia;
      var va := ReadFloat4Array(vs, offset + 12 + nnz * 4, nnz);
      values := va;
      return Pass;
    }

    /** `toBytes(bytes, offset)`: nothing without elements; else `SparseBytes` at `offset`. */
    method ToBytes(bytes: array<Byte>, offset: Int32)
      requires Valid()
      requires indices != null ==> 0 <= offset && offset + 12 + 8 * indices.Length <= bytes.Length
      modifies bytes
      ensures indices == null ==> bytes[..] == old(bytes[..])
      ensures indices != null ==> bytes[..] == Splice(old(bytes[..]), offset, SparseBytes(dimensions, indices[..], values[..]))
    {
      if indices == null {
        return;
      }
      ghost var idx, vals := indices[..], values[..];
      ghost var head := Int4Bytes(dimensions) + Int4Bytes(|idx|) + Int4Bytes(0);
      WriteInt4(bytes, offset, dimensions);
      WriteInt4(bytes, offset + 4, indices.Length);
      SpliceAppend(old(bytes[..]), offset, Int4Bytes(dimensions), Int4Bytes(|idx|));
      WriteInt4(bytes, offset + 8, 0);
      SpliceAppend(old(bytes[..]), offset, Int4Bytes(dimensions) + Int4Bytes(|idx|), Int4Bytes(0));
      WriteIndices(bytes, offset, old(bytes[..]), head, indices);
      ghost var prefix := head + Int4s(idx);
      WriteValues(bytes, offset, offset + 12 + indices.Length * 4, old(bytes[..]), prefix, values);
      assert prefix + Float4s(vals) == SparseBytes(dimensions, idx, vals);
    }

    /** `toArray()`: the dense array, or the exception `ToDense` names. */
    method ToArray() returns (r: Result<Option<seq<Float32>>>)
      requires Valid()
      ensures r == ToDense(State())
    {
      if indices == null {
        return Ok(None);
      }
      if dimensions < 0 {
        return Err(NegativeArraySize);
      }
      var vec := new Float32[dimensions](_ => PositiveZero);
      ghost var base := vec[..];
      assert base == Zeros(dimensions, PositiveZero);
      var i := 0;
      while i < indices.Length
        invariant 0 <= i <= indices.Length
        invariant Scatter(base, indices[..i], values[..i]) == Ok(vec[..])
      {
        ScatterStep(base, indices[..], values[..], i);
        if !(0 <= indices[i] < vec.Length) {
          return Err(IndexOutOfBounds);
        }
        vec[indices[i]] := values[i];
        i := i + 1;
      }
      assert indices[..i] == indices[..] && values[..i] == values[..];
      return Ok(Some(vec[..]));
    }

    /** `getDimensions()`. */
    method GetDimensions() returns (r: Int32)
      ensures r == State().dimensions
    {
      return dimensions;
    }

    /** `getIndices()`: the object's own array, not a copy. */
    method GetIndices() returns (r: array?<Int32>)
      ensures r == indices
    {
      return indices;
    }

    /** `getValues()`: the object's own array, not a copy. */
    method GetValues() returns (r: array?<Float32>)
      ensures r == values
    {
      return values;
    }
  }

  /** The loop of the map constructor: each sorted entry's key and value. */
  method EntryArrays(elements: seq<(Int32, Float32)>) returns (ia: array<Int32>, va: array<Float32>)
    ensures fresh(ia) && fresh(va)
    ensures ia[..] == Keys(elements) && va[..] == Values(elements)
  {
    ia := new Int32[|elements|];
    va := new Float32[|elements|];
    var i := 0;
    while i < |elements|
      invariant 0 <= i <= |elements|
      invariant forall j :: 0 <= j < i ==> ia[j] == elements[j].0
      invariant forall j :: 0 <= j < i ==> va[j] == elements[j].1
    {
      var e := elements[i];
      ia[i] := e.0;
      va[i] := e.1;
      i := i + 1;
    }
  }

  /** The element loop of `getValue`: the element texts with a comma before all but the first. */
  method JoinEntries(idx: seq<Int32>, vals: seq<Float32>, ft: FloatText) returns (body: string)
    requires |idx| == |vals|
    ensures body == Join(",", EntryTexts(idx, vals, ft))
  {
    body := "";
    var i := 0;
    while i < |idx|
      invariant 0 <= i <= |idx|
      invariant body == Join(",", EntryTexts(idx[..i], vals[..i], ft))
    {
      FormatStep(idx, vals, i, ft);
      if i > 0 {
        body := body + ",";
      }
      body := body + EntryText(idx[i], vals[i], ft);
      i := i + 1;
    }
    assert idx[..i] == idx && vals[..i] == vals;
  }

  /** The index loop of `setByteValue`: `n` four-byte integers from `idx` on. */
  method ReadInt4Array(vs: seq<Byte>, idx: int, n: int) returns (a: array<Int32>)
    requires 0 <= idx && 0 <= n && idx + 4 * n <= |vs|
    ensures fresh(a) && a[..] == ReadInt4s(vs, idx, n)
  {
    a := new Int32[n];
    var i := 0;
    while i < n
      invariant 0 <= i <= n
      invariant forall j :: 0 <= j < i ==> a[j] == Int4(vs, idx + 4 * j)
    {
      a[i] := Int4(vs, idx + i * 4);
      i := i + 1;
    }
  }

  /** The value loop of `setByteValue`: `n` four-byte floats from `idx` on. */
  method ReadFloat4Array(vs: seq<Byte>, idx: int, n: int) returns (a: array<Float32>)
    requires 0 <= idx && 0 <= n && idx + 4 * n <= |vs|
    ensures fresh(a) && a[..] == ReadFloat4s(vs, idx, n)
  {
    a := new Float32[n];
    var i := 0;
    while i < n
      invariant 0 <= i <= n
      invariant forall j :: 0 <= j < i ==> a[j] == Float4(vs, idx + 4 * j)
    {
      a[i] := Float4(vs, idx + i * 4);
      i := i + 1;
    }
  }

  /** The first loop of the array and list constructors: `nnz`. */
  method CountNonzeros(v: seq<Float32>) returns (n: nat)
    ensures n == |NonzeroIndices(v)|
  {
    n := 0;
    var i := 0;
    while i < |v|
      invariant 0 <= i <= |v|
      invariant n == |NonzeroIndices(v[..i])|
    {
      assert v[..i + 1][..i] == v[..i];
      if !IsZero(v[i]) {
        n := n + 1;
      }
      i := i + 1;
    }
    assert v[..i] == v;
  }

  /** The second loop of the array and list constructors: each nonzero element and its position. */
  method FillNonzeros(v: seq<Float32>, n: nat) returns (ia: array<Int32>, va: array<Float32>)
    requires |v| <= IntMax && n == |NonzeroIndices(v)|
    ensures fresh(ia) && fresh(va)
    ensures ia[..] == NonzeroIndices(v) && va[..] == NonzeroValues(v)
  {
    ia := new Int32[n];
    va := new Float32[n];
    var j := 0;
    var i := 0;
    while i < |v|
      invariant 0 <= i <= |v|
      invariant j == |NonzeroIndices(v[..i])| <= ia.Length
      invariant forall k :: 0 <= k < j ==> ia[k] == NonzeroIndices(v[..i])[k] && va[k] == NonzeroValues(v[..i])[k]
    {
      NonzeroStep(v, i);
      if !IsZero(v[i]) {
        ia[j] := i;
        va[j] := v[i];
        j := j + 1;
      }
      i := i + 1;
    }
    assert v[..i] == v;
    assert ia[..] == NonzeroIndices(v);
    assert va[..] == NonzeroValues(v);
  }

  /** The nonzero positions and values of one more element. */
  lemma NonzeroStep(v: seq<Float32>, i: int)
    requires 0 <= i < |v|
    ensures NonzeroIndices(v[..i + 1]) == NonzeroIndices(v[..i]) + (if IsZero(v[i]) then [] else [i])
    ensures NonzeroValues(v[..i + 1]) == NonzeroValues(v[..i]) + (if IsZero(v[i]) then [] else [v[i]])
    ensures |NonzeroIndices(v[..i + 1])| <= |NonzeroIndices(v)|
  {
    assert v[..i + 1][..i] == v[..i];
    NonzeroCountGrows(v, i + 1);
  }

  lemma {:induction false} NonzeroCountGrows(v: seq<Float32>, i: int)
    requires 0 <= i <= |v|
    ensures |NonzeroIndices(v[..i])| <= |NonzeroIndices(v)|
    decreases |v| - i
  {
    if i < |v| {
      NonzeroCountGrows(v, i + 1);
      assert v[..i + 1][..i] == v[..i];
    } else {
      assert v[..i] == v;
    }
  }

  /**
   * The element loop of `setValue`, over fresh arrays of zeros: each
   * element's index is stored before its value is parsed, and an exception
   * leaves both arrays as far as they were filled.
   */
  method FillEntries(els: seq<string>, ft: FloatText) returns (ia: array<Int32>, va: array<Float32>, out: Outcome)
    ensures fresh(ia) && fresh(va)
    ensures Filled(ia[..], va[..], out) == ParseEntries(els, ft)
  {
    ghost var es := EntriesOf(els, ft);
    ia, va, out := StoreEntries(els, ft, es);
    EntriesAre(es, els, ft);
  }

  /** The loop itself, against the elements as read one by one. */
  method StoreEntries(els: seq<string>, ft: FloatText, ghost es: seq<Entry>) returns (ia: array<Int32>, va: array<Float32>, out: Outcome)
    requires ReadAs(es, els, ft)
    ensures fresh(ia) && fresh(va)
    ensures Filled(ia[..], va[..], out) == Store(es)
  {
    ia := new Int32[|els|](_ => 0);
    va := new Float32[|els|](_ => 0);
    ghost var pi: seq<Int32> := [];
    ghost var pv: seq<Float32> := [];
    var i := 0;
    while i < |els|
      invariant 0 <= i <= |els| && |pi| == i && |pv| == i
      invariant ia[..] == pi + Zeros(|els| - i, 0)
      invariant va[..] == pv + Zeros(|els| - i, 0)
      invariant forall j :: 0 <= j < i ==> es[j] == Entry(Ok(pi[j]), Ok(pv[j]))
    {
      var k := ReadIndex(els, i, ft, es);
      if k.Err? {
        IndexStop(es, pi, pv, i);
        out := Fail(k.error);
        return;
      }
      ia[i] := k.value;
      ZerosPut(pi, k.value, |els| - i, 0);
      var f := ReadValue(els, i, ft, es);
      if f.Err? {
        ValueStop(es, pi, pv, i);
        out := Fail(f.error);
        return;
      }
      va[i] := f.value;
      ZerosPut(pv, f.value, |els| - i, 0);
      pi := pi + [k.value];
      pv := pv + [f.value];
      i := i + 1;
    }
    StoreAll(es, pi, pv);
    out := Pass;
  }

  /** Writing `x` over the first of the zeros after `p`. */
  lemma ZerosPut<T>(p: seq<T>, x: T, m: nat, zero: T)
    requires m >= 1
    ensures (p + Zeros(m, zero))[|p| := x] == (p + [x]) + Zeros(m - 1, zero)
  {
  }

  /**
   * `es` holds what each element reads as; the link to the text is used
   * only where an element is read.
   */
  ghost predicate ReadAs(es: seq<Entry>, els: seq<string>, ft: FloatText)
  {
    |es| == |els| && forall i {:trigger ParseEntry(els[i], ft)} :: 0 <= i < |els| ==> es[i] == ParseEntry(els[i], ft)
  }

  /** The elements read one by one. */
  lemma EntriesOf(els: seq<string>, ft: FloatText) returns (es: seq<Entry>)
    ensures ReadAs(es, els, ft)
  {
    es := ParseAll(els, ft);
  }

  lemma EntriesAre(es: seq<Entry>, els: seq<string>, ft: FloatText)
    requires ReadAs(es, els, ft)
    ensures es == ParseAll(els, ft)
  {
  }

  /** `Integer.parseInt(ep[0]) - 1` for element `i`. */
  method ReadIndex(els: seq<string>, i: int, ft: FloatText, ghost es: seq<Entry>) returns (k: Result<Int32>)
    requires 0 <= i < |els| && ReadAs(es, els, ft)
    ensures k == es[i].index
  {
    assert es[i] == ParseEntry(els[i], ft);
    k := EntryIndex(els[i]);
  }

  /** `Float.parseFloat(ep[1])` for element `i`, failing when it has no `:`. */
  method ReadValue(els: seq<string>, i: int, ft: FloatText, ghost es: seq<Entry>) returns (f: Result<Float32>)
    requires 0 <= i < |els| && ReadAs(es, els, ft)
    ensures f == es[i].value
  {
    assert es[i] == ParseEntry(els[i], ft);
    f := EntryValue(els[i], ft);
  }

  /** One more element of the text `getValue` builds. */
  lemma FormatStep(idx: seq<Int32>, vals: seq<Float32>, i: int, ft: FloatText)
    requires |idx| == |vals| && 0 <= i < |idx|
    ensures Join(",", EntryTexts(idx[..i + 1], vals[..i + 1], ft)) ==
      (if i == 0 then "" else Join(",", EntryTexts(idx[..i], vals[..i], ft)) + ",") + EntryText(idx[i], vals[i], ft)
  {
    var xs := EntryTexts(idx[..i + 1], vals[..i + 1], ft);
    assert xs[..i] == EntryTexts(idx[..i], vals[..i], ft);
  }

  /** One more index written after the header and the indices before it. */
  lemma Int4sStep(s: seq<Byte>, offset: int, head: seq<Byte>, idx: seq<Int32>, i: int)
    requires 0 <= i < |idx| && |head| == 12
    requires 0 <= offset && offset + 12 + 4 * |idx| <= |s|
    ensures Splice(Splice(s, offset, head + Int4s(idx[..i])), offset + 12 + i * 4, Int4Bytes(idx[i]))
            == Splice(s, offset, head + Int4s(idx[..i + 1]))
  {
    SpliceAppend(s, offset, head + Int4s(idx[..i]), Int4Bytes(idx[i]));
    Int4sPrefix(head, idx, i);
  }

  /** The loop of `toBytes` that writes each index after the 12-byte header. */
  method WriteIndices(bytes: array<Byte>, offset: int, ghost s: seq<Byte>, ghost head: seq<Byte>, indices: array<Int32>)
    requires |head| == 12 && 0 <= offset && offset + 12 + 4 * indices.Length <= |s| == bytes.Length
    requires bytes[..] == Splice(s, offset, head)
    modifies bytes
    ensures bytes[..] == Splice(s, offset, head + Int4s(indices[..]))
  {
    ghost var idx := indices[..];
    assert idx[..0] == [] && head + [] == head;
    var i := 0;
    while i < indices.Length
      invariant 0 <= i <= |idx| && indices[..] == idx
      invariant bytes[..] == Splice(s, offset, head + Int4s(idx[..i]))
    {
      WriteInt4(bytes, offset + 12 + i * 4, indices[i]);
      Int4sStep(s, offset, head, idx, i);
      i := i + 1;
    }
    assert idx[..i] == idx;
  }

  /** The loop of `toBytes` that writes each value after the header and the indices. */
  method WriteValues(bytes: array<Byte>, offset: int, at: int, ghost s: seq<Byte>, ghost prefix: seq<Byte>, values: array<Float32>)
    requires at == offset + |prefix|
    requires 0 <= offset && offset + |prefix| + 4 * values.Length <= |s| == bytes.Length
    requires bytes[..] == Splice(s, offset, prefix)
    modifies bytes
    ensures bytes[..] == Splice(s, offset, prefix + Float4s(values[..]))
  {
    ghost var vals := values[..];
    assert vals[..0] == [] && prefix + [] == prefix;
    var i := 0;
    while i < values.Length
      invariant 0 <= i <= |vals| && values[..] == vals
      invariant bytes[..] == Splice(s, offset, prefix + Float4s(vals[..i]))
    {
      WriteFloat4(bytes, at + i * 4, values[i]);
      Float4sStep(s, offset, prefix, vals, i);
      i := i + 1;
    }
    assert vals[..i] == vals;
  }

  /** One more value written after the header, the indices and the values before it. */
  lemma Float4sStep(s: seq<Byte>, offset: int, prefix: seq<Byte>, vals: seq<Float32>, i: int)
    requires 0 <= i < |vals| && 0 <= offset && offset + |prefix| + 4 * |vals| <= |s|
    ensures Splice(Splice(s, offset, prefix + Float4s(vals[..i])), offset + |prefix| + i * 4, Float4Bytes(vals[i]))
            == Splice(s, offset, prefix + Float4s(vals[..i + 1]))
  {
    SpliceAppend(s, offset, prefix + Float4s(vals[..i]), Float4Bytes(vals[i]));
    Float4sPrefix(prefix, vals, i);
  }

  /** One more step of `vec[indices[i]] = values[i]`. */
  lemma ScatterStep(base: seq<Float32>, idx: seq<Int32>, vals: seq<Float32>, i: int)
    requires |idx| == |vals| && 0 <= i < |idx|
    ensures var prev := Scatter(base, idx[..i], vals[..i]);
            prev.Ok? ==>
              Scatter(base, idx[..i + 1], vals[..i + 1]) ==
              if 0 <= idx[i] < |base| then Ok(prev.value[idx[i] := vals[i]]) else Err(IndexOutOfBounds)
    ensures Scatter(base, idx[..i + 1], vals[..i + 1]).Err? ==> Scatter(base, idx, vals).Err?
  {
    assert idx[..i + 1][..i] == idx[..i] && vals[..i + 1][..i] == vals[..i];
    if Scatter(base, idx[..i + 1], vals[..i + 1]).Err? {
      var j :| 0 <= j < i + 1 && !(0 <= idx[..i + 1][j] < |base|);
      assert idx[j] == idx[..i + 1][j];
    }
  }
}

/**
 * `PGhalfvec`: a vector of IEEE 754 binary16 values kept as their 16-bit
 * patterns in a `short[]` (possibly null). The text form is that of a dense
 * vector, through `Float.float16ToFloat` / `Float.floatToFloat16`; the
 * binary form is an int16 count, an int16 reserved field that must be 0,
 * and one int16 per element, at `offset` in both directions.
 */
module HalfVector {
  import opened Java
  import opened ByteConverter
  import opened JavaString
  import opened FloatText
  import opened VectorText

  // ---------------------------------------------------------------------------
  // Conversions

  /** `Float.floatToFloat16` of every element. */
  function ToHalves(v: seq<Float32>, hf: HalfFloat): (r: seq<Int16>)
    ensures |r| == |v| && forall i :: 0 <= i < |v| ==> r[i] == hf.toHalf(v[i])
  {
    seq(|v|, i requires 0 <= i < |v| => hf.toHalf(v[i]))
  }

  /** `Float.float16ToFloat` of every element. */
  function ToFloats(h: seq<Int16>, hf: HalfFloat): (r: seq<Float32>)
    ensures |r| == |h| && forall i :: 0 <= i < |h| ==> r[i] == hf.toFloat(h[i])
  {
    seq(|h|, i requires 0 <= i < |h| => hf.toFloat(h[i]))
  }

  /** `Float.floatToFloat16(Float.parseFloat(s))` as a field conversion. */
  function ParseHalf(ft: FloatText, hf: HalfFloat): (conv: string -> Option<Int16>)
    ensures forall t :: conv(t).Some? <==> ft.parse(t).Some?
    ensures forall t :: ft.parse(t).Some? ==> conv(t) == Some(hf.toHalf(ft.parse(t).value))
  {
    s => match ft.parse(s) case None => None case Some(f) => Some(hf.toHalf(f))
  }

  // ---------------------------------------------------------------------------
  // Binary form

  /** What `toBytes` writes at `offset`: count, reserved 0, one int16 per element. */
  function HalfBytes(v: seq<Int16>): (r: seq<Byte>)
    ensures |r| == 4 + 2 * |v|
  {
    Int2Bytes(|v|) + Int2Bytes(0) + Int2s(v)
  }

  /** The buffer holds what `setByteValue` reads at `offset`. */
  predicate Readable(value: seq<Byte>, offset: int)
  {
    && 0 <= offset && offset + 4 <= |value|
    && (Int2(value, offset + 2) == 0 ==> offset + 4 + 2 * Int2(value, offset) <= |value|)
  }

  /**
   * `setByteValue(value, offset)`: the new elements, or the exception —
   * `UnexpectedUnused` when the reserved field is not 0, `NegativeArraySize`
   * for a negative count.
   */
  function DecodeHalf(value: seq<Byte>, offset: int): (r: Result<seq<Int16>>)
    requires Readable(value, offset)
    ensures r.Ok? ==> |r.value| == Int2(value, offset)
    ensures Int2(value, offset + 2) != 0 ==> r == Err(UnexpectedUnused)
  {
    var dim := Int2(value, offset);
    var unused := Int2(value, offset + 2);
    if unused != 0 then Err(UnexpectedUnused)
    else if dim < 0 then Err(NegativeArraySize)
    else Ok(ReadInt2s(value, offset + 4, dim))
  }

  /** `setByteValue(toBytes(v))` restores `v` when it has fewer than 32768 elements. */
  lemma DecodeHalfBytes(value: seq<Byte>, offset: int, v: seq<Int16>)
    requires 0 <= offset && offset + 4 + 2 * |v| <= |value|
    requires value[offset..offset + 4 + 2 * |v|] == HalfBytes(v)
    requires |v| < 0x8000
    ensures Readable(value, offset)
    ensures DecodeHalf(value, offset) == Ok(v)
  {
    var b := HalfBytes(v);
    assert b[0..2] == Int2Bytes(|v|) && b[2..4] == Int2Bytes(0) && b[4..|b|] == Int2s(v);
    Subwindow(value, offset, b, 0, 2);
    Subwindow(value, offset, b, 2, 4);
    Subwindow(value, offset, b, 4, |b|);
    Int2Read(value, offset, |v|);
    Int2Read(value, offset + 2, 0);
    ReadInt2sOf(value, offset + 4, v);
  }

  // ---------------------------------------------------------------------------
  // Text form

  /** `setValue(s)`: the contents of `vec` afterwards, and how it ends. */
  function SetText(prior: Option<seq<Int16>>, s: Option<string>, ft: FloatText, hf: HalfFloat)
    : (r: (Option<seq<Int16>>, Outcome))
    ensures s.None? ==> r == (None, Pass)
    ensures s.Some? && |s.value| < 2 ==> r == (prior, Fail(IndexOutOfBounds))
    ensures s.Some? && |s.value| >= 2 ==> r.0.Some? && (r.1.Pass? || r.1 == Fail(NumberFormat))
  {
    match s
    case None => (None, Pass)
    case Some(text) =>
      match FieldsOf(text)
      case Err(e) => (prior, Fail(e))
      case Ok(fields) =>
        var (v, out) := ParseEach(fields, ParseHalf(ft, hf), 0);
        (Some(v), out)
  }

  /** `getValue()`: null for a null vector, else the text of the widened floats. */
  function HalfText(h: Option<seq<Int16>>, ft: FloatText, hf: HalfFloat): (r: Option<string>)
    ensures r.None? <==> h.None?
    ensures r.Some? ==> ' ' !in r.value
  {
    match h
    case None => None
    case Some(v) => Some(FormatFloats(ToFloats(v, hf), ft))
  }

  /**
   * `setValue(getValue())` restores a half vector of at least one element
   * when each element widens to a float whose text parses back and narrows
   * to the same 16 bits; and restores a null one.
   */
  lemma SetTextOfHalfText(prior: Option<seq<Int16>>, h: Option<seq<Int16>>, ft: FloatText, hf: HalfFloat)
    requires Plain(ft)
    requires h.Some? ==> |h.value| >= 1 && forall i :: 0 <= i < |h.value| ==>
      RoundTrips(ft, hf.toFloat(h.value[i])) && hf.toHalf(hf.toFloat(h.value[i])) == h.value[i]
    ensures SetText(prior, HalfText(h, ft, hf), ft, hf) == (h, Pass)
  {
    if h.Some? {
      var v := h.value;
      var fv := ToFloats(v, hf);
      var texts := Texts(fv, ft);
      FormatFloatsShape(fv, ft);
      assert Inner(FormatFloats(fv, ft)) == Ok(Join(",", texts));
      SplitJoin(texts, ',');
      ParseEachAll(texts, ParseHalf(ft, hf), 0, v);
    }
  }

  // ---------------------------------------------------------------------------
  // The class

  class PGhalfvec {
    var vec: array?<Int16>

    /** The vector's value: null, or the 16-bit patterns in `vec`. */
    function Contents(): (r: Option<seq<Int16>>)
      reads this, vec
      ensures r.None? <==> vec == null
    {
      if vec == null then None else Some(vec[..])
    }

    /** `new PGhalfvec()`: the null vector. */
    constructor ()
      ensures vec == null
    {
      vec := null;
    }

    /** `new PGhalfvec(float[] v)`: each float narrowed to half precision, or null. */
    constructor FromFloats(v: array?<Float32>, hf: HalfFloat)
      ensures v == null ==> vec == null
      ensures v != null ==> fresh(vec) && Contents() == Some(ToHalves(v[..], hf))
    {
      if v == null {
        vec := null;
      } else {
        var a := new Int16[v.Length](_ => 0);
        var i := 0;
        while i < v.Length
          invariant 0 <= i <= v.Length
          invariant forall j :: 0 <= j < i ==> a[j] == hf.toHalf(v[j])
        {
          a[i] := hf.toHalf(v[i]);
          i := i + 1;
        }
        assert a[..] == ToHalves(v[..], hf);
        vec := a;
      }
    }

    /** `new PGhalfvec(List<T> v)`, with the list given by its elements' `floatValue()`. */
    constructor FromList(v: Option<seq<Float32>>, hf: HalfFloat)
      ensures v.None? ==> vec == null
      ensures v.Some? ==> fresh(vec) && Contents() == Some(ToHalves(v.value, hf))
    {
      if v.None? {
        vec := null;
      } else {
        var list := v.value;
        var a := new Int16[|list|](_ => 0);
        var i := 0;
        while i < |list|
          invariant 0 <= i <= |list|
          invariant forall j :: 0 <= j < i ==> a[j] == hf.toHalf(list[j])
        {
          a[i] := hf.toHalf(list[i]);
          i := i + 1;
        }
        assert a[..] == ToHalves(list, hf);
        vec := a;
      }
    }

    /** `new PGhalfvec(String s)`: a fresh object given the text, or the exception. */
    static method FromText(s: Option<string>, ft: FloatText, hf: HalfFloat) returns (r: Result<PGhalfvec>)
      ensures r.Ok? ==> fresh(r.value) && SetText(None, s, ft, hf) == (r.value.Contents(), Pass)
      ensures r.Err? ==> SetText(None, s, ft, hf).1 == Fail(r.error)
    {
      var p := new PGhalfvec();
      var out := p.SetValue(s, ft, hf);
      if out.Pass? {
        r := Ok(p);
      } else {
        r := Err(out.error);
      }
    }

    /** `setValue(s)`: `vec` ends as `SetText` says. */
    method SetValue(s: Option<string>, ft: FloatText, hf: HalfFloat) returns (out: Outcome)
      modifies this
      ensures (Contents(), out) == SetText(old(Contents()), s, ft, hf)
      ensures s.Some? && vec != old(vec) ==> fresh(vec)
    {
      if s.None? {
        vec := null;
        return Pass;
      }
      var fields := FieldsOf(s.value);
      if fields.Err? {
        return Fail(fields.error);
      }
      var sp := fields.value;
      vec := new Int16[|sp|](_ => 0);
      out := FillParsed(vec, sp, ParseHalf(ft, hf), 0);
    }

    /** `getValue()`: widens every element into a new `float[]` and formats that. */
    method GetValue(ft: FloatText, hf: HalfFloat) returns (r: Option<string>)
      ensures r == HalfText(Contents(), ft, hf)
      ensures r.None? <==> vec == null
    {
      if vec == null {
        return None;
      }
      var fvec := ToArray(hf);
      return Some(FormatFloats(fvec.value, ft));
    }

    /** `lengthInBytes()`: 0 when null, else 4 bytes of header and 2 per element, in `int`. */
    function LengthInBytes(): (r: Int32)
      reads this, vec
      ensures vec == null ==> r == 0
      ensures vec != null && 4 + 2 * vec.Length <= IntMax ==> r == |HalfBytes(vec[..])|
    {
      if vec == null then 0 else Wrap32(4 + vec.Length * 2)
    }

    /**
     * `setByteValue(value, offset)`: on success `vec` is a new array of the
     * decoded elements; on an exception `vec` is unchanged.
     */
    method SetByteValue(value: array<Byte>, offset: Int32) returns (out: Outcome)
      requires Readable(value[..], offset)
      modifies this
      ensures match DecodeHalf(value[..], offset)
              case Ok(v) => out == Pass && fresh(vec) && Contents() == Some(v)
              case Err(e) => out == Fail(e) && vec == old(vec)
    {
      var dim := Int2(value[..], offset);
      var unused := Int2(value[..], offset + 2);
      if unused != 0 {
        return Fail(UnexpectedUnused);
      }
      if dim < 0 {
        return Fail(NegativeArraySize);
      }
      var a := new Int16[dim](_ => 0);
      var i := 0;
      while i < dim
        invariant 0 <= i <= dim
        invariant forall j :: 0 <= j < i ==> a[j] == Int2(value[..], offset + 4 + 2 * j)
      {
        a[i] := Int2(value[..], offset + 4 + i * 2);
        i := i + 1;
      }
      assert a[..] == ReadInt2s(value[..], offset + 4, dim);
      vec := a;
      return Pass;
    }

    /** `toBytes(bytes, offset)`: nothing when null; otherwise `HalfBytes` at `offset`. */
    method ToBytes(bytes: array<Byte>, offset: Int32)
      requires vec != null ==> 0 <= offset && offset + 4 + 2 * vec.Length <= bytes.Length
      modifies bytes
      ensures vec == null ==> bytes[..] == old(bytes[..])
      ensures vec != null ==> bytes[..] == Splice(old(bytes[..]), offset, HalfBytes(vec[..]))
    {
      if vec == null {
        return;
      }
      WriteInt2(bytes, offset, vec.Length);
      WriteInt2(bytes, offset + 2, 0);
      SpliceAppend(old(bytes[..]), offset, Int2Bytes(vec.Length), Int2Bytes(0));
      WriteHalves(bytes, offset, old(bytes[..]), vec);
    }

    /**
     * `toArray()`: a new `float[]` of the widened elements; a null `vec`
     * throws `NullPointerException`, there being no null check.
     */
    method ToArray(hf: HalfFloat) returns (r: Result<seq<Float32>>)
      ensures vec == null ==> r == Err(NullPointer)
      ensures vec != null ==> r == Ok(ToFloats(vec[..], hf))
    {
      if vec == null {
        return Err(NullPointer);
      }
      var v := new Float32[vec.Length](_ => PositiveZero);
      var i := 0;
      while i < vec.Length
        invariant 0 <= i <= vec.Length
        invariant forall j :: 0 <= j < i ==> v[j] == hf.toFloat(vec[j])
      {
        v[i] := hf.toFloat(vec[i]);
        i := i + 1;
      }
      assert v[..] == ToFloats(vec[..], hf);
      return Ok(v[..]);
    }
  }

  /** The loop of `toBytes` that writes each element after the 4-byte header. */
  method WriteHalves(bytes: array<Byte>, offset: int, ghost s: seq<Byte>, vec: array<Int16>)
    requires 0 <= offset && offset + 4 + 2 * vec.Length <= |s| == bytes.Length
    requires bytes[..] == Splice(s, offset, Int2Bytes(vec.Length) + Int2Bytes(0))
    modifies bytes
    ensures bytes[..] == Splice(s, offset, HalfBytes(vec[..]))
  {
    ghost var v := vec[..];
    ghost var head := Int2Bytes(vec.Length) + Int2Bytes(0);
    assert v[..0] == [] && Int2s([]) == [] && head + [] == head;
    var i := 0;
    while i < vec.Length
      invariant vec[..] == v
      invariant 0 <= i <= |v|
      invariant bytes[..] == Splice(s, offset, head + Int2s(v[..i]))
    {
      WriteInt2(bytes, offset + 4 + i * 2, vec[i]);
      HalfBytesStep(s, offset, v, i);
      i := i + 1;
    }
    assert v[..i] == v;
  }

  /** One more element written after the ones before it extends the written prefix of `HalfBytes`. */
  lemma HalfBytesStep(s: seq<Byte>, offset: int, v: seq<Int16>, i: int)
    requires 0 <= i < |v| && 0 <= offset && offset + 4 + 2 * |v| <= |s|
    ensures var head := Int2Bytes(|v|) + Int2Bytes(0);
            Splice(Splice(s, offset, head + Int2s(v[..i])), offset + 4 + 2 * i, Int2Bytes(v[i]))
            == Splice(s, offset, head + Int2s(v[..i + 1]))
  {
    var head := Int2Bytes(|v|) + Int2Bytes(0);
    SpliceAppend(s, offset, head + Int2s(v[..i]), Int2Bytes(v[i]));
    Int2sPrefix(head, v, i);
  }
}

/**
 * `PGvector`: a dense `float[]` (possibly null) with the text form
 * `[a,b,c]` and the binary form of the server's `vector_send`: an int16
 * count, an int16 reserved field, then one float4 per element.
 *
 * The binary reader and writer handle `offset` in their own way: `toBytes`
 * always writes from byte 0, and `setByteValue` takes the count from bytes
 * 0-1 and uses `offset` as a position in `vec`, not in the buffer.
 */
module DenseVector {
  import opened Java
  import opened ByteConverter
  import opened JavaString
  import opened FloatText
  import opened VectorText

  // ---------------------------------------------------------------------------
  // Binary form

  /** What `toBytes` writes, from buffer position 0: count, reserved, floats. */
  function DenseBytes(v: seq<Float32>): (r: seq<Byte>)
    ensures |r| == 4 + 4 * |v|
  {
    Int2Bytes(|v|) + Int2Bytes(0) + Float4s(v)
  }

  /** The buffer holds the count and the floats `setByteValue` reads. */
  predicate Readable(value: seq<Byte>)
  {
    |value| >= 2 && 4 + 4 * Int2(value, 0) <= |value|
  }

  /** The floats `setByteValue` reads: `float4` at `4 + 4i` for each `i` below the count. */
  function Incoming(value: seq<Byte>): (r: seq<Float32>)
    requires Readable(value)
    ensures |r| == if Int2(value, 0) < 0 then 0 else Int2(value, 0)
  {
    var n := Int2(value, 0);
    if n <= 0 then [] else ReadFloat4s(value, 4, n)
  }

  /**
   * The array `setByteValue` writes into, given the old contents of `vec`:
   * a new array of `count` zeros when `vec` is null (which throws for a
   * negative count), else the old array, extended to `count` elements at
   * offset 0 or to `offset + count` elements (computed in `int`) otherwise.
   */
  function Target(prior: Option<seq<Float32>>, offset: Int32, count: Int16): (r: Result<seq<Float32>>)
    ensures r.Err? <==> prior.None? && count < 0
    ensures r.Err? ==> r.error == NegativeArraySize
    ensures r.Ok? && prior.Some? ==> |r.value| >= |prior.value| && r.value[..|prior.value|] == prior.value
  {
    match prior
    case None => if count < 0 then Err(NegativeArraySize) else Ok(Zeros(count, PositiveZero))
    case Some(a) =>
      var wanted := if offset == 0 then count else Wrap32(offset + count);
      if |a| < wanted then Ok(Resized(a, wanted, PositiveZero)) else Ok(a)
  }

  /**
   * The loop `vec[offset++] = f` over `fs`: each float goes to the next
   * position, and the first position outside the array throws, leaving the
   * earlier stores in place.
   */
  function Store(a: seq<Float32>, offset: int, fs: seq<Float32>): (r: (seq<Float32>, Outcome))
    ensures |r.0| == |a|
    ensures r.1.Pass? || r.1 == Fail(IndexOutOfBounds)
    decreases |fs|
  {
    if fs == [] then (a, Pass)
    else if !(0 <= offset < |a|) then (a, Fail(IndexOutOfBounds))
    else Store(a[offset := fs[0]], offset + 1, fs[1..])
  }

  /** `setByteValue(value, offset)`: the contents of `vec` afterwards, and how it ends. */
  function SetBytes(prior: Option<seq<Float32>>, value: seq<Byte>, offset: Int32): (r: (Option<seq<Float32>>, Outcome))
    requires Readable(value)
    ensures r.1 == Fail(NegativeArraySize) <==> prior.None? && Int2(value, 0) < 0
    ensures r.1.Pass? || r.1 == Fail(NegativeArraySize) || r.1 == Fail(IndexOutOfBounds)
    ensures prior.Some? ==> r.0.Some? && |r.0.value| >= |prior.value|
  {
    match Target(prior, offset, Int2(value, 0))
    case Err(e) => (prior, Fail(e))
    case Ok(a) =>
      var (b, out) := Store(a, offset, Incoming(value));
      (Some(b), out)
  }

  /** Stores that all land inside the array overwrite exactly their positions. */
  lemma {:induction false} StoreInside(a: seq<Float32>, offset: int, fs: seq<Float32>)
    requires 0 <= offset && offset + |fs| <= |a|
    ensures Store(a, offset, fs) == (a[..offset] + fs + a[offset + |fs|..], Pass)
    decreases |fs|
  {
    if fs != [] {
      var a' := a[offset := fs[0]];
      assert Store(a, offset, fs) == Store(a', offset + 1, fs[1..]);
      StoreInside(a', offset + 1, fs[1..]);
      assert a'[..offset + 1] == a[..offset] + [fs[0]];
      assert a'[offset + |fs|..] == a[offset + |fs|..];
      assert fs == [fs[0]] + fs[1..];
      assert a'[..offset + 1] + fs[1..] + a'[offset + |fs|..] == a[..offset] + fs + a[offset + |fs|..];
    } else {
      assert a[..offset] + fs + a[offset..] == a;
    }
  }

  /** Stores that run past the end fill the rest of the array and then throw. */
  lemma {:induction false} StorePastEnd(a: seq<Float32>, offset: int, fs: seq<Float32>)
    requires 0 <= offset <= |a| < offset + |fs|
    ensures Store(a, offset, fs) == (a[..offset] + fs[..|a| - offset], Fail(IndexOutOfBounds))
    decreases |fs|
  {
    if offset < |a| {
      var a' := a[offset := fs[0]];
      assert Store(a, offset, fs) == Store(a', offset + 1, fs[1..]);
      StorePastEnd(a', offset + 1, fs[1..]);
      assert a'[..offset + 1] == a[..offset] + [fs[0]];
      assert fs[..|a| - offset] == [fs[0]] + fs[1..][..|a| - offset - 1];
      assert a'[..offset + 1] + fs[1..][..|a| - offset - 1] == a[..offset] + fs[..|a| - offset];
    } else {
      assert a[..offset] + fs[..|a| - offset] == a;
    }
  }

  /** The count and the floats read back from `DenseBytes(v)`. */
  lemma ReadDenseBytes(v: seq<Float32>)
    ensures Int2(DenseBytes(v), 0) == Wrap16(|v|)
    ensures Readable(DenseBytes(v))
    ensures Incoming(DenseBytes(v)) == v[..if Wrap16(|v|) < 0 then 0 else Wrap16(|v|)]
  {
    var s := DenseBytes(v);
    Int2RoundTrip(|v|);
    assert s[..2] == Int2Bytes(|v|);
    assert Int2(s, 0) == Int2(s[..2], 0);
    assert s[4..4 + 4 * |v|] == Float4s(v);
    ReadFloat4sOf(s, 4, v);
    var n := Int2(s, 0);
    var m := if n < 0 then 0 else n;
    assert Incoming(s) == ReadFloat4s(s, 4, |v|)[..m];
  }

  /**
   * Reading `toBytes` output into a fresh object restores the vector when
   * its length is below 32768; from 32768 on the signed count is negative
   * (or, from 65536 on, only the low 16 bits of the length survive).
   */
  lemma SetBytesOfDenseBytes(v: seq<Float32>)
    ensures Readable(DenseBytes(v))
    ensures SetBytes(None, DenseBytes(v), 0) ==
      if |v| % 0x1_0000 < 0x8000 then (Some(v[..|v| % 0x1_0000]), Pass) else (None, Fail(NegativeArraySize))
    ensures |v| < 0x8000 ==> SetBytes(None, DenseBytes(v), 0) == (Some(v), Pass)
  {
    ReadDenseBytes(v);
    var n := Wrap16(|v|);
    if n >= 0 {
      assert n == |v| % 0x1_0000;
      StoreInside(Zeros(n, PositiveZero), 0, v[..n]);
      assert Zeros(n, PositiveZero)[..0] + v[..n] + Zeros(n, PositiveZero)[n..] == v[..n];
    }
    if |v| < 0x8000 {
      assert v[..|v|] == v;
    }
  }

  /** `setByteValue` never looks at the reserved bytes 2 and 3. */
  lemma SetBytesIgnoresReserved(prior: Option<seq<Float32>>, value: seq<Byte>, offset: Int32, x: Byte, y: Byte)
    requires Readable(value) && |value| >= 4
    ensures Readable(value[2 := x][3 := y])
    ensures SetBytes(prior, value[2 := x][3 := y], offset) == SetBytes(prior, value, offset)
  {
    var w := value[2 := x][3 := y];
    assert Int2(w, 0) == Int2(value, 0);
    assert Incoming(w) == Incoming(value) by {
      forall i | 0 <= i < |Incoming(value)|
        ensures Float4(w, 4 + 4 * i) == Float4(value, 4 + 4 * i)
      {
      }
    }
  }

  /**
   * At offset 0 an existing array at least as long as the incoming count is
   * not shrunk: its first elements are replaced and the rest stay.
   */
  lemma SetBytesKeepsTail(a: seq<Float32>, value: seq<Byte>)
    requires Readable(value)
    requires 0 <= Int2(value, 0) <= |a|
    ensures SetBytes(Some(a), value, 0) == (Some(Incoming(value) + a[Int2(value, 0)..]), Pass)
  {
    var fs := Incoming(value);
    StoreInside(a, 0, fs);
    assert a[..0] + fs + a[|fs|..] == fs + a[|fs|..];
  }

  /**
   * At a positive offset the array grows to `offset + count` if needed and
   * the incoming floats land at `vec[offset..]`; the other elements are kept.
   */
  lemma SetBytesAtOffset(a: seq<Float32>, value: seq<Byte>, offset: Int32)
    requires Readable(value)
    requires offset > 0 && Int2(value, 0) >= 0 && offset + Int2(value, 0) <= IntMax
    ensures var n := Int2(value, 0);
            var len := if |a| < offset + n then offset + n else |a|;
            var padded := Resized(a, len, PositiveZero);
            SetBytes(Some(a), value, offset) == (Some(padded[..offset] + Incoming(value) + padded[offset + n..]), Pass)
  {
    var n := Int2(value, 0);
    var len := if |a| < offset + n then offset + n else |a|;
    assert Target(Some(a), offset, n) == Ok(Resized(a, len, PositiveZero));
    StoreInside(Resized(a, len, PositiveZero), offset, Incoming(value));
  }

  /**
   * On a null `vec`, a positive offset that is not below the count makes
   * the first store fail: `vec` is left as a fresh array of zeros.
   */
  lemma SetBytesNullAtOffset(value: seq<Byte>, offset: Int32)
    requires Readable(value)
    requires 0 < Int2(value, 0) <= offset
    ensures SetBytes(None, value, offset) == (Some(Zeros(Int2(value, 0), PositiveZero)), Fail(IndexOutOfBounds))
  {
  }

  /** One more float written after the ones before it extends the written prefix of `DenseBytes`. */
  lemma DenseBytesStep(s: seq<Byte>, v: seq<Float32>, i: int)
    requires 0 <= i < |v| && 4 + 4 * |v| <= |s|
    ensures var head := Int2Bytes(|v|) + Int2Bytes(0);
            Splice(Splice(s, 0, head + Float4s(v[..i])), 4 + 4 * i, Float4Bytes(v[i]))
            == Splice(s, 0, head + Float4s(v[..i + 1]))
  {
    var head := Int2Bytes(|v|) + Int2Bytes(0);
    SpliceAppend(s, 0, head + Float4s(v[..i]), Float4Bytes(v[i]));
    Float4sPrefix(head, v, i);
  }

  // ---------------------------------------------------------------------------
  // Text form

  /** `setValue(s)`: the contents of `vec` afterwards, and how it ends. */
  function SetText(prior: Option<seq<Float32>>, s: Option<string>, ft: FloatText): (r: (Option<seq<Float32>>, Outcome))
    ensures s.None? ==> r == (None, Pass)
    ensures s.Some? && |s.value| < 2 ==> r == (prior, Fail(IndexOutOfBounds))
    ensures s.Some? && |s.value| >= 2 ==> r.0.Some? && (r.1.Pass? || r.1 == Fail(NumberFormat))
  {
    match s
    case None => (None, Pass)
    case Some(text) =>
      match FieldsOf(text)
      case Err(e) => (prior, Fail(e))
      case Ok(fields) =>
        var (v, out) := ParseEach(fields, ft.parse, PositiveZero);
        (Some(v), out)
  }

  /**
   * `setValue(getValue())` restores a vector of at least one element whose
   * element texts parse back, and `setValue(null)` restores a null one.
   */
  lemma SetTextOfGetValue(prior: Option<seq<Float32>>, v: Option<seq<Float32>>, ft: FloatText)
    requires Plain(ft)
    requires v.Some? ==> |v.value| >= 1 && forall i :: 0 <= i < |v.value| ==> RoundTrips(ft, v.value[i])
    ensures SetText(prior, if v.None? then None else Some(FormatFloats(v.value, ft)), ft) == (v, Pass)
  {
    if v.Some? {
      ParseFormatFloats(v.value, ft);
      var s := FormatFloats(v.value, ft);
      FormatFloatsShape(v.value, ft);
      var fields := FieldsOf(s).value;
      ParseEachFails(fields, ft.parse, PositiveZero);
    }
  }

  // ---------------------------------------------------------------------------
  // equals

  /** The argument of `equals(Object)`, as far as `PGvector.equals` looks at it. */
  datatype JavaObject = Null | FloatArray(elements: seq<Float32>) | OtherObject

  /**
   * `equals(obj)`: true for two nulls; false for an argument that is not a
   * `float[]`; a `NullPointerException` for a `float[]` compared with a null
   * `vec`; otherwise the same length and every pair equal under Java's
   * float `==` (so NaN is unequal to itself and -0.0 equals 0.0).
   */
  function Equals(v: Option<seq<Float32>>, obj: JavaObject): (r: Result<bool>)
    ensures r.Err? <==> v.None? && obj.FloatArray?
    ensures r == Ok(true) ==> (v.None? && obj.Null?) || (v.Some? && obj.FloatArray? && |v.value| == |obj.elements|)
  {
    if obj.Null? && v.None? then Ok(true)
    else if !obj.FloatArray? then Ok(false)
    else if v.None? then Err(NullPointer)
    else Ok(|obj.elements| == |v.value| && forall i :: 0 <= i < |v.value| ==> FloatEquals(obj.elements[i], v.value[i]))
  }

  /** A vector equals its own elements exactly when none of them is a NaN. */
  lemma EqualsItself(v: seq<Float32>)
    ensures Equals(Some(v), FloatArray(v)) == Ok(forall i :: 0 <= i < |v| ==> !IsNaN(v[i]))
  {
  }

  /** Equality ignores the sign of zero. */
  lemma EqualsSignedZero()
    ensures Equals(Some([0x8000_0000]), FloatArray([0])) == Ok(true)
  {
    assert FloatEquals(0, 0x8000_0000);
  }

  /** The loop of `setByteValue`: `a[offset++] = float4(value, i*4 + 4)` for each `i` below the count. */
  method StoreFloats(a: array<Float32>, offset: int, value: array<Byte>) returns (out: Outcome)
    requires Readable(value[..])
    modifies a
    ensures (a[..], out) == Store(old(a[..]), offset, Incoming(value[..]))
  {
    var count := Int2(value[..], 0);
    ghost var fs := Incoming(value[..]);
    var i := 0;
    var pos := offset;
    while i < count
      invariant 0 <= i && (count > 0 ==> i <= count) && i <= |fs| && pos == offset + i
      invariant Store(a[..], pos, fs[i..]) == Store(old(a[..]), offset, fs)
    {
      var f := Float4(value[..], i * 4 + 4);
      assert f == fs[i];
      if !(0 <= pos < a.Length) {
        return Fail(IndexOutOfBounds);
      }
      a[pos] := f;
      assert fs[i..][1..] == fs[i + 1..];
      pos := pos + 1;
      i := i + 1;
    }
    assert fs[i..] == [];
    return Pass;
  }

  // ---------------------------------------------------------------------------
  // The class

  class PGvector {
    var vec: array?<Float32>

    /** The vector's value: null, or the elements of `vec`. */
    function Contents(): (r: Option<seq<Float32>>)
      reads this, vec
      ensures r.None? <==> vec == null
    {
      if vec == null then None else Some(vec[..])
    }

    /** `new PGvector()`: the null vector. */
    constructor ()
      ensures vec == null
    {
      vec := null;
    }

    /** `new PGvector(float[] v)`: keeps the caller's array itself, not a copy. */
    constructor FromArray(v: array?<Float32>)
      ensures vec == v
    {
      vec := v;
    }

    /** `new PGvector(String s)`: a fresh object given the text, or the exception. */
    static method FromText(s: Option<string>, ft: FloatText) returns (r: Result<PGvector>)
      ensures r.Ok? ==> fresh(r.value) && SetText(None, s, ft) == (r.value.Contents(), Pass)
      ensures r.Err? ==> SetText(None, s, ft).1 == Fail(r.error)
    {
      var p := new PGvector();
      var out := p.SetValue(s, ft);
      if out.Pass? {
        r := Ok(p);
      } else {
        r := Err(out.error);
      }
    }

    /** `isNull()`, that is `getValue() == null`. */
    predicate IsNull()
      reads this, vec
      ensures IsNull() <==> Contents().None?
    {
      vec == null
    }

    /** `lengthInBytes()`: 0 when null, else 4 bytes of header and 4 per element, in `int`. */
    function LengthInBytes(): (r: Int32)
      reads this, vec
      ensures vec == null ==> r == 0
      ensures vec != null && 4 + 4 * vec.Length <= IntMax ==> r == |DenseBytes(vec[..])|
    {
      if IsNull() then 0 else Wrap32(vec.Length * 4 + 4)
    }

    /**
     * `toBytes(bytes, offset)`: nothing when null; otherwise `DenseBytes` is
     * written from position 0, whatever `offset` is.
     */
    method ToBytes(bytes: array<Byte>, offset: Int32)
      requires vec != null ==> 4 + 4 * vec.Length <= bytes.Length
      modifies bytes
      ensures vec == null ==> bytes[..] == old(bytes[..])
      ensures vec != null ==> bytes[..] == Splice(old(bytes[..]), 0, DenseBytes(vec[..]))
    {
      if IsNull() {
        return;
      }
      ghost var v := vec[..];
      ghost var head := Int2Bytes(vec.Length) + Int2Bytes(0);
      var pos := 0;
      WriteInt2(bytes, pos, vec.Length);
      pos := 2;
      WriteInt2(bytes, pos, 0);
      SpliceAppend(old(bytes[..]), 0, Int2Bytes(vec.Length), Int2Bytes(0));
      assert v[..0] == [] && Float4s([]) == [];
      pos := 4;
      var index := 0;
      while index < vec.Length
        invariant vec[..] == v
        invariant 0 <= index <= |v| && pos == 4 + 4 * index
        invariant bytes[..] == Splice(old(bytes[..]), 0, head + Float4s(v[..index]))
      {
        WriteFloat4(bytes, pos, vec[index]);
        DenseBytesStep(old(bytes[..]), v, index);
        pos := pos + 4;
        index := index + 1;
      }
      assert v[..index] == v;
    }

    /**
     * `setByteValue(value, offset)`: `vec` ends as `SetBytes` says, and is
     * either the old array updated in place or a new one; a replaced array,
     * which a caller may still hold, keeps its contents.
     */
    method SetByteValue(value: array<Byte>, offset: Int32) returns (out: Outcome)
      requires Readable(value[..])
      modifies this, vec
      ensures (Contents(), out) == SetBytes(old(Contents()), value[..], offset)
      ensures vec != old(vec) ==> fresh(vec)
      ensures old(vec) != null && vec != old(vec) ==> unchanged(old(vec))
    {
      var count := Int2(value[..], 0);
      if vec == null {
        if count < 0 {
          return Fail(NegativeArraySize);
        }
        vec := new Float32[count](_ => PositiveZero);
        assert vec[..] == Zeros(count, PositiveZero);
      } else if offset == 0 {
        if vec.Length < count {
          vec := CopyOf(vec, count, PositiveZero);
        }
      } else {
        if Wrap32(offset + count) > vec.Length {
          vec := CopyOf(vec, Wrap32(offset + count), PositiveZero);
        }
      }
      assert Target(old(Contents()), offset, count) == Ok(vec[..]);
      out := StoreFloats(vec, offset, value);
    }

    /** `setValue(s)`: `vec` ends as `SetText` says; a parsed text gives a new array. */
    method SetValue(s: Option<string>, ft: FloatText) returns (out: Outcome)
      modifies this
      ensures (Contents(), out) == SetText(old(Contents()), s, ft)
      ensures s.Some? && vec != old(vec) ==> fresh(vec)
    {
      if s.None? {
        vec := null;
        return Pass;
      }
      var fields := FieldsOf(s.value);
      if fields.Err? {
        return Fail(fields.error);
      }
      var sp := fields.value;
      vec := new Float32[|sp|](_ => PositiveZero);
      out := FillParsed(vec, sp, ft.parse, PositiveZero);
    }

    /** `getValue()`: null iff `vec` is null, else the bracketed element texts. */
    function GetValue(ft: FloatText): (r: Option<string>)
      reads this, vec
      ensures r.None? <==> vec == null
      ensures r.Some? && Plain(ft) ==> r.value == "[" + Join(",", Texts(vec[..], ft)) + "]"
    {
      if vec == null then None
      else
        var text := FormatFloats(vec[..], ft);
        assert Plain(ft) ==> text == "[" + Join(",", Texts(vec[..], ft)) + "]" by {
          if Plain(ft) {
            FormatFloatsShape(vec[..], ft);
          }
        }
        Some(text)
    }

    /** `toArray()`: the stored array itself, shared with the caller. */
    function ToArray(): (r: array?<Float32>)
      reads this
      ensures r == vec
    {
      vec
    }

    /** `equals(obj)`, comparing element by element. */
    method EqualsObject(obj: JavaObject) returns (r: Result<bool>)
      ensures r == Equals(Contents(), obj)
    {
      if obj.Null? && vec == null {
        return Ok(true);
      }
      if !obj.FloatArray? {
        return Ok(false);
      }
      if vec == null {
        return Err(NullPointer);
      }
      var other := obj.elements;
      if |other| != vec.Length {
        return Ok(false);
      }
      var i := 0;
      while i < vec.Length
        invariant 0 <= i <= vec.Length
        invariant forall j :: 0 <= j < i ==> FloatEquals(other[j], vec[j])
      {
        if !FloatEquals(other[i], vec[i]) {
          return Ok(false);
        }
        i := i + 1;
      }
      return Ok(true);
    }
  }
}

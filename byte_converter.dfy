/**
 * The big-endian primitives of the PostgreSQL driver's `ByteConverter`
 * (`int2`, `int4`, `float4`, each as a reader and a writer), and the
 * byte-sequence vocabulary the binary codecs are specified in.
 *
 * Writers keep the low 16 or 32 bits of their `int` argument; the `int2`
 * and `int4` readers are signed; `float4` moves the raw bits unchanged.
 */
module ByteConverter {
  import opened Java

  // ---------------------------------------------------------------------------
  // Unsigned words

  /** The two bytes of a 16-bit word, most significant first. */
  function U2Bytes(u: int): (r: seq<Byte>)
    requires 0 <= u < 0x1_0000
    ensures |r| == 2
  {
    [u / 0x100, u % 0x100]
  }

  /** The four bytes of a 32-bit word, most significant first. */
  function U4Bytes(u: int): (r: seq<Byte>)
    requires 0 <= u < 0x1_0000_0000
    ensures |r| == 4
  {
    [u / 0x100_0000, u / 0x1_0000 % 0x100, u / 0x100 % 0x100, u % 0x100]
  }

  /** The 16-bit word stored at `idx`, most significant byte first. */
  function Unsigned2(s: seq<Byte>, idx: int): (u: int)
    requires 0 <= idx && idx + 2 <= |s|
    ensures 0 <= u < 0x1_0000
  {
    s[idx] as int * 0x100 + s[idx + 1] as int
  }

  /** The 32-bit word stored at `idx`, most significant byte first. */
  function Unsigned4(s: seq<Byte>, idx: int): (u: int)
    requires 0 <= idx && idx + 4 <= |s|
    ensures 0 <= u < 0x1_0000_0000
  {
    s[idx] as int * 0x100_0000 + s[idx + 1] as int * 0x1_0000
      + s[idx + 2] as int * 0x100 + s[idx + 3] as int
  }

  /** The bytes of a stored 16-bit word are the bytes it was read from. */
  lemma BytesOfUnsigned2(s: seq<Byte>, idx: int)
    requires 0 <= idx && idx + 2 <= |s|
    ensures U2Bytes(Unsigned2(s, idx)) == s[idx..idx + 2]
  {
  }

  /** The bytes of a stored 32-bit word are the bytes it was read from. */
  lemma BytesOfUnsigned4(s: seq<Byte>, idx: int)
    requires 0 <= idx && idx + 4 <= |s|
    ensures U4Bytes(Unsigned4(s, idx)) == s[idx..idx + 4]
  {
    var u := Unsigned4(s, idx);
    var a, b, c, d := s[idx] as int, s[idx + 1] as int, s[idx + 2] as int, s[idx + 3] as int;
    assert a * 0x100_0000 <= u < a * 0x100_0000 + 0x100_0000;
    assert u / 0x100_0000 == a;
    var ab := a * 0x100 + b;
    assert ab * 0x1_0000 <= u < ab * 0x1_0000 + 0x1_0000;
    assert u / 0x1_0000 == ab;
    var abc := ab * 0x100 + c;
    assert abc * 0x100 <= u < abc * 0x100 + 0x100;
    assert u / 0x100 == abc;
    assert U4Bytes(u) == [a, b, c, d];
  }

  lemma U2RoundTrip(u: int)
    requires 0 <= u < 0x1_0000
    ensures Unsigned2(U2Bytes(u), 0) == u
  {
  }

  lemma U4RoundTrip(u: int)
    requires 0 <= u < 0x1_0000_0000
    ensures Unsigned4(U4Bytes(u), 0) == u
  {
    var q1 := u / 0x100;
    var q2 := q1 / 0x100;
    assert q2 == u / 0x1_0000;
    assert q2 / 0x100 == u / 0x100_0000;
  }

  // ---------------------------------------------------------------------------
  // Single values

  /** What `ByteConverter.int2(target, idx, value)` writes: the low 16 bits of `value`. */
  function Int2Bytes(value: int): (r: seq<Byte>)
    ensures |r| == 2
    ensures r[0] as int * 0x100 + r[1] as int == value % 0x1_0000
  {
    U2Bytes(value % 0x1_0000)
  }

  /** What `ByteConverter.int4(target, idx, value)` writes: the low 32 bits of `value`. */
  function Int4Bytes(value: int): (r: seq<Byte>)
    ensures |r| == 4
  {
    U4Bytes(value % 0x1_0000_0000)
  }

  /** What `ByteConverter.float4(target, idx, value)` writes: the raw bits of `value`. */
  function Float4Bytes(value: Float32): (r: seq<Byte>)
    ensures |r| == 4
  {
    U4Bytes(value)
  }

  /** `ByteConverter.int2(bytes, idx)`: the signed 16-bit number at `idx`. */
  function Int2(s: seq<Byte>, idx: int): (r: Int16)
    requires 0 <= idx && idx + 2 <= |s|
    ensures r < 0 <==> s[idx] >= 0x80
  {
    Wrap16(Unsigned2(s, idx))
  }

  /** `ByteConverter.int4(bytes, idx)`: the signed 32-bit number at `idx`. */
  function Int4(s: seq<Byte>, idx: int): (r: Int32)
    requires 0 <= idx && idx + 4 <= |s|
    ensures r < 0 <==> s[idx] >= 0x80
  {
    Wrap32(Unsigned4(s, idx))
  }

  /** `ByteConverter.float4(bytes, idx)`: the float whose raw bits are at `idx`. */
  function Float4(s: seq<Byte>, idx: int): Float32
    requires 0 <= idx && idx + 4 <= |s|
  {
    Unsigned4(s, idx)
  }

  /** Reading back a written `int2` yields the value cast to `short`. */
  lemma Int2RoundTrip(value: int)
    ensures Int2(Int2Bytes(value), 0) == Wrap16(value)
  {
    U2RoundTrip(value % 0x1_0000);
  }

  /** Reading back a written `int4` yields the value as a Java `int`. */
  lemma Int4RoundTrip(value: int)
    ensures Int4(Int4Bytes(value), 0) == Wrap32(value)
  {
    U4RoundTrip(value % 0x1_0000_0000);
  }

  /** Reading back a written `float4` yields the same bits. */
  lemma Float4RoundTrip(value: Float32)
    ensures Float4(Float4Bytes(value), 0) == value
  {
    U4RoundTrip(value);
  }

  /** The bytes at `idx` are exactly `b`, seen one at a time. */
  lemma WindowAt(s: seq<Byte>, idx: int, b: seq<Byte>, j: int)
    requires 0 <= idx && idx + |b| <= |s|
    requires s[idx..idx + |b|] == b
    requires 0 <= j < |b|
    ensures s[idx + j] == b[j]
  {
    assert s[idx + j] == s[idx..idx + |b|][j];
  }

  /** A slice of a window is the same slice of what the window holds. */
  lemma Subwindow(s: seq<Byte>, idx: int, b: seq<Byte>, j: int, k: int)
    requires 0 <= idx && idx + |b| <= |s|
    requires s[idx..idx + |b|] == b
    requires 0 <= j <= k <= |b|
    ensures s[idx + j..idx + k] == b[j..k]
  {
    forall m | 0 <= m < k - j
      ensures s[idx + j..idx + k][m] == b[j..k][m]
    {
      assert s[idx + j + m] == s[idx..idx + |b|][j + m];
    }
  }

  /** Writing back the `short` read at `idx` reproduces the two bytes there. */
  lemma Int2Written(s: seq<Byte>, idx: int)
    requires 0 <= idx && idx + 2 <= |s|
    ensures Int2Bytes(Int2(s, idx)) == s[idx..idx + 2]
  {
    BytesOfUnsigned2(s, idx);
  }

  /** Writing back the `int` read at `idx` reproduces the four bytes there. */
  lemma Int4Written(s: seq<Byte>, idx: int)
    requires 0 <= idx && idx + 4 <= |s|
    ensures Int4Bytes(Int4(s, idx)) == s[idx..idx + 4]
  {
    BytesOfUnsigned4(s, idx);
    var u := Unsigned4(s, idx);
    assert Wrap32(u) == if u < 0x8000_0000 then u else u - 0x1_0000_0000;
    assert Wrap32(u) % 0x1_0000_0000 == u;
  }

  /** Writing back the `float` read at `idx` reproduces the four bytes there. */
  lemma Float4Written(s: seq<Byte>, idx: int)
    requires 0 <= idx && idx + 4 <= |s|
    ensures Float4Bytes(Float4(s, idx)) == s[idx..idx + 4]
  {
    BytesOfUnsigned4(s, idx);
  }

  /** A read of `Int2Bytes(v)`'s bytes, wherever they are, yields `v`. */
  lemma Int2Read(s: seq<Byte>, idx: int, v: Int16)
    requires 0 <= idx && idx + 2 <= |s|
    requires s[idx..idx + 2] == Int2Bytes(v)
    ensures Int2(s, idx) == v
  {
    Int2RoundTrip(v);
    WindowAt(s, idx, Int2Bytes(v), 0);
    WindowAt(s, idx, Int2Bytes(v), 1);
  }

  /** A read of `Int4Bytes(v)`'s bytes, wherever they are, yields `v`. */
  lemma Int4Read(s: seq<Byte>, idx: int, v: Int32)
    requires 0 <= idx && idx + 4 <= |s|
    requires s[idx..idx + 4] == Int4Bytes(v)
    ensures Int4(s, idx) == v
  {
    Int4RoundTrip(v);
    forall j | 0 <= j < 4
      ensures s[idx + j] == Int4Bytes(v)[j]
    {
      WindowAt(s, idx, Int4Bytes(v), j);
    }
  }

  // ---------------------------------------------------------------------------
  // Runs of values, as the codecs lay them out one after another

  /** `int2` of every element, back to back. */
  function Int2s(xs: seq<int>): (r: seq<Byte>)
    ensures |r| == 2 * |xs|
  {
    seq(2 * |xs|, k requires 0 <= k < 2 * |xs| => Int2Bytes(xs[k / 2])[k % 2])
  }

  /** `int4` of every element, back to back. */
  function Int4s(xs: seq<int>): (r: seq<Byte>)
    ensures |r| == 4 * |xs|
  {
    seq(4 * |xs|, k requires 0 <= k < 4 * |xs| => Int4Bytes(xs[k / 4])[k % 4])
  }

  /** `float4` of every element, back to back. */
  function Float4s(xs: seq<Float32>): (r: seq<Byte>)
    ensures |r| == 4 * |xs|
  {
    seq(4 * |xs|, k requires 0 <= k < 4 * |xs| => Float4Bytes(xs[k / 4])[k % 4])
  }

  /** The `n` shorts stored from `idx` on, each read with `int2`. */
  function ReadInt2s(s: seq<Byte>, idx: int, n: int): (r: seq<Int16>)
    requires 0 <= idx && 0 <= n && idx + 2 * n <= |s|
    ensures |r| == n
  {
    seq(n, i requires 0 <= i < n => Int2(s, idx + 2 * i))
  }

  /** The `n` ints stored from `idx` on, each read with `int4`. */
  function ReadInt4s(s: seq<Byte>, idx: int, n: int): (r: seq<Int32>)
    requires 0 <= idx && 0 <= n && idx + 4 * n <= |s|
    ensures |r| == n
  {
    seq(n, i requires 0 <= i < n => Int4(s, idx + 4 * i))
  }

  /** The `n` floats stored from `idx` on, each read with `float4`. */
  function ReadFloat4s(s: seq<Byte>, idx: int, n: int): (r: seq<Float32>)
    requires 0 <= idx && 0 <= n && idx + 4 * n <= |s|
    ensures |r| == n
  {
    seq(n, i requires 0 <= i < n => Float4(s, idx + 4 * i))
  }

  /** Appending one element to a run appends its encoding. */
  lemma Int2sSnoc(xs: seq<int>, x: int)
    ensures Int2s(xs + [x]) == Int2s(xs) + Int2Bytes(x)
  {
    var l, r := Int2s(xs + [x]), Int2s(xs) + Int2Bytes(x);
    forall k | 0 <= k < |l|
      ensures l[k] == r[k]
    {
      if k < 2 * |xs| {
        assert (xs + [x])[k / 2] == xs[k / 2];
      } else {
        assert k / 2 == |xs| && k % 2 == k - 2 * |xs|;
      }
    }
  }

  lemma Int4sSnoc(xs: seq<int>, x: int)
    ensures Int4s(xs + [x]) == Int4s(xs) + Int4Bytes(x)
  {
    var l, r := Int4s(xs + [x]), Int4s(xs) + Int4Bytes(x);
    forall k | 0 <= k < |l|
      ensures l[k] == r[k]
    {
      if k < 4 * |xs| {
        assert (xs + [x])[k / 4] == xs[k / 4];
      } else {
        assert k / 4 == |xs| && k % 4 == k - 4 * |xs|;
      }
    }
  }

  lemma Float4sSnoc(xs: seq<Float32>, x: Float32)
    ensures Float4s(xs + [x]) == Float4s(xs) + Float4Bytes(x)
  {
    var l, r := Float4s(xs + [x]), Float4s(xs) + Float4Bytes(x);
    forall k | 0 <= k < |l|
      ensures l[k] == r[k]
    {
      if k < 4 * |xs| {
        assert (xs + [x])[k / 4] == xs[k / 4];
      } else {
        assert k / 4 == |xs| && k % 4 == k - 4 * |xs|;
      }
    }
  }

  /** The encoded prefix grows by one element's two bytes. */
  lemma Int2sPrefix(head: seq<Byte>, v: seq<Int16>, i: int)
    requires 0 <= i < |v|
    ensures head + Int2s(v[..i]) + Int2Bytes(v[i]) == head + Int2s(v[..i + 1])
  {
    assert v[..i + 1] == v[..i] + [v[i]];
    Int2sSnoc(v[..i], v[i]);
  }

  /** The encoded prefix grows by one index's four bytes. */
  lemma Int4sPrefix(head: seq<Byte>, idx: seq<Int32>, i: int)
    requires 0 <= i < |idx|
    ensures head + Int4s(idx[..i]) + Int4Bytes(idx[i]) == head + Int4s(idx[..i + 1])
  {
    assert idx[..i + 1] == idx[..i] + [idx[i]];
    Int4sSnoc(idx[..i], idx[i]);
  }

  /** The encoded prefix grows by one element's four bytes. */
  lemma Float4sPrefix(head: seq<Byte>, v: seq<Float32>, i: int)
    requires 0 <= i < |v|
    ensures head + Float4s(v[..i]) + Float4Bytes(v[i]) == head + Float4s(v[..i + 1])
  {
    assert v[..i + 1] == v[..i] + [v[i]];
    Float4sSnoc(v[..i], v[i]);
  }

  /** Reading back a run of shorts gives the shorts. */
  lemma ReadInt2sOf(s: seq<Byte>, idx: int, xs: seq<Int16>)
    requires 0 <= idx && idx + 2 * |xs| <= |s|
    requires s[idx..idx + 2 * |xs|] == Int2s(xs)
    ensures ReadInt2s(s, idx, |xs|) == xs
  {
    var run := Int2s(xs);
    forall i | 0 <= i < |xs|
      ensures Int2(s, idx + 2 * i) == xs[i]
    {
      forall j | 0 <= j < 2
        ensures s[idx + 2 * i + j] == Int2Bytes(xs[i])[j]
      {
        WindowAt(s, idx, run, 2 * i + j);
        assert (2 * i + j) / 2 == i && (2 * i + j) % 2 == j;
      }
      Int2RoundTrip(xs[i]);
    }
  }

  /** Reading back a run of ints gives the ints. */
  lemma ReadInt4sOf(s: seq<Byte>, idx: int, xs: seq<Int32>)
    requires 0 <= idx && idx + 4 * |xs| <= |s|
    requires s[idx..idx + 4 * |xs|] == Int4s(xs)
    ensures ReadInt4s(s, idx, |xs|) == xs
  {
    var run := Int4s(xs);
    forall i | 0 <= i < |xs|
      ensures Int4(s, idx + 4 * i) == xs[i]
    {
      forall j | 0 <= j < 4
        ensures s[idx + 4 * i + j] == Int4Bytes(xs[i])[j]
      {
        WindowAt(s, idx, run, 4 * i + j);
        assert (4 * i + j) / 4 == i && (4 * i + j) % 4 == j;
      }
      Int4RoundTrip(xs[i]);
    }
  }

  /** Reading back a run of floats gives the same bits. */
  lemma ReadFloat4sOf(s: seq<Byte>, idx: int, xs: seq<Float32>)
    requires 0 <= idx && idx + 4 * |xs| <= |s|
    requires s[idx..idx + 4 * |xs|] == Float4s(xs)
    ensures ReadFloat4s(s, idx, |xs|) == xs
  {
    var run := Float4s(xs);
    forall i | 0 <= i < |xs|
      ensures Float4(s, idx + 4 * i) == xs[i]
    {
      forall j | 0 <= j < 4
        ensures s[idx + 4 * i + j] == Float4Bytes(xs[i])[j]
      {
        WindowAt(s, idx, run, 4 * i + j);
        assert (4 * i + j) / 4 == i && (4 * i + j) % 4 == j;
      }
      Float4RoundTrip(xs[i]);
    }
  }

  // ---------------------------------------------------------------------------
  // Buffers

  /** The buffer `s` after the bytes `b` are written starting at `idx`. */
  function Splice(s: seq<Byte>, idx: int, b: seq<Byte>): (r: seq<Byte>)
    requires 0 <= idx && idx + |b| <= |s|
    ensures |r| == |s|
    ensures r[idx..idx + |b|] == b
    ensures forall k :: 0 <= k < |s| && !(idx <= k < idx + |b|) ==> r[k] == s[k]
  {
    s[..idx] + b + s[idx + |b|..]
  }

  /** Writing `b` and then `c` right after it is writing `b + c`. */
  lemma SpliceAppend(s: seq<Byte>, idx: int, b: seq<Byte>, c: seq<Byte>)
    requires 0 <= idx && idx + |b| + |c| <= |s|
    ensures Splice(Splice(s, idx, b), idx + |b|, c) == Splice(s, idx, b + c)
  {
    var lhs, rhs := Splice(Splice(s, idx, b), idx + |b|, c), Splice(s, idx, b + c);
    forall k | 0 <= k < |s|
      ensures lhs[k] == rhs[k]
    {
      if idx <= k < idx + |b| {
        assert lhs[k] == Splice(s, idx, b)[k] == b[k - idx];
        assert rhs[k] == (b + c)[k - idx];
      } else if idx + |b| <= k < idx + |b| + |c| {
        assert lhs[k] == c[k - idx - |b|];
        assert rhs[k] == (b + c)[k - idx];
      }
    }
  }

  // ---------------------------------------------------------------------------
  // Writers

  method WriteBytes(target: array<Byte>, idx: int, b: seq<Byte>)
    requires 0 <= idx && idx + |b| <= target.Length
    modifies target
    ensures target[..] == Splice(old(target[..]), idx, b)
  {
    var i := 0;
    while i < |b|
      invariant 0 <= i <= |b|
      invariant target[..] == Splice(old(target[..]), idx, b[..i])
    {
      target[idx + i] := b[i];
      assert b[..i + 1] == b[..i] + [b[i]];
      i := i + 1;
    }
    assert b[..i] == b;
  }

  /** `ByteConverter.int2(target, idx, value)`. */
  method WriteInt2(target: array<Byte>, idx: int, value: int)
    requires 0 <= idx && idx + 2 <= target.Length
    modifies target
    ensures target[..] == Splice(old(target[..]), idx, Int2Bytes(value))
  {
    WriteBytes(target, idx, Int2Bytes(value));
  }

  /** `ByteConverter.int4(target, idx, value)`. */
  method WriteInt4(target: array<Byte>, idx: int, value: int)
    requires 0 <= idx && idx + 4 <= target.Length
    modifies target
    ensures target[..] == Splice(old(target[..]), idx, Int4Bytes(value))
  {
    WriteBytes(target, idx, Int4Bytes(value));
  }

  /** `ByteConverter.float4(target, idx, value)`. */
  method WriteFloat4(target: array<Byte>, idx: int, value: Float32)
    requires 0 <= idx && idx + 4 <= target.Length
    modifies target
    ensures target[..] == Splice(old(target[..]), idx, Float4Bytes(value))
  {
    WriteBytes(target, idx, Float4Bytes(value));
  }
}

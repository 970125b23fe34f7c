/**
 * `PGbit`: a bit string of `length` bits packed into `byte[] data`, most
 * significant bit first (bit `i` is bit `7 - i % 8` of `data[i / 8]`), the
 * unused low bits of the last byte being 0. The text form is one '0' or '1'
 * per bit; the binary form is an int32 length followed by the packed bytes.
 */
module BitVector {
  import opened Java
  import opened ByteConverter

  // ---------------------------------------------------------------------------
  // Bits of one byte, numbered from the most significant (0) to the least (7)

  /** The byte with only bit `m` set. */
  function Weight(m: nat): bv8
    requires m < 8
  {
    match m
    case 0 => 0x80 case 1 => 0x40 case 2 => 0x20 case 3 => 0x10
    case 4 => 0x08 case 5 => 0x04 case 6 => 0x02 case _ => 0x01
  }

  predicate BitOf(b: bv8, m: nat)
    requires m < 8
  {
    b & Weight(m) != 0
  }

  /** The shifts the source uses select and set the same bit. */
  lemma ShiftIsWeight(b: bv8, m: nat, bit: bool)
    requires m < 8
    ensures ((b >> (7 - m)) & 1 == 1) == BitOf(b, m)
    ensures ((if bit then 1 else 0) as bv8) << (7 - m) == if bit then Weight(m) else 0
  {
  }

  /** Or-ing in bit `m` sets that bit (when asked to) and leaves the other seven. */
  lemma OrWeight(b: bv8, bit: bool, m: nat, p: nat)
    requires m < 8 && p < 8
    ensures BitOf(b | (if bit then Weight(m) else 0), p) == if p == m then BitOf(b, p) || bit else BitOf(b, p)
  {
  }

  /** A byte is determined by its eight bits. */
  lemma SameByte(a: bv8, b: bv8)
    requires forall p :: 0 <= p < 8 ==> BitOf(a, p) == BitOf(b, p)
    ensures a == b
  {
    assert a & 0x80 == b & 0x80 by { assert BitOf(a, 0) == BitOf(b, 0); }
    assert a & 0x40 == b & 0x40 by { assert BitOf(a, 1) == BitOf(b, 1); }
    assert a & 0x20 == b & 0x20 by { assert BitOf(a, 2) == BitOf(b, 2); }
    assert a & 0x10 == b & 0x10 by { assert BitOf(a, 3) == BitOf(b, 3); }
    assert a & 0x08 == b & 0x08 by { assert BitOf(a, 4) == BitOf(b, 4); }
    assert a & 0x04 == b & 0x04 by { assert BitOf(a, 5) == BitOf(b, 5); }
    assert a & 0x02 == b & 0x02 by { assert BitOf(a, 6) == BitOf(b, 6); }
    assert a & 0x01 == b & 0x01 by { assert BitOf(a, 7) == BitOf(b, 7); }
  }

  // ---------------------------------------------------------------------------
  // Packing

  /** `(length + 7) / 8` in `int` arithmetic: the size of `data` for `length` bits. */
  function ByteCount(length: Int32): (r: int)
    ensures 0 <= length <= IntMax - 7 ==> r == (length + 7) / 8
    ensures -14 <= length < 0 ==> r == 0
    ensures length <= -15 || length > IntMax - 7 ==> r < 0
  {
    Quot(Wrap32(length + 7), 8)
  }

  /** Bit `i` of packed data. */
  predicate BitAt(data: seq<bv8>, i: nat)
    requires i < 8 * |data|
  {
    BitOf(data[i / 8], i % 8)
  }

  /** `data` holds exactly `bits`, most significant bit first, with zero padding. */
  predicate Packs(data: seq<bv8>, bits: seq<bool>)
  {
    && |data| == (|bits| + 7) / 8
    && (forall i :: 0 <= i < |bits| ==> BitAt(data, i) == bits[i])
    && (forall i :: |bits| <= i < 8 * |data| ==> !BitAt(data, i))
  }

  /** There is only one packing of a bit string. */
  lemma PacksUnique(a: seq<bv8>, b: seq<bv8>, bits: seq<bool>)
    requires Packs(a, bits) && Packs(b, bits)
    ensures a == b
  {
    forall j | 0 <= j < |a|
      ensures a[j] == b[j]
    {
      forall p | 0 <= p < 8
        ensures BitOf(a[j], p) == BitOf(b[j], p)
      {
        var i := 8 * j + p;
        assert i / 8 == j && i % 8 == p;
        assert BitAt(a, i) == BitAt(b, i);
      }
      SameByte(a[j], b[j]);
    }
  }

  /** Byte `j` of the packing, with only its first `k` bits filled in. */
  function ByteOf(bits: seq<bool>, j: nat, k: nat): bv8
    requires k <= 8
  {
    if k == 0 then 0
    else ByteOf(bits, j, k - 1) | (if 8 * j + k - 1 < |bits| && bits[8 * j + k - 1] then Weight(k - 1) else 0)
  }

  lemma {:induction false} ByteOfBits(bits: seq<bool>, j: nat, k: nat, p: nat)
    requires k <= 8 && p < 8
    ensures BitOf(ByteOf(bits, j, k), p) == (p < k && 8 * j + p < |bits| && bits[8 * j + p])
  {
    if k > 0 {
      ByteOfBits(bits, j, k - 1, p);
      OrWeight(ByteOf(bits, j, k - 1), 8 * j + k - 1 < |bits| && bits[8 * j + k - 1], k - 1, p);
    }
  }

  /** The packed bytes of a bit string. */
  function Pack(bits: seq<bool>): (r: seq<bv8>)
    ensures |r| == (|bits| + 7) / 8
  {
    seq((|bits| + 7) / 8, j requires 0 <= j < (|bits| + 7) / 8 => ByteOf(bits, j, 8))
  }

  /** `Pack` puts bit `i` at bit `7 - i % 8` of byte `i / 8` and zeros the padding. */
  lemma PackPacks(bits: seq<bool>)
    ensures Packs(Pack(bits), bits)
  {
    var d := Pack(bits);
    forall i | 0 <= i < 8 * |d|
      ensures BitAt(d, i) == (i < |bits| && bits[i])
    {
      ByteOfBits(bits, i / 8, 8, i % 8);
      assert 8 * (i / 8) + i % 8 == i;
    }
  }

  /** The first `n` bits of packed data. */
  function Unpack(data: seq<bv8>, n: nat): (r: seq<bool>)
    requires n <= 8 * |data|
    ensures |r| == n && forall i :: 0 <= i < n ==> r[i] == BitAt(data, i)
  {
    seq(n, i requires 0 <= i < n => BitAt(data, i))
  }

  /** Unpacking a packing gives the bits back. */
  lemma UnpackPack(bits: seq<bool>)
    ensures 8 * |Pack(bits)| >= |bits|
    ensures Unpack(Pack(bits), |bits|) == bits
  {
    PackPacks(bits);
  }

  /** Packing the bits of data of the right size with zero padding gives the data back. */
  lemma PackUnpack(data: seq<bv8>, n: nat)
    requires |data| == (n + 7) / 8
    requires forall i :: n <= i < 8 * |data| ==> !BitAt(data, i)
    ensures Pack(Unpack(data, n)) == data
  {
    var bits := Unpack(data, n);
    PackPacks(bits);
    PacksUnique(Pack(bits), data, bits);
  }

  /** The bit string of a text: every character other than '0' is a 1. */
  function Bools(t: string): (r: seq<bool>)
    ensures |r| == |t| && forall i :: 0 <= i < |t| ==> r[i] == (t[i] != '0')
  {
    seq(|t|, i requires 0 <= i < |t| => t[i] != '0')
  }

  /** The text of a bit string. */
  function BitString(bits: seq<bool>): (r: string)
    ensures |r| == |bits| && forall i :: 0 <= i < |bits| ==> r[i] == if bits[i] then '1' else '0'
  {
    seq(|bits|, i requires 0 <= i < |bits| => if bits[i] then '1' else '0')
  }

  /** A text of '0's and '1's. */
  predicate IsBinary(t: string)
  {
    forall i :: 0 <= i < |t| ==> t[i] == '0' || t[i] == '1'
  }

  /**
   * The packing loop on a new array of zeros: `data[i / 8] |= bit << (7 - i % 8)`
   * for every bit in turn.
   */
  method PackInto(data: array<bv8>, bits: seq<bool>)
    requires data.Length == (|bits| + 7) / 8
    requires forall j :: 0 <= j < data.Length ==> data[j] == 0
    modifies data
    ensures data[..] == Pack(bits)
  {
    var i := 0;
    while i < |bits|
      invariant 0 <= i <= |bits|
      invariant forall p :: 0 <= p < i ==> BitAt(data[..], p) == bits[p]
      invariant forall p :: i <= p < 8 * data.Length ==> !BitAt(data[..], p)
    {
      var one: bv8 := if bits[i] then 1 else 0;
      ShiftIsWeight(data[i / 8], i % 8, bits[i]);
      PackStep(data[..], bits, i);
      data[i / 8] := data[i / 8] | (one << (7 - i % 8));
      i := i + 1;
    }
    PackPacks(bits);
    PacksUnique(data[..], Pack(bits), bits);
  }

  /** Or-ing in bit `i` of packed data changes no other bit. */
  lemma SetBitAt(d: seq<bv8>, i: nat, bit: bool, p: nat)
    requires i < 8 * |d| && p < 8 * |d|
    ensures BitAt(d[i / 8 := d[i / 8] | (if bit then Weight(i % 8) else 0)], p)
            == if p == i then BitAt(d, p) || bit else BitAt(d, p)
  {
    var e := d[i / 8 := d[i / 8] | (if bit then Weight(i % 8) else 0)];
    if p / 8 == i / 8 {
      assert (p == i) == (p % 8 == i % 8) by {
        assert p == 8 * (p / 8) + p % 8 && i == 8 * (i / 8) + i % 8;
      }
      OrWeight(d[i / 8], bit, i % 8, p % 8);
    } else {
      assert e[p / 8] == d[p / 8];
    }
  }

  /** One turn of the packing loop sets bit `i` and no other. */
  lemma PackStep(d: seq<bv8>, bits: seq<bool>, i: nat)
    requires i < |bits| && |d| == (|bits| + 7) / 8
    requires forall p :: 0 <= p < i ==> BitAt(d, p) == bits[p]
    requires forall p :: i <= p < 8 * |d| ==> !BitAt(d, p)
    ensures var e := d[i / 8 := d[i / 8] | (if bits[i] then Weight(i % 8) else 0)];
            && (forall p :: 0 <= p < i + 1 ==> BitAt(e, p) == bits[p])
            && (forall p :: i + 1 <= p < 8 * |e| ==> !BitAt(e, p))
  {
    var e := d[i / 8 := d[i / 8] | (if bits[i] then Weight(i % 8) else 0)];
    forall p | 0 <= p < 8 * |e|
      ensures BitAt(e, p) == (p <= i && bits[p])
    {
      SetBitAt(d, i, bits[i], p);
      if p < i {
        assert BitAt(d, p) == bits[p];
      } else {
        assert !BitAt(d, p);
      }
    }
  }

  // ---------------------------------------------------------------------------
  // The value and its two forms

  /** The fields of a `PGbit`: `length`, and `data` or null. */
  datatype Bits = Bits(length: Int32, data: Option<seq<bv8>>)

  /**
   * `getValue()`: null when `data` is null; a `StringBuilder(length)` with a
   * negative length throws `NegativeArraySizeException`; reading past the
   * end of `data` throws `ArrayIndexOutOfBoundsException`.
   */
  function Text(b: Bits): (r: Result<Option<string>>)
    ensures r == Ok(None) <==> b.data.None?
    ensures r.Ok? && r.value.Some? ==> |r.value.value| == b.length
    ensures r == Err(NegativeArraySize) <==> b.data.Some? && b.length < 0
    ensures r == Err(IndexOutOfBounds) <==> b.data.Some? && 0 <= b.length && 8 * |b.data.value| < b.length
    ensures r.Err? <==> b.data.Some? && (b.length < 0 || 8 * |b.data.value| < b.length)
  {
    match b.data
    case None => Ok(None)
    case Some(d) =>
      if b.length < 0 then Err(NegativeArraySize)
      else if 8 * |d| < b.length then Err(IndexOutOfBounds)
      else Ok(Some(BitString(Unpack(d, b.length))))
  }

  /**
   * `setValue(s)`: null makes `data` null and keeps `length`; otherwise
   * `length` becomes the text's length and `data` its packing, unless the
   * byte count overflows to a negative size, which throws after `length`
   * was set.
   */
  function SetText(prior: Bits, s: Option<string>): (r: (Bits, Outcome))
    requires s.Some? ==> |s.value| <= IntMax
    ensures s.None? ==> r == (Bits(prior.length, None), Pass)
    ensures s.Some? ==> r.0.length == |s.value|
  {
    match s
    case None => (Bits(prior.length, None), Pass)
    case Some(t) =>
      if ByteCount(|t|) < 0 then (Bits(|t|, prior.data), Fail(NegativeArraySize))
      else (Bits(|t|, Some(Pack(Bools(t)))), Pass)
  }

  /**
   * `toArray()`: `new boolean[length]` throws for a negative length; the
   * loop then dereferences `data`, which may be null, and may run past it.
   */
  function ArrayOf(b: Bits): (r: Result<seq<bool>>)
    ensures r.Ok? ==> |r.value| == b.length
  {
    if b.length < 0 then Err(NegativeArraySize)
    else if b.length == 0 then Ok([])
    else match b.data
      case None => Err(NullPointer)
      case Some(d) =>
        if 8 * |d| < b.length then Err(IndexOutOfBounds)
        else Ok(Unpack(d, b.length))
  }

  /** A byte's unsigned value, as written to the buffer. */
  function Octets(d: seq<bv8>): (r: seq<Byte>)
    ensures |r| == |d| && forall i :: 0 <= i < |d| ==> r[i] == d[i] as int
  {
    seq(|d|, i requires 0 <= i < |d| => d[i] as int)
  }

  /** What `toBytes` writes at `offset`: the int32 length, then the packed bytes. */
  function BitBytes(length: Int32, data: seq<bv8>): (r: seq<Byte>)
    ensures |r| == 4 + |data|
  {
    Int4Bytes(length) + Octets(data)
  }

  /** The buffer holds what `setByteValue` reads at `offset`. */
  predicate Readable(value: seq<Byte>, offset: int)
  {
    && 0 <= offset && offset + 4 <= |value|
    && (ByteCount(Int4(value, offset)) >= 0 ==> offset + 4 + ByteCount(Int4(value, offset)) <= |value|)
  }

  /**
   * `setByteValue(value, offset)`: `length` is read first; then `data` is
   * replaced by the bytes after it, or a negative byte count throws.
   */
  function Decode(prior: Bits, value: seq<Byte>, offset: int): (r: (Bits, Outcome))
    requires Readable(value, offset)
    ensures r.0.length == Int4(value, offset)
    ensures r.1.Pass? <==> ByteCount(Int4(value, offset)) >= 0
  {
    var length := Int4(value, offset);
    var n := ByteCount(length);
    if n < 0 then (Bits(length, prior.data), Fail(NegativeArraySize))
    else (Bits(length, Some(ReadOctets(value, offset + 4, n))), Pass)
  }

  /** `n` buffer bytes from `idx` as Java bytes. */
  function ReadOctets(value: seq<Byte>, idx: int, n: int): (r: seq<bv8>)
    requires 0 <= idx && 0 <= n && idx + n <= |value|
    ensures |r| == n && forall i :: 0 <= i < n ==> r[i] == value[idx + i] as bv8
  {
    seq(n, i requires 0 <= i < n => value[idx + i] as bv8)
  }

  // ---------------------------------------------------------------------------
  // Properties of the forms

  /**
   * `setByteValue` restores what `toBytes` wrote, whenever `data` has the
   * size its `length` calls for; there is no reserved field.
   */
  lemma DecodeBitBytes(prior: Bits, value: seq<Byte>, offset: int, length: Int32, data: seq<bv8>)
    requires |data| == ByteCount(length)
    requires 0 <= offset && offset + 4 + |data| <= |value|
    requires value[offset..offset + 4 + |data|] == BitBytes(length, data)
    ensures Readable(value, offset)
    ensures Decode(prior, value, offset) == (Bits(length, Some(data)), Pass)
  {
    var b := BitBytes(length, data);
    assert b[0..4] == Int4Bytes(length);
    Subwindow(value, offset, b, 0, 4);
    Int4Read(value, offset, length);
    forall i | 0 <= i < |data|
      ensures value[offset + 4 + i] as bv8 == data[i]
    {
      WindowAt(value, offset, b, 4 + i);
    }
    assert ReadOctets(value, offset + 4, |data|) == data;
  }

  /**
   * `setValue(s)` then `getValue()` gives `s` with every character other
   * than '0' read as '1', hence `s` itself for a text of '0's and '1's.
   */
  lemma TextOfSetText(prior: Bits, t: string)
    requires |t| <= IntMax - 7
    ensures SetText(prior, Some(t)) == (Bits(|t|, Some(Pack(Bools(t)))), Pass)
    ensures Text(SetText(prior, Some(t)).0) == Ok(Some(BitString(Bools(t))))
    ensures IsBinary(t) ==> Text(SetText(prior, Some(t)).0) == Ok(Some(t))
  {
    UnpackPack(Bools(t));
    if IsBinary(t) {
      assert BitString(Bools(t)) == t;
    }
  }

  /**
   * `getValue()` then `setValue` restores `length` and `data` when `data`
   * has the size `length` calls for and zero padding.
   */
  lemma SetTextOfText(prior: Bits, b: Bits)
    requires 0 <= b.length <= IntMax - 7 && b.data.Some?
    requires |b.data.value| == ByteCount(b.length)
    requires forall i :: b.length <= i < 8 * |b.data.value| ==> !BitAt(b.data.value, i)
    ensures Text(b).Ok? && Text(b).value.Some?
    ensures SetText(prior, Text(b).value) == (b, Pass)
  {
    var d := b.data.value;
    var bits := Unpack(d, b.length);
    assert Bools(BitString(bits)) == bits;
    PackUnpack(d, b.length);
  }

  /** `toArray()` after the boolean constructor gives the booleans back. */
  lemma ArrayOfPack(bits: seq<bool>)
    requires |bits| <= IntMax - 7
    ensures ArrayOf(Bits(|bits|, Some(Pack(bits)))) == Ok(bits)
  {
    UnpackPack(bits);
  }

  /** The nine bits 010100001 pack to 0b01010000, 0b10000000 and print back as "010100001". */
  lemma NineBits()
    ensures Bools("010100001") == [false, true, false, true, false, false, false, false, true]
    ensures Pack(Bools("010100001")) == [0x50, 0x80]
    ensures Text(Bits(9, Some([0x50, 0x80]))) == Ok(Some("010100001"))
  {
    NineBitsPack();
    NineBitsText();
  }

  lemma NineBitsPack()
    ensures Bools("010100001") == [false, true, false, true, false, false, false, false, true]
    ensures Pack(Bools("010100001")) == [0x50, 0x80]
  {
    var bits := Bools("010100001");
    NineBitsPacked(bits);
    PackPacks(bits);
    PacksUnique(Pack(bits), [0x50, 0x80], bits);
  }

  lemma NineBitsText()
    requires Pack(Bools("010100001")) == [0x50, 0x80]
    ensures Text(Bits(9, Some([0x50, 0x80]))) == Ok(Some("010100001"))
  {
    TextOfSetText(Bits(0, None), "010100001");
  }

  lemma NineBitsPacked(bits: seq<bool>)
    requires bits == [false, true, false, true, false, false, false, false, true]
    ensures Packs([0x50, 0x80], bits)
  {
    var d: seq<bv8> := [0x50, 0x80];
    forall i | 0 <= i < 8
      ensures BitAt(d, i) == bits[i]
    {
      assert i / 8 == 0 && i % 8 == i;
    }
    forall i | 8 <= i < 16
      ensures BitAt(d, i) == (i == 8)
    {
      assert i / 8 == 1 && i % 8 == i - 8;
    }
  }

  // ---------------------------------------------------------------------------
  // The class

  class PGbit {
    var length: Int32
    var data: array?<bv8>

    /** The object's fields as a value. */
    function State(): (r: Bits)
      reads this, data
      ensures r.data.None? <==> data == null
    {
      Bits(length, if data == null then None else Some(data[..]))
    }

    /** `new PGbit()`: no data, length 0. */
    constructor ()
      ensures State() == Bits(0, None)
    {
      length := 0;
      data := null;
    }

    /** `new PGbit(boolean[] v)`: `length` is the array's length and `data` its packing. */
    constructor FromBools(v: array<bool>)
      requires v.Length <= IntMax - 7
      ensures fresh(data)
      ensures State() == Bits(v.Length, Some(Pack(v[..])))
    {
      length := v.Length;
      var d := new bv8[ByteCount(v.Length)](_ => 0);
      PackInto(d, v[..]);
      data := d;
    }

    /**
     * `new PGbit(boolean[] v)` for any `v`: reading the length of a null
     * array throws `NullPointerException`; otherwise the boolean constructor.
     */
    static method FromBoolsOrNull(v: array?<bool>) returns (r: Result<PGbit>)
      requires v != null ==> v.Length <= IntMax - 7
      ensures v == null <==> r == Err(NullPointer)
      ensures r.Ok? ==> fresh(r.value) && fresh(r.value.data)
      ensures r.Ok? ==> v != null && r.value.State() == Bits(v.Length, Some(Pack(v[..])))
    {
      if v == null {
        r := Err(NullPointer);
      } else {
        var p := new PGbit.FromBools(v);
        r := Ok(p);
      }
    }

    /** `new PGbit(String s)`: a fresh object given the text, or the exception. */
    static method FromText(s: Option<string>) returns (r: Result<PGbit>)
      requires s.Some? ==> |s.value| <= IntMax
      ensures r.Ok? ==> fresh(r.value) && SetText(Bits(0, None), s) == (r.value.State(), Pass)
      ensures r.Err? ==> SetText(Bits(0, None), s).1 == Fail(r.error)
    {
      var p := new PGbit();
      var out := p.SetValue(s);
      if out.Pass? {
        r := Ok(p);
      } else {
        r := Err(out.error);
      }
    }

    /** `setValue(s)`: the fields end as `SetText` says. */
    method SetValue(s: Option<string>) returns (out: Outcome)
      requires s.Some? ==> |s.value| <= IntMax
      modifies this
      ensures (State(), out) == SetText(old(State()), s)
      ensures data != old(data) ==> data == null || fresh(data)
    {
      if s.None? {
        data := null;
        return Pass;
      }
      var t := s.value;
      length := |t|;
      var n := ByteCount(length);
      if n < 0 {
        return Fail(NegativeArraySize);
      }
      var d := new bv8[n](_ => 0);
      PackInto(d, Bools(t));
      data := d;
      return Pass;
    }

    /** `getValue()`: the bits as '0'/'1' text, built one character at a time. */
    method GetValue() returns (r: Result<Option<string>>)
      ensures r == Text(State())
    {
      if data == null {
        return Ok(None);
      }
      if length < 0 {
        return Err(NegativeArraySize);
      }
      var sb: string := [];
      var i := 0;
      while i < length
        invariant 0 <= i <= length && i <= 8 * data.Length
        invariant |sb| == i
        invariant forall j :: 0 <= j < i ==> sb[j] == if BitAt(data[..], j) then '1' else '0'
      {
        if i / 8 >= data.Length {
          return Err(IndexOutOfBounds);
        }
        ShiftIsWeight(data[i / 8], i % 8, true);
        sb := sb + [if (data[i / 8] >> (7 - i % 8)) & 1 == 1 then '1' else '0'];
        i := i + 1;
      }
      assert sb == BitString(Unpack(data[..], length));
      return Ok(Some(sb));
    }

    /** `lengthInBytes()`: 0 when `data` is null, else 4 plus the number of data bytes. */
    function LengthInBytes(): (r: Int32)
      reads this, data
      ensures data == null ==> r == 0
      ensures data != null && data.Length <= IntMax - 4 ==> r == |BitBytes(length, data[..])|
    {
      if data == null then 0 else Wrap32(4 + data.Length)
    }

    /** `setByteValue(value, offset)`: the fields end as `Decode` says. */
    method SetByteValue(value: array<Byte>, offset: Int32) returns (out: Outcome)
      requires Readable(value[..], offset)
      modifies this
      ensures (State(), out) == Decode(old(State()), value[..], offset)
      ensures data != old(data) ==> fresh(data)
    {
      var vs := value[..];
      length := Int4(vs, offset);
      var n := ByteCount(length);
      if n < 0 {
        return Fail(NegativeArraySize);
      }
      var d := new bv8[n](_ => 0);
      var i := 0;
      while i < d.Length
        invariant 0 <= i <= d.Length
        invariant forall j :: 0 <= j < i ==> d[j] == vs[offset + 4 + j] as bv8
        invariant length == Int4(vs, offset)
      {
        d[i] := vs[offset + 4 + i] as bv8;
        i := i + 1;
      }
      assert d[..] == ReadOctets(vs, offset + 4, n);
      data := d;
      return Pass;
    }

    /** `toBytes(bytes, offset)`: nothing when `data` is null; else `BitBytes` at `offset`. */
    method ToBytes(bytes: array<Byte>, offset: Int32)
      requires data != null ==> 0 <= offset && offset + 4 + data.Length <= bytes.Length
      modifies bytes
      ensures data == null ==> bytes[..] == old(bytes[..])
      ensures data != null ==> bytes[..] == Splice(old(bytes[..]), offset, BitBytes(length, data[..]))
    {
      if data == null {
        return;
      }
      WriteInt4(bytes, offset, length);
      WriteBytes(bytes, offset + 4, Octets(data[..]));
      SpliceAppend(old(bytes[..]), offset, Int4Bytes(length), Octets(data[..]));
    }

    /** `toArray()`: the first `length` bits, or the exception the loop ends in. */
    method ToArray() returns (r: Result<seq<bool>>)
      ensures r == ArrayOf(State())
    {
      if length < 0 {
        return Err(NegativeArraySize);
      }
      var bits := new bool[length];
      var i := 0;
      while i < length
        invariant 0 <= i <= length
        invariant data == null ==> i == 0
        invariant data != null ==> i <= 8 * data.Length
        invariant forall j :: 0 <= j < i ==> bits[j] == BitAt(data[..], j)
      {
        if data == null {
          return Err(NullPointer);
        }
        if i / 8 >= data.Length {
          return Err(IndexOutOfBounds);
        }
        ShiftIsWeight(data[i / 8], i % 8, true);
        bits[i] := (data[i / 8] >> (7 - i % 8)) & 1 == 1;
        i := i + 1;
      }
      if length == 0 {
        return Ok([]);
      }
      assert bits[..] == Unpack(data[..], length);
      return Ok(bits[..]);
    }
  }
}

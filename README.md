# pgvector-java value classes in Dafny

This project models the four value classes of pgvector-java and the
plain-JDBC text helper of its first example:

- `PGvector`: a dense `float[]`;
- `PGhalfvec`: a `short[]` of IEEE 754 binary16 bit patterns;
- `PGbit`: a bit string packed most significant bit first into `byte[]`;
- `PGsparsevec`: a dimension count plus parallel arrays of 0-based indices
  and their nonzero values;
- `example1.Pgvector`: the static `toString`/`parse` pair for dense vectors.

Each class holds one vector, which may be null, in private fields, and
converts it to and from two forms:

- the text literal of `getValue`/`setValue`: `[1.0,2.0]`, `0101`,
  `{1:1.0,3:2.0}/6`;
- the binary send/recv layout of `lengthInBytes`, `toBytes` and
  `setByteValue`.

## How the model is built

- **Classes.** Every Java class is a Dafny `class` with the same fields.
  Arrays are `array`/`array?`, and the caller's byte buffer is an
  `array<Byte>`. Each method states its new state against a value-level
  definition:
  - `DenseVector.SetBytes`, `DenseVector.SetText`;
  - `HalfVector.DecodeHalf`, `HalfVector.SetText`;
  - `BitVector.Decode`, `BitVector.SetText`, `BitVector.Text`;
  - `SparseModel.Decode`, `SparseModel.FromDense`, `SparseModel.FromMap`;
  - `SparseText.SetText`, `SparseText.Text`.

  The loops of the source are `while` loops proved against those
  definitions. The round trips, bounds and invariants are lemmas about the
  definitions.
- **Java values.** A Java `int`/`short` is an `int` subset type. Overflow
  is written out with `Java.Wrap32`/`Java.Wrap16` wherever the source
  computes in `int`:
  - `lengthInBytes`;
  - `(length + 7) / 8`;
  - `indices[i] + 1`;
  - `offset + floatArraySize`;
  - the `StringBuilder` capacity.

  A `float` is its raw 32-bit pattern. A Java `byte` is the unsigned value
  of its 8 bits; `PGbit`'s `data` is `bv8`.
- **Exceptions.** An exception is an `Error` value. A method that can throw
  returns an `Outcome` (`Pass` or `Fail(e)`) together with the state it
  leaves behind, which includes the fields already assigned before the
  throw.
- **Library routines.** `ByteConverter.int2`/`int4`/`float4` are big-endian
  readers and writers: writers keep the low bits, `int2`/`int4` reads are
  signed, and `float4` moves the raw bits. `String.split` (with and without
  a limit), `substring`, `replace(" ", "")`, `Integer.parseInt` and
  `Integer.toString` are defined in `JavaString`.
- **Floating-point conversions are parameters.** `Float.toString`/`parseFloat`
  form a `FloatText` value and `Float.floatToFloat16`/`float16ToFloat` a
  `HalfFloat` value. Every property therefore holds for any conversions that
  meet its stated assumptions:
  - `Plain`: texts are nonempty and free of `,`, `/` and spaces;
  - `RoundTrips`: an element's text parses back to the same bits.

## Model

| member | source | states |
|---|---|---|
| Java.Wrap32 | src/main/java/com/pgvector/PGvector.java:86 | the `int` a Java expression yields is congruent to the true value modulo 2^32 and equals it when it fits |
| Java.Wrap16 | src/main/java/com/pgvector/PGhalfvec.java:138 | the `short` kept by a narrowing is congruent modulo 2^16 and unchanged when it fits |
| Java.WrapIncDec | src/main/java/com/pgvector/PGsparsevec.java:158 | the 1-based shift written by `getValue` (+1) and undone by `setValue` (-1) restores every `int`, across the wrap too |
| Java.Quot | src/main/java/com/pgvector/PGbit.java:36 | Java's `/` rounds toward zero: Euclidean division for a nonnegative dividend, negated for a negative one |
| Java.IsZero | src/main/java/com/pgvector/PGsparsevec.java:41 | a float compares equal to 0 exactly when it is +0.0 or -0.0, and a NaN never does |
| Java.IsNaN | src/main/java/com/pgvector/PGvector.java:160 | the NaN bit patterns: every exponent bit set and a nonzero fraction; `FloatEquals` is false on them |
| Java.FloatEquals | src/main/java/com/pgvector/PGvector.java:160 | float `==` is false whenever either side is a NaN, true for a non-NaN against itself and for +0.0 against -0.0, and otherwise true only for the same bits |
| Java.Resized | src/main/java/com/pgvector/PGvector.java:64 | `Arrays.copyOf` contents: length `n`, old elements first, default value after |
| Java.CopyOf | src/main/java/com/pgvector/PGvector.java:69 | a fresh array holding `Resized` of the old contents |
| ByteConverter.Int2RoundTrip | src/main/java/com/pgvector/PGhalfvec.java:115-117 | reading back a written `int2` gives the value cast to `short` |
| ByteConverter.Int4RoundTrip | src/main/java/com/pgvector/PGsparsevec.java:201-204 | reading back a written `int4` gives the value as an `int` |
| ByteConverter.Float4RoundTrip | src/main/java/com/pgvector/PGvector.java:78 | reading back a written `float4` gives the same bits |
| ByteConverter.Int2Bytes | src/main/java/com/pgvector/PGhalfvec.java:138-139 | the two bytes written hold the low 16 bits of the value, most significant first |
| ByteConverter.Int4Bytes | src/main/java/com/pgvector/PGsparsevec.java:230-232 | four bytes written; `Int4RoundTrip` reads them back as the value's `int` |
| ByteConverter.Float4Bytes | src/main/java/com/pgvector/PGvector.java:110 | four bytes written; `Float4RoundTrip` reads them back as the same bits |
| ByteConverter.Int2 | src/main/java/com/pgvector/PGhalfvec.java:115-117 | the `short` read is negative exactly when the top bit of its first byte is set |
| ByteConverter.Int4 | src/main/java/com/pgvector/PGsparsevec.java:201-204 | the `int` read is negative exactly when the top bit of its first byte is set |
| ByteConverter.Float4 | src/main/java/com/pgvector/PGvector.java:78 | the raw 32 bits at the position; `Float4Written` and `Float4RoundTrip` make it the inverse of `Float4Bytes` |
| ByteConverter.Int2Written | src/main/java/com/pgvector/PGhalfvec.java:124 | writing back the `short` read at a position reproduces the two bytes there |
| ByteConverter.Int4Written | src/main/java/com/pgvector/PGsparsevec.java:211 | writing back the `int` read at a position reproduces the four bytes there |
| ByteConverter.Float4Written | src/main/java/com/pgvector/PGsparsevec.java:216 | writing back the float read at a position reproduces the four bytes there |
| ByteConverter.Int2s | src/main/java/com/pgvector/PGhalfvec.java:140-142 | the `int2` encodings of a run of values, back to back: two bytes per value |
| ByteConverter.Int4s | src/main/java/com/pgvector/PGsparsevec.java:233-235 | the `int4` encodings of a run of values, back to back: four bytes per value |
| ByteConverter.Float4s | src/main/java/com/pgvector/PGvector.java:109-112 | the `float4` encodings of a run of floats, back to back: four bytes per float |
| ByteConverter.ReadInt2s | src/main/java/com/pgvector/PGhalfvec.java:123-125 | `n` shorts read at consecutive two-byte positions; `ReadInt2sOf` makes it the inverse of `Int2s` |
| ByteConverter.ReadInt4s | src/main/java/com/pgvector/PGsparsevec.java:210-212 | `n` ints read at consecutive four-byte positions; `ReadInt4sOf` makes it the inverse of `Int4s` |
| ByteConverter.ReadFloat4s | src/main/java/com/pgvector/PGsparsevec.java:215-217 | `n` floats read at consecutive four-byte positions; `ReadFloat4sOf` makes it the inverse of `Float4s` |
| ByteConverter.WriteBytes | src/main/java/com/pgvector/PGbit.java:110-112 | the byte-by-byte copy into the buffer leaves it as `Splice` says: the bytes at `idx` and nothing else changed |
| ByteConverter.Int2Read | src/main/java/com/pgvector/PGhalfvec.java:115 | an `int2` read of an encoded short, anywhere in a buffer, yields that short |
| ByteConverter.Int4Read | src/main/java/com/pgvector/PGbit.java:94 | an `int4` read of an encoded int, anywhere in a buffer, yields that int |
| ByteConverter.ReadInt2sOf | src/main/java/com/pgvector/PGhalfvec.java:123-125 | reading `n` shorts back from their encodings gives the shorts |
| ByteConverter.ReadInt4sOf | src/main/java/com/pgvector/PGsparsevec.java:210-212 | reading `n` ints back from their encodings gives the ints |
| ByteConverter.ReadFloat4sOf | src/main/java/com/pgvector/PGsparsevec.java:215-217 | reading `n` floats back from their encodings gives the same bits |
| ByteConverter.Splice | src/main/java/com/pgvector/PGsparsevec.java:223-239 | writing bytes at `idx` puts them in the window `[idx, idx+len)` and leaves every other byte of the buffer unchanged |
| ByteConverter.WriteInt2 | src/main/java/com/pgvector/PGhalfvec.java:138-139 | `int2(target, idx, value)` writes the big-endian low 16 bits at `idx`, nothing else |
| ByteConverter.WriteInt4 | src/main/java/com/pgvector/PGsparsevec.java:230-232 | `int4(target, idx, value)` writes the big-endian low 32 bits at `idx`, nothing else |
| ByteConverter.WriteFloat4 | src/main/java/com/pgvector/PGvector.java:110 | `float4(target, idx, value)` writes the raw bits at `idx`, nothing else |
| JavaString.Inner | src/main/java/com/pgvector/PGvector.java:121 | `substring(1, length-1)` succeeds iff the text has two characters, and the text is its first character, the result, its last character |
| JavaString.Join | src/main/java/com/pgvector/PGvector.java:136 | the elements with the separator between neighbours; the joined text begins with the first element |
| JavaString.RemoveSpaces | src/main/java/com/pgvector/PGvector.java:136 | `replace(" ", "")` leaves no space, and leaves a text without spaces unchanged |
| JavaString.FirstIndex | src/main/java/com/pgvector/PGsparsevec.java:157 | the position of the first `c`: it holds `c` and no earlier position does |
| JavaString.LastIndex | src/main/java/com/pgvector/PGvector.java:121 | the position of the last `c`: it holds `c` and no later position does |
| JavaString.Fields | src/main/java/com/pgvector/PGvector.java:121 | the pieces between separators: at least one, none containing the separator |
| JavaString.DropTrailingEmpty | src/main/java/com/pgvector/PGvector.java:121 | `split` without a limit drops the empty pieces at the end: a prefix of the pieces, ending in a nonempty one, with only empty pieces cut off |
| JavaString.RemoveSpacesJoin | src/main/java/com/pgvector/PGvector.java:136 | `replace(" ", "")` turns the `", "` separators of `Arrays.toString` into `","` when the elements have no spaces |
| JavaString.Split | src/main/java/com/pgvector/PGvector.java:121 | `split(",")` of a text without a comma is the text alone, even when it is empty |
| JavaString.SplitOnce | src/main/java/com/pgvector/PGsparsevec.java:148 | `split(c, 2)` has two parts iff `c` occurs, and then they are the text before the first `c` and everything after it |
| JavaString.SplitOnceAt | src/main/java/com/pgvector/PGsparsevec.java:157 | cutting `a + c + b` at its first `c` gives `a` and `b` when `a` has no `c` |
| JavaString.SplitJoin | src/main/java/com/pgvector/PGvector.java:121 | splitting a comma-joined list of nonempty comma-free texts gives the list back |
| JavaString.IntToString | src/main/java/com/pgvector/PGsparsevec.java:178 | the decimal text of an `int` is nonempty, digits with an optional leading minus |
| JavaString.NatToString | src/main/java/com/pgvector/PGsparsevec.java:178 | the decimal digits of a nonnegative number: nonempty and all digits |
| JavaString.ParseInt | src/main/java/com/pgvector/PGsparsevec.java:151 | `Integer.parseInt` fails only with `NumberFormatException`, and always on the empty text |
| JavaString.ParseIntToString | src/main/java/com/pgvector/PGsparsevec.java:185 | `Integer.parseInt` reads back every `int` that `append(int)` writes |
| VectorText.Texts | src/main/java/com/pgvector/PGvector.java:136 | one `Float.toString` text per element, in order |
| VectorText.ArraysToString | src/main/java/com/pgvector/PGvector.java:136 | `Arrays.toString` text: at least two characters, `[` first, then the first element's text, and `]` last |
| VectorText.FormatFloats | src/main/java/com/pgvector/PGvector.java:132-138 | the `getValue` text has no space, and is `[]` for an empty vector |
| VectorText.FormatFloatsShape | src/main/java/com/pgvector/PGvector.java:136 | `Arrays.toString(v).replace(" ", "")` is `[`, the element texts joined by single commas, `]`, with no space |
| VectorText.FieldsOf | src/main/java/com/pgvector/PGvector.java:121 | cutting the brackets fails iff the text is shorter than two characters, with an index exception |
| VectorText.ParseEach | src/main/java/com/pgvector/PGvector.java:122-125 | one element per field; on success each element is its field's conversion; the only failure is `NumberFormatException` |
| VectorText.ParseEachFails | src/main/java/com/pgvector/PGvector.java:123-125 | the fill loop fails iff some field does not convert |
| VectorText.ParseEachPrefix | src/main/java/com/pgvector/PGvector.java:123-125 | fields that convert contribute their values in order ahead of the rest |
| VectorText.ParseEachAll | src/main/java/com/pgvector/PGhalfvec.java:83-85 | fields that all convert yield exactly their values and complete |
| VectorText.FillParsed | src/main/java/com/pgvector/PGvector.java:122-125 | the index loop leaves in the fresh array, and ends, as `ParseEach` says |
| VectorText.ParseFloats | src/test/java/example1/Pgvector.java:10-16 | parsing fails only with an index or number-format exception |
| VectorText.ParseFormatFloats | src/test/java/example1/Pgvector.java:6-16 | parsing the text of a nonempty vector whose element texts round-trip gives the vector back |
| VectorText.ParseEmptyFloats | src/main/java/com/pgvector/PGvector.java:121-125 | the empty vector prints as `[]`, and `[]` does not parse (its one empty field throws) |
| Pgvector.ToString | src/test/java/example1/Pgvector.java:6-8 | `"null"` for null; else `[`, the element texts joined by commas, `]`; never a space |
| Pgvector.Parse | src/test/java/example1/Pgvector.java:10-17 | null throws `NullPointerException`; otherwise the loop's result is that of `ParseFloats` |
| Pgvector.ParseToString | src/test/java/example1/Pgvector.java:6-16 | `parse(toString(v)) == v` for a nonempty `v` whose element texts round-trip |
| DenseVector.DenseBytes | src/main/java/com/pgvector/PGvector.java:96-113 | the binary form is 4 + 4n bytes long |
| DenseVector.Readable | src/main/java/com/pgvector/PGvector.java:57-79 | the buffer bounds `setByteValue` reads within: the count, and four bytes per counted float |
| DenseVector.Incoming | src/main/java/com/pgvector/PGvector.java:73-79 | `setByteValue` reads as many floats as the signed count at bytes 0-1 says, none if it is negative |
| DenseVector.Target | src/main/java/com/pgvector/PGvector.java:57-71 | the target array is a new one only for a null `vec`, which throws iff the count is negative; an existing array is never shortened and keeps its prefix |
| DenseVector.Store | src/main/java/com/pgvector/PGvector.java:73-79 | `vec[offset++] = f` keeps the array length and ends normally or with an index exception |
| DenseVector.StoreInside | src/main/java/com/pgvector/PGvector.java:73-79 | stores that fit overwrite exactly `vec[offset..offset+n)` and complete |
| DenseVector.StorePastEnd | src/main/java/com/pgvector/PGvector.java:73-79 | stores that run past the end fill up to the end and then throw |
| DenseVector.ReadDenseBytes | src/main/java/com/pgvector/PGvector.java:57 | the count read back is the length cast to `short`, and the floats read back are the vector's first ones |
| DenseVector.SetBytesOfDenseBytes | src/main/java/com/pgvector/PGvector.java:53-80 | `setByteValue(toBytes(v), 0)` on a null vector restores `v` when it has fewer than 32768 elements; otherwise it keeps the low 16 bits of the length, or throws for a negative count |
| DenseVector.SetBytesIgnoresReserved | src/main/java/com/pgvector/PGvector.java:57-79 | changing bytes 2 and 3 of the buffer changes nothing |
| DenseVector.SetBytesKeepsTail | src/main/java/com/pgvector/PGvector.java:61-65 | at offset 0, a longer array keeps its trailing old elements after the incoming ones |
| DenseVector.SetBytesAtOffset | src/main/java/com/pgvector/PGvector.java:66-79 | at a positive offset the array grows to `offset + count` if needed, the floats land at `vec[offset..]` and the other elements stay |
| DenseVector.SetBytesNullAtOffset | src/main/java/com/pgvector/PGvector.java:59-78 | on a null `vec`, an offset at or past the count throws on the first store, leaving an array of zeros |
| DenseVector.DenseBytesStep | src/main/java/com/pgvector/PGvector.java:109-112 | writing one more float extends the written prefix of the binary form |
| DenseVector.SetTextOfGetValue | src/main/java/com/pgvector/PGvector.java:117-138 | `setValue(getValue())` restores a nonempty vector whose element texts round-trip, and a null one |
| DenseVector.Equals | src/main/java/com/pgvector/PGvector.java:147-165 | `equals` throws iff `vec` is null and the argument is a `float[]`; true only for two nulls or two arrays of the same length |
| DenseVector.EqualsItself | src/main/java/com/pgvector/PGvector.java:159-163 | a vector equals its own elements iff none is a NaN |
| DenseVector.EqualsSignedZero | src/main/java/com/pgvector/PGvector.java:160 | -0.0 equals 0.0 under `equals` |
| DenseVector.StoreFloats | src/main/java/com/pgvector/PGvector.java:73-79 | the copy loop leaves the array, and ends, as `Store` says |
| DenseVector.SetBytes | src/main/java/com/pgvector/PGvector.java:53-80 | `NegativeArraySizeException` exactly when `vec` is null and the count negative; otherwise it passes or ends in an index exception; an existing array is never shortened |
| DenseVector.SetText | src/main/java/com/pgvector/PGvector.java:117-127 | null clears `vec`; a text under two characters throws an index exception and keeps `vec`; any longer text replaces `vec`, the only other failure being `NumberFormatException` |
| DenseVector.PGvector.Contents | src/main/java/com/pgvector/PGvector.java:21 | the value is null iff `vec` is |
| DenseVector.PGvector.constructor | src/main/java/com/pgvector/PGvector.java:26-28 | the new vector is null |
| DenseVector.PGvector.FromArray | src/main/java/com/pgvector/PGvector.java:33-36 | the object keeps the caller's array itself |
| DenseVector.PGvector.FromText | src/main/java/com/pgvector/PGvector.java:41-44 | a fresh object holding what `setValue` reads from the text, or the exception it throws |
| DenseVector.PGvector.LengthInBytes | src/main/java/com/pgvector/PGvector.java:82-88 | 0 for null, else the length of the binary form `toBytes` writes |
| DenseVector.PGvector.ToBytes | src/main/java/com/pgvector/PGvector.java:96-113 | nothing for null; else the binary form is written from byte 0 whatever `offset` is, and no other byte changes |
| DenseVector.PGvector.SetByteValue | src/main/java/com/pgvector/PGvector.java:53-80 | `vec` ends as `SetBytes` says; a replaced array is fresh, and the array it replaced (which the caller may still hold) keeps its contents |
| DenseVector.PGvector.IsNull | src/main/java/com/pgvector/PGvector.java:83-84 | true exactly when the vector has no contents, which is when `getValue()` is null |
| DenseVector.PGvector.SetValue | src/main/java/com/pgvector/PGvector.java:117-127 | `vec` ends as `SetText` says: null for null, one parsed element per field, or the exception |
| DenseVector.PGvector.GetValue | src/main/java/com/pgvector/PGvector.java:132-138 | null iff `vec` is null; else `[`, the element texts joined by commas, `]` |
| DenseVector.PGvector.ToArray | src/main/java/com/pgvector/PGvector.java:143-145 | the stored array itself, shared with the caller |
| DenseVector.PGvector.EqualsObject | src/main/java/com/pgvector/PGvector.java:147-165 | the element loop answers as `Equals` says |
| HalfVector.ToHalves | src/main/java/com/pgvector/PGhalfvec.java:37-40 | one narrowed element per input, in order |
| HalfVector.ToFloats | src/main/java/com/pgvector/PGhalfvec.java:96-99 | one widened float per element, in order |
| HalfVector.ParseHalf | src/main/java/com/pgvector/PGhalfvec.java:84 | a field converts exactly when `Float.parseFloat` accepts it, to the narrowed parsed float |
| HalfVector.SetText | src/main/java/com/pgvector/PGhalfvec.java:77-87 | null clears `vec`; a text under two characters throws an index exception and keeps `vec`; any longer text replaces `vec`, the only other failure being `NumberFormatException` |
| HalfVector.HalfText | src/main/java/com/pgvector/PGhalfvec.java:92-102 | null exactly for a null vector; otherwise a text without spaces |
| HalfVector.HalfBytes | src/main/java/com/pgvector/PGhalfvec.java:138-142 | the binary form is 4 + 2n bytes long |
| HalfVector.Readable | src/main/java/com/pgvector/PGhalfvec.java:114-125 | the buffer bounds `setByteValue` reads within: the two header shorts, and two bytes per counted element when the reserved short is 0 |
| HalfVector.DecodeHalf | src/main/java/com/pgvector/PGhalfvec.java:114-126 | a nonzero reserved short always throws; on success there are as many elements as the count says |
| HalfVector.DecodeHalfBytes | src/main/java/com/pgvector/PGhalfvec.java:114-143 | `setByteValue` at `offset` restores exactly the shorts `toBytes` wrote there, for fewer than 32768 elements |
| HalfVector.SetTextOfHalfText | src/main/java/com/pgvector/PGhalfvec.java:77-102 | `setValue(getValue())` restores a nonempty half vector whose elements survive widening, printing, parsing and narrowing, and a null one |
| HalfVector.WriteHalves | src/main/java/com/pgvector/PGhalfvec.java:140-142 | the element loop completes the binary form after the header |
| HalfVector.HalfBytesStep | src/main/java/com/pgvector/PGhalfvec.java:141 | writing one more short extends the written prefix of the binary form |
| HalfVector.PGhalfvec.Contents | src/main/java/com/pgvector/PGhalfvec.java:18 | the value is null iff `vec` is |
| HalfVector.PGhalfvec.constructor | src/main/java/com/pgvector/PGhalfvec.java:23-25 | the new vector is null |
| HalfVector.PGhalfvec.FromFloats | src/main/java/com/pgvector/PGhalfvec.java:32-42 | null for null; else a fresh array with one narrowed element per float, in order |
| HalfVector.PGhalfvec.FromList | src/main/java/com/pgvector/PGhalfvec.java:50-61 | null for null; else a fresh array with one narrowed element per list element, in order |
| HalfVector.PGhalfvec.FromText | src/main/java/com/pgvector/PGhalfvec.java:69-72 | a fresh object holding what `setValue` reads from the text, or the exception it throws |
| HalfVector.PGhalfvec.SetValue | src/main/java/com/pgvector/PGhalfvec.java:77-87 | `vec` ends as `SetText` says: null for null, one narrowed parsed element per field, or the exception |
| HalfVector.PGhalfvec.GetValue | src/main/java/com/pgvector/PGhalfvec.java:92-102 | null iff `vec` is null; else the text of the widened elements |
| HalfVector.PGhalfvec.LengthInBytes | src/main/java/com/pgvector/PGhalfvec.java:107-109 | 0 for null, else the length of the binary form `toBytes` writes |
| HalfVector.PGhalfvec.SetByteValue | src/main/java/com/pgvector/PGhalfvec.java:114-126 | on success `vec` is a fresh array of the decoded shorts; on an exception `vec` is unchanged |
| HalfVector.PGhalfvec.ToBytes | src/main/java/com/pgvector/PGhalfvec.java:131-143 | nothing for null; else the binary form is written at `offset` and no other byte changes |
| HalfVector.PGhalfvec.ToArray | src/main/java/com/pgvector/PGhalfvec.java:150-156 | the widened elements; a null `vec` throws `NullPointerException` |
| BitVector.ShiftIsWeight | src/main/java/com/pgvector/PGbit.java:77 | the source's shift-and-mask reads, and its shift writes, bit `m` counted from the most significant end |
| BitVector.OrWeight | src/main/java/com/pgvector/PGbit.java:38 | or-ing in bit `m` sets it when asked to and leaves the other seven bits |
| BitVector.ByteCount | src/main/java/com/pgvector/PGbit.java:36 | `(length + 7) / 8` is the byte count for a nonnegative length, 0 from -14 to -1, and negative otherwise |
| BitVector.PacksUnique | src/main/java/com/pgvector/PGbit.java:37-39 | there is only one packing of a bit string |
| BitVector.Pack | src/main/java/com/pgvector/PGbit.java:36 | the packing has `(n + 7) / 8` bytes |
| BitVector.PackPacks | src/main/java/com/pgvector/PGbit.java:37-39 | bit `i` is bit `7 - i % 8` of byte `i / 8`, and the padding bits are 0 |
| BitVector.Unpack | src/main/java/com/pgvector/PGbit.java:120-126 | `n` booleans, each the matching packed bit |
| BitVector.UnpackPack | src/main/java/com/pgvector/PGbit.java:120-126 | unpacking a packing gives the bits back |
| BitVector.PackUnpack | src/main/java/com/pgvector/PGbit.java:56-81 | packing the bits of well-sized, zero-padded data gives the data back |
| BitVector.Bools | src/main/java/com/pgvector/PGbit.java:63 | every character other than `'0'` is a 1 |
| BitVector.BitString | src/main/java/com/pgvector/PGbit.java:75-79 | one `'1'` or `'0'` per bit |
| BitVector.PackInto | src/main/java/com/pgvector/PGbit.java:61-64 | the `data[i / 8] \|= bit << (7 - i % 8)` loop over zeros yields `Pack` of the bits |
| BitVector.SetBitAt | src/main/java/com/pgvector/PGbit.java:63 | one or-assignment changes no bit but bit `i` |
| BitVector.PackStep | src/main/java/com/pgvector/PGbit.java:62-64 | one turn of the packing loop sets bit `i` and keeps the later bits 0 |
| BitVector.Text | src/main/java/com/pgvector/PGbit.java:71-81 | null iff `data` is null; `NegativeArraySizeException` exactly for a negative `length`, an index exception exactly when `data` holds fewer than `length` bits; a text has exactly `length` characters |
| BitVector.SetText | src/main/java/com/pgvector/PGbit.java:56-66 | null nulls `data` and keeps `length`; otherwise `length` becomes the text's length |
| BitVector.ArrayOf | src/main/java/com/pgvector/PGbit.java:120-126 | `toArray` yields exactly `length` booleans when it does not throw |
| BitVector.Octets | src/main/java/com/pgvector/PGbit.java:111 | each byte is copied verbatim |
| BitVector.BitBytes | src/main/java/com/pgvector/PGbit.java:104-113 | the binary form is 4 + `data.length` bytes long |
| BitVector.Readable | src/main/java/com/pgvector/PGbit.java:93-98 | the buffer bounds `setByteValue` reads within: the length word, and the bytes it counts when that count is nonnegative |
| BitVector.Decode | src/main/java/com/pgvector/PGbit.java:93-99 | `length` is always overwritten; the read succeeds iff the byte count is nonnegative |
| BitVector.ReadOctets | src/main/java/com/pgvector/PGbit.java:96-98 | each buffer byte is copied verbatim |
| BitVector.DecodeBitBytes | src/main/java/com/pgvector/PGbit.java:93-113 | `setByteValue` restores exactly the `length` and `data` `toBytes` wrote, with no reserved field |
| BitVector.TextOfSetText | src/main/java/com/pgvector/PGbit.java:56-81 | `getValue` after `setValue(s)` is `s` with every character other than `'0'` read as `'1'`, hence `s` itself for a text of 0s and 1s |
| BitVector.SetTextOfText | src/main/java/com/pgvector/PGbit.java:56-81 | `setValue(getValue())` restores `length` and well-sized, zero-padded `data` |
| BitVector.ArrayOfPack | src/main/java/com/pgvector/PGbit.java:120-126 | `toArray` after the boolean constructor gives the booleans back |
| BitVector.NineBits | src/test/java/com/pgvector/PGbitTest.java:14-16 | the bits `010100001` pack to `0b01010000, 0b10000000` and print back as `010100001` |
| BitVector.NineBitsPack | src/test/java/com/pgvector/PGbitTest.java:29-31 | the text `010100001` reads as those nine bits and packs to those two bytes |
| BitVector.NineBitsText | src/test/java/com/pgvector/PGbitTest.java:37-38 | those two bytes of nine bits print as `010100001` |
| BitVector.NineBitsPacked | src/test/java/com/pgvector/PGbitTest.java:14-16 | `0b01010000, 0b10000000` is the packing of the nine bits |
| BitVector.PGbit.State | src/main/java/com/pgvector/PGbit.java:18-19 | `data` is null iff the value's data is |
| BitVector.PGbit.constructor | src/main/java/com/pgvector/PGbit.java:24-26 | length 0, no data |
| BitVector.PGbit.FromBools | src/main/java/com/pgvector/PGbit.java:33-40 | `length` is the array's length and `data` a fresh array holding its packing |
| BitVector.PGbit.FromBoolsOrNull | src/main/java/com/pgvector/PGbit.java:33-40 | `NullPointerException` exactly for a null array; otherwise a fresh object as the boolean constructor leaves it |
| BitVector.PGbit.FromText | src/main/java/com/pgvector/PGbit.java:48-51 | a fresh object holding what `setValue` makes of the text |
| BitVector.PGbit.SetValue | src/main/java/com/pgvector/PGbit.java:56-66 | the fields end as `SetText` says |
| BitVector.PGbit.GetValue | src/main/java/com/pgvector/PGbit.java:71-81 | the character loop yields `Text` of the fields |
| BitVector.PGbit.LengthInBytes | src/main/java/com/pgvector/PGbit.java:86-88 | 0 for null data, else the length of the binary form `toBytes` writes |
| BitVector.PGbit.SetByteValue | src/main/java/com/pgvector/PGbit.java:93-99 | the fields end as `Decode` says; new data is fresh |
| BitVector.PGbit.ToBytes | src/main/java/com/pgvector/PGbit.java:104-113 | nothing for null data; else the binary form is written at `offset` and no other byte changes |
| BitVector.PGbit.ToArray | src/main/java/com/pgvector/PGbit.java:120-126 | the bit loop yields `ArrayOf` the fields |
| SparseModel.NonzeroIndices | src/main/java/com/pgvector/PGsparsevec.java:50-57 | at most `n` positions, each within the array |
| SparseModel.WellFormed | src/main/java/com/pgvector/PGsparsevec.java:152-153 | every way of setting the fields keeps `values` beside a non-null `indices`, one value per index |
| SparseModel.NonzeroValues | src/main/java/com/pgvector/PGsparsevec.java:50-57 | one value per kept position |
| SparseModel.NonzeroIndicesSpec | src/main/java/com/pgvector/PGsparsevec.java:36-58 | the kept positions increase strictly, hold nonzero elements, and include every nonzero element's position |
| SparseModel.NonzeroValuesSpec | src/main/java/com/pgvector/PGsparsevec.java:50-57 | `values[j] == v[indices[j]]` |
| SparseModel.FromDense | src/main/java/com/pgvector/PGsparsevec.java:36-58 | the array constructor leaves one value per index |
| SparseModel.Scatter | src/main/java/com/pgvector/PGsparsevec.java:252-254 | the scatter succeeds iff every index is within the array, and keeps its length |
| SparseModel.ToDense | src/main/java/com/pgvector/PGsparsevec.java:246-256 | null iff `indices` is null; otherwise an array of `dimensions` elements when it does not throw |
| SparseModel.ScatterIncreasing | src/main/java/com/pgvector/PGsparsevec.java:251-254 | with increasing in-range indices, each index gets its value and every other slot keeps its element |
| SparseModel.Normalized | src/main/java/com/pgvector/PGsparsevec.java:251-254 | every zero becomes +0.0, every other element stays |
| SparseModel.ToDenseFromDense | src/main/java/com/pgvector/PGsparsevec.java:246-256 | `toArray()` after the array constructor gives the array back, with -0.0 read as +0.0 |
| SparseModel.DropZeros | src/main/java/com/pgvector/PGsparsevec.java:113 | exactly the entries with a nonzero value remain, keys still distinct |
| SparseModel.InsertByKey | src/main/java/com/pgvector/PGsparsevec.java:114 | inserting a new key keeps the list strictly ordered and adds just that entry |
| SparseModel.SortByKey | src/main/java/com/pgvector/PGsparsevec.java:114 | the sort yields the same entries strictly ordered by key |
| SparseModel.MapEntries | src/main/java/com/pgvector/PGsparsevec.java:109-114 | the entries kept are exactly the map's nonzero ones, strictly ordered by key |
| SparseModel.StrictlyByKeyUnique | src/main/java/com/pgvector/PGsparsevec.java:114 | two strictly ordered lists with the same entries are equal |
| SparseModel.MapEntriesOrderFree | src/main/java/com/pgvector/PGsparsevec.java:109-114 | the map constructor's result does not depend on the map's iteration order |
| SparseModel.Keys | src/main/java/com/pgvector/PGsparsevec.java:122 | one key per entry, in order |
| SparseModel.Values | src/main/java/com/pgvector/PGsparsevec.java:123 | one value per entry, in order |
| SparseModel.FromMap | src/main/java/com/pgvector/PGsparsevec.java:106-128 | the map constructor leaves one value per index |
| SparseModel.FromMapEntries | src/main/java/com/pgvector/PGsparsevec.java:106-128 | `dimensions` is the argument; indices increase strictly; each carries its map value, which is nonzero; every nonzero map entry is stored |
| SparseModel.FromNullMap | src/main/java/com/pgvector/PGsparsevec.java:110-118 | a null map gives an empty, not a null, vector |
| SparseModel.SparseBytes | src/main/java/com/pgvector/PGsparsevec.java:223-239 | the binary form is 12 + 4 per index + 4 per value bytes long |
| SparseModel.Readable | src/main/java/com/pgvector/PGsparsevec.java:200-217 | the buffer bounds `setByteValue` reads within: the three header words, and eight bytes per element when the count is usable |
| SparseModel.Decode | src/main/java/com/pgvector/PGsparsevec.java:200-218 | `dimensions` is always overwritten; a nonzero reserved word throws with both arrays untouched |
| SparseModel.DecodeSparseBytes | src/main/java/com/pgvector/PGsparsevec.java:200-239 | `setByteValue` restores exactly the `dimensions`, `indices` and `values` `toBytes` wrote |
| SparseModel.ReadHeader | src/main/java/com/pgvector/PGsparsevec.java:201-204 | the three header words read back as written |
| SparseModel.ReadRuns | src/main/java/com/pgvector/PGsparsevec.java:209-217 | the index run and the value run read back as written |
| SparseModel.SixElements | src/test/java/com/pgvector/PGsparsevecTest.java:14-15 | `{1, 0, 2, 0, 3, 0}` is stored as indices 0, 2, 4 and values 1, 2, 3, and `toArray` gives it back |
| SparseModel.SixIndices | src/test/java/com/pgvector/PGsparsevecTest.java:52-53 | its nonzero positions are 0, 2, 4 |
| SparseModel.IncreasingUnique | src/main/java/com/pgvector/PGsparsevec.java:50-57 | two increasing sequences with the same elements are equal |
| SparseText.EntryTexts | src/main/java/com/pgvector/PGsparsevec.java:174-181 | one `index+1:value` text per element, in order |
| SparseText.EntryText | src/main/java/com/pgvector/PGsparsevec.java:178-180 | one element written as its `int` index plus one, `:`, and its value's text; `EntryTextParses` reads it back |
| SparseText.Format | src/main/java/com/pgvector/PGsparsevec.java:171-186 | the text `getValue` builds begins with `{` |
| SparseText.Text | src/main/java/com/pgvector/PGsparsevec.java:167-188 | null iff `indices` is null; the only exception is a negative builder capacity |
| SparseText.EntryIndex | src/main/java/com/pgvector/PGsparsevec.java:157-158 | the index fails only with `NumberFormatException` |
| SparseText.ParseEntry | src/main/java/com/pgvector/PGsparsevec.java:157-159 | reading one element: the index fails only with `NumberFormatException`; the value fails with an index exception exactly when there is no `:`, and otherwise only with `NumberFormatException` |
| SparseText.EntryValue | src/main/java/com/pgvector/PGsparsevec.java:157-159 | the value fails iff there is no `:` or the text after it does not parse |
| SparseText.ParseAll | src/main/java/com/pgvector/PGsparsevec.java:155-160 | one reading per element, in order |
| SparseText.StoreFrom | src/main/java/com/pgvector/PGsparsevec.java:155-160 | the rest of the loop fills one slot of each array per remaining element |
| SparseText.Store | src/main/java/com/pgvector/PGsparsevec.java:152-160 | both arrays keep one slot per element |
| SparseText.ParseEntries | src/main/java/com/pgvector/PGsparsevec.java:152-160 | both arrays keep one slot per element of the text |
| SparseText.StorePass | src/main/java/com/pgvector/PGsparsevec.java:155-160 | the loop completes iff every element's index and value parse |
| SparseText.StorePassFrom | src/main/java/com/pgvector/PGsparsevec.java:155-160 | from element `i` on, the loop completes iff every later element parses |
| SparseText.StorePrefix | src/main/java/com/pgvector/PGsparsevec.java:155-160 | elements that parsed put their indices and values, in order, ahead of what the rest of the loop yields |
| SparseText.StoreAll | src/main/java/com/pgvector/PGsparsevec.java:155-160 | elements that all parse are stored in order and the loop completes |
| SparseText.IndexStop | src/main/java/com/pgvector/PGsparsevec.java:158 | a bad index stops the loop with the prefix stored and zeros after it |
| SparseText.ValueStop | src/main/java/com/pgvector/PGsparsevec.java:159 | a bad value stops the loop after that element's index was stored |
| SparseText.SetText | src/main/java/com/pgvector/PGsparsevec.java:144-162 | null nulls `indices` and keeps the rest; a completed read leaves one value per index; one value per index is never broken |
| SparseText.EntryTextParses | src/main/java/com/pgvector/PGsparsevec.java:157-159 | an element's text is nonempty, has no `,` or `/`, and reads back as its index and value |
| SparseText.EntryTextsParse | src/main/java/com/pgvector/PGsparsevec.java:174-181 | every written element text reads back |
| SparseText.TextCut | src/main/java/com/pgvector/PGsparsevec.java:148 | the text is cut at the slash after the closing brace |
| SparseText.SetTextOf | src/main/java/com/pgvector/PGsparsevec.java:148-160 | what `setValue` makes of a text shaped like `getValue`'s output |
| SparseText.SetTextOfText | src/main/java/com/pgvector/PGsparsevec.java:144-188 | `setValue(getValue())` restores `dimensions`, `indices` and `values` when there is at least one element and every value's text round-trips |
| SparseText.ParseEntriesAll | src/main/java/com/pgvector/PGsparsevec.java:155-160 | elements that all parse are stored in order and the loop completes |
| SparseText.SixElementsText | src/test/java/com/pgvector/PGsparsevecTest.java:40-41 | indices 0, 2, 4 with values 1, 2, 3 in 6 dimensions print as `{1:1.0,3:2.0,5:3.0}/6` |
| SparseText.SixElementTexts | src/main/java/com/pgvector/PGsparsevec.java:174-181 | its element texts join to `1:1.0,3:2.0,5:3.0` |
| SparseText.SixEntryTexts | src/main/java/com/pgvector/PGsparsevec.java:178-180 | its element texts are `1:1.0`, `3:2.0` and `5:3.0`: each 0-based index printed one higher |
| SparseText.EmptyTextFails | src/main/java/com/pgvector/PGsparsevec.java:148-160 | an empty sparse vector prints as `{}/D`, and `setValue("{}/D")` throws `NumberFormatException` after setting one-element arrays |
| SparseText.EmptyElementFails | src/main/java/com/pgvector/PGsparsevec.java:157-158 | the one empty element has no index |
| SparseText.SetTextFixed | src/main/java/com/pgvector/PGsparsevec.java:144-162 | the corrected reader keeps one value per index |
| SparseText.SetTextFixedOfText | src/main/java/com/pgvector/PGsparsevec.java:144-188 | with the correction, `setValue(getValue())` restores every sparse vector whose value texts round-trip, the empty one included |
| SparseVector.PGsparsevec.State | src/main/java/com/pgvector/PGsparsevec.java:20-22 | each field is null iff the value's is |
| SparseVector.PGsparsevec.constructor | src/main/java/com/pgvector/PGsparsevec.java:27-29 | zero dimensions, null arrays |
| SparseVector.PGsparsevec.FromArray | src/main/java/com/pgvector/PGsparsevec.java:36-58 | fresh arrays holding `FromDense` of the array |
| SparseVector.PGsparsevec.FromArrayOrNull | src/main/java/com/pgvector/PGsparsevec.java:36-58 | `NullPointerException` exactly for a null array; otherwise a fresh object as the array constructor leaves it |
| SparseVector.PGsparsevec.FromList | src/main/java/com/pgvector/PGsparsevec.java:66-95 | null `indices` for a null list; else as the array constructor on the list's values |
| SparseVector.PGsparsevec.FromMap | src/main/java/com/pgvector/PGsparsevec.java:106-128 | fresh arrays holding `FromMap` of the entries |
| SparseVector.PGsparsevec.FromText | src/main/java/com/pgvector/PGsparsevec.java:136-139 | a fresh object holding what `setValue` reads from the text, or the exception it throws |
| SparseVector.PGsparsevec.SetValue | src/main/java/com/pgvector/PGsparsevec.java:144-162 | the fields end as `SetText` says |
| SparseVector.PGsparsevec.GetValue | src/main/java/com/pgvector/PGsparsevec.java:167-188 | the builder loop yields `Text` of the fields |
| SparseVector.PGsparsevec.LengthInBytes | src/main/java/com/pgvector/PGsparsevec.java:193-195 | 0 for null, else the length of the binary form `toBytes` writes |
| SparseVector.PGsparsevec.SetByteValue | src/main/java/com/pgvector/PGsparsevec.java:200-218 | the fields end as `Decode` says; new arrays are fresh |
| SparseVector.PGsparsevec.ToBytes | src/main/java/com/pgvector/PGsparsevec.java:223-239 | nothing for null; else the binary form is written at `offset` and no other byte changes |
| SparseVector.PGsparsevec.ToArray | src/main/java/com/pgvector/PGsparsevec.java:246-256 | the scatter loop yields `ToDense` of the fields |
| SparseVector.PGsparsevec.GetDimensions | src/main/java/com/pgvector/PGsparsevec.java:263-265 | the `dimensions` field |
| SparseVector.PGsparsevec.GetIndices | src/main/java/com/pgvector/PGsparsevec.java:272-274 | the object's own array, not a copy |
| SparseVector.PGsparsevec.GetValues | src/main/java/com/pgvector/PGsparsevec.java:281-283 | the object's own array, not a copy |
| SparseVector.EntryArrays | src/main/java/com/pgvector/PGsparsevec.java:117-125 | fresh arrays of the sorted entries' keys and values |
| SparseVector.JoinEntries | src/main/java/com/pgvector/PGsparsevec.java:174-181 | the builder loop appends the element texts with a comma before all but the first |
| SparseVector.ReadInt4Array | src/main/java/com/pgvector/PGsparsevec.java:209-212 | a fresh array of the `n` ints read from the buffer |
| SparseVector.ReadFloat4Array | src/main/java/com/pgvector/PGsparsevec.java:214-217 | a fresh array of the `n` floats read from the buffer |
| SparseVector.CountNonzeros | src/main/java/com/pgvector/PGsparsevec.java:39-44 | `nnz` is the number of nonzero elements |
| SparseVector.FillNonzeros | src/main/java/com/pgvector/PGsparsevec.java:47-57 | fresh arrays of the nonzero positions and their elements |
| SparseVector.NonzeroStep | src/main/java/com/pgvector/PGsparsevec.java:51-56 | one more element adds its position and value iff it is nonzero |
| SparseVector.NonzeroCountGrows | src/main/java/com/pgvector/PGsparsevec.java:39-44 | a prefix has no more nonzero elements than the whole |
| SparseVector.FillEntries | src/main/java/com/pgvector/PGsparsevec.java:152-160 | fresh arrays and an outcome exactly as `ParseEntries` says |
| SparseVector.StoreEntries | src/main/java/com/pgvector/PGsparsevec.java:155-160 | the element loop leaves the arrays, and ends, as `Store` says |
| SparseVector.ReadIndex | src/main/java/com/pgvector/PGsparsevec.java:157-158 | element `i`'s index reading |
| SparseVector.ReadValue | src/main/java/com/pgvector/PGsparsevec.java:157-159 | element `i`'s value reading |
| SparseVector.FormatStep | src/main/java/com/pgvector/PGsparsevec.java:175-180 | one more element extends the joined text by a comma and its text |
| SparseVector.Int4sStep | src/main/java/com/pgvector/PGsparsevec.java:233-235 | writing one more index extends the written prefix of the binary form |
| SparseVector.WriteIndices | src/main/java/com/pgvector/PGsparsevec.java:233-235 | the index loop writes the indices after the header |
| SparseVector.WriteValues | src/main/java/com/pgvector/PGsparsevec.java:236-238 | the value loop writes the values after the indices |
| SparseVector.Float4sStep | src/main/java/com/pgvector/PGsparsevec.java:236-238 | writing one more value extends the written prefix of the binary form |
| SparseVector.ScatterStep | src/main/java/com/pgvector/PGsparsevec.java:252-254 | one more store of the scatter loop, or an exception that persists |

## Left out

- `addVectorType`, `addHalfvecType`, `addBitType`: driver registration through `conn.unwrap(...)`, a foreign call.
- The `PGobject` base class (`type`, `isNull` of the other classes, `equals` and `hashCode` of the classes that do not override them), `Serializable` and `Cloneable`.
- `Float.toString`, `Float.parseFloat`, `Float.floatToFloat16` and `Float.float16ToFloat` are not defined. They are parameters; the properties that need them assume only that texts are nonempty and free of `,`, `/` and spaces, and that an element's text parses back to its bits.
- `Integer.parseInt` accepts only ASCII digits here; Java also accepts other Unicode decimal digits.
- JavaString.Inner, BitVector.Bools and BitVector.SetText: texts are sequences of Unicode scalar values, not of UTF-16 code units, so `length()`, `charAt` and `substring` differ from Java on texts with characters outside the Basic Multilingual Plane (Java counts U+1F600 as two characters, its two surrogate halves). For such texts `PGbit.setValue` gets another `length` and `data`, and `substring(1, length() - 1)` cuts elsewhere. No vector text the server or `getValue` produces contains such characters.
- DenseVector.SetText, HalfVector.SetText, SparseText.SetText and Pgvector.Parse: they read texts through `JavaString.Inner` and `JavaString.Split`, and so count characters the same way, as the line above says.
- `List<T extends Number>` arguments are given as the sequence of their elements' `floatValue()`. The `double`-to-`float` narrowing and a `NullPointerException` from a null element are not modelled.
- Map arguments of the sparse map constructor are given as their entry sequence with distinct keys, already converted with `intValue()`/`floatValue()`. Null keys and values (a `NullPointerException`) are not modelled.
- Byte-buffer bounds are preconditions (`Readable`, `bytes.Length`) rather than `ArrayIndexOutOfBoundsException` paths, and buffer position arithmetic such as `offset + 12 + i * 4` is not wrapped. Buffers of 2^31 bytes cannot exist.
- `OutOfMemoryError` for huge allocations.
- `PGbit.length()`, `PGbit.toByteArray()` and the `PGbit(byte[])` constructor, which the tests call, are not part of the `PGbit` source. The bytes that `toByteArray()` would return are checked through `data` in `BitVector.NineBits`.
- BitVector.PGbit.FromBools: requires at most 2^31 - 8 booleans; for longer arrays Java computes a negative byte count and throws `NegativeArraySizeException`, which the model does not state.
- BitVector.PGbit.SetValue, BitVector.PGbit.FromText and BitVector.SetText: texts are at most 2^31 - 1 characters long, which is the Java limit anyway.
- SparseText.SetText: modelled exactly as written, including the failure on `{}/D` listed under Findings. The corrected reader `SparseText.SetTextFixed` is a separate definition, and the `PGsparsevec` class keeps the behaviour as written.
- A dense or half vector with no elements prints as `[]`, which `setValue` cannot read back (`VectorText.ParseEmptyFloats`). The server has no zero-dimension vectors, so this is noted but not listed as a finding.
- Concurrency: none of these classes is thread-safe. The model is sequential.

## Findings

| source | as written | input that shows it | evidently intended | confidence | as-written member | corrected member |
|---|---|---|---|---|---|---|
| src/main/java/com/pgvector/PGsparsevec.java:148-160 | `setValue` splits the text between the braces at commas, and `"".split(",")` yields one empty element, so `Integer.parseInt("")` throws | `setValue("{}/3")`, which is also what `getValue()` returns for a sparse vector with no elements (`new PGsparsevec(new float[3])`) | `{}/D` reads as a `D`-dimensional vector with no elements, so `setValue(getValue())` restores every sparse vector | not executed | SparseText.EmptyTextFails | SparseText.SetTextFixedOfText |

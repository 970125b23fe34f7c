/**
 * The text helper of the plain-JDBC example (`example1.Pgvector`): a dense
 * vector as `[a,b,c]` and back, without the `PGvector` class.
 */
module Pgvector {
  import opened Java
  import opened JavaString
  import opened FloatText
  import opened VectorText

  /**
   * `Pgvector.toString(v)`: `Arrays.toString(v).replace(" ", "")`, which is
   * "null" for a null array.
   */
  function ToString(v: Option<seq<Float32>>, ft: FloatText): (r: string)
    ensures v.None? ==> r == "null"
    ensures v.Some? && Plain(ft) ==> r == "[" + Join(",", Texts(v.value, ft)) + "]"
    ensures Plain(ft) ==> ' ' !in r
  {
    match v
    case None => "null"
    case Some(a) =>
      assert Plain(ft) ==> FormatFloats(a, ft) == "[" + Join(",", Texts(a, ft)) + "]" && ' ' !in FormatFloats(a, ft) by {
        if Plain(ft) {
          FormatFloatsShape(a, ft);
        }
      }
      FormatFloats(a, ft)
  }

  /**
   * `Pgvector.parse(v)`: the floats of the comma-separated fields between
   * the first and last characters, or the exception (a null text throws
   * `NullPointerException`).
   */
  method Parse(v: Option<string>, ft: FloatText) returns (r: Result<seq<Float32>>)
    ensures v.None? ==> r == Err(NullPointer)
    ensures v.Some? ==> r == ParseFloats(v.value, ft)
  {
    if v.None? {
      return Err(NullPointer);
    }
    var fields := FieldsOf(v.value);
    if fields.Err? {
      return Err(fields.error);
    }
    var s := fields.value;
    var f := new Float32[|s|](_ => PositiveZero);
    var out := FillParsed(f, s, ft.parse, PositiveZero);
    if out.Fail? {
      return Err(out.error);
    }
    return Ok(f[..]);
  }

  /**
   * `parse(toString(v))` is `v` for a nonempty vector whose element texts
   * parse back to the same bits.
   */
  lemma ParseToString(v: seq<Float32>, ft: FloatText)
    requires Plain(ft)
    requires |v| >= 1
    requires forall i :: 0 <= i < |v| ==> RoundTrips(ft, v[i])
    ensures ParseFloats(ToString(Some(v), ft), ft) == Ok(v)
  {
    ParseFormatFloats(v, ft);
  }
}

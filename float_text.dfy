/**
 * The floating-point conversions the codecs call but that this model does
 * not define: decimal text (`Float.toString`, `Float.parseFloat`) and
 * half precision (`Float.floatToFloat16`, `Float.float16ToFloat`). Every
 * operation that uses them takes them as a parameter, so every property
 * proved holds for whatever conversions the Java platform supplies, as long
 * as they meet the stated assumptions.
 */
module FloatText {
  import opened Java

  /** `Float.toString` and `Float.parseFloat` (which throws `NumberFormatException` where this is `None`). */
  datatype FloatText = FloatText(format: Float32 -> string, parse: string -> Option<Float32>)

  /**
   * What every use relies on from `Float.toString`: its texts ("1.0",
   * "-3.5E-4", "NaN", "Infinity") are never empty and never contain a
   * comma, a slash or a space; and `Float.parseFloat("")` throws.
   */
  ghost predicate Plain(ft: FloatText)
  {
    && (forall f: Float32 :: ft.format(f) != [] && ',' !in ft.format(f)
                             && '/' !in ft.format(f) && ' ' !in ft.format(f))
    && ft.parse("") == None
  }

  /** The text of `f` parses back to the same bits (false for NaNs with an unusual payload). */
  predicate RoundTrips(ft: FloatText, f: Float32)
  {
    ft.parse(ft.format(f)) == Some(f)
  }

  /** `Float.floatToFloat16` and `Float.float16ToFloat`, on raw bit patterns. */
  datatype HalfFloat = HalfFloat(toHalf: Float32 -> Int16, toFloat: Int16 -> Float32)
}

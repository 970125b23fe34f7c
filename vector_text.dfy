/**
 * The bracketed text form shared by dense and half vectors and by the
 * example helper: `Arrays.toString(floats).replace(" ", "")` going out, and
 * `s.substring(1, s.length() - 1).split(",")` followed by one
 * `Float.parseFloat` per field coming in.
 */
module VectorText {
  import opened Java
  import opened JavaString
  import opened FloatText

  /** `Arrays.toString` of a `float[]` whose elements print as `texts`. */
  function ArraysToString(texts: seq<string>): (r: string)
    ensures |r| >= 2 && r[0] == '[' && r[|r| - 1] == ']'
    ensures |texts| >= 1 ==> "[" + texts[0] <= r
  {
    "[" + Join(", ", texts) + "]"
  }

  /** `Float.toString` of every element. */
  function Texts(v: seq<Float32>, ft: FloatText): (r: seq<string>)
    ensures |r| == |v|
    ensures forall i :: 0 <= i < |v| ==> r[i] == ft.format(v[i])
  {
    seq(|v|, i requires 0 <= i < |v| => ft.format(v[i]))
  }

  /** `Arrays.toString(v).replace(" ", "")`. */
  function FormatFloats(v: seq<Float32>, ft: FloatText): (r: string)
    ensures ' ' !in r
    ensures |v| == 0 ==> r == "[]"
  {
    RemoveSpaces(ArraysToString(Texts(v, ft)))
  }

  /**
   * The text of a vector is a bracket, the element texts in order separated
   * by single commas, and a closing bracket; it has no spaces.
   */
  lemma FormatFloatsShape(v: seq<Float32>, ft: FloatText)
    requires Plain(ft)
    ensures FormatFloats(v, ft) == "[" + Join(",", Texts(v, ft)) + "]"
    ensures ' ' !in FormatFloats(v, ft)
  {
    var texts := Texts(v, ft);
    RemoveSpacesAppend("[" + Join(", ", texts), "]");
    RemoveSpacesAppend("[", Join(", ", texts));
    RemoveSpacesJoin(texts);
  }

  /**
   * The fields of a bracketed list: the text without its first and last
   * characters, split at commas.
   */
  function FieldsOf(s: string): (r: Result<seq<string>>)
    ensures r.Err? <==> |s| < 2
    ensures r.Err? ==> r.error == IndexOutOfBounds
  {
    match Inner(s)
    case Err(e) => Err(e)
    case Ok(body) => Ok(Split(body, ','))
  }

  /**
   * What a loop `a = new T[fields.length]; for (i...) a[i] = conv(fields[i]);`
   * leaves in `a`, and how it ends: converted elements up to the first field
   * that fails, zeros from there on, and a `NumberFormatException` if a
   * field failed.
   */
  function ParseEach<T>(fields: seq<string>, conv: string -> Option<T>, zero: T): (r: (seq<T>, Outcome))
    ensures |r.0| == |fields|
    ensures r.1.Pass? ==> forall i :: 0 <= i < |fields| ==> conv(fields[i]) == Some(r.0[i])
    ensures r.1.Pass? || r.1 == Fail(NumberFormat)
  {
    if fields == [] then ([], Pass)
    else match conv(fields[0])
      case None => (Zeros(|fields|, zero), Fail(NumberFormat))
      case Some(x) =>
        var rest := ParseEach(fields[1..], conv, zero);
        ([x] + rest.0, rest.1)
  }

  /** The fill loop fails exactly when some field does not convert. */
  lemma {:induction false} ParseEachFails<T>(fields: seq<string>, conv: string -> Option<T>, zero: T)
    ensures ParseEach(fields, conv, zero).1.Fail? <==> exists i :: 0 <= i < |fields| && conv(fields[i]) == None
  {
    if fields != [] && conv(fields[0]).Some? {
      ParseEachFails(fields[1..], conv, zero);
      if exists i :: 0 <= i < |fields| && conv(fields[i]) == None {
        var i :| 0 <= i < |fields| && conv(fields[i]) == None;
        assert fields[1..][i - 1] == fields[i];
      }
    }
  }

  /** Converting a prefix that all succeeds leaves the rest to the remaining fields. */
  lemma {:induction false} ParseEachPrefix<T>(fields: seq<string>, conv: string -> Option<T>, zero: T, p: seq<T>)
    requires |p| <= |fields|
    requires forall j :: 0 <= j < |p| ==> conv(fields[j]) == Some(p[j])
    ensures ParseEach(fields, conv, zero).0 == p + ParseEach(fields[|p|..], conv, zero).0
    ensures ParseEach(fields, conv, zero).1 == ParseEach(fields[|p|..], conv, zero).1
  {
    if p == [] {
      assert fields[0..] == fields;
      assert p + ParseEach(fields, conv, zero).0 == ParseEach(fields, conv, zero).0;
    } else {
      var tail := ParseEach(fields[|p|..], conv, zero);
      ParseEachPrefix(fields[1..], conv, zero, p[1..]);
      assert fields[1..][|p| - 1..] == fields[|p|..];
      assert ParseEach(fields, conv, zero).0 == [p[0]] + ParseEach(fields[1..], conv, zero).0;
      assert [p[0]] + (p[1..] + tail.0) == p + tail.0;
    }
  }

  /**
   * The fill loop itself, on an array of `fields.length` zeros: converts
   * field by field and stops at the first that does not convert.
   */
  method FillParsed<T>(a: array<T>, fields: seq<string>, conv: string -> Option<T>, zero: T) returns (out: Outcome)
    requires a.Length == |fields|
    requires forall j :: 0 <= j < a.Length ==> a[j] == zero
    modifies a
    ensures (a[..], out) == ParseEach(fields, conv, zero)
  {
    var i := 0;
    while i < |fields|
      invariant 0 <= i <= |fields|
      invariant forall j :: 0 <= j < i ==> conv(fields[j]) == Some(a[j])
      invariant forall j :: i <= j < |fields| ==> a[j] == zero
    {
      var x := conv(fields[i]);
      if x.None? {
        ParseEachPrefix(fields, conv, zero, a[..i]);
        assert a[..] == a[..i] + Zeros(|fields| - i, zero);
        return Fail(NumberFormat);
      }
      a[i] := x.value;
      i := i + 1;
    }
    ParseEachPrefix(fields, conv, zero, a[..]);
    assert fields[|fields|..] == [];
    assert a[..] + [] == a[..];
    return Pass;
  }

  /**
   * The vector a text denotes, or the exception the fill loop ends with:
   * `IndexOutOfBounds` for a text shorter than two characters,
   * `NumberFormat` when a field does not parse.
   */
  function ParseFloats(s: string, ft: FloatText): (r: Result<seq<Float32>>)
    ensures r.Err? ==> r.error in {IndexOutOfBounds, NumberFormat}
  {
    match FieldsOf(s)
    case Err(e) => Err(e)
    case Ok(fields) =>
      var (v, out) := ParseEach(fields, ft.parse, PositiveZero);
      if out.Pass? then Ok(v) else Err(out.error)
  }

  lemma {:induction false} ParseEachAll<T>(fields: seq<string>, conv: string -> Option<T>, zero: T, v: seq<T>)
    requires |v| == |fields|
    requires forall i :: 0 <= i < |fields| ==> conv(fields[i]) == Some(v[i])
    ensures ParseEach(fields, conv, zero) == (v, Pass)
  {
    if fields != [] {
      ParseEachAll(fields[1..], conv, zero, v[1..]);
      assert v == [v[0]] + v[1..];
    }
  }

  /**
   * Reading a vector's own text gives the vector back, when it has at least
   * one element and each element's text parses to the same bits.
   */
  lemma ParseFormatFloats(v: seq<Float32>, ft: FloatText)
    requires Plain(ft)
    requires |v| >= 1
    requires forall i :: 0 <= i < |v| ==> RoundTrips(ft, v[i])
    ensures ParseFloats(FormatFloats(v, ft), ft) == Ok(v)
  {
    var texts := Texts(v, ft);
    FormatFloatsShape(v, ft);
    var s := FormatFloats(v, ft);
    assert Inner(s) == Ok(Join(",", texts));
    SplitJoin(texts, ',');
    ParseEachAll(texts, ft.parse, PositiveZero, v);
  }

  /**
   * The empty vector is written "[]", which does not read back: the one
   * field is empty and `Float.parseFloat("")` throws.
   */
  lemma ParseEmptyFloats(ft: FloatText)
    requires Plain(ft)
    ensures FormatFloats([], ft) == "[]"
    ensures ParseFloats("[]", ft) == Err(NumberFormat)
  {
    FormatFloatsShape([], ft);
    assert Inner("[]") == Ok("");
    assert Split("", ',') == [""];
  }
}

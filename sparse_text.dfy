/**
 * The text form of a sparse vector, `{i:v,...}/D` with 1-based indices:
 * `getValue` writing it with a `StringBuilder`, `setValue` reading it with
 * `split("/", 2)`, `substring`, `split(",")`, `split(":", 2)`,
 * `Integer.parseInt` and `Float.parseFloat`.
 */
module SparseText {
  import opened Java
  import opened JavaString
  import opened FloatText
  import opened SparseModel

  // ---------------------------------------------------------------------------
  // Writing

  /** One element: its 1-based index (in `int` arithmetic), ':', and its value. */
  function EntryText(index: Int32, value: Float32, ft: FloatText): string
  {
    IntToString(Wrap32(index + 1)) + ":" + ft.format(value)
  }

  function EntryTexts(idx: seq<Int32>, vals: seq<Float32>, ft: FloatText): (r: seq<string>)
    requires |idx| == |vals|
    ensures |r| == |idx| && forall i :: 0 <= i < |idx| ==> r[i] == EntryText(idx[i], vals[i], ft)
  {
    seq(|idx|, i requires 0 <= i < |idx| => EntryText(idx[i], vals[i], ft))
  }

  /** The text `getValue` builds: the elements in braces, a slash, the dimension count. */
  function Format(dims: Int32, idx: seq<Int32>, vals: seq<Float32>, ft: FloatText): (r: string)
    requires |idx| == |vals|
    ensures "{" <= r
  {
    "{" + Join(",", EntryTexts(idx, vals, ft)) + "}/" + IntToString(dims)
  }

  /**
   * `getValue()`: null for a null `indices`; the initial capacity
   * `13 + 27 * n` is computed in `int` and throws when it overflows to a
   * negative number; otherwise the text.
   */
  function Text(s: Sparse, ft: FloatText): (r: Result<Option<string>>)
    requires WellFormed(s)
    ensures r == Ok(None) <==> s.indices.None?
    ensures r.Err? ==> r.error == NegativeArraySize
  {
    match s.indices
    case None => Ok(None)
    case Some(idx) =>
      if Wrap32(13 + 27 * |idx|) < 0 then Err(NegativeArraySize)
      else Ok(Some(Format(s.dimensions, idx, s.values.value, ft)))
  }

  // ---------------------------------------------------------------------------
  // Reading

  /** `Integer.parseInt(ep[0]) - 1` for the element `el`. */
  function EntryIndex(el: string): (r: Result<Int32>)
    ensures r.Err? ==> r.error == NumberFormat
  {
    match ParseInt(SplitOnce(el, ':')[0])
    case Err(e) => Err(e)
    case Ok(k) => Ok(Wrap32(k - 1))
  }

  /** `Float.parseFloat(ep[1])` for the element `el`; with no ':' there is no `ep[1]`. */
  function EntryValue(el: string, ft: FloatText): (r: Result<Float32>)
    ensures r.Err? <==> ':' !in el || ft.parse(SplitOnce(el, ':')[1]).None?
  {
    var ep := SplitOnce(el, ':');
    if |ep| < 2 then Err(IndexOutOfBounds)
    else match ft.parse(ep[1])
      case None => Err(NumberFormat)
      case Some(f) => Ok(f)
  }

  /** What reading one element yields: its index and its value, each parsed or the exception. */
  datatype Entry = Entry(index: Result<Int32>, value: Result<Float32>)

  function ParseEntry(el: string, ft: FloatText): (r: Entry)
    ensures r.index.Err? ==> r.index.error == NumberFormat
    ensures r.value == Err(IndexOutOfBounds) <==> ':' !in el
    ensures r.value.Err? ==> r.value.error in {IndexOutOfBounds, NumberFormat}
  {
    Entry(EntryIndex(el), EntryValue(el, ft))
  }

  /** Every element read on its own. */
  function ParseAll(els: seq<string>, ft: FloatText): (r: seq<Entry>)
    ensures |r| == |els| && forall i :: 0 <= i < |els| ==> r[i] == ParseEntry(els[i], ft)
  {
    seq(|els|, i requires 0 <= i < |els| => ParseEntry(els[i], ft))
  }

  /** What the element loop leaves in `indices` and `values`, and how it ends. */
  datatype Filled = Filled(indices: seq<Int32>, values: seq<Float32>, outcome: Outcome)

  /**
   * The element loop over arrays of zeros, from entry `i` on: entry by
   * entry, the index is stored, then the value; the first entry that fails
   * ends the loop with what was stored so far.
   */
  function StoreFrom(es: seq<Entry>, i: nat): (r: Filled)
    requires i <= |es|
    ensures |r.indices| == |es| - i && |r.values| == |es| - i
    decreases |es| - i
  {
    if i == |es| then Filled([], [], Pass)
    else
      match es[i].index
      case Err(e) => Filled(Zeros(|es| - i, 0), Zeros(|es| - i, 0), Fail(e))
      case Ok(k) =>
        match es[i].value
        case Err(e) => Filled([k] + Zeros(|es| - i - 1, 0), Zeros(|es| - i, 0), Fail(e))
        case Ok(f) =>
          var rest := StoreFrom(es, i + 1);
          Filled([k] + rest.indices, [f] + rest.values, rest.outcome)
  }

  /** The whole element loop. */
  function Store(es: seq<Entry>): (r: Filled)
    ensures |r.indices| == |es| && |r.values| == |es|
  {
    StoreFrom(es, 0)
  }

  /** The element loop of `setValue` over the elements of the text. */
  function ParseEntries(els: seq<string>, ft: FloatText): (r: Filled)
    ensures |r.indices| == |els| && |r.values| == |els|
  {
    Store(ParseAll(els, ft))
  }

  /** The loop completes exactly when every entry's index and value parsed. */
  lemma StorePass(es: seq<Entry>)
    ensures Store(es).outcome.Pass? <==> forall i :: 0 <= i < |es| ==> es[i].index.Ok? && es[i].value.Ok?
  {
    StorePassFrom(es, 0);
  }

  lemma {:induction false} StorePassFrom(es: seq<Entry>, i: nat)
    requires i <= |es|
    ensures StoreFrom(es, i).outcome.Pass? <==> forall j :: i <= j < |es| ==> es[j].index.Ok? && es[j].value.Ok?
    decreases |es| - i
  {
    if i < |es| {
      StorePassFrom(es, i + 1);
    }
  }

  /** Stored prefixes in front of what the rest of the loop yields. */
  function After(pi: seq<Int32>, pv: seq<Float32>, rest: Filled): Filled
  {
    Filled(pi + rest.indices, pv + rest.values, rest.outcome)
  }

  /**
   * Entries that parsed contribute their indices and values, in order, in
   * front of what the entries after them yield.
   */
  lemma {:induction false} StorePrefix(es: seq<Entry>, pi: seq<Int32>, pv: seq<Float32>, j: nat)
    requires |pi| == |pv| <= |es| && j <= |pi|
    requires forall k :: 0 <= k < |pi| ==> es[k] == Entry(Ok(pi[k]), Ok(pv[k]))
    ensures StoreFrom(es, j) == After(pi[j..], pv[j..], StoreFrom(es, |pi|))
    decreases |pi| - j
  {
    if j < |pi| {
      StorePrefix(es, pi, pv, j + 1);
      assert pi[j..] == [pi[j]] + pi[j + 1..];
      assert pv[j..] == [pv[j]] + pv[j + 1..];
    } else {
      assert pi[j..] == [] && pv[j..] == [];
    }
  }

  /** Entries that all parsed are stored in order, and the loop completes. */
  lemma StoreAll(es: seq<Entry>, idx: seq<Int32>, vals: seq<Float32>)
    requires |idx| == |vals| == |es|
    requires forall i :: 0 <= i < |es| ==> es[i] == Entry(Ok(idx[i]), Ok(vals[i]))
    ensures Store(es) == Filled(idx, vals, Pass)
  {
    StorePrefix(es, idx, vals, 0);
    assert idx[0..] == idx && vals[0..] == vals;
  }

  /** The loop stops at entry `i`'s index: the prefix, then zeros. */
  lemma IndexStop(es: seq<Entry>, pi: seq<Int32>, pv: seq<Float32>, i: nat)
    requires |pi| == |pv| == i < |es| && es[i].index.Err?
    requires forall k :: 0 <= k < i ==> es[k] == Entry(Ok(pi[k]), Ok(pv[k]))
    ensures Store(es) == Filled(pi + Zeros(|es| - i, 0), pv + Zeros(|es| - i, 0), Fail(es[i].index.error))
  {
    StorePrefix(es, pi, pv, 0);
    assert pi[0..] == pi && pv[0..] == pv;
  }

  /** The loop stops at entry `i`'s value: the prefix, entry `i`'s index, then zeros. */
  lemma ValueStop(es: seq<Entry>, pi: seq<Int32>, pv: seq<Float32>, i: nat)
    requires |pi| == |pv| == i < |es| && es[i].index.Ok? && es[i].value.Err?
    requires forall k :: 0 <= k < i ==> es[k] == Entry(Ok(pi[k]), Ok(pv[k]))
    ensures Store(es) == Filled(pi + [es[i].index.value] + Zeros(|es| - i - 1, 0), pv + Zeros(|es| - i, 0), Fail(es[i].value.error))
  {
    StorePrefix(es, pi, pv, 0);
    assert pi[0..] == pi && pv[0..] == pv;
    assert pi + ([es[i].index.value] + Zeros(|es| - i - 1, 0)) == pi + [es[i].index.value] + Zeros(|es| - i - 1, 0);
  }

  /**
   * `setValue(s)`: null makes `indices` null and keeps the rest. Otherwise
   * the text is cut at the first '/'; the part before it must have two
   * characters to strip; a missing or malformed dimension count throws
   * before any field changes; then `dimensions` is set, both arrays are
   * replaced, and the element loop fills them.
   */
  function SetText(prior: Sparse, s: Option<string>, ft: FloatText): (r: (Sparse, Outcome))
    ensures s.None? ==> r == (prior.(indices := None), Pass)
    ensures s.Some? && r.1.Pass? ==> WellFormed(r.0) && r.0.indices.Some?
    ensures WellFormed(prior) ==> WellFormed(r.0)
  {
    match s
    case None => (prior.(indices := None), Pass)
    case Some(t) =>
      var sp := SplitOnce(t, '/');
      match Inner(sp[0])
      case Err(e) => (prior, Fail(e))
      case Ok(body) =>
        var els := Split(body, ',');
        if |sp| < 2 then (prior, Fail(IndexOutOfBounds))
        else match ParseInt(sp[1])
          case Err(e) => (prior, Fail(e))
          case Ok(dims) =>
            var f := ParseEntries(els, ft);
            (Sparse(dims, Some(f.indices), Some(f.values)), f.outcome)
  }

  // ---------------------------------------------------------------------------
  // Round trip

  /** An element's text splits at its first ':' into the index text and the value text. */
  lemma EntryTextParses(index: Int32, value: Float32, ft: FloatText)
    requires Plain(ft) && RoundTrips(ft, value)
    ensures EntryText(index, value, ft) != ""
    ensures ',' !in EntryText(index, value, ft) && '/' !in EntryText(index, value, ft)
    ensures EntryIndex(EntryText(index, value, ft)) == Ok(index)
    ensures EntryValue(EntryText(index, value, ft), ft) == Ok(value)
  {
    var k := IntToString(Wrap32(index + 1));
    assert ':' !in k && ',' !in k && '/' !in k;
    assert EntryText(index, value, ft) == k + [':'] + ft.format(value);
    SplitOnceAt(k, ':', ft.format(value));
    ParseIntToString(Wrap32(index + 1));
    WrapIncDec(index);
  }

  /** The element texts of a vector whose values round-trip all read back. */
  lemma EntryTextsParse(idx: seq<Int32>, vals: seq<Float32>, ft: FloatText)
    requires Plain(ft) && |idx| == |vals|
    requires forall i :: 0 <= i < |vals| ==> RoundTrips(ft, vals[i])
    ensures forall i :: 0 <= i < |idx| ==>
      var e := EntryTexts(idx, vals, ft)[i];
      e != "" && ',' !in e && '/' !in e && EntryIndex(e) == Ok(idx[i]) && EntryValue(e, ft) == Ok(vals[i])
  {
    forall i | 0 <= i < |idx|
      ensures var e := EntryTexts(idx, vals, ft)[i];
        e != "" && ',' !in e && '/' !in e && EntryIndex(e) == Ok(idx[i]) && EntryValue(e, ft) == Ok(vals[i])
    {
      EntryTextParses(idx[i], vals[i], ft);
    }
  }

  /** A written text is cut at the slash that follows the closing brace. */
  lemma TextCut(j: string, d: string)
    requires '/' !in j
    ensures SplitOnce("{" + j + "}/" + d, '/') == ["{" + j + "}", d]
  {
    assert "{" + j + "}/" + d == ("{" + j + "}") + ['/'] + d;
    SplitOnceAt("{" + j + "}", '/', d);
  }

  /** What `setValue` makes of a text shaped like `getValue`'s output. */
  lemma SetTextOf(prior: Sparse, j: string, dims: Int32, ft: FloatText)
    requires '/' !in j
    ensures var f := ParseEntries(Split(j, ','), ft);
      SetText(prior, Some("{" + j + "}/" + IntToString(dims)), ft) == (Sparse(dims, Some(f.indices), Some(f.values)), f.outcome)
  {
    TextCut(j, IntToString(dims));
    assert Inner("{" + j + "}") == Ok(j);
    ParseIntToString(dims);
  }

  /**
   * `setValue(getValue())` restores `dimensions`, `indices` and `values`
   * for a sparse vector with at least one element whose value texts parse
   * back to the same bits.
   */
  lemma SetTextOfText(prior: Sparse, s: Sparse, ft: FloatText)
    requires Plain(ft) && WellFormed(s) && s.indices.Some?
    requires |s.indices.value| >= 1
    requires forall i :: 0 <= i < |s.values.value| ==> RoundTrips(ft, s.values.value[i])
    requires Text(s, ft).Ok?
    ensures SetText(prior, Text(s, ft).value, ft) == (s, Pass)
  {
    var idx, vals := s.indices.value, s.values.value;
    var texts := EntryTexts(idx, vals, ft);
    EntryTextsParse(idx, vals, ft);
    JoinFree(",", texts, '/');
    SetTextOf(prior, Join(",", texts), s.dimensions, ft);
    SplitJoin(texts, ',');
    ParseEntriesAll(texts, ft, idx, vals);
  }

  /** Elements that all parse are stored in order, and the loop completes. */
  lemma ParseEntriesAll(els: seq<string>, ft: FloatText, idx: seq<Int32>, vals: seq<Float32>)
    requires |idx| == |vals| == |els|
    requires forall i :: 0 <= i < |els| ==> EntryIndex(els[i]) == Ok(idx[i]) && EntryValue(els[i], ft) == Ok(vals[i])
    ensures ParseEntries(els, ft) == Filled(idx, vals, Pass)
  {
    StoreAll(ParseAll(els, ft), idx, vals);
  }

  // ---------------------------------------------------------------------------
  // The empty sparse vector

  /**
   * The text of the sparse vector built from `{1, 0, 2, 0, 3, 0}` is
   * `{1:1.0,3:2.0,5:3.0}/6` when 1, 2 and 3 print as `1.0`, `2.0`, `3.0`.
   */
  lemma SixElementsText(ft: FloatText)
    requires ft.format(0x3F80_0000) == "1.0" && ft.format(0x4000_0000) == "2.0" && ft.format(0x4040_0000) == "3.0"
    ensures Text(Sparse(6, Some([0, 2, 4]), Some([0x3F80_0000, 0x4000_0000, 0x4040_0000])), ft) == Ok(Some("{1:1.0,3:2.0,5:3.0}/6"))
  {
    SixElementTexts(ft);
    assert IntToString(6) == "6";
    assert Wrap32(13 + 27 * 3) == 94;
    assert "{" + "1:1.0,3:2.0,5:3.0" + "}/" + "6" == "{1:1.0,3:2.0,5:3.0}/6";
  }

  /** The three element texts of that vector, joined. */
  lemma SixElementTexts(ft: FloatText)
    requires ft.format(0x3F80_0000) == "1.0" && ft.format(0x4000_0000) == "2.0" && ft.format(0x4040_0000) == "3.0"
    ensures Join(",", EntryTexts([0, 2, 4], [0x3F80_0000, 0x4000_0000, 0x4040_0000], ft)) == "1:1.0,3:2.0,5:3.0"
  {
    SixEntryTexts(ft);
    JoinThree(",", "1:1.0", "3:2.0", "5:3.0");
    assert "1:1.0" + "," + "3:2.0" + "," + "5:3.0" == "1:1.0,3:2.0,5:3.0";
  }

  /** The three element texts of that vector. */
  lemma SixEntryTexts(ft: FloatText)
    requires ft.format(0x3F80_0000) == "1.0" && ft.format(0x4000_0000) == "2.0" && ft.format(0x4040_0000) == "3.0"
    ensures EntryTexts([0, 2, 4], [0x3F80_0000, 0x4000_0000, 0x4040_0000], ft) == ["1:1.0", "3:2.0", "5:3.0"]
  {
    var texts := EntryTexts([0, 2, 4], [0x3F80_0000, 0x4000_0000, 0x4040_0000], ft);
    assert texts[0] == "1:1.0" by {
      DigitEntryText(0, 0x3F80_0000, ft);
      assert DigitChar(1) == '1';
    }
    assert texts[1] == "3:2.0" by {
      DigitEntryText(2, 0x4000_0000, ft);
      assert DigitChar(3) == '3';
    }
    assert texts[2] == "5:3.0" by {
      DigitEntryText(4, 0x4040_0000, ft);
      assert DigitChar(5) == '5';
    }
  }

  /** Three elements joined. */
  lemma JoinThree(sep: string, a: string, b: string, c: string)
    ensures Join(sep, [a, b, c]) == a + sep + b + sep + c
  {
    assert [a, b, c][..2] == [a, b] && [a, b][..1] == [a];
    assert Join(sep, [a, b]) == a + sep + b;
    assert Join(sep, [a, b, c]) == Join(sep, [a, b]) + sep + c;
  }

  /** The text of an element whose 1-based index is a single digit. */
  lemma DigitEntryText(index: Int32, value: Float32, ft: FloatText)
    requires 0 <= index < 9
    ensures EntryText(index, value, ft) == [DigitChar(index + 1), ':'] + ft.format(value)
  {
  }

  /**
   * The text of a sparse vector with no elements is `{}/D`, which is also
   * what the server sends for one; `setValue` splits the empty text between
   * the braces into one empty element, and `Integer.parseInt("")` throws,
   * after `dimensions` and both one-element arrays were set.
   */
  lemma EmptyTextFails(prior: Sparse, dims: Int32, ft: FloatText)
    ensures Text(Sparse(dims, Some([]), Some([])), ft) == Ok(Some("{}/" + IntToString(dims)))
    ensures SetText(prior, Some("{}/" + IntToString(dims)), ft) == (Sparse(dims, Some([0]), Some([0])), Fail(NumberFormat))
  {
    assert EntryTexts([], [], ft) == [];
    assert "{" + Join(",", []) + "}/" + IntToString(dims) == "{}/" + IntToString(dims);
    SetTextOf(prior, "", dims, ft);
    assert Split("", ',') == [""];
    EmptyElementFails(ft);
  }

  /** The one empty element that `"".split(",")` yields has no index. */
  lemma EmptyElementFails(ft: FloatText)
    ensures ParseEntries([""], ft) == Filled([0], [0], Fail(NumberFormat))
  {
    assert SplitOnce("", ':') == [""];
    assert ParseAll([""], ft)[0].index == Err(NumberFormat);
    assert Zeros(1, 0) == [0];
  }

  /**
   * `setValue` as evidently intended: empty braces denote a vector with no
   * elements; every other text is read as before.
   */
  function SetTextFixed(prior: Sparse, s: Option<string>, ft: FloatText): (r: (Sparse, Outcome))
    ensures WellFormed(prior) ==> WellFormed(r.0)
  {
    match s
    case None => SetText(prior, s, ft)
    case Some(t) =>
      var sp := SplitOnce(t, '/');
      if sp[0] == "{}" && |sp| == 2 && ParseInt(sp[1]).Ok? then
        (Sparse(ParseInt(sp[1]).value, Some([]), Some([])), Pass)
      else SetText(prior, s, ft)
  }

  /**
   * With the fix, `setValue(getValue())` restores every sparse vector whose
   * value texts parse back, the empty one included.
   */
  lemma SetTextFixedOfText(prior: Sparse, s: Sparse, ft: FloatText)
    requires Plain(ft) && WellFormed(s) && s.indices.Some?
    requires forall i :: 0 <= i < |s.values.value| ==> RoundTrips(ft, s.values.value[i])
    requires Text(s, ft).Ok?
    ensures SetTextFixed(prior, Text(s, ft).value, ft) == (s, Pass)
  {
    var idx := s.indices.value;
    var texts := EntryTexts(idx, s.values.value, ft);
    var j := Join(",", texts);
    EntryTextsParse(idx, s.values.value, ft);
    JoinFree(",", texts, '/');
    TextCut(j, IntToString(s.dimensions));
    if idx == [] {
      assert j == "";
      ParseIntToString(s.dimensions);
    } else {
      SetTextOfText(prior, s, ft);
      assert |"{" + j + "}"| > 2;
    }
  }
}

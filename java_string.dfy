/**
 * The `java.lang.String` and `Integer` operations the text codecs use:
 * `substring`, `split` on a one-character separator (with and without a
 * limit), joining, `replace(" ", "")`, and decimal `int` text in both
 * directions (`Integer.toString` / `StringBuilder.append(int)` and
 * `Integer.parseInt`).
 */
module JavaString {
  import opened Java

  // ---------------------------------------------------------------------------
  // substring

  /**
   * `s.substring(1, s.length() - 1)`: the text between the first and the
   * last character. Shorter than two characters, the begin index passes
   * the end index (or the end index is -1) and Java throws.
   */
  function Inner(s: string): (r: Result<string>)
    ensures r.Ok? <==> |s| >= 2
    ensures r.Ok? ==> s == [s[0]] + r.value + [s[|s| - 1]]
  {
    if |s| < 2 then Err(IndexOutOfBounds) else Ok(s[1..|s| - 1])
  }

  // ---------------------------------------------------------------------------
  // Joining

  /** The elements with `sep` between each two neighbours. */
  function Join(sep: string, xs: seq<string>): (r: string)
    ensures |xs| >= 1 ==> xs[0] <= r
  {
    if |xs| == 0 then ""
    else if |xs| == 1 then xs[0]
    else Join(sep, xs[..|xs| - 1]) + sep + xs[|xs| - 1]
  }

  /** `c` occurs in the joined text only where it occurs in `sep` or an element. */
  lemma {:induction false} JoinFree(sep: string, xs: seq<string>, c: char)
    requires c !in sep
    requires forall i :: 0 <= i < |xs| ==> c !in xs[i]
    ensures c !in Join(sep, xs)
  {
    if |xs| > 1 {
      JoinFree(sep, xs[..|xs| - 1], c);
    }
  }

  /** `s.replace(" ", "")`: every space removed. */
  function RemoveSpaces(s: string): (r: string)
    ensures ' ' !in r
    ensures ' ' !in s ==> r == s
  {
    if s == [] then []
    else RemoveSpaces(s[..|s| - 1]) + (if s[|s| - 1] == ' ' then [] else [s[|s| - 1]])
  }

  lemma {:induction false} RemoveSpacesAppend(a: string, b: string)
    ensures RemoveSpaces(a + b) == RemoveSpaces(a) + RemoveSpaces(b)
  {
    if b != [] {
      var b' := b[..|b| - 1];
      assert (a + b)[..|a + b| - 1] == a + b';
      RemoveSpacesAppend(a, b');
    } else {
      assert a + b == a;
    }
  }

  /**
   * Removing the spaces of a text joined by ", " is joining by "," when the
   * elements have no spaces: what `Arrays.toString(v).replace(" ", "")` does
   * to the separators.
   */
  lemma {:induction false} RemoveSpacesJoin(xs: seq<string>)
    requires forall i :: 0 <= i < |xs| ==> ' ' !in xs[i]
    ensures RemoveSpaces(Join(", ", xs)) == Join(",", xs)
  {
    if |xs| > 1 {
      var p, x := xs[..|xs| - 1], xs[|xs| - 1];
      RemoveSpacesJoin(p);
      RemoveSpacesAppend(Join(", ", p) + ", ", x);
      RemoveSpacesAppend(Join(", ", p), ", ");
      assert RemoveSpaces(", ") == ",";
    }
  }

  // ---------------------------------------------------------------------------
  // Splitting

  /** The position of the first `c` in `s`. */
  function FirstIndex(s: string, c: char): (i: int)
    requires c in s
    ensures 0 <= i < |s| && s[i] == c && c !in s[..i]
  {
    if s[0] == c then 0 else 1 + FirstIndex(s[1..], c)
  }

  /** The position of the last `c` in `s`. */
  function LastIndex(s: string, c: char): (i: int)
    requires c in s
    ensures 0 <= i < |s| && s[i] == c && c !in s[i + 1..]
  {
    if s[|s| - 1] == c then |s| - 1
    else
      assert c in s[..|s| - 1] by {
        var k :| 0 <= k < |s| && s[k] == c;
        assert s[..|s| - 1][k] == c;
      }
      LastIndex(s[..|s| - 1], c)
  }

  /** The pieces of `s` between the occurrences of `c`, empty pieces included. */
  function Fields(s: string, c: char): (r: seq<string>)
    ensures |r| >= 1
    ensures forall i :: 0 <= i < |r| ==> c !in r[i]
    decreases |s|
  {
    if c !in s then [s]
    else
      var i := LastIndex(s, c);
      Fields(s[..i], c) + [s[i + 1..]]
  }

  /** The pieces without the empty ones at the end. */
  function DropTrailingEmpty(xs: seq<string>): (r: seq<string>)
    ensures |r| <= |xs| && r == xs[..|r|]
    ensures |r| > 0 ==> r[|r| - 1] != ""
    ensures forall i :: |r| <= i < |xs| ==> xs[i] == ""
  {
    if |xs| == 0 || xs[|xs| - 1] != "" then xs
    else DropTrailingEmpty(xs[..|xs| - 1])
  }

  /**
   * `s.split(c)` for a separator that is no regular-expression
   * metacharacter: with no occurrence the result is `s` alone (even when
   * `s` is empty); otherwise the pieces around each `c`, with the trailing
   * empty pieces dropped.
   */
  function Split(s: string, c: char): (r: seq<string>)
    ensures c !in s ==> r == [s]
  {
    if c !in s then [s] else DropTrailingEmpty(Fields(s, c))
  }

  /**
   * `s.split(c, 2)`: with no occurrence, `s` alone; otherwise the text
   * before the first `c` and everything after it.
   */
  function SplitOnce(s: string, c: char): (r: seq<string>)
    ensures 1 <= |r| <= 2
    ensures |r| == 2 <==> c in s
    ensures |r| == 2 ==> s == r[0] + [c] + r[1] && c !in r[0]
    ensures |r| == 1 ==> r[0] == s
  {
    if c !in s then [s]
    else
      var i := FirstIndex(s, c);
      assert s == s[..i] + [c] + s[i + 1..];
      [s[..i], s[i + 1..]]
  }

  /** Cutting at the first `c` undoes putting `c` after a text without one. */
  lemma SplitOnceAt(a: string, c: char, b: string)
    requires c !in a
    ensures SplitOnce(a + [c] + b, c) == [a, b]
  {
    var s := a + [c] + b;
    var r := SplitOnce(s, c);
    assert s[|a|] == c;
    assert r[0] == s[..|a|] == a;
    assert r[1] == s[|a| + 1..] == b;
  }

  /** Splitting a joined text gives the elements back. */
  lemma {:induction false} FieldsJoin(xs: seq<string>, c: char)
    requires |xs| >= 1
    requires forall i :: 0 <= i < |xs| ==> c !in xs[i]
    ensures Fields(Join([c], xs), c) == xs
  {
    if |xs| == 1 {
    } else {
      var p, x := xs[..|xs| - 1], xs[|xs| - 1];
      var s := Join([c], xs);
      assert s == Join([c], p) + [c] + x;
      var k := |Join([c], p)|;
      assert s[k] == c;
      assert s[k + 1..] == x;
      assert LastIndex(s, c) == k;
      assert s[..k] == Join([c], p);
      FieldsJoin(p, c);
    }
  }

  /**
   * `Join(",", xs).split(",")` is `xs` when no element is empty or holds
   * the separator: the case the vector texts rely on.
   */
  lemma SplitJoin(xs: seq<string>, c: char)
    requires |xs| >= 1
    requires forall i :: 0 <= i < |xs| ==> c !in xs[i] && xs[i] != ""
    ensures Split(Join([c], xs), c) == xs
  {
    FieldsJoin(xs, c);
    if |xs| > 1 {
      var p, x := xs[..|xs| - 1], xs[|xs| - 1];
      assert Join([c], xs) == Join([c], p) + [c] + x;
      assert Join([c], xs)[|Join([c], p)|] == c;
    }
  }

  // ---------------------------------------------------------------------------
  // Decimal integers

  function DigitChar(d: int): (c: char)
    requires 0 <= d < 10
    ensures '0' <= c <= '9'
  {
    ['0', '1', '2', '3', '4', '5', '6', '7', '8', '9'][d]
  }

  predicate IsDigit(c: char)
  {
    '0' <= c <= '9'
  }

  predicate AllDigits(s: string)
  {
    forall i :: 0 <= i < |s| ==> IsDigit(s[i])
  }

  function DigitValue(c: char): (d: int)
    requires IsDigit(c)
    ensures 0 <= d < 10 && DigitChar(d) == c
  {
    (c as int) - ('0' as int)
  }

  /** The decimal digits of `n`, most significant first, without leading zeros. */
  function NatToString(n: nat): (r: string)
    ensures |r| >= 1 && AllDigits(r)
  {
    if n < 10 then [DigitChar(n)] else NatToString(n / 10) + [DigitChar(n % 10)]
  }

  /** `Integer.toString(n)`, which is also what `StringBuilder.append(int)` appends. */
  function IntToString(n: int): (r: string)
    ensures |r| >= 1
    ensures forall i :: 0 <= i < |r| ==> IsDigit(r[i]) || (i == 0 && r[i] == '-')
  {
    if n < 0 then "-" + NatToString(-n) else NatToString(n)
  }

  /** The number a nonempty run of digits denotes. */
  function DigitsValue(s: string): (n: nat)
    requires AllDigits(s)
  {
    if s == [] then 0 else DigitsValue(s[..|s| - 1]) * 10 + DigitValue(s[|s| - 1])
  }

  /**
   * `Integer.parseInt(s)`: an optional sign and at least one digit, with a
   * value that fits an `int`; anything else is a `NumberFormatException`.
   */
  function ParseInt(s: string): (r: Result<Int32>)
    ensures r.Err? ==> r.error == NumberFormat
    ensures s == [] ==> r.Err?
  {
    if s == [] then Err(NumberFormat)
    else
      var negative := s[0] == '-';
      var digits := if s[0] == '-' || s[0] == '+' then s[1..] else s;
      if digits == [] || !AllDigits(digits) then Err(NumberFormat)
      else
        var v: int := if negative then -(DigitsValue(digits) as int) else DigitsValue(digits);
        if -0x8000_0000 <= v < 0x8000_0000 then Ok(v) else Err(NumberFormat)
  }

  lemma {:induction false} DigitsValueOf(n: nat)
    ensures DigitsValue(NatToString(n)) == n
  {
    if n >= 10 {
      var s := NatToString(n);
      assert s[..|s| - 1] == NatToString(n / 10);
      DigitsValueOf(n / 10);
    }
  }

  /** `Integer.parseInt` reads back every `int` that `Integer.toString` writes. */
  lemma ParseIntToString(n: Int32)
    ensures ParseInt(IntToString(n)) == Ok(n)
  {
    var s := IntToString(n);
    var m: nat := if n < 0 then -(n as int) else n;
    var digits := NatToString(m);
    assert s[0] == '-' <==> n < 0;
    assert s[0] != '+';
    assert (if s[0] == '-' || s[0] == '+' then s[1..] else s) == digits;
    DigitsValueOf(m);
  }
}

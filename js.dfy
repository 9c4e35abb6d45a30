/** The fragments of JavaScript's runtime semantics that the panel relies on:
    optional values and truthiness, integer-to-string conversion as template
    literals perform it, `String.prototype.trim`, `Array.prototype.join` and
    splitting a text at its line breaks. */
module Js {

  /** A value that may be `undefined` (None). */
  datatype Option<+T> = None | Some(value: T)

  /** A computation that either yields a value or fails with an error. */
  datatype Result<+T, +E> = Ok(value: T) | Err(error: E)

  /** `o ?? d`: the value when there is one, the default otherwise. */
  function UnwrapOr<T>(o: Option<T>, d: T): T {
    match o
    case None => d
    case Some(v) => v
  }

  /** Truthiness of an optional string: `undefined` and `""` are falsy. */
  predicate TruthyString(s: Option<string>) {
    s.Some? && s.value != ""
  }

  /** Truthiness of an optional number: `undefined` and `0` are falsy. */
  predicate TruthyNumber(n: Option<int>) {
    n.Some? && n.value != 0
  }

  /** `!!xs?.length`: the list is present and holds at least one element. */
  predicate HasElements<T>(xs: Option<seq<T>>) {
    xs.Some? && |xs.value| > 0
  }

  // ---------------------------------------------------------------------
  // Integers as text. A template literal `${n}` turns an integral number
  // into its decimal digits, with a leading '-' when it is negative.
  // ---------------------------------------------------------------------

  predicate IsDigit(c: char) {
    '0' <= c <= '9'
  }

  predicate AllDigits(s: string) {
    forall i :: 0 <= i < |s| ==> IsDigit(s[i])
  }

  function DigitChar(d: nat): (c: char)
    requires d < 10
    ensures IsDigit(c) && DigitValue(c) == d
  {
    (('0' as int) + d) as char
  }

  function DigitValue(c: char): (d: nat)
    requires IsDigit(c)
    ensures d < 10
  {
    (c as int) - ('0' as int)
  }

  /** The decimal digits of `n`, most significant first, without leading zeros. */
  function NatToString(n: nat): (s: string)
    ensures |s| > 0 && AllDigits(s)
    ensures s[0] == '0' <==> n == 0
    ensures |s| > 1 ==> s[0] != '0'
    decreases n
  {
    if n < 10 then [DigitChar(n)] else NatToString(n / 10) + [DigitChar(n % 10)]
  }

  /** `String(i)` for an integral number `i`. */
  function IntToString(i: int): (s: string)
    ensures |s| > 0
    ensures s[0] == '-' <==> i < 0
  {
    if i < 0 then "-" + NatToString(-i) else NatToString(i)
  }

  /** Reads a run of decimal digits back as a number. */
  function ParseNat(s: string): nat
    requires |s| > 0 && AllDigits(s)
    decreases |s|
  {
    if |s| == 1 then DigitValue(s[0])
    else 10 * ParseNat(s[..|s| - 1]) + DigitValue(s[|s| - 1])
  }

  /** An optional '-' followed by at least one decimal digit. */
  predicate IsIntegerText(s: string) {
    if |s| > 0 && s[0] == '-' then |s| > 1 && AllDigits(s[1..]) else |s| > 0 && AllDigits(s)
  }

  function ParseInt(s: string): int
    requires IsIntegerText(s)
  {
    if s[0] == '-' then 0 - ParseNat(s[1..]) else ParseNat(s) as int
  }

  lemma {:induction false} ParseNatToString(n: nat)
    ensures ParseNat(NatToString(n)) == n
    decreases n
  {
    if n >= 10 {
      var s := NatToString(n);
      assert s[..|s| - 1] == NatToString(n / 10);
      ParseNatToString(n / 10);
    }
  }

  /** Reading the text of an integer back gives the integer. */
  lemma ParseIntToString(i: int)
    ensures IsIntegerText(IntToString(i))
    ensures ParseInt(IntToString(i)) == i
  {
    if i < 0 {
      assert IntToString(i)[1..] == NatToString(-i);
      ParseNatToString(-i);
    } else {
      ParseNatToString(i);
    }
  }

  /** Distinct numbers have distinct texts. */
  lemma NatToStringInjective(m: nat, n: nat)
    ensures NatToString(m) == NatToString(n) ==> m == n
  {
    ParseNatToString(m);
    ParseNatToString(n);
  }

  // ---------------------------------------------------------------------
  // String.prototype.trim: removes the WhiteSpace and LineTerminator code
  // points of ECMA-262 from both ends.
  // ---------------------------------------------------------------------

  predicate IsWhitespace(c: char) {
    || c == '\t' || c == '\U{000B}' || c == '\U{000C}' || c == ' ' || c == '\U{00A0}' || c == '\U{FEFF}'
    || c == '\n' || c == '\r' || c == '\U{2028}' || c == '\U{2029}'
    || c == '\U{1680}' || ('\U{2000}' <= c <= '\U{200A}') || c == '\U{202F}' || c == '\U{205F}' || c == '\U{3000}'
  }

  predicate AllWhitespace(s: string) {
    forall i :: 0 <= i < |s| ==> IsWhitespace(s[i])
  }

  /** Drops the longest all-whitespace prefix. */
  function TrimStart(s: string): (r: string)
    ensures |r| <= |s| && r == s[|s| - |r|..]
    ensures AllWhitespace(s[..|s| - |r|])
    ensures r == [] || !IsWhitespace(r[0])
    decreases |s|
  {
    if |s| > 0 && IsWhitespace(s[0]) then TrimStart(s[1..]) else s
  }

  /** Drops the longest all-whitespace suffix. */
  function TrimEnd(s: string): (r: string)
    ensures |r| <= |s| && r == s[..|r|]
    ensures AllWhitespace(s[|r|..])
    ensures r == [] || !IsWhitespace(r[|r| - 1])
    decreases |s|
  {
    if |s| > 0 && IsWhitespace(s[|s| - 1]) then TrimEnd(s[..|s| - 1]) else s
  }

  function Trim(s: string): (r: string)
    ensures r == [] || (!IsWhitespace(r[0]) && !IsWhitespace(r[|r| - 1]))
  {
    TrimEnd(TrimStart(s))
  }

  /** Trim removes whitespace from the two ends of the text and nothing else:
      what it keeps is the text between a whitespace prefix and a whitespace suffix. */
  lemma TrimKeepsMiddle(s: string)
    ensures exists i, j :: 0 <= i <= j <= |s| && Trim(s) == s[i..j] && AllWhitespace(s[..i]) && AllWhitespace(s[j..])
  {
    var t := TrimStart(s);
    var i := |s| - |t|;
    var j := i + |Trim(s)|;
    assert Trim(s) == t[..|Trim(s)|] == s[i..j];
    assert s[j..] == t[|Trim(s)|..];
  }

  /** Whitespace in front of a text that starts visibly is all TrimStart removes. */
  lemma {:induction false} TrimStartAfterWhitespace(lead: string, s: string)
    requires AllWhitespace(lead)
    requires s == [] || !IsWhitespace(s[0])
    ensures TrimStart(lead + s) == s
    decreases |lead|
  {
    if |lead| > 0 {
      assert (lead + s)[1..] == lead[1..] + s;
      TrimStartAfterWhitespace(lead[1..], s);
    } else {
      assert lead + s == s;
    }
  }

  /** Trailing whitespace does not change what TrimEnd keeps. */
  lemma {:induction false} TrimEndBeforeWhitespace(s: string, trail: string)
    requires AllWhitespace(trail)
    ensures TrimEnd(s + trail) == TrimEnd(s)
    decreases |trail|
  {
    if |trail| > 0 {
      var shorter := trail[..|trail| - 1];
      assert (s + trail)[..|s + trail| - 1] == s + shorter;
      TrimEndBeforeWhitespace(s, shorter);
    } else {
      assert s + trail == s;
    }
  }

  /** A text that starts and ends visibly survives whitespace padding on both sides. */
  lemma TrimSurrounded(lead: string, s: string, trail: string)
    requires AllWhitespace(lead) && AllWhitespace(trail)
    requires |s| > 0 && !IsWhitespace(s[0]) && !IsWhitespace(s[|s| - 1])
    ensures Trim(lead + s + trail) == s
  {
    assert lead + s + trail == lead + (s + trail);
    TrimStartAfterWhitespace(lead, s + trail);
    TrimEndBeforeWhitespace(s, trail);
    assert TrimEnd(s) == s;
  }

  // ---------------------------------------------------------------------
  // Array.prototype.join and String.prototype.split("\n").
  // ---------------------------------------------------------------------

  /** `parts.join(sep)`. */
  function Join(parts: seq<string>, sep: string): (r: string)
    ensures |parts| > 0 ==> parts[0] <= r
    decreases |parts|
  {
    if |parts| == 0 then ""
    else if |parts| == 1 then parts[0]
    else parts[0] + sep + Join(parts[1..], sep)
  }

  /** The joined text ends with the last part. */
  lemma {:induction false} JoinEndsWithLast(parts: seq<string>, sep: string)
    requires |parts| > 0 && |parts[|parts| - 1]| > 0
    ensures var r := Join(parts, sep); |r| > 0 && r[|r| - 1] == parts[|parts| - 1][|parts[|parts| - 1]| - 1]
    decreases |parts|
  {
    if |parts| > 1 {
      JoinEndsWithLast(parts[1..], sep);
    }
  }

  /** `s.split("\n")`: the pieces of `s` between its line breaks. */
  function SplitLines(s: string): (lines: seq<string>)
    ensures |lines| > 0
    decreases |s|
  {
    if |s| == 0 then [""]
    else
      var rest := SplitLines(s[1..]);
      if s[0] == '\n' then [""] + rest else [[s[0]] + rest[0]] + rest[1..]
  }

  lemma {:induction false} SplitLinesSingle(s: string)
    requires '\n' !in s
    ensures SplitLines(s) == [s]
    decreases |s|
  {
    if |s| > 0 {
      SplitLinesSingle(s[1..]);
      assert [s[0]] + s[1..] == s;
    }
  }

  /** Splitting at a line break splits the text into the lines on either side. */
  lemma {:induction false} SplitLinesAppend(a: string, b: string)
    ensures SplitLines(a + "\n" + b) == SplitLines(a) + SplitLines(b)
    decreases |a|
  {
    if |a| == 0 {
      SplitLinesAfterBreak(a, b);
    } else {
      SplitLinesAppend(a[1..], b);
      if a[0] == '\n' {
        SplitLinesBreakStep(a, b);
      } else {
        SplitLinesCharStep(a, b);
      }
    }
  }

  lemma SplitLinesAfterBreak(a: string, b: string)
    requires |a| == 0
    ensures SplitLines(a + "\n" + b) == SplitLines(a) + SplitLines(b)
  {
    var t := a + "\n" + b;
    assert t[0] == '\n' && t[1..] == b;
  }

  /** The inductive step when the first character is a line break. */
  lemma SplitLinesBreakStep(a: string, b: string)
    requires |a| > 0 && a[0] == '\n'
    requires SplitLines(a[1..] + "\n" + b) == SplitLines(a[1..]) + SplitLines(b)
    ensures SplitLines(a + "\n" + b) == SplitLines(a) + SplitLines(b)
  {
    var t := a + "\n" + b;
    assert t[0] == a[0];
    assert t[1..] == a[1..] + "\n" + b;
    var ra, rb := SplitLines(a[1..]), SplitLines(b);
    assert [""] + (ra + rb) == ([""] + ra) + rb;
  }

  /** The inductive step when the first character is not a line break. */
  lemma SplitLinesCharStep(a: string, b: string)
    requires |a| > 0 && a[0] != '\n'
    requires SplitLines(a[1..] + "\n" + b) == SplitLines(a[1..]) + SplitLines(b)
    ensures SplitLines(a + "\n" + b) == SplitLines(a) + SplitLines(b)
  {
    var t := a + "\n" + b;
    assert t[0] == a[0];
    assert t[1..] == a[1..] + "\n" + b;
    var ra, rb := SplitLines(a[1..]), SplitLines(b);
    assert (ra + rb)[0] == ra[0];
    assert (ra + rb)[1..] == ra[1..] + rb;
    var first := [[a[0]] + ra[0]];
    assert first + (ra[1..] + rb) == (first + ra[1..]) + rb;
  }

  /** Joining lines without breaks by "\n" and splitting again gives the lines back. */
  lemma {:induction false} SplitLinesJoin(parts: seq<string>)
    requires |parts| > 0
    requires forall k :: 0 <= k < |parts| ==> '\n' !in parts[k]
    ensures SplitLines(Join(parts, "\n")) == parts
    decreases |parts|
  {
    SplitLinesSingle(parts[0]);
    if |parts| > 1 {
      SplitLinesJoin(parts[1..]);
      SplitLinesAppend(parts[0], Join(parts[1..], "\n"));
      assert [parts[0]] + parts[1..] == parts;
    }
  }
}

/**
 * Text conventions shared by both components: C strings are modelled by the
 * characters before their terminating NUL, character classes follow the "C"
 * locale, and the two C library conversions the source relies on are given as
 * functions: strtol/strtoll in base 10 (`Strtol`) and printf's "%d"
 * (`IntToDecimal`).
 */
module CText {

  /** isspace() in the "C" locale: space, \t, \n, \v, \f and \r. */
  predicate IsSpace(c: char)
  {
    c == ' ' || c == '\t' || c == '\n' || c == '\U{0B}' || c == '\U{0C}' || c == '\r'
  }

  predicate IsDigit(c: char)
  {
    '0' <= c <= '9'
  }

  /** The character classes the source's cursor loops run over. */
  datatype CharClass = Space | Digit | NonComma | PinSeparator

  predicate InClass(c: char, cls: CharClass)
  {
    match cls
    case Space => IsSpace(c)
    case Digit => IsDigit(c)
    case NonComma => c != ','
    case PinSeparator => c == ' ' || c == '\t' || c == ','
  }

  predicate AllDigits(s: seq<char>)
  {
    forall k :: 0 <= k < |s| ==> IsDigit(s[k])
  }

  const Int32Min: int := -0x8000_0000
  const Int32Max: int := 0x7fff_ffff
  const Int64Min: int := -0x8000_0000_0000_0000
  const Int64Max: int := 0x7fff_ffff_ffff_ffff

  /** The values of a C `int` (32 bits on every target of the source). */
  predicate InInt32(v: int)
  {
    Int32Min <= v <= Int32Max
  }

  /** The values of `int64_t` / `long long`. */
  predicate InInt64(v: int)
  {
    Int64Min <= v <= Int64Max
  }

  /** The number of leading characters of t in class cls: where a cursor that
      skips that class stops. */
  function SpanWhile(t: seq<char>, cls: CharClass): (n: nat)
    ensures n <= |t|
    ensures n < |t| ==> !InClass(t[n], cls)
  {
    if t != [] && InClass(t[0], cls) then 1 + SpanWhile(t[1..], cls) else 0
  }

  /** Every character the span covers is in the class. */
  lemma {:induction false} SpanWhileAll(t: seq<char>, cls: CharClass)
    ensures forall k :: 0 <= k < SpanWhile(t, cls) ==> InClass(t[k], cls)
  {
    if t != [] && InClass(t[0], cls) {
      SpanWhileAll(t[1..], cls);
      assert forall k :: 1 <= k < SpanWhile(t, cls) ==> t[k] == t[1..][k - 1];
    }
  }

  /** A cursor loop that stops at the first character outside cls has computed SpanWhile. */
  lemma {:induction false} SpanWhileIs(t: seq<char>, cls: CharClass, n: nat)
    requires n <= |t|
    requires forall k :: 0 <= k < n ==> InClass(t[k], cls)
    requires n == |t| || !InClass(t[n], cls)
    ensures SpanWhile(t, cls) == n
  {
    if n > 0 {
      assert forall k :: 0 <= k < n - 1 ==> t[1..][k] == t[k + 1];
      SpanWhileIs(t[1..], cls, n - 1);
    }
  }

  /** A character outside cls ends the span: what follows it does not matter. */
  lemma SpanWhileStop(p: seq<char>, c: char, y: seq<char>, cls: CharClass)
    requires !InClass(c, cls)
    ensures SpanWhile(p + [c] + y, cls) == SpanWhile(p, cls)
  {
    var t := p + [c] + y;
    var n := SpanWhile(p, cls);
    SpanWhileAll(p, cls);
    assert forall k :: 0 <= k < n ==> t[k] == p[k];
    assert t[n] == if n < |p| then p[n] else c;
    SpanWhileIs(t, cls, n);
  }

  // ---------------------------------------------------------------------------
  // Cursor loops over a whole text

  /** The first position at or after i whose character is outside cls: where
      a cursor loop that skips cls stops. */
  function SkipFrom(s: seq<char>, i: nat, cls: CharClass): (j: nat)
    requires i <= |s|
    ensures i <= j <= |s|
    ensures j < |s| ==> !InClass(s[j], cls)
    decreases |s| - i
  {
    if i < |s| && InClass(s[i], cls) then SkipFrom(s, i + 1, cls) else i
  }

  /** Every character a skip passes over is in the class. */
  lemma {:induction false} SkipFromAll(s: seq<char>, i: nat, cls: CharClass)
    requires i <= |s|
    ensures forall k :: i <= k < SkipFrom(s, i, cls) ==> InClass(s[k], cls)
    decreases |s| - i
  {
    if i < |s| && InClass(s[i], cls) {
      SkipFromAll(s, i + 1, cls);
    }
  }

  /** A skip runs over a stretch of cls and stops where it ends. */
  lemma {:induction false} SkipOver(s: seq<char>, i: nat, j: nat, cls: CharClass)
    requires i <= j <= |s|
    requires forall k :: i <= k < j ==> InClass(s[k], cls)
    requires j == |s| || !InClass(s[j], cls)
    ensures SkipFrom(s, i, cls) == j
    decreases j - i
  {
    if i < j {
      SkipOver(s, i + 1, j, cls);
    }
  }

  /**
   * The same skip seen from a cursor and from a token: SkipFrom is a cursor
   * moving through the whole input (the parse and scan loops), SpanWhile
   * counts the leading characters of a string on its own (strtol and
   * trimming look at a token that way). A cursor at i stops where the span of
   * s[i..] ends.
   */
  lemma SkipFromIsSpanWhile(s: seq<char>, i: nat, cls: CharClass)
    requires i <= |s|
    ensures SkipFrom(s, i, cls) == i + SpanWhile(s[i..], cls)
  {
    var j := SkipFrom(s, i, cls);
    SkipFromAll(s, i, cls);
    assert forall k :: 0 <= k < j - i ==> s[i..][k] == s[i + k];
    assert j < |s| ==> s[i..][j - i] == s[j];
    SpanWhileIs(s[i..], cls, j - i);
  }

  /** The characters of s from i up to j, copied one at a time as memcpy
      copies them. */
  function Span(s: string, i: nat, j: nat): (r: string)
    requires i <= j <= |s|
    ensures |r| == j - i
    decreases j - i
  {
    if i == j then [] else [s[i]] + Span(s, i + 1, j)
  }

  /** The copy is the slice of s from i up to j. */
  lemma {:induction false} SpanIsSlice(s: string, i: nat, j: nat)
    requires i <= j <= |s|
    ensures Span(s, i, j) == s[i..j]
    decreases j - i
  {
    if i < j {
      SpanIsSlice(s, i + 1, j);
      assert s[i..j] == [s[i]] + s[i + 1..j];
    }
  }

  /** Copying up to j and then on to k copies up to k. */
  lemma {:induction false} SpanSplit(s: seq<char>, i: nat, j: nat, k: nat)
    requires i <= j <= k <= |s|
    ensures Span(s, i, k) == Span(s, i, j) + Span(s, j, k)
    decreases j - i
  {
    if i < j {
      SpanSplit(s, i + 1, j, k);
      ConcatAssoc([s[i]], Span(s, i + 1, j), Span(s, j, k));
    }
  }

  /** Copying across the character at c is copying up to c, that character,
      and the rest. */
  lemma SpanAround(s: seq<char>, i: nat, c: nat)
    requires i <= c < |s|
    ensures Span(s, i, |s|) == Span(s, i, c) + [s[c]] + Span(s, c + 1, |s|)
  {
    SpanSplit(s, i, c, |s|);
    SpanSplit(s, c, c + 1, |s|);
    ConcatAssoc(Span(s, i, c), [s[c]], Span(s, c + 1, |s|));
  }

  /** Copying all of s gives s. */
  lemma SpanAll(s: seq<char>)
    ensures Span(s, 0, |s|) == s
  {
    SpanIsSlice(s, 0, |s|);
    assert s[0..|s|] == s;
  }

  /** Copying character k of a span reads character i + k of s. */
  lemma {:induction false} SpanIndex(s: seq<char>, i: nat, j: nat, k: nat)
    requires i <= j <= |s| && k < j - i
    ensures Span(s, i, j)[k] == s[i + k]
    decreases k
  {
    if k > 0 {
      SpanIndex(s, i + 1, j, k - 1);
    }
  }

  /** z is the text of t from position d on. */
  ghost predicate SuffixAt(t: seq<char>, d: nat, z: seq<char>)
  {
    d + |z| == |t| && forall k :: 0 <= k < |z| ==> t[d + k] == z[k]
  }

  /** Text in front of z shifts every position of a skip over z by d. */
  lemma {:induction false} SkipShift(t: seq<char>, d: nat, z: seq<char>, j: nat, cls: CharClass)
    requires SuffixAt(t, d, z) && j <= |z|
    ensures SkipFrom(t, d + j, cls) == d + SkipFrom(z, j, cls)
    decreases |z| - j
  {
    if j < |z| {
      assert t[d + j] == z[j];
      SkipShift(t, d, z, j + 1, cls);
    }
  }

  /** A skip started inside a stretch of cls ends where a skip from the
      stretch's start ends. */
  lemma {:induction false} SkipThrough(s: seq<char>, i: nat, j: nat, cls: CharClass)
    requires i <= j <= |s|
    requires forall k :: i <= k < j ==> InClass(s[k], cls)
    ensures SkipFrom(s, i, cls) == SkipFrom(s, j, cls)
    decreases j - i
  {
    if i < j {
      SkipThrough(s, i + 1, j, cls);
    }
  }

  /** A cursor loop that advances from `from` over the characters of cls. */
  method Skip(s: seq<char>, from: nat, cls: CharClass) returns (j: nat)
    requires from <= |s|
    ensures j == SkipFrom(s, from, cls)
  {
    j := from;
    while j < |s| && InClass(s[j], cls)
      invariant from <= j <= |s|
      invariant SkipFrom(s, j, cls) == SkipFrom(s, from, cls)
    {
      j := j + 1;
    }
  }

  function DigitValue(c: char): nat
    requires IsDigit(c)
  {
    c as int - '0' as int
  }

  function DigitChar(d: nat): (c: char)
    requires d < 10
    ensures IsDigit(c) && DigitValue(c) == d
  {
    ('0' as int + d) as char
  }

  /** The value of a run of decimal digits, most significant digit first. */
  function DigitsValue(ds: seq<char>): nat
    requires AllDigits(ds)
  {
    if ds == [] then 0 else 10 * DigitsValue(ds[..|ds| - 1]) + DigitValue(ds[|ds| - 1])
  }

  /** What strtol(t, &end, 10) reports: no conversion (end == t), or the value
      read and the offset of the first character after it. */
  datatype Conversion = NoConversion | Converted(value: int, end: nat)

  /** Where strtol looks for digits: after leading isspace() characters and
      an optional '+' or '-'. */
  function DigitsStart(t: seq<char>): (start: nat)
    ensures start <= |t|
  {
    var ws := SpanWhile(t, Space);
    if ws < |t| && (t[ws] == '+' || t[ws] == '-') then ws + 1 else ws
  }

  /** The sign strtol reads is '-'. */
  predicate NegativeSign(t: seq<char>)
  {
    var ws := SpanWhile(t, Space);
    ws < |t| && t[ws] == '-'
  }

  /** The digits strtol converts: the longest run of digits at DigitsStart. */
  function DigitRun(t: seq<char>): (ds: seq<char>)
    ensures AllDigits(ds) && DigitsStart(t) + |ds| <= |t|
    ensures ds == t[DigitsStart(t)..DigitsStart(t) + |ds|]
    ensures DigitsStart(t) + |ds| < |t| ==> !IsDigit(t[DigitsStart(t) + |ds|])
  {
    var start := DigitsStart(t);
    var len := SpanWhile(t[start..], Digit);
    SpanWhileAll(t[start..], Digit);
    assert forall k :: 0 <= k < len ==> t[start..][k] == t[start + k];
    assert start + len < |t| ==> t[start..][len] == t[start + len];
    t[start..start + len]
  }

  /**
   * strtol / strtoll in base 10: skip leading isspace() characters, take an
   * optional '+' or '-', then the longest run of digits. Without a digit there
   * is no conversion. The value is exact; the library's clamping and errno on
   * overflow are left to the callers, which test the range they need.
   */
  function Strtol(t: seq<char>): (r: Conversion)
    ensures r.Converted? ==> 0 < r.end <= |t| && IsDigit(t[r.end - 1])
    ensures r.Converted? && r.end < |t| ==> !IsDigit(t[r.end])
  {
    var ds := DigitRun(t);
    if ds == [] then NoConversion
    else
      assert t[DigitsStart(t) + |ds| - 1] == ds[|ds| - 1];
      var magnitude: int := DigitsValue(ds);
      Converted(if NegativeSign(t) then -magnitude else magnitude, DigitsStart(t) + |ds|)
  }

  /** strtol stops at a character that is neither white space, a sign nor a
      digit, so nothing after that character changes the conversion. */
  lemma StrtolStop(p: seq<char>, c: char, y: seq<char>)
    requires !IsSpace(c) && !IsDigit(c) && c != '+' && c != '-'
    ensures Strtol(p + [c] + y) == Strtol(p)
  {
    DigitsStartStop(p, c, y);
    DigitRunStop(p, c, y);
  }

  /** strtol converts nothing from a text whose first character can begin
      no number. */
  lemma StrtolNoNumber(t: seq<char>)
    requires t != [] && !IsSpace(t[0]) && !IsDigit(t[0]) && t[0] != '+' && t[0] != '-'
    ensures Strtol(t) == NoConversion
  {
    StrtolStop([], t[0], t[1..]);
    assert [] + [t[0]] + t[1..] == t;
  }

  lemma DigitsStartStop(p: seq<char>, c: char, y: seq<char>)
    requires !IsSpace(c) && c != '+' && c != '-'
    ensures DigitsStart(p + [c] + y) == DigitsStart(p)
    ensures NegativeSign(p + [c] + y) <==> NegativeSign(p)
  {
    var t := p + [c] + y;
    var ws := SpanWhile(p, Space);
    assert SpanWhile(t, Space) == ws by {
      SpanWhileStop(p, c, y, Space);
    }
    assert t[ws] == if ws < |p| then p[ws] else c;
  }

  lemma DigitRunStop(p: seq<char>, c: char, y: seq<char>)
    requires !IsSpace(c) && !IsDigit(c) && c != '+' && c != '-'
    ensures DigitRun(p + [c] + y) == DigitRun(p)
  {
    var t := p + [c] + y;
    DigitsStartStop(p, c, y);
    var start := DigitsStart(p);
    assert t[start..] == p[start..] + [c] + y;
    var len := SpanWhile(p[start..], Digit);
    assert SpanWhile(t[start..], Digit) == len by {
      SpanWhileStop(p[start..], c, y, Digit);
    }
    assert forall k :: start <= k < start + len ==> t[k] == p[k];
    assert t[start..start + len] == p[start..start + len];
  }

  /** printf("%u"): the shortest decimal numeral of n. */
  function NatToDecimal(n: nat): (s: seq<char>)
    ensures 0 < |s| && AllDigits(s)
  {
    if n < 10 then [DigitChar(n)] else NatToDecimal(n / 10) + [DigitChar(n % 10)]
  }

  /** printf("%d"): a '-' for negative numbers, then the digits of the magnitude. */
  function IntToDecimal(n: int): seq<char>
  {
    if n < 0 then ['-'] + NatToDecimal(-n) else NatToDecimal(n)
  }

  /** What "%d" prints: a '-' exactly for negative numbers, and otherwise digits. */
  lemma DecimalShape(n: int)
    ensures var d := IntToDecimal(n);
      0 < |d| && IsDigit(d[|d| - 1]) && (d[0] == '-' <==> n < 0)
      && forall k :: 0 <= k < |d| ==> d[k] == '-' || IsDigit(d[k])
  {
    var m := NatToDecimal(if n < 0 then -n else n);
    assert IsDigit(m[0]) && IsDigit(m[|m| - 1]);
  }

  function Pow10(k: nat): nat
  {
    if k == 0 then 1 else 10 * Pow10(k - 1)
  }

  /** Reading back the digits printed for n gives n. */
  lemma {:induction false} NatToDecimalValue(n: nat)
    ensures DigitsValue(NatToDecimal(n)) == n
  {
    var s := NatToDecimal(n);
    if n >= 10 {
      assert s[..|s| - 1] == NatToDecimal(n / 10);
      NatToDecimalValue(n / 10);
    }
  }

  /** A number below 10^k prints with at most k digits. */
  lemma {:induction false} NatToDecimalLength(n: nat, k: nat)
    requires 0 < k && n < Pow10(k)
    ensures |NatToDecimal(n)| <= k
  {
    if n >= 10 {
      assert k > 1;
      NatToDecimalLength(n / 10, k - 1);
    }
  }

  /** Every int64_t prints in at most 20 characters (sign and 19 digits). */
  lemma {:induction false} Int64DecimalLength(n: int)
    requires InInt64(n)
    ensures |IntToDecimal(n)| <= 20
  {
    assert Pow10(6) == 1_000_000;
    assert Pow10(12) == 1_000_000_000_000;
    assert Pow10(19) == 10_000_000_000_000_000_000;
    NatToDecimalLength(if n < 0 then -n else n, 19);
  }

  /** strtol on an optional '-' and a run of digits, followed by a non-digit or
      the end: the signed value of the digits, ending after the last digit. */
  lemma {:induction false} StrtolSignedDigits(neg: bool, digits: seq<char>, rest: seq<char>)
    requires 0 < |digits| && AllDigits(digits)
    requires rest == [] || !IsDigit(rest[0])
    ensures var sign := if neg then ['-'] else [];
      Strtol(sign + digits + rest)
        == Converted(if neg then -(DigitsValue(digits) as int) else DigitsValue(digits), |sign| + |digits|)
  {
    var sign := if neg then ['-'] else [];
    var s := sign + digits + rest;
    var start := |sign|;
    assert SpanWhile(s, Space) == 0 by {
      assert s[0] == if neg then '-' else digits[0];
      SpanWhileIs(s, Space, 0);
    }
    assert s[start..] == digits + rest;
    assert SpanWhile(s[start..], Digit) == |digits| by {
      SpanDigits(digits, rest);
    }
    assert s[start..start + |digits|] == digits;
    if neg {
      assert s[0] == '-';
    } else {
      assert !(s[0] == '+' || s[0] == '-');
    }
  }

  /** The digit run of digits + rest is digits when rest does not start with a digit. */
  lemma SpanDigits(digits: seq<char>, rest: seq<char>)
    requires AllDigits(digits)
    requires rest == [] || !IsDigit(rest[0])
    ensures SpanWhile(digits + rest, Digit) == |digits|
  {
    var t := digits + rest;
    assert forall k :: 0 <= k < |digits| ==> t[k] == digits[k];
    assert |digits| < |t| ==> t[|digits|] == rest[0];
    SpanWhileIs(t, Digit, |digits|);
  }

  /** strtol reads back exactly what "%d" printed, stopping at the first
      non-digit that follows. */
  lemma {:induction false} StrtolIntToDecimal(n: int, rest: seq<char>)
    requires rest == [] || !IsDigit(rest[0])
    ensures Strtol(IntToDecimal(n) + rest) == Converted(n, |IntToDecimal(n)|)
  {
    var m := if n < 0 then -n else n;
    var digits := NatToDecimal(m);
    NatToDecimalValue(m);
    StrtolSignedDigits(n < 0, digits, rest);
    assert IntToDecimal(n) == (if n < 0 then ['-'] else []) + digits;
  }

  /** parts joined with sep between neighbours. */
  function JoinWith(parts: seq<seq<char>>, sep: seq<char>): seq<char>
  {
    if |parts| == 0 then []
    else if |parts| == 1 then parts[0]
    else parts[0] + sep + JoinWith(parts[1..], sep)
  }

  /** A join of two or more parts is the first part, the separator, and the
      join of the rest. */
  lemma JoinCons(parts: seq<seq<char>>, sep: seq<char>)
    requires |parts| > 1
    ensures JoinWith(parts, sep) == parts[0] + sep + JoinWith(parts[1..], sep)
  {
  }

  /** Two non-empty sequences with the same head and the same tail are equal. */
  lemma HeadTail<T>(a: seq<T>, b: seq<T>)
    requires a != [] && b != [] && a[0] == b[0] && a[1..] == b[1..]
    ensures a == b
  {
    assert a == [a[0]] + a[1..];
    assert b == [b[0]] + b[1..];
  }

  /** Two concatenations with fronts of the same length agree part by part. */
  lemma ConcatCancel<T>(a: seq<T>, b: seq<T>, c: seq<T>, d: seq<T>)
    requires a + b == c + d && |a| == |c|
    ensures a == c && b == d
  {
    assert a == (a + b)[..|a|];
    assert c == (c + d)[..|c|];
    assert b == (a + b)[|a|..];
    assert d == (c + d)[|c|..];
  }

  /** Concatenation regroups freely. */
  lemma ConcatAssoc<T>(a: seq<T>, b: seq<T>, c: seq<T>)
    ensures a + (b + c) == (a + b) + c
  {
  }

  /** The front of a concatenation is its first part. */
  lemma TakeConcat<T>(a: seq<T>, b: seq<T>)
    ensures (a + b)[..|a|] == a
  {
  }
}

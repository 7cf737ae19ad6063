/**
 * The three library string operations the exporter relies on:
 * `strings.ToLower` (restricted to ASCII), `strings.Split` with a
 * one-character separator, and the `%d` verb of `fmt.Sprintf` on a
 * non-negative integer, together with the facts the exporter needs
 * about each.
 */
module GoText {

  predicate IsDigit(c: char) {
    '0' <= c <= '9'
  }

  predicate IsUpper(c: char) {
    'A' <= c <= 'Z'
  }

  /** ASCII lower-casing of one character. */
  function LowerChar(c: char): char {
    if IsUpper(c) then (c as int - 'A' as int + 'a' as int) as char else c
  }

  /** `strings.ToLower`, restricted to ASCII letters. */
  function ToLower(s: string): (r: string)
    ensures |r| == |s|
  {
    if s == [] then [] else [LowerChar(s[0])] + ToLower(s[1..])
  }

  /** Each character is lower-cased on its own, and no upper-case letter is left. */
  lemma {:induction false} ToLowerAt(s: string, i: nat)
    requires i < |s|
    ensures ToLower(s)[i] == LowerChar(s[i])
    ensures !IsUpper(ToLower(s)[i])
  {
    if i > 0 {
      ToLowerAt(s[1..], i - 1);
    }
  }

  /** A string that lower-cases another character by character is its lower-casing. */
  lemma LowerCaseOf(s: string, t: string)
    requires |s| == |t|
    requires forall i :: 0 <= i < |s| ==> t[i] == LowerChar(s[i])
    ensures ToLower(s) == t
  {
    forall i | 0 <= i < |s|
      ensures ToLower(s)[i] == t[i]
    {
      ToLowerAt(s, i);
    }
  }

  /** Lower-casing twice is lower-casing once. */
  lemma ToLowerIdempotent(s: string)
    ensures ToLower(ToLower(s)) == ToLower(s)
  {
    var r := ToLower(s);
    forall i | 0 <= i < |r|
      ensures ToLower(r)[i] == r[i]
    {
      ToLowerAt(s, i);
      ToLowerAt(r, i);
    }
  }

  /** `strings.Split(s, string(sep))`: the maximal runs between separators. */
  function Split(s: string, sep: char): (parts: seq<string>)
    ensures |parts| >= 1
    ensures forall k :: 0 <= k < |parts| ==> sep !in parts[k]
  {
    if s == [] then [[]]
    else
      var rest := Split(s[1..], sep);
      if s[0] == sep then [[]] + rest else [[s[0]] + rest[0]] + rest[1..]
  }

  /** `strings.Join(parts, string(sep))`. */
  function Join(parts: seq<string>, sep: char): (s: string)
    requires |parts| >= 1
    ensures parts[0] <= s
  {
    if |parts| == 1 then parts[0] else parts[0] + [sep] + Join(parts[1..], sep)
  }

  /** Joining the pieces of a split restores the string. */
  lemma {:induction false} JoinSplit(s: string, sep: char)
    ensures Join(Split(s, sep), sep) == s
  {
    if s != [] {
      var rest := Split(s[1..], sep);
      JoinSplit(s[1..], sep);
      if s[0] == sep {
        assert Split(s, sep)[1..] == rest;
      } else {
        var parts := Split(s, sep);
        assert parts[1..] == rest[1..];
        if |rest| > 1 {
          assert Join(rest, sep) == rest[0] + [sep] + Join(rest[1..], sep);
        }
      }
    }
  }

  /** A string without the separator splits into itself alone. */
  lemma {:induction false} SplitWithoutSep(s: string, sep: char)
    requires sep !in s
    ensures Split(s, sep) == [s]
  {
    if s != [] {
      SplitWithoutSep(s[1..], sep);
      assert [s[0]] + s[1..] == s;
    }
  }

  /** Splitting at a first separator yields the part before it, then the split of the rest. */
  lemma {:induction false} SplitAtFirstSep(a: string, b: string, sep: char)
    requires sep !in a
    ensures Split(a + [sep] + b, sep) == [a] + Split(b, sep)
  {
    var s := a + [sep] + b;
    if a == [] {
      assert s[1..] == b;
    } else {
      assert s[1..] == a[1..] + [sep] + b;
      SplitAtFirstSep(a[1..], b, sep);
      assert [a[0]] + a[1..] == a;
    }
  }

  /** A two-part name `a/b` with no other slash splits into exactly `a` and `b`. */
  lemma SplitPair(a: string, b: string, sep: char)
    requires sep !in a && sep !in b
    ensures Split(a + [sep] + b, sep) == [a, b]
  {
    SplitAtFirstSep(a, b, sep);
    SplitWithoutSep(b, sep);
  }

  function DigitChar(d: nat): (c: char)
    requires d < 10
    ensures IsDigit(c)
  {
    ('0' as int + d) as char
  }

  function DigitValue(c: char): nat
    requires IsDigit(c)
  {
    c as int - '0' as int
  }

  predicate AllDigits(s: string) {
    forall k :: 0 <= k < |s| ==> IsDigit(s[k])
  }

  /** The `%d` rendering of a non-negative integer: decimal digits, no sign, no leading zero. */
  function Decimal(n: nat): (s: string)
    ensures |s| >= 1 && AllDigits(s)
    ensures (s[0] == '0') == (n == 0)
  {
    if n < 10 then [DigitChar(n)] else Decimal(n / 10) + [DigitChar(n % 10)]
  }

  /** The value of a string of decimal digits, most significant first. */
  function DecimalValue(s: string): (n: nat)
    requires AllDigits(s)
  {
    if s == [] then 0 else DecimalValue(s[..|s| - 1]) * 10 + DigitValue(s[|s| - 1])
  }

  /** Reading back the `%d` rendering gives the number. */
  lemma {:induction false} DecimalRoundTrip(n: nat)
    ensures DecimalValue(Decimal(n)) == n
  {
    if n >= 10 {
      var s := Decimal(n);
      assert s[..|s| - 1] == Decimal(n / 10);
      DecimalRoundTrip(n / 10);
    }
  }

  /** Different numbers are rendered differently. */
  lemma DecimalInjective(m: nat, n: nat)
    requires Decimal(m) == Decimal(n)
    ensures m == n
  {
    DecimalRoundTrip(m);
    DecimalRoundTrip(n);
  }

  /** The maximal run of digits at the start of a string. */
  function LeadingDigits(s: string): (d: string)
    ensures AllDigits(d) && d <= s
  {
    if s != [] && IsDigit(s[0]) then [s[0]] + LeadingDigits(s[1..]) else []
  }

  /** A digit string followed by something that does not start with a digit is its own leading run. */
  lemma {:induction false} LeadingDigitsOfConcat(d: string, e: string)
    requires AllDigits(d)
    requires e == [] || !IsDigit(e[0])
    ensures LeadingDigits(d + e) == d
  {
    if d == [] {
      assert d + e == e;
    } else {
      assert (d + e)[1..] == d[1..] + e;
      LeadingDigitsOfConcat(d[1..], e);
    }
  }
}

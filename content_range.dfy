/**
 * The size probe: the player asks for `bytes=0-0` and reads the complete
 * length from the response's Content-Range value (RFC 9110, section 14.4:
 * `bytes <first>-<last>/<complete-length>`, with an asterisk in place of
 * the complete length when it is unknown). The player extracts it with
 * the pattern `/(\d+)$`: the run of decimal digits that ends the value,
 * provided that a `/` comes right before it; anything else, a missing
 * header (read as the empty string) included, leaves the total size null.
 */
module ContentRange {
  import opened Wrappers
  import opened Digits

  function DigitValue(c: char): nat
    requires IsDigit(c)
  {
    c as int - '0' as int
  }

  /** The decimal value of a digit string, as `parseInt(_, 10)` reads it. */
  function DecimalValue(s: string): nat
    requires AllDigits(s)
  {
    if s == [] then 0 else DecimalValue(s[..|s| - 1]) * 10 + DigitValue(s[|s| - 1])
  }

  /** The length of the longest run of digits that ends `s`. */
  function TrailingDigits(s: string): (k: nat)
    ensures k <= |s|
    ensures AllDigits(s[|s| - k..])
    ensures k < |s| ==> !IsDigit(s[|s| - k - 1])
  {
    if s == [] || !IsDigit(s[|s| - 1]) then 0
    else
      var k := TrailingDigits(s[..|s| - 1]);
      assert forall i :: |s| - (k + 1) <= i < |s| - 1 ==> s[i] == s[..|s| - 1][|s| - 1 - k..][i - (|s| - 1 - k)];
      k + 1
  }

  /** A run of `m` digits that ends `s` and is not preceded by a digit is the longest one. */
  lemma {:induction false} TrailingDigitsUnique(s: string, m: nat)
    requires m <= |s| && AllDigits(s[|s| - m..])
    requires m < |s| ==> !IsDigit(s[|s| - m - 1])
    ensures TrailingDigits(s) == m
  {
    if m > 0 {
      var t := s[..|s| - 1];
      assert s[|s| - m..][m - 1] == s[|s| - 1];
      var run := t[|t| - (m - 1)..];
      forall i | 0 <= i < |run|
        ensures IsDigit(run[i])
      {
        assert run[i] == s[|s| - m..][i];
      }
      assert m < |s| ==> t[|t| - (m - 1) - 1] == s[|s| - m - 1];
      TrailingDigitsUnique(t, m - 1);
    }
  }

  /** `contentRange` ends with `/` at index `j` followed by one or more digits. */
  predicate SizeSuffixAt(contentRange: string, j: int)
  {
    0 <= j < |contentRange| - 1 && contentRange[j] == '/' && AllDigits(contentRange[j + 1..])
  }

  /** The total size a Content-Range value announces, or None. */
  function ParseTotalSize(contentRange: string): Option<nat>
  {
    var k := TrailingDigits(contentRange);
    var n := |contentRange|;
    if 0 < k < n && contentRange[n - k - 1] == '/' then Some(DecimalValue(contentRange[n - k..]))
    else None
  }

  /**
   * The parse agrees with the pattern `/(\d+)$` in both directions: it
   * yields a size exactly when the value ends with `/` and a non-empty digit
   * run, and the size is the decimal value of that run.
   */
  lemma {:induction false} ParseTotalSizeMatchesPattern(contentRange: string)
    ensures forall n :: ParseTotalSize(contentRange) == Some(n) ==>
              exists j :: SizeSuffixAt(contentRange, j) && n == DecimalValue(contentRange[j + 1..])
    ensures forall j :: SizeSuffixAt(contentRange, j) ==>
              ParseTotalSize(contentRange) == Some(DecimalValue(contentRange[j + 1..]))
  {
    var s := contentRange;
    var k := TrailingDigits(s);
    var n := |s|;
    forall v | ParseTotalSize(s) == Some(v)
      ensures exists j :: SizeSuffixAt(s, j) && v == DecimalValue(s[j + 1..])
    {
      var j := n - k - 1;
      assert s[j + 1..] == s[n - k..];
      assert SizeSuffixAt(s, j) && v == DecimalValue(s[j + 1..]);
    }
    forall j | SizeSuffixAt(s, j)
      ensures ParseTotalSize(s) == Some(DecimalValue(s[j + 1..]))
    {
      TrailingDigitsUnique(s, n - j - 1);
    }
  }

  /** The unknown-length form, an asterisk after the slash, gives no size. */
  lemma {:induction false} UnknownLengthHasNoSize(prefix: string)
    ensures ParseTotalSize(prefix + "/*") == None
  {
    var s := prefix + "/*";
    assert !IsDigit(s[|s| - 1]);
    assert TrailingDigits(s) == 0;
  }

  // ---------------------------------------------------------------------
  // Formatting a Content-Range value, the partner of the parse

  function DigitChar(d: nat): (c: char)
    requires d < 10
    ensures IsDigit(c) && DigitValue(c) == d
  {
    ('0' as int + d) as char
  }

  /** The decimal representation of `n`, without leading zeros. */
  function DecimalString(n: nat): (s: string)
    ensures |s| > 0
    ensures AllDigits(s)
  {
    if n < 10 then [DigitChar(n)] else DecimalString(n / 10) + [DigitChar(n % 10)]
  }

  lemma {:induction false} DecimalRoundTrip(n: nat)
    ensures DecimalValue(DecimalString(n)) == n
  {
    if n >= 10 {
      var s := DecimalString(n);
      assert s[..|s| - 1] == DecimalString(n / 10);
      DecimalRoundTrip(n / 10);
    }
  }

  /** `bytes <first>-<last>/<complete-length>` as a server sends it for a satisfied range. */
  function FormatContentRange(first: nat, last: nat, completeLength: nat): string
  {
    "bytes " + DecimalString(first) + "-" + DecimalString(last) + "/" + DecimalString(completeLength)
  }

  /** The total size read back from a well-formed Content-Range value is its complete length. */
  lemma {:induction false} ParseFormattedContentRange(first: nat, last: nat, completeLength: nat)
    ensures ParseTotalSize(FormatContentRange(first, last, completeLength)) == Some(completeLength)
  {
    var head := "bytes " + DecimalString(first) + "-" + DecimalString(last);
    var digits := DecimalString(completeLength);
    var s := FormatContentRange(first, last, completeLength);
    assert s == head + "/" + digits;
    var j := |head|;
    assert s[j] == '/';
    assert s[j + 1..] == digits;
    assert SizeSuffixAt(s, j);
    ParseTotalSizeMatchesPattern(s);
    DecimalRoundTrip(completeLength);
  }
}

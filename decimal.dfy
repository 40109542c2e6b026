/**
 * Decimal numbers inside byte strings: finding the first run of ASCII digits
 * (what `re.findall('(\d+)', data)[0]` yields on a Python 2 byte string, where
 * `\d` is exactly `0`-`9`) and converting it with `int(...)`.
 */
module Decimal {
  import opened Wrappers
  import opened ByteStrings

  /** An ASCII decimal digit, `0` (48) to `9` (57). */
  predicate IsDigit(b: byte)
  {
    48 <= b <= 57
  }

  predicate AllDigits(d: Bytes)
  {
    forall i :: 0 <= i < |d| ==> IsDigit(d[i])
  }

  predicate NoDigits(s: Bytes)
  {
    forall i :: 0 <= i < |s| ==> !IsDigit(s[i])
  }

  /** The half-open index range `[start, end)` of a run of digits. */
  datatype Span = Span(start: nat, end: nat)

  /**
   * `sp` is the first maximal run of digits in `s`: it is non-empty, no digit
   * precedes it, and it stops at the end of `s` or at a non-digit.
   */
  predicate IsFirstDigitRun(s: Bytes, sp: Span)
  {
    && sp.start < sp.end <= |s|
    && NoDigits(s[..sp.start])
    && AllDigits(s[sp.start..sp.end])
    && (sp.end == |s| || !IsDigit(s[sp.end]))
  }

  /** The index of the first digit at or after `i`, or `|s|` when there is none. */
  function FirstDigitFrom(s: Bytes, i: nat): (r: nat)
    requires i <= |s|
    ensures i <= r <= |s|
    ensures r < |s| ==> IsDigit(s[r])
    ensures forall j :: i <= j < r ==> !IsDigit(s[j])
    decreases |s| - i
  {
    if i == |s| || IsDigit(s[i]) then i else FirstDigitFrom(s, i + 1)
  }

  /** The index just past the run of digits that starts at `i`. */
  function DigitsEnd(s: Bytes, i: nat): (r: nat)
    requires i <= |s|
    ensures i <= r <= |s|
    ensures forall j :: i <= j < r ==> IsDigit(s[j])
    ensures r < |s| ==> !IsDigit(s[r])
    decreases |s| - i
  {
    if i == |s| || !IsDigit(s[i]) then i else DigitsEnd(s, i + 1)
  }

  /** The first run of digits in `s`; None exactly when `s` holds no digit. */
  function FirstDigitRun(s: Bytes): (r: Option<Span>)
    ensures r.None? <==> NoDigits(s)
    ensures r.Some? ==> IsFirstDigitRun(s, r.value)
  {
    var a := FirstDigitFrom(s, 0);
    if a == |s| then
      None
    else
      var sp := Span(a, DigitsEnd(s, a));
      assert !NoDigits(s) by { assert IsDigit(s[a]); }
      Some(sp)
  }

  /** A string has only one first run of digits. */
  lemma FirstDigitRunUnique(s: Bytes, sp1: Span, sp2: Span)
    requires IsFirstDigitRun(s, sp1) && IsFirstDigitRun(s, sp2)
    ensures sp1 == sp2
  {
    RunStartsWithDigit(s, sp1);
    RunStartsWithDigit(s, sp2);
    if sp1.start < sp2.start {
      NoDigitBefore(s, sp2.start, sp1.start);
    } else if sp2.start < sp1.start {
      NoDigitBefore(s, sp1.start, sp2.start);
    } else if sp1.end < sp2.end {
      DigitWithin(s, sp2, sp1.end);
    } else if sp2.end < sp1.end {
      DigitWithin(s, sp1, sp2.end);
    }
  }

  lemma RunStartsWithDigit(s: Bytes, sp: Span)
    requires sp.start < sp.end <= |s| && AllDigits(s[sp.start..sp.end])
    ensures IsDigit(s[sp.start])
  {
    assert s[sp.start..sp.end][0] == s[sp.start];
  }

  lemma NoDigitBefore(s: Bytes, end: nat, k: nat)
    requires k < end <= |s| && NoDigits(s[..end])
    ensures !IsDigit(s[k])
  {
    assert s[..end][k] == s[k];
  }

  lemma DigitWithin(s: Bytes, sp: Span, k: nat)
    requires sp.start <= k < sp.end <= |s| && AllDigits(s[sp.start..sp.end])
    ensures IsDigit(s[k])
  {
    assert s[sp.start..sp.end][k - sp.start] == s[k];
  }

  /** The value of one digit. */
  function DigitValue(b: byte): (v: nat)
    requires IsDigit(b)
    ensures v < 10
  {
    (b - 48) as nat
  }

  /** The digit byte for a value below ten. */
  function Digit(v: nat): (b: byte)
    requires v < 10
    ensures IsDigit(b) && DigitValue(b) == v
  {
    (v + 48) as byte
  }

  /** The value of a string of digits, most significant first, as `int(d)`. */
  function Value(d: Bytes): nat
    requires AllDigits(d)
  {
    if d == [] then 0 else 10 * Value(d[..|d| - 1]) + DigitValue(d[|d| - 1])
  }

  /** The shortest decimal rendering of `n`, as `str(n)` and `%d` write it. */
  function Render(n: nat): (r: Bytes)
    ensures |r| > 0 && AllDigits(r)
    ensures |r| > 1 ==> r[0] != 48
  {
    if n < 10 then [Digit(n)] else Render(n / 10) + [Digit(n % 10)]
  }

  /** Rendering and reading back are inverse: `int(str(n)) == n`. */
  lemma {:induction false} ValueOfRender(n: nat)
    ensures Value(Render(n)) == n
  {
    if n >= 10 {
      var r := Render(n);
      assert r[..|r| - 1] == Render(n / 10);
      ValueOfRender(n / 10);
    }
  }

  /** Leading zeros do not change the value: `int("007") == 7`. */
  lemma {:induction false} LeadingZero(d: Bytes)
    requires AllDigits(d)
    ensures AllDigits([48 as byte] + d) && Value([48 as byte] + d) == Value(d)
  {
    var z := [48 as byte] + d;
    if d != [] {
      assert z[..|z| - 1] == [48 as byte] + d[..|d| - 1];
      LeadingZero(d[..|d| - 1]);
    }
  }
}

/**
 * `str2int` (util/str2int.c), base 10 only, and the `longp` helper the
 * current request code calls instead (its source is not part of this model).
 */
module Str2Int {
  import opened Decimal

  const IntMax: int := 0x7fff_ffff
  const IntMin: int := -0x8000_0000
  const LongMax: int := 0x7fff_ffff_ffff_ffff
  const LongMin: int := -0x8000_0000_0000_0000

  /** `str2int_errno_t`; the converted number travels with `Success`, so a
      failed conversion has no output to write. */
  datatype Errno = Success(value: int) | Overflow | Underflow | Inconvertible

  /** C's `isspace` in the "C" locale. */
  predicate IsSpace(c: char) {
    c == ' ' || c == '\t' || c == '\n' || c == '\U{000B}' || c == '\U{000C}' || c == '\r'
  }

  /** Length of an optional leading sign. */
  function SignLen(s: string): (k: nat)
    ensures k <= 1 && k <= |s|
  {
    if |s| > 0 && (s[0] == '+' || s[0] == '-') then 1 else 0
  }

  /** End of the maximal run of digits starting at `i`. */
  function DigitRunEnd(s: string, i: nat): (e: nat)
    requires i <= |s|
    ensures i <= e <= |s| && AllDigits(s[i..e])
    ensures e == |s| || !IsDigit(s[e])
    decreases |s| - i
  {
    if i < |s| && IsDigit(s[i]) then DigitRunEnd(s, i + 1) else i
  }

  /** What `strtol(s, &end, 10)` finds in a string that does not start with
      white space: the value of the longest signed digit prefix (not yet
      clamped to the range of `long`) and where it ends; without any digit the
      value is 0 and `end` stays at the start. */
  datatype Scan = Scan(value: int, end: nat)

  function StrtolScan(s: string): (r: Scan)
    ensures r.end <= |s|
  {
    var k := SignLen(s);
    var e := DigitRunEnd(s, k);
    if e == k then Scan(0, 0)
    else
      var magnitude: int := Value(s[k..e]);
      Scan(if k == 1 && s[0] == '-' then -magnitude else magnitude, e)
  }

  /** The body of `str2int` for the bounds [lo, hi]. A value beyond the range
      of `long` is clamped by `strtol` with ERANGE set; both branches of each C
      test then agree with comparing the unclamped value against the bound. */
  function ParseBounded(s: string, lo: int, hi: int): (r: Errno)
    ensures |s| == 0 || IsSpace(s[0]) ==> r == Inconvertible
    ensures r.Success? ==> lo <= r.value <= hi && 0 < StrtolScan(s).end == |s|
    ensures r == Overflow ==> StrtolScan(s).value > hi
    ensures r == Underflow ==> StrtolScan(s).value < lo
  {
    if |s| == 0 || IsSpace(s[0]) then Inconvertible
    else
      var sc := StrtolScan(s);
      if sc.value > hi then Overflow
      else if sc.value < lo then Underflow
      else if sc.end != |s| then Inconvertible
      else Success(sc.value)
  }

  /** An optional sign followed by at least one digit and nothing else. */
  predicate IsDecimal(s: string) {
    |s| > SignLen(s) && AllDigits(s[SignLen(s)..])
  }

  /** The number such a string denotes. */
  function SignedValue(s: string): int
    requires IsDecimal(s)
  {
    var magnitude: int := Value(s[SignLen(s)..]);
    if SignLen(s) == 1 && s[0] == '-' then -magnitude else magnitude
  }

  lemma {:induction false} DigitRunIsEnd(s: string, i: nat, j: nat)
    requires i <= j <= |s| && AllDigits(s[i..j])
    requires j == |s| || !IsDigit(s[j])
    ensures DigitRunEnd(s, i) == j
    decreases j - i
  {
    if i < j {
      assert IsDigit(s[i..j][0]);
      assert s[i + 1..j] == s[i..j][1..];
      DigitRunIsEnd(s, i + 1, j);
    }
  }

  /** `str2int(&out, s, 10)`. */
  function Str2Int(s: string): (r: Errno)
    ensures |s| == 0 || IsSpace(s[0]) ==> r == Inconvertible
    ensures r.Success? <==> IsDecimal(s) && IntMin <= SignedValue(s) <= IntMax
    ensures r.Success? ==> r.value == SignedValue(s)
    ensures r == Overflow <==> |s| > 0 && !IsSpace(s[0]) && StrtolScan(s).value > IntMax
    ensures r == Underflow <==> |s| > 0 && !IsSpace(s[0]) && StrtolScan(s).value < IntMin
  {
    var r := ParseBounded(s, IntMin, IntMax);
    ParseBoundedSuccess(s, IntMin, IntMax);
    r
  }

  /** `longp(&out, s, 10)`, whose source is not part of this model: assumed to
      follow the rules of `str2int` with the bounds of a 64-bit `long`. */
  function LongParse(s: string): (r: Errno)
    ensures r.Success? <==> IsDecimal(s) && LongMin <= SignedValue(s) <= LongMax
    ensures r.Success? ==> r.value == SignedValue(s)
  {
    var r := ParseBounded(s, LongMin, LongMax);
    ParseBoundedSuccess(s, LongMin, LongMax);
    r
  }

  lemma ParseBoundedSuccess(s: string, lo: int, hi: int)
    ensures ParseBounded(s, lo, hi).Success? <==> IsDecimal(s) && lo <= SignedValue(s) <= hi
    ensures ParseBounded(s, lo, hi).Success? ==> ParseBounded(s, lo, hi).value == SignedValue(s)
  {
    var k := SignLen(s);
    if |s| > 0 && !IsSpace(s[0]) {
      var e := DigitRunEnd(s, k);
      if e == |s| && e > k {
        assert s[k..e] == s[k..];
      }
      if IsDecimal(s) {
        assert s[k..|s|] == s[k..];
        DigitRunIsEnd(s, k, |s|);
      }
    }
  }

  /** The range checks come before the trailing-character check: a digit run
      too large for `int` reports OVERFLOW even with junk after it. */
  lemma OverflowBeforeTrailing(digits: string, rest: string)
    requires |digits| > 0 && AllDigits(digits) && Value(digits) > IntMax
    requires |rest| > 0 && !IsDigit(rest[0])
    ensures Str2Int(digits + rest) == Overflow
  {
    var s := digits + rest;
    assert s[0..|digits|] == digits;
    DigitRunIsEnd(s, 0, |digits|);
  }

  /** Likewise below the range: a negative digit run too large for `int`
      reports UNDERFLOW even with junk after it. */
  lemma UnderflowBeforeTrailing(digits: string, rest: string)
    requires |digits| > 0 && AllDigits(digits) && Value(digits) > -IntMin
    requires |rest| > 0 && !IsDigit(rest[0])
    ensures Str2Int("-" + digits + rest) == Underflow
  {
    var s := "-" + digits + rest;
    assert s[1..1 + |digits|] == digits;
    DigitRunIsEnd(s, 1, 1 + |digits|);
  }

  /** A number in range followed by anything that is not a digit is
      INCONVERTIBLE. */
  lemma TrailingInconvertible(digits: string, rest: string)
    requires |digits| > 0 && AllDigits(digits) && Value(digits) <= IntMax
    requires |rest| > 0 && !IsDigit(rest[0])
    ensures Str2Int(digits + rest) == Inconvertible
  {
    var s := digits + rest;
    assert s[0..|digits|] == digits;
    DigitRunIsEnd(s, 0, |digits|);
  }

  /** Round trip: what `%d` prints for a non-negative `int`, `str2int` reads
      back. */
  lemma RenderRoundTrip(n: nat)
    requires n <= IntMax
    ensures Str2Int(Render(n)) == Success(n)
  {
    var r := Render(n);
    ValueOfRender(n);
    assert SignLen(r) == 0;
    assert r[0..] == r;
  }

  /** Round trip for `longp`: the Content-Length the response builder prints
      is read back by the request side. */
  lemma RenderRoundTripLong(n: nat)
    requires n <= LongMax
    ensures LongParse(Render(n)) == Success(n)
  {
    var r := Render(n);
    ValueOfRender(n);
    assert SignLen(r) == 0;
    assert r[0..] == r;
  }
}

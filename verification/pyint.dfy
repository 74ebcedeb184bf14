/**
 * Python's `int(text)` on a string (base 10) and its inverse `str(n)`.
 * `int` ignores surrounding whitespace, accepts one leading sign and
 * single underscores between digits, refuses more than 4300 digits, and
 * raises `ValueError` on anything else, modelled here as `None`.
 */
module PyInt {
  import opened Wrappers
  import opened PyStr

  predicate IsDigit(c: char) {
    '0' <= c <= '9'
  }

  function DigitValue(c: char): nat
    requires IsDigit(c)
  {
    c as int - '0' as int
  }

  function DigitChar(d: nat): (c: char)
    requires d < 10
    ensures IsDigit(c) && DigitValue(c) == d
  {
    ('0' as int + d) as char
  }

  /** The unsigned body `int` accepts: digits, with single underscores only between two digits. */
  predicate IsDigitString(b: string) {
    && |b| > 0
    && IsDigit(b[0])
    && IsDigit(b[|b| - 1])
    && forall i :: 0 <= i < |b| ==>
         IsDigit(b[i]) || (b[i] == '_' && 0 < i < |b| - 1 && IsDigit(b[i - 1]) && IsDigit(b[i + 1]))
  }

  /** The decimal value of the digits of `b`, underscores skipped. */
  function DigitsValue(b: string): nat {
    if b == [] then 0
    else if IsDigit(b[|b| - 1]) then DigitsValue(b[..|b| - 1]) * 10 + DigitValue(b[|b| - 1])
    else DigitsValue(b[..|b| - 1])
  }

  /** The default of `sys.get_int_max_str_digits()`: the most digits `int` and `str` handle in base 10. */
  const MaxStrDigits := 4300

  /**
   * The information separators U+001C to U+001F. `str.strip()` removes
   * them, but among ASCII characters `int` skips only tab, line feed,
   * vertical tab, form feed, carriage return and space.
   */
  predicate IsInfoSeparator(c: char) {
    '\U{1C}' <= c <= '\U{1F}'
  }

  /** Whether `s` holds an information separator anywhere. */
  predicate HasInfoSeparator(s: string) {
    s != [] && (IsInfoSeparator(s[0]) || HasInfoSeparator(s[1..]))
  }

  /** `HasInfoSeparator` holds exactly when some character is an information separator. */
  lemma {:induction false} HasInfoSeparatorAt(s: string)
    ensures HasInfoSeparator(s) <==> exists k :: 0 <= k < |s| && IsInfoSeparator(s[k])
    decreases |s|
  {
    if s != [] {
      HasInfoSeparatorAt(s[1..]);
      assert forall k :: 1 <= k < |s| ==> s[k] == s[1..][k - 1];
      if HasInfoSeparator(s[1..]) {
        var k :| 0 <= k < |s[1..]| && IsInfoSeparator(s[1..][k]);
        assert IsInfoSeparator(s[k + 1]);
      }
    }
  }

  /** The whitespace `int` skips around a number. */
  predicate IsIntSpace(c: char) {
    IsSpace(c) && !IsInfoSeparator(c)
  }

  /**
   * `int(s)`, with `None` for the `ValueError` it raises. An information
   * separator is refused wherever it stands: around the number `int` does
   * not skip it, and inside it is neither a digit, a sign nor `_`.
   */
  function ParseInt(s: string): Option<int> {
    if HasInfoSeparator(s) then None
    else ParseSigned(Strip(s))
  }

  /** The number of digits in a body that `int` accepts: its underscores do not count. */
  function DigitCount(b: string): nat {
    if b == [] then 0 else (if IsDigit(b[0]) then 1 else 0) + DigitCount(b[1..])
  }

  /** `int` on a string without surrounding whitespace: an optional sign, then the digits. */
  function ParseSigned(t: string): (r: Option<int>)
    ensures r.Some? ==> |t| > 0 && (IsDigit(t[0]) || t[0] == '-' || t[0] == '+')
  {
    if t != [] && (t[0] == '-' || t[0] == '+') then
      var body := t[1..];
      if IsDigitString(body) && DigitCount(body) <= MaxStrDigits then
        var v: int := DigitsValue(body);
        Some(if t[0] == '-' then -v else v)
      else None
    else if IsDigitString(t) && DigitCount(t) <= MaxStrDigits then Some(DigitsValue(t))
    else None
  }

  /** `str(n)` for `n >= 0`: the shortest decimal digits of `n`. */
  function NatToString(n: nat): (r: string)
    ensures |r| > 0 && forall i :: 0 <= i < |r| ==> IsDigit(r[i])
  {
    if n < 10 then [DigitChar(n)] else NatToString(n / 10) + [DigitChar(n % 10)]
  }

  /** `str(n)`. */
  function IntToString(n: int): string {
    if n < 0 then "-" + NatToString(-n) else NatToString(n)
  }

  /** How many decimal digits `str(n)` writes, the sign not counted. */
  function DecimalDigits(n: int): nat {
    |NatToString(if n < 0 then -n else n)|
  }

  /** A string of digits only has as many digits as characters. */
  lemma {:induction false} DigitCountOfDigits(b: string)
    requires forall k :: 0 <= k < |b| ==> IsDigit(b[k])
    ensures DigitCount(b) == |b|
    decreases |b|
  {
    if b != [] {
      DigitCountOfDigits(b[1..]);
    }
  }

  /** The digits `str` writes for a natural number are read back by `int` as that number. */
  lemma {:induction false} NatToStringRoundTrip(n: nat)
    ensures IsDigitString(NatToString(n))
    ensures DigitsValue(NatToString(n)) == n
  {
    var s := NatToString(n);
    if n >= 10 {
      NatToStringRoundTrip(n / 10);
      assert s[..|s| - 1] == NatToString(n / 10);
    } else {
      assert s[..|s| - 1] == [];
    }
  }

  /** `str(n)` writes only digits and a leading minus sign. */
  lemma IntToStringChars(n: int)
    ensures forall k :: 0 <= k < |IntToString(n)| ==> IsDigit(IntToString(n)[k]) || IntToString(n)[k] == '-'
  {
    var d := NatToString(if n < 0 then -n else n);
    assert n < 0 ==> forall k :: 1 <= k < |IntToString(n)| ==> IntToString(n)[k] == d[k - 1];
  }

  /** `int(str(n)) == n` for every integer `n` of at most 4300 digits. */
  lemma IntToStringRoundTrip(n: int)
    requires DecimalDigits(n) <= MaxStrDigits
    ensures ParseInt(IntToString(n)) == Some(n)
  {
    var s := IntToString(n);
    IntToStringChars(n);
    HasInfoSeparatorAt(s);
    IntToStringUnpadded(n);
    StripUnpadded(s);
    IntToStringParses(n);
  }

  /** `int` refuses the digits of an integer with more than 4300 of them. */
  lemma IntToStringTooLong(n: int)
    requires DecimalDigits(n) > MaxStrDigits
    ensures ParseInt(IntToString(n)) == None
  {
    var s := IntToString(n);
    IntToStringChars(n);
    HasInfoSeparatorAt(s);
    IntToStringUnpadded(n);
    StripUnpadded(s);
    IntToStringRefused(n);
  }

  lemma IntToStringRefused(n: int)
    requires DecimalDigits(n) > MaxStrDigits
    ensures ParseSigned(IntToString(n)) == None
  {
    var s := IntToString(n);
    var d := NatToString(if n < 0 then -n else n);
    DigitCountOfDigits(d);
    if n < 0 {
      assert s[1..] == d;
    }
  }

  lemma IntToStringUnpadded(n: int)
    ensures !IsSpace(IntToString(n)[0])
    ensures !IsSpace(IntToString(n)[|IntToString(n)| - 1])
  {
    var d := NatToString(if n < 0 then -n else n);
    assert IsDigit(d[|d| - 1]);
    assert IntToString(n)[|IntToString(n)| - 1] == d[|d| - 1];
  }

  lemma IntToStringParses(n: int)
    requires DecimalDigits(n) <= MaxStrDigits
    ensures ParseSigned(IntToString(n)) == Some(n)
  {
    var d := NatToString(if n < 0 then -n else n);
    DigitCountOfDigits(d);
    NatToStringRoundTrip(if n < 0 then -n else n);
    BodyParses(d);
  }

  /** A body `int` accepts is read with or without a leading minus sign. */
  lemma BodyParses(d: string)
    requires IsDigitString(d) && DigitCount(d) <= MaxStrDigits
    ensures ParseSigned(d) == Some(DigitsValue(d))
    ensures ParseSigned("-" + d) == Some(-(DigitsValue(d) as int))
  {
    assert ("-" + d)[1..] == d;
  }

  /** `int` also ignores the whitespace it skips around the number. */
  lemma IntToStringPadded(left: string, n: int, right: string)
    requires DecimalDigits(n) <= MaxStrDigits
    requires forall k :: 0 <= k < |left| ==> IsIntSpace(left[k])
    requires forall k :: 0 <= k < |right| ==> IsIntSpace(right[k])
    ensures ParseInt(left + IntToString(n) + right) == Some(n)
  {
    var s := left + IntToString(n) + right;
    IntToStringChars(n);
    forall k | 0 <= k < |s| ensures !IsInfoSeparator(s[k]) {
      if |left| <= k < |left| + |IntToString(n)| {
        assert s[k] == IntToString(n)[k - |left|];
      }
    }
    HasInfoSeparatorAt(s);
    IntToStringUnpadded(n);
    StripPadded(left, IntToString(n), right);
    IntToStringParses(n);
  }

  /** `"\x1c5".strip()` is `"5"`, yet `int("\x1c5")` raises. */
  lemma InfoSeparatorRefused()
    ensures Strip("\U{1C}5") == "5"
    ensures ParseInt("\U{1C}5") == None
  {
    StripPadded("\U{1C}", "5", "");
    assert "\U{1C}5" == "\U{1C}" + "5" + "";
    assert IsInfoSeparator("\U{1C}5"[0]);
  }

  /** `int` rejects any string without a decimal digit, the empty string among them. */
  lemma ParseIntNeedsDigit(s: string)
    requires forall k :: 0 <= k < |s| ==> !IsDigit(s[k])
    ensures ParseInt(s) == None
  {
    if !HasInfoSeparator(s) {
      var a := TrimStart(s);
      var t := TrimEnd(a);
      assert forall k :: 0 <= k < |t| ==> t[k] == s[|s| - |a| + k];
      assert t != [] ==> !IsDigit(t[0]);
      assert |t| > 1 ==> !IsDigit(t[1..][0]);
    }
  }
}

/**
 * Python's `int(text)` for base-10 text over ASCII: surrounding whitespace
 * is ignored, an optional `+` or `-` sign may lead, and between one and
 * `MaxStrDigits` ASCII digits must follow. Anything else raises ValueError.
 */
module Decimal {
  import opened Wrappers
  import opened Exceptions

  predicate IsDigit(c: char) {
    '0' <= c <= '9'
  }

  /**
   * The ASCII whitespace `int()` skips around a number: TAB, LF, VT, FF, CR
   * and SPACE. Unlike `str.isspace`, FS..US (0x1C-0x1F) are not among them.
   */
  predicate IsSpace(c: char) {
    c == ' ' || '\t' <= c <= '\r'
  }

  /** The default limit on the digits `int()` reads and `str()` writes (`sys.get_int_max_str_digits()`). */
  const MaxStrDigits: nat := 4300

  predicate AllDigits(s: string) {
    forall k :: 0 <= k < |s| ==> IsDigit(s[k])
  }

  function DigitValue(c: char): (d: nat)
    requires IsDigit(c)
    ensures d < 10
  {
    c as int - '0' as int
  }

  /** The number a run of decimal digits denotes, most significant digit first. */
  function DigitsValue(s: string): nat
    requires AllDigits(s)
    decreases |s|
  {
    if s == [] then 0 else DigitsValue(s[..|s| - 1]) * 10 + DigitValue(s[|s| - 1])
  }

  /** `s` with its leading whitespace removed. */
  function StripLeft(s: string): (r: string)
    ensures |r| <= |s|
    ensures r == [] || !IsSpace(r[0])
    decreases |s|
  {
    if s != [] && IsSpace(s[0]) then StripLeft(s[1..]) else s
  }

  /** `s` with its trailing whitespace removed. */
  function StripRight(s: string): (r: string)
    ensures |r| <= |s|
    ensures r == [] || !IsSpace(r[|r| - 1])
    decreases |s|
  {
    if s != [] && IsSpace(s[|s| - 1]) then StripRight(s[..|s| - 1]) else s
  }

  /** `StripLeft` drops only whitespace, and keeps the tail of the text. */
  lemma {:induction false} StripLeftSuffix(s: string)
    ensures StripLeft(s) == s[|s| - |StripLeft(s)|..]
    ensures forall k :: 0 <= k < |s| - |StripLeft(s)| ==> IsSpace(s[k])
    decreases |s|
  {
    if s != [] && IsSpace(s[0]) {
      StripLeftSuffix(s[1..]);
    }
  }

  /** `StripRight` drops only whitespace, and keeps the head of the text. */
  lemma {:induction false} StripRightPrefix(s: string)
    ensures StripRight(s) == s[..|StripRight(s)|]
    ensures forall k :: |StripRight(s)| <= k < |s| ==> IsSpace(s[k])
    decreases |s|
  {
    if s != [] && IsSpace(s[|s| - 1]) {
      StripRightPrefix(s[..|s| - 1]);
    }
  }

  /** `s` without the whitespace `int()` skips at either end. */
  function Strip(s: string): string {
    StripRight(StripLeft(s))
  }

  /**
   * A run of digits with its sign applied, or ValueError when the run is
   * empty, not all digits, or longer than `MaxStrDigits`.
   */
  function Signed(digits: string, negative: bool): (r: Result<int, Exception>)
    ensures r.Failure? ==> r.error == ValueError
  {
    if |digits| > 0 && AllDigits(digits) && |digits| <= MaxStrDigits then
      Success(if negative then -(DigitsValue(digits) as int) else DigitsValue(digits))
    else
      Failure(ValueError)
  }

  /** Stripped text read as an optionally signed run of digits. */
  function ParseStripped(u: string): (r: Result<int, Exception>)
    ensures r.Failure? ==> r.error == ValueError
  {
    if |u| > 0 && (u[0] == '+' || u[0] == '-') then Signed(u[1..], u[0] == '-')
    else Signed(u, false)
  }

  /** `int(t)`. */
  function ParseInt(t: string): (r: Result<int, Exception>)
    ensures r.Failure? ==> r.error == ValueError
  {
    ParseStripped(Strip(t))
  }

  /** `str(n)` for a natural number: its shortest decimal representation. */
  function ShowNat(n: nat): (r: string)
    ensures |r| > 0
    decreases n
  {
    (if n < 10 then "" else ShowNat(n / 10)) + [('0' as int + n % 10) as char]
  }

  /** `str(n)`. */
  function ShowInt(n: int): string {
    if n < 0 then "-" + ShowNat(-n) else ShowNat(n)
  }

  /** A run of digits holds no other character. */
  lemma DigitsExclude(s: string, c: char)
    requires AllDigits(s) && !IsDigit(c)
    ensures c !in s
  {
    forall k | 0 <= k < |s|
      ensures s[k] != c
    {
      assert IsDigit(s[k]);
    }
  }

  /** The digit character `ShowNat` writes for `d` reads back as `d`. */
  lemma DigitChar(d: nat)
    requires d < 10
    ensures IsDigit(('0' as int + d) as char) && DigitValue(('0' as int + d) as char) == d
  {
  }

  /** `ShowNat` writes only digits, and reading them back gives the number. */
  lemma {:induction false} ShowNatValue(n: nat)
    ensures AllDigits(ShowNat(n)) && DigitsValue(ShowNat(n)) == n
    decreases n
  {
    var s := ShowNat(n);
    var c := ('0' as int + n % 10) as char;
    DigitChar(n % 10);
    if n < 10 {
      assert s == [c];
      assert s[..0] == [];
      assert DigitsValue(s) == DigitsValue([]) * 10 + DigitValue(c);
    } else {
      var q := n / 10;
      ShowNatValue(q);
      assert s == ShowNat(q) + [c];
      assert AllDigits(s) by {
        forall k | 0 <= k < |s| ensures IsDigit(s[k]) {
          if k < |s| - 1 { assert s[k] == ShowNat(q)[k]; }
        }
      }
      assert s[..|s| - 1] == ShowNat(q);
      assert DigitsValue(s) == DigitsValue(ShowNat(q)) * 10 + DigitValue(c);
      assert n == q * 10 + n % 10;
    }
  }

  /** Text that starts and ends with a non-space is its own strip. */
  lemma StripKeeps(s: string)
    requires s != [] && !IsSpace(s[0]) && !IsSpace(s[|s| - 1])
    ensures Strip(s) == s
  {
    assert StripLeft(s) == s;
  }

  /** An unsigned run of digits within the limit reads as its value. */
  lemma ParseDigits(digits: string)
    requires 0 < |digits| <= MaxStrDigits && AllDigits(digits)
    ensures ParseInt(digits) == Success(DigitsValue(digits))
  {
    assert IsDigit(digits[0]) && IsDigit(digits[|digits| - 1]);
    StripKeeps(digits);
    assert ParseStripped(digits) == Signed(digits, false);
  }

  /** Stripped text that is a `-` and digits within the limit reads as the negated value. */
  lemma ParseStrippedNeg(u: string)
    requires 1 < |u| <= MaxStrDigits + 1 && u[0] == '-' && AllDigits(u[1..])
    ensures ParseStripped(u) == Success(-(DigitsValue(u[1..]) as int))
  {
  }

  /** A run of digits within the limit after a `-` reads as the negated value. */
  lemma ParseNegDigits(digits: string)
    requires 0 < |digits| <= MaxStrDigits && AllDigits(digits)
    ensures ParseInt("-" + digits) == Success(-(DigitsValue(digits) as int))
  {
    var neg := "-" + digits;
    assert neg[1..] == digits;
    assert neg[|neg| - 1] == digits[|digits| - 1];
    assert IsDigit(digits[|digits| - 1]);
    StripKeeps(neg);
    ParseStrippedNeg(neg);
  }

  /**
   * Round trip: `int(str(n)) == n` for every integer that `str()` writes,
   * that is, one of at most `MaxStrDigits` digits.
   */
  lemma ParseShowInt(n: int)
    requires |ShowNat(if n < 0 then -n else n)| <= MaxStrDigits
    ensures ParseInt(ShowInt(n)) == Success(n)
  {
    var m: nat := if n < 0 then -n else n;
    ShowNatValue(m);
    if n < 0 {
      ParseNegDigits(ShowNat(m));
    } else {
      ParseDigits(ShowNat(m));
    }
  }

  /** Text with more digits than the limit raises ValueError, whatever its sign. */
  lemma ParseTooLong(t: string)
    requires |Strip(t)| > MaxStrDigits + 1
    ensures ParseInt(t) == Failure(ValueError)
  {
  }

  /** From 4301 digits on, unsigned, `-` or `+` signed, `int()` raises ValueError. */
  lemma ParseDigitsTooLong(d: string)
    requires AllDigits(d) && |d| > MaxStrDigits
    ensures ParseInt(d) == Failure(ValueError)
    ensures ParseInt("-" + d) == Failure(ValueError)
    ensures ParseInt("+" + d) == Failure(ValueError)
  {
    assert IsDigit(d[0]) && IsDigit(d[|d| - 1]);
    StripKeeps(d);
    var neg, pos := "-" + d, "+" + d;
    assert neg[1..] == d && neg[|neg| - 1] == d[|d| - 1];
    assert pos[1..] == d && pos[|pos| - 1] == d[|d| - 1];
    StripKeeps(neg);
    StripKeeps(pos);
  }

  /** A number below 1000, such as a status code, is written with at most three digits. */
  lemma ShowNatShort(n: nat)
    requires n < 1000
    ensures |ShowNat(n)| <= 3
  {
    if n >= 10 {
      var q := n / 10;
      assert |ShowNat(n)| == |ShowNat(q)| + 1;
      if q >= 10 {
        assert q / 10 < 10;
        assert |ShowNat(q / 10)| == 1;
        assert |ShowNat(q)| == 2;
      }
    }
  }

  /** Leading zeros are accepted and do not change the value, as with `int("007")`. */
  lemma {:induction false} LeadingZero(s: string)
    requires AllDigits(s)
    ensures AllDigits("0" + s) && DigitsValue("0" + s) == DigitsValue(s)
    decreases |s|
  {
    var z := "0" + s;
    assert AllDigits(z) by {
      forall k | 0 <= k < |z| ensures IsDigit(z[k]) {
        if k > 0 { assert z[k] == s[k - 1]; }
      }
    }
    if s != [] {
      var init := s[..|s| - 1];
      LeadingZero(init);
      assert z[..|z| - 1] == "0" + init;
    }
  }

  /** `int("200") == 200`, the usual status token. */
  lemma ParseStatusExample()
    ensures ParseInt("200") == Success(200)
  {
    assert ShowNat(200) == "200" by {
      assert ShowNat(2) == "2";
      assert ShowNat(20) == "20";
    }
    ParseShowInt(200);
  }

  /** A sign is read: `int("-1") == -1`. */
  lemma ParseSignExample()
    ensures ParseInt("-1") == Success(-1)
  {
    assert "1"[..0] == [];
    assert DigitsValue("1") == 1;
    ParseNegDigits("1");
    assert "-" + "1" == "-1";
  }

  /** Surrounding whitespace is ignored: `int(" 7\t") == 7`. */
  lemma ParseSpaceExample()
    ensures ParseInt(" 7\t") == Success(7)
  {
    var t := " 7\t";
    assert IsSpace(t[0]) && t[1..] == "7\t";
    assert StripLeft("7\t") == "7\t";
    assert StripLeft(t) == "7\t";
    var u := "7\t";
    assert IsSpace(u[1]) && u[..1] == "7";
    assert StripRight("7") == "7";
    assert StripRight(u) == "7";
    ParseDigits("7");
  }

  /**
   * Text that is not a number raises ValueError: `int("OK")`, `int("")`,
   * `int("+")`, and `int("\x1c7")`, whose FS is not skipped.
   */
  lemma ParseRejectExamples()
    ensures ParseInt("OK") == Failure(ValueError)
    ensures ParseInt("") == Failure(ValueError)
    ensures ParseInt("+") == Failure(ValueError)
    ensures ParseInt("\U{1C}7") == Failure(ValueError)
  {
    assert !IsDigit("OK"[0]);
    assert Strip("OK") == "OK";
    assert Strip("+") == "+";
    assert !IsSpace('\U{1C}') && !IsSpace('7');
    assert Strip("\U{1C}7") == "\U{1C}7";
    assert !IsDigit("\U{1C}7"[0]);
  }
}

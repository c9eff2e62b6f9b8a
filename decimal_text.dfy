/** Decimal text for integers, as Python writes it (`str(n)`, used by an
    f-string) and reads it (`int(s)` on a string, base 10). */
module DecimalText {
  import opened Common

  function Abs(x: int): nat {
    if x < 0 then -x else x
  }

  function Pow2(k: nat): (p: nat)
    ensures p >= 1
  {
    if k == 0 then 1 else 2 * Pow2(k - 1)
  }

  /** The ASCII digits, the only ones `str` writes. */
  predicate IsDigit(c: char) {
    '0' <= c <= '9'
  }

  function DigitValue(c: char): nat
    requires IsDigit(c)
  {
    c as int - '0' as int
  }

  function DigitChar(d: nat): (c: char)
    requires d < 10
    ensures IsDigit(c) && DigitValue(c) == d
  {
    ('0' as int + d) as char
  }

  /** The zero of every run of ten decimal digits of Unicode 15.0 (general
      category Nd) beyond ASCII, in code point order and ten to a row;
      `int()` reads each of these scripts, and mixes of them, as well as
      ASCII. */
  const DECIMAL_ZEROS: seq<seq<int>> := [
    [0x660, 0x6F0, 0x7C0, 0x966, 0x9E6, 0xA66, 0xAE6, 0xB66, 0xBE6, 0xC66],
    [0xCE6, 0xD66, 0xDE6, 0xE50, 0xED0, 0xF20, 0x1040, 0x1090, 0x17E0, 0x1810],
    [0x1946, 0x19D0, 0x1A80, 0x1A90, 0x1B50, 0x1BB0, 0x1C40, 0x1C50, 0xA620, 0xA8D0],
    [0xA900, 0xA9D0, 0xA9F0, 0xAA50, 0xABF0, 0xFF10, 0x104A0, 0x10D30, 0x11066, 0x110F0],
    [0x11136, 0x111D0, 0x112F0, 0x11450, 0x114D0, 0x11650, 0x116C0, 0x11730, 0x118E0, 0x11950],
    [0x11C50, 0x11D50, 0x11DA0, 0x11F50, 0x16A60, 0x16AC0, 0x16B50, 0x1D7CE, 0x1D7D8, 0x1D7E2],
    [0x1D7EC, 0x1D7F6, 0x1E140, 0x1E2F0, 0x1E4F0, 0x1E950, 0x1FBF0]]

  /** The digit `c` stands for in the first of the runs starting at `zeros`
      that holds it. */
  function DecimalIn(c: char, zeros: seq<int>): (d: Option<nat>)
    ensures d.Some? ==> d.value < 10
    ensures d.Some? ==> c as int - d.value in zeros
  {
    if zeros == [] then None
    else if zeros[0] <= c as int < zeros[0] + 10 then Some(c as int - zeros[0])
    else DecimalIn(c, zeros[1..])
  }

  function DecimalInRows(c: char, rows: seq<seq<int>>): (d: Option<nat>)
    ensures d.Some? ==> d.value < 10
  {
    if rows == [] then None
    else
      match DecimalIn(c, rows[0])
      case Some(d) => Some(d)
      case None => DecimalInRows(c, rows[1..])
  }

  /** The value of a decimal digit of any script, None for other characters
      (none of which lies between ASCII and the first run, at U+0660). */
  function DecimalValue(c: char): (d: Option<nat>)
    ensures d.Some? ==> d.value < 10
    ensures IsDigit(c) ==> d == Some(DigitValue(c))
  {
    if IsDigit(c) then Some(DigitValue(c))
    else if c as int < 0x660 then None
    else DecimalInRows(c, DECIMAL_ZEROS)
  }

  predicate IsDecimal(c: char) {
    DecimalValue(c).Some?
  }

  /** `str(n)` for a non-negative `n`: its decimal digits, no leading zero. */
  function ShowNat(n: nat): (s: string)
    ensures |s| >= 1 && forall i :: 0 <= i < |s| ==> IsDigit(s[i])
  {
    if n < 10 then [DigitChar(n)] else ShowNat(n / 10) + [DigitChar(n % 10)]
  }

  /** `str(n)`: a minus sign before the digits of a negative number. */
  function ShowInt(n: int): (s: string)
    ensures |s| >= 1 && IsDigit(s[|s| - 1])
    ensures ':' !in s
  {
    if n < 0 then "-" + ShowNat(-n) else ShowNat(n)
  }

  /** The characters `int()` strips from both ends of its argument: the ASCII
      controls 9 to 13, the space, and the Unicode separators (the controls
      28 to 31, whitespace to `str.isspace`, are not stripped). */
  predicate IsSpace(c: char) {
    || '\t' <= c <= '\r'
    || c == ' '
    || c == '\U{0085}' || c == '\U{00A0}' || c == '\U{1680}'
    || '\U{2000}' <= c <= '\U{200A}'
    || c == '\U{2028}' || c == '\U{2029}' || c == '\U{202F}' || c == '\U{205F}' || c == '\U{3000}'
  }

  function TrimStart(s: string): string
  {
    if s != [] && IsSpace(s[0]) then TrimStart(s[1..]) else s
  }

  function TrimEnd(s: string): string
  {
    if s != [] && IsSpace(s[|s| - 1]) then TrimEnd(s[..|s| - 1]) else s
  }

  /** The digit strings base-10 `int()` accepts after the sign: decimal
      digits, where a single underscore may stand between two digits. */
  predicate WellFormedDigits(s: string) {
    && |s| > 0
    && IsDecimal(s[|s| - 1])
    && (|s| == 1 ||
        if s[|s| - 2] == '_' then |s| > 2 && WellFormedDigits(s[..|s| - 2])
        else WellFormedDigits(s[..|s| - 1]))
  }

  /** The value of the digits of `s`, underscores skipped. */
  function DigitsValue(s: string): nat {
    if s == [] then 0
    else
      match DecimalValue(s[|s| - 1])
      case Some(d) => DigitsValue(s[..|s| - 1]) * 10 + d
      case None => DigitsValue(s[..|s| - 1])
  }

  /** The number of digits of `s`: its characters other than underscores. */
  function DigitCount(s: string): nat {
    if s == [] then 0
    else DigitCount(s[..|s| - 1]) + (if s[|s| - 1] == '_' then 0 else 1)
  }

  /** The longest digit string `int()` converts (`sys.int_info.default_max_str_digits`). */
  const MAX_STR_DIGITS: nat := 4300

  /** `int(s)` for a string `s`, base 10: None where Python raises ValueError.
      Surrounding whitespace is stripped, one sign is allowed, and more than
      MAX_STR_DIGITS digits are refused. */
  function ParseInt(s: string): Option<int> {
    var t := TrimEnd(TrimStart(s));
    var signed := |t| > 0 && (t[0] == '-' || t[0] == '+');
    var digits := if signed then t[1..] else t;
    if !WellFormedDigits(digits) || DigitCount(digits) > MAX_STR_DIGITS then None
    else
      var v: int := DigitsValue(digits);
      Some(if signed && t[0] == '-' then -v else v)
  }

  lemma {:induction false} ShowNatValue(n: nat)
    ensures WellFormedDigits(ShowNat(n)) && DigitsValue(ShowNat(n)) == n
    ensures DigitCount(ShowNat(n)) == |ShowNat(n)|
  {
    var s := ShowNat(n);
    if n >= 10 {
      ShowNatValue(n / 10);
      assert s[..|s| - 1] == ShowNat(n / 10);
    }
  }

  lemma {:induction false} Pow2Monotone(a: nat, b: nat)
    requires a <= b
    ensures Pow2(a) <= Pow2(b)
    decreases b - a
  {
    if a < b {
      Pow2Monotone(a + 1, b);
    }
  }

  /** A number below `2^k` has at most `k + 1` decimal digits. */
  lemma {:induction false} ShowNatLength(n: nat, k: nat)
    requires n < Pow2(k)
    ensures |ShowNat(n)| <= k + 1
  {
    if n >= 10 {
      ShowNatLength(n / 10, k - 1);
    }
  }

  lemma TrimUnchanged(s: string)
    requires |s| > 0 && !IsSpace(s[0]) && !IsSpace(s[|s| - 1])
    ensures TrimEnd(TrimStart(s)) == s
  {
  }

  /** `str(n)` is its own stripped form, and after the sign come the digits
      of the magnitude. */
  lemma ShowIntParts(n: int)
    ensures var s := ShowInt(n);
      && TrimEnd(TrimStart(s)) == s
      && (s[0] == '-' <==> n < 0) && s[0] != '+'
      && (if s[0] == '-' then s[1..] else s) == ShowNat(Abs(n))
  {
    var s := ShowInt(n);
    var digits := ShowNat(Abs(n));
    assert IsDigit(s[|s| - 1]);
    if n < 0 {
      assert s == "-" + digits;
      assert s[1..] == digits;
    } else {
      assert s == digits;
      assert IsDigit(s[0]);
    }
    TrimUnchanged(s);
  }

  /** Reading back what `str` writes gives the number, `int(str(n)) == n`,
      unless it has more digits than `int()` converts. */
  lemma ParseShowInt(n: int)
    ensures ParseInt(ShowInt(n)) == if |ShowNat(Abs(n))| <= MAX_STR_DIGITS then Some(n) else None
  {
    ShowIntParts(n);
    ShowNatValue(Abs(n));
  }

  /** Every number below `2^k`, for `k` up to 4000, reads back. */
  lemma ParseShowIntBelow(n: int, k: nat)
    requires Abs(n) < Pow2(k) && k < 4000
    ensures ParseInt(ShowInt(n)) == Some(n)
  {
    ShowNatLength(Abs(n), k);
    ParseShowInt(n);
  }

  /** `int()` reads Arabic-Indic and mixed-script digits, and does not
      strip the control 28. */
  lemma ParseIntExamples()
    ensures ParseInt("\U{0661}\U{0662}") == Some(12)
    ensures ParseInt("1\U{0662}") == Some(12)
    ensures ParseInt("\U{001C}1") == None
  {
    var arabic := "\U{0661}\U{0662}";
    assert DecimalValue('\U{0661}') == Some(1) && DecimalValue('\U{0662}') == Some(2);
    assert TrimStart(arabic) == arabic && TrimEnd(arabic) == arabic;
    assert arabic[..1] == ['\U{0661}'] && arabic[1] == '\U{0662}';
    assert DigitsValue(['\U{0661}']) == 1 by {
      assert ['\U{0661}'][..0] == [];
    }
    var mixed := "1\U{0662}";
    assert TrimStart(mixed) == mixed && TrimEnd(mixed) == mixed;
    assert mixed[..1] == ['1'];
    var control := "\U{001C}1";
    assert TrimStart(control) == control && TrimEnd(control) == control;
    assert control[..1] == ['\U{001C}'];
  }
}

/**
 * The string primitives of the Python standard library that the password-hash
 * codec, the login validators and the token claims rely on: `str.isspace`,
 * `str.strip`, `str.split(sep)` with a one-character separator, decimal
 * `str(int)` and `int(str)`, `bytes.hex()` and `bytes.fromhex(str)`.
 * Strings are sequences of Unicode scalar values; the lone surrogates a Python
 * `str` can also hold are not modelled.
 */
module Text {
  import opened Common

  type byte = x: int | 0 <= x < 256

  /** Python's `str.isspace` for one character (the Unicode whitespace set). */
  predicate IsSpace(c: char) {
    var n := c as int;
    n == 0x20 || 0x09 <= n <= 0x0D || 0x1C <= n <= 0x1F || n == 0x85 || n == 0xA0
    || n == 0x1680 || 0x2000 <= n <= 0x200A || n == 0x2028 || n == 0x2029
    || n == 0x202F || n == 0x205F || n == 0x3000
  }

  /** The ASCII whitespace that `bytes.fromhex` skips. */
  predicate IsAsciiSpace(c: char) {
    c == ' ' || c == '\t' || c == '\n' || c == '\r' || c as int == 0x0B || c as int == 0x0C
  }

  // ---------------------------------------------------------------------------
  // str.strip()

  /** `s.lstrip()`: drops the leading whitespace and keeps a suffix of `s`. */
  function TrimStart(s: string): (r: string)
    ensures |r| <= |s| && r == s[|s| - |r|..]
    ensures forall i :: 0 <= i < |s| - |r| ==> IsSpace(s[i])
    ensures r != [] ==> !IsSpace(r[0])
  {
    if |s| > 0 && IsSpace(s[0]) then
      var r := TrimStart(s[1..]);
      assert s[1..][|s| - 1 - |r|..] == s[|s| - |r|..];
      assert forall i :: 1 <= i < |s| - |r| ==> s[i] == s[1..][i - 1];
      r
    else s
  }

  /** `s.rstrip()`: drops the trailing whitespace and keeps a prefix of `s`. */
  function TrimEnd(s: string): (r: string)
    ensures |r| <= |s| && r == s[..|r|]
    ensures forall i :: |r| <= i < |s| ==> IsSpace(s[i])
    ensures r != [] ==> !IsSpace(r[|r| - 1])
  {
    if |s| > 0 && IsSpace(s[|s| - 1]) then TrimEnd(s[..|s| - 1]) else s
  }

  /** `s.strip()`. */
  function Strip(s: string): (r: string)
  {
    TrimEnd(TrimStart(s))
  }

  /** No whitespace at either end. */
  predicate IsStripped(s: string) {
    s == [] || (!IsSpace(s[0]) && !IsSpace(s[|s| - 1]))
  }

  /**
   * What `strip` returns: a contiguous slice of the input with only whitespace
   * cut off on either side, and no whitespace left at its ends.
   */
  lemma StripIsTrimmedSlice(s: string)
    ensures IsStripped(Strip(s))
    ensures exists i, j :: 0 <= i <= j <= |s| && Strip(s) == s[i..j]
              && (forall k :: 0 <= k < i ==> IsSpace(s[k]))
              && (forall k :: j <= k < |s| ==> IsSpace(s[k]))
  {
    var t := TrimStart(s);
    var i := |s| - |t|;
    var j := TrimEndOfSuffix(s, i);
    assert IsStripped(Strip(s)) by {
      var r := TrimEnd(t);
      if r != [] {
        assert r[0] == t[0];
      }
    }
  }

  /** `rstrip` of the suffix of `s` from `i` keeps `s[i..j]` and drops only whitespace after it. */
  lemma TrimEndOfSuffix(s: string, i: nat) returns (j: nat)
    requires i <= |s|
    ensures i <= j <= |s| && TrimEnd(s[i..]) == s[i..j]
    ensures forall k :: j <= k < |s| ==> IsSpace(s[k])
  {
    var t := s[i..];
    var r := TrimEnd(t);
    j := i + |r|;
    assert r == s[i..j];
    forall k | j <= k < |s| ensures IsSpace(s[k]) {
      assert s[k] == t[k - i];
    }
  }

  /** A string that has no whitespace at either end strips to itself. */
  lemma StripOfStripped(s: string)
    requires IsStripped(s)
    ensures Strip(s) == s
  {
    assert TrimStart(s) == s;
  }

  /** `strip` is idempotent. */
  lemma StripIdempotent(s: string)
    ensures Strip(Strip(s)) == Strip(s)
  {
    StripIsTrimmedSlice(s);
    StripOfStripped(Strip(s));
  }

  // ---------------------------------------------------------------------------
  // str.split(sep) and sep.join(fields)

  /** `s.split(d)` for a one-character separator `d`: never an empty list. */
  function Split(s: string, d: char): (r: seq<string>)
    ensures |r| >= 1
    ensures forall k :: 0 <= k < |r| ==> d !in r[k]
  {
    if |s| == 0 then [""]
    else if s[0] == d then [""] + Split(s[1..], d)
    else
      var rest := Split(s[1..], d);
      [[s[0]] + rest[0]] + rest[1..]
  }

  /** `d.join(fields)`. */
  function Join(fields: seq<string>, d: char): string
  {
    if |fields| == 0 then ""
    else if |fields| == 1 then fields[0]
    else fields[0] + [d] + Join(fields[1..], d)
  }

  lemma {:induction false} SplitNoSeparator(a: string, d: char)
    requires d !in a
    ensures Split(a, d) == [a]
  {
    if |a| > 0 {
      SplitNoSeparator(a[1..], d);
      assert [a[0]] + a[1..] == a;
    }
  }

  /** Splitting at the first separator peels off the text before it. */
  lemma {:induction false} SplitAtFirst(a: string, d: char, rest: string)
    requires d !in a
    ensures Split(a + [d] + rest, d) == [a] + Split(rest, d)
  {
    var s := a + [d] + rest;
    if |a| == 0 {
      assert s[0] == d && s[1..] == rest;
    } else {
      assert s[0] == a[0] && s[1..] == a[1..] + [d] + rest;
      SplitAtFirst(a[1..], d, rest);
      assert [a[0]] + a[1..] == a;
    }
  }

  /** Joining fields free of the separator and splitting again gives the fields back. */
  lemma {:induction false} SplitJoin(fields: seq<string>, d: char)
    requires |fields| >= 1
    requires forall k :: 0 <= k < |fields| ==> d !in fields[k]
    ensures Split(Join(fields, d), d) == fields
  {
    if |fields| == 1 {
      SplitNoSeparator(fields[0], d);
    } else {
      SplitJoin(fields[1..], d);
      SplitAtFirst(fields[0], d, Join(fields[1..], d));
      assert [fields[0]] + fields[1..] == fields;
    }
  }

  // ---------------------------------------------------------------------------
  // str(int) and int(str)

  /**
   * The code point of the digit zero of the run of ten decimal digits (general
   * category Nd of Unicode 15.0, the character database of Python 3.12 and
   * 3.13) that holds code point `n`, or -1 for a code point that is no decimal
   * digit: `int()` reads a digit of any of these scripts, not only the ASCII ones.
   */
  function RunZero(n: int): (z: int)
    ensures z == -1 || z <= n < z + 10
  {
    if n < 0x1040 then RunZeroIn0(n)
    else if n < 0xAA50 then RunZeroIn1(n)
    else if n < 0x11C50 then RunZeroIn2(n)
    else RunZeroIn3(n)
  }

  /** `RunZero` on the runs of group 0 of four, in code-point order. */
  function RunZeroIn0(n: int): (z: int)
    ensures z == -1 || z <= n < z + 10
  {
    if 0x0030 <= n < 0x0030 + 10 then 0x0030
    else if 0x0660 <= n < 0x0660 + 10 then 0x0660
    else if 0x06F0 <= n < 0x06F0 + 10 then 0x06F0
    else if 0x07C0 <= n < 0x07C0 + 10 then 0x07C0
    else if 0x0966 <= n < 0x0966 + 10 then 0x0966
    else if 0x09E6 <= n < 0x09E6 + 10 then 0x09E6
    else if 0x0A66 <= n < 0x0A66 + 10 then 0x0A66
    else if 0x0AE6 <= n < 0x0AE6 + 10 then 0x0AE6
    else if 0x0B66 <= n < 0x0B66 + 10 then 0x0B66
    else if 0x0BE6 <= n < 0x0BE6 + 10 then 0x0BE6
    else if 0x0C66 <= n < 0x0C66 + 10 then 0x0C66
    else if 0x0CE6 <= n < 0x0CE6 + 10 then 0x0CE6
    else if 0x0D66 <= n < 0x0D66 + 10 then 0x0D66
    else if 0x0DE6 <= n < 0x0DE6 + 10 then 0x0DE6
    else if 0x0E50 <= n < 0x0E50 + 10 then 0x0E50
    else if 0x0ED0 <= n < 0x0ED0 + 10 then 0x0ED0
    else if 0x0F20 <= n < 0x0F20 + 10 then 0x0F20
    else -1
  }

  /** `RunZero` on the runs of group 1 of four, in code-point order. */
  function RunZeroIn1(n: int): (z: int)
    ensures z == -1 || z <= n < z + 10
  {
    if 0x1040 <= n < 0x1040 + 10 then 0x1040
    else if 0x1090 <= n < 0x1090 + 10 then 0x1090
    else if 0x17E0 <= n < 0x17E0 + 10 then 0x17E0
    else if 0x1810 <= n < 0x1810 + 10 then 0x1810
    else if 0x1946 <= n < 0x1946 + 10 then 0x1946
    else if 0x19D0 <= n < 0x19D0 + 10 then 0x19D0
    else if 0x1A80 <= n < 0x1A80 + 10 then 0x1A80
    else if 0x1A90 <= n < 0x1A90 + 10 then 0x1A90
    else if 0x1B50 <= n < 0x1B50 + 10 then 0x1B50
    else if 0x1BB0 <= n < 0x1BB0 + 10 then 0x1BB0
    else if 0x1C40 <= n < 0x1C40 + 10 then 0x1C40
    else if 0x1C50 <= n < 0x1C50 + 10 then 0x1C50
    else if 0xA620 <= n < 0xA620 + 10 then 0xA620
    else if 0xA8D0 <= n < 0xA8D0 + 10 then 0xA8D0
    else if 0xA900 <= n < 0xA900 + 10 then 0xA900
    else if 0xA9D0 <= n < 0xA9D0 + 10 then 0xA9D0
    else if 0xA9F0 <= n < 0xA9F0 + 10 then 0xA9F0
    else -1
  }

  /** `RunZero` on the runs of group 2 of four, in code-point order. */
  function RunZeroIn2(n: int): (z: int)
    ensures z == -1 || z <= n < z + 10
  {
    if 0xAA50 <= n < 0xAA50 + 10 then 0xAA50
    else if 0xABF0 <= n < 0xABF0 + 10 then 0xABF0
    else if 0xFF10 <= n < 0xFF10 + 10 then 0xFF10
    else if 0x104A0 <= n < 0x104A0 + 10 then 0x104A0
    else if 0x10D30 <= n < 0x10D30 + 10 then 0x10D30
    else if 0x11066 <= n < 0x11066 + 10 then 0x11066
    else if 0x110F0 <= n < 0x110F0 + 10 then 0x110F0
    else if 0x11136 <= n < 0x11136 + 10 then 0x11136
    else if 0x111D0 <= n < 0x111D0 + 10 then 0x111D0
    else if 0x112F0 <= n < 0x112F0 + 10 then 0x112F0
    else if 0x11450 <= n < 0x11450 + 10 then 0x11450
    else if 0x114D0 <= n < 0x114D0 + 10 then 0x114D0
    else if 0x11650 <= n < 0x11650 + 10 then 0x11650
    else if 0x116C0 <= n < 0x116C0 + 10 then 0x116C0
    else if 0x11730 <= n < 0x11730 + 10 then 0x11730
    else if 0x118E0 <= n < 0x118E0 + 10 then 0x118E0
    else if 0x11950 <= n < 0x11950 + 10 then 0x11950
    else -1
  }

  /** `RunZero` on the runs of group 3 of four, in code-point order. */
  function RunZeroIn3(n: int): (z: int)
    ensures z == -1 || z <= n < z + 10
  {
    if 0x11C50 <= n < 0x11C50 + 10 then 0x11C50
    else if 0x11D50 <= n < 0x11D50 + 10 then 0x11D50
    else if 0x11DA0 <= n < 0x11DA0 + 10 then 0x11DA0
    else if 0x11F50 <= n < 0x11F50 + 10 then 0x11F50
    else if 0x16A60 <= n < 0x16A60 + 10 then 0x16A60
    else if 0x16AC0 <= n < 0x16AC0 + 10 then 0x16AC0
    else if 0x16B50 <= n < 0x16B50 + 10 then 0x16B50
    else if 0x1D7CE <= n < 0x1D7CE + 10 then 0x1D7CE
    else if 0x1D7D8 <= n < 0x1D7D8 + 10 then 0x1D7D8
    else if 0x1D7E2 <= n < 0x1D7E2 + 10 then 0x1D7E2
    else if 0x1D7EC <= n < 0x1D7EC + 10 then 0x1D7EC
    else if 0x1D7F6 <= n < 0x1D7F6 + 10 then 0x1D7F6
    else if 0x1E140 <= n < 0x1E140 + 10 then 0x1E140
    else if 0x1E2F0 <= n < 0x1E2F0 + 10 then 0x1E2F0
    else if 0x1E4F0 <= n < 0x1E4F0 + 10 then 0x1E4F0
    else if 0x1E950 <= n < 0x1E950 + 10 then 0x1E950
    else if 0x1FBF0 <= n < 0x1FBF0 + 10 then 0x1FBF0
    else -1
  }

  /** `unicodedata.decimal(c)`: the digit value of a decimal digit of any script. */
  function DigitValue(c: char): (r: Option<nat>)
    ensures r.Some? ==> r.value < 10
  {
    var z := RunZero(c as int);
    if z < 0 then None else Some(c as int - z)
  }

  predicate IsDigit(c: char) { DigitValue(c).Some? }

  predicate IsAsciiDigit(c: char) { '0' <= c <= '9' }

  /** The ASCII digits are decimal digits with their usual values. */
  lemma AsciiDigitValue(c: char)
    requires IsAsciiDigit(c)
    ensures DigitValue(c) == Some(c as int - '0' as int)
  {
  }

  function DigitChar(n: nat): (c: char)
    requires n < 10
    ensures IsAsciiDigit(c) && c as int - '0' as int == n
  {
    ('0' as int + n) as char
  }

  /** The decimal digits of `n` in ASCII, with no leading zero. */
  function NatToDigits(n: nat): (r: string)
    ensures |r| >= 1 && forall k :: 0 <= k < |r| ==> IsAsciiDigit(r[k])
  {
    if n < 10 then [DigitChar(n)] else NatToDigits(n / 10) + [DigitChar(n % 10)]
  }

  /** Python's `str(n)` for an integer. */
  function IntToDecimal(n: int): (r: string)
  {
    if n < 0 then "-" + NatToDigits(-n) else NatToDigits(n)
  }

  /**
   * The body of an integer literal that `int()` accepts: decimal digits of any
   * script, with a single underscore allowed between two digits.
   */
  predicate WellFormedDigits(s: string) {
    |s| > 0 && IsDigit(s[0])
    && forall i :: 0 <= i < |s| ==> IsDigit(s[i]) || (s[i] == '_' && i + 1 < |s| && IsDigit(s[i + 1]))
  }

  /** The value of a digit string, underscores ignored. */
  function DigitsValue(s: string): nat
  {
    if |s| == 0 then 0
    else
      match DigitValue(s[|s| - 1])
      case Some(d) => DigitsValue(s[..|s| - 1]) * 10 + d
      case None => DigitsValue(s[..|s| - 1])
  }

  /**
   * The whitespace `int()` strips from a numeral: it maps every non-ASCII
   * whitespace character to a blank and then skips the six ASCII whitespace
   * characters, so the separators U+001C to U+001F, which `isspace` accepts,
   * are not skipped.
   */
  predicate IsNumeralSpace(c: char) {
    IsAsciiSpace(c) || (0x80 <= c as int && IsSpace(c))
  }

  /** A numeral with its surrounding whitespace cut off. */
  function StripNumeral(s: string): (r: string)
    ensures |r| <= |s|
    ensures r != [] ==> !IsNumeralSpace(r[0]) && !IsNumeralSpace(r[|r| - 1])
  {
    if |s| > 0 && IsNumeralSpace(s[0]) then StripNumeral(s[1..])
    else if |s| > 0 && IsNumeralSpace(s[|s| - 1]) then StripNumeral(s[..|s| - 1])
    else s
  }

  /**
   * Python's `int(s)` for a string: `None` where `int` raises `ValueError`.
   * A sign, then digits of any script as `WellFormedDigits` says, with
   * whitespace allowed around them.
   */
  function ParseInt(s: string): (r: Option<int>)
  {
    var t := StripNumeral(s);
    if |t| > 0 && (t[0] == '-' || t[0] == '+') then
      if WellFormedDigits(t[1..]) then
        Some(if t[0] == '-' then 0 - DigitsValue(t[1..]) as int else DigitsValue(t[1..]) as int)
      else None
    else if WellFormedDigits(t) then Some(DigitsValue(t))
    else None
  }

  lemma {:induction false} DigitsValueOfNat(n: nat)
    ensures DigitsValue(NatToDigits(n)) == n
  {
    var ds := NatToDigits(n);
    AsciiDigitValue(DigitChar(n % 10));
    if n >= 10 {
      DigitsValueOfNat(n / 10);
      assert ds[..|ds| - 1] == NatToDigits(n / 10);
    }
  }

  /** `int(str(n)) == n`. */
  lemma ParseIntOfDecimal(n: int)
    ensures ParseInt(IntToDecimal(n)) == Some(n)
  {
    var s := IntToDecimal(n);
    var m: nat := if n < 0 then -n else n;
    var ds := NatToDigits(m);
    DigitsValueOfNat(m);
    AsciiDigitsWellFormed(ds);
    if n < 0 {
      assert s == "-" + ds && s[1..] == ds;
      assert StripNumeral(s) == s by {
        assert !IsNumeralSpace(s[0]) && !IsNumeralSpace(s[|s| - 1]);
      }
      assert ParseInt(s) == Some(0 - DigitsValue(ds) as int);
    } else {
      assert s == ds;
      ParseIntOfDigits(ds);
    }
  }

  /** A string of ASCII digits is the body of a numeral. */
  lemma AsciiDigitsWellFormed(ds: string)
    requires |ds| >= 1 && forall k :: 0 <= k < |ds| ==> IsAsciiDigit(ds[k])
    ensures WellFormedDigits(ds) && !IsNumeralSpace(ds[0]) && !IsNumeralSpace(ds[|ds| - 1])
  {
    forall k | 0 <= k < |ds| ensures IsDigit(ds[k]) {
      AsciiDigitValue(ds[k]);
    }
  }

  /** Appending a digit shifts the value one decimal place and adds the digit. */
  lemma DigitsAppended(d: string, c: char) returns (e: string)
    requires DigitValue(c).Some?
    ensures e == d + [c] && DigitsValue(e) == DigitsValue(d) * 10 + DigitValue(c).value
  {
    e := d + [c];
    assert e[..|e| - 1] == d;
  }

  /** An unsigned numeral with no whitespace around it reads as its digits' value. */
  lemma ParseIntOfDigits(s: string)
    requires WellFormedDigits(s) && !IsNumeralSpace(s[0]) && !IsNumeralSpace(s[|s| - 1])
    ensures ParseInt(s) == Some(DigitsValue(s))
  {
    assert StripNumeral(s) == s;
    assert s[0] != '-' && s[0] != '+' by {
      assert DigitValue(s[0]).Some?;
    }
  }


  /** `int()` reads the iteration count written in the digits of any script. */
  lemma ParseIntOf200000In(two: char, zero: char)
    requires DigitValue(two) == Some(2) && DigitValue(zero) == Some(0)
    requires !IsNumeralSpace(two) && !IsNumeralSpace(zero)
    ensures ParseInt([two, zero, zero, zero, zero, zero]) == Some(200000)
  {
    var d1 := DigitsAppended([], two);
    var d2 := DigitsAppended(d1, zero);
    var d3 := DigitsAppended(d2, zero);
    var d4 := DigitsAppended(d3, zero);
    var d5 := DigitsAppended(d4, zero);
    var s := DigitsAppended(d5, zero);
    assert s == [two, zero, zero, zero, zero, zero];
    assert WellFormedDigits(s) by {
      assert forall k :: 0 <= k < |s| ==> s[k] == two || s[k] == zero;
    }
    ParseIntOfDigits(s);
  }

  /** In particular `int()` reads the Arabic-Indic digits of the iteration count. */
  lemma ParseIntOfArabicIndic(s: string)
    requires s == "\U{0662}\U{0660}\U{0660}\U{0660}\U{0660}\U{0660}"
    ensures ParseInt(s) == Some(200000)
  {
    var two, zero := '\U{0662}', '\U{0660}';
    ArabicIndicDigits(two, zero);
    ParseIntOf200000In(two, zero);
    assert s == [two, zero, zero, zero, zero, zero];
  }

  lemma ArabicIndicDigits(two: char, zero: char)
    requires two == '\U{0662}' && zero == '\U{0660}'
    ensures DigitValue(two) == Some(2) && DigitValue(zero) == Some(0)
    ensures !IsNumeralSpace(two) && !IsNumeralSpace(zero)
  {
  }

  /** The information separators are whitespace to `strip` but not to `int()`. */
  lemma ParseIntKeepsSeparators(s: string)
    requires s == "\U{1C}7"
    ensures Strip(s) == "7" && ParseInt(s) == None
  {
    var sep := s[0];
    SeparatorFacts(sep);
    assert TrimStart(s) == "7" by {
      assert s[1..] == "7" && !IsSpace('7');
    }
    assert StripNumeral(s) == s by {
      assert !IsNumeralSpace('7') && s[|s| - 1] == '7';
    }
    assert !WellFormedDigits(s);
  }

  lemma SeparatorFacts(sep: char)
    requires sep == '\U{1C}'
    ensures IsSpace(sep) && !IsNumeralSpace(sep) && DigitValue(sep).None? && sep != '-' && sep != '+'
  {
  }

  /** The literal digits of the iteration count written into every hash. */
  lemma DecimalOf200000()
    ensures IntToDecimal(200000) == "200000"
  {
    assert NatToDigits(2) == "2";
    assert NatToDigits(20) == "20";
    assert NatToDigits(200) == "200";
    assert NatToDigits(2000) == "2000";
    assert NatToDigits(20000) == "20000";
  }

  // ---------------------------------------------------------------------------
  // bytes.hex() and bytes.fromhex(s)

  predicate IsHexDigit(c: char) {
    '0' <= c <= '9' || 'a' <= c <= 'f' || 'A' <= c <= 'F'
  }

  predicate IsLowerHex(s: string) {
    forall k :: 0 <= k < |s| ==> '0' <= s[k] <= '9' || 'a' <= s[k] <= 'f'
  }

  function HexValue(c: char): (v: nat)
    requires IsHexDigit(c)
    ensures v < 16
  {
    if '0' <= c <= '9' then c as int - '0' as int
    else if 'a' <= c <= 'f' then c as int - 'a' as int + 10
    else c as int - 'A' as int + 10
  }

  function HexChar(v: nat): (c: char)
    requires v < 16
    ensures IsHexDigit(c) && HexValue(c) == v
    ensures '0' <= c <= '9' || 'a' <= c <= 'f'
  {
    if v < 10 then ('0' as int + v) as char else ('a' as int + v - 10) as char
  }

  /** `b.hex()`: two lower-case hexadecimal digits per byte. */
  function ToHex(b: seq<byte>): (r: string)
    ensures |r| == 2 * |b| && IsLowerHex(r)
  {
    if |b| == 0 then "" else [HexChar(b[0] / 16), HexChar(b[0] % 16)] + ToHex(b[1..])
  }

  /**
   * `bytes.fromhex(s)`: pairs of hexadecimal digits, either case, with ASCII
   * whitespace allowed before each pair; `None` where it raises `ValueError`
   * (an odd digit, a character that is not a hex digit, a non-ASCII character).
   */
  function FromHex(s: string): Option<seq<byte>>
  {
    if |s| == 0 then Some([])
    else if IsAsciiSpace(s[0]) then FromHex(s[1..])
    else if |s| >= 2 && IsHexDigit(s[0]) && IsHexDigit(s[1]) then
      match FromHex(s[2..])
      case None => None
      case Some(rest) => Some([(HexValue(s[0]) * 16 + HexValue(s[1])) as byte] + rest)
    else None
  }

  /** `bytes.fromhex(b.hex()) == b`. */
  lemma {:induction false} FromHexOfToHex(b: seq<byte>)
    ensures FromHex(ToHex(b)) == Some(b)
  {
    if |b| > 0 {
      var s := ToHex(b);
      assert s[2..] == ToHex(b[1..]);
      FromHexOfToHex(b[1..]);
      assert [b[0]] + b[1..] == b;
    }
  }

  /** Different byte strings have different hexadecimal spellings. */
  lemma ToHexInjective(a: seq<byte>, b: seq<byte>)
    ensures ToHex(a) == ToHex(b) <==> a == b
  {
    if ToHex(a) == ToHex(b) {
      FromHexOfToHex(a);
      FromHexOfToHex(b);
    }
  }

  // ---------------------------------------------------------------------------
  // str.lower() as far as a comparison with an ASCII lower-case word needs it

  function AsciiLower(s: string): (r: string)
    ensures |r| == |s|
    ensures forall k :: 0 <= k < |s| ==> r[k] == (if 'A' <= s[k] <= 'Z' then (s[k] as int + 32) as char else s[k])
  {
    if |s| == 0 then "" else [if 'A' <= s[0] <= 'Z' then (s[0] as int + 32) as char else s[0]] + AsciiLower(s[1..])
  }
}

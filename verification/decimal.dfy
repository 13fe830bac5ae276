/** Decimal text: Go's `fmt.Sprintf("%v", n)` for unsigned integers and
    `strconv.Atoi` for a 64-bit `int`. */
module Decimal {
  import opened Wrappers

  const MaxUint64: int := 0xFFFF_FFFF_FFFF_FFFF
  const MaxInt: int := 0x7FFF_FFFF_FFFF_FFFF
  const MinInt: int := -0x8000_0000_0000_0000

  predicate IsDigit(c: char) {
    '0' <= c <= '9'
  }

  predicate AllDigits(s: string) {
    forall i :: 0 <= i < |s| ==> IsDigit(s[i])
  }

  /** A digit string as `%v` writes it: at least one digit, and no leading zero
      unless the number is zero. */
  predicate IsCanonical(s: string) {
    |s| > 0 && AllDigits(s) && (s[0] == '0' ==> |s| == 1)
  }

  function DigitChar(d: nat): (c: char)
    requires d < 10
    ensures IsDigit(c) && DigitValue(c) == d
  {
    ('0' as int + d) as char
  }

  function DigitValue(c: char): (d: nat)
    requires IsDigit(c)
    ensures d < 10
  {
    c as int - '0' as int
  }

  /** The value of a digit string, read left to right as `n = n*10 + d`. */
  function DigitsValue(s: string): (n: nat)
    requires AllDigits(s)
    decreases |s|
  {
    if s == [] then 0 else DigitsValue(s[..|s| - 1]) * 10 + DigitValue(s[|s| - 1])
  }

  /** `fmt.Sprintf("%v", n)` for an unsigned `n`: its canonical decimal digits. */
  function FormatUint(n: nat): (s: string)
    ensures IsCanonical(s)
    ensures n < 10 <==> |s| == 1
    decreases n
  {
    if n < 10 then [DigitChar(n)] else FormatUint(n / 10) + [DigitChar(n % 10)]
  }

  /** `strconv.Itoa`: a minus sign before the digits of a negative number. */
  function FormatInt(n: int): (s: string)
  {
    if n < 0 then "-" + FormatUint(-n) else FormatUint(n)
  }

  /** Reading back the digits `%v` wrote gives the number. */
  lemma {:induction false} DigitsValueFormat(n: nat)
    ensures DigitsValue(FormatUint(n)) == n
    decreases n
  {
    if n >= 10 {
      var s := FormatUint(n);
      assert s[..|s| - 1] == FormatUint(n / 10);
      DigitsValueFormat(n / 10);
    }
  }

  /** A digit string without a leading zero has a value of at least one. */
  lemma {:induction false} LeadingDigitPositive(s: string)
    requires AllDigits(s) && |s| > 0 && s[0] != '0'
    ensures DigitsValue(s) >= 1
    decreases |s|
  {
    if |s| > 1 {
      LeadingDigitPositive(s[..|s| - 1]);
    }
  }

  /** Formatting the value of a canonical digit string gives the string back,
      so `FormatUint` is onto the canonical strings. */
  lemma {:induction false} FormatDigitsValue(s: string)
    requires IsCanonical(s)
    ensures FormatUint(DigitsValue(s)) == s
    decreases |s|
  {
    if |s| > 1 {
      var p := s[..|s| - 1];
      LeadingDigitPositive(p);
      FormatDigitsValue(p);
      assert p + [s[|s| - 1]] == s;
    }
  }

  /** The longest prefix of `s` made of digits. */
  function DigitPrefix(s: string): (p: string)
    ensures |p| <= |s| && p == s[..|p|] && AllDigits(p)
    ensures |p| < |s| ==> !IsDigit(s[|p|])
    decreases |s|
  {
    if s == [] || !IsDigit(s[0]) then [] else [s[0]] + DigitPrefix(s[1..])
  }

  /** Text that `strconv.Atoi` reads as a number: an optional sign, then one or
      more decimal digits and nothing else. */
  predicate IsDecimal(s: string) {
    |s| > 0 &&
    var u := Unsigned(s);
    |u| > 0 && AllDigits(u)
  }

  /** `s` without its leading sign, if it has one. */
  function Unsigned(s: string): (u: string)
    ensures |u| <= |s|
  {
    if |s| > 0 && (s[0] == '-' || s[0] == '+') then s[1..] else s
  }

  /** The signed value of a decimal text. */
  function DecimalValue(s: string): int
    requires IsDecimal(s)
  {
    if s[0] == '-' then -(DigitsValue(Unsigned(s)) as int) else DigitsValue(Unsigned(s))
  }

  /** The two failures of `strconv.Atoi`. */
  datatype NumErrorKind = ErrSyntax | ErrRange

  /** Go's `*strconv.NumError`: the function, the input and the failure. */
  datatype NumError = NumError(func: string, num: string, err: NumErrorKind)

  /** `NumError.Error()`: `strconv.Atoi: parsing "x": invalid syntax`. The
      function name, the quoted input and the failure's text sit at fixed
      places, and the ending tells the two failures apart. */
  function NumErrorMessage(e: NumError): (m: string)
    ensures var k := 8 + |e.func|;
            var j := k + 11 + |e.num|;
            |m| > j + 3
            && m[..8] == "strconv."
            && m[8..k] == e.func
            && m[k..k + 11] == ": parsing \""
            && m[k + 11..j] == e.num
            && m[j..j + 3] == "\": "
            && (e.err == ErrSyntax <==> m[j + 3..] == "invalid syntax")
            && (e.err == ErrRange <==> m[j + 3..] == "value out of range")
  {
    "strconv." + e.func + ": parsing \"" + e.num + "\": "
      + (if e.err == ErrSyntax then "invalid syntax" else "value out of range")
  }

  /** `strconv.Atoi` on a platform with a 64-bit `int`. The unsigned part is
      scanned left to right: a non-digit is a syntax error unless the digits
      before it already exceed 2^64 - 1, which is a range error; a value
      outside the signed 64-bit range is a range error too. */
  function Atoi(s: string): (r: Result<int, NumError>)
    ensures r.Ok? <==> IsDecimal(s) && MinInt <= DecimalValue(s) <= MaxInt
    ensures r.Ok? ==> r.value == DecimalValue(s)
    ensures r.Err? ==> r.error.func == "Atoi" && r.error.num == s
    ensures r.Err? && r.error.err == ErrSyntax ==> !IsDecimal(s)
    ensures s == "" ==> r == Err(NumError("Atoi", "", ErrSyntax))
  {
    var u := Unsigned(s);
    var p := DigitPrefix(u);
    assert AllDigits(u) ==> p == u;
    if s == [] || u == [] then Err(NumError("Atoi", s, ErrSyntax))
    else if DigitsValue(p) > MaxUint64 then Err(NumError("Atoi", s, ErrRange))
    else if p != u then Err(NumError("Atoi", s, ErrSyntax))
    else
      var v := if s[0] == '-' then -(DigitsValue(u) as int) else DigitsValue(u);
      if MinInt <= v <= MaxInt then Ok(v) else Err(NumError("Atoi", s, ErrRange))
  }

  /** `Itoa` writes decimal text whose value is the number written. */
  lemma DecimalFormatInt(n: int)
    ensures IsDecimal(FormatInt(n)) && DecimalValue(FormatInt(n)) == n
  {
    var s := FormatInt(n);
    var m := if n < 0 then -n else n;
    DigitsValueFormat(m);
    if n < 0 {
      assert s[0] == '-';
      assert Unsigned(s) == FormatUint(m);
    } else {
      assert s == FormatUint(m);
      assert IsDigit(s[0]);
      assert Unsigned(s) == s;
    }
  }

  /** Round trip: `Atoi` reads back every `int` that `Itoa` writes. */
  lemma AtoiFormatInt(n: int)
    requires MinInt <= n <= MaxInt
    ensures Atoi(FormatInt(n)) == Ok(n)
  {
    DecimalFormatInt(n);
  }

  /** Conversely, text in the form `Itoa` writes (no plus sign, no leading
      zero, no "-0") is exactly `Itoa` of the number `Atoi` reads from it. */
  lemma FormatIntAtoi(s: string)
    requires Atoi(s).Ok?
    requires IsCanonical(Unsigned(s)) && s[0] != '+'
    requires s[0] == '-' ==> s != "-0"
    ensures FormatInt(Atoi(s).value) == s
  {
    var u := Unsigned(s);
    var v := Atoi(s).value;
    assert IsDecimal(s) && v == DecimalValue(s);
    FormatDigitsValue(u);
    if s[0] == '-' {
      assert u != "0";
      LeadingDigitPositive(u);
      assert v == -(DigitsValue(u) as int) < 0;
      assert FormatInt(v) == "-" + FormatUint(DigitsValue(u));
      assert "-" + u == s;
    } else {
      assert u == s;
      assert v == DigitsValue(u);
    }
  }
}

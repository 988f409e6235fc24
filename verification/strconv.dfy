/** The part of Go's `strconv` and `fmt` packages that the mapping engine
    relies on: decimal formatting of integers (`strconv.Itoa`, `%d`),
    base-10 parsing with a bit-size range check (`strconv.ParseInt`,
    `strconv.Atoi`), boolean parsing (`strconv.ParseBool`) and boolean
    formatting (`%t`). Go's `int` is taken to be 64 bits wide. */
module Strconv {
  import opened Results

  /** The bit sizes the engine passes to `ParseInt`. */
  datatype Width = W32 | W64

  function MinOf(w: Width): int {
    match w
    case W32 => -0x8000_0000
    case W64 => -0x8000_0000_0000_0000
  }

  function MaxOf(w: Width): int {
    match w
    case W32 => 0x7fff_ffff
    case W64 => 0x7fff_ffff_ffff_ffff
  }

  /** `n` is representable as a signed integer of width `w`. */
  predicate InRange(n: int, w: Width) {
    MinOf(w) <= n <= MaxOf(w)
  }

  predicate IsDigit(c: char) {
    '0' <= c <= '9'
  }

  predicate AllDigits(s: string) {
    forall i | 0 <= i < |s| :: IsDigit(s[i])
  }

  function DigitChar(d: nat): (c: char)
    requires d < 10
    ensures IsDigit(c) && c as int - '0' as int == d
  {
    (d + '0' as int) as char
  }

  function DigitValue(c: char): nat
    requires IsDigit(c)
  {
    c as int - '0' as int
  }

  /** Decimal digits of a natural number, most significant first, no
      leading zeros. */
  function FormatNat(n: nat): (s: string)
    ensures |s| > 0 && AllDigits(s)
    ensures n > 0 ==> s[0] != '0'
    ensures n == 0 ==> s == "0"
    decreases n
  {
    if n < 10 then [DigitChar(n)]
    else FormatNat(n / 10) + [DigitChar(n % 10)]
  }

  /** The number a string of decimal digits denotes (most significant
      first). This is the reference meaning of a digit string. */
  function DigitsValue(s: string): nat
    requires AllDigits(s)
    decreases |s|
  {
    if |s| == 0 then 0
    else DigitsValue(s[..|s| - 1]) * 10 + DigitValue(s[|s| - 1])
  }

  lemma {:induction false} DigitsValueOfFormatNat(n: nat)
    ensures DigitsValue(FormatNat(n)) == n
    decreases n
  {
    if n >= 10 {
      var s := FormatNat(n);
      assert s[..|s| - 1] == FormatNat(n / 10);
      DigitsValueOfFormatNat(n / 10);
    }
  }

  /** `s` without its leading `+` or `-` sign, if it has one. */
  function Unsigned(s: string): string
    requires |s| > 0
  {
    if s[0] == '+' || s[0] == '-' then s[1..] else s
  }

  /** `s` is an optional sign followed by at least one decimal digit and
      nothing else. */
  predicate IsDecimal(s: string) {
    |s| > 0 && |Unsigned(s)| > 0 && AllDigits(Unsigned(s))
  }

  /** `s` is decimal text for `n`: its digits spell the magnitude of `n`, a
      negative `n` carries a minus sign and a positive one does not (zero
      may be written with either sign). */
  predicate Denotes(s: string, n: int) {
    && IsDecimal(s)
    && DigitsValue(Unsigned(s)) == (if n < 0 then -n else n)
    && (n < 0 ==> s[0] == '-')
    && (n > 0 ==> s[0] != '-')
  }

  /** A decimal text denotes exactly one number. */
  lemma DenotesOnly(s: string, n: int)
    requires IsDecimal(s)
    requires n == if s[0] == '-' then -(DigitsValue(Unsigned(s)) as int) else DigitsValue(Unsigned(s))
    ensures forall m :: Denotes(s, m) <==> m == n
  {
  }

  /** `strconv.Itoa` (and `%d`): an optional minus sign followed by the
      canonical digits of the magnitude, with no leading zero. */
  function Itoa(n: int): (s: string)
    ensures |s| > 0
    ensures s[0] == '-' <==> n < 0
    ensures n < 0 ==> |s| > 1 && AllDigits(s[1..]) && DigitsValue(s[1..]) == -n
    ensures n >= 0 ==> AllDigits(s) && DigitsValue(s) == n
    ensures n > 0 ==> s[0] != '0'
    ensures n < 0 ==> s[1] != '0'
    ensures n == 0 ==> s == "0"
  {
    DigitsValueOfFormatNat(if n < 0 then -n else n);
    if n < 0 then "-" + FormatNat(-n) else FormatNat(n)
  }

  /** `strconv.ParseInt(s, 10, bitSize)`: an optional `+` or `-` sign
      followed by at least one decimal digit and nothing else; the value
      must fit the signed range of the bit size. A result is the number
      the text denotes, and there is none exactly when the text denotes
      no number in range. */
  function ParseInt(s: string, w: Width): (r: Option<int>)
    ensures r.Some? ==> Denotes(s, r.value) && InRange(r.value, w)
    ensures r.None? ==> forall n | Denotes(s, n) :: !InRange(n, w)
  {
    if |s| == 0 then None
    else
      var digits := Unsigned(s);
      if |digits| == 0 || !AllDigits(digits) then None
      else
        var magnitude: int := DigitsValue(digits);
        var n := if s[0] == '-' then -magnitude else magnitude;
        DenotesOnly(s, n);
        if InRange(n, w) then Some(n) else None
  }

  /** `strconv.Atoi` on a 64-bit platform: the 64-bit `ParseInt`. */
  function Atoi(s: string): (r: Option<int>)
    ensures r.Some? ==> Denotes(s, r.value) && InRange(r.value, W64)
    ensures r.None? ==> forall n | Denotes(s, n) :: !InRange(n, W64)
  {
    ParseInt(s, W64)
  }

  /** `Itoa` and `ParseInt` are inverse on the representable range, and
      `ParseInt` rejects the decimal rendering of anything outside it. */
  lemma ParseIntOfItoa(n: int, w: Width)
    ensures ParseInt(Itoa(n), w) == (if InRange(n, w) then Some(n) else None)
  {
    var s := Itoa(n);
    if n < 0 {
      assert s[0] == '-';
    } else {
      assert s[0] != '+' && s[0] != '-';
    }
  }

  /** The 32-bit parse differs from the 64-bit one only by its narrower
      range check. */
  lemma ParseIntNarrowing(s: string)
    ensures ParseInt(s, W32).Some? ==> ParseInt(s, W64) == ParseInt(s, W32)
    ensures ParseInt(s, W64).Some? && InRange(ParseInt(s, W64).value, W32) ==>
              ParseInt(s, W32) == ParseInt(s, W64)
  {
  }

  /** `fmt.Sprintf("%t", b)`. */
  function FormatBool(b: bool): (s: string)
    ensures ParseBool(s) == Some(b)
    ensures |s| > 0
  {
    if b then "true" else "false"
  }

  /** `strconv.ParseBool`: exactly twelve spellings are accepted, and the
      value is told by the first character. */
  function ParseBool(s: string): (r: Option<bool>)
    ensures r.Some? <==> s in {"1", "t", "T", "TRUE", "true", "True", "0", "f", "F", "FALSE", "false", "False"}
    ensures r.Some? ==> |s| > 0 && (r.value <==> s[0] in "1tT")
  {
    if s in ["1", "t", "T", "TRUE", "true", "True"] then Some(true)
    else if s in ["0", "f", "F", "FALSE", "false", "False"] then Some(false)
    else None
  }
}

/**
 * Go's strconv.ParseInt(s, 16, 32): an optional sign, then one or more
 * hexadecimal digits of either case, with no "0x" prefix and no underscores;
 * the value must fit a signed 32-bit integer.
 */
module GoStrconv {

  import opened GoStrings

  datatype NumError = ErrSyntax | ErrRange

  const MaxUint32: nat := 0xFFFF_FFFF
  const MinInt32: int := -0x8000_0000
  const MaxInt32: int := 0x7FFF_FFFF

  /** The value of one hexadecimal digit, either case. */
  function HexDigit(c: char): (d: Option<nat>)
    ensures d.Some? ==> d.value < 16
  {
    if '0' <= c <= '9' then Some(c as nat - '0' as nat)
    else if 'a' <= c <= 'f' then Some(c as nat - 'a' as nat + 10)
    else if 'A' <= c <= 'F' then Some(c as nat - 'A' as nat + 10)
    else None
  }

  predicate IsHexDigit(c: char) {
    HexDigit(c).Some?
  }

  /**
   * The digit loop of strconv.ParseUint, base 16, 32 bits, as a function of
   * the prefix read so far: the first character that is not a digit gives a
   * syntax error, the first digit that takes the value past 2^32-1 a range
   * error, whichever comes first.
   */
  function ScanHex(s: string): (r: Result<nat, NumError>)
    ensures r.Ok? ==> r.value <= MaxUint32
    decreases |s|
  {
    if s == [] then Ok(0)
    else
      match ScanHex(s[..|s| - 1])
      case Err(e) => Err(e)
      case Ok(n) =>
        match HexDigit(s[|s| - 1])
        case None => Err(ErrSyntax)
        case Some(d) => if n * 16 + d > MaxUint32 then Err(ErrRange) else Ok(n * 16 + d)
  }

  /** strconv.ParseUint(s, 16, 32) */
  function ParseUint(s: string): (r: Result<nat, NumError>)
  {
    if s == [] then Err(ErrSyntax) else ScanHex(s)
  }

  /** strconv.ParseInt(s, 16, 32) */
  function ParseInt(s: string): (r: Result<int, NumError>)
    ensures r.Ok? ==> MinInt32 <= r.value <= MaxInt32
  {
    if s == [] then Err(ErrSyntax)
    else
      var neg := s[0] == '-';
      var digits := if s[0] == '+' || s[0] == '-' then s[1..] else s;
      match ParseUint(digits)
      case Err(e) => Err(e)
      case Ok(un) =>
        if !neg && un >= 0x8000_0000 then Err(ErrRange)
        else if neg && un > 0x8000_0000 then Err(ErrRange)
        else Ok(if neg then -(un as int) else un as int)
  }

  // ---- Reference definition: the literal syntax and its value ----

  predicate AllHexDigits(s: string) {
    forall i :: 0 <= i < |s| ==> IsHexDigit(s[i])
  }

  /** The value of a string of hexadecimal digits, most significant first. */
  function HexValue(s: string): nat
    requires AllHexDigits(s)
    decreases |s|
  {
    if s == [] then 0 else HexValue(s[..|s| - 1]) * 16 + HexDigit(s[|s| - 1]).value
  }

  /** The digits after the optional sign. */
  function Unsigned(s: string): string {
    if s != [] && (s[0] == '+' || s[0] == '-') then s[1..] else s
  }

  /** An optional sign followed by at least one hexadecimal digit. */
  predicate IsHexLiteral(s: string) {
    Unsigned(s) != [] && AllHexDigits(Unsigned(s))
  }

  function SignedValue(s: string): int
    requires IsHexLiteral(s)
  {
    if s[0] == '-' then -(HexValue(Unsigned(s)) as int) else HexValue(Unsigned(s)) as int
  }

  /** The digit loop reads an all-digit string to its value, or overflows exactly when that value does. */
  lemma {:induction false} ScanHexOfDigits(s: string)
    requires AllHexDigits(s)
    ensures HexValue(s) <= MaxUint32 ==> ScanHex(s) == Ok(HexValue(s))
    ensures HexValue(s) > MaxUint32 ==> ScanHex(s) == Err(ErrRange)
    decreases |s|
  {
    if s != [] {
      var p := s[..|s| - 1];
      assert AllHexDigits(p) by {
        forall i | 0 <= i < |p| ensures IsHexDigit(p[i]) { assert p[i] == s[i]; }
      }
      ScanHexOfDigits(p);
      assert IsHexDigit(s[|s| - 1]);
    }
  }

  /** A string with a character that is not a digit fails the digit loop. */
  lemma {:induction false} ScanHexRejectsNonDigit(s: string)
    requires !AllHexDigits(s)
    ensures ScanHex(s).Err?
    decreases |s|
  {
    var p := s[..|s| - 1];
    if AllHexDigits(p) {
      assert !IsHexDigit(s[|s| - 1]) by {
        if IsHexDigit(s[|s| - 1]) {
          forall i | 0 <= i < |s| ensures IsHexDigit(s[i]) {
            if i < |p| { assert s[i] == p[i]; }
          }
        }
      }
    } else {
      ScanHexRejectsNonDigit(p);
    }
  }

  /**
   * ParseInt accepts exactly the signed hexadecimal literals whose value lies
   * in [-2^31, 2^31-1], and then returns that value.
   */
  lemma ParseIntSpec(s: string)
    ensures ParseInt(s).Ok? <==> IsHexLiteral(s) && MinInt32 <= SignedValue(s) <= MaxInt32
    ensures ParseInt(s).Ok? ==> ParseInt(s).value == SignedValue(s)
  {
    var u := Unsigned(s);
    if s != [] && u != [] {
      if AllHexDigits(u) {
        ScanHexOfDigits(u);
      } else {
        ScanHexRejectsNonDigit(u);
      }
    }
  }

  // ---- Formatting, the inverse ----

  function HexChar(d: nat): (c: char)
    requires d < 16
    ensures HexDigit(c) == Some(d)
  {
    if d < 10 then ('0' as nat + d) as char else ('A' as nat + d - 10) as char
  }

  /** Upper-case hexadecimal digits of `n`, without leading zeros. */
  function FormatHexNat(n: nat): (s: string)
    ensures s != [] && AllHexDigits(s)
    decreases n
  {
    if n < 16 then [HexChar(n)] else FormatHexNat(n / 16) + [HexChar(n % 16)]
  }

  /** The code-point notation of the emoji data files, signed. */
  function FormatHex(v: int): string {
    if v < 0 then "-" + FormatHexNat(-v) else FormatHexNat(v)
  }

  lemma {:induction false} HexValueOfFormat(n: nat)
    ensures HexValue(FormatHexNat(n)) == n
    decreases n
  {
    var s := FormatHexNat(n);
    if n >= 16 {
      HexValueOfFormat(n / 16);
      assert s[..|s| - 1] == FormatHexNat(n / 16);
    }
  }

  /** Every signed 32-bit value formatted in hexadecimal parses back to itself. */
  lemma ParseFormatRoundTrip(v: int)
    requires MinInt32 <= v <= MaxInt32
    ensures ParseInt(FormatHex(v)) == Ok(v)
  {
    var s := FormatHex(v);
    var digits := if v < 0 then FormatHexNat(-v) else FormatHexNat(v);
    HexValueOfFormat(if v < 0 then -v else v);
    assert Unsigned(s) == digits by {
      if v < 0 { assert s[1..] == digits; }
    }
    ParseIntSpec(s);
  }
}

/**
 * int.Parse(s, CultureInfo.InvariantCulture): NumberStyles.Integer, that is
 * optional leading white space, an optional '+' or '-', one or more decimal
 * digits and optional trailing white space, with the value in Int32's range.
 * Anything else throws FormatException; a value out of range throws
 * OverflowException.
 */
module Int32Parse {
  import opened Wrappers
  import opened Text

  const Int32Min: int := -0x8000_0000
  const Int32Max: int := 0x7FFF_FFFF

  predicate InInt32Range(v: int) {
    Int32Min <= v <= Int32Max
  }

  /** The two exceptions int.Parse throws on a non-null string. */
  datatype ParseError = FormatError | OverflowError

  datatype Sign = NoSign | Plus | Minus

  /** The parts of a string that NumberStyles.Integer accepts. */
  datatype Numeral = Numeral(lead: string, sign: Sign, digits: string, trail: string)

  predicate WellFormed(n: Numeral) {
    (forall i :: 0 <= i < |n.lead| ==> IsNumberWhite(n.lead[i]))
    && |n.digits| > 0
    && (forall i :: 0 <= i < |n.digits| ==> IsDigit(n.digits[i]))
    && (forall i :: 0 <= i < |n.trail| ==> IsNumberWhite(n.trail[i]))
  }

  /** The invariant culture's PositiveSign and NegativeSign. */
  function SignText(s: Sign): string {
    match s
    case NoSign => ""
    case Plus => "+"
    case Minus => "-"
  }

  /** The text a numeral is written as. */
  function Render(n: Numeral): string {
    n.lead + (SignText(n.sign) + (n.digits + n.trail))
  }

  function DigitValue(c: char): (d: nat)
    requires IsDigit(c)
    ensures d < 10
  {
    (c as int) - ('0' as int)
  }

  /** The value of a string of decimal digits, most significant first. */
  function DigitsValue(ds: string): nat
    requires forall i :: 0 <= i < |ds| ==> IsDigit(ds[i])
  {
    if |ds| == 0 then 0 else DigitsValue(ds[..|ds| - 1]) * 10 + DigitValue(ds[|ds| - 1])
  }

  function NumeralValue(n: Numeral): int
    requires WellFormed(n)
  {
    if n.sign == Minus then -(DigitsValue(n.digits) as int) else DigitsValue(n.digits)
  }

  /** The sign a string starts with, and the rest of the string. */
  function SplitSign(s: string): (r: (Sign, string))
    ensures SignText(r.0) + r.1 == s
    ensures r.0 == NoSign ==> s == [] || (s[0] != '+' && s[0] != '-')
  {
    if |s| > 0 && s[0] == '+' then (Plus, s[1..])
    else if |s| > 0 && s[0] == '-' then (Minus, s[1..])
    else (NoSign, s)
  }

  /** Splits `s` into the parts of a numeral, scanning left to right as .NET's number parser does. */
  function Lex(s: string): (r: Option<Numeral>)
    ensures r.Some? ==> WellFormed(r.value) && Render(r.value) == s
  {
    var (lead, afterLead) := Split(s, NumberWhite);
    var (sign, afterSign) := SplitSign(afterLead);
    var (digits, afterDigits) := Split(afterSign, Digit);
    var (trail, rest) := Split(afterDigits, NumberWhite);
    if |digits| > 0 && rest == [] then
      assert trail + [] == trail;
      Some(Numeral(lead, sign, digits, trail))
    else
      None
  }

  /** Lexing the text of a well-formed numeral gives that numeral back: the split is unique. */
  lemma LexRender(n: Numeral)
    requires WellFormed(n)
    ensures Lex(Render(n)) == Some(n)
  {
    var afterSign := n.digits + n.trail;
    var afterLead := SignText(n.sign) + afterSign;
    assert Render(n) == n.lead + afterLead;
    assert afterLead[0] == (if n.sign == NoSign then n.digits[0] else SignText(n.sign)[0]);
    SplitOfConcat(n.lead, afterLead, NumberWhite);
    assert afterLead[|SignText(n.sign)|..] == afterSign;
    assert SplitSign(afterLead) == (n.sign, afterSign);
    SplitOfConcat(n.digits, n.trail, Digit);
    assert n.trail + [] == n.trail;
    SplitOfConcat(n.trail, [], NumberWhite);
  }

  /** int.Parse(s, CultureInfo.InvariantCulture). */
  function ParseInt32(s: string): (r: Result<int, ParseError>)
    ensures r.Success? ==> InInt32Range(r.value)
    ensures r.Success? ==> exists n :: WellFormed(n) && Render(n) == s && NumeralValue(n) == r.value
  {
    match Lex(s)
    case None => Failure(FormatError)
    case Some(n) =>
      var v := NumeralValue(n);
      if InInt32Range(v) then Success(v) else Failure(OverflowError)
  }

  /** Every well-formed numeral parses to its value, or overflows when that value is outside Int32. */
  lemma ParseRendered(n: Numeral)
    requires WellFormed(n)
    ensures ParseInt32(Render(n)) ==
      if InInt32Range(NumeralValue(n)) then Success(NumeralValue(n)) else Failure(OverflowError)
  {
    LexRender(n);
  }

  /** FormatException is thrown exactly for the strings that are no numeral at all. */
  lemma ParseFormatError(s: string)
    ensures ParseInt32(s) == Failure(FormatError) <==> forall n :: WellFormed(n) ==> Render(n) != s
  {
    if ParseInt32(s) != Failure(FormatError) {
      var n := Lex(s).value;
      assert WellFormed(n) && Render(n) == s;
    } else {
      forall n | WellFormed(n)
        ensures Render(n) != s
      {
        LexRender(n);
      }
    }
  }

  /** The text of a numeral always holds a digit, so it is never blank. */
  lemma NumeralNotBlank(n: Numeral)
    requires WellFormed(n)
    ensures !IsBlank(Render(n))
  {
    var k := |n.lead| + |SignText(n.sign)|;
    assert Render(n)[k] == n.digits[0];
  }

  /** A string that string.IsNullOrWhiteSpace calls blank never parses. */
  lemma BlankDoesNotParse(s: string)
    requires IsBlank(s)
    ensures ParseInt32(s) == Failure(FormatError)
  {
    if Lex(s).Some? {
      NumeralNotBlank(Lex(s).value);
      assert false;
    }
  }

  /** The canonical decimal digits of a natural number, as Int32.ToString writes them. */
  function DecimalDigits(k: nat): (ds: string)
    ensures |ds| > 0 && forall i :: 0 <= i < |ds| ==> IsDigit(ds[i])
  {
    var last := ['0' + ((k % 10) as char)];
    if k < 10 then last else DecimalDigits(k / 10) + last
  }

  lemma {:induction false} DecimalDigitsValue(k: nat)
    ensures DigitsValue(DecimalDigits(k)) == k
  {
    var ds := DecimalDigits(k);
    if k >= 10 {
      DecimalDigitsValue(k / 10);
      assert ds[..|ds| - 1] == DecimalDigits(k / 10);
    }
  }

  /** v.ToString(CultureInfo.InvariantCulture). */
  function Format(v: int): string {
    if v < 0 then "-" + DecimalDigits(-v) else DecimalDigits(v)
  }

  /** Parsing what Int32.ToString writes gives the number back. */
  lemma ParseFormat(v: int)
    requires InInt32Range(v)
    ensures ParseInt32(Format(v)) == Success(v)
  {
    var n := Numeral("", if v < 0 then Minus else NoSign, DecimalDigits(if v < 0 then -v else v), "");
    DecimalDigitsValue(if v < 0 then -v else v);
    assert Render(n) == Format(v);
    ParseRendered(n);
  }
}

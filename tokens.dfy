/** The token type of the RAL front end and its text rendering
    (`enum Token` and `impl Display for Token` in src/parser.rs). */
module Tokens {

  /** Rust's `u32`: the payload of `Token::Num`. */
  newtype u32 = x: int | 0 <= x < 0x1_0000_0000

  /** The token kinds, in declaration order. `Restriced` keeps the source's spelling. */
  datatype Token =
    | Register
    | Alias
    | Restriced
    | Empty
    | Colon
    | Num(n: u32)
    | Ident(name: string)
    | RBrace
    | LBrace

  predicate IsDigit(c: char) {
    '0' <= c <= '9'
  }

  predicate AllDigits(s: string) {
    forall k :: 0 <= k < |s| ==> IsDigit(s[k])
  }

  /** The way Rust's `{}` writes an unsigned integer: at least one digit,
      and no leading zero unless the number is zero itself. */
  predicate IsCanonicalDecimal(s: string) {
    |s| > 0 && AllDigits(s) && (s[0] == '0' ==> |s| == 1)
  }

  function DigitChar(d: nat): (c: char)
    requires d < 10
    ensures IsDigit(c) && c as int - '0' as int == d
  {
    ('0' as int + d) as char
  }

  /** The decimal text of `n`, most significant digit first. */
  function Decimal(n: nat): (r: string)
    ensures IsCanonicalDecimal(r)
    decreases n
  {
    if n < 10 then [DigitChar(n)] else Decimal(n / 10) + [DigitChar(n % 10)]
  }

  /** The number a string of decimal digits denotes (the partner of `Decimal`). */
  function DecimalValue(s: string): nat
    requires AllDigits(s)
    decreases |s|
  {
    if s == [] then 0
    else DecimalValue(s[..|s| - 1]) * 10 + (s[|s| - 1] as int - '0' as int)
  }

  /** Reading back the decimal text of a number gives the number. */
  lemma {:induction false} DecimalRoundTrip(n: nat)
    ensures DecimalValue(Decimal(n)) == n
    decreases n
  {
    if n >= 10 {
      var d := Decimal(n / 10);
      DecimalRoundTrip(n / 10);
      assert (d + [DigitChar(n % 10)])[..|d|] == d;
    }
  }

  lemma {:induction false} LeadingDigitPositive(s: string)
    requires |s| > 0 && AllDigits(s) && s[0] != '0'
    ensures DecimalValue(s) >= 1
    decreases |s|
  {
    if |s| > 1 {
      LeadingDigitPositive(s[..|s| - 1]);
    }
  }

  /** Every canonical decimal string is the decimal text of the number it denotes,
      so `Decimal` is a bijection from the naturals onto canonical decimal strings. */
  lemma {:induction false} DecimalValueRoundTrip(s: string)
    requires IsCanonicalDecimal(s)
    ensures Decimal(DecimalValue(s)) == s
    decreases |s|
  {
    if |s| > 1 {
      var init := s[..|s| - 1];
      var d := s[|s| - 1] as int - '0' as int;
      LeadingDigitPositive(init);
      DecimalValueRoundTrip(init);
      var v := DecimalValue(s);
      assert v == DecimalValue(init) * 10 + d;
      assert v / 10 == DecimalValue(init) && v % 10 == d;
      assert s == init + [s[|s| - 1]];
    }
  }

  /** `impl Display for Token`, as written: note that `RBrace` renders as `{`
      and `LBrace` as `}`. A number renders as the canonical decimal text of its
      value, an identifier as its name, and no other kind renders as digits. */
  function Print(t: Token): (r: string)
    ensures t.Num? ==> IsCanonicalDecimal(r) && DecimalValue(r) == t.n as int
    ensures t.Ident? ==> r == t.name
    ensures !t.Num? && !t.Ident? ==> |r| > 0 && !IsDigit(r[0])
  {
    match t
    case Alias => "alias"
    case Empty => "_"
    case Num(n) => DecimalRoundTrip(n as int); Decimal(n as int)
    case Colon => ":"
    case Register => "register"
    case Restriced => "restricted"
    case Ident(s) => s
    case RBrace => "{"
    case LBrace => "}"
  }

  /** The printer with the two brace arms the right way round: the spelling the
      lexer reads for `LBrace` is `{`, for `RBrace` it is `}`. */
  function PrintIntended(t: Token): (r: string)
    ensures t != LBrace && t != RBrace ==> r == Print(t)
    ensures t == LBrace ==> r == Print(RBrace)
    ensures t == RBrace ==> r == Print(LBrace)
  {
    match t
    case LBrace => "{"
    case RBrace => "}"
    case _ => Print(t)
  }
}

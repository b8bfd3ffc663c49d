/** The number literals of RFC 8259, section 6. */
module JsonNumber {
  import opened Bytes

  datatype Exponent = NoExp | Exp(e: byte, sign: bytes, digits: bytes)

  /** An empty frac means there is no fraction. */
  datatype NumLit = NumLit(minus: bool, digits: bytes, frac: bytes, exp: Exponent)

  predicate ValidNum(l: NumLit) {
    && AllDigits(l.digits) && l.digits != [] && (l.digits[0] == ZERO ==> |l.digits| == 1)
    && AllDigits(l.frac)
    && (l.exp.Exp? ==>
      && (l.exp.e == LOWER_E || l.exp.e == UPPER_E)
      && (l.exp.sign == [] || l.exp.sign == [PLUS] || l.exp.sign == [MINUS])
      && AllDigits(l.exp.digits) && l.exp.digits != [])
  }

  function SignText(l: NumLit): bytes { if l.minus then [MINUS] else [] }

  function FracText(l: NumLit): bytes { if l.frac == [] then [] else [DOT] + l.frac }

  function ExpText(l: NumLit): bytes {
    match l.exp
    case NoExp => []
    case Exp(e, sign, digits) => [e] + (sign + digits)
  }

  function NumText(l: NumLit): bytes { SignText(l) + (l.digits + (FracText(l) + ExpText(l))) }

  predicate IsWhole(l: NumLit) { l.frac == [] && l.exp == NoExp }

  /** The byte after a literal does not prolong it. */
  predicate NumEnds(l: NumLit, next: byte) {
    && !IsDigit(next)
    && (l.exp == NoExp ==> next != LOWER_E && next != UPPER_E)
    && (IsWhole(l) ==> next != DOT)
  }

  /** The literal is 0 or -0, and the byte after it makes the prefix of a hexadecimal number of it. */
  predicate HexFollows(l: NumLit, next: byte) {
    IsWhole(l) && l.digits == [ZERO] && (next == LOWER_X || next == UPPER_X)
  }
}

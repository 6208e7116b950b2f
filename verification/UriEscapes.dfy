/** Escaped characters in a URI (RFC 3986 section 2.1), and what they are decoded to. */
module UriEscapes {
  import opened Bits
  import opened Text
  import opened Wrappers

  /** The value of a hexadecimal digit. */
  function DigitValue(c: char): (v: Option<nat>)
    ensures v.Some? ==> v.value < 16
  {
    match c
    case '0' => Some(0) case '1' => Some(1) case '2' => Some(2) case '3' => Some(3) case '4' => Some(4)
    case '5' => Some(5) case '6' => Some(6) case '7' => Some(7) case '8' => Some(8) case '9' => Some(9)
    case 'a' => Some(10) case 'b' => Some(11) case 'c' => Some(12)
    case 'd' => Some(13) case 'e' => Some(14) case 'f' => Some(15)
    case 'A' => Some(10) case 'B' => Some(11) case 'C' => Some(12)
    case 'D' => Some(13) case 'E' => Some(14) case 'F' => Some(15)
    case _ => None
  }

  /** A character of a URI as it is written: itself, an escape or a plus for a space. */
  datatype Piece = Plain(c: char) | Escape(high: char, low: char) | Plus {
    predicate Valid() {
      match this
      case Plain(c) => c != '%' && c != '+' && c != '\0'
      case Escape(high, low) => DigitValue(high).Some? && DigitValue(low).Some?
      case Plus => true
    }

    function Text(): string {
      match this
      case Plain(c) => [c]
      case Escape(high, low) => ['%', high, low]
      case Plus => "+"
    }

    /** What is meant. */
    function Meant(): char
      requires Valid()
    {
      match this
      case Plain(c) => c
      case Escape(high, low) => (16 * DigitValue(high).value + DigitValue(low).value) as char
      case Plus => ' '
    }
  }

  predicate AllValid(ps: seq<Piece>) {
    ps == [] || (ps[0].Valid() && AllValid(ps[1..]))
  }

  function Written(ps: seq<Piece>): string {
    if ps == [] then "" else ps[0].Text() + Written(ps[1..])
  }

  function AllMeant(ps: seq<Piece>): string
    requires AllValid(ps)
  {
    if ps == [] then "" else [ps[0].Meant()] + AllMeant(ps[1..])
  }

  lemma HexDigit(c: char)
    requires DigitValue(c).Some?
    ensures HexValue(c) == DigitValue(c).value
  {
  }

  lemma HalfBytes(h: nat, l: nat)
    requires h < 16 && l < 16
    ensures BitOr(h % 16 * 16, l % 0x100) % 0x100 == 16 * h + l
  {
    hide BitOr;
    OrSixteen(h, l);
    assert h % 16 * 16 == 16 * h && l % 0x100 == l;
  }

  lemma EscapedDigits(high: char, low: char)
    requires DigitValue(high).Some? && DigitValue(low).Some?
    ensures Escaped(high, low) == (16 * DigitValue(high).value + DigitValue(low).value) as char
  {
    HexDigit(high);
    HexDigit(low);
    hide HexValue, DigitValue, BitOr;
    HalfBytes(DigitValue(high).value, DigitValue(low).value);
  }

  lemma DecodePiece(p: Piece, rest: string)
    requires p.Valid()
    ensures DecodeUri(p.Text() + rest) == [p.Meant()] + DecodeUri(rest)
  {
    hide Escaped, DigitValue;
    var s := p.Text() + rest;
    match p
    case Plain(c) => assert s[1..] == rest;
    case Plus => assert s[1..] == rest;
    case Escape(high, low) =>
      assert s[3..] == rest && high != '\0' && low != '\0' by { NulIsNoDigit(); }
      EscapedDigits(high, low);
  }

  lemma NulIsNoDigit()
    ensures DigitValue('\0') == None
  {
  }

  /** A text is decoded to what is meant, each character being escaped or not, with digits in either case. */
  lemma {:induction false} DecodeWritten(ps: seq<Piece>)
    requires AllValid(ps)
    ensures DecodeUri(Written(ps)) == AllMeant(ps)
  {
    if ps == [] {
    } else {
      hide DecodeUri;
      DecodeWritten(ps[1..]);
      DecodePiece(ps[0], Written(ps[1..]));
    }
  }

  /** A percent sign without two characters behind it is dropped, and a NUL ends the text. */
  lemma CutShort(rest: string)
    ensures |rest| < 2 || rest[0] == '\0' || rest[1] == '\0' ==> DecodeUri("%" + rest) == DecodeUri(rest)
    ensures DecodeUri("\0" + rest) == ""
  {
    assert ("%" + rest)[1..] == rest;
  }
}

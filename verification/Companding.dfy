/** G.711: logarithmic companding of 16-bit samples to 8 bits, A-law and mu-law. */
module Companding {
  import opened Bits
  import opened Words

  datatype Law = ALaw | MuLaw

  /** A value times a power of two, as a shift of at most seven bits. */
  function ShiftLeft(t: nat, k: nat): nat {
    match k
    case 0 => t case 1 => 2 * t case 2 => 4 * t case 3 => 8 * t
    case 4 => 16 * t case 5 => 32 * t case 6 => 64 * t case _ => 128 * t
  }

  /** A value shifted right by `k + 3` bits. */
  function ShiftRight(m: int, k: nat): int {
    match k
    case 0 => m / 8 case 1 => m / 16 case 2 => m / 32 case 3 => m / 64
    case 4 => m / 128 case 5 => m / 256 case 6 => m / 512 case _ => m / 1024
  }

  // ---------- encoding ----------

  /** The number of the segment, found by halving the bits looked at. */
  function ValSeg(val: int): (r: nat)
    ensures r <= 7
  {
    var v := val / 128;
    var (w, r) := if v % 256 >= 16 then (v / 16, 4) else (v, 0);
    var (u, q) := if w % 16 >= 4 then (w / 4, r + 2) else (w, r);
    if u / 2 % 2 == 1 then q + 1 else q
  }

  /** A result stored in 16 bits. */
  function Narrow(x: int): S16
    requires -0x8000 <= x < 0x1_8000
  {
    if x >= 0x8000 then x - 0x1_0000 else x
  }

  /** The magnitude to encode, biased for mu-law. The largest ones overflow. */
  function Magnitude(law: Law, x: S16): S16 {
    match law
    case ALaw => if x >= 0 then x else Narrow(-(x as int))
    case MuLaw => Narrow((if x < 0 then -(x as int) else x) + 0x84)
  }

  function Mask(law: Law, x: S16): Byte {
    match law
    case ALaw => if x >= 0 then 0xD5 else 0x55
    case MuLaw => if x < 0 then 0x7F else 0xFF
  }

  /** Segment and step within the segment. */
  function Code(law: Law, m: S16): Byte {
    if law == ALaw && m < 256 then m / 16 % 0x100
    else 16 * ValSeg(m) + ShiftRight(m, ValSeg(m)) % 16
  }

  function Encode(law: Law, x: S16): (c: Byte)
  {
    XorBound(Code(law, Magnitude(law, x)), Mask(law, x), 8);
    Xor(Code(law, Magnitude(law, x)), Mask(law, x))
  }

  // ---------- decoding ----------

  /** The middle of the step a code stands for, still biased for mu-law. */
  function Value(law: Law, code: nat): nat
    requires code < 128
  {
    match law
    case ALaw => if code < 16 then 16 * code + 8 else ShiftLeft(code % 16 * 16 + 0x108, code / 16 - 1)
    case MuLaw => ShiftLeft(code % 16 * 8 + 0x84, code / 16)
  }

  lemma ValueRange(law: Law, code: nat)
    requires code < 128
    ensures Value(law, code) <= 32256 && (law == MuLaw ==> Value(law, code) >= 0x84)
  {
  }

  function Decode(law: Law, c: Byte): S16 {
    XorBound(c, 0x55, 8);
    XorBound(c, 0xFF, 8);
    match law
    case ALaw =>
      var a := Xor(c, 0x55);
      ValueRange(law, a % 128);
      if a >= 128 then Value(law, a % 128) else -(Value(law, a % 128) as int)
    case MuLaw =>
      var u := Xor(c, 0xFF);
      ValueRange(law, u % 128);
      if u >= 128 then 0x84 - Value(law, u % 128) as int else Value(law, u % 128) - 0x84
  }

  // ---------- segments ----------

  predicate InSegment(m: int, seg: nat) {
    match seg
    case 0 => 0 <= m < 0x100 case 1 => 0x100 <= m < 0x200 case 2 => 0x200 <= m < 0x400 case 3 => 0x400 <= m < 0x800
    case 4 => 0x800 <= m < 0x1000 case 5 => 0x1000 <= m < 0x2000 case 6 => 0x2000 <= m < 0x4000
    case _ => 0x4000 <= m < 0x8000
  }

  /** The halving finds the segment: each one is twice as long as the one before it. */
  lemma SegmentFound(m: int)
    requires 0 <= m < 0x8000
    ensures InSegment(m, ValSeg(m))
  {
  }

  /** What is encoded without loss of the sign: for mu-law the biased magnitude is never below the bias. */
  predicate Encodable(law: Law, m: int) {
    0 <= m < 0x8000 && (law == MuLaw ==> 0x84 <= m)
  }

  /** The middle of step `q` of a segment; the 16 steps of a segment are numbered from 16. */
  function Middle(q: nat, seg: nat): nat {
    ShiftLeft(8 * q + 4, seg)
  }

  lemma StepOf(m: int, seg: nat)
    requires InSegment(m, seg) && 128 <= m && seg < 8
    ensures 16 <= ShiftRight(m, seg) < 32
    ensures -m <= 32 * (m - Middle(ShiftRight(m, seg), seg)) <= m
  {
  }

  lemma MiddleOf(q: nat, seg: nat)
    requires 16 <= q < 32 && seg < 8
    ensures InSegment(Middle(q, seg), seg) && Middle(q, seg) >= 132 && ShiftRight(Middle(q, seg), seg) == q
  {
  }

  lemma SegmentUnique(m: int, seg: nat, seg': nat)
    requires InSegment(m, seg) && InSegment(m, seg') && seg < 8 && seg' < 8
    ensures seg == seg'
  {
  }

  /** The value of a code is the middle of its step. */
  lemma ValueMiddle(law: Law, code: nat, q: nat, seg: nat)
    requires 16 <= q < 32 && seg < 8 && (law == ALaw ==> 1 <= seg)
    requires code == 16 * seg + q % 16
    ensures code < 128 && Value(law, code) == Middle(q, seg)
  {
    assert code / 16 == seg && code % 16 == q - 16;
    if law == ALaw { assert 16 * (code % 16) + 0x108 == 16 * q + 8; }
  }

  lemma CodeParts(law: Law, m: int, seg: nat)
    requires Encodable(law, m) && InSegment(m, seg) && seg < 8 && (law == ALaw ==> 0x100 <= m)
    ensures Code(law, m) == 16 * seg + ShiftRight(m, seg) % 16
  {
    hide ShiftRight;
    SegmentFound(m);
    SegmentUnique(m, seg, ValSeg(m));
    hide ValSeg;
  }

  /** All but the smallest magnitudes of A-law: the segment, the step, and the middle of the step as value. */
  lemma Stepped(law: Law, m: int) returns (q: nat, seg: nat)
    requires Encodable(law, m) && (law == ALaw ==> 0x100 <= m)
    ensures seg < 8 && InSegment(m, seg) && q == ShiftRight(m, seg) && 16 <= q < 32
    ensures Code(law, m) < 128 && Value(law, Code(law, m)) == Middle(q, seg)
    ensures -m <= 32 * (m - Middle(q, seg)) <= m
    ensures law == ALaw ==> seg >= 1
  {
    hide ShiftRight, Value, Middle, Code;
    seg := ValSeg(m);
    SegmentFound(m);
    hide ValSeg;
    StepOf(m, seg);
    q := ShiftRight(m, seg);
    CodeParts(law, m, seg);
    ValueMiddle(law, Code(law, m), q, seg);
  }

  /** The smallest magnitudes of A-law are encoded in steps of 16. */
  lemma Small(m: int)
    requires 0 <= m < 0x100
    ensures Code(ALaw, m) == m / 16 && Value(ALaw, m / 16) == 16 * (m / 16) + 8
  {
  }

  /** What is decoded is the middle of a step: at most half a step away, a thirty-second of the magnitude. */
  lemma Close(law: Law, m: int)
    requires Encodable(law, m)
    ensures Code(law, m) < 128
    ensures var distance := m - Value(law, Code(law, m));
            if law == ALaw && m < 0x100 then -8 <= distance < 8 else -m <= 32 * distance <= m
  {
    hide Value, Code;
    if law == MuLaw || m >= 0x100 {
      var q, seg := Stepped(law, m);
    } else {
      Small(m);
    }
  }

  /** Encoding the value of a code gives the code again. */
  lemma CodeOfValue(law: Law, code: nat)
    requires code < 128
    ensures Encodable(law, Value(law, code)) && Code(law, Value(law, code)) == code
  {
    hide ShiftRight, Value, Middle, Code;
    if law == MuLaw || code >= 16 {
      var seg, q := code / 16, 16 + code % 16;
      assert q % 16 == code % 16;
      ValueMiddle(law, code, q, seg);
      MiddleOf(q, seg);
      Below(Middle(q, seg), seg);
      CodeParts(law, Middle(q, seg), seg);
    } else {
      Small(16 * code + 8);
    }
  }

  lemma Below(m: int, seg: nat)
    requires InSegment(m, seg)
    ensures 0 <= m < 0x8000 && (seg >= 1 ==> m >= 0x100)
  {
  }

  lemma StepsOrdered(m: int, m': int, seg: nat)
    requires m <= m' && seg < 8
    ensures ShiftRight(m, seg) <= ShiftRight(m', seg)
  {
  }

  lemma SegmentsOrdered(m: int, m': int, seg: nat, seg': nat)
    requires m <= m' && InSegment(m, seg) && InSegment(m', seg') && seg < 8 && seg' < 8
    ensures seg <= seg'
  {
  }

  lemma MiddlesOrdered(q: nat, seg: nat, q': nat, seg': nat)
    requires 16 <= q < 32 && 16 <= q' < 32 && seg < 8 && seg' < 8
    requires seg < seg' || (seg == seg' && q <= q')
    ensures Middle(q, seg) <= Middle(q', seg')
  {
    if seg < seg' {
      MiddleOf(q, seg);
      MiddleOf(q', seg');
      hide Middle;
    }
  }

  /** Larger magnitudes have larger values. */
  lemma ValuesOrdered(law: Law, m: int, m': int)
    requires Encodable(law, m) && Encodable(law, m') && m <= m'
    ensures Code(law, m) < 128 && Code(law, m') < 128
    ensures Value(law, Code(law, m)) <= Value(law, Code(law, m'))
  {
    hide ShiftRight, Value, Middle, Code, InSegment;
    Close(law, m);
    Close(law, m');
    if law == ALaw && m < 0x100 {
      Small(m);
      if m' < 0x100 {
        Small(m');
      } else {
        var q', seg' := Stepped(law, m');
        MiddleOf(q', seg');
        Below(Middle(q', seg'), seg');
      }
    } else {
      var q, seg := Stepped(law, m);
      var q', seg' := Stepped(law, m');
      StepsOrdered(m, m', seg);
      SegmentsOrdered(m, m', seg, seg');
      MiddlesOrdered(q, seg, q', seg');
    }
  }

  // ---------- samples ----------

  /** The samples whose magnitude does not overflow. */
  predicate InRange(law: Law, x: S16) {
    match law case ALaw => x > -0x8000 case MuLaw => -32635 <= x <= 32635
  }

  function Bias(law: Law): nat { if law == ALaw then 0 else 0x84 }

  /** Masks that differ in the sign bit only leave that bit. */
  lemma Masked(code: nat, mask: nat)
    requires code < 128 && mask < 128
    ensures Xor(Xor(code, mask + 128), mask) == Xor(Xor(code, mask), mask + 128) == code + 128
    ensures Xor(Xor(code, mask), mask) == Xor(Xor(code, mask + 128), mask + 128) == code
  {
    hide Xor;
    assert PowerOf2(7) == 128;
    XorTwice(code, mask + 128, mask);
    XorTwice(code, mask, mask + 128);
    XorTwice(code, mask, mask);
    XorTwice(code, mask + 128, mask + 128);
    XorSelf(mask);
    XorSelf(mask + 128);
    XorZero(code);
    XorZero(128);
    XorBit(mask, 7);
    XorBit(code, 7);
    XorTwice(128, mask, mask);
    XorTwice(mask, mask, 128);
    ZeroXor(128);
  }

  /** A sample comes back with the value of its code and its sign, with a zero of either sign for mu-law. */
  lemma Decoded(law: Law, x: S16)
    requires Code(law, Magnitude(law, x)) < 128
    ensures var v := Value(law, Code(law, Magnitude(law, x))) - Bias(law);
            Decode(law, Encode(law, x)) == if x >= 0 then v else -v
  {
    hide Code, Value, Xor, Magnitude;
    var code := Code(law, Magnitude(law, x));
    match law {
      case ALaw => Masked(code, 0x55);
      case MuLaw => Masked(code, 0x7F);
    }
  }

  lemma MagnitudeInRange(law: Law, x: S16)
    requires InRange(law, x)
    ensures Magnitude(law, x) == (if x < 0 then -(x as int) else x) + Bias(law) && Encodable(law, Magnitude(law, x))
  {
  }

  /** The companding error: at most half the smallest step or a thirty-second of the (biased) magnitude. */
  predicate Faithful(law: Law, x: S16) {
    var error := Decode(law, Encode(law, x)) as int - x as int;
    var distance := if error < 0 then -error else error;
    var magnitude := if x < 0 then -(x as int) else x;
    match law
    case ALaw => distance <= 8 || 32 * distance <= magnitude
    case MuLaw => 32 * distance <= magnitude + 132
  }

  /** A magnitude that overflows is encoded with one of the smallest codes. */
  lemma Overflowed(law: Law, x: S16)
    requires !InRange(law, x)
    ensures Code(law, Magnitude(law, x)) < 16
    ensures 0 <= Value(law, Code(law, Magnitude(law, x))) - Bias(law) <= 120
  {
    var m := Magnitude(law, x);
    assert m < 0 && -256 <= m / 128 <= -255;
    assert ValSeg(m) == 0;
  }

  /** The error is bounded exactly for the samples in range. */
  lemma FaithfulExactly(law: Law, x: S16)
    ensures Faithful(law, x) <==> InRange(law, x)
  {
    hide Code, Value, Encode, Decode, Magnitude;
    if InRange(law, x) {
      MagnitudeInRange(law, x);
      Close(law, Magnitude(law, x));
      Decoded(law, x);
    } else {
      Overflowed(law, x);
      Decoded(law, x);
    }
  }

  /** Companding keeps the order of samples. */
  lemma Monotone(law: Law, x: S16, y: S16)
    requires InRange(law, x) && InRange(law, y) && x <= y
    ensures Decode(law, Encode(law, x)) <= Decode(law, Encode(law, y))
  {
    hide Code, Value, Encode, Decode, Magnitude;
    var m, m' := Magnitude(law, x), Magnitude(law, y);
    MagnitudeInRange(law, x);
    MagnitudeInRange(law, y);
    Close(law, m);
    Close(law, m');
    Decoded(law, x);
    Decoded(law, y);
    ValueRange(law, Code(law, m));
    ValueRange(law, Code(law, m'));
    if x >= 0 { ValuesOrdered(law, m, m'); }
    if y < 0 { ValuesOrdered(law, m', m); }
  }

  /** Companding a sample again changes nothing further. */
  lemma Idempotent(law: Law, x: S16)
    ensures Decode(law, Encode(law, Decode(law, Encode(law, x)))) == Decode(law, Encode(law, x))
  {
    hide Code, Value, Encode, Decode, Magnitude;
    var code := Code(law, Magnitude(law, x));
    if InRange(law, x) {
      MagnitudeInRange(law, x);
      Close(law, Magnitude(law, x));
    } else {
      Overflowed(law, x);
    }
    Decoded(law, x);
    var y := Decode(law, Encode(law, x));
    ValueRange(law, code);
    MagnitudeInRange(law, y);
    CodeOfValue(law, code);
    Decoded(law, y);
  }

  // ---------- code words ----------

  /** The values in closed form: 33 and twice the step, doubled for every segment. */
  lemma ValueFormula(law: Law, code: nat)
    requires code < 128
    ensures var step, seg := code % 16, code / 16;
            match law
            case ALaw => Value(law, code) == if seg == 0 then 16 * step + 8 else (2 * step + 33) * 8 * PowerOf2(seg - 1)
            case MuLaw => Value(law, code) == (2 * step + 33) * 4 * PowerOf2(seg)
  {
    var step := code % 16;
    assert PowerOf2(2) == 4 && PowerOf2(4) == 16 && PowerOf2(6) == 64;
  }

  lemma CodeFits(law: Law, x: S16)
    ensures Code(law, Magnitude(law, x)) < 128
  {
    hide Code, Magnitude;
    if InRange(law, x) {
      MagnitudeInRange(law, x);
      Close(law, Magnitude(law, x));
    } else {
      Overflowed(law, x);
    }
  }

  /** Of the code and the sign above it every bit is sent inverted for mu-law, and every second one for A-law, from the
      lowest one on; the sign is set for samples below zero in mu-law, and for all others in A-law. */
  lemma CodeWord(law: Law, x: S16, i: nat)
    requires i < 8
    ensures var code := Code(law, Magnitude(law, x));
            var signed := if (x < 0) == (law == MuLaw) then code + 128 else code;
            Bit(Encode(law, x), i) <==> Bit(signed, i) != (law == MuLaw || i % 2 == 0)
  {
    hide Code, Magnitude, Xor;
    var code := Code(law, Magnitude(law, x));
    CodeFits(law, x);
    assert PowerOf2(7) == 128;
    HighBit(code, 7, i);
    HighBit(code, 7, 7);
    XorBits(code, Mask(law, x), i);
    MaskBits(i);
  }

  lemma MaskBits(i: nat)
    requires i < 8
    ensures Bit(0xFF, i) && (Bit(0x7F, i) <==> i < 7)
    ensures (Bit(0xD5, i) <==> i == 7 || i % 2 == 0) && (Bit(0x55, i) <==> i % 2 == 0)
  {
    assert Bit(0x55, 6) && Bit(0x7F, 6) && Bit(0xFF, 6) && Bit(0xD5, 6);
    assert !Bit(0x55, 7) && !Bit(0x7F, 7) && Bit(0xFF, 7) && Bit(0xD5, 7);
  }

  lemma Unmasked(a: nat, mask: nat)
    requires a < 256 && mask < 128
    ensures Xor(a % 128, if a >= 128 then mask + 128 else mask) == Xor(a, mask)
    ensures Xor(a % 128, if a >= 128 then mask else mask + 128) == Xor(a, mask + 128)
  {
    hide Xor;
    assert PowerOf2(7) == 128;
    var low := a % 128;
    XorBit(low, 7);
    XorBit(mask, 7);
    XorTwice(low, 128, mask);
    XorTwice(low, 128, mask + 128);
    XorTwice(128, 128, mask);
    XorSelf(128);
    ZeroXor(mask);
  }

  lemma MaskedTwice(c: nat, mask: nat)
    ensures Xor(Xor(c, mask), mask) == c
  {
    hide Xor;
    XorTwice(c, mask, mask);
    XorSelf(mask);
    XorZero(c);
  }

  /** The byte 0x7F is the sign of mu-law alone. */
  lemma Unsent(c: Byte)
    ensures Xor(c, 0xFF) == 128 <==> c == 0x7F
  {
    hide Xor;
    assert PowerOf2(7) == 128;
    XorBit(0x7F, 7);
    MaskedTwice(c, 0xFF);
    XorTwice(128, 128, 0x7F);
    XorSelf(128);
    ZeroXor(0x7F);
    XorTwice(0x7F, 0x7F, 128);
    XorSelf(0x7F);
    ZeroXor(128);
  }

  lemma SmallestValue(law: Law, code: nat)
    requires code < 128
    ensures Value(law, code) > 0 && (law == MuLaw ==> (Value(law, code) == 0x84 <==> code == 0))
  {
  }

  lemma ZeroOfMuLaw()
    ensures Encode(MuLaw, 0) == 0xFF
  {
    hide Xor;
    assert Magnitude(MuLaw, 0) == 0x84 && Code(MuLaw, 0x84) == 0;
    ZeroXor(0xFF);
  }

  lemma EncodeOfALaw(c: Byte)
    ensures Encode(ALaw, Decode(ALaw, c)) == c
  {
    hide Code, Value, Xor;
    XorBound(c, 0x55, 8);
    assert PowerOf2(4) == 16 && PowerOf2(8) == 256;
    var a := Xor(c, 0x55);
    MaskedTwice(c, 0x55);
    Unmasked(a, 0x55);
    ValueRange(ALaw, a % 128);
    SmallestValue(ALaw, a % 128);
    CodeOfValue(ALaw, a % 128);
    assert Magnitude(ALaw, Decode(ALaw, c)) == Value(ALaw, a % 128);
  }

  lemma EncodeOfMuLaw(c: Byte)
    requires c != 0x7F
    ensures Encode(MuLaw, Decode(MuLaw, c)) == c
  {
    hide Code, Value, Xor;
    XorBound(c, 0xFF, 8);
    assert PowerOf2(4) == 16 && PowerOf2(8) == 256;
    var u := Xor(c, 0xFF);
    MaskedTwice(c, 0xFF);
    Unmasked(u, 0x7F);
    Unsent(c);
    ValueRange(MuLaw, u % 128);
    SmallestValue(MuLaw, u % 128);
    CodeOfValue(MuLaw, u % 128);
    assert Magnitude(MuLaw, Decode(MuLaw, c)) == Value(MuLaw, u % 128);
  }

  /** Every byte is the code of the sample it is decoded to, but for the zero of mu-law that has the sign set. */
  lemma EncodeOfDecoded(law: Law, c: Byte)
    ensures Encode(law, Decode(law, c)) == c <==> !(law == MuLaw && c == 0x7F)
  {
    hide Encode;
    if law == ALaw {
      EncodeOfALaw(c);
    } else if c != 0x7F {
      EncodeOfMuLaw(c);
    } else {
      hide Xor, Value;
      Unsent(c);
      SmallestValue(MuLaw, 0);
      ZeroOfMuLaw();
      assert Decode(MuLaw, c) == 0;
    }
  }
}

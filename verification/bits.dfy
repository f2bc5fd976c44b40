/** Fixed-width bit strings, most-significant bit first, as the simulator's
    BitString class presents them: an unsigned reading, a two's-complement
    reading, slicing, sign extension, inversion and bitwise AND, plus the
    textual form a program word is written in. */
module Bits {

  /** Bit 0 is the most-significant bit. */
  type Bits = seq<bool>

  /** A machine word: exactly 16 bits. */
  type Word = b: Bits | |b| == 16 witness seq(16, _ => false)

  datatype Option<+T> = None | Some(value: T)

  function Pow2(n: nat): (r: nat)
    ensures r >= 1
  {
    if n == 0 then 1 else 2 * Pow2(n - 1)
  }

  /** The unsigned magnitude of a bit string. */
  function Unsigned(b: Bits): (r: nat)
    ensures r < Pow2(|b|)
  {
    if |b| == 0 then 0
    else (if b[0] then Pow2(|b| - 1) else 0) + Unsigned(b[1..])
  }

  /** True when n has a two's-complement form in `width` bits. */
  predicate FitsSigned(n: int, width: nat)
    requires width >= 1
  {
    -(Pow2(width - 1) as int) <= n < Pow2(width - 1)
  }

  /** The two's-complement reading: the leading bit weighs -2^(width-1). */
  function Signed(b: Bits): (r: int)
    requires |b| >= 1
    ensures FitsSigned(r, |b|)
    ensures r < 0 <==> b[0]
  {
    if b[0] then Unsigned(b) - Pow2(|b|) else Unsigned(b)
  }

  /** Encodes a magnitude in `width` bits; undefined when it does not fit. */
  function FromUnsigned(n: nat, width: nat): (r: Bits)
    requires n < Pow2(width)
    ensures |r| == width
    ensures Unsigned(r) == n
  {
    if width == 0 then []
    else if n >= Pow2(width - 1) then [true] + FromUnsigned(n - Pow2(width - 1), width - 1)
    else [false] + FromUnsigned(n, width - 1)
  }

  /** Encodes a signed integer in two's complement; undefined when it does not fit. */
  function FromSigned(n: int, width: nat): (r: Bits)
    requires width >= 1 && FitsSigned(n, width)
    ensures |r| == width
    ensures Signed(r) == n
  {
    FromUnsigned(if n < 0 then n + Pow2(width) else n, width)
  }

  /** Bits [start, start + len) of b: a fresh bit string of width len. */
  function Slice(b: Bits, start: nat, len: nat): (r: Bits)
    requires start + len <= |b|
    ensures |r| == len
  {
    b[start..start + len]
  }

  /** Replicates the leading bit of b until it is `width` bits wide. */
  function SignExtend(b: Bits, width: nat): (r: Bits)
    requires 1 <= |b| <= width
    ensures |r| == width
  {
    seq(width - |b|, _ => b[0]) + b
  }

  /** Every bit flipped. */
  function Invert(b: Bits): (r: Bits)
    ensures |r| == |b|
  {
    seq(|b|, i requires 0 <= i < |b| => !b[i])
  }

  /** Position-wise conjunction of two bit strings of the same width. */
  function BitAnd(a: Bits, b: Bits): (r: Bits)
    requires |a| == |b|
    ensures |r| == |a|
  {
    seq(|a|, i requires 0 <= i < |a| => a[i] && b[i])
  }

  // ---------------------------------------------------------------------
  // Readings and their inverses

  /** The leading bit is set exactly when the magnitude reaches the upper half. */
  lemma LeadingBitIsUpperHalf(b: Bits)
    requires |b| >= 1
    ensures b[0] <==> Unsigned(b) >= Pow2(|b| - 1)
  {
    assert Unsigned(b[1..]) < Pow2(|b| - 1);
  }

  /** Reading a bit string and encoding the magnitude again gives back the bits. */
  lemma {:induction false} FromUnsignedOfUnsigned(b: Bits)
    ensures FromUnsigned(Unsigned(b), |b|) == b
  {
    UnsignedInjective(FromUnsigned(Unsigned(b), |b|), b);
  }

  /** Bit strings of one length with one magnitude are equal. */
  lemma {:induction false} UnsignedInjective(a: Bits, b: Bits)
    requires |a| == |b| && Unsigned(a) == Unsigned(b)
    ensures a == b
  {
    if |a| > 0 {
      LeadingBitIsUpperHalf(a);
      LeadingBitIsUpperHalf(b);
      UnsignedInjective(a[1..], b[1..]);
      assert a == [a[0]] + a[1..] && b == [b[0]] + b[1..];
    }
  }

  /** Reading a bit string as two's complement and encoding it again gives back the bits. */
  lemma FromSignedOfSigned(b: Bits)
    requires |b| >= 1
    ensures FromSigned(Signed(b), |b|) == b
  {
    FromUnsignedOfUnsigned(b);
  }

  /** For bit strings whose leading bit is clear the two readings agree. */
  lemma SignedOfNonNegative(b: Bits)
    requires |b| >= 1 && Unsigned(b) < Pow2(|b| - 1)
    ensures Signed(b) == Unsigned(b)
  {
    LeadingBitIsUpperHalf(b);
  }

  /** The two's-complement reading of a width-bit string whose unsigned
      reading is u: shared by the instruction fields and the 16-bit PC. */
  function SignedField(u: nat, width: nat): int
    requires width >= 1
  {
    if u >= Pow2(width - 1) then u - Pow2(width) else u
  }

  // ---------------------------------------------------------------------
  // Sign extension, inversion, conjunction

  lemma UnsignedCons(c: bool, x: Bits)
    ensures Unsigned([c] + x) == (if c then Pow2(|x|) else 0) + Unsigned(x)
  {
    assert ([c] + x)[1..] == x;
  }

  /** Sign extension keeps the two's-complement value. */
  lemma {:induction false} SignExtendKeepsSigned(b: Bits, width: nat)
    requires 1 <= |b| <= width
    ensures Signed(SignExtend(b, width)) == Signed(b)
    decreases width - |b|
  {
    if width > |b| {
      var shorter := SignExtend(b, width - 1);
      SignExtendKeepsSigned(b, width - 1);
      var longer := SignExtend(b, width);
      assert longer == [b[0]] + shorter;
      assert shorter[0] == b[0] && longer[0] == b[0];
      UnsignedCons(b[0], shorter);
      assert Pow2(|longer|) == 2 * Pow2(|shorter|);
      if b[0] {
        assert Signed(longer) == Unsigned(shorter) - Pow2(|shorter|) == Signed(shorter);
      } else {
        assert Signed(longer) == Unsigned(shorter) == Signed(shorter);
      }
    } else {
      assert SignExtend(b, width) == b;
    }
  }

  /** The magnitude of the inverted bits is the complement to 2^width - 1. */
  lemma {:induction false} InvertUnsigned(b: Bits)
    ensures Unsigned(Invert(b)) == Pow2(|b|) - 1 - Unsigned(b)
  {
    if |b| > 0 {
      InvertUnsigned(b[1..]);
      assert Invert(b)[1..] == Invert(b[1..]);
    }
  }

  /** Inversion is arithmetic negation less one in two's complement. */
  lemma InvertSigned(b: Bits)
    requires |b| >= 1
    ensures Signed(Invert(b)) == -Signed(b) - 1
  {
    InvertUnsigned(b);
  }

  /** Conjunction never exceeds either operand's magnitude. */
  lemma {:induction false} BitAndBelowOperands(a: Bits, b: Bits)
    requires |a| == |b|
    ensures Unsigned(BitAnd(a, b)) <= Unsigned(a)
    ensures Unsigned(BitAnd(a, b)) <= Unsigned(b)
  {
    if |a| > 0 {
      BitAndBelowOperands(a[1..], b[1..]);
      assert BitAnd(a, b)[1..] == BitAnd(a[1..], b[1..]);
    }
  }

  // ---------------------------------------------------------------------
  // Arithmetic views: concatenation, slicing and conjunction on magnitudes

  lemma {:induction false} Pow2Add(a: nat, b: nat)
    ensures Pow2(a + b) == Pow2(a) * Pow2(b)
  {
    if a > 0 {
      Pow2Add(a - 1, b);
      assert Pow2(a + b) == 2 * Pow2(a - 1 + b);
    }
  }

  /** The powers of two a 16-bit word needs. */
  lemma Pow2Word()
    ensures Pow2(8) == 256 && Pow2(15) == 32768 && Pow2(16) == 65536
  {
    assert Pow2(7) == 128 && Pow2(8) == 256;
    Pow2Add(8, 7);
    Pow2Add(8, 8);
  }

  lemma MulNonNegative(a: int, b: int)
    requires a >= 0 && b >= 0
    ensures a * b >= 0
  {
  }

  /** Euclidean division is determined by its quotient and remainder. */
  lemma DivModOf(n: int, k: int, q: int, r: int)
    requires k > 0 && 0 <= r < k && n == q * k + r
    ensures n / k == q && n % k == r
  {
    var q', r' := n / k, n % k;
    var d := q - q';
    assert d * k == r' - r;
    if d >= 1 {
      assert d * k == (d - 1) * k + k;
      MulNonNegative(d - 1, k);
    } else if d <= -1 {
      assert d * k == -((-d - 1) * k) - k;
      MulNonNegative(-d - 1, k);
    }
  }

  /** The magnitude of a concatenation: the left part is shifted past the right one. */
  lemma {:induction false} UnsignedAppend(x: Bits, y: Bits)
    ensures Unsigned(x + y) == Unsigned(x) * Pow2(|y|) + Unsigned(y)
  {
    if |x| == 0 {
      assert x + y == y;
    } else {
      var xy, rest := x + y, x[1..];
      assert xy[0] == x[0] && xy[1..] == rest + y;
      UnsignedAppend(rest, y);
      Pow2Add(|rest|, |y|);
      var lead, shift := (if x[0] then Pow2(|rest|) else 0), Pow2(|y|);
      assert Unsigned(xy) == (if x[0] then Pow2(|rest| + |y|) else 0) + Unsigned(rest + y);
      assert Unsigned(xy) == lead * shift + Unsigned(rest) * shift + Unsigned(y);
      assert Unsigned(x) == lead + Unsigned(rest);
      assert (lead + Unsigned(rest)) * shift == lead * shift + Unsigned(rest) * shift;
    }
  }

  /** A slice read unsigned is the word shifted right past the slice and masked to its width. */
  lemma SliceIsShiftAndMask(b: Bits, start: nat, len: nat)
    requires start + len <= |b|
    ensures Unsigned(Slice(b, start, len)) == (Unsigned(b) / Pow2(|b| - start - len)) % Pow2(len)
  {
    var head, mid, tail := b[..start], Slice(b, start, len), b[start + len..];
    assert b == head + mid + tail;
    UnsignedAppend(head + mid, tail);
    UnsignedAppend(head, mid);
    var upper := Unsigned(head) * Pow2(len) + Unsigned(mid);
    DivModOf(Unsigned(b), Pow2(|tail|), upper, Unsigned(tail));
    DivModOf(upper, Pow2(len), Unsigned(head), Unsigned(mid));
  }

  /** The two's-complement reading in terms of the unsigned one. */
  lemma SignedByMagnitude(b: Bits)
    requires |b| >= 1
    ensures Signed(b) == if Unsigned(b) >= Pow2(|b| - 1) then Unsigned(b) - Pow2(|b|) else Unsigned(b)
  {
    LeadingBitIsUpperHalf(b);
  }

  /** Bitwise AND of two magnitudes over `width` bits, least-significant bit first:
      an arithmetic definition independent of the bit-string one. */
  function AndValue(x: nat, y: nat, width: nat): (r: nat)
    ensures r < Pow2(width)
  {
    if width == 0 then 0
    else 2 * AndValue(x / 2, y / 2, width - 1) + (if x % 2 == 1 && y % 2 == 1 then 1 else 0)
  }

  /** Conjunction with zero is zero. */
  lemma {:induction false} AndValueZero(y: nat, width: nat)
    ensures AndValue(0, y, width) == 0
  {
    if width > 0 {
      AndValueZero(y / 2, width - 1);
    }
  }

  /** Splits off the least-significant bit of a non-empty bit string. */
  lemma UnsignedLastBit(b: Bits)
    requires |b| >= 1
    ensures Unsigned(b) / 2 == Unsigned(b[..|b| - 1])
    ensures Unsigned(b) % 2 == (if b[|b| - 1] then 1 else 0)
  {
    var init, last := b[..|b| - 1], b[|b| - 1..];
    assert b == init + last;
    UnsignedAppend(init, last);
    assert Unsigned(last) == (if b[|b| - 1] then 1 else 0);
    DivModOf(Unsigned(b), 2, Unsigned(init), Unsigned(last));
  }

  /** Position-wise conjunction of bit strings agrees with the arithmetic AND of their magnitudes. */
  lemma {:induction false} BitAndIsAndValue(a: Bits, b: Bits)
    requires |a| == |b|
    ensures Unsigned(BitAnd(a, b)) == AndValue(Unsigned(a), Unsigned(b), |a|)
  {
    if |a| > 0 {
      var n := |a| - 1;
      var r := BitAnd(a, b);
      BitAndIsAndValue(a[..n], b[..n]);
      assert r[..n] == BitAnd(a[..n], b[..n]);
      UnsignedLastBit(a);
      UnsignedLastBit(b);
      UnsignedLastBit(r);
      assert Unsigned(r) == 2 * (Unsigned(r) / 2) + Unsigned(r) % 2;
    }
  }

  // ---------------------------------------------------------------------
  // Text form: a word is written as characters '0' and '1'

  /** The text with every space character removed (tabs and other blanks stay). */
  function RemoveSpaces(s: string): (r: string)
    ensures ' ' !in r
    ensures |r| <= |s|
  {
    if |s| == 0 then ""
    else if s[0] == ' ' then RemoveSpaces(s[1..])
    else [s[0]] + RemoveSpaces(s[1..])
  }

  predicate IsBinaryDigit(c: char)
  {
    c == '0' || c == '1'
  }

  /** Reads one bit per character; anything other than '0' or '1' is rejected. */
  function ParseBits(s: string): (r: Option<Bits>)
    ensures r.Some? <==> forall i :: 0 <= i < |s| ==> IsBinaryDigit(s[i])
    ensures r.Some? ==> |r.value| == |s| && forall i :: 0 <= i < |s| ==> (r.value[i] <==> s[i] == '1')
  {
    if |s| == 0 then Some([])
    else if !IsBinaryDigit(s[0]) then None
    else match ParseBits(s[1..])
      case None => None
      case Some(rest) => Some([s[0] == '1'] + rest)
  }

  /** The bits written as '0' and '1' characters. */
  function Render(b: Bits): (r: string)
    ensures |r| == |b|
  {
    seq(|b|, i requires 0 <= i < |b| => if b[i] then '1' else '0')
  }

  /** Rendering then parsing gives back the bits. */
  lemma ParseRender(b: Bits)
    ensures ParseBits(Render(b)) == Some(b)
  {
    var r := ParseBits(Render(b));
    assert r.Some?;
    assert r.value == b;
  }

  /** Parsing then rendering gives back the text. */
  lemma RenderParse(s: string)
    requires ParseBits(s).Some?
    ensures Render(ParseBits(s).value) == s
  {
    var r := Render(ParseBits(s).value);
    assert forall i :: 0 <= i < |s| ==> r[i] == s[i];
  }
}

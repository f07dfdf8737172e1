/**
 * The base conversion engine of Pikaid: `toBase36` turns the 12 random
 * bytes into base-36 digits and `fromBase36` turns the 19-character
 * randomness segment back into bytes. Each has a GMP branch (one library
 * call each way, modelled as functions over `nat`) and a BCMath branch
 * (accumulating and dividing loops, modelled as methods proved against
 * functions that specify them).
 */
module Engine {
  import opened Numerals

  /** The arbitrary-precision extension that `extension_loaded` found. */
  datatype Backend = Gmp | BcMath

  /** `RAND_BYTES`: the randomness is 12 bytes, 96 bits. */
  const RandBytes: nat := 12
  /** `RAND_LENGTH`: the randomness segment is 19 base-36 characters. */
  const RandLength: nat := 19

  /** 2^96, one more than the largest 12-byte value. */
  const Two96: nat := 0x1_0000_0000_0000_0000_0000_0000

  /** 36^19, one more than the largest 19-character segment value. */
  const SegmentLimit: nat := 371319292745659279662190166016

  /** Twelve bytes always fit in 19 base-36 digits: 2^96 < 36^19. */
  lemma RandomFitsSegment()
    ensures Pow(256, RandBytes) == Two96 && Pow(16, 2 * RandBytes) == Two96
    ensures Two96 < Pow(36, RandLength)
  {
    PowHexBytes(RandBytes);
    assert Pow(256, 12) == 79228162514264337593543950336;
    PowThirtySixNineteen();
  }

  /** The largest 19-digit base-36 value needs at most 25 hex digits and 13 bytes. */
  lemma SegmentBelowTwo100()
    ensures Pow(36, RandLength) <= Pow(16, 25) && Pow(36, RandLength) <= Pow(256, 13)
  {
    PowThirtySixNineteen();
    RandomFitsSegment();
    assert Pow(16, 25) == 16 * Pow(16, 24);
    assert Pow(256, 13) == 256 * Pow(256, 12);
  }

  lemma PowThirtySixNineteen()
    ensures Pow(36, 19) == 371319292745659279662190166016
  {
    PowAdd(36, 9, 10);
    assert Pow(36, 9) == 101559956668416;
    assert Pow(36, 10) == 3656158440062976;
  }

  // ---------------------------------------------------------------------
  // GMP branch
  // ---------------------------------------------------------------------

  /**
   * `gmp_strval($n, 36)`: the lowercase base-36 digits of `n` without
   * leading zeros, and "0" for zero. `base_convert(..., 10, 36)` in the
   * timestamp segment renders whole numbers the same way.
   */
  function StrVal36(n: nat): (s: string)
    ensures IsNumeral(s, 36) && DigitsValue(s, 36) == n
    ensures |s| >= 1 && (|s| > 1 ==> s[0] != '0')
    ensures n > 0 ==> s == Digits(n, 36)
  {
    DigitsDenote(n, 36);
    DigitsNoLeadingZero(n, 36);
    if n == 0 then "0" else Digits(n, 36)
  }

  /**
   * `gmp_export($n, 1, GMP_BIG_ENDIAN)`: the shortest big-endian byte
   * string of `n`, which for zero is the empty string.
   */
  function Export(n: nat): (b: seq<Byte>)
    ensures BytesValue(b) == n
    ensures b != [] ==> b[0] != 0
    decreases n
  {
    if n == 0 then [] else Export(n / 256) + [n % 256]
  }

  /** `n` needs at most k exported bytes exactly when it is below 256^k. */
  lemma {:induction false} ExportLength(n: nat, k: nat)
    ensures |Export(n)| <= k <==> n < Pow(256, k)
  {
    if n < Pow(256, k) {
      ExportLengthUpper(n, k);
    }
    if |Export(n)| <= k {
      BytesValueBound(Export(n));
      PowMonotone(256, |Export(n)|, k);
    }
  }

  lemma {:induction false} ExportLengthUpper(n: nat, k: nat)
    requires n < Pow(256, k)
    ensures |Export(n)| <= k
    decreases k
  {
    if n > 0 {
      assert k > 0;
      ExportLengthUpper(n / 256, k - 1);
    }
  }

  // ---------------------------------------------------------------------
  // toBase36
  // ---------------------------------------------------------------------

  /**
   * What `toBase36` returns under each backend: GMP renders zero as "0",
   * the BCMath loop emits no digit at all for it.
   */
  function ToBase36Spec(backend: Backend, bytes: seq<Byte>): (s: string)
    ensures IsNumeral(s, 36) && DigitsValue(s, 36) == BytesValue(bytes)
    ensures |s| > 1 ==> s[0] != '0'
  {
    DigitsDenote(BytesValue(bytes), 36);
    DigitsNoLeadingZero(BytesValue(bytes), 36);
    match backend
    case Gmp => StrVal36(BytesValue(bytes))
    case BcMath => Digits(BytesValue(bytes), 36)
  }

  // ---------------------------------------------------------------------
  // The two BCMath loops
  // ---------------------------------------------------------------------

  /**
   * The multiply-and-add loop: starting from "0", the decimal accumulator
   * is multiplied by `base` and the value of the next character added
   * (`bcmul` then `bcadd`), so it ends holding the numeral's value.
   */
  method Accumulate(s: string, base: nat) returns (dec: nat)
    requires IsDigitString(s)
    ensures dec == DigitsValue(s, base)
  {
    dec := 0;
    for i := 0 to |s|
      invariant dec == DigitsValue(s[..i], base)
    {
      assert s[..i + 1] == s[..i] + [s[i]];
      DigitsValueSnoc(s[..i], s[i], base);
      dec := dec * base + Value(s[i]);
    }
    assert s[..|s|] == s;
  }

  /**
   * The remainder-and-divide loop: while the accumulator is positive
   * (`bccomp`), its remainder mod `base` is prepended as a digit and it is
   * divided by `base` (`bcmod`, `bcdiv`). It emits the shortest numeral,
   * and nothing at all for zero.
   */
  method Emit(n: nat, base: nat) returns (out: string)
    requires 2 <= base <= 36
    ensures out == Digits(n, base)
  {
    var dec: nat := n;
    out := "";
    while dec > 0
      invariant Digits(dec, base) + out == Digits(n, base)
      decreases dec
    {
      LastDigit(dec, base);
      DivShrinks(dec, base);
      out := [Digit(dec % base)] + out;
      dec := dec / base;
    }
  }

  /**
   * The BCMath fallback of `toBase36`: `bin2hex`, then the accumulator
   * reads the hex digits (`hexdec` of one hex digit is `value` of it),
   * then the base-36 digits are emitted.
   */
  method ToBase36BcMath(bytes: seq<Byte>) returns (out: string)
    ensures out == Digits(BytesValue(bytes), 36)
  {
    var hex := BinToHex(bytes);
    BinToHexDenotes(bytes);
    NumeralIsDigitString(hex, 16);
    var dec := Accumulate(hex, 16);
    out := Emit(dec, 36);
  }

  /** `toBase36`: one library call under GMP, the loops under BCMath. */
  method ToBase36(backend: Backend, bytes: seq<Byte>) returns (out: string)
    ensures out == ToBase36Spec(backend, bytes)
  {
    match backend
    case Gmp =>
      out := StrVal36(BytesValue(bytes));
    case BcMath =>
      out := ToBase36BcMath(bytes);
  }

  /**
   * Twelve bytes become at most 19 base-36 digits that denote their
   * value, so padding to the segment width never has to truncate.
   */
  lemma ToBase36FitsSegment(backend: Backend, bytes: seq<Byte>)
    requires |bytes| == RandBytes
    ensures |ToBase36Spec(backend, bytes)| <= RandLength
    ensures |PadLeft(ToBase36Spec(backend, bytes), RandLength, '0')| == RandLength
  {
    var n := BytesValue(bytes);
    BytesValueBound(bytes);
    RandomFitsSegment();
    DigitsLength(n, 36, RandLength);
  }

  /**
   * The two branches of `toBase36` return the same string for every
   * nonzero input; for zero GMP returns "0" and BCMath the empty string.
   */
  lemma ToBase36BranchesAgree(bytes: seq<Byte>)
    ensures BytesValue(bytes) != 0 ==>
      ToBase36Spec(Gmp, bytes) == ToBase36Spec(BcMath, bytes)
    ensures BytesValue(bytes) == 0 ==>
      ToBase36Spec(Gmp, bytes) == "0" && ToBase36Spec(BcMath, bytes) == ""
  {
  }

  /** After left-padding to the segment width the two branches coincide. */
  lemma ToBase36PaddedAgree(bytes: seq<Byte>, width: nat)
    requires width >= 1
    ensures PadLeft(ToBase36Spec(Gmp, bytes), width, '0')
         == PadLeft(ToBase36Spec(BcMath, bytes), width, '0')
  {
    if BytesValue(bytes) == 0 {
      assert ToBase36Spec(Gmp, bytes) == "0" && ToBase36Spec(BcMath, bytes) == "";
      PadLeftIsRepeat("0", width, '0');
      PadLeftIsRepeat("", width, '0');
      RepeatSnoc('0', width - 1);
      assert Repeat('0', width) + "" == Repeat('0', width);
    }
  }

  // ---------------------------------------------------------------------
  // fromBase36
  // ---------------------------------------------------------------------

  /**
   * The GMP branch of `fromBase36` once `gmp_init($str, 36)` has read the
   * numeral's value `n`: export big-endian and left-pad with zero bytes to
   * 12. A longer export is kept whole.
   */
  function GmpBytes(n: nat): (b: seq<Byte>)
    ensures |b| >= RandBytes && BytesValue(b) == n
  {
    var e := Export(n);
    PadLeftIsRepeat(e, RandBytes, 0);
    LeadingZeroBytesValue(e, if |e| < RandBytes then RandBytes - |e| else 0);
    PadLeft(e, RandBytes, 0)
  }

  /** PHP treats the strings "" and "0" as false, so `?:` replaces them. */
  predicate IsFalsy(b: seq<Byte>)
    ensures |b| > 1 ==> !IsFalsy(b)
  {
    b == [] || b == ['0' as int]
  }

  /**
   * The hex string the BCMath branch of `fromBase36` hands to `hex2bin`:
   * the hex digits of `n`, left-padded with '0' to 24 characters.
   */
  function PaddedHex(n: nat): (h: string)
    ensures |h| >= 2 * RandBytes && IsNumeral(h, 16)
    ensures DigitsValue(h, 16) == n
  {
    DigitsDenote(n, 16);
    PadNumeral(Digits(n, 16), 2 * RandBytes, 16);
    PadLeft(Digits(n, 16), 2 * RandBytes, '0')
  }

  /**
   * The BCMath branch of `fromBase36` once the accumulator holds the
   * numeral's value `n`: `hex2bin` of the padded hex, or 12 zero bytes
   * when `hex2bin` returns false (odd length) or a falsy string.
   */
  function BcMathBytes(n: nat): (b: seq<Byte>)
    ensures |b| >= RandBytes
  {
    match HexToBin(PaddedHex(n))
    case Some(b) => if IsFalsy(b) then Repeat(0 as Byte, RandBytes) else b
    case None => Repeat(0 as Byte, RandBytes)
  }

  /** What `fromBase36` returns for a numeral of value `n` under each backend. */
  function DecodeValue(backend: Backend, n: nat): (b: seq<Byte>)
    ensures |b| >= RandBytes
  {
    match backend
    case Gmp => GmpBytes(n)
    case BcMath => BcMathBytes(n)
  }

  /** What `fromBase36` returns under each backend: it depends only on the value. */
  function FromBase36Spec(backend: Backend, s: string): (b: seq<Byte>)
    requires IsDigitString(s)
    ensures |b| >= RandBytes
  {
    DecodeValue(backend, DigitsValue(s, 36))
  }

  /**
   * The BCMath fallback of `fromBase36`: the accumulator is multiplied
   * by 36 and `value` of the next character added; then the remainder
   * mod 16 is prepended as a hex digit while the accumulator is divided
   * by 16; the hex is left-padded to 24 and decoded by `hex2bin`.
   */
  method FromBase36BcMath(s: string) returns (bytes: seq<Byte>)
    requires IsDigitString(s)
    ensures bytes == BcMathBytes(DigitsValue(s, 36))
  {
    var dec := Accumulate(s, 36);
    // `dechex` of a value below 16 is `digit` of it.
    var hex := Emit(dec, 16);
    hex := PadLeft(hex, 2 * RandBytes, '0');
    var decoded := HexToBin(hex);
    if decoded.Some? && !IsFalsy(decoded.value) {
      bytes := decoded.value;
    } else {
      bytes := Repeat(0 as Byte, RandBytes);
    }
  }

  /** `fromBase36`: one library call under GMP, the loops under BCMath. */
  method FromBase36(backend: Backend, s: string) returns (bytes: seq<Byte>)
    requires IsDigitString(s)
    ensures bytes == FromBase36Spec(backend, s)
  {
    match backend
    case Gmp =>
      bytes := GmpBytes(DigitsValue(s, 36));
    case BcMath =>
      bytes := FromBase36BcMath(s);
  }

  /** Below 2^96 the padded hex is 24 digits and decodes to the 12-byte encoding. */
  lemma BcMathFits(n: nat)
    requires n < Two96
    ensures BcMathBytes(n) == FixedBytes(n, RandBytes)
    ensures BytesValue(BcMathBytes(n)) == n
  {
    var b := PaddedHexDecodes(n);
    BytesDetermined(b, n, RandBytes);
  }

  /**
   * Below 2^96 the hex digits need no more than the 24 places padded to,
   * so `hex2bin` accepts them and keeps their value in 12 bytes.
   */
  lemma PaddedHexDecodes(n: nat) returns (b: seq<Byte>)
    requires n < Two96
    ensures HexToBin(PaddedHex(n)) == Some(b)
    ensures |b| == RandBytes && BytesValue(b) == n
  {
    var h := PaddedHex(n);
    PaddedHexLength(n);
    NumeralIsHex(h);
    assert |h| == 24;
    HexPairsValue(h);
    b := HexPairs(h);
  }

  lemma PaddedHexLength(n: nat)
    requires n < Two96
    ensures |PaddedHex(n)| == 2 * RandBytes
  {
    RandomFitsSegment();
    DigitsLength(n, 16, 2 * RandBytes);
  }

  /** Below 2^96 the export needs at most 12 bytes, so padding gives exactly 12. */
  lemma GmpFits(n: nat)
    requires n < Two96
    ensures GmpBytes(n) == FixedBytes(n, RandBytes)
  {
    RandomFitsSegment();
    ExportLength(n, RandBytes);
    BytesDetermined(GmpBytes(n), n, RandBytes);
  }

  /**
   * Below 2^96 both branches of `fromBase36` return exactly the 12-byte
   * big-endian encoding of the numeral's value.
   */
  lemma FromBase36Fits(backend: Backend, s: string)
    requires IsDigitString(s) && DigitsValue(s, 36) < Two96
    ensures FromBase36Spec(backend, s) == FixedBytes(DigitsValue(s, 36), RandBytes)
    ensures |FromBase36Spec(backend, s)| == RandBytes
    ensures BytesValue(FromBase36Spec(backend, s)) == DigitsValue(s, 36)
  {
    var n := DigitsValue(s, 36);
    match backend
    case Gmp => GmpFits(n);
    case BcMath => BcMathFits(n);
  }

  /**
   * Round trip: for every 12-byte block, encoding under either backend,
   * padding to 19 characters and decoding under either backend gives the
   * block back.
   */
  lemma RoundTrip(encoder: Backend, decoder: Backend, bytes: seq<Byte>)
    requires |bytes| == RandBytes
    ensures IsDigitString(PadLeft(ToBase36Spec(encoder, bytes), RandLength, '0'))
    ensures FromBase36Spec(decoder, PadLeft(ToBase36Spec(encoder, bytes), RandLength, '0')) == bytes
  {
    var t := ToBase36Spec(encoder, bytes);
    var p := PadLeft(t, RandLength, '0');
    PadNumeral(t, RandLength, 36);
    NumeralIsDigitString(p, 36);
    BytesValueBound(bytes);
    RandomFitsSegment();
    FromBase36Fits(decoder, p);
    FixedBytesOfValue(bytes);
  }

  /** Leading '0' characters of the input do not change `fromBase36`. */
  lemma LeadingZerosIgnored(backend: Backend, s: string, k: nat)
    requires IsDigitString(s)
    ensures IsDigitString(Repeat('0', k) + s)
    ensures FromBase36Spec(backend, Repeat('0', k) + s) == FromBase36Spec(backend, s)
  {
    var z := Repeat('0', k) + s;
    forall i | 0 <= i < |z| ensures IsDigitChar(z[i]) {
      if i >= k { assert z[i] == s[i - k]; }
    }
    LeadingZerosValue(s, k, 36);
  }

  // ---------------------------------------------------------------------
  // Values of 2^96 and above
  // ---------------------------------------------------------------------

  /**
   * A 19-character segment can denote up to 36^19 - 1, above 2^96. There
   * the branches of `fromBase36` part ways: GMP keeps all 13 exported
   * bytes, while BCMath's hex has 25 digits, an odd length that `hex2bin`
   * refuses, so `?:` substitutes 12 zero bytes.
   */
  lemma BranchesDivergeAboveTwo96(n: nat)
    requires Two96 <= n < SegmentLimit
    ensures |GmpBytes(n)| == RandBytes + 1 && BytesValue(GmpBytes(n)) == n
    ensures BcMathBytes(n) == Repeat(0 as Byte, RandBytes)
  {
    SegmentBounds(n);
    GmpKeepsThirteen(n);
    BcMathOddHex(n);
  }

  /** A segment value of at least 2^96 has 13 bytes and 25 hex digits. */
  lemma SegmentBounds(n: nat)
    requires Two96 <= n < SegmentLimit
    ensures Pow(256, 12) <= n < Pow(256, 13)
    ensures Pow(16, 24) <= n < Pow(16, 25)
  {
    RandomFitsSegment();
    SegmentBelowTwo100();
    PowThirtySixNineteen();
  }

  lemma GmpKeepsThirteen(n: nat)
    requires Pow(256, 12) <= n < Pow(256, 13)
    ensures |GmpBytes(n)| == 13
  {
    ExportLength(n, 12);
    ExportLength(n, 13);
    assert |Export(n)| == 13;
  }

  lemma BcMathOddHex(n: nat)
    requires Pow(16, 24) <= n < Pow(16, 25)
    ensures BcMathBytes(n) == Repeat(0 as Byte, 12)
  {
    DigitsLength(n, 16, 24);
    DigitsLength(n, 16, 25);
    var d := Digits(n, 16);
    assert |d| == 25;
    assert PaddedHex(n) == d;
    assert HexToBin(d) == None;
  }

  /** The largest segment, nineteen 'z', denotes 36^19 - 1. */
  lemma {:induction false} AllZValue(k: nat)
    ensures IsDigitString(Repeat('z', k))
    ensures DigitsValue(Repeat('z', k), 36) == Pow(36, k) - 1
  {
    if k > 0 {
      var z := Repeat('z', k);
      assert z[..k - 1] == Repeat('z', k - 1);
      AllZValue(k - 1);
    }
  }

  /** The segment of nineteen 'z' lies in that range. */
  lemma AllZInRange()
    ensures IsDigitString(Repeat('z', RandLength))
    ensures Two96 <= DigitsValue(Repeat('z', RandLength), 36) < SegmentLimit
  {
    AllZValue(RandLength);
    PowThirtySixNineteen();
  }

  /**
   * `fromBase36` as evidently intended: exactly 12 bytes for every
   * numeral, the low 96 bits of its value, whichever backend is loaded.
   */
  function FromBase36Intended(s: string): (b: seq<Byte>)
    requires IsDigitString(s)
    ensures |b| == RandBytes
    ensures BytesValue(b) == DigitsValue(s, 36) % Two96
  {
    FixedBytesValue(DigitsValue(s, 36), RandBytes);
    RandomFitsSegment();
    FixedBytes(DigitsValue(s, 36), RandBytes)
  }

  /**
   * The intended decoder agrees with both branches as written wherever
   * they return 12 bytes, so it completes the same round trip.
   */
  lemma IntendedAgreesBelowTwo96(backend: Backend, s: string)
    requires IsDigitString(s) && DigitsValue(s, 36) < Two96
    ensures FromBase36Intended(s) == FromBase36Spec(backend, s)
  {
    FromBase36Fits(backend, s);
  }

  /** Round trip through the intended decoder, from either encoder. */
  lemma IntendedRoundTrip(encoder: Backend, bytes: seq<Byte>)
    requires |bytes| == RandBytes
    ensures IsDigitString(PadLeft(ToBase36Spec(encoder, bytes), RandLength, '0'))
    ensures FromBase36Intended(PadLeft(ToBase36Spec(encoder, bytes), RandLength, '0')) == bytes
  {
    var p := PadLeft(ToBase36Spec(encoder, bytes), RandLength, '0');
    RoundTrip(encoder, Gmp, bytes);
    PadNumeral(ToBase36Spec(encoder, bytes), RandLength, 36);
    BytesValueBound(bytes);
    RandomFitsSegment();
    IntendedAgreesBelowTwo96(Gmp, p);
  }

  // ---------------------------------------------------------------------
  // Helpers about padding numerals
  // ---------------------------------------------------------------------

  lemma NumeralIsDigitString(s: string, base: nat)
    requires IsNumeral(s, base)
    ensures IsDigitString(s)
  {
  }

  lemma NumeralIsHex(s: string)
    requires IsNumeral(s, 16)
    ensures forall i :: 0 <= i < |s| ==> IsHexChar(s[i])
  {
    forall i | 0 <= i < |s| ensures IsHexChar(s[i]) {
      assert IsDigitChar(s[i]) && Value(s[i]) < 16;
    }
  }
}

/**
 * Positional numerals: the lowercase base-36 alphabet shared by Pikaid's
 * `digit`/`value` helpers and by PHP's `dechex`/`bin2hex`, the big-endian
 * value of digit strings and of byte strings, the canonical (shortest)
 * digit string of a number, and left padding as `str_pad(..., STR_PAD_LEFT)`
 * performs it.
 */
module Numerals {

  /** A byte of a PHP binary string. */
  type Byte = x: int | 0 <= x < 256

  function Pow(b: nat, e: nat): (r: nat)
    ensures b > 0 ==> r > 0
  {
    if e == 0 then 1 else b * Pow(b, e - 1)
  }

  /** a <= b implies a * c <= b * c. */
  lemma MulMonotone(a: int, b: int, c: nat)
    requires a <= b
    ensures a * c <= b * c
  {
    assert b * c - a * c == (b - a) * c;
  }

  lemma {:induction false} PowMonotone(b: nat, e: nat, f: nat)
    requires b > 0 && e <= f
    ensures Pow(b, e) <= Pow(b, f)
  {
    if e < f {
      PowMonotone(b, e, f - 1);
      MulMonotone(1, b, Pow(b, f - 1));
    }
  }

  lemma {:induction false} PowAdd(b: nat, e: nat, f: nat)
    ensures Pow(b, e + f) == Pow(b, e) * Pow(b, f)
  {
    if f > 0 {
      PowAdd(b, e, f - 1);
      assert Pow(b, e + f) == b * Pow(b, e + (f - 1));
      MulSwap(b, Pow(b, e), Pow(b, f - 1));
    }
  }

  /** b * (x * y) == x * (b * y). */
  lemma MulSwap(b: int, x: int, y: int)
    ensures b * (x * y) == x * (b * y)
  {
  }

  /** 16^(2k) and 256^k are the same number: k bytes are 2k hex digits. */
  lemma {:induction false} PowHexBytes(k: nat)
    ensures Pow(16, 2 * k) == Pow(256, k)
  {
    if k > 0 { PowHexBytes(k - 1); }
  }

  // ---------------------------------------------------------------------
  // The alphabet
  // ---------------------------------------------------------------------

  /** One character of the class [0-9a-z]. */
  predicate IsDigitChar(c: char)
  {
    '0' <= c <= '9' || 'a' <= c <= 'z'
  }

  /** Every character of `s` is in [0-9a-z]. */
  predicate IsDigitString(s: string)
  {
    forall i :: 0 <= i < |s| ==> IsDigitChar(s[i])
  }

  lemma DigitStringConcat(a: string, b: string)
    requires IsDigitString(a) && IsDigitString(b)
    ensures IsDigitString(a + b)
  {
    var c := a + b;
    forall i | 0 <= i < |c| ensures IsDigitChar(c[i]) {
      if i < |a| { assert c[i] == a[i]; } else { assert c[i] == b[i - |a|]; }
    }
  }

  /** Every character of `s` is a digit of value below `base`. */
  predicate IsNumeral(s: string, base: nat)
  {
    forall i :: 0 <= i < |s| ==> IsDigitChar(s[i]) && Value(s[i]) < base
  }

  /**
   * `digit(int $value)`: a value below 10 becomes its decimal character,
   * anything else the letter `chr(97 + value - 10)`.
   */
  function Digit(v: nat): (c: char)
    requires v < 36
    ensures IsDigitChar(c)
    ensures Value(c) == v
  {
    if v < 10 then (48 + v) as char else (97 + v - 10) as char
  }

  /**
   * `value(string $char)`: code points below 58 count from '0', all
   * others from 'a' - 10. Characters outside [0-9a-z] get whatever number
   * that arithmetic gives them.
   */
  function Value(c: char): (v: int)
    ensures IsDigitChar(c) ==> 0 <= v < 36
    ensures IsHexChar(c) ==> 0 <= v < 16
    ensures '0' <= c <= '9' ==> v == c as int - '0' as int
    ensures 'a' <= c <= 'z' ==> v == c as int - 'a' as int + 10
  {
    if (c as int) < 58 then c as int - 48 else c as int - 87
  }

  /** `value` undoes `digit` on 0..35. */
  lemma ValueOfDigit(v: nat)
    requires v < 36
    ensures Value(Digit(v)) == v && IsDigitChar(Digit(v))
  {
  }

  /** `digit` undoes `value` on [0-9a-z], so the alphabet is a bijection. */
  lemma DigitOfValue(c: char)
    requires IsDigitChar(c)
    ensures 0 <= Value(c) < 36 && Digit(Value(c)) == c
  {
  }

  /** Two digits are the same character exactly when they are the same value. */
  lemma DigitInjective(v: nat, w: nat)
    requires v < 36 && w < 36
    ensures Digit(v) == Digit(w) <==> v == w
  {
    ValueOfDigit(v);
    ValueOfDigit(w);
  }

  // ---------------------------------------------------------------------
  // Big-endian values
  // ---------------------------------------------------------------------

  /**
   * The number a digit string denotes in `base`, most significant digit
   * first: the accumulator of the multiply-and-add loops.
   */
  function DigitsValue(s: string, base: nat): (r: int)
    ensures IsDigitString(s) ==> r >= 0
  {
    if s == [] then 0
    else DigitsValue(s[..|s| - 1], base) * base + Value(s[|s| - 1])
  }

  /** The number a byte string denotes, read big-endian (`GMP_BIG_ENDIAN`). */
  function BytesValue(b: seq<Byte>): (r: nat)
    ensures r == 0 <==> forall i :: 0 <= i < |b| ==> b[i] == 0
  {
    if b == [] then 0
    else
      var p := b[..|b| - 1];
      assert forall i :: 0 <= i < |p| ==> p[i] == b[i];
      BytesValue(p) * 256 + b[|b| - 1]
  }

  /** A numeral of `s`'s length denotes a number below base^|s|. */
  lemma {:induction false} DigitsValueBound(s: string, base: nat)
    requires base > 0 && IsNumeral(s, base)
    ensures 0 <= DigitsValue(s, base) < Pow(base, |s|)
  {
    if s != [] {
      var p := s[..|s| - 1];
      assert IsNumeral(p, base) by {
        forall i | 0 <= i < |p| ensures IsDigitChar(p[i]) && Value(p[i]) < base {
          assert p[i] == s[i];
        }
      }
      DigitsValueBound(p, base);
      assert IsDigitChar(s[|s| - 1]) && Value(s[|s| - 1]) < base;
      assert DigitsValue(s, base) == DigitsValue(p, base) * base + Value(s[|s| - 1]);
      assert Pow(base, |s|) == base * Pow(base, |p|);
      BoundStep(DigitsValue(p, base), Pow(base, |p|), Value(s[|s| - 1]), base);
    }
  }

  /** One more digit: a < q and d < base give a * base + d < base * q. */
  lemma BoundStep(a: int, q: int, d: int, base: nat)
    requires 0 <= a < q && 0 <= d < base
    ensures 0 <= a * base + d < base * q
  {
    MulMonotone(a, q - 1, base);
    assert (q - 1) * base == base * q - base;
  }

  /** n < base * q gives n / base < q. */
  lemma DivBound(n: nat, base: nat, q: nat)
    requires base > 0 && n < base * q
    ensures n / base < q
  {
    if n / base >= q {
      MulMonotone(q, n / base, base);
      DivModSplit(n, base);
    }
  }

  /** Bytes strings of length k denote numbers below 256^k. */
  lemma {:induction false} BytesValueBound(b: seq<Byte>)
    ensures BytesValue(b) < Pow(256, |b|)
  {
    if b != [] {
      BytesValueBound(b[..|b| - 1]);
    }
  }

  // ---------------------------------------------------------------------
  // Canonical digit strings
  // ---------------------------------------------------------------------

  /**
   * The shortest digit string of `n` in `base`: the digits that repeated
   * `mod`/`div` by `base` emits, least significant first, each prepended.
   * Zero has no digits at all.
   */
  function Digits(n: nat, base: nat): (s: string)
    requires 2 <= base <= 36
    ensures s == [] <==> n == 0
    ensures IsDigitString(s)
    decreases n
  {
    if n == 0 then [] else Digits(n / base, base) + [Digit(n % base)]
  }

  /** Every character of `Digits` is a digit below `base`. */
  lemma {:induction false} DigitsNumeral(n: nat, base: nat)
    requires 2 <= base <= 36
    ensures IsNumeral(Digits(n, base), base)
    decreases n
  {
    if n > 0 {
      DivShrinks(n, base);
      DigitsNumeral(n / base, base);
      LastDigit(n, base);
      NumeralSnoc(Digits(n / base, base), Digit(n % base), base);
    }
  }

  /** `Digits` is a numeral for `n`: its value gives `n` back. */
  lemma {:induction false} DigitsDenote(n: nat, base: nat)
    requires 2 <= base <= 36
    ensures IsNumeral(Digits(n, base), base)
    ensures DigitsValue(Digits(n, base), base) == n
    decreases n
  {
    DigitsNumeral(n, base);
    if n > 0 {
      DivShrinks(n, base);
      DigitsDenote(n / base, base);
      LastDigit(n, base);
      DigitsValueSnoc(Digits(n / base, base), Digit(n % base), base);
      DivModSplit(n, base);
    }
  }

  /** The last digit of a positive number's numeral is its remainder. */
  lemma LastDigit(n: nat, base: nat)
    requires 2 <= base <= 36 && n > 0
    ensures Digits(n, base) == Digits(n / base, base) + [Digit(n % base)]
    ensures IsDigitChar(Digit(n % base)) && Value(Digit(n % base)) == n % base < base
  {
    ValueOfDigit(n % base);
  }

  /** Appending a digit multiplies by the base and adds the digit's value. */
  lemma DigitsValueSnoc(p: string, c: char, base: nat)
    ensures DigitsValue(p + [c], base) == DigitsValue(p, base) * base + Value(c)
  {
    assert (p + [c])[..|p|] == p;
  }

  lemma DivShrinks(n: nat, m: nat)
    requires n > 0 && m >= 2
    ensures 0 <= n / m < n
  {
  }

  lemma DivModSplit(n: nat, m: nat)
    requires m > 0
    ensures (n / m) * m + n % m == n
  {
  }

  /** Appending a digit below `base` to a numeral gives a numeral. */
  lemma NumeralSnoc(p: string, c: char, base: nat)
    requires IsNumeral(p, base) && IsDigitChar(c) && Value(c) < base
    ensures IsNumeral(p + [c], base)
  {
    var s := p + [c];
    forall i | 0 <= i < |s| ensures IsDigitChar(s[i]) && Value(s[i]) < base {
      if i < |p| { assert s[i] == p[i]; }
    }
  }

  /** The shortest numeral never starts with the digit zero. */
  lemma {:induction false} DigitsNoLeadingZero(n: nat, base: nat)
    requires 2 <= base <= 36
    ensures Digits(n, base) != [] ==> Digits(n, base)[0] != '0'
    ensures Digits(n, base) == [] <==> n == 0
    decreases n
  {
    if n > 0 {
      DivShrinks(n, base);
      LastDigit(n, base);
      DigitsNoLeadingZero(n / base, base);
      var p := Digits(n / base, base);
      assert Digits(n, base) == p + [Digit(n % base)];
      if p == [] {
        assert n % base != 0 by {
          DivModSplit(n, base);
        }
        assert Digits(n, base)[0] == Digit(n % base);
        assert Value('0') == 0;
      } else {
        assert Digits(n, base)[0] == p[0];
      }
    }
  }

  /** `n` fits in k digits exactly when it is below base^k. */
  lemma {:induction false} DigitsLength(n: nat, base: nat, k: nat)
    requires 2 <= base <= 36
    ensures |Digits(n, base)| <= k <==> n < Pow(base, k)
  {
    if n < Pow(base, k) {
      DigitsLengthUpper(n, base, k);
    }
    if |Digits(n, base)| <= k {
      DigitsDenote(n, base);
      DigitsValueBound(Digits(n, base), base);
      PowMonotone(base, |Digits(n, base)|, k);
    }
  }

  lemma {:induction false} DigitsLengthUpper(n: nat, base: nat, k: nat)
    requires 2 <= base <= 36 && n < Pow(base, k)
    ensures |Digits(n, base)| <= k
    decreases k
  {
    if n > 0 {
      DropDigitBound(n, base, k);
      DigitsLengthUpper(n / base, base, k - 1);
      DigitsDropLast(n, base);
    }
  }

  /** Below base^k and positive: k > 0, and n / base is below base^(k-1). */
  lemma DropDigitBound(n: nat, base: nat, k: nat)
    requires 2 <= base && 0 < n < Pow(base, k)
    ensures k > 0 && n / base < Pow(base, k - 1)
  {
    DivBound(n, base, Pow(base, k - 1));
  }

  /** A positive number has one digit more than its quotient by `base`. */
  lemma DigitsDropLast(n: nat, base: nat)
    requires 2 <= base <= 36 && n > 0
    ensures |Digits(n, base)| == |Digits(n / base, base)| + 1
  {
  }

  // ---------------------------------------------------------------------
  // Left padding
  // ---------------------------------------------------------------------

  /** `k` copies of `c`, as `str_repeat` builds them. */
  function Repeat<T>(c: T, k: nat): (r: seq<T>)
    ensures |r| == k && forall i :: 0 <= i < k ==> r[i] == c
  {
    seq(k, _ => c)
  }

  /**
   * `str_pad($s, $width, $c, STR_PAD_LEFT)`: fill on the left up to `width`;
   * a longer input is returned unchanged, never truncated.
   */
  function PadLeft<T>(s: seq<T>, width: nat, c: T): (r: seq<T>)
    ensures |s| <= width ==> |r| == width
    ensures |s| > width ==> r == s
    ensures |r| >= |s| && r[|r| - |s|..] == s
    ensures forall i :: 0 <= i < |r| - |s| ==> r[i] == c
  {
    if |s| < width then Repeat(c, width - |s|) + s else s
  }

  /** Appending one more copy extends a run of copies. */
  lemma RepeatSnoc<T>(c: T, k: nat)
    ensures Repeat(c, k) + [c] == Repeat(c, k + 1)
  {
  }

  lemma PadLeftIsRepeat<T>(s: seq<T>, width: nat, c: T)
    ensures PadLeft(s, width, c) == Repeat(c, if |s| < width then width - |s| else 0) + s
  {
    if |s| >= width {
      assert Repeat(c, 0) + s == s;
    }
  }

  /** Zeros in front of a numeral keep it a numeral. */
  lemma NumeralZerosPrefix(s: string, k: nat, base: nat)
    requires IsNumeral(s, base) && base >= 1
    ensures IsNumeral(Repeat('0', k) + s, base)
  {
    var z := Repeat('0', k) + s;
    forall i | 0 <= i < |z| ensures IsDigitChar(z[i]) && Value(z[i]) < base {
      if i >= k { assert z[i] == s[i - k]; }
    }
  }

  /** Padding a numeral with '0' keeps it a numeral of the same value. */
  lemma PadNumeral(s: string, width: nat, base: nat)
    requires IsNumeral(s, base) && base >= 1
    ensures IsNumeral(PadLeft(s, width, '0'), base)
    ensures DigitsValue(PadLeft(s, width, '0'), base) == DigitsValue(s, base)
  {
    var k := if |s| < width then width - |s| else 0;
    PadLeftIsRepeat(s, width, '0');
    NumeralZerosPrefix(s, k, base);
    LeadingZerosValue(s, k, base);
  }

  /** Leading '0' characters do not change the value of a numeral. */
  lemma {:induction false} LeadingZerosValue(s: string, k: nat, base: nat)
    ensures DigitsValue(Repeat('0', k) + s, base) == DigitsValue(s, base)
    decreases |s|
  {
    var z := Repeat('0', k);
    if s == [] {
      assert z + s == z;
      ZerosValue(k, base);
    } else {
      var t := z + s;
      assert t[..|t| - 1] == z + s[..|s| - 1];
      LeadingZerosValue(s[..|s| - 1], k, base);
    }
  }

  lemma {:induction false} ZerosValue(k: nat, base: nat)
    ensures DigitsValue(Repeat('0', k), base) == 0
  {
    if k > 0 {
      var z := Repeat('0', k);
      assert z[..k - 1] == Repeat('0', k - 1);
      ZerosValue(k - 1, base);
    }
  }

  /** Leading zero bytes do not change the value of a byte string. */
  lemma {:induction false} LeadingZeroBytesValue(b: seq<Byte>, k: nat)
    ensures BytesValue(Repeat(0 as Byte, k) + b) == BytesValue(b)
    decreases |b|
  {
    var z := Repeat(0 as Byte, k);
    if b == [] {
      assert z + b == z;
      ZeroBytesValue(k);
    } else {
      var t := z + b;
      assert t[..|t| - 1] == z + b[..|b| - 1];
      LeadingZeroBytesValue(b[..|b| - 1], k);
    }
  }

  lemma {:induction false} ZeroBytesValue(k: nat)
    ensures BytesValue(Repeat(0 as Byte, k)) == 0
  {
    if k > 0 {
      var z := Repeat(0 as Byte, k);
      assert z[..k - 1] == Repeat(0 as Byte, k - 1);
      ZeroBytesValue(k - 1);
    }
  }

  // ---------------------------------------------------------------------
  // Fixed-width byte strings
  // ---------------------------------------------------------------------

  /** The low `k` bytes of `n`, big-endian. */
  function FixedBytes(n: nat, k: nat): (b: seq<Byte>)
    ensures |b| == k
  {
    if k == 0 then [] else FixedBytes(n / 256, k - 1) + [n % 256]
  }

  /** `FixedBytes` keeps `n` modulo 256^k. */
  lemma {:induction false} FixedBytesValue(n: nat, k: nat)
    ensures BytesValue(FixedBytes(n, k)) == n % Pow(256, k)
  {
    if k > 0 {
      FixedBytesValue(n / 256, k - 1);
      FixedBytesSnoc(n, k);
      ModStep(n, k);
    }
  }

  /** The last byte of `FixedBytes(n, k)` is `n % 256`, after the bytes of `n / 256`. */
  lemma FixedBytesSnoc(n: nat, k: nat)
    requires k > 0
    ensures BytesValue(FixedBytes(n, k)) == BytesValue(FixedBytes(n / 256, k - 1)) * 256 + n % 256
  {
    var r: Byte := n % 256;
    assert FixedBytes(n, k) == FixedBytes(n / 256, k - 1) + [r];
    BytesValueSnoc(FixedBytes(n / 256, k - 1), r);
  }

  /** Reducing modulo 256^k is reducing `n / 256` modulo 256^(k-1) and keeping the low byte. */
  lemma ModStep(n: nat, k: nat)
    requires k > 0
    ensures (n / 256) % Pow(256, k - 1) * 256 + n % 256 == n % Pow(256, k)
  {
    DivModNest(n, 256, Pow(256, k - 1));
    assert Pow(256, k) == 256 * Pow(256, k - 1);
  }

  /** (n / a) % b * a + n % a == n % (a * b). */
  lemma DivModNest(n: nat, a: nat, b: nat)
    requires a > 0 && b > 0
    ensures (n / a) % b * a + n % a == n % (a * b)
  {
    var q := n / a;
    var r := n % a;
    DivModSplit(n, a);
    DivModSplit(q, b);
    NestRegroup(n, a, b, q, r, q / b, q % b);
    ModUnique(n, a * b, q / b, q % b * a + r);
  }

  /** n = q a + r and q = u b + v regroup as n = u (a b) + (v a + r). */
  lemma NestRegroup(n: int, a: int, b: int, q: int, r: int, u: int, v: int)
    requires n == q * a + r && q == u * b + v
    requires 0 <= r < a && 0 <= v < b
    ensures n == (a * b) * u + (v * a + r)
    ensures 0 <= v * a + r < a * b
  {
    calc {
      n;
    ==
      (u * b + v) * a + r;
    ==
      (a * b) * u + (v * a + r);
    }
    MulMonotone(v, b - 1, a);
    assert (b - 1) * a == a * b - a;
  }

  lemma ModUnique(n: nat, m: nat, q: nat, r: nat)
    requires m > 0 && n == m * q + r && r < m
    ensures n % m == r
  {
    DivModSplit(n, m);
    RemainderUnique(m, q, r, n / m, n % m);
  }

  /** m q + r == m q' + r' with both remainders below m forces r == r'. */
  lemma RemainderUnique(m: int, q: int, r: int, q': int, r': int)
    requires m > 0 && 0 <= r < m && 0 <= r' < m
    requires m * q + r == q' * m + r'
    ensures r == r'
  {
    assert m * (q - q') == r' - r;
    if q - q' >= 1 {
      MulMonotone(1, q - q', m);
    } else if q' - q >= 1 {
      MulMonotone(1, q' - q, m);
    }
  }

  /** A byte string is the fixed-width encoding of its own value. */
  lemma {:induction false} FixedBytesOfValue(b: seq<Byte>)
    ensures FixedBytes(BytesValue(b), |b|) == b
  {
    if b != [] {
      var p := b[..|b| - 1];
      var x := b[|b| - 1];
      FixedBytesOfValue(p);
      ByteSplit(BytesValue(p), x);
      assert b == p + [x];
    }
  }

  /** A value shifted up one byte with `x` appended splits back into the two. */
  lemma ByteSplit(v: nat, x: Byte)
    ensures (v * 256 + x) / 256 == v && (v * 256 + x) % 256 == x
  {
  }

  /** Two byte strings of one length with one value are the same string. */
  lemma BytesDetermined(b: seq<Byte>, n: nat, k: nat)
    requires |b| == k && BytesValue(b) == n
    ensures b == FixedBytes(n, k)
  {
    FixedBytesOfValue(b);
  }

  // ---------------------------------------------------------------------
  // Hexadecimal rendering of bytes
  // ---------------------------------------------------------------------

  predicate IsHexChar(c: char)
  {
    '0' <= c <= '9' || 'a' <= c <= 'f'
  }

  /**
   * `bin2hex`: two lowercase hex digits per byte, high nibble first.
   * PHP's hex alphabet is `digit` restricted to 0..15.
   */
  function BinToHex(b: seq<Byte>): (h: string)
    ensures |h| == 2 * |b|
  {
    if b == [] then []
    else BinToHex(b[..|b| - 1]) + [Digit(b[|b| - 1] / 16), Digit(b[|b| - 1] % 16)]
  }

  /** `bin2hex` output is lowercase hex denoting the bytes' value. */
  lemma {:induction false} BinToHexDenotes(b: seq<Byte>)
    ensures IsNumeral(BinToHex(b), 16)
    ensures DigitsValue(BinToHex(b), 16) == BytesValue(b)
  {
    if b != [] {
      var p := b[..|b| - 1];
      var x := b[|b| - 1];
      var hp := BinToHex(p);
      var h := BinToHex(b);
      BinToHexDenotes(p);
      ValueOfDigit(x / 16);
      ValueOfDigit(x % 16);
      assert h == (hp + [Digit(x / 16)]) + [Digit(x % 16)];
      NumeralSnoc(hp, Digit(x / 16), 16);
      NumeralSnoc(hp + [Digit(x / 16)], Digit(x % 16), 16);
      HexDigitPair(h);
      assert h[..|h| - 2] == hp;
    }
  }

  /** Every character of a `bin2hex` rendering is in [0-9a-f]. */
  lemma BinToHexIsHex(b: seq<Byte>)
    ensures forall i :: 0 <= i < |BinToHex(b)| ==> IsHexChar(BinToHex(b)[i])
  {
    BinToHexDenotes(b);
    var h := BinToHex(b);
    forall i | 0 <= i < |h| ensures IsHexChar(h[i]) {
      assert IsDigitChar(h[i]) && Value(h[i]) < 16;
    }
  }

  /** Decodes an even-length run of hex digits, two per byte. */
  function HexPairs(h: string): (b: seq<Byte>)
    requires |h| % 2 == 0 && forall i :: 0 <= i < |h| ==> IsHexChar(h[i])
    ensures |b| == |h| / 2
  {
    if h == [] then []
    else HexPairs(h[..|h| - 2]) + [Value(h[|h| - 2]) * 16 + Value(h[|h| - 1])]
  }

  /**
   * `hex2bin`: `None` stands for PHP's `false`, returned for an odd length
   * or a character that is not a hex digit.
   */
  function HexToBin(h: string): (r: Option<seq<Byte>>)
    ensures r.Some? <==> |h| % 2 == 0 && forall i :: 0 <= i < |h| ==> IsHexChar(h[i])
    ensures r.Some? ==> |r.value| == |h| / 2
  {
    if |h| % 2 == 0 && forall i :: 0 <= i < |h| ==> IsHexChar(h[i]) then Some(HexPairs(h))
    else None
  }

  /** Decoding hex pairs keeps the big-endian value. */
  lemma {:induction false} HexPairsValue(h: string)
    requires |h| % 2 == 0 && forall i :: 0 <= i < |h| ==> IsHexChar(h[i])
    ensures BytesValue(HexPairs(h)) == DigitsValue(h, 16)
  {
    if h != [] {
      var p := h[..|h| - 2];
      HexPrefix(h, p);
      HexPairsValue(p);
      HexDigitPair(h);
      var x: Byte := Value(h[|h| - 2]) * 16 + Value(h[|h| - 1]);
      assert HexPairs(h) == HexPairs(p) + [x];
      BytesValueSnoc(HexPairs(p), x);
    }
  }

  /** Dropping the last two digits of an even hex string leaves one. */
  lemma HexPrefix(h: string, p: string)
    requires |h| % 2 == 0 && forall i :: 0 <= i < |h| ==> IsHexChar(h[i])
    requires h != [] && p == h[..|h| - 2]
    ensures |p| % 2 == 0 && forall i :: 0 <= i < |p| ==> IsHexChar(p[i])
  {
    assert |p| == |h| - 2;
    EvenLess2(|h|);
    forall i | 0 <= i < |p| ensures IsHexChar(p[i]) { assert p[i] == h[i]; }
  }

  /** Appending a byte multiplies by 256 and adds the byte. */
  lemma BytesValueSnoc(p: seq<Byte>, x: Byte)
    ensures BytesValue(p + [x]) == BytesValue(p) * 256 + x
  {
    assert (p + [x])[..|p|] == p;
  }

  lemma EvenLess2(n: int)
    requires n >= 2 && n % 2 == 0
    ensures (n - 2) % 2 == 0
  {
  }

  /** The last two hex digits of `h` weigh as one byte. */
  lemma HexDigitPair(h: string)
    requires |h| >= 2
    ensures DigitsValue(h, 16)
      == DigitsValue(h[..|h| - 2], 16) * 256 + (Value(h[|h| - 2]) * 16 + Value(h[|h| - 1]))
  {
    var q := h[..|h| - 1];
    assert q[..|q| - 1] == h[..|h| - 2];
  }

  datatype Option<+T> = None | Some(value: T)
}

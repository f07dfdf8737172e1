/**
 * The identifier codec of Pikaid: a pikaid is 26 lowercase base-36
 * characters, a 7-character timestamp segment (Unix seconds) followed by
 * a 19-character segment holding 12 random bytes. The clock reading and
 * the random bytes are parameters; the arbitrary-precision backend is a
 * parameter too, fixed by the caller.
 */
module Pikaid {
  import opened Numerals
  import opened Engine

  /** `LENGTH`: every pikaid has 26 characters. */
  const Length: nat := 26
  /** `TS_LENGTH`: the timestamp segment has 7 characters. */
  const TsLength: nat := 7
  /** 36^7: timestamps from this many seconds on no longer fit 7 characters. */
  const TsLimit: nat := 78364164096

  /** The error `parse` raises for a string that fails `isValid`. */
  datatype ParseError = InvalidFormat

  /** What `parse` returns: the second count and the randomness as hex. */
  datatype Parsed = Parsed(seconds: nat, randomness: string)

  datatype Result<+T, +E> = Ok(value: T) | Err(error: E)

  lemma TsLimitIsPow()
    ensures Pow(36, TsLength) == TsLimit
  {
  }

  // ---------------------------------------------------------------------
  // isValid
  // ---------------------------------------------------------------------

  /**
   * `preg_match('/^[0-9a-z]{26}$/', $id) === 1`. Without the `D` modifier
   * PCRE's `$` also matches just before a final newline, so 26 digits
   * followed by "\n" match as well.
   */
  predicate RegexMatches(id: string)
    ensures RegexMatches(id) <==>
      |id| >= Length && IsDigitString(id[..Length]) && (id[Length..] == "" || id[Length..] == "\n")
  {
    (|id| == Length && IsDigitString(id))
    || (|id| == Length + 1 && IsDigitString(id[..Length]) && id[Length] == '\n')
  }

  /** `isValid`: the `strlen` test and the regular expression, both. */
  predicate IsValid(id: string)
    ensures IsValid(id) ==> IsDigitString(id)
    ensures |id| == Length && IsDigitString(id) ==> IsValid(id)
  {
    |id| == Length && RegexMatches(id)
  }

  /**
   * `isValid` holds exactly for 26-character strings over [0-9a-z]: the
   * length test leaves no room for the trailing newline the regular
   * expression alone would let through.
   */
  lemma IsValidExactly(id: string)
    ensures IsValid(id) <==> |id| == Length && forall i :: 0 <= i < |id| ==> IsDigitChar(id[i])
  {
  }

  /** The regular expression alone accepts 26 digits plus a newline; `isValid` does not. */
  lemma LengthTestNeeded(digits: string)
    requires |digits| == Length && IsDigitString(digits)
    ensures RegexMatches(digits + "\n") && !IsValid(digits + "\n")
  {
    assert (digits + "\n")[..Length] == digits;
  }

  /**
   * The strings the test suite expects `isValid` to reject: empty, 25 and
   * 27 characters, upper case, a '!' and a trailing space.
   */
  lemma RejectsMalformed()
    ensures !IsValid("")
    ensures !IsValid(Repeat('a', 25)) && !IsValid(Repeat('a', 27))
    ensures !IsValid(Repeat('Z', 26))
    ensures !IsValid(Repeat('z', 25) + "!")
    ensures !IsValid(Repeat('0', 25) + " ")
    ensures !IsValid("invalid_pikaid_format_!!!!!!!!!!!!")
  {
    assert !IsDigitChar(Repeat('Z', 26)[0]);
    assert (Repeat('z', 25) + "!")[25] == '!';
    assert (Repeat('0', 25) + " ")[25] == ' ';
  }

  // ---------------------------------------------------------------------
  // generate
  // ---------------------------------------------------------------------

  /**
   * The timestamp segment: `base_convert` of the seconds to base 36,
   * left-padded with '0' to 7 characters. It has exactly 7 characters
   * while the seconds are below 36^7, and more from then on.
   */
  function TimestampSegment(seconds: nat): (t: string)
    ensures IsDigitString(t) && DigitsValue(t, 36) == seconds
    ensures |t| == TsLength <==> seconds < TsLimit
    ensures |t| >= TsLength
  {
    TsLimitIsPow();
    DigitsLength(seconds, 36, TsLength);
    PadNumeral(StrVal36(seconds), TsLength, 36);
    PadLeft(StrVal36(seconds), TsLength, '0')
  }

  /** The randomness segment: the digits of the bytes, left-padded with '0' to 19. */
  function RandomSegment(bytes: seq<Byte>): (r: string)
    ensures IsDigitString(r) && DigitsValue(r, 36) == BytesValue(bytes)
    ensures |r| >= RandLength
  {
    PadNumeral(ToBase36Spec(Gmp, bytes), RandLength, 36);
    PadLeft(ToBase36Spec(Gmp, bytes), RandLength, '0')
  }

  /** The identifier `generate` builds from a clock reading and a random block. */
  function PikaidOf(seconds: nat, bytes: seq<Byte>): (id: string)
    ensures IsDigitString(id) && |id| >= Length
    ensures seconds < TsLimit ==>
      DigitsValue(id[..TsLength], 36) == seconds && DigitsValue(id[TsLength..], 36) == BytesValue(bytes)
  {
    var t := TimestampSegment(seconds);
    var r := RandomSegment(bytes);
    DigitStringConcat(t, r);
    assert (t + r)[..|t|] == t && (t + r)[|t|..] == r;
    t + r
  }

  /**
   * `generate`, with `time()` as `seconds` and `random_bytes(12)` as
   * `bytes`. The result is the same under either backend.
   */
  method Generate(backend: Backend, seconds: nat, bytes: seq<Byte>) returns (id: string)
    ensures id == PikaidOf(seconds, bytes)
    ensures seconds < TsLimit && |bytes| == RandBytes ==> |id| == Length && IsValid(id)
  {
    var ts36 := StrVal36(seconds);
    ts36 := PadLeft(ts36, TsLength, '0');
    var rand36 := ToBase36(backend, bytes);
    rand36 := PadLeft(rand36, RandLength, '0');
    ToBase36PaddedAgree(bytes, RandLength);
    id := ts36 + rand36;
    if seconds < TsLimit && |bytes| == RandBytes {
      GenerateIsValid(seconds, bytes);
    }
  }

  /** Below 36^7 seconds, `generate` yields a 26-character valid pikaid. */
  lemma GenerateIsValid(seconds: nat, bytes: seq<Byte>)
    requires seconds < TsLimit && |bytes| == RandBytes
    ensures |TimestampSegment(seconds)| == TsLength
    ensures |RandomSegment(bytes)| == RandLength
    ensures |PikaidOf(seconds, bytes)| == Length && IsValid(PikaidOf(seconds, bytes))
  {
    ToBase36FitsSegment(Gmp, bytes);
    DigitStringConcat(TimestampSegment(seconds), RandomSegment(bytes));
  }

  /**
   * From 36^7 seconds on the timestamp no longer fits its segment:
   * `str_pad` does not truncate, so the identifier is longer than 26
   * characters and fails `isValid`.
   */
  lemma GenerateOverflows(seconds: nat, bytes: seq<Byte>)
    requires seconds >= TsLimit && |bytes| == RandBytes
    ensures |PikaidOf(seconds, bytes)| > Length && !IsValid(PikaidOf(seconds, bytes))
  {
    ToBase36FitsSegment(Gmp, bytes);
  }

  // ---------------------------------------------------------------------
  // parse
  // ---------------------------------------------------------------------

  /** A valid pikaid's randomness segment is 19 base-36 digits. */
  lemma ValidSegments(id: string)
    requires IsValid(id)
    ensures IsDigitString(id[..TsLength]) && IsDigitString(id[TsLength..])
    ensures |id[TsLength..]| == RandLength
    ensures DigitsValue(id[TsLength..], 36) < SegmentLimit
  {
    var r := id[TsLength..];
    assert forall i :: 0 <= i < |r| ==> r[i] == id[TsLength + i];
    DigitsValueBound(r, 36);
    PowThirtySixNineteen();
  }

  /** What `parse` returns, with the timestamp as a count of seconds. */
  function ParseSpec(backend: Backend, id: string): (r: Result<Parsed, ParseError>)
    ensures r.Err? <==> !IsValid(id)
    ensures r.Err? ==> r.error == InvalidFormat
  {
    if !IsValid(id) then Err(InvalidFormat)
    else
      ValidSegments(id);
      Ok(Parsed(DigitsValue(id[..TsLength], 36),
                BinToHex(FromBase36Spec(backend, id[TsLength..]))))
  }

  /**
   * `parse`: a string failing `isValid` is rejected before anything is
   * decoded; otherwise the string is split at character 7, the timestamp
   * is read by `base_convert` and the randomness by `fromBase36`, then
   * rendered by `bin2hex`.
   */
  method Parse(backend: Backend, id: string) returns (r: Result<Parsed, ParseError>)
    ensures r == ParseSpec(backend, id)
    ensures r.Err? <==> !IsValid(id)
  {
    if !IsValid(id) {
      return Err(InvalidFormat);
    }
    ValidSegments(id);
    var tsPart := id[..TsLength];
    var randPart := id[TsLength..];
    var seconds := DigitsValue(tsPart, 36);
    var bytes := FromBase36(backend, randPart);
    var hex := BinToHex(bytes);
    r := Ok(Parsed(seconds, hex));
  }

  /**
   * A valid pikaid parses to a second count below 36^7; when its
   * randomness segment denotes less than 2^96, the randomness is 24
   * lowercase hex characters under either backend.
   */
  lemma ParseFields(backend: Backend, id: string)
    requires IsValid(id)
    ensures ParseSpec(backend, id).Ok? && ParseSpec(backend, id).value.seconds < TsLimit
    ensures DigitsValue(id[TsLength..], 36) < Two96 ==>
      |ParseSpec(backend, id).value.randomness| == 2 * RandBytes
      && forall i :: 0 <= i < 2 * RandBytes ==> IsHexChar(ParseSpec(backend, id).value.randomness[i])
  {
    ValidSegments(id);
    var t := id[..TsLength];
    DigitsValueBound(t, 36);
    TsLimitIsPow();
    var bytes := FromBase36Spec(backend, id[TsLength..]);
    BinToHexIsHex(bytes);
    if DigitsValue(id[TsLength..], 36) < Two96 {
      FromBase36Fits(backend, id[TsLength..]);
    }
  }

  /**
   * Parsing what `generate` produced gives back the clock reading and
   * the random block (as `bin2hex`), under either backend.
   */
  lemma ParseGenerate(backend: Backend, seconds: nat, bytes: seq<Byte>)
    requires seconds < TsLimit && |bytes| == RandBytes
    ensures ParseSpec(backend, PikaidOf(seconds, bytes)) == Ok(Parsed(seconds, BinToHex(bytes)))
  {
    GenerateIsValid(seconds, bytes);
    var t, r := TimestampSegment(seconds), RandomSegment(bytes);
    var id := t + r;
    assert id[..TsLength] == t;
    assert id[TsLength..] == r;
    RoundTrip(Gmp, backend, bytes);
  }

  /** `bin2hex` of zero bytes is all '0'. */
  lemma {:induction false} ZeroBytesHex(k: nat)
    ensures BinToHex(Repeat(0 as Byte, k)) == Repeat('0', 2 * k)
  {
    if k > 0 {
      var z := Repeat(0 as Byte, k);
      assert z[..k - 1] == Repeat(0 as Byte, k - 1);
      ZeroBytesHex(k - 1);
      assert Repeat('0', 2 * (k - 1)) + ['0', '0'] == Repeat('0', 2 * k);
    }
  }

  /** Zero renders as the one digit "0", which pads to a run of '0'. */
  lemma ZeroSegment(width: nat)
    requires width >= 1
    ensures PadLeft(StrVal36(0), width, '0') == Repeat('0', width)
  {
    PadLeftIsRepeat("0", width, '0');
    RepeatSnoc('0', width - 1);
  }

  /** The epoch with no randomness is the pikaid of 26 '0' characters. */
  lemma EpochId()
    ensures PikaidOf(0, Repeat(0 as Byte, RandBytes)) == Repeat('0', Length)
  {
    var z := Repeat(0 as Byte, RandBytes);
    ZeroBytesValue(RandBytes);
    assert ToBase36Spec(Gmp, z) == StrVal36(0);
    ZeroSegment(TsLength);
    ZeroSegment(RandLength);
    assert Repeat('0', TsLength) + Repeat('0', RandLength) == Repeat('0', Length);
  }

  /** 26 '0' characters parse to 0 seconds and 24 '0' hex characters. */
  lemma EpochExample(backend: Backend)
    ensures ParseSpec(backend, Repeat('0', Length)) == Ok(Parsed(0, Repeat('0', 2 * RandBytes)))
  {
    EpochId();
    ZeroBytesHex(RandBytes);
    ParseGenerate(backend, 0, Repeat(0 as Byte, RandBytes));
  }

  /** 36^7 - 1 seconds with no randomness parses back to exactly 36^7 - 1. */
  lemma MaxSecondsExample(backend: Backend)
    ensures ParseSpec(backend, PikaidOf(TsLimit - 1, Repeat(0 as Byte, RandBytes)))
         == Ok(Parsed(TsLimit - 1, Repeat('0', 2 * RandBytes)))
  {
    ZeroBytesHex(RandBytes);
    ParseGenerate(backend, TsLimit - 1, Repeat(0 as Byte, RandBytes));
  }

  /**
   * A valid pikaid whose randomness segment denotes 2^96 or more parses
   * differently under the two backends: 26 hex characters under GMP ...
   */
  lemma ParseGmpAboveTwo96(id: string)
    requires IsValid(id)
    requires DigitsValue(id[TsLength..], 36) >= Two96
    ensures |ParseSpec(Gmp, id).value.randomness| == 2 * RandBytes + 2
  {
    ValidSegments(id);
    BranchesDivergeAboveTwo96(DigitsValue(id[TsLength..], 36));
  }

  lemma ZeroHexAboveTwo96(s: string)
    requires IsDigitString(s) && Two96 <= DigitsValue(s, 36) < SegmentLimit
    ensures BinToHex(FromBase36Spec(BcMath, s)) == Repeat('0', 2 * RandBytes)
  {
    BranchesDivergeAboveTwo96(DigitsValue(s, 36));
    ZeroBytesHex(RandBytes);
  }

  /** ... and 24 '0' characters under BCMath. */
  lemma ParseBcMathAboveTwo96(id: string)
    requires IsValid(id)
    requires DigitsValue(id[TsLength..], 36) >= Two96
    ensures ParseSpec(BcMath, id).value.randomness == Repeat('0', 2 * RandBytes)
  {
    ValidSegments(id);
    ZeroHexAboveTwo96(id[TsLength..]);
  }

  // ---------------------------------------------------------------------
  // parse with the intended fromBase36
  // ---------------------------------------------------------------------

  /**
   * `parse` as evidently intended: the randomness segment is read by
   * `FromBase36Intended`, so every valid pikaid yields 24 hex characters.
   */
  function ParseIntended(id: string): (r: Result<Parsed, ParseError>)
    ensures r.Err? <==> !IsValid(id)
    ensures r.Ok? ==> r.value.seconds < TsLimit
    ensures r.Ok? ==> |r.value.randomness| == 2 * RandBytes
    ensures r.Ok? ==> forall i :: 0 <= i < |r.value.randomness| ==> IsHexChar(r.value.randomness[i])
  {
    if !IsValid(id) then Err(InvalidFormat)
    else
      ValidSegments(id);
      DigitsValueBound(id[..TsLength], 36);
      TsLimitIsPow();
      BinToHexIsHex(FromBase36Intended(id[TsLength..]));
      Ok(Parsed(DigitsValue(id[..TsLength], 36), BinToHex(FromBase36Intended(id[TsLength..]))))
  }

  /** Below 2^96 the intended `parse` agrees with `parse` as written, under either backend. */
  lemma ParseIntendedAgrees(backend: Backend, id: string)
    requires IsValid(id) && DigitsValue(id[TsLength..], 36) < Two96
    ensures ParseIntended(id) == ParseSpec(backend, id)
  {
    ValidSegments(id);
    IntendedAgreesBelowTwo96(backend, id[TsLength..]);
  }

  /** The intended `parse` gives back what `generate` encoded. */
  lemma ParseIntendedGenerate(seconds: nat, bytes: seq<Byte>)
    requires seconds < TsLimit && |bytes| == RandBytes
    ensures ParseIntended(PikaidOf(seconds, bytes)) == Ok(Parsed(seconds, BinToHex(bytes)))
  {
    var id := PikaidOf(seconds, bytes);
    ParseGenerate(Gmp, seconds, bytes);
    GenerateIsValid(seconds, bytes);
    assert id[TsLength..] == RandomSegment(bytes);
    BytesValueBound(bytes);
    RandomFitsSegment();
    ParseIntendedAgrees(Gmp, id);
  }
}

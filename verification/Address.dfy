/** Account addresses and their repair into `0x` followed by 64 hex digits (reps/address.rs). */
module Address {
  import opened Wrappers

  const ADDRESS_PREFIX := "0x"
  const ADDRESS_FORMATTED_LENGTH: nat := 64
  const NUMBER_ATTEMPTS: nat := 10

  type Byte = b: int | 0 <= b < 256

  datatype Address = Bytes(bytes: seq<Byte>) | String(text: string)

  datatype AddressErrorType =
    | MissingPrefix
    | TooLong(length: nat)
    | TooShort(length: nat)
    | NonHexChars(chars: string)

  predicate IsHexDigit(c: char) {
    '0' <= c <= '9' || 'a' <= c <= 'f' || 'A' <= c <= 'F'
  }

  predicate AllHex(s: string) {
    forall i :: 0 <= i < |s| ==> IsHexDigit(s[i])
  }

  /** Number of bytes of c in UTF-8: Rust's `len` counts bytes, its formatter pads by characters. */
  function Utf8Length(c: char): nat {
    if c < 0x80 as char then 1 else if c < 0x800 as char then 2 else if c < 0x1_0000 as char then 3 else 4
  }

  function ByteLength(s: string): (n: nat)
    ensures n >= |s|
    ensures AllHex(s) ==> n == |s|
  {
    if s == "" then 0 else Utf8Length(s[0]) + ByteLength(s[1..])
  }

  function NonHex(s: string): string {
    if s == "" then "" else (if IsHexDigit(s[0]) then "" else [s[0]]) + NonHex(s[1..])
  }

  function StripPrefix(s: string): string {
    if ADDRESS_PREFIX <= s then s[|ADDRESS_PREFIX|..] else s
  }

  /** `format!("0x{:0>64}", digits)`. */
  function Pad(digits: string): string {
    if |digits| >= ADDRESS_FORMATTED_LENGTH then digits
    else seq(ADDRESS_FORMATTED_LENGTH - |digits|, _ => '0') + digits
  }

  function ValidateString(s: string): Result<(), AddressErrorType> {
    var expected := ADDRESS_FORMATTED_LENGTH + |ADDRESS_PREFIX|;
    if !(ADDRESS_PREFIX <= s) then Failure(MissingPrefix)
    else if ByteLength(s) < expected then Failure(TooShort(ByteLength(s)))
    else if ByteLength(s) > expected then Failure(TooLong(ByteLength(s)))
    else if !AllHex(StripPrefix(s)) then Failure(NonHexChars(NonHex(s)))
    else Success(())
  }

  /** What repair must produce: the digits padded to 64, or the reason they cannot be an address. */
  function Fixed(s: string): Result<string, AddressErrorType> {
    var candidate :=
      if ADDRESS_PREFIX <= s && ByteLength(s) >= ADDRESS_FORMATTED_LENGTH + |ADDRESS_PREFIX| then s
      else ADDRESS_PREFIX + Pad(StripPrefix(s));
    var _ :- ValidateString(candidate);
    Success(candidate)
  }

  lemma {:induction false} ByteLengthOfPrefixed(digits: string)
    ensures ByteLength(ADDRESS_PREFIX + digits) == 2 + ByteLength(digits)
  {
    var s := ADDRESS_PREFIX + digits;
    assert s[1..] == "x" + digits;
    assert s[1..][1..] == digits;
    assert ByteLength(s) == 1 + ByteLength(s[1..]);
  }

  /** A padded candidate has the prefix and is never too short, whatever characters it holds. */
  lemma {:induction false} PaddedIsLongEnough(digits: string)
    ensures ADDRESS_PREFIX <= ADDRESS_PREFIX + Pad(digits)
    ensures ByteLength(ADDRESS_PREFIX + Pad(digits)) >= ADDRESS_FORMATTED_LENGTH + |ADDRESS_PREFIX|
    ensures StripPrefix(ADDRESS_PREFIX + Pad(digits)) == Pad(digits)
  {
    ByteLengthOfPrefixed(Pad(digits));
  }

  /** The repair loop. Two validations always suffice, so its `unreachable!` is never hit. */
  method TryFixString(s: string) returns (r: Result<string, AddressErrorType>, validations: nat)
    ensures r == Fixed(s)
    ensures 1 <= validations <= 2
  {
    var address := s;
    r, validations := Failure(MissingPrefix), 0;
    for attempt := 0 to NUMBER_ATTEMPTS
      invariant validations == attempt <= 1
      invariant attempt == 0 ==> address == s
      invariant attempt == 1 ==>
        && address == ADDRESS_PREFIX + Pad(StripPrefix(s))
        && Fixed(s) == (match ValidateString(address) case Success(_) => Success(address) case Failure(e) => Failure(e))
    {
      PaddedIsLongEnough(StripPrefix(s));
      validations := validations + 1;
      match ValidateString(address)
      case Success(_) =>
        return Success(address), validations;
      case Failure(MissingPrefix) =>
        address := ADDRESS_PREFIX + Pad(address);
      case Failure(TooShort(_)) =>
        address := ADDRESS_PREFIX + Pad(StripPrefix(s));
      case Failure(e) =>
        return Failure(e), validations;
    }
    assert false;
  }

  lemma {:induction false} ValidExactly(digits: string)
    ensures ValidateString(ADDRESS_PREFIX + digits).Success? <==> AllHex(digits) && |digits| == ADDRESS_FORMATTED_LENGTH
  {
    ByteLengthOfPrefixed(digits);
    assert StripPrefix(ADDRESS_PREFIX + digits) == digits;
  }

  lemma {:induction false} PadIsHexExactly(digits: string)
    ensures AllHex(Pad(digits)) <==> AllHex(digits)
  {
    var p := Pad(digits);
    assert forall i :: 0 <= i < |digits| ==> digits[i] == p[|p| - |digits| + i];
  }

  /** Repair succeeds exactly on at most 64 hex digits, with or without the prefix, and yields 66 characters. */
  lemma {:induction false} FixedSucceedsExactly(s: string)
    ensures Fixed(s).Success? <==> AllHex(StripPrefix(s)) && |StripPrefix(s)| <= ADDRESS_FORMATTED_LENGTH
    ensures Fixed(s).Success? ==> Fixed(s).value == ADDRESS_PREFIX + Pad(StripPrefix(s)) && |Fixed(s).value| == 66
  {
    var digits := StripPrefix(s);
    ValidExactly(digits);
    ValidExactly(Pad(digits));
    PadIsHexExactly(digits);
    if ADDRESS_PREFIX <= s {
      assert s == ADDRESS_PREFIX + digits;
      ByteLengthOfPrefixed(digits);
    }
  }

  /** A failed repair never blames a missing prefix or a short string. */
  lemma {:induction false} FixedNeverBlamesPadding(s: string)
    ensures Fixed(s).Failure? ==> Fixed(s).error.TooLong? || Fixed(s).error.NonHexChars?
  {
    PaddedIsLongEnough(StripPrefix(s));
  }

  /** The hex digits, small and capital. */
  lemma {:induction false} HexDigits(c: char)
    ensures IsHexDigit(c) <==> c in "0123456789abcdefABCDEF"
  {
    if IsHexDigit(c) {
      var digits := "0123456789abcdefABCDEF";
      assert c == digits[if c <= '9' then c as int - '0' as int else if c >= 'a' then c as int - 'a' as int + 10 else c as int - 'A' as int + 16];
    }
  }

  /** How many characters n bytes of UTF-8 can tell apart. */
  function Utf8Capacity(n: nat): nat
    requires 1 <= n <= 4
  {
    if n == 1 then 128 else if n == 2 then 2048 else if n == 3 then 65536 else 1114112
  }

  /** A character takes the fewest bytes that can hold it. */
  lemma {:induction false} Utf8LengthIsLeast(c: char)
    ensures 1 <= Utf8Length(c) <= 4 && c as int < Utf8Capacity(Utf8Length(c))
    ensures Utf8Length(c) > 1 ==> c as int >= Utf8Capacity(Utf8Length(c) - 1)
  {
  }

  /** A refused address is too long in bytes, or it is long enough and the error names its characters that are no digits, each
      as often as it occurs. */
  lemma {:induction false} FixedErrorsExactly(s: string)
    requires Fixed(s).Failure?
    ensures
      var candidate := if ADDRESS_PREFIX <= s && ByteLength(s) >= 66 then s else "0x" + Pad(StripPrefix(s));
      && (Fixed(s).error.TooLong? <==> ByteLength(candidate) > 66)
      && (Fixed(s).error.TooLong? ==> Fixed(s).error.length == ByteLength(candidate))
      && (Fixed(s).error.NonHexChars? ==>
            forall c :: multiset(Fixed(s).error.chars)[c] == if IsHexDigit(c) then 0 else multiset(candidate)[c])
  {
    hide NonHex, IsHexDigit;
    var candidate := if ADDRESS_PREFIX <= s && ByteLength(s) >= 66 then s else "0x" + Pad(StripPrefix(s));
    PaddedIsLongEnough(StripPrefix(s));
    forall c ensures multiset(NonHex(candidate))[c] == if IsHexDigit(c) then 0 else multiset(candidate)[c] {
      NonHexCounts(candidate, c);
    }
  }

  lemma {:induction false} NonHexCounts(s: string, c: char)
    ensures multiset(NonHex(s))[c] == if IsHexDigit(c) then 0 else multiset(s)[c]
  {
    hide IsHexDigit;
    if s != "" {
      NonHexCounts(s[1..], c);
      assert s == [s[0]] + s[1..];
    }
  }

  lemma {:induction false} FixedIsIdempotent(s: string)
    requires Fixed(s).Success?
    ensures Fixed(Fixed(s).value) == Fixed(s)
  {
    FixedSucceedsExactly(s);
    PaddedIsLongEnough(StripPrefix(s));
    FixedSucceedsExactly(Fixed(s).value);
  }

  function HexDigitValue(c: char): nat
    requires IsHexDigit(c)
  {
    if c <= '9' then c as int - '0' as int
    else if c >= 'a' then 10 + (c as int - 'a' as int)
    else 10 + (c as int - 'A' as int)
  }

  function HexValue(s: string): nat
    requires AllHex(s)
  {
    if s == "" then 0 else 16 * HexValue(s[..|s| - 1]) + HexDigitValue(s[|s| - 1])
  }

  function DropZeros(s: string): string {
    if s != "" && s[0] == '0' then DropZeros(s[1..]) else s
  }

  lemma {:induction false} LeadingZero(s: string)
    requires AllHex(s)
    ensures AllHex("0" + s) && HexValue("0" + s) == HexValue(s)
  {
    var z := "0" + s;
    if s == "" {
      assert z[..0] == "";
    } else {
      LeadingZero(s[..|s| - 1]);
      assert z[..|z| - 1] == "0" + s[..|s| - 1];
    }
  }

  lemma {:induction false} PadKeepsValue(digits: string)
    requires AllHex(digits)
    ensures AllHex(Pad(digits)) && HexValue(Pad(digits)) == HexValue(digits)
    ensures DropZeros(Pad(digits)) == DropZeros(digits)
    decreases ADDRESS_FORMATTED_LENGTH - |digits|
  {
    if |digits| < ADDRESS_FORMATTED_LENGTH {
      LeadingZero(digits);
      PadKeepsValue("0" + digits);
      assert Pad(digits) == Pad("0" + digits);
      assert ("0" + digits)[1..] == digits;
    }
  }

  /** Repair keeps the number the hex digits denote. */
  lemma {:induction false} FixedKeepsValue(s: string)
    requires Fixed(s).Success?
    ensures AllHex(StripPrefix(s)) && AllHex(StripPrefix(Fixed(s).value))
    ensures HexValue(StripPrefix(Fixed(s).value)) == HexValue(StripPrefix(s))
  {
    FixedSucceedsExactly(s);
    PaddedIsLongEnough(StripPrefix(s));
    PadKeepsValue(StripPrefix(s));
  }

  lemma {:induction false} SameAfterZeros(a: string, b: string)
    requires |a| == |b| && DropZeros(a) == DropZeros(b)
    ensures a == b
  {
    if a != "" {
      DropZerosShortens(a);
      DropZerosShortens(b);
      if a[0] == '0' && b[0] == '0' {
        SameAfterZeros(a[1..], b[1..]);
        assert a == [a[0]] + a[1..] && b == [b[0]] + b[1..];
      }
    }
  }

  lemma {:induction false} DropZerosShortens(s: string)
    ensures |DropZeros(s)| <= |s|
    ensures s != "" && s[0] == '0' ==> |DropZeros(s)| < |s|
  {
    if s != "" && s[0] == '0' {
      DropZerosShortens(s[1..]);
    }
  }

  /** Two repairable texts name one address exactly when their digits agree up to leading zeros. */
  lemma {:induction false} FixedAgreeExactly(a: string, b: string)
    requires Fixed(a).Success? && Fixed(b).Success?
    ensures Fixed(a) == Fixed(b) <==> DropZeros(StripPrefix(a)) == DropZeros(StripPrefix(b))
  {
    FixedSucceedsExactly(a);
    FixedSucceedsExactly(b);
    var p, q := Pad(StripPrefix(a)), Pad(StripPrefix(b));
    PaddedIsLongEnough(StripPrefix(a));
    PaddedIsLongEnough(StripPrefix(b));
    PadKeepsValue(StripPrefix(a));
    PadKeepsValue(StripPrefix(b));
    if DropZeros(p) == DropZeros(q) {
      SameAfterZeros(p, q);
    }
  }

  function HexDigit(n: nat): char
    requires n < 16
  {
    if n < 10 then ('0' as int + n) as char else ('a' as int + (n - 10)) as char
  }

  /** `hex::encode`. */
  function HexEncode(bytes: seq<Byte>): (s: string)
    ensures |s| == 2 * |bytes| && AllHex(s)
  {
    if bytes == [] then "" else [HexDigit(bytes[0] / 16), HexDigit(bytes[0] % 16)] + HexEncode(bytes[1..])
  }

  /** The number that bytes denote, most significant first. */
  function BigEndian(bytes: seq<Byte>): nat {
    if bytes == [] then 0 else 256 * BigEndian(bytes[..|bytes| - 1]) + bytes[|bytes| - 1]
  }

  lemma {:induction false} HexEncodePush(bytes: seq<Byte>, b: Byte)
    ensures HexEncode(bytes + [b]) == HexEncode(bytes) + [HexDigit(b / 16), HexDigit(b % 16)]
  {
    if bytes == [] {
      assert [b][1..] == [];
    } else {
      HexEncodePush(bytes[1..], b);
      assert (bytes + [b])[1..] == bytes[1..] + [b];
    }
  }

  /** Hexadecimal text reads as the number the bytes denote, and its letters are small. */
  lemma {:induction false} HexEncodeKeepsValue(bytes: seq<Byte>)
    ensures HexValue(HexEncode(bytes)) == BigEndian(bytes)
    ensures forall c :: c in HexEncode(bytes) ==> '0' <= c <= '9' || 'a' <= c <= 'f'
  {
    if bytes != [] {
      var n := |bytes| - 1;
      var s, b := HexEncode(bytes[..n]), bytes[n];
      HexEncodeKeepsValue(bytes[..n]);
      HexEncodePush(bytes[..n], b);
      assert bytes == bytes[..n] + [b];
      var t := s + [HexDigit(b / 16)];
      assert s + [HexDigit(b / 16), HexDigit(b % 16)] == t + [HexDigit(b % 16)];
      assert (t + [HexDigit(b % 16)])[..|t|] == t && t[..|s|] == s;
      assert HexValue(t) == 16 * HexValue(s) + b / 16;
    }
  }

  /** `Address::try_encode`; the error's copy of the address is not kept. */
  function Encode(address: Address): Result<string, AddressErrorType> {
    match address
    case Bytes(bytes) => Fixed(HexEncode(bytes))
    case String(text) => Fixed(text)
  }

  lemma {:induction false} HexEncodeInjective(a: seq<Byte>, b: seq<Byte>)
    requires |a| == |b| && HexEncode(a) == HexEncode(b)
    ensures a == b
  {
    if a != [] {
      var x, y := HexEncode(a), HexEncode(b);
      assert x[0] == HexDigit(a[0] / 16) && x[1] == HexDigit(a[0] % 16);
      assert y[0] == HexDigit(b[0] / 16) && y[1] == HexDigit(b[0] % 16);
      assert x[2..] == HexEncode(a[1..]) && y[2..] == HexEncode(b[1..]);
      HexEncodeInjective(a[1..], b[1..]);
      assert a == [a[0]] + a[1..] && b == [b[0]] + b[1..];
    }
  }

  /** A byte address encodes exactly when it has at most 32 bytes, and same-length ones stay distinct. */
  lemma {:induction false} BytesEncodeExactly(a: seq<Byte>, b: seq<Byte>)
    ensures Encode(Bytes(a)).Success? <==> |a| <= 32
    ensures |a| == |b| <= 32 && Encode(Bytes(a)) == Encode(Bytes(b)) ==> a == b
  {
    var x, y := HexEncode(a), HexEncode(b);
    assert |x| > 1 ==> IsHexDigit(x[1]);
    assert |y| > 1 ==> IsHexDigit(y[1]);
    FixedSucceedsExactly(x);
    FixedSucceedsExactly(y);
    if |a| == |b| <= 32 && Encode(Bytes(a)) == Encode(Bytes(b)) {
      PaddedIsLongEnough(x);
      PaddedIsLongEnough(y);
      assert x == Pad(x)[64 - |x|..] && y == Pad(y)[64 - |y|..];
      HexEncodeInjective(a, b);
    }
  }
}

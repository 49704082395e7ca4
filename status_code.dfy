/**
 * `statusToString`: an `OSStatus` shown as its four-character code.  The
 * 32-bit code is cut into four bytes, most significant first, the bytes are
 * NUL-terminated in a five-byte array, and Foundation turns that C string
 * into text.
 */
module StatusCode {
  import opened CStrings

  const TwoTo31: int := 0x8000_0000
  const TwoTo32: int := 0x1_0000_0000

  /** `OSStatus` is a signed 32-bit integer. */
  type OSStatus = x: int | -TwoTo31 <= x < TwoTo31

  /** Place value of byte `i` of a four-character code, byte 0 the most significant. */
  function Weight(i: nat): (w: int)
    requires i < 4
    ensures w > 0
  {
    if i == 0 then 0x100_0000 else if i == 1 then 0x1_0000 else if i == 2 then 0x100 else 1
  }

  /**
   * `(code >> 8 * (3 - i)) & 0xff`.  Shifting a negative signed value right is
   * an arithmetic shift with the compilers the project builds with, which is
   * division rounding down; masking a two's-complement value with 0xff keeps
   * its remainder modulo 256, never negative.  Dafny's `/` and `%` by a
   * positive divisor round down and give that remainder.
   */
  function ShiftMask(code: OSStatus, i: nat): (b: Byte)
    requires i < 4
    ensures b == Unsigned(code) / Weight(i) % 256
  {
    ShiftMaskIsUnsignedByte(code, i);
    (code / Weight(i)) % 256
  }

  /** The 32-bit pattern of `code` read as an unsigned number. */
  function Unsigned(code: OSStatus): (u: int)
    ensures 0 <= u < TwoTo32
    ensures u == code || u == code + TwoTo32
    ensures u == code % TwoTo32
  {
    if code < 0 then code + TwoTo32 else code
  }

  /** Shift then mask gives the byte of the unsigned pattern: the sign does not leak in. */
  lemma ShiftMaskIsUnsignedByte(code: OSStatus, i: nat)
    requires i < 4
    ensures (code / Weight(i)) % 256 == Unsigned(code) / Weight(i) % 256
  {
    if code < 0 {
      var u := code + TwoTo32;
      if i == 0 {
        assert u / 0x100_0000 == code / 0x100_0000 + 256;
        ModAddMultiple(code / 0x100_0000, 1);
      } else if i == 1 {
        assert u / 0x1_0000 == code / 0x1_0000 + 256 * 0x100;
        ModAddMultiple(code / 0x1_0000, 0x100);
      } else if i == 2 {
        assert u / 0x100 == code / 0x100 + 256 * 0x1_0000;
        ModAddMultiple(code / 0x100, 0x1_0000);
      } else {
        ModAddMultiple(code, 0x100_0000);
      }
    }
  }

  /** Adding a multiple of 256 leaves the low byte alone. */
  lemma ModAddMultiple(a: int, m: int)
    ensures (a + 256 * m) % 256 == a % 256
  {
  }

  /** The four bytes stored in `s[0..3]`, most significant first. */
  function StatusBytes(code: OSStatus): (bytes: seq<Byte>)
    ensures |bytes| == 4
    ensures forall i :: 0 <= i < 4 ==> bytes[i] == Unsigned(code) / Weight(i) % 256
  {
    [ShiftMask(code, 0), ShiftMask(code, 1), ShiftMask(code, 2), ShiftMask(code, 3)]
  }

  /** The number a four-byte code spells, most significant byte first. */
  function Combine(bytes: seq<Byte>): (u: int)
    requires |bytes| == 4
    ensures 0 <= u < TwoTo32
  {
    (bytes[0] as int) * 0x100_0000 + (bytes[1] as int) * 0x1_0000 + (bytes[2] as int) * 0x100 + bytes[3]
  }

  /** The OSStatus whose bit pattern a four-byte code spells: a C four-character constant. */
  function FromBytes(bytes: seq<Byte>): (code: OSStatus)
    requires |bytes| == 4
    ensures Unsigned(code) == Combine(bytes)
  {
    var u := Combine(bytes);
    if u < TwoTo31 then u else u - TwoTo32
  }

  /** The four bytes put back together give the code modulo 2^32. */
  lemma CombineStatusBytes(code: OSStatus)
    ensures Combine(StatusBytes(code)) == Unsigned(code) == code % TwoTo32
  {
    var b := StatusBytes(code);
    ByteDigitsCombine(Unsigned(code), b[0], b[1], b[2], b[3]);
  }

  /** A number below 2^32 is the sum of its base-256 digits times their place values. */
  lemma ByteDigitsCombine(u: int, b0: int, b1: int, b2: int, b3: int)
    requires 0 <= u < TwoTo32
    requires b0 == u / 0x100_0000 % 256 && b1 == u / 0x1_0000 % 256
    requires b2 == u / 0x100 % 256 && b3 == u % 256
    ensures b0 * 0x100_0000 + b1 * 0x1_0000 + b2 * 0x100 + b3 == u
  {
    var a, b, c := u / 0x100, u / 0x1_0000, u / 0x100_0000;
    assert u == a * 256 + u % 256;
    assert b == a / 256;
    assert a == b * 256 + a % 256;
    assert c == b / 256;
    assert b == c * 256 + b % 256;
  }

  /** Splitting the code a four-byte sequence spells gives back that sequence. */
  lemma StatusBytesOfFromBytes(bytes: seq<Byte>)
    requires |bytes| == 4
    ensures StatusBytes(FromBytes(bytes)) == bytes
  {
    var b := StatusBytes(FromBytes(bytes));
    ByteDigitsSplit(bytes[0], bytes[1], bytes[2], bytes[3]);
    assert b[0] == bytes[0] && b[1] == bytes[1] && b[2] == bytes[2] && b[3] == bytes[3];
  }

  /** Each base-256 digit of a number below 2^32 is recovered by shifting and masking. */
  lemma ByteDigitsSplit(b0: Byte, b1: Byte, b2: Byte, b3: Byte)
    ensures var u := (b0 as int) * 0x100_0000 + (b1 as int) * 0x1_0000 + (b2 as int) * 0x100 + b3;
      u / 0x100_0000 % 256 == b0 && u / 0x1_0000 % 256 == b1 && u / 0x100 % 256 == b2 && u % 256 == b3
  {
    var u := (b0 as int) * 0x100_0000 + (b1 as int) * 0x1_0000 + (b2 as int) * 0x100 + b3;
    assert u / 0x100_0000 == b0;
    assert u / 0x1_0000 == (b0 as int) * 0x100 + b1;
    assert u / 0x100 == (b0 as int) * 0x1_0000 + (b1 as int) * 0x100 + b2;
  }

  /** Different codes show different bytes: the split loses nothing. */
  lemma FromBytesOfStatusBytes(code: OSStatus)
    ensures FromBytes(StatusBytes(code)) == code
  {
    CombineStatusBytes(code);
  }

  /**
   * `statusToString(code)`: the five-byte array of the code's bytes and a
   * NUL, handed to `stringWithUTF8String:`.  The text is the code's bytes up
   * to the first zero byte, so at most four characters.
   */
  function StatusToString(code: OSStatus): (r: NSText)
    ensures |TextCodes(r)| <= 4
    ensures forall i :: 0 <= i < |TextCodes(r)| ==> TextCodes(r)[i] == StatusBytes(code)[i] != NUL
    ensures |TextCodes(r)| < 4 ==> StatusBytes(code)[|TextCodes(r)|] == NUL
    ensures r.Ascii? <==> forall i :: 0 <= i < |TextCodes(r)| ==> TextCodes(r)[i] <= AsciiMax
  {
    var s := StatusBytes(code) + [NUL];
    var c := CStr(s);
    assert s[4] == NUL;
    assert |c| <= 4;
    assert forall i :: 0 <= i < |c| ==> c[i] == StatusBytes(code)[i] != NUL by {
      forall i | 0 <= i < |c|
        ensures c[i] == StatusBytes(code)[i] != NUL
      {
        assert c[i] == s[i] by { assert c <= s; }
      }
    }
    FromCString(s)
  }

  /** A printable 7-bit ASCII code, from the space to the tilde. */
  predicate IsPrintable(c: int) {
    0x20 <= c <= 0x7e
  }

  /** A code whose four bytes are printable ASCII shows as exactly those four characters, in order. */
  lemma StatusToStringPrintable(code: OSStatus)
    requires forall i :: 0 <= i < 4 ==> IsPrintable(StatusBytes(code)[i])
    ensures StatusToString(code).Ascii?
    ensures Codes(StatusToString(code).text) == StatusBytes(code)
  {
    var b := StatusBytes(code);
    CStrAppend(b, [NUL]);
    assert CStr([NUL]) == [];
    assert CStr(b + [NUL]) == b;
  }

  /** The bytes of a four-character constant written as a string of printable characters. */
  function CharCodeBytes(t: string): (bytes: seq<Byte>)
    requires |t| == 4 && forall i :: 0 <= i < 4 ==> IsPrintable(t[i] as int)
    ensures |bytes| == 4 && forall i :: 0 <= i < 4 ==> IsPrintable(bytes[i])
  {
    assert forall i :: 0 <= i < 4 ==> 0 <= t[i] as int < 256 by {
      forall i | 0 <= i < 4
        ensures 0 <= t[i] as int < 256
      {
        assert IsPrintable(t[i] as int);
      }
    }
    seq(4, i requires 0 <= i < 4 => t[i] as int)
  }

  /** A four-character constant such as 'fmt ' shows as its own four characters. */
  lemma FourCharCodeRoundTrip(t: string)
    requires |t| == 4 && forall i :: 0 <= i < 4 ==> IsPrintable(t[i] as int)
    ensures StatusToString(FromBytes(CharCodeBytes(t))) == Ascii(t)
  {
    var code := FromBytes(CharCodeBytes(t));
    StatusBytesOfFromBytes(CharCodeBytes(t));
    StatusToStringPrintable(code);
    assert Codes(t) == CharCodeBytes(t);
    CodesInjective(StatusToString(code).text, t);
  }

  /** Status 0 (`noErr`) starts with a zero byte and shows as the empty string. */
  lemma StatusToStringNoErr()
    ensures StatusToString(0) == Ascii("")
  {
    assert StatusBytes(0)[0] == NUL;
  }

  /** A zero byte inside the code cuts the text short: 0x41004243 shows as "A". */
  lemma StatusToStringStopsAtNul()
    ensures StatusToString(0x41004243) == Ascii("A")
  {
    var b := StatusBytes(0x41004243);
    assert b[0] == 0x41 && b[1] == NUL;
    assert Codes(StatusToString(0x41004243).text) == [0x41];
  }

  /** A negative code is read through its unsigned bit pattern: -1 is four 0xff bytes. */
  lemma StatusToStringNegative()
    ensures StatusToString(-1) == NonAscii([0xff, 0xff, 0xff, 0xff])
  {
    var b := StatusBytes(-1);
    assert b == [0xff, 0xff, 0xff, 0xff];
    CStrAppend(b, [NUL]);
    assert CStr([NUL]) == [];
  }
}

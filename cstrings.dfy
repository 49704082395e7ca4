/**
 * C strings as StockTracker's logging header uses them: a `char` buffer read
 * up to its first NUL byte, and the Foundation conversion that turns such a
 * buffer into an NSString.
 */
module CStrings {

  /** One C `char`, read as its unsigned bit pattern. */
  type Byte = b: int | 0 <= b < 256

  const NUL: Byte := 0

  /** Highest byte value that is a 7-bit ASCII code. */
  const AsciiMax: Byte := 0x7f

  predicate NoNul(s: seq<Byte>) {
    forall i :: 0 <= i < |s| ==> s[i] != NUL
  }

  /**
   * The C string stored in `s`: every byte before the first NUL (all of `s`
   * when it holds no NUL).  This is what `strlen`, `strlcat` and the
   * Foundation initialisers read.
   */
  function CStr(s: seq<Byte>): (r: seq<Byte>)
    ensures r <= s
    ensures NoNul(r)
    ensures |r| < |s| ==> s[|r|] == NUL
  {
    if s == [] || s[0] == NUL then [] else [s[0]] + CStr(s[1..])
  }

  /** The three properties of CStr single out its result. */
  lemma CStrUnique(s: seq<Byte>, t: seq<Byte>)
    requires t <= s && NoNul(t) && (|t| < |s| ==> s[|t|] == NUL)
    ensures CStr(s) == t
  {
  }

  /** Reading a C string past a prefix that holds no NUL. */
  lemma {:induction false} CStrAppend(a: seq<Byte>, b: seq<Byte>)
    requires NoNul(a)
    ensures CStr(a + b) == a + CStr(b)
  {
    if a == [] {
      assert a + b == b;
    } else {
      assert (a + b)[0] == a[0] != NUL;
      assert (a + b)[1..] == a[1..] + b;
      assert CStr(a + b) == [a[0]] + CStr((a + b)[1..]);
      CStrAppend(a[1..], b);
      assert [a[0]] + (a[1..] + CStr(b)) == a + CStr(b);
    }
  }

  /** The first `n` elements of `s`, or all of `s` when it is shorter. */
  function Take<T>(s: seq<T>, n: nat): (r: seq<T>)
    ensures r <= s
    ensures |r| == if n < |s| then n else |s|
  {
    if n < |s| then s[..n] else s
  }

  predicate IsAscii(s: seq<Byte>) {
    forall i :: 0 <= i < |s| ==> s[i] <= AsciiMax
  }

  /**
   * What Foundation makes of a C string.  A string of ASCII bytes becomes the
   * text of exactly those characters.  For a string holding a byte of 0x80 or
   * above the outcome depends on the initialiser: the UTF-8 one decodes a
   * multi-byte character or gives nil for an invalid sequence, the ASCII one
   * gives nil or whatever its decoder makes of the byte.  The model keeps the
   * raw bytes and leaves that outcome open.
   */
  datatype NSText = Ascii(text: string) | NonAscii(raw: seq<Byte>)

  /** The character codes of a string. */
  function Codes(s: string): seq<int> {
    seq(|s|, i requires 0 <= i < |s| => s[i] as int)
  }

  /** Different strings have different codes, so a string is known by its codes. */
  lemma CodesInjective(s: string, t: string)
    requires Codes(s) == Codes(t)
    ensures s == t
  {
    assert |s| == |Codes(s)| == |Codes(t)| == |t|;
    forall i | 0 <= i < |s|
      ensures s[i] == t[i]
    {
      assert Codes(s)[i] == s[i] as int;
      assert Codes(t)[i] == t[i] as int;
    }
  }

  /** The bytes an NSText stands for. */
  function TextCodes(t: NSText): seq<int> {
    match t
    case Ascii(text) => Codes(text)
    case NonAscii(raw) => raw
  }

  /**
   * `stringWithUTF8String:` and `stringWithCString:encoding:` with the ASCII
   * encoding, applied to the buffer `buf`: both read the C string in it.
   */
  function FromCString(buf: seq<Byte>): (r: NSText)
    ensures r.Ascii? <==> IsAscii(CStr(buf))
    ensures TextCodes(r) == CStr(buf)
  {
    var s := CStr(buf);
    if IsAscii(s) then Ascii(seq(|s|, i requires 0 <= i < |s| => s[i] as char)) else NonAscii(s)
  }
}

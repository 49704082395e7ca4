/**
 * The struct-description buffer of the logging header: `LTGetStructString`
 * clears the static 256-byte `structStr`, then the struct dumper calls
 * `LTGetStructStringHelper` once per formatted piece, and each piece is
 * appended with `strlcat`, bounded by the buffer size.
 */
module StructString {
  import opened CStrings

  /** `LT_STRUCT_MESSAGE_LENGTH`: the size of `structStr` and of each formatted piece. */
  const MessageLength: nat := 256

  /** Longest text either buffer holds: one byte is kept for the terminating NUL. */
  const MaxText: nat := MessageLength - 1

  /**
   * The contents `vsnprintf(str, MessageLength, format, arg)` leaves in `str`
   * up to its terminator, given the full text `formatted` that the format
   * would produce: at most MaxText bytes of it, then a NUL.  The rest of the
   * output is discarded.
   */
  function Vsnprintf(formatted: seq<Byte>): (str: seq<Byte>)
    ensures 0 < |str| <= MessageLength && str[|str| - 1] == NUL
    ensures |str| - 1 == if |formatted| < MaxText then |formatted| else MaxText
    ensures str[..|str| - 1] <= formatted
  {
    Take(formatted, MaxText) + [NUL]
  }

  /** The text `strlcat` reads from `str` after that call. */
  function Piece(formatted: seq<Byte>): (p: seq<Byte>)
    ensures |p| <= MaxText && NoNul(p) && p <= formatted
    ensures |p| < MaxText && |p| < |formatted| ==> formatted[|p|] == NUL
  {
    CStr(Vsnprintf(formatted))
  }

  /**
   * The buffer `strlcat(dst, src, |dst|)` leaves, after the BSD definition
   * that POSIX.1-2024 adopted.  When `dst` holds no NUL within its size it is
   * left alone.  Otherwise as much of the C string in `src` as fits is copied
   * after the C string in `dst`, keeping one byte for the NUL written after it.
   */
  function StrlcatResult(dst: seq<Byte>, src: seq<Byte>): (r: seq<Byte>)
    ensures |r| == |dst|
    ensures |CStr(dst)| == |dst| ==> r == dst
    ensures |CStr(dst)| < |dst| ==>
      CStr(r) == CStr(dst) + Take(CStr(src), |dst| - 1 - |CStr(dst)|)
    ensures |CStr(dst)| < |dst| ==> r[|CStr(r)| + 1..] == dst[|CStr(r)| + 1..]
  {
    if |CStr(dst)| == |dst| then dst
    else
      var text := Appended(dst, src);
      assert text == CStr(dst) + Take(CStr(src), |dst| - 1 - |CStr(dst)|);
      assert CStr(WithText(dst, text)) == text;
      WithText(dst, text)
  }

  /**
   * The text `strlcat` builds in a buffer that holds a NUL: the text already
   * there, then as much of the text of `src` as leaves room for the NUL.
   */
  function Appended(dst: seq<Byte>, src: seq<Byte>): (text: seq<Byte>)
    requires |CStr(dst)| < |dst|
    ensures |text| < |dst| && NoNul(text)
  {
    var t := Take(CStr(src), |dst| - 1 - |CStr(dst)|);
    assert NoNul(CStr(dst) + t);
    CStr(dst) + t
  }

  /** The buffer `dst` with `text` written at its start and a NUL after it. */
  function WithText(dst: seq<Byte>, text: seq<Byte>): (r: seq<Byte>)
    requires |text| < |dst|
    ensures |r| == |dst|
    ensures NoNul(text) ==> CStr(r) == text
    ensures r[|text| + 1..] == dst[|text| + 1..]
  {
    var r := text + [NUL] + dst[|text| + 1..];
    if NoNul(text) then
      CStrAppend(text, [NUL] + dst[|text| + 1..]);
      assert r == text + ([NUL] + dst[|text| + 1..]);
      r
    else
      r
  }

  /** Once the text fills all but the last byte, appending changes nothing. */
  lemma StrlcatWhenFull(dst: seq<Byte>, src: seq<Byte>)
    requires |dst| > 0 && |CStr(dst)| == |dst| - 1
    ensures StrlcatResult(dst, src) == dst
  {
    var d := CStr(dst);
    assert Appended(dst, src) == d by {
      assert Take(CStr(src), 0) == [];
    }
    StrlcatResultText(dst, src);
    assert WithText(dst, d) == d + [NUL] + dst[|d| + 1..];
    assert dst == d + [NUL] + dst[|d| + 1..] by {
      assert dst[..|d|] == d;
    }
  }

  /** A buffer whose text ends before its last byte and is followed by zero bytes only. */
  predicate ZeroPadded(s: seq<Byte>) {
    |CStr(s)| < |s| && forall i :: |CStr(s)| <= i < |s| ==> s[i] == NUL
  }

  /** `strlcat` into a zero-padded buffer leaves it zero-padded. */
  lemma StrlcatKeepsZeroPadded(dst: seq<Byte>, src: seq<Byte>)
    requires ZeroPadded(dst)
    ensures ZeroPadded(StrlcatResult(dst, src))
  {
    var text := Appended(dst, src);
    assert CStr(dst) <= text;
    StrlcatResultText(dst, src);
    var r := StrlcatResult(dst, src);
    assert r == text + [NUL] + dst[|text| + 1..];
    assert CStr(r) == text;
    forall i | |text| <= i < |r|
      ensures r[i] == NUL
    {
      if i > |text| {
        assert r[i] == dst[i];
      }
    }
  }

  /**
   * `strnlen(a, a.Length)`: the length of the text in `a`, counting up to
   * the first NUL and never past the end of the array.
   */
  method Strnlen(a: array<Byte>) returns (n: nat)
    ensures n == |CStr(a[..])|
  {
    n := 0;
    while n < a.Length && a[n] != NUL
      invariant n <= a.Length
      invariant forall k :: 0 <= k < n ==> a[k] != NUL
    {
      n := n + 1;
    }
    CStrUnique(a[..], a[..n]);
  }

  /**
   * The copying part of `strlcat`: from index `start`, the end of the text in
   * `dst`, copy bytes of `src` until `src` ends at a NUL or only the last
   * byte of `dst` is left, then write the NUL.  It returns the number of
   * bytes of `src` it read.
   */
  method CopyTerminated(dst: array<Byte>, start: nat, src: seq<Byte>) returns (n: nat)
    requires start == |CStr(dst[..])| < dst.Length
    modifies dst
    ensures dst[..] == StrlcatResult(old(dst[..]), src)
    ensures n == |CStr(src)|
  {
    ghost var d0 := dst[..];
    var room := dst.Length - start - 1;
    var w := start;
    n := 0;
    while n < |src| && src[n] != NUL
      invariant n <= |src|
      invariant forall k :: 0 <= k < n ==> src[k] != NUL
      invariant w == start + if n < dst.Length - 1 - start then n else dst.Length - 1 - start
      invariant room == dst.Length - 1 - w
      invariant forall k :: 0 <= k < start ==> dst[k] == d0[k]
      invariant forall k :: start <= k < w ==> dst[k] == src[k - start]
      invariant forall k :: w <= k < dst.Length ==> dst[k] == d0[k]
    {
      if room != 0 {
        dst[w] := src[n];
        w, room := w + 1, room - 1;
      }
      n := n + 1;
    }
    assert NoNul(src[..n]);
    CStrUnique(src, src[..n]);
    dst[w] := NUL;
    StrlcatAssembled(d0, src, dst[..], start, w);
  }

  /** A buffer laid out as `strlcat` leaves it is the buffer StrlcatResult describes. */
  lemma StrlcatAssembled(d0: seq<Byte>, src: seq<Byte>, out: seq<Byte>, start: nat, w: nat)
    requires start == |CStr(d0)| < |d0| == |out|
    requires w == start + |Take(CStr(src), |d0| - 1 - start)|
    requires forall k :: 0 <= k < start ==> out[k] == d0[k]
    requires forall k :: start <= k < w ==> out[k] == src[k - start]
    requires out[w] == NUL
    requires forall k :: w < k < |out| ==> out[k] == d0[k]
    ensures out == StrlcatResult(d0, src)
  {
    var text := CStr(d0) + Take(CStr(src), |d0| - 1 - start);
    CopiedText(d0, src, out, start, w);
    assert Appended(d0, src) == text;
    StrlcatResultText(d0, src);
    LaidOut(d0, text, out);
  }

  /** The bytes before position `w` are the old text followed by the copied part of `src`. */
  lemma CopiedText(d0: seq<Byte>, src: seq<Byte>, out: seq<Byte>, start: nat, w: nat)
    requires start == |CStr(d0)| < |d0| == |out|
    requires w == start + |Take(CStr(src), |d0| - 1 - start)|
    requires forall k :: 0 <= k < start ==> out[k] == d0[k]
    requires forall k :: start <= k < w ==> out[k] == src[k - start]
    ensures forall k :: 0 <= k < w ==> out[k] == (CStr(d0) + Take(CStr(src), |d0| - 1 - start))[k]
  {
    var d := CStr(d0);
    var s := CStr(src);
    var t := Take(s, |d0| - 1 - start);
    var text := d + t;
    forall k | 0 <= k < w
      ensures out[k] == text[k]
    {
      if k < start {
        assert text[k] == d[k];
        assert d[k] == d0[k] by { assert d <= d0; }
      } else {
        var j := k - start;
        assert text[k] == t[j];
        assert t[j] == s[j] by { assert t <= s; }
        assert s[j] == src[j] by { assert s <= src; }
      }
    }
  }

  /** When `dst` holds a NUL, `strlcat` writes the joined text and a NUL over it. */
  lemma StrlcatResultText(dst: seq<Byte>, src: seq<Byte>)
    requires |CStr(dst)| < |dst|
    ensures StrlcatResult(dst, src) == WithText(dst, Appended(dst, src))
  {
  }

  /** A buffer that holds `text`, a NUL, and the rest of `dst` is `WithText(dst, text)`. */
  lemma LaidOut(dst: seq<Byte>, text: seq<Byte>, out: seq<Byte>)
    requires |text| < |dst| == |out|
    requires forall k :: 0 <= k < |text| ==> out[k] == text[k]
    requires out[|text|] == NUL
    requires forall k :: |text| < k < |out| ==> out[k] == dst[k]
    ensures out == WithText(dst, text)
  {
    var r := text + [NUL] + dst[|text| + 1..];
    forall k | 0 <= k < |out|
      ensures out[k] == r[k]
    {
      if k < |text| {
        assert r[k] == text[k];
      } else if |text| < k {
        assert r[k] == dst[k];
      }
    }
    assert out == r;
  }

  /**
   * `strlcat(dst, src, dst.Length)`: find the end of the text in `dst`; if
   * there is one, copy as much of `src` after it as fits and terminate.  The
   * result is the length of the string it tried to build, as `strlcat`
   * returns it.
   */
  method Strlcat(dst: array<Byte>, src: seq<Byte>) returns (tried: nat)
    modifies dst
    ensures dst[..] == StrlcatResult(old(dst[..]), src)
    ensures tried == |CStr(old(dst[..]))| + |CStr(src)|
  {
    var dlen := Strnlen(dst);
    if dlen == dst.Length {
      return dlen + |CStr(src)|;
    }
    var n := CopyTerminated(dst, dlen, src);
    tried := dlen + n;
  }

  /** The text of all pieces, each as `vsnprintf` bounds it, one after another. */
  function Joined(pieces: seq<seq<Byte>>): seq<Byte> {
    if pieces == [] then [] else Joined(pieces[..|pieces| - 1]) + Piece(pieces[|pieces| - 1])
  }

  lemma JoinedStep(pieces: seq<seq<Byte>>, k: nat)
    requires k < |pieces|
    ensures Joined(pieces[..k + 1]) == Joined(pieces[..k]) + Piece(pieces[k])
  {
    assert pieces[..k + 1][..k] == pieces[..k];
  }

  /** Plain concatenation. */
  function Concat(pieces: seq<seq<Byte>>): seq<Byte> {
    if pieces == [] then [] else Concat(pieces[..|pieces| - 1]) + pieces[|pieces| - 1]
  }

  /** Pieces without NUL bytes that fit in the piece buffer are joined unchanged. */
  lemma {:induction false} JoinedPlainPieces(pieces: seq<seq<Byte>>)
    requires forall k :: 0 <= k < |pieces| ==> NoNul(pieces[k]) && |pieces[k]| <= MaxText
    ensures Joined(pieces) == Concat(pieces)
  {
    if pieces != [] {
      var last := pieces[|pieces| - 1];
      JoinedPlainPieces(pieces[..|pieces| - 1]);
      CStrAppend(last, [NUL]);
      assert CStr([NUL]) == [];
      assert Piece(last) == last;
    }
  }

  /** Appending a piece to a bounded text is appending to the unbounded text, then bounding. */
  lemma TakeAppendBounded(s: seq<Byte>, p: seq<Byte>, n: nat)
    ensures Take(s, n) + Take(p, n - |Take(s, n)|) == Take(s + p, n)
  {
    if |s| < n {
      if |p| > n - |s| {
        assert (s + p)[..n] == s + p[..n - |s|];
      }
    } else {
      assert (s + p)[..n] == s[..n];
    }
  }

  /** What one callback does to the text of a buffer of MessageLength bytes that holds a NUL. */
  lemma HelperText(before: seq<Byte>, formatted: seq<Byte>, after: seq<Byte>)
    requires |before| == MessageLength && |CStr(before)| < MessageLength
    requires after == StrlcatResult(before, Vsnprintf(formatted))
    ensures CStr(after) == CStr(before) + Take(Piece(formatted), MaxText - |CStr(before)|)
  {
    var d := CStr(before);
    var str := Vsnprintf(formatted);
    assert CStr(after) == d + Take(CStr(str), |before| - 1 - |d|);
    assert CStr(str) == Piece(formatted);
    assert |before| - 1 - |d| == MaxText - |d|;
  }

  /** A text extended by a piece cut to the room left keeps its start and stays within MaxText bytes. */
  lemma BoundedAppend(d: seq<Byte>, p: seq<Byte>, a: seq<Byte>)
    requires |d| <= MaxText
    requires a == d + Take(p, MaxText - |d|)
    ensures d <= a && |a| <= MaxText
  {
  }

  /** One more piece extends the bounded text of the pieces before it. */
  lemma JoinedTextStep(pieces: seq<seq<Byte>>, k: nat, t0: seq<Byte>, t1: seq<Byte>)
    requires k < |pieces|
    requires t0 == Take(Joined(pieces[..k]), MaxText)
    requires t1 == t0 + Take(Piece(pieces[k]), MaxText - |t0|)
    ensures t1 == Take(Joined(pieces[..k + 1]), MaxText)
  {
    JoinedStep(pieces, k);
    TakeAppendBounded(Joined(pieces[..k]), Piece(pieces[k]), MaxText);
  }

  /** The static `structStr` buffer and the operations that fill it. */
  class StructStringBuffer {
    var buf: array<Byte>

    /** The buffer has its fixed size and holds a text followed by zero bytes only. */
    ghost predicate Valid()
      reads this, buf
    {
      buf.Length == MessageLength && ZeroPadded(buf[..])
    }

    /** The text held in the buffer. */
    ghost function Text(): seq<Byte>
      reads this, buf
    {
      CStr(buf[..])
    }

    /** Static storage starts out zeroed. */
    constructor ()
      ensures Valid() && fresh(buf)
      ensures forall i :: 0 <= i < buf.Length ==> buf[i] == NUL
    {
      var a := new Byte[MessageLength](_ => NUL);
      assert a[..][0] == NUL;
      buf := a;
    }

    /** `memset(structStr, 0, LT_STRUCT_MESSAGE_LENGTH)`. */
    method Reset()
      requires Valid()
      modifies buf
      ensures Valid()
      ensures forall i :: 0 <= i < buf.Length ==> buf[i] == NUL
      ensures Text() == []
    {
      var i := 0;
      while i < buf.Length
        invariant i <= buf.Length
        invariant forall k :: 0 <= k < i ==> buf[k] == NUL
      {
        buf[i] := NUL;
        i := i + 1;
      }
      assert buf[..][0] == NUL;
    }

    /**
     * `LTGetStructStringHelper`: format one piece into a local buffer of
     * MessageLength bytes, then `strlcat` it onto the buffer.
     */
    method Helper(formatted: seq<Byte>)
      requires Valid()
      modifies buf
      ensures Valid()
      ensures buf[..] == StrlcatResult(old(buf[..]), Vsnprintf(formatted))
      ensures old(Text()) <= Text()
      ensures Text() == old(Text()) + Take(Piece(formatted), MaxText - old(|Text()|))
      ensures |Text()| <= MaxText
      ensures old(|Text()|) == MaxText ==> buf[..] == old(buf[..])
    {
      ghost var before := buf[..];
      var str := Vsnprintf(formatted);
      var _ := Strlcat(buf, str);
      StrlcatKeepsZeroPadded(before, str);
      if |CStr(before)| == MaxText {
        StrlcatWhenFull(before, str);
      }
      HelperText(before, formatted, buf[..]);
      BoundedAppend(CStr(before), Piece(formatted), CStr(buf[..]));
    }

    /**
     * `__builtin_dump_struct(s, &LTGetStructStringHelper)`: one callback per
     * piece the struct dumper formats, in order.  Starting from an empty
     * text, the text becomes all the pieces joined and bounded.
     */
    method DumpStruct(pieces: seq<seq<Byte>>)
      requires Valid() && Text() == []
      modifies buf
      ensures Valid()
      ensures Text() == Take(Joined(pieces), MaxText)
    {
      var k := 0;
      while k < |pieces|
        invariant k <= |pieces|
        invariant Valid()
        invariant Text() == Take(Joined(pieces[..k]), MaxText)
      {
        ghost var t0 := Text();
        assert |t0| <= MaxText;
        Helper(pieces[k]);
        ghost var t1 := Text();
        assert t1 == t0 + Take(Piece(pieces[k]), MaxText - |t0|);
        JoinedTextStep(pieces, k, t0, t1);
        k := k + 1;
      }
      assert pieces[..k] == pieces;
    }

    /**
     * The `LTGetStructString` macro: clear the buffer, let the struct dumper
     * append its pieces, then read the buffer as ASCII text.
     */
    method GetStructString(pieces: seq<seq<Byte>>) returns (ret: NSText)
      requires Valid()
      modifies buf
      ensures Valid()
      ensures |Text()| <= MaxText
      ensures forall i :: |Text()| <= i < buf.Length ==> buf[i] == NUL
      ensures Text() == Take(Joined(pieces), MaxText)
      ensures TextCodes(ret) == Text()
      ensures ret.Ascii? <==> IsAscii(Text())
    {
      Reset();
      DumpStruct(pieces);
      var contents := buf[..];
      assert Text() == CStr(contents);
      ret := FromCString(contents);
    }
  }
}

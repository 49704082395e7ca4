# StockTracker logging helpers in Dafny

StockTracker is a macOS stock-quote and market-news viewer. Its logging header,
`StockTracker/LTLog.h`, holds the two pieces of logic modelled here:

- `statusToString` turns an `OSStatus` (a signed 32-bit result code) into its
  four-character code. It splits the code into four bytes, most significant
  first, masks each with `0xff` and NUL-terminates them in a five-byte array.
  Foundation then reads that C string as text.
- The struct-description buffer: `LTGetStructString` clears the static
  256-byte `structStr` with `memset`. The struct dumper then calls
  `LTGetStructStringHelper` once per formatted piece. Each call formats into a
  local 256-byte buffer with `vsnprintf` and appends it with
  `strlcat(structStr, str, 256)`. The result is read back as ASCII text.

The project has three modules:

- `CStrings` (`cstrings.dfy`): bytes, the C string stored in a buffer (`CStr`),
  truncation (`Take`), and the Foundation conversion from a C string (`FromCString`).
- `StatusCode` (`status_code.dfy`): `statusToString` as pure functions, its
  round trip with the 32-bit code, and the C-string cut at the first zero byte.
- `StructString` (`struct_string.dfy`): `vsnprintf` truncation and `strlcat`.
  The latter is a specification function plus a byte-by-byte method on an
  array. The class `StructStringBuffer` owns the 256-byte buffer; its methods
  are `Reset` (the `memset`), `Helper` (one callback), `DumpStruct` (the
  callbacks for one struct) and `GetStructString` (the whole macro).

Bytes are C `char` values read as their unsigned bit pattern (0..255). Right
shift of a negative `OSStatus` is an arithmetic shift, as the compilers the
project targets implement it. It is therefore modelled as division rounding
down. `& 0xff` on a two's-complement value is the remainder modulo 256. The
pieces the struct dumper formats are inputs: a piece is the full text its
format would produce, before `vsnprintf` truncates it.

StockTracker's quote and news refresh, its watch-list editing and its news
popup are implemented in files that are not part of this model. The headers `StockTracker/MasterViewController.h` and
`StockTracker/AppDelegate.h` only declare fields and methods and hold no logic.

## Model

| member | source | states |
|---|---|---|
| `CStrings.CStr` | StockTracker/LTLog.h:63 | The C string in a buffer: a prefix of it with no NUL, followed by a NUL unless it is the whole buffer |
| `CStrings.FromCString` | StockTracker/LTLog.h:83-84 | Foundation's text for a buffer stands for exactly the bytes of its C string; it is plain ASCII text iff every such byte is at most 0x7f |
| `CStrings.CodesInjective` | StockTracker/LTLog.h:83-84 | Two strings with the same character codes are equal, so text is determined by the bytes it stands for |
| `StatusCode.Unsigned` | StockTracker/LTLog.h:58 | The 32-bit pattern of an `OSStatus` as an unsigned number: in [0, 2^32) and equal to the code or the code plus 2^32 |
| `StatusCode.ShiftMask` | StockTracker/LTLog.h:60-61 | Byte i as the source computes it (shift as division rounding down, mask as the remainder mod 256) is in 0..255 and equals byte i of the code's unsigned 32-bit pattern |
| `StatusCode.ShiftMaskIsUnsignedByte` | StockTracker/LTLog.h:60-61 | `(code >> 8*(3-i)) & 0xff` equals byte i of the unsigned pattern: the sign of a negative code does not leak into the bytes |
| `StatusCode.StatusBytes` | StockTracker/LTLog.h:60-61 | The four array bytes are most significant first: byte i is `(code mod 2^32) / 256^(3-i) mod 256`, each in 0..255 |
| `StatusCode.Combine` | StockTracker/LTLog.h:60-61 | Four bytes spell a number in [0, 2^32) |
| `StatusCode.FromBytes` | StockTracker/LTLog.h:58 | The `OSStatus` a four-byte code spells has that code as its unsigned bit pattern |
| `StatusCode.CombineStatusBytes` | StockTracker/LTLog.h:60-61 | Round trip: s[0]·2^24 + s[1]·2^16 + s[2]·2^8 + s[3] equals `code mod 2^32` |
| `StatusCode.FromBytesOfStatusBytes` | StockTracker/LTLog.h:60-61 | Splitting loses nothing: the code is recovered from its four bytes |
| `StatusCode.StatusBytesOfFromBytes` | StockTracker/LTLog.h:60-61 | Every four-byte sequence is the split of exactly the code it spells |
| `StatusCode.StatusToString` | StockTracker/LTLog.h:58-64 | The text is the code's bytes before the first zero byte, in order: at most four characters, ASCII iff all of them are at most 0x7f |
| `StatusCode.StatusToStringPrintable` | StockTracker/LTLog.h:60-63 | When all four bytes are printable ASCII, the text is exactly those four characters in order |
| `StatusCode.FourCharCodeRoundTrip` | StockTracker/LTLog.h:58-64 | A four-character constant of printable characters shows as that same string |
| `StatusCode.StatusToStringNoErr` | StockTracker/LTLog.h:60-63 | Code 0 shows as the empty string |
| `StatusCode.StatusToStringStopsAtNul` | StockTracker/LTLog.h:60-63 | Code 0x41004243 shows as "A": the zero byte ends the text |
| `StatusCode.StatusToStringNegative` | StockTracker/LTLog.h:60-63 | Code -1 is read as the bytes ff ff ff ff, which are not ASCII |
| `StructString.Vsnprintf` | StockTracker/LTLog.h:72-75 | The local buffer holds at most 255 bytes of the formatted text, a prefix of it, then a NUL, within 256 bytes |
| `StructString.Piece` | StockTracker/LTLog.h:75-77 | The text `strlcat` reads from the local buffer: at most 255 bytes, no NUL, a prefix of the formatted text that stops early only at a NUL |
| `StructString.StrlcatResult` | StockTracker/LTLog.h:77 | `strlcat` keeps the size and the old text, and appends exactly the first min(len(src), size - 1 - len(old)) bytes of the source text; the bytes after the new NUL are untouched; a buffer with no NUL is left alone |
| `StructString.StrlcatWhenFull` | StockTracker/LTLog.h:77 | Once the text is size - 1 bytes long, appending leaves the buffer unchanged |
| `StructString.StrlcatKeepsZeroPadded` | StockTracker/LTLog.h:77 | Appending to a buffer whose text ends before its last byte and is followed only by zero bytes leaves a buffer of that shape |
| `StructString.Strnlen` | StockTracker/LTLog.h:77 | The first step of `strlcat`: the length of the text in the destination, never past its end |
| `StructString.CopyTerminated` | StockTracker/LTLog.h:77 | The copy step of `strlcat`: from the end of the old text, copies source bytes up to its NUL while room remains, writes a NUL, leaves exactly `StrlcatResult`, and returns the source text's length |
| `StructString.Strlcat` | StockTracker/LTLog.h:77 | The byte-by-byte `strlcat` leaves exactly the buffer `StrlcatResult` describes and returns the length it tried to build |
| `StructString.JoinedPlainPieces` | StockTracker/LTLog.h:80-84 | Pieces without NUL bytes and at most 255 bytes long are joined by plain concatenation |
| `StructString.StructStringBuffer.constructor` | StockTracker/LTLog.h:68 | The static `structStr` has 256 bytes, starts out all zero, and satisfies the buffer invariant (size 256, text shorter than 256 bytes, zero bytes after it) |
| `StructString.StructStringBuffer.Reset` | StockTracker/LTLog.h:81 | After the `memset`, every byte is zero, the text is empty and the buffer invariant holds |
| `StructString.StructStringBuffer.Helper` | StockTracker/LTLog.h:70-78 | One callback keeps the buffer invariant: the old text stays a prefix, the new text is the old one plus the piece cut to the room left, its length stays at most 255, and a full buffer is left unchanged |
| `StructString.StructStringBuffer.DumpStruct` | StockTracker/LTLog.h:82 | The struct dumper's callbacks, one per piece in order: from an empty text, the text becomes all pieces joined (each bounded by `vsnprintf`) and cut to 255 bytes, and the buffer invariant holds |
| `StructString.StructStringBuffer.GetStructString` | StockTracker/LTLog.h:80-84 | After the reset and the callbacks for pieces p1..pn, the text is p1 ++ ... ++ pn (each bounded by `vsnprintf`) cut to 255 bytes, every byte after it is zero, and the returned text stands for those bytes |

## Left out

- `LTLog` (StockTracker/LTLog.h:34-56) writes to the system log and appends to a log file. This is I/O and is not modelled.
- The format-string interpretation of `vsnprintf` is not modelled. Each piece is given as the full text its format would produce; only the truncation to 255 bytes and the terminating NUL are modelled.
- The `__builtin_dump_struct` traversal is a compiler builtin. The model takes the sequence of pieces it would format as an input to `GetStructString`.
- `CStrings.FromCString`: for a C string with a byte of 0x80 or above, the outcome is left open. `stringWithUTF8String:` (StockTracker/LTLog.h:63) decodes a multi-byte UTF-8 character or returns nil. `stringWithCString:encoding:` with the ASCII encoding (StockTracker/LTLog.h:83-84) returns nil or whatever its decoder makes of the byte. The model keeps the raw bytes (`NonAscii`).
- `structStr` is a file-scope `static` array in a header (StockTracker/LTLog.h:68), so every source file that includes the header gets its own buffer, shared without locking by the callers in that file. The model is one such buffer with a single owner and no concurrent use.
- `StructString.Strlcat` returns the length `strlcat` reports. `LTGetStructStringHelper` discards that value, so nothing else uses it.
- `StockTracker/MasterViewController.h` and `StockTracker/AppDelegate.h` hold only declarations (timers, network tasks, views, preference fields) and are not part of this model. The code behind them is not part of this model either.

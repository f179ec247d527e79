/** Byte-level helpers: the little-endian u32 layout of Python's `struct.pack('<I', x)`,
    the lowercase hex rendering of `bytes.hex()`, its inverse `bytes.fromhex`, the
    well-formedness rule of strict UTF-8 decoding, and the semantics of a Python slice
    `s[lo:hi]`. */
module Bytes {
  import opened Results

  type byte = x: int | 0 <= x < 256
  type bytes = seq<byte>

  /** Exclusive upper bound of an unsigned 32-bit field. */
  const U32Limit: int := 0x1_0000_0000

  predicate InU32(x: int) {
    0 <= x < U32Limit
  }

  /** `n` zero bytes, as `b'\x00' * n`. */
  function Zeros(n: nat): (r: bytes)
    ensures |r| == n
    ensures forall i :: 0 <= i < n ==> r[i] == 0
  {
    seq(n, _ => 0)
  }

  // ---------------------------------------------------------------------------
  // Little-endian u32
  // ---------------------------------------------------------------------------

  /** The four bytes `struct.pack('<I', x)` produces; Python raises for any other x. */
  function LeU32(x: int): (r: bytes)
    requires InU32(x)
    ensures |r| == 4
  {
    [x % 256, (x / 256) % 256, (x / 65536) % 256, x / 16777216]
  }

  /** `struct.unpack('<I', b)[0]`. */
  function ReadLeU32(b: bytes): (x: int)
    requires |b| == 4
    ensures InU32(x)
  {
    b[0] as int + 256 * b[1] as int + 65536 * b[2] as int + 16777216 * b[3] as int
  }

  lemma ReadLeU32OfLeU32(x: int)
    requires InU32(x)
    ensures ReadLeU32(LeU32(x)) == x
  {
    var b := LeU32(x);
    assert x == x % 256 + 256 * (x / 256);
    assert x / 256 == (x / 256) % 256 + 256 * (x / 65536);
    assert x / 65536 == (x / 65536) % 256 + 256 * (x / 16777216);
  }

  lemma LeU32OfReadLeU32(b: bytes)
    requires |b| == 4
    ensures LeU32(ReadLeU32(b)) == b
  {
    var x := ReadLeU32(b);
    var hi: int := b[1] as int + 256 * b[2] as int + 65536 * b[3] as int;
    assert x == b[0] as int + 256 * hi;
    assert x % 256 == b[0] && x / 256 == hi;
    var hi2: int := b[2] as int + 256 * b[3] as int;
    assert hi == b[1] + 256 * hi2;
    assert hi % 256 == b[1] && hi / 256 == hi2;
    assert x / 65536 == hi / 256;
    assert x / 16777216 == hi2 / 256;
  }

  /** Two different u32 values never share an encoding. */
  lemma LeU32Injective(x: int, y: int)
    requires InU32(x) && InU32(y)
    requires LeU32(x) == LeU32(y)
    ensures x == y
  {
    ReadLeU32OfLeU32(x);
    ReadLeU32OfLeU32(y);
  }

  // ---------------------------------------------------------------------------
  // Hex text
  // ---------------------------------------------------------------------------

  const LowerHexDigits: string := "0123456789abcdef"

  /** A digit as `bytes.hex` writes it: 0-9 or a lowercase a-f. */
  predicate IsLowerHexChar(c: char) {
    '0' <= c <= '9' || 'a' <= c <= 'f'
  }

  function HexDigit(n: int): (c: char)
    requires 0 <= n < 16
    ensures IsLowerHexChar(c)
  {
    LowerHexDigits[n]
  }

  /** Value of one hex digit, either case, as `bytes.fromhex` accepts it. */
  function DigitValue(c: char): (r: Option<int>)
    ensures r.Some? ==> 0 <= r.value < 16
  {
    if '0' <= c <= '9' then Some(c as int - '0' as int)
    else if 'a' <= c <= 'f' then Some(c as int - 'a' as int + 10)
    else if 'A' <= c <= 'F' then Some(c as int - 'A' as int + 10)
    else None
  }

  predicate IsHexChar(c: char) {
    DigitValue(c).Some?
  }

  /** `b.hex()`: two lowercase digits per byte, high nibble first. */
  function Hex(b: bytes): (s: string)
    ensures |s| == 2 * |b|
    ensures forall i :: 0 <= i < |s| ==> IsLowerHexChar(s[i]) && IsHexChar(s[i])
  {
    if b == [] then []
    else [HexDigit(b[0] / 16), HexDigit(b[0] % 16)] + Hex(b[1..])
  }

  /** ASCII whitespace as CPython's `Py_ISSPACE` sees it: space, tab, line feed, vertical
      tab, form feed and carriage return. */
  predicate IsPySpace(c: char) {
    c == ' ' || '\t' <= c <= '\r'
  }

  /** `bytes.fromhex(s)`; None where Python raises ValueError. Whitespace is skipped
      before each pair of digits, never inside one. */
  function FromHex(s: string): (r: Option<bytes>)
    ensures r.Some? ==> 2 * |r.value| <= |s|
  {
    if |s| == 0 then Some([])
    else if IsPySpace(s[0]) then FromHex(s[1..])
    else if |s| == 1 then None
    else
      match (DigitValue(s[0]), DigitValue(s[1]), FromHex(s[2..]))
      case (Some(h), Some(l), Some(rest)) => Some([16 * h + l] + rest)
      case _ => None
  }

  lemma DigitValueOfHexDigit(n: int)
    requires 0 <= n < 16
    ensures DigitValue(HexDigit(n)) == Some(n)
  {
  }

  /** Hex text parses back to the bytes it was rendered from. */
  lemma {:induction false} FromHexOfHex(b: bytes)
    ensures FromHex(Hex(b)) == Some(b)
  {
    if b != [] {
      FromHexOfHex(b[1..]);
      FromHexOfHexStep(b);
    }
  }

  /** Parsing the first two digits of `b`'s hex gives back its first byte. */
  lemma FromHexOfHexStep(b: bytes)
    requires b != [] && FromHex(Hex(b[1..])) == Some(b[1..])
    ensures FromHex(Hex(b)) == Some(b)
  {
    HexCons(b);
    DigitValueOfHexDigit(b[0] / 16);
    DigitValueOfHexDigit(b[0] % 16);
    FromHexConsByte(Hex(b), b[0], b[1..]);
    assert [b[0]] + b[1..] == b;
  }

  /** The hex of a non-empty string: its first byte's two digits, then the rest's hex. */
  lemma HexCons(b: bytes)
    requires b != []
    ensures |Hex(b)| >= 2
    ensures Hex(b)[0] == HexDigit(b[0] / 16) && Hex(b)[1] == HexDigit(b[0] % 16)
    ensures Hex(b)[2..] == Hex(b[1..])
  {
    var s := Hex(b);
    assert s == [HexDigit(b[0] / 16), HexDigit(b[0] % 16)] + Hex(b[1..]);
  }

  /** Two digits spelling the nibbles of `x`, followed by text that parses to `rest`. */
  lemma FromHexConsByte(s: string, x: byte, rest: bytes)
    requires |s| >= 2 && DigitValue(s[0]) == Some(x / 16) && DigitValue(s[1]) == Some(x % 16)
    requires FromHex(s[2..]) == Some(rest)
    ensures FromHex(s) == Some([x] + rest)
  {
    FromHexCons(s, x / 16, x % 16, rest);
    assert 16 * (x / 16) + x % 16 == x;
  }

  /** `fromhex` of two digits followed by parseable text. */
  lemma FromHexCons(s: string, h: int, l: int, rest: bytes)
    requires |s| >= 2 && DigitValue(s[0]) == Some(h) && DigitValue(s[1]) == Some(l)
    requires FromHex(s[2..]) == Some(rest)
    ensures FromHex(s) == Some([16 * h + l] + rest)
  {
  }

  /** Distinct byte strings render to distinct hex text. */
  lemma HexInjective(a: bytes, b: bytes)
    requires Hex(a) == Hex(b)
    ensures a == b
  {
    FromHexOfHex(a);
    FromHexOfHex(b);
  }

  /** Any string of an even number of hex digits parses, to half as many bytes. */
  lemma {:induction false} FromHexAllDigits(s: string)
    requires |s| % 2 == 0
    requires forall i :: 0 <= i < |s| ==> IsHexChar(s[i])
    ensures FromHex(s).Some? && 2 * |FromHex(s).value| == |s|
  {
    if |s| > 0 {
      assert forall i :: 0 <= i < |s[2..]| ==> s[2..][i] == s[i + 2];
      FromHexAllDigits(s[2..]);
    }
  }

  /** Whitespace in front of the text is skipped. */
  lemma {:induction false} FromHexSkipsSpace(sp: string, t: string)
    requires forall i :: 0 <= i < |sp| ==> IsPySpace(sp[i])
    ensures FromHex(sp + t) == FromHex(t)
  {
    if sp == [] {
      assert sp + t == t;
    } else {
      assert (sp + t)[0] == sp[0];
      assert (sp + t)[1..] == sp[1..] + t;
      FromHexSkipsSpace(sp[1..], t);
    }
  }

  /** Hex text followed by more text parses to the bytes it spells, followed by what the
      rest parses to; it fails exactly when the rest does. */
  lemma {:induction false} FromHexAppend(a: bytes, t: string)
    ensures FromHex(t).None? ==> FromHex(Hex(a) + t).None?
    ensures FromHex(t).Some? ==> FromHex(Hex(a) + t) == Some(a + FromHex(t).value)
  {
    if a == [] {
      assert Hex(a) + t == t;
      if FromHex(t).Some? {
        assert a + FromHex(t).value == FromHex(t).value;
      }
    } else {
      FromHexAppend(a[1..], t);
      FromHexAppendStep(a, t);
    }
  }

  /** One step of `FromHexAppend`: the first byte's two digits, then the rest. */
  lemma FromHexAppendStep(a: bytes, t: string)
    requires a != []
    requires FromHex(t).None? ==> FromHex(Hex(a[1..]) + t).None?
    requires FromHex(t).Some? ==> FromHex(Hex(a[1..]) + t) == Some(a[1..] + FromHex(t).value)
    ensures FromHex(t).None? ==> FromHex(Hex(a) + t).None?
    ensures FromHex(t).Some? ==> FromHex(Hex(a) + t) == Some(a + FromHex(t).value)
  {
    var s := Hex(a) + t;
    HexCons(a);
    DropPair(Hex(a), t);
    DigitValueOfHexDigit(a[0] / 16);
    DigitValueOfHexDigit(a[0] % 16);
    FromHexPair(s, a[0]);
    if FromHex(t).Some? {
      var v := FromHex(t).value;
      ConsAssoc(a, v);
    }
  }

  lemma ConsAssoc(a: bytes, v: bytes)
    requires a != []
    ensures [a[0]] + (a[1..] + v) == a + v
  {
    assert a == [a[0]] + a[1..];
  }

  lemma DropPair(h: string, t: string)
    requires |h| >= 2
    ensures (h + t)[0] == h[0] && (h + t)[1] == h[1]
    ensures (h + t)[2..] == h[2..] + t
  {
  }

  /** Text opening with the two digits of `x` parses iff the text after them does. */
  lemma FromHexPair(s: string, x: byte)
    requires |s| >= 2 && DigitValue(s[0]) == Some(x / 16) && DigitValue(s[1]) == Some(x % 16)
    ensures FromHex(s[2..]).None? ==> FromHex(s).None?
    ensures FromHex(s[2..]).Some? ==> FromHex(s) == Some([x] + FromHex(s[2..]).value)
  {
    if FromHex(s[2..]).Some? {
      FromHexConsByte(s, x, FromHex(s[2..]).value);
    }
  }

  // ---------------------------------------------------------------------------
  // UTF-8
  // ---------------------------------------------------------------------------

  predicate IsContinuation(b: byte) {
    0x80 <= b <= 0xBF
  }

  /** Length of the well-formed UTF-8 sequence that opens `s`, or 0 when there is none:
      the well-formed byte sequences of table 3-7 of the Unicode Standard, which Python's
      strict `decode('utf-8')` accepts (no overlong forms, no surrogates, nothing above
      U+10FFFF). */
  function Utf8Head(s: bytes): (n: nat)
    requires s != []
    ensures n <= 4 && n <= |s|
  {
    var b := s[0];
    if b < 0x80 then 1
    else if 0xC2 <= b <= 0xDF then
      if |s| >= 2 && IsContinuation(s[1]) then 2 else 0
    else if 0xE0 <= b <= 0xEF then
      var lo := if b == 0xE0 then 0xA0 else 0x80;
      var hi := if b == 0xED then 0x9F else 0xBF;
      if |s| >= 3 && lo <= s[1] <= hi && IsContinuation(s[2]) then 3 else 0
    else if 0xF0 <= b <= 0xF4 then
      var lo := if b == 0xF0 then 0x90 else 0x80;
      var hi := if b == 0xF4 then 0x8F else 0xBF;
      if |s| >= 4 && lo <= s[1] <= hi && IsContinuation(s[2]) && IsContinuation(s[3]) then 4 else 0
    else 0
  }

  /** `s.decode('utf-8')` succeeds: `s` is a run of well-formed sequences. */
  predicate ValidUtf8(s: bytes)
    decreases |s|
  {
    s == [] || (Utf8Head(s) > 0 && ValidUtf8(s[Utf8Head(s)..]))
  }

  /** A Unicode scalar value: a code point that is not a surrogate. */
  predicate IsScalar(c: int) {
    0 <= c < 0x11_0000 && !(0xD800 <= c < 0xE000)
  }

  /** `chr(c).encode('utf-8')`: the shortest form, one to four bytes. */
  function Utf8Encode(c: int): (r: bytes)
    requires IsScalar(c)
    ensures 1 <= |r| <= 4
    ensures |r| == 1 <==> c < 0x80
  {
    if c < 0x80 then [c]
    else if c < 0x800 then [0xC0 + c / 64, 0x80 + c % 64]
    else if c < 0x1_0000 then [0xE0 + c / 4096, 0x80 + (c / 64) % 64, 0x80 + c % 64]
    else [0xF0 + c / 262144, 0x80 + (c / 4096) % 64, 0x80 + (c / 64) % 64, 0x80 + c % 64]
  }

  /** The encoding of a scalar value is one well-formed sequence, whatever follows it. */
  lemma Utf8EncodeHead(c: int, t: bytes)
    requires IsScalar(c)
    ensures Utf8Head(Utf8Encode(c) + t) == |Utf8Encode(c)|
  {
    var e := Utf8Encode(c);
    assert (e + t)[..|e|] == e;
    if 0x800 <= c < 0x1_0000 {
      ThreeByteLead(c);
    } else if 0x1_0000 <= c {
      FourByteLead(c);
    }
  }

  /** The second byte of a three-byte form stays in the range its lead byte allows. */
  lemma ThreeByteLead(c: int)
    requires IsScalar(c) && 0x800 <= c < 0x1_0000
    ensures c / 4096 <= 0xF
    ensures c / 4096 == 0 ==> (c / 64) % 64 >= 0x20
    ensures c / 4096 == 0xD ==> (c / 64) % 64 < 0x20
  {
  }

  /** The second byte of a four-byte form stays in the range its lead byte allows. */
  lemma FourByteLead(c: int)
    requires IsScalar(c) && 0x1_0000 <= c
    ensures c / 262144 <= 4
    ensures c / 262144 == 0 ==> (c / 4096) % 64 >= 0x10
    ensures c / 262144 == 4 ==> (c / 4096) % 64 < 0x10
  {
  }

  /** The encoding of any sequence of scalar values decodes. */
  lemma {:induction false} Utf8EncodeValid(cs: seq<int>)
    requires forall i :: 0 <= i < |cs| ==> IsScalar(cs[i])
    ensures ValidUtf8(Utf8EncodeAll(cs))
    decreases |cs|
  {
    if cs != [] {
      var e := Utf8Encode(cs[0]);
      var rest := Utf8EncodeAll(cs[1..]);
      Utf8EncodeValid(cs[1..]);
      Utf8EncodeHead(cs[0], rest);
      assert (e + rest)[|e|..] == rest;
    }
  }

  /** The concatenated encodings of a sequence of scalar values. */
  function Utf8EncodeAll(cs: seq<int>): (r: bytes)
    requires forall i :: 0 <= i < |cs| ==> IsScalar(cs[i])
    ensures |cs| <= |r| <= 4 * |cs|
  {
    if cs == [] then [] else Utf8Encode(cs[0]) + Utf8EncodeAll(cs[1..])
  }

  /** Bytes that `decode('utf-8')` refuses: a lone continuation byte, an overlong form,
      an encoded surrogate, a byte that never occurs in UTF-8, a truncated sequence. */
  lemma Utf8Rejects()
    ensures !ValidUtf8([0x80])
    ensures !ValidUtf8([0xC0, 0x80])
    ensures !ValidUtf8([0xED, 0xA0, 0x80])
    ensures !ValidUtf8([0xFF])
    ensures !ValidUtf8([0xE2, 0x82])
    ensures ValidUtf8([0xE2, 0x82, 0xAC])
  {
    var euro: bytes := [0xE2, 0x82, 0xAC];
    assert Utf8Head(euro) == 3;
    assert euro[3..] == [];
  }

  // ---------------------------------------------------------------------------
  // Python slicing
  // ---------------------------------------------------------------------------

  /** Where a Python slice bound `i` lands in a sequence of length `n`. */
  function SliceBound(i: int, n: nat): (k: nat)
    ensures k <= n
  {
    if i < 0 then (if i + n < 0 then 0 else i + n)
    else if i > n then n
    else i
  }

  /** `s[lo:hi]` with Python's negative-index and clamping rules. */
  function PySlice<T>(s: seq<T>, lo: int, hi: int): (r: seq<T>)
    ensures 0 <= lo <= hi <= |s| ==> r == s[lo..hi]
    ensures |r| <= |s|
  {
    var a := SliceBound(lo, |s|);
    var b := SliceBound(hi, |s|);
    if a >= b then [] else s[a..b]
  }
}

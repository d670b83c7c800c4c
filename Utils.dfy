/** `is_binary_file`: the fast binary check on the first 1024 bytes of a
    file, and the UTF-8 well-formedness test its `decode("utf-8")` makes. */
module Utils {
  import opened Wrappers

  newtype byte = x: int | 0 <= x < 256

  /** How many bytes `is_binary_file` reads. */
  const ChunkSize: nat := 1024

  // ---------------------------------------------------------------------
  // UTF-8 well-formedness (the Unicode Standard, section 3.9, Table 3-7),
  // which is what Python's strict "utf-8" codec accepts.

  predicate InRange(b: byte, lo: int, hi: int) {
    lo <= b as int <= hi
  }

  predicate Cont(b: byte) {
    InRange(b, 0x80, 0xBF)
  }

  /** Length of the well-formed code-unit sequence at the head of `s`, or 0
      when the head is ill-formed or cut short. */
  function HeadLength(s: seq<byte>): (n: nat)
    requires s != []
    ensures n <= 4 && n <= |s|
  {
    var b0 := s[0];
    if InRange(b0, 0x00, 0x7F) then 1
    else if InRange(b0, 0xC2, 0xDF) then
      if |s| >= 2 && Cont(s[1]) then 2 else 0
    else if InRange(b0, 0xE0, 0xEF) then
      var lo := if b0 == 0xE0 then 0xA0 else 0x80;
      var hi := if b0 == 0xED then 0x9F else 0xBF;
      if |s| >= 3 && InRange(s[1], lo, hi) && Cont(s[2]) then 3 else 0
    else if InRange(b0, 0xF0, 0xF4) then
      var lo := if b0 == 0xF0 then 0x90 else 0x80;
      var hi := if b0 == 0xF4 then 0x8F else 0xBF;
      if |s| >= 4 && InRange(s[1], lo, hi) && Cont(s[2]) && Cont(s[3]) then 4 else 0
    else 0
  }

  /** `s.decode("utf-8")` raises no error. */
  predicate ValidUtf8(s: seq<byte>)
    decreases |s|
  {
    s == [] || (HeadLength(s) > 0 && ValidUtf8(s[HeadLength(s)..]))
  }

  /** A well-formed sequence never ends in a lead byte: a multi-byte
      character cut short at the end of the chunk makes it ill-formed. */
  lemma {:induction false} ValidEndsComplete(s: seq<byte>)
    requires ValidUtf8(s) && s != []
    ensures s[|s| - 1] < 0xC0
    decreases |s|
  {
    var n := HeadLength(s);
    if n < |s| {
      ValidEndsComplete(s[n..]);
    }
  }

  /** The UTF-8 encoding of one Unicode scalar value. */
  function EncodeChar(c: char): (r: seq<byte>)
    ensures 1 <= |r| <= 4
  {
    var v := c as int;
    if v < 0x80 then [v as byte]
    else if v < 0x800 then [(0xC0 + v / 64) as byte, (0x80 + v % 64) as byte]
    else if v < 0x1_0000 then
      [(0xE0 + v / 4096) as byte, (0x80 + v / 64 % 64) as byte, (0x80 + v % 64) as byte]
    else
      [(0xF0 + v / 262144) as byte, (0x80 + v / 4096 % 64) as byte,
       (0x80 + v / 64 % 64) as byte, (0x80 + v % 64) as byte]
  }

  function Encode(s: string): seq<byte> {
    if s == [] then [] else EncodeChar(s[0]) + Encode(s[1..])
  }

  lemma HeadOfEncodeChar(c: char, rest: seq<byte>)
    ensures HeadLength(EncodeChar(c) + rest) == |EncodeChar(c)|
  {
    var v := c as int;
    if v < 0x80 {
    } else if v < 0x800 {
      HeadOfTwo(v, EncodeChar(c), rest);
    } else if v < 0x1_0000 {
      HeadOfThree(v, EncodeChar(c), rest);
    } else {
      HeadOfFour(v, EncodeChar(c), rest);
    }
  }

  lemma HeadOfTwo(v: int, e: seq<byte>, rest: seq<byte>)
    requires 0x80 <= v < 0x800
    requires e == [(0xC0 + v / 64) as byte, (0x80 + v % 64) as byte]
    ensures HeadLength(e + rest) == 2
  {
    assert 2 <= v / 64 < 32;
    var s := e + rest;
    assert s[0] == e[0] && s[1] == e[1];
  }

  lemma HeadOfThree(v: int, e: seq<byte>, rest: seq<byte>)
    requires 0x800 <= v < 0x1_0000 && !(0xD800 <= v < 0xE000)
    requires e == [(0xE0 + v / 4096) as byte, (0x80 + v / 64 % 64) as byte, (0x80 + v % 64) as byte]
    ensures HeadLength(e + rest) == 3
  {
    assert 0 <= v / 4096 < 16;
    assert v / 4096 == 0 ==> v / 64 % 64 >= 32;
    assert v / 4096 == 13 ==> v / 64 % 64 < 32;
    var s := e + rest;
    assert s[0] == e[0] && s[1] == e[1] && s[2] == e[2];
  }

  lemma HeadOfFour(v: int, e: seq<byte>, rest: seq<byte>)
    requires 0x1_0000 <= v < 0x11_0000
    requires e == [(0xF0 + v / 262144) as byte, (0x80 + v / 4096 % 64) as byte,
                   (0x80 + v / 64 % 64) as byte, (0x80 + v % 64) as byte]
    ensures HeadLength(e + rest) == 4
  {
    assert 0 <= v / 262144 <= 4;
    assert v / 262144 == 0 ==> v / 4096 % 64 >= 16;
    assert v / 262144 == 4 ==> v / 4096 % 64 < 16;
    var s := e + rest;
    assert s[0] == e[0] && s[1] == e[1] && s[2] == e[2] && s[3] == e[3];
  }

  /** The decode check accepts the encoding of every string. */
  lemma {:induction false} EncodeIsValid(s: string)
    ensures ValidUtf8(Encode(s))
    decreases |s|
  {
    if s != [] {
      HeadOfEncodeChar(s[0], Encode(s[1..]));
      EncodeIsValid(s[1..]);
      assert (EncodeChar(s[0]) + Encode(s[1..]))[|EncodeChar(s[0])|..] == Encode(s[1..]);
    }
  }

  // ---------------------------------------------------------------------
  // The binary check

  /** The bytes `f.read(1024)` returns. */
  function Chunk(bytes: seq<byte>): (c: seq<byte>)
    ensures |c| <= ChunkSize && |c| <= |bytes|
    ensures c == bytes[..|c|]
    ensures |c| == ChunkSize || c == bytes
  {
    if |bytes| <= ChunkSize then bytes else bytes[..ChunkSize]
  }

  /** `is_binary_file` for a file whose bytes are `raw` (None when it cannot
      be opened or read). */
  function IsBinaryFile(raw: Option<seq<byte>>): (binary: bool)
    ensures raw.None? ==> binary
    ensures !binary ==> raw.Some? && 0 !in Chunk(raw.value) && ValidUtf8(Chunk(raw.value))
  {
    match raw
    case None => true
    case Some(bytes) =>
      var chunk := Chunk(bytes);
      if 0 in chunk then true
      else !ValidUtf8(chunk)
  }

  /** A file that cannot be read counts as binary. */
  lemma UnreadableIsBinary()
    ensures IsBinaryFile(None)
  {
  }

  /** A NUL byte within the first 1024 bytes makes the file binary. */
  lemma NulIsBinary(bytes: seq<byte>, i: nat)
    requires i < |bytes| && i < ChunkSize && bytes[i] == 0
    ensures IsBinaryFile(Some(bytes))
  {
    assert Chunk(bytes)[i] == 0;
  }

  /** Only the first 1024 bytes are looked at. */
  lemma OnlyChunkMatters(a: seq<byte>, b: seq<byte>)
    requires Chunk(a) == Chunk(b)
    ensures IsBinaryFile(Some(a)) == IsBinaryFile(Some(b))
  {
  }

  /** A multi-byte character cut by the 1024-byte boundary, or any chunk
      ending in a lead byte, makes the file binary. */
  lemma CutCharacterIsBinary(bytes: seq<byte>)
    requires Chunk(bytes) != [] && Chunk(bytes)[|Chunk(bytes)| - 1] >= 0xC0
    ensures IsBinaryFile(Some(bytes))
  {
    if !(0 in Chunk(bytes)) && ValidUtf8(Chunk(bytes)) {
      ValidEndsComplete(Chunk(bytes));
    }
  }

  /** A file holding text without NUL, short enough to be read whole, is
      not binary; in particular an empty file is not. */
  lemma TextIsNotBinary(s: string)
    requires |Encode(s)| <= ChunkSize && '\0' !in s
    ensures !IsBinaryFile(Some(Encode(s)))
  {
    EncodeIsValid(s);
    NoNulInEncode(s);
  }

  lemma {:induction false} NoNulInEncode(s: string)
    requires '\0' !in s
    ensures 0 !in Encode(s)
    decreases |s|
  {
    if s != [] {
      NoNulInEncode(s[1..]);
      assert s[0] != '\0';
    }
  }

  lemma EmptyIsNotBinary()
    ensures !IsBinaryFile(Some([]))
  {
  }
}

/** Bytes and UTF-8, as Go's `unicode/utf8.DecodeRuneInString` reads them and as Go stores
    text: a Go string is a sequence of bytes, normally the UTF-8 encoding of its characters. */
module Utf8 {

  newtype byte = b: int | 0 <= b < 256

  /** What `utf8.DecodeRuneInString` reports about the front of a non-empty byte string:
      either a well-formed rune of `size` bytes, or (`valid == false`) `RuneError` with
      size 1. */
  datatype Decoded = Decoded(valid: bool, size: nat)

  /** Byte range accepted for a continuation byte (0x80..0xBF). */
  predicate IsCont(b: byte) {
    0x80 <= b <= 0xBF
  }

  /** Length of the sequence announced by the leading byte `b`, 0 when `b` cannot lead
      (0x80..0xC1 and 0xF5..0xFF). */
  function LeadLength(b: byte): nat {
    if b < 0x80 then 1
    else if b < 0xC2 then 0
    else if b < 0xE0 then 2
    else if b < 0xF0 then 3
    else if b < 0xF5 then 4
    else 0
  }

  /** The range the SECOND byte must fall in, which depends on the leading byte: this is
      how Go rejects overlong forms (after 0xE0 and 0xF0), surrogates (after 0xED) and
      values above U+10FFFF (after 0xF4). */
  predicate SecondOk(b0: byte, b1: byte) {
    if b0 == 0xE0 then 0xA0 <= b1 <= 0xBF
    else if b0 == 0xED then 0x80 <= b1 <= 0x9F
    else if b0 == 0xF0 then 0x90 <= b1 <= 0xBF
    else if b0 == 0xF4 then 0x80 <= b1 <= 0x8F
    else IsCont(b1)
  }

  function DecodeRune(s: seq<byte>): (d: Decoded)
    requires s != []
    ensures 1 <= d.size <= 4 && d.size <= |s|
    ensures !d.valid ==> d.size == 1
  {
    var n := LeadLength(s[0]);
    if n == 0 then Decoded(false, 1)
    else if n == 1 then Decoded(true, 1)
    else if |s| < n || !SecondOk(s[0], s[1]) then Decoded(false, 1)
    else if n == 2 then Decoded(true, 2)
    else if !IsCont(s[2]) then Decoded(false, 1)
    else if n == 3 then Decoded(true, 3)
    else if !IsCont(s[3]) then Decoded(false, 1)
    else Decoded(true, 4)
  }

  /** U+FFFD encoded: what `string(r)` produces for `RuneError`. */
  const Replacement: seq<byte> := [0xEF, 0xBF, 0xBD]

  /** The bytes `string(r)` yields for the rune decoded at the front of `s`: the same bytes
      for a well-formed rune (UTF-8 encoding is unique), U+FFFD otherwise. */
  function RuneText(s: seq<byte>): (t: seq<byte>)
    requires s != []
    ensures t != []
  {
    var d := DecodeRune(s);
    if d.valid then s[..d.size] else Replacement
  }

  /** Every rune of `s` is well formed. */
  predicate ValidUtf8(s: seq<byte>)
    decreases |s|
  {
    s == [] || (DecodeRune(s).valid && ValidUtf8(s[DecodeRune(s).size..]))
  }

  /** Decoding looks only at the bytes of the rune it finds. */
  lemma DecodePrefix(s: seq<byte>, t: seq<byte>)
    requires s != [] && DecodeRune(s).valid
    ensures s[..DecodeRune(s).size] + t != []
    ensures DecodeRune(s[..DecodeRune(s).size] + t) == DecodeRune(s)
  {
    var n := DecodeRune(s).size;
    var u := s[..n] + t;
    assert forall i :: 0 <= i < n ==> u[i] == s[i];
  }

  lemma {:induction false} ValidAppend(a: seq<byte>, b: seq<byte>)
    requires ValidUtf8(a) && ValidUtf8(b)
    ensures ValidUtf8(a + b)
    decreases |a|
  {
    if a != [] {
      var n := DecodeRune(a).size;
      DecodePrefix(a, a[n..] + b);
      assert a + b == a[..n] + (a[n..] + b);
      assert DecodeRune(a + b) == DecodeRune(a);
      ValidAppend(a[n..], b);
      assert (a + b)[n..] == a[n..] + b;
    } else {
      assert a + b == b;
    }
  }

  /** The UTF-8 encoding of one character (a Unicode scalar value). */
  function Encode(c: char): (r: seq<byte>)
    ensures 1 <= |r| <= 4
  {
    var v := c as int;
    if v < 0x80 then [v as byte]
    else if v < 0x800 then [(0xC0 + v / 64) as byte, (0x80 + v % 64) as byte]
    else if v < 0x10000 then
      [(0xE0 + v / 4096) as byte, (0x80 + (v / 64) % 64) as byte, (0x80 + v % 64) as byte]
    else
      [(0xF0 + v / 262144) as byte, (0x80 + (v / 4096) % 64) as byte,
       (0x80 + (v / 64) % 64) as byte, (0x80 + v % 64) as byte]
  }

  /** `[]byte(s)`: the UTF-8 encoding of a whole string. */
  function EncodeString(s: string): seq<byte>
    decreases |s|
  {
    if s == [] then [] else Encode(s[0]) + EncodeString(s[1..])
  }

  /** Go's decoder accepts the encoding of every character as one well-formed rune. */
  lemma EncodeDecodes(c: char)
    ensures DecodeRune(Encode(c)) == Decoded(true, |Encode(c)|)
  {
    var v := c as int;
    if 0x80 <= v < 0x800 {
      TwoBytesDecode(c);
    } else if 0x800 <= v < 0x10000 {
      ThreeBytesDecode(c);
    } else if 0x10000 <= v {
      FourBytesDecode(c);
    }
  }

  lemma TwoBytesDecode(c: char)
    requires 0x80 <= c as int < 0x800
    ensures DecodeRune(Encode(c)) == Decoded(true, 2)
  {
    var e := Encode(c);
    assert 0xC2 <= e[0] < 0xE0 && IsCont(e[1]);
  }

  /** Three bytes: the second byte keeps out of the overlong range after 0xE0 and out of
      the surrogates after 0xED, which a `char` never is. */
  lemma ThreeBytesDecode(c: char)
    requires 0x800 <= c as int < 0x10000
    ensures DecodeRune(Encode(c)) == Decoded(true, 3)
  {
    var v := c as int;
    assert v < 0xD800 || 0xE000 <= v;
    var e := Encode(c);
    assert 0xE0 <= e[0] < 0xF0 && IsCont(e[1]) && IsCont(e[2]);
    assert e[0] == 0xE0 ==> 0xA0 <= e[1];
    assert e[0] == 0xED ==> e[1] <= 0x9F;
  }

  /** Four bytes: the second byte keeps out of the overlong range after 0xF0 and below
      U+10FFFF after 0xF4. */
  lemma FourBytesDecode(c: char)
    requires 0x10000 <= c as int
    ensures DecodeRune(Encode(c)) == Decoded(true, 4)
  {
    var v := c as int;
    var e := Encode(c);
    assert 0xF0 <= e[0] < 0xF5 && IsCont(e[1]) && IsCont(e[2]) && IsCont(e[3]);
    assert e[0] == 0xF0 ==> 0x90 <= e[1];
    assert e[0] == 0xF4 ==> e[1] <= 0x8F;
  }

  lemma {:induction false} EncodeStringValid(s: string)
    ensures ValidUtf8(EncodeString(s))
    decreases |s|
  {
    if s != [] {
      EncodeDecodes(s[0]);
      assert ValidUtf8(Encode(s[0])) by {
        assert Encode(s[0])[|Encode(s[0])|..] == [];
      }
      EncodeStringValid(s[1..]);
      ValidAppend(Encode(s[0]), EncodeString(s[1..]));
    }
  }

  lemma {:induction false} EncodeStringAppend(a: string, b: string)
    ensures EncodeString(a + b) == EncodeString(a) + EncodeString(b)
    decreases |a|
  {
    if a != [] {
      assert (a + b)[0] == a[0] && (a + b)[1..] == a[1..] + b;
      EncodeStringAppend(a[1..], b);
      assert EncodeString(a + b) == Encode(a[0]) + EncodeString(a[1..] + b);
    } else {
      assert a + b == b;
    }
  }

  /** Each character takes one to four bytes. */
  lemma {:induction false} EncodeStringLength(s: string)
    ensures |s| <= |EncodeString(s)| <= 4 * |s|
    decreases |s|
  {
    if s != [] {
      EncodeStringLength(s[1..]);
    }
  }
}

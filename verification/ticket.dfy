/** The admission ticket ("ficho") issued on a booking: four random bytes
    rendered as hexadecimal and upper-cased, as
    `crypto.randomBytes(4).toString('hex').toUpperCase()` does. The random
    bytes themselves are an input of the model. */
module Ticket {

  newtype Byte = x: int | 0 <= x < 256

  /** The lower-case hex digit for a nibble, as `toString('hex')` writes it. */
  function LowerDigit(k: int): char
    requires 0 <= k < 16
  {
    if k < 10 then ('0' as int + k) as char else ('a' as int + k - 10) as char
  }

  /** The upper-case hex digit for a nibble. */
  function UpperDigit(k: int): char
    requires 0 <= k < 16
  {
    if k < 10 then ('0' as int + k) as char else ('A' as int + k - 10) as char
  }

  predicate IsUpperHex(ch: char) {
    '0' <= ch <= '9' || 'A' <= ch <= 'F'
  }

  /** `Buffer.toString('hex')`: two lower-case digits per byte, high nibble first. */
  function HexLower(bytes: seq<Byte>): (h: string)
    ensures |h| == 2 * |bytes|
    ensures forall j :: 0 <= j < |bytes| ==>
              h[2 * j] == LowerDigit(bytes[j] as int / 16) && h[2 * j + 1] == LowerDigit(bytes[j] as int % 16)
  {
    if |bytes| == 0 then []
    else
      var b := bytes[0] as int;
      var t := HexLower(bytes[1..]);
      var h := [LowerDigit(b / 16), LowerDigit(b % 16)] + t;
      assert forall j :: 1 <= j < |bytes| ==> h[2 * j] == t[2 * (j - 1)] && h[2 * j + 1] == t[2 * (j - 1) + 1];
      h
  }

  /** `toUpperCase` on one character, restricted to ASCII: the only letters
      a hex rendering contains are 'a'..'f'. */
  function UpperChar(ch: char): char {
    if 'a' <= ch <= 'z' then (ch as int - 32) as char else ch
  }

  lemma UpperOfLowerDigit(k: int)
    requires 0 <= k < 16
    ensures UpperChar(LowerDigit(k)) == UpperDigit(k)
    ensures IsUpperHex(UpperDigit(k))
  {
  }

  /** `String.prototype.toUpperCase` over an ASCII string. */
  function AsciiUpper(s: string): (u: string)
    ensures |u| == |s|
    ensures forall i :: 0 <= i < |s| ==> u[i] == UpperChar(s[i])
  {
    if |s| == 0 then [] else [UpperChar(s[0])] + AsciiUpper(s[1..])
  }

  /** The ticket code for the given random bytes: the upper-case hex digits
      of each byte, high nibble first. */
  function Code(bytes: seq<Byte>): (code: string)
    ensures |code| == 2 * |bytes|
    ensures forall j :: 0 <= j < |bytes| ==>
              code[2 * j] == UpperDigit(bytes[j] as int / 16) && code[2 * j + 1] == UpperDigit(bytes[j] as int % 16)
    ensures forall i :: 0 <= i < |code| ==> IsUpperHex(code[i])
  {
    var h := HexLower(bytes);
    var u := AsciiUpper(h);
    assert forall j :: 0 <= j < |bytes| ==>
             u[2 * j] == UpperDigit(bytes[j] as int / 16) && u[2 * j + 1] == UpperDigit(bytes[j] as int % 16) by {
      forall j | 0 <= j < |bytes|
        ensures u[2 * j] == UpperDigit(bytes[j] as int / 16) && u[2 * j + 1] == UpperDigit(bytes[j] as int % 16)
      {
        UpperOfLowerDigit(bytes[j] as int / 16);
        UpperOfLowerDigit(bytes[j] as int % 16);
      }
    }
    assert forall i :: 0 <= i < |u| ==> IsUpperHex(u[i]) by {
      forall i | 0 <= i < |u| ensures IsUpperHex(u[i]) {
        var j := i / 2;
        assert i == 2 * j || i == 2 * j + 1;
        UpperOfLowerDigit(bytes[j] as int / 16);
        UpperOfLowerDigit(bytes[j] as int % 16);
      }
    }
    u
  }

  /** The value of one upper-case hex digit. */
  function DigitValue(ch: char): (v: int)
    requires IsUpperHex(ch)
    ensures 0 <= v < 16 && UpperDigit(v) == ch
  {
    if '0' <= ch <= '9' then ch as int - '0' as int else ch as int - 'A' as int + 10
  }

  lemma DigitValueOfUpperDigit(k: int)
    requires 0 <= k < 16
    ensures IsUpperHex(UpperDigit(k)) && DigitValue(UpperDigit(k)) == k
  {
  }

  /** Reads a ticket code back into the bytes it was made from. */
  function Decode(code: string): (bytes: seq<Byte>)
    requires |code| % 2 == 0
    requires forall i :: 0 <= i < |code| ==> IsUpperHex(code[i])
    ensures |bytes| * 2 == |code|
  {
    if |code| == 0 then []
    else [(16 * DigitValue(code[0]) + DigitValue(code[1])) as Byte] + Decode(code[2..])
  }

  /** The code of a byte string is the code of its first byte followed by
      the code of the rest. */
  lemma CodeCons(bytes: seq<Byte>)
    requires |bytes| > 0
    ensures Code(bytes)[2..] == Code(bytes[1..])
    ensures Code(bytes)[0] == UpperDigit(bytes[0] as int / 16)
    ensures Code(bytes)[1] == UpperDigit(bytes[0] as int % 16)
  {
    var c := Code(bytes);
    var tail := Code(bytes[1..]);
    forall i | 0 <= i < |tail|
      ensures c[2..][i] == tail[i]
    {
      var j := i / 2;
      assert i == 2 * j || i == 2 * j + 1;
      assert bytes[1..][j] == bytes[j + 1];
      assert 2 * (j + 1) == 2 * j + 2;
    }
  }

  /** One byte's two digits decode back to that byte. */
  lemma DecodeByte(b: Byte)
    ensures (16 * DigitValue(UpperDigit(b as int / 16)) + DigitValue(UpperDigit(b as int % 16))) as int == b as int
  {
    DigitValueOfUpperDigit(b as int / 16);
    DigitValueOfUpperDigit(b as int % 16);
  }

  /** Decoding a code recovers the random bytes, so a code is determined by
      its bytes and distinct byte strings never share a code. */
  lemma {:induction false} DecodeCode(bytes: seq<Byte>)
    ensures Decode(Code(bytes)) == bytes
  {
    if |bytes| > 0 {
      var c := Code(bytes);
      CodeCons(bytes);
      DecodeByte(bytes[0]);
      DecodeCode(bytes[1..]);
      assert Decode(c) == [bytes[0]] + Decode(c[2..]);
      assert bytes == [bytes[0]] + bytes[1..];
    }
  }

  lemma CodeInjective(a: seq<Byte>, b: seq<Byte>)
    ensures Code(a) == Code(b) ==> a == b
  {
    DecodeCode(a);
    DecodeCode(b);
  }
}

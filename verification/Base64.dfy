/** The base64 alphabet and codec of section 4 of RFC 4648, over bytes on both sides. */
module Base64 {
  import opened Common

  const PAD: byte := 61 // '='

  type Sextet = x: int | 0 <= x < 64

  function Letter(v: Sextet): byte {
    if v < 26 then 65 + v
    else if v < 52 then 97 + (v - 26)
    else if v < 62 then 48 + (v - 52)
    else if v == 62 then 43
    else 47
  }

  function Value(b: byte): Option<Sextet> {
    if 65 <= b <= 90 then Some(b - 65)
    else if 97 <= b <= 122 then Some(b - 71)
    else if 48 <= b <= 57 then Some(b + 4)
    else if b == 43 then Some(62)
    else if b == 47 then Some(63)
    else None
  }

  /** `base64.b64encode`. */
  function Encode(bs: seq<byte>): seq<byte> {
    if |bs| == 0 then []
    else if |bs| == 1 then [Letter(bs[0] / 4), Letter(bs[0] % 4 * 16), PAD, PAD]
    else if |bs| == 2 then
      [Letter(bs[0] / 4), Letter(bs[0] % 4 * 16 + bs[1] / 16), Letter(bs[1] % 16 * 4), PAD]
    else
      [Letter(bs[0] / 4), Letter(bs[0] % 4 * 16 + bs[1] / 16), Letter(bs[1] % 16 * 4 + bs[2] / 64),
       Letter(bs[2] % 64)] + Encode(bs[3..])
  }

  /** Decoding: groups of four letters, with padding only in the last group. */
  function Decode(cs: seq<byte>): Option<seq<byte>> {
    if |cs| == 0 then Some([])
    else if |cs| < 4 then None
    else
      match (Value(cs[0]), Value(cs[1]))
      case (Some(a), Some(b)) =>
        var first: byte := a * 4 + b / 16;
        if |cs| == 4 && cs[2] == PAD && cs[3] == PAD then Some([first])
        else (
          match Value(cs[2])
          case None => None
          case Some(c) =>
            var second: byte := b % 16 * 16 + c / 4;
            if |cs| == 4 && cs[3] == PAD then Some([first, second])
            else
              match Value(cs[3])
              case None => None
              case Some(d) =>
                match Decode(cs[4..])
                case None => None
                case Some(rest) => Some([first, second, c % 4 * 64 + d] + rest))
      case _ => None
  }

  /** Table 1 of section 4 of RFC 4648, and its padding character. */
  lemma Alphabet(v: Sextet)
    ensures v <= 25 ==> Letter(v) == 'A' as int + v && Letter(25) == 'Z' as int
    ensures 26 <= v <= 51 ==> Letter(v) == 'a' as int + (v - 26) && Letter(51) == 'z' as int
    ensures 52 <= v <= 61 ==> Letter(v) == '0' as int + (v - 52) && Letter(61) == '9' as int
    ensures Letter(62) == '+' as int && Letter(63) == '/' as int && PAD == '=' as int
  {
  }

  /** How bytes become letters: three give the letters of the four sextets of their 24 bits, most significant
      first; a last one or two are completed with zero bits, and the missing letters with padding. */
  lemma EncodeGroups(x: byte, y: byte, z: byte, rest: seq<byte>, a: Sextet, b: Sextet, c: Sextet, d: Sextet)
    requires a * 262144 + b * 4096 + c * 64 + d == x * 65536 + y * 256 + z
    ensures Encode([x, y, z] + rest) == [Letter(a), Letter(b), Letter(c), Letter(d)] + Encode(rest)
    ensures z == 0 ==> Encode([x, y]) == [Letter(a), Letter(b), Letter(c), '=' as int]
    ensures y == 0 && z == 0 ==> Encode([x]) == [Letter(a), Letter(b), '=' as int, '=' as int]
    ensures Encode([]) == []
  {
    Sextets(x, y, z, a, b, c, d);
    assert ([x, y, z] + rest)[3..] == rest;
  }

  lemma Sextets(x: byte, y: byte, z: byte, a: Sextet, b: Sextet, c: Sextet, d: Sextet)
    requires a * 262144 + b * 4096 + c * 64 + d == x * 65536 + y * 256 + z
    ensures a == x / 4 && b == x % 4 * 16 + y / 16 && c == y % 16 * 4 + z / 64 && d == z % 64
  {
    SameDigits(a * 4096 + b * 64 + c, d, x * 1024 + y * 4 + z / 64, z % 64);
    SameDigits(a * 64 + b, c, x * 16 + y / 16, y % 16 * 4 + z / 64);
    SameDigits(a, b, x / 4, x % 4 * 16 + y / 16);
  }

  lemma SameDigits(high: nat, low: nat, high': nat, low': nat)
    requires high * 64 + low == high' * 64 + low' && low < 64 && low' < 64
    ensures high == high' && low == low'
  {
  }

  lemma LetterValue(v: Sextet)
    ensures Value(Letter(v)) == Some(v) && Letter(v) != PAD && Letter(v) < 128
  {
  }

  lemma DecodeGroup(x: byte, y: byte, z: byte, tail: seq<byte>)
    requires Decode(tail).Some?
    ensures Decode([Letter(x / 4), Letter(x % 4 * 16 + y / 16), Letter(y % 16 * 4 + z / 64), Letter(z % 64)] + tail)
         == Some([x, y, z] + Decode(tail).value)
  {
    var a, b, c, d := x / 4, x % 4 * 16 + y / 16, y % 16 * 4 + z / 64, z % 64;
    LetterValue(a);
    LetterValue(b);
    LetterValue(c);
    LetterValue(d);
    var cs := [Letter(a), Letter(b), Letter(c), Letter(d)] + tail;
    assert cs[4..] == tail;
    assert a * 4 + b / 16 == x && b % 16 * 16 + c / 4 == y && c % 4 * 64 + d == z;
  }

  lemma DecodePadded(x: byte, y: byte)
    ensures Decode(Encode([x])) == Some([x])
    ensures Decode(Encode([x, y])) == Some([x, y])
  {
    LetterValue(x / 4);
    LetterValue(x % 4 * 16);
    LetterValue(x % 4 * 16 + y / 16);
    LetterValue(y % 16 * 4);
  }

  lemma {:induction false} DecodeEncode(bs: seq<byte>)
    ensures Decode(Encode(bs)) == Some(bs)
  {
    if |bs| == 1 {
      DecodePadded(bs[0], 0);
      assert bs == [bs[0]];
    } else if |bs| == 2 {
      DecodePadded(bs[0], bs[1]);
      assert bs == [bs[0], bs[1]];
    } else if |bs| >= 3 {
      DecodeEncode(bs[3..]);
      DecodeGroup(bs[0], bs[1], bs[2], Encode(bs[3..]));
      assert bs == [bs[0], bs[1], bs[2]] + bs[3..];
    }
  }

  /** Every encoding is ASCII and a whole number of four-letter groups. */
  lemma {:induction false} EncodeShape(bs: seq<byte>)
    ensures |Encode(bs)| == (|bs| + 2) / 3 * 4
    ensures forall i :: 0 <= i < |Encode(bs)| ==> Encode(bs)[i] < 128
  {
    if |bs| >= 3 {
      EncodeShape(bs[3..]);
      assert |bs[3..]| == |bs| - 3;
    }
  }
}

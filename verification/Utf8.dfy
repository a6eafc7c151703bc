/**
 * The three UTF-8 codecs the service relies on: `str.encode`, strict `bytes.decode` and
 * `bytes.decode(errors="replace")`. Encoding follows section 3 of RFC 3629, the accepted byte
 * ranges its section 4, and replacement the maximal-subpart practice of section 3.9 of the
 * Unicode Standard.
 */
module Utf8 {
  import opened Common

  /** A Python `str` is a sequence of code points, surrogates included. */
  type CodePoint = x: int | 0 <= x <= 0x10FFFF

  const REPLACEMENT: CodePoint := 0xFFFD

  predicate IsScalar(c: CodePoint) {
    !(0xD800 <= c <= 0xDFFF)
  }

  /** `text.encode("utf-8")` raises UnicodeEncodeError exactly on the texts this refuses. */
  predicate Encodable(text: seq<CodePoint>) {
    forall i :: 0 <= i < |text| ==> IsScalar(text[i])
  }

  function EncodeOne(c: CodePoint): (r: seq<byte>)
    requires IsScalar(c)
    ensures 1 <= |r| <= 4
  {
    if c < 0x80 then [c]
    else if c < 0x800 then [0xC0 + c / 64, 0x80 + c % 64]
    else if c < 0x10000 then [0xE0 + c / 64 / 64, 0x80 + c / 64 % 64, 0x80 + c % 64]
    else [0xF0 + c / 64 / 64 / 64, 0x80 + c / 64 / 64 % 64, 0x80 + c / 64 % 64, 0x80 + c % 64]
  }

  function Encode(text: seq<CodePoint>): seq<byte>
    requires Encodable(text)
  {
    if text == [] then [] else EncodeOne(text[0]) + Encode(text[1..])
  }

  /** The table of section 3 of RFC 3629: the length and lead byte of each range, and the bits that every
      byte carries. */
  lemma EncodingTable(c: CodePoint)
    requires IsScalar(c)
    ensures forall i :: 1 <= i < |EncodeOne(c)| ==> 0x80 <= EncodeOne(c)[i] <= 0xBF
    ensures var e := EncodeOne(c);
            if c <= 0x7F then e == [c]
            else if c <= 0x7FF then |e| == 2 && 0xC0 <= e[0] <= 0xDF && c == Bits(e[0], 0xC0) * 64 + Bits(e[1], 0x80)
            else if c <= 0xFFFF then
              |e| == 3 && 0xE0 <= e[0] <= 0xEF && c == Bits(e[0], 0xE0) * 4096 + Bits(e[1], 0x80) * 64 + Bits(e[2], 0x80)
            else
              |e| == 4 && 0xF0 <= e[0] <= 0xF7
              && c == Bits(e[0], 0xF0) * 262144 + Bits(e[1], 0x80) * 4096 + Bits(e[2], 0x80) * 64 + Bits(e[3], 0x80)
    ensures IsScalar(c) <==> c < 0xD800 || 0xDFFF < c
  {
  }

  // ----- Decoding -----

  predicate IsContinuation(b: byte) {
    0x80 <= b <= 0xBF
  }

  /** Second bytes allowed after a lead byte; the special cases keep out overlong forms, surrogates
      and values above U+10FFFF. */
  predicate SecondOk(lead: byte, b: byte) {
    IsContinuation(b)
    && (lead == 0xE0 ==> 0xA0 <= b)
    && (lead == 0xED ==> b <= 0x9F)
    && (lead == 0xF0 ==> 0x90 <= b)
    && (lead == 0xF4 ==> b <= 0x8F)
  }

  /** What a decoder finds at the front: a character, or an ill-formed run to skip. */
  datatype Front = Char(c: CodePoint, len: nat) | Bad(len: nat)

  function Bits(b: byte, marker: int): int {
    b - marker
  }

  function Scan(bs: seq<byte>): (f: Front)
    requires bs != []
    ensures 1 <= f.len <= |bs|
  {
    var b := bs[0];
    if b < 0x80 then Char(b, 1)
    else if b < 0xC2 || 0xF4 < b then Bad(1)
    else if |bs| < 2 || !SecondOk(b, bs[1]) then Bad(1)
    else if b < 0xE0 then Char(Bits(b, 0xC0) * 64 + Bits(bs[1], 0x80), 2)
    else if |bs| < 3 || !IsContinuation(bs[2]) then Bad(2)
    else if b < 0xF0 then Char(Bits(b, 0xE0) * 4096 + Bits(bs[1], 0x80) * 64 + Bits(bs[2], 0x80), 3)
    else if |bs| < 4 || !IsContinuation(bs[3]) then Bad(3)
    else Char(Bits(b, 0xF0) * 262144 + Bits(bs[1], 0x80) * 4096 + Bits(bs[2], 0x80) * 64
              + Bits(bs[3], 0x80), 4)
  }

  /** Strict `bytes.decode("utf-8")`; `None` is UnicodeDecodeError. */
  function Decode(bs: seq<byte>): Option<seq<CodePoint>> {
    if bs == [] then Some([])
    else
      match Scan(bs)
      case Bad(_) => None
      case Char(c, len) =>
        match Decode(bs[len..])
        case None => None
        case Some(rest) => Some([c] + rest)
  }

  /** `bytes.decode("utf-8", errors="replace")`. */
  function DecodeReplace(bs: seq<byte>): seq<CodePoint> {
    if bs == [] then []
    else
      match Scan(bs)
      case Bad(len) => [REPLACEMENT] + DecodeReplace(bs[len..])
      case Char(c, len) => [c] + DecodeReplace(bs[len..])
  }

  // ----- One character -----

  lemma ScanEncoded(c: CodePoint, rest: seq<byte>)
    requires IsScalar(c)
    ensures Scan(EncodeOne(c) + rest) == Char(c, |EncodeOne(c)|)
  {
    var e := EncodeOne(c);
    var s := e + rest;
    assert forall i :: 0 <= i < |e| ==> s[i] == e[i];
  }

  lemma LastSextet(high: nat, low: nat)
    requires low < 64
    ensures (high * 64 + low) / 64 == high && (high * 64 + low) % 64 == low
  {
  }

  lemma TwoBytes(a: byte, b: byte)
    requires 0xC2 <= a < 0xE0 && IsContinuation(b)
    ensures EncodeOne(Bits(a, 0xC0) * 64 + Bits(b, 0x80)) == [a, b]
  {
    LastSextet(Bits(a, 0xC0), Bits(b, 0x80));
  }

  lemma ThreeBytes(a: byte, b: byte, c: byte)
    requires 0xE0 <= a < 0xF0 && SecondOk(a, b) && IsContinuation(c)
    ensures var point := Bits(a, 0xE0) * 4096 + Bits(b, 0x80) * 64 + Bits(c, 0x80);
            0x800 <= point < 0x10000 && IsScalar(point) && EncodeOne(point) == [a, b, c]
  {
    var high := Bits(a, 0xE0) * 64 + Bits(b, 0x80);
    LastSextet(high, Bits(c, 0x80));
    LastSextet(Bits(a, 0xE0), Bits(b, 0x80));
  }

  lemma FourBytes(a: byte, b: byte, c: byte, d: byte)
    requires 0xF0 <= a <= 0xF4 && SecondOk(a, b) && IsContinuation(c) && IsContinuation(d)
    ensures var point := Bits(a, 0xF0) * 262144 + Bits(b, 0x80) * 4096 + Bits(c, 0x80) * 64 + Bits(d, 0x80);
            0x10000 <= point <= 0x10FFFF && EncodeOne(point) == [a, b, c, d]
  {
    var top := Bits(a, 0xF0) * 64 + Bits(b, 0x80);
    var high := top * 64 + Bits(c, 0x80);
    LastSextet(high, Bits(d, 0x80));
    LastSextet(top, Bits(c, 0x80));
    LastSextet(Bits(a, 0xF0), Bits(b, 0x80));
  }

  lemma ScanSound(bs: seq<byte>)
    requires bs != [] && Scan(bs).Char?
    ensures IsScalar(Scan(bs).c) && EncodeOne(Scan(bs).c) == bs[..Scan(bs).len]
  {
    var len := Scan(bs).len;
    if len == 2 {
      TwoBytes(bs[0], bs[1]);
      assert bs[..2] == [bs[0], bs[1]];
    } else if len == 3 {
      ThreeBytes(bs[0], bs[1], bs[2]);
      assert bs[..3] == [bs[0], bs[1], bs[2]];
    } else if len == 4 {
      FourBytes(bs[0], bs[1], bs[2], bs[3]);
      assert bs[..4] == [bs[0], bs[1], bs[2], bs[3]];
    }
  }

  // ----- The codec is a bijection between encodable texts and decodable bytes -----

  lemma {:induction false} DecodeEncode(text: seq<CodePoint>)
    requires Encodable(text)
    ensures Decode(Encode(text)) == Some(text)
  {
    if text != [] {
      var head, tail := EncodeOne(text[0]), Encode(text[1..]);
      ScanEncoded(text[0], tail);
      assert (head + tail)[|head|..] == tail;
      DecodeEncode(text[1..]);
      assert Scan(Encode(text)) == Char(text[0], |head|);
      assert [text[0]] + text[1..] == text;
    }
  }

  lemma DecodeStep(bs: seq<byte>)
    requires bs != [] && Decode(bs).Some?
    ensures var f := Scan(bs);
            f.Char? && Decode(bs[f.len..]).Some? && Decode(bs).value == [f.c] + Decode(bs[f.len..]).value
  {
  }

  lemma EncodeFront(bs: seq<byte>, rest: seq<CodePoint>)
    requires bs != [] && Scan(bs).Char? && Encodable(rest) && Encode(rest) == bs[Scan(bs).len..]
    ensures Encodable([Scan(bs).c] + rest) && Encode([Scan(bs).c] + rest) == bs
  {
    var f := Scan(bs);
    ScanSound(bs);
    assert ([f.c] + rest)[1..] == rest;
    assert bs[..f.len] + bs[f.len..] == bs;
  }

  lemma {:induction false} EncodeDecode(bs: seq<byte>)
    requires Decode(bs).Some?
    ensures Encodable(Decode(bs).value) && Encode(Decode(bs).value) == bs
  {
    if bs != [] {
      DecodeStep(bs);
      EncodeDecode(bs[Scan(bs).len..]);
      EncodeFront(bs, Decode(bs[Scan(bs).len..]).value);
    }
  }

  /** Strict decoding succeeds exactly on encodings, and then returns the one text encoded. */
  lemma DecodeIff(bs: seq<byte>, text: seq<CodePoint>)
    ensures Decode(bs) == Some(text) <==> Encodable(text) && Encode(text) == bs
  {
    if Decode(bs) == Some(text) {
      EncodeDecode(bs);
    }
    if Encodable(text) && Encode(text) == bs {
      DecodeEncode(text);
    }
  }

  lemma {:induction false} EncodeAppend(a: seq<CodePoint>, b: seq<CodePoint>)
    requires Encodable(a) && Encodable(b)
    ensures Encodable(a + b) && Encode(a + b) == Encode(a) + Encode(b)
  {
    if a == [] {
      assert a + b == b;
    } else {
      EncodeAppend(a[1..], b);
      assert (a + b)[1..] == a[1..] + b;
      assert Encode(a + b) == EncodeOne(a[0]) + Encode(a[1..] + b);
    }
  }

  // ----- Replacement decoding -----

  /** `p` is the beginning, but not the whole, of some character's encoding. */
  ghost predicate StartsCharacter(p: seq<byte>) {
    exists c: CodePoint :: IsScalar(c) && |p| < |EncodeOne(c)| && p <= EncodeOne(c)
  }

  function CompletionOf(p: seq<byte>): CodePoint
    requires 1 <= |p| <= 3 && 0xC2 <= p[0] <= 0xF4
    requires |p| >= 2 ==> p[0] >= 0xE0 && SecondOk(p[0], p[1])
    requires |p| == 3 ==> p[0] >= 0xF0 && IsContinuation(p[2])
  {
    var second := if |p| >= 2 then p[1] else if p[0] == 0xE0 then 0xA0 else if p[0] == 0xF0 then 0x90 else 0x80;
    if p[0] < 0xE0 then Bits(p[0], 0xC0) * 64
    else if p[0] < 0xF0 then Bits(p[0], 0xE0) * 4096 + Bits(second, 0x80) * 64
    else Bits(p[0], 0xF0) * 262144 + Bits(second, 0x80) * 4096 + (if |p| == 3 then Bits(p[2], 0x80) * 64 else 0)
  }

  lemma CompletionStarts(p: seq<byte>)
    requires 1 <= |p| <= 3 && 0xC2 <= p[0] <= 0xF4
    requires |p| >= 2 ==> p[0] >= 0xE0 && SecondOk(p[0], p[1])
    requires |p| == 3 ==> p[0] >= 0xF0 && IsContinuation(p[2])
    ensures StartsCharacter(p)
  {
    var c := CompletionOf(p);
    var second := if |p| >= 2 then p[1] else if p[0] == 0xE0 then 0xA0 else if p[0] == 0xF0 then 0x90 else 0x80;
    if p[0] < 0xE0 {
      TwoBytes(p[0], 0x80);
    } else if p[0] < 0xF0 {
      ThreeBytes(p[0], second, 0x80);
    } else {
      FourBytes(p[0], second, if |p| == 3 then p[2] else 0x80, 0x80);
    }
    assert IsScalar(c) && |p| < |EncodeOne(c)| && p <= EncodeOne(c);
  }

  /** Bytes that agree with a character's first `k` either complete it or go wrong at `k` or later. */
  lemma PrefixScansShort(bs: seq<byte>, c: CodePoint, k: nat)
    requires IsScalar(c) && 1 <= k <= |bs| && k < |EncodeOne(c)| && bs[..k] <= EncodeOne(c)
    ensures Scan(bs).len >= k
  {
    var e := EncodeOne(c);
    assert forall i :: 0 <= i < k ==> bs[i] == bs[..k][i] == e[i];
  }

  /** The run replaced by one U+FFFD is a maximal subpart (section 3.9 of the Unicode Standard):
      nothing longer begins a character, and it begins one itself unless it is a single byte. */
  lemma BadIsMaximalSubpart(bs: seq<byte>, k: nat)
    requires bs != [] && Scan(bs).Bad?
    ensures Scan(bs).len == 1 || StartsCharacter(bs[..Scan(bs).len])
    ensures Scan(bs).len < k <= |bs| ==> !StartsCharacter(bs[..k])
    ensures k <= |bs| ==> forall c: CodePoint :: IsScalar(c) ==> EncodeOne(c) != bs[..k]
  {
    var len := Scan(bs).len;
    if len > 1 {
      CompletionStarts(bs[..len]);
    }
    if len < k <= |bs| && StartsCharacter(bs[..k]) {
      var c: CodePoint :| IsScalar(c) && k < |EncodeOne(c)| && bs[..k] <= EncodeOne(c);
      PrefixScansShort(bs, c, k);
    }
    if k <= |bs| {
      forall c: CodePoint | IsScalar(c)
        ensures EncodeOne(c) != bs[..k]
      {
        assert bs[..k] + bs[k..] == bs;
        ScanEncoded(c, bs[k..]);
      }
    }
  }

  lemma Regrouped(text: seq<CodePoint>, after: seq<CodePoint>)
    requires text != []
    ensures [text[0]] + (text[1..] + [0xFFFD] + after) == text + [0xFFFD] + after
  {
    assert [text[0]] + text[1..] == text;
  }

  /** Valid text is kept up to the first ill-formed run, which becomes one U+FFFD, and decoding goes on right
      after it. */
  lemma {:induction false} ReplaceAroundBad(text: seq<CodePoint>, bad: seq<byte>, rest: seq<byte>)
    requires Encodable(text) && bad != [] && Scan(bad + rest) == Bad(|bad|)
    ensures DecodeReplace(Encode(text) + (bad + rest)) == text + [0xFFFD] + DecodeReplace(rest)
  {
    if text == [] {
      assert Encode(text) + (bad + rest) == bad + rest;
      assert (bad + rest)[|bad|..] == rest;
    } else {
      var head, tail := EncodeOne(text[0]), Encode(text[1..]);
      Associate(head, tail, bad + rest);
      ReplaceChar(text[0], tail + (bad + rest));
      ReplaceAroundBad(text[1..], bad, rest);
      Regrouped(text, DecodeReplace(rest));
    }
  }

  lemma {:induction false} ReplaceOfValid(bs: seq<byte>)
    requires Decode(bs).Some?
    ensures DecodeReplace(bs) == Decode(bs).value
  {
    if bs != [] {
      ReplaceOfValid(bs[Scan(bs).len..]);
    }
  }

  lemma {:induction false} ReplaceNeverLonger(bs: seq<byte>)
    ensures |DecodeReplace(bs)| <= |bs|
  {
    if bs != [] {
      ReplaceNeverLonger(bs[Scan(bs).len..]);
    }
  }

  /** How many whole characters of `text` fit in `n` bytes. */
  function WholeChars(text: seq<CodePoint>, n: nat): (k: nat)
    requires Encodable(text)
    ensures k <= |text|
  {
    if text == [] || n < |EncodeOne(text[0])| then 0
    else 1 + WholeChars(text[1..], n - |EncodeOne(text[0])|)
  }

  lemma {:induction false} WholeCharsIsLongest(text: seq<CodePoint>, n: nat, k: nat)
    requires Encodable(text) && k <= |text|
    ensures |Encode(text[..k])| <= n <==> k <= WholeChars(text, n)
  {
    if text != [] && k > 0 {
      assert text[..k][1..] == text[1..][..k - 1];
      var w := |EncodeOne(text[0])|;
      if w <= n {
        WholeCharsIsLongest(text[1..], n - w, k - 1);
      }
    } else {
      assert text[..k] == [];
    }
  }

  lemma CutInsideCharacter(c: CodePoint, n: nat)
    requires IsScalar(c) && 0 < n < |EncodeOne(c)|
    ensures DecodeReplace(EncodeOne(c)[..n]) == [REPLACEMENT]
  {
    var p := EncodeOne(c)[..n];
    assert Scan(p) == Bad(n);
    assert DecodeReplace(p[n..]) == [];
  }

  lemma ReplaceChar(c: CodePoint, rest: seq<byte>)
    requires IsScalar(c)
    ensures DecodeReplace(EncodeOne(c) + rest) == [c] + DecodeReplace(rest)
  {
    ScanEncoded(c, rest);
    assert (EncodeOne(c) + rest)[|EncodeOne(c)|..] == rest;
  }

  /** The first character does not fit. */
  lemma ReplaceOfCutFirst(c: CodePoint, rest: seq<byte>, n: nat)
    requires IsScalar(c) && n < |EncodeOne(c)|
    ensures DecodeReplace(Take(EncodeOne(c) + rest, n)) == if n > 0 then [REPLACEMENT] else []
  {
    assert Take(EncodeOne(c) + rest, n) == EncodeOne(c)[..n];
    if n > 0 {
      CutInsideCharacter(c, n);
    }
  }

  lemma TakePast(head: seq<byte>, tail: seq<byte>, n: nat)
    requires |head| <= n
    ensures Take(head + tail, n) == head + Take(tail, n - |head|)
  {
  }

  lemma EncodeCons(c: CodePoint, rest: seq<CodePoint>)
    requires IsScalar(c) && Encodable(rest)
    ensures Encodable([c] + rest) && Encode([c] + rest) == EncodeOne(c) + Encode(rest)
  {
    assert ([c] + rest)[1..] == rest;
  }

  /** The whole characters of `text` that fit in `n` bytes, and one U+FFFD if the next is begun. */
  function CutAt(text: seq<CodePoint>, n: nat): seq<CodePoint>
    requires Encodable(text)
  {
    var k := WholeChars(text, n);
    text[..k] + (if k < |text| && |Encode(text[..k])| < n then [0xFFFD] else [])
  }

  lemma CutAtCons(c: CodePoint, more: seq<CodePoint>, n: nat)
    requires IsScalar(c) && Encodable(more) && |EncodeOne(c)| <= n
    ensures Encodable([c] + more) && CutAt([c] + more, n) == [c] + CutAt(more, n - |EncodeOne(c)|)
  {
    var text := [c] + more;
    assert text[1..] == more;
    var k := WholeChars(more, n - |EncodeOne(c)|);
    assert WholeChars(text, n) == k + 1;
    assert text[..k + 1] == [c] + more[..k];
    EncodeCons(c, more[..k]);
  }

  /**
   * Valid output cut at any byte is reported as its whole-character prefix, followed by one U+FFFD
   * exactly when the cut falls inside a character.
   */
  lemma {:induction false} ReplaceOfCut(text: seq<CodePoint>, n: nat)
    requires Encodable(text)
    ensures DecodeReplace(Take(Encode(text), n)) == CutAt(text, n)
  {
    if text != [] {
      var c, more := text[0], text[1..];
      assert text == [c] + more;
      EncodeCons(c, more);
      if n < |EncodeOne(c)| {
        ReplaceOfCutFirst(c, Encode(more), n);
        assert text[..0] == [];
      } else {
        ReplaceOfCut(more, n - |EncodeOne(c)|);
        TakePast(EncodeOne(c), Encode(more), n);
        ReplaceChar(c, Take(Encode(more), n - |EncodeOne(c)|));
        CutAtCons(c, more, n);
      }
    }
  }
}

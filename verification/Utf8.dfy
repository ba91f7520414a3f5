/** The strict UTF-8 decoder shared by the compiler and the runtime. */
module Utf8 {

  type Byte = x: int | 0 <= x < 256

  const REPLACEMENT := 0xFFFD

  datatype Decoded = Decoded(length: nat, codepoint: nat)

  predicate IsContinuation(b: Byte) { 0x80 <= b <= 0xBF }

  function At(text: seq<Byte>, i: nat): (b: Byte) {
    if i < |text| then text[i] else 0
  }

  /** The character at `pos`; an invalid byte is one replacement character. At most four bytes are
      looked at, and none past the end. */
  function Decode(text: seq<Byte>, pos: nat): (d: Decoded)
    requires pos < |text|
    ensures 1 <= d.length <= 4 && pos + d.length <= |text|
  {
    DecodeBytes(text[pos], |text| - pos, At(text, pos + 1), At(text, pos + 2), At(text, pos + 3))
  }

  function DecodeBytes(lead: Byte, available: nat, second: Byte, third: Byte, fourth: Byte): (d: Decoded)
    requires available > 0
    ensures 1 <= d.length <= 4 && d.length <= available
  {
    var invalid := Decoded(1, REPLACEMENT);
    if lead < 0x80 then Decoded(1, lead)
    else if lead < 0xC2 || lead > 0xF4 then invalid
    else
      var bytes := if lead <= 0xDF then 2 else if lead <= 0xEF then 3 else 4;
      var secondMin := if lead == 0xE0 then 0xA0 else if lead == 0xF0 then 0x90 else 0x80;
      var secondMax := if lead == 0xED then 0x9F else if lead == 0xF4 then 0x8F else 0xBF;
      if available < bytes then invalid
      else if second < secondMin || second > secondMax then invalid
      else if bytes >= 3 && !IsContinuation(third) then invalid
      else if bytes == 4 && !IsContinuation(fourth) then invalid
      else
        var leadBits: nat := if bytes == 2 then lead % 32 else if bytes == 3 then lead % 16 else lead % 8;
        var two: nat := leadBits * 64 + second % 64;
        var three: nat := two * 64 + third % 64;
        Decoded(bytes, if bytes == 2 then two else if bytes == 3 then three else three * 64 + fourth % 64)
  }

  predicate IsScalar(c: int) {
    0 <= c <= 0x10FFFF && !(0xD800 <= c <= 0xDFFF)
  }

  /** The well-formed encoding of a scalar value. */
  function Encode(c: nat): (bytes: seq<Byte>)
    requires IsScalar(c)
  {
    if c < 0x80 then [c]
    else if c < 0x800 then [0xC0 + c / 64, 0x80 + c % 64]
    else if c < 0x10000 then [0xE0 + c / 4096, 0x80 + c / 64 % 64, 0x80 + c % 64]
    else [0xF0 + c / 262144, 0x80 + c / 4096 % 64, 0x80 + c / 64 % 64, 0x80 + c % 64]
  }

  // The decoder reads back every scalar value from its encoding, wherever it stands.
  lemma DecodeEncoded(before: seq<Byte>, c: nat, after: seq<Byte>)
    requires IsScalar(c)
    ensures Decode(before + Encode(c) + after, |before|) == Decoded(|Encode(c)|, c)
  {
    var text, pos, e := before + Encode(c) + after, |before|, Encode(c);
    hide Encode, DecodeBytes;
    assert text[pos] == e[0] by { EncodeLength(c); }
    EncodeLength(c);
    if |e| >= 2 { assert text[pos + 1] == e[1]; }
    if |e| >= 3 { assert text[pos + 2] == e[2]; }
    if |e| >= 4 { assert text[pos + 3] == e[3]; }
    DecodeEncodedBytes(c, |text| - pos, At(text, pos + 1), At(text, pos + 2), At(text, pos + 3));
  }

  lemma EncodeLength(c: nat)
    requires IsScalar(c)
    ensures 1 <= |Encode(c)| <= 4
  {
  }

  lemma DecodeEncodedBytes(c: nat, available: nat, second: Byte, third: Byte, fourth: Byte)
    requires IsScalar(c) && |Encode(c)| <= available
    requires |Encode(c)| >= 2 ==> second == Encode(c)[1]
    requires |Encode(c)| >= 3 ==> third == Encode(c)[2]
    requires |Encode(c)| >= 4 ==> fourth == Encode(c)[3]
    ensures |Encode(c)| >= 1 && available > 0
    ensures DecodeBytes(Encode(c)[0], available, second, third, fourth) == Decoded(|Encode(c)|, c)
  {
    if c < 0x80 {
    } else if c < 0x800 {
      DecodeTwo(c / 64, c % 64, available, third, fourth);
    } else if c < 0x10000 {
      Sextets(c);
      DecodeThree(c / 4096, c / 64 % 64, c % 64, available, fourth);
    } else {
      Sextets(c);
      DecodeFour(c / 262144, c / 4096 % 64, c / 64 % 64, c % 64, available);
    }
  }

  lemma Sextets(c: nat)
    ensures c == (c / 4096 * 64 + c / 64 % 64) * 64 + c % 64
    ensures c == ((c / 262144 * 64 + c / 4096 % 64) * 64 + c / 64 % 64) * 64 + c % 64
  {
    DivideTwice(c);
    DivideThrice(c);
  }

  lemma DivideTwice(c: nat)
    ensures c / 64 / 64 == c / 4096
  {
  }

  lemma DivideThrice(c: nat)
    ensures c / 4096 / 64 == c / 262144
  {
  }

  // Each length, in terms of the six-bit groups of the codepoint.
  lemma DecodeTwo(a: nat, b: nat, available: nat, third: Byte, fourth: Byte)
    requires b < 64 && 0x80 <= a * 64 + b < 0x800 && available >= 2
    ensures DecodeBytes(0xC0 + a, available, 0x80 + b, third, fourth) == Decoded(2, a * 64 + b)
  {
  }

  lemma DecodeThree(a: nat, b: nat, c: nat, available: nat, fourth: Byte)
    requires b < 64 && c < 64 && available >= 3
    requires var v := (a * 64 + b) * 64 + c; 0x800 <= v < 0x10000 && IsScalar(v)
    ensures DecodeBytes(0xE0 + a, available, 0x80 + b, 0x80 + c, fourth) == Decoded(3, (a * 64 + b) * 64 + c)
  {
  }

  lemma DecodeFour(a: nat, b: nat, c: nat, d: nat, available: nat)
    requires b < 64 && c < 64 && d < 64 && available >= 4
    requires var v := ((a * 64 + b) * 64 + c) * 64 + d; 0x10000 <= v && IsScalar(v)
    ensures DecodeBytes(0xF0 + a, available, 0x80 + b, 0x80 + c, 0x80 + d)
        == Decoded(4, ((a * 64 + b) * 64 + c) * 64 + d)
  {
  }

  // ---------- Nothing else decodes ----------

  lemma EncodeTwo(lead: Byte, second: Byte)
    requires 0xC2 <= lead <= 0xDF && IsContinuation(second)
    ensures var c := lead % 32 * 64 + second % 64; IsScalar(c) && Encode(c) == [lead, second]
  {
  }

  // The six-bit groups of a number put together from them.
  lemma SplitSextets(a: nat, b: nat, c: nat, d: nat)
    requires b < 64 && c < 64 && d < 64
    ensures var v := ((a * 64 + b) * 64 + c) * 64 + d;
            v / 262144 == a && v / 4096 == a * 64 + b && v / 4096 % 64 == b && v / 64 % 64 == c && v % 64 == d
  {
    var v := ((a * 64 + b) * 64 + c) * 64 + d;
    LastSextet((a * 64 + b) * 64 + c, d);
    LastSextet(a * 64 + b, c);
    LastSextet(a, b);
    LastTwo(a * 64 + b, c * 64 + d);
    LastThree(a, (b * 64 + c) * 64 + d);
    assert v == (a * 64 + b) * 4096 + (c * 64 + d);
    assert v == a * 262144 + ((b * 64 + c) * 64 + d);
  }

  lemma LastSextet(x: nat, y: nat)
    requires y < 64
    ensures (x * 64 + y) / 64 == x && (x * 64 + y) % 64 == y
  {
  }

  lemma LastTwo(x: nat, y: nat)
    requires y < 4096
    ensures (x * 4096 + y) / 4096 == x
  {
  }

  lemma LastThree(x: nat, y: nat)
    requires y < 262144
    ensures (x * 262144 + y) / 262144 == x
  {
  }

  lemma EncodeThree(a: nat, b: nat, c: nat)
    requires a < 16 && b < 64 && c < 64 && (a == 0 ==> b >= 0x20) && (a == 13 ==> b <= 0x1F)
    ensures var v := (a * 64 + b) * 64 + c; IsScalar(v) && Encode(v) == [0xE0 + a, 0x80 + b, 0x80 + c]
  {
    SplitSextets(0, a, b, c);
  }

  lemma EncodeFour(a: nat, b: nat, c: nat, d: nat)
    requires a <= 4 && b < 64 && c < 64 && d < 64 && (a == 0 ==> b >= 0x10) && (a == 4 ==> b <= 0x0F)
    ensures var v := ((a * 64 + b) * 64 + c) * 64 + d;
            IsScalar(v) && Encode(v) == [0xF0 + a, 0x80 + b, 0x80 + c, 0x80 + d]
  {
    SplitSextets(a, b, c, d);
  }

  // Each length, as the decoder accepts it.
  lemma DecodedBytes(lead: Byte, available: nat, second: Byte, third: Byte, fourth: Byte)
    requires available > 0
    ensures var d := DecodeBytes(lead, available, second, third, fourth);
            || d == Decoded(1, REPLACEMENT)
            || (IsScalar(d.codepoint) && Encode(d.codepoint) == [lead, second, third, fourth][..d.length])
  {
    hide Encode;
    var d := DecodeBytes(lead, available, second, third, fourth);
    if d == Decoded(1, REPLACEMENT) {
    } else if d.length == 1 {
      EncodeOne(lead);
    } else if d.length == 2 {
      EncodeTwo(lead, second);
    } else if d.length == 3 {
      EncodeThree(lead % 16, second % 64, third % 64);
    } else {
      EncodeFour(lead % 8, second % 64, third % 64, fourth % 64);
    }
  }

  lemma EncodeOne(lead: Byte)
    requires lead < 0x80
    ensures IsScalar(lead) && Encode(lead) == [lead]
  {
  }

  // What is decoded, but for the replacement character, is the encoding that stands there.
  lemma DecodedIsEncoding(text: seq<Byte>, pos: nat)
    requires pos < |text|
    ensures var d := Decode(text, pos);
            || d == Decoded(1, REPLACEMENT)
            || (IsScalar(d.codepoint) && Encode(d.codepoint) == text[pos..pos + d.length])
  {
    hide Encode, DecodeBytes;
    var d := Decode(text, pos);
    var bytes := [text[pos], At(text, pos + 1), At(text, pos + 2), At(text, pos + 3)];
    DecodedBytes(text[pos], |text| - pos, At(text, pos + 1), At(text, pos + 2), At(text, pos + 3));
    assert bytes[..d.length] == text[pos..pos + d.length];
  }

  ghost predicate EncodedAt(text: seq<Byte>, pos: nat, c: int) {
    IsScalar(c) && pos <= |text| && Encode(c) <= text[pos..]
  }

  // A character is read exactly where its encoding stands, and a byte that begins no encoding is one
  // replacement character.
  lemma DecodeExactly(text: seq<Byte>, pos: nat)
    requires pos < |text|
    ensures forall c: nat :: EncodedAt(text, pos, c) ==> Decode(text, pos) == Decoded(|Encode(c)|, c)
    ensures (forall c: nat :: !EncodedAt(text, pos, c)) ==> Decode(text, pos) == Decoded(1, 0xFFFD)
  {
    hide Encode, DecodeBytes;
    forall c: nat | EncodedAt(text, pos, c) ensures Decode(text, pos) == Decoded(|Encode(c)|, c) {
      var e := Encode(c);
      assert text[pos..][..|e|] == e;
      assert text == text[..pos] + e + text[pos + |e|..];
      DecodeEncoded(text[..pos], c, text[pos + |e|..]);
    }
    var d := Decode(text, pos);
    DecodedIsEncoding(text, pos);
    if d != Decoded(1, REPLACEMENT) {
      assert text[pos..pos + d.length] == text[pos..][..d.length];
      assert EncodedAt(text, pos, d.codepoint);
    }
  }

  /** The character c stands at p and ends before e: its encoding, or U+FFFD for a byte at which no
      encoding begins. */
  ghost predicate CharacterAt(text: seq<Byte>, p: nat, e: nat, c: int) {
    && p < e <= |text|
    && ((IsScalar(c) && text[p..e] == Encode(c))
        || (c == 0xFFFD && e == p + 1 && forall d: nat :: !EncodedAt(text, p, d)))
  }

  lemma CharacterIsDecoded(text: seq<Byte>, p: nat, e: nat, c: int)
    ensures CharacterAt(text, p, e, c) <==>
              p < |text| && Decode(text, p).codepoint == c && p + Decode(text, p).length == e
  {
    hide Encode, DecodeBytes;
    if p < |text| {
      DecodeExactly(text, p);
      DecodedIsEncoding(text, p);
      var d := Decode(text, p);
      if p < e <= |text| && IsScalar(c) && text[p..e] == Encode(c) {
        assert text[p..][..e - p] == Encode(c);
        assert EncodedAt(text, p, c);
      }
      if d == Decoded(1, REPLACEMENT) {
        ReplacementIsLonger();
        forall x: nat ensures !EncodedAt(text, p, x) {
          if EncodedAt(text, p, x) {
            LengthOne(x);
          }
        }
      }
    }
  }

  lemma ReplacementIsLonger()
    ensures |Encode(REPLACEMENT)| == 3
  {
  }

  lemma LengthOne(c: nat)
    requires IsScalar(c)
    ensures |Encode(c)| == 1 ==> c != REPLACEMENT
  {
  }
}

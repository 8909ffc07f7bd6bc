/**
 * Base64 in the form of section 4 of RFC 4648, as `Convert.ToBase64String`
 * writes it: the standard alphabet, '=' padding, no line breaks. The
 * decoder exists to state what the encoder preserves.
 */
module Base64 {
  import opened Wrappers

  newtype byte = x: int | 0 <= x < 256

  const Pad: char := '='

  /** The 64 characters of the alphabet. */
  predicate IsBase64Char(c: char)
  {
    ('A' <= c <= 'Z') || ('a' <= c <= 'z') || ('0' <= c <= '9') || c == '+' || c == '/'
  }

  /** The character that encodes the 6-bit value `v`. */
  function CharOf(v: int): (c: char)
    requires 0 <= v < 64
    ensures IsBase64Char(c)
  {
    if v < 26 then ('A' as int + v) as char
    else if v < 52 then ('a' as int + (v - 26)) as char
    else if v < 62 then ('0' as int + (v - 52)) as char
    else if v == 62 then '+'
    else '/'
  }

  /** The alphabet of Table 1 of RFC 4648, indexed by 6-bit value. */
  const Upper: string := "ABCDEFGHIJKLMNOPQRSTUVWXYZ"
  const Lower: string := "abcdefghijklmnopqrstuvwxyz"
  const Digits: string := "0123456789"
  const Alphabet: string := Upper + Lower + Digits + "+/"

  /** `CharOf` is the table of RFC 4648: value `v` is the character at position `v`. */
  lemma CharOfIsTable(v: int)
    requires 0 <= v < 64
    ensures CharOf(v) == Alphabet[v]
  {
    var front := Upper + Lower + Digits;
    assert |Upper| == 26 && |Lower| == 26 && |Digits| == 10;
    assert Alphabet == front + "+/";
    if v < 62 {
      assert Alphabet[v] == front[v];
      if v < 26 {
        UpperTable(v);
      } else if v < 52 {
        LowerTable(v - 26);
      } else {
        DigitsTable(v - 52);
      }
    }
  }

  lemma UpperTable(v: int)
    requires 0 <= v < 26
    ensures Upper[v] == ('A' as int + v) as char
  {
  }

  lemma LowerTable(v: int)
    requires 0 <= v < 26
    ensures Lower[v] == ('a' as int + v) as char
  {
  }

  lemma DigitsTable(v: int)
    requires 0 <= v < 10
    ensures Digits[v] == ('0' as int + v) as char
  {
  }

  /** The 6-bit value a character of the alphabet encodes. */
  function ValueOf(c: char): (v: int)
    requires IsBase64Char(c)
    ensures 0 <= v < 64
  {
    if 'A' <= c <= 'Z' then c as int - 'A' as int
    else if 'a' <= c <= 'z' then c as int - 'a' as int + 26
    else if '0' <= c <= '9' then c as int - '0' as int + 52
    else if c == '+' then 62
    else 63
  }

  /** `CharOf` and `ValueOf` are inverse bijections between 0..63 and the alphabet. */
  lemma ValueOfCharOf(v: int)
    requires 0 <= v < 64
    ensures ValueOf(CharOf(v)) == v
  {
  }

  lemma CharOfValueOf(c: char)
    requires IsBase64Char(c)
    ensures CharOf(ValueOf(c)) == c
  {
  }

  /** Number of '=' closing the encoding of `n` bytes. */
  function PadCount(n: nat): nat
  {
    (3 - n % 3) % 3
  }

  lemma LengthStep(n: nat)
    ensures 4 * ((n + 3 + 2) / 3) == 4 + 4 * ((n + 2) / 3)
  {
  }

  lemma PadCountStep(n: nat)
    ensures PadCount(n + 3) == PadCount(n)
  {
  }

  /** Three bytes, 24 bits, as four characters. */
  function EncodeGroup(b0: byte, b1: byte, b2: byte): (s: string)
    ensures |s| == 4 && forall i :: 0 <= i < 4 ==> IsBase64Char(s[i])
  {
    [ CharOf(b0 as int / 4), CharOf(b0 as int % 4 * 16 + b1 as int / 16),
      CharOf(b1 as int % 16 * 4 + b2 as int / 64), CharOf(b2 as int % 64) ]
  }

  /**
   * The encoding of `b`: four characters per three bytes, the last group
   * filled up with zero bits and '=' characters.
   */
  function Encode(b: seq<byte>): (s: string)
    ensures |s| == 4 * ((|b| + 2) / 3)
    decreases |b|
  {
    if |b| == 0 then []
    else if |b| < 3 then EncodeLast(b)
    else
      LengthStep(|b[3..]|);
      EncodeGroup(b[0], b[1], b[2]) + Encode(b[3..])
  }

  /** One or two closing bytes, filled up with zero bits to two or three characters and then '='. */
  function EncodeLast(b: seq<byte>): (s: string)
    requires 1 <= |b| <= 2
    ensures |s| == 4 && PaddedText(s, 3 - |b|)
  {
    if |b| == 1 then
      [CharOf(b[0] as int / 4), CharOf(b[0] as int % 4 * 16), Pad, Pad]
    else
      [CharOf(b[0] as int / 4), CharOf(b[0] as int % 4 * 16 + b[1] as int / 16),
       CharOf(b[1] as int % 16 * 4), Pad]
  }

  /**
   * `s` is characters of the alphabet followed by `pads` padding
   * characters.
   */
  predicate PaddedText(s: string, pads: nat)
  {
    pads <= |s|
    && (forall i :: 0 <= i < |s| - pads ==> IsBase64Char(s[i]))
    && (forall i :: |s| - pads <= i < |s| ==> s[i] == Pad)
  }

  /**
   * An encoding is characters of the alphabet followed by exactly
   * `PadCount(|b|)` padding characters.
   */
  lemma {:induction false} EncodeAlphabet(b: seq<byte>)
    ensures PaddedText(Encode(b), PadCount(|b|))
    decreases |b|
  {
    if |b| >= 3 {
      EncodeAlphabet(b[3..]);
      PadCountStep(|b[3..]|);
      assert Encode(b) == EncodeGroup(b[0], b[1], b[2]) + Encode(b[3..]);
      GroupInFront(EncodeGroup(b[0], b[1], b[2]), Encode(b[3..]), PadCount(|b|));
    }
  }

  /** Four characters of the alphabet in front keep a text padded. */
  lemma GroupInFront(g: string, rest: string, pads: nat)
    requires |g| == 4 && forall i :: 0 <= i < 4 ==> IsBase64Char(g[i])
    requires PaddedText(rest, pads)
    ensures PaddedText(g + rest, pads)
  {
    forall i | 4 <= i < |g + rest|
      ensures (g + rest)[i] == rest[i - 4]
    {
    }
  }

  /** Four characters of the alphabet as three bytes. */
  function DecodeGroup(c0: char, c1: char, c2: char, c3: char): Option<seq<byte>>
  {
    if IsBase64Char(c0) && IsBase64Char(c1) && IsBase64Char(c2) && IsBase64Char(c3) then
      var v0, v1, v2, v3 := ValueOf(c0), ValueOf(c1), ValueOf(c2), ValueOf(c3);
      Some([(v0 * 4 + v1 / 16) as byte, (v1 % 16 * 16 + v2 / 4) as byte, (v2 % 4 * 64 + v3) as byte])
    else None
  }

  /** The last four characters, which may end in one or two '='. */
  function DecodeLast(c0: char, c1: char, c2: char, c3: char): Option<seq<byte>>
  {
    if c2 == Pad && c3 == Pad then
      if IsBase64Char(c0) && IsBase64Char(c1) then
        Some([(ValueOf(c0) * 4 + ValueOf(c1) / 16) as byte])
      else None
    else if c3 == Pad then
      if IsBase64Char(c0) && IsBase64Char(c1) && IsBase64Char(c2) then
        var v0, v1, v2 := ValueOf(c0), ValueOf(c1), ValueOf(c2);
        Some([(v0 * 4 + v1 / 16) as byte, (v1 % 16 * 16 + v2 / 4) as byte])
      else None
    else DecodeGroup(c0, c1, c2, c3)
  }

  /** The bytes `s` encodes, or None when `s` is not an encoding. */
  function Decode(s: string): Option<seq<byte>>
    decreases |s|
  {
    if |s| == 0 then Some([])
    else if |s| < 4 then None
    else if |s| == 4 then DecodeLast(s[0], s[1], s[2], s[3])
    else
      match DecodeGroup(s[0], s[1], s[2], s[3])
      case None => None
      case Some(g) =>
        match Decode(s[4..])
        case None => None
        case Some(rest) => Some(g + rest)
  }

  /** Decoding a full group gives back its three bytes. */
  lemma GroupRoundTrip(b0: byte, b1: byte, b2: byte)
    ensures var g := EncodeGroup(b0, b1, b2);
      DecodeGroup(g[0], g[1], g[2], g[3]) == Some([b0, b1, b2])
  {
    var x0, x1, x2 := b0 as int, b1 as int, b2 as int;
    ValueOfCharOf(x0 / 4);
    ValueOfCharOf(x0 % 4 * 16 + x1 / 16);
    ValueOfCharOf(x1 % 16 * 4 + x2 / 64);
    ValueOfCharOf(x2 % 64);
    Join(x0 % 4, x1 / 16, 16);
    Join(x1 % 16, x2 / 64, 4);
  }

  /** The value `h * k + l`, with `l < k`, splits back into `h` and `l`. */
  lemma Join(h: int, l: int, k: int)
    requires 0 <= h && 0 <= l < k && (k == 4 || k == 16 || k == 64)
    ensures (h * k + l) / k == h && (h * k + l) % k == l
  {
    if k == 4 {
      assert (h * 4 + l) / 4 == h;
    } else if k == 16 {
      assert (h * 16 + l) / 16 == h;
    } else {
      assert (h * 64 + l) / 64 == h;
    }
  }

  /** Decoding the encoding of one byte gives it back. */
  lemma OneByteRoundTrip(b0: byte)
    ensures Decode(Encode([b0])) == Some([b0])
  {
    var x0 := b0 as int;
    ValueOfCharOf(x0 / 4);
    ValueOfCharOf(x0 % 4 * 16);
    Join(x0 % 4, 0, 16);
    var s := Encode([b0]);
    assert s == EncodeLast([b0]) == [CharOf(x0 / 4), CharOf(x0 % 4 * 16), Pad, Pad];
  }

  /** Decoding the encoding of two bytes gives them back. */
  lemma TwoBytesRoundTrip(b0: byte, b1: byte)
    ensures Decode(Encode([b0, b1])) == Some([b0, b1])
  {
    var x0, x1 := b0 as int, b1 as int;
    ValueOfCharOf(x0 / 4);
    ValueOfCharOf(x0 % 4 * 16 + x1 / 16);
    ValueOfCharOf(x1 % 16 * 4);
    Join(x0 % 4, x1 / 16, 16);
    Join(x1 % 16, 0, 4);
    var s := Encode([b0, b1]);
    assert s == EncodeLast([b0, b1]) == [CharOf(x0 / 4), CharOf(x0 % 4 * 16 + x1 / 16), CharOf(x1 % 16 * 4), Pad];
  }

  /** Decoding undoes encoding. */
  lemma {:induction false} DecodeEncode(b: seq<byte>)
    ensures Decode(Encode(b)) == Some(b)
    decreases |b|
  {
    if |b| == 1 {
      OneByteRoundTrip(b[0]);
      ShortSequence(b);
    } else if |b| == 2 {
      TwoBytesRoundTrip(b[0], b[1]);
      ShortSequence(b);
    } else if |b| == 3 {
      ThreeBytesRoundTrip(b);
    } else if |b| > 3 {
      DecodeEncode(b[3..]);
      GroupThenRest(b);
    }
  }

  /** Decoding the encoding of three bytes gives them back. */
  lemma ThreeBytesRoundTrip(b: seq<byte>)
    requires |b| == 3
    ensures Decode(Encode(b)) == Some(b)
  {
    EncodeThree(b);
    FullGroupRoundTrip(b[0], b[1], b[2]);
    ShortSequence(b);
  }

  /** A sequence of up to three bytes is the display of its elements. */
  lemma ShortSequence(b: seq<byte>)
    requires |b| <= 3
    ensures |b| == 1 ==> b == [b[0]]
    ensures |b| == 2 ==> b == [b[0], b[1]]
    ensures |b| == 3 ==> b == [b[0], b[1], b[2]]
  {
  }

  /** Three bytes are encoded as one group. */
  lemma EncodeThree(b: seq<byte>)
    requires |b| == 3
    ensures Encode(b) == EncodeGroup(b[0], b[1], b[2])
  {
    assert Encode(b[3..]) == [];
  }

  /** A group on its own decodes to its three bytes. */
  lemma FullGroupRoundTrip(b0: byte, b1: byte, b2: byte)
    ensures Decode(EncodeGroup(b0, b1, b2)) == Some([b0, b1, b2])
  {
    GroupRoundTrip(b0, b1, b2);
    DecodeLastGroup(EncodeGroup(b0, b1, b2), [b0, b1, b2]);
  }

  /** A last group without padding decodes as a full group. */
  lemma DecodeLastGroup(g: string, x: seq<byte>)
    requires |g| == 4 && forall i :: 0 <= i < 4 ==> IsBase64Char(g[i])
    requires DecodeGroup(g[0], g[1], g[2], g[3]) == Some(x)
    ensures Decode(g) == Some(x)
  {
    assert g[2] != Pad && g[3] != Pad;
  }

  /** A full group in front of a decodable encoding decodes to its bytes in front. */
  lemma GroupThenRest(b: seq<byte>)
    requires |b| > 3 && Decode(Encode(b[3..])) == Some(b[3..])
    ensures Decode(Encode(b)) == Some(b)
  {
    var g, rest := EncodeGroup(b[0], b[1], b[2]), Encode(b[3..]);
    assert Encode(b) == g + rest;
    GroupRoundTrip(b[0], b[1], b[2]);
    DecodeCons(g, rest, [b[0], b[1], b[2]], b[3..]);
    FirstThree(b);
  }

  lemma FirstThree(b: seq<byte>)
    requires |b| >= 3
    ensures b == [b[0], b[1], b[2]] + b[3..]
  {
    assert b[..3] == [b[0], b[1], b[2]];
    assert b[..3] + b[3..] == b;
  }

  /** Decoding a group followed by more characters decodes the group, then the rest. */
  lemma DecodeCons(g: string, rest: string, x: seq<byte>, y: seq<byte>)
    requires |g| == 4 && |rest| > 0
    requires DecodeGroup(g[0], g[1], g[2], g[3]) == Some(x) && Decode(rest) == Some(y)
    ensures Decode(g + rest) == Some(x + y)
  {
    var s := g + rest;
    assert s[0] == g[0] && s[1] == g[1] && s[2] == g[2] && s[3] == g[3];
    assert s[4..] == rest;
  }

  /** Encoding is injective: different byte strings have different encodings. */
  lemma EncodeInjective(b: seq<byte>, c: seq<byte>)
    ensures Encode(b) == Encode(c) <==> b == c
  {
    DecodeEncode(b);
    DecodeEncode(c);
  }

  /** Test vectors of section 10 of RFC 4648: "f", "fo", "foo" and "foob". */
  lemma KnownAnswerF()
    ensures Encode([0x66]) == "Zg=="
  {
  }

  lemma KnownAnswerFo()
    ensures Encode([0x66, 0x6F]) == "Zm8="
  {
  }

  lemma KnownAnswerFoo()
    ensures Encode([0x66, 0x6F, 0x6F]) == "Zm9v"
  {
    var b: seq<byte> := [0x66, 0x6F, 0x6F];
    EncodeThree(b);
    assert b[0] == 0x66 && b[1] == 0x6F && b[2] == 0x6F;
    GroupFoo();
  }

  lemma KnownAnswerFoob()
    ensures Encode([0x66, 0x6F, 0x6F, 0x62]) == "Zm9vYg=="
  {
    var b: seq<byte> := [0x66, 0x6F, 0x6F, 0x62];
    assert b[3..] == [0x62];
    assert Encode(b[3..]) == "Yg==";
    GroupFoo();
  }

  /** The group "foo" is "Zm9v": the 6-bit values 25, 38, 61 and 47. */
  lemma GroupFoo()
    ensures EncodeGroup(0x66, 0x6F, 0x6F) == "Zm9v"
  {
    assert CharOf(25) == 'Z' && CharOf(38) == 'm' && CharOf(61) == '9' && CharOf(47) == 'v';
    GroupDisplay(0x66, 0x6F, 0x6F, 'Z', 'm', '9', 'v');
  }

  lemma GroupDisplay(b0: byte, b1: byte, b2: byte, c0: char, c1: char, c2: char, c3: char)
    requires CharOf(b0 as int / 4) == c0 && CharOf(b0 as int % 4 * 16 + b1 as int / 16) == c1
    requires CharOf(b1 as int % 16 * 4 + b2 as int / 64) == c2 && CharOf(b2 as int % 64) == c3
    ensures EncodeGroup(b0, b1, b2) == [c0, c1, c2, c3]
  {
  }
}

/**
 * The base64 text that System.Text.Json writes for a byte[] member and reads
 * back when binding one (the standard alphabet of section 4 of RFC 4648, with
 * '=' padding). Product row versions travel in the event payload this way.
 */
module Base64 {
  import opened Primitives

  /** The digit that stands for a 6-bit value. */
  function Digit(i: nat): (c: char)
    requires i < 64
    ensures c != '='
  {
    if i < 26 then (65 + i) as char
    else if i < 52 then (97 + i - 26) as char
    else if i < 62 then (48 + i - 52) as char
    else if i == 62 then '+'
    else '/'
  }

  /** The 6-bit value of a digit; None for a character outside the alphabet. */
  function Value(c: char): (r: Option<nat>)
    ensures r.Some? ==> r.value < 64
    ensures c == '=' ==> r.None?
  {
    if 'A' <= c <= 'Z' then Some(c as int - 65)
    else if 'a' <= c <= 'z' then Some(c as int - 97 + 26)
    else if '0' <= c <= '9' then Some(c as int - 48 + 52)
    else if c == '+' then Some(62)
    else if c == '/' then Some(63)
    else None
  }

  lemma ValueOfDigit(i: nat)
    requires i < 64
    ensures Value(Digit(i)) == Some(i)
  {
  }

  /** Three bytes as four digits. */
  function EncodeGroup(b0: byte, b1: byte, b2: byte): string {
    [Digit(b0 as nat / 4), Digit(b0 as nat % 4 * 16 + b1 as nat / 16),
     Digit(b1 as nat % 16 * 4 + b2 as nat / 64), Digit(b2 as nat % 64)]
  }

  /** The padded base64 text of a byte string. */
  function Encode(b: seq<byte>): (s: string)
    ensures |s| == 0 <==> |b| == 0
    ensures |b| > 0 ==> |s| >= 4
    decreases |b|
  {
    if |b| == 0 then []
    else if |b| == 1 then
      [Digit(b[0] as nat / 4), Digit(b[0] as nat % 4 * 16), '=', '=']
    else if |b| == 2 then
      [Digit(b[0] as nat / 4), Digit(b[0] as nat % 4 * 16 + b[1] as nat / 16),
       Digit(b[1] as nat % 16 * 4), '=']
    else
      EncodeGroup(b[0], b[1], b[2]) + Encode(b[3..])
  }

  /** Four digits as three bytes; None if one of them is not a digit. */
  function DecodeGroup(c0: char, c1: char, c2: char, c3: char): Option<seq<byte>> {
    match (Value(c0), Value(c1), Value(c2), Value(c3))
    case (Some(v0), Some(v1), Some(v2), Some(v3)) =>
      Some([(v0 * 4 + v1 / 16) as byte, (v1 % 16 * 16 + v2 / 4) as byte, (v2 % 4 * 64 + v3) as byte])
    case _ => None
  }

  /** The last four characters, which may end in one or two '=' pads. */
  function DecodeLast(c0: char, c1: char, c2: char, c3: char): Option<seq<byte>> {
    if c2 == '=' && c3 == '=' then
      match (Value(c0), Value(c1))
      case (Some(v0), Some(v1)) => Some([(v0 * 4 + v1 / 16) as byte])
      case _ => None
    else if c3 == '=' then
      match (Value(c0), Value(c1), Value(c2))
      case (Some(v0), Some(v1), Some(v2)) =>
        Some([(v0 * 4 + v1 / 16) as byte, (v1 % 16 * 16 + v2 / 4) as byte])
      case _ => None
    else
      DecodeGroup(c0, c1, c2, c3)
  }

  /**
   * The bytes a base64 text stands for; None when its length is not a
   * multiple of four, a character is outside the alphabet, or a pad is
   * misplaced. Unused low bits of a padded group are ignored.
   */
  function Decode(s: string): (r: Option<seq<byte>>)
    ensures r.Some? ==> |s| % 4 == 0
    ensures r.Some? ==> (r.value == [] <==> |s| == 0)
    ensures r.Some? ==> |r.value| <= |s|
    decreases |s|
  {
    if |s| == 0 then Some([])
    else if |s| < 4 then None
    else if |s| == 4 then DecodeLast(s[0], s[1], s[2], s[3])
    else
      match DecodeGroup(s[0], s[1], s[2], s[3])
      case None => None
      case Some(g) =>
        match Decode(s[4..])
        case None => None
        case Some(rest) => Some(g + rest)
  }

  /** Decoding the four digits of a full group gives its three bytes back. */
  lemma DecodeEncodeGroup(b0: byte, b1: byte, b2: byte)
    ensures var g := EncodeGroup(b0, b1, b2);
      DecodeGroup(g[0], g[1], g[2], g[3]) == Some([b0, b1, b2])
  {
    SplitJoin(b0 as nat, b1 as nat, b2 as nat);
    ValueOfDigit(b0 as nat / 4);
    ValueOfDigit(b0 as nat % 4 * 16 + b1 as nat / 16);
    ValueOfDigit(b1 as nat % 16 * 4 + b2 as nat / 64);
    ValueOfDigit(b2 as nat % 64);
  }

  /** Two digits and two pads decode to one byte. */
  lemma DecodeLastDoublePadded(v0: nat, v1: nat)
    requires v0 < 64 && v1 < 64
    ensures DecodeLast(Digit(v0), Digit(v1), '=', '=') == Some([(v0 * 4 + v1 / 16) as byte])
  {
    ValueOfDigit(v0);
    ValueOfDigit(v1);
  }

  /** A final group holding one byte decodes to that byte. */
  lemma DecodeEncodeOne(b: seq<byte>)
    requires |b| == 1
    ensures Decode(Encode(b)) == Some(b)
  {
    var v0, v1 := b[0] as nat / 4, b[0] as nat % 4 * 16;
    assert b == [(v0 * 4 + v1 / 16) as byte];
    assert Encode(b) == [Digit(v0), Digit(v1), '=', '='];
    DecodeLastDoublePadded(v0, v1);
  }

  /** The bit arithmetic behind a group: the digits' values give the bytes back. */
  lemma SplitJoin(b0: nat, b1: nat, b2: nat)
    requires b0 < 256 && b1 < 256 && b2 < 256
    ensures var v1 := b0 % 4 * 16 + b1 / 16; b0 / 4 * 4 + v1 / 16 == b0
    ensures var v1, v2 := b0 % 4 * 16 + b1 / 16, b1 % 16 * 4 + b2 / 64; v1 % 16 * 16 + v2 / 4 == b1
    ensures var v2 := b1 % 16 * 4 + b2 / 64; v2 % 4 * 64 + b2 % 64 == b2
  {
  }

  /** Three digits and one pad decode to two bytes. */
  lemma DecodeLastPadded(v0: nat, v1: nat, v2: nat)
    requires v0 < 64 && v1 < 64 && v2 < 64
    ensures DecodeLast(Digit(v0), Digit(v1), Digit(v2), '=')
         == Some([(v0 * 4 + v1 / 16) as byte, (v1 % 16 * 16 + v2 / 4) as byte])
  {
    ValueOfDigit(v0);
    ValueOfDigit(v1);
    ValueOfDigit(v2);
  }

  /** A final group holding two bytes decodes to those bytes. */
  lemma DecodeEncodeTwo(b: seq<byte>)
    requires |b| == 2
    ensures Decode(Encode(b)) == Some(b)
  {
    assert b == [b[0], b[1]];
    var v0, v1, v2 := b[0] as nat / 4, b[0] as nat % 4 * 16 + b[1] as nat / 16, b[1] as nat % 16 * 4;
    SplitJoin(b[0] as nat, b[1] as nat, 0);
    assert (v0 * 4 + v1 / 16) as byte == b[0];
    assert (v1 % 16 * 16 + v2 / 4) as byte == b[1];
    DecodeLastPadded(v0, v1, v2);
    assert Encode(b) == [Digit(v0), Digit(v1), Digit(v2), '='];
  }

  /** A final full group decodes to its three bytes. */
  lemma DecodeEncodeThree(b: seq<byte>)
    requires |b| == 3
    ensures Decode(Encode(b)) == Some(b)
  {
    var g := EncodeGroup(b[0], b[1], b[2]);
    DecodeEncodeGroup(b[0], b[1], b[2]);
    assert Encode(b) == g + Encode(b[3..]) == g;
    assert g[3] != '=';
    assert Decode(g) == DecodeGroup(g[0], g[1], g[2], g[3]);
    assert b == [b[0], b[1], b[2]];
  }

  lemma SplitThree(b: seq<byte>)
    requires |b| >= 3
    ensures b == [b[0], b[1], b[2]] + b[3..]
  {
  }

  /** The base64 text of n bytes has 4 characters for every started group of three. */
  lemma {:induction false} EncodeLength(b: seq<byte>)
    ensures |Encode(b)| == (|b| + 2) / 3 * 4
    decreases |b|
  {
    if |b| > 3 {
      assert |Encode(b[3..])| == (|b| - 1) / 3 * 4 by {
        EncodeLength(b[3..]);
      }
      assert |Encode(b)| == 4 + |Encode(b[3..])| by {
        EncodeUnfold(b);
      }
    }
  }

  /** Text of at least three bytes: the first group's digits, then the rest's text. */
  lemma EncodeUnfold(b: seq<byte>)
    requires |b| >= 3
    ensures Encode(b) == EncodeGroup(b[0], b[1], b[2]) + Encode(b[3..])
  {
  }

  /** One byte encodes to a digit with zero low bits and two pads. */
  lemma LastGroupOne(r: seq<byte>)
    requires |r| == 1
    ensures var g := Encode(r);
      |g| == 4 && g[2..] == "==" && Value(g[1]).Some? && Value(g[1]).value % 16 == 0
  {
    ValueOfDigit(r[0] as nat % 4 * 16);
  }

  /** Two bytes encode to a third digit with zero low bits and one pad. */
  lemma LastGroupTwo(r: seq<byte>)
    requires |r| == 2
    ensures var g := Encode(r);
      |g| == 4 && g[3] == '=' && Value(g[2]).Some? && Value(g[2]).value % 4 == 0
  {
    ValueOfDigit(r[1] as nat % 16 * 4);
  }

  /**
   * The text is the canonical form of section 3.5 of RFC 4648: after one
   * trailing byte, the two "=" are preceded by a digit whose low four bits,
   * which no byte fills, are zero.
   */
  lemma {:induction false} EncodePadBitsZeroOne(b: seq<byte>)
    requires |b| % 3 == 1
    ensures var s := Encode(b);
      && |s| >= 4 && s[|s| - 2..] == "=="
      && Value(s[|s| - 3]).Some? && Value(s[|s| - 3]).value % 16 == 0
    decreases |b|
  {
    if |b| == 1 {
      LastGroupOne(b);
    } else {
      var g, t := EncodeGroup(b[0], b[1], b[2]), Encode(b[3..]);
      assert |t| >= 4 && t[|t| - 2..] == "==" && Value(t[|t| - 3]).Some? && Value(t[|t| - 3]).value % 16 == 0 by {
        EncodePadBitsZeroOne(b[3..]);
      }
      assert Encode(b) == g + t by {
        EncodeUnfold(b);
      }
      assert (g + t)[|g + t| - 2..] == t[|t| - 2..] && (g + t)[|g + t| - 3] == t[|t| - 3];
    }
  }

  /**
   * The same for two trailing bytes: the one "=" is preceded by a digit whose
   * low two bits are zero.
   */
  lemma {:induction false} EncodePadBitsZeroTwo(b: seq<byte>)
    requires |b| % 3 == 2
    ensures var s := Encode(b);
      && |s| >= 4 && s[|s| - 1] == '='
      && Value(s[|s| - 2]).Some? && Value(s[|s| - 2]).value % 4 == 0
    decreases |b|
  {
    if |b| == 2 {
      LastGroupTwo(b);
    } else {
      var g, t := EncodeGroup(b[0], b[1], b[2]), Encode(b[3..]);
      assert |t| >= 4 && t[|t| - 1] == '=' && Value(t[|t| - 2]).Some? && Value(t[|t| - 2]).value % 4 == 0 by {
        EncodePadBitsZeroTwo(b[3..]);
      }
      assert Encode(b) == g + t by {
        EncodeUnfold(b);
      }
      assert (g + t)[|g + t| - 1] == t[|t| - 1] && (g + t)[|g + t| - 2] == t[|t| - 2];
    }
  }

  /** The one-group test vectors of section 10 of RFC 4648: "f", "fo" and "foo". */
  lemma EncodeExamples()
    ensures Encode([0x66]) == "Zg=="
    ensures Encode([0x66, 0x6F]) == "Zm8="
    ensures Encode([0x66, 0x6F, 0x6F]) == "Zm9v"
  {
  }

  /** The last two digits: a group of high bytes uses "/" and "+" where the alphabet runs out. */
  lemma EncodeHighDigits()
    ensures Encode([0xFF, 0xFF, 0xFF]) == "////"
    ensures Encode([0xFB, 0xEF, 0xBE]) == "++++"
  {
  }

  /** A full group followed by more text decodes group by group. */
  lemma DecodeConcat(g: string, rest: string, x: seq<byte>, y: seq<byte>)
    requires |g| == 4 && |rest| >= 4
    requires DecodeGroup(g[0], g[1], g[2], g[3]) == Some(x)
    requires Decode(rest) == Some(y)
    ensures Decode(g + rest) == Some(x + y)
  {
    var s := g + rest;
    assert s[0] == g[0] && s[1] == g[1] && s[2] == g[2] && s[3] == g[3];
    assert s[4..] == rest;
  }

  /** The encoding of more than three bytes decodes to them, given that the rest does. */
  lemma DecodeEncodeMore(b: seq<byte>)
    requires |b| > 3
    requires Decode(Encode(b[3..])) == Some(b[3..])
    ensures Decode(Encode(b)) == Some(b)
  {
    SplitThree(b);
    var g := EncodeGroup(b[0], b[1], b[2]);
    assert Encode(b) == g + Encode(b[3..]);
    DecodeEncodeGroup(b[0], b[1], b[2]);
    DecodeConcat(g, Encode(b[3..]), [b[0], b[1], b[2]], b[3..]);
  }

  /** Base64 loses nothing: decoding the encoding of any byte string gives it back. */
  lemma {:induction false} DecodeEncode(b: seq<byte>)
    ensures Decode(Encode(b)) == Some(b)
    decreases |b|
  {
    if |b| == 1 {
      DecodeEncodeOne(b);
    } else if |b| == 2 {
      DecodeEncodeTwo(b);
    } else if |b| == 3 {
      DecodeEncodeThree(b);
    } else if |b| > 3 {
      DecodeEncode(b[3..]);
      DecodeEncodeMore(b);
    }
  }
}

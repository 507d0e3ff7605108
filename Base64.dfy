/**
 * The Base64 text encoding of section 4 of RFC 4648 (alphabet A-Z a-z 0-9 + /,
 * '=' padding), as `android.util.Base64` produces it with the `NO_WRAP` flag:
 * one line, no line breaks. The account vault stores every private key this way
 * once its data is migrated.
 */
module Base64 {
  import opened Wrappers

  type byte = x: int | 0 <= x < 256
  type sextet = x: int | 0 <= x < 64

  const Pad: char := '='

  /** The character that stands for a 6-bit value (Table 1 of RFC 4648). */
  function CharOf(v: sextet): (c: char)
    ensures c != Pad
  {
    if v < 26 then ('A' as int + v) as char
    else if v < 52 then ('a' as int + (v - 26)) as char
    else if v < 62 then ('0' as int + (v - 52)) as char
    else if v == 62 then '+'
    else '/'
  }

  /** The 6-bit value a character stands for; None outside the alphabet. */
  function ValueOf(c: char): (r: Option<sextet>)
    ensures c == Pad ==> r.None?
  {
    if 'A' <= c <= 'Z' then Some(c as int - 'A' as int)
    else if 'a' <= c <= 'z' then Some(c as int - 'a' as int + 26)
    else if '0' <= c <= '9' then Some(c as int - '0' as int + 52)
    else if c == '+' then Some(62)
    else if c == '/' then Some(63)
    else None
  }

  lemma ValueOfCharOf(v: sextet)
    ensures ValueOf(CharOf(v)) == Some(v)
  {
  }

  lemma CharOfValueOf(c: char)
    requires ValueOf(c).Some?
    ensures CharOf(ValueOf(c).value) == c
  {
  }

  /** One full 24-bit group: three bytes become four characters. */
  function EncodeGroup(b0: byte, b1: byte, b2: byte): seq<char> {
    [CharOf(b0 / 4), CharOf((b0 % 4) * 16 + b1 / 16), CharOf((b1 % 16) * 4 + b2 / 64), CharOf(b2 % 64)]
  }

  /** Encoding of a byte sequence; a final group of one or two bytes is padded with '='. */
  function Encode(b: seq<byte>): (s: seq<char>)
    decreases |b|
  {
    if |b| == 0 then []
    else if |b| == 1 then [CharOf(b[0] / 4), CharOf((b[0] % 4) * 16), Pad, Pad]
    else if |b| == 2 then [CharOf(b[0] / 4), CharOf((b[0] % 4) * 16 + b[1] / 16), CharOf((b[1] % 16) * 4), Pad]
    else EncodeGroup(b[0], b[1], b[2]) + Encode(b[3..])
  }

  /** Four sextets back to the three bytes they carry. */
  function JoinGroup(v0: sextet, v1: sextet, v2: sextet, v3: sextet): (g: seq<byte>)
    ensures |g| == 3
  {
    [v0 as int * 4 + v1 as int / 16, (v1 as int % 16) * 16 + v2 as int / 4, (v2 as int % 4) * 64 + v3 as int]
  }

  /** Four alphabet characters back to three bytes. */
  function DecodeGroup(c0: char, c1: char, c2: char, c3: char): Option<seq<byte>> {
    var v0, v1, v2, v3 := ValueOf(c0), ValueOf(c1), ValueOf(c2), ValueOf(c3);
    if v0.Some? && v1.Some? && v2.Some? && v3.Some? then Some(JoinGroup(v0.value, v1.value, v2.value, v3.value))
    else None
  }

  /**
   * The last group of the text, which may carry one or two padding characters.
   * The bits that the padding leaves unused must be zero, so that every
   * accepted text is the encoding of exactly one byte sequence.
   */
  function DecodeLast(c0: char, c1: char, c2: char, c3: char): Option<seq<byte>> {
    var v0, v1, v2 := ValueOf(c0), ValueOf(c1), ValueOf(c2);
    if c3 != Pad then DecodeGroup(c0, c1, c2, c3)
    else if c2 == Pad then
      if v0.Some? && v1.Some? && v1.value % 16 == 0 then Some(JoinGroup(v0.value, v1.value, 0, 0)[..1]) else None
    else
      if v0.Some? && v1.Some? && v2.Some? && v2.value % 4 == 0 then Some(JoinGroup(v0.value, v1.value, v2.value, 0)[..2]) else None
  }

  /** Strict decoding: None for a text that is not a padded Base64 encoding. */
  function Decode(s: seq<char>): (r: Option<seq<byte>>)
    decreases |s|
  {
    if |s| == 0 then Some([])
    else if |s| < 4 then None
    else if |s| == 4 then DecodeLast(s[0], s[1], s[2], s[3])
    else
      var group, rest := DecodeGroup(s[0], s[1], s[2], s[3]), Decode(s[4..]);
      if group.Some? && rest.Some? then Some(group.value + rest.value) else None
  }

  /** The padded encoding has four characters per started group of three bytes. */
  lemma {:induction false} EncodeLength(b: seq<byte>)
    ensures |Encode(b)| == 4 * ((|b| + 2) / 3)
    decreases |b|
  {
    if |b| > 3 {
      EncodeLength(b[3..]);
      assert (|b| + 2) / 3 == 1 + (|b[3..]| + 2) / 3;
    }
  }

  /** An accepted text is exactly as long as the encoding of the bytes it yields. */
  lemma {:induction false} DecodeLength(s: seq<char>)
    requires Decode(s).Some?
    ensures |s| == 4 * ((|Decode(s).value| + 2) / 3)
    decreases |s|
  {
    if |s| > 4 {
      var group, rest := DecodeGroup(s[0], s[1], s[2], s[3]).value, Decode(s[4..]).value;
      DecodeLength(s[4..]);
      assert (|group + rest| + 2) / 3 == 1 + (|rest| + 2) / 3;
    }
  }

  /** Bit arithmetic of one group: bytes to sextets and back. */
  lemma SplitJoin(b0: byte, b1: byte, b2: byte)
    ensures var v0, v1, v2, v3 := b0 / 4, (b0 % 4) * 16 + b1 / 16, (b1 % 16) * 4 + b2 / 64, b2 % 64;
      0 <= v1 < 64 && 0 <= v2 < 64 && JoinGroup(v0, v1, v2, v3) == [b0, b1, b2]
  {
  }

  /** Bit arithmetic of one group: sextets to bytes and back. */
  lemma JoinSplit(v0: sextet, v1: sextet, v2: sextet, v3: sextet)
    ensures var g := JoinGroup(v0, v1, v2, v3);
      g[0] / 4 == v0 && (g[0] % 4) * 16 + g[1] / 16 == v1 && (g[1] % 16) * 4 + g[2] / 64 == v2 && g[2] % 64 == v3
  {
  }

  /** The padded encoding of a final lone byte decodes back to it. */
  lemma DecodeOneByte(b0: byte)
    ensures Decode(Encode([b0])) == Some([b0])
  {
    SplitJoin(b0, 0, 0);
    ValueOfCharOf(b0 / 4);
    ValueOfCharOf((b0 % 4) * 16);
    assert ((b0 % 4) * 16) % 16 == 0;
    assert JoinGroup(b0 / 4, (b0 % 4) * 16, 0, 0)[..1] == [b0];
  }

  /** The padded encoding of a final pair of bytes decodes back to it. */
  lemma DecodeTwoBytes(b0: byte, b1: byte)
    ensures Decode(Encode([b0, b1])) == Some([b0, b1])
  {
    SplitJoin(b0, b1, 0);
    ValueOfCharOf(b0 / 4);
    ValueOfCharOf((b0 % 4) * 16 + b1 / 16);
    ValueOfCharOf((b1 % 16) * 4);
    assert ((b1 % 16) * 4) % 4 == 0;
    assert JoinGroup(b0 / 4, (b0 % 4) * 16 + b1 / 16, (b1 % 16) * 4, 0)[..2] == [b0, b1];
  }

  /** A full group decodes back to its three bytes. */
  lemma DecodeThreeBytes(b0: byte, b1: byte, b2: byte)
    ensures var s := EncodeGroup(b0, b1, b2);
      DecodeGroup(s[0], s[1], s[2], s[3]) == Some([b0, b1, b2])
  {
    SplitJoin(b0, b1, b2);
    ValueOfCharOf(b0 / 4);
    ValueOfCharOf((b0 % 4) * 16 + b1 / 16);
    ValueOfCharOf((b1 % 16) * 4 + b2 / 64);
    ValueOfCharOf(b2 % 64);
  }

  /** Decoding inverts encoding (the round trip the vault relies on). */
  lemma {:induction false} DecodeEncode(b: seq<byte>)
    ensures Decode(Encode(b)) == Some(b)
    decreases |b|
  {
    if |b| == 0 {
    } else if |b| == 1 {
      DecodeOneByte(b[0]);
      assert [b[0]] == b;
    } else if |b| == 2 {
      DecodeTwoBytes(b[0], b[1]);
      assert [b[0], b[1]] == b;
    } else {
      var s := Encode(b);
      DecodeThreeBytes(b[0], b[1], b[2]);
      assert s[..4] == EncodeGroup(b[0], b[1], b[2]);
      if |b| > 3 {
        DecodeEncode(b[3..]);
        assert s[4..] == Encode(b[3..]);
        assert [b[0], b[1], b[2]] + b[3..] == b;
      } else {
        assert [b[0], b[1], b[2]] == b;
      }
    }
  }

  /** A final group with two padding characters re-encodes to itself. */
  lemma EncodeOneByte(c0: char, c1: char)
    requires DecodeLast(c0, c1, Pad, Pad).Some?
    ensures Encode(DecodeLast(c0, c1, Pad, Pad).value) == [c0, c1, Pad, Pad]
  {
    var v0, v1 := ValueOf(c0).value, ValueOf(c1).value;
    CharOfValueOf(c0);
    CharOfValueOf(c1);
    JoinSplit(v0, v1, 0, 0);
  }

  /** A final group with one padding character re-encodes to itself. */
  lemma EncodeTwoBytes(c0: char, c1: char, c2: char)
    requires c2 != Pad && DecodeLast(c0, c1, c2, Pad).Some?
    ensures Encode(DecodeLast(c0, c1, c2, Pad).value) == [c0, c1, c2, Pad]
  {
    var v0, v1, v2 := ValueOf(c0).value, ValueOf(c1).value, ValueOf(c2).value;
    CharOfValueOf(c0);
    CharOfValueOf(c1);
    CharOfValueOf(c2);
    JoinSplit(v0, v1, v2, 0);
  }

  /** A full group re-encodes to its four characters. */
  lemma EncodeThreeBytes(c0: char, c1: char, c2: char, c3: char)
    requires DecodeGroup(c0, c1, c2, c3).Some?
    ensures var g := DecodeGroup(c0, c1, c2, c3).value;
      EncodeGroup(g[0], g[1], g[2]) == [c0, c1, c2, c3]
  {
    var v0, v1, v2, v3 := ValueOf(c0).value, ValueOf(c1).value, ValueOf(c2).value, ValueOf(c3).value;
    CharOfValueOf(c0);
    CharOfValueOf(c1);
    CharOfValueOf(c2);
    CharOfValueOf(c3);
    JoinSplit(v0, v1, v2, v3);
  }

  /** A text of one group re-encodes to itself. */
  lemma EncodeDecodeLast(s: seq<char>)
    requires |s| == 4 && Decode(s).Some?
    ensures Encode(Decode(s).value) == s
  {
    if s[3] == Pad && s[2] == Pad {
      EncodeOneByte(s[0], s[1]);
      assert s == [s[0], s[1], Pad, Pad];
    } else if s[3] == Pad {
      EncodeTwoBytes(s[0], s[1], s[2]);
      assert s == [s[0], s[1], s[2], Pad];
    } else {
      var b := Decode(s).value;
      EncodeThreeBytes(s[0], s[1], s[2], s[3]);
      assert Encode(b) == EncodeGroup(b[0], b[1], b[2]) + Encode([]);
      assert s == [s[0], s[1], s[2], s[3]];
    }
  }

  /** Encoding a full group followed by more bytes. */
  lemma EncodeCons(group: seq<byte>, rest: seq<byte>)
    requires |group| == 3 && rest != []
    ensures Encode(group + rest) == EncodeGroup(group[0], group[1], group[2]) + Encode(rest)
  {
    var b := group + rest;
    assert b[..3] == group && b[3..] == rest;
  }

  /** Decoding a text longer than one group: its first group, then the rest, which is not empty. */
  lemma DecodeCons(s: seq<char>)
    requires |s| > 4 && Decode(s).Some?
    ensures DecodeGroup(s[0], s[1], s[2], s[3]).Some? && Decode(s[4..]).Some?
    ensures Decode(s).value == DecodeGroup(s[0], s[1], s[2], s[3]).value + Decode(s[4..]).value
    ensures Decode(s[4..]).value != []
  {
    DecodeLength(s[4..]);
  }

  /** A group followed by a non-empty rest re-encodes to the text it came from. */
  lemma EncodeDecodeStep(s: seq<char>, group: seq<byte>, rest: seq<byte>)
    requires |s| > 4 && DecodeGroup(s[0], s[1], s[2], s[3]) == Some(group)
    requires rest != [] && Encode(rest) == s[4..]
    ensures Encode(group + rest) == s
  {
    EncodeThreeBytes(s[0], s[1], s[2], s[3]);
    EncodeCons(group, rest);
    assert s == [s[0], s[1], s[2], s[3]] + s[4..];
  }

  /** Every accepted text is the encoding of what it decodes to: decoding is injective. */
  lemma {:induction false} EncodeDecode(s: seq<char>)
    requires Decode(s).Some?
    ensures Encode(Decode(s).value) == s
    decreases |s|
  {
    if |s| == 4 {
      EncodeDecodeLast(s);
    } else if |s| > 4 {
      DecodeCons(s);
      EncodeDecode(s[4..]);
      EncodeDecodeStep(s, DecodeGroup(s[0], s[1], s[2], s[3]).value, Decode(s[4..]).value);
    }
  }
}

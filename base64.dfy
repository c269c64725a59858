/**
 * The base 64 encoding of section 4 of RFC 4648 (alphabet `A-Z a-z 0-9 + /`, padding `=`),
 * as Python's `base64.b64encode` writes it and `base64.b64decode` reads it back.
 */
module Base64 {
  import opened Common

  type Sextet = n: int | 0 <= n < 64

  /** The character of the alphabet that stands for a 6-bit value. */
  function CharOf(n: Sextet): char
  {
    if n < 26 then ('A' as int + n) as char
    else if n < 52 then ('a' as int + (n - 26)) as char
    else if n < 62 then ('0' as int + (n - 52)) as char
    else if n == 62 then '+'
    else '/'
  }

  /** The 6-bit value a character stands for, `None` outside the alphabet (including `=`). */
  function SextetOf(c: char): (r: Option<Sextet>)
    ensures r.Some? ==> CharOf(r.value) == c
  {
    if 'A' <= c <= 'Z' then Some(c as int - 'A' as int)
    else if 'a' <= c <= 'z' then Some(c as int - 'a' as int + 26)
    else if '0' <= c <= '9' then Some(c as int - '0' as int + 52)
    else if c == '+' then Some(62)
    else if c == '/' then Some(63)
    else None
  }

  lemma SextetOfCharOf(n: Sextet)
    ensures SextetOf(CharOf(n)) == Some(n)
  {
  }

  predicate InAlphabet(c: char)
  {
    SextetOf(c).Some?
  }

  /** Three bytes as four characters. */
  function EncodeTriple(b0: Byte, b1: Byte, b2: Byte): string
  {
    [CharOf(b0 / 4), CharOf((b0 % 4) * 16 + b1 / 16), CharOf((b1 % 16) * 4 + b2 / 64), CharOf(b2 % 64)]
  }

  /** `base64.b64encode(bytes)`: four characters per three bytes, the last group padded with `=`. */
  function Encode(bs: seq<Byte>): (s: string)
    ensures |s| == 4 * ((|bs| + 2) / 3)
    decreases |bs|
  {
    if |bs| == 0 then []
    else if |bs| == 1 then [CharOf(bs[0] / 4), CharOf((bs[0] % 4) * 16), '=', '=']
    else if |bs| == 2 then [CharOf(bs[0] / 4), CharOf((bs[0] % 4) * 16 + bs[1] / 16), CharOf((bs[1] % 16) * 4), '=']
    else EncodeTriple(bs[0], bs[1], bs[2]) + Encode(bs[3..])
  }

  /** Decodes one group of four characters; `last` says whether padding may appear in it. */
  function DecodeQuad(q: string, last: bool): Option<seq<Byte>>
    requires |q| == 4
  {
    var s0, s1, s2, s3 := SextetOf(q[0]), SextetOf(q[1]), SextetOf(q[2]), SextetOf(q[3]);
    if s0.None? || s1.None? then None
    else if last && q[2] == '=' && q[3] == '=' then
      Some([s0.value * 4 + s1.value / 16])
    else if s2.None? then None
    else if last && q[3] == '=' then
      Some([s0.value * 4 + s1.value / 16, (s1.value % 16) * 16 + s2.value / 4])
    else if s3.None? then None
    else
      Some([s0.value * 4 + s1.value / 16, (s1.value % 16) * 16 + s2.value / 4, (s2.value % 4) * 64 + s3.value])
  }

  /**
   * `base64.b64decode(text)` on canonical text: groups of four alphabet characters, with
   * `=` padding only in the last group. `None` where Python raises `binascii.Error` because
   * the characters leave an incomplete group, and also on the non-canonical texts Python's
   * lenient decoder still accepts: ASCII characters outside the alphabet (which it skips;
   * a non-ASCII character makes it raise), text after a padded group (where it stops) and a
   * stray `=` after complete groups (which it ignores).
   */
  function Decode(s: string): Option<seq<Byte>>
    decreases |s|
  {
    if |s| == 0 then Some([])
    else if |s| < 4 then None
    else
      match DecodeQuad(s[..4], |s| == 4)
      case None => None
      case Some(head) =>
        match Decode(s[4..])
        case None => None
        case Some(tail) => Some(head + tail)
  }

  /** A group decodes to one to three bytes, and to three unless it may carry padding. */
  lemma DecodeQuadLength(q: string, last: bool)
    requires |q| == 4 && DecodeQuad(q, last).Some?
    ensures 1 <= |DecodeQuad(q, last).value| <= 3
    ensures !last ==> |DecodeQuad(q, last).value| == 3
  {
  }

  /** A decoded text is whole groups of four, giving three bytes each less at most two for padding. */
  lemma {:induction false} DecodeLength(s: string, bytes: seq<Byte>)
    requires Decode(s) == Some(bytes)
    ensures |s| % 4 == 0
    ensures 4 * |bytes| <= 3 * |s| <= 4 * |bytes| + 8
    decreases |s|
  {
    if |s| > 0 {
      var head, tail := DecodeStep(s);
      DecodeQuadLength(s[..4], |s| == 4);
      if |s| > 4 {
        DecodeLength(s[4..], tail);
        ModFourStep(|s[4..]|);
      }
    }
  }

  lemma ModFourStep(n: nat)
    requires n % 4 == 0
    ensures (n + 4) % 4 == 0
  {
  }

  /** A non-empty decoded text is its first group followed by the rest. */
  lemma DecodeStep(s: string) returns (head: seq<Byte>, tail: seq<Byte>)
    requires |s| > 0 && Decode(s).Some?
    ensures |s| >= 4 && DecodeQuad(s[..4], |s| == 4) == Some(head) && Decode(s[4..]) == Some(tail)
    ensures Decode(s).value == head + tail
    ensures |s| == 4 ==> tail == []
  {
    head, tail := DecodeQuad(s[..4], |s| == 4).value, Decode(s[4..]).value;
  }

  lemma DivMod16(a: int, r: int)
    requires 0 <= a && 0 <= r < 16
    ensures (a * 16 + r) / 16 == a && (a * 16 + r) % 16 == r
  {
  }

  lemma DivMod4(a: int, r: int)
    requires 0 <= a && 0 <= r < 4
    ensures (a * 4 + r) / 4 == a && (a * 4 + r) % 4 == r
  {
  }

  lemma DecodeTriple(b0: Byte, b1: Byte, b2: Byte, last: bool)
    ensures DecodeQuad(EncodeTriple(b0, b1, b2), last) == Some([b0, b1, b2])
  {
    var x0, x1, x2, x3 := b0 / 4, (b0 % 4) * 16 + b1 / 16, (b1 % 16) * 4 + b2 / 64, b2 % 64;
    SextetOfCharOf(x0); SextetOfCharOf(x1); SextetOfCharOf(x2); SextetOfCharOf(x3);
    DivMod16(b0 % 4, b1 / 16);
    DivMod4(b1 % 16, b2 / 64);
    assert x0 * 4 + x1 / 16 == b0;
    assert (x1 % 16) * 16 + x2 / 4 == b1;
    assert (x2 % 4) * 64 + x3 == b2;
  }

  lemma DecodeSingle(b0: Byte)
    ensures DecodeQuad([CharOf(b0 / 4), CharOf((b0 % 4) * 16), '=', '='], true) == Some([b0])
  {
    SextetOfCharOf(b0 / 4); SextetOfCharOf((b0 % 4) * 16);
    DivMod16(b0 % 4, 0);
  }

  lemma DecodePair(b0: Byte, b1: Byte)
    ensures DecodeQuad([CharOf(b0 / 4), CharOf((b0 % 4) * 16 + b1 / 16), CharOf((b1 % 16) * 4), '='], true)
         == Some([b0, b1])
  {
    SextetOfCharOf(b0 / 4); SextetOfCharOf((b0 % 4) * 16 + b1 / 16); SextetOfCharOf((b1 % 16) * 4);
    DivMod16(b0 % 4, b1 / 16);
    DivMod4(b1 % 16, 0);
  }

  /** Decoding a four-character group followed by more text. */
  lemma DecodeAppend(q: string, rest: string, head: seq<Byte>, tail: seq<Byte>)
    requires |q| == 4 && DecodeQuad(q, rest == []) == Some(head) && Decode(rest) == Some(tail)
    ensures Decode(q + rest) == Some(head + tail)
  {
    var s := q + rest;
    assert s[..4] == q && s[4..] == rest;
  }

  /** The last group of four decodes on its own, padding allowed. */
  lemma DecodeLast(q: string)
    requires |q| == 4
    ensures Decode(q) == DecodeQuad(q, true)
  {
    assert q[..4] == q;
    assert Decode(q[4..]) == Some([]);
    if DecodeQuad(q, true).Some? {
      assert DecodeQuad(q, true).value + [] == DecodeQuad(q, true).value;
    }
  }

  lemma DecodeEncodeOne(bs: seq<Byte>)
    requires |bs| == 1
    ensures Decode(Encode(bs)) == Some(bs)
  {
    var q := [CharOf(bs[0] / 4), CharOf((bs[0] % 4) * 16), '=', '='];
    assert Encode(bs) == q;
    DecodeSingle(bs[0]);
    assert [bs[0]] == bs;
    DecodeLast(q);
  }

  lemma DecodeEncodeTwo(bs: seq<Byte>)
    requires |bs| == 2
    ensures Decode(Encode(bs)) == Some(bs)
  {
    var q := [CharOf(bs[0] / 4), CharOf((bs[0] % 4) * 16 + bs[1] / 16), CharOf((bs[1] % 16) * 4), '='];
    assert Encode(bs) == q;
    DecodePair(bs[0], bs[1]);
    assert [bs[0], bs[1]] == bs;
    DecodeLast(q);
  }

  /** A full group of three bytes in front of bytes that survive the round trip survives it too. */
  lemma DecodeEncodeGroup(bs: seq<Byte>)
    requires |bs| >= 3 && Decode(Encode(bs[3..])) == Some(bs[3..])
    ensures Decode(Encode(bs)) == Some(bs)
  {
    SplitGroup(bs);
    var t, rest := EncodeTriple(bs[0], bs[1], bs[2]), Encode(bs[3..]);
    assert Encode(bs) == t + rest;
    DecodeTriple(bs[0], bs[1], bs[2], rest == []);
    DecodeAppend(t, rest, [bs[0], bs[1], bs[2]], bs[3..]);
  }

  lemma SplitGroup(bs: seq<Byte>)
    requires |bs| >= 3
    ensures [bs[0], bs[1], bs[2]] + bs[3..] == bs
  {
  }

  /** Decoding what `Encode` wrote gives back exactly the original bytes. */
  lemma {:induction false} DecodeEncode(bs: seq<Byte>)
    ensures Decode(Encode(bs)) == Some(bs)
    decreases |bs|
  {
    if |bs| == 1 {
      DecodeEncodeOne(bs);
    } else if |bs| == 2 {
      DecodeEncodeTwo(bs);
    } else if |bs| >= 3 {
      DecodeEncode(bs[3..]);
      DecodeEncodeGroup(bs);
    }
  }

  /** Every character `Encode` writes is in the alphabet or is padding at the end. */
  lemma {:induction false} EncodeAlphabet(bs: seq<Byte>)
    ensures forall i :: 0 <= i < |Encode(bs)| ==> InAlphabet(Encode(bs)[i]) || (Encode(bs)[i] == '=' && i >= |Encode(bs)| - 2)
    decreases |bs|
  {
    if |bs| >= 3 {
      EncodeAlphabet(bs[3..]);
      var t := EncodeTriple(bs[0], bs[1], bs[2]);
      SextetOfCharOf(bs[0] / 4);
      SextetOfCharOf((bs[0] % 4) * 16 + bs[1] / 16);
      SextetOfCharOf((bs[1] % 16) * 4 + bs[2] / 64);
      SextetOfCharOf(bs[2] % 64);
      assert Encode(bs) == t + Encode(bs[3..]);
    } else if |bs| == 2 {
      SextetOfCharOf(bs[0] / 4);
      SextetOfCharOf((bs[0] % 4) * 16 + bs[1] / 16);
      SextetOfCharOf((bs[1] % 16) * 4);
    } else if |bs| == 1 {
      SextetOfCharOf(bs[0] / 4);
      SextetOfCharOf((bs[0] % 4) * 16);
    }
  }
}

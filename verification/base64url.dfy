/** Go's `base64.URLEncoding`: the padded "URL and filename safe" alphabet of
    section 5 of RFC 4648, which writes `-` and `_` where the standard alphabet
    of section 4 writes `+` and `/`. */
module Base64Url {
  import opened Wrappers
  import opened GoStrings

  const Pad: char := '='

  /** The 64 characters of the URL-safe alphabet. */
  predicate IsAlphabetChar(c: char) {
    'A' <= c <= 'Z' || 'a' <= c <= 'z' || '0' <= c <= '9' || c == '-' || c == '_'
  }

  /** The value of an alphabet character (the table of section 5 of RFC 4648). */
  function CharValue(c: char): (v: nat)
    requires IsAlphabetChar(c)
    ensures v < 64
  {
    if 'A' <= c <= 'Z' then c as int - 'A' as int
    else if 'a' <= c <= 'z' then c as int - 'a' as int + 26
    else if '0' <= c <= '9' then c as int - '0' as int + 52
    else if c == '-' then 62
    else 63
  }

  /** The alphabet character for a 6-bit value; `CharValue` reads it back. */
  function ValueChar(v: nat): (c: char)
    requires v < 64
    ensures IsAlphabetChar(c) && CharValue(c) == v
  {
    if v < 26 then ('A' as int + v) as char
    else if v < 52 then ('a' as int + (v - 26)) as char
    else if v < 62 then ('0' as int + (v - 52)) as char
    else if v == 62 then '-'
    else '_'
  }

  /** Every character is in the alphabet or is the pad. */
  predicate InPaddedAlphabet(s: string) {
    forall i :: 0 <= i < |s| ==> IsAlphabetChar(s[i]) || s[i] == Pad
  }

  /** The pad appears at most in the last two positions. */
  predicate PaddedOnlyAtEnd(s: string) {
    forall i :: 0 <= i < |s| - 2 ==> s[i] != Pad
  }

  /** The length of the encoding of n bytes: four characters for every three
      bytes, counting a final one or two bytes as a full quantum. */
  function EncodedLength(n: nat): nat {
    4 * ((n + 2) / 3)
  }

  /** Three bytes, 24 bits, as four characters of six bits each. */
  function EncodeGroup(b0: byte, b1: byte, b2: byte): string {
    [ValueChar(b0 / 4), ValueChar(b0 % 4 * 16 + b1 / 16), ValueChar(b1 % 16 * 4 + b2 / 64), ValueChar(b2 % 64)]
  }

  /** A final quantum of two bytes: three characters and one pad. */
  function EncodeTail2(b0: byte, b1: byte): string {
    [ValueChar(b0 / 4), ValueChar(b0 % 4 * 16 + b1 / 16), ValueChar(b1 % 16 * 4), Pad]
  }

  /** A final quantum of one byte: two characters and two pads. */
  function EncodeTail1(b0: byte): string {
    [ValueChar(b0 / 4), ValueChar(b0 % 4 * 16), Pad, Pad]
  }

  /** `base64.URLEncoding.EncodeToString`: four characters per three bytes,
      rounded up, with padding only in the last two positions. */
  function Encode(bs: seq<byte>): (s: string)
    ensures |s| == EncodedLength(|bs|)
    ensures InPaddedAlphabet(s) && PaddedOnlyAtEnd(s)
    decreases |bs|
  {
    if |bs| == 0 then []
    else if |bs| == 1 then EncodeTail1(bs[0])
    else if |bs| == 2 then EncodeTail2(bs[0], bs[1])
    else EncodeGroup(bs[0], bs[1], bs[2]) + Encode(bs[3..])
  }

  /** Decodes one quantum of four characters into one, two or three bytes. */
  function DecodeQuantum(q: string): (r: Option<seq<byte>>)
    requires |q| == 4
    ensures r.Some? ==> 1 <= |r.value| <= 3
  {
    if IsAlphabetChar(q[0]) && IsAlphabetChar(q[1]) then
      var v0, v1 := CharValue(q[0]), CharValue(q[1]);
      if q[2] == Pad && q[3] == Pad then
        Some([v0 * 4 + v1 / 16])
      else if IsAlphabetChar(q[2]) && q[3] == Pad then
        var v2 := CharValue(q[2]);
        Some([v0 * 4 + v1 / 16, v1 % 16 * 16 + v2 / 4])
      else if IsAlphabetChar(q[2]) && IsAlphabetChar(q[3]) then
        var v2, v3 := CharValue(q[2]), CharValue(q[3]);
        Some([v0 * 4 + v1 / 16, v1 % 16 * 16 + v2 / 4, v2 % 4 * 64 + v3])
      else None
    else None
  }

  /** Decodes padded base64url text; padding may close only the last quantum.
      Used here as the inverse that the encoder is proved against. */
  function Decode(s: string): (r: Option<seq<byte>>)
    decreases |s|
  {
    if |s| == 0 then Some([])
    else if |s| < 4 then None
    else
      match DecodeQuantum(s[..4])
      case None => None
      case Some(head) =>
        if |s| > 4 && |head| < 3 then None
        else
          match Decode(s[4..])
          case None => None
          case Some(tail) => Some(head + tail)
  }

  /** A full quantum followed by more text decodes to its three bytes
      followed by the decoding of the rest. */
  lemma DecodeCons(q: string, rest: string, head: seq<byte>, tail: seq<byte>)
    requires |q| == 4 && DecodeQuantum(q) == Some(head) && |head| == 3
    requires Decode(rest) == Some(tail)
    ensures Decode(q + rest) == Some(head + tail)
  {
    var s := q + rest;
    assert s[..4] == q;
    assert s[4..] == rest;
  }

  /** A lone quantum decodes as that quantum. */
  lemma DecodeLast(q: string, head: seq<byte>)
    requires |q| == 4 && DecodeQuantum(q) == Some(head)
    ensures Decode(q) == Some(head)
  {
    assert q[..4] == q;
    assert q[4..] == [];
    assert head + [] == head;
  }

  lemma DecodeGroup(b0: byte, b1: byte, b2: byte)
    ensures DecodeQuantum(EncodeGroup(b0, b1, b2)) == Some([b0, b1, b2])
  {
    var v1, v2 := b0 % 4 * 16 + b1 / 16, b1 % 16 * 4 + b2 / 64;
    assert v1 / 16 == b0 % 4 && v1 % 16 == b1 / 16;
    assert v2 / 4 == b1 % 16 && v2 % 4 == b2 / 64;
    assert b0 / 4 * 4 + v1 / 16 == b0;
    assert v1 % 16 * 16 + v2 / 4 == b1;
    assert v2 % 4 * 64 + b2 % 64 == b2;
  }

  lemma DecodeTail2(b0: byte, b1: byte)
    ensures DecodeQuantum(EncodeTail2(b0, b1)) == Some([b0, b1])
  {
    var v1, v2 := b0 % 4 * 16 + b1 / 16, b1 % 16 * 4;
    assert v1 / 16 == b0 % 4 && v1 % 16 == b1 / 16;
    assert v2 / 4 == b1 % 16;
    assert b0 / 4 * 4 + v1 / 16 == b0;
    assert v1 % 16 * 16 + v2 / 4 == b1;
    assert ValueChar(v2) != Pad;
  }

  lemma DecodeTail1(b0: byte)
    ensures DecodeQuantum(EncodeTail1(b0)) == Some([b0])
  {
    assert b0 / 4 * 4 + (b0 % 4 * 16) / 16 == b0;
  }

  /** A byte string of three or more bytes is its first three and the rest. */
  lemma SplitThree(bs: seq<byte>)
    requires |bs| >= 3
    ensures [bs[0], bs[1], bs[2]] + bs[3..] == bs
  {
  }

  /** Round trip: decoding the encoding of any byte string gives it back. */
  lemma {:induction false} DecodeEncode(bs: seq<byte>)
    ensures Decode(Encode(bs)) == Some(bs)
    decreases |bs|
  {
    if |bs| == 1 {
      assert [bs[0]] == bs;
      DecodeTail1(bs[0]);
      DecodeLast(EncodeTail1(bs[0]), bs);
    } else if |bs| == 2 {
      assert [bs[0], bs[1]] == bs;
      DecodeTail2(bs[0], bs[1]);
      DecodeLast(EncodeTail2(bs[0], bs[1]), bs);
    } else if |bs| >= 3 {
      var g := EncodeGroup(bs[0], bs[1], bs[2]);
      assert Encode(bs) == g + Encode(bs[3..]);
      DecodeGroup(bs[0], bs[1], bs[2]);
      DecodeEncode(bs[3..]);
      DecodeCons(g, Encode(bs[3..]), [bs[0], bs[1], bs[2]], bs[3..]);
      SplitThree(bs);
    }
  }

  /** Encoding lengthens any non-empty byte string. */
  lemma EncodeLonger(bs: seq<byte>)
    requires |bs| > 0
    ensures |Encode(bs)| > |bs|
  {
    var n := |bs|;
    assert 3 * ((n + 2) / 3) >= n;
  }

  /** The encoding is injective: different byte strings never share a token. */
  lemma EncodeInjective(a: seq<byte>, b: seq<byte>)
    requires Encode(a) == Encode(b)
    ensures a == b
  {
    DecodeEncode(a);
    DecodeEncode(b);
  }
}

/** The parts of Go's string handling that Service.go relies on: the conversion
    `[]byte(s)` (the UTF-8 bytes of a string), `strings.Join`, and
    `strings.Split` on a one-character separator, the inverse of `Join`. */
module GoStrings {
  import opened Wrappers

  /** An octet. */
  type byte = x: int | 0 <= x < 256

  /** A continuation byte of UTF-8: 10xxxxxx. */
  predicate IsContinuation(b: byte) {
    0x80 <= b < 0xC0
  }

  /** The UTF-8 encoding of one Unicode scalar value (section 3 of RFC 3629). */
  function CharBytes(c: char): (bs: seq<byte>)
    ensures 1 <= |bs| <= 4
    ensures |bs| == 1 <==> c as int < 0x80
    ensures c as int < 0x80 ==> bs[0] == c as int
    ensures forall i :: 1 <= i < |bs| ==> IsContinuation(bs[i])
    ensures !IsContinuation(bs[0])
  {
    var n := c as int;
    var q1 := n / 0x40;
    var q2 := q1 / 0x40;
    var q3 := q2 / 0x40;
    if n < 0x80 then [n]
    else if n < 0x800 then [0xC0 + q1, 0x80 + n % 0x40]
    else if n < 0x1_0000 then [0xE0 + q2, 0x80 + q1 % 0x40, 0x80 + n % 0x40]
    else [0xF0 + q3, 0x80 + q2 % 0x40, 0x80 + q1 % 0x40, 0x80 + n % 0x40]
  }

  /** Go's `[]byte(s)`: the UTF-8 bytes of a string, character by character. */
  function Bytes(s: string): (bs: seq<byte>)
    ensures |bs| >= |s|
    decreases |s|
  {
    if s == [] then [] else CharBytes(s[0]) + Bytes(s[1..])
  }

  /** Decodes the character that starts `bs` and says how many bytes it took.
      Overlong forms, surrogates and values above U+10FFFF are refused. */
  function DecodeFirst(bs: seq<byte>): (r: Option<(char, nat)>)
    requires |bs| > 0
    ensures r.Some? ==> 1 <= r.value.1 <= |bs|
  {
    var b0 := bs[0] as int;
    if b0 < 0x80 then Some((b0 as char, 1))
    else if 0xC2 <= b0 < 0xE0 && |bs| >= 2 && IsContinuation(bs[1]) then
      Some((((b0 - 0xC0) * 0x40 + (bs[1] as int - 0x80)) as char, 2))
    else if 0xE0 <= b0 < 0xF0 && |bs| >= 3 && IsContinuation(bs[1]) && IsContinuation(bs[2]) then
      var n := (b0 - 0xE0) * 0x1000 + (bs[1] as int - 0x80) * 0x40 + (bs[2] as int - 0x80);
      if 0x800 <= n && !(0xD800 <= n < 0xE000) then Some((n as char, 3)) else None
    else if 0xF0 <= b0 < 0xF5 && |bs| >= 4
         && IsContinuation(bs[1]) && IsContinuation(bs[2]) && IsContinuation(bs[3]) then
      var n := (b0 - 0xF0) * 0x4_0000 + (bs[1] as int - 0x80) * 0x1000 + (bs[2] as int - 0x80) * 0x40 + (bs[3] as int - 0x80);
      if 0x1_0000 <= n < 0x11_0000 then Some((n as char, 4)) else None
    else None
  }

  /** The text whose UTF-8 encoding is `bs`, if `bs` is well-formed UTF-8. */
  function DecodeUtf8(bs: seq<byte>): (r: Option<string>)
    decreases |bs|
  {
    if bs == [] then Some([])
    else
      match DecodeFirst(bs)
      case None => None
      case Some((c, k)) =>
        match DecodeUtf8(bs[k..])
        case None => None
        case Some(rest) => Some([c] + rest)
  }

  /** Decoding reads back exactly the character that was encoded, and
      nothing of what follows it. */
  lemma DecodeCharBytes(c: char, rest: seq<byte>)
    ensures DecodeFirst(CharBytes(c) + rest) == Some((c, |CharBytes(c)|))
  {
    var n := c as int;
    var q1 := n / 0x40;
    var q2 := q1 / 0x40;
    var q3 := q2 / 0x40;
    var bs := CharBytes(c) + rest;
    if n < 0x80 {
    } else if n < 0x800 {
      assert q1 * 0x40 + n % 0x40 == n;
    } else if n < 0x1_0000 {
      assert q2 * 0x1000 + (q1 % 0x40) * 0x40 + n % 0x40 == n;
    } else {
      assert q3 * 0x4_0000 + (q2 % 0x40) * 0x1000 + (q1 % 0x40) * 0x40 + n % 0x40 == n;
    }
  }

  /** Round trip: the UTF-8 bytes of any text decode back to that text. */
  lemma {:induction false} DecodeBytes(s: string)
    ensures DecodeUtf8(Bytes(s)) == Some(s)
    decreases |s|
  {
    if s != [] {
      var head := CharBytes(s[0]);
      var bs := Bytes(s);
      assert bs == head + Bytes(s[1..]);
      DecodeCharBytes(s[0], Bytes(s[1..]));
      assert bs[|head|..] == Bytes(s[1..]);
      DecodeBytes(s[1..]);
      assert [s[0]] + s[1..] == s;
    }
  }

  /** The bytes of a concatenation are the concatenation of the bytes. */
  lemma {:induction false} BytesAppend(a: string, b: string)
    ensures Bytes(a + b) == Bytes(a) + Bytes(b)
    decreases |a|
  {
    if a != [] {
      assert (a + b)[0] == a[0];
      assert (a + b)[1..] == a[1..] + b;
      BytesAppend(a[1..], b);
      assert Bytes(a) == CharBytes(a[0]) + Bytes(a[1..]);
    } else {
      assert a + b == b;
    }
  }

  /** Go's `strings.Join(elems, sep)`: nothing for no elements, otherwise the
      text starts with the first element and ends with the last. */
  function Join(elems: seq<string>, sep: string): (r: string)
    ensures |elems| == 0 ==> r == []
    ensures |elems| > 0 ==> |r| >= |elems[0]| && r[..|elems[0]|] == elems[0]
    ensures |elems| > 0 ==> |r| >= |elems[|elems| - 1]| && r[|r| - |elems[|elems| - 1]|..] == elems[|elems| - 1]
    decreases |elems|
  {
    if |elems| == 0 then []
    else if |elems| == 1 then elems[0]
    else elems[0] + sep + Join(elems[1..], sep)
  }

  /** Go's `strings.Split(s, [sep])`: the pieces between occurrences of `sep`;
      the empty string splits into one empty piece. */
  function Split(s: string, sep: char): (parts: seq<string>)
    ensures |parts| == Count(s, sep) + 1
    ensures NoPieceHolds(parts, sep)
    decreases |s|
  {
    if s == [] then [[]]
    else
      var rest := Split(s[1..], sep);
      if s[0] == sep then [[]] + rest
      else [[s[0]] + rest[0]] + rest[1..]
  }

  /** No piece contains the separator. */
  predicate NoPieceHolds(parts: seq<string>, sep: char) {
    forall i :: 0 <= i < |parts| ==> sep !in parts[i]
  }

  /** The number of occurrences of `c` in `s`. */
  function Count(s: string, c: char): (n: nat)
    ensures n <= |s|
    ensures n == 0 <==> c !in s
    decreases |s|
  {
    if s == [] then 0 else (if s[0] == c then 1 else 0) + Count(s[1..], c)
  }

  lemma {:induction false} CountAppend(a: string, b: string, c: char)
    ensures Count(a + b, c) == Count(a, c) + Count(b, c)
    decreases |a|
  {
    if a == [] {
      assert a + b == b;
    } else {
      assert (a + b)[1..] == a[1..] + b;
      CountAppend(a[1..], b, c);
    }
  }

  /** A non-empty string is its first character followed by the rest. */
  lemma HeadTail(a: string)
    requires a != []
    ensures [a[0]] + a[1..] == a
  {
  }

  /** Dropping the first character of `a + [sep] + b`, for a non-empty `a`. */
  lemma TailOfConcat(a: string, sep: char, b: string)
    requires a != []
    ensures (a + [sep] + b)[0] == a[0]
    ensures (a + [sep] + b)[1..] == a[1..] + [sep] + b
  {
  }

  /** A piece free of the separator, followed by the separator, splits off as
      exactly that piece. */
  lemma {:induction false} SplitPrefix(a: string, b: string, sep: char)
    requires sep !in a
    ensures Split(a + [sep] + b, sep) == [a] + Split(b, sep)
    decreases |a|
  {
    var s := a + [sep] + b;
    if a == [] {
      assert s == [sep] + b;
      assert s[1..] == b;
    } else {
      TailOfConcat(a, sep, b);
      SplitPrefix(a[1..], b, sep);
      var rest := Split(s[1..], sep);
      assert Split(s, sep) == [[a[0]] + rest[0]] + rest[1..];
      HeadTail(a);
    }
  }

  /** A string free of the separator splits into itself alone. */
  lemma {:induction false} SplitNoSeparator(a: string, sep: char)
    requires sep !in a
    ensures Split(a, sep) == [a]
    decreases |a|
  {
    if a != [] {
      SplitNoSeparator(a[1..], sep);
      HeadTail(a);
    }
  }

  /** Splitting undoes joining, when no piece holds the separator; the joined
      string then holds one separator fewer than there are pieces. */
  lemma {:induction false} SplitJoin(elems: seq<string>, sep: char)
    requires |elems| > 0
    requires NoPieceHolds(elems, sep)
    ensures Split(Join(elems, [sep]), sep) == elems
    ensures Count(Join(elems, [sep]), sep) == |elems| - 1
    decreases |elems|
  {
    if |elems| == 1 {
      SplitNoSeparator(elems[0], sep);
    } else {
      var tail := Join(elems[1..], [sep]);
      SplitJoin(elems[1..], sep);
      SplitPrefix(elems[0], tail, sep);
      CountAppend(elems[0] + [sep], tail, sep);
      CountAppend(elems[0], [sep], sep);
      assert [elems[0]] + elems[1..] == elems;
    }
  }
}
